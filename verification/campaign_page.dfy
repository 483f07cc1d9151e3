/** The campaign page's client state: the selected recipients (a `Set` kept
    in insertion order), the composition fields, and the chosen files, with
    the handlers that change them and the guards before the preview and send
    requests. */
module CampaignPage {
  import opened Http
  import opened Templates
  import opened Attachments

  /** A file chosen in the browser. */
  datatype ClientFile = ClientFile(name: string, fileType: string, size: nat)

  /** The fields the page submits with a preview or send request. */
  datatype CampaignRequest = CampaignRequest(
    recipientIds: seq<string>,
    subject: string,
    headerTitle: string,
    bodyContent: string,
    attachments: seq<ClientFile>)

  /** The page's own copy of the allowed types. */
  const ValidTypes: seq<string> := [
    "image/jpeg", "image/jpg", "image/png", "image/gif", "image/webp",
    "application/pdf", "application/vnd.openxmlformats-officedocument.wordprocessingml.document"
  ]

  /** The variables the page offers to insert. */
  const AvailableVariables: seq<string> := ["name", "email", "unit"]

  /** The page's list and the server's filter allow the same types. */
  lemma ValidTypesMatchServer()
    ensures ValidTypes == AllowedMimes
  {
  }

  /** Every offered variable is one the send handler fills in. */
  lemma OfferedVariablesAreFilled()
    ensures forall k :: 0 <= k < |AvailableVariables| ==>
      AvailableVariables[k] in ["name", "email", "role", "unit"]
  {
  }

  /** The filter in `handleFileChange`: an allowed type and at most 10 MB. */
  predicate Keeps(f: ClientFile) {
    f.fileType in ValidTypes && f.size <= 10 * 1024 * 1024
  }

  /** The chosen files the page keeps, in order. */
  function ValidFiles(files: seq<ClientFile>): (r: seq<ClientFile>)
    ensures |r| <= |files|
    decreases |files|
  {
    if files == [] then []
    else ValidFiles(files[..|files| - 1]) + (if Keeps(files[|files| - 1]) then [files[|files| - 1]] else [])
  }

  /** The kept files are exactly the chosen files that pass the filter. */
  lemma {:induction false} ValidFilesIff(files: seq<ClientFile>)
    ensures forall f :: f in ValidFiles(files) <==> f in files && Keeps(f)
    decreases |files|
  {
    if files != [] {
      ValidFilesIff(files[..|files| - 1]);
      assert files == files[..|files| - 1] + [files[|files| - 1]];
    }
  }

  /** The part a kept file becomes in the multipart body. */
  function AsPart(f: ClientFile): FilePart {
    FilePart(AttachmentsField, f.name, f.fileType, f.size)
  }

  /** Files the page keeps, at most five of them, pass the upload
      middleware: the two sets of rules agree. */
  lemma KeptFilesPassUpload(files: seq<ClientFile>)
    requires |files| <= MaxFiles
    requires forall i :: 0 <= i < |files| ==> Keeps(files[i])
    ensures Screen(seq(|files|, i requires 0 <= i < |files| => AsPart(files[i]))).Ok?
  {
    var parts := seq(|files|, i requires 0 <= i < |files| => AsPart(files[i]));
    ScreenAccepts(parts);
    forall i | 0 <= i < |parts| ensures Acceptable(parts[i]) {
      assert parts[i] == AsPart(files[i]);
    }
  }

  /** A selection with `id` removed. */
  function Without(s: seq<string>, id: string): (r: seq<string>)
    ensures forall x :: x in r <==> x in s && x != id
    ensures |r| <= |s|
    decreases |s|
  {
    if s == [] then []
    else Without(s[..|s| - 1], id) + (if s[|s| - 1] == id then [] else [s[|s| - 1]])
  }

  predicate Distinct(s: seq<string>) {
    forall i, j :: 0 <= i < j < |s| ==> s[i] != s[j]
  }

  lemma {:induction false} WithoutDistinct(s: seq<string>, id: string)
    requires Distinct(s)
    ensures Distinct(Without(s, id))
    decreases |s|
  {
    if s != [] {
      var init := s[..|s| - 1];
      WithoutDistinct(init, id);
      assert s[|s| - 1] !in init;
    }
  }

  /** A selection without `id` is unchanged by removing it. */
  lemma {:induction false} WithoutAbsent(s: seq<string>, id: string)
    requires id !in s
    ensures Without(s, id) == s
    decreases |s|
  {
    if s != [] {
      WithoutAbsent(s[..|s| - 1], id);
      assert s == s[..|s| - 1] + [s[|s| - 1]];
    }
  }

  /** `toggleRecipient`'s new selection. */
  function Toggled(s: seq<string>, id: string): seq<string> {
    if id in s then Without(s, id) else s + [id]
  }

  /** Toggling flips the membership of `id` alone and keeps the selection
      free of repeats. */
  lemma ToggledMembership(s: seq<string>, id: string)
    requires Distinct(s)
    ensures id in Toggled(s, id) <==> id !in s
    ensures forall x :: x != id ==> (x in Toggled(s, id) <==> x in s)
    ensures Distinct(Toggled(s, id))
  {
    if id in s {
      WithoutDistinct(s, id);
    }
  }

  /** Toggling twice restores the selection's members, and the very
      sequence when `id` was not selected. */
  lemma ToggleTwice(s: seq<string>, id: string)
    requires Distinct(s)
    ensures forall x :: x in Toggled(Toggled(s, id), id) <==> x in s
    ensures id !in s ==> Toggled(Toggled(s, id), id) == s
  {
    ToggledMembership(s, id);
    ToggledMembership(Toggled(s, id), id);
    if id !in s {
      assert id in s + [id];
      WithoutAbsent(s, id);
      WithoutAppend(s, id);
    }
  }

  /** Removing the element just appended gives back what was there. */
  lemma WithoutAppend(s: seq<string>, id: string)
    requires id !in s
    ensures Without(s + [id], id) == Without(s, id)
  {
    assert (s + [id])[..|s + [id]| - 1] == s;
  }

  /** `new Set(ids)` in iteration order: the first occurrence of each id. */
  function Dedup(ids: seq<string>): (r: seq<string>)
    ensures forall x :: x in r <==> x in ids
    ensures Distinct(r)
    decreases |ids|
  {
    if ids == [] then []
    else
      var r := Dedup(ids[..|ids| - 1]);
      var last := ids[|ids| - 1];
      assert ids == ids[..|ids| - 1] + [last];
      if last in r then r else r + [last]
  }

  /** `Dedup` leaves a list without repeats as it is. */
  lemma {:induction false} DedupDistinct(ids: seq<string>)
    requires Distinct(ids)
    ensures Dedup(ids) == ids
    decreases |ids|
  {
    if ids != [] {
      var init := ids[..|ids| - 1];
      DedupDistinct(init);
      assert ids[|ids| - 1] !in init;
      assert ids == init + [ids[|ids| - 1]];
    }
  }

  /** `filter((_, i) => i !== index)`. */
  function RemoveAt(xs: seq<ClientFile>, index: int): (r: seq<ClientFile>)
    ensures 0 <= index < |xs| ==> r == xs[..index] + xs[index + 1..]
    ensures !(0 <= index < |xs|) ==> r == xs
    decreases |xs|
  {
    if xs == [] then []
    else
      var n := |xs| - 1;
      var init := RemoveAt(xs[..n], index);
      assert xs == xs[..n] + [xs[n]];
      if n == index then
        assert xs[..n] == xs[..index] && xs[index + 1..] == [];
        xs[..n]
      else
        assert 0 <= index < n ==> xs[index + 1..] == xs[..n][index + 1..] + [xs[n]];
        init + [xs[n]]
  }

  class Page {
    /** The ids of the recipients currently loaded. */
    var recipients: seq<string>
    /** `selectedRecipients`, in insertion order. */
    var selected: seq<string>
    var subject: string
    var headerTitle: string
    var bodyContent: string
    var attachments: seq<ClientFile>

    /** No id is selected twice and at most five files, each allowed, are
        attached. */
    ghost predicate Valid()
      reads this
    {
      Distinct(selected) && |attachments| <= MaxFiles
      && forall i :: 0 <= i < |attachments| ==> Keeps(attachments[i])
    }

    constructor (recipients: seq<string>)
      ensures Valid()
      ensures this.recipients == recipients
      ensures selected == [] && attachments == []
      ensures subject == "" && headerTitle == "" && bodyContent == ""
    {
      this.recipients := recipients;
      selected := [];
      subject := "";
      headerTitle := "";
      bodyContent := "";
      attachments := [];
    }

    /** `toggleRecipient`. */
    method ToggleRecipient(id: string)
      requires Valid()
      modifies this
      ensures Valid()
      ensures selected == Toggled(old(selected), id)
      ensures id in selected <==> id !in old(selected)
      ensures forall x :: x != id ==> (x in selected <==> x in old(selected))
      ensures recipients == old(recipients) && attachments == old(attachments)
      ensures subject == old(subject) && headerTitle == old(headerTitle) && bodyContent == old(bodyContent)
    {
      ToggledMembership(selected, id);
      if id in selected {
        selected := Without(selected, id);
      } else {
        selected := selected + [id];
      }
    }

    /** `selectAll`: exactly the loaded recipients' ids. */
    method SelectAll()
      requires Valid()
      modifies this
      ensures Valid()
      ensures selected == Dedup(recipients)
      ensures forall x :: x in selected <==> x in recipients
      ensures recipients == old(recipients) && attachments == old(attachments)
      ensures subject == old(subject) && headerTitle == old(headerTitle) && bodyContent == old(bodyContent)
    {
      selected := Dedup(recipients);
    }

    /** `clearSelection`. */
    method ClearSelection()
      requires Valid()
      modifies this
      ensures Valid()
      ensures selected == []
      ensures recipients == old(recipients) && attachments == old(attachments)
      ensures subject == old(subject) && headerTitle == old(headerTitle) && bodyContent == old(bodyContent)
    {
      selected := [];
    }

    /** `insertVariable`: the variable's token is appended to the body. */
    method InsertVariable(key: string)
      requires Valid()
      modifies this
      ensures Valid()
      ensures bodyContent == old(bodyContent) + Token(key)
      ensures selected == old(selected) && recipients == old(recipients) && attachments == old(attachments)
      ensures subject == old(subject) && headerTitle == old(headerTitle)
    {
      bodyContent := bodyContent + Token(key);
    }

    /** `handleFileChange`: the allowed files are appended in order unless
        that would make more than five, in which case nothing is added. */
    method HandleFileChange(files: seq<ClientFile>) returns (added: bool)
      requires Valid()
      modifies this
      ensures Valid()
      ensures added <==> |old(attachments)| + |ValidFiles(files)| <= MaxFiles
      ensures added ==> attachments == old(attachments) + ValidFiles(files)
      ensures !added ==> attachments == old(attachments)
      ensures selected == old(selected) && recipients == old(recipients)
      ensures subject == old(subject) && headerTitle == old(headerTitle) && bodyContent == old(bodyContent)
    {
      var valid := ValidFiles(files);
      if |attachments| + |valid| > MaxFiles {
        return false;
      }
      ValidFilesIff(files);
      forall i | 0 <= i < |valid| ensures Keeps(valid[i]) {
        assert valid[i] in valid;
      }
      attachments := attachments + valid;
      added := true;
    }

    /** `removeAttachment`: the file at `index` goes, the rest keep their
        order; an index out of range changes nothing. */
    method RemoveAttachment(index: int)
      requires Valid()
      modifies this
      ensures Valid()
      ensures attachments == RemoveAt(old(attachments), index)
      ensures selected == old(selected) && recipients == old(recipients)
      ensures subject == old(subject) && headerTitle == old(headerTitle) && bodyContent == old(bodyContent)
    {
      var before := attachments;
      attachments := RemoveAt(attachments, index);
      forall i | 0 <= i < |attachments| ensures Keeps(attachments[i]) {
        if 0 <= index < |before| {
          assert attachments[i] == before[if i < index then i else i + 1];
        }
      }
    }

    /** The guard of `handlePreview`: no request without a selection; the
        title goes as typed. */
    method PreviewRequest() returns (req: Option<CampaignRequest>)
      ensures req.None? <==> selected == []
      ensures req.Some? ==>
        req.value == CampaignRequest(selected, subject, headerTitle, bodyContent, attachments)
    {
      if |selected| == 0 {
        return None;
      }
      req := Some(CampaignRequest(selected, subject, headerTitle, bodyContent, attachments));
    }

    /** `handleSend`: no request without a selection, a subject and a body;
        the title falls back to the subject; after the request succeeds
        (`succeeded`) every composition field, the files and the selection
        are reset, and after a failure nothing changes. */
    method HandleSend(succeeded: bool) returns (req: Option<CampaignRequest>)
      requires Valid()
      modifies this
      ensures Valid()
      ensures req.None? <==> old(selected) == [] || old(subject) == "" || old(bodyContent) == ""
      ensures req.Some? ==>
        req.value == CampaignRequest(old(selected), old(subject),
                                     if old(headerTitle) != "" then old(headerTitle) else old(subject),
                                     old(bodyContent), old(attachments))
      ensures recipients == old(recipients)
      ensures req.Some? && succeeded ==>
        subject == "" && headerTitle == "" && bodyContent == "" && attachments == [] && selected == []
      ensures req.None? || !succeeded ==>
        && subject == old(subject) && headerTitle == old(headerTitle) && bodyContent == old(bodyContent)
        && attachments == old(attachments) && selected == old(selected)
    {
      if |selected| == 0 {
        return None;
      }
      if subject == "" || bodyContent == "" {
        return None;
      }
      var title := if headerTitle != "" then headerTitle else subject;
      req := Some(CampaignRequest(selected, subject, title, bodyContent, attachments));
      if succeeded {
        subject := "";
        headerTitle := "";
        bodyContent := "";
        attachments := [];
        ClearSelection();
      }
    }
  }
}
