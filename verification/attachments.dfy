/** The upload rules of the campaign routes: the attachment filter's
    allow-list, the size and count limits, the order in which the upload
    middleware applies them, and the name a stored attachment gets. */
module Attachments {
  import opened Http
  import opened Numerals

  /** One file part of a multipart request. */
  datatype FilePart = FilePart(fieldname: string, originalname: string, mimetype: string, size: nat)

  /** The MIME types `emailAttachmentFilter` accepts. */
  const AllowedMimes: seq<string> := [
    "image/jpeg", "image/jpg", "image/png", "image/gif", "image/webp",
    "application/pdf",
    "application/vnd.openxmlformats-officedocument.wordprocessingml.document"
  ]

  /** `limits.fileSize`: ten mebibytes. */
  const MaxFileSize: nat := 10 * 1024 * 1024

  /** `limits.files`, and the count `array('attachments', 5)` allows. */
  const MaxFiles: nat := 5

  const AttachmentsField: string := "attachments"

  const InvalidType: string := "Invalid file type. Only images, PDFs, and DOCX files are allowed."
  const TooManyFiles: string := "Too many files"
  const UnexpectedField: string := "Unexpected field"
  const FileTooLarge: string := "File too large"

  predicate AllowedMime(m: string) {
    m in AllowedMimes
  }

  /** `emailAttachmentFilter`: accept an allowed type, refuse anything else
      with the fixed message. */
  function AttachmentFilter(f: FilePart): (r: Result<FilePart>)
    ensures r.Ok? <==> AllowedMime(f.mimetype)
    ensures r.Ok? ==> r.value == f
    ensures r.Err? ==> r.error == UploadRejected(InvalidType)
  {
    if AllowedMime(f.mimetype) then Ok(f) else Err(UploadRejected(InvalidType))
  }

  /** The check the middleware makes of the part at `index`: the file count
      first, then the field, then the filter, then the size (a file of exactly
      the limit passes). */
  function CheckPart(f: FilePart, index: nat): Result<FilePart> {
    if index >= MaxFiles then Err(UploadRejected(TooManyFiles))
    else if f.fieldname != AttachmentsField then Err(UploadRejected(UnexpectedField))
    else match AttachmentFilter(f)
      case Err(e) => Err(e)
      case Ok(_) => if f.size > MaxFileSize then Err(UploadRejected(FileTooLarge)) else Ok(f)
  }

  /** A part that passes every check. */
  predicate Acceptable(f: FilePart) {
    f.fieldname == AttachmentsField && AllowedMime(f.mimetype) && f.size <= MaxFileSize
  }

  /** The upload middleware over the parts of a request, in order: the first
      failing check rejects the whole request; a part without a file name is
      counted but not kept. */
  function Screen(parts: seq<FilePart>): (r: Result<seq<FilePart>>)
    ensures r.Ok? ==> |r.value| <= |parts|
    decreases |parts|
  {
    if parts == [] then Ok([])
    else
      var n := |parts| - 1;
      match Screen(parts[..n])
      case Err(e) => Err(e)
      case Ok(kept) =>
        if n >= MaxFiles then Err(UploadRejected(TooManyFiles))
        else if parts[n].originalname == "" then Ok(kept)
        else match CheckPart(parts[n], n)
          case Err(e) => Err(e)
          case Ok(f) => Ok(kept + [f])
  }

  /** A request is accepted exactly when it has at most five parts and every
      named part passes; then the kept files are the named parts, in order,
      and each has an allowed type and size. */
  lemma ScreenAccepts(parts: seq<FilePart>)
    ensures Screen(parts).Ok? <==>
      |parts| <= MaxFiles && forall i :: 0 <= i < |parts| && parts[i].originalname != "" ==> Acceptable(parts[i])
    ensures Screen(parts).Ok? ==>
      && Screen(parts).value == Named(parts)
      && forall i :: 0 <= i < |Screen(parts).value| ==>
           Acceptable(Screen(parts).value[i]) && Screen(parts).value[i].originalname != ""
  {
    ScreenOkIff(parts);
    if Screen(parts).Ok? {
      ScreenKeepsNamed(parts);
      NamedAcceptable(parts);
    }
  }

  lemma {:induction false} ScreenOkIff(parts: seq<FilePart>)
    ensures Screen(parts).Ok? <==>
      |parts| <= MaxFiles && forall i :: 0 <= i < |parts| && parts[i].originalname != "" ==> Acceptable(parts[i])
    decreases |parts|
  {
    if parts != [] {
      var n := |parts| - 1;
      ScreenOkIff(parts[..n]);
      if Screen(parts[..n]).Err? && |parts| <= MaxFiles {
        var i :| 0 <= i < n && parts[..n][i].originalname != "" && !Acceptable(parts[..n][i]);
        assert parts[i] == parts[..n][i];
      }
    }
  }

  lemma {:induction false} ScreenKeepsNamed(parts: seq<FilePart>)
    ensures Screen(parts).Ok? ==> Screen(parts).value == Named(parts)
    decreases |parts|
  {
    if parts != [] {
      ScreenKeepsNamed(parts[..|parts| - 1]);
    }
  }

  lemma {:induction false} NamedAcceptable(parts: seq<FilePart>)
    requires forall i :: 0 <= i < |parts| && parts[i].originalname != "" ==> Acceptable(parts[i])
    ensures forall i :: 0 <= i < |Named(parts)| ==> Acceptable(Named(parts)[i]) && Named(parts)[i].originalname != ""
    decreases |parts|
  {
    if parts != [] {
      var n := |parts| - 1;
      assert forall i :: 0 <= i < n ==> parts[..n][i] == parts[i];
      NamedAcceptable(parts[..n]);
    }
  }

  /** The parts that carry a file name, in order. */
  function Named(parts: seq<FilePart>): seq<FilePart>
    decreases |parts|
  {
    if parts == [] then []
    else
      var n := |parts| - 1;
      Named(parts[..n]) + (if parts[n].originalname != "" then [parts[n]] else [])
  }

  /** Whatever the middleware rejects, it rejects with one of its four
      messages. */
  lemma {:induction false} ScreenErrors(parts: seq<FilePart>)
    ensures Screen(parts).Err? ==>
      Screen(parts).error in {UploadRejected(TooManyFiles), UploadRejected(UnexpectedField),
                              UploadRejected(InvalidType), UploadRejected(FileTooLarge)}
    decreases |parts|
  {
    if parts != [] {
      ScreenErrors(parts[..|parts| - 1]);
    }
  }

  /** The last `c` in `s`, if any. */
  function LastIndex(s: string, c: char): (r: Option<nat>)
    ensures r.Some? ==> r.value < |s| && s[r.value] == c && c !in s[r.value + 1..]
    ensures r.None? ==> c !in s
    decreases |s|
  {
    if s == [] then None
    else if s[|s| - 1] == c then Some(|s| - 1)
    else
      var r := LastIndex(s[..|s| - 1], c);
      if r.Some? then
        assert s[r.value + 1..] == s[..|s| - 1][r.value + 1..] + [s[|s| - 1]];
        r
      else
        assert s == s[..|s| - 1] + [s[|s| - 1]];
        None
  }

  /** A path without its trailing slashes. */
  function StripTrailingSlashes(p: string): (r: string)
    ensures r == [] || r[|r| - 1] != '/'
    decreases |p|
  {
    if p != [] && p[|p| - 1] == '/' then StripTrailingSlashes(p[..|p| - 1]) else p
  }

  /** The last component of a POSIX path. */
  function BaseName(p: string): (b: string)
    ensures '/' !in b
  {
    var q := StripTrailingSlashes(p);
    match LastIndex(q, '/')
    case None => q
    case Some(i) => q[i + 1..]
  }

  /** `path.extname`: from the last dot of the last component to its end,
      unless that component has no dot, starts with its only dot, or is `..`. */
  function ExtName(p: string): (e: string)
    ensures e != "" ==> e[0] == '.' && '.' !in e[1..] && '/' !in e
    ensures e != "" ==> |e| < |BaseName(p)| && BaseName(p)[|BaseName(p)| - |e|..] == e
    ensures e == "" <==> !(|BaseName(p)| >= 2 && '.' in BaseName(p)[1..] && BaseName(p) != "..")
  {
    var b := BaseName(p);
    match LastIndex(b, '.')
    case None =>
      ""
    case Some(d) =>
      if d == 0 then
        assert b[1..] == b[d + 1..];
        ""
      else if b == ".." then ""
      else
        ExtensionSuffix(b, d);
        b[d..]
  }

  /** The tail of a component from its last dot is an extension. */
  lemma ExtensionSuffix(b: string, d: nat)
    requires 0 < d < |b| && b[d] == '.' && '.' !in b[d + 1..] && '/' !in b
    ensures b[d..][0] == '.' && '.' !in b[d..][1..] && '/' !in b[d..]
    ensures |b[d..]| < |b| && b[|b| - |b[d..]|..] == b[d..]
    ensures |b| >= 2 && '.' in b[1..]
  {
    assert b[d..][1..] == b[d + 1..];
    assert b[1..][d - 1] == '.';
  }

  /** `${Date.now()}-${Math.round(Math.random() * 1e9)}`. */
  function UniqueSuffix(timestamp: nat, random: nat): string {
    Decimal(timestamp) + "-" + Decimal(random)
  }

  /** The name disk storage gives an accepted file:
      `attachment-<timestamp>-<random><extension>`. */
  function StoredFilename(timestamp: nat, random: nat, originalname: string): string {
    "attachment-" + UniqueSuffix(timestamp, random) + ExtName(originalname)
  }

  /** Digits followed by a non-digit (or nothing) can be read back. */
  lemma DigitsThenRest(a: string, x: string, b: string, y: string)
    requires forall i :: 0 <= i < |a| ==> IsDecimalDigit(a[i])
    requires forall i :: 0 <= i < |b| ==> IsDecimalDigit(b[i])
    requires x == [] || !IsDecimalDigit(x[0])
    requires y == [] || !IsDecimalDigit(y[0])
    requires a + x == b + y
    ensures a == b && x == y
  {
    assert a == (a + x)[..|a|];
    assert b == (b + y)[..|b|];
    assert x == (a + x)[|a|..];
    assert y == (b + y)[|b|..];
  }

  /** Regrouping a stored name around its fixed prefix. */
  lemma Regroup(p: string, a: string, m: string, b: string, e: string)
    ensures p + (a + m + b) + e == p + (a + (m + (b + e)))
  {
  }

  /** Different timestamps or random values give different stored names, and
      the name keeps the original extension. */
  lemma StoredFilenameInjective(t1: nat, r1: nat, n1: string, t2: nat, r2: nat, n2: string)
    requires StoredFilename(t1, r1, n1) == StoredFilename(t2, r2, n2)
    ensures t1 == t2 && r1 == r2 && ExtName(n1) == ExtName(n2)
  {
    var u1 := Decimal(r1) + ExtName(n1);
    var u2 := Decimal(r2) + ExtName(n2);
    var s1 := Decimal(t1) + ("-" + u1);
    var s2 := Decimal(t2) + ("-" + u2);
    Regroup("attachment-", Decimal(t1), "-", Decimal(r1), ExtName(n1));
    Regroup("attachment-", Decimal(t2), "-", Decimal(r2), ExtName(n2));
    PrefixCancel("attachment-", s1, s2);
    DigitsThenRest(Decimal(t1), "-" + u1, Decimal(t2), "-" + u2);
    PrefixCancel("-", u1, u2);
    DigitsThenRest(Decimal(r1), ExtName(n1), Decimal(r2), ExtName(n2));
    RenderInjective(t1, t2, 10);
    RenderInjective(r1, r2, 10);
  }

  lemma PrefixCancel(p: string, x: string, y: string)
    requires p + x == p + y
    ensures x == y
  {
    assert x == (p + x)[|p|..];
    assert y == (p + y)[|p|..];
  }
}
