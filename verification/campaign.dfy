/** The campaign handlers: the recipient list, the preview of the first
    selected recipient's message, and the send loop with its report and the
    removal of the uploaded files. The mail relay and the file system are
    parameters: `relay(i, mail)` is the outcome of the `i`-th send attempt and
    `unlink(path)` whether deleting a file succeeds. */
module Campaign {
  import opened Http
  import opened Text
  import opened Numerals
  import opened UserModel
  import opened UnitModel
  import opened Store
  import opened AdminController
  import opened Templates

  // ---------------------------------------------------------------------
  // Recipient ids

  /** The `recipientIds` field of the request body: an array, a string (with
      the list `JSON.parse` produced from it, if it parsed as one), or
      anything else. */
  datatype IdsField =
    | IdsArray(ids: seq<string>)
    | IdsText(text: string, parsed: Option<seq<string>>)
    | IdsOther

  predicate IsComma(c: char) {
    c == ','
  }

  /** The ids both handlers read from the field: a parsed list as is, a text
      that does not parse split at commas with each piece trimmed, an array as
      is, anything else as no ids. */
  function RecipientIds(field: IdsField): seq<string> {
    match field
    case IdsArray(ids) => ids
    case IdsText(_, Some(ids)) => ids
    case IdsText(text, None) => TrimEach(Split(text, IsComma))
    case IdsOther => []
  }

  /** A text that does not parse as JSON always yields at least one id, and
      each is trimmed and free of commas. */
  lemma TextIds(text: string)
    ensures var ids := RecipientIds(IdsText(text, None));
      && |ids| >= 1
      && forall k :: 0 <= k < |ids| ==> ',' !in ids[k] && Trim(ids[k]) == ids[k]
  {
    var parts := Split(text, IsComma);
    SplitPiecesHaveNoSeparator(text, IsComma);
    var ids := TrimEach(parts);
    forall k | 0 <= k < |ids|
      ensures ',' !in ids[k] && Trim(ids[k]) == ids[k]
    {
      TrimFacts(parts[k]);
      TrimIdempotent(parts[k]);
      var start := TrimStartLen(parts[k]);
      forall i | 0 <= i < |ids[k]| ensures ids[k][i] != ',' {
        assert ids[k][i] == parts[k][start + i];
      }
    }
  }

  /** Every id the store mints passes the preview's format check. */
  lemma MintedIdsPassCheck(n: nat)
    requires n < Power(16, 24)
    ensures IsObjectIdString(ObjectIdHex(n))
  {
    ObjectIdHexWidth(n);
  }

  // ---------------------------------------------------------------------
  // Per-recipient data

  /** The unit name `populate('unit', 'name')` brings in: none when the user
      has no unit or the unit no longer exists. */
  function UnitNameOf(u: UserRecord, units: seq<UnitRecord>): (r: Option<string>)
    ensures r.Some? ==> u.unit.Some? && exists k :: 0 <= k < |units| && units[k].id == u.unit.value && units[k].name == r.value
    ensures r.None? ==> u.unit.None? || forall k :: 0 <= k < |units| ==> units[k].id != u.unit.value
  {
    match u.unit
    case None => None
    case Some(id) =>
      match UnitIndex(units, id)
      case None => None
      case Some(k) => Some(units[k].name)
  }

  /** The variables of one recipient, in the order `replaceVariables` visits
      them, each falling back to `N/A`. */
  function RecipientVars(u: UserRecord, units: seq<UnitRecord>): seq<(string, string)> {
    [("name", Fallback(u.name)), ("email", Fallback(u.email)),
     ("role", Fallback(RoleName(u.role))), ("unit", Fallback(UnitNameOf(u, units).GetOr("")))]
  }

  /** For a stored user the name and email variables are the user's own; the
      unit variable is the unit's name, or `N/A` exactly when there is none. */
  lemma RecipientVarsFacts(u: UserRecord, units: seq<UnitRecord>)
    requires u.name != "" && u.email != ""
    requires forall k :: 0 <= k < |units| ==> units[k].name != ""
    ensures var vars := RecipientVars(u, units);
      && |vars| == 4
      && vars[0] == ("name", u.name) && vars[1] == ("email", u.email)
      && vars[2] == ("role", RoleName(u.role))
      && (UnitNameOf(u, units).None? ==> vars[3] == ("unit", "N/A"))
      && (UnitNameOf(u, units).Some? ==> vars[3] == ("unit", UnitNameOf(u, units).value))
  {
  }

  // ---------------------------------------------------------------------
  // getRecipients

  /** One entry of the recipient list. */
  datatype Recipient = Recipient(
    userId: string,
    name: string,
    email: string,
    role: string,
    unit: Option<string>,
    isApproved: bool)

  function ToRecipient(u: UserRecord, units: seq<UnitRecord>): Recipient {
    Recipient(u.id, u.name, u.email, RoleName(u.role), UnitNameOf(u, units), u.isApproved)
  }

  function Project(us: seq<UserRecord>, units: seq<UnitRecord>): (r: seq<Recipient>)
    ensures |r| == |us|
    ensures forall i :: 0 <= i < |us| ==> r[i] == ToRecipient(us[i], units)
  {
    seq(|us|, i requires 0 <= i < |us| => ToRecipient(us[i], units))
  }

  /** `getRecipients`: the same filters as the user list except the role (a
      unit filter that does not spell an ObjectId raises the CastError),
      projected to the recipient fields, in store order. */
  method GetRecipients(db: Db, unitId: Option<string>, isApproved: Option<string>, search: Option<string>)
    returns (r: Result<seq<Recipient>>)
    ensures var q := UserQueryOf(None, unitId, isApproved, search);
      && (QueryCastError(q).Some? ==> r == Err(QueryCastError(q).value))
      && (QueryCastError(q).None? ==> r == Ok(Project(Selected(db.users, q), db.units)))
  {
    var q := BuildUserQuery(None, unitId, isApproved, search);
    var err := QueryCastError(q);
    if err.Some? {
      return Err(err.value);
    }
    r := Ok(Project(Selected(db.users, q), db.units));
  }

  /** The list names exactly the matching users, whatever their role. */
  lemma RecipientsAreMatches(us: seq<UserRecord>, units: seq<UnitRecord>, unitId: Option<string>,
                             isApproved: Option<string>, search: Option<string>)
    ensures var q := UserQueryOf(None, unitId, isApproved, search);
      && q.role.None?
      && forall u :: u in us && Matches(u, q) <==>
           exists i :: 0 <= i < |Selected(us, q)| && Selected(us, q)[i] == u
  {
    var q := UserQueryOf(None, unitId, isApproved, search);
    SelectedIff(us, q);
  }

  // ---------------------------------------------------------------------
  // previewEmail

  /** A file the upload middleware stored. */
  datatype UploadedFile = UploadedFile(originalname: string, mimetype: string, size: nat, path: string)

  datatype AttachmentInfo = AttachmentInfo(filename: string, size: nat, mimetype: string)

  datatype PreviewData = PreviewData(
    previewHtml: string,
    recipientName: string,
    recipientEmail: string,
    attachments: seq<AttachmentInfo>)

  function AttachmentInfos(files: seq<UploadedFile>): (r: seq<AttachmentInfo>)
    ensures |r| == |files|
    ensures forall i :: 0 <= i < |files| ==>
      r[i] == AttachmentInfo(files[i].originalname, files[i].size, files[i].mimetype)
  {
    seq(|files|, i requires 0 <= i < |files| =>
      AttachmentInfo(files[i].originalname, files[i].size, files[i].mimetype))
  }

  const PreviewNeedsRecipient: string := "At least one recipient is required for preview"
  const RecipientNotFound: string := "Recipient not found"

  /** What `replace` on an undefined body throws. */
  const UndefinedBody: string := "Cannot read properties of undefined (reading 'replace')"

  function InvalidIdFormat(id: string): string {
    "Invalid recipient ID format: " + id
  }

  /** `previewEmail` over the normalised ids: only the first id is looked at,
      first against the ObjectId pattern, then by `findById`; subject is not
      checked. */
  function PreviewIds(users: seq<UserRecord>, units: seq<UnitRecord>, ids: seq<string>,
                      headerTitle: Option<string>, body: Option<string>,
                      files: seq<UploadedFile>, year: nat): (r: Result<PreviewData>)
    ensures ids == [] ==> r == Err(BadRequest(PreviewNeedsRecipient))
    ensures ids != [] && !IsObjectIdString(ids[0]) ==> r == Err(BadRequest(InvalidIdFormat(ids[0])))
    ensures ids != [] && IsObjectIdString(ids[0]) && FindUser(users, ids[0]) == Ok(None) ==>
      r == Err(BadRequest(RecipientNotFound))
    ensures ids != [] && IsObjectIdString(ids[0]) && FindUser(users, ids[0]) != Ok(None) && body.None? ==>
      r == Err(ServerError(UndefinedBody))
    ensures r.Ok? ==>
      && ids != [] && body.Some?
      && exists k :: 0 <= k < |users| && Some(users[k].id) == CastObjectId(ids[0])
           && r.value.recipientName == users[k].name && r.value.recipientEmail == users[k].email
           && r.value.previewHtml
              == GenerateEmailHtml(headerTitle, SubstituteAll(body.value, RecipientVars(users[k], units)), year)
    ensures r.Ok? ==> r.value.attachments == AttachmentInfos(files)
  {
    if ids == [] then Err(BadRequest(PreviewNeedsRecipient))
    else if !IsObjectIdString(ids[0]) then Err(BadRequest(InvalidIdFormat(ids[0])))
    else match FindUser(users, ids[0])
      case Err(e) => Err(e)
      case Ok(None) => Err(BadRequest(RecipientNotFound))
      case Ok(Some(k)) =>
        match body
        case None => Err(ServerError(UndefinedBody))
        case Some(b) =>
          var u := users[k];
          var html := GenerateEmailHtml(headerTitle, SubstituteAll(b, RecipientVars(u, units)), year);
          Ok(PreviewData(html, u.name, u.email, AttachmentInfos(files)))
  }

  /** The preview handler: the ids are normalised as for sending. */
  function Preview(users: seq<UserRecord>, units: seq<UnitRecord>, field: IdsField,
                   headerTitle: Option<string>, body: Option<string>,
                   files: seq<UploadedFile>, year: nat): Result<PreviewData> {
    PreviewIds(users, units, RecipientIds(field), headerTitle, body, files, year)
  }

  /** The ids after the first make no difference to the preview. */
  lemma PreviewFirstOnly(users: seq<UserRecord>, units: seq<UnitRecord>, ids: seq<string>,
                         headerTitle: Option<string>, body: Option<string>,
                         files: seq<UploadedFile>, year: nat)
    requires ids != []
    ensures PreviewIds(users, units, ids, headerTitle, body, files, year)
         == PreviewIds(users, units, [ids[0]], headerTitle, body, files, year)
  {
  }

  // ---------------------------------------------------------------------
  // sendCampaign

  datatype EmailAttachment = EmailAttachment(filename: string, path: string, contentType: string)

  function EmailAttachments(files: seq<UploadedFile>): (r: seq<EmailAttachment>)
    ensures |r| == |files|
    ensures forall i :: 0 <= i < |files| ==>
      r[i] == EmailAttachment(files[i].originalname, files[i].path, files[i].mimetype)
  {
    seq(|files|, i requires 0 <= i < |files| =>
      EmailAttachment(files[i].originalname, files[i].path, files[i].mimetype))
  }

  /** One message handed to the relay. */
  datatype Mail = Mail(to: string, subject: string, html: string, attachments: seq<EmailAttachment>)

  datatype Delivery = Delivered | Failed(message: string)

  datatype SendReport = SendReport(sent: nat, failed: nat, errors: seq<string>)

  const NeedsRecipient: string := "At least one recipient is required"
  const NeedsSubjectAndBody: string := "Subject and body content are required"

  /** The first listed id that does not spell an ObjectId: `$in` casts the
      ids in order and the first failure raises the CastError. */
  function FirstMalformed(ids: seq<string>): (r: Option<string>)
    ensures r.None? <==> forall j :: 0 <= j < |ids| ==> IsObjectIdString(ids[j])
    ensures r.Some? ==>
      exists j :: (0 <= j < |ids| && ids[j] == r.value && !IsObjectIdString(r.value)
                   && forall i :: 0 <= i < j ==> IsObjectIdString(ids[i]))
    decreases |ids|
  {
    if ids == [] then None
    else if !IsObjectIdString(ids[0]) then Some(ids[0])
    else
      var rest := FirstMalformed(ids[1..]);
      assert forall i :: 0 <= i < |ids[1..]| ==> ids[1..][i] == ids[i + 1];
      rest
  }

  /** The ObjectIds the listed ids cast to. */
  function CastIds(ids: seq<string>): (r: seq<Option<string>>)
    ensures |r| == |ids| && forall j :: 0 <= j < |ids| ==> r[j] == CastObjectId(ids[j])
  {
    seq(|ids|, j requires 0 <= j < |ids| => CastObjectId(ids[j]))
  }

  /** `User.find({ _id: { $in: ids } })` once every id cast: the users whose
      ObjectId some listed id names, each once, in store order. */
  function Resolve(us: seq<UserRecord>, ids: seq<string>): (r: seq<UserRecord>)
    ensures |r| <= |us|
  {
    if us == [] then []
    else Resolve(us[..|us| - 1], ids) + (if Some(us[|us| - 1].id) in CastIds(ids) then [us[|us| - 1]] else [])
  }

  /** The resolved users are exactly the stored users whose ObjectId a listed
      id names, in whatever case its hexadecimal digits are written. */
  lemma {:induction false} ResolveIff(us: seq<UserRecord>, ids: seq<string>)
    ensures forall u :: u in Resolve(us, ids) <==>
      u in us && exists j :: 0 <= j < |ids| && CastObjectId(ids[j]) == Some(u.id)
    decreases |us|
  {
    if us != [] {
      ResolveIff(us[..|us| - 1], ids);
      assert us == us[..|us| - 1] + [us[|us| - 1]];
      var c := CastIds(ids);
      forall u: UserRecord ensures Some(u.id) in c <==> exists j :: 0 <= j < |ids| && CastObjectId(ids[j]) == Some(u.id) {
        if Some(u.id) in c {
          var j :| 0 <= j < |c| && c[j] == Some(u.id);
        }
      }
    }
  }

  /** The message one recipient gets. */
  function MailFor(u: UserRecord, units: seq<UnitRecord>, subject: string, headerTitle: Option<string>,
                   body: string, year: nat, attachments: seq<EmailAttachment>): Mail {
    Mail(u.email, subject,
         GenerateEmailHtml(headerTitle, SubstituteAll(body, RecipientVars(u, units)), year),
         attachments)
  }

  function SendError(to: string, message: string): string {
    "Failed to send to " + to + ": " + message
  }

  /** The report after one more attempt. */
  function Step(r: SendReport, mail: Mail, outcome: Delivery): SendReport {
    match outcome
    case Delivered => r.(sent := r.sent + 1)
    case Failed(m) => r.(failed := r.failed + 1, errors := r.errors + [SendError(mail.to, m)])
  }

  /** The report after attempting every mail in order. */
  function Tally(mails: seq<Mail>, relay: (nat, Mail) -> Delivery): SendReport
    decreases |mails|
  {
    if mails == [] then SendReport(0, 0, [])
    else
      var n := |mails| - 1;
      Step(Tally(mails[..n], relay), mails[n], relay(n, mails[n]))
  }

  /** The number of attempts the relay refused. */
  function Refused(mails: seq<Mail>, relay: (nat, Mail) -> Delivery): nat
    decreases |mails|
  {
    if mails == [] then 0
    else Refused(mails[..|mails| - 1], relay) + (if relay(|mails| - 1, mails[|mails| - 1]).Failed? then 1 else 0)
  }

  /** Every mail is attempted once: sent and failed add up to the number of
      mails, the failures are exactly the refused attempts, and there is one
      error line per failure, naming its recipient and the relay's message. */
  lemma {:induction false} TallyAccounts(mails: seq<Mail>, relay: (nat, Mail) -> Delivery)
    ensures var r := Tally(mails, relay);
      && r.sent + r.failed == |mails|
      && r.failed == Refused(mails, relay)
      && |r.errors| == r.failed
      && forall j :: 0 <= j < |r.errors| ==>
           exists k, m :: 0 <= k < |mails| && relay(k, mails[k]) == Failed(m) && r.errors[j] == SendError(mails[k].to, m)
    decreases |mails|
  {
    if mails != [] {
      var n := |mails| - 1;
      var init := mails[..n];
      TallyAccounts(init, relay);
      var p := Tally(init, relay);
      var r := Tally(mails, relay);
      forall j | 0 <= j < |r.errors|
        ensures exists k, m :: 0 <= k < |mails| && relay(k, mails[k]) == Failed(m) && r.errors[j] == SendError(mails[k].to, m)
      {
        if j < |p.errors| {
          var k, m :| 0 <= k < |init| && relay(k, init[k]) == Failed(m) && p.errors[j] == SendError(init[k].to, m);
          assert mails[k] == init[k];
          assert r.errors[j] == p.errors[j];
        } else {
          var m := relay(n, mails[n]).message;
          assert relay(n, mails[n]) == Failed(m);
          assert r.errors == p.errors + [SendError(mails[n].to, m)];
          assert r.errors[j] == SendError(mails[n].to, m);
        }
      }
    }
  }

  /** The report after `i + 1` mails is one step on from the report after `i`. */
  lemma TallyPrefix(mails: seq<Mail>, i: nat, relay: (nat, Mail) -> Delivery)
    requires i < |mails|
    ensures Tally(mails[..i + 1], relay) == Step(Tally(mails[..i], relay), mails[i], relay(i, mails[i]))
  {
    assert mails[..i + 1][..i] == mails[..i];
  }

  /** Every mail is attempted once and each failure leaves one error line. */
  lemma {:induction false} TallyCounts(mails: seq<Mail>, relay: (nat, Mail) -> Delivery)
    ensures Tally(mails, relay).sent + Tally(mails, relay).failed == |mails|
    ensures |Tally(mails, relay).errors| == Tally(mails, relay).failed
    decreases |mails|
  {
    if mails != [] {
      TallyCounts(mails[..|mails| - 1], relay);
    }
  }

  /** When the relay accepts everything, every mail counts as sent and there
      are no errors. */
  lemma {:induction false} TallyAllDelivered(mails: seq<Mail>, relay: (nat, Mail) -> Delivery)
    requires forall k :: 0 <= k < |mails| ==> relay(k, mails[k]) == Delivered
    ensures Tally(mails, relay) == SendReport(|mails|, 0, [])
    decreases |mails|
  {
    if mails != [] {
      var n := |mails| - 1;
      forall k | 0 <= k < n ensures relay(k, mails[..n][k]) == Delivered {
        assert mails[..n][k] == mails[k];
      }
      TallyAllDelivered(mails[..n], relay);
    }
  }

  /** The mails of a campaign, one per resolved user. */
  function CampaignMails(users: seq<UserRecord>, units: seq<UnitRecord>, subject: string,
                         headerTitle: Option<string>, body: string, year: nat,
                         attachments: seq<EmailAttachment>): (r: seq<Mail>)
    ensures |r| == |users|
    ensures forall i :: 0 <= i < |users| ==> r[i] == MailFor(users[i], units, subject, headerTitle, body, year, attachments)
  {
    seq(|users|, i requires 0 <= i < |users| => MailFor(users[i], units, subject, headerTitle, body, year, attachments))
  }

  /** The personalised message for one user: the body with the user's
      variables substituted, wrapped in the page. */
  method ComposeMail(u: UserRecord, units: seq<UnitRecord>, subject: string, headerTitle: Option<string>,
                     body: string, year: nat, attachments: seq<EmailAttachment>) returns (mail: Mail)
    ensures mail == MailFor(u, units, subject, headerTitle, body, year, attachments)
    ensures mail.to == u.email
  {
    var content := ReplaceVariables(body, RecipientVars(u, units));
    var html := GenerateEmailHtml(headerTitle, content, year);
    mail := Mail(u.email, subject, html, attachments);
  }

  /** The send loop: one attempt per user; a failure is counted and
      reported, and the loop goes on. */
  method Dispatch(users: seq<UserRecord>, units: seq<UnitRecord>, subject: string,
                  headerTitle: Option<string>, body: string, year: nat,
                  attachments: seq<EmailAttachment>, relay: (nat, Mail) -> Delivery)
    returns (report: SendReport)
    ensures report == Tally(CampaignMails(users, units, subject, headerTitle, body, year, attachments), relay)
    ensures report.sent + report.failed == |users| && |report.errors| == report.failed
  {
    ghost var mails := CampaignMails(users, units, subject, headerTitle, body, year, attachments);
    report := SendReport(0, 0, []);
    for i := 0 to |users|
      invariant report == Tally(mails[..i], relay)
    {
      TallyPrefix(mails, i, relay);
      var mail := ComposeMail(users[i], units, subject, headerTitle, body, year, attachments);
      var outcome := relay(i, mail);
      report := Step(report, mail, outcome);
    }
    assert mails[..|users|] == mails;
    TallyCounts(mails, relay);
  }

  /** The paths of the uploaded files, in upload order. */
  function Paths(files: seq<UploadedFile>): (r: seq<string>)
    ensures |r| == |files| && forall i :: 0 <= i < |files| ==> r[i] == files[i].path
  {
    seq(|files|, i requires 0 <= i < |files| => files[i].path)
  }

  /** The log lines of the deletions that failed, in order. */
  function DeleteFailures(files: seq<UploadedFile>, unlink: string -> bool): (r: seq<string>)
    ensures |r| <= |files|
    decreases |files|
  {
    if files == [] then []
    else
      var n := |files| - 1;
      DeleteFailures(files[..n], unlink)
        + (if unlink(files[n].path) then [] else ["Failed to delete attachment file: " + files[n].path])
  }

  /** The cleanup loop: every uploaded file is unlinked once, in order; a
      failed unlink is logged and the loop goes on. */
  method Cleanup(files: seq<UploadedFile>, unlink: string -> bool) returns (attempted: seq<string>, logged: seq<string>)
    ensures attempted == Paths(files)
    ensures logged == DeleteFailures(files, unlink)
  {
    attempted := [];
    logged := [];
    for i := 0 to |files|
      invariant attempted == Paths(files[..i])
      invariant logged == DeleteFailures(files[..i], unlink)
    {
      assert files[..i + 1][..i] == files[..i];
      var path := files[i].path;
      var ok := unlink(path);
      attempted := attempted + [path];
      if !ok {
        logged := logged + ["Failed to delete attachment file: " + path];
      }
    }
    assert files[..|files|] == files;
  }

  /** `Email sent to N recipients`, with ` (F failed)` only when F > 0. */
  function SendMessage(r: SendReport): string {
    "Email sent to " + Decimal(r.sent) + " recipients"
      + (if r.failed > 0 then " (" + Decimal(r.failed) + " failed)" else "")
  }

  /** A message without failures ends right after `recipients`; one with
      failures names their number. */
  lemma SendMessageShape(r: SendReport)
    ensures r.failed == 0 ==> SendMessage(r) == "Email sent to " + Decimal(r.sent) + " recipients"
    ensures r.failed > 0 ==>
      var m := SendMessage(r);
      |m| > 8 && m[|m| - 8..] == " failed)"
  {
    if r.failed > 0 {
      var m := SendMessage(r);
      var tail := " (" + Decimal(r.failed) + " failed)";
      assert m == ("Email sent to " + Decimal(r.sent) + " recipients") + tail;
      assert tail[|tail| - 8..] == " failed)";
    }
  }

  datatype SendReply = SendReply(message: string, report: SendReport)

  /** `sendCampaign`: the two checks and the CastError of a malformed id come
      before any send and before the cleanup, so the uploaded files stay;
      otherwise every resolved user is attempted, the uploaded files are
      removed, and the report is returned. */
  method SendCampaign(db: Db, field: IdsField, subject: Option<string>, headerTitle: Option<string>,
                      body: Option<string>, files: seq<UploadedFile>, year: nat,
                      relay: (nat, Mail) -> Delivery, unlink: string -> bool)
    returns (r: Result<SendReply>, attempted: seq<string>)
    ensures RecipientIds(field) == [] ==> r == Err(BadRequest(NeedsRecipient)) && attempted == []
    ensures RecipientIds(field) != [] && (!Truthy(subject) || !Truthy(body)) ==>
      r == Err(BadRequest(NeedsSubjectAndBody)) && attempted == []
    ensures RecipientIds(field) != [] && Truthy(subject) && Truthy(body)
              && FirstMalformed(RecipientIds(field)).Some? ==>
      r == Err(InvalidId(CastMessage(FirstMalformed(RecipientIds(field)).value, "_id", "User")))
      && attempted == []
    ensures RecipientIds(field) != [] && Truthy(subject) && Truthy(body)
              && FirstMalformed(RecipientIds(field)).None? ==>
      var users := Resolve(db.users, RecipientIds(field));
      var report := Tally(CampaignMails(users, db.units, subject.value, headerTitle, body.value, year,
                                        EmailAttachments(files)), relay);
      && r == Ok(SendReply(SendMessage(report), report))
      && report.sent + report.failed == |users|
      && attempted == Paths(files)
  {
    var ids := RecipientIds(field);
    if ids == [] {
      return Err(BadRequest(NeedsRecipient)), [];
    }
    if !Truthy(subject) || !Truthy(body) {
      return Err(BadRequest(NeedsSubjectAndBody)), [];
    }
    var attachments := EmailAttachments(files);
    var malformed := FirstMalformed(ids);
    if malformed.Some? {
      return Err(InvalidId(CastMessage(malformed.value, "_id", "User"))), [];
    }
    var users := Resolve(db.users, ids);
    var report := Dispatch(users, db.units, subject.value, headerTitle, body.value, year, attachments, relay);
    var logged;
    attempted, logged := Cleanup(files, unlink);
    r := Ok(SendReply(SendMessage(report), report));
  }
}
