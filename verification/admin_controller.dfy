/** The intern-management handlers: `addInterns` (the candidate list and the
    add loop), `updateUserStatus`, `deleteUser`, and the filter and
    pagination of `getUsers`, all over the in-memory store. */
module AdminController {
  import opened Http
  import opened Text
  import opened Numerals
  import opened UserModel
  import opened Store
  import opened BulkParser

  // ---------------------------------------------------------------------
  // addInterns: from the request body to a list of candidates

  /** The `input` field of the request body: absent or falsy, a string, an
      object with possibly absent `name` and `email`, or any other value. */
  datatype InternsInput =
    | NoInput
    | TextInput(text: string)
    | ObjectInput(name: Option<string>, email: Option<string>)
    | OtherInput

  /** `!input`: the empty string is falsy like an absent value. */
  predicate Falsy(input: InternsInput) {
    input.NoInput? || input == TextInput("")
  }

  const DataRequired: string := "User data is required"
  const NoValidUsers: string := "No valid users found in input"

  /** The candidates the handler goes on to add, or the BadRequest it throws
      before touching the store. */
  function Candidates(input: InternsInput): (r: Result<seq<Candidate>>)
    ensures r == Err(BadRequest(DataRequired)) <==> Falsy(input)
    ensures r.Err? ==> r.error == BadRequest(DataRequired) || r.error == BadRequest(NoValidUsers)
    ensures r.Ok? ==> r.value != []
    ensures input.OtherInput? ==> r == Err(BadRequest(NoValidUsers))
    ensures input.ObjectInput? ==>
      (r.Ok? <==> Truthy(input.name) && Truthy(input.email))
      && (r.Ok? ==> r.value == [Candidate(input.name.value, input.email.value)])
  {
    if Falsy(input) then Err(BadRequest(DataRequired))
    else
      var cs := match input
        case TextInput(s) => ParseLines(Segments(s))
        case ObjectInput(n, e) => if Truthy(n) && Truthy(e) then [Candidate(n.value, e.value)] else []
        case _ => [];
      if cs == [] then Err(BadRequest(NoValidUsers)) else Ok(cs)
  }

  /** Text input yields exactly the candidates its segments parse to, in
      order: each comes from one segment, and every segment that parses
      contributes one. */
  lemma TextCandidates(s: string)
    requires s != ""
    ensures Candidates(TextInput(s)).Ok? <==> ParseLines(Segments(s)) != []
    ensures Candidates(TextInput(s)).Ok? ==> Candidates(TextInput(s)).value == ParseLines(Segments(s))
    ensures Candidates(TextInput(s)).Ok? ==>
      forall c :: c in Candidates(TextInput(s)).value ==>
        exists k :: 0 <= k < |Segments(s)| && ParseSegment(Segments(s)[k]) == Some(c)
    ensures Candidates(TextInput(s)).Ok? ==>
      forall k :: 0 <= k < |Segments(s)| && ParseSegment(Segments(s)[k]).Some? ==>
        ParseSegment(Segments(s)[k]).value in Candidates(TextInput(s)).value
  {
    ParseLinesSource(Segments(s));
    ParseLinesComplete(Segments(s));
  }

  // ---------------------------------------------------------------------
  // addInterns: the add loop

  /** The counters the handler reports. */
  datatype AddReport = AddReport(added: nat, skipped: nat, errors: seq<string>)

  /** The store's users and id counter, the time the request stamps on the
      users it creates, and the report so far. */
  datatype Batch = Batch(users: seq<UserRecord>, clock: nat, now: nat, report: AddReport)

  /** The value `findOne({ email: email.toLowerCase() })` looks for, after the
      schema's setters ran on it. */
  function LookupKey(email: string): string {
    NormalizeEmail(Lower(email))
  }

  /** `unitId || undefined`. */
  function UnitOf(unitId: Option<string>): Option<string> {
    if Truthy(unitId) then unitId else None
  }

  /** The document `User.create` is asked to save for a candidate. */
  function Created(c: Candidate, unit: Option<string>, clock: nat, now: nat): Result<UserRecord> {
    NewUser(ObjectIdHex(clock), c.name, Lower(c.email), User, unit, false, now)
  }

  /** A candidate the schema accepts together with the requested unit. */
  predicate Creatable(c: Candidate, unit: Option<string>) {
    UnitCasts(unit) && Trim(c.name) != "" && IsValidEmail(LookupKey(c.email))
  }

  function AddError(c: Candidate, message: string): string {
    "Failed to add " + c.email + ": " + message
  }

  /** What a created intern looks like, whatever its name and email: in the
      unit the requested id names. */
  predicate FreshIntern(u: UserRecord, unit: Option<string>) {
    && u.role == User && !u.isApproved && u.isActive && u.unit == CastUnit(unit)
    && u.password.None? && u.rejectionReason.None?
  }

  /** One iteration: skip a taken email, otherwise create the user or record
      the validation failure. */
  function AddOne(b: Batch, c: Candidate, unit: Option<string>): Batch {
    var key := LookupKey(c.email);
    if EmailTaken(b.users, key) then
      b.(report := b.report.(skipped := b.report.skipped + 1))
    else
      match Created(c, unit, b.clock, b.now)
      case Ok(u) => b.(users := b.users + [u], clock := b.clock + 1, report := b.report.(added := b.report.added + 1))
      case Err(e) => b.(report := b.report.(errors := b.report.errors + [AddError(c, e.message)]))
  }

  /** The loop over all candidates, in order. */
  function AddAll(b: Batch, cs: seq<Candidate>, unit: Option<string>): Batch
    decreases |cs|
  {
    if cs == [] then b
    else AddOne(AddAll(b, cs[..|cs| - 1], unit), cs[|cs| - 1], unit)
  }

  /** Every candidate gets exactly one outcome. */
  lemma {:induction false} AddAllAccounts(b: Batch, cs: seq<Candidate>, unit: Option<string>)
    ensures var r := AddAll(b, cs, unit).report;
      r.added + r.skipped + |r.errors| == b.report.added + b.report.skipped + |b.report.errors| + |cs|
    decreases |cs|
  {
    if cs != [] {
      AddAllAccounts(b, cs[..|cs| - 1], unit);
    }
  }

  /** The loop only appends: the earlier users stay as they were, one user
      and one counter tick per `added`, and every appended user is a fresh
      pending intern of the requested unit, stamped with the request's time
      and holding the next id. */
  lemma {:induction false} AddAllExtends(b: Batch, cs: seq<Candidate>, unit: Option<string>)
    ensures Extends(b, AddAll(b, cs, unit), unit)
    decreases |cs|
  {
    if cs != [] {
      var init := cs[..|cs| - 1];
      var p := AddAll(b, init, unit);
      AddAllExtends(b, init, unit);
      AddOneExtends(p, cs[|cs| - 1], unit);
      assert AddAll(b, cs, unit) == AddOne(p, cs[|cs| - 1], unit);
      ExtendsStep(b, p, AddAll(b, cs, unit), unit);
    }
  }

  /** `r` is `b` after some iterations: the earlier users stay as they were,
      one user and one counter tick per `added`, and every appended user is
      a fresh pending intern of the requested unit, stamped with the
      request's time and holding the next id. */
  predicate Extends(b: Batch, r: Batch, unit: Option<string>) {
    && r.report.added >= b.report.added
    && |r.users| == |b.users| + (r.report.added - b.report.added)
    && r.clock == b.clock + (r.report.added - b.report.added) && r.now == b.now
    && r.users[..|b.users|] == b.users
    && b.report.errors <= r.report.errors
    && Minted(r.users, |b.users|, b.clock, b.now, unit)
  }

  /** What one iteration does to a batch (see `AddOneExtends`). */
  predicate Step(p: Batch, r: Batch, unit: Option<string>) {
    && p.report.errors <= r.report.errors && r.now == p.now
    && ((r.users == p.users && r.clock == p.clock && r.report.added == p.report.added)
        || (|r.users| == |p.users| + 1 && r.users[..|p.users|] == p.users && r.clock == p.clock + 1
            && r.report.added == p.report.added + 1
            && MintedAt(r.users[|p.users|], p.clock, p.now, unit)))
  }

  lemma ExtendsStep(b: Batch, p: Batch, r: Batch, unit: Option<string>)
    requires Extends(b, p, unit) && Step(p, r, unit)
    ensures Extends(b, r, unit)
  {
    if |r.users| != |p.users| {
      ExtendsAppend(b, p, r, unit);
    } else {
      assert r.users == p.users;
    }
  }

  lemma ExtendsAppend(b: Batch, p: Batch, r: Batch, unit: Option<string>)
    requires Extends(b, p, unit)
    requires p.report.errors <= r.report.errors && r.now == p.now
    requires |r.users| == |p.users| + 1 && r.users[..|p.users|] == p.users && r.clock == p.clock + 1
    requires r.report.added == p.report.added + 1
    requires MintedAt(r.users[|p.users|], p.clock, p.now, unit)
    ensures Extends(b, r, unit)
  {
    var u := r.users[|p.users|];
    assert r.users == p.users + [u];
    MintedAppend(p.users, |b.users|, b.clock, b.now, unit, u);
    PrefixTrans(b.users, p.users, r.users);
  }

  lemma PrefixTrans<T>(a: seq<T>, b: seq<T>, c: seq<T>)
    requires |a| <= |b| <= |c| && b[..|a|] == a && c[..|b|] == b
    ensures c[..|a|] == a
  {
    assert c[..|a|] == c[..|b|][..|a|];
  }

  /** The users from position `from` on are fresh interns of the unit,
      stamped `now`, holding consecutive ids from `clock` on. */
  predicate Minted(us: seq<UserRecord>, from: nat, clock: nat, now: nat, unit: Option<string>) {
    forall i :: from <= i < |us| ==> MintedAt(us[i], clock + (i - from), now, unit)
  }

  /** A fresh intern of the unit, stamped `now`, holding the id minted from `n`. */
  predicate MintedAt(u: UserRecord, n: nat, now: nat, unit: Option<string>) {
    FreshIntern(u, unit) && u.createdAt == now && u.id == ObjectIdHex(n)
  }

  lemma MintedAppend(us: seq<UserRecord>, from: nat, clock: nat, now: nat, unit: Option<string>, u: UserRecord)
    requires from <= |us| && Minted(us, from, clock, now, unit)
    requires MintedAt(u, clock + (|us| - from), now, unit)
    ensures Minted(us + [u], from, clock, now, unit)
  {
    var r := us + [u];
    forall i | from <= i < |r|
      ensures MintedAt(r[i], clock + (i - from), now, unit)
    {
      if i < |us| {
        assert r[i] == us[i];
        assert MintedAt(us[i], clock + (i - from), now, unit);
      } else {
        assert r[i] == u;
      }
    }
  }

  /** The loop over the first `i + 1` candidates is one more iteration of
      the loop over the first `i`. */
  lemma AddAllSnoc(b: Batch, cs: seq<Candidate>, i: nat, unit: Option<string>)
    requires i < |cs|
    ensures AddAll(b, cs[..i + 1], unit) == AddOne(AddAll(b, cs[..i], unit), cs[i], unit)
  {
    assert cs[..i + 1][..i] == cs[..i];
  }

  /** One iteration either leaves the users and counter alone or appends
      one fresh intern minted from the counter, counting it as added. */
  lemma AddOneExtends(p: Batch, c: Candidate, unit: Option<string>)
    ensures Step(p, AddOne(p, c, unit), unit)
  {
    var r := AddOne(p, c, unit);
    if |r.users| != |p.users| {
      assert r.users == p.users + [r.users[|p.users|]];
    }
  }

  /** After the loop every candidate the schema accepts is in the store:
      either it was already there, it was added earlier in the same batch,
      or this iteration added it. */
  lemma {:induction false} AddAllCovers(b: Batch, cs: seq<Candidate>, unit: Option<string>, k: nat)
    requires k < |cs| && Creatable(cs[k], unit)
    ensures EmailTaken(AddAll(b, cs, unit).users, LookupKey(cs[k].email))
    decreases |cs|
  {
    var init := cs[..|cs| - 1];
    AddAllStep(b, cs, unit);
    if k < |init| {
      assert cs[k] == init[k];
      AddAllCovers(b, init, unit, k);
      EmailTakenGrows(AddAll(b, init, unit).users, AddAll(b, cs, unit).users, LookupKey(cs[k].email));
    } else {
      assert k == |cs| - 1;
    }
  }

  /** The last iteration only appends, and afterwards its candidate's address
      is taken if the schema accepts it. */
  lemma AddAllStep(b: Batch, cs: seq<Candidate>, unit: Option<string>)
    requires cs != []
    ensures var p := AddAll(b, cs[..|cs| - 1], unit);
      var r := AddAll(b, cs, unit);
      var c := cs[|cs| - 1];
      p.users <= r.users && (Creatable(c, unit) ==> EmailTaken(r.users, LookupKey(c.email)))
  {
    AddOneStep(AddAll(b, cs[..|cs| - 1], unit), cs[|cs| - 1], unit);
  }

  /** One iteration only appends, and afterwards an acceptable candidate's
      address is taken. */
  lemma AddOneStep(b: Batch, c: Candidate, unit: Option<string>)
    ensures var r := AddOne(b, c, unit);
      b.users <= r.users && (Creatable(c, unit) ==> EmailTaken(r.users, LookupKey(c.email)))
  {
    var r := AddOne(b, c, unit);
    if Creatable(c, unit) && !EmailTaken(b.users, LookupKey(c.email)) {
      assert r.users[|b.users|].email == LookupKey(c.email);
    }
  }

  lemma EmailTakenGrows(us: seq<UserRecord>, vs: seq<UserRecord>, email: string)
    requires us <= vs && EmailTaken(us, email)
    ensures EmailTaken(vs, email)
  {
    var i :| 0 <= i < |us| && us[i].email == email;
    assert vs[i] == us[i];
  }

  /** A second candidate with an address the batch has just added is
      skipped. */
  lemma DuplicateInBatchSkipped(b: Batch, c: Candidate, d: Candidate, unit: Option<string>)
    requires Creatable(c, unit) && LookupKey(c.email) == LookupKey(d.email)
    ensures var r := AddAll(b, [c, d], unit).report;
      r.skipped == b.report.skipped + 1 + (if EmailTaken(b.users, LookupKey(c.email)) then 1 else 0)
  {
    assert [c, d][..1] == [c];
    assert [c][..0] == [];
    var m := AddOne(b, c, unit);
    assert AddAll(b, [c], unit) == m;
    AddOneStep(b, c, unit);
    assert m.report.skipped == b.report.skipped + (if EmailTaken(b.users, LookupKey(c.email)) then 1 else 0);
  }

  /** One iteration adds at most one error line, and only for a candidate
      the schema rejects. */
  lemma AddOneErrors(b: Batch, c: Candidate, unit: Option<string>)
    ensures var r := AddOne(b, c, unit);
      && b.report.errors <= r.report.errors && |r.report.errors| <= |b.report.errors| + 1
      && (|r.report.errors| > |b.report.errors| ==>
            !Creatable(c, unit) && r.report.errors[|b.report.errors|] == AddError(c, Created(c, unit, b.clock, b.now).error.message))
  {
  }

  /** Every error line the loop adds names a candidate the schema
      rejected. */
  lemma {:induction false} AddAllErrorSource(b: Batch, cs: seq<Candidate>, unit: Option<string>, j: nat)
    requires |b.report.errors| <= j < |AddAll(b, cs, unit).report.errors|
    ensures exists k, m :: 0 <= k < |cs| && !Creatable(cs[k], unit) && AddAll(b, cs, unit).report.errors[j] == AddError(cs[k], m)
    decreases |cs|
  {
    var init := cs[..|cs| - 1];
    var p := AddAll(b, init, unit);
    var c := cs[|cs| - 1];
    var r := AddAll(b, cs, unit);
    assert r == AddOne(p, c, unit);
    AddOneErrors(p, c, unit);
    if j < |p.report.errors| {
      AddAllErrorSource(b, init, unit, j);
      var k, m :| 0 <= k < |init| && !Creatable(init[k], unit) && p.report.errors[j] == AddError(init[k], m);
      assert cs[k] == init[k];
      assert r.report.errors[j] == p.report.errors[j];
    } else {
      assert r.report.errors[j] == AddError(cs[|cs| - 1], Created(c, unit, p.clock, p.now).error.message);
    }
  }

  /** The loop keeps the store's invariants. */
  lemma {:induction false} AddAllValid(b: Batch, cs: seq<Candidate>, unit: Option<string>)
    requires UsersValid(b.users, b.clock)
    ensures UsersValid(AddAll(b, cs, unit).users, AddAll(b, cs, unit).clock)
    decreases |cs|
  {
    if cs != [] {
      var p := AddAll(b, cs[..|cs| - 1], unit);
      AddAllValid(b, cs[..|cs| - 1], unit);
      assert AddAll(b, cs, unit) == AddOne(p, cs[|cs| - 1], unit);
      AddOneValid(p, cs[|cs| - 1], unit);
    }
  }

  lemma AddOneValid(p: Batch, c: Candidate, unit: Option<string>)
    requires UsersValid(p.users, p.clock)
    ensures UsersValid(AddOne(p, c, unit).users, AddOne(p, c, unit).clock)
  {
    if EmailTaken(p.users, LookupKey(c.email)) {
      AddOneSkips(p, c, unit);
    } else if Created(c, unit, p.clock, p.now).Ok? {
      AddOneCreates(p, c, unit);
      UsersValidAppend(p.users, p.clock, Created(c, unit, p.clock, p.now).value);
    } else {
      AddOneRejects(p, c, unit);
    }
  }

  lemma CreatedWellFormed(c: Candidate, unit: Option<string>, clock: nat, now: nat)
    requires Created(c, unit, clock, now).Ok?
    ensures var u := Created(c, unit, clock, now).value;
      WellFormed(u) && u.email == LookupKey(c.email) && u.id == ObjectIdHex(clock) && u.createdAt == now
  {
    NewUserWellFormed(ObjectIdHex(clock), c.name, Lower(c.email), User, unit, false, now);
  }

  /** `Processed N entries: A added, S skipped.` */
  function AddMessage(entries: nat, r: AddReport): string {
    "Processed " + Decimal(entries) + " entries: " + Decimal(r.added) + " added, "
      + Decimal(r.skipped) + " skipped."
  }

  datatype AddReply = AddReply(message: string, report: AddReport)

  /** One iteration of the add loop against the store: a taken address is
      skipped, otherwise the user is created or its validation error
      recorded. */
  method AddCandidate(db: Db, c: Candidate, unit: Option<string>, now: nat, report: AddReport)
    returns (next: AddReport)
    requires db.Valid()
    modifies db
    ensures db.Valid() && db.units == old(db.units)
    ensures Batch(db.users, db.clock, now, next) == AddOne(Batch(old(db.users), old(db.clock), now, report), c, unit)
  {
    var b := Batch(db.users, db.clock, now, report);
    if EmailTaken(db.users, LookupKey(c.email)) {
      AddOneSkips(b, c, unit);
      next := report.(skipped := report.skipped + 1);
    } else {
      var made := Created(c, unit, db.clock, now);
      if made.Ok? {
        AddOneCreates(b, c, unit);
        var u := made.value;
        db.AddUser(u);
        next := report.(added := report.added + 1);
        assert Batch(db.users, db.clock, now, next) == b.(users := b.users + [u], clock := b.clock + 1, report := next);
      } else {
        AddOneRejects(b, c, unit);
        next := report.(errors := report.errors + [AddError(c, made.error.message)]);
      }
    }
  }

  lemma AddOneSkips(b: Batch, c: Candidate, unit: Option<string>)
    requires EmailTaken(b.users, LookupKey(c.email))
    ensures AddOne(b, c, unit) == b.(report := b.report.(skipped := b.report.skipped + 1))
  {
  }

  lemma AddOneCreates(b: Batch, c: Candidate, unit: Option<string>)
    requires !EmailTaken(b.users, LookupKey(c.email)) && Created(c, unit, b.clock, b.now).Ok?
    ensures var u := Created(c, unit, b.clock, b.now).value;
      && AddOne(b, c, unit) == b.(users := b.users + [u], clock := b.clock + 1, report := b.report.(added := b.report.added + 1))
      && WellFormed(u) && u.createdAt == b.now && u.id == ObjectIdHex(b.clock) && !EmailTaken(b.users, u.email)
  {
    CreatedWellFormed(c, unit, b.clock, b.now);
  }

  lemma AddOneRejects(b: Batch, c: Candidate, unit: Option<string>)
    requires !EmailTaken(b.users, LookupKey(c.email)) && Created(c, unit, b.clock, b.now).Err?
    ensures AddOne(b, c, unit)
      == b.(report := b.report.(errors := b.report.errors + [AddError(c, Created(c, unit, b.clock, b.now).error.message)]))
  {
  }

  /** `addInterns`: reject bad input before any lookup, then run the add loop
      over the store; `now` is the time stamped on the created users. */
  method AddInterns(db: Db, unitId: Option<string>, input: InternsInput, now: nat) returns (r: Result<AddReply>)
    requires db.Valid()
    modifies db
    ensures db.Valid()
    ensures Candidates(input).Err? ==>
      r == Err(Candidates(input).error) && db.users == old(db.users) && db.clock == old(db.clock)
    ensures Candidates(input).Ok? ==>
      var cs := Candidates(input).value;
      var b := AddAll(Batch(old(db.users), old(db.clock), now, AddReport(0, 0, [])), cs, UnitOf(unitId));
      && db.users == b.users && db.clock == b.clock
      && r == Ok(AddReply(AddMessage(|cs|, b.report), b.report))
    ensures db.units == old(db.units)
  {
    var parsed := Candidates(input);
    if parsed.Err? {
      return Err(parsed.error);
    }
    var cs := parsed.value;
    var report := AddBatch(db, cs, UnitOf(unitId), now);
    r := Ok(AddReply(AddMessage(|cs|, report), report));
  }

  /** The add loop over the store, one `AddCandidate` per candidate. */
  method AddBatch(db: Db, cs: seq<Candidate>, unit: Option<string>, now: nat) returns (report: AddReport)
    requires db.Valid()
    modifies db
    ensures db.Valid() && db.units == old(db.units)
    ensures Batch(db.users, db.clock, now, report)
         == AddAll(Batch(old(db.users), old(db.clock), now, AddReport(0, 0, [])), cs, unit)
  {
    report := AddReport(0, 0, []);
    ghost var start := Batch(db.users, db.clock, now, report);
    for i := 0 to |cs|
      invariant db.Valid()
      invariant Batch(db.users, db.clock, now, report) == AddAll(start, cs[..i], unit)
      invariant db.units == old(db.units)
    {
      AddAllSnoc(start, cs, i, unit);
      report := AddCandidate(db, cs[i], unit, now, report);
    }
    assert cs[..|cs|] == cs;
  }

  // ---------------------------------------------------------------------
  // updateUserStatus and deleteUser

  /** The field assignments of `updateUserStatus`. An absent field leaves the
      user alone; approving clears the rejection reason; rejecting stores a
      given reason trimmed and otherwise keeps the old one; `unassigned`
      clears the unit, and any other unit id is cast to an ObjectId, a
      malformed one failing the save with a ValidationError. */
  function ApplyStatus(u: UserRecord, isApproved: Option<bool>, reason: Option<string>,
                       unitId: Option<string>): (r: Result<UserRecord>)
    ensures r.Err? <==> unitId.Some? && unitId.value != "unassigned" && !IsObjectIdString(unitId.value)
    ensures r.Err? ==> r.error == ValidationFailed(ValidationMessage([UnitCastError(unitId.value)]))
    ensures r.Ok? ==>
      var v := r.value;
      && v.id == u.id && v.name == u.name && v.email == u.email && v.createdAt == u.createdAt
      && v.role == u.role && v.password == u.password && v.isActive == u.isActive
      && (isApproved.None? ==> v.isApproved == u.isApproved && v.rejectionReason == u.rejectionReason)
      && (isApproved == Some(true) ==> v.isApproved && v.rejectionReason.None?)
      && (isApproved == Some(false) && Truthy(reason) ==>
            !v.isApproved && v.rejectionReason == Some(Trim(reason.value)))
      && (isApproved == Some(false) && !Truthy(reason) ==>
            !v.isApproved && v.rejectionReason == u.rejectionReason)
      && (unitId.None? ==> v.unit == u.unit)
      && (unitId == Some("unassigned") ==> v.unit.None?)
      && (unitId.Some? && unitId.value != "unassigned" ==>
            v.unit.Some? && Value(v.unit.value, 16) == Value(unitId.value, 16))
  {
    var v := match isApproved
      case None => u
      case Some(true) => u.(isApproved := true, rejectionReason := None)
      case Some(false) =>
        if Truthy(reason) then u.(isApproved := false, rejectionReason := Some(Trim(reason.value)))
        else u.(isApproved := false);
    match unitId
    case None => Ok(v)
    case Some(id) =>
      if id == "unassigned" then Ok(v.(unit := None))
      else match CastObjectId(id)
        case None => Err(ValidationFailed(ValidationMessage([UnitCastError(id)])))
        case Some(oid) => Ok(v.(unit := Some(oid)))
  }

  /** An update the save accepts keeps a stored user well formed. */
  lemma ApplyStatusWellFormed(u: UserRecord, isApproved: Option<bool>, reason: Option<string>,
                              unitId: Option<string>)
    requires WellFormed(u) && ApplyStatus(u, isApproved, reason, unitId).Ok?
    ensures WellFormed(ApplyStatus(u, isApproved, reason, unitId).value)
  {
    if unitId.Some? && unitId.value != "unassigned" {
      CastIdempotent(unitId.value);
    }
  }

  /** Sending the same status update twice changes nothing the second time. */
  lemma ApplyStatusIdempotent(u: UserRecord, isApproved: Option<bool>, reason: Option<string>,
                              unitId: Option<string>)
    requires ApplyStatus(u, isApproved, reason, unitId).Ok?
    ensures var once := ApplyStatus(u, isApproved, reason, unitId).value;
      ApplyStatus(once, isApproved, reason, unitId) == Ok(once)
  {
    if reason.Some? {
      TrimIdempotent(reason.value);
    }
  }

  const UserNotFound: string := "User not found"

  /** `updateUserStatus`: a CastError for a malformed id, NotFound for an
      unknown one, otherwise the user's fields are updated as `ApplyStatus`
      says and saved, unless the save fails; nothing else in the store
      changes. */
  method UpdateUserStatus(db: Db, id: string, isApproved: Option<bool>, reason: Option<string>,
                          unitId: Option<string>) returns (r: Result<UserRecord>)
    requires db.Valid()
    modifies db
    ensures db.Valid()
    ensures FindUser(old(db.users), id).Err? ==>
      r == Err(InvalidId(CastMessage(id, "_id", "User"))) && db.users == old(db.users)
    ensures FindUser(old(db.users), id) == Ok(None) ==>
      r == Err(NotFound(UserNotFound)) && db.users == old(db.users)
    ensures FindUser(old(db.users), id).Ok? && FindUser(old(db.users), id).value.Some? ==>
      var k := FindUser(old(db.users), id).value.value;
      && r == ApplyStatus(old(db.users)[k], isApproved, reason, unitId)
      && db.users == (if r.Ok? then old(db.users)[k := r.value] else old(db.users))
    ensures db.units == old(db.units) && db.clock == old(db.clock)
  {
    var found := FindUser(db.users, id);
    if found.Err? {
      return Err(found.error);
    }
    if found.value.None? {
      return Err(NotFound(UserNotFound));
    }
    var k := found.value.value;
    r := ApplyStatus(db.users[k], isApproved, reason, unitId);
    if r.Ok? {
      ApplyStatusWellFormed(db.users[k], isApproved, reason, unitId);
      db.ReplaceUser(k, r.value);
    }
  }

  /** `deleteUser`: a CastError for a malformed id, NotFound for an unknown
      one, otherwise exactly that user is removed, and no user with the id
      is left. */
  method DeleteUser(db: Db, id: string) returns (r: Result<string>)
    requires db.Valid()
    modifies db
    ensures db.Valid()
    ensures FindUser(old(db.users), id).Err? ==>
      r == Err(InvalidId(CastMessage(id, "_id", "User"))) && db.users == old(db.users)
    ensures FindUser(old(db.users), id) == Ok(None) ==>
      r == Err(NotFound(UserNotFound)) && db.users == old(db.users)
    ensures FindUser(old(db.users), id).Ok? && FindUser(old(db.users), id).value.Some? ==>
      var k := FindUser(old(db.users), id).value.value;
      r == Ok("User deleted successfully") && db.users == old(db.users)[..k] + old(db.users)[k + 1..]
    ensures forall i :: 0 <= i < |db.users| ==> Some(db.users[i].id) != CastObjectId(id)
    ensures db.units == old(db.units) && db.clock == old(db.clock)
  {
    var found := FindUser(db.users, id);
    if found.Err? {
      return Err(found.error);
    }
    if found.value.None? {
      return Err(NotFound(UserNotFound));
    }
    var k := found.value.value;
    RemovedIdGone(db.users, db.clock, k, db.users[..k] + db.users[k + 1..]);
    db.RemoveUser(k);
    r := Ok("User deleted successfully");
  }

  // ---------------------------------------------------------------------
  // getUsers

  datatype UnitFilter = AnyUnit | Unassigned | InUnit(id: string)

  /** The `query` object `getUsers` builds. */
  datatype UserQuery = UserQuery(
    role: Option<string>,
    unit: UnitFilter,
    approved: Option<bool>,
    search: Option<string>)

  /** The query the handler builds from its query-string parameters: each
      filter is present exactly when its parameter is given and not `all`;
      `unassigned` asks for users without a unit; the approval filter is true
      only for the text `true`. */
  function UserQueryOf(role: Option<string>, unitId: Option<string>, isApproved: Option<string>,
                       search: Option<string>): (q: UserQuery)
    ensures q.role.Some? <==> Truthy(role) && role.value != "all"
    ensures q.role.Some? ==> q.role == role
    ensures q.unit.AnyUnit? <==> !Truthy(unitId) || unitId.value == "all"
    ensures q.unit.Unassigned? <==> unitId == Some("unassigned")
    ensures q.unit.InUnit? ==> unitId == Some(q.unit.id) && q.unit.id != "unassigned"
    ensures q.approved.Some? <==> isApproved.Some? && isApproved.value != "all"
    ensures q.approved.Some? ==> (q.approved.value <==> isApproved == Some("true"))
    ensures q.search.Some? <==> Truthy(search)
    ensures q.search.Some? ==> q.search == search
  {
    UserQuery(
      if Truthy(role) && role.value != "all" then role else None,
      if !Truthy(unitId) || unitId.value == "all" then AnyUnit
      else if unitId.value == "unassigned" then Unassigned
      else InUnit(unitId.value),
      if isApproved.Some? && isApproved.value != "all" then Some(isApproved.value == "true") else None,
      if Truthy(search) then search else None)
  }

  /** The handler's field-by-field construction of the query. */
  method BuildUserQuery(role: Option<string>, unitId: Option<string>, isApproved: Option<string>,
                        search: Option<string>) returns (q: UserQuery)
    ensures q == UserQueryOf(role, unitId, isApproved, search)
  {
    q := UserQuery(None, AnyUnit, None, None);
    if Truthy(role) && role.value != "all" {
      q := q.(role := role);
    }
    if Truthy(unitId) && unitId.value != "all" {
      if unitId.value == "unassigned" {
        q := q.(unit := Unassigned);
      } else {
        q := q.(unit := InUnit(unitId.value));
      }
    }
    if isApproved.Some? && isApproved.value != "all" {
      q := q.(approved := Some(isApproved.value == "true"));
    }
    if Truthy(search) {
      q := q.(search := search);
    }
  }

  /** The case-insensitive `$regex` search on name or email, for a term
      without regular-expression metacharacters. */
  predicate MatchesSearch(u: UserRecord, term: string) {
    Includes(Lower(u.name), Lower(term)) || Includes(Lower(u.email), Lower(term))
  }

  predicate Matches(u: UserRecord, q: UserQuery) {
    && (q.role.Some? ==> RoleName(u.role) == q.role.value)
    && (match q.unit
        case AnyUnit => true
        case Unassigned => u.unit.None?
        case InUnit(id) => u.unit.Some? && u.unit == CastObjectId(id))
    && (q.approved.Some? ==> u.isApproved == q.approved.value)
    && (q.search.Some? ==> MatchesSearch(u, q.search.value))
  }

  /** The CastError `find` raises before reading anything when the unit
      filter does not spell an ObjectId. */
  function QueryCastError(q: UserQuery): (r: Option<HttpError>)
    ensures r.None? <==> !q.unit.InUnit? || IsObjectIdString(q.unit.id)
  {
    if q.unit.InUnit? && !IsObjectIdString(q.unit.id) then Some(InvalidId(CastMessage(q.unit.id, "unit", "User")))
    else None
  }

  /** `User.find(query)` in store order. */
  function Selected(us: seq<UserRecord>, q: UserQuery): (r: seq<UserRecord>)
    ensures |r| <= |us|
  {
    if us == [] then []
    else Selected(us[..|us| - 1], q) + (if Matches(us[|us| - 1], q) then [us[|us| - 1]] else [])
  }

  /** The selection holds exactly the matching users. */
  lemma {:induction false} SelectedIff(us: seq<UserRecord>, q: UserQuery)
    ensures forall u :: u in Selected(us, q) <==> u in us && Matches(u, q)
    decreases |us|
  {
    if us != [] {
      var init := us[..|us| - 1];
      SelectedIff(init, q);
      assert us == init + [us[|us| - 1]];
    }
  }

  /** A query no user matches selects nothing. */
  lemma {:induction false} SelectedNone(us: seq<UserRecord>, q: UserQuery)
    requires forall i :: 0 <= i < |us| ==> !Matches(us[i], q)
    ensures Selected(us, q) == []
    decreases |us|
  {
    if us != [] {
      SelectedNone(us[..|us| - 1], q);
    }
  }

  /** An empty query selects every user, in order. */
  lemma {:induction false} SelectedAll(us: seq<UserRecord>)
    ensures Selected(us, UserQuery(None, AnyUnit, None, None)) == us
    decreases |us|
  {
    if us != [] {
      SelectedAll(us[..|us| - 1]);
      assert us == us[..|us| - 1] + [us[|us| - 1]];
    }
  }

  /** `idx` lists, in increasing order, the store positions that `r` takes
      its entries from: exactly the positions of the matching users. */
  predicate PicksInOrder(r: seq<UserRecord>, us: seq<UserRecord>, q: UserQuery, idx: seq<nat>) {
    Subsequence(r, us, idx) && (forall m :: 0 <= m < |us| ==> (m in idx <==> Matches(us[m], q)))
  }

  /** `r` is `us` read at the increasing positions `idx`. */
  predicate Subsequence(r: seq<UserRecord>, us: seq<UserRecord>, idx: seq<nat>) {
    && |idx| == |r|
    && (forall k :: 0 <= k < |idx| ==> idx[k] < |us| && r[k] == us[idx[k]])
    && (forall k, l :: 0 <= k < l < |idx| ==> idx[k] < idx[l])
  }

  /** The selection keeps store order, whatever the creation times: it is the
      subsequence of the store at the positions of the matching users. */
  lemma {:induction false} SelectedKeepsStoreOrder(us: seq<UserRecord>, q: UserQuery)
    ensures exists idx :: PicksInOrder(Selected(us, q), us, q, idx)
    decreases |us|
  {
    if us == [] {
      var none: seq<nat> := [];
      assert PicksInOrder(Selected(us, q), us, q, none);
    } else {
      var init := us[..|us| - 1];
      SelectedKeepsStoreOrder(init, q);
      var idx0: seq<nat> :| PicksInOrder(Selected(init, q), init, q, idx0);
      var b := Matches(us[|us| - 1], q);
      var idx := if b then idx0 + [|us| - 1] else idx0;
      assert Selected(us, q) == Selected(init, q) + (if b then [us[|us| - 1]] else []);
      SubsequenceStep(Selected(init, q), us, idx0, b);
      PicksStep(us, q, idx0, b);
      assert PicksInOrder(Selected(us, q), us, q, idx);
    }
  }

  /** Extending the store by one entry, and the picks by its position when `b`. */
  lemma SubsequenceStep(p: seq<UserRecord>, us: seq<UserRecord>, idx0: seq<nat>, b: bool)
    requires us != [] && Subsequence(p, us[..|us| - 1], idx0)
    ensures Subsequence(p + (if b then [us[|us| - 1]] else []), us, if b then idx0 + [|us| - 1] else idx0)
  {
    var n := |us| - 1;
    var r := p + (if b then [us[n]] else []);
    var idx := if b then idx0 + [n] else idx0;
    forall k | 0 <= k < |idx|
      ensures idx[k] < |us| && r[k] == us[idx[k]]
    {
      if k < |idx0| {
        assert r[k] == p[k] == us[..n][idx0[k]];
      }
    }
    forall k, l | 0 <= k < l < |idx|
      ensures idx[k] < idx[l]
    {
      if l < |idx0| {
        assert idx[k] == idx0[k] && idx[l] == idx0[l];
      } else {
        assert idx[k] == idx0[k] < n;
      }
    }
  }

  /** The new position is picked exactly when its user matches. */
  lemma PicksStep(us: seq<UserRecord>, q: UserQuery, idx0: seq<nat>, b: bool)
    requires us != [] && b == Matches(us[|us| - 1], q)
    requires forall k :: 0 <= k < |idx0| ==> idx0[k] < |us| - 1
    requires forall m :: 0 <= m < |us| - 1 ==> (m in idx0 <==> Matches(us[..|us| - 1][m], q))
    ensures forall m :: 0 <= m < |us| ==> (m in (if b then idx0 + [|us| - 1] else idx0) <==> Matches(us[m], q))
  {
    var n := |us| - 1;
    var idx := if b then idx0 + [n] else idx0;
    forall m | 0 <= m < |us|
      ensures m in idx <==> Matches(us[m], q)
    {
      if m < n {
        assert us[m] == us[..n][m];
        assert m in idx <==> m in idx0;
      } else {
        assert n !in idx0;
      }
    }
  }

  /** Strictly increasing creation times: every user created in a later
      millisecond than the one before it. */
  predicate OldestFirst(us: seq<UserRecord>) {
    forall i, j :: 0 <= i < j < |us| ==> us[i].createdAt < us[j].createdAt
  }

  /** The selection keeps store order: it is strictly increasing in creation
      time when the store is. */
  lemma {:induction false} SelectedOrdered(us: seq<UserRecord>, q: UserQuery)
    requires OldestFirst(us)
    ensures OldestFirst(Selected(us, q))
    decreases |us|
  {
    if us != [] {
      var init := us[..|us| - 1];
      SelectedOrdered(init, q);
      SelectedIff(init, q);
      var r := Selected(us, q);
      var p := Selected(init, q);
      var last := us[|us| - 1];
      assert r == p + (if Matches(last, q) then [last] else []);
      forall i, j | 0 <= i < j < |r|
        ensures r[i].createdAt < r[j].createdAt
      {
        if j >= |p| {
          assert r[i] == p[i] && r[j] == last;
          assert p[i] in init;
          var m :| 0 <= m < |init| && init[m] == p[i];
          assert us[m] == init[m];
        } else {
          assert r[i] == p[i] && r[j] == p[j];
        }
      }
    }
  }

  /** Creation times that never increase: newest first, ties in any order. */
  predicate NewestFirstOrder(us: seq<UserRecord>) {
    forall i, j :: 0 <= i < j < |us| ==> us[i].createdAt >= us[j].createdAt
  }

  /** `u` placed after every user at least as new as it. */
  function InsertNewest(u: UserRecord, sorted: seq<UserRecord>): (r: seq<UserRecord>)
    ensures |r| == |sorted| + 1
    ensures multiset(r) == multiset(sorted) + multiset{u}
    decreases |sorted|
  {
    if sorted == [] then [u]
    else if sorted[0].createdAt < u.createdAt then [u] + sorted
    else
      assert sorted == [sorted[0]] + sorted[1..];
      [sorted[0]] + InsertNewest(u, sorted[1..])
  }

  /** `sort({ createdAt: -1 })`, by insertion in store order, so users with
      the same creation time keep their store order. */
  function SortNewestFirst(us: seq<UserRecord>): seq<UserRecord>
    decreases |us|
  {
    if us == [] then [] else InsertNewest(us[|us| - 1], SortNewestFirst(us[..|us| - 1]))
  }

  /** A time at least that of `u` and of every user of `s` is at least that
      of every user of `InsertNewest(u, s)`. */
  lemma {:induction false} InsertNewestUpperBound(top: nat, u: UserRecord, s: seq<UserRecord>)
    requires u.createdAt <= top
    requires forall k :: 0 <= k < |s| ==> s[k].createdAt <= top
    ensures forall k :: 0 <= k < |InsertNewest(u, s)| ==> InsertNewest(u, s)[k].createdAt <= top
    decreases |s|
  {
    if s != [] && s[0].createdAt >= u.createdAt {
      InsertNewestUpperBound(top, u, s[1..]);
      assert InsertNewest(u, s) == [s[0]] + InsertNewest(u, s[1..]);
    }
  }

  lemma {:induction false} InsertNewestOrdered(u: UserRecord, sorted: seq<UserRecord>)
    requires NewestFirstOrder(sorted)
    ensures NewestFirstOrder(InsertNewest(u, sorted))
    decreases |sorted|
  {
    var r := InsertNewest(u, sorted);
    if sorted == [] {
    } else if sorted[0].createdAt < u.createdAt {
      forall i, j | 0 <= i < j < |r| ensures r[i].createdAt >= r[j].createdAt {
        if i > 0 {
          assert r[i] == sorted[i - 1] && r[j] == sorted[j - 1];
        } else {
          assert r[j] == sorted[j - 1];
        }
      }
    } else {
      var rest := InsertNewest(u, sorted[1..]);
      assert NewestFirstOrder(sorted[1..]) by {
        forall i, j | 0 <= i < j < |sorted[1..]| ensures sorted[1..][i].createdAt >= sorted[1..][j].createdAt {
          assert sorted[1..][i] == sorted[i + 1] && sorted[1..][j] == sorted[j + 1];
        }
      }
      InsertNewestOrdered(u, sorted[1..]);
      assert r == [sorted[0]] + rest;
      assert forall k :: 0 <= k < |sorted[1..]| ==> sorted[1..][k] == sorted[k + 1];
      InsertNewestUpperBound(sorted[0].createdAt, u, sorted[1..]);
      forall i, j | 0 <= i < j < |r| ensures r[i].createdAt >= r[j].createdAt {
        if i > 0 {
          assert r[i] == rest[i - 1] && r[j] == rest[j - 1];
        } else {
          assert r[j] == rest[j - 1];
        }
      }
    }
  }

  /** The sorted list is newest first and holds exactly the given users. */
  lemma SortNewestFirstCorrect(us: seq<UserRecord>)
    ensures NewestFirstOrder(SortNewestFirst(us))
    ensures multiset(SortNewestFirst(us)) == multiset(us)
  {
    SortNewestFirstOrdered(us);
    SortNewestFirstPermutes(us);
  }

  lemma {:induction false} SortNewestFirstOrdered(us: seq<UserRecord>)
    ensures NewestFirstOrder(SortNewestFirst(us))
    decreases |us|
  {
    if us != [] {
      SortNewestFirstOrdered(us[..|us| - 1]);
      InsertNewestOrdered(us[|us| - 1], SortNewestFirst(us[..|us| - 1]));
    }
  }

  lemma {:induction false} SortNewestFirstPermutes(us: seq<UserRecord>)
    ensures multiset(SortNewestFirst(us)) == multiset(us)
    decreases |us|
  {
    if us != [] {
      var init := us[..|us| - 1];
      SortNewestFirstPermutes(init);
      assert us == init + [us[|us| - 1]];
    }
  }

  /** The store order reversed. */
  function NewestFirst(us: seq<UserRecord>): (r: seq<UserRecord>)
    ensures |r| == |us|
    ensures forall i :: 0 <= i < |us| ==> r[i] == us[|us| - 1 - i]
  {
    seq(|us|, i requires 0 <= i < |us| => us[|us| - 1 - i])
  }

  /** When every user was created in a later millisecond than the one
      before it, the sort is the store order reversed. */
  lemma {:induction false} SortReversesOldestFirst(us: seq<UserRecord>)
    requires OldestFirst(us)
    ensures SortNewestFirst(us) == NewestFirst(us)
    decreases |us|
  {
    if us != [] {
      var init := us[..|us| - 1];
      var last := us[|us| - 1];
      OldestFirstInit(us);
      SortReversesOldestFirst(init);
      if init != [] {
        assert init[|init| - 1] == us[|us| - 2];
      }
      InsertNewestFront(last, init);
      NewestFirstSnoc(init, last);
      assert us == init + [last];
    }
  }

  lemma OldestFirstInit(us: seq<UserRecord>)
    requires OldestFirst(us) && us != []
    ensures OldestFirst(us[..|us| - 1])
  {
    var init := us[..|us| - 1];
    forall i, j | 0 <= i < j < |init| ensures init[i].createdAt < init[j].createdAt {
      assert init[i] == us[i] && init[j] == us[j];
    }
  }

  /** A user newer than the newest of `init` goes in front of its reversal. */
  lemma InsertNewestFront(u: UserRecord, init: seq<UserRecord>)
    requires init != [] ==> init[|init| - 1].createdAt < u.createdAt
    ensures InsertNewest(u, NewestFirst(init)) == [u] + NewestFirst(init)
  {
  }

  lemma NewestFirstSnoc(us: seq<UserRecord>, u: UserRecord)
    ensures NewestFirst(us + [u]) == [u] + NewestFirst(us)
  {
    var r := NewestFirst(us + [u]);
    forall i | 0 <= i < |r| ensures r[i] == ([u] + NewestFirst(us))[i] {
      if i > 0 {
        assert r[i] == us[|us| - i];
      }
    }
  }

  /** The number of documents `skip` passes over. */
  function Offset(page: nat, limit: nat): nat
    requires page >= 1
  {
    (page - 1) * limit
  }

  /** `Math.ceil(total / limit)`. */
  function TotalPages(total: nat, limit: nat): nat
    requires limit >= 1
  {
    (total + limit - 1) / limit
  }

  /** The page count is the least number of pages of `limit` entries that
      hold `total` entries. */
  lemma TotalPagesIsCeiling(total: nat, limit: nat)
    requires limit >= 1
    ensures TotalPages(total, limit) * limit >= total
    ensures TotalPages(total, limit) > 0 ==> (TotalPages(total, limit) - 1) * limit < total
  {
    var n := TotalPages(total, limit);
    DivMod(total + limit - 1, limit);
  }

  /** `.skip(offset).limit(limit)`. */
  function PageOf<T>(xs: seq<T>, page: nat, limit: nat): (r: seq<T>)
    requires page >= 1
  {
    var lo := if Offset(page, limit) < |xs| then Offset(page, limit) else |xs|;
    var hi := if lo + limit < |xs| then lo + limit else |xs|;
    xs[lo..hi]
  }

  /** Pages before the last are full, the last holds the rest, and pages
      beyond the count are empty. */
  lemma PageSizes<T>(xs: seq<T>, page: nat, limit: nat)
    requires page >= 1 && limit >= 1
    ensures |PageOf(xs, page, limit)| <= limit
    ensures page < TotalPages(|xs|, limit) ==> |PageOf(xs, page, limit)| == limit
    ensures page > TotalPages(|xs|, limit) ==> PageOf(xs, page, limit) == []
    ensures page == TotalPages(|xs|, limit) ==> |PageOf(xs, page, limit)| == |xs| - (page - 1) * limit
  {
    var n := TotalPages(|xs|, limit);
    TotalPagesIsCeiling(|xs|, limit);
    MulSucc(page - 1, limit);
    if page < n {
      MulMono(page, n - 1, limit);
    } else if page > n {
      MulMono(n, page - 1, limit);
    }
  }

  lemma MulMono(a: nat, b: nat, c: nat)
    requires a <= b
    ensures a * c <= b * c
  {
  }

  lemma MulSucc(a: nat, c: nat)
    ensures a * c + c == (a + 1) * c
  {
  }

  /** Pages 1 to `n`, one after the other. */
  function Pages<T>(xs: seq<T>, n: nat, limit: nat): seq<T> {
    if n == 0 then [] else Pages(xs, n - 1, limit) + PageOf(xs, n, limit)
  }

  /** The first `n` pages are the first `n * limit` entries, or all of them. */
  lemma {:induction false} PagesPrefix<T>(xs: seq<T>, n: nat, limit: nat)
    requires limit >= 1
    ensures Pages(xs, n, limit) == xs[..if n * limit <= |xs| then n * limit else |xs|]
    decreases n
  {
    if n > 0 {
      PagesPrefix(xs, n - 1, limit);
      assert (n - 1) * limit + limit == n * limit;
      var lo := if (n - 1) * limit <= |xs| then (n - 1) * limit else |xs|;
      var hi := if n * limit <= |xs| then n * limit else |xs|;
      assert PageOf(xs, n, limit) == xs[lo..hi];
      assert xs[..lo] + xs[lo..hi] == xs[..hi];
    }
  }

  /** The pages up to the page count cover the list exactly once, in order. */
  lemma PagesCover<T>(xs: seq<T>, limit: nat)
    requires limit >= 1
    ensures Pages(xs, TotalPages(|xs|, limit), limit) == xs
  {
    var n := TotalPages(|xs|, limit);
    TotalPagesIsCeiling(|xs|, limit);
    PagesPrefix(xs, n, limit);
    assert xs[..|xs|] == xs;
  }

  /** The response of `getUsers`. */
  datatype UsersPage = UsersPage(count: nat, totalPages: nat, currentPage: nat, data: seq<UserRecord>)

  /** `getUsers`: a CastError for a malformed unit filter, otherwise the
      requested page of the matching users, newest first, with the page
      count of all matches. */
  method GetUsers(db: Db, role: Option<string>, unitId: Option<string>, isApproved: Option<string>,
                  search: Option<string>, page: Option<nat>, limit: Option<nat>) returns (r: Result<UsersPage>)
    requires page.GetOr(1) >= 1 && limit.GetOr(20) >= 1
    ensures var q := UserQueryOf(role, unitId, isApproved, search);
      && (QueryCastError(q).Some? ==> r == Err(QueryCastError(q).value))
      && (QueryCastError(q).None? ==>
            var all := Selected(db.users, q);
            && r.Ok?
            && r.value.data == PageOf(SortNewestFirst(all), page.GetOr(1), limit.GetOr(20))
            && r.value.count == |r.value.data|
            && r.value.totalPages == TotalPages(|all|, limit.GetOr(20))
            && r.value.currentPage == page.GetOr(1))
  {
    var q := BuildUserQuery(role, unitId, isApproved, search);
    var err := QueryCastError(q);
    if err.Some? {
      return Err(err.value);
    }
    var p := page.GetOr(1);
    var l := limit.GetOr(20);
    var all := Selected(db.users, q);
    var data := PageOf(SortNewestFirst(all), p, l);
    r := Ok(UsersPage(|data|, TotalPages(|all|, l), p, data));
  }

  /** A page lists only matching users, newest first. */
  lemma GetUsersOrder(us: seq<UserRecord>, q: UserQuery, page: nat, limit: nat)
    requires page >= 1
    ensures NewestFirstOrder(PageOf(SortNewestFirst(Selected(us, q)), page, limit))
    ensures forall u :: u in PageOf(SortNewestFirst(Selected(us, q)), page, limit) ==> u in us && Matches(u, q)
  {
    var all := Selected(us, q);
    SelectedIff(us, q);
    SortNewestFirstCorrect(all);
    var sorted := SortNewestFirst(all);
    forall u | u in sorted ensures u in all {
      assert u in multiset(sorted);
    }
    PageOfSlice(sorted, page, limit);
  }

  /** Reading the pages up to the page count lists every matching user
      exactly as often as the selection holds it. */
  lemma GetUsersPagesCover(us: seq<UserRecord>, q: UserQuery, limit: nat)
    requires limit >= 1
    ensures var all := Selected(us, q);
      multiset(Pages(SortNewestFirst(all), TotalPages(|all|, limit), limit)) == multiset(all)
  {
    var all := Selected(us, q);
    SortNewestFirstCorrect(all);
    PagesCover(SortNewestFirst(all), limit);
  }

  /** A page is a slice: it keeps the order and holds nothing new. */
  lemma PageOfSlice(xs: seq<UserRecord>, page: nat, limit: nat)
    requires page >= 1
    ensures NewestFirstOrder(xs) ==> NewestFirstOrder(PageOf(xs, page, limit))
    ensures forall u :: u in PageOf(xs, page, limit) ==> u in xs
  {
    var lo := if Offset(page, limit) < |xs| then Offset(page, limit) else |xs|;
    var r := PageOf(xs, page, limit);
    forall i | 0 <= i < |r|
      ensures r[i] == xs[lo + i]
    {
    }
  }
}
