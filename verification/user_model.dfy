/** The user document: its fields, the schema's setters (trim, lowercase),
    defaults, validators and the password check's no-password case. */
module UserModel {
  import opened Text
  import opened Http
  import opened Numerals

  datatype UserRole = Admin | User

  /** The string each role is stored as. */
  function RoleName(r: UserRole): string {
    match r
    case Admin => "admin"
    case User => "user"
  }

  /** The schema's enum validator: a role string is accepted only if it is one
      of the role names, and then it names exactly one role. */
  function ParseRole(s: string): (r: Option<UserRole>)
    ensures r.Some? <==> s == "admin" || s == "user"
    ensures r.Some? ==> RoleName(r.value) == s
  {
    if s == "admin" then Some(Admin) else if s == "user" then Some(User) else None
  }

  datatype UserRecord = UserRecord(
    id: string,
    name: string,
    email: string,
    password: Option<string>,
    role: UserRole,
    unit: Option<string>,
    isApproved: bool,
    rejectionReason: Option<string>,
    isActive: bool,
    createdAt: nat)

  /** A run of characters the email pattern's `[^\s@]` accepts. */
  predicate IsPlain(s: string) {
    forall i :: 0 <= i < |s| ==> !IsSpace(s[i]) && s[i] != '@'
  }

  /** The email pattern `^[^\s@]+@[^\s@]+\.[^\s@]+$` read literally: an `@` at
      `at` and a dot at `dot` cut the address into three non-empty plain runs. */
  ghost predicate EmailCut(s: string, at: int, dot: int) {
    && 0 < at && at + 1 < dot && dot + 1 < |s|
    && s[at] == '@' && s[dot] == '.'
    && IsPlain(s[..at]) && IsPlain(s[at + 1..dot]) && IsPlain(s[dot + 1..])
  }

  ghost predicate MatchesEmailPattern(s: string) {
    exists at, dot :: EmailCut(s, at, dot)
  }

  /** The email validator as the server runs it: everything before the first
      `@` is a non-empty plain run, and everything after it is a plain run of
      at least three characters with a dot that is neither first nor last. */
  predicate IsValidEmail(s: string) {
    match FirstIndex(s, '@')
    case None => false
    case Some(at) =>
      var domain := s[at + 1..];
      && at > 0 && IsPlain(s[..at])
      && |domain| >= 3 && IsPlain(domain) && '.' in domain[1..|domain| - 1]
  }

  /** The validator accepts exactly the addresses the schema's pattern matches. */
  lemma EmailValidatorMatchesPattern(s: string)
    ensures IsValidEmail(s) <==> MatchesEmailPattern(s)
  {
    if IsValidEmail(s) {
      ValidEmailMatches(s);
    }
    if MatchesEmailPattern(s) {
      var at, dot :| EmailCut(s, at, dot);
      PatternMatchValid(s, at, dot);
    }
  }

  lemma ValidEmailMatches(s: string)
    requires IsValidEmail(s)
    ensures MatchesEmailPattern(s)
  {
    var at := FirstIndex(s, '@').value;
    var domain := s[at + 1..];
    var mid := domain[1..|domain| - 1];
    var k :| 0 <= k < |mid| && mid[k] == '.';
    var dot := at + 2 + k;
    assert s[dot] == '.';
    assert s[..at] == s[..at];
    assert s[at + 1..dot] == domain[..k + 1];
    assert IsPlain(s[at + 1..dot]);
    assert s[dot + 1..] == domain[k + 2..];
    assert IsPlain(s[dot + 1..]);
    assert EmailCut(s, at, dot);
  }

  lemma PatternMatchValid(s: string, at: int, dot: int)
    requires EmailCut(s, at, dot)
    ensures IsValidEmail(s)
  {
    assert '@' !in s[..at];
    FirstIndexAt(s, '@', at);
    var domain := s[at + 1..];
    assert domain == s[at + 1..dot] + ['.'] + s[dot + 1..];
    assert IsPlain(domain);
    assert domain[1..|domain| - 1][dot - at - 2] == '.';
  }

  /** A valid address has no white space and exactly one `@`. */
  lemma ValidEmailShape(s: string)
    requires IsValidEmail(s)
    ensures NoSpace(s)
    ensures exists at :: 0 < at < |s| && s[at] == '@'
    ensures forall i, j :: 0 <= i < |s| && 0 <= j < |s| && s[i] == '@' && s[j] == '@' ==> i == j
  {
    var at := FirstIndex(s, '@').value;
    assert s == s[..at] + ['@'] + s[at + 1..];
    forall i | 0 <= i < |s| ensures !IsSpace(s[i]) && (s[i] == '@' ==> i == at) {
      if i < at { assert s[i] == s[..at][i]; }
      else if i > at { assert s[i] == s[at + 1..][i - at - 1]; }
    }
  }

  /** Lowercase letters and dots are plain. */
  lemma LettersArePlain(s: string)
    requires forall i :: 0 <= i < |s| ==> 'a' <= s[i] <= 'z' || s[i] == '.'
    ensures IsPlain(s)
  {
  }

  lemma ValidEmailExample()
    ensures IsValidEmail("john@x.com")
  {
    var s := "john@x.com";
    LettersArePlain(s[..4]);
    LettersArePlain(s[5..]);
    FirstIndexAt(s, '@', 4);
    assert s[5..][1..4] == ".co";
  }

  lemma InvalidEmailExamples()
    ensures !IsValidEmail("john@x")
    ensures !IsValidEmail("a@b@c.de")
    ensures !IsValidEmail("jo hn@x.com")
  {
    FirstIndexAt("john@x", '@', 4);
    FirstIndexAt("a@b@c.de", '@', 1);
    assert "a@b@c.de"[2..][1] == '@';
    FirstIndexAt("jo hn@x.com", '@', 5);
    assert "jo hn@x.com"[..5][2] == ' ';
  }

  /** The email path's setters: `lowercase` and `trim`. */
  function NormalizeEmail(e: string): string {
    Trim(Lower(e))
  }

  /** The two setters commute, so the order Mongoose applies them in does not
      matter. */
  lemma LowerTrimCommute(s: string)
    ensures Trim(Lower(s)) == Lower(Trim(s))
  {
    LowerTrimStart(s);
    LowerTrimEnd(TrimStart(s));
  }

  lemma {:induction false} LowerTrimStart(s: string)
    ensures TrimStart(Lower(s)) == Lower(TrimStart(s))
    decreases |s|
  {
    if s != [] {
      var l := Lower(s);
      assert l[0] == LowerChar(s[0]);
      LowerCharSpace(s[0]);
      if IsSpace(s[0]) {
        assert l[1..] == Lower(s[1..]);
        LowerTrimStart(s[1..]);
        assert TrimStart(l) == TrimStart(l[1..]);
      } else {
        assert TrimStart(l) == l;
      }
    }
  }

  lemma {:induction false} LowerTrimEnd(s: string)
    ensures TrimEnd(Lower(s)) == Lower(TrimEnd(s))
    decreases |s|
  {
    if s != [] {
      var l := Lower(s);
      assert l[|s| - 1] == LowerChar(s[|s| - 1]);
      LowerCharSpace(s[|s| - 1]);
      if IsSpace(s[|s| - 1]) {
        assert l[..|s| - 1] == Lower(s[..|s| - 1]);
        LowerTrimEnd(s[..|s| - 1]);
        assert TrimEnd(l) == TrimEnd(l[..|s| - 1]);
      } else {
        assert TrimEnd(l) == l;
      }
    }
  }

  lemma LowerCharSpace(c: char)
    ensures IsSpace(LowerChar(c)) <==> IsSpace(c)
  {
  }

  /** The `unit` path's cast succeeds: no unit, or one that spells an
      ObjectId. */
  predicate UnitCasts(unit: Option<string>) {
    unit.None? || IsObjectIdString(unit.value)
  }

  /** The reference the `unit` path stores: the ObjectId a cast unit names. */
  function CastUnit(unit: Option<string>): (r: Option<string>)
    ensures unit.None? ==> r.None?
    ensures unit.Some? && UnitCasts(unit) ==> r.Some? && Value(r.value, 16) == Value(unit.value, 16)
  {
    match unit
    case None => None
    case Some(s) => CastObjectId(s)
  }

  /** The error the `unit` path records for a value that is not an ObjectId. */
  function UnitCastError(value: string): string {
    "unit: Cast to ObjectId failed for value \"" + value + "\" (type string) at path \"unit\" because of \"BSONError\""
  }

  /** The errors of a new document: the `unit` cast error, recorded when the
      document is built, then the validators' over values that already went
      through the setters, in path order, each as `<path>: <message>`. */
  function UserValidationErrors(unit: Option<string>, name: string, email: string): (r: seq<string>)
    ensures r == [] <==> UnitCasts(unit) && name != "" && IsValidEmail(email)
    ensures !UnitCasts(unit) ==> r[0] == UnitCastError(unit.value)
  {
    (if UnitCasts(unit) then [] else [UnitCastError(unit.value)])
    + (if name == "" then ["name: Name is required"] else [])
    + (if email == "" then ["email: Email is required"]
       else if !IsValidEmail(email) then ["email: Please provide a valid email address"]
       else [])
  }

  /** The text of a Mongoose ValidationError for the User model. */
  function ValidationMessage(errors: seq<string>): string {
    "User validation failed: " + Join(errors, ", ")
  }

  /** A new user document: setters normalise the given name and email, the
      unit is cast to an ObjectId, the defaults fill the rest, and the
      validators decide whether it is saved. */
  function NewUser(id: string, name: string, email: string, role: UserRole,
                   unit: Option<string>, isApproved: bool, createdAt: nat): (r: Result<UserRecord>)
    ensures r.Ok? <==> UnitCasts(unit) && Trim(name) != "" && IsValidEmail(NormalizeEmail(email))
    ensures r.Ok? ==> r.value.id == id && r.value.role == role && r.value.unit == CastUnit(unit)
    ensures r.Ok? ==> r.value.name == Trim(name) && r.value.email == NormalizeEmail(email)
    ensures r.Ok? ==> r.value.isApproved == isApproved && r.value.isActive && r.value.createdAt == createdAt
    ensures r.Ok? ==> r.value.password.None? && r.value.rejectionReason.None?
    ensures r.Err? ==> r.error.ValidationFailed?
    ensures r.Err? && !UnitCasts(unit) ==>
      r.error.message == ValidationMessage(UserValidationErrors(unit, Trim(name), NormalizeEmail(email)))
      && UserValidationErrors(unit, Trim(name), NormalizeEmail(email))[0] == UnitCastError(unit.value)
  {
    var n := Trim(name);
    var e := NormalizeEmail(email);
    var errors := UserValidationErrors(unit, n, e);
    if errors == [] then
      Ok(UserRecord(id, n, e, None, role, CastUnit(unit), isApproved, None, true, createdAt))
    else
      Err(ValidationFailed(ValidationMessage(errors)))
  }

  /** What the schema guarantees of every stored user. */
  predicate WellFormed(u: UserRecord) {
    && u.name != "" && u.name == Trim(u.name) && IsValidEmail(u.email) && u.email == NormalizeEmail(u.email)
    && (u.unit.Some? ==> CastObjectId(u.unit.value) == u.unit)
  }

  /** A user saved through `NewUser` satisfies the schema. */
  lemma NewUserWellFormed(id: string, name: string, email: string, role: UserRole,
                          unit: Option<string>, isApproved: bool, createdAt: nat)
    requires NewUser(id, name, email, role, unit, isApproved, createdAt).Ok?
    ensures WellFormed(NewUser(id, name, email, role, unit, isApproved, createdAt).value)
  {
    TrimIdempotent(name);
    var e := NormalizeEmail(email);
    LowerTrimCommute(email);
    LowerIdempotent(Trim(email));
    TrimIdempotent(Lower(email));
    assert Lower(e) == e;
    if unit.Some? {
      CastIdempotent(unit.value);
    }
  }

  /** `comparePassword`: a user without a stored password (absent or empty)
      never matches; with one, the answer is the hash comparison's, which is
      not modelled. */
  function ComparePassword(stored: Option<string>, candidate: string,
                           hashMatches: (string, string) -> bool): (ok: bool)
    ensures !Truthy(stored) ==> !ok
    ensures Truthy(stored) ==> ok == hashMatches(candidate, stored.value)
  {
    if !Truthy(stored) then false else hashMatches(candidate, stored.value)
  }
}
