/** The unit handlers: create, list by name, fetch, rename or re-describe,
    and delete (which first detaches the unit's users). */
module UnitController {
  import opened Http
  import opened Text
  import opened Numerals
  import opened UserModel
  import opened UnitModel
  import opened Store
  import AdminController

  const NameRequired: string := "Unit name is required"
  const NameExists: string := "Unit with this name already exists"
  const UnitNotFound: string := "Unit not found"

  // ---------------------------------------------------------------------
  // createUnit

  /** `createUnit`: the name must be truthy and, trimmed, not yet taken; the
      schema then refuses a name that trims to nothing. */
  method CreateUnit(db: Db, name: Option<string>, description: Option<string>, now: nat)
    returns (r: Result<UnitRecord>)
    requires db.Valid()
    modifies db
    ensures db.Valid()
    ensures db.users == old(db.users)
    ensures !Truthy(name) ==> r == Err(BadRequest(NameRequired))
    ensures Truthy(name) && NameTaken(old(db.units), Trim(name.value)) ==> r == Err(BadRequest(NameExists))
    ensures Truthy(name) && Trim(name.value) == "" ==> r == Err(ValidationFailed(UnitNameRequired))
    ensures r.Ok? <==> Truthy(name) && Trim(name.value) != "" && !NameTaken(old(db.units), Trim(name.value))
    ensures r.Err? ==> db.units == old(db.units) && db.clock == old(db.clock)
    ensures r.Ok? ==>
      && r.value == UnitRecord(ObjectIdHex(old(db.clock)), Trim(name.value), TrimOpt(description),
                               now, now)
      && db.units == old(db.units) + [r.value]
  {
    if !Truthy(name) {
      return Err(BadRequest(NameRequired));
    }
    if NameTaken(db.units, Trim(name.value)) {
      return Err(BadRequest(NameExists));
    }
    r := NewUnit(ObjectIdHex(db.clock), name.value, description, now);
    if r.Ok? {
      NewUnitWellFormed(ObjectIdHex(db.clock), name.value, description, now);
      db.AddUnit(r.value);
    }
  }

  // ---------------------------------------------------------------------
  // getAllUnits

  /** The order `sort({ name: 1 })` uses: character by character, a proper
      prefix first. */
  predicate NameLe(a: string, b: string)
    decreases |a|
  {
    a == [] || (b != [] && (a[0] < b[0] || (a[0] == b[0] && NameLe(a[1..], b[1..]))))
  }

  lemma {:induction false} NameLeTotal(a: string, b: string)
    ensures NameLe(a, b) || NameLe(b, a)
    decreases |a|
  {
    if a != [] && b != [] && a[0] == b[0] {
      NameLeTotal(a[1..], b[1..]);
    }
  }

  lemma {:induction false} NameLeTrans(a: string, b: string, c: string)
    requires NameLe(a, b) && NameLe(b, c)
    ensures NameLe(a, c)
    decreases |a|
  {
    if a != [] && b != [] && c != [] && a[0] == b[0] && b[0] == c[0] {
      NameLeTrans(a[1..], b[1..], c[1..]);
    }
  }

  lemma {:induction false} NameLeAntisym(a: string, b: string)
    requires NameLe(a, b) && NameLe(b, a)
    ensures a == b
    decreases |a|
  {
    if a != [] {
      NameLeAntisym(a[1..], b[1..]);
      assert a == [a[0]] + a[1..] && b == [b[0]] + b[1..];
    }
  }

  predicate ByName(units: seq<UnitRecord>) {
    forall i, j :: 0 <= i < j < |units| ==> NameLe(units[i].name, units[j].name)
  }

  /** `u` inserted before the first unit whose name does not come before it. */
  function Insert(u: UnitRecord, sorted: seq<UnitRecord>): (r: seq<UnitRecord>)
    ensures |r| == |sorted| + 1
    ensures multiset(r) == multiset(sorted) + multiset{u}
    decreases |sorted|
  {
    if sorted == [] then [u]
    else if NameLe(u.name, sorted[0].name) then [u] + sorted
    else
      assert sorted == [sorted[0]] + sorted[1..];
      [sorted[0]] + Insert(u, sorted[1..])
  }

  lemma {:induction false} InsertByName(u: UnitRecord, sorted: seq<UnitRecord>)
    requires ByName(sorted)
    ensures ByName(Insert(u, sorted))
    decreases |sorted|
  {
    var r := Insert(u, sorted);
    if sorted == [] {
    } else if NameLe(u.name, sorted[0].name) {
      forall i, j | 0 <= i < j < |r| ensures NameLe(r[i].name, r[j].name) {
        if i == 0 && j > 1 {
          assert r[j] == sorted[j - 1];
          NameLeTrans(u.name, sorted[0].name, r[j].name);
        }
      }
    } else {
      NameLeTotal(u.name, sorted[0].name);
      var rest := Insert(u, sorted[1..]);
      InsertByName(u, sorted[1..]);
      assert r == [sorted[0]] + rest;
      InsertLowerBound(sorted[0].name, u, sorted[1..]);
      forall i, j | 0 <= i < j < |r| ensures NameLe(r[i].name, r[j].name) {
        if i > 0 {
          assert r[i] == rest[i - 1] && r[j] == rest[j - 1];
        }
      }
    }
  }

  /** A name that comes before `u` and before every unit of `s` comes before
      every unit of `Insert(u, s)`. */
  lemma {:induction false} InsertLowerBound(low: string, u: UnitRecord, s: seq<UnitRecord>)
    requires NameLe(low, u.name)
    requires forall k :: 0 <= k < |s| ==> NameLe(low, s[k].name)
    ensures forall k :: 0 <= k < |Insert(u, s)| ==> NameLe(low, Insert(u, s)[k].name)
    decreases |s|
  {
    if s != [] && !NameLe(u.name, s[0].name) {
      InsertLowerBound(low, u, s[1..]);
      assert Insert(u, s) == [s[0]] + Insert(u, s[1..]);
    }
  }

  /** The units ordered by name, by insertion. */
  function SortByName(units: seq<UnitRecord>): seq<UnitRecord>
    decreases |units|
  {
    if units == [] then [] else Insert(units[0], SortByName(units[1..]))
  }

  /** The listing is ordered by name and holds exactly the stored units. */
  lemma {:induction false} SortByNameCorrect(units: seq<UnitRecord>)
    ensures ByName(SortByName(units))
    ensures multiset(SortByName(units)) == multiset(units)
    decreases |units|
  {
    if units != [] {
      SortByNameCorrect(units[1..]);
      InsertByName(units[0], SortByName(units[1..]));
      assert units == [units[0]] + units[1..];
    }
  }

  /** Two listings ordered by name with the same units and distinct names
      start with the same unit. */
  lemma ByNameHeads(a: seq<UnitRecord>, b: seq<UnitRecord>)
    requires ByName(a) && ByName(b) && multiset(a) == multiset(b) && a != []
    requires forall i, j :: 0 <= i < j < |a| ==> a[i].name != a[j].name
    ensures b != [] && a[0] == b[0]
  {
    assert a[0] in multiset(b);
    var i :| 0 <= i < |b| && b[i] == a[0];
    assert b[0] in multiset(a);
    var j :| 0 <= j < |a| && a[j] == b[0];
    if j != 0 && i != 0 {
      NameLeAntisym(a[0].name, a[j].name);
    }
  }

  /** Two listings ordered by name with the same units are equal when the
      names are distinct, as the unique index makes them: the order is
      determined. */
  lemma {:induction false} ByNameUnique(a: seq<UnitRecord>, b: seq<UnitRecord>)
    requires ByName(a) && ByName(b) && multiset(a) == multiset(b)
    requires forall i, j :: 0 <= i < j < |a| ==> a[i].name != a[j].name
    ensures a == b
    decreases |a|
  {
    if a == [] {
      assert |b| == |multiset(b)| == 0;
    } else {
      ByNameHeads(a, b);
      TailsAgree(a, b);
      forall i, j | 0 <= i < j < |a[1..]| ensures a[1..][i].name != a[1..][j].name {
        assert a[1..][i] == a[i + 1] && a[1..][j] == a[j + 1];
      }
      ByNameUnique(a[1..], b[1..]);
      assert a == [a[0]] + a[1..] && b == [b[0]] + b[1..];
    }
  }

  /** Equal heads cancel from equal multisets; the tails stay ordered. */
  lemma TailsAgree(a: seq<UnitRecord>, b: seq<UnitRecord>)
    requires ByName(a) && ByName(b) && multiset(a) == multiset(b)
    requires a != [] && b != [] && a[0] == b[0]
    ensures multiset(a[1..]) == multiset(b[1..])
    ensures ByName(a[1..]) && ByName(b[1..])
  {
    TailFacts(a);
    TailFacts(b);
  }

  /** Dropping the head of an ordered listing removes one copy of it and
      keeps the rest ordered. */
  lemma TailFacts(a: seq<UnitRecord>)
    requires ByName(a) && a != []
    ensures multiset(a[1..]) == multiset(a) - multiset{a[0]}
    ensures ByName(a[1..])
  {
    assert a == [a[0]] + a[1..];
    forall i, j | 0 <= i < j < |a[1..]| ensures NameLe(a[1..][i].name, a[1..][j].name) {
      assert a[1..][i] == a[i + 1] && a[1..][j] == a[j + 1];
    }
  }

  /** `getAllUnits`: every stored unit once, ordered by name. */
  method GetAllUnits(db: Db) returns (units: seq<UnitRecord>)
    ensures ByName(units)
    ensures multiset(units) == multiset(db.units)
  {
    units := SortByName(db.units);
    SortByNameCorrect(db.units);
  }

  // ---------------------------------------------------------------------
  // getUnitById

  /** `getUnitById`: a CastError for an id that does not spell an ObjectId,
      otherwise the stored unit with the ObjectId it names, or not found. */
  method GetUnitById(db: Db, id: string) returns (r: Result<UnitRecord>)
    ensures !IsObjectIdString(id) ==> r == Err(InvalidId(CastMessage(id, "_id", "Unit")))
    ensures r.Ok? <==> exists k :: 0 <= k < |db.units| && Some(db.units[k].id) == CastObjectId(id)
    ensures r.Ok? ==> r.value in db.units && Some(r.value.id) == CastObjectId(id)
    ensures IsObjectIdString(id) && r.Err? ==> r.error == NotFound(UnitNotFound)
  {
    match FindUnit(db.units, id)
    case Err(e) => r := Err(e);
    case Ok(None) => r := Err(NotFound(UnitNotFound));
    case Ok(Some(k)) => r := Ok(db.units[k]);
  }

  // ---------------------------------------------------------------------
  // updateUnit

  /** The handler renames only for a truthy name that differs, as given,
      from the stored one. */
  predicate Renames(u: UnitRecord, name: Option<string>) {
    Truthy(name) && name.value != u.name
  }

  /** `updateUnit`: a CastError for a malformed id, not found for an unknown
      one; a rename is refused when its trimmed name is taken (by any unit,
      this one included) and by the schema when it trims to nothing; a given
      description is trimmed and replaces the stored one; `save` stamps
      `updatedAt` only when something changed. */
  method UpdateUnit(db: Db, id: string, name: Option<string>, description: Option<string>, now: nat)
    returns (r: Result<UnitRecord>)
    requires db.Valid()
    modifies db
    ensures db.Valid()
    ensures db.users == old(db.users)
    ensures !IsObjectIdString(id) ==> r == Err(InvalidId(CastMessage(id, "_id", "Unit")))
    ensures FindUnit(old(db.units), id) == Ok(None) ==> r == Err(NotFound(UnitNotFound))
    ensures r.Err? ==> db.units == old(db.units) && db.clock == old(db.clock)
    ensures FindUnit(old(db.units), id).Ok? && FindUnit(old(db.units), id).value.Some? ==>
      var k := FindUnit(old(db.units), id).value.value;
      var u := old(db.units)[k];
      var newName := if Renames(u, name) then Trim(name.value) else u.name;
      var newDescription := if description.Some? then Some(Trim(description.value)) else u.description;
      var changed := newName != u.name || newDescription != u.description;
      && (Renames(u, name) && NameTaken(old(db.units), Trim(name.value)) ==> r == Err(BadRequest(NameExists)))
      && (Renames(u, name) && Trim(name.value) == "" ==> r == Err(ValidationFailed(UnitNameRequired)))
      && (r.Ok? <==> !Renames(u, name) || (Trim(name.value) != "" && !NameTaken(old(db.units), Trim(name.value))))
      && (r.Ok? ==>
            && r.value == u.(name := newName, description := newDescription,
                             updatedAt := if changed then now else u.updatedAt)
            && db.units == old(db.units)[k := r.value])
  {
    var found := FindUnit(db.units, id);
    if found.Err? {
      return Err(found.error);
    }
    if found.value.None? {
      return Err(NotFound(UnitNotFound));
    }
    var k := found.value.value;
    var u := db.units[k];
    var newName := u.name;
    if Renames(u, name) {
      if NameTaken(db.units, Trim(name.value)) {
        return Err(BadRequest(NameExists));
      }
      newName := Trim(name.value);
      TrimIdempotent(name.value);
    }
    var newDescription := u.description;
    if description.Some? {
      newDescription := Some(Trim(description.value));
    }
    if newName == "" {
      return Err(ValidationFailed(UnitNameRequired));
    }
    if newName != u.name || newDescription != u.description {
      assert UnitWellFormed(u);
      if description.Some? {
        TrimIdempotent(description.value);
      }
      db.TouchUnit(k, newName, newDescription, now);
    }
    r := Ok(db.units[k]);
  }

  // ---------------------------------------------------------------------
  // deleteUnit

  const UnitDeleted: string := "Unit deleted successfully"

  /** Detaching a unit changes only the users that were in it, and only
      their unit. */
  lemma WithoutUnitEffect(us: seq<UserRecord>, unitId: string)
    ensures forall i :: 0 <= i < |us| ==>
      var r := WithoutUnit(us, unitId);
      && r[i].unit != Some(unitId)
      && (us[i].unit != Some(unitId) ==> r[i] == us[i])
      && r[i] == us[i].(unit := r[i].unit)
  {
  }

  /** `deleteUnit` as written: the `$set` of `undefined` on line 109 is an
      empty update once the driver drops undefined values, so the unit is
      removed and its users keep referring to it. */
  method DeleteUnitAsWritten(db: Db, id: string) returns (r: Result<string>)
    requires db.Valid()
    modifies db
    ensures db.Valid()
    ensures db.clock == old(db.clock) && db.users == old(db.users)
    ensures !IsObjectIdString(id) ==> r == Err(InvalidId(CastMessage(id, "_id", "Unit")))
    ensures FindUnit(old(db.units), id) == Ok(None) <==> r == Err(NotFound(UnitNotFound))
    ensures r.Err? ==> db.units == old(db.units)
    ensures r.Ok? ==>
      var k := FindUnit(old(db.units), id).value.value;
      && r.value == UnitDeleted
      && db.units == old(db.units)[..k] + old(db.units)[k + 1..]
  {
    var found := FindUnit(db.units, id);
    if found.Err? {
      return Err(found.error);
    }
    if found.value.None? {
      return Err(NotFound(UnitNotFound));
    }
    db.RemoveUnit(found.value.value);
    r := Ok(UnitDeleted);
  }

  /** The users of a deleted unit, left as `DeleteUnitAsWritten` leaves
      them, are not listed as unassigned: the `$exists: false` filter of
      `unitId=unassigned` skips them, while the deleted unit's own filter
      still lists them. */
  lemma FormerMembersNotUnassigned(us: seq<UserRecord>, unitId: string, i: nat)
    requires i < |us| && us[i].unit == Some(unitId) && CastObjectId(unitId) == Some(unitId)
    ensures us[i] !in AdminController.Selected(us, AdminController.UserQueryOf(None, Some("unassigned"), None, None))
    ensures us[i] in AdminController.Selected(us, AdminController.UserQueryOf(None, Some(unitId), None, None))
  {
    AdminController.SelectedIff(us, AdminController.UserQueryOf(None, Some("unassigned"), None, None));
    AdminController.SelectedIff(us, AdminController.UserQueryOf(None, Some(unitId), None, None));
  }

  /** With the references cleared, as `DeleteUnit` does, the same users
      are listed as unassigned and the deleted unit's filter lists nobody. */
  lemma ClearedMembersUnassigned(us: seq<UserRecord>, unitId: string, i: nat)
    requires i < |us| && us[i].unit == Some(unitId) && CastObjectId(unitId) == Some(unitId)
    ensures var r := WithoutUnit(us, unitId);
      && r[i] in AdminController.Selected(r, AdminController.UserQueryOf(None, Some("unassigned"), None, None))
      && AdminController.Selected(r, AdminController.UserQueryOf(None, Some(unitId), None, None)) == []
  {
    var r := WithoutUnit(us, unitId);
    var q := AdminController.UserQueryOf(None, Some(unitId), None, None);
    AdminController.SelectedIff(r, AdminController.UserQueryOf(None, Some("unassigned"), None, None));
    AdminController.SelectedNone(r, q);
  }

  /** `deleteUnit` as the comment on line 108 intends: the unit's users are
      detached ("set to null"), then the unit is removed; no user is
      deleted. */
  method DeleteUnit(db: Db, id: string) returns (r: Result<string>)
    requires db.Valid()
    modifies db
    ensures db.Valid()
    ensures db.clock == old(db.clock)
    ensures !IsObjectIdString(id) ==> r == Err(InvalidId(CastMessage(id, "_id", "Unit")))
    ensures FindUnit(old(db.units), id) == Ok(None) <==> r == Err(NotFound(UnitNotFound))
    ensures r.Err? ==> db.units == old(db.units) && db.users == old(db.users)
    ensures r.Ok? ==>
      var k := FindUnit(old(db.units), id).value.value;
      var unitId := old(db.units)[k].id;
      && Some(unitId) == CastObjectId(id)
      && r.value == UnitDeleted
      && db.units == old(db.units)[..k] + old(db.units)[k + 1..]
      && db.users == WithoutUnit(old(db.users), unitId)
      && (forall i :: 0 <= i < |db.units| ==> db.units[i].id != unitId)
      && (forall i :: 0 <= i < |db.users| ==> db.users[i].unit != Some(unitId))
  {
    var found := FindUnit(db.units, id);
    if found.Err? {
      return Err(found.error);
    }
    if found.value.None? {
      return Err(NotFound(UnitNotFound));
    }
    var k := found.value.value;
    var unitId := db.units[k].id;
    db.ClearUnitRefs(unitId);
    UnitIdGone(db.units, db.clock, k, db.units[..k] + db.units[k + 1..]);
    db.RemoveUnit(k);
    r := Ok(UnitDeleted);
  }

  /** Once the unit with an id is removed, no unit with that id is left. */
  lemma UnitIdGone(units: seq<UnitRecord>, clock: nat, k: nat, r: seq<UnitRecord>)
    requires UnitsValid(units, clock) && k < |units|
    requires r == units[..k] + units[k + 1..]
    ensures forall i :: 0 <= i < |r| ==> r[i].id != units[k].id
  {
    forall i | 0 <= i < |r|
      ensures r[i].id != units[k].id
    {
      assert r[i] == units[Skip(i, k)];
      if Skip(i, k) < k {
        UnitIdsDistinct(units, clock, Skip(i, k), k);
      } else {
        UnitIdsDistinct(units, clock, k, Skip(i, k));
      }
    }
  }
}
