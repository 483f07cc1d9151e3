/** The two collections the handlers work on, held in memory.  A counter
    stands for the ObjectId generator: each new document's id is the
    counter's 24-digit hexadecimal, so ids grow in store order.  Creation
    and update times are whatever clock reading the handler is given. */
module Store {
  import opened Http
  import opened Numerals
  import opened UserModel
  import opened UnitModel

  /** The counter value an id was minted from. */
  function Serial(id: string): nat {
    Value(id, 16)
  }

  /** The text of the CastError a query raises for a malformed id. */
  function CastMessage(value: string, path: string, model: string): string {
    "Cast to ObjectId failed for value \"" + value + "\" (type string) at path \"" + path
      + "\" for model \"" + model + "\""
  }

  /** The position of the user with this stored id, if any. */
  function UserIndex(us: seq<UserRecord>, id: string): (r: Option<nat>)
    ensures r.Some? ==> r.value < |us| && us[r.value].id == id
    ensures r.None? ==> forall i :: 0 <= i < |us| ==> us[i].id != id
  {
    if us == [] then None
    else if us[0].id == id then Some(0)
    else match UserIndex(us[1..], id)
      case None => None
      case Some(k) => Some(k + 1)
  }

  /** `User.findOne({ email })` finds something. */
  predicate EmailTaken(us: seq<UserRecord>, email: string) {
    exists i :: 0 <= i < |us| && us[i].email == email
  }

  /** `User.findById(id)`: a string that does not spell an ObjectId raises a
      CastError; otherwise the position of the user with the ObjectId it
      names, if any. */
  function FindUser(us: seq<UserRecord>, id: string): (r: Result<Option<nat>>)
    ensures r.Err? <==> !IsObjectIdString(id)
    ensures r.Err? ==> r.error == InvalidId(CastMessage(id, "_id", "User"))
    ensures r.Ok? && r.value.Some? ==>
      r.value.value < |us| && Some(us[r.value.value].id) == CastObjectId(id)
    ensures r.Ok? && r.value.None? ==> forall i :: 0 <= i < |us| ==> Some(us[i].id) != CastObjectId(id)
  {
    match CastObjectId(id)
    case None => Err(InvalidId(CastMessage(id, "_id", "User")))
    case Some(oid) => Ok(UserIndex(us, oid))
  }

  /** The position of the unit with this stored id, if any. */
  function UnitIndex(units: seq<UnitRecord>, id: string): (r: Option<nat>)
    ensures r.Some? ==> r.value < |units| && units[r.value].id == id
    ensures r.None? ==> forall i :: 0 <= i < |units| ==> units[i].id != id
  {
    if units == [] then None
    else if units[0].id == id then Some(0)
    else match UnitIndex(units[1..], id)
      case None => None
      case Some(k) => Some(k + 1)
  }

  /** `Unit.findById(id)`, in the same way. */
  function FindUnit(units: seq<UnitRecord>, id: string): (r: Result<Option<nat>>)
    ensures r.Err? <==> !IsObjectIdString(id)
    ensures r.Err? ==> r.error == InvalidId(CastMessage(id, "_id", "Unit"))
    ensures r.Ok? && r.value.Some? ==>
      r.value.value < |units| && Some(units[r.value.value].id) == CastObjectId(id)
    ensures r.Ok? && r.value.None? ==> forall i :: 0 <= i < |units| ==> Some(units[i].id) != CastObjectId(id)
  {
    match CastObjectId(id)
    case None => Err(InvalidId(CastMessage(id, "_id", "Unit")))
    case Some(oid) => Ok(UnitIndex(units, oid))
  }

  /** `Unit.findOne({ name })` finds something. */
  predicate NameTaken(units: seq<UnitRecord>, name: string) {
    exists i :: 0 <= i < |units| && units[i].name == name
  }

  /** The stored users: each satisfies the schema and carries an id minted
      from the counter before `clock`, the ids grow in store order, and no
      two users share an email (the unique index). */
  ghost predicate UsersValid(us: seq<UserRecord>, clock: nat) {
    && (forall i :: 0 <= i < |us| ==> WellFormed(us[i]))
    && (forall i :: 0 <= i < |us| ==> us[i].id == ObjectIdHex(Serial(us[i].id)) && Serial(us[i].id) < clock)
    && (forall i, j :: 0 <= i < j < |us| ==> Serial(us[i].id) < Serial(us[j].id))
    && (forall i, j :: 0 <= i < j < |us| ==> us[i].email != us[j].email)
  }

  /** The stored units, in the same way, with unique names. */
  ghost predicate UnitsValid(units: seq<UnitRecord>, clock: nat) {
    && (forall i :: 0 <= i < |units| ==> UnitWellFormed(units[i]))
    && (forall i :: 0 <= i < |units| ==>
          units[i].id == ObjectIdHex(Serial(units[i].id)) && Serial(units[i].id) < clock)
    && (forall i, j :: 0 <= i < j < |units| ==> Serial(units[i].id) < Serial(units[j].id))
    && (forall i, j :: 0 <= i < j < |units| ==> units[i].name != units[j].name)
  }

  /** No two stored users share an id. */
  lemma UserIdsDistinct(us: seq<UserRecord>, clock: nat, i: nat, j: nat)
    requires UsersValid(us, clock)
    requires i < j < |us|
    ensures us[i].id != us[j].id
  {
    assert Serial(us[i].id) < Serial(us[j].id);
  }

  /** No two stored units share an id. */
  lemma UnitIdsDistinct(units: seq<UnitRecord>, clock: nat, i: nat, j: nat)
    requires UnitsValid(units, clock)
    requires i < j < |units|
    ensures units[i].id != units[j].id
  {
    assert Serial(units[i].id) < Serial(units[j].id);
  }

  /** While the counter has not run past the ObjectId width, any spelling
      of a stored user's ObjectId finds exactly that user. */
  lemma FindStoredUser(us: seq<UserRecord>, clock: nat, k: nat, s: string)
    requires UsersValid(us, clock) && clock <= Power(16, 24) && k < |us|
    requires IsObjectIdString(s) && Value(s, 16) == Serial(us[k].id)
    ensures FindUser(us, s) == Ok(Some(k))
  {
    ObjectIdHexWidth(Serial(us[k].id));
    assert UserIndex(us, us[k].id).Some?;
  }

  /** The same for units. */
  lemma FindStoredUnit(units: seq<UnitRecord>, clock: nat, k: nat, s: string)
    requires UnitsValid(units, clock) && clock <= Power(16, 24) && k < |units|
    requires IsObjectIdString(s) && Value(s, 16) == Serial(units[k].id)
    ensures FindUnit(units, s) == Ok(Some(k))
  {
    ObjectIdHexWidth(Serial(units[k].id));
    assert UnitIndex(units, units[k].id).Some?;
  }

  /** Once the user with an id is removed, no user with that id is left. */
  lemma RemovedIdGone(us: seq<UserRecord>, clock: nat, k: nat, r: seq<UserRecord>)
    requires UsersValid(us, clock) && k < |us|
    requires r == us[..k] + us[k + 1..]
    ensures forall i :: 0 <= i < |r| ==> r[i].id != us[k].id
  {
    forall i | 0 <= i < |r|
      ensures r[i].id != us[k].id
    {
      assert r[i] == us[Skip(i, k)];
      if Skip(i, k) < k {
        UserIdsDistinct(us, clock, Skip(i, k), k);
      } else {
        UserIdsDistinct(us, clock, k, Skip(i, k));
      }
    }
  }

  /** What `deleteUnit` means to do to the unit's users ("set to null"):
      every user whose unit is `unitId` is left without a unit. */
  function WithoutUnit(us: seq<UserRecord>, unitId: string): (r: seq<UserRecord>)
    ensures |r| == |us|
  {
    seq(|us|, i requires 0 <= i < |us| =>
      if us[i].unit == Some(unitId) then us[i].(unit := None) else us[i])
  }

  /** Inserting a well-formed user minted at the counter, with an email not
      yet taken, keeps the collection valid once the counter moves on. */
  lemma UsersValidAppend(us: seq<UserRecord>, clock: nat, u: UserRecord)
    requires UsersValid(us, clock) && WellFormed(u)
    requires u.id == ObjectIdHex(clock) && !EmailTaken(us, u.email)
    ensures UsersValid(us + [u], clock + 1)
  {
    ObjectIdHexValue(clock);
    var r := us + [u];
    assert forall i :: 0 <= i < |us| ==> r[i] == us[i];
    assert r[|us|] == u;
    forall i, j | 0 <= i < j < |r|
      ensures Serial(r[i].id) < Serial(r[j].id) && r[i].email != r[j].email
    {
      if j == |us| {
        assert us[i].email != u.email;
      }
    }
  }

  /** The same for a unit with a name not yet taken. */
  lemma UnitsValidAppend(units: seq<UnitRecord>, clock: nat, u: UnitRecord)
    requires UnitsValid(units, clock) && UnitWellFormed(u)
    requires u.id == ObjectIdHex(clock) && !NameTaken(units, u.name)
    ensures UnitsValid(units + [u], clock + 1)
  {
    ObjectIdHexValue(clock);
    var r := units + [u];
    assert forall i :: 0 <= i < |units| ==> r[i] == units[i];
    assert r[|units|] == u;
    forall i, j | 0 <= i < j < |r|
      ensures Serial(r[i].id) < Serial(r[j].id) && r[i].name != r[j].name
    {
      if j == |units| {
        assert units[i].name != u.name;
      }
    }
  }

  /** Removing a document keeps the collection valid. */
  lemma UsersValidRemove(us: seq<UserRecord>, clock: nat, k: nat)
    requires UsersValid(us, clock) && k < |us|
    ensures UsersValid(us[..k] + us[k + 1..], clock)
  {
    var r := us[..k] + us[k + 1..];
    forall i | 0 <= i < |r|
      ensures r[i] == us[Skip(i, k)]
    {
    }
    forall i, j | 0 <= i < j < |r|
      ensures Serial(r[i].id) < Serial(r[j].id) && r[i].email != r[j].email
    {
      assert r[i] == us[Skip(i, k)] && r[j] == us[Skip(j, k)];
    }
  }

  /** The old position of the element at `i` once the one at `k` is removed. */
  function Skip(i: nat, k: nat): nat {
    if i < k then i else i + 1
  }

  lemma UnitsValidRemove(units: seq<UnitRecord>, clock: nat, k: nat)
    requires UnitsValid(units, clock) && k < |units|
    ensures UnitsValid(units[..k] + units[k + 1..], clock)
  {
    var r := units[..k] + units[k + 1..];
    forall i | 0 <= i < |r|
      ensures r[i] == units[Skip(i, k)]
    {
    }
    forall i, j | 0 <= i < j < |r|
      ensures Serial(r[i].id) < Serial(r[j].id) && r[i].name != r[j].name
    {
      assert r[i] == units[Skip(i, k)] && r[j] == units[Skip(j, k)];
    }
  }

  /** Saving a user with the same id and email keeps the collection valid. */
  lemma UsersValidReplace(us: seq<UserRecord>, clock: nat, k: nat, u: UserRecord)
    requires UsersValid(us, clock) && k < |us| && WellFormed(u)
    requires u.id == us[k].id && u.email == us[k].email
    ensures UsersValid(us[k := u], clock)
  {
    var r := us[k := u];
    forall i | 0 <= i < |r|
      ensures r[i].id == us[i].id && r[i].email == us[i].email
      ensures WellFormed(r[i])
    {
    }
  }

  /** Clearing unit references keeps the users valid: only `unit` changes. */
  lemma UsersValidWithoutUnit(us: seq<UserRecord>, clock: nat, unitId: string)
    requires UsersValid(us, clock)
    ensures UsersValid(WithoutUnit(us, unitId), clock)
  {
    var r := WithoutUnit(us, unitId);
    forall i | 0 <= i < |r|
      ensures WellFormed(r[i])
      ensures r[i].id == us[i].id && r[i].email == us[i].email
    {
      assert r[i].name == us[i].name && r[i].email == us[i].email;
    }
  }

  class Db {
    var users: seq<UserRecord>
    var units: seq<UnitRecord>
    var clock: nat

    ghost predicate Valid()
      reads this
    {
      UsersValid(users, clock) && UnitsValid(units, clock)
    }

    constructor ()
      ensures Valid()
      ensures users == [] && units == [] && clock == 0
    {
      users := [];
      units := [];
      clock := 0;
    }

    /** Insert a new user document with the id minted from the counter. */
    method AddUser(u: UserRecord)
      requires Valid()
      requires WellFormed(u) && u.id == ObjectIdHex(clock)
      requires !EmailTaken(users, u.email)
      modifies this
      ensures Valid()
      ensures users == old(users) + [u] && units == old(units) && clock == old(clock) + 1
    {
      UsersValidAppend(users, clock, u);
      users := users + [u];
      clock := clock + 1;
    }

    /** Save a changed user document; its id and email stay. */
    method ReplaceUser(k: nat, u: UserRecord)
      requires Valid() && k < |users|
      requires WellFormed(u)
      requires u.id == users[k].id && u.email == users[k].email
      modifies this
      ensures Valid()
      ensures users == old(users)[k := u] && units == old(units) && clock == old(clock)
    {
      UsersValidReplace(users, clock, k, u);
      users := users[k := u];
    }

    method RemoveUser(k: nat)
      requires Valid() && k < |users|
      modifies this
      ensures Valid()
      ensures users == old(users)[..k] + old(users)[k + 1..]
      ensures units == old(units) && clock == old(clock)
    {
      UsersValidRemove(users, clock, k);
      users := users[..k] + users[k + 1..];
    }

    /** Detach every user of a unit, as `deleteUnit` intends. */
    method ClearUnitRefs(unitId: string)
      requires Valid()
      modifies this
      ensures Valid()
      ensures users == WithoutUnit(old(users), unitId)
      ensures units == old(units) && clock == old(clock)
    {
      UsersValidWithoutUnit(users, clock, unitId);
      users := WithoutUnit(users, unitId);
    }

    /** Insert a new unit document with the id minted from the counter. */
    method AddUnit(u: UnitRecord)
      requires Valid()
      requires UnitWellFormed(u) && u.id == ObjectIdHex(clock)
      requires !NameTaken(units, u.name)
      modifies this
      ensures Valid()
      ensures units == old(units) + [u] && users == old(users) && clock == old(clock) + 1
    {
      UnitsValidAppend(units, clock, u);
      units := units + [u];
      clock := clock + 1;
    }

    /** Save a modified unit: new name and description, `updatedAt` the
        given time. */
    method TouchUnit(k: nat, name: string, description: Option<string>, now: nat)
      requires Valid() && k < |units|
      requires UnitWellFormed(units[k].(name := name, description := description))
      requires forall i :: 0 <= i < |units| && i != k ==> units[i].name != name
      modifies this
      ensures Valid()
      ensures units == old(units)[k := old(units)[k].(name := name, description := description,
                                                       updatedAt := now)]
      ensures users == old(users) && clock == old(clock)
    {
      units := units[k := units[k].(name := name, description := description, updatedAt := now)];
    }

    method RemoveUnit(k: nat)
      requires Valid() && k < |units|
      modifies this
      ensures Valid()
      ensures units == old(units)[..k] + old(units)[k + 1..]
      ensures users == old(users) && clock == old(clock)
    {
      UnitsValidRemove(units, clock, k);
      units := units[..k] + units[k + 1..];
    }
  }
}
