/** The unit document: a required, unique, trimmed name, an optional trimmed
    description and the two timestamps `timestamps: true` adds. */
module UnitModel {
  import opened Text
  import opened Http

  datatype UnitRecord = UnitRecord(
    id: string,
    name: string,
    description: Option<string>,
    createdAt: nat,
    updatedAt: nat)

  /** The `trim` setter on an optional path. */
  function TrimOpt(d: Option<string>): (r: Option<string>)
    ensures r.Some? <==> d.Some?
    ensures r.Some? ==> r.value == Trim(d.value)
  {
    match d
    case None => None
    case Some(s) => Some(Trim(s))
  }

  const UnitNameRequired: string := "Unit validation failed: name: Unit name is required"

  /** A new unit document: the setters trim name and description, both
      timestamps are `now`, and the `required` validator refuses a name that
      is empty after trimming. */
  function NewUnit(id: string, name: string, description: Option<string>, now: nat): (r: Result<UnitRecord>)
    ensures r.Ok? <==> Trim(name) != ""
    ensures r.Ok? ==> r.value == UnitRecord(id, Trim(name), TrimOpt(description), now, now)
    ensures r.Err? ==> r.error == ValidationFailed(UnitNameRequired)
  {
    var n := Trim(name);
    if n == "" then Err(ValidationFailed(UnitNameRequired))
    else Ok(UnitRecord(id, n, TrimOpt(description), now, now))
  }

  /** What the schema guarantees of every stored unit. */
  predicate UnitWellFormed(u: UnitRecord) {
    && u.name != "" && u.name == Trim(u.name)
    && (u.description.Some? ==> u.description.value == Trim(u.description.value))
  }

  /** A unit made by `NewUnit` satisfies the schema. */
  lemma NewUnitWellFormed(id: string, name: string, description: Option<string>, now: nat)
    requires NewUnit(id, name, description, now).Ok?
    ensures UnitWellFormed(NewUnit(id, name, description, now).value)
  {
    TrimIdempotent(name);
    if description.Some? {
      TrimIdempotent(description.value);
    }
  }
}
