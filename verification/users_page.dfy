/** The users page's client logic: the search filter over the loaded list,
    and the add-user form with its choice between the bulk text and the
    single name and email. */
module UsersPage {
  import opened Http
  import opened Text
  import opened BulkParser
  import opened AdminController

  /** A user as the page receives it: name and email may be missing. */
  datatype ListedUser = ListedUser(id: string, name: Option<string>, email: Option<string>)

  /** The `users` state: an array, or something else the response held. */
  datatype Loaded = Loaded(users: seq<ListedUser>) | NotAnArray

  /** `user.name?.toLowerCase().includes(term.toLowerCase())`: a missing
      field never matches. */
  predicate FieldMatches(field: Option<string>, term: string) {
    field.Some? && Includes(Lower(field.value), Lower(term))
  }

  /** The filter's test: an empty term keeps everyone. */
  predicate Kept(u: ListedUser, term: string) {
    term == "" || FieldMatches(u.name, term) || FieldMatches(u.email, term)
  }

  function FilterUsers(users: seq<ListedUser>, term: string): (r: seq<ListedUser>)
    ensures |r| <= |users|
    decreases |users|
  {
    if users == [] then []
    else
      var n := |users| - 1;
      FilterUsers(users[..n], term) + (if Kept(users[n], term) then [users[n]] else [])
  }

  /** `filteredUsers`. */
  function FilteredUsers(loaded: Loaded, term: string): seq<ListedUser> {
    match loaded
    case NotAnArray => []
    case Loaded(users) => FilterUsers(users, term)
  }

  /** Something other than an array shows no users. */
  lemma NotAnArrayShowsNone(term: string)
    ensures FilteredUsers(NotAnArray, term) == []
  {
  }

  /** An empty term keeps every user, in order. */
  lemma {:induction false} EmptyTermKeepsAll(users: seq<ListedUser>)
    ensures FilterUsers(users, "") == users
    decreases |users|
  {
    if users != [] {
      EmptyTermKeepsAll(users[..|users| - 1]);
      assert users == users[..|users| - 1] + [users[|users| - 1]];
    }
  }

  /** A user is shown exactly when it is loaded and matches. */
  lemma {:induction false} FilterUsersIff(users: seq<ListedUser>, term: string)
    ensures forall u :: u in FilterUsers(users, term) <==> u in users && Kept(u, term)
    decreases |users|
  {
    if users != [] {
      FilterUsersIff(users[..|users| - 1], term);
      assert users == users[..|users| - 1] + [users[|users| - 1]];
    }
  }

  /** Filtering keeps the loaded order: filtering two lists one after the
      other is filtering their concatenation. */
  lemma {:induction false} FilterUsersAppend(a: seq<ListedUser>, b: seq<ListedUser>, term: string)
    ensures FilterUsers(a + b, term) == FilterUsers(a, term) + FilterUsers(b, term)
    decreases |b|
  {
    if b == [] {
      assert a + b == a;
    } else {
      var n := |b| - 1;
      var tail := if Kept(b[n], term) then [b[n]] else [];
      FilterUsersAppend(a, b[..n], term);
      assert (a + b)[..|a + b| - 1] == a + b[..n];
      assert (a + b)[|a + b| - 1] == b[n];
      assert FilterUsers(a + b, term) == FilterUsers(a + b[..n], term) + tail;
      assert FilterUsers(b, term) == FilterUsers(b[..n], term) + tail;
    }
  }

  const SingleNeedsBoth: string := "Name and Email are required for single user addition."

  /** The body of the `addInterns` request. */
  datatype AddRequest = AddRequest(unitId: Option<string>, input: InternsInput)

  /** What the handler does: send a request, or stop with an error of its
      own before any request. */
  datatype Submission = Submit(request: AddRequest) | Refuse(message: string)

  class AddUserForm {
    var name: string
    var email: string
    var unitId: Option<string>
    var bulkInput: string
    var rejectionReason: string
    var selectedUser: Option<string>

    constructor ()
      ensures name == "" && email == "" && unitId.None? && bulkInput == ""
      ensures rejectionReason == "" && selectedUser.None?
    {
      name := "";
      email := "";
      unitId := None;
      bulkInput := "";
      rejectionReason := "";
      selectedUser := None;
    }

    /** `resetForm`. */
    method ResetForm()
      modifies this
      ensures name == "" && email == "" && unitId.None? && bulkInput == ""
      ensures rejectionReason == "" && selectedUser.None?
    {
      name := "";
      email := "";
      unitId := None;
      bulkInput := "";
      rejectionReason := "";
      selectedUser := None;
    }

    /** `handleAddUser`: a non-empty bulk text is sent as is and wins over
        the single fields; otherwise both fields must be non-blank and are
        sent untrimmed. After the request succeeds (`succeeded`) the form is
        reset; after a refusal or a failed request nothing changes. */
    method HandleAddUser(succeeded: bool) returns (r: Submission)
      modifies this
      ensures old(bulkInput) != "" ==> r == Submit(AddRequest(old(unitId), TextInput(old(bulkInput))))
      ensures old(bulkInput) == "" && (Trim(old(name)) == "" || Trim(old(email)) == "") ==>
        r == Refuse(SingleNeedsBoth)
      ensures old(bulkInput) == "" && Trim(old(name)) != "" && Trim(old(email)) != "" ==>
        r == Submit(AddRequest(old(unitId), ObjectInput(Some(old(name)), Some(old(email)))))
      ensures r.Submit? && succeeded ==>
        name == "" && email == "" && unitId.None? && bulkInput == "" && rejectionReason == "" && selectedUser.None?
      ensures r.Refuse? || !succeeded ==>
        && name == old(name) && email == old(email) && unitId == old(unitId)
        && bulkInput == old(bulkInput) && rejectionReason == old(rejectionReason) && selectedUser == old(selectedUser)
    {
      if bulkInput != "" {
        r := Submit(AddRequest(unitId, TextInput(bulkInput)));
      } else {
        if Trim(name) == "" || Trim(email) == "" {
          return Refuse(SingleNeedsBoth);
        }
        r := Submit(AddRequest(unitId, ObjectInput(Some(name), Some(email))));
      }
      if succeeded {
        ResetForm();
      }
    }
  }

  /** A single-user request the form lets through always gets past the
      server's input checks, with the fields as typed. */
  lemma SingleRequestAccepted(name: string, email: string)
    requires Trim(name) != "" && Trim(email) != ""
    ensures Candidates(ObjectInput(Some(name), Some(email))) == Ok([Candidate(name, email)])
  {
  }

  /** A bulk request is never refused for missing data: the text is not
      empty. */
  lemma BulkRequestHasData(text: string)
    requires text != ""
    ensures Candidates(TextInput(text)) != Err(BadRequest(DataRequired))
  {
  }
}
