/** The user collection: the record of `src/models/User.ts`, the roles and statuses
    its schema enumerates, and the collection itself with the constraints the schema
    puts on every saved user (required fields, unique `email`, sparse unique `mobile`,
    unique `_id`). */
module UserModel {
  import opened Js
  import opened Http

  datatype Role = Admin | Member | Manager | Authenticator

  datatype UserStatus = Active | Inactive | Pending

  function RoleName(r: Role): string {
    match r
    case Admin => "Admin"
    case Member => "Member"
    case Manager => "Manager"
    case Authenticator => "Authenticator"
  }

  /** Casting a string into the `role` path: only the schema's enum values pass. */
  function ParseRole(s: string): (r: Option<Role>)
    ensures r.Some? ==> RoleName(r.value) == s
    ensures r.None? ==> forall x: Role :: RoleName(x) != s
  {
    if s == "Admin" then Some(Admin)
    else if s == "Member" then Some(Member)
    else if s == "Manager" then Some(Manager)
    else if s == "Authenticator" then Some(Authenticator)
    else None
  }

  function StatusName(s: UserStatus): string {
    match s
    case Active => "Active"
    case Inactive => "Inactive"
    case Pending => "Pending"
  }

  /** Casting a string into the `status` path: only the schema's enum values pass. */
  function ParseStatus(s: string): (r: Option<UserStatus>)
    ensures r.Some? ==> StatusName(r.value) == s
    ensures r.None? ==> forall x: UserStatus :: StatusName(x) != s
  {
    if s == "Active" then Some(Active)
    else if s == "Inactive" then Some(Inactive)
    else if s == "Pending" then Some(Pending)
    else None
  }

  /** An optional string path as the document holds it: missing from the document,
      an explicit `null`, or text. */
  datatype StoredString = Missing | StoredNull | Text(s: string)

  /** `supplied || current` on an optional string path: a non-empty supplied
      string is stored as text, otherwise the stored value is kept. */
  function OrElseText(supplied: string, current: StoredString): (r: StoredString)
    ensures supplied == "" ==> r == current
    ensures supplied != "" ==> r == Text(supplied)
  {
    if supplied != "" then Text(supplied) else current
  }

  /** A persisted user. `password` is the secret as last set; its bcrypt hash is
      abstracted away, and comparing against it is a parameter of the handlers. */
  datatype User = User(
    id: string,
    name: string,
    email: string,
    mobile: StoredString,
    organization: StoredString,
    password: string,
    role: Role,
    status: UserStatus,
    joinedDate: string,
    lastActive: string)

  /** The schema's `required` validators: a required string may not be empty. */
  predicate SchemaValid(u: User) {
    u.name != "" && u.email != "" && u.password != ""
  }

  /** Saving `u` over position `skip` (or as a new user, with `skip` outside the
      collection) would break a unique index held by some other user. The `mobile`
      index is sparse: it skips a document without a mobile, but indexes an
      explicit `null` like any other value. */
  predicate Clashes(users: seq<User>, skip: int, u: User) {
    exists j :: 0 <= j < |users| && j != skip
      && (users[j].id == u.id || users[j].email == u.email || (!u.mobile.Missing? && users[j].mobile == u.mobile))
  }

  predicate DistinctAt(a: User, b: User) {
    a.id != b.id && a.email != b.email && (!a.mobile.Missing? ==> a.mobile != b.mobile)
  }

  /** Every user saved in the collection satisfies the schema and the unique indexes. */
  predicate StoreValid(users: seq<User>) {
    (forall i :: 0 <= i < |users| ==> SchemaValid(users[i]))
    && (forall i, j :: 0 <= i < |users| && 0 <= j < |users| && i != j ==> DistinctAt(users[i], users[j]))
  }

  /** A save that the schema and the unique indexes accept keeps the collection valid. */
  lemma SaveKeepsValid(users: seq<User>, i: nat, u: User)
    requires StoreValid(users) && i < |users|
    requires SchemaValid(u) && !Clashes(users, i, u)
    ensures StoreValid(users[i := u])
  {
    var r := users[i := u];
    forall a, b | 0 <= a < |r| && 0 <= b < |r| && a != b ensures DistinctAt(r[a], r[b]) {
      if a == i {
        assert !(users[b].id == u.id || users[b].email == u.email || (!u.mobile.Missing? && users[b].mobile == u.mobile));
      } else if b == i {
        assert !(users[a].id == u.id || users[a].email == u.email || (!u.mobile.Missing? && users[a].mobile == u.mobile));
      }
    }
  }

  /** An insertion that the schema and the unique indexes accept keeps the collection valid. */
  lemma InsertKeepsValid(users: seq<User>, u: User)
    requires StoreValid(users)
    requires SchemaValid(u) && !Clashes(users, |users|, u)
    ensures StoreValid(users + [u])
  {
    var r := users + [u];
    forall a, b | 0 <= a < |r| && 0 <= b < |r| && a != b ensures DistinctAt(r[a], r[b]) {
      if a == |users| {
        assert !(users[b].id == u.id || users[b].email == u.email || (!u.mobile.Missing? && users[b].mobile == u.mobile));
      } else if b == |users| {
        assert !(users[a].id == u.id || users[a].email == u.email || (!u.mobile.Missing? && users[a].mobile == u.mobile));
      }
    }
  }

  /** Deleting one user keeps the collection valid. */
  lemma RemoveKeepsValid(users: seq<User>, i: nat)
    requires StoreValid(users) && i < |users|
    ensures StoreValid(users[..i] + users[i + 1..])
  {
    var r := users[..i] + users[i + 1..];
    assert forall a :: 0 <= a < |r| ==> r[a] == users[if a < i then a else a + 1];
  }

  /** `User.findOne({ email })`: the first user with that e-mail. */
  function FindByEmail(users: seq<User>, email: string): (r: Option<nat>)
    ensures r.Some? ==> r.value < |users| && users[r.value].email == email
    ensures r.None? <==> forall k :: 0 <= k < |users| ==> users[k].email != email
  {
    if users == [] then None
    else if users[0].email == email then Some(0)
    else
      var k := FindByEmail(users[1..], email);
      assert forall j :: 1 <= j < |users| ==> users[j] == users[1..][j - 1];
      if k.Some? then Some(k.value + 1) else None
  }

  /** `User.findById(id)`: the user with that `_id`. */
  function FindById(users: seq<User>, id: string): (r: Option<nat>)
    ensures r.Some? ==> r.value < |users| && users[r.value].id == id
    ensures r.None? <==> forall k :: 0 <= k < |users| ==> users[k].id != id
  {
    if users == [] then None
    else if users[0].id == id then Some(0)
    else
      var k := FindById(users[1..], id);
      assert forall j :: 1 <= j < |users| ==> users[j] == users[1..][j - 1];
      if k.Some? then Some(k.value + 1) else None
  }

  /** What a handler leaves behind: its response and the collection afterwards. */
  datatype Outcome = Outcome(response: Response, users: seq<User>)

  /** The `users` collection. Handlers change it only through its one field. */
  class UserStore {
    var users: seq<User>

    ghost predicate Valid()
      reads this
    {
      StoreValid(users)
    }

    constructor ()
      ensures Valid() && users == []
    {
      users := [];
    }
  }
}
