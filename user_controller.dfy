/** `src/controllers/userController.ts`: the administrator's create, update and
    delete of user records. */
module UserController {
  import opened Js
  import opened Http
  import opened UserModel

  /** `createUser` is reachable only by a direct call. Its `User.create` never
      supplies a password, which the schema requires, so the create always fails
      validation and the handler always answers 400 without writing anything.
      `email` is `None` when the body has none: Mongoose drops an `undefined`
      condition, so `findOne` then matches any user at all. */
  method CreateUser(store: UserStore, name: string, email: Option<string>, role: string)
    returns (res: Response)
    ensures res.status == 400
    ensures res.message == "User already exists" <==>
      (email.None? && store.users != []) || (email.Some? && FindByEmail(store.users, email.value).Some?)
  {
    var taken := if email.Some? then FindByEmail(store.users, email.value).Some? else store.users != [];
    if taken {
      return Response(400, "User already exists");
    }
    res := Response(400, "User validation failed");
  }

  /** The fields of `PUT /api/users/:id`; the empty string stands for an absent
      field as well as an empty one, both being falsy. */
  datatype UserBody = UserBody(
    name: string, email: string, role: string, mobile: string, organization: string, status: string)

  /** The six assignments of `updateUser` followed by the schema's enum casts:
      `None` when a supplied role or status is outside its enum. Identity,
      password and dates are never touched. */
  function MergeUser(u: User, body: UserBody): (r: Option<User>)
    ensures r.None? <==> (body.role != "" && ParseRole(body.role).None?) || (body.status != "" && ParseStatus(body.status).None?)
    ensures r.Some? ==>
      && r.value.id == u.id && r.value.password == u.password
      && r.value.joinedDate == u.joinedDate && r.value.lastActive == u.lastActive
      && (body.role == "" ==> r.value.role == u.role) && (body.role != "" ==> RoleName(r.value.role) == body.role)
      && (body.status == "" ==> r.value.status == u.status) && (body.status != "" ==> StatusName(r.value.status) == body.status)
      && (body.name == "" ==> r.value.name == u.name) && (body.email == "" ==> r.value.email == u.email)
      && (body.name != "" ==> r.value.name == body.name) && (body.email != "" ==> r.value.email == body.email)
      && (body.mobile == "" ==> r.value.mobile == u.mobile) && (body.mobile != "" ==> r.value.mobile == Text(body.mobile))
      && (body.organization == "" ==> r.value.organization == u.organization)
      && (body.organization != "" ==> r.value.organization == Text(body.organization))
      && (SchemaValid(u) ==> SchemaValid(r.value))
  {
    var role := if body.role != "" then ParseRole(body.role) else Some(u.role);
    var status := if body.status != "" then ParseStatus(body.status) else Some(u.status);
    if role.None? || status.None? then None
    else
      Some(u.(name := OrElse(body.name, u.name), email := OrElse(body.email, u.email), role := role.value,
              mobile := OrElseText(body.mobile, u.mobile),
              organization := OrElseText(body.organization, u.organization), status := status.value))
  }

  /** Applying the same update twice is applying it once. */
  lemma MergeUserIdempotent(u: User, body: UserBody)
    requires MergeUser(u, body).Some?
    ensures MergeUser(MergeUser(u, body).value, body) == MergeUser(u, body)
  {
  }

  /** An update with every field empty leaves the user as it was. */
  lemma EmptyUpdateKeepsUser(u: User)
    ensures MergeUser(u, UserBody("", "", "", "", "", "")) == Some(u)
  {
  }

  /** `updateUser`. An unknown id gives 404; a role or status outside its enum, or
      a save that breaks a unique index, gives 400 and writes nothing; otherwise
      exactly the addressed user is replaced by its merge. */
  function UpdateOutcome(users: seq<User>, id: string, body: UserBody): (o: Outcome)
    ensures o.response.status == 404 <==> FindById(users, id).None?
    ensures FindById(users, id).None? ==> o == Outcome(Response(404, "User not found"), users)
    ensures o.response.status == 200 || o.response.status == 400 || o.response.status == 404
    ensures o.response.status != 200 ==> o.users == users
    ensures o.response.status == 200 <==>
      FindById(users, id).Some? && MergeUser(users[FindById(users, id).value], body).Some?
      && !Clashes(users, FindById(users, id).value, MergeUser(users[FindById(users, id).value], body).value)
    ensures o.response.status == 200 ==>
      var i := FindById(users, id).value;
      o.users == users[i := MergeUser(users[i], body).value]
    ensures StoreValid(users) ==> StoreValid(o.users)
  {
    match FindById(users, id)
    case None => Outcome(Response(404, "User not found"), users)
    case Some(i) =>
      match MergeUser(users[i], body)
      case None => Outcome(Response(400, "User validation failed"), users)
      case Some(updated) =>
        if Clashes(users, i, updated) then
          Outcome(Response(400, "E11000 duplicate key error"), users)
        else
          assert StoreValid(users) ==> StoreValid(users[i := updated]) by {
            if StoreValid(users) {
              assert SchemaValid(users[i]);
              SaveKeepsValid(users, i, updated);
            }
          }
          Outcome(Response(200, ""), users[i := updated])
  }

  method UpdateUser(store: UserStore, id: string, body: UserBody) returns (res: Response)
    requires store.Valid()
    modifies store
    ensures store.Valid()
    ensures Outcome(res, store.users) == UpdateOutcome(old(store.users), id, body)
  {
    var found := FindById(store.users, id);
    if found.None? {
      return Response(404, "User not found");
    }
    var i := found.value;
    var user := store.users[i];
    user := user.(name := OrElse(body.name, user.name));
    user := user.(email := OrElse(body.email, user.email));
    var role := if body.role != "" then ParseRole(body.role) else Some(user.role);
    if role.None? {
      return Response(400, "User validation failed");
    }
    user := user.(role := role.value);
    user := user.(mobile := OrElseText(body.mobile, user.mobile));
    user := user.(organization := OrElseText(body.organization, user.organization));
    var status := if body.status != "" then ParseStatus(body.status) else Some(user.status);
    if status.None? {
      return Response(400, "User validation failed");
    }
    user := user.(status := status.value);
    if Clashes(store.users, i, user) {
      return Response(400, "E11000 duplicate key error");
    }
    assert user == MergeUser(old(store.users)[i], body).value;
    SaveKeepsValid(store.users, i, user);
    store.users := store.users[i := user];
    res := Response(200, "");
  }

  /** `deleteUser`. An unknown id gives 404 and deletes nothing; otherwise the user
      is removed, every other user keeps its order, and no user with that id
      remains. */
  function DeleteOutcome(users: seq<User>, id: string): (o: Outcome)
    ensures o.response.status == 404 <==> FindById(users, id).None?
    ensures FindById(users, id).None? ==> o == Outcome(Response(404, "User not found"), users)
    ensures FindById(users, id).Some? ==>
      var i := FindById(users, id).value;
      o == Outcome(Response(200, "User removed"), users[..i] + users[i + 1..])
    ensures StoreValid(users) ==> StoreValid(o.users)
    ensures StoreValid(users) ==> forall k :: 0 <= k < |o.users| ==> o.users[k].id != id
  {
    match FindById(users, id)
    case None => Outcome(Response(404, "User not found"), users)
    case Some(i) =>
      var rest := users[..i] + users[i + 1..];
      assert forall k :: 0 <= k < |rest| ==> rest[k] == users[if k < i then k else k + 1];
      assert StoreValid(users) ==> StoreValid(rest) by {
        if StoreValid(users) {
          RemoveKeepsValid(users, i);
          forall k | 0 <= k < |rest| ensures rest[k].id != id {
            assert DistinctAt(users[i], users[if k < i then k else k + 1]);
          }
        }
      }
      Outcome(Response(200, "User removed"), rest)
  }

  method DeleteUser(store: UserStore, id: string) returns (res: Response)
    requires store.Valid()
    modifies store
    ensures store.Valid()
    ensures Outcome(res, store.users) == DeleteOutcome(old(store.users), id)
  {
    var found := FindById(store.users, id);
    if found.None? {
      return Response(404, "User not found");
    }
    var i := found.value;
    RemoveKeepsValid(store.users, i);
    store.users := store.users[..i] + store.users[i + 1..];
    res := Response(200, "User removed");
  }
}
