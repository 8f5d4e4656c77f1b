/** `src/controllers/authController.ts`: log-in, registration and the signed-in
    user's profile update. Each handler is a method on the user collection, proved
    equal to a function of the collection before the request; the properties the
    handler promises are stated and proved on that function. Token generation, the
    welcome e-mail and bcrypt are outside the model: password comparison is the
    parameter `matches(stored, supplied)`. */
module AuthController {
  import opened Js
  import opened Http
  import opened Validation
  import opened UserModel

  const InvalidCredentials := Response(401, "Invalid email or password")

  /** The user `user.matchPassword(password)` accepts, if the e-mail names one. */
  function Credentials(users: seq<User>, email: string, password: string, matches: (string, string) -> bool): Option<nat> {
    var found := FindByEmail(users, email);
    if found.Some? && matches(users[found.value].password, password) then found else None
  }

  /** A save of `u` over position `i` that keeps `_id`, `email` and `mobile` cannot
      break a unique index. */
  lemma SameKeysNoClash(users: seq<User>, i: nat, u: User)
    requires StoreValid(users) && i < |users|
    requires u.id == users[i].id && u.email == users[i].email && u.mobile == users[i].mobile
    ensures !Clashes(users, i, u)
  {
    forall j | 0 <= j < |users| && j != i
      ensures !(users[j].id == u.id || users[j].email == u.email || (!u.mobile.Missing? && users[j].mobile == u.mobile))
    {
      assert DistinctAt(users[i], users[j]);
    }
  }

  /** `authUser`. Malformed input is refused before any lookup; an unknown e-mail
      and a wrong password give the same 401; with correct credentials an Inactive
      user gets 403 and stays Inactive, a Pending user becomes Active, and no user
      is ever made Inactive. */
  function LoginOutcome(users: seq<User>, email: string, password: string, matches: (string, string) -> bool): (o: Outcome)
    ensures email == "" || password == "" ==> o == Outcome(Response(400, "Please provide email and password"), users)
    ensures email != "" && password != "" && !ValidEmail(email) ==> o == Outcome(Response(400, "Invalid email format"), users)
    ensures email != "" && password != "" && ValidEmail(email) && Credentials(users, email, password, matches).None?
      ==> o == Outcome(InvalidCredentials, users)
    ensures email != "" && password != "" && ValidEmail(email) && Credentials(users, email, password, matches).Some? ==>
      var i := Credentials(users, email, password, matches).value;
      if users[i].status == Inactive then
        o == Outcome(Response(403, "Account is deactivated. Please contact administrator."), users)
      else
        o.response.status == 200 && o.users == users[i := users[i].(status := Active)]
    ensures |o.users| == |users|
    ensures forall k :: 0 <= k < |users| && o.users[k].status == Inactive ==> users[k].status == Inactive
  {
    if email == "" || password == "" then
      Outcome(Response(400, "Please provide email and password"), users)
    else if !ValidEmail(email) then
      Outcome(Response(400, "Invalid email format"), users)
    else
      match Credentials(users, email, password, matches)
      case None => Outcome(InvalidCredentials, users)
      case Some(i) =>
        if users[i].status == Inactive then
          Outcome(Response(403, "Account is deactivated. Please contact administrator."), users)
        else if users[i].status == Pending then
          Outcome(Response(200, ""), users[i := users[i].(status := Active)])
        else
          assert users[i].status.Active?;
          assert users[i].(status := Active) == users[i];
          assert users[i := users[i].(status := Active)] == users;
          Outcome(Response(200, ""), users)
  }

  /** Repeating a successful log-in changes nothing more: the user is Active
      after the first. */
  lemma LoginTwiceIsOnce(users: seq<User>, email: string, password: string, matches: (string, string) -> bool)
    requires LoginOutcome(users, email, password, matches).response.status == 200
    ensures LoginOutcome(LoginOutcome(users, email, password, matches).users, email, password, matches)
      == LoginOutcome(users, email, password, matches)
  {
    var i := Credentials(users, email, password, matches).value;
    var after := users[i := users[i].(status := Active)];
    assert forall k :: 0 <= k < |users| ==> after[k].email == users[k].email && after[k].password == users[k].password;
    FindByEmailSameEmails(users, after, email);
    assert after[i := after[i].(status := Active)] == after;
  }

  lemma {:induction false} FindByEmailSameEmails(a: seq<User>, b: seq<User>, email: string)
    requires |a| == |b| && forall k :: 0 <= k < |a| ==> a[k].email == b[k].email
    ensures FindByEmail(a, email) == FindByEmail(b, email)
  {
    if a != [] && a[0].email != email {
      assert forall k :: 0 <= k < |a| - 1 ==> a[1..][k].email == b[1..][k].email;
      FindByEmailSameEmails(a[1..], b[1..], email);
    }
  }

  method AuthUser(store: UserStore, email: string, password: string, matches: (string, string) -> bool)
    returns (res: Response)
    requires store.Valid()
    modifies store
    ensures store.Valid()
    ensures Outcome(res, store.users) == LoginOutcome(old(store.users), email, password, matches)
  {
    if email == "" || password == "" {
      return Response(400, "Please provide email and password");
    }
    if !ValidEmail(email) {
      return Response(400, "Invalid email format");
    }
    var found := FindByEmail(store.users, email);
    if found.Some? && matches(store.users[found.value].password, password) {
      var i := found.value;
      var user := store.users[i];
      if user.status == Inactive {
        return Response(403, "Account is deactivated. Please contact administrator.");
      }
      if user.status == Pending {
        user := user.(status := Active);
        SameKeysNoClash(store.users, i, user);
        SaveKeepsValid(store.users, i, user);
        store.users := store.users[i := user];
      }
      res := Response(200, "");
    } else {
      res := InvalidCredentials;
    }
  }

  /** A body field that the schema stores as an optional string: an absent field
      is left out of the document, while `null` and a string are stored as given.
      Every other value is refused here (Mongoose would store the text of a number
      or boolean; that cast is not part of this model). */
  function OptionalString(v: Value): (r: Option<StoredString>)
    ensures r.Some? <==> v.Undefined? || v.Null? || v.Str?
    ensures v.Undefined? ==> r == Some(Missing)
    ensures v.Null? ==> r == Some(StoredNull)
    ensures v.Str? ==> r == Some(Text(v.s))
  {
    match v
    case Undefined => Some(Missing)
    case Null => Some(StoredNull)
    case Str(s) => Some(Text(s))
    case _ => None
  }

  /** The role `User.create` receives: `role || 'Member'`, cast to the enum. */
  function RegisteredRole(role: Value): (r: Option<Role>)
    ensures !Truthy(role) ==> r == Some(Member)
    ensures Truthy(role) && r.Some? ==> role == Str(RoleName(r.value))
  {
    if !Truthy(role) then Some(Member)
    else if role.Str? then ParseRole(role.s)
    else None
  }

  /** The document `User.create` builds from the registration body, or `None`
      when the schema's casts reject it: name, e-mail and password must be
      strings, the role a known role name (or falsy), mobile and organization a
      string, `null` or absent. A new user is Pending, last active "Just now",
      and joined `today`. */
  function NewUser(body: map<string, Value>, id: string, today: string): (r: Option<User>)
    ensures r.Some? <==>
      && Get(body, "name").Str? && Get(body, "email").Str? && Get(body, "password").Str?
      && RegisteredRole(Get(body, "role")).Some?
      && OptionalString(Get(body, "mobile")).Some? && OptionalString(Get(body, "organization")).Some?
    ensures r.Some? ==>
      && Some(r.value.mobile) == OptionalString(Get(body, "mobile"))
      && Some(r.value.organization) == OptionalString(Get(body, "organization"))
    ensures r.Some? ==>
      && Str(r.value.name) == Get(body, "name") && Str(r.value.email) == Get(body, "email")
      && Str(r.value.password) == Get(body, "password")
      && Some(r.value.role) == RegisteredRole(Get(body, "role"))
      && r.value.id == id && r.value.status == Pending
      && r.value.joinedDate == today && r.value.lastActive == "Just now"
  {
    var name, email, password := Get(body, "name"), Get(body, "email"), Get(body, "password");
    var role := RegisteredRole(Get(body, "role"));
    var mobile, organization := OptionalString(Get(body, "mobile")), OptionalString(Get(body, "organization"));
    if name.Str? && email.Str? && password.Str? && role.Some? && mobile.Some? && organization.Some? then
      Some(User(id, name.s, email.s, mobile.value, organization.value, password.s, role.value, Pending, today, "Just now"))
    else
      None
  }

  const RegisterFields := ["name", "email", "password"]

  predicate EmailValue(v: Value) {
    v.Str? && ValidEmail(v.s)
  }

  /** `registerUser`. The checks run in order: required name, e-mail and password,
      then e-mail format, then password length, then e-mail uniqueness; the first
      that fails decides the 400 and nothing is written. A new user is appended
      only when every check passes and the schema and unique indexes accept it. */
  function RegisterOutcome(users: seq<User>, body: map<string, Value>, newId: string, today: string): (o: Outcome)
    ensures CheckRequiredFields(body, RegisterFields).Some? ==>
      o == Outcome(Response(400, CheckRequiredFields(body, RegisterFields).value), users)
    ensures CheckRequiredFields(body, RegisterFields).None? && !EmailValue(Get(body, "email")) ==>
      o == Outcome(Response(400, "Invalid email format"), users)
    ensures (CheckRequiredFields(body, RegisterFields).None? && EmailValue(Get(body, "email"))
      && !ValidPassword(Get(body, "password"))) ==>
      o == Outcome(Response(400, "Password must be at least 6 characters"), users)
    ensures (CheckRequiredFields(body, RegisterFields).None? && EmailValue(Get(body, "email"))
      && ValidPassword(Get(body, "password")) && FindByEmail(users, Get(body, "email").s).Some?) ==>
      o == Outcome(Response(400, "User already exists"), users)
    ensures o.response.status == 201 <==>
      && CheckRequiredFields(body, RegisterFields).None? && EmailValue(Get(body, "email"))
      && ValidPassword(Get(body, "password")) && FindByEmail(users, Get(body, "email").s).None?
      && NewUser(body, newId, today).Some? && !Clashes(users, |users|, NewUser(body, newId, today).value)
    ensures o.response.status == 201 ==> o.users == users + [NewUser(body, newId, today).value]
    ensures o.response.status != 201 ==> o.users == users
    ensures StoreValid(users) ==> StoreValid(o.users)
  {
    var missing := CheckRequiredFields(body, RegisterFields);
    if missing.Some? then
      Outcome(Response(400, missing.value), users)
    else if !EmailValue(Get(body, "email")) then
      Outcome(Response(400, "Invalid email format"), users)
    else if !ValidPassword(Get(body, "password")) then
      Outcome(Response(400, "Password must be at least 6 characters"), users)
    else if FindByEmail(users, Get(body, "email").s).Some? then
      Outcome(Response(400, "User already exists"), users)
    else
      match NewUser(body, newId, today)
      case None => Outcome(Response(500, "User validation failed"), users)
      case Some(u) =>
        if Clashes(users, |users|, u) then
          Outcome(Response(500, "E11000 duplicate key error"), users)
        else
          assert Present(Get(body, RegisterFields[0]));
          assert Trim("") == "";
          assert SchemaValid(u);
          assert StoreValid(users) ==> StoreValid(users + [u]) by {
            if StoreValid(users) { InsertKeepsValid(users, u); }
          }
          Outcome(Response(201, ""), users + [u])
  }

  /** An explicit `null` mobile is indexed: once some user holds it, no
      registration that sends `mobile: null` creates a user, and one that passes
      every check is refused with 500. */
  lemma SecondNullMobileRefused(users: seq<User>, j: nat, body: map<string, Value>, newId: string, today: string)
    requires j < |users| && users[j].mobile == StoredNull && Get(body, "mobile") == Null
    ensures RegisterOutcome(users, body, newId, today).response.status != 201
    ensures RegisterOutcome(users, body, newId, today).users == users
    ensures (CheckRequiredFields(body, RegisterFields).None? && EmailValue(Get(body, "email"))
      && ValidPassword(Get(body, "password")) && FindByEmail(users, Get(body, "email").s).None?) ==>
      RegisterOutcome(users, body, newId, today).response.status == 500
  {
    var u := NewUser(body, newId, today);
    if u.Some? {
      assert users[j].mobile == u.value.mobile;
      assert Clashes(users, |users|, u.value);
    }
  }

  method RegisterUser(store: UserStore, body: map<string, Value>, newId: string, today: string)
    returns (res: Response)
    requires store.Valid()
    modifies store
    ensures store.Valid()
    ensures Outcome(res, store.users) == RegisterOutcome(old(store.users), body, newId, today)
  {
    var requiredError := CheckRequiredFields(body, RegisterFields);
    if requiredError.Some? {
      return Response(400, requiredError.value);
    }
    var email := Get(body, "email");
    if !EmailValue(email) {
      return Response(400, "Invalid email format");
    }
    if !ValidPassword(Get(body, "password")) {
      return Response(400, "Password must be at least 6 characters");
    }
    if FindByEmail(store.users, email.s).Some? {
      return Response(400, "User already exists");
    }
    var user := NewUser(body, newId, today);
    if user.None? {
      return Response(500, "User validation failed");
    }
    if Clashes(store.users, |store.users|, user.value) {
      return Response(500, "E11000 duplicate key error");
    }
    ghost var o := RegisterOutcome(store.users, body, newId, today);
    store.users := store.users + [user.value];
    res := Response(201, "");
  }

  /** The fields of `PUT /api/users/profile`; the empty string stands for a field
      that is absent as well as for one that is empty, both being falsy. */
  datatype ProfileBody = ProfileBody(
    name: string, email: string, mobile: string, organization: string,
    password: string, oldPassword: string)

  /** The four assignments that open `updateUserProfile`: each of name, e-mail,
      mobile and organization takes a non-empty supplied value and otherwise keeps
      the stored one. */
  function ProfileMerge(u: User, body: ProfileBody): (r: User)
    ensures body.name == "" ==> r.name == u.name
    ensures body.name != "" ==> r.name == body.name
    ensures body.email == "" ==> r.email == u.email
    ensures body.email != "" ==> r.email == body.email
    ensures body.mobile == "" ==> r.mobile == u.mobile
    ensures body.mobile != "" ==> r.mobile == Text(body.mobile)
    ensures body.organization == "" ==> r.organization == u.organization
    ensures body.organization != "" ==> r.organization == Text(body.organization)
  {
    u.(name := OrElse(body.name, u.name), email := OrElse(body.email, u.email),
       mobile := OrElseText(body.mobile, u.mobile),
       organization := OrElseText(body.organization, u.organization))
  }

  /** Merging the same body twice is merging it once, and an empty body changes
      nothing; only name, e-mail, mobile and organization can change. */
  lemma ProfileMergeProperties(u: User, body: ProfileBody)
    ensures ProfileMerge(ProfileMerge(u, body), body) == ProfileMerge(u, body)
    ensures ProfileMerge(u, ProfileBody("", "", "", "", body.password, body.oldPassword)) == u
    ensures var m := ProfileMerge(u, body);
      m.id == u.id && m.password == u.password && m.role == u.role && m.status == u.status
      && m.joinedDate == u.joinedDate && m.lastActive == u.lastActive
  {
  }

  /** The password step of `updateUserProfile`: `None` to proceed (with the new
      secret, if one was supplied), or the refusal. */
  function PasswordChange(u: User, body: ProfileBody, matches: (string, string) -> bool): (r: Option<string>)
    ensures r.None? <==>
      body.password == ""
      || (body.oldPassword != "" && matches(u.password, body.oldPassword) && ValidPassword(Str(body.password)))
    ensures body.password != "" && body.oldPassword == "" ==> r == Some("Old password is required to set a new one")
    ensures body.password != "" && body.oldPassword != "" && !matches(u.password, body.oldPassword) ==>
      r == Some("Current password does not match")
    ensures (body.password != "" && body.oldPassword != "" && matches(u.password, body.oldPassword)
      && !ValidPassword(Str(body.password))) ==>
      r == Some("New password must be at least 6 characters")
  {
    if body.password == "" then None
    else if body.oldPassword == "" then Some("Old password is required to set a new one")
    else if !matches(u.password, body.oldPassword) then Some("Current password does not match")
    else if !ValidPassword(Str(body.password)) then Some("New password must be at least 6 characters")
    else None
  }

  /** The record `updateUserProfile` saves: the merge, with the new password when
      one was supplied. */
  function ProfileUpdated(u: User, body: ProfileBody): User {
    ProfileMerge(u, body).(password := OrElse(body.password, u.password))
  }

  /** `updateUserProfile`. Without a signed-in, existing user: 404. Otherwise each
      of name, e-mail, mobile and organization is replaced only by a non-empty
      supplied value; a new password needs a non-empty, matching old password and
      at least six characters; a supplied malformed e-mail refuses the whole
      update. Any refusal saves nothing. Role, status and dates never change. */
  function ProfileUpdateOutcome(users: seq<User>, caller: Option<string>, body: ProfileBody, matches: (string, string) -> bool): (o: Outcome)
    ensures (caller.None? || FindById(users, caller.value).None?) ==> o == Outcome(Response(404, "User not found"), users)
    ensures o.response.status != 200 ==> o.users == users
    ensures o.response.status == 200 ==>
      caller.Some? && FindById(users, caller.value).Some? &&
      var i := FindById(users, caller.value).value;
      var u := users[i];
      && PasswordChange(u, body, matches).None?
      && (body.email == "" || ValidEmail(body.email))
      && o.users == users[i := ProfileUpdated(u, body)]
    ensures o.response.status == 200 <==>
      caller.Some? && FindById(users, caller.value).Some? &&
      var i := FindById(users, caller.value).value;
      && PasswordChange(users[i], body, matches).None?
      && (body.email == "" || ValidEmail(body.email))
      && !Clashes(users, i, ProfileUpdated(users[i], body))
    ensures caller.Some? && FindById(users, caller.value).Some? ==>
      var i := FindById(users, caller.value).value;
      (PasswordChange(users[i], body, matches).None? && (body.email == "" || ValidEmail(body.email))
       && Clashes(users, i, ProfileUpdated(users[i], body))) ==>
      o == Outcome(Response(500, "E11000 duplicate key error"), users)
    ensures caller.Some? && FindById(users, caller.value).Some? ==>
      var u := users[FindById(users, caller.value).value];
      (PasswordChange(u, body, matches).Some? ==> o == Outcome(Response(400, PasswordChange(u, body, matches).value), users))
      && (PasswordChange(u, body, matches).None? && body.email != "" && !ValidEmail(body.email) ==>
            o == Outcome(Response(400, "Invalid email format"), users))
    ensures StoreValid(users) ==> StoreValid(o.users)
  {
    var found := if caller.Some? then FindById(users, caller.value) else None;
    if found.None? then
      Outcome(Response(404, "User not found"), users)
    else
      var i := found.value;
      var u := users[i];
      var refusal := PasswordChange(u, body, matches);
      if refusal.Some? then
        Outcome(Response(400, refusal.value), users)
      else if body.email != "" && !ValidEmail(body.email) then
        Outcome(Response(400, "Invalid email format"), users)
      else
        var updated := ProfileUpdated(u, body);
        if Clashes(users, i, updated) then
          Outcome(Response(500, "E11000 duplicate key error"), users)
        else
          assert StoreValid(users) ==> StoreValid(users[i := updated]) by {
            if StoreValid(users) { SaveKeepsValid(users, i, updated); }
          }
          Outcome(Response(200, ""), users[i := updated])
  }

  method UpdateUserProfile(store: UserStore, caller: Option<string>, body: ProfileBody, matches: (string, string) -> bool)
    returns (res: Response)
    requires store.Valid()
    modifies store
    ensures store.Valid()
    ensures Outcome(res, store.users) == ProfileUpdateOutcome(old(store.users), caller, body, matches)
  {
    var found := if caller.Some? then FindById(store.users, caller.value) else None;
    if found.None? {
      return Response(404, "User not found");
    }
    var i := found.value;
    var user := store.users[i];
    var storedSecret := user.password;
    user := user.(name := OrElse(body.name, user.name));
    user := user.(email := OrElse(body.email, user.email));
    user := user.(mobile := OrElseText(body.mobile, user.mobile));
    user := user.(organization := OrElseText(body.organization, user.organization));
    if body.password != "" {
      if body.oldPassword == "" {
        return Response(400, "Old password is required to set a new one");
      }
      if !matches(storedSecret, body.oldPassword) {
        return Response(400, "Current password does not match");
      }
      if !ValidPassword(Str(body.password)) {
        return Response(400, "New password must be at least 6 characters");
      }
      user := user.(password := body.password);
    }
    if body.email != "" && !ValidEmail(body.email) {
      return Response(400, "Invalid email format");
    }
    if Clashes(store.users, i, user) {
      return Response(500, "E11000 duplicate key error");
    }
    SaveKeepsValid(store.users, i, user);
    store.users := store.users[i := user];
    res := Response(200, "");
  }
}
