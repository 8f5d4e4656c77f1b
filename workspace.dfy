/** Workspaces, from `src/models/Workspace.ts` and `src/controllers/workspaceController.ts`:
    the administrator's partial update of a workspace document, and the two
    member-facing lookups, "my workspace" and "my community". A document is a map
    from path to value, since the update copies whatever keys the request holds. */
module WorkspaceController {
  import opened Js
  import opened Http
  import opened UserModel

  type Doc = map<string, Value>

  /** The keys the update never copies from the request. */
  const IdentityKeys: set<string> := {"_id", "id"}

  /** The schema's required string paths. */
  const RequiredPaths: seq<string> := ["name", "location", "type", "capacity"]

  /** A value the `required` validator of a string path accepts: numbers, booleans
      and ids are cast to their text, an object cannot be cast, and `undefined`,
      `null` and the empty string fail the validator. */
  predicate RequiredOk(v: Value) {
    !(v.Undefined? || v.Null? || v == Str("") || v.Obj?)
  }

  /** What `allottedTo` may hold once stored: unset, `null` or a user's ObjectId. */
  predicate AllottedOk(v: Value) {
    v.Undefined? || v.Null? || v.Oid?
  }

  predicate DocValid(d: Doc) {
    Get(d, "_id").Oid?
    && (forall k :: 0 <= k < |RequiredPaths| ==> RequiredOk(Get(d, RequiredPaths[k])))
    && AllottedOk(Get(d, "allottedTo"))
  }

  /** Every stored workspace passes the schema, and `_id` identifies one. */
  predicate WorkspacesValid(docs: seq<Doc>) {
    (forall i :: 0 <= i < |docs| ==> DocValid(docs[i]))
    && (forall i, j :: 0 <= i < |docs| && 0 <= j < |docs| && i != j ==> Get(docs[i], "_id") != Get(docs[j], "_id"))
  }

  /** The `workspaces` collection. */
  class WorkspaceStore {
    var docs: seq<Doc>

    ghost predicate Valid()
      reads this
    {
      WorkspacesValid(docs)
    }

    constructor ()
      ensures Valid() && docs == []
    {
      docs := [];
    }
  }

  datatype WorkspaceOutcome = WorkspaceOutcome(response: Response, docs: seq<Doc>)

  /** `Workspace.findById(id)`. */
  function FindWorkspace(docs: seq<Doc>, id: string): (r: Option<nat>)
    ensures r.Some? ==> r.value < |docs| && Get(docs[r.value], "_id") == Oid(id)
    ensures r.None? <==> forall k :: 0 <= k < |docs| ==> Get(docs[k], "_id") != Oid(id)
  {
    if docs == [] then None
    else if Get(docs[0], "_id") == Oid(id) then Some(0)
    else
      var k := FindWorkspace(docs[1..], id);
      assert forall j :: 1 <= j < |docs| ==> docs[j] == docs[1..][j - 1];
      if k.Some? then Some(k.value + 1) else None
  }

  /** The assignments of `updateWorkspace`'s key loop, all at once: every request
      key except the identity keys takes the request's value; every other key keeps
      the document's value. */
  function Patch(doc: Doc, body: Doc): Doc {
    map k | k in doc.Keys + (body.Keys - IdentityKeys) :: if k in body.Keys - IdentityKeys then body[k] else doc[k]
  }

  /** The identity keys never change, and applying the same request twice is
      applying it once. */
  lemma PatchProperties(doc: Doc, body: Doc)
    ensures forall k :: k in body && k !in IdentityKeys ==> k in Patch(doc, body) && Patch(doc, body)[k] == body[k]
    ensures forall k :: k in doc && (k !in body || k in IdentityKeys) ==> k in Patch(doc, body) && Patch(doc, body)[k] == doc[k]
    ensures forall k :: k in Patch(doc, body) ==> k in doc || k in body
    ensures Get(Patch(doc, body), "_id") == Get(doc, "_id")
    ensures Get(Patch(doc, body), "id") == Get(doc, "id")
    ensures Patch(Patch(doc, body), body) == Patch(doc, body)
  {
  }

  /** The loop's state after copying the request keys in `done`: those keys except
      the identity keys hold the request's value, every other key the document's. */
  predicate Copied(doc: Doc, body: Doc, done: set<string>, workspace: Doc) {
    workspace.Keys == doc.Keys + (done - IdentityKeys)
    && forall k :: k in workspace ==>
         if k in done && k !in IdentityKeys then k in body && workspace[k] == body[k]
         else k in doc && workspace[k] == doc[k]
  }

  /** One pass of the loop body copies one more request key. */
  lemma CopyStep(doc: Doc, body: Doc, done: set<string>, key: string, workspace: Doc)
    requires done <= body.Keys && key in body && Copied(doc, body, done, workspace)
    ensures Copied(doc, body, done + {key}, if key !in IdentityKeys then workspace[key := body[key]] else workspace)
  {
  }

  /** Once every request key is copied, the document is the patch. */
  lemma CopiedAll(doc: Doc, body: Doc, workspace: Doc)
    requires Copied(doc, body, body.Keys, workspace)
    ensures workspace == Patch(doc, body)
  {
  }

  predicate IsHex(c: char) {
    '0' <= c <= '9' || 'a' <= c <= 'f' || 'A' <= c <= 'F'
  }

  /** Twenty-four hexadecimal digits: the text form of an ObjectId. */
  predicate HexId(s: string) {
    |s| == 24 && forall k :: 0 <= k < |s| ==> IsHex(s[k])
  }

  /** Casting a value into the ObjectId path `allottedTo`: `null` and ids pass, a
      24-digit hexadecimal string becomes the id it spells, anything else fails. */
  function CastObjectId(v: Value): (r: Option<Value>)
    ensures r.Some? <==> AllottedOk(v) || (v.Str? && HexId(v.s))
    ensures r.Some? ==> AllottedOk(r.value)
    ensures AllottedOk(v) ==> r == Some(v)
    ensures v.Str? && HexId(v.s) ==> r == Some(Oid(ToLower(v.s)))
  {
    match v
    case Undefined => Some(Undefined)
    case Null => Some(Null)
    case Oid(_) => Some(v)
    case Str(s) => if HexId(s) then Some(Oid(ToLower(s))) else None
    case _ => None
  }

  /** `workspace.save()`: the document as stored, or `None` when the cast of
      `allottedTo` or a required validator fails. */
  function Save(doc: Doc): (r: Option<Doc>)
    ensures r.Some? <==>
      && ("allottedTo" in doc ==> CastObjectId(doc["allottedTo"]).Some?)
      && forall k :: 0 <= k < |RequiredPaths| ==> RequiredOk(Get(doc, RequiredPaths[k]))
    ensures r.Some? ==> DocValid(r.value) || !Get(doc, "_id").Oid?
    ensures r.Some? ==> r.value.Keys == doc.Keys && forall k :: k in doc && k != "allottedTo" ==> r.value[k] == doc[k]
    ensures r.Some? && "allottedTo" in doc ==> r.value["allottedTo"] == CastObjectId(doc["allottedTo"]).value
  {
    var cast := if "allottedTo" in doc then CastObjectId(doc["allottedTo"]) else Some(Undefined);
    if cast.None? then None
    else
      var stored := if "allottedTo" in doc then doc["allottedTo" := cast.value] else doc;
      assert forall k :: 0 <= k < |RequiredPaths| ==> Get(stored, RequiredPaths[k]) == Get(doc, RequiredPaths[k]);
      if forall k :: 0 <= k < |RequiredPaths| ==> RequiredOk(Get(stored, RequiredPaths[k])) then Some(stored) else None
  }

  /** `updateWorkspace`. An unknown id gives 404. Otherwise the request is patched
      onto the document and saved: a failed cast or validator gives 400 and writes
      nothing, and success replaces that one document by the saved patch. */
  function UpdateOutcome(docs: seq<Doc>, id: string, body: Doc): (o: WorkspaceOutcome)
    ensures o.response.status == 404 <==> FindWorkspace(docs, id).None?
    ensures FindWorkspace(docs, id).None? ==> o == WorkspaceOutcome(Response(404, "Workspace not found"), docs)
    ensures o.response.status != 200 ==> o.docs == docs
    ensures o.response.status == 200 <==>
      FindWorkspace(docs, id).Some? && Save(Patch(docs[FindWorkspace(docs, id).value], body)).Some?
    ensures o.response.status == 200 ==>
      var i := FindWorkspace(docs, id).value;
      o.docs == docs[i := Save(Patch(docs[i], body)).value]
    ensures WorkspacesValid(docs) ==> WorkspacesValid(o.docs)
  {
    match FindWorkspace(docs, id)
    case None => WorkspaceOutcome(Response(404, "Workspace not found"), docs)
    case Some(i) =>
      match Save(Patch(docs[i], body))
      case None => WorkspaceOutcome(Response(400, "Workspace validation failed"), docs)
      case Some(saved) =>
        PatchProperties(docs[i], body);
        assert Get(saved, "_id") == Get(docs[i], "_id");
        WorkspaceOutcome(Response(200, ""), docs[i := saved])
  }

  /** Repeating a successful update changes nothing more. */
  lemma UpdateTwiceIsOnce(docs: seq<Doc>, id: string, body: Doc)
    requires WorkspacesValid(docs)
    requires UpdateOutcome(docs, id, body).response.status == 200
    ensures UpdateOutcome(UpdateOutcome(docs, id, body).docs, id, body) == UpdateOutcome(docs, id, body)
  {
    var i := FindWorkspace(docs, id).value;
    var saved := Save(Patch(docs[i], body)).value;
    var after := docs[i := saved];
    PatchProperties(docs[i], body);
    FindWorkspaceSameIds(docs, after, id);
    PatchOverSaved(docs[i], body, saved);
    assert after[i := saved] == after;
  }

  /** Patching the saved document with the same request reproduces the patch, since
      saving touches only `allottedTo` and a request that holds `allottedTo`
      overwrites it again. */
  lemma PatchOverSaved(doc: Doc, body: Doc, saved: Doc)
    requires DocValid(doc) && Save(Patch(doc, body)) == Some(saved)
    ensures Patch(saved, body) == Patch(doc, body)
  {
    var p := Patch(doc, body);
    if "allottedTo" in p && "allottedTo" !in body {
      assert p["allottedTo"] == doc["allottedTo"];
      assert AllottedOk(Get(doc, "allottedTo"));
      assert saved["allottedTo"] == p["allottedTo"];
    }
    assert Patch(saved, body).Keys == p.Keys;
  }

  lemma {:induction false} FindWorkspaceSameIds(a: seq<Doc>, b: seq<Doc>, id: string)
    requires |a| == |b| && forall k :: 0 <= k < |a| ==> Get(a[k], "_id") == Get(b[k], "_id")
    ensures FindWorkspace(a, id) == FindWorkspace(b, id)
  {
    if a != [] && Get(a[0], "_id") != Oid(id) {
      assert forall k :: 0 <= k < |a| - 1 ==> Get(a[1..][k], "_id") == Get(b[1..][k], "_id");
      FindWorkspaceSameIds(a[1..], b[1..], id);
    }
  }

  /** The loop of `updateWorkspace` over the request's keys, one assignment per
      key; the order in which keys are visited does not matter. */
  method CopyKeys(original: Doc, body: Doc) returns (workspace: Doc)
    ensures workspace == Patch(original, body)
  {
    workspace := original;
    var todo := body.Keys;
    ghost var done: set<string> := {};
    while todo != {}
      invariant done <= body.Keys && todo == body.Keys - done
      invariant Copied(original, body, done, workspace)
      decreases |todo|
    {
      var key :| key in todo;
      CopyStep(original, body, done, key, workspace);
      if key != "_id" && key != "id" {
        workspace := workspace[key := body[key]];
      }
      todo := todo - {key};
      done := done + {key};
    }
    assert done == body.Keys;
    CopiedAll(original, body, workspace);
  }

  method UpdateWorkspace(store: WorkspaceStore, id: string, body: Doc) returns (res: Response)
    requires store.Valid()
    modifies store
    ensures store.Valid()
    ensures WorkspaceOutcome(res, store.docs) == UpdateOutcome(old(store.docs), id, body)
  {
    var found := FindWorkspace(store.docs, id);
    if found.None? {
      return Response(404, "Workspace not found");
    }
    var i := found.value;
    var workspace := CopyKeys(store.docs[i], body);
    var saved := Save(workspace);
    if saved.None? {
      return Response(400, "Workspace validation failed");
    }
    ghost var o := UpdateOutcome(store.docs, id, body);
    store.docs := store.docs[i := saved.value];
    res := Response(200, "");
  }

  /** `Workspace.findOne({ allottedTo: userId })`: the first workspace allotted to
      that user. */
  function FindAllotted(docs: seq<Doc>, userId: string): (r: Option<nat>)
    ensures r.Some? ==> r.value < |docs| && Get(docs[r.value], "allottedTo") == Oid(userId)
    ensures r.None? <==> forall k :: 0 <= k < |docs| ==> Get(docs[k], "allottedTo") != Oid(userId)
  {
    if docs == [] then None
    else if Get(docs[0], "allottedTo") == Oid(userId) then Some(0)
    else
      var k := FindAllotted(docs[1..], userId);
      assert forall j :: 1 <= j < |docs| ==> docs[j] == docs[1..][j - 1];
      if k.Some? then Some(k.value + 1) else None
  }

  /** A lookup's answer: the response and the document it carries, if any. */
  datatype Lookup = Lookup(response: Response, doc: Option<Doc>)

  /** `getMyWorkspace`: 401 with no attached user; otherwise a workspace allotted
      to the caller, or 404 when there is none. */
  function MyWorkspace(docs: seq<Doc>, caller: Option<User>): (r: Lookup)
    ensures caller.None? ==> r == Lookup(Response(401, "Not authorized"), None)
    ensures caller.Some? ==>
      (r.response.status == 200 <==> exists k :: 0 <= k < |docs| && Get(docs[k], "allottedTo") == Oid(caller.value.id))
    ensures r.response.status == 200 ==>
      caller.Some? && r.doc.Some? && r.doc.value in docs && Get(r.doc.value, "allottedTo") == Oid(caller.value.id)
    ensures caller.Some? && r.response.status != 200 ==> r == Lookup(Response(404, "No workspace allotted to you"), None)
  {
    if caller.None? then Lookup(Response(401, "Not authorized"), None)
    else
      match FindAllotted(docs, caller.value.id)
      case None => Lookup(Response(404, "No workspace allotted to you"), None)
      case Some(k) => Lookup(Response(200, ""), Some(docs[k]))
  }

  /** The query of `getCommunityMembers`: same location, and `allottedTo` neither
      `null` (which `$nin` also takes to match a missing field) nor the caller. */
  predicate InCommunity(d: Doc, location: Value, callerId: string) {
    Get(d, "location") == location
    && Get(d, "allottedTo") != Null && Get(d, "allottedTo") != Undefined
    && Get(d, "allottedTo") != Oid(callerId)
  }

  /** `Workspace.find(query)`: the matching workspaces, in collection order. */
  function Community(docs: seq<Doc>, location: Value, callerId: string): (r: seq<Doc>)
    ensures forall d :: d in r <==> d in docs && InCommunity(d, location, callerId)
    ensures |r| <= |docs|
  {
    if docs == [] then []
    else
      var rest := Community(docs[1..], location, callerId);
      assert forall d :: d in docs <==> d == docs[0] || d in docs[1..];
      if InCommunity(docs[0], location, callerId) then [docs[0]] + rest else rest
  }

  /** The query selects element by element, so its result keeps collection order. */
  lemma {:induction false} CommunityAppend(a: seq<Doc>, b: seq<Doc>, location: Value, callerId: string)
    ensures Community(a + b, location, callerId) == Community(a, location, callerId) + Community(b, location, callerId)
  {
    if a == [] {
      assert a + b == b;
    } else {
      assert (a + b)[0] == a[0];
      assert (a + b)[1..] == a[1..] + b;
      CommunityAppend(a[1..], b, location, callerId);
    }
  }

  datatype CommunityMember = CommunityMember(workspaceName: Value, user: Value)

  datatype MembersReply = MembersReply(response: Response, members: seq<CommunityMember>)

  /** `getCommunityMembers`: 401 with no attached user, 404 when the caller has no
      workspace; otherwise one entry per workspace at the caller's location that
      someone else occupies, pairing its name with its occupant, in collection
      order. The caller never appears among the members. */
  function CommunityMembers(docs: seq<Doc>, caller: Option<User>): (r: MembersReply)
    ensures caller.None? ==> r == MembersReply(Response(401, "Not authorized"), [])
    ensures caller.Some? && FindAllotted(docs, caller.value.id).None? ==>
      r == MembersReply(Response(404, "Join a workspace to see your community"), [])
    ensures caller.Some? && FindAllotted(docs, caller.value.id).Some? ==>
      var mine := docs[FindAllotted(docs, caller.value.id).value];
      var ws := Community(docs, Get(mine, "location"), caller.value.id);
      r.response.status == 200 && |r.members| == |ws|
      && forall k :: 0 <= k < |ws| ==>
           r.members[k] == CommunityMember(Get(ws[k], "name"), Get(ws[k], "allottedTo"))
           && r.members[k].user != Oid(caller.value.id)
  {
    if caller.None? then MembersReply(Response(401, "Not authorized"), [])
    else
      match FindAllotted(docs, caller.value.id)
      case None => MembersReply(Response(404, "Join a workspace to see your community"), [])
      case Some(i) =>
        var ws := Community(docs, Get(docs[i], "location"), caller.value.id);
        assert forall k :: 0 <= k < |ws| ==> ws[k] in ws;
        MembersReply(Response(200, ""), seq(|ws|, k requires 0 <= k < |ws| => CommunityMember(Get(ws[k], "name"), Get(ws[k], "allottedTo"))))
  }
}
