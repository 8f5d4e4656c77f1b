/** Day passes, from `src/models/DayPass.ts` and `src/controllers/dayPassController.ts`:
    a visitor requests a pass for a visit date and receives a pass code; at the
    reception the code is verified once, on the visit day. The uuid, the date
    parser, the clock and the rendering and mailing of the pass are parameters. */
module DayPass {
  import opened Js
  import opened Http

  datatype PassStatus = Pending | Used | Expired

  /** A point in local time: the calendar day and the milliseconds since its
      midnight. `setHours(0, 0, 0, 0)` keeps exactly the day. */
  datatype Instant = Instant(day: int, msOfDay: nat)

  datatype Pass = Pass(
    name: string, email: string, contact: string, purpose: string,
    visitDate: Instant, passCode: string, status: PassStatus)

  /** The schema's required strings, and the unique index on `passCode`. */
  predicate PassesValid(passes: seq<Pass>) {
    (forall i :: 0 <= i < |passes| ==>
      passes[i].name != "" && passes[i].email != "" && passes[i].contact != ""
      && passes[i].purpose != "" && passes[i].passCode != "")
    && (forall i, j :: 0 <= i < |passes| && 0 <= j < |passes| && i != j ==> passes[i].passCode != passes[j].passCode)
  }

  /** The `daypasses` collection. */
  class PassStore {
    var passes: seq<Pass>

    ghost predicate Valid()
      reads this
    {
      PassesValid(passes)
    }

    constructor ()
      ensures Valid() && passes == []
    {
      passes := [];
    }
  }

  datatype PassOutcome = PassOutcome(response: Response, passes: seq<Pass>)

  const CodePrefix := "COHORT-"

  /** The pass code built from a uuid: "COHORT-" and the upper-cased first eight
      characters. A version-4 uuid has 36 characters, so the code has 15. */
  function PassCode(uuid: string): (r: string)
    ensures |uuid| >= 8 ==> |r| == 15
    ensures |r| >= 7 && r[..7] == CodePrefix
    ensures |uuid| >= 8 ==> r[7..] == ToUpper(uuid[..8])
    ensures forall k :: 7 <= k < |r| ==> !('a' <= r[k] <= 'z')
  {
    var tail := ToUpper(Prefix(uuid, 8));
    assert forall k :: 0 <= k < |tail| ==> !('a' <= tail[k] <= 'z');
    CodePrefix + tail
  }

  /** Two uuids that agree on their first eight characters up to case give the same
      code, whatever follows; a code therefore identifies only that prefix. */
  lemma PassCodeDependsOnPrefix(u: string, v: string)
    requires |u| >= 8 && |v| >= 8 && ToUpper(u[..8]) == ToUpper(v[..8])
    ensures PassCode(u) == PassCode(v)
  {
  }

  /** `DayPass.findOne({ passCode })`. */
  function FindPass(passes: seq<Pass>, code: string): (r: Option<nat>)
    ensures r.Some? ==> r.value < |passes| && passes[r.value].passCode == code
    ensures r.None? <==> forall k :: 0 <= k < |passes| ==> passes[k].passCode != code
  {
    if passes == [] then None
    else if passes[0].passCode == code then Some(0)
    else
      var k := FindPass(passes[1..], code);
      assert forall j :: 1 <= j < |passes| ==> passes[j] == passes[1..][j - 1];
      if k.Some? then Some(k.value + 1) else None
  }

  /** Appending a pass with non-empty fields and a code no stored pass holds keeps
      the collection valid. */
  lemma AppendPassKeepsValid(passes: seq<Pass>, p: Pass)
    requires PassesValid(passes) && FindPass(passes, p.passCode).None?
    requires p.name != "" && p.email != "" && p.contact != "" && p.purpose != "" && p.passCode != ""
    ensures PassesValid(passes + [p])
  {
  }

  /** `requestDayPass`. Any empty field refuses the request with 400 and creates
      nothing. A visit date that does not parse, or a code that is taken, makes
      `DayPass.create` throw: 500 and nothing stored. Otherwise a Pending pass with
      the new code is stored; if rendering or mailing it then fails (`delivered`
      false) the handler answers 500, but the pass stays stored. */
  function RequestOutcome(passes: seq<Pass>, name: string, email: string, contact: string, purpose: string,
                          visitDate: string, parseDate: string -> Option<Instant>, uuid: string, delivered: bool): (o: PassOutcome)
    ensures name == "" || email == "" || contact == "" || purpose == "" || visitDate == "" ==>
      o == PassOutcome(Response(400, "Please provide all required fields"), passes)
    ensures o.response.status == 201 ==> delivered
    ensures o.passes != passes <==>
      name != "" && email != "" && contact != "" && purpose != "" && visitDate != ""
      && parseDate(visitDate).Some? && FindPass(passes, PassCode(uuid)).None?
    ensures o.passes != passes ==>
      o.passes == passes + [Pass(name, email, contact, purpose, parseDate(visitDate).value, PassCode(uuid), Pending)]
      && o.response == (if delivered then Response(201, "Day Pass generated and sent to email")
                        else Response(500, "Error generating day pass"))
    ensures o.response.status == 201 ==> o.passes != passes
    ensures (name != "" && email != "" && contact != "" && purpose != "" && visitDate != ""
      && parseDate(visitDate).None?) ==>
      o == PassOutcome(Response(500, "Cast to date failed for value \"" + visitDate + "\" at path \"visitDate\""), passes)
    ensures (name != "" && email != "" && contact != "" && purpose != "" && visitDate != ""
      && parseDate(visitDate).Some? && FindPass(passes, PassCode(uuid)).Some?) ==>
      o == PassOutcome(Response(500, "E11000 duplicate key error"), passes)
    ensures PassesValid(passes) ==> PassesValid(o.passes)
  {
    if name == "" || email == "" || contact == "" || purpose == "" || visitDate == "" then
      PassOutcome(Response(400, "Please provide all required fields"), passes)
    else
      var code := PassCode(uuid);
      match parseDate(visitDate)
      case None => PassOutcome(Response(500, "Cast to date failed for value \"" + visitDate + "\" at path \"visitDate\""), passes)
      case Some(date) =>
        if FindPass(passes, code).Some? then
          PassOutcome(Response(500, "E11000 duplicate key error"), passes)
        else
          var stored := passes + [Pass(name, email, contact, purpose, date, code, Pending)];
          assert |stored| != |passes|;
          assert PassesValid(passes) ==> PassesValid(stored) by {
            if PassesValid(passes) { AppendPassKeepsValid(passes, stored[|passes|]); }
          }
          if delivered then
            PassOutcome(Response(201, "Day Pass generated and sent to email"), stored)
          else
            PassOutcome(Response(500, "Error generating day pass"), stored)
  }

  method RequestDayPass(store: PassStore, name: string, email: string, contact: string, purpose: string,
                        visitDate: string, parseDate: string -> Option<Instant>, uuid: string, delivered: bool)
    returns (res: Response)
    requires store.Valid()
    modifies store
    ensures store.Valid()
    ensures PassOutcome(res, store.passes)
      == RequestOutcome(old(store.passes), name, email, contact, purpose, visitDate, parseDate, uuid, delivered)
  {
    if name == "" || email == "" || contact == "" || purpose == "" || visitDate == "" {
      return Response(400, "Please provide all required fields");
    }
    var passCode := PassCode(uuid);
    var date := parseDate(visitDate);
    if date.None? {
      return Response(500, "Cast to date failed for value \"" + visitDate + "\" at path \"visitDate\"");
    }
    if FindPass(store.passes, passCode).Some? {
      return Response(500, "E11000 duplicate key error");
    }
    store.passes := store.passes + [Pass(name, email, contact, purpose, date.value, passCode, Pending)];
    if !delivered {
      return Response(500, "Error generating day pass");
    }
    res := Response(201, "Day Pass generated and sent to email");
  }

  /** `verifyDayPass` on the day `today`. A missing code gives 400 and an unknown
      one 404. A Used or Expired pass is refused with 400 and left as it is. A
      Pending pass is accepted exactly on its visit day, whatever the time of day,
      and then becomes Used with nothing else changed; on any other day it is
      refused with 400 and left Pending. `dayLabel` renders the visit day. */
  function VerifyOutcome(passes: seq<Pass>, code: string, today: int, dayLabel: int -> string): (o: PassOutcome)
    ensures code == "" ==> o == PassOutcome(Response(400, "Pass code is required"), passes)
    ensures code != "" && FindPass(passes, code).None? ==> o == PassOutcome(Response(404, "Day pass not found"), passes)
    ensures code != "" && FindPass(passes, code).Some? ==>
      var p := passes[FindPass(passes, code).value];
      (p.status == Used ==> o == PassOutcome(Response(400, "This pass has already been used"), passes))
      && (p.status == Expired ==> o == PassOutcome(Response(400, "This pass has expired"), passes))
      && (p.status == Pending && p.visitDate.day != today ==>
            o == PassOutcome(Response(400, "This pass is valid for " + dayLabel(p.visitDate.day) + ", not today."), passes))
    ensures o.response.status == 200 <==>
      code != "" && FindPass(passes, code).Some?
      && passes[FindPass(passes, code).value].status == Pending
      && passes[FindPass(passes, code).value].visitDate.day == today
    ensures o.response.status == 200 ==>
      var i := FindPass(passes, code).value;
      o.passes == passes[i := passes[i].(status := Used)]
    ensures o.response.status != 200 ==> o.passes == passes
    ensures PassesValid(passes) ==> PassesValid(o.passes)
  {
    if code == "" then
      PassOutcome(Response(400, "Pass code is required"), passes)
    else
      match FindPass(passes, code)
      case None => PassOutcome(Response(404, "Day pass not found"), passes)
      case Some(i) =>
        var p := passes[i];
        if p.status == Used then
          PassOutcome(Response(400, "This pass has already been used"), passes)
        else if p.status == Expired then
          PassOutcome(Response(400, "This pass has expired"), passes)
        else if p.visitDate.day != today then
          PassOutcome(Response(400, "This pass is valid for " + dayLabel(p.visitDate.day) + ", not today."), passes)
        else
          PassOutcome(Response(200, "Day pass authenticated successfully!"), passes[i := p.(status := Used)])
  }

  method VerifyDayPass(store: PassStore, code: string, today: int, dayLabel: int -> string) returns (res: Response)
    requires store.Valid()
    modifies store
    ensures store.Valid()
    ensures PassOutcome(res, store.passes) == VerifyOutcome(old(store.passes), code, today, dayLabel)
  {
    if code == "" {
      return Response(400, "Pass code is required");
    }
    var found := FindPass(store.passes, code);
    if found.None? {
      return Response(404, "Day pass not found");
    }
    var pass := store.passes[found.value];
    if pass.status == Used {
      return Response(400, "This pass has already been used");
    }
    if pass.status == Expired {
      return Response(400, "This pass has expired");
    }
    var visitDay := pass.visitDate.day;
    if visitDay != today {
      return Response(400, "This pass is valid for " + dayLabel(visitDay) + ", not today.");
    }
    pass := pass.(status := Used);
    store.passes := store.passes[found.value := pass];
    res := Response(200, "Day pass authenticated successfully!");
  }

  lemma {:induction false} FindPassSameCodes(a: seq<Pass>, b: seq<Pass>, code: string)
    requires |a| == |b| && forall k :: 0 <= k < |a| ==> a[k].passCode == b[k].passCode
    ensures FindPass(a, code) == FindPass(b, code)
  {
    if a != [] && a[0].passCode != code {
      assert forall k :: 0 <= k < |a| - 1 ==> a[1..][k].passCode == b[1..][k].passCode;
      FindPassSameCodes(a[1..], b[1..], code);
    }
  }

  /** A pass is admitted at most once: verifying the same code again, on any day,
      is refused as already used and changes nothing. */
  lemma SecondVerificationRefused(passes: seq<Pass>, code: string, today: int, later: int, dayLabel: int -> string)
    requires VerifyOutcome(passes, code, today, dayLabel).response.status == 200
    ensures var after := VerifyOutcome(passes, code, today, dayLabel).passes;
      VerifyOutcome(after, code, later, dayLabel) == PassOutcome(Response(400, "This pass has already been used"), after)
  {
    var i := FindPass(passes, code).value;
    var after := passes[i := passes[i].(status := Used)];
    FindPassSameCodes(passes, after, code);
  }

  /** The time of day of the visit date plays no part in verification. */
  lemma VerifyIgnoresTimeOfDay(passes: seq<Pass>, code: string, today: int, dayLabel: int -> string, ms: nat)
    requires code != "" && FindPass(passes, code).Some?
    ensures var i := FindPass(passes, code).value;
      var moved := passes[i := passes[i].(visitDate := passes[i].visitDate.(msOfDay := ms))];
      VerifyOutcome(moved, code, today, dayLabel).response == VerifyOutcome(passes, code, today, dayLabel).response
  {
    var i := FindPass(passes, code).value;
    var moved := passes[i := passes[i].(visitDate := passes[i].visitDate.(msOfDay := ms))];
    FindPassSameCodes(passes, moved, code);
  }
}
