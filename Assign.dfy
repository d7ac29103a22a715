/** api/assign.js: validate the request, choose the next active member of the team
    in rotation, update the contact's owner in HubSpot and, only if that update
    succeeds, move the team's pointer and increment the team's counter. */
module Assign {
  import opened Js
  import opened Keys
  import opened Store
  import opened TeamsConfig
  import opened Rotation

  /** The catalog api/assign.js declares for itself (not the shared one). Only the
      static `active` flags count: the handler reads no activity overrides. */
  const AssignTeams: Catalog := [
    Team("sales-team", "Sales Team", [
      Member("77614604", "Josiah Dalisay (Main)", true),
      Member("75746033", "Josiah Dalisay (Alt)", true),
      Member("361908743", "Dev Account", true)])
  ]

  datatype AssignError =
    | MissingContactId
    | MissingTeam
    | TeamNotFound
    | NoTeamMembers
    | NoActiveMembers
    | UpstreamFailed  // the HubSpot update threw
    | StoreFailed     // INCR refused a counter that holds no integer

  function StatusOf(e: AssignError): int
  {
    match e
    case TeamNotFound => 404
    case UpstreamFailed => 500
    case StoreFailed => 500
    case _ => 400
  }

  datatype AssignResult =
    | Assigned(ownerId: string, ownerName: string, teamName: string, assignmentIndex: nat,
               activeMembers: nat, totalMembers: nat, totalAssignments: int)
    | Rejected(error: AssignError)

  /** What the handler has decided before it calls HubSpot. */
  datatype Choice = Choice(teamKey: string, team: Team, active: seq<Member>, index: nat)

  /** Validation, in the handler's order, then the choice of the next owner. */
  function Plan(catalog: Catalog, data: Data, contactId: Option<Value>, team: Option<Value>): (r: Result<Choice, AssignError>)
    ensures r.Ok? ==> && Resolve(catalog, r.value.teamKey) == Found(r.value.team)
                      && r.value.active == ActiveMembers(r.value.team.members)
                      && r.value.index < |r.value.active|
  {
    if !Truthy(contactId) then Err(MissingContactId)
    else if !Truthy(team) then Err(MissingTeam)
    else
      var key := ToStr(team.value);
      match Resolve(catalog, key)
      case Missing => Err(TeamNotFound)
      case Inherited => Err(NoTeamMembers)
      case Found(t) =>
        if |t.members| == 0 then Err(NoTeamMembers)
        else
          var active := ActiveMembers(t.members);
          if |active| == 0 then Err(NoActiveMembers)
          else Ok(Choice(key, t, active, NextIndex(active, Lookup(data, LastAssigned(key)))))
  }

  /** One request: the response and the store afterwards. */
  function Transition(catalog: Catalog, data: Data, contactId: Option<Value>, team: Option<Value>,
                      hubspotOk: bool): (AssignResult, Data)
  {
    match Plan(catalog, data, contactId, team)
    case Err(e) => (Rejected(e), data)
    case Ok(c) =>
      var owner := c.active[c.index];
      if !hubspotOk then (Rejected(UpstreamFailed), data)
      else
        var pointed := data[LastAssigned(c.teamKey) := Str(owner.id)];
        match Incremented(pointed, TotalCount(c.teamKey))
        case None => (Rejected(StoreFailed), pointed)
        case Some(n) =>
          (Assigned(owner.id, owner.name, c.team.name, c.index, |c.active|, |c.team.members|, n),
           pointed[TotalCount(c.teamKey) := Int(n)])
  }

  /** The handler. `hubspotOk` is the outcome of the HubSpot owner update. */
  method Handle(kv: Kv, contactId: Option<Value>, team: Option<Value>, hubspotOk: bool) returns (r: AssignResult)
    modifies kv
    ensures (r, kv.data) == Transition(AssignTeams, old(kv.data), contactId, team, hubspotOk)
  {
    r := HandleFor(kv, AssignTeams, contactId, team, hubspotOk);
  }

  /** The handler's steps, for any catalog. */
  method HandleFor(kv: Kv, catalog: Catalog, contactId: Option<Value>, team: Option<Value>, hubspotOk: bool)
    returns (r: AssignResult)
    modifies kv
    ensures (r, kv.data) == Transition(catalog, old(kv.data), contactId, team, hubspotOk)
  {
    if !Truthy(contactId) {
      return Rejected(MissingContactId);
    }
    if !Truthy(team) {
      return Rejected(MissingTeam);
    }
    var teamKey := ToStr(team.value);
    var lookup := Resolve(catalog, teamKey);
    if lookup.Missing? {
      return Rejected(TeamNotFound);
    }
    if lookup.Inherited? || |lookup.team.members| == 0 {
      return Rejected(NoTeamMembers);
    }
    var t := lookup.team;
    var active := ActiveMembers(t.members);
    if |active| == 0 {
      return Rejected(NoActiveMembers);
    }

    var lastAssignedKey := LastAssigned(teamKey);
    var lastAssignedId := kv.Get(lastAssignedKey);
    var nextIndex := 0;
    if Truthy(lastAssignedId) {
      var lastPosition := IndexOfId(active, ToStr(lastAssignedId.value));
      if lastPosition != -1 {
        nextIndex := (lastPosition + 1) % |active|;
      } else {
        nextIndex := 0;
      }
    }
    var nextOwner := active[nextIndex];
    assert Plan(catalog, old(kv.data), contactId, team) == Ok(Choice(teamKey, t, active, nextIndex));

    if !hubspotOk {
      return Rejected(UpstreamFailed);
    }
    kv.Set(lastAssignedKey, Str(nextOwner.id));
    var totalAssignments := kv.Incr(TotalCount(teamKey));
    if totalAssignments.None? {
      return Rejected(StoreFailed);
    }
    r := Assigned(nextOwner.id, nextOwner.name, t.name, nextIndex, |active|, |t.members|, totalAssignments.value);
  }

  // ---------------------------------------------------------------------------
  // Properties of one request

  /** The checks run in a fixed order and a rejected request writes nothing, except
      a counter failure, which comes after the pointer write. */
  lemma ValidationOrder(catalog: Catalog, data: Data, contactId: Option<Value>, team: Option<Value>, hubspotOk: bool)
    ensures var (r, after) := Transition(catalog, data, contactId, team, hubspotOk);
      && (!Truthy(contactId) ==> r == Rejected(MissingContactId))
      && (Truthy(contactId) && !Truthy(team) ==> r == Rejected(MissingTeam))
      && (Truthy(contactId) && Truthy(team) ==>
            var lookup := Resolve(catalog, ToStr(team.value));
            && (lookup.Missing? ==> r == Rejected(TeamNotFound))
            && (lookup.Inherited? || (lookup.Found? && lookup.team.members == []) ==> r == Rejected(NoTeamMembers))
            && (lookup.Found? && lookup.team.members != [] && ActiveMembers(lookup.team.members) == [] ==>
                  r == Rejected(NoActiveMembers)))
      && (r.Rejected? && r.error != StoreFailed ==> after == data)
  {
  }

  /** The chosen owner is an active member of the requested team, at a valid index. */
  lemma ChosenOwnerIsActive(catalog: Catalog, data: Data, contactId: Option<Value>, team: Option<Value>, hubspotOk: bool)
    ensures var (r, _) := Transition(catalog, data, contactId, team, hubspotOk);
      r.Assigned? ==>
        && Truthy(team)
        && Resolve(catalog, ToStr(team.value)).Found?
        && var members := Resolve(catalog, ToStr(team.value)).team.members;
        && r.assignmentIndex < r.activeMembers == |ActiveMembers(members)|
        && ActiveMembers(members)[r.assignmentIndex].id == r.ownerId
        && exists m :: m in members && m.active && m.id == r.ownerId
  {
    var (r, _) := Transition(catalog, data, contactId, team, hubspotOk);
    if r.Assigned? {
      var c := Plan(catalog, data, contactId, team).value;
      ActiveMembersExactly(c.team.members);
      assert c.active[c.index] in c.active;
    }
  }

  /** If the HubSpot update fails, the store is left exactly as it was and the
      request fails: with 500, unless validation already rejected it. */
  lemma HubSpotFailureChangesNothing(catalog: Catalog, data: Data, contactId: Option<Value>, team: Option<Value>)
    ensures var (r, after) := Transition(catalog, data, contactId, team, false);
      && after == data
      && r.Rejected?
      && (Plan(catalog, data, contactId, team).Ok? ==> r.error == UpstreamFailed && StatusOf(r.error) == 500)
  {
  }

  /** A successful request writes the chosen owner's id as the pointer and the old
      team count plus one (absent read as 0) as the counter, and nothing else. */
  lemma SuccessWrites(catalog: Catalog, data: Data, contactId: Option<Value>, team: Option<Value>, hubspotOk: bool)
    ensures var (r, after) := Transition(catalog, data, contactId, team, hubspotOk);
      r.Assigned? ==>
        && hubspotOk && Truthy(team)
        && var key := ToStr(team.value);
        && r.totalAssignments == CounterOrZero(data, TotalCount(key)) + 1
        && after == data[LastAssigned(key) := Str(r.ownerId)][TotalCount(key) := Int(r.totalAssignments)]
        && forall k :: k != LastAssigned(key) && k != TotalCount(key) ==>
             (k in after <==> k in data) && (k in data ==> after[k] == data[k])
  {
    var (r, after) := Transition(catalog, data, contactId, team, hubspotOk);
    if r.Assigned? {
      var key := ToStr(team.value);
      FamiliesDisjoint(key, key, "", "");
      assert Lookup(data[LastAssigned(key) := Str(r.ownerId)], TotalCount(key)) == Lookup(data, TotalCount(key));
    }
  }

  /** A counter INCR refuses fails the request after the pointer was already moved. */
  lemma CounterFailureKeepsPointer(catalog: Catalog, data: Data, contactId: Option<Value>, team: Option<Value>, hubspotOk: bool)
    ensures var (r, after) := Transition(catalog, data, contactId, team, hubspotOk);
      r == Rejected(StoreFailed) ==>
        && Plan(catalog, data, contactId, team).Ok?
        && var c := Plan(catalog, data, contactId, team).value;
        && after == data[LastAssigned(c.teamKey) := Str(c.active[c.index].id)]
        && TotalCount(c.teamKey) in data && !data[TotalCount(c.teamKey)].Int?
  {
    var (r, after) := Transition(catalog, data, contactId, team, hubspotOk);
    if r == Rejected(StoreFailed) {
      var c := Plan(catalog, data, contactId, team).value;
      FamiliesDisjoint(c.teamKey, c.teamKey, "", "");
    }
  }

  // ---------------------------------------------------------------------------
  // Properties of a sequence of requests

  /** k successful requests for the same team, one after the other: the store
      afterwards and the responses in order. */
  function Run(catalog: Catalog, data: Data, contactId: Option<Value>, team: Option<Value>, k: nat): (Data, seq<AssignResult>)
    decreases k
  {
    if k == 0 then (data, [])
    else
      var previous := Run(catalog, data, contactId, team, k - 1);
      var step := Transition(catalog, previous.0, contactId, team, true);
      (step.1, previous.1 + [step.0])
  }

  /** A request for a known team whose members have distinct, non-empty ids and at
      least one of whom is active. */
  predicate Rotating(catalog: Catalog, contactId: Option<Value>, team: Option<Value>)
  {
    && Truthy(contactId) && Truthy(team)
    && Resolve(catalog, ToStr(team.value)).Found?
    && var members := Resolve(catalog, ToStr(team.value)).team.members;
    && ActiveMembers(members) != []
    && DistinctIds(members)
    && forall m :: m in members ==> m.id != ""
  }

  function ActiveOf(catalog: Catalog, team: Option<Value>): seq<Member>
    requires Truthy(team) && Resolve(catalog, ToStr(team.value)).Found?
  {
    ActiveMembers(Resolve(catalog, ToStr(team.value)).team.members)
  }

  /** Where the pointer stands before the i-th request of a run that started
      without one: absent for the first, the previous owner's id afterwards. */
  predicate PointerBefore(data: Data, key: string, active: seq<Member>, i: nat)
    requires |active| > 0
  {
    if i == 0 then LastAssigned(key) !in data
    else LastAssigned(key) in data && data[LastAssigned(key)] == Str(active[(i - 1) % |active|].id)
  }

  lemma PointerLeadsTo(data: Data, key: string, active: seq<Member>, i: nat)
    requires |active| > 0 && DistinctIds(active)
    requires forall m :: m in active ==> m.id != ""
    requires PointerBefore(data, key, active, i)
    ensures NextIndex(active, Lookup(data, LastAssigned(key))) == i % |active|
  {
    var last := Lookup(data, LastAssigned(key));
    if i == 0 {
      assert last == None;
    } else {
      var previous := active[(i - 1) % |active|].id;
      assert last == Some(Str(previous));
      StepAround(active, i - 1);
    }
  }

  /** Before the i-th request of such a run, validation passes and the rotation
      stands at i mod n. */
  lemma PlanAt(catalog: Catalog, before: Data, contactId: Option<Value>, team: Option<Value>, i: nat)
    requires Rotating(catalog, contactId, team)
    requires PointerBefore(before, ToStr(team.value), ActiveOf(catalog, team), i)
    ensures Plan(catalog, before, contactId, team)
         == Ok(Choice(ToStr(team.value), Resolve(catalog, ToStr(team.value)).team, ActiveOf(catalog, team), i % |ActiveOf(catalog, team)|))
  {
    var members := Resolve(catalog, ToStr(team.value)).team.members;
    ActiveKeepsDistinct(members);
    ActiveMembersExactly(members);
    PointerLeadsTo(before, ToStr(team.value), ActiveOf(catalog, team), i);
  }

  /** The i-th request of such a run chooses active[i mod n] and writes it back. */
  lemma RunStep(catalog: Catalog, before: Data, contactId: Option<Value>, team: Option<Value>, i: nat)
    requires Rotating(catalog, contactId, team)
    requires PointerBefore(before, ToStr(team.value), ActiveOf(catalog, team), i)
    requires TotalCount(ToStr(team.value)) !in before || before[TotalCount(ToStr(team.value))].Int?
    ensures var step := Transition(catalog, before, contactId, team, true);
      var active := ActiveOf(catalog, team);
      var key := ToStr(team.value);
      var count := CounterOrZero(before, TotalCount(key)) + 1;
      && step.0.Assigned?
      && step.0.assignmentIndex == i % |active|
      && step.0.ownerId == active[i % |active|].id
      && step.0.totalAssignments == count
      && step.1 == before[LastAssigned(key) := Str(active[i % |active|].id)][TotalCount(key) := Int(count)]
  {
    var active := ActiveOf(catalog, team);
    var key := ToStr(team.value);
    PlanAt(catalog, before, contactId, team, i);
    FamiliesDisjoint(key, key, "", "");
    var pointed := before[LastAssigned(key) := Str(active[i % |active|].id)];
    assert Lookup(pointed, TotalCount(key)) == Lookup(before, TotalCount(key));
  }

  /** The i-th response chose active[i mod n] at index i mod n, and the team
      counter then stood at base + i + 1. */
  predicate RotatesFrom(results: seq<AssignResult>, active: seq<Member>, base: int)
    requires |active| > 0
  {
    forall i :: 0 <= i < |results| ==>
      && results[i].Assigned?
      && results[i].assignmentIndex == i % |active|
      && results[i].ownerId == active[i % |active|].id
      && results[i].totalAssignments == base + i + 1
  }

  lemma RotatesSnoc(results: seq<AssignResult>, r: AssignResult, active: seq<Member>, base: int)
    requires |active| > 0 && RotatesFrom(results, active, base)
    requires r.Assigned? && r.assignmentIndex == |results| % |active|
    requires r.ownerId == active[|results| % |active|].id && r.totalAssignments == base + |results| + 1
    ensures RotatesFrom(results + [r], active, base)
  {
    var rs := results + [r];
    forall i | 0 <= i < |rs|
      ensures && rs[i].Assigned? && rs[i].assignmentIndex == i % |active|
              && rs[i].ownerId == active[i % |active|].id && rs[i].totalAssignments == base + i + 1
    {
      if i < |results| {
        assert rs[i] == results[i];
      }
    }
  }

  /** The team counter holds an integer (or is absent) and reads as c. */
  predicate CounterAt(data: Data, key: string, c: int)
  {
    && (TotalCount(key) !in data || data[TotalCount(key)].Int?)
    && CounterOrZero(data, TotalCount(key)) == c
  }

  /** What k requests of a run starting from `data` have produced: k responses
      rotating from the old counter, the pointer on the last owner, the counter
      advanced by k. */
  predicate Covered(catalog: Catalog, data: Data, team: Option<Value>, run: (Data, seq<AssignResult>), k: nat)
    requires Truthy(team) && Resolve(catalog, ToStr(team.value)).Found?
    requires |ActiveOf(catalog, team)| > 0
  {
    var key := ToStr(team.value);
    var base := CounterOrZero(data, TotalCount(key));
    && |run.1| == k
    && RotatesFrom(run.1, ActiveOf(catalog, team), base)
    && PointerBefore(run.0, key, ActiveOf(catalog, team), k)
    && CounterAt(run.0, key, base + k)
    && (k > 0 ==> TotalCount(key) in run.0 && run.0[TotalCount(key)] == Int(base + k))
  }

  /** One more request of the run extends the rotation by one response. */
  lemma CoverageStep(catalog: Catalog, data: Data, contactId: Option<Value>, team: Option<Value>,
                     previous: (Data, seq<AssignResult>), i: nat)
    requires Rotating(catalog, contactId, team)
    requires Covered(catalog, data, team, previous, i)
    ensures var step := Transition(catalog, previous.0, contactId, team, true);
      Covered(catalog, data, team, (step.1, previous.1 + [step.0]), i + 1)
  {
    var key := ToStr(team.value);
    var base := CounterOrZero(data, TotalCount(key));
    RunStep(catalog, previous.0, contactId, team, i);
    FamiliesDisjoint(key, key, "", "");
    var step := Transition(catalog, previous.0, contactId, team, true);
    RotatesSnoc(previous.1, step.0, ActiveOf(catalog, team), base);
  }

  /** Round-robin coverage: with no prior pointer, the i-th of k successful requests
      chooses active[i mod n] at index i mod n, and the team counter counts them. */
  lemma {:induction false} RoundRobinCoverage(catalog: Catalog, data: Data, contactId: Option<Value>, team: Option<Value>, k: nat)
    requires Rotating(catalog, contactId, team)
    requires LastAssigned(ToStr(team.value)) !in data
    requires TotalCount(ToStr(team.value)) !in data || data[TotalCount(ToStr(team.value))].Int?
    ensures Covered(catalog, data, team, Run(catalog, data, contactId, team, k), k)
    decreases k
  {
    if k > 0 {
      RoundRobinCoverage(catalog, data, contactId, team, k - 1);
      CoverageStep(catalog, data, contactId, team, Run(catalog, data, contactId, team, k - 1), k - 1);
    }
  }

  /** The handler's own team rotates through its three members in catalog order. */
  lemma SalesTeamRotation(data: Data, contactId: Option<Value>, k: nat)
    requires Truthy(contactId)
    requires LastAssigned("sales-team") !in data && TotalCount("sales-team") !in data
    ensures var (_, results) := Run(AssignTeams, data, contactId, Some(Str("sales-team")), k);
      && |results| == k
      && forall i :: 0 <= i < k ==> results[i].Assigned? && results[i].ownerId == AssignTeams[0].members[i % 3].id
  {
    var members := AssignTeams[0].members;
    assert ActiveMembers(members) == members;
    assert DistinctIds(members);
    RoundRobinCoverage(AssignTeams, data, contactId, Some(Str("sales-team")), k);
    var results := Run(AssignTeams, data, contactId, Some(Str("sales-team")), k).1;
    assert RotatesFrom(results, members, 0);
  }
}
