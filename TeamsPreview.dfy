/** api/teams.js: a read-only preview, per team of its own local catalog, of the
    rotation state and of the member the next assignment would choose. */
module TeamsPreview {
  import opened Js
  import opened Keys
  import opened Store
  import opened TeamsConfig
  import opened Rotation

  /** The handler's own `TEAMS`, in `Object.entries` order; every member is active. */
  const PreviewTeams: Catalog := [Under799, MidRange]

  const Under799: Team := Team("sales-under-799", "Sales - Under $799", [
    Member("246802831", "Sarah", true),
    Member("246802832", "Mike", true),
    Member("246802833", "Jessica", true),
    Member("246802844", "Tom", true)])

  const MidRange: Team := Team("sales-mid-range", "Sales - $800-$1499", [
    Member("246802834", "David", true),
    Member("246802835", "Emily", true)])

  /** One entry of the response's `teams` object. `None` stands for null. */
  datatype TeamPreview = TeamPreview(
    name: string,
    members: seq<Member>,
    activeMembers: nat,
    totalMembers: nat,
    lastAssigned: Option<string>,
    lastAssignedId: Option<Value>,
    nextOwner: Option<string>,
    nextOwnerId: Option<string>,
    totalAssignments: Option<int>)  // `None` is NaN

  /** `activeMembers.findIndex(m => m.id === last)`: strict equality, so only a
      string pointer can match a (string) member id. */
  function StrictIndexOf(active: seq<Member>, last: Value): (p: int)
    ensures -1 <= p < |active|
    ensures p >= 0 <==> last.Str? && exists m :: m in active && m.id == last.s
  {
    if last.Str? then
      var p := IndexOfId(active, last.s);
      assert p == -1 <==> forall m :: m in active ==> m.id != last.s by {
        if p == -1 {
          forall m | m in active ensures m.id != last.s {
            var j :| 0 <= j < |active| && active[j] == m;
          }
        }
      }
      p
    else -1
  }

  /** `x?.name || null` for a found member: an empty name also reads as null. */
  function NameOrNull(name: string): Option<string>
  {
    if name == "" then None else Some(name)
  }

  /** The preview of one team, given the store. */
  function Preview(team: Team, data: Data): TeamPreview
  {
    var active := ActiveMembers(team.members);
    var lastId := Lookup(data, LastAssigned(team.key));
    var count := Lookup(data, TotalCount(team.key));
    var totalAssignments := ToNumber(if Truthy(count) then count else Some(Int(0)));
    var p := if Truthy(lastId) then StrictIndexOf(active, lastId.value) else -1;
    var next: Option<Member> :=
      if p != -1 then Some(active[(p + 1) % |active|])
      else if |active| > 0 then Some(active[0])
      else None;
    TeamPreview(
      team.name, team.members, |active|, |team.members|,
      if p != -1 then NameOrNull(active[p].name) else None,
      if Truthy(lastId) then lastId else None,
      if next.Some? then Some(next.value.name) else None,
      if next.Some? then Some(next.value.id) else None,
      totalAssignments)
  }

  /** The `teams` object for a catalog: one preview per team key. */
  function Previews(catalog: Catalog, data: Data): map<string, TeamPreview>
  {
    if catalog == [] then map[]
    else
      var t := catalog[|catalog| - 1];
      Previews(catalog[..|catalog| - 1], data)[t.key := Preview(t, data)]
  }

  /** The handler: reads the store only (it has no `modifies`). */
  method Handle(kv: Kv) returns (teamsData: map<string, TeamPreview>)
    ensures teamsData == Previews(PreviewTeams, kv.data)
  {
    teamsData := map[];
    var i := 0;
    while i < |PreviewTeams|
      invariant 0 <= i <= |PreviewTeams|
      invariant teamsData == Previews(PreviewTeams[..i], kv.data)
    {
      var preview := PreviewOf(kv, PreviewTeams[i]);
      teamsData := teamsData[PreviewTeams[i].key := preview];
      PreviewsSnoc(PreviewTeams, i + 1, kv.data);
      i := i + 1;
    }
    assert PreviewTeams[..i] == PreviewTeams;
  }

  /** The body of the handler's loop for one team. */
  method PreviewOf(kv: Kv, team: Team) returns (preview: TeamPreview)
    ensures preview == Preview(team, kv.data)
  {
    var activeMembers := ActiveMembers(team.members);
    var lastAssignedId := kv.Get(LastAssigned(team.key));
    var count := kv.Get(TotalCount(team.key));
    var totalAssignments := if Truthy(count) then count else Some(Int(0));
    var lastAssignedMember: Option<Member> := None;
    var nextOwner: Option<Member> := None;
    if Truthy(lastAssignedId) {
      var lastPosition := StrictIndexOf(activeMembers, lastAssignedId.value);
      if lastPosition != -1 {
        lastAssignedMember := Some(activeMembers[lastPosition]);
        nextOwner := Some(activeMembers[(lastPosition + 1) % |activeMembers|]);
      } else if |activeMembers| > 0 {
        nextOwner := Some(activeMembers[0]);
      }
    } else if |activeMembers| > 0 {
      nextOwner := Some(activeMembers[0]);
    }
    preview := TeamPreview(
      team.name, team.members, |activeMembers|, |team.members|,
      if lastAssignedMember.Some? then NameOrNull(lastAssignedMember.value.name) else None,
      if Truthy(lastAssignedId) then lastAssignedId else None,
      if nextOwner.Some? then Some(nextOwner.value.name) else None,
      if nextOwner.Some? then Some(nextOwner.value.id) else None,
      ToNumber(totalAssignments));
  }

  lemma PreviewsSnoc(catalog: Catalog, i: nat, data: Data)
    requires 0 < i <= |catalog|
    ensures Previews(catalog[..i], data) == Previews(catalog[..i - 1], data)[catalog[i - 1].key := Preview(catalog[i - 1], data)]
  {
    assert catalog[..i][..i - 1] == catalog[..i - 1];
  }

  /** For an absent or string pointer the preview names the member assign would
      choose: index `NextIndex` of the active members. */
  lemma PreviewFollowsRotation(team: Team, data: Data)
    requires |ActiveMembers(team.members)| > 0
    requires LastAssigned(team.key) in data ==> data[LastAssigned(team.key)].Str?
    ensures var active := ActiveMembers(team.members);
      Preview(team, data).nextOwnerId == Some(active[NextIndex(active, Lookup(data, LastAssigned(team.key)))].id)
  {
  }

  /** A pointer the store client hands back as a number never equals a member's
      string id under `===`: the preview restarts at the first active member and
      names no last-assigned member. */
  lemma NumericPointerRestarts(team: Team, data: Data)
    requires |ActiveMembers(team.members)| > 0
    requires LastAssigned(team.key) in data && data[LastAssigned(team.key)].Int?
    ensures Preview(team, data).nextOwnerId == Some(ActiveMembers(team.members)[0].id)
    ensures Preview(team, data).lastAssigned == None
  {
  }

  /** Concretely: with the numeric pointer 246802831 (Sarah's id), assign's
      string comparison continues with Mike, while the preview shows Sarah again. */
  lemma NumericPointerDiverges(data: Data)
    requires LastAssigned("sales-under-799") in data && data[LastAssigned("sales-under-799")] == Int(246802831)
    ensures NextIndex(ActiveMembers(Under799.members), Some(Int(246802831))) == 1
    ensures Preview(Under799, data).nextOwnerId == Some("246802831")
  {
    NumericPointerAdvances();
    NumericPointerIgnored(data);
  }

  /** assign.js stringifies the pointer and finds Sarah at position 0. */
  lemma NumericPointerAdvances()
    ensures NextIndex(ActiveMembers(Under799.members), Some(Int(246802831))) == 1
  {
    PreviewRosters();
    NineDigits();
    FirstMatchAdvances(ActiveMembers(Under799.members), Int(246802831));
  }

  /** teams.js compares strictly, so a number never matches and the preview restarts. */
  lemma NumericPointerIgnored(data: Data)
    requires LastAssigned("sales-under-799") in data && data[LastAssigned("sales-under-799")] == Int(246802831)
    ensures Preview(Under799, data).nextOwnerId == Some("246802831")
  {
    PreviewRosters();
    assert Lookup(data, LastAssigned(Under799.key)) == Some(Int(246802831));
    assert StrictIndexOf(Under799.members, Int(246802831)) == -1;
    assert Under799.members[0].id == "246802831";
  }

  lemma NineDigits()
    ensures ToStr(Int(246802831)) == "246802831"
  {
    assert NatToDecimal(2) == "2";
    assert NatToDecimal(24) == "24";
    assert NatToDecimal(246) == "246";
    assert NatToDecimal(2468) == "2468";
    assert NatToDecimal(24680) == "24680";
    assert NatToDecimal(246802) == "246802";
    assert NatToDecimal(2468028) == "2468028";
    assert NatToDecimal(24680283) == "24680283";
    assert NatToDecimal(246802831) == "246802831";
  }

  /** The next owner is null exactly when the team has no active member; when it
      is set it is an active member. */
  lemma NextOwnerIsActive(team: Team, data: Data)
    ensures Preview(team, data).nextOwnerId.None? <==> |ActiveMembers(team.members)| == 0
    ensures Preview(team, data).nextOwnerId.Some? ==>
      exists m :: m in ActiveMembers(team.members) && m.id == Preview(team, data).nextOwnerId.value
  {
    var active := ActiveMembers(team.members);
    var pv := Preview(team, data);
    if pv.nextOwnerId.Some? {
      var lastId := Lookup(data, LastAssigned(team.key));
      var p := if Truthy(lastId) then StrictIndexOf(active, lastId.value) else -1;
      var i := if p != -1 then (p + 1) % |active| else 0;
      assert active[i] in active;
    }
  }

  /** `lastAssigned` is set only for a string pointer naming an active member,
      and is then that member's name; it is null when the pointer is absent. */
  lemma LastAssignedNamesPointer(team: Team, data: Data)
    ensures var pv := Preview(team, data);
      var lastId := Lookup(data, LastAssigned(team.key));
      && (pv.lastAssigned.Some? ==>
            lastId.Some? && lastId.value.Str? &&
            exists m :: m in ActiveMembers(team.members) && m.id == lastId.value.s && pv.lastAssigned == Some(m.name))
      && (!Truthy(lastId) ==> pv.lastAssigned.None? && pv.lastAssignedId.None?)
      && ((lastId.None? || forall m :: m in ActiveMembers(team.members) ==> Some(Str(m.id)) != lastId) ==>
            pv.lastAssigned.None?)
  {
    var active := ActiveMembers(team.members);
    var lastId := Lookup(data, LastAssigned(team.key));
    if Truthy(lastId) {
      var p := StrictIndexOf(active, lastId.value);
      if p != -1 {
        assert active[p] in active;
      }
    }
  }

  /** An absent counter previews as 0 assignments, and a stored integer counter
      as itself. */
  lemma TotalAssignmentsDefault(team: Team, data: Data)
    ensures TotalCount(team.key) !in data ==> Preview(team, data).totalAssignments == Some(0)
    ensures TotalCount(team.key) in data && data[TotalCount(team.key)].Int? ==>
      Preview(team, data).totalAssignments == Some(data[TotalCount(team.key)].i)
  {
  }

  /** Every preview counts no more active members than members. */
  lemma {:induction false} ActiveAtMostTotal(catalog: Catalog, data: Data)
    ensures forall k :: k in Previews(catalog, data) ==>
      Previews(catalog, data)[k].activeMembers <= Previews(catalog, data)[k].totalMembers
    decreases |catalog|
  {
    if catalog != [] {
      ActiveAtMostTotal(catalog[..|catalog| - 1], data);
    }
  }

  /** In the local catalog every member is active. */
  lemma PreviewRosters()
    ensures ActiveMembers(Under799.members) == Under799.members
    ensures ActiveMembers(MidRange.members) == MidRange.members
  {
  }

  /** Both teams of the local catalog are previewed, with 4 and 2 active members,
      and each always has a next owner. */
  lemma PreviewCatalogFullyActive(data: Data)
    ensures Previews(PreviewTeams, data).Keys == {"sales-under-799", "sales-mid-range"}
    ensures Previews(PreviewTeams, data)["sales-under-799"].activeMembers == 4
    ensures Previews(PreviewTeams, data)["sales-mid-range"].activeMembers == 2
    ensures Previews(PreviewTeams, data)["sales-under-799"].nextOwnerId.Some?
    ensures Previews(PreviewTeams, data)["sales-mid-range"].nextOwnerId.Some?
  {
    PreviewRosters();
    PreviewsSnoc(PreviewTeams, 2, data);
    PreviewsSnoc(PreviewTeams, 1, data);
    assert PreviewTeams[..2] == PreviewTeams;
    assert PreviewTeams[..0] == [];
    NextOwnerIsActive(Under799, data);
    NextOwnerIsActive(MidRange, data);
  }
}
