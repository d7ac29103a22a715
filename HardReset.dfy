/** api/hard-reset.js: delete every statistic of one team of the shared catalog
    (its rotation pointer, its counter and its members' counters), counting the
    keys that existed. */
module HardReset {
  import opened Js
  import opened Keys
  import opened Store
  import opened TeamsConfig
  import opened Rotation

  /** The confirmation phrase the request must carry. */
  const Confirmation: string := "RESET_ALL_DATA"

  datatype HardResetError =
    | ConfirmationRequired
    | MissingTeam
    | TeamNotFound
    | MembersUndefined  // an inherited property has no `members`: iterating it throws

  function HardResetStatus(e: HardResetError): int
  {
    match e
    case TeamNotFound => 404
    case MembersUndefined => 500
    case _ => 400
  }

  datatype HardResetResult =
    /** `team` echoes the request value; `memberCount` is `team.members.length`. */
    | HardResetDone(team: Value, deletedKeys: nat, memberCount: nat)
    | HardResetRejected(error: HardResetError)

  /** The member counter keys of a team, in member order. */
  function MemberCountKeys(teamKey: string, members: seq<Member>): (keys: seq<string>)
    ensures |keys| == |members|
    ensures forall i :: 0 <= i < |members| ==> keys[i] == MemberCount(teamKey, members[i].id)
  {
    if members == [] then []
    else MemberCountKeys(teamKey, members[..|members| - 1]) + [MemberCount(teamKey, members[|members| - 1].id)]
  }

  /** The keys a reset deletes for one team: pointer, team counter, member counters. */
  function TeamKeyList(teamKey: string, members: seq<Member>): seq<string>
  {
    [LastAssigned(teamKey), TotalCount(teamKey)] + MemberCountKeys(teamKey, members)
  }

  /** The key list holds exactly the team's pointer, its counter and one counter
      per member, 2 + |members| entries. */
  lemma TeamKeyListContents(teamKey: string, members: seq<Member>)
    ensures |TeamKeyList(teamKey, members)| == 2 + |members|
    ensures forall k :: k in TeamKeyList(teamKey, members) <==>
      k == LastAssigned(teamKey) || k == TotalCount(teamKey) ||
      exists m :: m in members && k == MemberCount(teamKey, m.id)
  {
    var keys := TeamKeyList(teamKey, members);
    forall k | k in keys
      ensures k == LastAssigned(teamKey) || k == TotalCount(teamKey) ||
              exists m :: m in members && k == MemberCount(teamKey, m.id)
    {
      var i :| 0 <= i < |keys| && keys[i] == k;
      if i >= 2 {
        assert members[i - 2] in members;
      }
    }
    forall m | m in members ensures MemberCount(teamKey, m.id) in keys {
      var i :| 0 <= i < |members| && members[i] == m;
      assert keys[2 + i] == MemberCount(teamKey, m.id);
    }
  }

  /** Builds the key list the way the handler does: push the pointer and the
      counter, then one member counter per member. */
  method CollectTeamKeys(teamKey: string, members: seq<Member>) returns (keys: seq<string>)
    ensures keys == TeamKeyList(teamKey, members)
  {
    keys := [LastAssigned(teamKey), TotalCount(teamKey)];
    var j := 0;
    while j < |members|
      invariant 0 <= j <= |members|
      invariant keys == TeamKeyList(teamKey, members[..j])
    {
      assert members[..j + 1][..j] == members[..j];
      keys := keys + [MemberCount(teamKey, members[j].id)];
      j := j + 1;
    }
    assert members[..j] == members;
  }

  function HardResetTransition(catalog: Catalog, data: Data, teamKey: Option<Value>, confirm: Option<Value>)
    : (HardResetResult, Data)
  {
    if confirm != Some(Str(Confirmation)) then (HardResetRejected(ConfirmationRequired), data)
    else if !Truthy(teamKey) then (HardResetRejected(MissingTeam), data)
    else
      var key := ToStr(teamKey.value);
      match Resolve(catalog, key)
      case Missing => (HardResetRejected(TeamNotFound), data)
      case Inherited => (HardResetRejected(MembersUndefined), data)
      case Found(t) =>
        var keys := KeySet(TeamKeyList(key, t.members));
        (HardResetDone(teamKey.value, |keys * data.Keys|, |t.members|), data - keys)
  }

  method Handle(kv: Kv, teamKey: Option<Value>, confirm: Option<Value>) returns (r: HardResetResult)
    modifies kv
    ensures (r, kv.data) == HardResetTransition(Teams, old(kv.data), teamKey, confirm)
  {
    if confirm != Some(Str(Confirmation)) {
      return HardResetRejected(ConfirmationRequired);
    }
    if !Truthy(teamKey) {
      return HardResetRejected(MissingTeam);
    }
    var key := ToStr(teamKey.value);
    var team := Resolve(Teams, key);
    if team.Missing? {
      return HardResetRejected(TeamNotFound);
    }
    if team.Inherited? {
      return HardResetRejected(MembersUndefined);
    }
    var keysToDelete := CollectTeamKeys(key, team.team.members);
    var deletedCount := DeleteAll(kv, keysToDelete);
    r := HardResetDone(teamKey.value, deletedCount, |team.team.members|);
  }

  /** Without the exact confirmation string, or without a usable team, nothing is
      deleted; the checks run in this order, each with its HTTP status. */
  lemma RejectionsDeleteNothing(catalog: Catalog, data: Data, teamKey: Option<Value>, confirm: Option<Value>)
    ensures var (r, after) := HardResetTransition(catalog, data, teamKey, confirm);
      && (confirm != Some(Str("RESET_ALL_DATA")) ==>
            r == HardResetRejected(ConfirmationRequired) && HardResetStatus(r.error) == 400)
      && (confirm == Some(Str("RESET_ALL_DATA")) && !Truthy(teamKey) ==>
            r == HardResetRejected(MissingTeam) && HardResetStatus(r.error) == 400)
      && (confirm == Some(Str("RESET_ALL_DATA")) && Truthy(teamKey) ==>
            var lookup := Resolve(catalog, ToStr(teamKey.value));
            && (lookup.Missing? ==> r == HardResetRejected(TeamNotFound) && HardResetStatus(r.error) == 404)
            && (lookup.Inherited? ==> r == HardResetRejected(MembersUndefined) && HardResetStatus(r.error) == 500)
            && (!HasKey(catalog, ToStr(teamKey.value)) ==> r.HardResetRejected?))
      && (r.HardResetRejected? ==> after == data)
  {
  }

  /** A successful hard reset of a team of a well-formed catalog clears that
      team's keys (see `ClearTeamEffect`) and reports how many of its listed keys
      existed, at most 2 + |members|. */
  lemma HardResetEffect(catalog: Catalog, data: Data, teamKey: Option<Value>, confirm: Option<Value>)
    requires WellFormed(catalog)
    ensures var (r, after) := HardResetTransition(catalog, data, teamKey, confirm);
      r.HardResetDone? ==>
        var key := ToStr(teamKey.value);
        && Resolve(catalog, key).Found?
        && key != "global" && ':' !in key
        && after == data - KeySet(TeamKeyList(key, Resolve(catalog, key).team.members))
        && r.deletedKeys <= 2 + |Resolve(catalog, key).team.members|
        && r.memberCount == |Resolve(catalog, key).team.members|
  {
    var (r, after) := HardResetTransition(catalog, data, teamKey, confirm);
    if r.HardResetDone? {
      var key := ToStr(teamKey.value);
      var t := Resolve(catalog, key).team;
      var i :| 0 <= i < |catalog| && catalog[i] == t;
      DeletedAtMostListed(TeamKeyList(key, t.members), data);
    }
  }

  /** Deleting a team's key list removes the team's pointer, its counter and
      every member counter, and keeps every other key with its value: the global
      counter, all overrides, and all keys of other ':'-free teams. */
  lemma ClearTeamEffect(data: Data, key: string, members: seq<Member>)
    requires key != "global" && ':' !in key
    ensures var after := data - KeySet(TeamKeyList(key, members));
      && LastAssigned(key) !in after && TotalCount(key) !in after
      && (forall m :: m in members ==> MemberCount(key, m.id) !in after)
      && (GlobalCount in data ==> GlobalCount in after && after[GlobalCount] == data[GlobalCount])
      && (forall u, j :: MemberActive(u, j) in data ==>
            MemberActive(u, j) in after && after[MemberActive(u, j)] == data[MemberActive(u, j)])
      && (forall u :: u != key && ':' !in u ==>
            && (LastAssigned(u) in data ==>
                  LastAssigned(u) in after && after[LastAssigned(u)] == data[LastAssigned(u)])
            && (TotalCount(u) in data ==> TotalCount(u) in after && after[TotalCount(u)] == data[TotalCount(u)]))
      && (forall u, j :: u != key && ':' !in u && MemberCount(u, j) in data ==>
            MemberCount(u, j) in after && after[MemberCount(u, j)] == data[MemberCount(u, j)])
  {
    TeamKeyListContents(key, members);
    TeamKeyListSpares(key, members);
  }

  /** The keys a team's list never names: the global counter (the team is not
      "global"), any override, and any key of another ':'-free team. */
  lemma TeamKeyListSpares(key: string, members: seq<Member>)
    requires key != "global" && ':' !in key
    ensures GlobalCount !in TeamKeyList(key, members)
    ensures forall u, j :: MemberActive(u, j) !in TeamKeyList(key, members)
    ensures forall u :: u != key && ':' !in u ==>
      LastAssigned(u) !in TeamKeyList(key, members) && TotalCount(u) !in TeamKeyList(key, members)
    ensures forall u, j :: u != key && ':' !in u ==> MemberCount(u, j) !in TeamKeyList(key, members)
  {
    GlobalNotListed(key, members);
    forall u, j ensures MemberActive(u, j) !in TeamKeyList(key, members) {
      OverrideNotListed(key, members, u, j);
    }
    forall u | u != key && ':' !in u
      ensures LastAssigned(u) !in TeamKeyList(key, members) && TotalCount(u) !in TeamKeyList(key, members)
    {
      OtherTeamCountersNotListed(key, members, u);
    }
    forall u, j | u != key && ':' !in u
      ensures MemberCount(u, j) !in TeamKeyList(key, members)
    {
      OtherTeamMemberNotListed(key, members, u, j);
    }
  }

  lemma GlobalNotListed(key: string, members: seq<Member>)
    requires key != "global"
    ensures GlobalCount !in TeamKeyList(key, members)
  {
    var list := TeamKeyList(key, members);
    TotalCountIsGlobal(key);
    forall i | 0 <= i < |list| ensures list[i] != GlobalCount {
      if i == 0 {
        FamiliesDisjoint(key, key, "", "");
      } else if i >= 2 {
        FamiliesDisjoint(key, key, members[i - 2].id, "");
      }
    }
  }

  lemma OverrideNotListed(key: string, members: seq<Member>, u: string, j: string)
    ensures MemberActive(u, j) !in TeamKeyList(key, members)
  {
    var list := TeamKeyList(key, members);
    forall i | 0 <= i < |list| ensures list[i] != MemberActive(u, j) {
      if i < 2 {
        FamiliesDisjoint(key, u, "", j);
      } else {
        FamiliesDisjoint(key, u, members[i - 2].id, j);
      }
    }
  }

  lemma OtherTeamCountersNotListed(key: string, members: seq<Member>, u: string)
    requires u != key
    ensures LastAssigned(u) !in TeamKeyList(key, members)
    ensures TotalCount(u) !in TeamKeyList(key, members)
  {
    var list := TeamKeyList(key, members);
    forall i | 0 <= i < |list|
      ensures list[i] != LastAssigned(u) && list[i] != TotalCount(u)
    {
      if i == 0 {
        PrefixedInjective(key, u);
        FamiliesDisjoint(key, u, "", "");
      } else if i == 1 {
        PrefixedInjective(key, u);
        FamiliesDisjoint(u, key, "", "");
      } else {
        assert list[i] == MemberCount(key, members[i - 2].id);
        FamiliesDisjoint(u, key, "", members[i - 2].id);
      }
    }
  }

  lemma OtherTeamMemberNotListed(key: string, members: seq<Member>, u: string, j: string)
    requires ':' !in key && ':' !in u && u != key
    ensures MemberCount(u, j) !in TeamKeyList(key, members)
  {
    var list := TeamKeyList(key, members);
    forall i | 0 <= i < |list| ensures list[i] != MemberCount(u, j) {
      if i < 2 {
        FamiliesDisjoint(key, u, j, j);
      } else {
        assert list[i] == MemberCount(key, members[i - 2].id);
        MemberKeysInjective(key, members[i - 2].id, u, j);
      }
    }
  }

  /** A deletion pass reports at most as many deleted keys as it lists. */
  lemma DeletedAtMostListed(list: seq<string>, data: Data)
    ensures |KeySet(list) * data.Keys| <= |list|
  {
    KeySetBound(list);
    SubsetCard(KeySet(list) * data.Keys, KeySet(list));
  }

  lemma SubsetCard(a: set<string>, b: set<string>)
    requires a <= b
    ensures |a| <= |b|
  {
    assert b == a + (b - a);
  }

  /** After a hard reset the next assignment for that team starts from the first
      active member: the pointer is gone. */
  lemma HardResetRestartsRotation(catalog: Catalog, data: Data, teamKey: Option<Value>, confirm: Option<Value>,
                                  active: seq<Member>)
    requires |active| > 0
    ensures var (r, after) := HardResetTransition(catalog, data, teamKey, confirm);
      r.HardResetDone? ==> NextIndex(active, Lookup(after, LastAssigned(ToStr(teamKey.value)))) == 0
  {
  }

  /** Repeating a hard reset changes nothing more and reports zero deleted keys. */
  lemma HardResetIdempotent(catalog: Catalog, data: Data, teamKey: Option<Value>, confirm: Option<Value>)
    ensures var (r, after) := HardResetTransition(catalog, data, teamKey, confirm);
      var (r2, after2) := HardResetTransition(catalog, after, teamKey, confirm);
      r.HardResetDone? ==> after2 == after && r2.HardResetDone? && r2.deletedKeys == 0
  {
    var first := HardResetTransition(catalog, data, teamKey, confirm);
    if first.0.HardResetDone? {
      var keys := KeySet(TeamKeyList(ToStr(teamKey.value), Resolve(catalog, ToStr(teamKey.value)).team.members));
      assert first.1 == data - keys;
      DeleteAgain(data, keys);
    }
  }

  /** Deleting the same keys twice: the second pass finds none and changes nothing. */
  lemma DeleteAgain(data: Data, keys: set<string>)
    ensures (data - keys) - keys == data - keys
    ensures |keys * (data - keys).Keys| == 0
  {
    assert keys * (data - keys).Keys == {};
  }
}
