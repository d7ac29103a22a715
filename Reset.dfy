/** api/reset.js: restart one team's rotation by deleting its pointer and its
    counter. Any truthy team key is accepted; the catalog is not consulted. */
module Reset {
  import opened Js
  import opened Keys
  import opened Store
  import opened TeamsConfig
  import opened Rotation

  datatype ResetResult =
    | ResetDone(team: Value)  // `team` echoes the request value
    | ResetMissingTeam        // status 400

  function ResetTransition(data: Data, teamKey: Option<Value>): (ResetResult, Data)
  {
    if !Truthy(teamKey) then (ResetMissingTeam, data)
    else
      var key := ToStr(teamKey.value);
      (ResetDone(teamKey.value), data - {LastAssigned(key), TotalCount(key)})
  }

  method Handle(kv: Kv, teamKey: Option<Value>) returns (r: ResetResult)
    modifies kv
    ensures (r, kv.data) == ResetTransition(old(kv.data), teamKey)
  {
    if !Truthy(teamKey) {
      return ResetMissingTeam;
    }
    var key := ToStr(teamKey.value);
    ghost var before := kv.data;
    var _ := kv.Del(LastAssigned(key));
    var _ := kv.Del(TotalCount(key));
    assert kv.data == before - {LastAssigned(key), TotalCount(key)};
    r := ResetDone(teamKey.value);
  }

  /** A missing team is rejected and nothing changes; otherwise the team's
      pointer and counter are gone, the next assignment restarts at the first
      active member, and every other key keeps its value. The global counter
      is kept unless the team key is "global" itself, whose counter key it is. */
  lemma ResetEffect(data: Data, teamKey: Option<Value>, active: seq<Member>)
    requires |active| > 0
    ensures var (r, after) := ResetTransition(data, teamKey);
      && (r == ResetMissingTeam <==> !Truthy(teamKey))
      && (r == ResetMissingTeam ==> after == data)
      && (r.ResetDone? ==>
            var key := ToStr(teamKey.value);
            && LastAssigned(key) !in after && TotalCount(key) !in after
            && NextIndex(active, Lookup(after, LastAssigned(key))) == 0
            && (forall k :: k in data && k != LastAssigned(key) && k != TotalCount(key) ==>
                  k in after && after[k] == data[k])
            && (GlobalCount in data ==> (GlobalCount in after <==> key != "global")))
  {
    var (r, after) := ResetTransition(data, teamKey);
    if r.ResetDone? {
      var key := ToStr(teamKey.value);
      TotalCountIsGlobal(key);
      FamiliesDisjoint(key, key, "", "");
    }
  }

  /** Member counters and overrides survive a reset. */
  lemma ResetKeepsMemberKeys(data: Data, teamKey: Option<Value>, u: string, j: string)
    ensures var (_, after) := ResetTransition(data, teamKey);
      && (MemberCount(u, j) in data ==> MemberCount(u, j) in after && after[MemberCount(u, j)] == data[MemberCount(u, j)])
      && (MemberActive(u, j) in data ==> MemberActive(u, j) in after && after[MemberActive(u, j)] == data[MemberActive(u, j)])
  {
    if Truthy(teamKey) {
      var key := ToStr(teamKey.value);
      FamiliesDisjoint(key, key, j, j);
      FamiliesDisjoint(key, u, j, j);
    }
  }

  /** Resetting twice is the same as resetting once. */
  lemma ResetIdempotent(data: Data, teamKey: Option<Value>)
    ensures ResetTransition(ResetTransition(data, teamKey).1, teamKey) == ResetTransition(data, teamKey)
  {
    var after := ResetTransition(data, teamKey).1;
    if Truthy(teamKey) {
      var key := ToStr(teamKey.value);
      assert after - {LastAssigned(key), TotalCount(key)} == after;
    }
  }
}
