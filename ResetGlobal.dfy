/** api/reset-global.js: delete the statistics of every team of the shared
    catalog and the global counter, keeping the availability overrides. */
module ResetGlobal {
  import opened Js
  import opened Keys
  import opened Store
  import opened TeamsConfig
  import opened HardReset

  /** The confirmation phrase the request must carry. */
  const EverythingConfirmation: string := "RESET_EVERYTHING"

  /** One entry of the response's `summary` object. */
  datatype TeamSummary = TeamSummary(key: string, name: string, keysDeleted: nat, members: nat)

  datatype GlobalResetResult =
    | GlobalResetDone(deletedKeys: nat, teamsAffected: nat, summary: seq<TeamSummary>)
    | GlobalConfirmationRequired  // status 400

  /** The per-team key lists of a catalog, concatenated in catalog order. */
  function AllTeamKeys(catalog: Catalog): seq<string>
  {
    if catalog == [] then []
    else
      var t := catalog[|catalog| - 1];
      AllTeamKeys(catalog[..|catalog| - 1]) + TeamKeyList(t.key, t.members)
  }

  /** Everything a global reset deletes: every team's list, then the global counter. */
  function AllKeys(catalog: Catalog): seq<string>
  {
    AllTeamKeys(catalog) + [GlobalCount]
  }

  /** The summary entries, one per team in catalog order, each counting the keys
      listed for that team and its members. */
  function Summaries(catalog: Catalog): (s: seq<TeamSummary>)
    ensures |s| == |catalog|
    ensures forall i :: 0 <= i < |catalog| ==>
      s[i] == TeamSummary(catalog[i].key, catalog[i].name, |TeamKeyList(catalog[i].key, catalog[i].members)|,
                          |catalog[i].members|)
  {
    if catalog == [] then []
    else
      var t := catalog[|catalog| - 1];
      Summaries(catalog[..|catalog| - 1]) + [TeamSummary(t.key, t.name, |TeamKeyList(t.key, t.members)|, |t.members|)]
  }

  function GlobalResetTransition(catalog: Catalog, data: Data, confirm: Option<Value>): (GlobalResetResult, Data)
  {
    if confirm != Some(Str(EverythingConfirmation)) then (GlobalConfirmationRequired, data)
    else
      var keys := KeySet(AllKeys(catalog));
      (GlobalResetDone(|keys * data.Keys|, |catalog|, Summaries(catalog)), data - keys)
  }

  method Handle(kv: Kv, confirm: Option<Value>) returns (r: GlobalResetResult)
    modifies kv
    ensures (r, kv.data) == GlobalResetTransition(Teams, old(kv.data), confirm)
  {
    if confirm != Some(Str(EverythingConfirmation)) {
      return GlobalConfirmationRequired;
    }
    var keysToDelete, summary := CollectAll(Teams);
    keysToDelete := keysToDelete + [GlobalCount];
    var deletedCount := DeleteAll(kv, keysToDelete);
    r := GlobalResetDone(deletedCount, |Teams|, summary);
  }

  /** The handler's loop over the catalog's entries: gather each team's key list
      and its summary entry. */
  method CollectAll(catalog: Catalog) returns (keysToDelete: seq<string>, summary: seq<TeamSummary>)
    ensures keysToDelete == AllTeamKeys(catalog)
    ensures summary == Summaries(catalog)
  {
    keysToDelete := [];
    summary := [];
    var i := 0;
    while i < |catalog|
      invariant 0 <= i <= |catalog|
      invariant keysToDelete == AllTeamKeys(catalog[..i])
      invariant summary == Summaries(catalog[..i])
    {
      var team := catalog[i];
      var teamKeys := CollectTeamKeys(team.key, team.members);
      keysToDelete := keysToDelete + teamKeys;
      summary := summary + [TeamSummary(team.key, team.name, |teamKeys|, |team.members|)];
      PrefixSnoc(catalog, i + 1);
      i := i + 1;
    }
    assert catalog[..i] == catalog;
  }

  /** Extending the prefix of teams by one appends that team's keys and summary. */
  lemma PrefixSnoc(catalog: Catalog, i: nat)
    requires 0 < i <= |catalog|
    ensures AllTeamKeys(catalog[..i]) == AllTeamKeys(catalog[..i - 1]) + TeamKeyList(catalog[i - 1].key, catalog[i - 1].members)
    ensures Summaries(catalog[..i]) == Summaries(catalog[..i - 1]) +
      [TeamSummary(catalog[i - 1].key, catalog[i - 1].name, |TeamKeyList(catalog[i - 1].key, catalog[i - 1].members)|,
                   |catalog[i - 1].members|)]
  {
    assert catalog[..i][..i - 1] == catalog[..i - 1];
  }

  /** A key is listed for the catalog exactly when it is listed for one of its teams. */
  lemma {:induction false} AllTeamKeysMember(catalog: Catalog, k: string)
    ensures k in AllTeamKeys(catalog) <==> exists t :: t in catalog && k in TeamKeyList(t.key, t.members)
    decreases |catalog|
  {
    if catalog != [] {
      var init := catalog[..|catalog| - 1];
      var last := catalog[|catalog| - 1];
      AllTeamKeysMember(init, k);
      assert catalog == init + [last];
      if exists t :: t in catalog && k in TeamKeyList(t.key, t.members) {
        var t :| t in catalog && k in TeamKeyList(t.key, t.members);
        if t != last {
          assert t in init;
        }
      }
    }
  }

  /** The number of keys listed for a catalog's teams: 2 + |members| per team. */
  function SumKeys(catalog: Catalog): nat
  {
    if catalog == [] then 0
    else SumKeys(catalog[..|catalog| - 1]) + 2 + |catalog[|catalog| - 1].members|
  }

  /** The team lists together hold exactly SumKeys keys. */
  lemma {:induction false} AllTeamKeysCount(catalog: Catalog)
    ensures |AllTeamKeys(catalog)| == SumKeys(catalog)
    decreases |catalog|
  {
    if catalog != [] {
      var last := catalog[|catalog| - 1];
      AllTeamKeysCount(catalog[..|catalog| - 1]);
      assert |TeamKeyList(last.key, last.members)| == 2 + |last.members|;
    }
  }

  /** The `totalKeys` count: every team's 2 + |members| keys, plus the global counter. */
  lemma AllKeysLength(catalog: Catalog)
    ensures |AllKeys(catalog)| == SumKeys(catalog) + 1
  {
    AllTeamKeysCount(catalog);
  }

  /** When every team has n members, the sum is (2 + n) per team. */
  lemma {:induction false} SumKeysUniform(catalog: Catalog, n: nat)
    requires forall i :: 0 <= i < |catalog| ==> |catalog[i].members| == n
    ensures SumKeys(catalog) == |catalog| * (2 + n)
    decreases |catalog|
  {
    if catalog != [] {
      SumKeysUniform(catalog[..|catalog| - 1], n);
      MulSucc(|catalog| - 1, 2 + n);
    }
  }

  lemma MulSucc(a: nat, b: nat)
    ensures (a + 1) * b == a * b + b
  {
  }

  /** When every team has n members, every summary entry counts 2 + n keys. */
  lemma UniformSummaries(catalog: Catalog, n: nat)
    requires forall i :: 0 <= i < |catalog| ==> |catalog[i].members| == n
    ensures forall s :: s in Summaries(catalog) ==> s.keysDeleted == 2 + n && s.members == n
  {
    forall s | s in Summaries(catalog) ensures s.keysDeleted == 2 + n && s.members == n {
      var i :| 0 <= i < |catalog| && Summaries(catalog)[i] == s;
      assert |TeamKeyList(catalog[i].key, catalog[i].members)| == 2 + n;
    }
  }

  /** Without the exact confirmation string nothing is deleted. */
  lemma GlobalRejectionDeletesNothing(catalog: Catalog, data: Data, confirm: Option<Value>)
    ensures var (r, after) := GlobalResetTransition(catalog, data, confirm);
      (r == GlobalConfirmationRequired <==> confirm != Some(Str("RESET_EVERYTHING")))
      && (r == GlobalConfirmationRequired ==> after == data)
  {
  }

  /** A global reset removes every team's pointer, counter and member counters
      and the global counter, and keeps every override with its value. */
  lemma GlobalResetEffect(catalog: Catalog, data: Data, confirm: Option<Value>)
    ensures var (r, after) := GlobalResetTransition(catalog, data, confirm);
      r.GlobalResetDone? ==>
        && GlobalCount !in after
        && (forall t :: t in catalog ==> LastAssigned(t.key) !in after && TotalCount(t.key) !in after)
        && (forall t, m :: t in catalog && m in t.members ==> MemberCount(t.key, m.id) !in after)
        && (forall u, j :: MemberActive(u, j) in data ==>
              MemberActive(u, j) in after && after[MemberActive(u, j)] == data[MemberActive(u, j)])
        && r.teamsAffected == |catalog|
  {
    var (r, after) := GlobalResetTransition(catalog, data, confirm);
    if r.GlobalResetDone? {
      forall t | t in catalog
        ensures LastAssigned(t.key) in AllTeamKeys(catalog) && TotalCount(t.key) in AllTeamKeys(catalog)
      {
        TeamKeyListContents(t.key, t.members);
        AllTeamKeysMember(catalog, LastAssigned(t.key));
        AllTeamKeysMember(catalog, TotalCount(t.key));
      }
      forall t, m | t in catalog && m in t.members ensures MemberCount(t.key, m.id) in AllTeamKeys(catalog) {
        TeamKeyListContents(t.key, t.members);
        AllTeamKeysMember(catalog, MemberCount(t.key, m.id));
      }
      forall u, j ensures MemberActive(u, j) !in AllKeys(catalog) {
        AllTeamKeysMember(catalog, MemberActive(u, j));
        forall t | t in catalog ensures MemberActive(u, j) !in TeamKeyList(t.key, t.members) {
          OverrideNotListed(t.key, t.members, u, j);
        }
        FamiliesDisjoint(u, u, j, j);
      }
    }
  }

  /** The shared catalog: 4 teams of 7 members, so 4 * 9 + 1 = 37 keys are listed,
      each summary entry counts 9 keys, and at most 37 keys are reported deleted. */
  lemma SharedCatalogGlobalReset(data: Data, confirm: Option<Value>)
    ensures |AllKeys(Teams)| == 37
    ensures forall s :: s in Summaries(Teams) ==> s.keysDeleted == 9 && s.members == 7
    ensures var (r, _) := GlobalResetTransition(Teams, data, confirm);
      r.GlobalResetDone? ==> r.deletedKeys <= 37 && r.teamsAffected == 4
  {
    SharedCatalogKeyCount();
    SharedCatalogSummaries();
    DeletedAtMostListed(AllKeys(Teams), data);
  }

  lemma SharedCatalogKeyCount()
    ensures |AllKeys(Teams)| == 37
  {
    SevenMembersEach();
    AllKeysLength(Teams);
    SumKeysUniform(Teams, 7);
  }

  lemma SharedCatalogSummaries()
    ensures forall s :: s in Summaries(Teams) ==> s.keysDeleted == 9 && s.members == 7
  {
    SevenMembersEach();
    UniformSummaries(Teams, 7);
  }

  lemma SevenMembersEach()
    ensures forall i :: 0 <= i < |Teams| ==> |Teams[i].members| == 7
  {
  }

  /** Repeating a global reset changes nothing more and reports zero deleted keys. */
  lemma GlobalResetIdempotent(catalog: Catalog, data: Data, confirm: Option<Value>)
    ensures var (r, after) := GlobalResetTransition(catalog, data, confirm);
      var (r2, after2) := GlobalResetTransition(catalog, after, confirm);
      r.GlobalResetDone? ==> after2 == after && r2.GlobalResetDone? && r2.deletedKeys == 0
  {
    var first := GlobalResetTransition(catalog, data, confirm);
    if first.0.GlobalResetDone? {
      var keys := KeySet(AllKeys(catalog));
      assert first.1 == data - keys;
      DeleteAgain(data, keys);
    }
  }
}
