/** api/stats.js: read-only statistics over the shared catalog: the global
    counter, a per-team breakdown, and the members ranked by assigned leads. */
module Stats {
  import opened Js
  import opened Keys
  import opened Store
  import opened TeamsConfig

  /** A team's share of the global total: `ZeroPercent` is the `'0.0'` literal
      branch; `Ratio` is the one-decimal rendering of teamTotal / globalTotal * 100,
      kept symbolic (it too can render as "0.0", for a zero or tiny share). */
  datatype Percentage = ZeroPercent | Ratio(teamTotal: int, globalTotal: int)

  datatype TeamStat = TeamStat(name: string, totalAssignments: int, percentage: Percentage)

  datatype MemberStat = MemberStat(name: string, id: string, team: string, teamKey: string,
                                   assignedLeads: int, active: bool)

  datatype GlobalStat = GlobalStat(totalAssignments: int, totalTeams: nat, totalMembers: nat, activeMembers: nat)

  datatype StatsReport = StatsReport(global: GlobalStat, teamBreakdown: map<string, TeamStat>,
                                     topPerformers: seq<MemberStat>, allMembers: seq<MemberStat>)

  /** How many entries `topPerformers` keeps. */
  const TopCount: nat := 10

  /** The `'0.0'` literal branch is taken exactly when the global total is not positive. */
  function PercentageOf(teamTotal: int, globalTotal: int): (p: Percentage)
    ensures p == ZeroPercent <==> globalTotal <= 0
  {
    if globalTotal > 0 then Ratio(teamTotal, globalTotal) else ZeroPercent
  }

  /** A team without leads under a positive global total takes the ratio branch,
      which renders "0.0" as well: the literal branch is not the only "0.0". */
  lemma ZeroShareTakesRatio(globalTotal: int)
    requires globalTotal > 0
    ensures PercentageOf(0, globalTotal) == Ratio(0, globalTotal)
    ensures PercentageOf(0, globalTotal) != ZeroPercent
  {
  }

  function TeamStatOf(t: Team, data: Data, globalTotal: int): TeamStat
  {
    var teamTotal := NumberOrZero(Lookup(data, TotalCount(t.key)));
    TeamStat(t.name, teamTotal, PercentageOf(teamTotal, globalTotal))
  }

  /** The `teamBreakdown` object. */
  function Breakdown(catalog: Catalog, data: Data, globalTotal: int): map<string, TeamStat>
  {
    if catalog == [] then map[]
    else
      var t := catalog[|catalog| - 1];
      Breakdown(catalog[..|catalog| - 1], data, globalTotal)[t.key := TeamStatOf(t, data, globalTotal)]
  }

  function MemberStatOf(t: Team, m: Member, data: Data): MemberStat
  {
    MemberStat(m.name, m.id, t.name, t.key, NumberOrZero(Lookup(data, MemberCount(t.key, m.id))), m.active)
  }

  /** The entries pushed for the first members of team t: those whose count is positive. */
  function TeamCollected(t: Team, members: seq<Member>, data: Data): seq<MemberStat>
  {
    if members == [] then []
    else
      var m := members[|members| - 1];
      var s := MemberStatOf(t, m, data);
      TeamCollected(t, members[..|members| - 1], data) + (if s.assignedLeads > 0 then [s] else [])
  }

  /** `allMembers` before sorting: team after team, member after member. */
  function Collected(catalog: Catalog, data: Data): seq<MemberStat>
  {
    if catalog == [] then []
    else
      var t := catalog[|catalog| - 1];
      Collected(catalog[..|catalog| - 1], data) + TeamCollected(t, t.members, data)
  }

  // ---------------------------------------------------------------------------
  // The sort: `allMembers.sort((a, b) => b.assignedLeads - a.assignedLeads)`,
  // a stable sort (ECMAScript 2019 onwards) by descending `assignedLeads`.

  predicate SortedDesc(s: seq<MemberStat>)
  {
    forall i, j :: 0 <= i < j < |s| ==> s[i].assignedLeads >= s[j].assignedLeads
  }

  /** x goes before the first entry it does not rank below, which keeps entries
      with equal leads in their original order when x came first. */
  function Insert(x: MemberStat, s: seq<MemberStat>): seq<MemberStat>
  {
    if s == [] || x.assignedLeads >= s[0].assignedLeads then [x] + s
    else [s[0]] + Insert(x, s[1..])
  }

  function SortDesc(s: seq<MemberStat>): seq<MemberStat>
  {
    if s == [] then [] else Insert(s[0], SortDesc(s[1..]))
  }

  /** The entries with exactly `leads` assigned leads, in order. */
  function WithLeads(s: seq<MemberStat>, leads: int): seq<MemberStat>
  {
    if s == [] then []
    else (if s[0].assignedLeads == leads then [s[0]] else []) + WithLeads(s[1..], leads)
  }

  lemma {:induction false} InsertSorted(x: MemberStat, s: seq<MemberStat>)
    requires SortedDesc(s)
    ensures SortedDesc(Insert(x, s))
    decreases |s|
  {
    if s != [] && x.assignedLeads < s[0].assignedLeads {
      var rest := s[1..];
      assert SortedDesc(rest) by {
        forall i, j | 0 <= i < j < |rest| ensures rest[i].assignedLeads >= rest[j].assignedLeads {
          assert rest[i] == s[i + 1] && rest[j] == s[j + 1];
        }
      }
      InsertSorted(x, rest);
      InsertAtMost(x, rest, s[0].assignedLeads);
      var r := Insert(x, rest);
      assert Insert(x, s) == [s[0]] + r;
    } else {
      forall i, j | 0 <= i < j < |[x] + s|
        ensures ([x] + s)[i].assignedLeads >= ([x] + s)[j].assignedLeads
      {
        assert ([x] + s)[j] == s[j - 1];
        if i > 0 {
          assert ([x] + s)[i] == s[i - 1];
        } else if j > 1 {
          assert s[0].assignedLeads >= s[j - 1].assignedLeads;
        }
      }
    }
  }

  /** Inserting an entry ranked at most `bound` into entries ranked at most `bound`
      keeps every entry at most `bound`. */
  lemma {:induction false} InsertAtMost(x: MemberStat, s: seq<MemberStat>, bound: int)
    requires x.assignedLeads <= bound
    requires forall i :: 0 <= i < |s| ==> s[i].assignedLeads <= bound
    ensures forall i :: 0 <= i < |Insert(x, s)| ==> Insert(x, s)[i].assignedLeads <= bound
    decreases |s|
  {
    if s != [] && x.assignedLeads < s[0].assignedLeads {
      var rest := s[1..];
      assert forall i :: 0 <= i < |rest| ==> rest[i] == s[i + 1];
      InsertAtMost(x, rest, bound);
      assert Insert(x, s) == [s[0]] + Insert(x, rest);
    } else {
      assert forall i :: 1 <= i < |[x] + s| ==> ([x] + s)[i] == s[i - 1];
    }
  }

  lemma {:induction false} InsertPermutes(x: MemberStat, s: seq<MemberStat>)
    ensures multiset(Insert(x, s)) == multiset{x} + multiset(s)
    decreases |s|
  {
    if s != [] && x.assignedLeads < s[0].assignedLeads {
      InsertPermutes(x, s[1..]);
      assert s == [s[0]] + s[1..];
    }
  }

  lemma {:induction false} InsertStable(x: MemberStat, s: seq<MemberStat>, leads: int)
    ensures WithLeads(Insert(x, s), leads) == (if x.assignedLeads == leads then [x] else []) + WithLeads(s, leads)
    decreases |s|
  {
    if s != [] && x.assignedLeads < s[0].assignedLeads {
      var r := Insert(x, s[1..]);
      InsertStable(x, s[1..], leads);
      assert Insert(x, s) == [s[0]] + r;
      assert ([s[0]] + r)[1..] == r;
      if s[0].assignedLeads == leads {
        assert x.assignedLeads != leads;
      }
    } else {
      assert ([x] + s)[1..] == s;
    }
  }

  /** The sort orders by descending leads, is a permutation, and is stable:
      the entries with any given number of leads keep their relative order. */
  lemma {:induction false} SortDescCorrect(s: seq<MemberStat>)
    ensures SortedDesc(SortDesc(s))
    ensures multiset(SortDesc(s)) == multiset(s)
    ensures forall leads :: WithLeads(SortDesc(s), leads) == WithLeads(s, leads)
    decreases |s|
  {
    if s != [] {
      SortDescCorrect(s[1..]);
      InsertSorted(s[0], SortDesc(s[1..]));
      InsertPermutes(s[0], SortDesc(s[1..]));
      assert s == [s[0]] + s[1..];
      forall leads ensures WithLeads(SortDesc(s), leads) == WithLeads(s, leads) {
        InsertStable(s[0], SortDesc(s[1..]), leads);
      }
    }
  }

  // ---------------------------------------------------------------------------
  // Totals: `Object.values(TEAMS).reduce(...)`

  function TotalMembers(catalog: Catalog): nat
  {
    if catalog == [] then 0 else |catalog[0].members| + TotalMembers(catalog[1..])
  }

  function TotalActive(catalog: Catalog): nat
  {
    if catalog == [] then 0 else |ActiveMembers(catalog[0].members)| + TotalActive(catalog[1..])
  }

  /** There are never more active members than members. */
  lemma {:induction false} ActiveAtMostMembers(catalog: Catalog)
    ensures TotalActive(catalog) <= TotalMembers(catalog)
    decreases |catalog|
  {
    if catalog != [] {
      ActiveAtMostMembers(catalog[1..]);
    }
  }

  /** The shared catalog: 4 teams, 28 members, 14 of them active. */
  lemma SharedCatalogTotals()
    ensures TotalMembers(Teams) == 28 && TotalActive(Teams) == 14
  {
    SharedCatalogMembers();
    SharedCatalogActive();
  }

  lemma SharedCatalogMembers()
    ensures TotalMembers(Teams) == 28
  {
    FourTeams(Team499, Team500, Team6000, TeamUnknown);
  }

  lemma SharedCatalogActive()
    ensures TotalActive(Teams) == 14
  {
    FourTeams(Team499, Team500, Team6000, TeamUnknown);
    Roster499();
    Roster500();
    Roster6000();
    RosterUnknown();
  }

  lemma TotalsCons(t: Team, rest: Catalog)
    ensures TotalMembers([t] + rest) == |t.members| + TotalMembers(rest)
    ensures TotalActive([t] + rest) == |ActiveMembers(t.members)| + TotalActive(rest)
  {
    assert ([t] + rest)[1..] == rest;
  }

  /** The totals of a four-team catalog, team by team. */
  lemma FourTeams(a: Team, b: Team, c: Team, d: Team)
    ensures TotalMembers([a, b, c, d]) == |a.members| + |b.members| + |c.members| + |d.members|
    ensures TotalActive([a, b, c, d]) == |ActiveMembers(a.members)| + |ActiveMembers(b.members)|
                                       + |ActiveMembers(c.members)| + |ActiveMembers(d.members)|
  {
    TotalsCons(d, []);
    TotalsCons(c, [d]);
    TotalsCons(b, [c, d]);
    TotalsCons(a, [b, c, d]);
    assert [a] + [b, c, d] == [a, b, c, d] && [b] + [c, d] == [b, c, d] && [c] + [d] == [c, d] && [d] + [] == [d];
  }

  // ---------------------------------------------------------------------------
  // The report

  function Report(catalog: Catalog, data: Data): StatsReport
  {
    var globalTotal := NumberOrZero(Lookup(data, GlobalCount));
    var all := SortDesc(Collected(catalog, data));
    StatsReport(
      GlobalStat(globalTotal, |catalog|, TotalMembers(catalog), TotalActive(catalog)),
      Breakdown(catalog, data, globalTotal),
      all[..if |all| < TopCount then |all| else TopCount],
      all)
  }

  /** The handler; it reads the store only (it has no `modifies`). */
  method Handle(kv: Kv) returns (report: StatsReport)
    ensures report == Report(Teams, kv.data)
  {
    var globalCount := kv.Get(GlobalCount);
    var globalTotal := NumberOrZero(globalCount);
    var teamBreakdown := CollectBreakdown(kv, Teams, globalTotal);
    var allMembers := CollectMembers(kv, Teams);
    allMembers := SortDesc(allMembers);
    var top := if |allMembers| < TopCount then |allMembers| else TopCount;
    report := StatsReport(
      GlobalStat(globalTotal, |Teams|, TotalMembers(Teams), TotalActive(Teams)),
      teamBreakdown, allMembers[..top], allMembers);
  }

  /** The per-team loop. */
  method CollectBreakdown(kv: Kv, catalog: Catalog, globalTotal: int) returns (teamBreakdown: map<string, TeamStat>)
    ensures teamBreakdown == Breakdown(catalog, kv.data, globalTotal)
  {
    teamBreakdown := map[];
    var i := 0;
    while i < |catalog|
      invariant 0 <= i <= |catalog|
      invariant teamBreakdown == Breakdown(catalog[..i], kv.data, globalTotal)
    {
      var teamCount := kv.Get(TotalCount(catalog[i].key));
      var teamTotal := NumberOrZero(teamCount);
      teamBreakdown := teamBreakdown[catalog[i].key :=
        TeamStat(catalog[i].name, teamTotal, if globalTotal > 0 then Ratio(teamTotal, globalTotal) else ZeroPercent)];
      assert catalog[..i + 1][..i] == catalog[..i];
      i := i + 1;
    }
    assert catalog[..i] == catalog;
  }

  /** The nested member loop, pushing every member with a positive count. */
  method CollectMembers(kv: Kv, catalog: Catalog) returns (allMembers: seq<MemberStat>)
    ensures allMembers == Collected(catalog, kv.data)
  {
    allMembers := [];
    var i := 0;
    while i < |catalog|
      invariant 0 <= i <= |catalog|
      invariant allMembers == Collected(catalog[..i], kv.data)
    {
      var found := CollectTeamMembers(kv, catalog[i]);
      allMembers := allMembers + found;
      assert catalog[..i + 1][..i] == catalog[..i];
      i := i + 1;
    }
    assert catalog[..i] == catalog;
  }

  /** The inner loop: the team's members with a positive count, in roster order. */
  method CollectTeamMembers(kv: Kv, team: Team) returns (found: seq<MemberStat>)
    ensures found == TeamCollected(team, team.members, kv.data)
  {
    found := [];
    var j := 0;
    while j < |team.members|
      invariant 0 <= j <= |team.members|
      invariant found == TeamCollected(team, team.members[..j], kv.data)
    {
      var member := team.members[j];
      var memberCount := kv.Get(MemberCount(team.key, member.id));
      var count := NumberOrZero(memberCount);
      assert team.members[..j + 1][..j] == team.members[..j];
      if count > 0 {
        found := found + [MemberStat(member.name, member.id, team.name, team.key, count, member.active)];
      }
      j := j + 1;
    }
    assert team.members[..j] == team.members;
  }

  // ---------------------------------------------------------------------------
  // Properties of the report

  /** `allMembers` holds exactly the catalog members with a positive count. */
  lemma {:induction false} CollectedExactly(catalog: Catalog, data: Data, s: MemberStat)
    ensures s in Collected(catalog, data) <==>
      exists t, m :: t in catalog && m in t.members && s == MemberStatOf(t, m, data) && s.assignedLeads > 0
    decreases |catalog|
  {
    if catalog != [] {
      var init := catalog[..|catalog| - 1];
      var t := catalog[|catalog| - 1];
      assert catalog == init + [t];
      CollectedExactly(init, data, s);
      TeamCollectedExactly(t, t.members, data, s);
      assert s in Collected(catalog, data) <==> s in Collected(init, data) || s in TeamCollected(t, t.members, data);
      if s in Collected(init, data) {
        var t', m :| t' in init && m in t'.members && s == MemberStatOf(t', m, data) && s.assignedLeads > 0;
        assert t' in catalog;
      }
      if exists t', m :: t' in catalog && m in t'.members && s == MemberStatOf(t', m, data) && s.assignedLeads > 0 {
        var t', m :| t' in catalog && m in t'.members && s == MemberStatOf(t', m, data) && s.assignedLeads > 0;
        if t' != t {
          assert t' in init;
        }
      }
    }
  }

  lemma {:induction false} TeamCollectedExactly(t: Team, members: seq<Member>, data: Data, s: MemberStat)
    ensures s in TeamCollected(t, members, data) <==>
      exists m :: m in members && s == MemberStatOf(t, m, data) && s.assignedLeads > 0
    decreases |members|
  {
    if members != [] {
      var init := members[..|members| - 1];
      TeamCollectedExactly(t, init, data, s);
      if exists m :: m in members && s == MemberStatOf(t, m, data) && s.assignedLeads > 0 {
        var m :| m in members && s == MemberStatOf(t, m, data) && s.assignedLeads > 0;
        if m != members[|members| - 1] {
          assert m in init;
        }
      }
    }
  }

  /** The ranking: `allMembers` is the collected list, sorted by descending leads,
      stably, as a permutation; `topPerformers` is its first min(10, n) entries, and
      none of the others has more leads than any top performer. */
  lemma Ranking(catalog: Catalog, data: Data)
    ensures var r := Report(catalog, data);
      && multiset(r.allMembers) == multiset(Collected(catalog, data))
      && SortedDesc(r.allMembers)
      && (forall leads :: WithLeads(r.allMembers, leads) == WithLeads(Collected(catalog, data), leads))
      && |r.topPerformers| == (if |r.allMembers| < 10 then |r.allMembers| else 10)
      && r.topPerformers == r.allMembers[..|r.topPerformers|]
      && (forall i, j :: 0 <= i < |r.topPerformers| <= j < |r.allMembers| ==>
            r.topPerformers[i].assignedLeads >= r.allMembers[j].assignedLeads)
  {
    SortDescCorrect(Collected(catalog, data));
  }

  /** Every ranked entry has at least one assigned lead. */
  lemma RankedHaveLeads(catalog: Catalog, data: Data)
    ensures forall s :: s in Report(catalog, data).allMembers ==> s.assignedLeads > 0
  {
    var c := Collected(catalog, data);
    SortDescCorrect(c);
    forall s | s in Report(catalog, data).allMembers ensures s.assignedLeads > 0 {
      assert s in multiset(c);
      CollectedExactly(catalog, data, s);
    }
  }

  /** Counters are read with `Number(v) || 0`: an absent global counter reports 0,
      a team whose counter is absent appears in the breakdown with 0, and a member
      whose counter is absent reads 0 and so is not ranked. */
  lemma AbsentCountersReadZero(catalog: Catalog, data: Data)
    ensures GlobalCount !in data ==> Report(catalog, data).global.totalAssignments == 0
    ensures forall t :: t in catalog && TotalCount(t.key) !in data ==>
      && t.key in Report(catalog, data).teamBreakdown
      && Report(catalog, data).teamBreakdown[t.key].totalAssignments == 0
    ensures forall t, m :: t in catalog && m in t.members && MemberCount(t.key, m.id) !in data ==>
      && MemberStatOf(t, m, data).assignedLeads == 0
      && MemberStatOf(t, m, data) !in Report(catalog, data).allMembers
  {
    var globalTotal := NumberOrZero(Lookup(data, GlobalCount));
    BreakdownKeys(catalog, data, globalTotal);
    BreakdownCounter(catalog, data, globalTotal);
    RankedHaveLeads(catalog, data);
  }

  /** Whichever team wins a key in the breakdown, the entry holds the counter of
      that key (absent read as 0). */
  lemma {:induction false} BreakdownCounter(catalog: Catalog, data: Data, globalTotal: int)
    ensures forall k :: k in Breakdown(catalog, data, globalTotal) ==>
      Breakdown(catalog, data, globalTotal)[k].totalAssignments == NumberOrZero(Lookup(data, TotalCount(k)))
    decreases |catalog|
  {
    if catalog != [] {
      BreakdownCounter(catalog[..|catalog| - 1], data, globalTotal);
    }
  }

  /** The breakdown has one entry per team of the catalog. */
  lemma {:induction false} BreakdownKeys(catalog: Catalog, data: Data, globalTotal: int)
    ensures Breakdown(catalog, data, globalTotal).Keys == set t | t in catalog :: t.key
    decreases |catalog|
  {
    if catalog != [] {
      var init := catalog[..|catalog| - 1];
      BreakdownKeys(init, data, globalTotal);
      assert catalog == init + [catalog[|catalog| - 1]];
    }
  }

  /** With distinct team keys, each team's entry holds its own counter (absent
      read as 0), and its percentage takes the `'0.0'` literal branch (ZeroPercent)
      exactly when the global total is not positive. */
  lemma {:induction false} BreakdownEntry(catalog: Catalog, data: Data, globalTotal: int, i: nat)
    requires forall a, b :: 0 <= a < b < |catalog| ==> catalog[a].key != catalog[b].key
    requires i < |catalog|
    ensures catalog[i].key in Breakdown(catalog, data, globalTotal)
    ensures Breakdown(catalog, data, globalTotal)[catalog[i].key].totalAssignments
         == NumberOrZero(Lookup(data, TotalCount(catalog[i].key)))
    ensures Breakdown(catalog, data, globalTotal)[catalog[i].key].percentage == ZeroPercent <==> globalTotal <= 0
    decreases |catalog|
  {
    if i < |catalog| - 1 {
      var init := catalog[..|catalog| - 1];
      assert init[i] == catalog[i];
      BreakdownEntry(init, data, globalTotal, i);
    }
  }

  /** The shared catalog's report counts 4 teams, 28 members and 14 active ones. */
  lemma SharedCatalogReport(data: Data)
    ensures Report(Teams, data).global.totalTeams == 4
    ensures Report(Teams, data).global.totalMembers == 28
    ensures Report(Teams, data).global.activeMembers == 14
  {
    SharedCatalogTotals();
  }
}
