/** The store's key scheme. Every key is a fixed prefix followed by a team key and,
    for per-member keys, a ':' and a member id. */
module Keys {

  function LastAssigned(team: string): string { "last-assigned:" + team }

  function TotalCount(team: string): string { "total-count:" + team }

  const GlobalCount: string := "total-count:global"

  function MemberCount(team: string, id: string): string { "member-count:" + team + ":" + id }

  function MemberActive(team: string, id: string): string { "member-active:" + team + ":" + id }

  /** If two strings are each a separator-free head, the separator and a tail, and
      they are equal, then the heads and the tails are equal. */
  lemma SplitAtSeparator(a: string, b: string, c: string, d: string, sep: char)
    requires sep !in a && sep !in c
    requires a + [sep] + b == c + [sep] + d
    ensures a == c && b == d
  {
    var x := a + [sep] + b;
    assert forall k :: 0 <= k < |c| ==> x[k] == c[k] != sep;
    assert forall k :: 0 <= k < |a| ==> x[k] == a[k] != sep;
    assert x[|a|] == sep && x[|c|] == sep;
    assert |a| == |c|;
    assert a == x[..|a|] == c;
    assert b == x[|a| + 1..] == d;
  }

  /** The four key families never share a key: they differ in their prefixes. */
  lemma FamiliesDisjoint(t: string, u: string, i: string, j: string)
    ensures LastAssigned(t) != TotalCount(u)
    ensures LastAssigned(t) != MemberCount(u, j)
    ensures LastAssigned(t) != MemberActive(u, j)
    ensures TotalCount(t) != MemberCount(u, j)
    ensures TotalCount(t) != MemberActive(u, j)
    ensures MemberCount(t, i) != MemberActive(u, j)
    ensures MemberActive(t, i) != GlobalCount && MemberCount(t, i) != GlobalCount
    ensures LastAssigned(t) != GlobalCount
  {
    assert LastAssigned(t)[0] == 'l';
    assert TotalCount(u)[0] == 't';
    assert MemberCount(u, j)[0] == 'm' && MemberCount(u, j)[7] == 'c';
    assert MemberActive(u, j)[0] == 'm' && MemberActive(u, j)[7] == 'a';
    assert MemberCount(t, i)[7] == 'c';
    assert MemberActive(t, i)[0] == 'm' && MemberCount(t, i)[0] == 'm';
    assert GlobalCount[0] == 't';
  }

  /** A team's counter key is the global counter key exactly for the team key "global". */
  lemma TotalCountIsGlobal(t: string)
    ensures TotalCount(t) == GlobalCount <==> t == "global"
  {
    if TotalCount(t) == GlobalCount {
      assert t == TotalCount(t)[12..] == GlobalCount[12..];
    }
  }

  lemma PrefixedInjective(t: string, u: string)
    ensures LastAssigned(t) == LastAssigned(u) ==> t == u
    ensures TotalCount(t) == TotalCount(u) ==> t == u
  {
    if LastAssigned(t) == LastAssigned(u) {
      assert t == LastAssigned(t)[14..] == LastAssigned(u)[14..] == u;
    }
    if TotalCount(t) == TotalCount(u) {
      assert t == TotalCount(t)[12..] == TotalCount(u)[12..] == u;
    }
  }

  /** For team keys without ':', per-member keys determine their team and member. */
  lemma MemberKeysInjective(t: string, i: string, u: string, j: string)
    requires ':' !in t && ':' !in u
    ensures MemberCount(t, i) == MemberCount(u, j) ==> t == u && i == j
    ensures MemberActive(t, i) == MemberActive(u, j) ==> t == u && i == j
  {
    if MemberCount(t, i) == MemberCount(u, j) {
      var x := MemberCount(t, i);
      assert x[13..] == t + [':'] + i;
      assert MemberCount(u, j)[13..] == u + [':'] + j;
      SplitAtSeparator(t, i, u, j, ':');
    }
    if MemberActive(t, i) == MemberActive(u, j) {
      var x := MemberActive(t, i);
      assert x[14..] == t + [':'] + i;
      assert MemberActive(u, j)[14..] == u + [':'] + j;
      SplitAtSeparator(t, i, u, j, ':');
    }
  }
}
