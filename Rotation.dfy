/** The round-robin choice of api/assign.js: the index of the next owner among the
    active members, given the stored last-assigned pointer. */
module Rotation {
  import opened Js
  import opened TeamsConfig

  /** The next index: restart at 0 when there is no (truthy) pointer or the pointer
      matches no active member, compared as strings; otherwise the position after
      the match, wrapping around. */
  function NextIndex(active: seq<Member>, last: Option<Value>): (i: nat)
    requires |active| > 0
    ensures i < |active|
  {
    if !Truthy(last) then 0
    else
      var p := IndexOfId(active, ToStr(last.value));
      if p != -1 then (p + 1) % |active| else 0
  }

  /** No pointer, or one that names no active member: the rotation restarts at 0. */
  lemma RestartWithoutMatch(active: seq<Member>, last: Option<Value>)
    requires |active| > 0
    requires !Truthy(last) || forall m :: m in active ==> m.id != ToStr(last.value)
    ensures NextIndex(active, last) == 0
  {
  }

  /** A pointer naming the active member at position p gives (p + 1) mod n. */
  lemma AdvanceAfterMatch(active: seq<Member>, last: Value, p: nat)
    requires DistinctIds(active) && p < |active|
    requires Truthy(Some(last)) && ToStr(last) == active[p].id
    ensures NextIndex(active, Some(last)) == (p + 1) % |active|
  {
    IndexOfOwnId(active, p);
  }

  /** A pointer naming the first active member moves the rotation to the second,
      whatever its other members are. */
  lemma FirstMatchAdvances(active: seq<Member>, last: Value)
    requires |active| > 1 && Truthy(Some(last)) && ToStr(last) == active[0].id
    ensures NextIndex(active, Some(last)) == 1
  {
  }

  /** A team with a single active member always chooses that member. */
  lemma SingleActiveReselects(active: seq<Member>, last: Option<Value>)
    requires |active| == 1
    ensures NextIndex(active, last) == 0
  {
  }

  lemma {:induction false} MulAtLeast(k: nat, n: nat)
    requires k >= 1
    ensures k * n >= n
    decreases k
  {
    if k > 1 {
      MulAtLeast(k - 1, n);
      assert k * n == (k - 1) * n + n;
    }
  }

  lemma MulBound(k: int, n: int)
    requires n > 0 && k != 0
    ensures k * n >= n || k * n <= -n
  {
    if k > 0 {
      MulAtLeast(k, n);
    } else {
      MulAtLeast(-k, n);
      assert k * n == -((-k) * n);
    }
  }

  lemma ModUnique(x: int, n: int, q: int, r: int)
    requires n > 0 && 0 <= r < n && x == q * n + r
    ensures x % n == r
  {
    var q0, r0 := x / n, x % n;
    assert x == q0 * n + r0;
    assert (q - q0) * n == r0 - r;
    if q != q0 { MulBound(q - q0, n); }
  }

  lemma ModSucc(a: nat, n: nat)
    requires n > 0
    ensures (a % n + 1) % n == (a + 1) % n
  {
    var q := a / n;
    assert a == q * n + a % n;
    if a % n + 1 < n {
      ModUnique(a + 1, n, q, a % n + 1);
      ModUnique(a % n + 1, n, 0, a % n + 1);
    } else {
      ModUnique(a + 1, n, q + 1, 0);
      ModUnique(a % n + 1, n, 1, 0);
    }
  }

  /** Following the rotation from a pointer at position i % n lands on (i + 1) % n. */
  lemma StepAround(active: seq<Member>, i: nat)
    requires |active| > 0 && DistinctIds(active)
    requires forall m :: m in active ==> m.id != ""
    ensures NextIndex(active, Some(Str(active[i % |active|].id))) == (i + 1) % |active|
  {
    var n := |active|;
    assert active[i % n] in active;
    AdvanceAfterMatch(active, Str(active[i % n].id), i % n);
    ModSucc(i, n);
  }
}
