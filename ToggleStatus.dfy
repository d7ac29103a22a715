/** api/toggle-status.js: runtime on/off overrides for the members of the shared
    catalog. GET reports every member's effective state; POST stores one override. */
module ToggleStatus {
  import opened Js
  import opened Keys
  import opened Store
  import opened TeamsConfig

  /** The key of a member in GET's `states` object. */
  function StateKey(team: string, id: string): string { team + "-" + id }

  /** A member's effective state: the stored override when there is one (true only
      for boolean true or the string "true"); otherwise `member.defaultActive`, which
      no catalog member has, so `None` (undefined, which JSON output omits). */
  function Effective(data: Data, team: string, id: string): (r: Option<bool>)
    ensures r.None? <==> MemberActive(team, id) !in data
    ensures r == Some(true) <==> MemberActive(team, id) in data &&
                                 data[MemberActive(team, id)] in {Bool(true), Str("true")}
  {
    match Lookup(data, MemberActive(team, id))
    case None => None
    case Some(v) => Some(v == Bool(true) || v == Str("true"))
  }

  type Entry = (string, Option<bool>)

  /** The assignments GET makes to `states` for the given members of one team, in order. */
  function TeamEntries(team: string, members: seq<Member>, data: Data): (es: seq<Entry>)
    ensures |es| == |members|
  {
    if members == [] then []
    else
      var m := members[|members| - 1];
      TeamEntries(team, members[..|members| - 1], data) + [(StateKey(team, m.id), Effective(data, team, m.id))]
  }

  /** The assignments GET makes for a whole catalog, team after team. */
  function Entries(catalog: Catalog, data: Data): seq<Entry>
  {
    if catalog == [] then []
    else
      var t := catalog[|catalog| - 1];
      Entries(catalog[..|catalog| - 1], data) + TeamEntries(t.key, t.members, data)
  }

  /** The object built by assigning the entries in order; a later key overwrites. */
  function ToMap(es: seq<Entry>): map<string, Option<bool>>
  {
    if es == [] then map[]
    else ToMap(es[..|es| - 1])[es[|es| - 1].0 := es[|es| - 1].1]
  }

  // ---------------------------------------------------------------------------
  // GET

  method HandleGet(kv: Kv) returns (states: map<string, Option<bool>>)
    ensures states == ToMap(Entries(Teams, kv.data))
  {
    states := CollectStates(kv, Teams);
  }

  /** The loop over the teams of a catalog. */
  method CollectStates(kv: Kv, catalog: Catalog) returns (states: map<string, Option<bool>>)
    ensures states == ToMap(Entries(catalog, kv.data))
  {
    states := map[];
    var i := 0;
    while i < |catalog|
      invariant 0 <= i <= |catalog|
      invariant states == ToMap(Entries(catalog[..i], kv.data))
    {
      states := AddTeamStates(kv, catalog[i], Entries(catalog[..i], kv.data), states);
      EntriesSnoc(catalog, i + 1, kv.data);
      i := i + 1;
    }
    assert catalog[..i] == catalog;
  }

  /** The inner loop: one assignment per member of the team, in roster order. */
  method AddTeamStates(kv: Kv, team: Team, ghost pre: seq<Entry>, states0: map<string, Option<bool>>)
    returns (states: map<string, Option<bool>>)
    requires states0 == ToMap(pre)
    ensures states == ToMap(pre + TeamEntries(team.key, team.members, kv.data))
  {
    states := states0;
    var j := 0;
    TeamEntriesSnoc(team.key, team.members, 0, kv.data);
    assert pre + [] == pre;
    while j < |team.members|
      invariant 0 <= j <= |team.members|
      invariant states == ToMap(pre + TeamEntries(team.key, team.members[..j], kv.data))
    {
      var member := team.members[j];
      var value := kv.Get(MemberActive(team.key, member.id));
      if value.Some? {
        states := states[StateKey(team.key, member.id) := Some(value.value == Bool(true) || value.value == Str("true"))];
      } else {
        states := states[StateKey(team.key, member.id) := None];
      }
      TeamEntriesSnoc(team.key, team.members, j + 1, kv.data);
      j := j + 1;
    }
    assert team.members[..j] == team.members;
  }

  /** Extending the prefix of members by one appends that member's entry, and
      the object gains that one assignment. */
  lemma TeamEntriesSnoc(team: string, members: seq<Member>, j: nat, data: Data)
    requires j <= |members|
    ensures j == 0 ==> TeamEntries(team, members[..j], data) == []
    ensures j > 0 ==>
      var m := members[j - 1];
      var e := (StateKey(team, m.id), Effective(data, team, m.id));
      && TeamEntries(team, members[..j], data) == TeamEntries(team, members[..j - 1], data) + [e]
      && forall pre: seq<Entry> {:trigger ToMap(pre + TeamEntries(team, members[..j], data))} ::
           ToMap(pre + TeamEntries(team, members[..j], data)) == ToMap(pre + TeamEntries(team, members[..j - 1], data))[e.0 := e.1]
  {
    if j > 0 {
      assert members[..j][..j - 1] == members[..j - 1];
      var m := members[j - 1];
      var e := (StateKey(team, m.id), Effective(data, team, m.id));
      forall pre: seq<Entry>
        ensures ToMap(pre + TeamEntries(team, members[..j], data)) == ToMap(pre + TeamEntries(team, members[..j - 1], data))[e.0 := e.1]
      {
        var xs := pre + TeamEntries(team, members[..j - 1], data);
        assert pre + TeamEntries(team, members[..j], data) == xs + [e];
        assert (xs + [e])[..|xs|] == xs;
      }
    }
  }

  /** Extending the prefix of teams by one appends that team's entries. */
  lemma EntriesSnoc(catalog: Catalog, i: nat, data: Data)
    requires 0 < i <= |catalog|
    ensures Entries(catalog[..i], data)
         == Entries(catalog[..i - 1], data) + TeamEntries(catalog[i - 1].key, catalog[i - 1].members, data)
  {
    assert catalog[..i][..i - 1] == catalog[..i - 1];
  }

  /** Every entry GET assigns is the effective state of one catalog member. */
  lemma {:induction false} EntryFrom(catalog: Catalog, data: Data, e: Entry)
    requires e in Entries(catalog, data)
    ensures exists t, m :: t in catalog && m in t.members &&
                           e == (StateKey(t.key, m.id), Effective(data, t.key, m.id))
    decreases |catalog|
  {
    var t := catalog[|catalog| - 1];
    var init := catalog[..|catalog| - 1];
    if e in Entries(init, data) {
      EntryFrom(init, data, e);
      var t', m' :| t' in init && m' in t'.members && e == (StateKey(t'.key, m'.id), Effective(data, t'.key, m'.id));
      assert t' in catalog;
    } else {
      TeamEntryFrom(t.key, t.members, data, e);
      assert t in catalog;
    }
  }

  lemma {:induction false} TeamEntryFrom(team: string, members: seq<Member>, data: Data, e: Entry)
    requires e in TeamEntries(team, members, data)
    ensures exists m :: m in members && e == (StateKey(team, m.id), Effective(data, team, m.id))
    decreases |members|
  {
    var init := members[..|members| - 1];
    if e in TeamEntries(team, init, data) {
      TeamEntryFrom(team, init, data, e);
      var m :| m in init && e == (StateKey(team, m.id), Effective(data, team, m.id));
      assert m in members;
    } else {
      assert members[|members| - 1] in members;
    }
  }

  /** Conversely, GET assigns an entry for every catalog member. */
  lemma {:induction false} EntryPresent(catalog: Catalog, data: Data, t: Team, m: Member)
    requires t in catalog && m in t.members
    ensures (StateKey(t.key, m.id), Effective(data, t.key, m.id)) in Entries(catalog, data)
    decreases |catalog|
  {
    var init := catalog[..|catalog| - 1];
    if t in init {
      EntryPresent(init, data, t, m);
    } else {
      TeamEntryPresent(t.key, t.members, data, m);
    }
  }

  lemma {:induction false} TeamEntryPresent(team: string, members: seq<Member>, data: Data, m: Member)
    requires m in members
    ensures (StateKey(team, m.id), Effective(data, team, m.id)) in TeamEntries(team, members, data)
    decreases |members|
  {
    var init := members[..|members| - 1];
    if m in init {
      TeamEntryPresent(team, init, data, m);
    }
  }

  /** The object built from entries that all agree on the value of key k holds that value. */
  lemma {:induction false} ToMapAgrees(es: seq<Entry>, k: string, v: Option<bool>)
    requires exists e :: e in es && e.0 == k
    requires forall e :: e in es && e.0 == k ==> e.1 == v
    ensures k in ToMap(es) && ToMap(es)[k] == v
    decreases |es|
  {
    var init := es[..|es| - 1];
    var last := es[|es| - 1];
    if last.0 != k {
      var e :| e in es && e.0 == k;
      assert e in init;
      ToMapAgrees(init, k, v);
    }
  }

  lemma {:induction false} ToMapKeys(es: seq<Entry>, k: string)
    requires k in ToMap(es)
    ensures exists e :: e in es && e.0 == k
    decreases |es|
  {
    var init := es[..|es| - 1];
    if es[|es| - 1].0 != k {
      ToMapKeys(init, k);
      var e :| e in init && e.0 == k;
      assert e in es;
    }
  }

  /** GET reports, for every member of every team, that member's effective state
      under the key "<team>-<id>", and has no other keys. */
  lemma GetReportsEffective(catalog: Catalog, data: Data)
    requires forall i :: 0 <= i < |catalog| ==> '-' !in catalog[i].key
    ensures forall t, m :: t in catalog && m in t.members ==>
      && StateKey(t.key, m.id) in ToMap(Entries(catalog, data))
      && ToMap(Entries(catalog, data))[StateKey(t.key, m.id)] == Effective(data, t.key, m.id)
    ensures forall k :: k in ToMap(Entries(catalog, data)) ==>
      exists t, m :: t in catalog && m in t.members && k == StateKey(t.key, m.id)
  {
    var es := Entries(catalog, data);
    forall t, m | t in catalog && m in t.members
      ensures StateKey(t.key, m.id) in ToMap(es) && ToMap(es)[StateKey(t.key, m.id)] == Effective(data, t.key, m.id)
    {
      var k := StateKey(t.key, m.id);
      EntryPresent(catalog, data, t, m);
      forall e | e in es && e.0 == k ensures e.1 == Effective(data, t.key, m.id) {
        EntryFrom(catalog, data, e);
        var t', m' :| t' in catalog && m' in t'.members && e == (StateKey(t'.key, m'.id), Effective(data, t'.key, m'.id));
        assert '-' !in t.key && '-' !in t'.key;
        SplitAtSeparator(t'.key, m'.id, t.key, m.id, '-');
      }
      ToMapAgrees(es, k, Effective(data, t.key, m.id));
    }
    forall k | k in ToMap(es) ensures exists t, m :: t in catalog && m in t.members && k == StateKey(t.key, m.id) {
      ToMapKeys(es, k);
      var e :| e in es && e.0 == k;
      EntryFrom(catalog, data, e);
    }
  }

  // ---------------------------------------------------------------------------
  // POST

  datatype PostError =
    | MissingTeamKey
    | MissingMemberId
    | ActiveNotBoolean
    | TeamNotFound
    | MembersUndefined  // an inherited property has no `members`: the `.find` call throws
    | MemberNotFound

  function PostStatus(e: PostError): int
  {
    match e
    case TeamNotFound => 404
    case MemberNotFound => 404
    case MembersUndefined => 500
    case _ => 400
  }

  datatype PostResult =
    /** The response echoes the request's own `teamKey` and `memberId` values. */
    | Saved(teamKey: Value, memberId: Value, memberName: string, active: bool)
    | PostRejected(error: PostError)

  /** The override value as stored: `active.toString()`. */
  function OverrideValue(active: bool): Value
  {
    Str(ToStr(Bool(active)))
  }

  function PostTransition(catalog: Catalog, data: Data, teamKey: Option<Value>, memberId: Option<Value>,
                          active: Option<Value>): (PostResult, Data)
  {
    if !Truthy(teamKey) then (PostRejected(MissingTeamKey), data)
    else if !Truthy(memberId) then (PostRejected(MissingMemberId), data)
    else if !(active.Some? && active.value.Bool?) then (PostRejected(ActiveNotBoolean), data)
    else
      var key := ToStr(teamKey.value);
      var id := ToStr(memberId.value);
      match Resolve(catalog, key)
      case Missing => (PostRejected(TeamNotFound), data)
      case Inherited => (PostRejected(MembersUndefined), data)
      case Found(t) =>
        var p := IndexOfId(t.members, id);
        if p == -1 then (PostRejected(MemberNotFound), data)
        else
          (Saved(teamKey.value, memberId.value, t.members[p].name, active.value.b),
           data[MemberActive(key, id) := OverrideValue(active.value.b)])
  }

  method HandlePost(kv: Kv, teamKey: Option<Value>, memberId: Option<Value>, active: Option<Value>)
    returns (r: PostResult)
    modifies kv
    ensures (r, kv.data) == PostTransition(Teams, old(kv.data), teamKey, memberId, active)
  {
    if !Truthy(teamKey) {
      return PostRejected(MissingTeamKey);
    }
    if !Truthy(memberId) {
      return PostRejected(MissingMemberId);
    }
    if !(active.Some? && active.value.Bool?) {
      return PostRejected(ActiveNotBoolean);
    }
    var key := ToStr(teamKey.value);
    var lookup := Resolve(Teams, key);
    if lookup.Missing? {
      return PostRejected(TeamNotFound);
    }
    if lookup.Inherited? {
      return PostRejected(MembersUndefined);
    }
    var p := IndexOfId(lookup.team.members, ToStr(memberId.value));
    if p == -1 {
      return PostRejected(MemberNotFound);
    }
    kv.Set(MemberActive(key, ToStr(memberId.value)), OverrideValue(active.value.b));
    r := Saved(teamKey.value, memberId.value, lookup.team.members[p].name, active.value.b);
  }

  /** POST checks its input in a fixed order, answers each rejection with its HTTP
      status, and a rejected request writes nothing. */
  lemma PostValidationOrder(catalog: Catalog, data: Data, teamKey: Option<Value>, memberId: Option<Value>, active: Option<Value>)
    ensures var (r, after) := PostTransition(catalog, data, teamKey, memberId, active);
      && (!Truthy(teamKey) ==> r == PostRejected(MissingTeamKey) && PostStatus(r.error) == 400)
      && (Truthy(teamKey) && !Truthy(memberId) ==> r == PostRejected(MissingMemberId) && PostStatus(r.error) == 400)
      && (Truthy(teamKey) && Truthy(memberId) && !(active.Some? && active.value.Bool?) ==>
            r == PostRejected(ActiveNotBoolean) && PostStatus(r.error) == 400)
      && (Truthy(teamKey) && Truthy(memberId) && active.Some? && active.value.Bool? ==>
            var lookup := Resolve(catalog, ToStr(teamKey.value));
            && (lookup.Missing? ==> r == PostRejected(TeamNotFound) && PostStatus(r.error) == 404)
            && (lookup.Inherited? ==> r == PostRejected(MembersUndefined) && PostStatus(r.error) == 500)
            && (lookup.Found? && (forall m :: m in lookup.team.members ==> m.id != ToStr(memberId.value)) ==>
                  r == PostRejected(MemberNotFound) && PostStatus(r.error) == 404))
      && (r.PostRejected? ==> after == data)
  {
  }

  /** A successful POST writes exactly one key, the member's override, with the
      string "true" or "false". */
  lemma PostWritesOneKey(catalog: Catalog, data: Data, teamKey: Option<Value>, memberId: Option<Value>, active: Option<Value>)
    ensures var (r, after) := PostTransition(catalog, data, teamKey, memberId, active);
      r.Saved? ==>
        var key, id := ToStr(r.teamKey), ToStr(r.memberId);
        && Resolve(catalog, key).Found?
        && (exists m :: m in Resolve(catalog, key).team.members && m.id == id)
        && after == data[MemberActive(key, id) := Str(if r.active then "true" else "false")]
  {
    var (r, after) := PostTransition(catalog, data, teamKey, memberId, active);
    if r.Saved? {
      var t := Resolve(catalog, ToStr(r.teamKey)).team;
      var p := IndexOfId(t.members, ToStr(r.memberId));
      assert t.members[p] in t.members;
    }
  }

  /** Round trip: after a successful POST with `active = b` on a well-formed
      catalog, GET reports b for that member. */
  lemma PostThenGet(catalog: Catalog, data: Data, teamKey: Option<Value>, memberId: Option<Value>, active: Option<Value>)
    requires WellFormed(catalog)
    ensures var (r, after) := PostTransition(catalog, data, teamKey, memberId, active);
      r.Saved? ==>
        var states, k := ToMap(Entries(catalog, after)), StateKey(ToStr(r.teamKey), ToStr(r.memberId));
        k in states && states[k] == Some(r.active)
  {
    var step := PostTransition(catalog, data, teamKey, memberId, active);
    if step.0.Saved? {
      var key, id := ToStr(teamKey.value), ToStr(memberId.value);
      var t := Resolve(catalog, key).team;
      var m := t.members[IndexOfId(t.members, id)];
      assert t in catalog && m in t.members && t.key == key && m.id == id;
      assert step.1 == data[MemberActive(key, id) := OverrideValue(step.0.active)];
      OverrideReadsBack(data, key, id, step.0.active);
      GetReportsEffective(catalog, step.1);
    }
  }

  /** An override written as `active.toString()` reads back as `active`. */
  lemma OverrideReadsBack(data: Data, team: string, id: string, b: bool)
    ensures Effective(data[MemberActive(team, id) := OverrideValue(b)], team, id) == Some(b)
  {
  }

  /** With no overrides stored, GET reports every member as undefined: the catalog
      members carry no `defaultActive`. */
  lemma GetWithoutOverrides(catalog: Catalog, data: Data)
    requires forall i :: 0 <= i < |catalog| ==> '-' !in catalog[i].key
    requires forall t, m :: t in catalog && m in t.members ==> MemberActive(t.key, m.id) !in data
    ensures forall k :: k in ToMap(Entries(catalog, data)) ==> ToMap(Entries(catalog, data))[k] == None
  {
    GetReportsEffective(catalog, data);
  }
}
