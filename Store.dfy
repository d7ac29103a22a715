/** The shared key-value store (Redis / Vercel KV) as an in-memory map with the
    GET, SET, INCR and DEL commands the handlers use. */
module Store {
  import opened Js

  type Data = map<string, Value>

  /** GET: the stored value, `None` (null) for an absent key. */
  function Lookup(data: Data, key: string): (v: Option<Value>)
    ensures v.Some? <==> key in data
    ensures v.Some? ==> v.value == data[key]
  {
    if key in data then Some(data[key]) else None
  }

  /** The value INCR produces: absent counts as 0; a value that is not an integer
      makes the command fail (`None`). */
  function Incremented(data: Data, key: string): (r: Option<int>)
    ensures key !in data ==> r == Some(1)
    ensures key in data && data[key].Int? ==> r == Some(data[key].i + 1)
    ensures key in data && !data[key].Int? ==> r == None
  {
    if key !in data then Some(1)
    else match data[key]
      case Int(n) => Some(n + 1)
      case _ => None
  }

  /** The counter value the store holds, absent read as 0. */
  function CounterOrZero(data: Data, key: string): int
  {
    if key in data && data[key].Int? then data[key].i else 0
  }

  function KeySet(keys: seq<string>): set<string>
  {
    set k | k in keys
  }

  class Kv {
    var data: Data

    constructor (initial: Data)
      ensures data == initial
    {
      data := initial;
    }

    method Get(key: string) returns (v: Option<Value>)
      ensures v == Lookup(data, key)
    {
      v := if key in data then Some(data[key]) else None;
    }

    method Set(key: string, v: Value)
      modifies this
      ensures data == old(data)[key := v]
    {
      data := data[key := v];
    }

    /** INCR: on success the key holds the new count, which is returned; on
        failure nothing changes. */
    method Incr(key: string) returns (r: Option<int>)
      modifies this
      ensures r == Incremented(old(data), key)
      ensures r.Some? ==> data == old(data)[key := Int(r.value)]
      ensures r.None? ==> data == old(data)
    {
      r := Incremented(data, key);
      if r.Some? {
        data := data[key := Int(r.value)];
      }
    }

    /** DEL: removes the key; replies 1 if it existed and 0 otherwise. */
    method Del(key: string) returns (n: nat)
      modifies this
      ensures n == if key in old(data) then 1 else 0
      ensures data == old(data) - {key}
    {
      n := if key in data then 1 else 0;
      data := data - {key};
    }
  }

  /** The counted deletion loop of the reset handlers: DEL each listed key in
      order and count the replies equal to 1. */
  method DeleteAll(kv: Kv, keys: seq<string>) returns (deleted: nat)
    modifies kv
    ensures kv.data == old(kv.data) - KeySet(keys)
    ensures deleted == |KeySet(keys) * old(kv.data).Keys|
  {
    ghost var d0 := kv.data;
    ghost var seen: set<string> := {};
    deleted := 0;
    var i := 0;
    while i < |keys|
      invariant 0 <= i <= |keys|
      invariant seen == KeySet(keys[..i])
      invariant kv.data == d0 - seen
      invariant deleted == |seen * d0.Keys|
    {
      var key := keys[i];
      KeySetSnoc(keys, i);
      RemoveOneMore(d0, seen, key);
      var n := kv.Del(key);
      CountStep(deleted, seen, d0.Keys, key, n);
      deleted := deleted + n;
      seen := seen + {key};
      i := i + 1;
    }
    assert keys[..i] == keys;
  }

  /** The keys deleted so far grow by the next key. */
  lemma KeySetSnoc(keys: seq<string>, i: nat)
    requires i < |keys|
    ensures KeySet(keys[..i + 1]) == KeySet(keys[..i]) + {keys[i]}
  {
    assert keys[..i + 1] == keys[..i] + [keys[i]];
  }

  lemma RemoveOneMore(d0: Data, seen: set<string>, k: string)
    ensures (d0 - seen) - {k} == d0 - (seen + {k})
  {
  }

  /** The reply of one DEL keeps the count equal to the deleted keys that existed. */
  lemma CountStep(deleted: nat, seen: set<string>, present: set<string>, key: string, n: nat)
    requires deleted == |seen * present|
    requires n == if key in present && key !in seen then 1 else 0
    ensures deleted + n == |(seen + {key}) * present|
  {
    OverlapGrows(seen, present, key);
  }

  lemma OverlapGrows(seen: set<string>, present: set<string>, k: string)
    ensures |(seen + {k}) * present| == |seen * present| + if k in present && k !in seen then 1 else 0
  {
    if k in present && k !in seen {
      assert (seen + {k}) * present == seen * present + {k};
    } else {
      assert (seen + {k}) * present == seen * present;
    }
  }

  /** A key list deletes at most as many keys as it lists. */
  lemma {:induction false} KeySetBound(keys: seq<string>)
    ensures |KeySet(keys)| <= |keys|
  {
    if keys != [] {
      var rest := keys[1..];
      assert KeySet(keys) == {keys[0]} + KeySet(rest);
      KeySetBound(rest);
    }
  }
}
