/** A JavaScript `Map` with string keys: a lookup table together with the order in which
    keys were first set. `set` on a present key replaces its value and keeps its position;
    `keys()` and `values()` iterate in that first-insertion order. */
module InsertionMap {
  import opened Wrappers
  import Seqs

  datatype IMap<V> = IMap(order: seq<string>, entries: map<string, V>)

  /** One `set(key, value)` call. */
  datatype Entry<V> = Entry(key: string, value: V)

  /** The order lists every key of the table exactly once. */
  ghost predicate Valid<V>(m: IMap<V>) {
    && Seqs.Distinct(m.order)
    && (forall k :: k in m.entries <==> k in m.order)
  }

  function Empty<V>(): (m: IMap<V>)
    ensures Valid(m)
    ensures m.order == [] && m.entries == map[]
  {
    IMap([], map[])
  }

  /** `map.get(key)`: `None` stands for `undefined`. */
  function Get<V>(m: IMap<V>, key: string): (r: Option<V>)
    ensures r.Some? <==> key in m.entries
    ensures r.Some? ==> r.value == m.entries[key]
  {
    if key in m.entries then Some(m.entries[key]) else None
  }

  /** `map.set(key, value)`. */
  function Set<V>(m: IMap<V>, key: string, value: V): (r: IMap<V>)
    ensures r.entries.Keys == m.entries.Keys + {key}
    ensures r.entries[key] == value
    ensures forall k :: k in m.entries && k != key ==> r.entries[k] == m.entries[k]
    ensures key in m.entries ==> r.order == m.order
    ensures key !in m.entries ==> r.order == m.order + [key]
  {
    if key in m.entries then IMap(m.order, m.entries[key := value])
    else IMap(m.order + [key], m.entries[key := value])
  }

  /** `set` keeps every key listed exactly once. */
  lemma SetPreservesValid<V>(m: IMap<V>, key: string, value: V)
    requires Valid(m)
    ensures Valid(Set(m, key, value))
  {
  }

  /** `Array.from(map.keys())`. */
  function Keys<V>(m: IMap<V>): (ks: seq<string>)
    requires Valid(m)
    ensures Seqs.Distinct(ks)
    ensures forall k :: k in ks <==> k in m.entries
    ensures ks == m.order
  {
    m.order
  }

  /** `Array.from(map.values())`: the value of each key, in key order. */
  function Values<V>(m: IMap<V>): (vs: seq<V>)
    requires Valid(m)
    ensures |vs| == |m.order|
    ensures forall i :: 0 <= i < |vs| ==> m.order[i] in m.entries && vs[i] == m.entries[m.order[i]]
  {
    seq(|m.order|, i requires 0 <= i < |m.order| => m.entries[m.order[i]])
  }

  /** The map built by the given `set` calls, in order, starting from an empty map. */
  function SetAll<V>(ops: seq<Entry<V>>): (m: IMap<V>)
    ensures Valid(m)
  {
    if |ops| == 0 then Empty() else
    var last := ops[|ops| - 1];
    SetPreservesValid(SetAll(ops[..|ops| - 1]), last.key, last.value);
    Set(SetAll(ops[..|ops| - 1]), last.key, last.value)
  }

  predicate Mentions<V>(ops: seq<Entry<V>>, key: string) {
    exists i :: 0 <= i < |ops| && ops[i].key == key
  }

  /** The key each call sets, in call order. */
  function CallKeys<V>(ops: seq<Entry<V>>): (ks: seq<string>)
    ensures |ks| == |ops|
    ensures forall i :: 0 <= i < |ops| ==> ks[i] == ops[i].key
  {
    seq(|ops|, i requires 0 <= i < |ops| => ops[i].key)
  }

  /** The index of the first call that sets `key`, or `|ops|` when none does. */
  function FirstIndex<V>(ops: seq<Entry<V>>, key: string): (i: nat)
    ensures i <= |ops|
    ensures i < |ops| ==> ops[i].key == key
    ensures forall j :: 0 <= j < i ==> ops[j].key != key
  {
    Seqs.IndexOf(CallKeys(ops), key)
  }

  /** The index of the last call that sets `key`. */
  function LastIndex<V>(ops: seq<Entry<V>>, key: string): (i: nat)
    requires Mentions(ops, key)
    ensures i < |ops| && ops[i].key == key
    ensures forall j :: i < j < |ops| ==> ops[j].key != key
  {
    var n := |ops| - 1;
    if ops[n].key == key then n
    else
      assert Mentions(ops[..n], key) by {
        var j :| 0 <= j < |ops| && ops[j].key == key;
        assert ops[..n][j].key == key;
      }
      LastIndex(ops[..n], key)
  }

  /** A key set by an earlier call is still set by a longer sequence of calls, and its
      first call is the same. */
  lemma MentionsPrefix<V>(ops: seq<Entry<V>>, n: nat, key: string)
    requires n <= |ops| && Mentions(ops[..n], key)
    ensures Mentions(ops, key)
    ensures FirstIndex(ops, key) == FirstIndex(ops[..n], key)
  {
    MentionsIffFirstIndex(ops[..n], key);
    FirstIndexPrefix(ops, n, key);
    MentionsIffFirstIndex(ops, key);
  }

  /** A key set somewhere other than the last call is set by the calls before it, and its
      last call is among them. */
  lemma MentionsDropLast<V>(ops: seq<Entry<V>>, key: string)
    requires |ops| > 0 && Mentions(ops, key) && ops[|ops| - 1].key != key
    ensures Mentions(ops[..|ops| - 1], key)
    ensures LastIndex(ops, key) == LastIndex(ops[..|ops| - 1], key)
  {
    var j :| 0 <= j < |ops| && ops[j].key == key;
    assert ops[..|ops| - 1][j].key == key;
  }

  /** After any sequence of `set` calls the keys are exactly the keys that were set, and
      each holds the value of the call that last set it. */
  lemma {:induction false} SetAllEntries<V>(ops: seq<Entry<V>>)
    ensures forall k :: k in SetAll(ops).entries <==> Mentions(ops, k)
    ensures forall k :: Mentions(ops, k) ==> SetAll(ops).entries[k] == ops[LastIndex(ops, k)].value
  {
    if |ops| > 0 {
      var n := |ops| - 1;
      var last := ops[n];
      SetAllEntries(ops[..n]);
      forall k
        ensures k in SetAll(ops).entries <==> Mentions(ops, k)
        ensures Mentions(ops, k) ==> SetAll(ops).entries[k] == ops[LastIndex(ops, k)].value
      {
        if k != last.key {
          if Mentions(ops, k) {
            MentionsDropLast(ops, k);
          }
          if Mentions(ops[..n], k) {
            MentionsPrefix(ops, n, k);
          }
        }
      }
    }
  }

  lemma FirstIndexPrefix<V>(ops: seq<Entry<V>>, n: nat, key: string)
    requires n <= |ops|
    ensures FirstIndex(ops[..n], key) < n ==> FirstIndex(ops, key) == FirstIndex(ops[..n], key)
    ensures FirstIndex(ops[..n], key) == n ==> FirstIndex(ops, key) >= n
  {
    var f := FirstIndex(ops[..n], key);
    if f < n {
      assert ops[f] == ops[..n][f];
    } else {
      forall j | 0 <= j < n ensures ops[j].key != key {
        assert ops[j] == ops[..n][j];
      }
    }
  }

  /** A key is set by some call exactly when its first call exists. */
  lemma MentionsIffFirstIndex<V>(ops: seq<Entry<V>>, key: string)
    ensures Mentions(ops, key) <==> FirstIndex(ops, key) < |ops|
  {
    if Mentions(ops, key) {
      var j :| 0 <= j < |ops| && ops[j].key == key;
      assert FirstIndex(ops, key) <= j;
    }
  }

  /** After any sequence of `set` calls the key order holds exactly the keys that were set. */
  lemma SetAllOrderKey<V>(ops: seq<Entry<V>>, key: string)
    ensures key in SetAll(ops).order <==> FirstIndex(ops, key) < |ops|
  {
    SetAllEntries(ops);
    MentionsIffFirstIndex(ops, key);
  }

  /** After any sequence of `set` calls, of two listed keys the earlier was first set
      earlier. */
  lemma {:induction false} SetAllOrderPair<V>(ops: seq<Entry<V>>, i: nat, j: nat)
    requires i < j < |SetAll(ops).order|
    ensures FirstIndex(ops, SetAll(ops).order[i]) < FirstIndex(ops, SetAll(ops).order[j])
  {
    var n := |ops| - 1;
    var last := ops[n];
    var m0 := SetAll(ops[..n]);
    var order := SetAll(ops).order;
    assert order == if last.key in m0.order then m0.order else m0.order + [last.key];
    assert order[i] == m0.order[i];
    SetAllOrderKey(ops[..n], order[i]);
    FirstIndexPrefix(ops, n, order[i]);
    if j < |m0.order| {
      assert order[j] == m0.order[j];
      SetAllOrderPair(ops[..n], i, j);
      SetAllOrderKey(ops[..n], order[j]);
      FirstIndexPrefix(ops, n, order[j]);
    } else {
      assert order[j] == last.key && last.key !in m0.order;
      SetAllOrderKey(ops[..n], last.key);
      FirstIndexPrefix(ops, n, last.key);
    }
  }

  /** After any sequence of `set` calls the key order holds exactly the keys that were set,
      each listed in the order of the call that first set it. */
  lemma SetAllOrder<V>(ops: seq<Entry<V>>)
    ensures forall k :: k in SetAll(ops).order <==> FirstIndex(ops, k) < |ops|
    ensures forall i, j :: 0 <= i < j < |SetAll(ops).order| ==>
              FirstIndex(ops, SetAll(ops).order[i]) < FirstIndex(ops, SetAll(ops).order[j])
  {
    forall k ensures k in SetAll(ops).order <==> FirstIndex(ops, k) < |ops| {
      SetAllOrderKey(ops, k);
    }
    forall i, j | 0 <= i < j < |SetAll(ops).order|
      ensures FirstIndex(ops, SetAll(ops).order[i]) < FirstIndex(ops, SetAll(ops).order[j])
    {
      SetAllOrderPair(ops, i, j);
    }
  }
}
