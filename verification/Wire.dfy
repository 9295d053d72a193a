/**
 The serialised form of dicts and of diffs (src/config.cpp:180-309).
 */
module Wire {
  import opened Options
  import opened Ordering
  import opened ConfigData
  import opened BtTree
  import opened ConfigDiff

  predicate KeysAscend(entries: seq<Entry>) {
    forall i, j | 0 <= i < j < |entries| :: StrLess(entries[i].key, entries[j].key)
  }

  /** Appending a key greater than the last one keeps the keys ascending. */
  lemma AscendAppend(entries: seq<Entry>, n: nat)
    requires n < |entries| && KeysAscend(entries[..n])
    ensures KeysAscend(entries[..n + 1]) <==> n == 0 || StrLess(entries[n - 1].key, entries[n].key)
  {
    if n > 0 && StrLess(entries[n - 1].key, entries[n].key) {
      forall i | 0 <= i < n ensures StrLess(entries[i].key, entries[n].key) {
        if i < n - 1 {
          assert StrLess(entries[..n][i].key, entries[..n][n - 1].key);
          StrTransitive(entries[i].key, entries[n - 1].key, entries[n].key);
        }
      }
      var longer := entries[..n + 1];
      forall i, j | 0 <= i < j < |longer| ensures StrLess(longer[i].key, longer[j].key) {
        if j < n { assert StrLess(entries[..n][i].key, entries[..n][j].key); }
      }
    }
    if KeysAscend(entries[..n + 1]) && n > 0 {
      assert StrLess(entries[..n + 1][n - 1].key, entries[..n + 1][n].key);
    }
  }

  function KeysOf(entries: seq<Entry>): (r: seq<string>)
    ensures |r| == |entries| && forall i | 0 <= i < |r| :: r[i] == entries[i].key
  {
    seq(|entries|, i requires 0 <= i < |entries| => entries[i].key)
  }

  /** The map built by inserting the pairs one after the other. */
  function Zip<K(==), T>(keys: seq<K>, vals: seq<T>): map<K, T>
    requires |keys| == |vals|
  {
    if keys == [] then map[]
    else Zip(keys[..|keys| - 1], vals[..|keys| - 1])[keys[|keys| - 1] := vals[|keys| - 1]]
  }

  lemma {:induction false} ZipLookup<K, T>(keys: seq<K>, vals: seq<T>, i: nat)
    requires |keys| == |vals| && Distinct(keys) && i < |keys|
    ensures Get(Zip(keys, vals), keys[i]) == Some(vals[i])
    decreases |keys|
  {
    var n := |keys| - 1;
    if i < n {
      assert keys[i] != keys[n];
      ZipLookup(keys[..n], vals[..n], i);
    }
  }

  lemma {:induction false} ZipKeys<K, T>(keys: seq<K>, vals: seq<T>)
    requires |keys| == |vals|
    ensures Zip(keys, vals).Keys == Elements(keys)
    decreases |keys|
  {
    if keys != [] {
      var n := |keys| - 1;
      ZipKeys(keys[..n], vals[..n]);
      assert keys == keys[..n] + [keys[n]];
    }
  }

  /** A map is the zip of its keys, each once, with their values. */
  lemma ZipOfMap<K, T>(m: map<K, T>, keys: seq<K>, vals: seq<T>)
    requires |vals| == |keys| && Distinct(keys) && forall k :: k in keys <==> k in m
    requires forall i | 0 <= i < |vals| :: keys[i] in m && vals[i] == m[keys[i]]
    ensures Zip(keys, vals) == m
  {
    ZipKeys(keys, vals);
    forall k | k in m ensures Zip(keys, vals)[k] == m[k] {
      assert k in keys;
      var i :| 0 <= i < |keys| && keys[i] == k;
      ZipLookup(keys, vals, i);
    }
  }

  lemma KeysOfZip<T>(keys: seq<string>, vals: seq<T>)
    requires |keys| == |vals| && Sorted(keys, StrLess)
    ensures Keys(Zip(keys, vals).Keys) == keys
  {
    ZipKeys(keys, vals);
    StrOrder();
    AscendingOfSorted(keys, StrLess);
  }

  lemma AscendIsSorted(entries: seq<Entry>)
    ensures KeysAscend(entries) <==> Sorted(KeysOf(entries), StrLess)
    ensures KeysAscend(entries) ==> Distinct(KeysOf(entries))
  {
    if KeysAscend(entries) {
      var ks := KeysOf(entries);
      forall i, j | 0 <= i < j < |ks| ensures ks[i] != ks[j] { StrIrreflexive(ks[i]); }
    }
    if Sorted(KeysOf(entries), StrLess) {
      forall i, j | 0 <= i < j < |entries| ensures StrLess(entries[i].key, entries[j].key) {
        assert StrLess(KeysOf(entries)[i], KeysOf(entries)[j]);
      }
    }
  }

  // ----- data --------------------------------------------------------------------------------

  function WriteValue(v: Value): Bt
    decreases v, 1
  {
    match v
    case ScalarV(x) => WriteScalar(x)
    case SetV(s) => BtList(WriteSet(s))
    case DictV(d) => BtDict(WriteDict(d))
  }

  /** Every entry, in ascending key order. */
  function WriteDict(d: Dict): (r: seq<Entry>)
    ensures |r| == |Keys(d.Keys)|
    decreases DictV(d), 0
  {
    var keys := Keys(d.Keys);
    seq(|keys|, i requires 0 <= i < |keys| =>
      assert keys[i] in keys;
      Entry(keys[i], WriteValue(d[keys[i]])))
  }

  /** What the data parser accepts; below the top level nothing may be empty. */
  ghost predicate DataShaped(entries: seq<Entry>)
    decreases entries, 0
  {
    KeysAscend(entries) && forall i | 0 <= i < |entries| :: ValueShaped(entries[i].value)
  }

  ghost predicate ValueShaped(t: Bt)
    decreases t, 1
  {
    match t
    case BtInt(_) => true
    case BtStr(_) => true
    case BtList(items) => items != [] && SortedScalars(items)
    case BtDict(es) => es != [] && DataShaped(es)
  }

  function ReadValue(t: Bt): Value
    decreases t, 2
  {
    match t
    case BtInt(i) => ScalarV(Int(i))
    case BtStr(s) => ScalarV(Str(s))
    case BtList(items) => SetV(MembersOf(items))
    case BtDict(es) => DictV(ReadDict(es))
  }

  function ReadValues(entries: seq<Entry>): (r: seq<Value>)
    ensures |r| == |entries|
    decreases entries, 0
  {
    seq(|entries|, i requires 0 <= i < |entries| => ReadValue(entries[i].value))
  }

  function ReadDict(entries: seq<Entry>): Dict
    decreases entries, 1
  {
    Zip(KeysOf(entries), ReadValues(entries))
  }

  lemma WriteAscends(d: Dict)
    ensures KeysAscend(WriteDict(d))
  {
    var keys, es := Keys(d.Keys), WriteDict(d);
    forall i, j | 0 <= i < j < |es| ensures StrLess(es[i].key, es[j].key) { assert StrLess(keys[i], keys[j]); }
  }

  lemma WrittenAt(d: Dict, i: nat)
    requires i < |WriteDict(d)|
    ensures var k := Keys(d.Keys)[i]; k in d && WriteDict(d)[i] == Entry(k, WriteValue(d[k]))
  {
    assert Keys(d.Keys)[i] in Keys(d.Keys);
  }

  /** Reading what was written gives the dict back. */
  lemma {:induction false} ReadWrite(d: Dict)
    ensures ReadDict(WriteDict(d)) == d
    decreases DictV(d), 1
  {
    var es, keys := WriteDict(d), Keys(d.Keys);
    assert KeysOf(es) == keys;
    forall i | 0 <= i < |keys| ensures keys[i] in d && ReadValues(es)[i] == d[keys[i]] {
      WrittenAt(d, i);
      ReadWriteValue(d[keys[i]]);
    }
    ZipOfMap(d, keys, ReadValues(es));
  }

  lemma {:induction false} ReadWriteValue(v: Value)
    ensures ReadValue(WriteValue(v)) == v
    decreases v, 2
  {
    if v.DictV? { ReadWrite(v.dict); }
    if v.SetV? { SetRoundTrip([], v.elems); }
  }

  lemma {:induction false} WriteShaped(d: Dict)
    requires Pruned(d)
    ensures DataShaped(WriteDict(d)) && (WriteDict(d) == [] <==> d == map[])
    decreases DictV(d)
  {
    var es := WriteDict(d);
    WriteAscends(d);
    ReadWrite(d);
    forall i | 0 <= i < |es| ensures ValueShaped(es[i].value) {
      WrittenAt(d, i);
      var v := d[Keys(d.Keys)[i]];
      assert PrunedValue(v);
      if v.DictV? { WriteShaped(v.dict); }
      if v.SetV? { SetRoundTrip([], v.elems); }
    }
    if d != map[] { var k :| k in d; assert k in Keys(d.Keys); }
  }

  /** Writing what was read gives the tree back, and what was read is pruned. */
  lemma {:induction false} WriteRead(entries: seq<Entry>)
    requires DataShaped(entries)
    ensures Pruned(ReadDict(entries)) && WriteDict(ReadDict(entries)) == entries
    decreases entries, 0
  {
    var d, keys, vals := ReadDict(entries), KeysOf(entries), ReadValues(entries);
    AscendIsSorted(entries);
    KeysOfZip(keys, vals);
    forall i | 0 <= i < |entries|
      ensures keys[i] in d && PrunedValue(d[keys[i]]) && WriteValue(d[keys[i]]) == entries[i].value
    {
      ZipLookup(keys, vals, i);
      WriteReadValue(entries[i].value);
    }
    ZipKeys(keys, vals);
    forall k | k in d ensures PrunedValue(d[k]) { var i :| 0 <= i < |keys| && keys[i] == k; }
    forall i | 0 <= i < |keys| ensures WriteDict(d)[i] == entries[i] { WrittenAt(d, i); }
  }

  lemma {:induction false} WriteReadValue(t: Bt)
    requires ValueShaped(t)
    ensures PrunedValue(ReadValue(t)) && WriteValue(ReadValue(t)) == t
    decreases t, 1
  {
    if t.BtDict? { WriteRead(t.entries); ReadEmpty(t.entries); }
    if t.BtList? { SetRoundTrip(t.items, {}); }
  }

  lemma ReadEmpty(entries: seq<Entry>)
    requires entries != []
    ensures ReadDict(entries) != map[]
  {
    ZipKeys(KeysOf(entries), ReadValues(entries));
    assert KeysOf(entries)[0] in ReadDict(entries).Keys;
  }

  /**
   The parser accepts a tree exactly when it is the serialisation of a dict with no
   empty set or dict below the top level.
   */
  lemma DataAccepted(entries: seq<Entry>)
    ensures DataShaped(entries) <==> exists d: Dict :: Pruned(d) && WriteDict(d) == entries
  {
    if DataShaped(entries) {
      WriteRead(entries);
      assert Pruned(ReadDict(entries)) && WriteDict(ReadDict(entries)) == entries;
    }
    if d: Dict :| Pruned(d) && WriteDict(d) == entries { WriteShaped(d); }
  }
}
