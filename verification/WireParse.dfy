/**
 The loops that serialise and parse data and load diffs (src/config.cpp:180-309).
 */
module WireParse {
  import opened Options
  import opened Ordering
  import opened ConfigData
  import opened BtTree
  import opened ConfigDiff
  import opened Wire

  // ----- serialising -------------------------------------------------------------------------

  method SerializeData(d: Dict) returns (out: seq<Entry>)
    ensures out == WriteDict(d)
    decreases DictV(d), 0
  {
    out := [];
    var keys := Keys(d.Keys);
    for i := 0 to |keys|
      invariant out == WriteDict(d)[..i]
    {
      WrittenAt(d, i);
      assert WriteDict(d)[..i + 1] == WriteDict(d)[..i] + [WriteDict(d)[i]];
      var v := SerializeValue(d[keys[i]]);
      out := out + [Entry(keys[i], v)];
    }
    assert WriteDict(d)[..|keys|] == WriteDict(d);
  }

  method SerializeValue(v: Value) returns (t: Bt)
    ensures t == WriteValue(v)
    decreases v, 1
  {
    match v {
      case ScalarV(x) => t := WriteScalar(x);
      case SetV(s) => t := BtList(WriteSet(s));
      case DictV(sub) =>
        var es := SerializeData(sub);
        t := BtDict(es);
    }
  }

  // ----- parsing data -------------------------------------------------------------------------

  lemma SortedPrefix(items: seq<Bt>, i: nat)
    requires i < |items| && SortedScalars(items[..i])
    ensures SortedScalars(items[..i + 1]) <==>
            IsScalar(items[i]) && (i == 0 || ScalarLess(ReadScalar(items[..i][i - 1]), ReadScalar(items[i])))
    ensures !SortedScalars(items[..i + 1]) ==> !SortedScalars(items)
  {
    var short, longer := items[..i], items[..i + 1];
    assert longer == short + [items[i]];
    if IsScalar(items[i]) {
      var a, b := ReadScalars(short), ReadScalars(longer);
      assert b == a + [ReadScalar(items[i])];
      if i == 0 || ScalarLess(ReadScalar(short[i - 1]), ReadScalar(items[i])) {
        ScalarOrder();
        forall y | y in a ensures ScalarLess(y, ReadScalar(items[i])) {
          var p :| 0 <= p < |a| && a[p] == y;
          assert p == i - 1 || ScalarLess(a[p], a[i - 1]);
        }
        SortedAppend(a, ReadScalar(items[i]), ScalarLess);
      } else {
        assert !ScalarLess(b[i - 1], b[i]);
      }
    } else {
      assert !IsScalar(longer[i]);
    }
    if SortedScalars(items) {
      assert ReadScalars(longer) == ReadScalars(items)[..i + 1];
    }
  }

  method ParseSet(items: seq<Bt>) returns (r: Result<set<Scalar>>)
    ensures r == if items != [] && SortedScalars(items) then Ok(MembersOf(items)) else Err
  {
    if items == [] { return Err; }
    var s: set<Scalar>, last := {}, Int(0);
    for i := 0 to |items|
      invariant SortedScalars(items[..i]) && s == MembersOf(items[..i])
      invariant i > 0 ==> last == ReadScalar(items[..i][i - 1])
    {
      SortedPrefix(items, i);
      if !IsScalar(items[i]) { return Err; }
      var val := ReadScalar(items[i]);
      if i > 0 {
        NotBelow(last, val);
        if val == last { return Err; }
        if ScalarLess(val, last) { return Err; }
      }
      AddMember(items, i);
      s, last := s + {val}, val;
    }
    assert items[..|items|] == items;
    r := Ok(s);
  }

  lemma NotBelow(a: Scalar, b: Scalar)
    ensures ScalarLess(a, b) <==> a != b && !ScalarLess(b, a)
  {
    if a.Str? && b.Str? { StrTrichotomy(a.s, b.s); }
  }

  lemma ZipAppend(entries: seq<Entry>, i: nat)
    requires i < |entries|
    ensures ReadDict(entries[..i + 1]) == ReadDict(entries[..i])[entries[i].key := ReadValue(entries[i].value)]
  {
    var a, b := entries[..i], entries[..i + 1];
    assert KeysOf(b)[..i] == KeysOf(a) && ReadValues(b)[..i] == ReadValues(a);
  }

  lemma PrefixAscends(entries: seq<Entry>, i: nat)
    requires i <= |entries| && KeysAscend(entries)
    ensures KeysAscend(entries[..i])
  {
    var a := entries[..i];
    forall p, q | 0 <= p < q < |a| ensures StrLess(a[p].key, a[q].key) { assert a[p] == entries[p] && a[q] == entries[q]; }
  }

  lemma ShapedPrefix(entries: seq<Entry>, i: nat)
    requires i < |entries| && DataShaped(entries[..i])
    ensures DataShaped(entries[..i + 1]) <==>
            ValueShaped(entries[i].value) && (i == 0 || StrLess(entries[i - 1].key, entries[i].key))
  {
    var a, b := entries[..i], entries[..i + 1];
    AscendAppend(entries, i);
    assert b[i] == entries[i] && forall p | 0 <= p < i :: b[p] == a[p];
  }

  lemma ShapedShorter(entries: seq<Entry>, i: nat)
    requires i <= |entries| && DataShaped(entries)
    ensures DataShaped(entries[..i])
  {
    var a := entries[..i];
    PrefixAscends(entries, i);
    forall p | 0 <= p < |a| ensures ValueShaped(a[p].value) { assert a[p] == entries[p]; }
  }

  /** The parser's dict loop: it accepts exactly the shaped trees and returns their dict. */
  method ParseData(entries: seq<Entry>, topLevel: bool) returns (r: Result<Dict>)
    ensures r == if (topLevel || entries != []) && DataShaped(entries) then Ok(ReadDict(entries)) else Err
    decreases entries, 0
  {
    if !topLevel && entries == [] { return Err; }
    var d: Dict := map[];
    for i := 0 to |entries|
      invariant DataShaped(entries[..i]) && d == ReadDict(entries[..i])
    {
      ShapedPrefix(entries, i);
      if DataShaped(entries) { ShapedShorter(entries, i + 1); }
      ZipAppend(entries, i);
      var key := entries[i].key;
      if i > 0 {
        StrTrichotomy(entries[i - 1].key, key);
        if key == entries[i - 1].key || StrLess(key, entries[i - 1].key) { return Err; }
      }
      var v := ParseValue(entries[i].value);
      if v.Err? { return Err; }
      d := d[key := v.value];
    }
    assert entries[..|entries|] == entries;
    r := Ok(d);
  }

  method ParseValue(t: Bt) returns (r: Result<Value>)
    ensures r == if ValueShaped(t) then Ok(ReadValue(t)) else Err
    decreases t, 1
  {
    match t {
      case BtStr(s) => r := Ok(ScalarV(Str(s)));
      case BtInt(i) => r := Ok(ScalarV(Int(i)));
      case BtDict(es) =>
        var d := ParseData(es, false);
        r := if d.Ok? then Ok(DictV(d.value)) else Err;
      case BtList(items) =>
        var s := ParseSet(items);
        r := if s.Ok? then Ok(SetV(s.value)) else Err;
    }
  }

  // ----- loading diffs -------------------------------------------------------------------------

  /** What the diff loader accepts. */
  predicate DiffShaped(entries: seq<Entry>)
    decreases entries, 0
  {
    KeysAscend(entries) && forall i | 0 <= i < |entries| :: EntryShaped(entries[i].value)
  }

  predicate EntryShaped(t: Bt)
    decreases t, 1
  {
    match t
    case BtInt(_) => false
    case BtStr(s) => s == "" || s == "-"
    case BtList(items) => ChangeLists(items)
    case BtDict(es) => DiffShaped(es)
  }

  /** At entry `i`, after an accepted part with ascending keys, stands a value on which the loader never advances. */
  ghost predicate StuckAt(entries: seq<Entry>, i: nat)
    decreases entries, 0, 0
  {
    && i < |entries| && DiffShaped(entries[..i])
    && (i == 0 || StrLess(entries[i - 1].key, entries[i].key))
    && EntryStuck(entries[i].value)
  }

  /** The loader never returns. */
  ghost predicate DiffStuck(entries: seq<Entry>)
    decreases entries, 1
  {
    exists i: nat :: StuckAt(entries, i)
  }

  /** An integer is neither a string nor a list nor a dict, and so is never consumed. */
  ghost predicate EntryStuck(t: Bt)
    decreases t, 2
  {
    t.BtInt? || (t.BtDict? && DiffStuck(t.entries))
  }

  lemma DiffPrefix(entries: seq<Entry>, i: nat)
    requires i < |entries| && DiffShaped(entries[..i])
    ensures DiffShaped(entries[..i + 1]) <==>
            EntryShaped(entries[i].value) && (i == 0 || StrLess(entries[i - 1].key, entries[i].key))
  {
    var a, b := entries[..i], entries[..i + 1];
    AscendAppend(entries, i);
    assert b[i] == entries[i] && forall p | 0 <= p < i :: b[p] == a[p];
  }

  lemma DiffShorter(entries: seq<Entry>, k: nat, i: nat)
    requires i <= k <= |entries| && DiffShaped(entries[..k])
    ensures DiffShaped(entries[..i])
  {
    var a, b := entries[..i], entries[..k];
    PrefixAscends(b, i);
    assert b[..i] == a;
    forall p | 0 <= p < |a| ensures EntryShaped(a[p].value) { assert a[p] == b[p]; }
  }

  /** An accepted tree does not stop the loader. */
  lemma {:induction false} ShapedNotStuck(entries: seq<Entry>)
    requires DiffShaped(entries)
    ensures !DiffStuck(entries)
    decreases entries
  {
    if i: nat :| StuckAt(entries, i) {
      var t := entries[i].value;
      assert EntryShaped(t) && EntryStuck(t);
      if t.BtDict? { ShapedNotStuck(t.entries); }
    }
  }

  /** The first entry that is not accepted decides between an error and an endless loop. */
  lemma FirstFault(entries: seq<Entry>, i: nat)
    requires i < |entries| && DiffShaped(entries[..i]) && !DiffShaped(entries[..i + 1])
    ensures !DiffShaped(entries) && (DiffStuck(entries) <==> StuckAt(entries, i))
  {
    assert entries[..|entries|] == entries;
    if DiffShaped(entries) { DiffShorter(entries, |entries|, i + 1); }
    forall k: nat | StuckAt(entries, k) ensures k == i {
      if i < k {
        DiffShorter(entries, k, i + 1);
      } else if k < i {
        var t := entries[..i][k].value;
        assert EntryShaped(t) && EntryStuck(t);
        EntryNotStuck(t);
      }
    }
  }

  lemma EntryNotStuck(t: Bt)
    requires EntryShaped(t)
    ensures !EntryStuck(t)
  {
    if t.BtDict? { ShapedNotStuck(t.entries); }
  }

  ghost function LoadOf(entries: seq<Entry>): Load<Diffs> {
    if DiffShaped(entries) then Loaded(ReadDiffs(entries)) else if DiffStuck(entries) then Stuck else Refused
  }

  ghost function EntryLoad(t: Bt): Load<Diff> {
    if EntryShaped(t) then Loaded(ReadEntry(t)) else if EntryStuck(t) then Stuck else Refused
  }

  /**
   The loading loop: it accepts exactly the trees of the shape above, loops for ever exactly
   on those in which an integer value is reached after an accepted part, at any depth, and
   refuses all others.
   */
  method LoadDiff(entries: seq<Entry>) returns (r: Load<Diffs>)
    ensures r == LoadOf(entries)
    ensures r.Loaded? <==> DiffShaped(entries)
    ensures r.Stuck? <==> DiffStuck(entries)
    decreases entries, 0
  {
    var df: Diffs := map[];
    for i := 0 to |entries|
      invariant DiffShaped(entries[..i]) && df == ReadDiffs(entries[..i])
    {
      var key := entries[i].key;
      DiffPrefix(entries, i);
      DiffZipAppend(entries, i);
      if !DiffShaped(entries[..i + 1]) { FirstFault(entries, i); }
      if i > 0 {
        StrTrichotomy(entries[i - 1].key, key);
        if key == entries[i - 1].key || StrLess(key, entries[i - 1].key) { return Refused; }
      }
      var e := LoadEntry(entries[i].value);
      if e.Refused? { return Refused; }
      if e.Stuck? { return Stuck; }
      df := df[key := e.value];
    }
    assert entries[..|entries|] == entries;
    ShapedNotStuck(entries);
    r := Loaded(df);
  }

  method LoadEntry(t: Bt) returns (r: Load<Diff>)
    ensures r == EntryLoad(t)
    decreases t, 1
  {
    match t {
      case BtInt(_) => r := Stuck;
      case BtStr(mode) => r := if mode == "" then Loaded(Assign) else if mode == "-" then Loaded(Delete) else Refused;
      case BtList(changed) => r := LoadSetChange(changed);
      case BtDict(es) =>
        var sub := LoadDiff(es);
        r := match sub case Loaded(df) => Loaded(DictDiff(df)) case Refused => Refused case Stuck => Stuck;
    }
  }

  method LoadSetChange(changed: seq<Bt>) returns (r: Load<Diff>)
    ensures r == if ChangeLists(changed) then Loaded(ReadEntry(BtList(changed))) else Refused
  {
    if |changed| != 2 { return Refused; }
    for j := 0 to 2
      invariant forall p | 0 <= p < j :: changed[p].BtList? && NeighboursInOrder(changed[p].items)
    {
      if !changed[j].BtList? { return Refused; }
      var sorted := CheckScalarOrders(changed[j].items);
      if !sorted { return Refused; }
    }
    r := Loaded(ReadEntry(BtList(changed)));
  }

  lemma DiffZipAppend(entries: seq<Entry>, i: nat)
    requires i < |entries|
    ensures ReadDiffs(entries[..i + 1]) == ReadDiffs(entries[..i])[entries[i].key := ReadEntry(entries[i].value)]
  {
    var a, b := entries[..i], entries[..i + 1];
    assert KeysOf(b)[..i] == KeysOf(a) && ReadEntries(b)[..i] == ReadEntries(a);
  }

  method CheckScalarOrders(items: seq<Bt>) returns (ok: bool)
    ensures ok <==> NeighboursInOrder(items)
  {
    if items == [] { return true; }
    var j := 1;
    while j < |items|
      invariant 1 <= j <= |items| && forall i | 0 <= i < j - 1 :: InScalarOrder(items[i], items[i + 1])
    {
      var a, b := items[j - 1], items[j];
      if !IsScalar(a) || !IsScalar(b) { assert !InScalarOrder(items[j - 1], items[j - 1 + 1]); return false; }
      if a.BtStr? && b.BtInt? { assert !InScalarOrder(items[j - 1], items[j - 1 + 1]); return false; }
      if a.BtInt? && b.BtInt? && a.i >= b.i { assert !InScalarOrder(items[j - 1], items[j - 1 + 1]); return false; }
      if a.BtStr? && b.BtStr? {
        StrTrichotomy(a.s, b.s);
        if a.s == b.s || StrLess(b.s, a.s) { assert !InScalarOrder(items[j - 1], items[j - 1 + 1]); return false; }
      }
      j := j + 1;
    }
    ok := true;
  }

  // ----- the meaning of a loaded diff ------------------------------------------------------------

  /** Every element of every list of set changes is a scalar. */
  predicate ScalarChanges(entries: seq<Entry>)
    decreases entries, 0
  {
    forall i | 0 <= i < |entries| :: ScalarChange(entries[i].value)
  }

  predicate ScalarChange(t: Bt)
    decreases t, 1
  {
    && (t.BtDict? ==> ScalarChanges(t.entries))
    && (t.BtList? ==> forall i | 0 <= i < |t.items| :: t.items[i].BtList? ==> AllScalars(t.items[i].items))
  }

  function WriteDiff(e: Diff): Bt
    decreases e, 1
  {
    match e
    case Assign => BtStr("")
    case Delete => BtStr("-")
    case SetDiff(a, r) => BtList([BtList(WriteSet(a)), BtList(WriteSet(r))])
    case Stray(items) => BtList(items)
    case DictDiff(m) => BtDict(WriteDiffs(m))
  }

  function WriteDiffs(df: Diffs): (r: seq<Entry>)
    ensures |r| == |Keys(df.Keys)|
    decreases DictDiff(df), 0
  {
    var keys := Keys(df.Keys);
    seq(|keys|, i requires 0 <= i < |keys| =>
      assert keys[i] in keys;
      Entry(keys[i], WriteDiff(df[keys[i]])))
  }

  /** A set change with an element that is not a scalar is kept as it is. */
  function ReadEntry(t: Bt): Diff
    decreases t, 2
  {
    match t
    case BtInt(_) => Delete
    case BtStr(s) => if s == "" then Assign else Delete
    case BtList(items) =>
      if ScalarLists(items) then SetDiff(MembersOf(items[0].items), MembersOf(items[1].items))
      else if IsStray(items) then Stray(items)
      else Delete
    case BtDict(es) => DictDiff(ReadDiffs(es))
  }

  function ReadEntries(entries: seq<Entry>): (r: seq<Diff>)
    ensures |r| == |entries|
    decreases entries, 0
  {
    seq(|entries|, i requires 0 <= i < |entries| => ReadEntry(entries[i].value))
  }

  function ReadDiffs(entries: seq<Entry>): Diffs
    decreases entries, 1
  {
    Zip(KeysOf(entries), ReadEntries(entries))
  }

  lemma DiffWrittenAt(df: Diffs, i: nat)
    requires i < |WriteDiffs(df)|
    ensures var k := Keys(df.Keys)[i]; k in df && WriteDiffs(df)[i] == Entry(k, WriteDiff(df[k]))
  {
    assert Keys(df.Keys)[i] in Keys(df.Keys);
  }

  /** A written diff reads back. */
  lemma {:induction false} DiffReadWrite(df: Diffs)
    ensures ReadDiffs(WriteDiffs(df)) == df
    decreases DictDiff(df), 1
  {
    var es, keys := WriteDiffs(df), Keys(df.Keys);
    assert KeysOf(es) == keys;
    forall i | 0 <= i < |keys| ensures keys[i] in df && ReadEntries(es)[i] == df[keys[i]] {
      DiffWrittenAt(df, i);
      EntryReadWrite(df[keys[i]]);
    }
    ZipOfMap(df, keys, ReadEntries(es));
  }

  lemma {:induction false} EntryReadWrite(e: Diff)
    ensures ReadEntry(WriteDiff(e)) == e
    decreases e, 2
  {
    if e.DictDiff? { DiffReadWrite(e.entries); }
    if e.SetDiff? {
      SetRoundTrip([], e.added);
      SetRoundTrip([], e.removed);
      WrittenChange(e.added, e.removed);
    }
  }

  lemma WrittenChange(added: set<Scalar>, removed: set<Scalar>)
    ensures ScalarLists([BtList(WriteSet(added)), BtList(WriteSet(removed))])
  {
    SetRoundTrip([], added);
    SetRoundTrip([], removed);
    NeighboursOfSorted(WriteSet(added));
    NeighboursOfSorted(WriteSet(removed));
  }

  lemma NeighboursOfSorted(items: seq<Bt>)
    requires AllScalars(items)
    ensures NeighboursInOrder(items) <==> SortedScalars(items)
  {
    var r := ReadScalars(items);
    if SortedScalars(items) {
      forall i | 0 <= i < |items| - 1 ensures InScalarOrder(items[i], items[i + 1]) { assert ScalarLess(r[i], r[i + 1]); }
    }
    if NeighboursInOrder(items) {
      forall i, j | 0 <= i < j < |r| ensures ScalarLess(r[i], r[j]) { ChainOrder(items, i, j); }
    }
  }

  lemma {:induction false} ChainOrder(items: seq<Bt>, i: nat, j: nat)
    requires AllScalars(items) && NeighboursInOrder(items) && i < j < |items|
    ensures ScalarLess(ReadScalar(items[i]), ReadScalar(items[j]))
    decreases j
  {
    assert InScalarOrder(items[j - 1], items[j - 1 + 1]);
    if i < j - 1 {
      ChainOrder(items, i, j - 1);
      ScalarTransitive(ReadScalar(items[i]), ReadScalar(items[j - 1]), ReadScalar(items[j]));
    }
  }

  lemma ScalarTransitive(a: Scalar, b: Scalar, c: Scalar)
    requires ScalarLess(a, b) && ScalarLess(b, c)
    ensures ScalarLess(a, c)
  {
    if a.Str? && b.Str? && c.Str? { StrTransitive(a.s, b.s, c.s); }
  }

  /** A written diff is accepted; its set changes are all scalars exactly when it is clean. */
  lemma {:induction false} DiffWriteShaped(df: Diffs)
    ensures DiffShaped(WriteDiffs(df)) && (ScalarChanges(WriteDiffs(df)) <==> Clean(df))
    decreases DictDiff(df), 1
  {
    var es, keys := WriteDiffs(df), Keys(df.Keys);
    forall i, j | 0 <= i < j < |es| ensures StrLess(es[i].key, es[j].key) { assert StrLess(keys[i], keys[j]); }
    forall i | 0 <= i < |es|
      ensures keys[i] in df && EntryShaped(es[i].value) && (ScalarChange(es[i].value) <==> CleanEntry(df[keys[i]]))
    {
      DiffWrittenAt(df, i);
      EntryWriteShaped(df[keys[i]]);
    }
    CleanByKeys(df, keys);
  }

  lemma CleanByKeys(df: Diffs, keys: seq<string>)
    requires forall k :: k in keys <==> k in df
    ensures Clean(df) <==> forall i | 0 <= i < |keys| :: keys[i] in df && CleanEntry(df[keys[i]])
  {
    if Clean(df) { forall i | 0 <= i < |keys| ensures keys[i] in df && CleanEntry(df[keys[i]]) { assert keys[i] in keys; } }
    if forall i | 0 <= i < |keys| :: keys[i] in df && CleanEntry(df[keys[i]]) {
      forall k | k in df ensures CleanEntry(df[k]) {
        assert k in keys;
        var i :| 0 <= i < |keys| && keys[i] == k;
      }
    }
  }

  lemma {:induction false} EntryWriteShaped(e: Diff)
    ensures EntryShaped(WriteDiff(e)) && (ScalarChange(WriteDiff(e)) <==> CleanEntry(e))
    decreases e, 2
  {
    if e.DictDiff? { DiffWriteShaped(e.entries); }
    if e.SetDiff? {
      WrittenChange(e.added, e.removed);
      ChangeIsScalar([BtList(WriteSet(e.added)), BtList(WriteSet(e.removed))]);
    }
    if e.Stray? { ChangeIsScalar(e.items); }
  }

  lemma ChangeIsScalar(items: seq<Bt>)
    requires ChangeLists(items)
    ensures ScalarChange(BtList(items)) <==> ScalarLists(items)
  {
    var t := BtList(items);
    assert t.items == items && items[0].BtList? && items[1].BtList?;
  }

  /** What the loader accepts is written back as it was. */
  lemma {:induction false} DiffWriteRead(entries: seq<Entry>)
    requires DiffShaped(entries)
    ensures WriteDiffs(ReadDiffs(entries)) == entries
    decreases entries, 0
  {
    var df, keys, vals := ReadDiffs(entries), KeysOf(entries), ReadEntries(entries);
    AscendIsSorted(entries);
    KeysOfZip(keys, vals);
    forall i | 0 <= i < |entries| ensures WriteDiffs(df)[i] == entries[i] {
      ZipLookup(keys, vals, i);
      assert EntryShaped(entries[i].value);
      EntryWriteRead(entries[i].value);
      DiffWrittenAt(df, i);
    }
  }

  lemma {:induction false} EntryWriteRead(t: Bt)
    requires EntryShaped(t)
    ensures WriteDiff(ReadEntry(t)) == t
    decreases t, 1
  {
    if t.BtDict? { DiffWriteRead(t.entries); }
    if t.BtList? && ScalarLists(t.items) {
      var a, r := t.items[0].items, t.items[1].items;
      NeighboursOfSorted(a);
      NeighboursOfSorted(r);
      SetRoundTrip(a, {});
      SetRoundTrip(r, {});
      assert t.items == [t.items[0], t.items[1]];
    }
  }

  /** The loader accepts a tree exactly when it is a written diff, stray set changes included. */
  lemma DiffAccepted(entries: seq<Entry>)
    ensures DiffShaped(entries) <==> exists df: Diffs :: WriteDiffs(df) == entries
  {
    if DiffShaped(entries) { DiffWriteRead(entries); }
    if df: Diffs :| WriteDiffs(df) == entries { DiffWriteShaped(df); }
  }

  /**
   What is loaded can always be applied exactly when all the listed set changes are scalars,
   which the loader does not check for a list of one element.
   */
  lemma LoadedIsClean(entries: seq<Entry>)
    requires DiffShaped(entries)
    ensures Clean(ReadDiffs(entries)) <==> ScalarChanges(entries)
  {
    DiffWriteRead(entries);
    DiffWriteShaped(ReadDiffs(entries));
  }

  const STRAY_TREE: seq<Entry> := [Entry("k", BtList(StrayExample()))]

  /** Such a tree exists: the loader accepts a set change whose only added element is a list. */
  lemma LoadedButStray()
    ensures LoadOf(STRAY_TREE) == Loaded(map["k" := Stray(StrayExample())]) && !ScalarChanges(STRAY_TREE)
  {
    var es := STRAY_TREE;
    assert es[0] == Entry("k", BtList(StrayExample()));
    ChangeIsScalar(StrayExample());
    assert !ScalarChange(es[0].value) && EntryShaped(es[0].value);
    assert es[..0] == [];
    DiffZipAppend(es, 0);
    assert es[..1] == es;
    assert ReadDiffs([]) == map[];
  }

  /** And an integer makes the loader loop for ever, unless an entry before it is refused. */
  lemma IntegerStops(k: string, n: int, rest: seq<Entry>)
    ensures LoadOf([Entry(k, BtInt(n))] + rest) == Stuck
    ensures LoadOf([Entry(k, BtStr("?")), Entry(k, BtInt(n))] + rest) == Refused
  {
    var es := [Entry(k, BtInt(n))] + rest;
    assert es[..0] == [] && es[0] == Entry(k, BtInt(n));
    assert StuckAt(es, 0);
    assert !EntryShaped(es[0].value);
    var fs := [Entry(k, BtStr("?")), Entry(k, BtInt(n))] + rest;
    assert fs[..0] == [] && fs[0] == Entry(k, BtStr("?")) && fs[..1][0] == fs[0];
    assert !EntryShaped(fs[0].value);
    DiffPrefix(fs, 0);
    FirstFault(fs, 0);
  }
}
