/**
 The serialised forms, spelled out, and exactly what the parser of messages accepts
 (src/config.cpp:203-266, 311-342, 525-561, 745-764).
 */
module WireForms {
  import opened Options
  import opened Ordering
  import opened ConfigData
  import opened BtTree
  import opened ConfigDiff
  import opened ConfigMerge
  import opened Wire
  import opened WireParse
  import opened WireMessage

  // ----- data ------------------------------------------------------------------------------------------

  /** Ints come before strings, ints by value and strings by bytes. */
  lemma ScalarForm(a: Scalar, b: Scalar)
    ensures ScalarLess(a, b) <==>
            match a
            case Int(i) => b.Str? || i < b.i
            case Str(s) => b.Str? && StrLess(s, b.s)
  {
  }

  /** `items` lists exactly the members of `s`, each as it is, in strictly ascending order. */
  ghost predicate ListsSet(items: seq<Bt>, s: set<Scalar>) {
    && (forall i | 0 <= i < |items| :: items[i].BtInt? || items[i].BtStr?)
    && (forall x :: x in s <==> match x case Int(n) => BtInt(n) in items case Str(t) => BtStr(t) in items)
    && (forall i, j | 0 <= i < j < |items| ::
          match items[i]
          case BtInt(n) => items[j].BtStr? || n < items[j].i
          case BtStr(t) => items[j].BtStr? && StrLess(t, items[j].s)
          case _ => false)
  }

  lemma WrittenSet(s: set<Scalar>)
    ensures ListsSet(WriteSet(s), s)
  {
    var items, xs := WriteSet(s), Scalars(s);
    SetRoundTrip([], s);
    forall x | x in s ensures WriteScalar(x) in items {
      assert x in xs;
      var i :| 0 <= i < |xs| && xs[i] == x;
      assert ReadScalars(items)[i] == x && items[i] == WriteScalar(x);
    }
    forall x | WriteScalar(x) in items ensures x in s {
      var i :| 0 <= i < |items| && items[i] == WriteScalar(x);
      assert ReadScalar(items[i]) == x && ReadScalars(items)[i] == xs[i];
      assert xs[i] in xs;
    }
    forall i, j | 0 <= i < j < |items| ensures ScalarLess(ReadScalar(items[i]), ReadScalar(items[j])) {
      assert ReadScalars(items)[i] == xs[i] && ReadScalars(items)[j] == xs[j];
    }
  }

  /** A dict is written as its entries in key order: ints, strings, sorted lists and dicts as such. */
  lemma WrittenDict(d: Dict, i: nat)
    requires i < |WriteDict(d)|
    ensures KeysAscend(WriteDict(d)) && |WriteDict(d)| == |Keys(d.Keys)|
    ensures var e := WriteDict(d)[i];
            e.key in d &&
            match d[e.key]
            case ScalarV(Int(n)) => e.value == BtInt(n)
            case ScalarV(Str(t)) => e.value == BtStr(t)
            case SetV(s) => e.value.BtList? && ListsSet(e.value.items, s)
            case DictV(sub) => e.value == BtDict(WriteDict(sub))
  {
    WriteAscends(d);
    WrittenAt(d, i);
    var v := d[Keys(d.Keys)[i]];
    if v.SetV? { WrittenSet(v.elems); }
  }

  /** A diff: the empty string assigns, a dash deletes, and a set change lists additions, then removals. */
  lemma WrittenDiff(df: Diffs, i: nat)
    requires i < |WriteDiffs(df)|
    ensures KeysAscend(WriteDiffs(df)) && |WriteDiffs(df)| == |Keys(df.Keys)|
    ensures var e := WriteDiffs(df)[i];
            e.key in df &&
            match df[e.key]
            case Assign => e.value == BtStr("")
            case Delete => e.value == BtStr("-")
            case SetDiff(a, r) =>
              e.value.BtList? && |e.value.items| == 2 && e.value.items[0].BtList? && e.value.items[1].BtList?
              && ListsSet(e.value.items[0].items, a) && ListsSet(e.value.items[1].items, r)
            case Stray(items) => e.value == BtList(items)
            case DictDiff(sub) => e.value == BtDict(WriteDiffs(sub))
  {
    DiffWriteShaped(df);
    DiffWrittenAt(df, i);
    var e := df[Keys(df.Keys)[i]];
    if e.SetDiff? {
      WrittenSet(e.added);
      WrittenSet(e.removed);
    }
  }

  // ----- what the loader of diffs makes of an entry ------------------------------------------------------------

  /** A list in a set change: the written members of a set, or any single element at all. */
  ghost predicate ChangeList(t: Bt) {
    t.BtList? && (|t.items| == 1 || exists s :: ListsSet(t.items, s))
  }

  lemma ChangeListIff(items: seq<Bt>)
    ensures NeighboursInOrder(items) <==> ChangeList(BtList(items))
  {
    if |items| != 1 {
      if NeighboursInOrder(items) {
        forall i | 0 <= i < |items| ensures IsScalar(items[i]) {
          if i > 0 { assert InScalarOrder(items[i - 1], items[i - 1 + 1]); } else { assert InScalarOrder(items[i], items[i + 1]); }
        }
        NeighboursOfSorted(items);
        SetRoundTrip(items, {});
        WrittenSet(MembersOf(items));
      }
      if s :| ListsSet(items, s) {
        forall i | 0 <= i < |items| - 1 ensures InScalarOrder(items[i], items[i + 1]) {
        }
      }
    }
  }

  /** A set change is two such lists. */
  lemma ChangeListsIff(items: seq<Bt>)
    ensures ChangeLists(items) <==> |items| == 2 && ChangeList(items[0]) && ChangeList(items[1])
  {
    if |items| == 2 && items[0].BtList? && items[1].BtList? {
      ChangeListIff(items[0].items);
      ChangeListIff(items[1].items);
      assert items[0] == BtList(items[0].items) && items[1] == BtList(items[1].items);
    }
  }

  /** The value ends the loading, with this result. */
  ghost predicate EndsLoading(t: Bt, r: Load<Diffs>) {
    match t
    case BtInt(_) => r == Stuck
    case BtStr(s) => s != "" && s != "-" && r == Refused
    case BtList(items) => !(|items| == 2 && ChangeList(items[0]) && ChangeList(items[1])) && r == Refused
    case BtDict(es) => !LoadOf(es).Loaded? && r == LoadOf(es)
  }

  /**
   After an accepted part, a key that does not follow is refused; else the value decides: it is
   accepted, or ends the loading whatever comes after it.
   */
  lemma LoadedNext(front: seq<Entry>, e: Entry, rest: seq<Entry>)
    requires LoadOf(front).Loaded?
    ensures var r := LoadOf(front + [e] + rest);
            if exists i :: 0 <= i < |front| && !StrLess(front[i].key, e.key) then r == Refused
            else LoadOf(front + [e]).Loaded? <==> !EndsLoading(e.value, r)
  {
    var all, n := front + [e] + rest, |front|;
    assert all[..n] == front && all[..n + 1] == front + [e] && all[n] == e;
    LastDecides(front, e.key);
    DiffPrefix(all, n);
    if !DiffShaped(front + [e]) { FirstFault(all, n); }
    if e.value.BtList? { ChangeListsIff(e.value.items); }
  }

  lemma LastDecides(front: seq<Entry>, key: string)
    requires KeysAscend(front)
    ensures (forall i | 0 <= i < |front| :: StrLess(front[i].key, key)) <==> front == [] || StrLess(front[|front| - 1].key, key)
  {
    forall i | 0 <= i < |front| - 1 && StrLess(front[|front| - 1].key, key) ensures StrLess(front[i].key, key) {
      StrTransitive(front[i].key, front[|front| - 1].key, key);
    }
  }

  /** A lagged diff: seqno, hash and diff, the rows in ascending order of seqno and hash. */
  lemma WrittenRow(lagged: map<Id, Diffs>, p: nat)
    requires p < |WriteLags(lagged)|
    ensures var i := Ids(lagged.Keys)[p];
            i in lagged && WriteLags(lagged)[p] == BtList([BtInt(i.seqno), BtStr(i.hash), BtDict(WriteDiffs(lagged[i]))])
    ensures |WriteLags(lagged)| == |Ids(lagged.Keys)|
  {
    RowAt(lagged, p);
  }

  /** A message: everything it has, and of the lagged diffs those between its own seqno and `lag` below it. */
  lemma WrittenMessage(seqno: int, data: Dict, lagged: map<Id, Diffs>, diff: Diffs, lag: int)
    ensures var w := Serialized(seqno, data, lagged, diff, lag);
            && w.seqno == seqno && w.data == WriteDict(data) && w.diff == WriteDiffs(diff)
            && exists win: map<Id, Diffs> ::
                 && (forall i :: i in win <==> i in lagged && seqno - lag < i.seqno && i.seqno < seqno)
                 && (forall i | i in win :: win[i] == lagged[i]) && w.lagged == WriteLags(win)
  {
    var win := Window(lagged, seqno, lag);
    assert Serialized(seqno, data, lagged, diff, lag).lagged == WriteLags(win);
  }

  // ----- what the parser of messages accepts ------------------------------------------------------------------

  /** The row is a list that starts with a seqno below the message's. */
  predicate HasSeqno(t: Bt, seqno: int) {
    t.BtList? && |t.items| > 0 && t.items[0].BtInt? && t.items[0].i < seqno
  }

  /** The row is a seqno, a hash of 32 bytes and a diff, and nothing else. */
  predicate IsRow(t: Bt) {
    t.BtList? && |t.items| == 3 && t.items[0].BtInt? && t.items[1].BtStr? && |t.items[1].s| == 32
    && t.items[2].BtDict? && DiffShaped(t.items[2].entries)
  }

  predicate IsOld(t: Bt, seqno: int, lag: int) {
    HasSeqno(t, seqno) && t.items[0].i <= seqno - lag
  }

  lemma ReadRowIff(t: Bt, seqno: int, lag: int)
    ensures ReadRow(t, seqno, lag).TooOldRow? <==> IsOld(t, seqno, lag)
    ensures ReadRow(t, seqno, lag).Good? <==> HasSeqno(t, seqno) && !IsOld(t, seqno, lag) && IsRow(t)
    ensures ReadRow(t, seqno, lag).Good? ==>
            ReadRow(t, seqno, lag).row == Row(Id(t.items[0].i, t.items[1].s), ReadDiffs(t.items[2].entries))
  {
  }

  /** Every row is old or good, and the good ones ascend. */
  ghost predicate RowsFine(rs: seq<RowRead>) {
    && (forall p | 0 <= p < |rs| :: rs[p].TooOldRow? || rs[p].Good?)
    && (forall p, q | 0 <= p < q < |rs| && rs[p].Good? && rs[q].Good? :: IdLess(rs[p].row.id, rs[q].row.id))
  }

  /** The rows are the good ones of `rs`. */
  ghost predicate AreRowsOf(rows: seq<Row>, rs: seq<RowRead>) {
    forall row :: row in rows <==> exists p :: 0 <= p < |rs| && rs[p] == Good(row)
  }

  lemma {:induction false} AddRowsIff(rs: seq<RowRead>)
    ensures AddRows(rs).Loaded? <==> RowsFine(rs)
    ensures AddRows(rs).Loaded? ==> AreRowsOf(AddRows(rs).value, rs) && RowsFollow(AddRows(rs).value)
    decreases |rs|
  {
    if rs != [] {
      var n := |rs| - 1;
      var front := rs[..n];
      assert forall p | 0 <= p < n :: front[p] == rs[p];
      AddRowsIff(front);
      RowsFineStep(rs);
      if AddRows(front).Loaded? {
        var before := AddRows(front).value;
        if rs[n].Good? {
          FollowsAll(before, front, rs[n].row.id);
          if Follows(before, rs[n].row.id) { OneMoreRow(before, rs); }
        } else if rs[n].TooOldRow? {
          SameRows(before, rs);
        }
      }
    }
  }

  lemma RowsFineStep(rs: seq<RowRead>)
    requires rs != []
    ensures var n := |rs| - 1; var front := rs[..n];
            RowsFine(rs) <==>
            && RowsFine(front)
            && (rs[n].TooOldRow? || (rs[n].Good? && forall p | 0 <= p < n && front[p].Good? :: IdLess(front[p].row.id, rs[n].row.id)))
  {
    var n := |rs| - 1;
    var front := rs[..n];
    assert forall p | 0 <= p < n :: front[p] == rs[p];
  }

  /** A row follows the last of ascending rows exactly when it follows them all. */
  lemma FollowsAll(rows: seq<Row>, rs: seq<RowRead>, id: Id)
    requires AreRowsOf(rows, rs) && RowsFollow(rows)
    ensures Follows(rows, id) <==> forall p | 0 <= p < |rs| && rs[p].Good? :: IdLess(rs[p].row.id, id)
  {
    if Follows(rows, id) {
      forall p | 0 <= p < |rs| && rs[p].Good? ensures IdLess(rs[p].row.id, id) {
        assert rs[p] == Good(rs[p].row);
        assert rs[p].row in rows;
        var k :| 0 <= k < |rows| && rows[k] == rs[p].row;
        ChainOfRows(rows, k, id);
      }
    } else {
      var last := rows[|rows| - 1];
      assert last in rows;
      var p :| 0 <= p < |rs| && rs[p] == Good(last);
    }
  }

  lemma {:induction false} ChainOfRows(rows: seq<Row>, k: nat, id: Id)
    requires RowsFollow(rows) && Follows(rows, id) && k < |rows|
    ensures IdLess(rows[k].id, id)
    decreases |rows| - k
  {
    if k < |rows| - 1 {
      ChainOfRows(rows, k + 1, id);
      assert IdLess(rows[k + 1 - 1].id, rows[k + 1].id);
      IdTransitive(rows[k].id, rows[k + 1].id, id);
    }
  }

  lemma OneMoreRow(before: seq<Row>, rs: seq<RowRead>)
    requires rs != [] && rs[|rs| - 1].Good? && AreRowsOf(before, rs[..|rs| - 1]) && RowsFollow(before)
    requires Follows(before, rs[|rs| - 1].row.id)
    ensures AreRowsOf(before + [rs[|rs| - 1].row], rs) && RowsFollow(before + [rs[|rs| - 1].row])
  {
    var n := |rs| - 1;
    var front, rows := rs[..n], before + [rs[n].row];
    forall row ensures row in rows <==> exists p :: 0 <= p < |rs| && rs[p] == Good(row) {
      if row in before {
        var p :| 0 <= p < n && front[p] == Good(row);
        assert rs[p] == Good(row);
      }
      if p :| 0 <= p < |rs| && rs[p] == Good(row) {
        if p < n { assert front[p] == Good(row); }
      }
      assert rs[n] == Good(rs[n].row);
    }
  }

  lemma SameRows(before: seq<Row>, rs: seq<RowRead>)
    requires rs != [] && rs[|rs| - 1].TooOldRow? && AreRowsOf(before, rs[..|rs| - 1])
    ensures AreRowsOf(before, rs)
  {
    var n := |rs| - 1;
    var front := rs[..n];
    forall row ensures row in before <==> exists p :: 0 <= p < |rs| && rs[p] == Good(row) {
      if row in before {
        var p :| 0 <= p < n && front[p] == Good(row);
        assert rs[p] == Good(row);
      }
      if p :| 0 <= p < |rs| && rs[p] == Good(row) { assert front[p] == Good(row); }
    }
  }

  /** If both are rows inside the window, `a` has the lesser seqno and hash. */
  predicate InOrder(a: Bt, b: Bt, seqno: int, lag: int) {
    IsRow(a) && IsRow(b) && !IsOld(a, seqno, lag) && !IsOld(b, seqno, lag) ==>
      IdLess(Id(a.items[0].i, a.items[1].s), Id(b.items[0].i, b.items[1].s))
  }

  /**
   A message is accepted exactly when its data is the writing of a pruned dict, its own diff is the
   writing of a diff, and every lagged row starts with a seqno below the message's, the rows inside
   the window being seqno, hash and diff in ascending order; older rows are not looked into.
   */
  lemma MessageLoadedIff(w: WireMsg, hash: string, lag: int)
    ensures ReadMessage(w, hash, lag).Loaded? <==>
            && DataShaped(w.data) && DiffShaped(w.diff)
            && (forall p | 0 <= p < |w.lagged| :: HasSeqno(w.lagged[p], w.seqno) && (IsOld(w.lagged[p], w.seqno, lag) || IsRow(w.lagged[p])))
            && (forall p, q | 0 <= p < q < |w.lagged| :: InOrder(w.lagged[p], w.lagged[q], w.seqno, lag))
  {
    var items, rs := w.lagged, RowReads(w.lagged, w.seqno, lag);
    AddRowsIff(rs);
    forall p | 0 <= p < |items|
      ensures rs[p].TooOldRow? <==> IsOld(items[p], w.seqno, lag)
      ensures rs[p].Good? <==> HasSeqno(items[p], w.seqno) && !IsOld(items[p], w.seqno, lag) && IsRow(items[p])
      ensures rs[p].Good? ==> rs[p].row.id == Id(items[p].items[0].i, items[p].items[1].s)
    {
      ReadRowIff(items[p], w.seqno, lag);
    }
    RowsFineIff(items, rs, w.seqno, lag);
  }

  lemma RowsFineIff(items: seq<Bt>, rs: seq<RowRead>, seqno: int, lag: int)
    requires |rs| == |items|
    requires forall p | 0 <= p < |items| :: rs[p].TooOldRow? <==> IsOld(items[p], seqno, lag)
    requires forall p | 0 <= p < |items| :: rs[p].Good? <==> HasSeqno(items[p], seqno) && !IsOld(items[p], seqno, lag) && IsRow(items[p])
    requires forall p | 0 <= p < |items| && rs[p].Good? && IsRow(items[p]) :: rs[p].row.id == Id(items[p].items[0].i, items[p].items[1].s)
    ensures RowsFine(rs) <==>
            && (forall p | 0 <= p < |items| :: HasSeqno(items[p], seqno) && (IsOld(items[p], seqno, lag) || IsRow(items[p])))
            && (forall p, q | 0 <= p < q < |items| :: InOrder(items[p], items[q], seqno, lag))
  {
    if RowsFine(rs) {
      forall p | 0 <= p < |items| ensures HasSeqno(items[p], seqno) && (IsOld(items[p], seqno, lag) || IsRow(items[p])) {
        assert rs[p].TooOldRow? || rs[p].Good?;
      }
      forall p, q | 0 <= p < q < |items| ensures InOrder(items[p], items[q], seqno, lag) {
        assert (rs[p].TooOldRow? || rs[p].Good?) && (rs[q].TooOldRow? || rs[q].Good?);
      }
    }
    if (forall p | 0 <= p < |items| :: HasSeqno(items[p], seqno) && (IsOld(items[p], seqno, lag) || IsRow(items[p])))
       && (forall p, q | 0 <= p < q < |items| :: InOrder(items[p], items[q], seqno, lag)) {
      forall p, q | 0 <= p < q < |rs| && rs[p].Good? && rs[q].Good? ensures IdLess(rs[p].row.id, rs[q].row.id) {
        assert InOrder(items[p], items[q], seqno, lag);
      }
    }
  }

  /** What is read: the tree's own parts, and the lagged diffs of exactly the rows inside the window. */
  lemma MessageRead(w: WireMsg, hash: string, lag: int)
    requires ReadMessage(w, hash, lag).Loaded?
    ensures var m := ReadMessage(w, hash, lag).value;
            && m.id == Id(w.seqno, hash) && WriteDict(m.data) == w.data && WriteDiffs(m.diff) == w.diff
            && (forall i :: i in m.lagged <==> exists p :: 0 <= p < |w.lagged| && RowFor(w.lagged[p], i, w.seqno, lag))
            && (forall i, p | i in m.lagged && 0 <= p < |w.lagged| && RowFor(w.lagged[p], i, w.seqno, lag) ::
                  WriteDiffs(m.lagged[i]) == w.lagged[p].items[2].entries)
  {
    var m := ReadMessage(w, hash, lag).value;
    var rs := RowReads(w.lagged, w.seqno, lag);
    var rows := AddRows(rs).value;
    WriteRead(w.data);
    DiffWriteRead(w.diff);
    AddRowsIff(rs);
    forall i ensures i in m.lagged <==> exists p :: 0 <= p < |w.lagged| && RowFor(w.lagged[p], i, w.seqno, lag) {
      LaggedKey(w, lag, i);
    }
    forall i, p | i in m.lagged && 0 <= p < |w.lagged| && RowFor(w.lagged[p], i, w.seqno, lag)
      ensures WriteDiffs(m.lagged[i]) == w.lagged[p].items[2].entries
    {
      LaggedValue(w, lag, i, p);
    }
  }

  /** The row, inside the window, is that of `i`. */
  predicate RowFor(t: Bt, i: Id, seqno: int, lag: int) {
    HasSeqno(t, seqno) && !IsOld(t, seqno, lag) && IsRow(t) && i == Id(t.items[0].i, t.items[1].s)
  }

  lemma LaggedKey(w: WireMsg, lag: int, i: Id)
    requires ReadRows(w.lagged, w.seqno, lag).Loaded?
    ensures i in RowMap(ReadRows(w.lagged, w.seqno, lag).value) <==>
            exists p :: 0 <= p < |w.lagged| && RowFor(w.lagged[p], i, w.seqno, lag)
  {
    var rs := RowReads(w.lagged, w.seqno, lag);
    var rows := AddRows(rs).value;
    AddRowsIff(rs);
    ZipKeys(RowIds(rows), RowDiffs(rows));
    if i in RowMap(rows) {
      var k :| 0 <= k < |rows| && RowIds(rows)[k] == i;
      assert rows[k] in rows;
      var p :| 0 <= p < |rs| && rs[p] == Good(rows[k]);
      ReadRowIff(w.lagged[p], w.seqno, lag);
      assert RowFor(w.lagged[p], i, w.seqno, lag);
    }
    if p :| 0 <= p < |w.lagged| && RowFor(w.lagged[p], i, w.seqno, lag) {
      ReadRowIff(w.lagged[p], w.seqno, lag);
      var row := rs[p].row;
      assert rs[p] == Good(row);
      assert row in rows;
      var k :| 0 <= k < |rows| && rows[k] == row;
      assert RowIds(rows)[k] == i;
    }
  }

  lemma LaggedValue(w: WireMsg, lag: int, i: Id, p: nat)
    requires ReadRows(w.lagged, w.seqno, lag).Loaded? && p < |w.lagged| && RowFor(w.lagged[p], i, w.seqno, lag)
    ensures var m := RowMap(ReadRows(w.lagged, w.seqno, lag).value);
            i in m && WriteDiffs(m[i]) == w.lagged[p].items[2].entries
  {
    var rs := RowReads(w.lagged, w.seqno, lag);
    var rows := AddRows(rs).value;
    AddRowsIff(rs);
    ReadRowIff(w.lagged[p], w.seqno, lag);
    var row := rs[p].row;
    assert rs[p] == Good(row);
    assert row in rows;
    var k :| 0 <= k < |rows| && rows[k] == row;
    RowIdsDistinct(rows);
    ZipLookup(RowIds(rows), RowDiffs(rows), k);
    DiffWriteRead(w.lagged[p].items[2].entries);
  }

  lemma RowIdsDistinct(rows: seq<Row>)
    requires RowsFollow(rows)
    ensures Distinct(RowIds(rows))
  {
    forall i, j | 0 <= i < j < |rows| ensures RowIds(rows)[i] != RowIds(rows)[j] {
      RowsAscend(rows, i, j);
      IdTotal(rows[i].id, rows[j].id);
    }
  }

  lemma {:induction false} RowsAscend(rows: seq<Row>, i: nat, j: nat)
    requires RowsFollow(rows) && i < j < |rows|
    ensures IdLess(rows[i].id, rows[j].id)
    decreases j
  {
    assert IdLess(rows[j - 1].id, rows[j].id);
    if i < j - 1 {
      RowsAscend(rows, i, j - 1);
      IdTransitive(rows[i].id, rows[j - 1].id, rows[j].id);
    }
  }
}
