/**
 Whole config messages on the wire (src/config.cpp:311-342, 525-561, 737-787), without
 unknown keys and signatures.
 */
module WireMessage {
  import opened Options
  import opened Ordering
  import opened ConfigData
  import opened BtTree
  import opened ConfigDiff
  import opened ConfigMerge
  import opened Wire
  import opened WireParse

  /** The values of the keys "#", "&", "<" and "=" of a serialised message. */
  datatype WireMsg = WireMsg(seqno: int, data: seq<Entry>, lagged: seq<Bt>, diff: seq<Entry>)

  // ----- serialising ----------------------------------------------------------------------------

  function WriteRow(i: Id, df: Diffs): Bt {
    BtList([BtInt(i.seqno), BtStr(i.hash), BtDict(WriteDiffs(df))])
  }

  function WriteLags(lagged: map<Id, Diffs>): (r: seq<Bt>)
    ensures |r| == |Ids(lagged.Keys)|
  {
    var ids := Ids(lagged.Keys);
    seq(|ids|, i requires 0 <= i < |ids| =>
      assert ids[i] in ids;
      WriteRow(ids[i], lagged[ids[i]]))
  }

  /** The serialised form: only the lagged diffs inside the window are written. */
  function Serialized(seqno: int, data: Dict, lagged: map<Id, Diffs>, diff: Diffs, lag: int): WireMsg {
    WireMsg(seqno, WriteDict(data), WriteLags(Window(lagged, seqno, lag)), WriteDiffs(diff))
  }

  /** The ids of `lagged` that the serialiser's filter lets through, among the first `n`. */
  ghost function FilteredRows(lagged: map<Id, Diffs>, ids: seq<Id>, seqno: int, lag: int): seq<Bt> {
    if ids == [] then []
    else
      var i := ids[|ids| - 1];
      FilteredRows(lagged, ids[..|ids| - 1], seqno, lag) +
      (if i in lagged && seqno - lag < i.seqno < seqno then [WriteRow(i, lagged[i])] else [])
  }

  ghost function FilteredIds(ids: seq<Id>, seqno: int, lag: int): seq<Id> {
    if ids == [] then []
    else
      var i := ids[|ids| - 1];
      FilteredIds(ids[..|ids| - 1], seqno, lag) + (if seqno - lag < i.seqno < seqno then [i] else [])
  }

  lemma {:induction false} FilteredAre(lagged: map<Id, Diffs>, ids: seq<Id>, seqno: int, lag: int)
    requires Sorted(ids, IdLess) && forall i | i in ids :: i in lagged
    ensures var fs := FilteredIds(ids, seqno, lag);
            && Sorted(fs, IdLess) && (forall i :: i in fs <==> i in ids && seqno - lag < i.seqno < seqno)
            && |FilteredRows(lagged, ids, seqno, lag)| == |fs|
            && forall p | 0 <= p < |fs| :: fs[p] in lagged && FilteredRows(lagged, ids, seqno, lag)[p] == WriteRow(fs[p], lagged[fs[p]])
    decreases |ids|
  {
    if ids != [] {
      var n := |ids| - 1;
      var short := ids[..n];
      assert forall i :: i in ids <==> i in short || i == ids[n];
      FilteredAre(lagged, short, seqno, lag);
      var fs := FilteredIds(short, seqno, lag);
      forall y | y in fs ensures IdLess(y, ids[n]) {
        var p :| 0 <= p < n && ids[p] == y;
      }
      SortedAppend(fs, ids[n], IdLess);
    }
  }

  lemma FilteredIsWindow(lagged: map<Id, Diffs>, seqno: int, lag: int)
    ensures FilteredRows(lagged, Ids(lagged.Keys), seqno, lag) == WriteLags(Window(lagged, seqno, lag))
  {
    var ids, w := Ids(lagged.Keys), Window(lagged, seqno, lag);
    FilteredAre(lagged, ids, seqno, lag);
    var fs := FilteredIds(ids, seqno, lag);
    IdOrder();
    SortedUnique(fs, Ids(w.Keys), IdLess);
    forall p | 0 <= p < |fs| ensures FilteredRows(lagged, ids, seqno, lag)[p] == WriteLags(w)[p] { assert fs[p] in fs; }
  }

  lemma FilterStep(lagged: map<Id, Diffs>, ids: seq<Id>, c: nat, seqno: int, lag: int)
    requires c < |ids| && ids[c] in lagged
    ensures FilteredRows(lagged, ids[..c + 1], seqno, lag) ==
            FilteredRows(lagged, ids[..c], seqno, lag) +
            (if ids[c].seqno <= seqno - lag || ids[c].seqno >= seqno then [] else [WriteRow(ids[c], lagged[ids[c]])])
  {
    assert ids[..c + 1][..c] == ids[..c];
  }

  method SerializeMessage(seqno: int, data: Dict, lagged: map<Id, Diffs>, diff: Diffs, lag: int) returns (w: WireMsg)
    ensures w == Serialized(seqno, data, lagged, diff, lag)
  {
    var body := SerializeData(data);
    var rows: seq<Bt>, ids := [], Ids(lagged.Keys);
    for c := 0 to |ids|
      invariant rows == FilteredRows(lagged, ids[..c], seqno, lag)
    {
      var i := ids[c];
      assert ids[c] in ids;
      FilterStep(lagged, ids, c, seqno, lag);
      if i.seqno <= seqno - lag || i.seqno >= seqno { continue; }
      rows := rows + [WriteRow(i, lagged[i])];
    }
    assert ids[..|ids|] == ids;
    FilteredIsWindow(lagged, seqno, lag);
    w := WireMsg(seqno, body, rows, WriteDiffs(diff));
  }

  // ----- parsing ----------------------------------------------------------------------------------

  datatype Row = Row(id: Id, diff: Diffs)

  datatype RowRead = Bad | TooOldRow | StuckRow(id: Id) | Good(row: Row)

  /**
   One lagged diff: a list of seqno, 32-byte hash and diff; only in-window rows are looked
   into.  The diff is loaded before the end of the list is checked.
   */
  ghost function ReadRow(t: Bt, seqno: int, lag: int): RowRead {
    if !t.BtList? || |t.items| == 0 || !t.items[0].BtInt? || t.items[0].i >= seqno then Bad
    else if t.items[0].i <= seqno - lag then TooOldRow
    else if |t.items| < 3 || !t.items[1].BtStr? || |t.items[1].s| != HASH_SIZE || !t.items[2].BtDict? then Bad
    else
      var id := Id(t.items[0].i, t.items[1].s);
      match LoadOf(t.items[2].entries)
      case Stuck => StuckRow(id)
      case Refused => Bad
      case Loaded(df) => if |t.items| == 3 then Good(Row(id, df)) else Bad
  }

  predicate Follows(rows: seq<Row>, id: Id) {
    rows == [] || IdLess(rows[|rows| - 1].id, id)
  }

  /** Take one more row; the ids must ascend strictly, which is checked before the diff is loaded. */
  function AddRow(r: Load<seq<Row>>, next: RowRead): Load<seq<Row>> {
    if !r.Loaded? || next.TooOldRow? then r
    else
      match next
      case Bad => Refused
      case StuckRow(id) => if Follows(r.value, id) then Stuck else Refused
      case Good(row) => if Follows(r.value, row.id) then Loaded(r.value + [row]) else Refused
  }

  function AddRows(rs: seq<RowRead>): Load<seq<Row>>
    decreases |rs|
  {
    if rs == [] then Loaded([]) else AddRow(AddRows(rs[..|rs| - 1]), rs[|rs| - 1])
  }

  ghost function RowReads(items: seq<Bt>, seqno: int, lag: int): (r: seq<RowRead>)
    ensures |r| == |items| && forall i | 0 <= i < |r| :: r[i] == ReadRow(items[i], seqno, lag)
  {
    seq(|items|, i requires 0 <= i < |items| => ReadRow(items[i], seqno, lag))
  }

  ghost function ReadRows(items: seq<Bt>, seqno: int, lag: int): Load<seq<Row>> {
    AddRows(RowReads(items, seqno, lag))
  }

  lemma RowsStep(rs: seq<RowRead>, c: nat)
    requires c < |rs|
    ensures AddRows(rs[..c + 1]) == AddRow(AddRows(rs[..c]), rs[c])
  {
    assert rs[..c + 1][..c] == rs[..c];
  }

  function RowIds(rows: seq<Row>): (r: seq<Id>)
    ensures |r| == |rows| && forall i | 0 <= i < |r| :: r[i] == rows[i].id
  {
    seq(|rows|, i requires 0 <= i < |rows| => rows[i].id)
  }

  function RowDiffs(rows: seq<Row>): (r: seq<Diffs>)
    ensures |r| == |rows| && forall i | 0 <= i < |r| :: r[i] == rows[i].diff
  {
    seq(|rows|, i requires 0 <= i < |rows| => rows[i].diff)
  }

  function RowMap(rows: seq<Row>): map<Id, Diffs> {
    Zip(RowIds(rows), RowDiffs(rows))
  }

  function WithHash(w: WireMsg, hash: string, rows: seq<Row>): Message {
    Message(Id(w.seqno, hash), ReadDict(w.data), ReadDiffs(w.diff), RowMap(rows))
  }

  /** How a message is parsed: data, then lagged diffs, then diff; `hash` is the hash of the serialised form. */
  ghost function ReadMessage(w: WireMsg, hash: string, lag: int): Load<Message> {
    if !DataShaped(w.data) then Refused
    else
      match ReadRows(w.lagged, w.seqno, lag)
      case Refused => Refused
      case Stuck => Stuck
      case Loaded(rows) =>
        match LoadOf(w.diff)
        case Refused => Refused
        case Stuck => Stuck
        case Loaded(_) => Loaded(WithHash(w, hash, rows))
  }

  lemma {:induction false} RowsFail(rs: seq<RowRead>, n: nat)
    requires n <= |rs| && !AddRows(rs[..n]).Loaded?
    ensures AddRows(rs) == AddRows(rs[..n])
    decreases |rs|
  {
    if n < |rs| {
      assert rs[..|rs| - 1][..n] == rs[..n];
      RowsFail(rs[..|rs| - 1], n);
    } else {
      assert rs[..n] == rs;
    }
  }

  /** Row `c` is in the window, follows the rows before it, and its diff stops the loader. */
  predicate RowStuckAt(rs: seq<RowRead>, c: nat) {
    && c < |rs| && AddRows(rs[..c]).Loaded? && rs[c].StuckRow?
    && Follows(AddRows(rs[..c]).value, rs[c].id)
  }

  lemma RowsStuckIff(rs: seq<RowRead>)
    ensures AddRows(rs).Stuck? <==> exists c: nat :: RowStuckAt(rs, c)
  {
    if AddRows(rs).Stuck? { var c := StuckRowOf(rs); }
    if c: nat :| RowStuckAt(rs, c) {
      RowsStep(rs, c);
      RowsFail(rs, c + 1);
    }
  }

  lemma {:induction false} StuckRowOf(rs: seq<RowRead>) returns (c: nat)
    requires AddRows(rs).Stuck?
    ensures RowStuckAt(rs, c)
    decreases |rs|
  {
    c := |rs| - 1;
    var front := rs[..c];
    if AddRows(front).Stuck? {
      c := StuckRowOf(front);
      assert front[..c] == rs[..c];
    }
  }

  /**
   Parsing a message never ends exactly when its data is accepted and then the diff of an
   in-window row that follows the accepted rows before it, or after all rows the message's own
   diff, stops the loader.
   */
  lemma MessageStuckIff(w: WireMsg, hash: string, lag: int)
    ensures ReadMessage(w, hash, lag).Stuck? <==>
            DataShaped(w.data) &&
            ((exists c: nat :: RowStuckAt(RowReads(w.lagged, w.seqno, lag), c))
             || (ReadRows(w.lagged, w.seqno, lag).Loaded? && DiffStuck(w.diff)))
  {
    RowsStuckIff(RowReads(w.lagged, w.seqno, lag));
    if DiffShaped(w.diff) { ShapedNotStuck(w.diff); }
  }

  /** One turn of the loop over the lagged rows; a row below the window changes nothing. */
  method ParseLag(rows: seq<Row>, t: Bt, seqno: int, lag: int) returns (r: Load<seq<Row>>)
    ensures r == AddRow(Loaded(rows), ReadRow(t, seqno, lag))
  {
    if !t.BtList? || |t.items| == 0 || !t.items[0].BtInt? { return Refused; }
    var s := t.items[0].i;
    if s >= seqno { return Refused; }
    if s <= seqno - lag { return Loaded(rows); }
    if |t.items| < 2 || !t.items[1].BtStr? || |t.items[1].s| != HASH_SIZE { return Refused; }
    var id := Id(s, t.items[1].s);
    if rows != [] && !IdLess(rows[|rows| - 1].id, id) { return Refused; }
    if |t.items| < 3 || !t.items[2].BtDict? { return Refused; }
    var df := LoadDiff(t.items[2].entries);
    if df.Stuck? { return Stuck; }
    if df.Refused? || |t.items| != 3 { return Refused; }
    r := Loaded(rows + [Row(id, df.value)]);
  }

  method ParseLags(items: seq<Bt>, seqno: int, lag: int) returns (r: Load<seq<Row>>)
    ensures r == ReadRows(items, seqno, lag)
  {
    var rows: seq<Row> := [];
    ghost var rs := RowReads(items, seqno, lag);
    for c := 0 to |items|
      invariant AddRows(rs[..c]) == Loaded(rows)
    {
      RowsStep(rs, c);
      r := ParseLag(rows, items[c], seqno, lag);
      if !r.Loaded? {
        RowsFail(rs, c + 1);
        return;
      }
      rows := r.value;
    }
    assert rs[..|rs|] == rs;
    r := Loaded(rows);
  }

  method ParseMessage(w: WireMsg, hash: string, lag: int) returns (r: Load<Message>)
    ensures r == ReadMessage(w, hash, lag)
  {
    var data := ParseData(w.data, true);
    if data.Err? { return Refused; }
    var rows := ParseLags(w.lagged, w.seqno, lag);
    if rows.Refused? { return Refused; }
    if rows.Stuck? { return Stuck; }
    var diff := LoadDiff(w.diff);
    if diff.Refused? { return Refused; }
    if diff.Stuck? { return Stuck; }
    r := Loaded(Message(Id(w.seqno, hash), data.value, diff.value, RowMap(rows.value)));
  }

  // ----- what parsing guarantees ---------------------------------------------------------------------

  ghost predicate GoodRows(rows: seq<Row>, seqno: int, lag: int) {
    && Sorted(RowIds(rows), IdLess)
    && forall p | 0 <= p < |rows| :: InTime(rows[p].id, seqno, lag)
  }

  lemma {:induction false} RowsAreGood(rs: seq<RowRead>, seqno: int, lag: int)
    requires AddRows(rs).Loaded?
    requires forall p | 0 <= p < |rs| :: rs[p].Good? ==> InTime(rs[p].row.id, seqno, lag)
    ensures GoodRows(AddRows(rs).value, seqno, lag)
    decreases |rs|
  {
    if rs != [] {
      var n := |rs| - 1;
      RowsAreGood(rs[..n], seqno, lag);
      var before := AddRows(rs[..n]).value;
      if rs[n].Good? {
        AppendRow(before, rs[n].row);
      }
    }
  }

  predicate InTime(i: Id, seqno: int, lag: int) {
    seqno - lag < i.seqno < seqno && |i.hash| == HASH_SIZE
  }

  lemma AppendRow(before: seq<Row>, row: Row)
    requires Sorted(RowIds(before), IdLess) && Follows(before, row.id)
    ensures Sorted(RowIds(before + [row]), IdLess)
  {
    var ids := RowIds(before);
    assert RowIds(before + [row]) == ids + [row.id];
    IdOrder();
    SortedExtend(ids, row.id, IdLess);
  }

  /** A parsed message has pruned data and only in-window lagged diffs, with hashes of 32 bytes. */
  lemma ParseGuarantees(w: WireMsg, hash: string, lag: int)
    requires ReadMessage(w, hash, lag).Loaded? && |hash| == HASH_SIZE
    ensures Parsed(ReadMessage(w, hash, lag).value, lag)
  {
    WriteRead(w.data);
    RowsAreGood(RowReads(w.lagged, w.seqno, lag), w.seqno, lag);
    var rows := ReadRows(w.lagged, w.seqno, lag).value;
    ZipKeys(RowIds(rows), RowDiffs(rows));
    forall i | i in RowMap(rows) ensures w.seqno - lag < i.seqno < w.seqno && |i.hash| == HASH_SIZE {
      var p :| 0 <= p < |rows| && RowIds(rows)[p] == i;
    }
  }

  // ----- round trip ------------------------------------------------------------------------------------

  function RowsOf(w: map<Id, Diffs>): (r: seq<Row>)
    ensures |r| == |Ids(w.Keys)|
  {
    var ids := Ids(w.Keys);
    seq(|ids|, p requires 0 <= p < |ids| => assert ids[p] in ids; Row(ids[p], w[ids[p]]))
  }

  lemma RowAt(w: map<Id, Diffs>, p: nat)
    requires p < |RowsOf(w)|
    ensures Ids(w.Keys)[p] in w && RowsOf(w)[p] == Row(Ids(w.Keys)[p], w[Ids(w.Keys)[p]])
    ensures WriteLags(w)[p] == WriteRow(Ids(w.Keys)[p], w[Ids(w.Keys)[p]])
  {
    assert Ids(w.Keys)[p] in Ids(w.Keys);
  }

  ghost predicate InWindow(w: map<Id, Diffs>, seqno: int, lag: int) {
    forall i | i in w :: seqno - lag < i.seqno < seqno && |i.hash| == HASH_SIZE
  }

  lemma RowReadsBack(i: Id, df: Diffs, seqno: int, lag: int)
    requires seqno - lag < i.seqno < seqno && |i.hash| == HASH_SIZE
    ensures ReadRow(WriteRow(i, df), seqno, lag) == Good(Row(i, df))
  {
    DiffWriteShaped(df);
    DiffReadWrite(df);
  }

  /** Each row follows the one before it. */
  ghost predicate RowsFollow(rows: seq<Row>) {
    forall p | 0 < p < |rows| :: IdLess(rows[p - 1].id, rows[p].id)
  }

  lemma {:induction false} GoodRowsRead(rs: seq<RowRead>, rows: seq<Row>)
    requires |rs| == |rows| && RowsFollow(rows)
    requires forall p | 0 <= p < |rs| :: rs[p] == Good(rows[p])
    ensures AddRows(rs) == Loaded(rows)
    decreases |rs|
  {
    if rs != [] {
      var n := |rs| - 1;
      var front := rows[..n];
      GoodRowsRead(rs[..n], front);
      assert Follows(front, rows[n].id);
      assert rows == front + [rows[n]];
    }
  }

  lemma RowsReadBack(w: map<Id, Diffs>, seqno: int, lag: int)
    requires InWindow(w, seqno, lag)
    ensures ReadRows(WriteLags(w), seqno, lag) == Loaded(RowsOf(w))
  {
    var ids, items, rows := Ids(w.Keys), WriteLags(w), RowsOf(w);
    forall p | 0 <= p < |items| ensures ReadRow(items[p], seqno, lag) == Good(rows[p]) {
      RowAt(w, p);
      RowReadsBack(ids[p], w[ids[p]], seqno, lag);
    }
    RowsOfFollow(w);
    GoodRowsRead(RowReads(items, seqno, lag), rows);
  }

  lemma RowsOfFollow(w: map<Id, Diffs>)
    ensures RowsFollow(RowsOf(w))
  {
    var ids, rows := Ids(w.Keys), RowsOf(w);
    forall p | 0 < p < |rows| ensures IdLess(rows[p - 1].id, rows[p].id) {
      RowAt(w, p - 1);
      RowAt(w, p);
      assert IdLess(ids[p - 1], ids[p]);
    }
  }

  lemma RowMapOfRows(w: map<Id, Diffs>)
    ensures RowMap(RowsOf(w)) == w
  {
    var ids, rows := Ids(w.Keys), RowsOf(w);
    forall p | 0 <= p < |ids| ensures RowIds(rows)[p] == ids[p] && ids[p] in w && RowDiffs(rows)[p] == w[ids[p]] { RowAt(w, p); }
    assert RowIds(rows) == ids;
    ZipOfMap(w, ids, RowDiffs(rows));
  }

  /**
   Parsing a serialised message gives back its seqno, data, diff and the lagged diffs
   inside its window, and is not stopped by anything.
   */
  lemma MessageRoundTrip(m: Message, lag: int)
    requires Pruned(m.data) && InWindow(Window(m.lagged, m.id.seqno, lag), m.id.seqno, lag)
    ensures var w := Serialized(m.id.seqno, m.data, m.lagged, m.diff, lag);
            ReadMessage(w, m.id.hash, lag) == Loaded(m.(lagged := Window(m.lagged, m.id.seqno, lag)))
  {
    var win := Window(m.lagged, m.id.seqno, lag);
    WriteShaped(m.data);
    ReadWrite(m.data);
    DiffWriteShaped(m.diff);
    DiffReadWrite(m.diff);
    RowsReadBack(win, m.id.seqno, lag);
    RowMapOfRows(win);
  }
}
