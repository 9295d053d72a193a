/**
 Editing and incrementing a mutable config message (src/config.cpp:455-511, 724-787,
 include/session/config.hpp:261-289).
 */
module ConfigMessage {
  import opened Options
  import opened Ordering
  import opened ConfigData
  import opened ConfigDiff
  import opened ConfigReplay
  import opened ConfigMerge
  import opened ConfigMergeLaws
  import opened WireMessage

  // ----- the state of a mutable message and its steps, as values -----------------------------

  /** The fields that editing and incrementing touch, apart from the cached diff and hash. */
  datatype State = State(seqno: int, data: Dict, orig: Dict, lagged: map<Id, Diffs>)

  function Fresh(seqno: int): State {
    State(seqno, map[], map[], map[])
  }

  function CurrentDiff(st: State): Diffs {
    DiffDicts(st.orig, Prune(st.data))
  }

  function Publish(st: State, lag: int): WireMsg {
    Serialized(st.seqno, Prune(st.data), st.lagged, CurrentDiff(st), lag)
  }

  /** An increment: trim the lagged diffs, append the current one under the current hash, bump the seqno. */
  function Next(st: State, lag: int, hash: string): State {
    State(st.seqno + 1, Prune(st.data), Prune(st.data),
          Window(st.lagged, st.seqno, lag)[Id(st.seqno, hash) := CurrentDiff(st)])
  }

  /** The state of a new message made from a parsed one. */
  function AfterIncrement(m: Message, lag: int): State {
    State(m.id.seqno + 1, m.data, m.data, Window(m.lagged, m.id.seqno, lag)[m.id := m.diff])
  }

  /** The message as another device parses it. */
  function Sent(st: State, lag: int, hash: string): Message {
    Message(Id(st.seqno, hash), Prune(st.data), CurrentDiff(st), Window(st.lagged, st.seqno, lag))
  }

  // ----- the object ----------------------------------------------------------------------------

  class MutableMessage {
    const lag: int
    const hashOf: WireMsg -> string
    var seqno: int
    var hash: string
    var data: Dict
    var origData: Dict
    var diff: Diffs
    var lagged: map<Id, Diffs>

    ghost predicate Valid()
      reads this
    {
      Pruned(origData)
    }

    ghost function Abs(): State
      reads this
    {
      State(seqno, data, origData, lagged)
    }

    constructor (seqno: int, lag: int, hashOf: WireMsg -> string)
      ensures Valid() && Abs() == Fresh(seqno) && this.lag == lag && this.hashOf == hashOf
      ensures diff == map[] && hash == hashOf(Publish(Fresh(0), lag))
    {
      this.lag, this.hashOf := lag, hashOf;
      this.seqno := seqno;
      data, origData, diff, lagged := map[], map[], map[], map[];
      hash := hashOf(Serialized(0, map[], map[], map[], lag));
      DiffEmptyIffEqual(map[], map[]);
      assert Prune(map[]) == map[];
    }

    /** `increment()` of a parsed message or of a merge result: the new message starts out as a child of it. */
    constructor IncrementOf(m: Message, lag: int, hashOf: WireMsg -> string)
      requires Pruned(m.data)
      ensures Valid() && Abs() == AfterIncrement(m, lag) && this.lag == lag && this.hashOf == hashOf
    {
      this.lag, this.hashOf := lag, hashOf;
      seqno, hash, data, origData, diff, lagged := m.id.seqno, m.id.hash, m.data, map[], m.diff, m.lagged;
      new;
      IncrementImpl();
    }

    /**
     Making a merge result mutable without a new seqno.  Only the base part is moved in,
     so the data to diff against stays empty and the diff will list the whole content.
     */
    constructor Retain(m: Message, lag: int, hashOf: WireMsg -> string)
      ensures Valid() && Abs() == State(m.id.seqno, m.data, map[], m.lagged)
      ensures hash == m.id.hash && diff == m.diff && this.lag == lag && this.hashOf == hashOf
    {
      this.lag, this.hashOf := lag, hashOf;
      seqno, hash, data, origData, diff, lagged := m.id.seqno, m.id.hash, m.data, map[], m.diff, m.lagged;
    }

    /** The same for a message that is mutable already: everything is moved in. */
    constructor RetainMutable(m: MutableMessage)
      requires m.Valid()
      ensures Valid() && Abs() == m.Abs() && hash == m.hash && diff == m.diff && lag == m.lag && hashOf == m.hashOf
    {
      lag, hashOf := m.lag, m.hashOf;
      seqno, hash, data, origData, diff, lagged := m.seqno, m.hash, m.data, m.origData, m.diff, m.lagged;
    }

    /** Whatever the application does with the mutable reference to the data. */
    method SetData(d: Dict)
      requires Valid()
      modifies this`data
      ensures Valid() && Abs() == old(Abs()).(data := d)
    {
      data := d;
    }

    /** Prunes and recomputes the diff against the data of the parent. */
    method Diff()
      requires Valid()
      modifies this`data, this`diff
      ensures Valid() && Abs() == old(Abs()).(data := Prune(old(data)))
      ensures diff == CurrentDiff(old(Abs())) && (diff == map[] <==> data == origData)
    {
      var pruned, _, _ := PruneInPlace(data);
      PruneIsPruned(data);
      PruneIsStable(data);
      data := pruned;
      var d := DiffDictsWalk(origData, data);
      DiffEmptyIffEqual(origData, data);
      diff := if d.Some? then d.value else map[];
    }

    method Serialize() returns (w: WireMsg)
      requires Valid()
      modifies this`data, this`diff
      ensures Valid() && Abs() == old(Abs()).(data := Prune(old(data)))
      ensures diff == CurrentDiff(old(Abs())) && w == Publish(old(Abs()), lag)
    {
      Diff();
      w := SerializeMessage(seqno, data, lagged, diff, lag);
    }

    method Hash()
      requires Valid()
      modifies this`data, this`diff, this`hash
      ensures Valid() && Abs() == old(Abs()).(data := Prune(old(data)))
      ensures diff == CurrentDiff(old(Abs())) && hash == hashOf(Publish(old(Abs()), lag))
    {
      var w := Serialize();
      hash := hashOf(w);
    }

    /** Trims the lagged diffs, appends the current one and bumps the seqno. */
    method IncrementImpl()
      requires Pruned(data)
      modifies this
      ensures Valid() && seqno == old(seqno) + 1 && data == old(data) && origData == old(data) && diff == map[]
      ensures lagged == Window(old(lagged), old(seqno), lag)[Id(old(seqno), old(hash)) := old(diff)]
    {
      origData := data;
      lagged := Trim(lagged, seqno, lag);
      lagged := lagged[Id(seqno, hash) := diff];
      seqno := seqno + 1;
      hash := seq(HASH_SIZE, _ => '\0');
      diff := map[];
    }

    /** `increment()` on the copy that becomes the new message. */
    method Increment()
      requires Valid()
      modifies this
      ensures Valid() && Abs() == Next(old(Abs()), lag, hashOf(Publish(old(Abs()), lag))) && diff == map[]
    {
      Hash();
      PruneIsPruned(old(data));
      IncrementImpl();
    }
  }

  lemma PruneIsStable(d: Dict)
    ensures Prune(Prune(d)) == Prune(d)
  {
    PruneIsPruned(d);
    PruneFixesPruned(Prune(d));
  }

  /** Drops the ids up to `seqno - lag` from the front, then any id from `seqno` on from the back. */
  method Trim(lagged: map<Id, Diffs>, seqno: int, lag: int) returns (r: map<Id, Diffs>)
    ensures r == Window(lagged, seqno, lag)
  {
    r := TrimFront(lagged, seqno - lag);
    r := TrimBack(r, seqno);
  }

  function Above(lagged: map<Id, Diffs>, low: int): map<Id, Diffs> {
    map i | i in lagged && low < i.seqno :: lagged[i]
  }

  function Below(lagged: map<Id, Diffs>, high: int): map<Id, Diffs> {
    map i | i in lagged && i.seqno < high :: lagged[i]
  }

  method TrimFront(lagged: map<Id, Diffs>, low: int) returns (r: map<Id, Diffs>)
    ensures r == Above(lagged, low)
  {
    var ids, i := Ids(lagged.Keys), 0;
    ghost var gone: set<Id> := {};
    r := lagged;
    while i < |ids| && ids[i].seqno <= low
      invariant Visited(ids, i, gone) && r == lagged - gone
      invariant forall k | k in gone :: k.seqno <= low
    {
      VisitNext(ids, i, gone);
      r := r - {ids[i]};
      gone := gone + {ids[i]};
      i := i + 1;
    }
    FrontGone(lagged, ids, i, gone, low);
  }

  lemma FrontGone(lagged: map<Id, Diffs>, ids: seq<Id>, i: nat, gone: set<Id>, low: int)
    requires ids == Ids(lagged.Keys) && Visited(ids, i, gone)
    requires (forall g | g in gone :: g.seqno <= low) && (i < |ids| ==> low < ids[i].seqno)
    ensures lagged - gone == Above(lagged, low)
  {
    forall k | k in lagged ensures k in gone <==> k.seqno <= low { FrontIsLow(ids, i, gone, low, k); }
  }

  lemma FrontIsLow(ids: seq<Id>, i: nat, gone: set<Id>, low: int, k: Id)
    requires Sorted(ids, IdLess) && Visited(ids, i, gone) && k in ids
    requires (forall g | g in gone :: g.seqno <= low) && (i < |ids| ==> low < ids[i].seqno)
    ensures k in gone <==> k.seqno <= low
  {
    var p :| 0 <= p < |ids| && ids[p] == k;
    if i < p { assert IdLess(ids[i], ids[p]); }
  }

  method TrimBack(lagged: map<Id, Diffs>, high: int) returns (r: map<Id, Diffs>)
    ensures r == Below(lagged, high)
  {
    var ids := Ids(lagged.Keys);
    var j: nat := |ids|;
    ghost var left := lagged.Keys;
    ghost var gone: set<Id> := {};
    r := lagged;
    AllLeft(ids, lagged.Keys);
    while 0 < j && ids[j - 1].seqno >= high
      invariant Visited(ids, j, left) && left == lagged.Keys - gone && r == lagged - gone
      invariant AtLeast(gone, high)
    {
      var k := ids[j - 1];
      LeaveLast(ids, j, left);
      r, left, gone, j := r - {k}, left - {k}, gone + {k}, j - 1;
    }
    BackGone(lagged, ids, j, left, gone, high);
  }

  ghost predicate AtLeast(gone: set<Id>, high: int) {
    forall k | k in gone :: k.seqno >= high
  }

  lemma BackGone(lagged: map<Id, Diffs>, ids: seq<Id>, j: nat, left: set<Id>, gone: set<Id>, high: int)
    requires ids == Ids(lagged.Keys) && Visited(ids, j, left) && left == lagged.Keys - gone
    requires AtLeast(gone, high) && (0 < j ==> ids[j - 1].seqno < high)
    ensures lagged - gone == Below(lagged, high)
  {
    forall k | k in lagged ensures k !in gone <==> k.seqno < high { BackIsHigh(ids, j, left, high, k); }
  }

  lemma AllLeft(ids: seq<Id>, left: set<Id>)
    requires forall k :: k in ids <==> k in left
    ensures Visited(ids, |ids|, left)
  {
    forall p | 0 <= p < |ids| ensures ids[p] in left { assert ids[p] in ids; }
  }

  lemma LeaveLast(ids: seq<Id>, j: nat, left: set<Id>)
    requires Distinct(ids) && Visited(ids, j, left) && 0 < j
    ensures ids[j - 1] in left && Visited(ids, j - 1, left - {ids[j - 1]})
  {
    forall p | 0 <= p < |ids| ensures ids[p] in left - {ids[j - 1]} <==> p < j - 1 {
      assert p < j - 1 ==> ids[p] != ids[j - 1];
      assert j - 1 < p ==> ids[j - 1] != ids[p];
    }
  }

  lemma BackIsHigh(ids: seq<Id>, j: nat, left: set<Id>, high: int, k: Id)
    requires Sorted(ids, IdLess) && Visited(ids, j, left) && k in ids
    requires (k !in left ==> k.seqno >= high) && (0 < j ==> ids[j - 1].seqno < high)
    ensures k in left <==> k.seqno < high
  {
    var p :| 0 <= p < |ids| && ids[p] == k;
    if p < j - 1 { assert IdLess(ids[p], ids[j - 1]); }
  }

  // ----- where this meets merging ---------------------------------------------------------------

  /** The lagged diffs are known under hashes of the right size. */
  ghost predicate Hashed(st: State) {
    forall i | i in st.lagged :: |i.hash| == HASH_SIZE
  }

  /** What is sent is what is parsed. */
  lemma SentIsParsed(st: State, lag: int, hash: string)
    requires Hashed(st) && |hash| == HASH_SIZE
    ensures ReadMessage(Publish(st, lag), hash, lag) == Loaded(Sent(st, lag, hash))
    ensures Parsed(Sent(st, lag, hash), lag)
  {
    PruneIsPruned(st.data);
    MessageRoundTrip(Message(Id(st.seqno, hash), Prune(st.data), CurrentDiff(st), st.lagged), lag);
    ParseGuarantees(Publish(st, lag), hash, lag);
  }

  /** Incrementing a parsed message and editing it sends a child of that message. */
  lemma EditSendsChild(base: Message, d: Dict, lag: int, hash: string)
    requires Parsed(base, lag)
    ensures Sent(AfterIncrement(base, lag).(data := d), lag, hash) == Child(base, Prune(d), hash, lag)
  {
    assert Window(base.lagged, base.id.seqno, lag) == base.lagged;
    assert base.lagged[base.id := base.diff] == Carried(base);
  }

  lemma SentCarries(st: State, lag: int, hash: string)
    ensures Carried(Sent(st, lag, hash)) == Next(st, lag, hash).lagged
  {
  }

  /** Incrementing the parsed message comes to the same as incrementing the message that was sent. */
  lemma IncrementAfterSending(st: State, lag: int, hash: string)
    ensures AfterIncrement(Sent(st, lag, hash), lag) == Next(st, lag, hash)
  {
    var w := Window(st.lagged, st.seqno, lag);
    assert Window(w, st.seqno, lag) == w;
  }
}
