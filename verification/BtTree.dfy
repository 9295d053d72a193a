/**
 The trees of integers, strings, lists and dicts that config messages are serialised as.
 Turning such a tree into bytes is bencoding (the bencoding section of BEP 3) and belongs
 to a library.  A list of scalars stands for a set (src/config.cpp:157-200, 216-234).
 */
module BtTree {
  import opened Options
  import opened Ordering
  import opened ConfigData

  datatype Bt =
    | BtInt(i: int)
    | BtStr(s: string)
    | BtList(items: seq<Bt>)
    | BtDict(entries: seq<Entry>)

  datatype Entry = Entry(key: string, value: Bt)

  // ----- scalars and sorted lists of scalars ---------------------------------------------

  predicate IsScalar(t: Bt) {
    t.BtInt? || t.BtStr?
  }

  function ReadScalar(t: Bt): Scalar
    requires IsScalar(t)
  {
    if t.BtInt? then Int(t.i) else Str(t.s)
  }

  function WriteScalar(x: Scalar): (t: Bt)
    ensures IsScalar(t) && ReadScalar(t) == x
  {
    match x
    case Int(i) => BtInt(i)
    case Str(s) => BtStr(s)
  }

  predicate AllScalars(items: seq<Bt>) {
    forall i | 0 <= i < |items| :: IsScalar(items[i])
  }

  function ReadScalars(items: seq<Bt>): (r: seq<Scalar>)
    requires AllScalars(items)
    ensures |r| == |items| && forall i | 0 <= i < |r| :: r[i] == ReadScalar(items[i])
  {
    seq(|items|, i requires 0 <= i < |items| => ReadScalar(items[i]))
  }

  function WriteScalars(s: seq<Scalar>): (r: seq<Bt>)
    ensures |r| == |s| && AllScalars(r) && ReadScalars(r) == s
  {
    seq(|s|, i requires 0 <= i < |s| => WriteScalar(s[i]))
  }

  lemma WriteReadScalars(items: seq<Bt>)
    requires AllScalars(items)
    ensures WriteScalars(ReadScalars(items)) == items
  {
  }

  /** A list of scalars in strictly ascending order, possibly empty. */
  ghost predicate SortedScalars(items: seq<Bt>) {
    AllScalars(items) && Sorted(ReadScalars(items), ScalarLess)
  }

  function MembersOf(items: seq<Bt>): set<Scalar> {
    set i | 0 <= i < |items| && IsScalar(items[i]) :: ReadScalar(items[i])
  }

  lemma AddMember(items: seq<Bt>, i: nat)
    requires i < |items|
    ensures MembersOf(items[..i + 1]) == MembersOf(items[..i]) + if IsScalar(items[i]) then {ReadScalar(items[i])} else {}
    ensures AllScalars(items[..i + 1]) <==> AllScalars(items[..i]) && IsScalar(items[i])
  {
    var a, b := items[..i], items[..i + 1];
    assert b[i] == items[i] && forall p | 0 <= p < i :: b[p] == a[p];
    forall x | x in MembersOf(a) ensures x in MembersOf(b) {
      var p :| 0 <= p < |a| && IsScalar(a[p]) && ReadScalar(a[p]) == x;
      assert b[p] == a[p];
    }
    forall x | x in MembersOf(b) ensures x in MembersOf(a) || (IsScalar(items[i]) && x == ReadScalar(items[i])) {
      var p :| 0 <= p < |b| && IsScalar(b[p]) && ReadScalar(b[p]) == x;
      assert p == i || a[p] == b[p];
    }
  }

  function WriteSet(s: set<Scalar>): seq<Bt> {
    WriteScalars(Scalars(s))
  }

  lemma MembersAreRead(items: seq<Bt>)
    requires AllScalars(items)
    ensures MembersOf(items) == Elements(ReadScalars(items))
  {
    var r := ReadScalars(items);
    forall x | x in MembersOf(items) ensures x in r { var i :| 0 <= i < |items| && ReadScalar(items[i]) == x; assert r[i] == x; }
    forall x | x in r ensures x in MembersOf(items) { var i :| 0 <= i < |r| && r[i] == x; assert ReadScalar(items[i]) == x; }
  }

  /** Sorted lists of scalars are exactly the written sets. */
  lemma SetRoundTrip(items: seq<Bt>, s: set<Scalar>)
    ensures SortedScalars(WriteSet(s)) && MembersOf(WriteSet(s)) == s && (WriteSet(s) == [] <==> s == {})
    ensures SortedScalars(items) ==> WriteSet(MembersOf(items)) == items && (MembersOf(items) == {} <==> items == [])
  {
    MembersAreRead(WriteSet(s));
    var r := Scalars(s);
    assert r == [] <==> s == {} by { assert forall x :: x in r <==> x in s; assert r != [] ==> r[0] in s; }
    assert Elements(r) == s;
    if SortedScalars(items) {
      MembersAreRead(items);
      ScalarOrder();
      AscendingOfSorted(ReadScalars(items), ScalarLess);
      WriteReadScalars(items);
      assert items != [] ==> ReadScalar(items[0]) in MembersOf(items);
    }
  }

  // ----- lists of set changes --------------------------------------------------------------------

  /** The check of two neighbours in a list of set changes. */
  predicate InScalarOrder(a: Bt, b: Bt) {
    IsScalar(a) && IsScalar(b) && ScalarLess(ReadScalar(a), ReadScalar(b))
  }

  /** Only neighbours are compared, so a list of one element is never looked into. */
  predicate NeighboursInOrder(items: seq<Bt>) {
    forall i | 0 <= i < |items| - 1 :: InScalarOrder(items[i], items[i + 1])
  }

  predicate ChangeLists(items: seq<Bt>) {
    |items| == 2 && forall i | 0 <= i < 2 :: items[i].BtList? && NeighboursInOrder(items[i].items)
  }

  predicate ScalarLists(items: seq<Bt>) {
    ChangeLists(items) && AllScalars(items[0].items) && AllScalars(items[1].items)
  }

  /** Accepted as a set change although an element is not a scalar. */
  predicate IsStray(items: seq<Bt>) {
    ChangeLists(items) && !ScalarLists(items)
  }

  function StrayExample(): (items: seq<Bt>)
    ensures IsStray(items)
  {
    var items := [BtList([BtList([])]), BtList([])];
    assert items[0].items[0] == BtList([]) && !IsScalar(items[0].items[0]);
    items
  }

  type StrayChange = items: seq<Bt> | IsStray(items) witness StrayExample()
}
