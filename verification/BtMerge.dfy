/**
 Merging two ordered dicts with one cursor each (src/bt_merge.cpp:4-19).
 */
module BtMerge {
  import opened Ordering

  ghost function Restrict<T>(m: map<string, T>, done: set<string>): map<string, T> {
    map k | k in m && k in done :: m[k]
  }

  ghost predicate Below(done: set<string>, k: string) {
    forall y {:trigger y in done} | y in done :: StrLess(y, k)
  }

  /** `order` lists the keys of `done`, each inserted above all before it. */
  ghost predicate Listed(order: seq<string>, done: set<string>)
    decreases |order|
  {
    if order == [] then done == {} else
      var k := order[|order| - 1];
      k in done && Below(done - {k}, k) && Listed(order[..|order| - 1], done - {k})
  }

  lemma ListedAppend(order: seq<string>, done: set<string>, k: string)
    requires Listed(order, done) && k !in done && Below(done, k)
    ensures Listed(order + [k], done + {k})
  {
    assert (order + [k])[..|order|] == order && done + {k} - {k} == done;
  }

  lemma {:induction false} ListedSorted(order: seq<string>, done: set<string>)
    requires Listed(order, done)
    ensures Sorted(order, StrLess) && Elements(order) == done
    decreases |order|
  {
    if order != [] {
      var n := |order| - 1;
      var front, k := order[..n], order[n];
      ListedSorted(front, done - {k});
      assert order == front + [k];
      assert forall y | y in front :: y in Elements(front);
      assert Elements(order) == Elements(front) + {k};
      SortedAppend(front, k, StrLess);
    }
  }

  /** The walk has inserted the keys of `done`, all of them below what is still to come. */
  ghost predicate Merging<T>(a: map<string, T>, i: nat, b: map<string, T>, j: nat,
                             r: map<string, T>, order: seq<string>, done: set<string>)
  {
    && Cursors(Keys(a.Keys), i, Keys(b.Keys), j, done, StrLess)
    && Listed(order, done)
    && done <= a.Keys + b.Keys
    && r == Restrict(b + a, done)
  }

  /** The next key of one dict is above everything inserted so far. */
  lemma NextIsAbove(sa: set<string>, i: nat, sb: set<string>, j: nat, done: set<string>)
    requires i < |Keys(sa)| && Cursors(Keys(sa), i, Keys(sb), j, done, StrLess) && done <= sa + sb
    ensures Below(done, Keys(sa)[i])
  {
    var a, b := Keys(sa), Keys(sb);
    forall y | y in done ensures StrLess(y, a[i]) {
      if y in sa {
        assert y in a;
        var p :| 0 <= p < |a| && a[p] == y;
        assert p < i;
      } else {
        assert y in b;
        var p :| 0 <= p < |b| && b[p] == y;
        assert p < j;
      }
    }
  }

  lemma Inserted<T>(m: map<string, T>, done: set<string>, k: string)
    requires k in m
    ensures Restrict(m, done + {k}) == Restrict(m, done)[k := m[k]]
  {
  }

  method InsertLeft<T>(a: map<string, T>, i: nat, b: map<string, T>, j: nat, r: map<string, T>, order: seq<string>, ghost done: set<string>)
    returns (s: map<string, T>, longer: seq<string>)
    requires Merging(a, i, b, j, r, order, done) && IsTurn(First, Keys(a.Keys), i, Keys(b.Keys), j, StrLess)
    ensures Merging(a, i + 1, b, j, s, longer, done + {Keys(a.Keys)[i]})
  {
    var ka, kb := Keys(a.Keys), Keys(b.Keys);
    var k := ka[i];
    assert k in ka && k !in done && Cursors(ka, i + 1, kb, j, done + {k}, StrLess) by {
      StrOrder();
      CursorsFirst(ka, i, kb, j, done, StrLess);
    }
    NextIsAbove(a.Keys, i, b.Keys, j, done);
    ListedAppend(order, done, k);
    Inserted(b + a, done, k);
    s, longer := r[k := a[k]], order + [k];
  }

  method InsertRight<T>(a: map<string, T>, i: nat, b: map<string, T>, j: nat, r: map<string, T>, order: seq<string>, ghost done: set<string>)
    returns (s: map<string, T>, longer: seq<string>)
    requires Merging(a, i, b, j, r, order, done) && IsTurn(Second, Keys(a.Keys), i, Keys(b.Keys), j, StrLess)
    ensures Merging(a, i, b, j + 1, s, longer, done + {Keys(b.Keys)[j]})
  {
    var ka, kb := Keys(a.Keys), Keys(b.Keys);
    var k := kb[j];
    assert k in kb && k !in ka && k !in done && Cursors(ka, i, kb, j + 1, done + {k}, StrLess) by {
      StrOrder();
      CursorsSecond(ka, i, kb, j, done, StrLess);
    }
    CursorsSwap(ka, i, kb, j, done, StrLess);
    NextIsAbove(b.Keys, j, a.Keys, i, done);
    ListedAppend(order, done, k);
    Inserted(b + a, done, k);
    s, longer := r[k := b[k]], order + [k];
  }

  method InsertBoth<T>(a: map<string, T>, i: nat, b: map<string, T>, j: nat, r: map<string, T>, order: seq<string>, ghost done: set<string>)
    returns (s: map<string, T>, longer: seq<string>)
    requires Merging(a, i, b, j, r, order, done) && IsTurn(Both, Keys(a.Keys), i, Keys(b.Keys), j, StrLess)
    ensures Merging(a, i + 1, b, j + 1, s, longer, done + {Keys(a.Keys)[i]})
  {
    var ka, kb := Keys(a.Keys), Keys(b.Keys);
    var k := ka[i];
    assert k in ka && k !in done && Cursors(ka, i + 1, kb, j + 1, done + {k}, StrLess) by {
      StrOrder();
      CursorsBoth(ka, i, kb, j, done, StrLess);
    }
    NextIsAbove(a.Keys, i, b.Keys, j, done);
    ListedAppend(order, done, k);
    Inserted(b + a, done, k);
    s, longer := r[k := a[k]], order + [k];
  }

  /** The left dict's entry is inserted; an equal key of the right dict is skipped with it. */
  method InsertFromLeft<T>(a: map<string, T>, i: nat, b: map<string, T>, j: nat, r: map<string, T>, order: seq<string>, turn: Turn, ghost done: set<string>)
    returns (s: map<string, T>, longer: seq<string>)
    requires Merging(a, i, b, j, r, order, done) && turn != Second && IsTurn(turn, Keys(a.Keys), i, Keys(b.Keys), j, StrLess)
    ensures Merging(a, i + 1, b, if turn == Both then j + 1 else j, s, longer, done + {Keys(a.Keys)[i]})
  {
    if turn == Both {
      s, longer := InsertBoth(a, i, b, j, r, order, done);
    } else {
      s, longer := InsertLeft(a, i, b, j, r, order, done);
    }
  }

  lemma MergeStarts<T>(a: map<string, T>, b: map<string, T>)
    ensures Merging(a, 0, b, 0, map[], [], {})
  {
  }

  lemma BothVisited(ka: seq<string>, kb: seq<string>, done: set<string>, sa: set<string>, sb: set<string>)
    requires Visited(ka, |ka|, done) && Visited(kb, |kb|, done) && done <= sa + sb
    requires (forall k :: k in ka <==> k in sa) && (forall k :: k in kb <==> k in sb)
    ensures done == sa + sb
  {
    forall k | k in sa ensures k in done { assert k in ka; }
    forall k | k in sb ensures k in done { assert k in kb; }
  }

  lemma MergeEnds<T>(a: map<string, T>, i: nat, b: map<string, T>, j: nat, r: map<string, T>, order: seq<string>, done: set<string>)
    requires Merging(a, i, b, j, r, order, done) && i == |Keys(a.Keys)| && j == |Keys(b.Keys)|
    ensures r == b + a && order == Keys(a.Keys + b.Keys)
  {
    BothVisited(Keys(a.Keys), Keys(b.Keys), done, a.Keys, b.Keys);
    ListedSorted(order, done);
    KeysOfSorted(order);
    assert done == (b + a).Keys;
  }

  /**
   Every key of either dict, in ascending order (so that each insertion at the end is in
   place), with the left dict's value where both have one.
   */
  method Merge<T>(a: map<string, T>, b: map<string, T>) returns (r: map<string, T>, order: seq<string>)
    ensures r == b + a
    ensures order == Keys(a.Keys + b.Keys)
  {
    var ka, kb := Keys(a.Keys), Keys(b.Keys);
    var i, j := 0, 0;
    ghost var done: set<string> := {};
    r, order := map[], [];
    MergeStarts(a, b);
    while i < |ka| || j < |kb|
      invariant i <= |ka| && j <= |kb| && Merging(a, i, b, j, r, order, done)
      decreases |ka| - i + |kb| - j
    {
      var turn := CompareHeads(ka, i, kb, j);
      if turn == Second {
        r, order := InsertRight(a, i, b, j, r, order, done);
        done, j := done + {kb[j]}, j + 1;
      } else {
        r, order := InsertFromLeft(a, i, b, j, r, order, turn, done);
        done, i, j := done + {ka[i]}, i + 1, if turn == Both then j + 1 else j;
      }
    }
    MergeEnds(a, i, b, j, r, order, done);
  }
}
