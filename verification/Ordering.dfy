/**
 The orders that the containers of the repository iterate in.  `std::map` and
 `std::set` are modelled by Dafny's `map` and `set`; where the code walks one of
 them with an iterator, the model walks `Ascending`, the sorted enumeration of its
 keys.
 */
module Ordering {

  ghost predicate StrictTotal<T(!new)>(less: (T, T) -> bool) {
    && (forall a :: !less(a, a))
    && (forall a, b, c :: less(a, b) && less(b, c) ==> less(a, c))
    && (forall a, b :: a != b ==> less(a, b) || less(b, a))
  }

  /** Strictly ascending, hence free of duplicates. */
  ghost predicate Sorted<T>(s: seq<T>, less: (T, T) -> bool) {
    forall i, j | 0 <= i < j < |s| :: less(s[i], s[j])
  }

  ghost predicate Distinct<T>(s: seq<T>) {
    forall i, j | 0 <= i < j < |s| :: s[i] != s[j]
  }

  ghost function Elements<T>(s: seq<T>): set<T> {
    set x | x in s
  }

  lemma LeastExists<T(!new)>(s: set<T>, less: (T, T) -> bool) returns (m: T)
    requires StrictTotal(less) && s != {}
    ensures m in s && forall y | y in s && y != m :: less(m, y)
  {
    m :| m in s;
    var rest := s - {m};
    assert forall y :: y in s <==> y == m || y in rest;
    if rest != {} {
      var n := LeastExists(rest, less);
      if less(n, m) {
        m := n;
      } else {
        forall y | y in rest ensures less(m, y) {
          assert y == n || less(n, y);
        }
      }
    }
  }

  function Least<T(!new, ==)>(s: set<T>, less: (T, T) -> bool): (m: T)
    requires StrictTotal(less) && s != {}
    ensures m in s && forall y | y in s && y != m :: less(m, y)
  {
    assert exists m :: m in s && forall y | y in s && y != m :: less(m, y) by {
      var w := LeastExists(s, less);
    }
    var m :| m in s && forall y | y in s && y != m :: less(m, y);
    m
  }

  /** What an iterator over a `std::set` or over the keys of a `std::map` visits, in order. */
  function Ascending<T(!new, ==)>(s: set<T>, less: (T, T) -> bool): (r: seq<T>)
    requires StrictTotal(less)
    ensures Sorted(r, less) && Distinct(r)
    ensures forall x :: x in r <==> x in s
  {
    if s == {} then [] else
      var m := Least(s, less);
      var rest := Ascending(s - {m}, less);
      assert forall x | x in rest :: less(m, x);
      [m] + rest
  }

  /** A sorted enumeration is determined by its elements. */
  lemma {:induction false} SortedUnique<T(!new)>(a: seq<T>, b: seq<T>, less: (T, T) -> bool)
    requires StrictTotal(less) && Sorted(a, less) && Sorted(b, less)
    requires forall x :: x in a <==> x in b
    ensures a == b
  {
    assert (a == [] || a[0] in b) && (b == [] || b[0] in a);
    if a != [] && b != [] {
      var x, y := a[0], b[0];
      assert (x == y || less(y, x)) && (x == y || less(x, y));
      forall x ensures x in a[1..] <==> x in b[1..] {
        if x in a[1..] {
          var i :| 1 <= i < |a| && a[i] == x;
          assert less(a[0], x);
          assert x in b;
        }
        if x in b[1..] {
          var i :| 1 <= i < |b| && b[i] == x;
          assert less(b[0], x);
          assert x in a;
        }
      }
      SortedUnique(a[1..], b[1..], less);
      assert a == [a[0]] + a[1..] && b == [b[0]] + b[1..];
    }
  }

  lemma AscendingOfSorted<T(!new)>(a: seq<T>, less: (T, T) -> bool)
    requires StrictTotal(less) && Sorted(a, less)
    ensures Ascending(Elements(a), less) == a
  {
    SortedUnique(Ascending(Elements(a), less), a, less);
  }

  // ----- walking two sorted sequences with one cursor each ---------------------------

  /** Everything behind one cursor is below everything from the other cursor on. */
  ghost predicate InStep<T>(a: seq<T>, i: nat, b: seq<T>, j: nat, less: (T, T) -> bool) {
    && i <= |a| && j <= |b|
    && (forall p, q | 0 <= p < i && j <= q < |b| :: less(a[p], b[q]))
    && (forall p, q | 0 <= p < j && i <= q < |a| :: less(b[p], a[q]))
  }

  /** Advancing past the smaller head: it does not occur in the other sequence. */
  lemma StepSmaller<T(!new)>(a: seq<T>, i: nat, b: seq<T>, j: nat, less: (T, T) -> bool)
    requires StrictTotal(less) && Sorted(a, less) && Sorted(b, less)
    requires InStep(a, i, b, j, less) && i < |a| && (j == |b| || less(a[i], b[j]))
    ensures a[i] !in b && InStep(a, i + 1, b, j, less)
  {
    forall q | 0 <= q < |b| ensures a[i] != b[q] && (j <= q ==> less(a[i], b[q])) {
      if q < j { assert less(b[q], a[i]); } else { assert q == j || less(b[j], b[q]); }
    }
    forall p, q | 0 <= p < j && i + 1 <= q < |a| ensures less(b[p], a[q]) { }
  }

  /** Advancing past equal heads. */
  lemma StepBoth<T(!new)>(a: seq<T>, i: nat, b: seq<T>, j: nat, less: (T, T) -> bool)
    requires StrictTotal(less) && Sorted(a, less) && Sorted(b, less)
    requires InStep(a, i, b, j, less) && i < |a| && j < |b| && a[i] == b[j]
    ensures InStep(a, i + 1, b, j + 1, less)
  {
  }

  lemma InStepSwap<T>(a: seq<T>, i: nat, b: seq<T>, j: nat, less: (T, T) -> bool)
    requires InStep(a, i, b, j, less)
    ensures InStep(b, j, a, i, less)
  {
  }

  lemma SortedAppend<T>(a: seq<T>, x: T, less: (T, T) -> bool)
    requires Sorted(a, less) && forall y | y in a :: less(y, x)
    ensures Sorted(a + [x], less)
  {
  }

  /** A greater last element keeps a sequence sorted. */
  lemma SortedExtend<T(!new)>(a: seq<T>, x: T, less: (T, T) -> bool)
    requires StrictTotal(less) && Sorted(a, less) && (a == [] || less(a[|a| - 1], x))
    ensures Sorted(a + [x], less)
  {
    forall y | y in a ensures less(y, x) {
      var p :| 0 <= p < |a| && a[p] == y;
      assert p == |a| - 1 || less(a[p], a[|a| - 1]);
    }
    SortedAppend(a, x, less);
  }

  // ----- walking one container --------------------------------------------------------

  /** Exactly the keys before the cursor are done. */
  ghost predicate Visited<T>(keys: seq<T>, i: nat, done: set<T>) {
    i <= |keys| && forall p | 0 <= p < |keys| :: keys[p] in done <==> p < i
  }

  lemma VisitNext<T>(keys: seq<T>, i: nat, done: set<T>)
    requires Distinct(keys) && Visited(keys, i, done) && i < |keys|
    ensures keys[i] in keys && keys[i] !in done && Visited(keys, i + 1, done + {keys[i]})
  {
    forall p | 0 <= p < |keys| ensures keys[p] in done + {keys[i]} <==> p < i + 1 {
      assert p < i ==> keys[p] != keys[i];
      assert i < p ==> keys[i] != keys[p];
    }
  }

  /** A walk over every key leaves none out. */
  lemma AllVisited<T>(keys: seq<T>, done: set<T>, all: set<T>)
    requires done <= all && (forall x :: x in keys <==> x in all) && Visited(keys, |keys|, done)
    ensures done == all
  {
  }

  // ----- walking two containers together -------------------------------------------------

  /** Which head comes next: the first sequence's, the second's, or both at once. */
  datatype Turn = First | Second | Both

  predicate IsTurn<T>(t: Turn, a: seq<T>, i: nat, b: seq<T>, j: nat, less: (T, T) -> bool) {
    && i <= |a| && j <= |b|
    && match t
       case First => i < |a| && (j == |b| || less(a[i], b[j]))
       case Second => j < |b| && (i == |a| || less(b[j], a[i]))
       case Both => i < |a| && j < |b| && !less(a[i], b[j]) && !less(b[j], a[i])
  }

  /** Exactly the keys before the two cursors are done, and they are below the keys to come. */
  ghost predicate Cursors<T>(a: seq<T>, i: nat, b: seq<T>, j: nat, done: set<T>, less: (T, T) -> bool) {
    InStep(a, i, b, j, less) && Visited(a, i, done) && Visited(b, j, done)
  }

  lemma CursorsSwap<T>(a: seq<T>, i: nat, b: seq<T>, j: nat, done: set<T>, less: (T, T) -> bool)
    requires Cursors(a, i, b, j, done, less)
    ensures Cursors(b, j, a, i, done, less)
  {
    InStepSwap(a, i, b, j, less);
  }

  lemma SortedDistinct<T(!new)>(a: seq<T>, less: (T, T) -> bool)
    requires StrictTotal(less) && Sorted(a, less)
    ensures Distinct(a)
  {
  }

  lemma CursorsFirst<T(!new)>(a: seq<T>, i: nat, b: seq<T>, j: nat, done: set<T>, less: (T, T) -> bool)
    requires StrictTotal(less) && Sorted(a, less) && Sorted(b, less)
    requires Cursors(a, i, b, j, done, less) && IsTurn(First, a, i, b, j, less)
    ensures a[i] in a && a[i] !in b && a[i] !in done && Cursors(a, i + 1, b, j, done + {a[i]}, less)
  {
    SortedDistinct(a, less);
    StepSmaller(a, i, b, j, less);
    VisitNext(a, i, done);
  }

  lemma CursorsSecond<T(!new)>(a: seq<T>, i: nat, b: seq<T>, j: nat, done: set<T>, less: (T, T) -> bool)
    requires StrictTotal(less) && Sorted(a, less) && Sorted(b, less)
    requires Cursors(a, i, b, j, done, less) && IsTurn(Second, a, i, b, j, less)
    ensures b[j] in b && b[j] !in a && b[j] !in done && Cursors(a, i, b, j + 1, done + {b[j]}, less)
  {
    CursorsSwap(a, i, b, j, done, less);
    CursorsFirst(b, j, a, i, done, less);
    CursorsSwap(b, j + 1, a, i, done + {b[j]}, less);
  }

  lemma CursorsBoth<T(!new)>(a: seq<T>, i: nat, b: seq<T>, j: nat, done: set<T>, less: (T, T) -> bool)
    requires StrictTotal(less) && Sorted(a, less) && Sorted(b, less)
    requires Cursors(a, i, b, j, done, less) && IsTurn(Both, a, i, b, j, less)
    ensures a[i] in a && a[i] == b[j] && a[i] !in done && Cursors(a, i + 1, b, j + 1, done + {a[i]}, less)
  {
    assert a[i] == b[j];
    SortedDistinct(a, less);
    SortedDistinct(b, less);
    StepBoth(a, i, b, j, less);
    VisitNext(a, i, done);
    VisitNext(b, j, done);
  }

  // ----- byte strings ---------------------------------------------------------

  /** `std::string::operator<`: byte by byte, a proper prefix first. */
  predicate StrLess(a: string, b: string)
    decreases |a|
  {
    b != [] && (a == [] || a[0] < b[0] || (a[0] == b[0] && StrLess(a[1..], b[1..])))
  }

  lemma {:induction false} StrIrreflexive(a: string)
    ensures !StrLess(a, a)
    decreases |a|
  {
    if a != [] { StrIrreflexive(a[1..]); }
  }

  lemma {:induction false} StrTransitive(a: string, b: string, c: string)
    requires StrLess(a, b) && StrLess(b, c)
    ensures StrLess(a, c)
    decreases |a|
  {
    if a != [] && a[0] == b[0] && b[0] == c[0] { StrTransitive(a[1..], b[1..], c[1..]); }
  }

  lemma {:induction false} StrConnected(a: string, b: string)
    ensures a == b || StrLess(a, b) || StrLess(b, a)
    decreases |a|
  {
    if a != [] && b != [] && a[0] == b[0] {
      StrConnected(a[1..], b[1..]);
      assert a == [a[0]] + a[1..] && b == [b[0]] + b[1..];
    }
  }

  lemma StrTrichotomy(a: string, b: string)
    ensures StrLess(a, b) <==> a != b && !StrLess(b, a)
  {
    StrConnected(a, b);
    StrIrreflexive(a);
    if StrLess(a, b) && StrLess(b, a) { StrTransitive(a, b, a); }
  }

  lemma StrOrder()
    ensures StrictTotal(StrLess)
  {
    forall a ensures !StrLess(a, a) { StrIrreflexive(a); }
    forall a, b, c | StrLess(a, b) && StrLess(b, c) ensures StrLess(a, c) { StrTransitive(a, b, c); }
    forall a, b | a != b ensures StrLess(a, b) || StrLess(b, a) { StrConnected(a, b); }
  }

  /** After a common beginning the lesser string ends first, or has the lesser byte. */
  lemma {:induction false} StrLessIff(a: string, b: string)
    ensures StrLess(a, b) <==> exists p: nat :: FirstDifference(a, b, p)
    decreases |a|
  {
    if StrLess(a, b) {
      var p := DifferenceOf(a, b);
    }
    if p: nat :| FirstDifference(a, b, p) {
      DifferenceDecides(a, b, p);
    }
  }

  predicate FirstDifference(a: string, b: string, p: nat) {
    p <= |a| && p < |b| && a[..p] == b[..p] && (p == |a| || a[p] < b[p])
  }

  lemma {:induction false} DifferenceOf(a: string, b: string) returns (p: nat)
    requires StrLess(a, b)
    ensures FirstDifference(a, b, p)
    decreases |a|
  {
    p := 0;
    if a != [] && a[0] == b[0] {
      var q := DifferenceOf(a[1..], b[1..]);
      p := q + 1;
      assert a[..p] == [a[0]] + a[1..][..q] && b[..p] == [b[0]] + b[1..][..q];
    }
  }

  lemma {:induction false} DifferenceDecides(a: string, b: string, p: nat)
    requires FirstDifference(a, b, p)
    ensures StrLess(a, b)
    decreases p
  {
    if p > 0 {
      assert a[0] == a[..p][0] == b[..p][0] == b[0];
      assert a[1..][..p - 1] == a[..p][1..] == b[..p][1..] == b[1..][..p - 1];
      DifferenceDecides(a[1..], b[1..], p - 1);
    }
  }

  method CompareHeads(a: seq<string>, i: nat, b: seq<string>, j: nat) returns (t: Turn)
    requires i <= |a| && j <= |b| && (i < |a| || j < |b|)
    ensures IsTurn(t, a, i, b, j, StrLess)
  {
    if i == |a| { return Second; }
    if j == |b| { return First; }
    if StrLess(a[i], b[j]) { return First; }
    if StrLess(b[j], a[i]) { return Second; }
    t := Both;
  }

  /** The keys of a `std::map<std::string, ...>` in iteration order. */
  function Keys(s: set<string>): (r: seq<string>)
    ensures Sorted(r, StrLess) && Distinct(r)
    ensures forall x :: x in r <==> x in s
  {
    StrOrder();
    Ascending(s, StrLess)
  }

  lemma KeysOfSorted(a: seq<string>)
    requires Sorted(a, StrLess)
    ensures Keys(Elements(a)) == a
  {
    StrOrder();
    AscendingOfSorted(a, StrLess);
  }
}
