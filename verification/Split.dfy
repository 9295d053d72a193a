/**
 Splitting a string on a delimiter (src/util.cpp:6-27, include/session/util.hpp:170-184).
 */
module Split {
  import opened Options

  predicate OccursAt(s: string, d: string, p: nat) {
    p + |d| <= |s| && s[p..p + |d|] == d
  }

  predicate Contains(s: string, d: string) {
    exists p: nat | p <= |s| :: OccursAt(s, d, p)
  }

  /** The result of a search: the first occurrence, or that there is none. */
  predicate IsFirst(r: Option<nat>, s: string, d: string) {
    match r
    case Some(p) => OccursAt(s, d, p) && forall q: nat | q < p :: !OccursAt(s, d, q)
    case None => !Contains(s, d)
  }

  /** `str.find(delim)`: the first occurrence. */
  method Find(s: string, d: string) returns (r: Option<nat>)
    ensures IsFirst(r, s, d)
  {
    var p := 0;
    while p + |d| <= |s|
      invariant forall q: nat | q < p :: !OccursAt(s, d, q)
    {
      if s[p..p + |d|] == d { return Some(p); }
      p := p + 1;
    }
    r := None;
  }

  /** Put the delimiter between the pieces. */
  function Join(ps: seq<string>, d: string): string {
    if ps == [] then "" else if |ps| == 1 then ps[0] else ps[0] + d + Join(ps[1..], d)
  }

  /** Pieces without the delimiter that join to the string, each ending at the first delimiter it can. */
  ghost predicate IsSplit(ps: seq<string>, s: string, d: string)
    decreases |ps|
  {
    && ps != [] && |d| > 0
    && if |ps| == 1 then ps[0] == s && !Contains(s, d)
       else
         && |ps[0]| + |d| <= |s| && s == ps[0] + d + s[|ps[0]| + |d|..]
         && (forall q: nat | q < |ps[0]| :: !OccursAt(s, d, q))
         && IsSplit(ps[1..], s[|ps[0]| + |d|..], d)
  }

  /** The untrimmed split is determined by the string and the delimiter. */
  lemma {:induction false} SplitUnique(ps: seq<string>, qs: seq<string>, s: string, d: string)
    requires IsSplit(ps, s, d) && IsSplit(qs, s, d)
    ensures ps == qs
    decreases |ps|
  {
    if |ps| == 1 {
      if |qs| > 1 { FirstDelimiter(qs, s, d); }
    } else {
      FirstDelimiter(ps, s, d);
      if |qs| > 1 {
        FirstDelimiter(qs, s, d);
        assert ps[0] == s[..|ps[0]|] && qs[0] == s[..|qs[0]|];
        assert |ps[0]| == |qs[0]|;
        SplitUnique(ps[1..], qs[1..], s[|ps[0]| + |d|..], d);
        assert ps == [ps[0]] + ps[1..] && qs == [qs[0]] + qs[1..];
      }
    }
  }

  lemma FirstDelimiter(ps: seq<string>, s: string, d: string)
    requires IsSplit(ps, s, d) && |ps| > 1
    ensures OccursAt(s, d, |ps[0]|) && Contains(s, d)
  {
    var p: nat := |ps[0]|;
    assert s[p..p + |d|] == d && OccursAt(s, d, p);
  }

  /** Joining the pieces restores the string. */
  lemma {:induction false} JoinSplit(ps: seq<string>, s: string, d: string)
    requires IsSplit(ps, s, d)
    ensures Join(ps, d) == s
    decreases |ps|
  {
    if |ps| > 1 { JoinSplit(ps[1..], s[|ps[0]| + |d|..], d); }
  }

  /** No piece contains the delimiter. */
  lemma {:induction false} PiecesFree(ps: seq<string>, s: string, d: string, i: nat)
    requires IsSplit(ps, s, d) && i < |ps|
    ensures !Contains(ps[i], d)
    decreases |ps|
  {
    if |ps| > 1 {
      if i == 0 {
        forall q: nat | q <= |ps[0]| ensures !OccursAt(ps[0], d, q) {
          if q + |d| <= |ps[0]| { assert ps[0][q..q + |d|] == s[q..q + |d|] && !OccursAt(s, d, q); }
        }
      } else {
        PiecesFree(ps[1..], s[|ps[0]| + |d|..], d, i - 1);
      }
    }
  }

  /** For a one-byte delimiter, splitting undoes joining. */
  lemma {:induction false} SplitJoin(ps: seq<string>, c: char)
    requires ps != [] && forall i | 0 <= i < |ps| :: c !in ps[i]
    ensures IsSplit(ps, Join(ps, [c]), [c])
    decreases |ps|
  {
    var s := Join(ps, [c]);
    if |ps| == 1 {
      forall q: nat | q <= |s| ensures !OccursAt(s, [c], q) { OneByte(s, c, q); }
    } else {
      SplitJoin(ps[1..], c);
      assert s[|ps[0]| + 1..] == Join(ps[1..], [c]);
      forall q: nat | q < |ps[0]| ensures !OccursAt(s, [c], q) { OneByte(s, c, q); assert s[q] == ps[0][q]; }
    }
  }

  lemma OneByte(s: string, c: char, q: nat)
    ensures OccursAt(s, [c], q) <==> q < |s| && s[q] == c
  {
    if q < |s| { assert s[q..q + 1] == [s[q]]; }
  }

  /** No end of the delimiter is also a beginning of it. */
  predicate Unbordered(d: string) {
    forall k | 0 < k < |d| :: !IsBorder(d, k)
  }

  predicate IsBorder(d: string, k: nat) {
    0 < k < |d| && d[..k] == d[|d| - k..]
  }

  predicate AllFree(ps: seq<string>, d: string) {
    forall i | 0 <= i < |ps| :: !Contains(ps[i], d)
  }

  /** Splitting undoes joining, for all pieces without the delimiter, exactly when the delimiter is unbordered. */
  lemma SplitJoinIff(d: string)
    requires |d| > 0
    ensures Unbordered(d) <==> forall ps: seq<string> | ps != [] && AllFree(ps, d) :: IsSplit(ps, Join(ps, d), d)
  {
    if Unbordered(d) {
      forall ps: seq<string> | ps != [] && AllFree(ps, d) ensures IsSplit(ps, Join(ps, d), d) { SplitJoinAny(ps, d); }
    } else {
      var k :| 0 < k < |d| && IsBorder(d, k);
      BorderBreaks(d, k);
    }
  }

  lemma {:induction false} SplitJoinAny(ps: seq<string>, d: string)
    requires |d| > 0 && Unbordered(d) && ps != [] && AllFree(ps, d)
    ensures IsSplit(ps, Join(ps, d), d)
    decreases |ps|
  {
    if |ps| > 1 {
      var s, rest := Join(ps, d), Join(ps[1..], d);
      assert AllFree(ps[1..], d);
      SplitJoinAny(ps[1..], d);
      assert s == ps[0] + d + rest && s[|ps[0]| + |d|..] == rest;
      forall q: nat | q < |ps[0]| ensures !OccursAt(s, d, q) { NoEarlierDelimiter(ps[0], d, rest, q); }
    }
  }

  lemma NoEarlierDelimiter(p: string, d: string, rest: string, q: nat)
    requires |d| > 0 && Unbordered(d) && !Contains(p, d) && q < |p|
    ensures !OccursAt(p + d + rest, d, q)
  {
    if OccursAt(p + d + rest, d, q) {
      if q + |d| <= |p| { OccursInside(p, d, rest, q); } else { OverlapIsBorder(p, d, rest, q); }
    }
  }

  lemma OccursInside(p: string, d: string, rest: string, q: nat)
    requires q + |d| <= |p| && OccursAt(p + d + rest, d, q)
    ensures Contains(p, d)
  {
    assert p[q..q + |d|] == (p + d + rest)[q..q + |d|];
    assert OccursAt(p, d, q);
  }

  /** A delimiter that reaches into the one after it has a border. */
  lemma OverlapIsBorder(p: string, d: string, rest: string, q: nat)
    requires q < |p| < q + |d| && OccursAt(p + d + rest, d, q)
    ensures IsBorder(d, q + |d| - |p|)
  {
    var s, k := p + d + rest, q + |d| - |p|;
    assert s[q..q + |d|][|d| - k..] == s[|p|..|p| + k] == d[..k];
  }

  lemma BorderBreaks(d: string, k: nat)
    requires IsBorder(d, k)
    ensures var ps := [d[..|d| - k], ""]; AllFree(ps, d) && !IsSplit(ps, Join(ps, d), d)
  {
    var head := d[..|d| - k];
    var ps := [head, ""];
    assert forall i | 0 <= i < |ps| :: |ps[i]| < |d|;
    assert ps[1..] == [""] && Join([""], d) == "";
    StartsEarly(d, k, head);
    assert Join(ps, d) == head + d + "" == head + d;
  }

  lemma StartsEarly(d: string, k: nat, head: string)
    requires IsBorder(d, k) && head == d[..|d| - k]
    ensures OccursAt(head + d, d, 0)
  {
    var s := head + d;
    assert d == head + d[|d| - k..];
    assert s[..|d|] == head + d[..k];
    assert s[0..0 + |d|] == s[..|d|];
  }

  // ----- the split as a function -------------------------------------------------------------------

  lemma FirstOccurrence(s: string, d: string) returns (p: nat)
    requires Contains(s, d)
    ensures OccursAt(s, d, p) && forall q: nat | q < p :: !OccursAt(s, d, q)
  {
    var w: nat :| w <= |s| && OccursAt(s, d, w);
    p := 0;
    while !OccursAt(s, d, p)
      invariant p <= w && forall q: nat | q < p :: !OccursAt(s, d, q)
      decreases w - p
    {
      p := p + 1;
    }
  }

  lemma {:induction false} SplitExists(s: string, d: string) returns (ps: seq<string>)
    requires |d| > 0
    ensures IsSplit(ps, s, d)
    decreases |s|
  {
    if Contains(s, d) {
      var p := FirstOccurrence(s, d);
      var rest := SplitExists(s[p + |d|..], d);
      ps := [s[..p]] + rest;
      assert ps[1..] == rest && s == s[..p] + d + s[p + |d|..];
    } else {
      ps := [s];
    }
  }

  /** The untrimmed pieces. */
  ghost function Pieces(s: string, d: string): (ps: seq<string>)
    requires |d| > 0
    ensures IsSplit(ps, s, d)
  {
    assert exists ps :: IsSplit(ps, s, d) by { var w := SplitExists(s, d); }
    var ps :| IsSplit(ps, s, d);
    ps
  }

  lemma PiecesAre(ps: seq<string>, s: string, d: string)
    requires IsSplit(ps, s, d)
    ensures Pieces(s, d) == ps
  {
    SplitUnique(Pieces(s, d), ps, s, d);
  }

  lemma {:induction false} JoinAppend(a: seq<string>, b: seq<string>, d: string)
    requires a != [] && b != []
    ensures Join(a + b, d) == Join(a, d) + d + Join(b, d)
    decreases |a|
  {
    if |a| == 1 {
      assert (a + b)[1..] == b;
    } else {
      assert (a + b)[1..] == a[1..] + b;
      JoinAppend(a[1..], b, d);
    }
  }

  // ----- trimming --------------------------------------------------------------------------------

  function StripFront(ps: seq<string>): seq<string> {
    if ps != [] && ps[0] == "" then StripFront(ps[1..]) else ps
  }

  function StripBack(ps: seq<string>): seq<string> {
    if ps != [] && ps[|ps| - 1] == "" then StripBack(ps[..|ps| - 1]) else ps
  }

  /** Stripping takes away all empty pieces at that end, and nothing else. */
  lemma {:induction false} StripFrontIs(ps: seq<string>) returns (i: nat)
    ensures i <= |ps| && StripFront(ps) == ps[i..] && (forall q | 0 <= q < i :: ps[q] == "") && (i < |ps| ==> ps[i] != "")
  {
    i := 0;
    if ps != [] && ps[0] == "" {
      var j := StripFrontIs(ps[1..]);
      i := j + 1;
    }
  }

  lemma {:induction false} StripBackIs(ps: seq<string>) returns (i: nat)
    ensures i <= |ps| && StripBack(ps) == ps[..i] && (forall q | i <= q < |ps| :: ps[q] == "") && (i > 0 ==> ps[i - 1] != "")
    decreases |ps|
  {
    i := |ps|;
    if ps != [] && ps[|ps| - 1] == "" { i := StripBackIs(ps[..|ps| - 1]); }
  }

  lemma {:induction false} StripFrontAppend(ps: seq<string>, x: string)
    ensures StripFront(ps + [x]) == if StripFront(ps) == [] && x == "" then [] else StripFront(ps) + [x]
    decreases |ps|
  {
    if ps == [] {
      assert ps + [x] == [x];
    } else if ps[0] == "" {
      assert (ps + [x])[1..] == ps[1..] + [x];
      StripFrontAppend(ps[1..], x);
    }
  }

  lemma StripBackEmpty(ps: seq<string>)
    ensures StripBack(ps + [""]) == StripBack(ps)
  {
    assert (ps + [""])[..|ps|] == ps;
  }

  /** `ps`, followed by the pieces of `rest`, are the pieces of `s`. */
  ghost predicate Completes(ps: seq<string>, s: string, rest: string, d: string) {
    forall qs: seq<string> :: IsSplit(qs, rest, d) ==> IsSplit(ps + qs, s, d)
  }

  lemma {:induction false} IsSplitAppend(ps: seq<string>, s: string, d: string, rest: string, p: nat)
    requires |d| > 0 && IsFirst(Some(p), rest, d) && Completes(ps, s, rest, d)
    ensures Completes(ps + [rest[..p]], s, rest[p + |d|..], d)
  {
    forall qs: seq<string> | IsSplit(qs, rest[p + |d|..], d) ensures IsSplit(ps + [rest[..p]] + qs, s, d) {
      var all := [rest[..p]] + qs;
      assert rest == rest[..p] + d + rest[p + |d|..];
      assert all[1..] == qs;
      assert IsSplit(all, rest, d);
      assert ps + all == ps + [rest[..p]] + qs;
    }
  }

  /**
   Without trimming, the split; with trimming, the split without its leading and trailing
   empty pieces; with an empty delimiter, the single bytes.
   */
  method SplitString(s: string, d: string, trim: bool) returns (r: seq<string>, ghost pieces: seq<string>)
    ensures |d| > 0 ==> IsSplit(pieces, s, d) && r == if trim then StripBack(StripFront(pieces)) else pieces
    ensures |d| == 0 ==> |r| == |s| && forall i | 0 <= i < |s| :: r[i] == [s[i]]
  {
    r, pieces := [], [];
    if |d| == 0 {
      r := Bytes(s);
      return;
    }
    var rest := s;
    assert Completes(pieces, s, rest, d) by { assert forall qs: seq<string> :: [] + qs == qs; }
    var pos: Option<nat> := Find(rest, d);
    while pos.Some?
      invariant IsFirst(pos, rest, d) && Completes(pieces, s, rest, d)
      invariant r == if trim then StripFront(pieces) else pieces
      decreases |rest|
    {
      IsSplitAppend(pieces, s, d, rest, pos.value);
      StripFrontAppend(pieces, rest[..pos.value]);
      pieces := pieces + [rest[..pos.value]];
      if !trim || r != [] || pos.value > 0 { r := r + [rest[..pos.value]]; }
      rest := rest[pos.value + |d|..];
      pos := Find(rest, d);
    }
    assert IsSplit([rest], rest, d);
    StripFrontAppend(pieces, rest);
    pieces := pieces + [rest];
    if !trim || |rest| > 0 {
      r := r + [rest];
    } else {
      StripBackEmpty(r);
      r := PopEmpty(r);
    }
  }

  method Bytes(s: string) returns (r: seq<string>)
    ensures |r| == |s| && forall i | 0 <= i < |s| :: r[i] == [s[i]]
  {
    r := [];
    for i := 0 to |s|
      invariant |r| == i && forall p | 0 <= p < i :: r[p] == [s[p]]
    {
      r := r + [[s[i]]];
    }
  }

  method PopEmpty(ps: seq<string>) returns (r: seq<string>)
    ensures r == StripBack(ps)
  {
    r := ps;
    while r != [] && r[|r| - 1] == ""
      invariant StripBack(r) == StripBack(ps)
      decreases |r|
    {
      r := r[..|r| - 1];
    }
  }
}
