/**
 The disk format of service nodes (src/session_network.cpp:140-155, 206-233, 253-264).
 Integer and hex conversion belong to libraries and are modelled by their usual meaning.
 */
module NodeDisk {
  import opened Options
  import opened Split

  const INVALID_SWARM_ID := 0xffff_ffff_ffff_ffff
  const MAX_PORT := 0xffff
  const MIN_INT := -0x8000_0000
  const MAX_INT := 0x7fff_ffff

  datatype Node = Node(pubkey: seq<int>, version: seq<int>, swarmId: int, ip: string, port: int)

  /** What the types of the fields allow. */
  predicate WellTyped(n: Node) {
    && |n.pubkey| == 32 && (forall i | 0 <= i < 32 :: 0 <= n.pubkey[i] < 256)
    && (forall i | 0 <= i < |n.version| :: MIN_INT <= n.version[i] <= MAX_INT)
    && 0 <= n.swarmId <= INVALID_SWARM_ID && 0 <= n.port <= MAX_PORT
  }

  predicate AllTyped(nodes: seq<Node>) {
    forall i | 0 <= i < |nodes| :: WellTyped(nodes[i])
  }

  /** A key that has the same byte 32 times. */
  function KeyOf(b: int): (k: seq<int>)
    ensures |k| == 32 && forall i | 0 <= i < 32 :: k[i] == b
  {
    seq(32, _ => b)
  }

  // ----- decimal ----------------------------------------------------------------------------------

  predicate IsDigit(c: char) {
    '0' <= c <= '9'
  }

  function DigitChar(d: int): (c: char)
    requires 0 <= d < 10
    ensures IsDigit(c) && c as int - '0' as int == d
  {
    ('0' as int + d) as char
  }

  function Digits(n: nat): (s: string)
    ensures s != "" && forall i | 0 <= i < |s| :: IsDigit(s[i])
  {
    if n < 10 then [DigitChar(n)] else Digits(n / 10) + [DigitChar(n % 10)]
  }

  function Format(i: int): string {
    if i < 0 then "-" + Digits(-i) else Digits(i)
  }

  function NumberOf(s: string): int
    requires forall i | 0 <= i < |s| :: IsDigit(s[i])
  {
    if s == "" then 0 else
      10 * NumberOf(s[..|s| - 1]) + (s[|s| - 1] as int - '0' as int)
  }

  predicate AllDigits(s: string) {
    s != "" && forall i | 0 <= i < |s| :: IsDigit(s[i])
  }

  /** A whole string read as a number of a type with the given range; a minus only for signed types. */
  function ParseInt(s: string, lo: int, hi: int): Result<int> {
    var minus := lo < 0 && s != "" && s[0] == '-';
    var digits := if minus then s[1..] else s;
    if !AllDigits(digits) then Err
    else
      var v: int := if minus then -NumberOf(digits) else NumberOf(digits);
      if lo <= v <= hi then Ok(v) else Err
  }

  lemma {:induction false} NumberOfDigits(n: nat)
    ensures NumberOf(Digits(n)) == n
  {
    if n >= 10 {
      NumberOfDigits(n / 10);
      assert Digits(n)[..|Digits(n)| - 1] == Digits(n / 10);
    } else {
      assert Digits(n)[..0] == "";
    }
  }

  lemma ParseFormat(i: int, lo: int, hi: int)
    requires lo <= i <= hi
    ensures ParseInt(Format(i), lo, hi) == Ok(i)
  {
    if i < 0 {
      NumberOfDigits(-i);
      assert Format(i)[1..] == Digits(-i);
    } else {
      NumberOfDigits(i);
      assert IsDigit(Digits(i)[0]);
    }
  }

  lemma FormatBytes(i: int, c: char)
    requires c in Format(i)
    ensures IsDigit(c) || c == '-'
  {
  }

  // ----- hex ------------------------------------------------------------------------------------------

  function HexChar(d: int): (c: char)
    requires 0 <= d < 16
    ensures IsHexChar(c) && HexVal(c) == d && c != '|'
  {
    if d < 10 then ('0' as int + d) as char else ('a' as int + d - 10) as char
  }

  predicate IsHexChar(c: char) {
    '0' <= c <= '9' || 'a' <= c <= 'f' || 'A' <= c <= 'F'
  }

  function HexVal(c: char): int
    requires IsHexChar(c)
  {
    if '0' <= c <= '9' then c as int - '0' as int
    else if 'a' <= c <= 'f' then c as int - 'a' as int + 10
    else c as int - 'A' as int + 10
  }

  function ToHex(b: seq<int>): string
    requires forall i | 0 <= i < |b| :: 0 <= b[i] < 256
  {
    if b == [] then "" else [HexChar(b[0] / 16), HexChar(b[0] % 16)] + ToHex(b[1..])
  }

  predicate IsHex(s: string) {
    |s| % 2 == 0 && forall i | 0 <= i < |s| :: IsHexChar(s[i])
  }

  function FromHex(s: string): seq<int>
    requires IsHex(s)
    decreases |s|
  {
    if s == "" then [] else [16 * HexVal(s[0]) + HexVal(s[1])] + FromHex(s[2..])
  }

  lemma {:induction false} HexRoundTrip(b: seq<int>)
    requires forall i | 0 <= i < |b| :: 0 <= b[i] < 256
    ensures |ToHex(b)| == 2 * |b| && IsHex(ToHex(b)) && FromHex(ToHex(b)) == b && '|' !in ToHex(b)
    decreases |b|
  {
    if b != [] {
      HexRoundTrip(b[1..]);
      assert ToHex(b)[2..] == ToHex(b[1..]);
    }
  }

  // ----- versions ----------------------------------------------------------------------------------------

  function FormatAll(v: seq<int>): (r: seq<string>)
    ensures |r| == |v| && forall i | 0 <= i < |v| :: r[i] == Format(v[i])
  {
    seq(|v|, i requires 0 <= i < |v| => Format(v[i]))
  }

  function VersionText(v: seq<int>): string {
    Join(FormatAll(v), ".")
  }

  function ReadNumbers(ps: seq<string>): Result<seq<int>>
    decreases |ps|
  {
    if ps == [] then Ok([]) else
      var before := ReadNumbers(ps[..|ps| - 1]);
      var last := ParseInt(ps[|ps| - 1], MIN_INT, MAX_INT);
      if before.Ok? && last.Ok? then Ok(before.value + [last.value]) else Err
  }

  /** Trailing zeros dropped, but at least one number kept. */
  function TrimZeros(v: seq<int>): seq<int>
    decreases |v|
  {
    if |v| > 1 && v[|v| - 1] == 0 then TrimZeros(v[..|v| - 1]) else v
  }

  lemma {:induction false} TrimZerosIs(v: seq<int>) returns (k: nat)
    requires v != []
    ensures 1 <= k <= |v| && TrimZeros(v) == v[..k] && (forall q | k <= q < |v| :: v[q] == 0) && (k > 1 ==> v[k - 1] != 0)
    decreases |v|
  {
    k := |v|;
    if |v| > 1 && v[|v| - 1] == 0 { k := TrimZerosIs(v[..|v| - 1]); }
  }

  lemma {:induction false} TrimmedZero(v: seq<int>)
    requires v != []
    ensures TrimZeros(v) == [0] <==> forall i | 0 <= i < |v| :: v[i] == 0
    decreases |v|
  {
    if |v| > 1 && v[|v| - 1] == 0 {
      var short := v[..|v| - 1];
      TrimmedZero(short);
      assert (forall i | 0 <= i < |v| :: v[i] == 0) <==> (forall i | 0 <= i < |short| :: short[i] == 0) by {
        assert forall i | 0 <= i < |short| :: short[i] == v[i];
      }
    } else if |v| == 1 {
      assert v == [v[0]];
    }
  }

  lemma FrontAndLast(v: seq<int>)
    requires v != []
    ensures v == v[..|v| - 1] + [v[|v| - 1]]
  {
  }

  lemma {:induction false} ReadEach(ps: seq<string>, v: seq<int>)
    requires |ps| == |v| && forall i | 0 <= i < |v| :: ParseInt(ps[i], MIN_INT, MAX_INT) == Ok(v[i])
    ensures ReadNumbers(ps) == Ok(v)
    decreases |v|
  {
    if v != [] {
      var n := |v| - 1;
      FrontAndLast(v);
      ReadEach(ps[..n], v[..n]);
    }
  }

  lemma NumbersRoundTrip(v: seq<int>)
    requires forall i | 0 <= i < |v| :: MIN_INT <= v[i] <= MAX_INT
    ensures ReadNumbers(FormatAll(v)) == Ok(v)
  {
    forall i | 0 <= i < |v| ensures ParseInt(FormatAll(v)[i], MIN_INT, MAX_INT) == Ok(v[i]) {
      ParseFormat(v[i], MIN_INT, MAX_INT);
    }
    ReadEach(FormatAll(v), v);
  }

  lemma VersionRoundTrip(v: seq<int>)
    requires forall i | 0 <= i < |v| :: MIN_INT <= v[i] <= MAX_INT
    ensures ReadNumbers(Pieces(VersionText(v), ".")) == if v == [] then Err else Ok(v)
    ensures '|' !in VersionText(v)
  {
    if v == [] {
      assert IsSplit([""], "", ".") by { assert forall q: nat | q <= 0 :: !OccursAt("", ".", q); }
      PiecesAre([""], "", ".");
      assert [""][..0] == [];
    } else {
      var ps := FormatAll(v);
      forall i | 0 <= i < |ps| ensures '.' !in ps[i] && '|' !in ps[i] {
        if '.' in ps[i] { FormatBytes(v[i], '.'); }
        if '|' in ps[i] { FormatBytes(v[i], '|'); }
      }
      SplitJoin(ps, '.');
      PiecesAre(ps, VersionText(v), ".");
      NumbersRoundTrip(v);
      JoinBytes(ps, '.', '|');
    }
  }

  lemma {:induction false} JoinBytes(ps: seq<string>, d: char, c: char)
    requires c != d && forall i | 0 <= i < |ps| :: c !in ps[i]
    ensures c !in Join(ps, [d])
    decreases |ps|
  {
    if |ps| > 1 { JoinBytes(ps[1..], d, c); }
  }

  method ParseVersion(vers: string, trim: bool) returns (r: Result<seq<int>>)
    ensures r == match ReadNumbers(Pieces(vers, ".")) case Err => Err case Ok(v) => Ok(if trim then TrimZeros(v) else v)
  {
    var ps, pieces := SplitString(vers, ".", false);
    PiecesAre(pieces, vers, ".");
    var v: seq<int> := [];
    for i := 0 to |ps|
      invariant ReadNumbers(ps[..i]) == Ok(v)
    {
      assert ps[..i + 1][..i] == ps[..i];
      var n := ParseInt(ps[i], MIN_INT, MAX_INT);
      if n.Err? { NumbersFail(ps, i + 1); return Err; }
      v := v + [n.value];
    }
    assert ps[..|ps|] == ps;
    if trim {
      ghost var all := v;
      while |v| > 1 && v[|v| - 1] == 0
        invariant TrimZeros(v) == TrimZeros(all)
      {
        v := v[..|v| - 1];
      }
    }
    r := Ok(v);
  }

  lemma {:induction false} NumbersFail(ps: seq<string>, n: nat)
    requires n <= |ps| && ReadNumbers(ps[..n]).Err?
    ensures ReadNumbers(ps).Err?
    decreases |ps|
  {
    if n < |ps| {
      assert ps[..|ps| - 1][..n] == ps[..n];
      NumbersFail(ps[..|ps| - 1], n);
    } else {
      assert ps[..n] == ps;
    }
  }

  // ----- nodes ------------------------------------------------------------------------------------------------

  function NodeToDisk(n: Node): string
    requires WellTyped(n)
  {
    n.ip + "|" + Format(n.port) + "|" + VersionText(n.version) + "|" + ToHex(n.pubkey) + "|" + Format(n.swarmId)
  }

  ghost function ReadNode(s: string, canIgnoreVersion: bool): Result<Node> {
    var parts := Pieces(s, "|");
    if |parts| != 5 || |parts[3]| != 64 || !IsHex(parts[3]) then Err else
    var port := ParseInt(parts[1], 0, MAX_PORT);
    var version := ReadNumbers(Pieces(parts[2], "."));
    if port.Err? || version.Err? || (!canIgnoreVersion && TrimZeros(version.value) == [0]) then Err else
    var swarm := ParseInt(parts[4], 0, INVALID_SWARM_ID);
    Ok(Node(FromHex(parts[3]), TrimZeros(version.value), if swarm.Ok? then swarm.value else INVALID_SWARM_ID, parts[0], port.value))
  }

  method NodeFromDisk(s: string, canIgnoreVersion: bool) returns (r: Result<Node>)
    ensures r == ReadNode(s, canIgnoreVersion)
  {
    var parts, pieces := SplitString(s, "|", false);
    PiecesAre(pieces, s, "|");
    if |parts| != 5 { return Err; }
    if |parts[3]| != 64 || !IsHex(parts[3]) { return Err; }
    var port := ParseInt(parts[1], 0, MAX_PORT);
    if port.Err? { return Err; }
    var version := ParseVersion(parts[2], true);
    if version.Err? { return Err; }
    if !canIgnoreVersion && version.value == [0] { return Err; }
    var swarmId := INVALID_SWARM_ID;
    var parsed := ParseInt(parts[4], 0, INVALID_SWARM_ID);
    if parsed.Ok? { swarmId := parsed.value; }
    r := Ok(Node(FromHex(parts[3]), version.value, swarmId, parts[0], port.value));
  }

  function Fields(n: Node): seq<string>
    requires WellTyped(n)
  {
    [Format(n.port), VersionText(n.version), ToHex(n.pubkey), Format(n.swarmId)]
  }

  lemma FieldsFree(n: Node, i: nat)
    requires WellTyped(n) && i < 4
    ensures '|' !in Fields(n)[i]
  {
    HexRoundTrip(n.pubkey);
    VersionRoundTrip(n.version);
    if i == 0 && '|' in Format(n.port) { FormatBytes(n.port, '|'); }
    if i == 3 && '|' in Format(n.swarmId) { FormatBytes(n.swarmId, '|'); }
  }

  lemma PieceFree(s: string, i: nat)
    requires i < |Pieces(s, "|")|
    ensures '|' !in Pieces(s, "|")[i]
  {
    var p := Pieces(s, "|")[i];
    PiecesFree(Pieces(s, "|"), s, "|", i);
    forall q: nat | q < |p| ensures p[q] != '|' { OneByte(p, '|', q); }
  }

  lemma DiskIsJoin(n: Node)
    requires WellTyped(n)
    ensures NodeToDisk(n) == Join(Pieces(n.ip, "|") + Fields(n), "|")
  {
    var rest := Fields(n);
    JoinAppend(Pieces(n.ip, "|"), rest, "|");
    JoinSplit(Pieces(n.ip, "|"), n.ip, "|");
    JoinFour(rest[0], rest[1], rest[2], rest[3]);
    Associate(n.ip, rest[0], rest[1], rest[2], rest[3]);
  }

  lemma Associate(ip: string, a: string, b: string, c: string, d: string)
    ensures ip + "|" + a + "|" + b + "|" + c + "|" + d == ip + "|" + (a + "|" + b + "|" + c + "|" + d)
  {
  }

  lemma PartsOfDisk(n: Node)
    requires WellTyped(n)
    ensures Pieces(NodeToDisk(n), "|") == Pieces(n.ip, "|") + Fields(n)
  {
    var ip, ps := Pieces(n.ip, "|"), Pieces(n.ip, "|") + Fields(n);
    forall i | 0 <= i < |ps| ensures '|' !in ps[i] {
      if i < |ip| { PieceFree(n.ip, i); } else { FieldsFree(n, i - |ip|); }
    }
    SplitJoin(ps, '|');
    DiskIsJoin(n);
    PiecesAre(ps, NodeToDisk(n), "|");
  }

  lemma JoinFour(a: string, b: string, c: string, d: string)
    ensures Join([a, b, c, d], "|") == a + "|" + b + "|" + c + "|" + d
  {
    assert [a, b, c, d][1..] == [b, c, d] && [b, c, d][1..] == [c, d] && [c, d][1..] == [d];
    assert Join([d], "|") == d;
    assert Join([c, d], "|") == c + "|" + d;
    assert Join([b, c, d], "|") == b + "|" + (c + "|" + d);
  }

  /**
   Reading back a written node gives the same node with the trailing zeros of its version
   trimmed, for exactly the nodes whose ip has no separator and whose version is neither
   empty nor (unless that may be ignored) all zeros; every other node is refused.
   */
  lemma DiskRoundTrip(n: Node, canIgnoreVersion: bool)
    requires WellTyped(n)
    ensures ReadNode(NodeToDisk(n), canIgnoreVersion) ==
            if '|' in n.ip || n.version == [] ||
               (!canIgnoreVersion && forall i | 0 <= i < |n.version| :: n.version[i] == 0)
            then Err else Ok(n.(version := TrimZeros(n.version)))
  {
    var ip := Pieces(n.ip, "|");
    PartsOfDisk(n);
    HexRoundTrip(n.pubkey);
    VersionRoundTrip(n.version);
    ParseFormat(n.port, 0, MAX_PORT);
    ParseFormat(n.swarmId, 0, INVALID_SWARM_ID);
    if n.version != [] { TrimmedZero(n.version); }
    assert |ip| == 1 <==> '|' !in n.ip by {
      if |ip| == 1 {
        forall q: nat | q < |n.ip| ensures n.ip[q] != '|' { OneByte(n.ip, '|', q); assert !OccursAt(n.ip, "|", q); }
      } else {
        FirstDelimiter(ip, n.ip, "|");
        OneByte(n.ip, '|', |ip[0]|);
      }
    }
  }

  // ----- the format itself ------------------------------------------------------------------------------

  /** A written node is its ip, port, version, key and swarm id, in this order. */
  lemma DiskParts(n: Node)
    requires WellTyped(n) && '|' !in n.ip
    ensures IsSplit([n.ip, Format(n.port), Join(FormatAll(n.version), "."), ToHex(n.pubkey), Format(n.swarmId)], NodeToDisk(n), "|")
  {
    var ps := [n.ip, Format(n.port), VersionText(n.version), ToHex(n.pubkey), Format(n.swarmId)];
    forall i | 0 <= i < |ps| ensures '|' !in ps[i] {
      if i > 0 { FieldsFree(n, i - 1); }
    }
    SplitJoin(ps, '|');
    assert ps[1..] == Fields(n);
    JoinFour(ps[1], ps[2], ps[3], ps[4]);
    Associate(n.ip, ps[1], ps[2], ps[3], ps[4]);
    assert Join(ps, "|") == n.ip + "|" + Join(Fields(n), "|");
  }

  /** Numbers are decimal, most significant digit first, without leading zeros and with a minus below zero. */
  lemma {:induction false} DecimalForm(i: int)
    requires 0 <= i
    ensures Format(i) == Digits(i) && (i > 0 ==> Format(-i) == "-" + Digits(i) && Digits(i)[0] != '0')
    ensures Digits(i)[|Digits(i)| - 1] as int == '0' as int + i % 10 && (i >= 10 ==> Digits(i)[..|Digits(i)| - 1] == Digits(i / 10))
    ensures Digits(0) == "0" && Digits(120) == "120"
  {
    if i >= 10 { DecimalForm(i / 10); }
    assert Digits(1) == "1" && Digits(12) == "12";
  }

  /** A key is two lower-case hex digits for each byte, high half first; upper case is read too. */
  lemma {:induction false} HexForm(b: seq<int>, i: nat)
    requires (forall k | 0 <= k < |b| :: 0 <= b[k] < 256) && i < |b|
    ensures |ToHex(b)| == 2 * |b| && ToHex(b)[2 * i] == HexChar(b[i] / 16) && ToHex(b)[2 * i + 1] == HexChar(b[i] % 16)
  {
    HexRoundTrip(b);
    var head, tail := [HexChar(b[0] / 16), HexChar(b[0] % 16)], ToHex(b[1..]);
    assert ToHex(b) == head + tail;
    if i > 0 {
      HexForm(b[1..], i - 1);
      AfterTwo(head, tail, 2 * (i - 1));
      AfterTwo(head, tail, 2 * (i - 1) + 1);
    }
  }

  lemma AfterTwo(head: string, tail: string, k: nat)
    requires |head| == 2 && k < |tail|
    ensures (head + tail)[k + 2] == tail[k]
  {
  }

  lemma HexDigits(d: int)
    requires 0 <= d < 16
    ensures HexChar(d) == if d < 10 then ('0' as int + d) as char else ('a' as int + (d - 10)) as char
    ensures d >= 10 ==> IsHexChar(('A' as int + (d - 10)) as char) && HexVal(('A' as int + (d - 10)) as char) == d
  {
  }

  /** Exactly what a line must be to be read, and what is read from it. */
  lemma ReadNodeIff(s: string, canIgnoreVersion: bool, parts: seq<string>, numbers: seq<string>)
    requires IsSplit(parts, s, "|") && (|parts| == 5 ==> IsSplit(numbers, parts[2], "."))
    ensures ReadNode(s, canIgnoreVersion).Ok? <==>
            && |parts| == 5 && |parts[3]| == 64 && IsHex(parts[3]) && ParseInt(parts[1], 0, 65535).Ok?
            && (forall i | 0 <= i < |numbers| :: ParseInt(numbers[i], -0x8000_0000, 0x7fff_ffff).Ok?)
            && (canIgnoreVersion || exists i :: 0 <= i < |numbers| && ParseInt(numbers[i], -0x8000_0000, 0x7fff_ffff) != Ok(0))
    ensures ReadNode(s, canIgnoreVersion).Ok? ==>
            var n := ReadNode(s, canIgnoreVersion).value;
            && n.ip == parts[0] && ParseInt(parts[1], 0, 65535) == Ok(n.port) && n.pubkey == FromHex(parts[3])
            && n.swarmId == (match ParseInt(parts[4], 0, 0xffff_ffff_ffff_ffff) case Ok(v) => v case Err => 0xffff_ffff_ffff_ffff)
            && ReadNumbers(numbers).Ok? && n.version == TrimZeros(ReadNumbers(numbers).value)
  {
    PiecesAre(parts, s, "|");
    if |parts| == 5 {
      PiecesAre(numbers, parts[2], ".");
      NumbersIff(numbers);
      var v := ReadNumbers(numbers);
      if v.Ok? {
        assert v.value != [];
        TrimmedZero(v.value);
      }
    }
  }

  lemma {:induction false} NumbersIff(ps: seq<string>)
    ensures ReadNumbers(ps).Ok? <==> forall i | 0 <= i < |ps| :: ParseInt(ps[i], MIN_INT, MAX_INT).Ok?
    ensures ReadNumbers(ps).Ok? ==> |ReadNumbers(ps).value| == |ps|
    ensures ReadNumbers(ps).Ok? ==> forall i | 0 <= i < |ps| :: ParseInt(ps[i], MIN_INT, MAX_INT) == Ok(ReadNumbers(ps).value[i])
    decreases |ps|
  {
    if ps != [] {
      var k := |ps| - 1;
      var front := ps[..k];
      assert forall i | 0 <= i < k :: front[i] == ps[i];
      NumbersIff(front);
    }
  }
}
