/** The PHP string built-ins the two clients rely on, over byte strings:
    truthiness, `substr`, `intval`, `hexdec`, `explode` and `pack('N', …)`. */
module Php {
  import opened Bytes
  import opened Wrappers

  /** PHP's `if ($s)` on a string: only "" and "0" are false. */
  predicate Truthy(s: bytes) {
    s != [] && s != [0x30]
  }

  /** `substr($s, $start)` for a non-negative start: the suffix after `start`
      bytes, or the empty string when the string is not longer than that. */
  function SubstrFrom(s: bytes, start: nat): (r: bytes)
    ensures |s| <= start ==> r == []
    ensures |s| > start ==> |r| == |s| - start && s == s[..start] + r
  {
    if |s| <= start then [] else s[start..]
  }

  /** `substr($s, 0, -n)`: everything but the last `n` bytes, or the empty
      string when nothing would be left. */
  function DropLast(s: bytes, n: nat): (r: bytes)
    ensures |s| <= n ==> r == []
    ensures |s| > n ==> |r| == |s| - n && s == r + s[|s| - n..]
  {
    if |s| <= n then [] else s[..|s| - n]
  }

  // ---------------------------------------------------------------------
  // intval

  /** The bytes C's `isspace` accepts, which PHP skips before a number. */
  predicate IsSpace(b: byte) {
    b == 0x20 || b == 0x09 || b == 0x0A || b == 0x0B || b == 0x0C || b == 0x0D
  }

  predicate IsDigit(b: byte) {
    0x30 <= b <= 0x39
  }

  predicate AllDigits(s: bytes) {
    forall i :: 0 <= i < |s| ==> IsDigit(s[i])
  }

  /** Length of the run of white space that starts `s`. */
  function SpaceRun(s: bytes): (n: nat)
    ensures n <= |s|
    ensures forall i :: 0 <= i < n ==> IsSpace(s[i])
    ensures n == |s| || !IsSpace(s[n])
  {
    if s != [] && IsSpace(s[0]) then 1 + SpaceRun(s[1..]) else 0
  }

  /** Length of the run of decimal digits that starts `s`. */
  function DigitRun(s: bytes): (n: nat)
    ensures n <= |s|
    ensures AllDigits(s[..n])
    ensures n == |s| || !IsDigit(s[n])
  {
    if s != [] && IsDigit(s[0]) then 1 + DigitRun(s[1..]) else 0
  }

  /** The number a string of decimal digits denotes. */
  function DecimalValue(ds: bytes): nat
    requires AllDigits(ds)
  {
    if ds == [] then 0
    else 10 * DecimalValue(ds[..|ds| - 1]) + (ds[|ds| - 1] - 0x30)
  }

  /** The decimal text of `n`, without leading zeros (PHP's int to string). */
  function Decimal(n: nat): (r: bytes)
    ensures r != [] && AllDigits(r)
  {
    if n < 10 then [0x30 + n] else Decimal(n / 10) + [0x30 + n % 10]
  }

  /** The decimal text of a signed integer. */
  function SignedDecimal(n: int): bytes {
    if n < 0 then [0x2D] + Decimal(-n) else Decimal(n)
  }

  /** `intval($s)` (base 10): leading white space is skipped, then an
      optional sign, then the longest run of decimal digits; no digits
      gives 0. */
  function IntVal(s: bytes): int {
    var t := s[SpaceRun(s)..];
    if t != [] && (t[0] == 0x2D || t[0] == 0x2B) then
      var m: int := DecimalValue(t[1..][..DigitRun(t[1..])]);
      if t[0] == 0x2D then -m else m
    else
      DecimalValue(t[..DigitRun(t)])
  }

  lemma {:induction false} DecimalValueOfDecimal(n: nat)
    ensures DecimalValue(Decimal(n)) == n
  {
    if n >= 10 {
      var r := Decimal(n);
      assert r[..|r| - 1] == Decimal(n / 10);
      DecimalValueOfDecimal(n / 10);
    }
  }

  lemma {:induction false} DigitRunOfDigits(ds: bytes, rest: bytes)
    requires AllDigits(ds)
    requires rest == [] || !IsDigit(rest[0])
    ensures DigitRun(ds + rest) == |ds|
  {
    if ds != [] {
      assert (ds + rest)[1..] == ds[1..] + rest;
      DigitRunOfDigits(ds[1..], rest);
    }
  }

  lemma {:induction false} SpaceRunOfSpaces(ws: bytes, rest: bytes)
    requires forall i :: 0 <= i < |ws| ==> IsSpace(ws[i])
    requires rest == [] || !IsSpace(rest[0])
    ensures SpaceRun(ws + rest) == |ws|
  {
    if ws != [] {
      assert (ws + rest)[1..] == ws[1..] + rest;
      SpaceRunOfSpaces(ws[1..], rest);
    }
  }

  /** `intval` skips leading white space. */
  lemma IntValSkipsSpace(ws: bytes, t: bytes)
    requires forall i :: 0 <= i < |ws| ==> IsSpace(ws[i])
    requires t == [] || !IsSpace(t[0])
    ensures IntVal(ws + t) == IntVal(t)
  {
    SpaceRunOfSpaces(ws, t);
    SpaceRunOfSpaces([], t);
    assert (ws + t)[|ws|..] == t;
    assert t[0..] == t;
  }

  /** `intval` reads back a number written in decimal, with an optional
      minus sign and any tail that does not start with a digit. */
  lemma IntValOfDecimal(negative: bool, n: nat, rest: bytes)
    requires rest == [] || !IsDigit(rest[0])
    ensures negative ==> IntVal([0x2D] + Decimal(n) + rest) == -(n as int)
    ensures !negative ==> IntVal(Decimal(n) + rest) == n
  {
    DecimalValueOfDecimal(n);
    DigitRunOfDigits(Decimal(n), rest);
    var t := Decimal(n) + rest;
    assert t[..|Decimal(n)|] == Decimal(n);
    if negative {
      var u := [0x2D] + t;
      assert [0x2D] + Decimal(n) + rest == u;
      assert SpaceRun(u) == 0;
      assert u[0..] == u;
      assert u[1..] == t;
    } else {
      assert SpaceRun(t) == 0;
      assert t[0..] == t;
    }
  }

  /** A string with no digit at all is 0 to `intval`. */
  lemma IntValNoDigits(s: bytes)
    requires forall i :: 0 <= i < |s| ==> !IsDigit(s[i])
    ensures IntVal(s) == 0
  {
    var t := s[SpaceRun(s)..];
    assert t == [] || !IsDigit(t[0]);
    if t != [] && (t[0] == 0x2D || t[0] == 0x2B) {
      assert t[1..] == [] || !IsDigit(t[1..][0]);
    }
  }

  // ---------------------------------------------------------------------
  // hexdec

  /** The value of one hexadecimal digit, or None for any other byte. */
  function HexDigit(b: byte): (r: Option<nat>)
    ensures r.Some? ==> r.value < 16
  {
    if 0x30 <= b <= 0x39 then Some(b - 0x30)
    else if 0x61 <= b <= 0x66 then Some(b - 0x61 + 10)
    else if 0x41 <= b <= 0x46 then Some(b - 0x41 + 10)
    else None
  }

  /** `hexdec($s)`: the digits of `s` read in base 16, any other byte ignored. */
  function HexDec(s: bytes): nat {
    if s == [] then 0
    else match HexDigit(s[|s| - 1])
      case Some(d) => 16 * HexDec(s[..|s| - 1]) + d
      case None => HexDec(s[..|s| - 1])
  }

  /** `hexdec` applied to the decimal text of `n`: the same digits in base 16. */
  lemma HexDecOfDecimal(n: nat)
    ensures n < 10 ==> HexDec(Decimal(n)) == n
    ensures n >= 10 ==> HexDec(Decimal(n)) == 16 * HexDec(Decimal(n / 10)) + n % 10
  {
    var r := Decimal(n);
    if n >= 10 {
      assert r[..|r| - 1] == Decimal(n / 10);
    } else {
      assert r[..0] == [];
    }
  }

  // ---------------------------------------------------------------------
  // explode / implode

  predicate OccursAt(d: bytes, s: bytes, i: nat) {
    i + |d| <= |s| && s[i..i + |d|] == d
  }

  predicate Contains(d: bytes, s: bytes) {
    exists i: nat :: i <= |s| && OccursAt(d, s, i)
  }

  /** Index of the first occurrence of `d` in `s`, as `strpos` finds it. */
  function Find(d: bytes, s: bytes): (r: Option<nat>)
    requires d != []
    ensures r.Some? ==> OccursAt(d, s, r.value) && forall j: nat :: j < r.value ==> !OccursAt(d, s, j)
    ensures r.None? ==> forall j: nat :: !OccursAt(d, s, j)
    decreases |s|
  {
    if |s| < |d| then None
    else if s[..|d|] == d then Some(0)
    else
      var r := Find(d, s[1..]);
      assert forall j: nat :: OccursAt(d, s[1..], j) <==> OccursAt(d, s, j + 1) by {
        forall j: nat ensures OccursAt(d, s[1..], j) <==> OccursAt(d, s, j + 1) {
          if j + 1 + |d| <= |s| {
            assert s[1..][j..j + |d|] == s[j + 1..j + 1 + |d|];
          }
        }
      }
      assert !OccursAt(d, s, 0);
      assert forall j: nat :: j > 0 ==> OccursAt(d, s, j) == OccursAt(d, s[1..], j - 1);
      match r
      case None => None
      case Some(k) => Some(k + 1)
  }

  /** `implode($d, $parts)`. */
  function Join(d: bytes, parts: seq<bytes>): bytes {
    if |parts| == 0 then []
    else if |parts| == 1 then parts[0]
    else parts[0] + d + Join(d, parts[1..])
  }

  /** `explode($d, $s)` with a non-empty delimiter and no limit: the pieces
      between the occurrences of `d`, found left to right. */
  function Explode(d: bytes, s: bytes): (r: seq<bytes>)
    requires d != []
    ensures |r| >= 1
    decreases |s|
  {
    match Find(d, s)
    case None => [s]
    case Some(i) => [s[..i]] + Explode(d, s[i + |d|..])
  }

  /** `explode($d, $s, 2)`: split at the first occurrence only. */
  function Explode2(d: bytes, s: bytes): (r: seq<bytes>)
    requires d != []
    ensures 1 <= |r| <= 2
    ensures |r| == 2 <==> Contains(d, s)
    ensures !Contains(d, r[0])
    ensures Join(d, r) == s
  {
    match Find(d, s)
    case None => [s]
    case Some(i) =>
      assert forall j: nat :: OccursAt(d, s[..i], j) ==> OccursAt(d, s, j) by {
        forall j: nat | OccursAt(d, s[..i], j) ensures OccursAt(d, s, j) {
          assert s[..i][j..j + |d|] == s[j..j + |d|];
        }
      }
      assert OccursAt(d, s, i);
      assert s[..i] + d + s[i + |d|..] == s;
      [s[..i], s[i + |d|..]]
  }

  /** Joining the pieces with the delimiter gives the string back. */
  lemma {:induction false} JoinExplode(d: bytes, s: bytes)
    requires d != []
    ensures Join(d, Explode(d, s)) == s
    decreases |s|
  {
    var f := Find(d, s);
    if f.Some? {
      var i := f.value;
      var rest := s[i + |d|..];
      var tail := Explode(d, rest);
      calc {
        Join(d, Explode(d, s));
        Join(d, [s[..i]] + tail);
        { JoinCons(d, s[..i], tail); }
        s[..i] + d + Join(d, tail);
        { JoinExplode(d, rest); }
        s[..i] + d + rest;
        { SplitAt(d, s, i); }
        s;
      }
    }
  }

  /** A string without the delimiter byte explodes into itself alone. */
  lemma ExplodeAbsent(c: byte, s: bytes)
    requires forall i :: 0 <= i < |s| ==> s[i] != c
    ensures Explode([c], s) == [s]
  {
    FindByte(c, s);
  }

  /** A one-byte delimiter is found only where that byte is. */
  lemma FindByte(c: byte, s: bytes)
    ensures Find([c], s).Some? ==> Find([c], s).value < |s| && s[Find([c], s).value] == c
  {
    if Find([c], s).Some? {
      var j := Find([c], s).value;
      assert s[j..j + 1][0] == s[j];
    }
  }

  lemma SplitAt(d: bytes, s: bytes, i: nat)
    requires OccursAt(d, s, i)
    ensures s == s[..i] + d + s[i + |d|..]
  {
  }

  lemma JoinCons(d: bytes, p: bytes, tail: seq<bytes>)
    requires |tail| >= 1
    ensures Join(d, [p] + tail) == p + d + Join(d, tail)
  {
    assert ([p] + tail)[1..] == tail;
  }

  /** No piece of `explode` holds the delimiter. */
  lemma {:induction false} ExplodePiecesFree(d: bytes, s: bytes)
    requires d != []
    ensures forall k :: 0 <= k < |Explode(d, s)| ==> !Contains(d, Explode(d, s)[k])
    decreases |s|
  {
    match Find(d, s)
    case None =>
    case Some(i) =>
      var rest := s[i + |d|..];
      ExplodePiecesFree(d, rest);
      assert forall j: nat :: OccursAt(d, s[..i], j) ==> OccursAt(d, s, j) by {
        forall j: nat | OccursAt(d, s[..i], j) ensures OccursAt(d, s, j) {
          assert s[..i][j..j + |d|] == s[j..j + |d|];
        }
      }
      assert !Contains(d, s[..i]);
  }

  /** For a one-byte delimiter, `explode` undoes `implode` of pieces that do
      not hold that byte. */
  lemma {:induction false} ExplodeJoin(c: byte, parts: seq<bytes>)
    requires |parts| >= 1
    requires forall k, j :: 0 <= k < |parts| && 0 <= j < |parts[k]| ==> parts[k][j] != c
    ensures Explode([c], Join([c], parts)) == parts
  {
    var s := Join([c], parts);
    var p := parts[0];
    assert forall j: nat :: j < |p| ==> !OccursAt([c], s, j) by {
      forall j: nat | j < |p| ensures !OccursAt([c], s, j) {
        JoinStartsWith(c, parts);
        assert s[j] == p[j];
      }
    }
    if |parts| == 1 {
      assert s == p;
      assert Find([c], s) == None;
    } else {
      var rest := Join([c], parts[1..]);
      assert s == p + [c] + rest;
      assert OccursAt([c], s, |p|);
      assert Find([c], s) == Some(|p|);
      assert s[..|p|] == p;
      assert s[|p| + 1..] == rest;
      ExplodeJoin(c, parts[1..]);
      assert parts == [p] + parts[1..];
    }
  }

  lemma JoinStartsWith(c: byte, parts: seq<bytes>)
    requires |parts| >= 1
    ensures |Join([c], parts)| >= |parts[0]|
    ensures Join([c], parts)[..|parts[0]|] == parts[0]
  {
  }

  // ---------------------------------------------------------------------
  // pack('N', …)

  const TwoTo32: nat := 0x1_0000_0000

  /** The unsigned value of four big-endian bytes (`unpack('N', …)`). */
  function UnpackN(b: bytes): nat
    requires |b| == 4
  {
    (b[0] as int) * 0x100_0000 + (b[1] as int) * 0x1_0000 + (b[2] as int) * 0x100 + b[3]
  }

  /** `pack('N', $n)`: the low 32 bits of `n` (two's complement for a
      negative `n`), most significant byte first. */
  function PackN(n: int): (r: bytes)
    ensures |r| == 4
    ensures UnpackN(r) == n % TwoTo32
  {
    var u := n % TwoTo32;
    var q3 := u / 0x100;
    var q2 := q3 / 0x100;
    var q1 := q2 / 0x100;
    PackDigits(u, q3, q2, q1);
    [q1 % 0x100, q2 % 0x100, q3 % 0x100, u % 0x100]
  }

  /** Peeling four base-256 digits off a 32-bit number leaves nothing. */
  lemma PackDigits(u: int, q3: int, q2: int, q1: int)
    requires 0 <= u < TwoTo32
    requires q3 == u / 0x100 && q2 == q3 / 0x100 && q1 == q2 / 0x100
    ensures q1 < 0x100
    ensures u == (q1 % 0x100) * 0x100_0000 + (q2 % 0x100) * 0x1_0000 + (q3 % 0x100) * 0x100 + u % 0x100
  {
    assert u == 0x100 * q3 + u % 0x100;
    assert q3 == 0x100 * q2 + q3 % 0x100;
    assert q2 == 0x100 * q1 + q2 % 0x100;
  }

  /** Every four bytes are what `pack('N', …)` makes of the number they spell. */
  lemma PackUnpack(b: bytes)
    requires |b| == 4
    ensures PackN(UnpackN(b)) == b
  {
    var u := UnpackN(b);
    var q2 := (b[0] as int) * 0x100 + b[1];
    var q3 := q2 * 0x100 + b[2];
    assert u == q3 * 0x100 + b[3];
    assert u % TwoTo32 == u;
    Base256(q3, b[3]);
    Base256(q2, b[2]);
    Base256(b[0] as int, b[1]);
    Base256(0, b[0]);
  }

  /** Dividing `256 x + y` by 256, for a digit `y`, gives back `x` and `y`. */
  lemma Base256(x: int, y: byte)
    requires x >= 0
    ensures (0x100 * x + y) / 0x100 == x && (0x100 * x + y) % 0x100 == y
  {
  }
}
