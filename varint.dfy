/** The VarInt format of the Server List Ping protocol: seven data bits per
    byte, lowest group first, the high bit set on every byte but the last
    (the unsigned LEB128 / base-128 varint layout). */
module VarInt {
  import opened Bytes

  /** The high bit (`$k & 0x80`): another byte follows. */
  predicate More(b: byte) {
    b >= 128
  }

  /** The number the 7-bit groups of `s` spell, lowest group first:
      the sum of (s[i] & 0x7F) * 128^i. */
  function Groups(s: bytes): nat {
    if s == [] then 0 else s[0] % 128 + 128 * Groups(s[1..])
  }

  /** What `read_var_int` does with the bytes the stream holds: the value and
      the number of bytes read; or the stream ran out after `used` bytes; or a
      sixth byte was read. */
  datatype Read = Value(v: nat, used: nat) | Exhausted(used: nat) | TooBig

  /** Reading a VarInt from the start of `s`, at most five bytes deep. */
  function Decode(s: bytes): (r: Read)
    ensures r.Value? ==> 1 <= r.used <= 5 && r.used <= |s| && !More(s[r.used - 1])
    ensures r.Value? ==> (forall i :: 0 <= i < r.used - 1 ==> More(s[i])) && r.v == Groups(s[..r.used])
    ensures r.TooBig? <==> |s| >= 6 && forall i :: 0 <= i < 5 ==> More(s[i])
    ensures r.Exhausted? ==> r.used == |s| <= 5 && forall i :: 0 <= i < |s| ==> More(s[i])
  {
    DecodeFrom(s, 0)
  }

  /** `Decode` once the first `j` bytes have been read and all had the high bit. */
  function DecodeFrom(s: bytes, j: nat): (r: Read)
    requires j <= 5 && j <= |s|
    requires forall i :: 0 <= i < j ==> More(s[i])
    ensures r.Value? ==> j + 1 <= r.used <= 5 && r.used <= |s| && !More(s[r.used - 1])
    ensures r.Value? ==> (forall i :: 0 <= i < r.used - 1 ==> More(s[i])) && r.v == Groups(s[..r.used])
    ensures r.TooBig? <==> |s| >= 6 && forall i :: 0 <= i < 5 ==> More(s[i])
    ensures r.Exhausted? ==> r.used == |s| <= 5 && forall i :: 0 <= i < |s| ==> More(s[i])
    decreases 5 - j
  {
    if j == |s| then Exhausted(|s|)
    else if j == 5 then TooBig
    else if !More(s[j]) then Value(Groups(s[..j + 1]), j + 1)
    else DecodeFrom(s, j + 1)
  }

  /** The base-128 encoder `read_var_int` is the inverse of. */
  function Encode(v: nat): (r: bytes)
    ensures |r| >= 1
  {
    if v < 128 then [v] else [128 + v % 128] + Encode(v / 128)
  }

  /** Appending one byte adds its group at the next power of 128; this is
      how `read_var_int` accumulates `$i |= ($k & 0x7F) << 7 * $j`. */
  lemma {:induction false} GroupsSnoc(s: bytes, b: byte)
    ensures Groups(s + [b]) == Groups(s) + (b % 128) * Pow(128, |s|)
  {
    if s != [] {
      var g, c, p := Groups(s[1..]), b % 128, Pow(128, |s| - 1);
      assert (s + [b])[1..] == s[1..] + [b];
      GroupsSnoc(s[1..], b);
      assert Groups(s + [b]) == s[0] % 128 + 128 * (g + c * p);
      ShiftGroup(g, c, p);
    }
  }

  lemma ShiftGroup(g: nat, c: nat, p: nat)
    ensures 128 * (g + c * p) == 128 * g + c * (128 * p)
  {
  }

  /** `n` groups hold fewer than 7n bits. */
  lemma {:induction false} GroupsBound(s: bytes)
    ensures Groups(s) < Pow(128, |s|)
  {
    if s != [] {
      GroupsBound(s[1..]);
    }
  }

  /** A decoded value fits in 7 bits per byte read, so in 35 bits. */
  lemma DecodeBound(s: bytes)
    requires Decode(s).Value?
    ensures Decode(s).v < Pow(128, Decode(s).used) <= Pow(128, 5)
  {
    var n := Decode(s).used;
    GroupsBound(s[..n]);
    PowMono(128, n, 5);
  }

  lemma {:induction false} PowMono(b: nat, m: nat, n: nat)
    requires b >= 1 && m <= n
    ensures Pow(b, m) <= Pow(b, n)
  {
    if m < n {
      PowMono(b, m, n - 1);
    }
  }

  /** The encoding has the high bit on every byte but the last, and its
      groups spell the value. */
  lemma {:induction false} EncodeShape(v: nat)
    ensures !More(Encode(v)[|Encode(v)| - 1])
    ensures forall i :: 0 <= i < |Encode(v)| - 1 ==> More(Encode(v)[i])
    ensures Groups(Encode(v)) == v
  {
    if v >= 128 {
      var e, t := Encode(v), Encode(v / 128);
      EncodeShape(v / 128);
      assert e[1..] == t;
      assert Groups(e) == v % 128 + 128 * Groups(t);
      forall i | 0 <= i < |e| - 1 ensures More(e[i]) {
        if i > 0 {
          assert e[i] == t[i - 1];
        }
      }
    }
  }

  /** A value below 128^k takes at most k bytes. */
  lemma {:induction false} EncodeLength(v: nat, k: nat)
    requires k >= 1 && v < Pow(128, k)
    ensures |Encode(v)| <= k
  {
    if v >= 128 {
      EncodeLength(v / 128, k - 1);
    }
  }

  /** Bytes that end with a byte without the high bit within the first five
      decode to the groups up to and including it. */
  lemma DecodeTerminated(s: bytes, n: nat)
    requires 1 <= n <= 5 && n <= |s|
    requires forall i :: 0 <= i < n - 1 ==> More(s[i])
    requires !More(s[n - 1])
    ensures Decode(s) == Value(Groups(s[..n]), n)
  {
  }

  /** Round trip: every value below 2^35 is read back from its encoding,
      whatever follows it on the stream. */
  lemma DecodeEncode(v: nat, rest: bytes)
    requires v < Pow(128, 5)
    ensures Decode(Encode(v) + rest) == Value(v, |Encode(v)|)
  {
    var e := Encode(v);
    EncodeShape(v);
    EncodeLength(v, 5);
    var s := e + rest;
    assert s[..|e|] == e;
    DecodeTerminated(s, |e|);
  }
}
