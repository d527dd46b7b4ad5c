/** The text conversion the legacy ping applies to the kick message,
    `iconv('UTF-16BE', 'UTF-8', …)`: UTF-16 as RFC 2781 defines it, UTF-8 as
    RFC 3629 defines it. */
module Utf16 {
  import opened Bytes
  import opened Wrappers

  /** A Unicode scalar value: a code point that is not a surrogate. */
  predicate IsScalar(c: nat) {
    c < 0xD800 || 0xE000 <= c < 0x11_0000
  }

  predicate AllScalars(cs: seq<nat>) {
    forall i :: 0 <= i < |cs| ==> IsScalar(cs[i])
  }

  /** Section 3 of RFC 3629: the UTF-8 bytes of one scalar value. */
  function Utf8Char(c: nat): (r: bytes)
    requires IsScalar(c)
    ensures 1 <= |r| <= 4
    ensures (r[0] == 0) == (c == 0)
    ensures c > 0 ==> forall i :: 0 <= i < |r| ==> r[i] != 0
  {
    if c < 0x80 then [c]
    else if c < 0x800 then [0xC0 + c / 0x40, 0x80 + c % 0x40]
    else if c < 0x1_0000 then [0xE0 + c / 0x1000, 0x80 + (c / 0x40) % 0x40, 0x80 + c % 0x40]
    else [0xF0 + c / 0x4_0000, 0x80 + (c / 0x1000) % 0x40, 0x80 + (c / 0x40) % 0x40, 0x80 + c % 0x40]
  }

  function Utf8(cs: seq<nat>): bytes
    requires AllScalars(cs)
  {
    if cs == [] then [] else Utf8Char(cs[0]) + Utf8(cs[1..])
  }

  /** Section 2.1 of RFC 2781: the UTF-16BE bytes of one scalar value, a
      surrogate pair above U+FFFF. */
  function Utf16Char(c: nat): (r: bytes)
    requires IsScalar(c)
    ensures |r| == 2 || |r| == 4
  {
    if c < 0x1_0000 then [c / 0x100, c % 0x100]
    else
      var v := c - 0x1_0000;
      var hi := 0xD800 + v / 0x400;
      var lo := 0xDC00 + v % 0x400;
      [hi / 0x100, hi % 0x100, lo / 0x100, lo % 0x100]
  }

  function Utf16Be(cs: seq<nat>): bytes
    requires AllScalars(cs)
  {
    if cs == [] then [] else Utf16Char(cs[0]) + Utf16Be(cs[1..])
  }

  /** `iconv('UTF-16BE', 'UTF-8', $raw)` per section 2.2 of RFC 2781; None
      is iconv's `false`, for a lone surrogate or a trailing odd byte. */
  function Iconv(raw: bytes): (r: Option<bytes>)
    decreases |raw|
  {
    if |raw| == 0 then Some([])
    else if |raw| == 1 then None
    else
      var u := (raw[0] as int) * 0x100 + raw[1];
      if u < 0xD800 || 0xE000 <= u then
        match Iconv(raw[2..])
        case None => None
        case Some(t) => Some(Utf8Char(u) + t)
      else if u < 0xDC00 && |raw| >= 4 && 0xDC <= raw[2] < 0xE0 then
        var c := 0x1_0000 + (u - 0xD800) * 0x400 + ((raw[2] as int) * 0x100 + raw[3] - 0xDC00);
        match Iconv(raw[4..])
        case None => None
        case Some(t) => Some(Utf8Char(c) + t)
      else None
  }

  lemma {:induction false} Utf8Append(a: seq<nat>, b: seq<nat>)
    requires AllScalars(a) && AllScalars(b)
    ensures AllScalars(a + b)
    ensures Utf8(a + b) == Utf8(a) + Utf8(b)
  {
    if a != [] {
      assert (a + b)[0] == a[0] && (a + b)[1..] == a[1..] + b;
      Utf8Append(a[1..], b);
    } else {
      assert a + b == b;
    }
  }

  lemma {:induction false} Utf16Append(a: seq<nat>, b: seq<nat>)
    requires AllScalars(a) && AllScalars(b)
    ensures AllScalars(a + b)
    ensures Utf16Be(a + b) == Utf16Be(a) + Utf16Be(b)
  {
    if a != [] {
      assert (a + b)[0] == a[0] && (a + b)[1..] == a[1..] + b;
      Utf16Append(a[1..], b);
    } else {
      assert a + b == b;
    }
  }

  /** The conversion reads one character's UTF-16 form back as that
      character, whatever follows. */
  lemma IconvChar(c: nat, rest: bytes)
    requires IsScalar(c)
    ensures Iconv(Utf16Char(c) + rest) ==
      match Iconv(rest) case None => None case Some(t) => Some(Utf8Char(c) + t)
  {
    var raw := Utf16Char(c) + rest;
    if c < 0x1_0000 {
      assert raw[2..] == rest;
      assert (raw[0] as int) * 0x100 + raw[1] == c;
    } else {
      var v := c - 0x1_0000;
      var hi := 0xD800 + v / 0x400;
      var lo := 0xDC00 + v % 0x400;
      assert raw[4..] == rest;
      assert (raw[0] as int) * 0x100 + raw[1] == hi;
      assert (raw[2] as int) * 0x100 + raw[3] == lo;
      assert 0x1_0000 + (hi - 0xD800) * 0x400 + (lo - 0xDC00) == c;
    }
  }

  /** Converting the UTF-16BE form of any text gives its UTF-8 form. */
  lemma {:induction false} IconvUtf16(cs: seq<nat>)
    requires AllScalars(cs)
    ensures Iconv(Utf16Be(cs)) == Some(Utf8(cs))
  {
    if cs != [] {
      IconvUtf16(cs[1..]);
      IconvChar(cs[0], Utf16Be(cs[1..]));
    }
  }

  /** Only U+0000 puts a zero byte into UTF-8, so splitting the converted
      text on NUL bytes splits it between characters. */
  lemma {:induction false} Utf8NoNul(cs: seq<nat>)
    requires AllScalars(cs)
    requires forall i :: 0 <= i < |cs| ==> cs[i] != 0
    ensures forall j :: 0 <= j < |Utf8(cs)| ==> Utf8(cs)[j] != 0
  {
    if cs != [] {
      Utf8NoNul(cs[1..]);
    }
  }
}
