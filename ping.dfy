/** The Server List Ping client of MinecraftPing.php: the modern status
    exchange (`query`), the legacy `0xFE 0x01` ping (`query_old_pre17`),
    `read_var_int` and `close`. The TCP socket is modelled by the bytes the
    client has written and the bytes the server has sent that are not read
    yet. */
module Ping {
  import opened Bytes
  import opened Wrappers
  import Php
  import VarInt
  import Utf16

  // ---------------------------------------------------------------------
  // Handshake

  /** The handshake `query` writes first: a length byte, packet id 0,
      protocol version 4, the address length, the address, the port as an
      unsigned 16-bit big-endian number and next state 1. The length byte
      is `hexdec` of the decimal text of the address length, and every
      `pack('c', …)` keeps the low 8 bits. */
  function Handshake(address: bytes, port: int): (r: bytes)
    ensures |r| == |address| + 7
  {
    [Php.HexDec(Php.Decimal(|address|)) % 256, 0x00, 0x04, |address| % 256]
      + address + [(port % 0x1_0000) / 0x100, port % 0x100, 0x01]
  }

  /** How a server reads a handshake body (what follows the length byte):
      the address and the port, if the layout is right. */
  function HandshakeFields(body: bytes): Option<(bytes, nat)> {
    if |body| < 6 || body[0] != 0x00 || body[1] != 0x04 then None
    else
      var n: int := body[2];
      if |body| != n + 6 || body[n + 5] != 0x01 then None
      else Some((body[3..n + 3], (body[n + 3] as int) * 0x100 + body[n + 4]))
  }

  /** The body of the handshake carries the address and the port (taken
      modulo 2^16), for any address shorter than 256 bytes. */
  lemma HandshakeBody(address: bytes, port: int)
    requires |address| < 256
    ensures HandshakeFields(Handshake(address, port)[1..]) == Some((address, port % 0x1_0000))
  {
    var body := Handshake(address, port)[1..];
    var n := |address|;
    assert body == [0x00, 0x04, n] + address + [(port % 0x1_0000) / 0x100, port % 0x100, 0x01];
    assert body[3..n + 3] == address;
    assert port % 0x100 == (port % 0x1_0000) % 0x100;
  }

  /** The length byte equals the true body length, |address| + 6, exactly
      when the address is 10 to 19 bytes long: only then does reading the
      decimal length as hexadecimal add 6. */
  lemma HandshakeLengthByte(address: bytes, port: int)
    ensures Handshake(address, port)[0] == |address| + 6 <==> 10 <= |address| <= 19
  {
    var n := |address|;
    var h := Php.HexDec(Php.Decimal(n));
    assert Handshake(address, port)[0] == h % 256;
    if n < 1000 {
      var hundreds, tens, units := HexDecOfSmallDecimal(n);
      LowByte(hundreds, 16 * tens + units);
      DigitsPlusSix(n, hundreds, tens, units);
    }
  }

  lemma LowByte(k: nat, x: nat)
    requires x < 256
    ensures (256 * k + x) % 256 == x
  {
  }

  /** Reading three decimal digits in base 16 and keeping the low byte
      adds exactly 6 only when the number is 10 to 19. */
  lemma DigitsPlusSix(n: nat, hundreds: nat, tens: nat, units: nat)
    requires tens < 10 && units < 10
    requires n == 100 * hundreds + 10 * tens + units
    ensures 16 * tens + units == n + 6 <==> 10 <= n <= 19
  {
  }

  /** `hexdec` of the decimal text of a number below 1000, digit by digit. */
  lemma HexDecOfSmallDecimal(n: nat) returns (hundreds: nat, tens: nat, units: nat)
    requires n < 1000
    ensures tens < 10 && units < 10
    ensures n == 100 * hundreds + 10 * tens + units
    ensures Php.HexDec(Php.Decimal(n)) == 256 * hundreds + 16 * tens + units
  {
    Php.HexDecOfDecimal(n);
    var q := n / 10;
    units := n % 10;
    if n < 10 {
      hundreds, tens := 0, 0;
    } else {
      Php.HexDecOfDecimal(q);
      hundreds, tens := q / 10, q % 10;
      if q >= 10 {
        Php.HexDecOfDecimal(q / 10);
      }
    }
  }

  /** A worked example: "example.com" on port 25565 gives length byte 0x11, address length 11 and port bytes 63 DD. */
  lemma HandshakeExample()
    ensures Handshake(Ascii("example.com"), 25565) ==
      [0x11, 0x00, 0x04, 11] + Ascii("example.com") + [0x63, 0xDD, 0x01]
  {
    Php.HexDecOfDecimal(11);
    Php.HexDecOfDecimal(1);
  }

  // ---------------------------------------------------------------------
  // Reading the status response

  datatype PingError =
    | VarIntTooBig   // "VarInt too big."
    | NoData         // "Server didn't return any data."

  /** What `query` returns: `false` for a declared length below 10, or the
      body of the status response (the JSON text, not decoded here). */
  datatype Status = Unavailable | Json(body: bytes)

  /** `read_var_int` on the unread bytes `s`: its result and the bytes left.
      A stream that runs out gives 0, whatever was accumulated. */
  function ReadVarIntOn(s: bytes): (r: (Result<nat, PingError>, bytes))
    ensures r.0.Ok? ==> |r.1| <= |s| && s == s[..|s| - |r.1|] + r.1
    ensures r.0.Err? <==> |s| >= 6 && forall i :: 0 <= i < 5 ==> VarInt.More(s[i])
    ensures VarInt.Decode(s).Value? ==> r == (Ok(VarInt.Decode(s).v), s[VarInt.Decode(s).used..])
    ensures VarInt.Decode(s).Exhausted? ==> r == (Ok(0), [])
    ensures VarInt.Decode(s).TooBig? ==> r == (Err(VarIntTooBig), s[6..])
  {
    match VarInt.Decode(s)
    case Value(v, n) => (Ok(v), s[n..])
    case Exhausted(_) => (Ok(0), [])
    case TooBig => (Err(VarIntTooBig), s[6..])
  }

  /** `socket_read($this->socket, $len)` for the body: up to `len` bytes;
      nothing at all (or a length of 0, which the call refuses) is a
      failure. */
  function ReadBody(s: bytes, len: nat): (r: (Option<bytes>, bytes))
    ensures r.0.Some? <==> len > 0 && s != []
    ensures r.0.Some? ==> 1 <= |r.0.value| <= len && s == r.0.value + r.1
    ensures r.0.None? ==> r.1 == s
  {
    if len == 0 || s == [] then (None, s)
    else
      var k := if len < |s| then len else |s|;
      (Some(s[..k]), s[k..])
  }

  /** Everything `query` does after sending its two packets, on the bytes
      the server sends back: the result and the bytes left unread. */
  function QueryResponse(s: bytes): (r: (Result<Status, PingError>, bytes))
    ensures VarInt.Decode(s).Value? && VarInt.Decode(s).v < 10 ==>
      r == (Ok(Unavailable), s[VarInt.Decode(s).used..])
    ensures VarInt.Decode(s).Exhausted? ==> r == (Ok(Unavailable), [])
    ensures VarInt.Decode(s).TooBig? ==> r.0 == Err(VarIntTooBig)
    ensures r.0.Ok? && r.0.value.Json? ==>
      r.0.value.body != [] && |r.0.value.body| + |r.1| <= |s| &&
      s[|s| - |r.1| - |r.0.value.body|..] == r.0.value.body + r.1
    ensures VarInt.Decode(s).Value? && VarInt.Decode(s).v >= 10 ==>
      var after := Php.SubstrFrom(s, VarInt.Decode(s).used + 1);
      match VarInt.Decode(after)
      case TooBig => r == (Err(VarIntTooBig), after[6..])
      case Exhausted(_) => r == (Err(NoData), [])
      case Value(size, used) =>
        var rest := after[used..];
        if size == 0 || rest == [] then r == (Err(NoData), rest)
        else
          var k := if size < |rest| then size else |rest|;
          r == (Ok(Json(rest[..k])), rest[k..])
  {
    var (length, s1) := ReadVarIntOn(s);
    if length.Err? then (Err(length.error), s1)
    else if length.value < 10 then (Ok(Unavailable), s1)
    else
      var s2 := if s1 == [] then [] else s1[1..];
      var (size, s3) := ReadVarIntOn(s2);
      if size.Err? then (Err(size.error), s3)
      else
        var (data, s4) := ReadBody(s3, size.value);
        if data.None? then (Err(NoData), s4)
        else (Ok(Json(data.value)), s4)
  }

  /** A well-formed status response: a total length of at least 10, any
      packet id byte, the body length and the body, each length below 2^35.
      `query` returns exactly the body and leaves what follows unread. */
  lemma QueryWellFormed(total: nat, id: byte, body: bytes, rest: bytes)
    requires 10 <= total < Pow(128, 5)
    requires 1 <= |body| < Pow(128, 5)
    ensures QueryResponse(VarInt.Encode(total) + [id] + VarInt.Encode(|body|) + body + rest) ==
      (Ok(Json(body)), rest)
  {
    var tail := VarInt.Encode(|body|) + (body + rest);
    var s := VarInt.Encode(total) + ([id] + tail);
    assert VarInt.Encode(total) + [id] + VarInt.Encode(|body|) + body + rest == s;
    assert ReadVarIntOn(s) == (Ok(total), [id] + tail) by {
      VarInt.DecodeEncode(total, [id] + tail);
      assert s[|VarInt.Encode(total)|..] == [id] + tail;
    }
    assert ([id] + tail)[1..] == tail;
    assert ReadVarIntOn(tail) == (Ok(|body|), body + rest) by {
      VarInt.DecodeEncode(|body|, body + rest);
      assert tail[|VarInt.Encode(|body|)|..] == body + rest;
    }
    assert ReadBody(body + rest, |body|) == (Some(body), rest) by {
      assert (body + rest)[..|body|] == body;
      assert (body + rest)[|body|..] == rest;
    }
  }

  // ---------------------------------------------------------------------
  // The legacy ping

  /** What `query_old_pre17` returns on success. */
  datatype LegacyStatus = LegacyStatus(
    hostname: bytes, players: int, maxplayers: int, protocol: int, version: bytes)

  /** `$data[$i]` on an `explode` result, null (read as '') past the end. */
  function Field(parts: seq<bytes>, i: nat): bytes {
    if i < |parts| then parts[i] else []
  }

  /** The 1.4+ kick message starts with the UTF-8 section sign (C2 A7)
      and then "1", so its bytes 1 and 2 are A7 31. */
  predicate ExtendedDialect(text: bytes) {
    |text| >= 3 && text[1] == 0xA7 && text[2] == 0x31
  }

  /** The dialect split on the converted kick message. */
  function ParseKick(text: bytes): (r: LegacyStatus)
    ensures !ExtendedDialect(text) ==> r.protocol == 0 && r.version == Ascii("1.3")
    ensures !ExtendedDialect(text) ==>
      var parts := Php.Explode([0xA7], text);
      r.hostname == Php.DropLast(parts[0], 1)
      && r.players == (if |parts| > 1 then Php.IntVal(parts[1]) else 0)
      && r.maxplayers == (if |parts| > 2 then Php.IntVal(parts[2]) else 0)
    ensures ExtendedDialect(text) ==>
      var parts := Php.Explode([0x00], text);
      r.version == Field(parts, 2) && r.hostname == Field(parts, 3)
      && r.protocol == Php.IntVal(Field(parts, 1))
      && r.players == Php.IntVal(Field(parts, 4)) && r.maxplayers == Php.IntVal(Field(parts, 5))
  {
    if ExtendedDialect(text) then
      var data := Php.Explode([0x00], text);
      LegacyStatus(Field(data, 3), Php.IntVal(Field(data, 4)), Php.IntVal(Field(data, 5)),
                   Php.IntVal(Field(data, 1)), Field(data, 2))
    else
      var data := Php.Explode([0xA7], text);
      LegacyStatus(Php.DropLast(data[0], 1),
                   if |data| > 1 then Php.IntVal(data[1]) else 0,
                   if |data| > 2 then Php.IntVal(data[2]) else 0,
                   0, Ascii("1.3"))
  }

  /** A kick message without the byte A7 is read in the pre-1.4 dialect
      as a message of the day (all but its last byte) and no player
      counts. */
  lemma KickWithoutSign(text: bytes)
    requires forall i :: 0 <= i < |text| ==> text[i] != 0xA7
    ensures ParseKick(text) == LegacyStatus(Php.DropLast(text, 1), 0, 0, 0, Ascii("1.3"))
  {
    Php.ExplodeAbsent(0xA7, text);
  }

  /** `query_old_pre17` on the bytes received: `false` (None) for fewer
      than 4 bytes or a first byte other than FF; otherwise the 3 header
      bytes are dropped, the rest converted from UTF-16BE, and a failed
      conversion (`false`) reads as the empty string. */
  function LegacyPing(received: bytes): (r: Option<LegacyStatus>)
    ensures r.None? <==> |received| < 4 || received[0] != 0xFF
    ensures r.Some? ==> r.value == ParseKick(Utf16.Iconv(received[3..]).GetOr([]))
  {
    if |received| < 4 || received[0] != 0xFF then None
    else Some(ParseKick(Utf16.Iconv(Php.SubstrFrom(received, 3)).GetOr([])))
  }

  /** ASCII bytes as characters. */
  function Chars(s: bytes): (cs: seq<nat>)
    ensures |cs| == |s| && Utf16.AllScalars(cs)
    ensures forall i :: 0 <= i < |s| ==> cs[i] == s[i]
  {
    seq(|s|, i requires 0 <= i < |s| => s[i] as nat)
  }

  lemma {:induction false} Utf8OfAscii(s: bytes)
    requires forall i :: 0 <= i < |s| ==> s[i] < 0x80
    ensures Utf16.Utf8(Chars(s)) == s
  {
    if s != [] {
      assert Chars(s)[1..] == Chars(s[1..]);
      Utf8OfAscii(s[1..]);
    }
  }

  /** The decimal text of a number, as characters. */
  function Number(n: nat): (cs: seq<nat>)
    ensures Utf16.AllScalars(cs)
    ensures forall i :: 0 <= i < |cs| ==> 0x30 <= cs[i] <= 0x39
    ensures Utf16.Utf8(cs) == Php.Decimal(n)
  {
    Utf8OfAscii(Php.Decimal(n));
    Chars(Php.Decimal(n))
  }

  predicate NoNul(cs: seq<nat>) {
    forall i :: 0 <= i < |cs| ==> cs[i] != 0
  }

  /** The kick message of a 1.4+ server: U+00A7 followed by "1", protocol, version, message
      of the day, players and maximum, separated by U+0000. */
  function ExtendedKick(protocol: nat, version: seq<nat>, motd: seq<nat>, players: nat, maxplayers: nat)
    : (cs: seq<nat>)
    requires Utf16.AllScalars(version) && Utf16.AllScalars(motd)
    ensures Utf16.AllScalars(cs)
  {
    var pieces := [[0xA7, 0x31], Number(protocol), version, motd, Number(players), Number(maxplayers)];
    Utf8OfJoin(pieces);
    JoinChars(pieces)
  }

  /** A 1.4+ server's kick message is read field by field, whatever the
      length bytes of the packet header say. */
  lemma LegacyExtended(h1: byte, h2: byte, protocol: nat, version: seq<nat>, motd: seq<nat>,
                       players: nat, maxplayers: nat)
    requires Utf16.AllScalars(version) && Utf16.AllScalars(motd)
    requires NoNul(version) && NoNul(motd)
    ensures LegacyPing([0xFF, h1, h2] + Utf16.Utf16Be(ExtendedKick(protocol, version, motd, players, maxplayers)))
      == Some(LegacyStatus(Utf16.Utf8(motd), players, maxplayers, protocol, Utf16.Utf8(version)))
  {
    var pieces := [[0xA7, 0x31], Number(protocol), version, motd, Number(players), Number(maxplayers)];
    var cs := ExtendedKick(protocol, version, motd, players, maxplayers);
    var text := Utf16.Utf8(cs);
    var texts := Utf8Each(pieces);
    assert LegacyPing([0xFF, h1, h2] + Utf16.Utf16Be(cs)) == Some(ParseKick(text)) by {
      ExtendedPrefix(protocol, version, motd, players, maxplayers);
      LegacyPingOf(h1, h2, cs);
    }
    assert ParseKick(text) ==
      LegacyStatus(texts[3], Php.IntVal(texts[4]), Php.IntVal(texts[5]), Php.IntVal(texts[1]), texts[2]) by {
      ExtendedPrefix(protocol, version, motd, players, maxplayers);
      ExtendedSplit(protocol, version, motd, players, maxplayers);
      ParseExtended(text, texts);
    }
    assert Php.IntVal(texts[1]) == protocol by {
      NumberIntVal(protocol);
    }
    assert Php.IntVal(texts[4]) == players by {
      NumberIntVal(players);
    }
    assert Php.IntVal(texts[5]) == maxplayers by {
      NumberIntVal(maxplayers);
    }
  }

  /** The UTF-8 text of an extended kick message splits at its NULs into
      the UTF-8 forms of its pieces. */
  lemma ExtendedSplit(protocol: nat, version: seq<nat>, motd: seq<nat>, players: nat, maxplayers: nat)
    requires Utf16.AllScalars(version) && Utf16.AllScalars(motd)
    requires NoNul(version) && NoNul(motd)
    ensures Php.Explode([0x00], Utf16.Utf8(ExtendedKick(protocol, version, motd, players, maxplayers))) ==
      Utf8Each([[0xA7, 0x31], Number(protocol), version, motd, Number(players), Number(maxplayers)])
  {
    var pieces := [[0xA7, 0x31], Number(protocol), version, motd, Number(players), Number(maxplayers)];
    assert ExtendedKick(protocol, version, motd, players, maxplayers) == JoinChars(pieces);
    PiecesFree(protocol, version, motd, players, maxplayers);
    ExplodeUtf8Join(pieces);
  }

  /** The UTF-8 text of an extended kick message starts with the sign and
      the `1`. */
  lemma ExtendedPrefix(protocol: nat, version: seq<nat>, motd: seq<nat>, players: nat, maxplayers: nat)
    requires Utf16.AllScalars(version) && Utf16.AllScalars(motd)
    ensures ExtendedKick(protocol, version, motd, players, maxplayers) != []
    ensures
      var text := Utf16.Utf8(ExtendedKick(protocol, version, motd, players, maxplayers));
      |text| >= 3 && text[1] == 0xA7 && text[2] == 0x31
  {
    var pieces := [[0xA7, 0x31], Number(protocol), version, motd, Number(players), Number(maxplayers)];
    var cs := ExtendedKick(protocol, version, motd, players, maxplayers);
    var text := Utf16.Utf8(cs);
    var texts := Utf8Each(pieces);
    assert cs == JoinChars(pieces) && cs != [] by {
      JoinStartsWithChars(pieces);
    }
    SectionSignOne();
    assert texts[0] == [0xC2, 0xA7, 0x31];
    Utf8OfJoin(pieces);
    Php.JoinStartsWith(0x00, texts);
    assert text[..3] == [0xC2, 0xA7, 0x31];
  }

  lemma PiecesFree(protocol: nat, version: seq<nat>, motd: seq<nat>, players: nat, maxplayers: nat)
    requires Utf16.AllScalars(version) && Utf16.AllScalars(motd)
    requires NoNul(version) && NoNul(motd)
    ensures var pieces := [[0xA7, 0x31], Number(protocol), version, motd, Number(players), Number(maxplayers)];
      forall k :: 0 <= k < |pieces| ==> Utf16.AllScalars(pieces[k]) && NoNul(pieces[k])
  {
  }

  /** U+00A7 followed by "1" in UTF-8 is C2 A7 31. */
  lemma SectionSignOne()
    ensures Utf16.Utf8([0xA7, 0x31]) == [0xC2, 0xA7, 0x31]
  {
    assert Utf16.Utf8Char(0xA7) == [0xC2, 0xA7];
    assert Utf16.Utf8Char(0x31) == [0x31];
    assert [0xA7, 0x31][1..] == [0x31];
    assert Utf16.Utf8([0x31]) == [0x31] by {
      assert [0x31][1..] == [];
    }
  }

  /** `intval` reads a number's decimal text back. */
  lemma NumberIntVal(n: nat)
    ensures Php.IntVal(Utf16.Utf8(Number(n))) == n
  {
    Php.IntValOfDecimal(false, n, []);
    assert Php.Decimal(n) + [] == Php.Decimal(n);
  }

  lemma JoinStartsWithChars(pieces: seq<seq<nat>>)
    requires |pieces| >= 1
    ensures |JoinChars(pieces)| >= |pieces[0]|
    ensures JoinChars(pieces)[..|pieces[0]|] == pieces[0]
  {
  }

  /** The 1.4+ branch on a message whose NUL-separated fields are `texts`. */
  lemma ParseExtended(text: bytes, texts: seq<bytes>)
    requires |texts| == 6 && Php.Explode([0x00], text) == texts
    requires |text| >= 3 && text[1] == 0xA7 && text[2] == 0x31
    ensures ParseKick(text) ==
      LegacyStatus(texts[3], Php.IntVal(texts[4]), Php.IntVal(texts[5]), Php.IntVal(texts[1]), texts[2])
  {
    assert ExtendedDialect(text);
  }

  /** A kick packet whose body is the UTF-16BE form of some text is parsed
      from the UTF-8 form of that text. */
  lemma LegacyPingOf(h1: byte, h2: byte, cs: seq<nat>)
    requires Utf16.AllScalars(cs) && cs != []
    ensures LegacyPing([0xFF, h1, h2] + Utf16.Utf16Be(cs)) == Some(ParseKick(Utf16.Utf8(cs)))
  {
    var received := [0xFF, h1, h2] + Utf16.Utf16Be(cs);
    assert received[3..] == Utf16.Utf16Be(cs);
    Utf16.IconvUtf16(cs);
  }

  /** The UTF-8 form of each piece. */
  function Utf8Each(pieces: seq<seq<nat>>): (texts: seq<bytes>)
    requires forall k :: 0 <= k < |pieces| ==> Utf16.AllScalars(pieces[k])
    ensures |texts| == |pieces|
    ensures forall k :: 0 <= k < |pieces| ==> texts[k] == Utf16.Utf8(pieces[k])
  {
    seq(|pieces|, k requires 0 <= k < |pieces| => Utf16.Utf8(pieces[k]))
  }

  /** Text joined with U+0000, once converted to UTF-8, explodes on NUL
      back into the pieces, as long as no piece holds U+0000. */
  lemma ExplodeUtf8Join(pieces: seq<seq<nat>>)
    requires |pieces| >= 1
    requires forall k :: 0 <= k < |pieces| ==> Utf16.AllScalars(pieces[k]) && NoNul(pieces[k])
    ensures Utf16.AllScalars(JoinChars(pieces))
    ensures Php.Explode([0x00], Utf16.Utf8(JoinChars(pieces))) == Utf8Each(pieces)
  {
    var texts := Utf8Each(pieces);
    Utf8OfJoin(pieces);
    assert forall k, j :: 0 <= k < |texts| && 0 <= j < |texts[k]| ==> texts[k][j] != 0x00 by {
      forall k | 0 <= k < |texts| ensures forall j :: 0 <= j < |texts[k]| ==> texts[k][j] != 0x00 {
        Utf16.Utf8NoNul(pieces[k]);
      }
    }
    Php.ExplodeJoin(0x00, texts);
  }

  /** The kick message of a server older than 1.4: message of the day,
      players and maximum, separated by the section sign U+00A7. */
  function OldKick(motd: seq<nat>, players: nat, maxplayers: nat): (cs: seq<nat>)
    requires Utf16.AllScalars(motd)
    ensures Utf16.AllScalars(cs)
  {
    motd + [0xA7] + Number(players) + [0xA7] + Number(maxplayers)
  }

  /** A pre-1.4 kick message is read back whole: splitting the UTF-8 text on
      the byte A7 leaves the lead byte C2 of each section sign at the end of
      the piece before it, which `substr(…, 0, -1)` removes from the message
      of the day and `intval` ignores after the player count. This needs a
      message of the day that is not empty and whose UTF-8 form has no byte
      A7. */
  lemma LegacyOld(h1: byte, h2: byte, motd: seq<nat>, players: nat, maxplayers: nat)
    requires Utf16.AllScalars(motd) && motd != []
    requires forall i :: 0 <= i < |Utf16.Utf8(motd)| ==> Utf16.Utf8(motd)[i] != 0xA7
    ensures LegacyPing([0xFF, h1, h2] + Utf16.Utf16Be(OldKick(motd, players, maxplayers)))
      == Some(LegacyStatus(Utf16.Utf8(motd), players, maxplayers, 0, Ascii("1.3")))
  {
    var cs := OldKick(motd, players, maxplayers);
    assert LegacyPing([0xFF, h1, h2] + Utf16.Utf16Be(cs)) == Some(ParseKick(Utf16.Utf8(cs))) by {
      assert cs[0] == motd[0];
      LegacyPingOf(h1, h2, cs);
    }
    OldText(motd, players, maxplayers);
  }

  /** The UTF-8 text of a pre-1.4 kick message parses back to its motd and
      player counts, with protocol 0 and version "1.3". */
  lemma OldText(motd: seq<nat>, players: nat, maxplayers: nat)
    requires Utf16.AllScalars(motd) && motd != []
    requires forall i :: 0 <= i < |Utf16.Utf8(motd)| ==> Utf16.Utf8(motd)[i] != 0xA7
    ensures ParseKick(Utf16.Utf8(OldKick(motd, players, maxplayers)))
      == LegacyStatus(Utf16.Utf8(motd), players, maxplayers, 0, Ascii("1.3"))
  {
    var m := Utf16.Utf8(motd);
    var text := Utf16.Utf8(OldKick(motd, players, maxplayers));
    var parts := [m + [0xC2], Php.Decimal(players) + [0xC2], Php.Decimal(maxplayers)];
    assert text == Php.Join([0xA7], parts) by {
      OldKickUtf8(motd, players, maxplayers);
    }
    assert Php.Explode([0xA7], text) == parts by {
      OldPartsFree(m, players, maxplayers);
      Php.ExplodeJoin(0xA7, parts);
    }
    assert !ExtendedDialect(text) by {
      OldNotExtended(m, parts, text);
    }
    ParseOld(text, parts);
    assert Php.DropLast(m + [0xC2], 1) == m;
    assert Php.IntVal(parts[1]) == players by {
      Php.IntValOfDecimal(false, players, [0xC2]);
    }
    assert Php.IntVal(parts[2]) == maxplayers by {
      Php.IntValOfDecimal(false, maxplayers, []);
      assert Php.Decimal(maxplayers) + [] == Php.Decimal(maxplayers);
    }
  }

  /** None of the three pre-1.4 pieces holds the byte A7. */
  lemma OldPartsFree(m: bytes, players: nat, maxplayers: nat)
    requires forall i :: 0 <= i < |m| ==> m[i] != 0xA7
    ensures var parts := [m + [0xC2], Php.Decimal(players) + [0xC2], Php.Decimal(maxplayers)];
      forall k, j :: 0 <= k < |parts| && 0 <= j < |parts[k]| ==> parts[k][j] != 0xA7
  {
  }

  /** The text of a pre-1.4 message with a non-empty message of the day
      does not look like the 1.4+ dialect: byte 1 is either inside the
      message of the day or the lead byte C2 of the first section sign. */
  lemma OldNotExtended(m: bytes, parts: seq<bytes>, text: bytes)
    requires |m| >= 1 && forall i :: 0 <= i < |m| ==> m[i] != 0xA7
    requires |parts| == 3 && parts[0] == m + [0xC2]
    requires text == Php.Join([0xA7], parts)
    ensures !ExtendedDialect(text)
  {
    Php.JoinStartsWith(0xA7, parts);
    assert text[..|parts[0]|] == parts[0];
    assert text[1] == parts[0][1];
  }

  /** The pre-1.4 branch on a message whose A7-separated fields are `parts`. */
  lemma ParseOld(text: bytes, parts: seq<bytes>)
    requires |parts| >= 3 && Php.Explode([0xA7], text) == parts
    requires !ExtendedDialect(text)
    ensures ParseKick(text) ==
      LegacyStatus(Php.DropLast(parts[0], 1), Php.IntVal(parts[1]), Php.IntVal(parts[2]), 0, Ascii("1.3"))
  {
  }

  /** The UTF-8 text of `OldKick` as the three pieces joined with A7. */
  lemma OldKickUtf8(motd: seq<nat>, players: nat, maxplayers: nat)
    requires Utf16.AllScalars(motd)
    ensures Utf16.Utf8(OldKick(motd, players, maxplayers)) ==
      Php.Join([0xA7], [Utf16.Utf8(motd) + [0xC2], Php.Decimal(players) + [0xC2], Php.Decimal(maxplayers)])
  {
    var m, dp, dq := Utf16.Utf8(motd), Php.Decimal(players), Php.Decimal(maxplayers);
    calc {
      Utf16.Utf8(OldKick(motd, players, maxplayers));
      { OldKickBytes(motd, players, maxplayers); }
      m + [0xC2, 0xA7] + dp + [0xC2, 0xA7] + dq;
      { SignSplit(m, dp, dq); }
      (m + [0xC2]) + [0xA7] + (dp + [0xC2]) + [0xA7] + dq;
      { JoinThree(0xA7, m + [0xC2], dp + [0xC2], dq); }
      Php.Join([0xA7], [m + [0xC2], dp + [0xC2], dq]);
    }
  }

  /** The UTF-8 text of `OldKick`: each section sign becomes C2 A7. */
  lemma OldKickBytes(motd: seq<nat>, players: nat, maxplayers: nat)
    requires Utf16.AllScalars(motd)
    ensures Utf16.Utf8(OldKick(motd, players, maxplayers)) ==
      Utf16.Utf8(motd) + [0xC2, 0xA7] + Php.Decimal(players) + [0xC2, 0xA7] + Php.Decimal(maxplayers)
  {
    var sign: seq<nat> := [0xA7];
    assert Utf16.Utf8(sign) == [0xC2, 0xA7] by {
      assert Utf16.Utf8Char(0xA7) == [0xC2, 0xA7];
      assert sign[1..] == [];
    }
    var p, q := Number(players), Number(maxplayers);
    Utf16.Utf8Append(motd, sign);
    Utf16.Utf8Append(motd + sign, p);
    Utf16.Utf8Append(motd + sign + p, sign);
    Utf16.Utf8Append(motd + sign + p + sign, q);
  }

  /** Each C2 A7 between the pieces splits into a C2 ending the piece
      before it and an A7 delimiter. */
  lemma SignSplit(a: bytes, b: bytes, e: bytes)
    ensures a + [0xC2, 0xA7] + b + [0xC2, 0xA7] + e == (a + [0xC2]) + [0xA7] + (b + [0xC2]) + [0xA7] + e
  {
  }

  /** Three pieces joined with a one-byte delimiter. */
  lemma JoinThree(c: byte, a: bytes, b: bytes, e: bytes)
    ensures Php.Join([c], [a, b, e]) == a + [c] + b + [c] + e
  {
    var parts := [a, b, e];
    assert parts[1..][1..] == [e];
    assert Php.Join([c], parts[1..]) == b + [c] + e;
  }

  /** As written, a message of the day holding a character whose UTF-8 form
      has the byte A7 (here "ç", C3 A7) is cut there: "ç", U+00A7, "1", U+00A7, "20" reads as an
      empty message of the day, 0 players and a maximum of 1. */
  lemma LegacyOldContinuationByte(h1: byte, h2: byte)
    ensures LegacyPing([0xFF, h1, h2] + Utf16.Utf16Be(OldKick([0xE7], 1, 20)))
      == Some(LegacyStatus([], 0, 1, 0, Ascii("1.3")))
  {
    var cs := OldKick([0xE7], 1, 20);
    assert cs[0] == 0xE7;
    LegacyPingOf(h1, h2, cs);
    CedillaKickUtf8([0xE7], 1, 20);
    CedillaParse(Utf16.Utf8(cs));
  }

  /** As written, a pre-1.4 server with an empty message of the day and a
      player count starting with "1" is taken for the 1.4+ dialect: its
      text starts C2 A7 31, has no NUL, and so reads as protocol 0, an
      empty version, an empty message of the day and 0 of 0 players. */
  lemma LegacyOldEmptyMotd(h1: byte, h2: byte)
    ensures LegacyPing([0xFF, h1, h2] + Utf16.Utf16Be(OldKick([], 1, 20)))
      == Some(LegacyStatus([], 0, 0, 0, []))
  {
    var cs := OldKick([], 1, 20);
    assert cs[0] == 0xA7;
    LegacyPingOf(h1, h2, cs);
    EmptyMotdText();
    EmptyMotdParse([0xC2, 0xA7, 0x31, 0xC2, 0xA7, 0x32, 0x30]);
  }

  /** The UTF-8 text of the pre-1.4 message with an empty message of the
      day, one player and a maximum of 20. */
  lemma EmptyMotdText()
    ensures Utf16.Utf8(OldKick([], 1, 20)) == [0xC2, 0xA7, 0x31, 0xC2, 0xA7, 0x32, 0x30]
  {
    OldKickBytes([], 1, 20);
    assert Php.Decimal(1) == [0x31];
    assert Php.Decimal(20) == [0x32, 0x30] by {
      assert Php.Decimal(2) == [0x32];
    }
  }

  /** The 1.4+ branch on a text without NUL: one field, the rest empty. */
  lemma EmptyMotdParse(text: bytes)
    requires text == [0xC2, 0xA7, 0x31, 0xC2, 0xA7, 0x32, 0x30]
    ensures ParseKick(text) == LegacyStatus([], 0, 0, 0, [])
  {
    assert ExtendedDialect(text);
    Php.ExplodeAbsent(0x00, text);
    Php.IntValNoDigits([]);
  }

  /** The pre-1.4 branch on the UTF-8 text of "ç", U+00A7, "1", U+00A7, "20". */
  lemma CedillaParse(text: bytes)
    requires text == Php.Join([0xA7], [[0xC3], [0xC2], [0x31, 0xC2], [0x32, 0x30]])
    ensures ParseKick(text) == LegacyStatus([], 0, 1, 0, Ascii("1.3"))
  {
    var parts: seq<bytes> := [[0xC3], [0xC2], [0x31, 0xC2], [0x32, 0x30]];
    CedillaPieces(text, parts);
    ParseOld(text, parts);
    CedillaNumbers();
  }

  /** The A7-separated pieces of "ç", U+00A7, "1", U+00A7, "20", and its dialect. */
  lemma CedillaPieces(text: bytes, parts: seq<bytes>)
    requires parts == [[0xC3], [0xC2], [0x31, 0xC2], [0x32, 0x30]]
    requires text == Php.Join([0xA7], parts)
    ensures Php.Explode([0xA7], text) == parts && !ExtendedDialect(text)
  {
    Php.ExplodeJoin(0xA7, parts);
    Php.JoinCons([0xA7], [0xC3], parts[1..]);
    assert parts == [[0xC3]] + parts[1..];
    Php.JoinStartsWith(0xA7, parts[1..]);
    assert text[2] == Php.Join([0xA7], parts[1..])[0];
  }

  /** What the pre-1.4 branch makes of the pieces of "ç", U+00A7, "1", U+00A7, "20". */
  lemma CedillaNumbers()
    ensures Php.DropLast([0xC3], 1) == []
    ensures Php.IntVal([0xC2]) == 0 && Php.IntVal([0x31, 0xC2]) == 1
  {
    Php.IntValNoDigits([0xC2]);
    Php.IntValOfDecimal(false, 1, [0xC2]);
    assert Php.Decimal(1) == [0x31];
  }

  /** "ç", U+00A7, "1", U+00A7, "20" in UTF-8, cut at every byte A7. */
  lemma CedillaKickUtf8(motd: seq<nat>, players: nat, maxplayers: nat)
    requires motd == [0xE7] && players == 1 && maxplayers == 20
    ensures Utf16.AllScalars(motd)
    ensures Utf16.Utf8(OldKick(motd, players, maxplayers)) ==
      Php.Join([0xA7], [[0xC3], [0xC2], [0x31, 0xC2], [0x32, 0x30]])
  {
    var pieces := [Utf16.Utf8(motd) + [0xC2], Php.Decimal(players) + [0xC2], Php.Decimal(maxplayers)];
    assert Utf16.Utf8(OldKick(motd, players, maxplayers)) == Php.Join([0xA7], pieces) by {
      OldKickUtf8(motd, players, maxplayers);
    }
    assert pieces == [[0xC3, 0xA7, 0xC2], [0x31, 0xC2], [0x32, 0x30]] by {
      assert Utf16.Utf8(motd) == [0xC3, 0xA7] by {
        assert Utf16.Utf8Char(0xE7) == [0xC3, 0xA7];
        assert motd[1..] == [];
      }
      assert Php.Decimal(players) == [0x31];
      assert Php.Decimal(maxplayers) == [0x32, 0x30] by {
        assert Php.Decimal(2) == [0x32];
      }
      assert pieces[0] == [0xC3, 0xA7, 0xC2];
      assert pieces[1] == [0x31, 0xC2];
    }
    CedillaJoin();
  }
  /** Cutting the C3 A7 of "ç" adds one piece to the A7-joined text. */
  lemma CedillaJoin()
    ensures Php.Join([0xA7], [[0xC3, 0xA7, 0xC2], [0x31, 0xC2], [0x32, 0x30]]) ==
      Php.Join([0xA7], [[0xC3], [0xC2], [0x31, 0xC2], [0x32, 0x30]])
  {
    JoinThree(0xA7, [0xC3, 0xA7, 0xC2], [0x31, 0xC2], [0x32, 0x30]);
    var rest: seq<bytes> := [[0xC2], [0x31, 0xC2], [0x32, 0x30]];
    JoinThree(0xA7, [0xC2], [0x31, 0xC2], [0x32, 0x30]);
    Php.JoinCons([0xA7], [0xC3], rest);
    assert [[0xC3]] + rest == [[0xC3], [0xC2], [0x31, 0xC2], [0x32, 0x30]];
  }

  /** Pieces of text joined with U+0000 between them. */
  function JoinChars(pieces: seq<seq<nat>>): seq<nat> {
    if |pieces| == 0 then []
    else if |pieces| == 1 then pieces[0]
    else pieces[0] + [0] + JoinChars(pieces[1..])
  }

  /** UTF-8 turns U+0000 separators into NUL bytes. */
  lemma {:induction false} Utf8OfJoin(pieces: seq<seq<nat>>)
    requires forall k :: 0 <= k < |pieces| ==> Utf16.AllScalars(pieces[k])
    ensures Utf16.AllScalars(JoinChars(pieces))
    ensures Utf16.Utf8(JoinChars(pieces)) == Php.Join([0x00], Utf8Each(pieces))
  {
    var texts := Utf8Each(pieces);
    if |pieces| >= 2 {
      Utf8OfJoin(pieces[1..]);
      assert Utf8Each(pieces[1..]) == texts[1..];
      Utf16.Utf8Append(pieces[0], [0]);
      Utf16.Utf8Append(pieces[0] + [0], JoinChars(pieces[1..]));
      assert Utf16.Utf8([0]) == [0x00];
    }
  }

  // ---------------------------------------------------------------------
  // The client object

  /** A MinecraftPing object with its socket. `socket` is the open socket
      (None once closed), `released` the sockets handed to `socket_close`
      in order, `sent` everything written and `input` what the server has
      sent that has not been read. */
  class PingClient {
    const address: bytes
    const port: int
    var socket: Option<nat>
    var released: seq<nat>
    var sent: bytes
    var input: bytes

    /** A client whose socket `handle` is connected to `address`:`port`. */
    constructor(address: bytes, port: int, handle: nat, input: bytes)
      ensures this.address == address && this.port == port
      ensures socket == Some(handle) && released == [] && sent == [] && this.input == input
    {
      this.address := address;
      this.port := port;
      socket := Some(handle);
      released := [];
      sent := [];
      this.input := input;
    }

    /** `close`: releases the socket if there is one; calling it again
      does nothing. */
    method Close()
      modifies this`socket, this`released
      ensures socket == None
      ensures released == old(released) + (if old(socket).Some? then [old(socket).value] else [])
    {
      if socket.Some? {
        released := released + [socket.value];
        socket := None;
      }
    }

    /** `read_var_int`: one byte at a time, seven bits each, until a byte
      without the high bit; reading a sixth byte throws. */
    method ReadVarInt() returns (r: Result<nat, PingError>)
      modifies this`input
      ensures (r, input) == ReadVarIntOn(old(input))
    {
      ghost var s := input;
      var i: nat := 0;
      var j: nat := 0;
      while true
        invariant j <= 5 && j <= |s|
        invariant input == s[j..]
        invariant forall t :: 0 <= t < j ==> VarInt.More(s[t])
        invariant i == VarInt.Groups(s[..j])
        decreases 5 - j
      {
        if input == [] {
          // socket_read gave nothing: the partial value is dropped.
          return Ok(0);
        }
        var k := input[0];
        input := input[1..];
        VarInt.GroupsSnoc(s[..j], k);
        assert s[..j + 1] == s[..j] + [k];
        i := i + (k % 128) * Pow(128, j);
        j := j + 1;
        if j > 5 {
          return Err(VarIntTooBig);
        }
        if !VarInt.More(k) {
          VarInt.DecodeTerminated(s, j);
          return Ok(i);
        }
      }
    }

    /** `query`: sends the handshake and the status request `01 00`, then
      reads the response. */
    method Query() returns (r: Result<Status, PingError>)
      requires socket.Some?
      modifies this`sent, this`input
      ensures sent == old(sent) + Handshake(address, port) + [0x01, 0x00]
      ensures (r, input) == QueryResponse(old(input))
    {
      sent := sent + Handshake(address, port);
      sent := sent + [0x01, 0x00];
      var length := ReadVarInt();
      if length.Err? {
        return Err(length.error);
      }
      if length.value < 10 {
        return Ok(Unavailable);
      }
      if input != [] {
        input := input[1..];
      }
      length := ReadVarInt();
      if length.Err? {
        return Err(length.error);
      }
      if length.value == 0 || input == [] {
        return Err(NoData);
      }
      var k := if length.value < |input| then length.value else |input|;
      var data := input[..k];
      input := input[k..];
      return Ok(Json(data));
    }

    /** `query_old_pre17`: sends `FE 01` and parses the kick packet that
      comes back. */
    method QueryOldPre17() returns (r: Option<LegacyStatus>)
      requires socket.Some?
      modifies this`sent, this`input
      ensures sent == old(sent) + [0xFE, 0x01]
      ensures input == [] && r == LegacyPing(old(input))
    {
      sent := sent + [0xFE, 0x01];
      var data := input;
      input := [];
      if |data| < 4 || data[0] != 0xFF {
        return None;
      }
      var text := Utf16.Iconv(Php.SubstrFrom(data, 3)).GetOr([]);
      return Some(ParseKick(text));
    }
  }
}
