/** The query client (`MinecraftQuery`): the UT3/GameSpot query protocol over
    UDP. A request is a datagram `FE FD <type> 01 02 03 04 <payload>`; a
    challenge request (type 09) comes first, and its token, re-packed as four
    big-endian bytes, goes into the full-stat request (type 00), whose reply
    holds NUL-separated key/value pairs and then the player names. The socket
    is replaced by what `fwrite` and `fread` return on each exchange, and the
    datagrams sent are recorded in the client's trace. */
module Query {
  import opened Bytes
  import opened Wrappers
  import Php
  import opened PhpArray

  // ---------------------------------------------------------------------
  // Framing

  /** The fixed header of every request, before the type byte's slot is
      filled: magic FE FD, then the session id 01 02 03 04 after the type. */
  function Header(kind: byte): (r: bytes)
    ensures |r| == 7
  {
    [0xFE, 0xFD, kind, 0x01, 0x02, 0x03, 0x04]
  }

  /** The datagram `write_data` sends: the header with the request type,
      then the payload. */
  function Frame(kind: byte, payload: bytes): (r: bytes)
    ensures |r| == 7 + |payload|
    ensures r[..7] == Header(kind) && r[7..] == payload
  {
    Header(kind) + payload
  }

  /** Reading a request datagram back: its type and payload, or None when
      it does not start with the fixed header. */
  function Unframe(d: bytes): (r: Option<(byte, bytes)>) {
    if |d| >= 7 && d[..7] == Header(d[2]) then Some((d[2], d[7..])) else None
  }

  /** Every request datagram reads back as the type and payload it was
      built from, and only framed datagrams read back at all. */
  lemma FrameRoundTrip(kind: byte, payload: bytes, d: bytes)
    ensures Unframe(Frame(kind, payload)) == Some((kind, payload))
    ensures Unframe(d) == Some((kind, payload)) ==> d == Frame(kind, payload)
  {
    var f := Frame(kind, payload);
    assert f[2] == kind;
    if Unframe(d) == Some((kind, payload)) {
      assert d == d[..7] + d[7..];
    }
  }

  /** The response check of `write_data`: fewer than 5 bytes, or a first
      byte other than the request type, is "no data" (None); otherwise the
      type byte and the four session-id bytes are dropped. */
  function CheckResponse(kind: byte, data: bytes): (r: Option<bytes>)
    ensures r.None? <==> |data| < 5 || data[0] != kind
    ensures r.Some? ==> |r.value| == |data| - 5 && data == data[..5] + r.value
  {
    if |data| < 5 || data[0] != kind then None else Some(Php.SubstrFrom(data, 5))
  }

  /** A reply that starts with the request type and four session bytes
      yields exactly the payload that follows them. */
  lemma CheckReply(kind: byte, session: bytes, payload: bytes)
    requires |session| == 4
    ensures CheckResponse(kind, [kind] + session + payload) == Some(payload)
  {
    var data := [kind] + session + payload;
    assert data[5..] == payload;
  }

  // ---------------------------------------------------------------------
  // One exchange on the socket

  /** The exceptions of the query client. `InvalidTimeout` is the
      `InvalidArgumentException` of `connect`; the others are
      `MinecraftQueryException`s. */
  datatype QueryError =
    | InvalidTimeout
    | CouldNotCreateSocket
    | WriteFailed
    | ReadFailed
    | NoChallenge
    | NoStatus
    | Malformed

  /** What the socket does on one exchange: the count `fwrite` returns
      (None for `false`) and what `fread` returns (None for `false`). */
  datatype Transfer = Transfer(written: Option<int>, received: Option<bytes>)

  /** `write_data`: the write must report the whole datagram written, the
      read must not fail, and then the response check applies. */
  function Exchange(kind: byte, payload: bytes, t: Transfer): (r: Result<Option<bytes>, QueryError>)
    ensures r == Err(WriteFailed) <==> t.written != Some(7 + |payload|)
    ensures r == Err(ReadFailed) <==> t.written == Some(7 + |payload|) && t.received.None?
    ensures r.Ok? ==> t.received.Some? && r.value == CheckResponse(kind, t.received.value)
    ensures t.written == Some(7 + |payload|) && t.received.Some? ==>
      r == Ok(CheckResponse(kind, t.received.value))
  {
    if t.written != Some(|Frame(kind, payload)|) then Err(WriteFailed)
    else if t.received.None? then Err(ReadFailed)
    else Ok(CheckResponse(kind, t.received.value))
  }

  // ---------------------------------------------------------------------
  // The challenge

  const ChallengeType: byte := 0x09
  const StatType: byte := 0x00

  /** `get_challenge`: a "no data" reply is an error; otherwise the reply is
      read as an integer and packed as four big-endian bytes. */
  function Challenge(t: Transfer): (r: Result<bytes, QueryError>)
    ensures r.Ok? ==> |r.value| == 4
    ensures r.Ok? ==> Exchange(ChallengeType, [], t).Ok? && Exchange(ChallengeType, [], t).value.Some?
    ensures r.Ok? ==> Php.UnpackN(r.value) == Php.IntVal(Exchange(ChallengeType, [], t).value.value) % Php.TwoTo32
    ensures r == Err(NoChallenge) <==> Exchange(ChallengeType, [], t) == Ok(None)
    ensures Exchange(ChallengeType, [], t).Err? ==> r == Err(Exchange(ChallengeType, [], t).error)
    ensures Exchange(ChallengeType, [], t).Ok? && Exchange(ChallengeType, [], t).value.Some? ==>
      r == Ok(Php.PackN(Php.IntVal(Exchange(ChallengeType, [], t).value.value)))
  {
    match Exchange(ChallengeType, [], t)
    case Err(e) => Err(e)
    case Ok(None) => Err(NoChallenge)
    case Ok(Some(d)) => Ok(Php.PackN(Php.IntVal(d)))
  }

  /** The full-stat request: the token and four zero bytes after the
      header. */
  function StatusRequest(token: bytes): (r: bytes)
    requires |token| == 4
    ensures |r| == 15
    ensures Unframe(r) == Some((StatType, token + [0, 0, 0, 0]))
  {
    FrameRoundTrip(StatType, token + [0, 0, 0, 0], []);
    Frame(StatType, token + [0, 0, 0, 0])
  }

  /** A server that answers the challenge request with its token in
      decimal (then a NUL, as servers send it) has that token packed as the
      four big-endian bytes of the number; `PackN` keeps the low 32 bits
      of a larger one. */
  lemma ChallengeRoundTrip(session: bytes, n: nat, tail: bytes)
    requires |session| == 4
    requires tail == [] || !Php.IsDigit(tail[0])
    ensures Challenge(Transfer(Some(7), Some([ChallengeType] + session + Php.Decimal(n) + tail)))
      == Ok(Php.PackN(n))
  {
    var reply := [ChallengeType] + session + Php.Decimal(n) + tail;
    var t := Transfer(Some(7), Some(reply));
    assert Exchange(ChallengeType, [], t) == Ok(Some(Php.Decimal(n) + tail)) by {
      assert reply == [ChallengeType] + session + (Php.Decimal(n) + tail);
      CheckReply(ChallengeType, session, Php.Decimal(n) + tail);
    }
    assert Php.IntVal(Php.Decimal(n) + tail) == n by {
      Php.IntValOfDecimal(false, n, tail);
    }
  }

  // ---------------------------------------------------------------------
  // The key table

  /** The key table of `get_status`: each key the server may send, with
      the name its value is stored under. */
  const KeyTable: seq<(bytes, bytes)> := [
    (Ascii("hostname"), Ascii("HostName")),
    (Ascii("gametype"), Ascii("GameType")),
    (Ascii("version"), Ascii("Version")),
    (Ascii("plugins"), Ascii("Plugins")),
    (Ascii("map"), Ascii("Map")),
    (Ascii("numplayers"), Ascii("Players")),
    (Ascii("maxplayers"), Ascii("MaxPlayers")),
    (Ascii("hostport"), Ascii("HostPort")),
    (Ascii("hostip"), Ascii("HostIp"))
  ]

  /** The names of the key table. */
  const Names: set<bytes> := set i | 0 <= i < |KeyTable| :: KeyTable[i].1

  /** `array_key_exists` and the lookup in a table: the name stored under
      the first entry for `key`, or None when no entry has it. */
  function Lookup(table: seq<(bytes, bytes)>, key: bytes): (r: Option<bytes>)
    ensures r.Some? ==> exists i :: 0 <= i < |table| && table[i] == (key, r.value)
    ensures r.None? ==> forall i :: 0 <= i < |table| ==> table[i].0 != key
  {
    if table == [] then None
    else if table[0].0 == key then Some(table[0].1)
    else
      var r := Lookup(table[1..], key);
      assert forall i :: 1 <= i < |table| ==> table[i] == table[1..][i - 1];
      r
  }

  /** The name the key table gives a key, None for a key it does not list. */
  function Canonical(key: bytes): (r: Option<bytes>)
    ensures r.Some? ==> r.value in Names
    ensures r.Some? ==> exists i :: 0 <= i < |KeyTable| && KeyTable[i] == (key, r.value)
    ensures r.None? ==> forall i :: 0 <= i < |KeyTable| ==> KeyTable[i].0 != key
  {
    Lookup(KeyTable, key)
  }

  /** A name that starts with a capital letter. */
  predicate Capitalised(k: bytes) {
    |k| > 0 && 0x41 <= k[0] <= 0x5A
  }

  /** A key that starts with a small letter. */
  predicate Lowercase(k: bytes) {
    |k| > 0 && 0x61 <= k[0] <= 0x7A
  }

  lemma NamesCapitalised()
    ensures forall k :: k in Names ==> Capitalised(k)
  {
    forall i | 0 <= i < |KeyTable| ensures Capitalised(KeyTable[i].1) {
      assert KeyTable[i].1[0] == [0x48, 0x47, 0x56, 0x50, 0x4D, 0x50, 0x4D, 0x48, 0x48][i];
    }
  }

  // ---------------------------------------------------------------------
  // The key/value scan

  /** The scan's state: the name the last even token mapped to (None for
      `''` at the start and for `false` after an unknown key), and the
      entries so far. */
  datatype ScanState = ScanState(last: Option<bytes>, info: Array)

  /** One turn of the `foreach`, with `lookup` standing for the key
      table: an even-indexed token is a key, which creates its entry with
      the value `''` when the table knows it; an odd-indexed token is the
      value of the key before it. */
  function Step(lookup: bytes -> Option<bytes>, st: ScanState, index: nat, token: bytes): ScanState {
    if index % 2 == 0 then
      match lookup(token)
      case None => ScanState(None, st.info)
      case Some(name) => ScanState(Some(name), Set(st.info, name, Str([])))
    else
      match st.last
      case None => st
      case Some(name) => ScanState(st.last, Set(st.info, name, Str(token)))
  }

  /** The state after the first `n` tokens. */
  function Scan(lookup: bytes -> Option<bytes>, tokens: seq<bytes>, n: nat): ScanState
    requires n <= |tokens|
  {
    if n == 0 then ScanState(None, [])
    else Step(lookup, Scan(lookup, tokens, n - 1), n - 1, tokens[n - 1])
  }

  /** The last even index below `n` whose token the table maps to `name`. */
  function LastKey(lookup: bytes -> Option<bytes>, tokens: seq<bytes>, n: nat, name: bytes): (r: Option<nat>)
    requires n <= |tokens|
    ensures r.Some? ==> r.value < n && r.value % 2 == 0 && lookup(tokens[r.value]) == Some(name)
  {
    if n == 0 then None
    else if (n - 1) % 2 == 0 && lookup(tokens[n - 1]) == Some(name) then Some(n - 1)
    else LastKey(lookup, tokens, n - 1, name)
  }

  /** `LastKey` finds the last such index: no even index after it maps to
      `name`, and when it finds none, no even index below `n` does. */
  lemma {:induction false} LastKeyIsLast(lookup: bytes -> Option<bytes>, tokens: seq<bytes>, n: nat, name: bytes)
    requires n <= |tokens|
    ensures LastKey(lookup, tokens, n, name).Some? ==>
      forall j :: LastKey(lookup, tokens, n, name).value < j < n && j % 2 == 0 ==> lookup(tokens[j]) != Some(name)
    ensures LastKey(lookup, tokens, n, name).None? ==>
      forall j :: 0 <= j < n && j % 2 == 0 ==> lookup(tokens[j]) != Some(name)
  {
    if n > 0 && !((n - 1) % 2 == 0 && lookup(tokens[n - 1]) == Some(name)) {
      LastKeyIsLast(lookup, tokens, n - 1, name);
    }
  }

  /** What the scan should store under `name` after `n` tokens: nothing
      when no even token maps to it; otherwise the token right after the
      last key that maps to it, or `''` when that key is the last token
      read. */
  function Expected(lookup: bytes -> Option<bytes>, tokens: seq<bytes>, n: nat, name: bytes): Option<Value>
    requires n <= |tokens|
  {
    match LastKey(lookup, tokens, n, name)
    case None => None
    case Some(i) => Some(Str(if i + 1 < n then tokens[i + 1] else []))
  }

  /** The scan stores exactly what `Expected` says, whatever the table: a
      key from the table creates its entry, the token after it fills it, a
      later key with the same name overwrites it, and a token after an
      unknown key is dropped. */
  lemma ScanEntry(lookup: bytes -> Option<bytes>, tokens: seq<bytes>, n: nat, name: bytes)
    requires n <= |tokens|
    ensures Get(Scan(lookup, tokens, n).info, name) == Expected(lookup, tokens, n, name)
  {
    ScanFollows(lookup, tokens, n, name);
    FollowsExpected(lookup, tokens, n, name);
  }

  /** The name the scan remembers after `n` tokens, read off the tokens:
      the table's name for the last even token. */
  function LastName(lookup: bytes -> Option<bytes>, tokens: seq<bytes>, n: nat): Option<bytes>
    requires n <= |tokens|
  {
    if n == 0 then None
    else if (n - 1) % 2 == 0 then lookup(tokens[n - 1])
    else LastName(lookup, tokens, n - 1)
  }

  /** What the scan holds under `name` after `n` tokens, as the recurrence
      one turn of the loop makes, without the array. */
  function Follows(lookup: bytes -> Option<bytes>, tokens: seq<bytes>, n: nat, name: bytes): Option<Value>
    requires n <= |tokens|
  {
    if n == 0 then None
    else if (n - 1) % 2 == 0 then
      if lookup(tokens[n - 1]) == Some(name) then Some(Str([])) else Follows(lookup, tokens, n - 1, name)
    else
      if LastName(lookup, tokens, n - 1) == Some(name) then Some(Str(tokens[n - 1]))
      else Follows(lookup, tokens, n - 1, name)
  }

  /** The scan's state follows the recurrence. */
  lemma ScanFollows(lookup: bytes -> Option<bytes>, tokens: seq<bytes>, n: nat, name: bytes)
    requires n <= |tokens|
    ensures Scan(lookup, tokens, n).last == LastName(lookup, tokens, n)
    ensures Get(Scan(lookup, tokens, n).info, name) == Follows(lookup, tokens, n, name)
  {
    if n > 0 {
      ScanFollows(lookup, tokens, n - 1, name);
      ScanUnfold(lookup, tokens, n);
      FollowsStep(lookup, tokens, n, name, Scan(lookup, tokens, n - 1), Scan(lookup, tokens, n));
    }
  }

  /** The induction step of `ScanFollows`, on the states themselves. */
  lemma FollowsStep(lookup: bytes -> Option<bytes>, tokens: seq<bytes>, n: nat, name: bytes,
                    before: ScanState, after: ScanState)
    requires 0 < n <= |tokens|
    requires after == Step(lookup, before, n - 1, tokens[n - 1])
    requires before.last == LastName(lookup, tokens, n - 1)
    requires Get(before.info, name) == Follows(lookup, tokens, n - 1, name)
    ensures after.last == LastName(lookup, tokens, n)
    ensures Get(after.info, name) == Follows(lookup, tokens, n, name)
  {
    StepGet(lookup, before, n - 1, tokens[n - 1], name);
  }

  /** The recurrence computes `Expected`. */
  lemma {:induction false} FollowsExpected(lookup: bytes -> Option<bytes>, tokens: seq<bytes>, n: nat, name: bytes)
    requires n <= |tokens|
    ensures Follows(lookup, tokens, n, name) == Expected(lookup, tokens, n, name)
  {
    if n > 0 {
      FollowsExpected(lookup, tokens, n - 1, name);
      ExpectedStep(lookup, tokens, n, name, Follows(lookup, tokens, n - 1, name),
                   Follows(lookup, tokens, n, name), LastName(lookup, tokens, n - 1));
    }
  }

  /** The induction step of `ScanEntry`, over the values only. */
  lemma ExpectedStep(lookup: bytes -> Option<bytes>, tokens: seq<bytes>, n: nat, name: bytes,
                     before: Option<Value>, after: Option<Value>, last: Option<bytes>)
    requires 0 < n <= |tokens|
    requires before == Expected(lookup, tokens, n - 1, name)
    requires (n - 1) % 2 == 1 ==> last == lookup(tokens[n - 2])
    requires after ==
      if (n - 1) % 2 == 0 then
        if lookup(tokens[n - 1]) == Some(name) then Some(Str([])) else before
      else
        if last == Some(name) then Some(Str(tokens[n - 1])) else before
    ensures after == Expected(lookup, tokens, n, name)
  {
    LastKeyStep(lookup, tokens, n, name);
  }

  /** `LastKey` after `n` tokens in terms of `LastKey` after `n - 1`; a
      key found before `n - 1` at an even index is at least two back. */
  lemma LastKeyStep(lookup: bytes -> Option<bytes>, tokens: seq<bytes>, n: nat, name: bytes)
    requires 0 < n <= |tokens|
    ensures LastKey(lookup, tokens, n, name) ==
      if (n - 1) % 2 == 0 && lookup(tokens[n - 1]) == Some(name) then Some(n - 1)
      else LastKey(lookup, tokens, n - 1, name)
    ensures (n - 1) % 2 == 0 && LastKey(lookup, tokens, n - 1, name).Some? ==>
      LastKey(lookup, tokens, n - 1, name).value + 1 < n - 1
    ensures (n - 1) % 2 == 1 && n >= 2 && lookup(tokens[n - 2]) == Some(name) ==>
      LastKey(lookup, tokens, n - 1, name) == Some(n - 2)
    ensures (n - 1) % 2 == 1 && n >= 2 && lookup(tokens[n - 2]) != Some(name) ==>
      LastKey(lookup, tokens, n - 1, name).Some? ==> LastKey(lookup, tokens, n - 1, name).value + 1 < n - 1
  {
  }

  lemma ScanUnfold(lookup: bytes -> Option<bytes>, tokens: seq<bytes>, n: nat)
    requires 0 < n <= |tokens|
    ensures Scan(lookup, tokens, n) == Step(lookup, Scan(lookup, tokens, n - 1), n - 1, tokens[n - 1])
  {
  }

  /** One turn of the scan, seen from one name: a key that maps to it
      resets it to `''`, a value right after such a key is stored under it,
      and anything else leaves it alone. */
  lemma StepGet(lookup: bytes -> Option<bytes>, st: ScanState, index: nat, token: bytes, name: bytes)
    ensures index % 2 == 0 ==> Step(lookup, st, index, token).last == lookup(token)
    ensures index % 2 == 1 ==> Step(lookup, st, index, token).last == st.last
    ensures Get(Step(lookup, st, index, token).info, name) ==
      if index % 2 == 0 then
        if lookup(token) == Some(name) then Some(Str([])) else Get(st.info, name)
      else
        if st.last == Some(name) then Some(Str(token)) else Get(st.info, name)
  {
    if index % 2 == 0 && lookup(token).Some? {
      SetGet(st.info, lookup(token).value, Str([]));
    } else if index % 2 == 1 && st.last.Some? {
      SetGet(st.info, st.last.value, Str(token));
    }
  }

  /** With the key table of `get_status`, the scan only stores names from
      the table, each once. */
  lemma ScanKeys(tokens: seq<bytes>, n: nat)
    requires n <= |tokens|
    ensures forall k :: HasKey(Scan(Canonical, tokens, n).info, k) ==> k in Names
    ensures UniqueKeys(Scan(Canonical, tokens, n).info)
  {
    forall k | HasKey(Scan(Canonical, tokens, n).info, k) ensures k in Names {
      ScanEntry(Canonical, tokens, n, k);
    }
    ScanUnique(Canonical, tokens, n);
  }

  lemma ScanUnique(lookup: bytes -> Option<bytes>, tokens: seq<bytes>, n: nat)
    requires n <= |tokens|
    ensures UniqueKeys(Scan(lookup, tokens, n).info)
  {
    if n > 0 {
      ScanUnique(lookup, tokens, n - 1);
      ScanUniqueStep(lookup, tokens, n);
    }
  }

  /** The induction step of `ScanUnique`, over the scan. */
  lemma ScanUniqueStep(lookup: bytes -> Option<bytes>, tokens: seq<bytes>, n: nat)
    requires 0 < n <= |tokens|
    requires UniqueKeys(Scan(lookup, tokens, n - 1).info)
    ensures UniqueKeys(Scan(lookup, tokens, n).info)
  {
    ScanUnfold(lookup, tokens, n);
    StepUnique(lookup, Scan(lookup, tokens, n - 1), n - 1, tokens[n - 1]);
  }

  lemma StepUnique(lookup: bytes -> Option<bytes>, st: ScanState, index: nat, token: bytes)
    requires UniqueKeys(st.info)
    ensures UniqueKeys(Step(lookup, st, index, token).info)
  {
    if index % 2 == 0 && lookup(token).Some? {
      SetKeepsUnique(st.info, lookup(token).value, Str([]));
    } else if index % 2 == 1 && st.last.Some? {
      SetKeepsUnique(st.info, st.last.value, Str(token));
    }
  }

  // ---------------------------------------------------------------------
  // Post-processing

  const PlayersKey: bytes := Ascii("players")
  const MaxPlayersKey: bytes := Ascii("maxplayers")
  const HostPortKey: bytes := Ascii("hostport")
  const PluginsKey: bytes := Ascii("plugins")
  const RawPluginsKey: bytes := Ascii("rawplugins")
  const SoftwareKey: bytes := Ascii("software")
  const Vanilla: bytes := Ascii("Vanilla")
  const ColonSpace: bytes := [0x3A, 0x20]
  const SemicolonSpace: bytes := [0x3B, 0x20]

  /** The plugin split: when the `plugins` entry is truthy, `rawplugins`
      keeps it, `software` is the text before the first ": ", and when
      there is text after it `plugins` becomes its "; "-separated list;
      otherwise `software` is "Vanilla". */
  function ApplyPlugins(info: Array): (r: Array)
    ensures !TruthyValue(Get(info, PluginsKey)) ==> r == Set(info, SoftwareKey, Str(Vanilla))
    ensures TruthyValue(Get(info, PluginsKey)) ==>
      var raw := StringOf(Get(info, PluginsKey).value);
      var parts := Php.Explode2(ColonSpace, raw);
      Get(r, RawPluginsKey) == Get(info, PluginsKey)
      && Get(r, SoftwareKey) == Some(Str(parts[0]))
      && Get(r, PluginsKey) == (if |parts| == 2 then Some(List(Php.Explode(SemicolonSpace, parts[1])))
                                else Get(info, PluginsKey))
    ensures forall k :: k != RawPluginsKey && k != SoftwareKey && k != PluginsKey ==> Get(r, k) == Get(info, k)
  {
    KeysDistinct();
    match Get(info, PluginsKey)
    case Some(v) =>
      if TruthyValue(Some(v)) then
        var parts := Php.Explode2(ColonSpace, StringOf(v));
        var withRaw := Set(info, RawPluginsKey, v);
        var withSoftware := Set(withRaw, SoftwareKey, Str(parts[0]));
        SetGet(info, RawPluginsKey, v);
        SetGet(withRaw, SoftwareKey, Str(parts[0]));
        if |parts| == 2 then
          var plugins := List(Php.Explode(SemicolonSpace, parts[1]));
          SetGet(withSoftware, PluginsKey, plugins);
          Set(withSoftware, PluginsKey, plugins)
        else withSoftware
      else
        SetGet(info, SoftwareKey, Str(Vanilla));
        Set(info, SoftwareKey, Str(Vanilla))
    case None =>
      SetGet(info, SoftwareKey, Str(Vanilla));
      Set(info, SoftwareKey, Str(Vanilla))
  }

  /** The split loses nothing: when the scanned plugins string holds
      ": ", the software name, ": " and the plugin list joined with "; "
      give it back; when it does not, the whole string is the software
      name and `plugins` keeps it. */
  lemma PluginsRoundTrip(info: Array, raw: bytes)
    requires Get(info, PluginsKey) == Some(Str(raw)) && Php.Truthy(raw)
    ensures Get(ApplyPlugins(info), RawPluginsKey) == Some(Str(raw))
    ensures Php.Contains(ColonSpace, raw) ==>
      var r := ApplyPlugins(info);
      Get(r, SoftwareKey).Some? && Get(r, SoftwareKey).value.Str?
      && Get(r, PluginsKey).Some? && Get(r, PluginsKey).value.List?
      && Get(r, SoftwareKey).value.s + ColonSpace + Php.Join(SemicolonSpace, Get(r, PluginsKey).value.items) == raw
    ensures !Php.Contains(ColonSpace, raw) ==>
      Get(ApplyPlugins(info), SoftwareKey) == Some(Str(raw)) && Get(ApplyPlugins(info), PluginsKey) == Some(Str(raw))
  {
    var parts := Php.Explode2(ColonSpace, raw);
    assert StringOf(Str(raw)) == raw;
    if |parts| == 2 {
      Php.JoinExplode(SemicolonSpace, parts[1]);
      assert Php.Join(ColonSpace, parts) == parts[0] + ColonSpace + parts[1];
    } else {
      assert Php.Join(ColonSpace, parts) == parts[0];
    }
  }

  lemma KeysDistinct()
    ensures PlayersKey != MaxPlayersKey && PlayersKey != HostPortKey && MaxPlayersKey != HostPortKey
    ensures PluginsKey != PlayersKey && PluginsKey != MaxPlayersKey && PluginsKey != HostPortKey
    ensures RawPluginsKey != PluginsKey && SoftwareKey != PluginsKey && RawPluginsKey != SoftwareKey
    ensures RawPluginsKey != PlayersKey && RawPluginsKey != MaxPlayersKey && RawPluginsKey != HostPortKey
    ensures SoftwareKey != PlayersKey && SoftwareKey != MaxPlayersKey && SoftwareKey != HostPortKey
    ensures Lowercase(PlayersKey) && Lowercase(MaxPlayersKey) && Lowercase(HostPortKey)
    ensures Lowercase(PluginsKey) && Lowercase(RawPluginsKey) && Lowercase(SoftwareKey)
  {
    assert PlayersKey[2] != PluginsKey[2];
    assert PlayersKey[0] != MaxPlayersKey[0] && PlayersKey[0] != HostPortKey[0];
    assert MaxPlayersKey[0] != HostPortKey[0];
    assert PluginsKey[0] != HostPortKey[0] && PluginsKey[0] != MaxPlayersKey[0];
    assert RawPluginsKey[0] != PluginsKey[0] && SoftwareKey[0] != PluginsKey[0];
    assert RawPluginsKey[0] != SoftwareKey[0];
    assert RawPluginsKey[0] != PlayersKey[0] && RawPluginsKey[0] != MaxPlayersKey[0];
    assert RawPluginsKey[0] != HostPortKey[0];
    assert SoftwareKey[0] != PlayersKey[0] && SoftwareKey[0] != MaxPlayersKey[0];
    assert SoftwareKey[0] != HostPortKey[0];
  }

  /** `$info[$k] = intval($info[$k])`. */
  function IntEntry(info: Array, k: bytes): Array {
    Set(info, k, Int(IntValOf(Get(info, k))))
  }

  /** The entries `get_status` turns into integers, in order. */
  const IntKeys: seq<bytes> := [PlayersKey, MaxPlayersKey, HostPortKey]

  /** `IntEntry` for each of `keys` in turn. */
  function IntEntries(info: Array, keys: seq<bytes>): Array
    decreases |keys|
  {
    if keys == [] then info else IntEntries(IntEntry(info, keys[0]), keys[1..])
  }

  /** The three integer entries, one after the other. */
  lemma IntEntriesUnfold(info: Array)
    ensures IntEntries(info, IntKeys) ==
      IntEntry(IntEntry(IntEntry(info, PlayersKey), MaxPlayersKey), HostPortKey)
  {
    var a1 := IntEntry(info, PlayersKey);
    var a2 := IntEntry(a1, MaxPlayersKey);
    assert IntKeys[1..][1..][1..] == [];
    assert IntEntries(info, IntKeys) == IntEntries(a1, IntKeys[1..]);
    assert IntEntries(a1, IntKeys[1..]) == IntEntries(a2, IntKeys[1..][1..]);
  }

  /** The post-processing of `get_status` after the scan: the three
      integer entries, then the plugin split. */
  function Finish(info: Array): Array {
    ApplyPlugins(IntEntries(info, IntKeys))
  }

  /** As written, the post-processing reads lower-case keys the scan never
      stores (it stores "Players", "MaxPlayers", "HostPort", "Plugins"):
      `players`, `maxplayers` and `hostport` always come out as 0, and
      `software` is always "Vanilla", with no `rawplugins`; the scanned
      entries are kept as they are. */
  lemma StatusQuirk(tokens: seq<bytes>)
    ensures
      var info := Finish(Scan(Canonical, tokens, |tokens|).info);
      Get(info, PlayersKey) == Some(Int(0)) && Get(info, MaxPlayersKey) == Some(Int(0))
      && Get(info, HostPortKey) == Some(Int(0))
      && Get(info, SoftwareKey) == Some(Str(Vanilla)) && Get(info, RawPluginsKey) == None
      && forall k :: k in Names ==> Get(info, k) == Get(Scan(Canonical, tokens, |tokens|).info, k)
  {
    var scanned := Scan(Canonical, tokens, |tokens|).info;
    assert forall k :: Lowercase(k) ==> Get(scanned, k) == None by {
      ScanKeys(tokens, |tokens|);
      NamesCapitalised();
    }
    FinishCapitalised(scanned);
    NamesCapitalised();
  }

  /** The post-processing on entries whose keys are all capitalised. */
  lemma FinishCapitalised(scanned: Array)
    requires forall k :: Lowercase(k) ==> Get(scanned, k) == None
    ensures
      var info := Finish(scanned);
      Get(info, PlayersKey) == Some(Int(0)) && Get(info, MaxPlayersKey) == Some(Int(0))
      && Get(info, HostPortKey) == Some(Int(0))
      && Get(info, SoftwareKey) == Some(Str(Vanilla)) && Get(info, RawPluginsKey) == None
      && forall k :: Capitalised(k) ==> Get(info, k) == Get(scanned, k)
  {
    KeysDistinct();
    var a1 := Set(scanned, PlayersKey, Int(0));
    var a2 := Set(a1, MaxPlayersKey, Int(0));
    var a3 := Set(a2, HostPortKey, Int(0));
    var info := Set(a3, SoftwareKey, Str(Vanilla));
    assert Finish(scanned) == info by {
      FinishUnset(scanned);
    }
    SetGet(scanned, PlayersKey, Int(0));
    SetGet(a1, MaxPlayersKey, Int(0));
    SetGet(a2, HostPortKey, Int(0));
    SetGet(a3, SoftwareKey, Str(Vanilla));
    forall k | Capitalised(k) ensures Get(info, k) == Get(scanned, k) {
      assert k != PlayersKey && k != MaxPlayersKey && k != HostPortKey by {
        assert k[0] != PlayersKey[0] && k[0] != MaxPlayersKey[0] && k[0] != HostPortKey[0];
      }
      assert k != SoftwareKey by {
        assert k[0] != SoftwareKey[0];
      }
    }
  }

  /** With none of the lower-case keys present, the post-processing sets
      the three integers to 0 and `software` to `Vanilla`, in that order. */
  lemma FinishUnset(scanned: Array)
    requires forall k :: Lowercase(k) ==> Get(scanned, k) == None
    ensures Finish(scanned) ==
      Set(Set(Set(Set(scanned, PlayersKey, Int(0)), MaxPlayersKey, Int(0)), HostPortKey, Int(0)),
          SoftwareKey, Str(Vanilla))
  {
    KeysDistinct();
    IntEntriesUnfold(scanned);
    var a1 := IntEntry(scanned, PlayersKey);
    assert a1 == Set(scanned, PlayersKey, Int(0));
    SetGet(scanned, PlayersKey, Int(0));
    var a2 := IntEntry(a1, MaxPlayersKey);
    assert a2 == Set(a1, MaxPlayersKey, Int(0));
    SetGet(a1, MaxPlayersKey, Int(0));
    var a3 := IntEntry(a2, HostPortKey);
    assert a3 == Set(a2, HostPortKey, Int(0));
    SetGet(a2, HostPortKey, Int(0));
    assert Get(a3, PluginsKey) == None;
    assert Get(a3, RawPluginsKey) == None;
  }

  // ---------------------------------------------------------------------
  // The full-stat reply

  /** The delimiter between the key/value block and the player block:
      00 00 01 "player_" 00 00. */
  const PlayerDelimiter: bytes := [0x00, 0x00, 0x01] + Ascii("player_") + [0x00, 0x00]

  /** What a successful `get_status` stores: the entries, and the player
      list when there is one (None leaves `players` as it was). */
  datatype Stat = Stat(info: Array, players: Option<seq<bytes>>)

  /** `get_status` from the reply payload on: a false payload ("" or "0")
      is an error, 11 bytes are dropped, the rest must split in exactly two
      on the player delimiter; the first part is NUL-split and scanned, the
      last two bytes of the second part are dropped and the remainder, if
      truthy, is NUL-split into the player list. */
  function ParseStatus(data: bytes): (r: Result<Stat, QueryError>)
    ensures !Php.Truthy(data) ==> r == Err(NoStatus)
    ensures Php.Truthy(data) && |Php.Explode(PlayerDelimiter, Php.SubstrFrom(data, 11))| != 2 ==> r == Err(Malformed)
    ensures r.Ok? <==> Php.Truthy(data) && |Php.Explode(PlayerDelimiter, Php.SubstrFrom(data, 11))| == 2
    ensures r.Ok? ==>
      var halves := Php.Explode(PlayerDelimiter, Php.SubstrFrom(data, 11));
      var tokens := Php.Explode([0x00], halves[0]);
      var block := Php.DropLast(halves[1], 2);
      |halves| == 2
      && r.value.info == Finish(Scan(Canonical, tokens, |tokens|).info)
      && r.value.players == (if Php.Truthy(block) then Some(Php.Explode([0x00], block)) else None)
  {
    if !Php.Truthy(data) then Err(NoStatus)
    else
      var halves := Php.Explode(PlayerDelimiter, Php.SubstrFrom(data, 11));
      if |halves| != 2 then Err(Malformed)
      else
        var block := Php.DropLast(halves[1], 2);
        var tokens := Php.Explode([0x00], halves[0]);
        Ok(Stat(Finish(Scan(Canonical, tokens, |tokens|).info),
                if Php.Truthy(block) then Some(Php.Explode([0x00], block)) else None))
  }

  /** A player list that is set is never empty-handed: joined with NUL it
      is the trimmed block, which is truthy. */
  lemma PlayersRoundTrip(data: bytes)
    requires ParseStatus(data).Ok? && ParseStatus(data).value.players.Some?
    ensures
      var halves := Php.Explode(PlayerDelimiter, Php.SubstrFrom(data, 11));
      var names := ParseStatus(data).value.players.value;
      Php.Join([0x00], names) == Php.DropLast(halves[1], 2) && Php.Truthy(Php.Join([0x00], names))
  {
    var halves := Php.Explode(PlayerDelimiter, Php.SubstrFrom(data, 11));
    Php.JoinExplode([0x00], Php.DropLast(halves[1], 2));
  }

  /** `get_status` with the exchange: a failed write or read is its error,
      and a "no data" reply is `NoStatus` like a false payload. */
  function Status(token: bytes, t: Transfer): (r: Result<Stat, QueryError>)
    ensures Exchange(StatType, token + [0, 0, 0, 0], t).Err? ==>
      r == Err(Exchange(StatType, token + [0, 0, 0, 0], t).error)
    ensures Exchange(StatType, token + [0, 0, 0, 0], t) == Ok(None) ==> r == Err(NoStatus)
    ensures Exchange(StatType, token + [0, 0, 0, 0], t).Ok? && Exchange(StatType, token + [0, 0, 0, 0], t).value.Some? ==>
      r == ParseStatus(Exchange(StatType, token + [0, 0, 0, 0], t).value.value)
  {
    match Exchange(StatType, token + [0, 0, 0, 0], t)
    case Err(e) => Err(e)
    case Ok(None) => Err(NoStatus)
    case Ok(Some(d)) => ParseStatus(d)
  }

  // ---------------------------------------------------------------------
  // The client object

  /** What happens on the socket, in order. */
  datatype SocketEvent = Open | Send(datagram: bytes) | Close

  /** The argument `connect` receives as its timeout. */
  datatype Timeout = IntTimeout(seconds: int) | NotAnInt

  predicate ValidTimeout(t: Timeout) {
    t.IntTimeout? && t.seconds >= 0
  }

  /** What `fsockopen` gives: whether a socket came back, and the error
      number it reported. */
  datatype OpenResult = OpenResult(socket: bool, errno: int)

  /** The scan of `get_status` as a loop over the tokens. */
  method ScanKeyValues(lookup: bytes -> Option<bytes>, tokens: seq<bytes>) returns (info: Array)
    ensures info == Scan(lookup, tokens, |tokens|).info
  {
    var last: Option<bytes> := None;
    info := [];
    var i := 0;
    ghost var st := ScanState(None, []);
    while i < |tokens|
      invariant i <= |tokens|
      invariant st == Scan(lookup, tokens, i)
      invariant last == st.last && info == st.info
    {
      var token := tokens[i];
      ScanUnfold(lookup, tokens, i + 1);
      st := Step(lookup, st, i, token);
      if i % 2 == 0 {
        match lookup(token)
        case None =>
          last := None;
        case Some(name) =>
          last := Some(name);
          info := Set(info, name, Str([]));
      } else if last.Some? {
        info := Set(info, last.value, Str(token));
      }
      i := i + 1;
    }
  }

  /** The parsing half of `get_status`, step by step as the source does it. */
  method ParseReply(data: bytes) returns (r: Result<Stat, QueryError>)
    ensures r == ParseStatus(data)
  {
    if !Php.Truthy(data) {
      return Err(NoStatus);
    }
    var halves := Php.Explode(PlayerDelimiter, Php.SubstrFrom(data, 11));
    if |halves| != 2 {
      return Err(Malformed);
    }
    var block := Php.DropLast(halves[1], 2);
    var tokens := Php.Explode([0x00], halves[0]);
    var scanned := ScanKeyValues(Canonical, tokens);
    var entries := IntEntry(scanned, PlayersKey);
    entries := IntEntry(entries, MaxPlayersKey);
    entries := IntEntry(entries, HostPortKey);
    IntEntriesUnfold(scanned);
    entries := ApplyPlugins(entries);
    var names: Option<seq<bytes>> := None;
    if Php.Truthy(block) {
      names := Some(Php.Explode([0x00], block));
    }
    return Ok(Stat(entries, names));
  }

  class QueryClient {
    /** `$this->info`, None while unset. */
    var info: Option<Array>
    /** `$this->players`, None while unset. */
    var players: Option<seq<bytes>>
    /** The socket events so far. */
    var trace: seq<SocketEvent>

    constructor()
      ensures info == None && players == None && trace == []
    {
      info := None;
      players := None;
      trace := [];
    }

    /** `get_info`: the entries of the last successful status, or `false`
        (None) when no status has been stored yet. */
    function GetInfo(): (r: Option<Array>)
      reads this
      ensures r.Some? <==> info.Some?
      ensures r.Some? ==> r.value == info.value
    {
      info
    }

    /** `get_players`: the last player list stored, or `false` (None). */
    function GetPlayers(): (r: Option<seq<bytes>>)
      reads this
      ensures r.Some? <==> players.Some?
      ensures r.Some? ==> r.value == players.value
    {
      players
    }

    /** `write_data`: sends the framed request and checks the response. */
    method WriteData(kind: byte, payload: bytes, t: Transfer) returns (r: Result<Option<bytes>, QueryError>)
      modifies this`trace
      ensures trace == old(trace) + [Send(Frame(kind, payload))]
      ensures r == Exchange(kind, payload, t)
    {
      var command := Frame(kind, payload);
      trace := trace + [Send(command)];
      if t.written != Some(|command|) {
        return Err(WriteFailed);
      }
      if t.received.None? {
        return Err(ReadFailed);
      }
      var data := t.received.value;
      if |data| < 5 || data[0] != command[2] {
        return Ok(None);
      }
      return Ok(Some(Php.SubstrFrom(data, 5)));
    }

    /** `get_challenge`. */
    method GetChallenge(t: Transfer) returns (r: Result<bytes, QueryError>)
      modifies this`trace
      ensures trace == old(trace) + [Send(Frame(ChallengeType, []))]
      ensures r == Challenge(t)
    {
      var data := WriteData(ChallengeType, [], t);
      if data.Err? {
        return Err(data.error);
      }
      if data.value.None? {
        return Err(NoChallenge);
      }
      return Ok(Php.PackN(Php.IntVal(data.value.value)));
    }

    /** `get_status`: on success the entries are stored, and the player
        list when there is one; on an error neither field changes. */
    method GetStatus(token: bytes, t: Transfer) returns (r: Result<(), QueryError>)
      requires |token| == 4
      modifies this`trace, this`info, this`players
      ensures trace == old(trace) + [Send(StatusRequest(token))]
      ensures Status(token, t).Err? ==>
        r == Err(Status(token, t).error) && info == old(info) && players == old(players)
      ensures Status(token, t).Ok? ==>
        r == Ok(()) && info == Some(Status(token, t).value.info)
        && players == (if Status(token, t).value.players.Some? then Status(token, t).value.players else old(players))
    {
      var stat := FetchStatus(token, t);
      if stat.Err? {
        return Err(stat.error);
      }
      info := Some(stat.value.info);
      if stat.value.players.Some? {
        players := stat.value.players;
      }
      return Ok(());
    }

    /** The exchange and the parsing of `get_status`, before anything is
        stored. */
    method FetchStatus(token: bytes, t: Transfer) returns (r: Result<Stat, QueryError>)
      requires |token| == 4
      modifies this`trace
      ensures trace == old(trace) + [Send(StatusRequest(token))]
      ensures r == Status(token, t)
    {
      var reply := WriteData(StatType, token + [0, 0, 0, 0], t);
      if reply.Err? {
        return Err(reply.error);
      }
      if reply.value.None? {
        return Err(NoStatus);
      }
      r := ParseReply(reply.value.value);
    }

    /** `connect`: a timeout that is not a non-negative integer is refused
        before any socket exists; a failed open is an error; otherwise the
        challenge and the status are fetched and the socket is closed
        whether they succeed or fail. An open that returns a socket but also
        an error number leaves that socket open. */
    method Connect(timeout: Timeout, open: OpenResult, first: Transfer, second: Transfer)
      returns (r: Result<(), QueryError>)
      modifies this`trace, this`info, this`players
      ensures !ValidTimeout(timeout) ==>
        r == Err(InvalidTimeout) && trace == old(trace) && info == old(info) && players == old(players)
      ensures ValidTimeout(timeout) && (!open.socket || open.errno != 0) ==>
        r == Err(CouldNotCreateSocket) && info == old(info) && players == old(players)
        && trace == old(trace) + (if open.socket then [Open] else [])
      ensures ValidTimeout(timeout) && open.socket && open.errno == 0 ==>
        trace == old(trace) + [Open] + Sent(first) + [Close]
      ensures ValidTimeout(timeout) && open.socket && open.errno == 0 && Session(first, second).Err? ==>
        r == Err(Session(first, second).error) && info == old(info) && players == old(players)
      ensures ValidTimeout(timeout) && open.socket && open.errno == 0 && Session(first, second).Ok? ==>
        var st := Session(first, second).value;
        r == Ok(()) && info == Some(st.info)
        && players == (if st.players.Some? then st.players else old(players))
    {
      if !ValidTimeout(timeout) {
        return Err(InvalidTimeout);
      }
      if open.socket {
        trace := trace + [Open];
      }
      if open.errno != 0 || !open.socket {
        return Err(CouldNotCreateSocket);
      }
      var challenge := GetChallenge(first);
      if challenge.Err? {
        trace := trace + [Close];
        return Err(challenge.error);
      }
      r := GetStatus(challenge.value, second);
      trace := trace + [Close];
    }
  }

  /** The datagrams one `connect` sends: the challenge request, then the
      full-stat request when a token came back. */
  function Sent(first: Transfer): (r: seq<SocketEvent>)
    ensures 1 <= |r| <= 2 && r[0] == Send(Frame(ChallengeType, []))
    ensures |r| == 2 <==> Challenge(first).Ok?
    ensures |r| == 2 ==> r[1] == Send(StatusRequest(Challenge(first).value))
    ensures |r| == 2 ==> Unframe(r[1].datagram) == Some((StatType, Challenge(first).value + [0, 0, 0, 0]))
  {
    match Challenge(first)
    case Err(_) => [Send(Frame(ChallengeType, []))]
    case Ok(token) => [Send(Frame(ChallengeType, [])), Send(StatusRequest(token))]
  }

  /** The result of the challenge and the status together. */
  function Session(first: Transfer, second: Transfer): (r: Result<Stat, QueryError>)
    ensures Challenge(first).Err? ==> r == Err(Challenge(first).error)
    ensures Challenge(first).Ok? ==> r == Status(Challenge(first).value, second)
  {
    match Challenge(first)
    case Err(e) => Err(e)
    case Ok(token) => Status(token, second)
  }
}
