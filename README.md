# PHP-Minecraft-Query in Dafny

A Dafny model of the two clients of PHP-Minecraft-Query, with proofs about
them.

- **`MinecraftQuery`** is the UT3/GameSpot query client, over UDP. It
  works in five steps:
  - It frames each request as `FE FD <type> 01 02 03 04 <payload>`.
  - It sends a challenge request (type 09) and packs the returned token as
    four big-endian bytes.
  - It sends the full-stat request (type 00).
  - It parses the reply: NUL-separated key/value pairs checked against a
    nine-entry key table, a plugin string, and a NUL-separated player list.
  - It closes its socket.
- **`MinecraftPing`** is the Server List Ping client, over TCP. It covers:
  - the handshake builder, including its `hexdec` length byte;
  - the VarInt reader `read_var_int`;
  - the framing of the status response;
  - the legacy `FE 01` ping with its two kick-message dialects;
  - an idempotent `close`.

Sockets are replaced by byte sequences:
- For the ping client, these are the bytes written and the bytes the server
  has sent that are not read yet.
- For the query client, each exchange is what `fwrite` and `fread` return.
  The client keeps a trace of the socket events.

PHP strings are byte sequences, and the PHP built-ins the clients rely on
are modelled in `php.dfy`:
- truthiness
- `substr`
- `intval`
- `hexdec`
- `explode` and `implode`
- `pack('N')`

PHP's ordered string-keyed array is modelled in `phparray.dfy`.
`iconv('UTF-16BE', 'UTF-8', …)` is modelled in `utf16.dfy`, after
RFC 2781 and RFC 3629.

Behaviours of the code that are modelled as written:
- **The key table is capitalised but the post-processing is not.** The
  table stores `Players`, `MaxPlayers`, `HostPort` and `Plugins`, but the
  later steps read `players`, `maxplayers`, `hostport` and `plugins`.
  `Query.StatusQuirk` proves the consequence: the three integer entries
  are always 0, and `software` is always `Vanilla`. The plugin split itself
  is `Query.ApplyPlugins`, proved on its own.
- **The handshake length byte is `hexdec` of the decimal address
  length.** It is right only for addresses of 10 to 19 bytes
  (`Ping.HandshakeLengthByte`).
- **Dialect detection looks at the UTF-8 text.** In the pre-1.4 branch,
  `substr(…, 0, -1)` strips the C2 lead byte of the section sign.
  - `Ping.LegacyOld` proves that a message of the day reads back whole when
    it is not empty and its UTF-8 form holds no A7 byte.
  - `Ping.LegacyOldContinuationByte` shows a message of the day that is cut
    because its UTF-8 form does hold one.
  - `Ping.LegacyOldEmptyMotd` shows why the message of the day must not be
    empty. A pre-1.4 server with an empty message of the day and a player
    count starting with "1" sends text that starts C2 A7 31, so the code
    takes it for the 1.4+ dialect. It reads as 0 of 0 players with an empty
    version, not version "1.3".

Further facts about the code that the model keeps:
- **VarInt width.** Minecraft's protocol limits a VarInt to 32 bits, but
  `read_var_int` accumulates into a PHP integer with no 32-bit wrap, so
  five bytes give up to 35 bits.
- **Empty player block.** A falsy player block leaves the previously
  stored player list in place; the list is not reset to an empty one.
- **Socket on a failed open.** An `fsockopen` that returns a socket but
  also reports an error number leaves that socket open.
- **`software`.** It is `Vanilla` even when the server sent a plugins
  value, because of the key-case quirk above.

## Model

| member | source | states |
|---|---|---|
| Php.SubstrFrom | MinecraftPing.php:84 | `substr($s, $n)`: empty when the string is not longer than `n`, otherwise the suffix, with the prefix plus the result giving `s` back |
| Php.DropLast | MinecraftPing.php:103 | `substr($s, 0, -n)`: empty when nothing would be left, otherwise all but the last `n` bytes, which re-append to `s` |
| Php.Truthy | MinecraftQuery.php:58 | PHP truthiness of a string: only "" and "0" are false; `Query.ParseStatus` and `Query.PlayersRoundTrip` state its use |
| Php.IntVal | MinecraftPing.php:93-95 | `intval` in base 10; `Php.IntValOfDecimal`, `Php.IntValSkipsSpace` and `Php.IntValNoDigits` state what it reads |
| Php.IntValOfDecimal | MinecraftPing.php:93-95 | `intval` reads back any decimal numeral, signed or not, followed by any tail that does not start with a digit |
| Php.IntValSkipsSpace | MinecraftPing.php:93-95 | `intval` skips leading white space |
| Php.IntValNoDigits | MinecraftPing.php:104-105 | `intval` of a string with no digit is 0 |
| Php.HexDec | MinecraftPing.php:45 | `hexdec`: hexadecimal digits in base 16, other bytes skipped; `Php.HexDecOfDecimal` and `Ping.HandshakeLengthByte` state what it does to a decimal length |
| Php.HexDecOfDecimal | MinecraftPing.php:45 | `hexdec` of a number's decimal text reads each decimal digit as a hexadecimal one |
| Php.Find | MinecraftQuery.php:65 | the first occurrence of the delimiter: it occurs there and at no earlier index; None when it occurs nowhere |
| Php.Explode | MinecraftQuery.php:65 | `explode` without a limit always gives at least one piece; `Php.JoinExplode`, `Php.ExplodePiecesFree`, `Php.ExplodeJoin` and `Php.ExplodeAbsent` state what the pieces are |
| Php.ExplodeAbsent | MinecraftPing.php:100 | a string without the delimiter byte explodes into itself alone |
| Php.Explode2 | MinecraftQuery.php:106 | `explode(d, s, 2)`: two parts exactly when `d` occurs, the first part free of `d`, joined back with `d` they give `s` |
| Php.JoinExplode | MinecraftQuery.php:65 | `implode(d, explode(d, s)) == s` for every string |
| Php.ExplodePiecesFree | MinecraftQuery.php:71 | no piece of `explode` holds the delimiter |
| Php.ExplodeJoin | MinecraftPing.php:89 | for a one-byte delimiter, `explode` undoes `implode` of pieces without that byte |
| Php.PackN | MinecraftQuery.php:52 | `pack('N', n)` is four bytes spelling `n mod 2^32` big-endian |
| Php.PackUnpack | MinecraftQuery.php:52 | every four bytes are `pack('N', …)` of the number they spell |
| PhpArray.IndexOf | MinecraftQuery.php:93-95 | the first position holding the key, None exactly when the key is absent |
| PhpArray.Get | MinecraftQuery.php:100-105 | a read gives a value exactly when the key is present (null otherwise) |
| PhpArray.Set | MinecraftQuery.php:93-95 | `$a[$k] = $v` on an ordered array; `PhpArray.SetAt`, `PhpArray.SetGet`, `PhpArray.SetShape` and `PhpArray.SetKeepsUnique` state its effect |
| PhpArray.SetAt | MinecraftQuery.php:93-95 | a write to an absent key appends the entry at the end; a write to a present key replaces its first entry in place |
| PhpArray.SetGet | MinecraftQuery.php:93-95 | after a write the key reads back the value and every other key reads as before |
| PhpArray.SetShape | MinecraftQuery.php:93-95 | a write to a new key appends it; a write to an existing key keeps the length and every key in its place |
| PhpArray.SetKeepsUnique | MinecraftQuery.php:93-95 | a write never duplicates a key |
| VarInt.Decode | MinecraftPing.php:111-133 | a value when a byte without the high bit comes within five bytes (the sum of 7-bit groups up to it); too big exactly when the first five bytes all have the high bit and a sixth exists; otherwise the stream ran out |
| VarInt.GroupsSnoc | MinecraftPing.php:123 | one more byte adds its low 7 bits shifted by 7 times the bytes already read |
| VarInt.DecodeBound | MinecraftPing.php:123-126 | a decoded value is below 2^(7·bytes read) ≤ 2^35 |
| VarInt.EncodeShape | MinecraftPing.php:128-129 | the base-128 encoder sets the high bit on every byte but the last, and its groups spell the value |
| VarInt.DecodeEncode | MinecraftPing.php:111-133 | every value below 2^35 decodes from its encoding, whatever follows |
| Utf16.Utf8Char | MinecraftPing.php:85 | a code point's UTF-8 form is 1 to 4 bytes, with a zero byte only for U+0000 |
| Utf16.Iconv | MinecraftPing.php:85 | `iconv('UTF-16BE', 'UTF-8', …)`, false on a lone surrogate or an odd trailing byte; `Utf16.IconvUtf16` states that it gives the UTF-8 form of well-formed text |
| Utf16.IconvUtf16 | MinecraftPing.php:85 | converting the UTF-16BE form of any text gives its UTF-8 form |
| Utf16.Utf8NoNul | MinecraftPing.php:89 | text without U+0000 has no NUL byte in UTF-8, so splitting on NUL splits between characters |
| Ping.Handshake | MinecraftPing.php:44-45 | the handshake is |address| + 7 bytes |
| Ping.HandshakeBody | MinecraftPing.php:45 | the handshake body carries the address and the port modulo 2^16 for any address below 256 bytes |
| Ping.HandshakeLengthByte | MinecraftPing.php:44-45 | the first byte equals the true body length exactly when the address is 10 to 19 bytes long |
| Ping.HandshakeExample | MinecraftPing.php:44-45 | "example.com":25565 gives 11 00 04 0B, the address, 63 DD 01 |
| Ping.ReadVarIntOn | MinecraftPing.php:111-133 | the value `VarInt.Decode` finds, with the stream after it; 0 with nothing left when the stream runs out; the error, with the sixth byte consumed, exactly when the first five bytes all have the high bit and a sixth exists |
| Ping.ReadBody | MinecraftPing.php:59-63 | the body read succeeds exactly for a non-zero length on a non-empty stream, giving at most that many bytes, a prefix of the stream |
| Ping.QueryResponse | MinecraftPing.php:50-63 | a total length below 10 (or a stream that runs out) is "unavailable" with nothing more consumed; an oversized VarInt is an error. After a total length of at least 10 and the id byte: an oversized size VarInt is an error; a size of 0, a stream that runs out, or nothing after the size is "no data"; otherwise the body is the first min(size, available) bytes after the size, with the rest left unread |
| Ping.QueryWellFormed | MinecraftPing.php:50-63 | a response of total length ≥ 10, an id byte, the body length and the body yields exactly the body and leaves the rest unread |
| Ping.ParseKick | MinecraftPing.php:87-108 | the pre-1.4 branch gives protocol 0, version "1.3", the first A7 part minus its last byte as hostname, and `intval` of parts 1 and 2 as players and maximum (0 when absent); the 1.4+ branch takes protocol, version, hostname, players and maximum from NUL fields 1 to 5 |
| Ping.KickWithoutSign | MinecraftPing.php:99-106 | a kick text without the byte A7 gives the text minus its last byte as hostname, and 0 players of 0 |
| Ping.LegacyPing | MinecraftPing.php:81-85 | false exactly when fewer than 4 bytes arrive or the first is not FF; otherwise the kick text after 3 header bytes, converted from UTF-16BE, is parsed |
| Ping.Number | MinecraftPing.php:93-95 | a number as characters is its decimal text in UTF-8 |
| Ping.LegacyExtended | MinecraftPing.php:88-97 | a 1.4+ kick message of protocol, version, message of the day, players and maximum is read back field by field, whatever the length bytes say |
| Ping.LegacyOld | MinecraftPing.php:100-108 | a pre-1.4 kick message reads back whole when the message of the day is non-empty and its UTF-8 form has no A7 byte |
| Ping.LegacyOldContinuationByte | MinecraftPing.php:100-105 | as written, "ç", U+00A7, "1", U+00A7, "20" reads as an empty message of the day, 0 players and a maximum of 1 |
| Ping.LegacyOldEmptyMotd | MinecraftPing.php:88-106 | as written, a pre-1.4 message with an empty message of the day and 1 of 20 players is read in the 1.4+ dialect: 0 of 0 players, empty version |
| Ping.PingClient.constructor | MinecraftPing.php:13-16 | a client holds its address, port and open socket, with nothing sent yet |
| Ping.PingClient.Close | MinecraftPing.php:25-31 | afterwards there is no socket; a socket is released only if there was one, so a second call releases nothing |
| Ping.PingClient.ReadVarInt | MinecraftPing.php:111-133 | the loop's result and the bytes it leaves are those of `ReadVarIntOn` on the stream before the call |
| Ping.PingClient.Query | MinecraftPing.php:43-63 | sends the handshake then 01 00; result and unread bytes are those of `QueryResponse` |
| Ping.PingClient.QueryOldPre17 | MinecraftPing.php:77-108 | sends FE 01; the result is `LegacyPing` of what was received |
| Query.Frame | MinecraftQuery.php:124 | a request is 7 + payload bytes: the fixed header with the type, then the payload |
| Query.FrameRoundTrip | MinecraftQuery.php:124 | a request reads back as its type and payload, and only a framed request reads back as them |
| Query.CheckResponse | MinecraftQuery.php:135-138 | "no data" exactly when the response is shorter than 5 bytes or starts with another type; otherwise the response without its first 5 bytes |
| Query.CheckReply | MinecraftQuery.php:135-138 | a reply of the type byte, four session bytes and a payload yields that payload |
| Query.Exchange | MinecraftQuery.php:123-139 | a write error exactly when fewer than all bytes are written, a read error exactly when the read fails after a full write; a full write with a reply gives the response check of that reply |
| Query.Challenge | MinecraftQuery.php:46-53 | an exchange error is passed on; a "no data" reply is exactly the challenge error; a reply with data always gives `pack('N', intval(data))`, four bytes spelling `intval` of the reply mod 2^32 |
| Query.StatusRequest | MinecraftQuery.php:56 | the full-stat request is 15 bytes: type 00, then the token and four zero bytes |
| Query.ChallengeRoundTrip | MinecraftQuery.php:46-53 | a token of any size sent in decimal comes back packed as `pack('N', token)`, its low 32 bits |
| Query.Lookup | MinecraftQuery.php:87-92 | `array_key_exists` and the table read: a name only from an entry holding the key and that name; None exactly when no entry holds the key |
| Query.Canonical | MinecraftQuery.php:73-92 | a key the table lists maps to the name of its own table entry; a key it does not list maps to none |
| Query.NamesCapitalised | MinecraftQuery.php:73-83 | every name of the table starts with a capital letter |
| Query.Step | MinecraftQuery.php:86-96 | one turn of the `foreach`; `Query.StepGet` and `Query.StepUnique` state its effect on the entries |
| Query.Scan | MinecraftQuery.php:85-97 | the `foreach` over the first `n` tokens; `Query.ScanEntry` and `Query.ScanKeys` state what it stores |
| Query.ScanEntry | MinecraftQuery.php:85-97 | after the scan, a name holds the token after the last key that maps to it, `''` if that key was the last token, nothing if no key maps to it |
| Query.LastKeyIsLast | MinecraftQuery.php:85-97 | no even index after the key found maps to the name; when none is found, no even index maps to it |
| Query.FollowsExpected | MinecraftQuery.php:85-97 | the turn-by-turn effect of the loop on one name stores exactly what the last-key description says |
| Query.ScanKeys | MinecraftQuery.php:85-97 | the scan stores only names of the table, each once |
| Query.ScanKeyValues | MinecraftQuery.php:85-97 | for any key table, the loop over the tokens produces exactly the entries of the scan |
| Query.ApplyPlugins | MinecraftQuery.php:104-115 | a truthy plugins value is kept as rawplugins, software is the text before ": ", and plugins becomes the "; " list of the text after it whenever ": " occurs, even when nothing follows; otherwise software is "Vanilla"; other keys are unchanged |
| Query.PluginsRoundTrip | MinecraftQuery.php:105-112 | software, ": " and the plugin list joined with "; " give the raw string back; without ": " the whole string is the software |
| Query.IntEntry | MinecraftQuery.php:100-102 | `$info[$k] = intval($info[$k])`; `Query.FinishUnset` states its effect on an absent key |
| Query.Finish | MinecraftQuery.php:99-115 | the post-processing after the scan; `Query.FinishUnset`, `Query.FinishCapitalised` and `Query.StatusQuirk` state its result |
| Query.FinishUnset | MinecraftQuery.php:99-115 | with none of the lower-case keys present, post-processing writes players, maxplayers and hostport as 0 and then software as "Vanilla" |
| Query.FinishCapitalised | MinecraftQuery.php:99-115 | on entries without lower-case keys, the three integers read 0, software reads "Vanilla", there is no rawplugins, and every capitalised entry is kept |
| Query.StatusQuirk | MinecraftQuery.php:99-115 | as written, players, maxplayers and hostport are 0, software is "Vanilla", there is no rawplugins, and scanned entries are kept |
| Query.ParseStatus | MinecraftQuery.php:58-120 | a falsy payload is an error, a remainder not splitting in two on the player delimiter is an error; it succeeds exactly when the payload is truthy and the remainder splits in two, with the scanned and post-processed entries, and the NUL-split player block when it is truthy |
| Query.ParseReply | MinecraftQuery.php:58-120 | the step-by-step parse returns exactly `ParseStatus` of the payload |
| Query.PlayersRoundTrip | MinecraftQuery.php:119-120 | a stored player list joins back with NUL into the trimmed player block, which is truthy |
| Query.Status | MinecraftQuery.php:55-59 | a failed exchange is its error, a "no data" reply is the status error, and a reply with data gives `ParseStatus` of it |
| Query.Sent | MinecraftQuery.php:24-27 | the challenge request is sent always; a second datagram is sent exactly when a token came back, and it is the full-stat request carrying that token |
| Query.Session | MinecraftQuery.php:24-27 | a challenge error ends the session; otherwise the result is the status step |
| Query.QueryClient.constructor | MinecraftQuery.php:7-10 | a new client has no info, no players and no socket events |
| Query.QueryClient.GetInfo | MinecraftQuery.php:38-40 | the stored info, or false while none is stored |
| Query.QueryClient.GetPlayers | MinecraftQuery.php:42-44 | the stored player list, or false while none is stored |
| Query.QueryClient.WriteData | MinecraftQuery.php:123-139 | records the framed request as sent and returns the result of `Exchange` |
| Query.QueryClient.GetChallenge | MinecraftQuery.php:46-53 | sends the challenge request and returns `Challenge` |
| Query.QueryClient.FetchStatus | MinecraftQuery.php:55-59 | records the full-stat request as sent and returns `Status` |
| Query.QueryClient.GetStatus | MinecraftQuery.php:55-121 | sends the full-stat request; on error neither info nor players changes; on success info is stored and players only when the block is truthy |
| Query.QueryClient.Connect | MinecraftQuery.php:12-36 | a bad timeout is refused with nothing opened; a failed open is an error; otherwise the trace is open, the requests, close, and info and players change only on success |

## Left out

- Sockets, DNS and timeouts are not modelled. Left out with them: `stream_set_timeout`, `stream_set_blocking`, `socket_set_option`, `socket_connect`, and the ping client's `connect`, auto-connecting constructor and `__destruct`. The ping client starts connected. The query client gets the outcome of `fsockopen` and of each `fwrite`/`fread` as parameters.
- The 2048-byte `fread` cap, the 512-byte `socket_recv` cap and the stop-at-newline rule of `PHP_NORMAL_READ` are left out. These are transport details.
- `json_decode` and `json_last_error_msg` are left out. They are a foreign library; the status body is returned as bytes.
- Exception messages are left out. PHP notices for undefined offsets are left out too; a missing offset reads as null, that is `''` or 0.
- Ping.PingClient.ReadVarInt: a stream that runs out is treated like a failed `socket_read`, so the call returns 0. The empty-string-on-EOF case, whose `ord('')` would end the loop with the partial value, is not separated from it.
- Ping.PingClient.ReadVarInt: `|=` is modelled as `+`. The 7-bit groups never overlap, so the two agree.
- Ping.PingClient.Query and Ping.PingClient.QueryOldPre17 require an open socket. Calling them after `close` is a PHP type error, and that error is not modelled.
- Php.IntVal does not model exponent notation ("1e3") or saturation at 64 bits. `pack('N', …)` of a string is modelled with the same conversion.
- Utf16.Iconv: a failed conversion is `false` in PHP, which the parser reads as the empty string. Invalid UTF-16 is modelled only as a lone or unpaired surrogate or a trailing odd byte.
