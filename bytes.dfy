/** Bytes and the small arithmetic both protocol clients share. */
module Bytes {

  /** One octet; PHP strings are sequences of these. */
  type byte = b: int | 0 <= b < 256

  type bytes = seq<byte>

  function Pow(base: nat, e: nat): (r: nat)
    ensures base > 0 ==> r > 0
  {
    if e == 0 then 1 else base * Pow(base, e - 1)
  }

  /** The octets of a literal written with characters below U+0100. */
  function Ascii(s: string): (r: bytes)
    ensures |r| == |s|
    ensures forall i :: 0 <= i < |s| && (s[i] as int) < 256 ==> r[i] == s[i] as int
  {
    seq(|s|, i requires 0 <= i < |s| => (s[i] as int) % 256)
  }
}
