/**
  Percent-encoding of octets, section 2.1 of RFC 3986: a "%" followed by
  two hexadecimal digits. Producers use upper-case digits; consumers accept
  either case.
*/
module Percent {
  import opened Utf8

  predicate IsHexDigit(c: char)
  {
    ('0' <= c <= '9') || ('A' <= c <= 'F') || ('a' <= c <= 'f')
  }

  function HexValue(c: char): (v: nat)
    requires IsHexDigit(c)
    ensures v < 16
  {
    if c <= '9' then c as int - '0' as int
    else if c <= 'F' then c as int - 'A' as int + 10
    else c as int - 'a' as int + 10
  }

  /** The upper-case hexadecimal digit for `v`; `HexValue` reads it back. */
  function HexDigit(v: nat): (c: char)
    requires v < 16
    ensures IsHexDigit(c) && HexValue(c) == v
    ensures '0' <= c <= '9' || 'A' <= c <= 'F'
  {
    if v < 10 then ('0' as int + v) as char else ('A' as int + v - 10) as char
  }

  /** "%XY" for one octet; the two digits read back as the octet. */
  function Triplet(b: byte): (t: string)
    ensures |t| == 3 && t[0] == '%' && IsHexDigit(t[1]) && IsHexDigit(t[2])
    ensures HexValue(t[1]) * 16 + HexValue(t[2]) == b
  {
    ['%', HexDigit(b / 16), HexDigit(b % 16)]
  }

  /** The triplets of a sequence of octets, in order. */
  function Triplets(bs: seq<byte>): (t: string)
    ensures |t| == 3 * |bs|
    ensures forall k :: 0 <= k < |t| ==> t[k] == '%' || '0' <= t[k] <= '9' || 'A' <= t[k] <= 'F'
  {
    if bs == [] then [] else Triplet(bs[0]) + Triplets(bs[1..])
  }
}
