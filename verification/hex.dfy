/** Hexadecimal digits and the `0x`-prefixed lowercase rendering of byte strings. */
module Hex {
  import opened Numbers
  import opened Bytes
  import opened Text
  import opened Wrappers

  predicate IsHexDigit(c: char)
  {
    '0' <= c <= '9' || 'a' <= c <= 'f' || 'A' <= c <= 'F'
  }

  predicate AllHex(s: string)
  {
    forall i :: 0 <= i < |s| ==> IsHexDigit(s[i])
  }

  function HexValue(c: char): (v: nat)
    requires IsHexDigit(c)
    ensures v < 16
  {
    if '0' <= c <= '9' then c as int - '0' as int
    else if 'a' <= c <= 'f' then c as int - 'a' as int + 10
    else c as int - 'A' as int + 10
  }

  /** The lowercase hex digit for a nibble. */
  function HexChar(n: nat): (c: char)
    requires n < 16
    ensures IsHexDigit(c) && HexValue(c) == n && LowerChar(c) == c
  {
    if n < 10 then ('0' as int + n) as char else ('a' as int + n - 10) as char
  }

  lemma HexCharOfHexValue(c: char)
    requires IsHexDigit(c)
    ensures HexChar(HexValue(c)) == LowerChar(c)
  {
  }

  lemma HexValueIgnoresCase(c: char)
    requires IsHexDigit(c)
    ensures IsHexDigit(LowerChar(c)) && HexValue(LowerChar(c)) == HexValue(c)
  {
  }

  /** Lowercase hex digits of a byte string, two per byte, most significant nibble first. */
  function BytesToHex(b: seq<byte>): (r: string)
    ensures |r| == 2 * |b|
    ensures AllHex(r) && Lower(r) == r
  {
    if |b| == 0 then ""
    else [HexChar(b[0] / 16), HexChar(b[0] % 16)] + BytesToHex(b[1..])
  }

  /** Bytes of an even-length string of hex digits of either case. */
  function HexToBytes(s: string): (r: seq<byte>)
    requires |s| % 2 == 0 && AllHex(s)
    ensures |r| == |s| / 2
  {
    if |s| == 0 then []
    else [HexValue(s[0]) * 16 + HexValue(s[1])] + HexToBytes(s[2..])
  }

  lemma {:induction false} HexToBytesOfBytesToHex(b: seq<byte>)
    ensures HexToBytes(BytesToHex(b)) == b
  {
    if |b| > 0 {
      var s := BytesToHex(b);
      assert s[2..] == BytesToHex(b[1..]);
      HexToBytesOfBytesToHex(b[1..]);
    }
  }

  lemma {:induction false} BytesToHexOfHexToBytes(s: string)
    requires |s| % 2 == 0 && AllHex(s)
    ensures BytesToHex(HexToBytes(s)) == Lower(s)
  {
    if |s| > 0 {
      var b := HexToBytes(s);
      var hi, lo := HexValue(s[0]), HexValue(s[1]);
      NibblesOfByte(hi, lo);
      HexCharOfHexValue(s[0]);
      HexCharOfHexValue(s[1]);
      assert b[0] / 16 == hi && b[0] % 16 == lo;
      assert b[1..] == HexToBytes(s[2..]);
      BytesToHexOfHexToBytes(s[2..]);
      assert BytesToHex(b) == [HexChar(hi), HexChar(lo)] + BytesToHex(b[1..]);
      assert Lower(s) == [LowerChar(s[0]), LowerChar(s[1])] + Lower(s[2..]);
    }
  }

  lemma NibblesOfByte(hi: nat, lo: nat)
    requires hi < 16 && lo < 16
    ensures (hi * 16 + lo) / 16 == hi && (hi * 16 + lo) % 16 == lo
  {
    DivModUnique(hi * 16 + lo, 16, hi, lo);
  }

  /** Decoding hex digits does not depend on their case. */
  lemma {:induction false} HexToBytesIgnoresCase(s: string)
    requires |s| % 2 == 0 && AllHex(s)
    ensures AllHex(Lower(s)) && HexToBytes(Lower(s)) == HexToBytes(s)
  {
    forall i | 0 <= i < |s| {
      HexValueIgnoresCase(s[i]);
    }
    if |s| > 0 {
      assert Lower(s)[2..] == Lower(s[2..]);
      HexToBytesIgnoresCase(s[2..]);
    }
  }

  /** `0x` followed by the lowercase hex of a hash: how roots and proof entries are rendered. */
  function HashHex(h: Hash): (r: string)
    ensures |r| == 66 && r[..2] == "0x" && AllHex(r[2..])
  {
    "0x" + BytesToHex(h)
  }

  /** Reading a `0x`-prefixed 32-byte hex string back into a hash. */
  function ParseHashHex(s: string): (r: Option<Hash>)
  {
    if |s| == 66 && s[..2] == "0x" && AllHex(s[2..]) then Some(HexToBytes(s[2..]))
    else None
  }

  lemma HashHexRoundTrip(h: Hash)
    ensures ParseHashHex(HashHex(h)) == Some(h)
  {
    assert HashHex(h)[2..] == BytesToHex(h);
    HexToBytesOfBytesToHex(h);
  }
}
