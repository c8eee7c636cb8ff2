/**
 * Address canonicalisation as `ethers.getAddress` performs it: an optional
 * `0x` prefix and exactly 40 hex digits, rewritten in the mixed-case checksum
 * form of the Specification section of EIP-55. A mixed-case input must
 * already carry the correct checksum casing; an all-lowercase or
 * all-uppercase input is accepted and re-cased.
 */
module Address {
  import opened Wrappers
  import opened Bytes
  import opened Text
  import opened Hex

  datatype AddressError = MalformedAddress | BadChecksum

  /** `^(0x)?[0-9a-fA-F]{40}$` */
  predicate AddressSyntax(s: string)
  {
    (|s| == 40 && AllHex(s)) || (|s| == 42 && s[..2] == "0x" && AllHex(s[2..]))
  }

  /** The 40 hex digits of a syntactically valid address. */
  function DigitsOf(s: string): (d: string)
    requires AddressSyntax(s)
    ensures |d| == 40 && AllHex(d)
  {
    if |s| == 40 then s else s[2..]
  }

  /** `0x` and 40 hex digits of either case: the shape of every canonical address. */
  predicate IsAddressText(s: string)
  {
    |s| == 42 && s[..2] == "0x" && AllHex(s[2..])
  }

  function UpperChar(c: char): char
  {
    if 'a' <= c <= 'z' then (c as int - 32) as char else c
  }

  /** The `i`-th 4-bit nibble of a hash, most significant first. */
  function Nibble(h: Hash, i: nat): (n: nat)
    requires i < 64
    ensures n < 16
  {
    if i % 2 == 0 then h[i / 2] / 16 else h[i / 2] % 16
  }

  /** The character codes of an ASCII string, as bytes. */
  function AsciiBytes(s: string): (b: seq<byte>)
    requires forall i :: 0 <= i < |s| ==> s[i] as int < 256
    ensures |b| == |s|
  {
    seq(|s|, i requires 0 <= i < |s| => s[i] as int)
  }

  /**
   * EIP-55 casing: hash the ASCII of the lowercase hex digits, and upper-case
   * the letter at position i exactly when the i-th nibble of that hash is 8 or more.
   */
  function ChecksumDigits(H: Hasher, d: string): (r: string)
    requires |d| == 40 && AllHex(d)
    ensures |r| == 40 && AllHex(r)
    ensures Lower(r) == Lower(d)
  {
    var lower := Lower(d);
    var hashed := H(AsciiBytes(lower));
    var r := seq(40, i requires 0 <= i < 40 =>
               if Nibble(hashed, i) >= 8 then UpperChar(lower[i]) else lower[i]);
    assert forall i :: 0 <= i < 40 ==> LowerChar(r[i]) == lower[i];
    r
  }

  /** The checksum casing depends on the digits only, not on how they were cased. */
  lemma ChecksumIgnoresInputCase(H: Hasher, d: string, e: string)
    requires |d| == 40 && AllHex(d) && |e| == 40 && AllHex(e)
    requires Lower(d) == Lower(e)
    ensures ChecksumDigits(H, d) == ChecksumDigits(H, e)
  {
  }

  /** `/([A-F].*[a-f])|([a-f].*[A-F])/`: both an upper- and a lower-case hex letter occur. */
  predicate MixedCase(d: string)
  {
    (exists i :: 0 <= i < |d| && 'A' <= d[i] <= 'F') && (exists j :: 0 <= j < |d| && 'a' <= d[j] <= 'f')
  }

  /** `ethers.getAddress(s)` without the ICAP form. */
  function GetAddress(H: Hasher, s: string): (r: Result<string, AddressError>)
    ensures r.Success? ==> IsAddressText(r.value)
    ensures r.Success? ==> AddressSyntax(s) && Lower(r.value) == "0x" + Lower(DigitsOf(s))
    ensures !AddressSyntax(s) ==> r == Failure(MalformedAddress)
    ensures r.Success? && MixedCase(DigitsOf(s)) ==> r.value == "0x" + DigitsOf(s)
  {
    if !AddressSyntax(s) then Failure(MalformedAddress)
    else
      var d := DigitsOf(s);
      var c := ChecksumDigits(H, d);
      if MixedCase(d) && c != d then Failure(BadChecksum)
      else
        Prefixed(c);
        Success("0x" + c)
  }

  /** `0x` in front of 40 hex digits is address text, and lower-casing leaves the prefix alone. */
  lemma Prefixed(d: string)
    requires |d| == 40 && AllHex(d)
    ensures IsAddressText("0x" + d) && ("0x" + d)[2..] == d
    ensures Lower("0x" + d) == "0x" + Lower(d)
  {
    assert ("0x" + d)[2..] == d;
    assert ("0x" + d)[..2] == "0x";
  }

  /** Canonicalising a canonical address changes nothing. */
  lemma GetAddressIdempotent(H: Hasher, s: string)
    requires GetAddress(H, s).Success?
    ensures GetAddress(H, GetAddress(H, s).value) == GetAddress(H, s)
  {
    var v := GetAddress(H, s).value;
    var c := ChecksumDigits(H, DigitsOf(s));
    assert v == "0x" + c;
    assert DigitsOf(v) == c;
    ChecksumIgnoresInputCase(H, c, DigitsOf(s));
  }

  /** Two spellings of the same 20 bytes canonicalise to the same string. */
  lemma GetAddressCaseInsensitive(H: Hasher, s: string, t: string)
    requires GetAddress(H, s).Success? && GetAddress(H, t).Success?
    requires Lower(DigitsOf(s)) == Lower(DigitsOf(t))
    ensures GetAddress(H, s).value == GetAddress(H, t).value
  {
    ChecksumIgnoresInputCase(H, DigitsOf(s), DigitsOf(t));
  }

  /** Whatever the hash, 40 hex digits in a single case are always accepted. */
  lemma SingleCaseAccepted(H: Hasher, s: string)
    requires AddressSyntax(s) && !MixedCase(DigitsOf(s))
    ensures GetAddress(H, s).Success?
  {
  }

  /** The 20 bytes an address denotes. */
  function AddressBytes(a: string): (b: seq<byte>)
    requires IsAddressText(a)
    ensures |b| == 20
  {
    HexToBytes(a[2..])
  }

  lemma LowerKeepsAddressText(a: string)
    requires IsAddressText(a)
    ensures IsAddressText(Lower(a)) && Lower(a)[2..] == Lower(a[2..])
  {
    forall i | 2 <= i < 42 {
      HexValueIgnoresCase(a[i]);
    }
  }

  /** The bytes of an address do not depend on its casing. */
  lemma AddressBytesIgnoreCase(a: string)
    requires IsAddressText(a)
    ensures IsAddressText(Lower(a)) && AddressBytes(Lower(a)) == AddressBytes(a)
  {
    LowerKeepsAddressText(a);
    HexToBytesIgnoresCase(a[2..]);
  }

  /** Rendering an address's bytes as lowercase hex gives back the lower-cased address. */
  lemma AddressBytesRoundTrip(a: string)
    requires IsAddressText(a)
    ensures "0x" + BytesToHex(AddressBytes(a)) == Lower(a)
  {
    LowerKeepsAddressText(a);
    BytesToHexOfHexToBytes(a[2..]);
    assert Lower(a) == Lower(a)[..2] + Lower(a)[2..];
  }
}
