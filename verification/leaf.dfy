/**
 * Leaf encoding: the static-tuple encoding of `(address, uint256)` from the
 * Solidity Contract ABI Specification ("Formal Specification of the
 * Encoding") and the double Keccak-256 leaf hash built from it.
 */
module Leaf {
  import opened Wrappers
  import opened Numbers
  import opened Bytes

  /** uint256 holds exactly the values below 2^256. */
  function Uint256Bound(): nat
  {
    Pow(256, 32)
  }

  datatype EncodeError = ValueOutOfRange

  datatype AddressUint = AddressUint(address: seq<byte>, amount: nat)

  /**
   * `abiCoder.encode(['address', 'uint256'], [address, amount])`: the address
   * left-padded with 12 zero bytes into one 32-byte word, then the amount as
   * a 32-byte big-endian word. An amount that does not fit a uint256 throws.
   */
  function EncodeAddressUint(address: seq<byte>, amount: nat): (r: Result<seq<byte>, EncodeError>)
    requires |address| == 20
    ensures r.Success? <==> amount < Uint256Bound()
    ensures r.Success? ==> |r.value| == 64
    ensures r.Success? ==> (forall i :: 0 <= i < 12 ==> r.value[i] == 0)
    ensures r.Success? ==> r.value[12..32] == address && BEValue(r.value[32..]) == amount
  {
    if amount >= Uint256Bound() then Failure(ValueOutOfRange)
    else
      var word := ToBE(amount, 32);
      WordLayout(address, word);
      Success(seq(12, _ => 0) + address + word)
  }

  /** Where the padding, the address and the amount word sit in the encoding. */
  lemma WordLayout(address: seq<byte>, word: seq<byte>)
    requires |address| == 20 && |word| == 32
    ensures var b := seq(12, _ => 0) + address + word;
            |b| == 64 && (forall i :: 0 <= i < 12 ==> b[i] == 0) && b[12..32] == address && b[32..] == word
  {
    var b := seq(12, _ => 0) + address + word;
    assert b[12..32] == address;
    assert b[32..] == word;
  }

  /** Reads a 64-byte `(address, uint256)` encoding back; None if the padding is not zero. */
  function DecodeAddressUint(b: seq<byte>): (r: Option<AddressUint>)
    ensures r.Some? ==> |r.value.address| == 20 && r.value.amount < Uint256Bound()
  {
    if |b| == 64 && forall i :: 0 <= i < 12 ==> b[i] == 0 then
      Some(AddressUint(b[12..32], BEValue(b[32..])))
    else None
  }

  lemma DecodeOfEncode(address: seq<byte>, amount: nat)
    requires |address| == 20 && amount < Uint256Bound()
    ensures DecodeAddressUint(EncodeAddressUint(address, amount).value) == Some(AddressUint(address, amount))
  {
  }

  lemma EncodeOfDecode(b: seq<byte>)
    requires DecodeAddressUint(b).Some?
    ensures EncodeAddressUint(DecodeAddressUint(b).value.address, DecodeAddressUint(b).value.amount) == Success(b)
  {
    var x := DecodeAddressUint(b).value;
    ToBEOfBEValue(b[32..]);
    assert b[..12] == seq(12, _ => 0);
    assert b == b[..12] + b[12..32] + b[32..];
  }

  /** Two records share an encoding only if they share address and amount. */
  lemma EncodingInjective(a1: seq<byte>, v1: nat, a2: seq<byte>, v2: nat)
    requires |a1| == 20 && |a2| == 20 && v1 < Uint256Bound() && v2 < Uint256Bound()
    requires EncodeAddressUint(a1, v1) == EncodeAddressUint(a2, v2)
    ensures a1 == a2 && v1 == v2
  {
    DecodeOfEncode(a1, v1);
    DecodeOfEncode(a2, v2);
  }

  /** `keccak256(keccak256(abi.encode(address, amount)))`: the value placed in the tree. */
  function LeafHash(H: Hasher, address: seq<byte>, amount: nat): Hash
    requires |address| == 20 && amount < Uint256Bound()
  {
    H(H(EncodeAddressUint(address, amount).value))
  }
}
