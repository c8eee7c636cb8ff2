/**
 * Bytes, 32-byte hashes, big-endian integers and the unsigned byte-wise
 * ordering (`Buffer.compare`) that the sorted-pair Merkle tree relies on.
 */
module Bytes {
  import opened Numbers

  type byte = b: int | 0 <= b < 256

  /** A Keccak-256 digest: exactly 32 bytes. */
  type Hash = s: seq<byte> | |s| == 32 witness seq(32, _ => 0)

  /**
   * Keccak-256. The digest function itself is not modelled: every operation
   * that hashes takes it as a parameter, and the only fact used about it is
   * that it always yields 32 bytes (its result type).
   */
  type Hasher = seq<byte> -> Hash

  /** The unsigned big-endian value of a byte string. */
  function BEValue(s: seq<byte>): (r: nat)
    ensures r < Pow(256, |s|)
  {
    if |s| == 0 then 0
    else
      var p := Pow(256, |s| - 1);
      var rest := BEValue(s[1..]);
      MulLe(s[0], 255, p);
      s[0] * p + rest
  }

  /** The `width`-byte big-endian encoding of `n`. */
  function ToBE(n: nat, width: nat): (r: seq<byte>)
    requires n < Pow(256, width)
    ensures |r| == width
    ensures BEValue(r) == n
  {
    if width == 0 then []
    else
      var p := Pow(256, width - 1);
      DivBound(n, p, 256);
      DivModSplit(n, p);
      var hi: byte := n / p;
      var lo := ToBE(n % p, width - 1);
      BEValueCons(hi, lo);
      [hi] + lo
  }

  lemma {:induction false} ToBEOfBEValue(s: seq<byte>)
    ensures ToBE(BEValue(s), |s|) == s
  {
    if |s| > 0 {
      var p := Pow(256, |s| - 1);
      DivModUnique(BEValue(s), p, s[0], BEValue(s[1..]));
      ToBEOfBEValue(s[1..]);
    }
  }

  /**
   * `Buffer.compare(a, b) <= 0`: unsigned byte-wise lexicographic order,
   * a proper prefix sorting first.
   */
  predicate LexLe(a: seq<byte>, b: seq<byte>)
  {
    if |a| == 0 then true
    else if |b| == 0 then false
    else if a[0] != b[0] then a[0] < b[0]
    else LexLe(a[1..], b[1..])
  }

  lemma {:induction false} LexLeTotal(a: seq<byte>, b: seq<byte>)
    ensures LexLe(a, b) || LexLe(b, a)
  {
    if |a| > 0 && |b| > 0 && a[0] == b[0] {
      LexLeTotal(a[1..], b[1..]);
    }
  }

  lemma {:induction false} LexLeAntisymmetric(a: seq<byte>, b: seq<byte>)
    requires LexLe(a, b) && LexLe(b, a)
    ensures a == b
  {
    if |a| > 0 && |b| > 0 {
      LexLeAntisymmetric(a[1..], b[1..]);
      assert a == [a[0]] + a[1..];
      assert b == [b[0]] + b[1..];
    }
  }

  /**
   * On strings of equal length, the byte-wise order is the order of the
   * unsigned big-endian values: "min"/"max" of two hashes mean the same thing
   * under either reading.
   */
  lemma {:induction false} LexLeIsValueOrder(a: seq<byte>, b: seq<byte>)
    requires |a| == |b|
    ensures LexLe(a, b) <==> BEValue(a) <= BEValue(b)
  {
    if |a| > 0 {
      var p := Pow(256, |a| - 1);
      if a[0] < b[0] {
        LeadingByteDecides(a[0], b[0], BEValue(a[1..]), BEValue(b[1..]), p);
      } else if a[0] > b[0] {
        LeadingByteDecides(b[0], a[0], BEValue(b[1..]), BEValue(a[1..]), p);
      } else {
        LexLeIsValueOrder(a[1..], b[1..]);
      }
    }
  }

  lemma BEValueCons(x: byte, s: seq<byte>)
    ensures BEValue([x] + s) == x * Pow(256, |s|) + BEValue(s)
  {
    assert ([x] + s)[1..] == s;
  }

  /** A smaller leading byte gives a smaller value, whatever follows. */
  lemma LeadingByteDecides(x: nat, y: nat, u: nat, v: nat, p: nat)
    requires x < y && u < p
    ensures x * p + u < y * p + v
  {
    MulLe(x + 1, y, p);
    assert (x + 1) * p == x * p + p;
  }

  lemma MulLe(x: nat, y: nat, p: nat)
    requires x <= y
    ensures x * p <= y * p
  {
  }

  lemma DivModSplit(n: nat, p: nat)
    requires p > 0
    ensures n == n / p * p + n % p && n % p < p
  {
  }

  lemma DivBound(n: nat, p: nat, k: nat)
    requires p > 0
    requires n < k * p
    ensures n / p < k
  {
    if n / p >= k {
      MulLe(k, n / p, p);
    }
  }
}
