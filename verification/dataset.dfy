/**
 * The published dataset of one upload: leaves for the surviving records,
 * the sorted-pair Merkle tree over them, one entry per record with its
 * proof, the lower-cased address index and the total allocation.
 */
module Dataset {
  import opened Wrappers
  import opened Bytes
  import opened Text
  import opened Address
  import opened Leaf
  import opened Merkle
  import opened Rows

  /** One element of `entries`: canonical address, amount in wei, proof. */
  datatype Entry = Entry(address: string, amount: nat, proof: seq<Hash>)

  /** One value of the `proofs` index. */
  datatype IndexEntry = IndexEntry(amount: nat, proof: seq<Hash>)

  /** The `merkle` object handed to `saveMerkle`; the timestamp is an input. */
  datatype MerkleData = MerkleData(
    root: Hash,
    totalAllocated: nat,
    count: nat,
    timestamp: int,
    entries: seq<Entry>,
    proofs: map<string, IndexEntry>)

  /**
   * Why an upload produces no dataset: the header test throws on a first row
   * without cells, no row survives, or an amount does not fit a uint256.
   */
  datatype BuildError = HeaderCellMissing | NoValidRows | AmountOutOfRange

  /** A record the ABI encoder accepts. */
  predicate Encodable(address: string, amount: nat)
  {
    IsAddressText(address) && amount < Uint256Bound()
  }

  /** The tree leaf of an (address, amount) pair. */
  function PairLeaf(H: Hasher, address: string, amount: nat): Hash
    requires Encodable(address, amount)
  {
    LeafHash(H, AddressBytes(address), amount)
  }

  /**
   * `records.map(...)` building the leaves: the encoder throws on the first
   * amount that does not fit, which aborts the whole upload.
   */
  function EncodeLeaves(H: Hasher, records: seq<Record>): (r: Result<seq<Hash>, BuildError>)
    requires forall k :: 0 <= k < |records| ==> IsAddressText(records[k].address)
    ensures r.Success? <==> forall k :: 0 <= k < |records| ==> records[k].amount < Uint256Bound()
    ensures r.Failure? ==> r.error == AmountOutOfRange
    ensures r.Success? ==> |r.value| == |records|
    ensures r.Success? ==> forall k :: 0 <= k < |records| ==>
              r.value[k] == H(H(EncodeAddressUint(AddressBytes(records[k].address), records[k].amount).value))
  {
    if exists k :: 0 <= k < |records| && records[k].amount >= Uint256Bound() then Failure(AmountOutOfRange)
    else Success(seq(|records|, k requires 0 <= k < |records| => PairLeaf(H, records[k].address, records[k].amount)))
  }

  /**
   * Leaf k is the double hash of a 64-byte preimage that decodes back to
   * record k's address bytes and amount.
   */
  lemma LeavesHashRecordPreimages(H: Hasher, records: seq<Record>, k: nat)
    requires forall j :: 0 <= j < |records| ==> IsAddressText(records[j].address)
    requires EncodeLeaves(H, records).Success? && k < |records|
    ensures exists p: seq<byte> :: |p| == 64
              && DecodeAddressUint(p) == Some(AddressUint(AddressBytes(records[k].address), records[k].amount))
              && EncodeLeaves(H, records).value[k] == H(H(p))
  {
    var a, v := AddressBytes(records[k].address), records[k].amount;
    var p := EncodeAddressUint(a, v).value;
    DecodeOfEncode(a, v);
    assert |p| == 64 && DecodeAddressUint(p) == Some(AddressUint(a, v)) && EncodeLeaves(H, records).value[k] == H(H(p));
  }

  // ---------------------------------------------------------------- total

  /** `reduce((s, r) => s + BigInt(r.amount), 0n)`: a left fold with unbounded integers. */
  function Sum(xs: seq<nat>): nat
  {
    if |xs| == 0 then 0 else Sum(xs[..|xs| - 1]) + xs[|xs| - 1]
  }

  lemma {:induction false} SumAppend(a: seq<nat>, b: seq<nat>)
    ensures Sum(a + b) == Sum(a) + Sum(b)
    decreases |b|
  {
    if |b| == 0 {
      assert a + b == a;
    } else {
      assert (a + b)[..|a + b| - 1] == a + b[..|b| - 1];
      SumAppend(a, b[..|b| - 1]);
    }
  }

  /** Every position counts once, whatever the other positions hold. */
  lemma SumSplitAt(xs: seq<nat>, i: nat)
    requires i < |xs|
    ensures Sum(xs) == Sum(xs[..i]) + xs[i] + Sum(xs[i + 1..])
  {
    assert xs == (xs[..i] + [xs[i]]) + xs[i + 1..];
    SumAppend(xs[..i] + [xs[i]], xs[i + 1..]);
    assert (xs[..i] + [xs[i]])[..i] == xs[..i];
  }

  function EntryAmounts(entries: seq<Entry>): (r: seq<nat>)
    ensures |r| == |entries|
    ensures forall i :: 0 <= i < |entries| ==> r[i] == entries[i].amount
  {
    seq(|entries|, i requires 0 <= i < |entries| => entries[i].amount)
  }

  /** Two entries, duplicates or not, both count toward the total. */
  lemma TotalCountsEveryEntry(entries: seq<Entry>, i: nat, j: nat)
    requires i < j < |entries|
    ensures Sum(EntryAmounts(entries)) >= entries[i].amount + entries[j].amount
  {
    var xs := EntryAmounts(entries);
    SumSplitAt(xs, j);
    SumSplitAt(xs[..j], i);
  }

  // ---------------------------------------------------------------- index

  /** `proofs[addr.toLowerCase()] = { amount, proof }` for every entry in order. */
  function ProofIndex(entries: seq<Entry>): (m: map<string, IndexEntry>)
  {
    if |entries| == 0 then map[]
    else
      var last := entries[|entries| - 1];
      ProofIndex(entries[..|entries| - 1])[Lower(last.address) := IndexEntry(last.amount, last.proof)]
  }

  /**
   * The index holds exactly the lower-cased addresses of the entries, and
   * each key maps to the last entry with that address.
   */
  lemma {:induction false} ProofIndexLastWins(entries: seq<Entry>, key: string)
    ensures key in ProofIndex(entries) <==> exists i :: 0 <= i < |entries| && Lower(entries[i].address) == key
    ensures key in ProofIndex(entries) ==>
              exists i :: 0 <= i < |entries| && Lower(entries[i].address) == key
                && ProofIndex(entries)[key] == IndexEntry(entries[i].amount, entries[i].proof)
                && forall j :: i < j < |entries| ==> Lower(entries[j].address) != key
  {
    if |entries| > 0 {
      var n := |entries|;
      var init := entries[..n - 1];
      ProofIndexLastWins(init, key);
      if Lower(entries[n - 1].address) != key {
        if key in ProofIndex(init) {
          var i :| 0 <= i < |init| && Lower(init[i].address) == key
                   && ProofIndex(init)[key] == IndexEntry(init[i].amount, init[i].proof)
                   && forall j :: i < j < |init| ==> Lower(init[j].address) != key;
          assert init[i] == entries[i];
          forall j | i < j < n
            ensures Lower(entries[j].address) != key
          {
            if j < n - 1 {
              assert init[j] == entries[j];
            }
          }
        }
        if i :| 0 <= i < n && Lower(entries[i].address) == key {
          assert init[i] == entries[i];
        }
      }
    }
  }

  // ---------------------------------------------------------------- assembly

  /** Record i with the proof the tree hands out for leaf i's value. */
  function MakeEntries(layers: seq<seq<Hash>>, records: seq<Record>, leaves: seq<Hash>): (r: seq<Entry>)
    requires |layers| >= 1 && |leaves| == |records|
    ensures |r| == |records|
    ensures forall i :: 0 <= i < |records| ==>
              r[i] == Entry(records[i].address, records[i].amount, GetProof(layers, leaves[i]))
  {
    seq(|records|, i requires 0 <= i < |records| => Entry(records[i].address, records[i].amount, GetProof(layers, leaves[i])))
  }

  /** Entry i holds record i's canonical address and amount. */
  predicate EntriesMatch(entries: seq<Entry>, records: seq<Record>)
  {
    |entries| == |records|
    && forall i :: 0 <= i < |records| ==> entries[i].address == records[i].address && entries[i].amount == records[i].amount
  }

  /** Entry i's proof leads from entry i's leaf to the root. */
  predicate EntryVerifies(H: Hasher, root: Hash, e: Entry)
  {
    Encodable(e.address, e.amount) && Verify(H, e.proof, root, PairLeaf(H, e.address, e.amount))
  }

  /** What a published dataset guarantees. */
  predicate Consistent(H: Hasher, d: MerkleData)
  {
    && |d.entries| >= 1
    && d.count == |d.entries|
    && d.totalAllocated == Sum(EntryAmounts(d.entries))
    && (forall i :: 0 <= i < |d.entries| ==> EntryVerifies(H, d.root, d.entries[i]))
    && d.proofs == ProofIndex(d.entries)
  }

  lemma EntriesVerify(H: Hasher, records: seq<Record>, leaves: seq<Hash>)
    requires |records| == |leaves| >= 1
    requires forall k :: 0 <= k < |records| ==> Encodable(records[k].address, records[k].amount)
    requires forall k :: 0 <= k < |records| ==> leaves[k] == PairLeaf(H, records[k].address, records[k].amount)
    ensures forall i :: 0 <= i < |records| ==>
              EntryVerifies(H, Root(H, leaves), MakeEntries(Layers(H, leaves), records, leaves)[i])
  {
    var entries := MakeEntries(Layers(H, leaves), records, leaves);
    forall i | 0 <= i < |records|
      ensures EntryVerifies(H, Root(H, leaves), entries[i])
    {
      GetProofVerifies(H, leaves, leaves[i]);
    }
  }

  /** The dataset for records that all encode: entries, index, count and total. */
  function Assemble(H: Hasher, records: seq<Record>, leaves: seq<Hash>, timestamp: int): (d: MerkleData)
    requires |records| == |leaves| >= 1
    requires forall k :: 0 <= k < |records| ==> Encodable(records[k].address, records[k].amount)
    requires forall k :: 0 <= k < |records| ==> leaves[k] == PairLeaf(H, records[k].address, records[k].amount)
    ensures Consistent(H, d)
    ensures EntriesMatch(d.entries, records)
    ensures d.root == Root(H, leaves)
    ensures forall i :: 0 <= i < |records| ==> d.entries[i].proof == GetProof(Layers(H, leaves), leaves[i])
    ensures d.timestamp == timestamp
  {
    var layers := Layers(H, leaves);
    var entries := MakeEntries(layers, records, leaves);
    EntriesVerify(H, records, leaves);
    MerkleData(Root(H, leaves), Sum(EntryAmounts(entries)), |records|, timestamp, entries, ProofIndex(entries))
  }

  /**
   * The dataset's root and proofs are those of the sorted-pair tree over the
   * records' leaves: the root of their layers, and for entry i the proof
   * handed out for leaf i's value.
   */
  predicate TreeOf(H: Hasher, records: seq<Record>, d: MerkleData)
  {
    && (forall k :: 0 <= k < |records| ==> IsAddressText(records[k].address))
    && EncodeLeaves(H, records).Success?
    && |records| >= 1 && |d.entries| == |records|
    && var leaves := EncodeLeaves(H, records).value;
       && d.root == Root(H, leaves)
       && forall i :: 0 <= i < |records| ==> d.entries[i].proof == GetProof(Layers(H, leaves), leaves[i])
  }

  /**
   * The `/upload` handler from the parsed rows to the dataset it saves, or
   * the reason it saves nothing.
   */
  function Build(H: Hasher, rows: seq<seq<string>>, timestamp: int): (r: Result<MerkleData, BuildError>)
    requires RowsWithinPrecision(rows)
    ensures CollectRecords(H, rows).Failure? ==> r == Failure(HeaderCellMissing)
    ensures CollectRecords(H, rows).Success? ==>
              var records := CollectRecords(H, rows).value.records;
              && (r == Failure(NoValidRows) <==> |records| == 0)
              && (r == Failure(AmountOutOfRange) <==> |records| > 0 && exists k :: 0 <= k < |records| && records[k].amount >= Uint256Bound())
    ensures r == Failure(HeaderCellMissing) ==> CollectRecords(H, rows).Failure?
    ensures CollectRecords(H, rows).Success? && |CollectRecords(H, rows).value.records| > 0
            && (forall k :: 0 <= k < |CollectRecords(H, rows).value.records| ==>
                  CollectRecords(H, rows).value.records[k].amount < Uint256Bound())
            ==> r.Success?
    ensures r.Success? ==> CollectRecords(H, rows).Success?
                           && EntriesMatch(r.value.entries, CollectRecords(H, rows).value.records)
    ensures r.Success? ==> Consistent(H, r.value) && r.value.timestamp == timestamp
    ensures r.Success? ==> TreeOf(H, CollectRecords(H, rows).value.records, r.value)
  {
    match CollectRecords(H, rows)
    case Failure(_) => Failure(HeaderCellMissing)
    case Success(collected) =>
      var records := collected.records;
      if |records| == 0 then Failure(NoValidRows)
      else
        var leaves :- EncodeLeaves(H, records);
        Success(Assemble(H, records, leaves, timestamp))
  }

  /** Identical records get identical proofs (the proof is looked up by leaf value). */
  lemma DuplicateRecordsShareProof(H: Hasher, rows: seq<seq<string>>, timestamp: int, i: nat, j: nat)
    requires RowsWithinPrecision(rows) && Build(H, rows, timestamp).Success?
    requires i < j < |Build(H, rows, timestamp).value.entries|
    requires CollectRecords(H, rows).value.records[i] == CollectRecords(H, rows).value.records[j]
    ensures Build(H, rows, timestamp).value.entries[i] == Build(H, rows, timestamp).value.entries[j]
  {
  }
}
