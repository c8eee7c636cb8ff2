/**
 * The request handlers' pure parts: `POST /upload` replacing the published
 * dataset and `GET /proof/:address` looking an address up. Persisting to
 * disk and HTTP plumbing are left out; the published dataset is passed in
 * and returned.
 */
module Server {
  import opened Wrappers
  import opened Bytes
  import opened Text
  import opened Address
  import opened Merkle
  import opened Rows
  import opened Dataset

  // ---------------------------------------------------------------- upload

  /** The reply of `POST /upload`. */
  datatype UploadReply =
    | Uploaded(root: Hash, count: nat, totalAllocated: nat)
    | BadRequest
    | ServerError
  {
    function Status(): nat
    {
      match this
      case Uploaded(_, _, _) => 200
      case BadRequest => 400
      case ServerError => 500
    }
  }

  /**
   * One upload against the published dataset `state`: on success the new
   * dataset replaces it; on any failure `saveMerkle` is never reached.
   */
  function Upload(H: Hasher, state: Option<MerkleData>, rows: seq<seq<string>>, timestamp: int)
    : (r: (Option<MerkleData>, UploadReply))
    requires RowsWithinPrecision(rows)
    ensures r.1.Uploaded? <==> Build(H, rows, timestamp).Success?
    ensures !r.1.Uploaded? ==> r.0 == state
    ensures r.1.Status() == 400 <==> Build(H, rows, timestamp) == Failure(NoValidRows)
    ensures r.1.Uploaded? ==> r.0 == Some(Build(H, rows, timestamp).value)
    ensures r.1.Uploaded? ==> r.0.Some? && Consistent(H, r.0.value)
                              && r.1.root == r.0.value.root
                              && r.1.count == |r.0.value.entries|
                              && r.1.totalAllocated == Sum(EntryAmounts(r.0.value.entries))
  {
    match Build(H, rows, timestamp)
    case Success(d) => (Some(d), Uploaded(d.root, d.count, d.totalAllocated))
    case Failure(NoValidRows) => (state, BadRequest)
    case Failure(_) => (state, ServerError)
  }

  /** An upload in which no row survives leaves the published dataset in place. */
  lemma NoValidRowsKeepsDataset(H: Hasher, state: Option<MerkleData>, rows: seq<seq<string>>, timestamp: int)
    requires RowsWithinPrecision(rows)
    requires CollectRecords(H, rows).Success? && CollectRecords(H, rows).value.records == []
    ensures Upload(H, state, rows, timestamp) == (state, BadRequest)
  {
  }

  // ---------------------------------------------------------------- lookup

  /** The reply of `GET /proof/:address`. */
  datatype ProofReply =
    | NoTree
    | NotFound
    | Found(amount: nat, proof: seq<Hash>, root: Hash)
    | RootOnly(root: Hash)

  /** `merkleData.proofs[address.toLowerCase()]`, looking at the dataset's own keys only. */
  function LookupProof(state: Option<MerkleData>, query: string): (r: ProofReply)
    ensures state.None? <==> r == NoTree
    ensures state.Some? ==> (r.Found? <==> Lower(query) in state.value.proofs)
    ensures state.Some? && !r.Found? ==> r == NotFound
    ensures r.Found? ==> r.root == state.value.root
                         && state.value.proofs[Lower(query)] == IndexEntry(r.amount, r.proof)
  {
    match state
    case None => NoTree
    case Some(d) =>
      var key := Lower(query);
      if key in d.proofs then Found(d.proofs[key].amount, d.proofs[key].proof, d.root) else NotFound
  }

  /**
   * An address is found, whatever the casing of the query, exactly when some
   * entry has that address; the reply is the last such entry's.
   */
  lemma LookupAnyCasing(H: Hasher, d: MerkleData, query: string)
    requires Consistent(H, d)
    ensures LookupProof(Some(d), query).Found? <==>
              exists i :: 0 <= i < |d.entries| && Lower(d.entries[i].address) == Lower(query)
    ensures LookupProof(Some(d), query).Found? ==>
              exists i :: 0 <= i < |d.entries| && Lower(d.entries[i].address) == Lower(query)
                && LookupProof(Some(d), query) == Found(d.entries[i].amount, d.entries[i].proof, d.root)
                && forall j :: i < j < |d.entries| ==> Lower(d.entries[j].address) != Lower(query)
  {
    ProofIndexLastWins(d.entries, Lower(query));
  }

  /** A found proof verifies the queried address and the returned amount against the returned root. */
  lemma LookupVerifies(H: Hasher, d: MerkleData, query: string)
    requires Consistent(H, d) && LookupProof(Some(d), query).Found?
    ensures Encodable(Lower(query), LookupProof(Some(d), query).amount)
    ensures var reply := LookupProof(Some(d), query);
            Verify(H, reply.proof, reply.root, PairLeaf(H, Lower(query), reply.amount))
  {
    LookupAnyCasing(H, d, query);
    var i :| 0 <= i < |d.entries| && Lower(d.entries[i].address) == Lower(query)
             && LookupProof(Some(d), query) == Found(d.entries[i].amount, d.entries[i].proof, d.root);
    var e := d.entries[i];
    assert EntryVerifies(H, d.root, e);
    AddressBytesIgnoreCase(e.address);
  }

  /** Every key of a published index is a lower-case address: 42 characters long. */
  lemma IndexKeysAreAddresses(H: Hasher, d: MerkleData, key: string)
    requires Consistent(H, d) && key in d.proofs
    ensures IsAddressText(key) && |key| == 42
    ensures Lower(key) == key
  {
    ProofIndexLastWins(d.entries, key);
    var i :| 0 <= i < |d.entries| && Lower(d.entries[i].address) == key;
    assert EntryVerifies(H, d.root, d.entries[i]);
    LowerKeepsAddressText(d.entries[i].address);
    LowerIdempotent(d.entries[i].address);
  }

  // ---------------------------------------------------------------- lookup as written

  /**
   * The property names a plain object inherits from `Object.prototype` that
   * a lower-cased query can spell. The others (`hasOwnProperty`, `toString`,
   * `valueOf`, `__defineGetter__`, ...) contain upper-case letters, so
   * `toLowerCase()` output never equals them.
   */
  const InheritedKeys: set<string> := {"constructor", "__proto__"}

  /**
   * The handler as written: `proofs` is a plain object, so an inherited
   * property name finds a truthy value, and `{ ...p, root }` spreads none of
   * its own properties: the reply is 200 with the root alone.
   */
  function LookupAsWritten(state: Option<MerkleData>, query: string): (r: ProofReply)
    ensures r.RootOnly? ==> Lower(query) in InheritedKeys
  {
    match state
    case None => NoTree
    case Some(d) =>
      var key := Lower(query);
      if key in d.proofs then Found(d.proofs[key].amount, d.proofs[key].proof, d.root)
      else if key in InheritedKeys then RootOnly(d.root)
      else NotFound
  }

  /** Away from the inherited names the handler as written and the corrected lookup agree. */
  lemma LookupAgreesAwayFromInheritedKeys(state: Option<MerkleData>, query: string)
    requires Lower(query) !in InheritedKeys
    ensures LookupAsWritten(state, query) == LookupProof(state, query)
  {
  }

  /**
   * `GET /proof/constructor` (any casing) and `GET /proof/__proto__` answer
   * 200 with the root instead of "Address not found in tree".
   */
  lemma InheritedKeyAnswered(H: Hasher, d: MerkleData, query: string)
    requires Consistent(H, d)
    requires Lower(query) == "constructor" || Lower(query) == "__proto__"
    ensures LookupAsWritten(Some(d), query) == RootOnly(d.root)
    ensures LookupProof(Some(d), query) == NotFound
  {
    if Lower(query) in d.proofs {
      IndexKeysAreAddresses(H, d, Lower(query));
    }
  }

  lemma ConstructorAnswered(H: Hasher, d: MerkleData)
    requires Consistent(H, d)
    ensures LookupAsWritten(Some(d), "Constructor") == RootOnly(d.root)
    ensures LookupProof(Some(d), "Constructor") == NotFound
  {
    LowerConstructor();
    InheritedKeyAnswered(H, d, "Constructor");
  }

  lemma LowerConstructor()
    ensures Lower("Constructor") == "constructor"
  {
    var s := "Constructor";
    assert LowerChar(s[0]) == 'c';
    forall i | 1 <= i < |s|
      ensures LowerChar(s[i]) == s[i]
    {
    }
  }
}
