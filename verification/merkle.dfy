/**
 * The Merkle tree of `new MerkleTree(leaves, keccak256, { sortPairs: true })`
 * (merkletreejs): nodes are paired level by level in array order, each pair
 * is hashed smaller-first, an unpaired last node is carried up unchanged, and
 * a proof lists the siblings met on the way from a leaf to the root. Proofs
 * are checked the way OpenZeppelin's `MerkleProof.processProof` does.
 */
module Merkle {
  import opened Wrappers
  import opened Bytes
  import opened Seqs

  /** The parent of two nodes: the hash of the smaller one followed by the larger one. */
  function Combine(H: Hasher, a: Hash, b: Hash): Hash
  {
    if LexLe(a, b) then H(a + b) else H(b + a)
  }

  /** Sorted-pair hashing does not depend on which side a node is on. */
  lemma CombineCommutes(H: Hasher, a: Hash, b: Hash)
    ensures Combine(H, a, b) == Combine(H, b, a)
  {
    LexLeTotal(a, b);
    if LexLe(a, b) && LexLe(b, a) {
      LexLeAntisymmetric(a, b);
    }
  }

  /** "Smaller" is meant as unsigned big-endian integers. */
  lemma CombineOrdersByValue(H: Hasher, a: Hash, b: Hash)
    ensures Combine(H, a, b) == if BEValue(a) <= BEValue(b) then H(a + b) else H(b + a)
  {
    LexLeIsValueOrder(a, b);
  }

  /** One level up: consecutive pairs are combined, an odd last node is carried unchanged. */
  function NextLevel(H: Hasher, nodes: seq<Hash>): (r: seq<Hash>)
    ensures |r| == (|nodes| + 1) / 2
  {
    if |nodes| <= 1 then nodes
    else [Combine(H, nodes[0], nodes[1])] + NextLevel(H, nodes[2..])
  }

  /** The node one level up that `nodes[i]` becomes part of. */
  function Parent(H: Hasher, nodes: seq<Hash>, i: nat): Hash
    requires i < |nodes|
  {
    if i % 2 == 1 then Combine(H, nodes[i - 1], nodes[i])
    else if i + 1 < |nodes| then Combine(H, nodes[i], nodes[i + 1])
    else nodes[i]
  }

  lemma {:induction false} NextLevelParent(H: Hasher, nodes: seq<Hash>, i: nat)
    requires i < |nodes|
    ensures NextLevel(H, nodes)[i / 2] == Parent(H, nodes, i)
  {
    if i >= 2 {
      NextLevelParent(H, nodes[2..], i - 2);
      assert (i - 2) / 2 == i / 2 - 1;
    }
  }

  /** `tree.layers`: the leaves, then each level above, up to a single node. */
  function Layers(H: Hasher, leaves: seq<Hash>): (r: seq<seq<Hash>>)
    ensures |r| >= 1 && r[0] == leaves
    ensures |leaves| >= 1 ==> |r[|r| - 1]| == 1
    decreases |leaves|
  {
    if |leaves| <= 1 then [leaves]
    else [leaves] + Layers(H, NextLevel(H, leaves))
  }

  /** `tree.getRoot()`. */
  function Root(H: Hasher, leaves: seq<Hash>): Hash
    requires |leaves| >= 1
  {
    var layers := Layers(H, leaves);
    layers[|layers| - 1][0]
  }

  /**
   * `tree.getProof(leaf, index)` once the index is known: at every layer the
   * node's pair partner (index - 1 for a right node, index + 1 for a left
   * node), when the layer has one, then the parent's index for the next layer.
   */
  function ProofAt(layers: seq<seq<Hash>>, index: nat): seq<Hash>
  {
    if |layers| == 0 then []
    else
      var layer := layers[0];
      var pair := if index % 2 == 1 then index - 1 else index + 1;
      (if pair < |layer| then [layer[pair]] else []) + ProofAt(layers[1..], index / 2)
  }

  /** The index `getProof` settles on: it scans every leaf and keeps the last equal one. */
  function LastIndexOf(leaves: seq<Hash>, leaf: Hash): (r: Option<nat>)
    ensures r.None? <==> leaf !in leaves
    ensures r.Some? ==> r.value < |leaves| && leaves[r.value] == leaf
    ensures r.Some? ==> forall j :: r.value < j < |leaves| ==> leaves[j] != leaf
  {
    if |leaves| == 0 then None
    else if leaves[|leaves| - 1] == leaf then Some(|leaves| - 1)
    else LastIndexOf(leaves[..|leaves| - 1], leaf)
  }

  /** `tree.getHexProof(leaf)`, hashes kept as bytes: looked up by value, empty for an unknown leaf. */
  function GetProof(layers: seq<seq<Hash>>, leaf: Hash): (r: seq<Hash>)
    requires |layers| >= 1
    ensures leaf !in layers[0] ==> r == []
  {
    match LastIndexOf(layers[0], leaf)
    case None => []
    case Some(i) => ProofAt(layers, i)
  }

  /** OpenZeppelin `processProof`: fold the siblings into the leaf with the sorted-pair hash. */
  function ProcessProof(H: Hasher, leaf: Hash, proof: seq<Hash>): Hash
    decreases |proof|
  {
    if |proof| == 0 then leaf
    else ProcessProof(H, Combine(H, leaf, proof[0]), proof[1..])
  }

  /** OpenZeppelin `MerkleProof.verify`. */
  predicate Verify(H: Hasher, proof: seq<Hash>, root: Hash, leaf: Hash)
  {
    ProcessProof(H, leaf, proof) == root
  }

  lemma ProcessProofCons(H: Hasher, leaf: Hash, s: Hash, rest: seq<Hash>)
    ensures ProcessProof(H, leaf, [s] + rest) == ProcessProof(H, Combine(H, leaf, s), rest)
  {
    assert ([s] + rest)[1..] == rest;
  }

  /** The proof of the leaf at any position leads back to the root. */
  lemma {:induction false} ProofRoundTrip(H: Hasher, leaves: seq<Hash>, i: nat)
    requires i < |leaves|
    ensures Verify(H, ProofAt(Layers(H, leaves), i), Root(H, leaves), leaves[i])
    decreases |leaves|
  {
    var layers := Layers(H, leaves);
    if |leaves| == 1 {
      assert layers == [leaves];
      assert ProofAt(layers[1..], i / 2) == [];
    } else {
      var next := NextLevel(H, leaves);
      var up := Layers(H, next);
      assert layers == [leaves] + up;
      assert layers[1..] == up;
      assert Root(H, leaves) == Root(H, next);
      var rest := ProofAt(up, i / 2);
      NextLevelParent(H, leaves, i);
      ProofRoundTrip(H, next, i / 2);
      if i % 2 == 1 {
        assert ProofAt(layers, i) == [leaves[i - 1]] + rest;
        CombineCommutes(H, leaves[i], leaves[i - 1]);
        ProcessProofCons(H, leaves[i], leaves[i - 1], rest);
      } else if i + 1 < |leaves| {
        assert ProofAt(layers, i) == [leaves[i + 1]] + rest;
        ProcessProofCons(H, leaves[i], leaves[i + 1], rest);
      } else {
        assert ProofAt(layers, i) == [] + rest;
        assert [] + rest == rest;
        assert next[i / 2] == leaves[i];
      }
    }
  }

  /**
   * The proof handed out for a leaf value verifies against the root, also
   * when the same value occurs at several positions.
   */
  lemma GetProofVerifies(H: Hasher, leaves: seq<Hash>, leaf: Hash)
    requires leaf in leaves
    ensures Verify(H, GetProof(Layers(H, leaves), leaf), Root(H, leaves), leaf)
  {
    var i := LastIndexOf(leaves, leaf).value;
    ProofRoundTrip(H, leaves, i);
  }

  /** A single leaf is its own root and has an empty proof. */
  lemma SingleLeafTree(H: Hasher, leaf: Hash)
    ensures Root(H, [leaf]) == leaf
    ensures GetProof(Layers(H, [leaf]), leaf) == []
  {
    assert Layers(H, [leaf]) == [[leaf]];
    assert LastIndexOf([leaf], leaf) == Some(0);
    assert ProofAt([[leaf]], 0) == [] + ProofAt([], 0);
  }

  /**
   * Three leaves: the first two are paired, the third is carried up and
   * paired with their parent at the next level, so its proof has one sibling.
   */
  lemma ThreeLeafTree(H: Hasher, a: Hash, b: Hash, c: Hash)
    ensures Root(H, [a, b, c]) == Combine(H, Combine(H, a, b), c)
    ensures ProofAt(Layers(H, [a, b, c]), 0) == [b, c]
    ensures ProofAt(Layers(H, [a, b, c]), 1) == [a, c]
    ensures ProofAt(Layers(H, [a, b, c]), 2) == [Combine(H, a, b)]
  {
    var ab := Combine(H, a, b);
    var abc := Combine(H, ab, c);
    assert [a, b, c][2..] == [c];
    assert NextLevel(H, [a, b, c]) == [ab, c];
    assert [ab, c][2..] == [];
    assert NextLevel(H, [ab, c]) == [abc];
    var layers := [[a, b, c], [ab, c], [abc]];
    assert Layers(H, [abc]) == [[abc]];
    assert Layers(H, [ab, c]) == [[ab, c]] + [[abc]];
    assert Layers(H, [a, b, c]) == [[a, b, c]] + [[ab, c], [abc]];
    assert Layers(H, [a, b, c]) == layers;
    assert layers[1..] == [[ab, c], [abc]];
    assert layers[1..][1..] == [[abc]];
    assert ProofAt([[abc]], 0) == [] + ProofAt([], 0);
    assert ProofAt([[abc]], 0) == [];
  }

  /** The `nodes` of a finished level are exactly `NextLevel`. */
  lemma NextLevelFromParents(H: Hasher, nodes: seq<Hash>, next: seq<Hash>)
    requires |next| == (|nodes| + 1) / 2
    requires forall k :: 0 <= k < |next| ==> next[k] == Parent(H, nodes, 2 * k)
    ensures next == NextLevel(H, nodes)
  {
    var up := NextLevel(H, nodes);
    forall k | 0 <= k < |next|
      ensures next[k] == up[k]
    {
      NextLevelParent(H, nodes, 2 * k);
      assert (2 * k) / 2 == k;
    }
  }

  /**
   * One pass of the layer loop of merkletreejs (`createHashes` with sorted
   * pairs): walk the nodes two at a time; an odd last node is pushed as is.
   */
  method HashLevel(H: Hasher, nodes: seq<Hash>) returns (next: seq<Hash>)
    ensures next == NextLevel(H, nodes)
  {
    next := [];
    var i := 0;
    while i < |nodes|
      invariant i % 2 == 0 && i <= |nodes| + 1
      invariant |next| == i / 2
      invariant forall k :: 0 <= k < |next| ==> next[k] == Parent(H, nodes, 2 * k)
      decreases |nodes| - i
    {
      if i + 1 == |nodes| {
        next := next + [nodes[i]];
      } else {
        next := next + [Combine(H, nodes[i], nodes[i + 1])];
      }
      i := i + 2;
    }
    NextLevelFromParents(H, nodes, next);
  }

  /** The layer construction of merkletreejs: levels are added until one node remains. */
  method CreateHashes(H: Hasher, leaves: seq<Hash>) returns (layers: seq<seq<Hash>>)
    ensures layers == Layers(H, leaves)
  {
    var nodes := leaves;
    var below: seq<seq<Hash>> := [];
    while |nodes| > 1
      invariant below + Layers(H, nodes) == Layers(H, leaves)
      decreases |nodes|
    {
      var next := HashLevel(H, nodes);
      assert Layers(H, nodes) == [nodes] + Layers(H, next);
      AppendAssociative(below, [nodes], Layers(H, next));
      below := below + [nodes];
      nodes := next;
    }
    layers := below + [nodes];
  }
}
