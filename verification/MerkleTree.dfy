/**
Merkle trees laid out in an array, root first: node `i` has children `2i + 1` and `2i + 2`,
and the leaves fill the last slots in reverse order. Single proofs and multi-proofs.
*/
module MerkleTree {
  import opened Outcomes

  /** A 32-byte digest, read as a big-endian number, so that byte order is numeric order. */
  type Hash = nat

  /** The digest of the concatenation of two digests. */
  type Keccak = (Hash, Hash) -> Hash

  const I32_MAX: nat := 0x7FFF_FFFF

  function HashPair(keccak: Keccak, a: Hash, b: Hash): Hash
  {
    if a <= b then keccak(a, b) else keccak(b, a)
  }

  /** Whichever comes first, the smaller digest is hashed first. */
  lemma HashPairSorts(keccak: Keccak, a: Hash, b: Hash)
    requires a <= b
    ensures HashPair(keccak, a, b) == HashPair(keccak, b, a) == keccak(a, b)
  {
  }

  // ---- Indices ----

  function LeftChild(i: nat): nat { 2 * i + 1 }

  function RightChild(i: nat): nat { 2 * i + 2 }

  function Parent(i: nat): nat
    requires i > 0
  {
    (i - 1) / 2
  }

  function Sibling(i: nat): nat
    requires i > 0
  {
    if i % 2 == 0 then i - 1 else i + 1
  }

  function ParentIndex(i: nat): Result<nat>
  {
    if i > 0 then Ok(Parent(i)) else Err
  }

  /** The conversion to a 32-bit index fails beyond its range; at its very end the sibling overflows. */
  function SiblingIndex(i: nat): Attempt<nat>
  {
    if i == 0 || i > I32_MAX then Failed else if i == I32_MAX then Panicked else Done(Sibling(i))
  }

  /** The last node of an array of even length is a left child without a right sibling. */
  predicate SiblingMissing(size: nat, i: nat)
  {
    i + 1 == size && size % 2 == 0
  }

  /** Siblings are the two children of one parent; the root has neither, and 32 bits limit the sibling. */
  lemma SiblingsShareParent(i: nat)
    ensures i > 0 ==> var p := Parent(i);
                      (i == 2 * p + 1 && Sibling(i) == 2 * p + 2) || (i == 2 * p + 2 && Sibling(i) == 2 * p + 1)
    ensures ParentIndex(i).Err? <==> i == 0
    ensures SiblingIndex(i).Failed? <==> i == 0 || i > 0x7FFF_FFFF
    ensures SiblingIndex(i).Panicked? <==> i == 0x7FFF_FFFF
  {
  }

  predicate IsLeafNode(size: nat, i: nat)
  {
    i < size && !(LeftChild(i) < size)
  }

  // ---- Building and validating ----

  /** The hash at node `i` of the tree over these leaves. */
  function NodeAt(keccak: Keccak, leaves: seq<Hash>, i: nat): Hash
    requires i < 2 * |leaves| - 1
    decreases 2 * |leaves| - i
  {
    if i >= |leaves| - 1 then leaves[2 * |leaves| - 2 - i]
    else HashPair(keccak, NodeAt(keccak, leaves, LeftChild(i)), NodeAt(keccak, leaves, RightChild(i)))
  }

  function Built(keccak: Keccak, leaves: seq<Hash>): (tree: seq<Hash>)
    requires leaves != []
    ensures |tree| == 2 * |leaves| - 1
  {
    seq(2 * |leaves| - 1, i requires 0 <= i < 2 * |leaves| - 1 => NodeAt(keccak, leaves, i))
  }

  /** Odd length, and every inner node is the pair hash of its children. */
  predicate IsMerkleTree(keccak: Keccak, tree: seq<Hash>)
  {
    && |tree| % 2 == 1
    && forall i {:trigger LeftChild(i)} :: 0 <= i < |tree| / 2 ==>
         tree[i] == HashPair(keccak, tree[LeftChild(i)], tree[RightChild(i)])
  }

  /** The last half of the tree, back to front: the leaves it was built from. */
  function LeavesOf(tree: seq<Hash>): (leaves: seq<Hash>)
    ensures |leaves| == (|tree| + 1) / 2
  {
    seq((|tree| + 1) / 2, i requires 0 <= i < (|tree| + 1) / 2 => tree[|tree| - 1 - i])
  }

  lemma BuiltIsMerkleTree(keccak: Keccak, leaves: seq<Hash>)
    requires leaves != []
    ensures IsMerkleTree(keccak, Built(keccak, leaves))
    ensures LeavesOf(Built(keccak, leaves)) == leaves
  {
  }

  lemma {:induction false} NodeDetermined(keccak: Keccak, tree: seq<Hash>, i: nat)
    requires IsMerkleTree(keccak, tree) && i < |tree|
    ensures tree[i] == NodeAt(keccak, LeavesOf(tree), i)
    decreases |tree| - i
  {
    if i >= |tree| / 2 {
    } else {
      NodeDetermined(keccak, tree, LeftChild(i));
      NodeDetermined(keccak, tree, RightChild(i));
    }
  }

  /** The local hash checks pin the whole tree down: it is the one built from its own leaves. */
  lemma MerkleTreeIsBuilt(keccak: Keccak, tree: seq<Hash>)
    ensures IsMerkleTree(keccak, tree) <==> |tree| % 2 == 1 && tree == Built(keccak, LeavesOf(tree))
  {
    if IsMerkleTree(keccak, tree) {
      forall i | 0 <= i < |tree|
        ensures tree[i] == Built(keccak, LeavesOf(tree))[i]
      {
        NodeDetermined(keccak, tree, i);
      }
    } else if |tree| % 2 == 1 {
      BuiltIsMerkleTree(keccak, LeavesOf(tree));
    }
  }

  /** The leaves come last, back to front, and before them every node hashes the next two in sorted order. */
  predicate LaidOut(keccak: Keccak, leaves: seq<Hash>, tree: seq<Hash>)
  {
    && |tree| == 2 * |leaves| - 1
    && (forall i :: 0 <= i < |leaves| ==> tree[2 * |leaves| - 2 - i] == leaves[i])
    && (forall i :: 0 <= i < |leaves| - 1 ==>
          tree[i] == if tree[2 * i + 1] <= tree[2 * i + 2] then keccak(tree[2 * i + 1], tree[2 * i + 2])
                     else keccak(tree[2 * i + 2], tree[2 * i + 1]))
  }

  lemma BuiltLaidOut(keccak: Keccak, leaves: seq<Hash>)
    requires leaves != []
    ensures LaidOut(keccak, leaves, Built(keccak, leaves))
  {
  }

  method MakeMerkleTree(keccak: Keccak, leaves: seq<Hash>) returns (r: Result<seq<Hash>>)
    ensures r == if leaves == [] then Err else Ok(Built(keccak, leaves))
    ensures r.Ok? ==> LaidOut(keccak, leaves, r.value)
  {
    if leaves == [] {
      return Err;
    }
    var treeLength := 2 * |leaves| - 1;
    var tree := new Hash[treeLength](_ => 0);
    for i := 0 to |leaves|
      invariant forall j :: 0 <= j < i ==> tree[treeLength - 1 - j] == leaves[j]
    {
      tree[treeLength - 1 - i] := leaves[i];
    }
    assert forall j :: |leaves| - 1 <= j < treeLength ==> tree[j] == tree[treeLength - 1 - (treeLength - 1 - j)];
    for i := treeLength - |leaves| downto 0
      invariant forall j :: i <= j < treeLength ==> tree[j] == NodeAt(keccak, leaves, j)
    {
      tree[i] := HashPair(keccak, tree[LeftChild(i)], tree[RightChild(i)]);
    }
    assert tree[..] == Built(keccak, leaves);
    BuiltLaidOut(keccak, leaves);
    r := Ok(tree[..]);
  }

  method IsValidMerkleTree(keccak: Keccak, tree: seq<Hash>) returns (valid: bool)
    ensures valid <==> |tree| % 2 == 1 && tree == Built(keccak, LeavesOf(tree))
  {
    MerkleTreeIsBuilt(keccak, tree);
    for i := 0 to |tree|
      invariant |tree| > 0 && i >= |tree| / 2 ==> |tree| % 2 == 1
      invariant forall j :: 0 <= j < i && RightChild(j) < |tree| ==>
                              tree[j] == HashPair(keccak, tree[LeftChild(j)], tree[RightChild(j)])
    {
      var l, r := LeftChild(i), RightChild(i);
      if r >= |tree| {
        if l < |tree| {
          return false;
        }
      } else if tree[i] != HashPair(keccak, tree[l], tree[r]) {
        return false;
      }
    }
    valid := |tree| != 0;
  }

  // ---- Single proofs ----

  lemma SiblingInTree(i: nat, size: nat)
    requires 0 < i < size
    ensures Sibling(i) < size <==> !SiblingMissing(size, i)
  {
  }

  /** The siblings on the way from node `i` to the root. */
  function Siblings(tree: seq<Hash>, i: nat): seq<Hash>
    requires i < |tree| && !SiblingMissing(|tree|, i)
  {
    if i == 0 then []
    else
      SiblingInTree(i, |tree|);
      [tree[Sibling(i)]] + Siblings(tree, Parent(i))
  }

  method GetProof(tree: seq<Hash>, leaf: nat) returns (r: Attempt<seq<Hash>>)
    ensures r == if !IsLeafNode(|tree|, leaf) || leaf > I32_MAX then Failed
                 else if leaf == I32_MAX || SiblingMissing(|tree|, leaf) then Panicked
                 else Done(Siblings(tree, leaf))
  {
    if !IsLeafNode(|tree|, leaf) {
      return Failed;
    }
    var i, proof := leaf, [];
    while i > 0
      invariant 0 <= i <= leaf && (i < leaf ==> leaf < I32_MAX && !SiblingMissing(|tree|, leaf))
      invariant !SiblingMissing(|tree|, leaf) ==> proof + Siblings(tree, i) == Siblings(tree, leaf)
    {
      var sibling := SiblingIndex(i);
      if !sibling.Done? {
        return if sibling.Failed? then Failed else Panicked;
      }
      SiblingInTree(i, |tree|);
      if sibling.value >= |tree| {
        return Panicked;
      }
      proof := proof + [tree[sibling.value]];
      i := ParentIndex(i).value;
    }
    assert proof + [] == proof;
    r := Done(proof);
  }

  function ProcessProof(keccak: Keccak, leaf: Hash, proof: seq<Hash>): Hash
    decreases |proof|
  {
    if proof == [] then leaf else ProcessProof(keccak, HashPair(keccak, leaf, proof[0]), proof[1..])
  }

  lemma ParentHash(keccak: Keccak, tree: seq<Hash>, i: nat)
    requires IsMerkleTree(keccak, tree) && 0 < i < |tree|
    ensures Sibling(i) < |tree| && HashPair(keccak, tree[i], tree[Sibling(i)]) == tree[Parent(i)]
  {
    assert Parent(i) < |tree| / 2;
    assert i == LeftChild(Parent(i)) || i == RightChild(Parent(i));
  }

  /** The proof of every node of a Merkle tree folds to the root. */
  lemma {:induction false} ProofComplete(keccak: Keccak, tree: seq<Hash>, i: nat)
    requires IsMerkleTree(keccak, tree) && i < |tree|
    ensures ProcessProof(keccak, tree[i], Siblings(tree, i)) == tree[0]
    decreases i
  {
    if i == 0 {
    } else {
      ParentHash(keccak, tree, i);
      ProofComplete(keccak, tree, Parent(i));
    }
  }

  /** The assumption for soundness: the digest of a concatenation determines both parts. */
  ghost predicate PairsInjective(keccak: Keccak)
  {
    forall a, b, c, d :: keccak(a, b) == keccak(c, d) ==> a == c && b == d
  }

  ghost predicate IsPairHash(keccak: Keccak, h: Hash)
  {
    exists a, b :: h == keccak(a, b)
  }

  /** Leaf hashes come from a different domain than pair hashes. */
  ghost predicate LeavesApart(keccak: Keccak, tree: seq<Hash>)
  {
    forall i :: 0 <= i < |tree| && IsLeafNode(|tree|, i) ==> !IsPairHash(keccak, tree[i])
  }

  lemma HashPairIsPairHash(keccak: Keccak, a: Hash, b: Hash)
    ensures IsPairHash(keccak, HashPair(keccak, a, b))
  {
  }

  /** A set of hashes that contains, with every pair hash, also the two hashes that were paired. */
  ghost predicate ClosedDownwards(keccak: Keccak, nodes: set<Hash>)
  {
    forall a, b :: HashPair(keccak, a, b) in nodes ==> a in nodes && b in nodes
  }

  function Nodes(tree: seq<Hash>): set<Hash>
  {
    set h | h in tree
  }

  lemma NodesClosed(keccak: Keccak, tree: seq<Hash>)
    requires IsMerkleTree(keccak, tree) && PairsInjective(keccak) && LeavesApart(keccak, tree)
    ensures ClosedDownwards(keccak, Nodes(tree))
  {
    forall a, b | HashPair(keccak, a, b) in Nodes(tree)
      ensures a in Nodes(tree) && b in Nodes(tree)
    {
      var i :| 0 <= i < |tree| && tree[i] == HashPair(keccak, a, b);
      HashPairIsPairHash(keccak, a, b);
      assert i < |tree| / 2;
      assert tree[LeftChild(i)] in tree && tree[RightChild(i)] in tree;
    }
  }

  lemma LeafOfTree(keccak: Keccak, tree: seq<Hash>, h: Hash)
    requires IsMerkleTree(keccak, tree) && h in tree && !IsPairHash(keccak, h)
    ensures h in LeavesOf(tree)
  {
    var i :| 0 <= i < |tree| && tree[i] == h;
    if i < |tree| / 2 {
      HashPairIsPairHash(keccak, tree[LeftChild(i)], tree[RightChild(i)]);
    }
    assert LeavesOf(tree)[|tree| - 1 - i] == h;
  }

  lemma {:induction false} ProofStaysWithin(keccak: Keccak, nodes: set<Hash>, h: Hash, proof: seq<Hash>)
    requires ClosedDownwards(keccak, nodes) && ProcessProof(keccak, h, proof) in nodes
    ensures h in nodes
    decreases |proof|
  {
    if proof == [] {
    } else {
      ProofStaysWithin(keccak, nodes, HashPair(keccak, h, proof[0]), proof[1..]);
    }
  }

  /** Whatever proof accompanies it, a leaf hash that folds to the root is a leaf of the tree. */
  lemma ProofSound(keccak: Keccak, tree: seq<Hash>, h: Hash, proof: seq<Hash>)
    requires IsMerkleTree(keccak, tree) && PairsInjective(keccak) && LeavesApart(keccak, tree)
    requires !IsPairHash(keccak, h)
    requires ProcessProof(keccak, h, proof) == tree[0]
    ensures h in LeavesOf(tree)
  {
    NodesClosed(keccak, tree);
    ProofStaysWithin(keccak, Nodes(tree), h, proof);
    LeafOfTree(keccak, tree, h);
  }

  // ---- The soundness assumptions can be met ----

  function OddShifted(a: Hash, b: Hash): Hash
  {
    if b == 0 then 2 * a + 1 else 2 * OddShifted(a, b - 1)
  }

  /** A pair function that is injective and never odd. */
  function SamplePairing(a: Hash, b: Hash): Hash
  {
    2 * OddShifted(a, b)
  }

  lemma {:induction false} OddShiftedInjective(a: Hash, b: Hash, c: Hash, d: Hash)
    requires OddShifted(a, b) == OddShifted(c, d)
    ensures a == c && b == d
    decreases b
  {
    if b == 0 || d == 0 {
    } else {
      OddShiftedInjective(a, b - 1, c, d - 1);
    }
  }

  /** Some pair hash is injective, and some tree has leaves apart from it. */
  lemma AssumptionsConsistent()
    ensures PairsInjective(SamplePairing)
    ensures forall h: Hash :: h % 2 == 1 ==> !IsPairHash(SamplePairing, h)
    ensures IsMerkleTree(SamplePairing, [1]) && LeavesApart(SamplePairing, [1])
  {
    forall a, b, c, d | SamplePairing(a, b) == SamplePairing(c, d)
      ensures a == c && b == d
    {
      OddShiftedInjective(a, b, c, d);
    }
  }
}
