/**
Soundness of multi-proofs: a verifier that arrives at the root has placed every hash it was given at a node of
the tree, with no leaf of the tree below two of them.
*/
module MultiProofSoundness {
  import opened MerkleTree
  import opened MultiProofs

  // ---- Counting the leaves below nodes ----

  /** How many of the leaves below a node hold the given hash. */
  ghost function CountBelow(tree: seq<Hash>, h: Hash, i: nat): nat
    requires |tree| % 2 == 1 && i < |tree|
    decreases |tree| - i
  {
    if i < |tree| / 2 then CountBelow(tree, h, LeftChild(i)) + CountBelow(tree, h, RightChild(i))
    else if tree[i] == h then 1 else 0
  }

  ghost function CountBelowAll(tree: seq<Hash>, h: Hash, nodes: seq<nat>): nat
    requires |tree| % 2 == 1 && Within(nodes, |tree|)
  {
    if nodes == [] then 0 else CountBelow(tree, h, nodes[0]) + CountBelowAll(tree, h, nodes[1..])
  }

  lemma CountCons(tree: seq<Hash>, h: Hash, i: nat, nodes: seq<nat>)
    requires |tree| % 2 == 1 && i < |tree| && Within(nodes, |tree|)
    ensures Within([i] + nodes, |tree|)
    ensures CountBelowAll(tree, h, [i] + nodes) == CountBelow(tree, h, i) + CountBelowAll(tree, h, nodes)
  {
    assert ([i] + nodes)[1..] == nodes;
  }

  lemma {:induction false} CountSnoc(tree: seq<Hash>, h: Hash, nodes: seq<nat>, i: nat)
    requires |tree| % 2 == 1 && i < |tree| && Within(nodes, |tree|)
    ensures Within(nodes + [i], |tree|)
    ensures CountBelowAll(tree, h, nodes + [i]) == CountBelowAll(tree, h, nodes) + CountBelow(tree, h, i)
  {
    if nodes == [] {
      CountCons(tree, h, i, []);
      assert nodes + [i] == [i] + [];
    } else {
      CountSnoc(tree, h, nodes[1..], i);
      CountCons(tree, h, nodes[0], nodes[1..] + [i]);
      assert nodes + [i] == [nodes[0]] + (nodes[1..] + [i]);
    }
  }

  /** The numbers from `low` up to, but not including, `high`. */
  function Range(low: nat, high: nat): seq<nat>
    requires low <= high
  {
    seq(high - low, i requires 0 <= i < high - low => low + i)
  }

  lemma RangeStep(k: nat)
    requires k > 0
    ensures Range(k - 1, 2 * k - 1) == [k - 1] + Range(k, 2 * k - 1)
    ensures Range(k, 2 * k + 1) == Range(k, 2 * k - 1) + [2 * k - 1] + [2 * k]
  {
  }

  lemma RangeWithin(low: nat, high: nat, size: nat)
    requires low <= high <= size
    ensures Within(Range(low, high), size)
  {
  }

  /** Replacing the nodes from the root on by their children, one by one, keeps the leaves below. */
  lemma {:induction false} CountFrontier(tree: seq<Hash>, h: Hash, k: nat)
    requires |tree| % 2 == 1 && k <= |tree| / 2
    ensures Within(Range(k, 2 * k + 1), |tree|)
    ensures CountBelowAll(tree, h, Range(k, 2 * k + 1)) == CountBelow(tree, h, 0)
  {
    RangeWithin(k, 2 * k + 1, |tree|);
    if k == 0 {
      CountCons(tree, h, 0, []);
      assert Range(0, 1) == [0] + [];
    } else {
      CountFrontier(tree, h, k - 1);
      RangeStep(k);
      RangeWithin(k, 2 * k - 1, |tree|);
      CountExpanded(tree, h, k - 1, Range(k, 2 * k - 1));
    }
  }

  lemma CountExpanded(tree: seq<Hash>, h: Hash, i: nat, nodes: seq<nat>)
    requires |tree| % 2 == 1 && i < |tree| / 2 && Within(nodes, |tree|)
    ensures var children := nodes + [LeftChild(i)] + [RightChild(i)];
            && Within([i] + nodes, |tree|) && Within(children, |tree|)
            && CountBelowAll(tree, h, children) == CountBelowAll(tree, h, [i] + nodes)
  {
    CountCons(tree, h, i, nodes);
    CountSnoc(tree, h, nodes, LeftChild(i));
    CountSnoc(tree, h, nodes + [LeftChild(i)], RightChild(i));
  }

  /** Below leaf nodes there are just they themselves. */
  lemma {:induction false} CountLeaves(tree: seq<Hash>, h: Hash, nodes: seq<nat>)
    requires |tree| % 2 == 1 && Within(nodes, |tree|) && forall i :: 0 <= i < |nodes| ==> nodes[i] >= |tree| / 2
    ensures CountBelowAll(tree, h, nodes) == multiset(Select(tree, nodes))[h]
  {
    if nodes == [] {
    } else {
      CountLeaves(tree, h, nodes[1..]);
      assert Select(tree, nodes) == [tree[nodes[0]]] + Select(tree, nodes[1..]);
    }
  }

  lemma {:induction false} ReversalPermutes(s: seq<Hash>, t: seq<Hash>)
    requires |s| == |t| && forall i :: 0 <= i < |s| ==> t[i] == s[|s| - 1 - i]
    ensures multiset(s) == multiset(t)
  {
    if s == [] {
    } else {
      var n := |s| - 1;
      ReversalPermutes(s[1..], t[..n]);
      assert s == [s[0]] + s[1..] && t == t[..n] + [t[n]];
    }
  }

  /** All leaves are below the root. */
  lemma CountRoot(tree: seq<Hash>, h: Hash)
    requires |tree| % 2 == 1
    ensures CountBelow(tree, h, 0) == multiset(LeavesOf(tree))[h]
  {
    var k := |tree| / 2;
    CountFrontier(tree, h, k);
    CountLeaves(tree, h, Range(k, 2 * k + 1));
    LeavesReversed(tree);
  }

  lemma LeavesReversed(tree: seq<Hash>)
    requires |tree| % 2 == 1
    ensures multiset(Select(tree, Range(|tree| / 2, |tree|))) == multiset(LeavesOf(tree))
  {
    ReversalPermutes(Select(tree, Range(|tree| / 2, |tree|)), LeavesOf(tree));
  }

  // ---- Placing the hashes of a run ----

  /** The two hashes of a pair are at the children of any node that holds the pair hash. */
  lemma PairAtChildren(keccak: Keccak, tree: seq<Hash>, h: Hash, i: nat, a: Hash, b: Hash) returns (c: nat, d: nat)
    requires IsMerkleTree(keccak, tree) && PairsInjective(keccak) && LeavesApart(keccak, tree)
    requires i < |tree| && tree[i] == HashPair(keccak, a, b)
    ensures c < |tree| && d < |tree| && tree[c] == a && tree[d] == b
    ensures CountBelow(tree, h, c) + CountBelow(tree, h, d) == CountBelow(tree, h, i)
  {
    HashPairIsPairHash(keccak, a, b);
    assert i < |tree| / 2;
    c, d := LeftChild(i), RightChild(i);
    if tree[c] != a {
      c, d := d, c;
    }
  }

  /** The hashes are at these nodes, and no leaf below the root is below two of the nodes. */
  ghost predicate Placed(tree: seq<Hash>, h: Hash, hashes: seq<Hash>, nodes: seq<nat>)
    requires |tree| % 2 == 1
  {
    && Within(nodes, |tree|) && Select(tree, nodes) == hashes
    && CountBelowAll(tree, h, nodes) <= CountBelow(tree, h, 0)
  }

  /** A pair hash in the last place can be replaced by one or both of the hashes paired. */
  lemma UnpairLast(tree: seq<Hash>, h: Hash, rest: seq<Hash>, pair: Hash, nodes: seq<nat>, c: nat, d: nat)
    requires |tree| % 2 == 1 && Placed(tree, h, rest + [pair], nodes) && c < |tree| && d < |tree|
    requires CountBelow(tree, h, c) + CountBelow(tree, h, d) == CountBelow(tree, h, nodes[|rest|])
    ensures Placed(tree, h, [tree[c]] + rest, [c] + nodes[..|rest|])
    ensures Placed(tree, h, [tree[c], tree[d]] + rest, [c, d] + nodes[..|rest|])
  {
    var front := nodes[..|rest|];
    WithoutLast(tree, h, rest, pair, nodes);
    PlaceFirst(tree, h, rest, front, c);
    PlaceFirst(tree, h, rest, front, d);
    PlaceFirst(tree, h, [tree[d]] + rest, [d] + front, c);
    assert [tree[c], tree[d]] + rest == [tree[c]] + ([tree[d]] + rest);
    assert [c, d] + front == [c] + ([d] + front);
  }

  lemma WithoutLast(tree: seq<Hash>, h: Hash, rest: seq<Hash>, last: Hash, nodes: seq<nat>)
    requires |tree| % 2 == 1 && Within(nodes, |tree|) && Select(tree, nodes) == rest + [last]
    ensures |nodes| == |rest| + 1 && Within(nodes[..|rest|], |tree|) && Select(tree, nodes[..|rest|]) == rest
    ensures CountBelowAll(tree, h, nodes) == CountBelowAll(tree, h, nodes[..|rest|]) + CountBelow(tree, h, nodes[|rest|])
  {
    assert |Select(tree, nodes)| == |rest| + 1;
    assert Select(tree, nodes[..|rest|]) == Select(tree, nodes)[..|rest|];
    CountSnoc(tree, h, nodes[..|rest|], nodes[|rest|]);
    assert nodes == nodes[..|rest|] + [nodes[|rest|]];
  }

  lemma PlaceFirst(tree: seq<Hash>, h: Hash, hashes: seq<Hash>, nodes: seq<nat>, c: nat)
    requires |tree| % 2 == 1 && Within(nodes, |tree|) && Select(tree, nodes) == hashes && c < |tree|
    ensures Within([c] + nodes, |tree|) && Select(tree, [c] + nodes) == [tree[c]] + hashes
    ensures CountBelowAll(tree, h, [c] + nodes) == CountBelow(tree, h, c) + CountBelowAll(tree, h, nodes)
  {
    CountCons(tree, h, c, nodes);
  }

  /** The assumptions under which a pair hash determines the pair. */
  ghost predicate Sound(keccak: Keccak, tree: seq<Hash>)
  {
    IsMerkleTree(keccak, tree) && PairsInjective(keccak) && LeavesApart(keccak, tree)
  }

  lemma EndPlaced(keccak: Keccak, tree: seq<Hash>, h: Hash, stack: seq<Hash>, proof: seq<Hash>) returns (nodes: seq<nat>)
    requires |tree| % 2 == 1 && |stack| + |proof| == 1 && Run(keccak, stack, proof, []) == Root(tree[0])
    ensures Placed(tree, h, stack, nodes)
  {
    if stack == [] {
      nodes := [];
    } else {
      nodes := [0];
      CountCons(tree, h, 0, []);
      assert [0] + [] == [0] && stack == [tree[0]];
    }
  }

  /** One step of a run backwards. */
  lemma StepPlaced(keccak: Keccak, tree: seq<Hash>, h: Hash, stack: seq<Hash>, b: Hash, paired: bool, next: seq<nat>)
    returns (nodes: seq<nat>)
    requires Sound(keccak, tree) && stack != [] && (paired ==> |stack| > 1 && b == stack[1])
    requires Placed(tree, h, stack[if paired then 2 else 1..] + [HashPair(keccak, stack[0], b)], next)
    ensures Placed(tree, h, stack, nodes)
  {
    var rest, pair := stack[if paired then 2 else 1..], HashPair(keccak, stack[0], b);
    assert |next| == |Select(tree, next)| == |rest| + 1 && Select(tree, next)[|rest|] == pair;
    var c, d := PairAtChildren(keccak, tree, h, next[|rest|], stack[0], b);
    UnpairLast(tree, h, rest, pair, next, c, d);
    nodes := (if paired then [c, d] else [c]) + next[..|rest|];
    assert stack == (if paired then [stack[0], stack[1]] else [stack[0]]) + rest;
  }

  /** A run that reaches a root takes its next step without a panic. */
  lemma RunStep(keccak: Keccak, stack: seq<Hash>, proof: seq<Hash>, flags: seq<bool>) returns (b: Hash, rest: seq<Hash>)
    requires flags != [] && Run(keccak, stack, proof, flags).Root?
    ensures stack != [] && (flags[0] ==> |stack| > 1 && b == stack[1])
    ensures |rest| == |proof| - if flags[0] then 0 else 1
    ensures Run(keccak, stack[if flags[0] then 2 else 1..] + [HashPair(keccak, stack[0], b)], rest, flags[1..])
         == Run(keccak, stack, proof, flags)
  {
    b, rest := if flags[0] then stack[1] else proof[0], if flags[0] then proof else proof[1..];
  }

  /** A run that ends in the root has all hashes of its stack placed. */
  lemma {:induction false} RunPlaced(keccak: Keccak, tree: seq<Hash>, h: Hash,
                                     stack: seq<Hash>, proof: seq<Hash>, flags: seq<bool>) returns (nodes: seq<nat>)
    requires Sound(keccak, tree)
    requires |stack| + |proof| == |flags| + 1 && Run(keccak, stack, proof, flags) == Root(tree[0])
    ensures Placed(tree, h, stack, nodes)
    decreases |flags|
  {
    if flags == [] {
      nodes := EndPlaced(keccak, tree, h, stack, proof);
    } else {
      var b, rest := RunStep(keccak, stack, proof, flags);
      var next := stack[if flags[0] then 2 else 1..] + [HashPair(keccak, stack[0], b)];
      nodes := RunPlaced(keccak, tree, h, next, rest, flags[1..]);
      nodes := StepPlaced(keccak, tree, h, stack, b, flags[0], nodes);
    }
  }

  lemma AtLeaves(keccak: Keccak, tree: seq<Hash>, hashes: seq<Hash>, nodes: seq<nat>)
    requires IsMerkleTree(keccak, tree) && Within(nodes, |tree|) && Select(tree, nodes) == hashes
    requires forall h :: h in hashes ==> !IsPairHash(keccak, h)
    ensures forall i :: 0 <= i < |nodes| ==> nodes[i] >= |tree| / 2
  {
    forall i | 0 <= i < |nodes|
      ensures nodes[i] >= |tree| / 2
    {
      assert tree[nodes[i]] == hashes[i] && hashes[i] in hashes;
      if nodes[i] < |tree| / 2 {
        HashPairIsPairHash(keccak, tree[LeftChild(nodes[i])], tree[RightChild(nodes[i])]);
      }
    }
  }

  /**
  If any multi-proof, however made, verifies to the root, all the leaf hashes it claims are leaves of the tree,
  and none is claimed more often than the tree has it.
  */
  lemma MultiProofSound(keccak: Keccak, tree: seq<Hash>, m: MultiProof<Hash, Hash>)
    requires IsMerkleTree(keccak, tree) && PairsInjective(keccak) && LeavesApart(keccak, tree)
    requires forall h :: h in m.leaves ==> !IsPairHash(keccak, h)
    requires Verified(keccak, m) == Root(tree[0])
    ensures multiset(m.leaves) <= multiset(LeavesOf(tree))
    ensures forall h :: h in m.leaves ==> h in LeavesOf(tree)
  {
    forall h: Hash
      ensures multiset(m.leaves)[h] <= multiset(LeavesOf(tree))[h]
    {
      var nodes := RunPlaced(keccak, tree, h, m.leaves, m.proof, m.proofFlags);
      AtLeaves(keccak, tree, m.leaves, nodes);
      CountLeaves(tree, h, nodes);
      CountRoot(tree, h);
    }
    assert forall h :: h in m.leaves ==> h in multiset(m.leaves);
  }
}
