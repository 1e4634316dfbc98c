/**
Multi-proofs: prover and verifier are two machines that each work through a queue, one on node
indices and one on hashes. The flags tell the verifier what the prover did at each step.
*/
module MultiProofs {
  import opened MerkleTree
  import opened Outcomes
  import opened Sorting

  datatype MultiProof<+T, +U> = MultiProof(leaves: seq<T>, proof: seq<U>, proofFlags: seq<bool>)

  // ---- The prover's queue ----

  ghost predicate StrictlyDescending(s: seq<nat>)
  {
    forall i, j :: 0 <= i < j < |s| ==> s[i] > s[j]
  }

  /** Strictly descending, and even the last node comes after the parent of the first. */
  ghost predicate Ordered(queue: seq<nat>)
  {
    && StrictlyDescending(queue)
    && (queue != [] && queue[0] > 0 ==> Parent(queue[0]) < queue[|queue| - 1])
  }

  /** The sibling of the first node, if queued at all, is the second. */
  predicate PairInFront(queue: seq<nat>)
    requires queue != [] && queue[0] > 0
  {
    |queue| > 1 && queue[1] == Sibling(queue[0])
  }

  function Advance(queue: seq<nat>): (next: seq<nat>)
    requires queue != [] && queue[0] > 0
    ensures next != []
  {
    queue[if PairInFront(queue) then 2 else 1..] + [Parent(queue[0])]
  }

  /** A sibling pair is always adjacent at the front. */
  lemma SiblingOnlySecond(queue: seq<nat>)
    requires Ordered(queue) && queue != [] && queue[0] > 0
    ensures Sibling(queue[0]) in queue <==> PairInFront(queue)
  {
  }

  /** Advancing keeps the order, and the first node moves strictly towards the root. */
  lemma AdvanceOrdered(queue: seq<nat>)
    requires Ordered(queue) && queue != [] && queue[0] > 0
    ensures Ordered(Advance(queue)) && Advance(queue)[0] < queue[0]
  {
    var next := Advance(queue);
    var skip := if PairInFront(queue) then 2 else 1;
    forall i, j | 0 <= i < j < |next|
      ensures next[i] > next[j]
    {
      if j == |next| - 1 {
        assert next[i] == queue[i + skip];
      }
    }
    if |next| > 1 {
      assert next[0] == queue[skip];
    }
  }

  ghost predicate Within(queue: seq<nat>, size: nat)
  {
    forall i :: 0 <= i < |queue| ==> queue[i] < size
  }

  /** Every queued node is in the array, and so is the sibling of the first, which is the largest. */
  ghost predicate Answerable(queue: seq<nat>, size: nat)
  {
    Within(queue, size) && (queue != [] ==> !SiblingMissing(size, queue[0]))
  }

  lemma AdvanceAnswerable(queue: seq<nat>, size: nat)
    requires Ordered(queue) && queue != [] && queue[0] > 0 && Answerable(queue, size)
    ensures Answerable(Advance(queue), size) && Sibling(queue[0]) < size
  {
    AdvanceOrdered(queue);
    AdvanceWithin(queue, size);
    SiblingInTree(queue[0], size);
  }

  lemma AdvanceWithin(queue: seq<nat>, size: nat)
    requires queue != [] && queue[0] > 0 && Within(queue, size)
    ensures Within(Advance(queue), size)
  {
    var next := Advance(queue);
    var skip := if PairInFront(queue) then 2 else 1;
    forall i | 0 <= i < |next|
      ensures next[i] < size
    {
      if i < |next| - 1 {
        assert next[i] == queue[i + skip];
      }
    }
  }

  /** The proof nodes and the flags the prover emits from a queue on. */
  ghost function Prove(tree: seq<Hash>, queue: seq<nat>): (r: (seq<Hash>, seq<bool>))
    requires Ordered(queue) && Answerable(queue, |tree|)
    decreases if queue == [] then 0 else queue[0]
  {
    if queue == [] || queue[0] == 0 then ([], [])
    else
      AdvanceOrdered(queue);
      AdvanceAnswerable(queue, |tree|);
      var (proof, flags) := Prove(tree, Advance(queue));
      if PairInFront(queue) then (proof, [true] + flags)
      else ([tree[Sibling(queue[0])]] + proof, [false] + flags)
  }

  function Select(tree: seq<Hash>, indices: seq<nat>): (hashes: seq<Hash>)
    requires Within(indices, |tree|)
    ensures |hashes| == |indices|
  {
    seq(|indices|, i requires 0 <= i < |indices| => tree[indices[i]])
  }

  /** The multi-proof of leaves listed in descending order; for no leaves at all it is the root itself. */
  ghost function MultiProofOf(tree: seq<Hash>, indices: seq<nat>): MultiProof<Hash, Hash>
    requires tree != [] && Ordered(indices) && Answerable(indices, |tree|)
  {
    var (proof, flags) := Prove(tree, indices);
    MultiProof(Select(tree, indices), if indices == [] then [tree[0]] else proof, flags)
  }

  // ---- The verifier ----

  /** The verifier finds a root, rejects the format, or panics by taking from an empty queue. */
  datatype Verdict = Root(hash: Hash) | Rejected | Panics

  function CountFalse(flags: seq<bool>): nat
  {
    if flags == [] then 0 else (if flags[0] then 0 else 1) + CountFalse(flags[1..])
  }

  function Run(keccak: Keccak, stack: seq<Hash>, proof: seq<Hash>, flags: seq<bool>): Verdict
    decreases |flags|
  {
    if flags == [] then
      if stack != [] then Root(stack[|stack| - 1]) else if proof != [] then Root(proof[0]) else Panics
    else if stack == [] then Panics
    else if flags[0] then
      if |stack| < 2 then Panics
      else Run(keccak, stack[2..] + [HashPair(keccak, stack[0], stack[1])], proof, flags[1..])
    else
      if proof == [] then Panics
      else Run(keccak, stack[1..] + [HashPair(keccak, stack[0], proof[0])], proof[1..], flags[1..])
  }

  function Verified(keccak: Keccak, m: MultiProof<Hash, Hash>): Verdict
  {
    if |m.proof| < CountFalse(m.proofFlags) then Rejected
    else if |m.leaves| + |m.proof| != |m.proofFlags| + 1 then Rejected
    else Run(keccak, m.leaves, m.proof, m.proofFlags)
  }

  lemma {:induction false} CountFalseCounts(flags: seq<bool>)
    ensures CountFalse(flags) == multiset(flags)[false]
  {
    if flags == [] {
    } else {
      CountFalseCounts(flags[1..]);
      assert flags == [flags[0]] + flags[1..];
    }
  }

  lemma {:induction false} RunNeverRejects(keccak: Keccak, stack: seq<Hash>, proof: seq<Hash>, flags: seq<bool>)
    ensures Run(keccak, stack, proof, flags) != Rejected
    decreases |flags|
  {
    if flags == [] || stack == [] {
    } else if flags[0] && |stack| >= 2 {
      RunNeverRejects(keccak, stack[2..] + [HashPair(keccak, stack[0], stack[1])], proof, flags[1..]);
    } else if !flags[0] && proof != [] {
      RunNeverRejects(keccak, stack[1..] + [HashPair(keccak, stack[0], proof[0])], proof[1..], flags[1..]);
    }
  }

  /** Rejected, rather than panicked on, is exactly what has too few proof nodes or the wrong total. */
  lemma RejectsExactly(keccak: Keccak, m: MultiProof<Hash, Hash>)
    ensures Verified(keccak, m) == Rejected <==>
            || |m.proof| < multiset(m.proofFlags)[false]
            || |m.leaves| + |m.proof| != |m.proofFlags| + 1
  {
    CountFalseCounts(m.proofFlags);
    RunNeverRejects(keccak, m.leaves, m.proof, m.proofFlags);
  }

  method ProcessMultiProof(keccak: Keccak, m: MultiProof<Hash, Hash>) returns (v: Verdict)
    ensures v == Verified(keccak, m)
  {
    if |m.proof| < CountFalse(m.proofFlags) {
      return Rejected;
    }
    if |m.leaves| + |m.proof| != |m.proofFlags| + 1 {
      return Rejected;
    }
    var stack, proof := m.leaves, m.proof;
    for i := 0 to |m.proofFlags|
      invariant Run(keccak, stack, proof, m.proofFlags[i..]) == Verified(keccak, m)
    {
      assert m.proofFlags[i..][1..] == m.proofFlags[i + 1..];
      if stack == [] {
        return Panics;
      }
      var a := stack[0];
      stack := stack[1..];
      var b;
      if m.proofFlags[i] {
        if stack == [] {
          return Panics;
        }
        b := stack[0];
        stack := stack[1..];
      } else {
        if proof == [] {
          return Panics;
        }
        b := proof[0];
        proof := proof[1..];
      }
      stack := stack + [HashPair(keccak, a, b)];
    }
    if stack != [] {
      return Root(stack[|stack| - 1]);
    }
    if proof == [] {
      return Panics;
    }
    v := Root(proof[0]);
  }

  // ---- Prover and verifier together ----

  lemma AdvanceHashes(keccak: Keccak, tree: seq<Hash>, queue: seq<nat>)
    requires IsMerkleTree(keccak, tree) && Within(queue, |tree|) && queue != [] && queue[0] > 0
    ensures Within(Advance(queue), |tree|) && Sibling(queue[0]) < |tree|
    ensures var stack := Select(tree, queue);
            var parent := [HashPair(keccak, tree[queue[0]], tree[Sibling(queue[0])])];
            Select(tree, Advance(queue)) == stack[if PairInFront(queue) then 2 else 1..] + parent
  {
    AdvanceWithin(queue, |tree|);
    SiblingInTree(queue[0], |tree|);
    ParentHash(keccak, tree, queue[0]);
    var next := Advance(queue);
    var skip := if PairInFront(queue) then 2 else 1;
    forall i | 0 <= i < |next| - 1
      ensures Select(tree, next)[i] == Select(tree, queue)[i + skip]
    {
      assert next[i] == queue[i + skip];
    }
  }

  /** Fed with the hashes of the prover's queue, the verifier follows the prover step by step to the root. */
  lemma {:induction false} LockStep(keccak: Keccak, tree: seq<Hash>, queue: seq<nat>)
    requires IsMerkleTree(keccak, tree) && Ordered(queue) && Within(queue, |tree|) && queue != []
    ensures var (proof, flags) := Prove(tree, queue);
            Run(keccak, Select(tree, queue), proof, flags) == Root(tree[0])
    decreases queue[0]
  {
    if queue[0] == 0 {
    } else {
      AdvanceOrdered(queue);
      AdvanceHashes(keccak, tree, queue);
      LockStep(keccak, tree, Advance(queue));
      var (proof, flags) := Prove(tree, Advance(queue));
      var (proof', flags') := Prove(tree, queue);
      assert flags'[1..] == flags;
      if !PairInFront(queue) {
        assert proof'[1..] == proof;
      }
    }
  }

  /** Each false flag consumes one proof node and each true flag one more leaf. */
  lemma {:induction false} ProofFormat(tree: seq<Hash>, queue: seq<nat>)
    requires Ordered(queue) && Answerable(queue, |tree|) && queue != []
    ensures var (proof, flags) := Prove(tree, queue);
            |proof| == CountFalse(flags) && |queue| + |proof| == |flags| + 1
    decreases queue[0]
  {
    if queue[0] > 0 {
      AdvanceOrdered(queue);
      AdvanceAnswerable(queue, |tree|);
      ProofFormat(tree, Advance(queue));
      assert Prove(tree, queue).1[1..] == Prove(tree, Advance(queue)).1;
    } else {
      var last := queue[|queue| - 1];
      assert |queue| == 1;
    }
  }

  /** Every multi-proof of a Merkle tree verifies to its root, also the one for no leaves at all. */
  lemma MultiProofComplete(keccak: Keccak, tree: seq<Hash>, indices: seq<nat>)
    requires IsMerkleTree(keccak, tree) && Ordered(indices) && Within(indices, |tree|)
    ensures Verified(keccak, MultiProofOf(tree, indices)) == Root(tree[0])
  {
    if indices != [] {
      LockStep(keccak, tree, indices);
      ProofFormat(tree, indices);
    }
  }

  // ---- Arbitrary multi-proofs ----

  /** A well-formed multi-proof makes the verifier panic exactly when it has flags and a surplus proof node. */
  lemma PanicsExactly(keccak: Keccak, m: MultiProof<Hash, Hash>)
    requires CountFalse(m.proofFlags) <= |m.proof| && |m.leaves| + |m.proof| == |m.proofFlags| + 1
    ensures Verified(keccak, m) == Panics <==> m.proofFlags != [] && |m.proof| != CountFalse(m.proofFlags)
  {
    RunPanics(keccak, m.leaves, m.proof, m.proofFlags);
  }

  /** The format checks let an input through that makes the verifier panic. */
  lemma WellFormedPanics(keccak: Keccak, a: Hash, p: Hash, q: Hash)
    ensures var m := MultiProof([a], [p, q], [false, true]);
            && CountFalse(m.proofFlags) <= |m.proof| && |m.leaves| + |m.proof| == |m.proofFlags| + 1
            && Verified(keccak, m) == Panics
  {
    var flags := [false, true];
    assert flags[1..] == [true] && [true][1..] == [];
    PanicsExactly(keccak, MultiProof([a], [p, q], flags));
  }

  lemma {:induction false} RunPanics(keccak: Keccak, stack: seq<Hash>, proof: seq<Hash>, flags: seq<bool>)
    requires |stack| + |proof| == |flags| + 1 && CountFalse(flags) <= |proof|
    ensures Run(keccak, stack, proof, flags) == Panics <==> flags != [] && |proof| != CountFalse(flags)
    ensures Run(keccak, stack, proof, flags) != Rejected
    decreases |flags|
  {
    if flags == [] || stack == [] {
    } else {
      if !flags[0] && proof != [] {
        RunPanics(keccak, stack[1..] + [HashPair(keccak, stack[0], proof[0])], proof[1..], flags[1..]);
      } else if flags[0] && |stack| >= 2 {
        RunPanics(keccak, stack[2..] + [HashPair(keccak, stack[0], stack[1])], proof, flags[1..]);
      }
    }
    if flags != [] {
      CountFalseBound(flags[1..]);
    }
  }

  lemma {:induction false} CountFalseBound(flags: seq<bool>)
    ensures CountFalse(flags) <= |flags|
  {
    if flags == [] {
    } else {
      CountFalseBound(flags[1..]);
    }
  }

  // ---- Requests in any order ----

  function Downwards(i: nat): int
  {
    0 - i
  }

  function SortDescending(s: seq<nat>): seq<nat>
  {
    SortBy(Downwards, s)
  }

  lemma SortDescendingFacts(s: seq<nat>)
    ensures |SortDescending(s)| == |s|
    ensures forall x :: x in SortDescending(s) <==> x in s
    ensures forall i, j :: 0 <= i < j < |s| ==> SortDescending(s)[i] >= SortDescending(s)[j]
    ensures StrictlyDescending(SortDescending(s)) <==> Distinct(s)
  {
    SortBySorts(Downwards, s);
    PermutationMembers(SortDescending(s), s);
    PermutationDistinct(SortDescending(s), s);
  }

  /** Leaves in strictly descending order make an ordered queue: no leaf precedes the parent of another. */
  lemma LeavesOrdered(size: nat, indices: seq<nat>)
    requires StrictlyDescending(indices) && forall i :: i in indices ==> IsLeafNode(size, i)
    ensures Ordered(indices) && Within(indices, size)
  {
    if indices != [] {
      assert IsLeafNode(size, indices[0]) && IsLeafNode(size, indices[|indices| - 1]);
    }
  }

  /**
  Any duplicate-free request for leaves, in any order, is answered with a multi-proof that verifies to the root.
  */
  lemma RequestProves(keccak: Keccak, tree: seq<Hash>, indices: seq<nat>)
    requires IsMerkleTree(keccak, tree) && Distinct(indices)
    requires forall i :: i in indices ==> IsLeafNode(|tree|, i)
    ensures var sorted := SortDescending(indices);
            && Ordered(sorted) && Within(sorted, |tree|)
            && Verified(keccak, MultiProofOf(tree, sorted)) == Root(tree[0])
  {
    SortDescendingFacts(indices);
    LeavesOrdered(|tree|, SortDescending(indices));
    MultiProofComplete(keccak, tree, SortDescending(indices));
  }

  predicate AllLeaves(size: nat, indices: seq<nat>)
  {
    forall i :: i in indices ==> IsLeafNode(size, i)
  }

  /** The request is answered with an error. */
  ghost predicate Refused(size: nat, indices: seq<nat>)
  {
    !AllLeaves(size, indices) || !Distinct(indices) || exists i :: i in indices && i > I32_MAX
  }

  /** The request makes the prover overflow, or look for a node that is not there. */
  predicate Overreaches(size: nat, indices: seq<nat>)
  {
    I32_MAX in indices || (exists i :: i in indices && SiblingMissing(size, i)) || (indices == [] && size == 0)
  }

  /** One leaf alone is refused, or panicked on, exactly as for a single proof; no leaf at all only needs a root. */
  lemma SmallRequests(size: nat, i: nat)
    ensures !Refused(size, []) && (Overreaches(size, []) <==> size == 0)
    ensures Refused(size, [i]) <==> !(i < size <= 2 * i + 1) || i > 0x7FFF_FFFF
    ensures Overreaches(size, [i]) <==> i == 0x7FFF_FFFF || (i + 1 == size && size % 2 == 0)
    ensures Refused(size, [i, i])
  {
    assert i in [i] && forall j :: j in [i] <==> j == i;
    assert [i, i][0] == [i, i][1];
  }

  /** Answers a request for several leaves. Once they are known to be leaves, the caller's indices get sorted. */
  method GetMultiProof(tree: seq<Hash>, indices: array<nat>) returns (r: Attempt<MultiProof<Hash, Hash>>)
    modifies indices
    ensures r.Failed? <==> Refused(|tree|, old(indices[..]))
    ensures r.Panicked? <==> !Refused(|tree|, old(indices[..])) && Overreaches(|tree|, old(indices[..]))
    ensures indices[..] == if AllLeaves(|tree|, old(indices[..])) then SortDescending(old(indices[..]))
                           else old(indices[..])
    ensures r.Done? ==> && tree != [] && Ordered(indices[..]) && Answerable(indices[..], |tree|)
                        && r.value == MultiProofOf(tree, indices[..])
  {
    ghost var request := indices[..];
    for i := 0 to indices.Length
      invariant forall j :: 0 <= j < i ==> IsLeafNode(|tree|, indices[j])
      invariant indices[..] == request
    {
      if !IsLeafNode(|tree|, indices[i]) {
        assert request[i] in request;
        return Failed;
      }
    }
    var sorted := SortDescending(indices[..]);
    SortDescendingFacts(request);
    forall i | 0 <= i < indices.Length {
      indices[i] := sorted[i];
    }
    assert indices[..] == sorted;
    if exists i :: 0 <= i < |sorted| - 1 && sorted[i + 1] == sorted[i] {
      return Failed;
    }
    AdjacentDistinct(sorted);
    LeavesOrdered(|tree|, sorted);
    r := FinishMultiProof(tree, sorted);
    SameRequest(|tree|, request, sorted);
  }

  lemma SameRequest(size: nat, a: seq<nat>, b: seq<nat>)
    requires |a| == |b| && (forall i :: i in a <==> i in b) && (Distinct(a) <==> Distinct(b))
    ensures (Refused(size, a) <==> Refused(size, b)) && (Overreaches(size, a) <==> Overreaches(size, b))
  {
  }

  method FinishMultiProof(tree: seq<Hash>, sorted: seq<nat>) returns (r: Attempt<MultiProof<Hash, Hash>>)
    requires AllLeaves(|tree|, sorted) && Ordered(sorted) && Within(sorted, |tree|)
    ensures r.Failed? <==> Refused(|tree|, sorted)
    ensures r.Panicked? <==> !Refused(|tree|, sorted) && Overreaches(|tree|, sorted)
    ensures r.Done? ==> tree != [] && Answerable(sorted, |tree|) && r.value == MultiProofOf(tree, sorted)
  {
    if sorted != [] {
      FirstDecides(|tree|, sorted);
    }
    var run := RunProver(tree, sorted);
    if !run.Done? {
      return if run.Failed? then Failed else Panicked;
    }
    var (proof, flags) := run.value;
    if sorted == [] {
      if tree == [] {
        return Panicked;
      }
      proof := proof + [tree[0]];
      assert proof == [tree[0]];
    }
    r := Done(MultiProof(Select(tree, sorted), proof, flags));
  }

  /** The largest index of a request decides whether it is answered. */
  lemma FirstDecides(size: nat, sorted: seq<nat>)
    requires StrictlyDescending(sorted) && sorted != [] && AllLeaves(size, sorted) && Within(sorted, size)
    ensures Refused(size, sorted) <==> sorted[0] > I32_MAX
    ensures !Refused(size, sorted) ==>
              (Overreaches(size, sorted) <==> sorted[0] == I32_MAX || SiblingMissing(size, sorted[0]))
  {
    assert sorted[0] in sorted;
    assert forall i :: i in sorted ==> i <= sorted[0];
  }

  lemma {:induction false} AdjacentDistinct(s: seq<nat>)
    requires forall i, j :: 0 <= i < j < |s| ==> s[i] >= s[j]
    requires forall i :: 0 <= i < |s| - 1 ==> s[i + 1] != s[i]
    ensures StrictlyDescending(s)
  {
    forall i, j | 0 <= i < j < |s|
      ensures s[i] > s[j]
    {
      assert s[i] >= s[i + 1] >= s[j];
    }
  }

  /** What the prover has emitted so far, and what it will still emit, make up the whole. */
  ghost predicate Emitted(tree: seq<Hash>, indices: seq<nat>, queue: seq<nat>, proof: seq<Hash>, flags: seq<bool>)
    requires Ordered(indices) && Answerable(indices, |tree|) && Ordered(queue) && Answerable(queue, |tree|)
  {
    && proof + Prove(tree, queue).0 == Prove(tree, indices).0
    && flags + Prove(tree, queue).1 == Prove(tree, indices).1
  }

  lemma EmitStep(tree: seq<Hash>, indices: seq<nat>, queue: seq<nat>, proof: seq<Hash>, flags: seq<bool>)
    requires Ordered(indices) && Answerable(indices, |tree|) && Ordered(queue) && Answerable(queue, |tree|)
    requires queue != [] && queue[0] > 0 && Emitted(tree, indices, queue, proof, flags)
    ensures Sibling(queue[0]) < |tree| && Ordered(Advance(queue)) && Answerable(Advance(queue), |tree|)
    ensures PairInFront(queue) ==> Emitted(tree, indices, Advance(queue), proof, flags + [true])
    ensures !PairInFront(queue) ==>
              Emitted(tree, indices, Advance(queue), proof + [tree[Sibling(queue[0])]], flags + [false])
  {
    AdvanceOrdered(queue);
    AdvanceAnswerable(queue, |tree|);
    var (proof', flags') := Prove(tree, Advance(queue));
    var flag, node := PairInFront(queue), tree[Sibling(queue[0])];
    assert Prove(tree, queue) == (if flag then proof' else [node] + proof', [flag] + flags');
    assert flags + [flag] + flags' == flags + ([flag] + flags');
    assert proof + [node] + proof' == proof + ([node] + proof');
  }

  lemma EmitDone(tree: seq<Hash>, indices: seq<nat>, queue: seq<nat>, proof: seq<Hash>, flags: seq<bool>)
    requires Ordered(indices) && Answerable(indices, |tree|) && Ordered(queue) && Answerable(queue, |tree|)
    requires (queue == [] || queue[0] == 0) && Emitted(tree, indices, queue, proof, flags)
    ensures Prove(tree, indices) == (proof, flags)
  {
    assert proof + [] == proof && flags + [] == flags;
  }

  /** Once the prover has taken its first step it always goes on to the root. */
  ghost predicate Underway(indices: seq<nat>, queue: seq<nat>, size: nat)
  {
    indices != [] && indices[0] < I32_MAX && Answerable(indices, size) && queue != [] && queue[0] < I32_MAX
  }

  /** What holds whenever the prover looks at its queue. */
  ghost predicate Proving(tree: seq<Hash>, indices: seq<nat>, queue: seq<nat>, proof: seq<Hash>, flags: seq<bool>)
    requires Ordered(indices)
  {
    && Ordered(queue) && Within(queue, |tree|)
    && (queue == indices || Underway(indices, queue, |tree|))
    && (Answerable(indices, |tree|) ==> Answerable(queue, |tree|) && Emitted(tree, indices, queue, proof, flags))
  }

  lemma ProvingStep(tree: seq<Hash>, indices: seq<nat>, queue: seq<nat>, proof: seq<Hash>, flags: seq<bool>)
    requires Ordered(indices) && Proving(tree, indices, queue, proof, flags)
    requires queue != [] && 0 < queue[0] < I32_MAX && Sibling(queue[0]) < |tree|
    ensures PairInFront(queue) ==> Proving(tree, indices, Advance(queue), proof, flags + [true])
    ensures !PairInFront(queue) ==>
              Proving(tree, indices, Advance(queue), proof + [tree[Sibling(queue[0])]], flags + [false])
    ensures Advance(queue)[0] < queue[0]
  {
    SiblingInTree(queue[0], |tree|);
    EmitStep(tree, indices, queue, proof, flags);
    AdvanceOrdered(queue);
  }

  /** The prover's loop: one flag, and perhaps one proof node, for each node it takes off the queue. */
  method RunProver(tree: seq<Hash>, indices: seq<nat>) returns (r: Attempt<(seq<Hash>, seq<bool>)>)
    requires Ordered(indices) && Within(indices, |tree|)
    ensures r.Failed? <==> indices != [] && indices[0] > I32_MAX
    ensures r.Panicked? <==> && indices != [] && indices[0] <= I32_MAX
                             && (indices[0] == I32_MAX || !Answerable(indices, |tree|))
    ensures r.Done? ==> Answerable(indices, |tree|) && r.value == Prove(tree, indices)
  {
    var queue: seq<nat> := indices;
    var proof: seq<Hash>, flags: seq<bool> := [], [];
    while queue != [] && queue[0] > 0
      invariant Proving(tree, indices, queue, proof, flags)
      decreases if queue == [] then 0 else queue[0]
    {
      var j := queue[0];
      var s := SiblingIndex(j);
      if !s.Done? {
        return if s.Failed? then Failed else Panicked;
      }
      SiblingInTree(j, |tree|);
      if s.value >= |tree| {
        return Panicked;
      }
      ProvingStep(tree, indices, queue, proof, flags);
      ghost var next := Advance(queue);
      if |queue| > 1 && s.value == queue[1] {
        flags := flags + [true];
        queue := queue[2..];
      } else {
        flags := flags + [false];
        proof := proof + [tree[s.value]];
        queue := queue[1..];
      }
      queue := queue + [Parent(j)];
      assert queue == next;
    }
    EmitDone(tree, indices, queue, proof, flags);
    r := Done((proof, flags));
  }
}
