/**
The walk that finds which blocks below a root are not in the store. The store maps
identifiers to the identifiers that the stored block refers to.
*/
module MissingBlocks {

  type Cid(==, !new)

  type Store = map<Cid, seq<Cid>>

  /** A rank that every reference lowers: the references of stored blocks form no cycle. */
  ghost predicate Acyclic(bs: Store, rank: Cid -> nat)
  {
    forall c, r :: c in bs && r in bs[c] ==> rank(r) < rank(c)
  }

  // ---- The walk, spelled out as an unfolding of the graph into a tree ----

  /** The missing identifiers below `c` in the order the walk meets them: the last reference first. */
  ghost function MissingBelow(bs: Store, rank: Cid -> nat, c: Cid): seq<Cid>
    requires Acyclic(bs, rank)
    decreases rank(c), 1, 0
  {
    if c in bs then MissingBelowAll(bs, rank, c, bs[c]) else [c]
  }

  ghost function MissingBelowAll(bs: Store, rank: Cid -> nat, parent: Cid, refs: seq<Cid>): seq<Cid>
    requires Acyclic(bs, rank) && forall r :: r in refs ==> rank(r) < rank(parent)
    decreases rank(parent), 0, |refs|
  {
    if refs == [] then []
    else MissingBelow(bs, rank, refs[|refs| - 1]) + MissingBelowAll(bs, rank, parent, refs[..|refs| - 1])
  }

  /** The size of the unfolding below `c`. */
  ghost function Size(bs: Store, rank: Cid -> nat, c: Cid): (n: nat)
    requires Acyclic(bs, rank)
    ensures n > 0
    decreases rank(c), 1, 0
  {
    if c in bs then 1 + SizeAll(bs, rank, c, bs[c]) else 1
  }

  ghost function SizeAll(bs: Store, rank: Cid -> nat, parent: Cid, refs: seq<Cid>): nat
    requires Acyclic(bs, rank) && forall r :: r in refs ==> rank(r) < rank(parent)
    decreases rank(parent), 0, |refs|
  {
    if refs == [] then 0
    else Size(bs, rank, refs[|refs| - 1]) + SizeAll(bs, rank, parent, refs[..|refs| - 1])
  }

  /** What a whole stack still yields, and how much work it stands for; the top of the stack is last. */
  ghost function MissingOnStack(bs: Store, rank: Cid -> nat, stack: seq<Cid>): seq<Cid>
    requires Acyclic(bs, rank)
  {
    if stack == [] then []
    else MissingBelow(bs, rank, stack[|stack| - 1]) + MissingOnStack(bs, rank, stack[..|stack| - 1])
  }

  ghost function Work(bs: Store, rank: Cid -> nat, stack: seq<Cid>): nat
    requires Acyclic(bs, rank)
  {
    if stack == [] then 0 else Size(bs, rank, stack[|stack| - 1]) + Work(bs, rank, stack[..|stack| - 1])
  }

  lemma Regroup(a: seq<Cid>, b: seq<Cid>, c: seq<Cid>)
    ensures a + b + c == a + (b + c)
  {
  }

  /** Replacing a stored block by its references leaves the same yield for less work. */
  lemma {:induction false} PushReferences(bs: Store, rank: Cid -> nat, stack: seq<Cid>, parent: Cid, refs: seq<Cid>)
    requires Acyclic(bs, rank) && forall r :: r in refs ==> rank(r) < rank(parent)
    ensures MissingOnStack(bs, rank, stack + refs)
         == MissingBelowAll(bs, rank, parent, refs) + MissingOnStack(bs, rank, stack)
    ensures Work(bs, rank, stack + refs) == SizeAll(bs, rank, parent, refs) + Work(bs, rank, stack)
    decreases |refs|
  {
    if refs == [] {
      assert stack + refs == stack;
    } else {
      var front, last := refs[..|refs| - 1], refs[|refs| - 1];
      PushReferences(bs, rank, stack, parent, front);
      assert (stack + refs)[..|stack + refs| - 1] == stack + front;
      Regroup(MissingBelow(bs, rank, last), MissingBelowAll(bs, rank, parent, front), MissingOnStack(bs, rank, stack));
    }
  }

  method FindMissing(bs: Store, root: Cid, ghost rank: Cid -> nat) returns (missing: seq<Cid>)
    requires Acyclic(bs, rank)
    ensures missing == MissingBelow(bs, rank, root)
    ensures forall c :: c in missing <==> c !in bs && Reachable(bs, root, c)
  {
    var stack := [root];
    missing := [];
    assert MissingOnStack(bs, rank, stack) == MissingBelow(bs, rank, root) + MissingOnStack(bs, rank, []);
    while stack != []
      invariant missing + MissingOnStack(bs, rank, stack) == MissingBelow(bs, rank, root)
      decreases Work(bs, rank, stack)
    {
      var c := stack[|stack| - 1];
      stack := stack[..|stack| - 1];
      if c in bs {
        PushReferences(bs, rank, stack, c, bs[c]);
        stack := stack + bs[c];
      } else {
        missing := missing + [c];
      }
    }
    forall c
      ensures c in missing <==> c !in bs && Reachable(bs, root, c)
    {
      MissingIsReachable(bs, rank, root, c);
    }
  }

  // ---- Order and multiplicity ----

  /** References that are all missing are reported in reverse. */
  lemma {:induction false} MissingReversed(bs: Store, rank: Cid -> nat, parent: Cid, refs: seq<Cid>, i: nat)
    requires Acyclic(bs, rank) && i < |refs| && forall r :: r in refs ==> rank(r) < rank(parent) && r !in bs
    ensures |MissingBelowAll(bs, rank, parent, refs)| == |refs|
    ensures MissingBelowAll(bs, rank, parent, refs)[i] == refs[|refs| - 1 - i]
  {
    var last, front := refs[|refs| - 1], refs[..|refs| - 1];
    assert MissingBelow(bs, rank, last) == [last];
    if front == [] {
    } else {
      MissingReversed(bs, rank, parent, front, if i == 0 then 0 else i - 1);
    }
  }

  /** What is found below a later reference comes before what is found below an earlier one. */
  lemma {:induction false} LaterFirst(bs: Store, rank: Cid -> nat, parent: Cid, refs: seq<Cid>, more: seq<Cid>)
    requires Acyclic(bs, rank) && forall r :: r in refs ==> rank(r) < rank(parent)
    requires forall r :: r in more ==> rank(r) < rank(parent)
    ensures forall r :: r in refs + more ==> rank(r) < rank(parent)
    ensures MissingBelowAll(bs, rank, parent, refs + more)
         == MissingBelowAll(bs, rank, parent, more) + MissingBelowAll(bs, rank, parent, refs)
    decreases |more|
  {
    if more == [] {
      assert refs + more == refs;
    } else {
      var front, last := more[..|more| - 1], more[|more| - 1];
      LaterFirst(bs, rank, parent, refs, front);
      assert (refs + more)[..|refs + more| - 1] == refs + front;
      Regroup(MissingBelow(bs, rank, last), MissingBelowAll(bs, rank, parent, front),
              MissingBelowAll(bs, rank, parent, refs));
    }
  }

  // ---- Reachability ----

  /** A chain of references through stored blocks. */
  predicate IsChain(bs: Store, path: seq<Cid>)
  {
    forall i :: 0 <= i < |path| - 1 ==> path[i] in bs && path[i + 1] in bs[path[i]]
  }

  predicate Links(bs: Store, path: seq<Cid>, from: Cid, to: Cid)
  {
    path != [] && path[0] == from && path[|path| - 1] == to && IsChain(bs, path)
  }

  ghost predicate Reachable(bs: Store, from: Cid, to: Cid)
  {
    exists path :: Links(bs, path, from, to)
  }

  lemma ReachableSelf(bs: Store, c: Cid)
    ensures Reachable(bs, c, c)
  {
    assert Links(bs, [c], c, c);
  }

  lemma ReachableVia(bs: Store, from: Cid, mid: Cid, to: Cid)
    requires from in bs && mid in bs[from] && Reachable(bs, mid, to)
    ensures Reachable(bs, from, to)
  {
    var path :| Links(bs, path, mid, to);
    assert Links(bs, [from] + path, from, to);
  }

  /** Whatever is reachable is the start itself or reachable from one of its references. */
  lemma ReachableSplit(bs: Store, from: Cid, to: Cid)
    requires Reachable(bs, from, to) && from != to
    ensures from in bs && exists mid :: mid in bs[from] && Reachable(bs, mid, to)
  {
    var path :| Links(bs, path, from, to);
    assert path[0] in bs && path[0 + 1] in bs[path[0]];
    assert Links(bs, path[1..], path[1], to);
  }

  /** The walk yields exactly the identifiers that are reachable through stored blocks but not stored. */
  lemma {:induction false} MissingIsReachable(bs: Store, rank: Cid -> nat, from: Cid, c: Cid)
    requires Acyclic(bs, rank)
    ensures c in MissingBelow(bs, rank, from) <==> c !in bs && Reachable(bs, from, c)
    decreases rank(from), 1, 0
  {
    if from in bs {
      MissingBelowRefs(bs, rank, from, bs[from], c);
      if c in MissingBelow(bs, rank, from) {
        var r :| r in bs[from] && c !in bs && Reachable(bs, r, c);
        ReachableVia(bs, from, r, c);
      }
      if c !in bs && Reachable(bs, from, c) {
        ReachableSplit(bs, from, c);
      }
    } else {
      ReachableSelf(bs, from);
      if Reachable(bs, from, c) && from != c {
        ReachableSplit(bs, from, c);
      }
    }
  }

  lemma {:induction false} MissingBelowRefs(bs: Store, rank: Cid -> nat, parent: Cid, refs: seq<Cid>, c: Cid)
    requires Acyclic(bs, rank) && forall r :: r in refs ==> rank(r) < rank(parent)
    ensures c in MissingBelowAll(bs, rank, parent, refs) <==> exists r :: r in refs && c !in bs && Reachable(bs, r, c)
    decreases rank(parent), 0, |refs|
  {
    if refs == [] {
    } else {
      var last, front := refs[|refs| - 1], refs[..|refs| - 1];
      MissingIsReachable(bs, rank, last, c);
      MissingBelowRefs(bs, rank, parent, front, c);
      assert refs == front + [last];
    }
  }
}
