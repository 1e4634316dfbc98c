/**
The mathematics behind the accumulator: a Merkle Mountain Range is a forest of perfect
trees, one for each one-bit of the number of leaves, tallest first.
*/
module MountainRange {
  import opened Bits

  /** Whatever is pushed into the accumulator. */
  type Object(==, !new)

  datatype Tree = Leaf(obj: Object) | Node(left: Tree, right: Tree)

  /** A tree of the given height in which every leaf has the same depth. */
  predicate Perfect(t: Tree, height: nat)
  {
    match t
    case Leaf(_) => height == 0
    case Node(l, r) => height > 0 && Perfect(l, height - 1) && Perfect(r, height - 1)
  }

  /** The leaves of a tree, from left to right. */
  function Frontier(t: Tree): seq<Object>
  {
    match t
    case Leaf(o) => [o]
    case Node(l, r) => Frontier(l) + Frontier(r)
  }

  lemma {:induction false} PerfectSize(t: Tree, height: nat)
    requires Perfect(t, height)
    ensures |Frontier(t)| == Pow2(height)
  {
    if t.Leaf? {
    } else {
      PerfectSize(t.left, height - 1);
      PerfectSize(t.right, height - 1);
    }
  }

  /** The leaves of a whole range, from left to right. */
  function Leaves(ts: seq<Tree>): seq<Object>
  {
    if ts == [] then [] else Leaves(ts[..|ts| - 1]) + Frontier(ts[|ts| - 1])
  }

  function Singletons(objs: seq<Object>): (ts: seq<Tree>)
    ensures |ts| == |objs|
  {
    seq(|objs|, i requires 0 <= i < |objs| => Leaf(objs[i]))
  }

  /** One level up: joins neighbours in pairs and leaves an odd last tree out. */
  function PairUp(ts: seq<Tree>): (r: seq<Tree>)
    ensures |r| == |ts| / 2
  {
    seq(|ts| / 2, i requires 0 <= i < |ts| / 2 => Node(ts[2 * i], ts[2 * i + 1]))
  }

  function OddOne(ts: seq<Tree>): seq<Tree>
  {
    if |ts| % 2 == 1 then [ts[|ts| - 1]] else []
  }

  /** The mountain range over trees of equal height: each level contributes its odd tree. */
  function Forest(ts: seq<Tree>): seq<Tree>
    decreases |ts|
  {
    if ts == [] then [] else Forest(PairUp(ts)) + OddOne(ts)
  }

  /** The peaks of the accumulator that holds these objects. */
  function Peaks(objs: seq<Object>): seq<Tree>
  {
    Forest(Singletons(objs))
  }

  // ---- Shape: heights of the peaks and what they cover ----

  function Raise(hs: seq<nat>): (r: seq<nat>)
    ensures |r| == |hs|
  {
    seq(|hs|, i requires 0 <= i < |hs| => hs[i] + 1)
  }

  /** Positions of the one-bits of `n`, highest first. */
  function PeakHeights(n: nat): (hs: seq<nat>)
    ensures |hs| == CountOnes(n)
  {
    if n == 0 then [] else Raise(PeakHeights(n / 2)) + if n % 2 == 1 then [0] else []
  }

  function TotalSize(hs: seq<nat>): nat
  {
    if hs == [] then 0 else TotalSize(hs[..|hs| - 1]) + Pow2(hs[|hs| - 1])
  }

  /** How many leaves lie to the left of peak `k`. */
  function PeakStart(n: nat, k: nat): nat
    requires k <= CountOnes(n)
  {
    TotalSize(PeakHeights(n)[..k])
  }

  lemma {:induction false} TotalSizeOfRaise(hs: seq<nat>)
    ensures TotalSize(Raise(hs)) == 2 * TotalSize(hs)
  {
    if hs == [] {
    } else {
      var front := hs[..|hs| - 1];
      TotalSizeOfRaise(front);
      assert Raise(hs)[..|hs| - 1] == Raise(front);
    }
  }

  lemma PeakHeightsPrefix(n: nat, k: nat)
    requires k <= CountOnes(n / 2)
    ensures k <= CountOnes(n) && PeakHeights(n)[..k] == Raise(PeakHeights(n / 2)[..k])
  {
    if n > 0 {
      RaisePrefix(PeakHeights(n / 2), if n % 2 == 1 then [0] else [], k);
    }
  }

  lemma RaisePrefix(hs: seq<nat>, tail: seq<nat>, k: nat)
    requires k <= |hs|
    ensures (Raise(hs) + tail)[..k] == Raise(hs[..k])
  {
  }

  lemma PeakStartDoubles(n: nat, k: nat)
    requires k <= CountOnes(n / 2)
    ensures k <= CountOnes(n) && PeakStart(n, k) == 2 * PeakStart(n / 2, k)
  {
    PeakHeightsPrefix(n, k);
    TotalSizeOfRaise(PeakHeights(n / 2)[..k]);
  }

  /** `PeakHeights` lists exactly the one-bits of `n`, each once and highest first. */
  lemma {:induction false} PeakHeightsAreBits(n: nat, b: nat)
    ensures b in PeakHeights(n) <==> Shr(n, b) % 2 == 1
    ensures forall j, k :: 0 <= j < k < CountOnes(n) ==> PeakHeights(n)[j] > PeakHeights(n)[k]
    decreases n
  {
    if n == 0 {
      ShrZero(b);
    } else {
      var upper := PeakHeights(n / 2);
      PeakHeightsAreBits(n / 2, if b == 0 then 0 else b - 1);
      if b > 0 && b - 1 in upper {
        var i :| 0 <= i < |upper| && upper[i] == b - 1;
        assert PeakHeights(n)[i] == b;
      }
    }
  }

  /** Together the peaks cover all `n` leaves. */
  lemma {:induction false} PeakHeightsTotal(n: nat)
    ensures TotalSize(PeakHeights(n)) == n
  {
    if n == 0 {
    } else {
      var upper := PeakHeights(n / 2);
      PeakHeightsTotal(n / 2);
      TotalSizeOfRaise(upper);
      if n % 2 == 1 {
        assert PeakHeights(n)[..|upper|] == Raise(upper);
      } else {
        assert PeakHeights(n) == Raise(upper);
      }
    }
  }

  lemma PairUpPerfect(ts: seq<Tree>, base: nat)
    requires forall t :: t in ts ==> Perfect(t, base)
    ensures forall t :: t in PairUp(ts) ==> Perfect(t, base + 1)
  {
    forall t | t in PairUp(ts)
      ensures Perfect(t, base + 1)
    {
      var i :| 0 <= i < |PairUp(ts)| && PairUp(ts)[i] == t;
      assert ts[2 * i] in ts && ts[2 * i + 1] in ts;
    }
  }

  lemma {:induction false} ForestSize(ts: seq<Tree>)
    ensures |Forest(ts)| == CountOnes(|ts|)
    decreases |ts|
  {
    if ts == [] {
    } else {
      ForestSize(PairUp(ts));
    }
  }

  lemma PeakHeightsAt(n: nat, k: nat)
    requires k < CountOnes(n)
    ensures PeakHeights(n)[k] == if k < CountOnes(n / 2) then PeakHeights(n / 2)[k] + 1 else 0
  {
  }

  lemma {:induction false} ForestPeak(ts: seq<Tree>, base: nat, k: nat)
    requires k < CountOnes(|ts|) && forall t :: t in ts ==> Perfect(t, base)
    ensures k < |Forest(ts)| && Perfect(Forest(ts)[k], base + PeakHeights(|ts|)[k])
    decreases |ts|
  {
    ForestSize(ts);
    PeakHeightsAt(|ts|, k);
    var upper := Forest(PairUp(ts));
    ForestSize(PairUp(ts));
    if k < |upper| {
      PairUpPerfect(ts, base);
      ForestPeak(PairUp(ts), base + 1, k);
      assert Forest(ts)[k] == upper[k];
    } else {
      assert Forest(ts)[k] == ts[|ts| - 1] && ts[|ts| - 1] in ts;
    }
  }

  /** The peaks over trees of one height: one perfect tree for each one-bit, at that bit's height. */
  lemma ForestShape(ts: seq<Tree>, base: nat)
    requires forall t :: t in ts ==> Perfect(t, base)
    ensures |Forest(ts)| == CountOnes(|ts|)
    ensures forall k :: 0 <= k < |Forest(ts)| ==> Perfect(Forest(ts)[k], base + PeakHeights(|ts|)[k])
  {
    ForestSize(ts);
    forall k | 0 <= k < |Forest(ts)|
      ensures Perfect(Forest(ts)[k], base + PeakHeights(|ts|)[k])
    {
      ForestPeak(ts, base, k);
    }
  }

  lemma Regroup<T>(a: seq<T>, b: seq<T>, c: seq<T>)
    ensures a + b + c == a + (b + c)
  {
  }

  lemma {:induction false} LeavesAppend(ts: seq<Tree>, us: seq<Tree>)
    ensures Leaves(ts + us) == Leaves(ts) + Leaves(us)
    decreases |us|
  {
    if us == [] {
      assert ts + us == ts;
    } else {
      var front, last := us[..|us| - 1], us[|us| - 1];
      LeavesAppend(ts, front);
      assert (ts + us)[..|ts + us| - 1] == ts + front;
      Regroup(Leaves(ts), Leaves(front), Frontier(last));
    }
  }

  lemma LeavesPairUp(ts: seq<Tree>)
    ensures Leaves(PairUp(ts)) + Leaves(OddOne(ts)) == Leaves(ts)
  {
    var even := ts[..|ts| - |ts| % 2];
    LeavesPairUpEven(even);
    assert PairUp(ts) == PairUp(even);
    LeavesAppend(even, OddOne(ts));
    assert even + OddOne(ts) == ts;
  }

  lemma {:induction false} LeavesPairUpEven(ts: seq<Tree>)
    requires |ts| % 2 == 0
    ensures Leaves(PairUp(ts)) == Leaves(ts)
    decreases |ts|
  {
    if ts == [] {
    } else {
      var front, l, r := ts[..|ts| - 2], ts[|ts| - 2], ts[|ts| - 1];
      LeavesPairUpEven(front);
      assert ts == front + [l, r];
      assert PairUp(ts) == PairUp(front) + [Node(l, r)];
      LeavesAppend(front, [l, r]);
      LeavesAppend(PairUp(front), [Node(l, r)]);
      LeavesOfPair(l, r);
    }
  }

  lemma LeavesOfPair(l: Tree, r: Tree)
    ensures Leaves([l, r]) == Leaves([Node(l, r)])
  {
    assert [l, r][..1] == [l];
  }

  /** Grouping trees into mountains neither loses, repeats nor reorders a leaf. */
  lemma {:induction false} ForestLeaves(ts: seq<Tree>)
    ensures Leaves(Forest(ts)) == Leaves(ts)
    decreases |ts|
  {
    if ts == [] {
    } else {
      ForestLeaves(PairUp(ts));
      LeavesAppend(Forest(PairUp(ts)), OddOne(ts));
      LeavesPairUp(ts);
    }
  }

  lemma {:induction false} LeavesOfSingletons(objs: seq<Object>)
    ensures Leaves(Singletons(objs)) == objs
  {
    if objs == [] {
    } else {
      var front := objs[..|objs| - 1];
      LeavesOfSingletons(front);
      assert Singletons(objs)[..|objs| - 1] == Singletons(front);
    }
  }

  lemma PeaksLeaves(objs: seq<Object>)
    ensures Leaves(Peaks(objs)) == objs && |Peaks(objs)| == CountOnes(|objs|)
    ensures forall i :: 0 <= i < |Peaks(objs)| ==> Perfect(Peaks(objs)[i], PeakHeights(|objs|)[i])
  {
    ForestShape(Singletons(objs), 0);
    ForestLeaves(Singletons(objs));
    LeavesOfSingletons(objs);
  }

  /**
  The shape of the accumulator. There is one peak for each one-bit of the number of objects; peak `k` is
  a perfect tree as high as the k-th highest one-bit, over the next two-to-that-height consecutive objects.
  */
  lemma PeaksShape(objs: seq<Object>, k: nat)
    requires k < CountOnes(|objs|)
    ensures |Peaks(objs)| == CountOnes(|objs|)
    ensures var height := PeakHeights(|objs|)[k];
            var start := PeakStart(|objs|, k);
            && Perfect(Peaks(objs)[k], height)
            && start + Pow2(height) <= |objs|
            && Frontier(Peaks(objs)[k]) == objs[start..start + Pow2(height)]
  {
    PeaksLeaves(objs);
    SliceOf(Peaks(objs), PeakHeights(|objs|), objs, k);
  }

  lemma SliceOf(ts: seq<Tree>, hs: seq<nat>, objs: seq<Object>, k: nat)
    requires |ts| == |hs| && k < |ts| && Leaves(ts) == objs
    requires forall i :: 0 <= i < |ts| ==> Perfect(ts[i], hs[i])
    ensures var start := TotalSize(hs[..k]);
            && Perfect(ts[k], hs[k]) && start + Pow2(hs[k]) <= |objs|
            && Frontier(ts[k]) == objs[start..start + Pow2(hs[k])]
  {
    LeavesSlice(ts, hs, k);
  }

  /** In a row of perfect trees, each tree's leaves are the slice its position says. */
  lemma {:induction false} LeavesSlice(ts: seq<Tree>, hs: seq<nat>, k: nat)
    requires |ts| == |hs| && k < |ts|
    requires forall i :: 0 <= i < |ts| ==> Perfect(ts[i], hs[i])
    ensures var start := TotalSize(hs[..k]);
            && |Leaves(ts)| == TotalSize(hs)
            && start + Pow2(hs[k]) <= |Leaves(ts)|
            && Leaves(ts)[start..start + Pow2(hs[k])] == Frontier(ts[k])
    decreases |ts|
  {
    var last := |ts| - 1;
    LeavesSize(ts[..last], hs[..last]);
    PerfectSize(ts[last], hs[last]);
    if k < last {
      LeavesSlice(ts[..last], hs[..last], k);
      assert hs[..last][..k] == hs[..k];
    }
  }

  lemma {:induction false} LeavesSize(ts: seq<Tree>, hs: seq<nat>)
    requires |ts| == |hs| && forall i :: 0 <= i < |ts| ==> Perfect(ts[i], hs[i])
    ensures |Leaves(ts)| == TotalSize(hs)
    decreases |ts|
  {
    if ts == [] {
    } else {
      var last := |ts| - 1;
      LeavesSize(ts[..last], hs[..last]);
      PerfectSize(ts[last], hs[last]);
    }
  }

  // ---- Appending one leaf ----

  /** An even row takes a further tree as a new last peak. */
  lemma ForestAppendEven(ts: seq<Tree>, t: Tree)
    requires |ts| % 2 == 0
    ensures Forest(ts + [t]) == Forest(ts) + [t]
  {
    assert PairUp(ts + [t]) == PairUp(ts);
    if ts == [] {
      assert PairUp(ts) == [];
    }
  }

  lemma PairUpAppend(ts: seq<Tree>, t: Tree)
    requires |ts| % 2 == 1
    ensures PairUp(ts + [t]) == PairUp(ts) + [Node(ts[|ts| - 1], t)]
  {
    var half := |ts| / 2;
    assert (ts + [t])[2 * half] == ts[|ts| - 1];
    forall i | 0 <= i < half
      ensures PairUp(ts + [t])[i] == PairUp(ts)[i]
    {
      assert (ts + [t])[2 * i] == ts[2 * i] && (ts + [t])[2 * i + 1] == ts[2 * i + 1];
    }
  }

  /** An odd row joins a further tree with its last peak, one level up. */
  lemma ForestAppendOdd(ts: seq<Tree>, t: Tree)
    requires |ts| % 2 == 1
    ensures Forest(ts) == Forest(PairUp(ts)) + [ts[|ts| - 1]]
    ensures Forest(ts + [t]) == Forest(PairUp(ts) + [Node(ts[|ts| - 1], t)])
  {
    PairUpAppend(ts, t);
    assert OddOne(ts + [t]) == [];
    assert Forest(ts + [t]) == Forest(PairUp(ts + [t])) + [];
  }

  // ---- Bagging the peaks into one tree ----

  /** Folds the peaks from the right into a single tree. */
  function Bagged(ts: seq<Tree>): Tree
    requires ts != []
  {
    if |ts| == 1 then ts[0] else Node(ts[0], Bagged(ts[1..]))
  }

  lemma {:induction false} BaggedFrontier(ts: seq<Tree>)
    requires ts != []
    ensures Frontier(Bagged(ts)) == Leaves(ts)
  {
    if |ts| == 1 {
      assert ts[..0] == [] && Leaves([]) == [];
    } else {
      BaggedFrontier(ts[1..]);
      LeavesAppend([ts[0]], ts[1..]);
      assert [ts[0]] + ts[1..] == ts;
      assert [ts[0]][..0] == [];
    }
  }

  /** The subtree some steps to the right. */
  function Rightwards(t: Tree, steps: nat): Tree
  {
    if steps == 0 || t.Leaf? then t else Rightwards(t.right, steps - 1)
  }

  /** The bagged peaks hang off a spine that goes right: each peak to the left of all later ones. */
  lemma {:induction false} BaggedSpine(ts: seq<Tree>, k: nat)
    requires k < |ts|
    ensures var t := Rightwards(Bagged(ts), k);
            if k < |ts| - 1 then t.Node? && t.left == ts[k] else t == ts[k]
    decreases k
  {
    if k == 0 {
    } else {
      BaggedSpine(ts[1..], k - 1);
    }
  }

  /** The bagged tree of an accumulator has exactly the pushed objects as its leaves. */
  lemma BaggedPeaksFrontier(objs: seq<Object>)
    requires objs != []
    ensures Peaks(objs) != [] && Frontier(Bagged(Peaks(objs))) == objs
  {
    ForestLeaves(Singletons(objs));
    LeavesOfSingletons(objs);
    BaggedFrontier(Peaks(objs));
  }
}
