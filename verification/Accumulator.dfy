/**
The accumulator actor: an append-only log whose peaks and tree nodes live in a
content-addressed block store, and whose leaves are fetched by walking from a peak.
*/
module Accumulator {
  import opened Bits
  import opened MountainRange
  import opened Eigentree
  import opened Outcomes

  /** Content identifiers are numbered; zero stands for the default one. */
  type Cid = nat

  const DEFAULT_CID: Cid := 0

  /** A stored object, or the ordered pair of identifiers that makes up an inner node. */
  datatype Block = LeafBlock(obj: Object) | PairBlock(left: Cid, right: Cid)

  type Hash = Block -> Cid

  /** The assumption on the hash function: no two blocks share an identifier. */
  ghost predicate CollisionFree(hash: Hash)
  {
    forall a, b :: hash(a) == hash(b) ==> a == b
  }

  // ---- Identifiers of trees, and trees in a store ----

  function BlockOf(hash: Hash, t: Tree): Block
    decreases t, 0
  {
    match t
    case Leaf(o) => LeafBlock(o)
    case Node(l, r) => PairBlock(Digest(hash, l), Digest(hash, r))
  }

  function Digest(hash: Hash, t: Tree): Cid
    decreases t, 1
  {
    hash(BlockOf(hash, t))
  }

  function Digests(hash: Hash, ts: seq<Tree>): (cids: seq<Cid>)
    ensures |cids| == |ts|
  {
    seq(|ts|, i requires 0 <= i < |ts| => Digest(hash, ts[i]))
  }

  /** Every node of the tree is in the store, under its identifier. */
  predicate Stored(hash: Hash, blocks: map<Cid, Block>, t: Tree)
  {
    && Digest(hash, t) in blocks
    && blocks[Digest(hash, t)] == BlockOf(hash, t)
    && (t.Node? ==> Stored(hash, blocks, t.left) && Stored(hash, blocks, t.right))
  }

  predicate AllStored(hash: Hash, blocks: map<Cid, Block>, ts: seq<Tree>)
  {
    forall t :: t in ts ==> Stored(hash, blocks, t)
  }

  /** The later store still has every block of the earlier one. */
  predicate Grows(before: map<Cid, Block>, after: map<Cid, Block>)
  {
    forall c :: c in before ==> c in after && after[c] == before[c]
  }

  lemma {:induction false} StoredGrows(hash: Hash, before: map<Cid, Block>, after: map<Cid, Block>, t: Tree)
    requires Grows(before, after) && Stored(hash, before, t)
    ensures Stored(hash, after, t)
  {
    if t.Leaf? {
    } else {
      StoredGrows(hash, before, after, t.left);
      StoredGrows(hash, before, after, t.right);
    }
  }

  lemma AllStoredGrows(hash: Hash, before: map<Cid, Block>, after: map<Cid, Block>, ts: seq<Tree>)
    requires Grows(before, after) && AllStored(hash, before, ts)
    ensures AllStored(hash, after, ts)
  {
    forall t | t in ts
      ensures Stored(hash, after, t)
    {
      StoredGrows(hash, before, after, t);
    }
  }

  /** A block store, which files every block under the hash of its contents. */
  class Blockstore {
    const hash: Hash
    var blocks: map<Cid, Block>

    ghost predicate Valid()
      reads this
    {
      CollisionFree(hash) && forall c :: c in blocks ==> hash(blocks[c]) == c
    }

    constructor (hash: Hash)
      requires CollisionFree(hash)
      ensures Valid() && this.hash == hash && blocks == map[]
    {
      this.hash := hash;
      blocks := map[];
    }

    method Put(b: Block) returns (cid: Cid)
      requires Valid()
      modifies this
      ensures Valid() && Grows(old(blocks), blocks)
      ensures cid == hash(b) && blocks == old(blocks)[cid := b]
    {
      cid := hash(b);
      blocks := blocks[cid := b];
    }
  }

  // ---- Operations on the peaks ----

  function HashPair(hash: Hash, left: Option<Cid>, right: Option<Cid>): Result<Cid>
  {
    if left.Some? && right.Some? then Ok(hash(PairBlock(left.value, right.value))) else Err
  }

  method HashAndPutPair(store: Blockstore, left: Option<Cid>, right: Option<Cid>) returns (r: Result<Cid>)
    requires store.Valid()
    modifies store
    ensures store.Valid() && Grows(old(store.blocks), store.blocks)
    ensures r == HashPair(store.hash, left, right)
    ensures r.Ok? ==> store.blocks == old(store.blocks)[r.value := PairBlock(left.value, right.value)]
    ensures r.Err? ==> store.blocks == old(store.blocks)
  {
    if left.Some? && right.Some? {
      var cid := store.Put(PairBlock(left.value, right.value));
      r := Ok(cid);
    } else {
      r := Err;
    }
  }

  /**
  Midway through a push: the stored peaks are those of a row of equally high trees, followed by a tree of
  the same height that still has to be added to the row.
  */
  ghost predicate Carrying(hash: Hash, blocks: map<Cid, Block>, peaks: seq<Cid>, row: seq<Tree>, carry: Tree)
  {
    && peaks == Digests(hash, Forest(row)) + [Digest(hash, carry)]
    && AllStored(hash, blocks, Forest(row))
    && Stored(hash, blocks, carry)
  }

  /** A merge finds two peaks to pop, and leaves the same situation one level higher. */
  lemma MergeStep(hash: Hash, before: map<Cid, Block>, after: map<Cid, Block>,
                  peaks: seq<Cid>, row: seq<Tree>, carry: Tree)
    requires |row| % 2 == 1 && Carrying(hash, before, peaks, row, carry)
    ensures |peaks| >= 2
    ensures var left, right := peaks[|peaks| - 2], peaks[|peaks| - 1];
            var cid := hash(PairBlock(left, right));
            Grows(before, after) && cid in after && after[cid] == PairBlock(left, right) ==>
              Carrying(hash, after, peaks[..|peaks| - 2] + [cid], PairUp(row), Node(row[|row| - 1], carry))
  {
    var last, above := row[|row| - 1], Forest(PairUp(row));
    ForestAppendOdd(row, carry);
    assert Forest(row)[|above|] == last;
    assert peaks[..|peaks| - 2] == Digests(hash, above);
    assert peaks[|peaks| - 2] == Digest(hash, last);
    if Grows(before, after) {
      MergedStored(hash, before, after, above, last, carry);
    }
  }

  lemma MergedStored(hash: Hash, before: map<Cid, Block>, after: map<Cid, Block>,
                     above: seq<Tree>, left: Tree, right: Tree)
    requires Grows(before, after)
    requires AllStored(hash, before, above + [left]) && Stored(hash, before, right)
    ensures AllStored(hash, after, above) && Stored(hash, after, left) && Stored(hash, after, right)
  {
    AllStoredGrows(hash, before, after, above + [left]);
    assert left in above + [left];
    assert forall t :: t in above ==> t in above + [left];
    StoredGrows(hash, before, after, right);
  }

  lemma PushFinished(hash: Hash, blocks: map<Cid, Block>, peaks: seq<Cid>, row: seq<Tree>, carry: Tree)
    requires |row| % 2 == 0 && Carrying(hash, blocks, peaks, row, carry)
    ensures peaks == Digests(hash, Forest(row + [carry]))
    ensures AllStored(hash, blocks, Forest(row + [carry]))
  {
    ForestAppendEven(row, carry);
  }

  lemma PushStarted(hash: Hash, before: map<Cid, Block>, after: map<Cid, Block>, objs: seq<Object>, obj: Object)
    requires AllStored(hash, before, Peaks(objs)) && Grows(before, after)
    requires Stored(hash, after, Leaf(obj))
    ensures Carrying(hash, after, Digests(hash, Peaks(objs)) + [Digest(hash, Leaf(obj))], Singletons(objs), Leaf(obj))
    ensures Forest(Singletons(objs) + [Leaf(obj)]) == Peaks(objs + [obj])
  {
    AllStoredGrows(hash, before, after, Peaks(objs));
    assert Singletons(objs) + [Leaf(obj)] == Singletons(objs + [obj]);
  }

  /** Pops the last two peaks and pushes their hash. */
  method MergeLastTwo(store: Blockstore, oldPeaks: seq<Cid>, ghost row: seq<Tree>, ghost carry: Tree)
    returns (r: Result<seq<Cid>>)
    requires store.Valid()
    requires |row| % 2 == 1 && Carrying(store.hash, store.blocks, oldPeaks, row, carry)
    modifies store
    ensures store.Valid() && Grows(old(store.blocks), store.blocks)
    ensures r.Ok? && Carrying(store.hash, store.blocks, r.value, PairUp(row), Node(row[|row| - 1], carry))
  {
    var peaks := oldPeaks;
    MergeStep(store.hash, store.blocks, store.blocks, peaks, row, carry);
    var right := Some(peaks[|peaks| - 1]);
    peaks := peaks[..|peaks| - 1];
    var left := Some(peaks[|peaks| - 1]);
    peaks := peaks[..|peaks| - 1];
    var merged := HashAndPutPair(store, left, right);
    if merged.Err? {
      return Err;
    }
    MergeStep(store.hash, old(store.blocks), store.blocks, oldPeaks, row, carry);
    assert peaks == oldPeaks[..|oldPeaks| - 2];
    r := Ok(peaks + [merged.value]);
  }

  /** Adds a leaf and merges the last two peaks once for each trailing one-bit of the old leaf count. */
  method PushLeaf(store: Blockstore, leafCount: u64, oldPeaks: seq<Cid>, obj: Object, ghost objs: seq<Object>)
    returns (r: Result<seq<Cid>>)
    requires store.Valid()
    requires leafCount == |objs| && oldPeaks == Digests(store.hash, Peaks(objs))
    requires AllStored(store.hash, store.blocks, Peaks(objs))
    modifies store
    ensures store.Valid() && Grows(old(store.blocks), store.blocks)
    ensures r == Ok(Digests(store.hash, Peaks(objs + [obj])))
    ensures AllStored(store.hash, store.blocks, Peaks(objs + [obj]))
  {
    var leaf := store.Put(LeafBlock(obj));
    var peaks := oldPeaks + [leaf];
    var newPeaks := TrailingZeros(Not(leafCount));

    ghost var row, carry := Singletons(objs), Leaf(obj);
    TrailingZerosOfNot(leafCount);
    PushStarted(store.hash, old(store.blocks), store.blocks, objs, obj);
    while newPeaks > 0
      invariant store.Valid() && Grows(old(store.blocks), store.blocks)
      invariant newPeaks == TrailingOnes(|row|)
      invariant Carrying(store.hash, store.blocks, peaks, row, carry)
      invariant Forest(row + [carry]) == Peaks(objs + [obj])
      decreases newPeaks
    {
      ForestAppendOdd(row, carry);
      var merged := MergeLastTwo(store, peaks, row, carry);
      if merged.Err? {
        return Err;
      }
      peaks := merged.value;
      row, carry := PairUp(row), Node(row[|row| - 1], carry);
      newPeaks := newPeaks - 1;
    }
    PushFinished(store.hash, store.blocks, peaks, row, carry);
    r := Ok(peaks);
  }

  /** The root commitment: the peaks folded from the right. */
  function Bag(hash: Hash, peaks: seq<Cid>): Cid
  {
    if peaks == [] then DEFAULT_CID
    else if |peaks| == 1 then peaks[0]
    else hash(PairBlock(peaks[0], Bag(hash, peaks[1..])))
  }

  method BagPeaks(hash: Hash, peaks: seq<Cid>) returns (r: Result<Cid>)
    ensures r == Ok(Bag(hash, peaks))
  {
    var n := |peaks|;
    if n == 0 {
      return Ok(DEFAULT_CID);
    }
    if n == 1 {
      return Ok(peaks[0]);
    }
    r := HashPair(hash, Some(peaks[n - 2]), Some(peaks[n - 1]));
    assert peaks[n - 2..][1..] == [peaks[n - 1]];
    for i := 2 to n
      invariant r == Ok(Bag(hash, peaks[n - i..]))
    {
      assert peaks[n - 1 - i..][1..] == peaks[n - i..];
      r := HashPair(hash, Some(peaks[n - 1 - i]), Some(r.value));
    }
    assert peaks[0..] == peaks;
  }

  /** The root of the accumulator that holds these objects. */
  function Root(hash: Hash, objs: seq<Object>): Cid
  {
    Bag(hash, Digests(hash, Peaks(objs)))
  }

  lemma {:induction false} BagIsDigest(hash: Hash, ts: seq<Tree>)
    requires ts != []
    ensures Bag(hash, Digests(hash, ts)) == Digest(hash, Bagged(ts))
  {
    if |ts| == 1 {
    } else {
      BagIsDigest(hash, ts[1..]);
      assert Digests(hash, ts)[1..] == Digests(hash, ts[1..]);
    }
  }

  lemma {:induction false} DigestInjective(hash: Hash, s: Tree, t: Tree)
    requires CollisionFree(hash) && Digest(hash, s) == Digest(hash, t)
    ensures s == t
  {
    assert BlockOf(hash, s) == BlockOf(hash, t);
    if s.Leaf? {
    } else {
      DigestInjective(hash, s.left, t.left);
      DigestInjective(hash, s.right, t.right);
    }
  }

  /**
  The root commits to the whole log: without a hash collision, two non-empty accumulators agree on
  their roots only if they hold the same objects in the same order. The leaf counts need not be known.
  */
  lemma RootCommits(hash: Hash, a: seq<Object>, b: seq<Object>)
    requires CollisionFree(hash) && (a == [] <==> b == [])
    ensures Root(hash, a) == Root(hash, b) <==> a == b
  {
    if a != [] && Root(hash, a) == Root(hash, b) {
      BaggedPeaksFrontier(a);
      BaggedPeaksFrontier(b);
      BagIsDigest(hash, Peaks(a));
      BagIsDigest(hash, Peaks(b));
      DigestInjective(hash, Bagged(Peaks(a)), Bagged(Peaks(b)));
    }
  }

  // ---- Fetching a leaf ----

  function GetPair(blocks: map<Cid, Block>, cid: Cid): Result<(Cid, Cid)>
  {
    if cid in blocks && blocks[cid].PairBlock? then Ok((blocks[cid].left, blocks[cid].right)) else Err
  }

  function GetLeaf(blocks: map<Cid, Block>, cid: Cid): Result<Object>
  {
    if cid in blocks && blocks[cid].LeafBlock? then Ok(blocks[cid].obj) else Err
  }

  function Pick(pair: (Cid, Cid), bit: nat): Cid
  {
    if bit == 0 then pair.0 else pair.1
  }

  /** The leaf below `cid` that the low `height` bits of `path` lead to, highest bit first. */
  function Walk(blocks: map<Cid, Block>, cid: Cid, height: nat, path: nat): Result<Object>
    decreases height
  {
    if height == 0 then GetLeaf(blocks, cid)
    else
      match GetPair(blocks, cid)
      case Err => Err
      case Ok(pair) => Walk(blocks, Pick(pair, Shr(path, height - 1) % 2), height - 1, path)
  }

  /** The leaf at an index, for any store and any peaks, well formed or not. */
  function Lookup(blocks: map<Cid, Block>, leafIndex: u64, leafCount: u64, peaks: seq<Cid>): Result<Object>
  {
    match PathForEigenRoot(leafIndex, leafCount)
    case Err => Err
    case Ok((path, eigenIndex)) =>
      if eigenIndex >= |peaks| then Err
      else Walk(blocks, peaks[eigenIndex], BitLength(path) - 1, path)
  }

  /** The identifiers passed on the way down: each is that of a pair, and the next one is the side the bit says. */
  predicate IsTrail(blocks: map<Cid, Block>, trail: seq<Cid>, height: nat, path: nat)
  {
    && |trail| == height + 1
    && forall k :: 0 <= k < height ==>
         && trail[k] in blocks && blocks[trail[k]].PairBlock?
         && trail[k + 1] == if Shr(path, height - 1 - k) % 2 == 0 then blocks[trail[k]].left else blocks[trail[k]].right
  }

  /** A trail from an identifier that ends at a stored object. */
  predicate LeadsTo(blocks: map<Cid, Block>, trail: seq<Cid>, cid: Cid, height: nat, path: nat, obj: Object)
  {
    && IsTrail(blocks, trail, height, path) && trail[0] == cid
    && trail[height] in blocks && blocks[trail[height]] == LeafBlock(obj)
  }

  ghost predicate Reaches(blocks: map<Cid, Block>, cid: Cid, height: nat, path: nat, obj: Object)
  {
    exists trail :: LeadsTo(blocks, trail, cid, height, path, obj)
  }

  /** In any store a walk finds an object exactly if there is a trail to it; in all other cases it fails. */
  lemma {:induction false} WalkExactly(blocks: map<Cid, Block>, cid: Cid, height: nat, path: nat, obj: Object)
    ensures Walk(blocks, cid, height, path) == Ok(obj) <==>
            Reaches(blocks, cid, height, path, obj)
    decreases height
  {
    if height == 0 {
      assert Walk(blocks, cid, 0, path) == Ok(obj) ==> LeadsTo(blocks, [cid], cid, 0, path, obj);
    } else {
      if GetPair(blocks, cid).Ok? {
        WalkExactly(blocks, Pick(GetPair(blocks, cid).value, Shr(path, height - 1) % 2), height - 1, path, obj);
      }
      if Walk(blocks, cid, height, path) == Ok(obj) {
        var next := Pick(GetPair(blocks, cid).value, Shr(path, height - 1) % 2);
        var trail :| LeadsTo(blocks, trail, next, height - 1, path, obj);
        TrailExtended(blocks, trail, cid, height, path, obj);
      }
      if Reaches(blocks, cid, height, path, obj) {
        var trail :| LeadsTo(blocks, trail, cid, height, path, obj);
        assert trail[0 + 1] == trail[1..][0];
        assert LeadsTo(blocks, trail[1..], trail[1], height - 1, path, obj);
      }
    }
  }

  lemma TrailExtended(blocks: map<Cid, Block>, trail: seq<Cid>, cid: Cid, height: nat, path: nat, obj: Object)
    requires height > 0 && GetPair(blocks, cid).Ok?
    requires LeadsTo(blocks, trail, Pick(GetPair(blocks, cid).value, Shr(path, height - 1) % 2), height - 1, path, obj)
    ensures LeadsTo(blocks, [cid] + trail, cid, height, path, obj)
  {
  }

  /** In any store, with any peaks, what is found at an index is at the end of the trail its address describes. */
  lemma LookupExactly(blocks: map<Cid, Block>, i: u64, n: u64, peaks: seq<Cid>, obj: Object)
    ensures Lookup(blocks, i, n, peaks) == Ok(obj) <==>
            && i < n
            && var (path, peak) := PathForEigenRoot(i, n).value;
               peak < |peaks| && Reaches(blocks, peaks[peak], PeakHeights(n)[peak], path, obj)
  {
    if i < n {
      var (path, peak) := PathForEigenRoot(i, n).value;
      BitLengthBetween(path, PeakHeights(n)[peak]);
      if peak < |peaks| {
        WalkExactly(blocks, peaks[peak], PeakHeights(n)[peak], path, obj);
        assert Lookup(blocks, i, n, peaks) == Walk(blocks, peaks[peak], PeakHeights(n)[peak], path);
      }
    }
  }

  /** Walks from a peak to a leaf, one pair of identifiers at a time. */
  method WalkDown(blocks: map<Cid, Block>, peak: Cid, path: u64) returns (r: Result<Object>)
    requires path > 0
    ensures r == Walk(blocks, peak, BitLength(path) - 1, path)
  {
    if path == 1 {
      return GetLeaf(blocks, peak);
    }
    assert BitLength(path) >= 2;
    var pair := GetPair(blocks, peak);
    if pair.Err? {
      return Err;
    }
    var significantBits := 64 - LeadingZeros(path);
    for i := 1 to significantBits - 1
      invariant pair.Ok?
      invariant Walk(blocks, peak, BitLength(path) - 1, path)
             == Walk(blocks, Pick(pair.value, Shr(path, significantBits - i - 1) % 2), significantBits - i - 1, path)
    {
      var bit := Shr(path, significantBits - i - 1) % 2;
      var cid := Pick(pair.value, bit);
      pair := GetPair(blocks, cid);
      if pair.Err? {
        return Err;
      }
    }
    var bit := path % 2;
    r := GetLeaf(blocks, Pick(pair.value, bit));
  }

  /** Fetches the leaf at an index. */
  method GetAt(blocks: map<Cid, Block>, leafIndex: u64, leafCount: u64, peaks: seq<Cid>)
    returns (r: Result<Object>)
    ensures r == Lookup(blocks, leafIndex, leafCount, peaks)
  {
    var address := PathForEigenRoot(leafIndex, leafCount);
    if address.Err? {
      return Err;
    }
    var (path, eigenIndex) := address.value;
    if eigenIndex >= |peaks| {
      return Err;
    }
    r := WalkDown(blocks, peaks[eigenIndex], path);
  }

  lemma DoubleProduct(q: nat, p: nat)
    ensures q * (2 * p) == 2 * (q * p) == (2 * q) * p
    ensures (2 * q + 1) * p == 2 * (q * p) + p
  {
  }

  lemma {:induction false} ShrSplit(q: nat, r: nat, k: nat)
    requires r < Pow2(k)
    ensures Shr(q * Pow2(k) + r, k) == q
    decreases k
  {
    if k == 0 {
    } else {
      ShrSplit(q, r / 2, k - 1);
      DoubleProduct(q, Pow2(k - 1));
      assert (q * Pow2(k) + r) / 2 == q * Pow2(k - 1) + r / 2;
    }
  }

  lemma {:induction false} BitLengthBetween(a: nat, height: nat)
    requires Pow2(height) <= a < 2 * Pow2(height)
    ensures BitLength(a) == height + 1
  {
    if height == 0 {
    } else {
      BitLengthBetween(a / 2, height - 1);
    }
  }

  /** Reading one more bit of the path: an offset in the lower half gives a zero, in the upper half a one. */
  lemma NextBit(path: nat, height: nat, q: nat, offset: nat, q': nat, offset': nat)
    requires path == q * Pow2(height + 1) + offset && offset' < Pow2(height)
    requires (q' == 2 * q && offset == offset') || (q' == 2 * q + 1 && offset == offset' + Pow2(height))
    ensures path == q' * Pow2(height) + offset'
    ensures Shr(path, height) == q' && Shr(path, height) % 2 == q' - 2 * q
  {
    DoubleProduct(q, Pow2(height));
    ShrSplit(q', offset', height);
  }

  lemma FrontierHalves(t: Tree, height: nat, offset: nat)
    requires t.Node? && Perfect(t, height) && offset < Pow2(height)
    ensures var half := Pow2(height - 1);
            && |Frontier(t)| == Pow2(height) && |Frontier(t.left)| == |Frontier(t.right)| == half
            && Frontier(t)[offset]
               == if offset < half then Frontier(t.left)[offset] else Frontier(t.right)[offset - half]
  {
    PerfectSize(t, height);
    PerfectSize(t.left, height - 1);
    PerfectSize(t.right, height - 1);
  }

  lemma WalkStep(hash: Hash, blocks: map<Cid, Block>, t: Tree, height: nat, path: nat)
    requires t.Node? && height > 0 && Stored(hash, blocks, t)
    ensures var child := if Shr(path, height - 1) % 2 == 0 then t.left else t.right;
            Walk(blocks, Digest(hash, t), height, path) == Walk(blocks, Digest(hash, child), height - 1, path)
  {
  }

  /** Walking a stored perfect tree reaches the leaf at the offset the low bits of the path spell. */
  lemma {:induction false} WalkReaches(hash: Hash, blocks: map<Cid, Block>, t: Tree, height: nat,
                                       path: nat, q: nat, offset: nat)
    requires Perfect(t, height) && Stored(hash, blocks, t)
    requires path == q * Pow2(height) + offset && offset < Pow2(height)
    ensures |Frontier(t)| == Pow2(height)
    ensures Walk(blocks, Digest(hash, t), height, path) == Ok(Frontier(t)[offset])
  {
    PerfectSize(t, height);
    if t.Leaf? {
    } else {
      FrontierHalves(t, height, offset);
      WalkStep(hash, blocks, t, height, path);
      var half := Pow2(height - 1);
      if offset < half {
        NextBit(path, height - 1, q, offset, 2 * q, offset);
        WalkReaches(hash, blocks, t.left, height - 1, path, 2 * q, offset);
      } else {
        NextBit(path, height - 1, q, offset, 2 * q + 1, offset - half);
        WalkReaches(hash, blocks, t.right, height - 1, path, 2 * q + 1, offset - half);
      }
    }
  }

  lemma PeakReaches(hash: Hash, blocks: map<Cid, Block>, t: Tree, height: nat, path: nat, offset: nat)
    requires Perfect(t, height) && Stored(hash, blocks, t) && path == Pow2(height) + offset && offset < Pow2(height)
    ensures |Frontier(t)| == Pow2(height)
    ensures Walk(blocks, Digest(hash, t), BitLength(path) - 1, path) == Ok(Frontier(t)[offset])
  {
    BitLengthBetween(path, height);
    WalkReaches(hash, blocks, t, height, path, 1, offset);
  }

  /** The bit-trick lookup agrees with the plain sequence of pushed objects. */
  lemma LookupRefinesSequence(hash: Hash, blocks: map<Cid, Block>, objs: seq<Object>, i: u64)
    requires |objs| <= U64_MAX && AllStored(hash, blocks, Peaks(objs))
    ensures Lookup(blocks, i, |objs|, Digests(hash, Peaks(objs))) == if i < |objs| then Ok(objs[i]) else Err
  {
    if i < |objs| {
      var (path, peak) := PathForEigenRoot(i, |objs|).value;
      PeaksShape(objs, peak);
      var height := PeakHeights(|objs|)[peak];
      var offset := i - PeakStart(|objs|, peak);
      assert Peaks(objs)[peak] in Peaks(objs);
      PeakReaches(hash, blocks, Peaks(objs)[peak], height, path, offset);
      assert Frontier(Peaks(objs)[peak])[offset] == objs[i];
    }
  }

  /** What an accumulator answers for an index does not change when it grows and its store grows. */
  lemma LookupStable(hash: Hash, before: map<Cid, Block>, after: map<Cid, Block>,
                     objs: seq<Object>, later: seq<Object>, i: u64)
    requires i < |objs| && |objs + later| <= U64_MAX
    requires AllStored(hash, before, Peaks(objs)) && AllStored(hash, after, Peaks(objs + later))
    ensures Lookup(after, i, |objs + later|, Digests(hash, Peaks(objs + later)))
         == Lookup(before, i, |objs|, Digests(hash, Peaks(objs)))
  {
    LookupRefinesSequence(hash, before, objs, i);
    LookupRefinesSequence(hash, after, objs + later, i);
  }

  // ---- The actor state ----

  datatype PushReturn = PushReturn(root: Cid, index: u64)

  class State {
    var peaks: seq<Cid>
    var leafCount: u64
    /** Everything pushed so far, in order. */
    ghost var log: seq<Object>

    ghost predicate Valid(store: Blockstore)
      reads this, store
    {
      && leafCount == |log|
      && peaks == Digests(store.hash, Peaks(log))
      && AllStored(store.hash, store.blocks, Peaks(log))
    }

    constructor (store: Blockstore)
      ensures Valid(store) && log == []
    {
      peaks := [];
      leafCount := 0;
      log := [];
    }

    method PeakCount(ghost store: Blockstore) returns (count: nat)
      requires Valid(store)
      ensures count == |peaks|
    {
      ForestShape(Singletons(log), 0);
      count := CountOnes(leafCount);
    }

    method Push(store: Blockstore, obj: Object) returns (r: Result<PushReturn>)
      requires store.Valid() && Valid(store)
      requires leafCount < U64_MAX
      modifies this, store
      ensures store.Valid() && Valid(store) && Grows(old(store.blocks), store.blocks)
      ensures log == old(log) + [obj]
      ensures r == Ok(PushReturn(Root(store.hash, log), old(leafCount)))
    {
      var pushed := PushLeaf(store, leafCount, peaks, obj, log);
      if pushed.Err? {
        return Err;
      }
      peaks := pushed.value;
      leafCount := leafCount + 1;
      log := log + [obj];
      var root := BagPeaks(store.hash, peaks);
      if root.Err? {
        return Err;
      }
      r := Ok(PushReturn(root.value, leafCount - 1));
    }

    method GetRoot(store: Blockstore) returns (r: Result<Cid>)
      requires Valid(store)
      ensures r == Ok(Root(store.hash, log)) && (log == [] ==> r == Ok(DEFAULT_CID))
    {
      r := BagPeaks(store.hash, peaks);
    }

    method GetLeafAt(store: Blockstore, index: u64) returns (r: Option<Object>)
      requires Valid(store)
      ensures r == if index < |log| then Some(log[index]) else None
    {
      var leaf := GetAt(store.blocks, index, leafCount, peaks);
      LookupRefinesSequence(store.hash, store.blocks, log, index);
      r := match leaf case Ok(o) => Some(o) case Err => None;
    }
  }
}
