/**
The "standard-v1" tree: values are hashed, sorted by hash and made the leaves of a Merkle tree,
and every value remembers the slot its hash ended up in.
*/
module StandardTree {
  import opened MerkleTree
  import opened MultiProofs
  import opened Outcomes
  import opened Sorting

  type Value = seq<string>

  type Encoding = seq<string>

  /** A type that an encoding names, and an item of a value read as such a type. */
  type ParamType(==, !new)
  type Token(==, !new)

  /** The digest of two digests, the reading of a type and of an item, which may fail, and the digest of tokens. */
  datatype Hashing = Hashing(keccak: Keccak, readType: string -> Result<ParamType>,
                             tokenize: (ParamType, string) -> Result<Token>, digest: seq<Token> -> Hash)

  datatype HashedValue = HashedValue(value: Value, valueIndex: nat, hash: Hash)

  datatype IndexedValue = IndexedValue(value: Value, treeIndex: nat)

  datatype Tree = Tree(hashLookup: map<Hash, nat>, tree: seq<Hash>, values: seq<IndexedValue>, leafEncoding: Encoding)

  datatype TreeData = TreeData(format: string, tree: seq<Hash>, values: seq<IndexedValue>, leafEncoding: Encoding)

  datatype LeafType = Number(index: nat) | LeafBytes(value: Value)

  // ---- Hashing values ----

  /** The item of the value for one entry of the encoding. The type is read before the item is looked up. */
  function TokenAt(h: Hashing, value: Value, encoding: Encoding, i: nat): Attempt<Token>
    requires i < |encoding|
  {
    match h.readType(encoding[i])
    case Err => Failed
    case Ok(param) =>
      if i >= |value| then Panicked
      else
        match h.tokenize(param, value[i])
        case Err => Failed
        case Ok(token) => Done(token)
  }

  /** The tokens for the first entries of the encoding, up to the first one that is not done. */
  function Tokens(h: Hashing, value: Value, encoding: Encoding, n: nat): Attempt<seq<Token>>
    requires n <= |encoding|
  {
    if n == 0 then Done([])
    else
      var front := Tokens(h, value, encoding, n - 1);
      if !front.Done? then front
      else
        match TokenAt(h, value, encoding, n - 1)
        case Done(token) => Done(front.value + [token])
        case Failed => Failed
        case Panicked => Panicked
  }

  function LeafHash(h: Hashing, value: Value, encoding: Encoding): Attempt<Hash>
  {
    match Tokens(h, value, encoding, |encoding|)
    case Done(tokens) => Done(h.digest(tokens))
    case Failed => Failed
    case Panicked => Panicked
  }

  function TokenOutcomes(h: Hashing, value: Value, encoding: Encoding, n: nat): seq<Attempt<Token>>
    requires n <= |encoding|
  {
    seq(n, i requires 0 <= i < n => TokenAt(h, value, encoding, i))
  }

  /** One outcome decides for all: the first that is not done. */
  lemma {:induction false} TokensInOrder(h: Hashing, value: Value, encoding: Encoding, n: nat)
    requires n <= |encoding|
    ensures var tokens := Tokens(h, value, encoding, n);
            && (tokens.Done? <==> forall i :: 0 <= i < n ==> TokenAt(h, value, encoding, i).Done?)
            && (tokens.Done? ==> && |tokens.value| == n
                                 && forall i :: 0 <= i < n ==> TokenAt(h, value, encoding, i) == Done(tokens.value[i]))
            && (tokens.Panicked? <==> PanicsFirst(TokenOutcomes(h, value, encoding, n)))
  {
    if n == 0 {
    } else {
      TokensInOrder(h, value, encoding, n - 1);
      var front, last := TokenOutcomes(h, value, encoding, n - 1), TokenAt(h, value, encoding, n - 1);
      assert TokenOutcomes(h, value, encoding, n) == front + [last];
      assert forall i :: 0 <= i < n - 1 ==> front[i] == TokenAt(h, value, encoding, i);
      PanicsFirstStep(front, last);
    }
  }

  lemma PanicsFirstStep<T>(outcomes: seq<Attempt<T>>, last: Attempt<T>)
    ensures PanicsFirst(outcomes + [last]) <==>
            || PanicsFirst(outcomes)
            || (last.Panicked? && forall i :: 0 <= i < |outcomes| ==> outcomes[i].Done?)
  {
    var all := outcomes + [last];
    if PanicsFirst(outcomes) {
      var i :| 0 <= i < |outcomes| && outcomes[i].Panicked? && forall j :: 0 <= j < i ==> outcomes[j].Done?;
      assert all[i].Panicked? && forall j :: 0 <= j < i ==> all[j].Done?;
    }
    if last.Panicked? && forall i :: 0 <= i < |outcomes| ==> outcomes[i].Done? {
      assert all[|outcomes|].Panicked? && forall j :: 0 <= j < |outcomes| ==> all[j].Done?;
    }
    if PanicsFirst(all) {
      var i :| 0 <= i < |all| && all[i].Panicked? && forall j :: 0 <= j < i ==> all[j].Done?;
      if i < |outcomes| {
        assert outcomes[i].Panicked? && forall j :: 0 <= j < i ==> outcomes[j] == all[j];
      } else {
        assert forall j :: 0 <= j < |outcomes| ==> outcomes[j] == all[j];
      }
    }
  }

  /** An entry of the encoding has an item that can be read as its type. */
  predicate Readable(h: Hashing, value: Value, encoding: Encoding, i: nat)
    requires i < |encoding|
  {
    i < |value| && h.readType(encoding[i]).Ok? && h.tokenize(h.readType(encoding[i]).value, value[i]).Ok?
  }

  /**
  Hashing succeeds exactly if every entry of the encoding has a readable item. It panics exactly if the value is
  too short, all its items are readable, and so is the type of the first entry without an item.
  */
  lemma LeafHashExactly(h: Hashing, value: Value, encoding: Encoding)
    ensures LeafHash(h, value, encoding).Done? <==> forall i :: 0 <= i < |encoding| ==> Readable(h, value, encoding, i)
    ensures LeafHash(h, value, encoding).Panicked? <==>
            && |value| < |encoding| && h.readType(encoding[|value|]).Ok?
            && forall i :: 0 <= i < |value| ==> Readable(h, value, encoding, i)
  {
    TokensInOrder(h, value, encoding, |encoding|);
    assert forall i :: 0 <= i < |encoding| ==>
                         (TokenAt(h, value, encoding, i).Done? <==> Readable(h, value, encoding, i));
    var outcomes := TokenOutcomes(h, value, encoding, |encoding|);
    assert forall i :: 0 <= i < |encoding| ==> outcomes[i] == TokenAt(h, value, encoding, i);
    if |value| < |encoding| {
      assert outcomes[|value|].Panicked? <==> h.readType(encoding[|value|]).Ok?;
    }
  }

  /** The hash is the digest of the items, read as the types of the encoding, in the order of the encoding. */
  lemma LeafHashIsDigest(h: Hashing, value: Value, encoding: Encoding, tokens: seq<Token>)
    requires |tokens| == |encoding|
    requires forall i :: 0 <= i < |encoding| ==> && Readable(h, value, encoding, i)
                                                 && h.tokenize(h.readType(encoding[i]).value, value[i]) == Ok(tokens[i])
    ensures LeafHash(h, value, encoding) == Done(h.digest(tokens))
  {
    TokensInOrder(h, value, encoding, |encoding|);
    forall i | 0 <= i < |encoding|
      ensures TokenAt(h, value, encoding, i) == Done(tokens[i])
    {
      assert Readable(h, value, encoding, i);
    }
    assert Tokens(h, value, encoding, |encoding|).value == tokens;
  }

  /** Items beyond the encoding do not count. */
  lemma SurplusIgnored(h: Hashing, value: Value, surplus: Value, encoding: Encoding)
    requires |value| >= |encoding|
    ensures LeafHash(h, value + surplus, encoding) == LeafHash(h, value, encoding)
  {
    TokensAgree(h, value, surplus, encoding, |encoding|);
  }

  lemma {:induction false} TokensAgree(h: Hashing, value: Value, surplus: Value, encoding: Encoding, n: nat)
    requires |value| >= |encoding| >= n
    ensures Tokens(h, value + surplus, encoding, n) == Tokens(h, value, encoding, n)
  {
    if n == 0 {
    } else {
      TokensAgree(h, value, surplus, encoding, n - 1);
    }
  }

  function HashOutcomes(h: Hashing, values: seq<Value>, encoding: Encoding): seq<Attempt<Hash>>
  {
    seq(|values|, i requires 0 <= i < |values| => LeafHash(h, values[i], encoding))
  }

  function Bare(values: seq<IndexedValue>): seq<Value>
  {
    seq(|values|, i requires 0 <= i < |values| => values[i].value)
  }

  predicate Hashable(h: Hashing, values: seq<IndexedValue>, encoding: Encoding)
  {
    forall i :: 0 <= i < |values| ==> LeafHash(h, values[i].value, encoding).Done?
  }

  // ---- The lookup table ----

  /** The table maps the hash of every value to the last value with that hash, and holds nothing else. */
  predicate IsLookup(h: Hashing, values: seq<IndexedValue>, encoding: Encoding, table: map<Hash, nat>)
    requires Hashable(h, values, encoding)
  {
    && (forall i :: 0 <= i < |values| ==> LeafHash(h, values[i].value, encoding).value in table)
    && (forall k :: k in table ==> table[k] < |values| && LeafHash(h, values[table[k]].value, encoding).value == k)
    && (forall i :: 0 <= i < |values| ==> i <= table[LeafHash(h, values[i].value, encoding).value])
  }

  lemma LookupUnique(h: Hashing, values: seq<IndexedValue>, encoding: Encoding, t: map<Hash, nat>, u: map<Hash, nat>)
    requires Hashable(h, values, encoding)
    requires IsLookup(h, values, encoding, t) && IsLookup(h, values, encoding, u)
    ensures t == u
  {
    forall k
      ensures k in t <==> k in u
      ensures k in t && k in u ==> t[k] == u[k]
    {
      if k in t {
        assert LeafHash(h, values[t[k]].value, encoding).value in u;
      }
      if k in u {
        assert LeafHash(h, values[u[k]].value, encoding).value in t;
      }
    }
  }

  method New(h: Hashing, tree: seq<Hash>, values: seq<IndexedValue>, encoding: Encoding) returns (r: Attempt<Tree>)
    ensures r.Done? <==> Hashable(h, values, encoding)
    ensures r.Panicked? <==> PanicsFirst(HashOutcomes(h, Bare(values), encoding))
    ensures r.Done? ==> && r.value == Tree(r.value.hashLookup, tree, values, encoding)
                        && IsLookup(h, values, encoding, r.value.hashLookup)
  {
    var table: map<Hash, nat> := map[];
    for i := 0 to |values|
      invariant Hashable(h, values[..i], encoding) && IsLookup(h, values[..i], encoding, table)
    {
      var hash := LeafHash(h, values[i].value, encoding);
      if !hash.Done? {
        StopsAt(h, values, encoding, i);
        return if hash.Failed? then Failed else Panicked;
      }
      table := table[hash.value := i];
    }
    assert values[..|values|] == values;
    NoneStops(h, values, encoding);
    r := Done(Tree(table, tree, values, encoding));
  }

  lemma StopsAt(h: Hashing, values: seq<IndexedValue>, encoding: Encoding, i: nat)
    requires i < |values| && Hashable(h, values[..i], encoding) && !LeafHash(h, values[i].value, encoding).Done?
    ensures !Hashable(h, values, encoding)
    ensures PanicsFirst(HashOutcomes(h, Bare(values), encoding)) <==> LeafHash(h, values[i].value, encoding).Panicked?
  {
    var outcomes := HashOutcomes(h, Bare(values), encoding);
    assert forall j :: 0 <= j < i ==> outcomes[j] == LeafHash(h, values[..i][j].value, encoding);
    assert outcomes[i] == LeafHash(h, values[i].value, encoding);
  }

  lemma NoneStops(h: Hashing, values: seq<IndexedValue>, encoding: Encoding)
    requires Hashable(h, values, encoding)
    ensures !PanicsFirst(HashOutcomes(h, Bare(values), encoding))
  {
  }

  // ---- Sorting by hash ----

  function HashKey(v: HashedValue): int
  {
    v.hash
  }

  function PositionOf(v: HashedValue): int
  {
    v.valueIndex
  }

  /** Entry `i` is numbered `i`. */
  predicate Numbered(s: seq<HashedValue>)
  {
    forall i :: 0 <= i < |s| ==> s[i].valueIndex == i
  }

  /** A permutation of numbered entries has every number exactly once. */
  lemma NumberedPermutation(s: seq<HashedValue>, t: seq<HashedValue>)
    requires Numbered(s) && multiset(s) == multiset(t)
    ensures |t| == |s|
    ensures forall i :: 0 <= i < |t| ==> t[i].valueIndex < |s| && t[i] == s[t[i].valueIndex]
    ensures forall i, j :: 0 <= i < j < |t| ==> t[i].valueIndex != t[j].valueIndex
    ensures forall v :: 0 <= v < |s| ==> s[v] in t
  {
    PermutationMembers(s, t);
    PermutationDistinct(s, t);
    assert Distinct(s);
    assert forall i :: 0 <= i < |t| ==> t[i] in s;
  }

  // ---- Construction ----

  /** Values and leaf slots correspond one to one, and every slot holds the hash of its value. */
  predicate OneToOne(h: Hashing, t: Tree)
    requires Hashable(h, t.values, t.leafEncoding)
  {
    && |t.tree| == 2 * |t.values| - 1
    && (forall i :: 0 <= i < |t.values| ==>
          && IsLeafNode(|t.tree|, t.values[i].treeIndex)
          && t.tree[t.values[i].treeIndex] == LeafHash(h, t.values[i].value, t.leafEncoding).value)
    && (forall i, j :: 0 <= i < j < |t.values| ==> t.values[i].treeIndex != t.values[j].treeIndex)
    && (forall slot :: |t.values| - 1 <= slot < |t.tree| ==> Occupied(t.values, slot))
  }

  predicate Occupied(values: seq<IndexedValue>, slot: nat)
  {
    exists i :: 0 <= i < |values| && values[i].treeIndex == slot
  }

  /** What `New` guarantees of every tree, loaded or built. */
  predicate Consistent(h: Hashing, t: Tree)
  {
    Hashable(h, t.values, t.leafEncoding) && IsLookup(h, t.values, t.leafEncoding, t.hashLookup)
  }

  /** What `Of` guarantees beyond that. */
  predicate WellFormed(h: Hashing, t: Tree)
  {
    Consistent(h, t) && IsMerkleTree(h.keccak, t.tree) && OneToOne(h, t)
  }

  predicate Ascending(s: seq<Hash>)
  {
    forall i, j :: 0 <= i < j < |s| ==> s[i] <= s[j]
  }

  predicate AllHashable(h: Hashing, values: seq<Value>, encoding: Encoding)
  {
    forall i :: 0 <= i < |values| ==> LeafHash(h, values[i], encoding).Done?
  }

  method HashValues(h: Hashing, values: seq<Value>, encoding: Encoding) returns (r: Attempt<seq<HashedValue>>)
    ensures r.Done? <==> AllHashable(h, values, encoding)
    ensures r.Panicked? <==> PanicsFirst(HashOutcomes(h, values, encoding))
    ensures r.Done? ==>
      && |r.value| == |values| && Numbered(r.value)
      && forall i :: 0 <= i < |values| ==>
           r.value[i].value == values[i] && LeafHash(h, values[i], encoding) == Done(r.value[i].hash)
  {
    var hashed := [];
    ghost var outcomes := HashOutcomes(h, values, encoding);
    for i := 0 to |values|
      invariant |hashed| == i && Numbered(hashed)
      invariant forall j :: 0 <= j < i ==>
                  hashed[j].value == values[j] && outcomes[j] == LeafHash(h, values[j], encoding) == Done(hashed[j].hash)
    {
      var hash := LeafHash(h, values[i], encoding);
      assert outcomes[i] == hash;
      if !hash.Done? {
        return if hash.Failed? then Failed else Panicked;
      }
      hashed := hashed + [HashedValue(values[i], i, hash.value)];
    }
    r := Done(hashed);
  }

  /** Tells every value the slot its hash went to. */
  method AssignSlots(values: seq<Value>, sorted: seq<HashedValue>, treeLength: nat)
    returns (indexed: seq<IndexedValue>)
    requires |sorted| == |values| <= treeLength
    requires forall i :: 0 <= i < |sorted| ==> sorted[i].valueIndex < |values|
    requires forall i, j :: 0 <= i < j < |sorted| ==> sorted[i].valueIndex != sorted[j].valueIndex
    ensures |indexed| == |values|
    ensures forall i :: 0 <= i < |values| ==> indexed[i].value == values[i]
    ensures forall i :: 0 <= i < |sorted| ==> indexed[sorted[i].valueIndex].treeIndex == treeLength - i - 1
  {
    indexed := seq(|values|, i requires 0 <= i < |values| => IndexedValue(values[i], 0));
    for i := 0 to |sorted|
      invariant |indexed| == |values|
      invariant forall j :: 0 <= j < |values| ==> indexed[j].value == values[j]
      invariant forall j :: 0 <= j < i ==> indexed[sorted[j].valueIndex].treeIndex == treeLength - j - 1
    {
      var v := sorted[i].valueIndex;
      indexed := indexed[v := indexed[v].(treeIndex := treeLength - i - 1)];
    }
  }

  /** Slots descend as hashes ascend, and among equal hashes as positions ascend. */
  predicate SlotsDescend(h: Hashing, t: Tree)
    requires Hashable(h, t.values, t.leafEncoding)
  {
    forall i, j :: 0 <= i < |t.values| && 0 <= j < |t.values| ==>
      var a, b := LeafHash(h, t.values[i].value, t.leafEncoding), LeafHash(h, t.values[j].value, t.leafEncoding);
      a.value < b.value || (a.value == b.value && i < j) ==> t.values[i].treeIndex > t.values[j].treeIndex
  }

  lemma PlacesOrdered(sorted: seq<HashedValue>, p: nat, q: nat)
    requires SortedBy(HashKey, sorted) && Stable(HashKey, PositionOf, sorted) && p < |sorted| && q < |sorted|
    requires || sorted[p].hash < sorted[q].hash
             || (sorted[p].hash == sorted[q].hash && sorted[p].valueIndex < sorted[q].valueIndex)
    ensures p < q
  {
  }

  lemma SlotsFollowOrder(h: Hashing, t: Tree, hashed: seq<HashedValue>, sorted: seq<HashedValue>)
    requires Hashable(h, t.values, t.leafEncoding) && Numbered(hashed) && |sorted| == |hashed| == |t.values|
    requires multiset(hashed) == multiset(sorted)
    requires SortedBy(HashKey, sorted) && Stable(HashKey, PositionOf, sorted)
    requires forall v :: 0 <= v < |hashed| ==> hashed[v].hash == LeafHash(h, t.values[v].value, t.leafEncoding).value
    requires forall i :: 0 <= i < |sorted| ==>
               && sorted[i].valueIndex < |t.values|
               && t.values[sorted[i].valueIndex].treeIndex == |t.tree| - i - 1
    ensures SlotsDescend(h, t)
  {
    NumberedPermutation(hashed, sorted);
    forall i, j | 0 <= i < |t.values| && 0 <= j < |t.values|
                  && (hashed[i].hash < hashed[j].hash || (hashed[i].hash == hashed[j].hash && i < j))
      ensures t.values[i].treeIndex > t.values[j].treeIndex
    {
      assert hashed[i] in sorted && hashed[j] in sorted;
      var p :| 0 <= p < |sorted| && sorted[p] == hashed[i];
      var q :| 0 <= q < |sorted| && sorted[q] == hashed[j];
      PlacesOrdered(sorted, p, q);
      assert t.values[sorted[p].valueIndex].treeIndex == |t.tree| - p - 1;
      assert t.values[sorted[q].valueIndex].treeIndex == |t.tree| - q - 1;
    }
  }

  /** Builds the tree over a list of values, which may contain duplicates. */
  method Of(h: Hashing, values: seq<Value>, encoding: Encoding) returns (r: Attempt<Tree>)
    ensures r.Done? <==> values != [] && AllHashable(h, values, encoding)
    ensures r.Panicked? <==> PanicsFirst(HashOutcomes(h, values, encoding))
    ensures r.Done? ==> && WellFormed(h, r.value)
                        && r.value.leafEncoding == encoding
                        && |r.value.values| == |values|
                        && (forall i :: 0 <= i < |values| ==> r.value.values[i].value == values[i])
                        && Ascending(LeavesOf(r.value.tree)) && SlotsDescend(h, r.value)
  {
    var hashed := HashValues(h, values, encoding);
    if !hashed.Done? {
      return if hashed.Failed? then Failed else Panicked;
    }
    var sorted := SortBy(HashKey, hashed.value);
    SortBySorts(HashKey, hashed.value);
    SortByStable(HashKey, PositionOf, hashed.value);
    var tree := MakeMerkleTree(h.keccak, Hashes(sorted));
    if tree.Err? {
      return Failed;
    }
    NumberedPermutation(hashed.value, sorted);
    var indexed := AssignSlots(values, sorted, |tree.value|);
    r := New(h, tree.value, indexed, encoding);
    assert Hashable(h, indexed, encoding);
    OfIsWellFormed(h, r.value, hashed.value, sorted);
  }

  lemma OfIsWellFormed(h: Hashing, t: Tree, hashed: seq<HashedValue>, sorted: seq<HashedValue>)
    requires Consistent(h, t) && Numbered(hashed) && hashed != []
    requires SortedBy(HashKey, sorted) && Stable(HashKey, PositionOf, sorted)
    requires multiset(hashed) == multiset(sorted) && |sorted| == |hashed| == |t.values|
    requires t.tree == Built(h.keccak, Hashes(sorted))
    requires forall v :: 0 <= v < |hashed| ==> hashed[v].hash == LeafHash(h, t.values[v].value, t.leafEncoding).value
    requires forall i :: 0 <= i < |sorted| ==>
               && sorted[i].valueIndex < |t.values|
               && t.values[sorted[i].valueIndex].treeIndex == |t.tree| - i - 1
    ensures WellFormed(h, t) && Ascending(LeavesOf(t.tree)) && SlotsDescend(h, t)
  {
    BuiltIsMerkleTree(h.keccak, Hashes(sorted));
    SlotsOneToOne(h, t, hashed, sorted);
    SlotsFollowOrder(h, t, hashed, sorted);
  }

  function Hashes(s: seq<HashedValue>): (hashes: seq<Hash>)
    ensures |hashes| == |s|
  {
    seq(|s|, i requires 0 <= i < |s| => s[i].hash)
  }

  lemma SlotsOneToOne(h: Hashing, t: Tree, hashed: seq<HashedValue>, sorted: seq<HashedValue>)
    requires Hashable(h, t.values, t.leafEncoding)
    requires Numbered(hashed) && multiset(hashed) == multiset(sorted)
    requires |hashed| == |t.values| && |t.tree| == 2 * |hashed| - 1
    requires forall v :: 0 <= v < |hashed| ==> hashed[v].hash == LeafHash(h, t.values[v].value, t.leafEncoding).value
    requires |sorted| == |hashed| && forall i :: 0 <= i < |sorted| ==>
               && sorted[i].valueIndex < |t.values|
               && t.values[sorted[i].valueIndex].treeIndex == |t.tree| - i - 1
    requires LeavesOf(t.tree) == Hashes(sorted)
    ensures OneToOne(h, t)
  {
    assert forall i :: 0 <= i < |sorted| ==> t.tree[|t.tree| - i - 1] == LeavesOf(t.tree)[i] == sorted[i].hash;
    NumberedPermutation(hashed, sorted);
    forall v | 0 <= v < |t.values|
      ensures exists i :: 0 <= i < |sorted| && sorted[i].valueIndex == v && sorted[i] == hashed[v]
    {
      var i :| 0 <= i < |sorted| && sorted[i] == hashed[v];
    }
    forall slot | |t.values| - 1 <= slot < |t.tree|
      ensures Occupied(t.values, slot)
    {
      var i := sorted[|t.tree| - 1 - slot].valueIndex;
      assert t.values[i].treeIndex == slot;
    }
  }

  // ---- Saving and loading ----

  const FORMAT: string := "standard-v1"

  function Dump(t: Tree): TreeData
  {
    TreeData(FORMAT, t.tree, t.values, t.leafEncoding)
  }

  /** Loading rebuilds the lookup table, so it restores every tree that `New` can have made. */
  method Load(h: Hashing, data: TreeData) returns (r: Attempt<Tree>)
    ensures r.Done? <==> data.format == "standard-v1" && Hashable(h, data.values, data.leafEncoding)
    ensures r.Panicked? <==>
            data.format == FORMAT && PanicsFirst(HashOutcomes(h, Bare(data.values), data.leafEncoding))
    ensures r.Done? ==> Consistent(h, r.value) && Dump(r.value) == data
    ensures forall t :: Consistent(h, t) && data == Dump(t) ==> r == Done(t)
  {
    if data.format != FORMAT {
      return Failed;
    }
    r := New(h, data.tree, data.values, data.leafEncoding);
    forall t | Consistent(h, t) && data == Dump(t)
      ensures r == Done(t)
    {
      LookupUnique(h, t.values, t.leafEncoding, t.hashLookup, r.value.hashLookup);
    }
  }

  // ---- Requests ----

  /** The value exists, and its slot holds its hash. */
  function ValidateValue(h: Hashing, t: Tree, index: nat): Attempt<()>
  {
    if index >= |t.values| || t.values[index].treeIndex >= |t.tree| then Failed
    else
      match LeafHash(h, t.values[index].value, t.leafEncoding)
      case Done(hash) => if hash == t.tree[t.values[index].treeIndex] then Done(()) else Failed
      case Failed => Failed
      case Panicked => Panicked
  }

  /** The index of the requested value; a value given literally is found by its hash. */
  function Resolve(h: Hashing, t: Tree, leaf: LeafType): Attempt<nat>
  {
    match leaf
    case Number(i) => Done(i)
    case LeafBytes(v) =>
      match LeafHash(h, v, t.leafEncoding)
      case Done(hash) => if hash in t.hashLookup then Done(t.hashLookup[hash]) else Failed
      case Failed => Failed
      case Panicked => Panicked
  }

  predicate Resolves(h: Hashing, t: Tree, leaf: LeafType)
  {
    Resolve(h, t, leaf).Done? && Resolve(h, t, leaf).value < |t.values|
  }

  /** The last of the values with a hash. */
  ghost predicate IsLastWith(h: Hashing, t: Tree, hash: Hash, i: nat)
  {
    && i < |t.values| && LeafHash(h, t.values[i].value, t.leafEncoding) == Done(hash)
    && forall j :: i < j < |t.values| ==> LeafHash(h, t.values[j].value, t.leafEncoding) != Done(hash)
  }

  /** The value a request is for: the one of that number, or the last one with the hash of the value given. */
  ghost predicate Names(h: Hashing, t: Tree, leaf: LeafType, i: nat)
  {
    match leaf
    case Number(n) => i == n && n < |t.values|
    case LeafBytes(v) =>
      LeafHash(h, v, t.leafEncoding).Done? && IsLastWith(h, t, LeafHash(h, v, t.leafEncoding).value, i)
  }

  /** The request is for some value. */
  ghost predicate NamesSome(h: Hashing, t: Tree, leaf: LeafType)
  {
    match leaf
    case Number(n) => n < |t.values|
    case LeafBytes(v) =>
      && LeafHash(h, v, t.leafEncoding).Done?
      && exists i :: 0 <= i < |t.values|
                     && LeafHash(h, t.values[i].value, t.leafEncoding) == LeafHash(h, v, t.leafEncoding)
  }

  lemma ResolveNames(h: Hashing, t: Tree, leaf: LeafType)
    requires Consistent(h, t)
    ensures Resolves(h, t, leaf) <==> NamesSome(h, t, leaf)
    ensures forall i: nat :: Names(h, t, leaf, i) <==> Resolve(h, t, leaf) == Done(i) && i < |t.values|
  {
    if leaf.LeafBytes? && LeafHash(h, leaf.value, t.leafEncoding).Done? {
      var hash := LeafHash(h, leaf.value, t.leafEncoding).value;
      if hash in t.hashLookup {
        LookupIsLast(h, t, hash);
      } else {
        assert forall i :: 0 <= i < |t.values| ==> LeafHash(h, t.values[i].value, t.leafEncoding).value in t.hashLookup;
      }
    }
  }

  /** The table holds the last value with a hash, and no other one is the last. */
  lemma LookupIsLast(h: Hashing, t: Tree, hash: Hash)
    requires Consistent(h, t) && hash in t.hashLookup
    ensures forall i: nat :: IsLastWith(h, t, hash, i) <==> i == t.hashLookup[hash]
  {
    forall i: nat
      ensures IsLastWith(h, t, hash, i) <==> i == t.hashLookup[hash]
    {
      if IsLastWith(h, t, hash, i) {
        assert i <= t.hashLookup[LeafHash(h, t.values[i].value, t.leafEncoding).value];
      }
    }
  }

  /** The requested value, or the stored one it refers to, makes hashing panic. */
  predicate HashingPanics(h: Hashing, t: Tree, leaf: LeafType)
  {
    var index := Resolve(h, t, leaf);
    index.Panicked? || (index.Done? && ValidateValue(h, t, index.value).Panicked?)
  }

  /** In any tree, a stored value passes exactly if its slot holds its hash, and panics exactly if hashing it does. */
  lemma ValidateExactly(h: Hashing, t: Tree, index: nat)
    ensures var valid := ValidateValue(h, t, index);
            if index >= |t.values| || t.values[index].treeIndex >= |t.tree| then valid == Failed
            else
              var hash := LeafHash(h, t.values[index].value, t.leafEncoding);
              && (valid.Done? <==> hash == Done(t.tree[t.values[index].treeIndex]))
              && (valid.Panicked? <==> hash.Panicked?)
  {
  }

  /** In a tree that was built or loaded, only a value given literally can. */
  lemma HashingPanicsExactly(h: Hashing, t: Tree, leaf: LeafType)
    requires Consistent(h, t)
    ensures HashingPanics(h, t, leaf) <==>
            && leaf.LeafBytes? && |leaf.value| < |t.leafEncoding| && h.readType(t.leafEncoding[|leaf.value|]).Ok?
            && forall i :: 0 <= i < |leaf.value| ==> Readable(h, leaf.value, t.leafEncoding, i)
  {
    if leaf.LeafBytes? {
      LeafHashExactly(h, leaf.value, t.leafEncoding);
    }
  }

  /** Even on a well-formed tree a request for the empty value panics, unless the encoding is empty or unreadable. */
  lemma EmptyValuePanics(h: Hashing, t: Tree)
    requires t.leafEncoding != [] && h.readType(t.leafEncoding[0]).Ok?
    ensures HashingPanics(h, t, LeafBytes([]))
  {
    LeafHashExactly(h, [], t.leafEncoding);
  }

  /** Proving this slot of the array panics. */
  predicate SlotPanics(size: nat, slot: nat)
  {
    IsLeafNode(size, slot) && slot <= I32_MAX && (slot == I32_MAX || SiblingMissing(size, slot))
  }

  /** The slot of a value holds its hash, is a leaf within range, and has siblings that fold to the root. */
  ghost predicate Provable(h: Hashing, t: Tree, i: nat)
    requires i < |t.values|
  {
    var slot := t.values[i].treeIndex;
    && slot < |t.tree| && LeafHash(h, t.values[i].value, t.leafEncoding) == Done(t.tree[slot])
    && IsLeafNode(|t.tree|, slot) && slot < I32_MAX && !SiblingMissing(|t.tree|, slot)
    && ProcessProof(h.keccak, t.tree[slot], Siblings(t.tree, slot)) == t.tree[0]
  }

  ghost predicate FoldsFrom(h: Hashing, t: Tree, value: Value, proof: seq<Hash>)
  {
    && LeafHash(h, value, t.leafEncoding).Done? && t.tree != []
    && ProcessProof(h.keccak, LeafHash(h, value, t.leafEncoding).value, proof) == t.tree[0]
  }

  /** The proof is of the requested value, and there is one exactly if that value is provable. */
  ghost predicate ProofOf(h: Hashing, t: Tree, leaf: LeafType, r: Attempt<seq<Hash>>)
  {
    && (r.Done? ==> NamesSome(h, t, leaf))
    && (r.Done? ==> FoldsFrom(h, t, if leaf.Number? then t.values[leaf.index].value else leaf.value, r.value))
    && forall i: nat :: Names(h, t, leaf, i) ==>
         && (r.Done? <==> Provable(h, t, i))
         && (r.Done? ==> r.value == Siblings(t.tree, t.values[i].treeIndex))
  }

  /** The proof of a value. Whatever is returned folds from the value's own hash to the root. */
  method GetProof(h: Hashing, t: Tree, leaf: LeafType) returns (r: Attempt<seq<Hash>>)
    ensures r.Done? ==> && Resolves(h, t, leaf) && t.tree != []
                        && var v := t.values[Resolve(h, t, leaf).value];
                           && LeafHash(h, v.value, t.leafEncoding).Done?
                           && ProcessProof(h.keccak, LeafHash(h, v.value, t.leafEncoding).value, r.value) == t.tree[0]
    ensures r.Panicked? <==>
            || HashingPanics(h, t, leaf)
            || (&& Resolves(h, t, leaf) && ValidateValue(h, t, Resolve(h, t, leaf).value).Done?
                && SlotPanics(|t.tree|, t.values[Resolve(h, t, leaf).value].treeIndex))
    ensures r.Panicked? ==> |t.tree| % 2 == 0 || |t.tree| > I32_MAX || HashingPanics(h, t, leaf)
    ensures Consistent(h, t) ==> ProofOf(h, t, leaf, r)
    ensures WellFormed(h, t) && |t.tree| <= I32_MAX ==> (r.Done? <==> NamesSome(h, t, leaf))
  {
    if Consistent(h, t) {
      ResolveNames(h, t, leaf);
    }
    var valueIndex := Resolve(h, t, leaf);
    if !valueIndex.Done? {
      return if valueIndex.Failed? then Failed else Panicked;
    }
    var valid := ValidateValue(h, t, valueIndex.value);
    if !valid.Done? {
      return if valid.Failed? then Failed else Panicked;
    }
    var value := t.values[valueIndex.value];
    var proof := MerkleTree.GetProof(t.tree, value.treeIndex);
    if !proof.Done? {
      return proof;
    }
    var impliedRoot := ProcessProof(h.keccak, t.tree[value.treeIndex], proof.value);
    if IsMerkleTree(h.keccak, t.tree) {
      ProofComplete(h.keccak, t.tree, value.treeIndex);
    }
    if impliedRoot != t.tree[0] {
      return Failed;
    }
    r := proof;
  }

  function Resolutions(h: Hashing, t: Tree, leaves: seq<LeafType>): seq<Attempt<nat>>
  {
    seq(|leaves|, i requires 0 <= i < |leaves| => Resolve(h, t, leaves[i]))
  }

  predicate AllValid(h: Hashing, t: Tree, leaves: seq<LeafType>)
  {
    forall i :: 0 <= i < |leaves| ==>
      Resolves(h, t, leaves[i]) && ValidateValue(h, t, Resolve(h, t, leaves[i]).value).Done?
  }

  /** The requested value indices, all checked against the tree. */
  method ResolveAll(h: Hashing, t: Tree, leaves: seq<LeafType>) returns (r: Attempt<seq<nat>>)
    requires Consistent(h, t)
    ensures r.Done? <==> AllValid(h, t, leaves)
    ensures r.Panicked? <==> PanicsFirst(Resolutions(h, t, leaves))
    ensures r.Done? ==> && |r.value| == |leaves|
                        && forall i :: 0 <= i < |leaves| ==> Resolve(h, t, leaves[i]) == Done(r.value[i])
  {
    var indices := [];
    ghost var outcomes := Resolutions(h, t, leaves);
    for i := 0 to |leaves|
      invariant |indices| == i
      invariant forall j :: 0 <= j < i ==> outcomes[j] == Resolve(h, t, leaves[j]) == Done(indices[j])
    {
      var index := Resolve(h, t, leaves[i]);
      assert outcomes[i] == index;
      if !index.Done? {
        return if index.Failed? then Failed else Panicked;
      }
      indices := indices + [index.value];
    }
    for i := 0 to |indices|
      invariant forall j :: 0 <= j < i ==> ValidateValue(h, t, indices[j]).Done?
    {
      var valid := ValidateValue(h, t, indices[i]);
      if !valid.Done? {
        return if valid.Failed? then Failed else Panicked;
      }
    }
    r := Done(indices);
  }

  function TreeIndices(t: Tree, indices: seq<nat>): (slots: seq<nat>)
    requires forall i :: 0 <= i < |indices| ==> indices[i] < |t.values|
    ensures |slots| == |indices|
  {
    seq(|indices|, i requires 0 <= i < |indices| => t.values[indices[i]].treeIndex)
  }

  /** In a well-formed tree a request is duplicate-free exactly if its leaf slots are. */
  lemma SlotsDistinct(h: Hashing, t: Tree, indices: seq<nat>)
    requires WellFormed(h, t) && forall i :: 0 <= i < |indices| ==> indices[i] < |t.values|
    ensures Distinct(TreeIndices(t, indices)) <==> Distinct(indices)
    ensures forall s :: s in TreeIndices(t, indices) ==> IsLeafNode(|t.tree|, s)
  {
    var slots := TreeIndices(t, indices);
    forall i, j | 0 <= i < j < |indices|
      ensures slots[i] == slots[j] <==> indices[i] == indices[j]
    {
      var a, b := indices[i], indices[j];
      if a < b {
        assert t.values[a].treeIndex != t.values[b].treeIndex;
      } else if b < a {
        assert t.values[b].treeIndex != t.values[a].treeIndex;
      }
    }
  }

  /** The verifier accepts the shape of everything the prover returns, whatever the hashes in the tree. */
  lemma ProverNeverPanics(keccak: Keccak, tree: seq<Hash>, indices: seq<nat>)
    requires tree != [] && Ordered(indices) && Answerable(indices, |tree|)
    ensures Verified(keccak, MultiProofOf(tree, indices)).Root?
  {
    var m := MultiProofOf(tree, indices);
    if indices != [] {
      ProofFormat(tree, indices);
      RunPanics(keccak, m.leaves, m.proof, m.proofFlags);
    }
  }

  /** The hashes of values that are known to hash. */
  function HashesOf(h: Hashing, values: seq<Value>, encoding: Encoding): (hashes: seq<Hash>)
    requires AllHashable(h, values, encoding)
    ensures |hashes| == |values|
  {
    seq(|values|, i requires 0 <= i < |values| => LeafHash(h, values[i], encoding).value)
  }

  /** Turns leaf hashes back into values. */
  method ValuesOf(h: Hashing, t: Tree, hashes: seq<Hash>) returns (values: seq<Value>)
    requires Consistent(h, t) && forall i :: 0 <= i < |hashes| ==> hashes[i] in t.hashLookup
    ensures AllHashable(h, values, t.leafEncoding) && HashesOf(h, values, t.leafEncoding) == hashes
    ensures forall i: nat, k :: 0 <= k < |values| && IsLastWith(h, t, hashes[k], i) ==> values[k] == t.values[i].value
  {
    values := [];
    for i := 0 to |hashes|
      invariant |values| == i && AllHashable(h, values, t.leafEncoding)
      invariant forall j :: 0 <= j < i ==> LeafHash(h, values[j], t.leafEncoding).value == hashes[j]
      invariant forall j :: 0 <= j < i ==> values[j] == t.values[t.hashLookup[hashes[j]]].value
    {
      values := values + [t.values[t.hashLookup[hashes[i]]].value];
    }
    forall i: nat, k | 0 <= k < |values| && IsLastWith(h, t, hashes[k], i)
      ensures values[k] == t.values[i].value
    {
      LookupIsLast(h, t, hashes[k]);
    }
  }

  predicate AllResolve(h: Hashing, t: Tree, leaves: seq<LeafType>)
  {
    forall i :: 0 <= i < |leaves| ==> Resolves(h, t, leaves[i])
  }

  function Requested(h: Hashing, t: Tree, leaves: seq<LeafType>): (indices: seq<nat>)
    requires AllResolve(h, t, leaves)
    ensures |indices| == |leaves| && forall i :: 0 <= i < |indices| ==> indices[i] < |t.values|
  {
    seq(|leaves|, i requires 0 <= i < |leaves| => Resolve(h, t, leaves[i]).value)
  }

  /** The values that several requests are for, one by one. */
  ghost predicate AllNamed(h: Hashing, t: Tree, leaves: seq<LeafType>, indices: seq<nat>)
  {
    |indices| == |leaves| && forall i :: 0 <= i < |leaves| ==> Names(h, t, leaves[i], indices[i])
  }

  lemma NamedIsRequested(h: Hashing, t: Tree, leaves: seq<LeafType>)
    requires Consistent(h, t)
    ensures AllResolve(h, t, leaves) <==> forall i :: 0 <= i < |leaves| ==> NamesSome(h, t, leaves[i])
    ensures forall indices :: AllNamed(h, t, leaves, indices) ==>
              AllResolve(h, t, leaves) && indices == Requested(h, t, leaves)
    ensures AllResolve(h, t, leaves) ==> AllNamed(h, t, leaves, Requested(h, t, leaves))
  {
    forall i | 0 <= i < |leaves|
      ensures Resolves(h, t, leaves[i]) <==> NamesSome(h, t, leaves[i])
      ensures forall j: nat :: Names(h, t, leaves[i], j) <==> Resolve(h, t, leaves[i]) == Done(j) && j < |t.values|
    {
      ResolveNames(h, t, leaves[i]);
    }
    forall indices | AllNamed(h, t, leaves, indices)
      ensures AllResolve(h, t, leaves) && indices == Requested(h, t, leaves)
    {
      assert forall i :: 0 <= i < |leaves| ==> Names(h, t, leaves[i], indices[i]);
    }
  }

  /** The hashes of stored values. */
  function HashesAt(h: Hashing, t: Tree, indices: seq<nat>): (hashes: seq<Hash>)
    requires Hashable(h, t.values, t.leafEncoding) && forall i :: 0 <= i < |indices| ==> indices[i] < |t.values|
    ensures |hashes| == |indices|
  {
    seq(|indices|, i requires 0 <= i < |indices| => LeafHash(h, t.values[indices[i]].value, t.leafEncoding).value)
  }

  lemma {:induction false} SelectInserted(tree: seq<Hash>, x: nat, s: seq<nat>)
    requires x < |tree| && Within(s, |tree|)
    ensures Within(InsertBy(Downwards, x, s), |tree|)
    ensures multiset(Select(tree, InsertBy(Downwards, x, s))) == multiset(Select(tree, s)) + multiset{tree[x]}
  {
    if s == [] || Downwards(x) <= Downwards(s[0]) {
      assert Select(tree, [x] + s) == [tree[x]] + Select(tree, s);
    } else {
      SelectInserted(tree, x, s[1..]);
      var rest := InsertBy(Downwards, x, s[1..]);
      assert Select(tree, [s[0]] + rest) == [tree[s[0]]] + Select(tree, rest);
      assert Select(tree, s) == [tree[s[0]]] + Select(tree, s[1..]);
    }
  }

  lemma {:induction false} SelectSorted(tree: seq<Hash>, s: seq<nat>)
    requires Within(s, |tree|)
    ensures Within(SortDescending(s), |tree|)
    ensures multiset(Select(tree, SortDescending(s))) == multiset(Select(tree, s))
  {
    if s == [] {
    } else {
      SelectSorted(tree, s[1..]);
      SelectInserted(tree, s[0], SortDescending(s[1..]));
      assert Select(tree, s) == [tree[s[0]]] + Select(tree, s[1..]);
    }
  }

  /** The hashes in the slots of validated values are the hashes of these values. */
  lemma SlotHashes(h: Hashing, t: Tree, indices: seq<nat>)
    requires Hashable(h, t.values, t.leafEncoding)
    requires forall i :: 0 <= i < |indices| ==> indices[i] < |t.values| && ValidateValue(h, t, indices[i]).Done?
    ensures var slots := SortDescending(TreeIndices(t, indices));
            && Within(slots, |t.tree|)
            && multiset(Select(t.tree, slots)) == multiset(HashesAt(h, t, indices))
  {
    var slots := TreeIndices(t, indices);
    forall i | 0 <= i < |slots|
      ensures slots[i] < |t.tree| && t.tree[slots[i]] == HashesAt(h, t, indices)[i]
    {
      assert ValidateValue(h, t, indices[i]).Done?;
    }
    SelectSorted(t.tree, slots);
    assert Select(t.tree, slots) == HashesAt(h, t, indices);
  }

  /** Every one of these values has its hash in its slot, and the slots together have a multi-proof. */
  ghost predicate JointlyProvable(h: Hashing, t: Tree, indices: seq<nat>)
    requires forall i :: 0 <= i < |indices| ==> indices[i] < |t.values|
  {
    && (forall i :: 0 <= i < |indices| ==>
          && t.values[indices[i]].treeIndex < |t.tree|
          && LeafHash(h, t.values[indices[i]].value, t.leafEncoding) == Done(t.tree[t.values[indices[i]].treeIndex]))
    && SlotsProve(h.keccak, t.tree, TreeIndices(t, indices))
  }

  /**
  The proof is of the requested values, and there is one exactly if these values are jointly provable. What
  is returned are values with the hashes of the requested ones, each the last one stored with its hash.
  */
  ghost predicate MultiProofOfRequest(h: Hashing, t: Tree, leaves: seq<LeafType>, r: Attempt<MultiProof<Value, Hash>>)
    requires Consistent(h, t)
  {
    && (r.Done? ==> forall i :: 0 <= i < |leaves| ==> NamesSome(h, t, leaves[i]))
    && (r.Done? ==> AllHashable(h, r.value.leaves, t.leafEncoding))
    && (r.Done? ==> forall i: nat, k :: 0 <= k < |r.value.leaves| && Names(h, t, LeafBytes(r.value.leaves[k]), i) ==>
                      r.value.leaves[k] == t.values[i].value)
    && forall indices :: AllNamed(h, t, leaves, indices) ==>
         && (r.Done? <==> JointlyProvable(h, t, indices))
         && (r.Done? ==> multiset(HashesOf(h, r.value.leaves, t.leafEncoding)) == multiset(HashesAt(h, t, indices)))
  }

  /** These slots have a multi-proof, and it verifies to the root. */
  ghost predicate SlotsProve(keccak: Keccak, tree: seq<Hash>, slots: seq<nat>)
  {
    && tree != [] && !Refused(|tree|, slots) && !Overreaches(|tree|, slots)
    && Ordered(SortDescending(slots)) && Answerable(SortDescending(slots), |tree|)
    && Verified(keccak, MultiProofOf(tree, SortDescending(slots))) == Root(tree[0])
  }

  /** Generates and checks the multi-proof of values that have been validated. */
  method ProveSlots(h: Hashing, t: Tree, indices: seq<nat>) returns (r: Attempt<MultiProof<Hash, Hash>>)
    requires forall i :: 0 <= i < |indices| ==> indices[i] < |t.values| && ValidateValue(h, t, indices[i]).Done?
    ensures r.Done? ==> && t.tree != [] && Verified(h.keccak, r.value) == Root(t.tree[0])
                        && var slots := SortDescending(TreeIndices(t, indices));
                           Within(slots, |t.tree|) && r.value.leaves == Select(t.tree, slots)
    ensures r.Done? <==> SlotsProve(h.keccak, t.tree, TreeIndices(t, indices))
    ensures r.Done? ==> r.value == MultiProofOf(t.tree, SortDescending(TreeIndices(t, indices)))
    ensures var slots := TreeIndices(t, indices);
            r.Panicked? <==> !Refused(|t.tree|, slots) && Overreaches(|t.tree|, slots)
    ensures r.Panicked? ==> |t.tree| % 2 == 0 || |t.tree| > I32_MAX
    ensures WellFormed(h, t) && |t.tree| <= I32_MAX ==> (r.Done? <==> Distinct(indices))
  {
    var treeIndices := new nat[|indices|](i requires 0 <= i < |indices| => t.values[indices[i]].treeIndex);
    assert treeIndices[..] == TreeIndices(t, indices);
    SlotsInTree(t, indices);
    if WellFormed(h, t) {
      SlotsProvable(h, t, indices);
    }
    r := MultiProofs.GetMultiProof(t.tree, treeIndices);
    if !r.Done? {
      return;
    }
    ProverNeverPanics(h.keccak, t.tree, treeIndices[..]);
    var impliedRoot := ProcessMultiProof(h.keccak, r.value);
    if impliedRoot != Root(t.tree[0]) {
      r := Failed;
    }
  }

  lemma SlotsProvable(h: Hashing, t: Tree, indices: seq<nat>)
    requires WellFormed(h, t) && forall i :: 0 <= i < |indices| ==> indices[i] < |t.values|
    ensures var slots := TreeIndices(t, indices);
            && (forall s :: s in slots ==> IsLeafNode(|t.tree|, s))
            && (Distinct(slots) <==> Distinct(indices))
            && (Distinct(slots) ==>
                  && Ordered(SortDescending(slots)) && Within(SortDescending(slots), |t.tree|)
                  && Verified(h.keccak, MultiProofOf(t.tree, SortDescending(slots))) == Root(t.tree[0]))
  {
    SlotsDistinct(h, t, indices);
    if Distinct(indices) {
      RequestProves(h.keccak, t.tree, TreeIndices(t, indices));
    }
  }

  lemma SlotsInTree(t: Tree, indices: seq<nat>)
    requires forall i :: 0 <= i < |indices| ==> indices[i] < |t.values| && t.values[indices[i]].treeIndex < |t.tree|
    ensures forall s :: s in TreeIndices(t, indices) ==> s < |t.tree|
  {
  }

  lemma SlotsInLookup(h: Hashing, t: Tree, indices: seq<nat>)
    requires Consistent(h, t)
    requires forall i :: 0 <= i < |indices| ==> indices[i] < |t.values| && ValidateValue(h, t, indices[i]).Done?
    ensures var slots := SortDescending(TreeIndices(t, indices));
            && Within(slots, |t.tree|)
            && forall i :: 0 <= i < |slots| ==> Select(t.tree, slots)[i] in t.hashLookup
  {
    var requested := TreeIndices(t, indices);
    SortDescendingFacts(requested);
    var slots := SortDescending(requested);
    forall j | 0 <= j < |slots|
      ensures slots[j] < |t.tree| && t.tree[slots[j]] in t.hashLookup
    {
      assert slots[j] in requested;
      var i :| 0 <= i < |requested| && requested[i] == slots[j];
      assert ValidateValue(h, t, indices[i]).Done?;
    }
  }

  /**
  The multi-proof of several values. The returned values are the requested ones in descending slot order,
  and their hashes with the returned proof verify to the root.
  */
  method GetMultiProof(h: Hashing, t: Tree, leaves: seq<LeafType>) returns (r: Attempt<MultiProof<Value, Hash>>)
    requires Consistent(h, t)
    ensures r.Done? ==> && AllHashable(h, r.value.leaves, t.leafEncoding) && t.tree != []
                        && var hashes := HashesOf(h, r.value.leaves, t.leafEncoding);
                           Verified(h.keccak, MultiProof(hashes, r.value.proof, r.value.proofFlags)) == Root(t.tree[0])
    ensures r.Done? ==> && AllResolve(h, t, leaves)
                        && var slots := SortDescending(TreeIndices(t, Requested(h, t, leaves)));
                           && Within(slots, |t.tree|)
                           && HashesOf(h, r.value.leaves, t.leafEncoding) == Select(t.tree, slots)
    ensures r.Panicked? <==>
            || PanicsFirst(Resolutions(h, t, leaves))
            || (&& AllValid(h, t, leaves)
                && var slots := TreeIndices(t, Requested(h, t, leaves));
                   !Refused(|t.tree|, slots) && Overreaches(|t.tree|, slots))
    ensures r.Panicked? ==> |t.tree| % 2 == 0 || |t.tree| > I32_MAX || PanicsFirst(Resolutions(h, t, leaves))
    ensures MultiProofOfRequest(h, t, leaves, r)
    ensures WellFormed(h, t) && |t.tree| <= I32_MAX ==>
              (r.Done? <==> AllResolve(h, t, leaves) && Distinct(Requested(h, t, leaves)))
  {
    NamedIsRequested(h, t, leaves);
    var valueIndices := ResolveAll(h, t, leaves);
    if !valueIndices.Done? {
      return if valueIndices.Failed? then Failed else Panicked;
    }
    assert AllResolve(h, t, leaves) && valueIndices.value == Requested(h, t, leaves);
    var multiProof := ProveSlots(h, t, valueIndices.value);
    if !multiProof.Done? {
      return if multiProof.Failed? then Failed else Panicked;
    }
    var MultiProof(hashes, proof, flags) := multiProof.value;
    SlotsInLookup(h, t, valueIndices.value);
    SlotHashes(h, t, valueIndices.value);
    var values := ValuesOf(h, t, hashes);
    r := Done(MultiProof(values, proof, flags));
  }
}
