/**
Subnet identifiers as paths in a tree of subnets, and the way a cross-net message takes
through it: up to the common parent of source and destination, then down.
*/
module Routing {
  import opened Outcomes

  type Address(==, !new)

  datatype SubnetId = SubnetId(root: nat, children: seq<Address>)

  datatype MsgType = BottomUp | TopDown

  function Parent(s: SubnetId): Option<SubnetId>
  {
    if s.children == [] then None else Some(SubnetId(s.root, s.children[..|s.children| - 1]))
  }

  /** How many leading children two paths share. */
  function Common(a: seq<Address>, b: seq<Address>): nat
  {
    if a == [] || b == [] || a[0] != b[0] then 0 else 1 + Common(a[1..], b[1..])
  }

  lemma {:induction false} CommonIsLongest(a: seq<Address>, b: seq<Address>)
    ensures Common(a, b) <= |a| && Common(a, b) <= |b|
    ensures a[..Common(a, b)] == b[..Common(a, b)]
    ensures Common(a, b) < |a| && Common(a, b) < |b| ==> a[Common(a, b)] != b[Common(a, b)]
  {
    if a == [] || b == [] || a[0] != b[0] {
    } else {
      CommonIsLongest(a[1..], b[1..]);
      var c := Common(a[1..], b[1..]);
      assert a[..c + 1] == [a[0]] + a[1..][..c] && b[..c + 1] == [b[0]] + b[1..][..c];
    }
  }

  lemma CommonUnique(a: seq<Address>, b: seq<Address>, c: nat)
    requires c <= |a| && c <= |b| && a[..c] == b[..c]
    requires c < |a| && c < |b| ==> a[c] != b[c]
    ensures Common(a, b) == c
  {
    CommonIsLongest(a, b);
    var d := Common(a, b);
    assert forall i :: 0 <= i < c ==> a[i] == a[..c][i] == b[..c][i] == b[i];
    assert forall i :: 0 <= i < d ==> a[i] == a[..d][i] == b[..d][i] == b[i];
  }

  function CommonParent(s: SubnetId, other: SubnetId): Option<(nat, SubnetId)>
  {
    if s.root != other.root then None
    else
      CommonIsLongest(s.children, other.children);
      var common := Common(s.children, other.children);
      Some((common, SubnetId(s.root, s.children[..common])))
  }

  /** One step from `from` along the path to this subnet. */
  function Down(s: SubnetId, from: SubnetId): Option<SubnetId>
  {
    if |s.children| <= |from.children| then None
    else
      match CommonParent(s, from)
      case None => None
      case Some((i, _)) =>
        CommonIsLongest(s.children, from.children);
        Some(SubnetId(s.root, s.children[..i + 1]))
  }

  predicate IsBottomUp(from: SubnetId, to: SubnetId)
  {
    match CommonParent(from, to)
    case None => false
    case Some((index, _)) => |from.children| > index
  }

  function IpcType(from: SubnetId, to: SubnetId): MsgType
  {
    if IsBottomUp(from, to) then BottomUp else TopDown
  }

  /** How a message between two subnets is applied in the subnet it passes through. */
  function ApplyType(from: SubnetId, to: SubnetId, curr: SubnetId): MsgType
  {
    if CommonParent(curr, to) == CommonParent(from, to) && IpcType(from, to) == BottomUp then BottomUp else TopDown
  }

  /** The shared children are exactly the common prefixes. */
  lemma CommonPrefix(a: seq<Address>, b: seq<Address>, q: seq<Address>)
    ensures q <= a && q <= b <==> q <= a && |q| <= Common(a, b)
  {
    CommonIsLongest(a, b);
    var c := Common(a, b);
    assert forall i :: 0 <= i < c ==> a[i] == a[..c][i] == b[..c][i] == b[i];
  }

  /**
  There is a common parent exactly for subnets of one root. Its ancestors, itself included, are exactly the
  common ancestors; and it does not matter which subnet is asked.
  */
  lemma CommonParentExactly(s: SubnetId, other: SubnetId, q: SubnetId)
    ensures CommonParent(s, other).None? <==> s.root != other.root
    ensures CommonParent(s, other) == CommonParent(other, s)
    ensures CommonParent(s, other).Some? ==>
              var (depth, parent) := CommonParent(s, other).value;
              && depth == |parent.children| && parent.root == s.root
              && (q.children <= parent.children <==> q.children <= s.children && q.children <= other.children)
  {
    CommonIsLongest(s.children, other.children);
    CommonSwap(s.children, other.children);
    CommonPrefix(s.children, other.children, q.children);
  }

  /** A step down exists exactly towards a deeper subnet of the same root: to the first on its path off the other's. */
  lemma DownExactly(s: SubnetId, from: SubnetId)
    ensures Down(s, from).Some? <==> s.root == from.root && |s.children| > |from.children|
    ensures Down(s, from).Some? ==>
              var next := Down(s, from).value;
              && next.root == s.root && next.children != [] && next.children <= s.children
              && !(next.children <= from.children) && next.children[..|next.children| - 1] <= from.children
  {
    CommonIsLongest(s.children, from.children);
    var c := Common(s.children, from.children);
    if Down(s, from).Some? {
      CommonPrefix(s.children, from.children, s.children[..c + 1]);
      CommonPrefix(s.children, from.children, s.children[..c]);
      assert s.children[..c + 1][..c] == s.children[..c];
    }
  }

  /** A message goes bottom-up exactly if both subnets have one root and the source is not above the destination. */
  lemma IpcTypeExactly(from: SubnetId, to: SubnetId)
    ensures IpcType(from, to) == BottomUp <==> from.root == to.root && !(from.children <= to.children)
  {
    CommonIsLongest(from.children, to.children);
    CommonPrefix(from.children, to.children, from.children);
  }

  /** The subnet itself, or one of its ancestors. */
  predicate IsAbove(q: SubnetId, s: SubnetId)
  {
    q.root == s.root && q.children <= s.children
  }

  /**
  Anywhere, on its route or not, a message is applied bottom-up exactly if it goes bottom-up and the subnet shares
  the same ancestors with the destination as the source does.
  */
  lemma ApplyTypeExactly(from: SubnetId, to: SubnetId, curr: SubnetId)
    ensures ApplyType(from, to, curr) == BottomUp <==>
            && from.root == to.root == curr.root && !(from.children <= to.children)
            && forall q :: IsAbove(q, to) ==> (IsAbove(q, curr) <==> IsAbove(q, from))
  {
    IpcTypeExactly(from, to);
    if from.root == to.root == curr.root {
      AboveBoth(from, to);
      AboveBoth(curr, to);
      var c, d := Common(from.children, to.children), Common(curr.children, to.children);
      CommonIsLongest(from.children, to.children);
      CommonIsLongest(curr.children, to.children);
      assert IsAbove(SubnetId(to.root, to.children[..c]), to) && IsAbove(SubnetId(to.root, to.children[..d]), to);
    }
  }

  lemma AboveBoth(s: SubnetId, to: SubnetId)
    requires s.root == to.root
    ensures forall q :: IsAbove(q, to) ==> (IsAbove(q, s) <==> |q.children| <= Common(s.children, to.children))
  {
    CommonSwap(s.children, to.children);
    forall q | IsAbove(q, to)
      ensures IsAbove(q, s) <==> |q.children| <= Common(s.children, to.children)
    {
      CommonPrefix(to.children, s.children, q.children);
    }
  }

  lemma CommonSwap(a: seq<Address>, b: seq<Address>)
    ensures Common(a, b) == Common(b, a)
  {
    CommonIsLongest(a, b);
    CommonUnique(b, a, Common(a, b));
  }

  // ---- Routes ----

  /** The subnet itself and its ancestors, up to the one at the given depth. */
  function Climb(s: SubnetId, depth: nat): seq<SubnetId>
    requires depth <= |s.children|
    decreases |s.children|
  {
    if |s.children| == depth then [s] else [s] + Climb(Parent(s).value, depth)
  }

  /** The subnets below an ancestor on the way down to `to`. */
  function Descend(to: SubnetId, from: SubnetId): seq<SubnetId>
    requires from.root == to.root && from.children <= to.children
    decreases |to.children| - |from.children|
  {
    match Down(to, from)
    case None => []
    case Some(next) =>
      DownIsChild(to, from);
      [next] + Descend(to, next)
  }

  lemma DownIsChild(to: SubnetId, from: SubnetId)
    requires from.root == to.root && from.children <= to.children
    ensures Down(to, from) == if from == to then None
                              else Some(SubnetId(to.root, to.children[..|from.children| + 1]))
  {
    if from != to {
      CommonUnique(to.children, from.children, |from.children|);
    }
  }

  /** Up to the common parent, then down. */
  function Route(from: SubnetId, to: SubnetId): seq<SubnetId>
    requires from.root == to.root
  {
    var (common, parent) := CommonParent(from, to).value;
    CommonIsLongest(from.children, to.children);
    Climb(from, common) + Descend(to, parent)
  }

  lemma {:induction false} ClimbAt(s: SubnetId, depth: nat, k: nat)
    requires depth <= |s.children| && k <= |s.children| - depth
    ensures |Climb(s, depth)| == |s.children| - depth + 1
    ensures Climb(s, depth)[k] == SubnetId(s.root, s.children[..|s.children| - k])
    decreases |s.children|
  {
    if |s.children| == depth {
    } else {
      ClimbAt(Parent(s).value, depth, if k == 0 then 0 else k - 1);
    }
  }

  lemma {:induction false} DescendAt(to: SubnetId, from: SubnetId, k: nat)
    requires from.root == to.root && from.children <= to.children
    ensures |Descend(to, from)| == |to.children| - |from.children|
    ensures k < |Descend(to, from)| ==>
              Descend(to, from)[k] == SubnetId(to.root, to.children[..|from.children| + k + 1])
    decreases |to.children| - |from.children|
  {
    DownIsChild(to, from);
    if from == to {
    } else {
      DescendAt(to, Down(to, from).value, if k == 0 then 0 else k - 1);
    }
  }

  function Hops(from: SubnetId, to: SubnetId): int
  {
    |from.children| + |to.children| - 2 * Common(from.children, to.children)
  }

  lemma RouteStop(from: SubnetId, to: SubnetId, k: nat)
    requires from.root == to.root
    ensures |Route(from, to)| == Hops(from, to) + 1
    ensures k <= Hops(from, to) ==>
              var up := |from.children| - Common(from.children, to.children);
              Route(from, to)[k].root == from.root
              && Route(from, to)[k].children == if k <= up then from.children[..|from.children| - k]
                                                else to.children[..k - up + Common(from.children, to.children)]
  {
    CommonIsLongest(from.children, to.children);
    var (common, parent) := CommonParent(from, to).value;
    var up := |from.children| - common;
    ClimbAt(from, common, if k <= up then k else 0);
    DescendAt(to, parent, if k <= up then 0 else k - up - 1);
  }

  /**
  The route starts at the source and ends at the destination after |from| + |to| - 2 * common hops;
  its stops are first ever shorter prefixes of the source, then ever longer ones of the destination.
  */
  lemma RouteStops(from: SubnetId, to: SubnetId, k: nat)
    requires from.root == to.root
    ensures |Route(from, to)| == Hops(from, to) + 1
    ensures Route(from, to)[0] == from && Route(from, to)[Hops(from, to)] == to
    ensures k <= Hops(from, to) ==>
              var up := |from.children| - Common(from.children, to.children);
              Route(from, to)[k].root == from.root
              && Route(from, to)[k].children == if k <= up then from.children[..|from.children| - k]
                                                else to.children[..k - up + Common(from.children, to.children)]
  {
    CommonIsLongest(from.children, to.children);
    RouteStop(from, to, 0);
    RouteStop(from, to, Hops(from, to));
    RouteStop(from, to, k);
  }

  predicate Neighbours(a: SubnetId, b: SubnetId)
  {
    Parent(a) == Some(b) || Parent(b) == Some(a)
  }

  predicate IsPath(p: seq<SubnetId>)
  {
    forall i :: 0 <= i < |p| - 1 ==> Neighbours(p[i], p[i + 1])
  }

  lemma RouteStep(from: SubnetId, to: SubnetId, k: nat)
    requires from.root == to.root && k < Hops(from, to)
    ensures |Route(from, to)| == Hops(from, to) + 1
    ensures Neighbours(Route(from, to)[k], Route(from, to)[k + 1])
  {
    RouteStops(from, to, k);
    RouteStops(from, to, k + 1);
    CommonIsLongest(from.children, to.children);
    var a, b := Route(from, to)[k].children, Route(from, to)[k + 1].children;
    if k < |from.children| - Common(from.children, to.children) {
      assert b == a[..|a| - 1];
    } else {
      assert a == b[..|b| - 1];
    }
  }

  /** Every hop of the route is between a subnet and its parent. */
  lemma RouteIsPath(from: SubnetId, to: SubnetId)
    requires from.root == to.root
    ensures IsPath(Route(from, to))
  {
    RouteStops(from, to, 0);
    forall k | 0 <= k < |Route(from, to)| - 1
      ensures Neighbours(Route(from, to)[k], Route(from, to)[k + 1])
    {
      RouteStep(from, to, k);
    }
  }

  /** Moving to the parent changes the distance by exactly one: away from a destination below, else towards it. */
  lemma ParentDistance(s: SubnetId, to: SubnetId)
    requires s.children != []
    ensures Hops(Parent(s).value, to) == Hops(s, to) + if s.children <= to.children then 1 else -1
  {
    CommonIsLongest(s.children, to.children);
    var c, p := Common(s.children, to.children), Parent(s).value;
    if c == |s.children| {
      assert s.children[..c - 1] == to.children[..c][..c - 1];
      CommonUnique(p.children, to.children, c - 1);
    } else {
      assert p.children[..c] == s.children[..c];
      CommonUnique(p.children, to.children, c);
    }
  }

  /** No way through the tree of subnets is shorter than the route. */
  lemma {:induction false} RouteShortest(p: seq<SubnetId>, to: SubnetId)
    requires p != [] && IsPath(p) && p[|p| - 1] == to
    ensures p[0].root == to.root && Hops(p[0], to) <= |p| - 1
    decreases |p|
  {
    if |p| == 1 {
      CommonUnique(to.children, to.children, |to.children|);
    } else {
      forall i | 0 <= i < |p[1..]| - 1
        ensures Neighbours(p[1..][i], p[1..][i + 1])
      {
        assert Neighbours(p[i + 1], p[i + 1 + 1]);
      }
      RouteShortest(p[1..], to);
      assert Neighbours(p[0], p[0 + 1]);
      if Parent(p[0]) == Some(p[1]) {
        ParentDistance(p[0], to);
      } else {
        ParentDistance(p[1], to);
      }
    }
  }

  /**
  Along its route a message that starts below the common parent is applied bottom-up as far as the common
  parent, inclusively, and top-down from there on; one that starts at the common parent is top-down throughout.
  */
  lemma ApplyTypeOnRoute(from: SubnetId, to: SubnetId, k: nat)
    requires from.root == to.root && k <= Hops(from, to)
    ensures |Route(from, to)| == Hops(from, to) + 1
    ensures var up := |from.children| - Common(from.children, to.children);
            ApplyType(from, to, Route(from, to)[k]) == if 0 < up && k <= up then BottomUp else TopDown
  {
    RouteStops(from, to, k);
    CommonIsLongest(from.children, to.children);
    var c := Common(from.children, to.children);
    var up := |from.children| - c;
    var curr := Route(from, to)[k];
    if k <= up {
      assert curr.children[..c] == from.children[..c];
      CommonUnique(curr.children, to.children, c);
    } else {
      CommonUnique(curr.children, to.children, |curr.children|);
    }
  }
}
