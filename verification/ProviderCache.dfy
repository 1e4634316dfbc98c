/**
The subnet provider cache: which routable peers provide which subnets, according to the newest
record each has sent, with the least-provided unpinned subnets dropped when there are too many.
*/
module ProviderCache {
  import opened Outcomes
  import opened Sorting

  type Subnet(==, !new)
  type Peer(==, !new)
  type Timestamp = nat
  type Providers = map<Subnet, set<Peer>>

  datatype Record = Record(peer: Peer, subnets: seq<Subnet>, timestamp: Timestamp)

  datatype Delta = Delta(isNew: bool, added: seq<Subnet>, removed: seq<Subnet>)

  datatype Cache = Cache(maxSubnets: nat, pinned: set<Subnet>, routable: set<Peer>,
                         providers: Providers, timestamps: map<Peer, Timestamp>)

  predicate In(ps: Providers, s: Subnet, p: Peer)
  {
    s in ps && p in ps[s]
  }

  // ---- The effect of each operation on the state ----

  function Without(ps: Providers, gone: set<Peer>): Providers
  {
    map s | s in ps :: ps[s] - gone
  }

  function Unrouted(c: Cache, gone: set<Peer>): Cache
  {
    c.(routable := c.routable - gone, timestamps := c.timestamps - gone, providers := Without(c.providers, gone))
  }

  function TimestampOf(c: Cache, p: Peer): Timestamp
  {
    if p in c.timestamps then c.timestamps[p] else 0
  }

  /** The peer is made a provider of exactly these subnets. */
  function Assign(ps: Providers, p: Peer, subnets: seq<Subnet>): Providers
  {
    map s | s in ps.Keys + (set s | s in subnets) ::
      (if s in ps then ps[s] else {}) - {p} + if s in subnets then {p} else {}
  }

  lemma ProvidersStep(ps: Providers, p: Peer, subnets: seq<Subnet>, dropped: set<Subnet>, gone: set<Peer>,
                      s: Subnet, q: Peer)
    ensures In(Assign(ps, p, subnets), s, q) <==> if q == p then s in subnets else In(ps, s, q)
    ensures In(ps - dropped, s, q) <==> s !in dropped && In(ps, s, q)
    ensures In(Without(ps, gone), s, q) <==> q !in gone && In(ps, s, q)
  {
  }

  predicate Accepts(c: Cache, r: Record)
  {
    r.peer in c.routable && TimestampOf(c, r.peer) < r.timestamp
  }

  /** The effect of a record, if the pruning that follows it drops the given subnets. */
  function Added(c: Cache, r: Record, dropped: set<Subnet>): Cache
  {
    if r.peer !in c.routable then c
    else if !Accepts(c, r) then c.(timestamps := c.timestamps[r.peer := TimestampOf(c, r.peer)])
    else c.(timestamps := c.timestamps[r.peer := r.timestamp],
            providers := Assign(c.providers, r.peer, r.subnets) - dropped)
  }

  function Expired(c: Cache, cutoff: Timestamp): set<Peer>
  {
    set p | p in c.timestamps && c.timestamps[p] < cutoff
  }

  // ---- Pruning ----

  function Unpinned(ps: Providers, pinned: set<Subnet>): set<Subnet>
  {
    ps.Keys - pinned
  }

  /** How many subnets are over the limit. */
  function Excess(ps: Providers, maxSubnets: nat): nat
  {
    if |ps| > maxSubnets then |ps| - maxSubnets else 0
  }

  /** As many unpinned subnets as are over the limit, or all of them, and none better provided than one left. */
  ghost predicate MayDrop(ps: Providers, pinned: set<Subnet>, maxSubnets: nat, dropped: set<Subnet>)
  {
    && dropped <= Unpinned(ps, pinned)
    && (|dropped| == Excess(ps, maxSubnets)
        || (|dropped| < Excess(ps, maxSubnets) && dropped == Unpinned(ps, pinned)))
    && LeastProvided(ps, dropped, Unpinned(ps, pinned) - dropped)
  }

  /** No dropped subnet has more providers than one that was kept. */
  ghost predicate LeastProvided(ps: Providers, dropped: set<Subnet>, kept: set<Subnet>)
  {
    forall d, s {:trigger NoMore(ps, d, s)} :: d in dropped && s in kept ==> NoMore(ps, d, s)
  }

  predicate NoMore(ps: Providers, d: Subnet, s: Subnet)
  {
    d in ps && s in ps && |ps[d]| <= |ps[s]|
  }

  /** After pruning the cache is within its limit, or holds nothing but pinned subnets; no pinned one is gone. */
  lemma PruneGuarantee(ps: Providers, pinned: set<Subnet>, maxSubnets: nat, dropped: set<Subnet>)
    requires MayDrop(ps, pinned, maxSubnets, dropped)
    ensures |ps - dropped| <= maxSubnets || (ps - dropped).Keys <= pinned
    ensures forall s :: s in ps && s in pinned ==> s in ps - dropped && (ps - dropped)[s] == ps[s]
    ensures |ps| <= maxSubnets ==> dropped == {}
  {
    assert (ps - dropped).Keys == ps.Keys - dropped;
    assert |ps.Keys - dropped| == |ps.Keys| - |dropped|;
  }

  /** No more is dropped than must be: what is left fills the limit, or is just the pinned subnets. */
  lemma PruneExact(ps: Providers, pinned: set<Subnet>, maxSubnets: nat, dropped: set<Subnet>)
    requires MayDrop(ps, pinned, maxSubnets, dropped) && |ps| > maxSubnets
    ensures |ps - dropped| == if |ps.Keys * pinned| > maxSubnets then |ps.Keys * pinned| else maxSubnets
  {
    var unpinned := Unpinned(ps, pinned);
    assert (ps - dropped).Keys == ps.Keys - dropped;
    assert |ps.Keys - dropped| == |ps.Keys| - |dropped|;
    assert ps.Keys - unpinned == ps.Keys * pinned && |ps.Keys - unpinned| == |ps.Keys| - |unpinned|;
    SubsetSize(dropped, unpinned);
  }

  // ---- The reference: what the event history says ----

  datatype Event =
    | Routable(peer: Peer)
    | Unroutable(peer: Peer)
    | Add(record: Record, dropped: set<Subnet>)
    | PruneByAge(cutoff: Timestamp)
    | Pin(subnet: Subnet)
    | Unpin(subnet: Subnet)

  function Next(c: Cache, e: Event): Cache
  {
    match e
    case Routable(p) => c.(routable := c.routable + {p})
    case Unroutable(p) => Unrouted(c, {p})
    case Add(r, dropped) => Added(c, r, dropped)
    case PruneByAge(cutoff) => Unrouted(c, Expired(c, cutoff))
    case Pin(s) => c.(pinned := c.pinned + {s})
    case Unpin(s) => c.(pinned := c.pinned - {s})
  }

  function Fresh(maxSubnets: nat, pinned: set<Subnet>): Cache
  {
    Cache(maxSubnets, pinned, {}, map[], map[])
  }

  function After(init: Cache, es: seq<Event>): Cache
  {
    if es == [] then init else Next(After(init, es[..|es| - 1]), es[|es| - 1])
  }

  /** The subnets an event drops are ones that pruning may choose. */
  ghost predicate Possible(c: Cache, e: Event)
  {
    e.Add? ==>
      if Accepts(c, e.record)
      then MayDrop(Assign(c.providers, e.record.peer, e.record.subnets), c.pinned, c.maxSubnets, e.dropped)
      else e.dropped == {}
  }

  ghost predicate Legal(init: Cache, es: seq<Event>)
  {
    es != [] ==> Legal(init, es[..|es| - 1]) && Possible(After(init, es[..|es| - 1]), es[|es| - 1])
  }

  /** A record, with the position of the event that brought it. */
  datatype Sent = Sent(record: Record, at: nat)

  function MaxTimestamp(rs: seq<Sent>): Timestamp
  {
    if rs == [] then 0
    else
      var m, last := MaxTimestamp(rs[..|rs| - 1]), rs[|rs| - 1].record.timestamp;
      if m < last then last else m
  }

  /** A peer is unroutable, or routable with the records it has sent since it became so. */
  datatype Standing = Gone | Present(records: seq<Sent>)

  function StandingOf(es: seq<Event>, p: Peer): Standing
  {
    if es == [] then Gone else StandingAfter(StandingOf(es[..|es| - 1], p), es[|es| - 1], |es| - 1, p)
  }

  function StandingAfter(st: Standing, e: Event, at: nat, p: Peer): Standing
  {
    match e
    case Routable(q) => if q == p && st.Gone? then Present([]) else st
    case Unroutable(q) => if q == p then Gone else st
    case Add(r, _) => if r.peer == p && st.Present? then Present(st.records + [Sent(r, at)]) else st
    case PruneByAge(cutoff) =>
      if st.Present? && st.records != [] && MaxTimestamp(st.records) < cutoff then Gone else st
    case Pin(_) => st
    case Unpin(_) => st
  }

  /** The earliest of the records with the highest timestamp, which must not be zero. */
  ghost predicate IsBest(rs: seq<Sent>, b: int)
  {
    && 0 <= b < |rs| && rs[b].record.timestamp > 0
    && (forall j :: 0 <= j < |rs| ==> rs[j].record.timestamp <= rs[b].record.timestamp)
    && (forall j :: 0 <= j < b ==> rs[j].record.timestamp < rs[b].record.timestamp)
  }

  /** The event drops the subnet. */
  predicate Drops(e: Event, s: Subnet)
  {
    e.Add? && s in e.dropped
  }

  /** From some position on, no event drops the subnet. */
  predicate KeptFrom(es: seq<Event>, from: nat, s: Subnet)
  {
    forall i :: from <= i < |es| ==> !Drops(es[i], s)
  }

  /** This record of the peer lists the subnet, and the subnet has not been dropped since. */
  predicate StillCounts(sent: Sent, es: seq<Event>, s: Subnet)
  {
    s in sent.record.subnets && KeptFrom(es, sent.at, s)
  }

  /** The peer's best record lists the subnet, and the subnet has not been dropped since. */
  ghost predicate Vouched(st: Standing, es: seq<Event>, s: Subnet)
  {
    st.Present? && exists b :: IsBest(st.records, b) && StillCounts(st.records[b], es, s)
  }

  /** The peer's best record lists the subnet. */
  ghost predicate Lists(st: Standing, s: Subnet)
  {
    st.Present? && exists b :: IsBest(st.records, b) && s in st.records[b].record.subnets
  }

  lemma {:induction false} MaxTimestampBounds(rs: seq<Sent>)
    ensures forall j :: 0 <= j < |rs| ==> rs[j].record.timestamp <= MaxTimestamp(rs)
    ensures MaxTimestamp(rs) > 0 ==> exists j :: 0 <= j < |rs| && rs[j].record.timestamp == MaxTimestamp(rs)
  {
    if rs == [] {
    } else {
      MaxTimestampBounds(rs[..|rs| - 1]);
    }
  }

  /** A newer record becomes the best; any other leaves the best what it was. */
  lemma BestStep(rs: seq<Sent>, r: Sent, b: int)
    ensures MaxTimestamp(rs) < r.record.timestamp ==> (IsBest(rs + [r], b) <==> b == |rs|)
    ensures MaxTimestamp(rs) >= r.record.timestamp ==> (IsBest(rs + [r], b) <==> IsBest(rs, b))
  {
    var rs' := rs + [r];
    MaxTimestampBounds(rs);
    assert rs'[|rs|] == r;
    assert forall j :: 0 <= j < |rs| ==> rs'[j] == rs[j];
    if MaxTimestamp(rs) >= r.record.timestamp && MaxTimestamp(rs) > 0 {
      var j :| 0 <= j < |rs| && rs[j].record.timestamp == MaxTimestamp(rs);
      assert rs'[j] == rs[j];
    }
  }

  lemma BestVouches(rs: seq<Sent>, r: Sent, es: seq<Event>, s: Subnet)
    ensures Vouched(Present(rs + [r]), es, s) <==>
            if MaxTimestamp(rs) < r.record.timestamp then StillCounts(r, es, s) else Vouched(Present(rs), es, s)
  {
    var rs' := rs + [r];
    assert rs'[|rs|] == r;
    BestStep(rs, r, |rs|);
    if Vouched(Present(rs'), es, s) {
      var b :| IsBest(rs', b) && StillCounts(rs'[b], es, s);
      BestStep(rs, r, b);
    }
    if Vouched(Present(rs), es, s) {
      var b :| IsBest(rs, b) && StillCounts(rs[b], es, s);
      BestStep(rs, r, b);
      assert rs'[b] == rs[b];
    }
  }

  /** Records are dated before the present. */
  predicate Dated(st: Standing, n: nat)
  {
    st.Present? ==> forall i :: 0 <= i < |st.records| ==> st.records[i].at < n
  }

  lemma KeptStep(es: seq<Event>, e: Event, from: nat, s: Subnet)
    requires from <= |es|
    ensures KeptFrom(es + [e], from, s) <==> KeptFrom(es, from, s) && !Drops(e, s)
  {
    var es' := es + [e];
    assert es'[|es|] == e;
    assert forall i :: 0 <= i < |es| ==> es'[i] == es[i];
  }

  lemma EventVouches(st: Standing, es: seq<Event>, e: Event, s: Subnet)
    requires Dated(st, |es|)
    ensures Vouched(st, es + [e], s) <==> Vouched(st, es, s) && !Drops(e, s)
  {
    if Vouched(st, es + [e], s) {
      var b :| IsBest(st.records, b) && StillCounts(st.records[b], es + [e], s);
      KeptStep(es, e, st.records[b].at, s);
      assert StillCounts(st.records[b], es, s);
    }
    if Vouched(st, es, s) {
      var b :| IsBest(st.records, b) && StillCounts(st.records[b], es, s);
      KeptStep(es, e, st.records[b].at, s);
      assert StillCounts(st.records[b], es + [e], s) <==> !Drops(e, s);
    }
  }

  /** The cache's bookkeeping about a peer is what the history says. */
  predicate Tracked(c: Cache, st: Standing, p: Peer)
  {
    && (p in c.routable <==> st.Present?)
    && (p in c.timestamps <==> st.Present? && st.records != [])
    && (p in c.timestamps ==> c.timestamps[p] == MaxTimestamp(st.records))
  }

  lemma TrackedStep(c: Cache, st: Standing, e: Event, at: nat, p: Peer)
    requires Tracked(c, st, p)
    ensures Tracked(Next(c, e), StandingAfter(st, e, at, p), p)
  {
    if e.Add? && st.Present? {
      assert (st.records + [Sent(e.record, at)])[..|st.records|] == st.records;
    }
  }

  lemma RecordStep(c: Cache, st: Standing, es: seq<Event>, e: Event, p: Peer, s: Subnet)
    requires Tracked(c, st, p) && Dated(st, |es|) && e.Add? && (Accepts(c, e.record) || e.dropped == {})
    requires In(c.providers, s, p) <==> Vouched(st, es, s)
    ensures In(Next(c, e).providers, s, p) <==> Vouched(StandingAfter(st, e, |es|, p), es + [e], s)
  {
    var r := e.record;
    ProvidersStep(c.providers, r.peer, r.subnets, {}, {}, s, p);
    ProvidersStep(Assign(c.providers, r.peer, r.subnets), p, [], e.dropped, {}, s, p);
    EventVouches(st, es, e, s);
    if r.peer == p && st.Present? {
      BestVouches(st.records, Sent(r, |es|), es + [e], s);
      KeptStep(es, e, |es|, s);
    }
  }

  lemma ListedStep(c: Cache, st: Standing, es: seq<Event>, e: Event, p: Peer, s: Subnet)
    requires Tracked(c, st, p) && Dated(st, |es|) && Possible(c, e)
    requires In(c.providers, s, p) <==> Vouched(st, es, s)
    ensures In(Next(c, e).providers, s, p) <==> Vouched(StandingAfter(st, e, |es|, p), es + [e], s)
  {
    if e.Add? {
      RecordStep(c, st, es, e, p, s);
    } else {
      EventVouches(st, es, e, s);
    }
  }

  /** The cache agrees with its history on a peer and a subnet. */
  ghost predicate Agrees(c: Cache, es: seq<Event>, p: Peer, s: Subnet)
  {
    && Tracked(c, StandingOf(es, p), p) && Dated(StandingOf(es, p), |es|)
    && (In(c.providers, s, p) <==> Vouched(StandingOf(es, p), es, s))
  }

  lemma StandingStep(es: seq<Event>, e: Event, p: Peer)
    ensures StandingOf(es + [e], p) == StandingAfter(StandingOf(es, p), e, |es|, p)
    ensures Dated(StandingOf(es, p), |es|) ==> Dated(StandingOf(es + [e], p), |es| + 1)
  {
    assert (es + [e])[..|es|] == es;
  }

  lemma AgreesStep(c: Cache, es: seq<Event>, e: Event, p: Peer, s: Subnet)
    requires Agrees(c, es, p, s) && Possible(c, e)
    ensures Agrees(Next(c, e), es + [e], p, s)
  {
    StandingStep(es, e, p);
    TrackedStep(c, StandingOf(es, p), e, |es|, p);
    ListedStep(c, StandingOf(es, p), es, e, p, s);
  }

  /**
  The cache agrees with its history, exactly and for every subnet: a peer is listed if and only if it is
  routable, the earliest of its newest records lists the subnet, and pruning has not dropped the subnet since.
  */
  lemma {:induction false} CacheRefinesHistory(init: Cache, es: seq<Event>, p: Peer, s: Subnet)
    requires init.routable == {} && init.providers == map[] && init.timestamps == map[] && Legal(init, es)
    ensures Agrees(After(init, es), es, p, s)
    ensures In(After(init, es).providers, s, p) <==> Vouched(StandingOf(es, p), es, s)
  {
    if es == [] {
    } else {
      var front, e := es[..|es| - 1], es[|es| - 1];
      CacheRefinesHistory(init, front, p, s);
      AgreesStep(After(init, front), front, e, p, s);
      assert front + [e] == es;
    }
  }

  /** While a subnet is not dropped, it lists exactly the peers whose best record lists it. */
  lemma UndroppedExact(init: Cache, es: seq<Event>, p: Peer, s: Subnet)
    requires init.routable == {} && init.providers == map[] && init.timestamps == map[]
    requires Legal(init, es) && KeptFrom(es, 0, s)
    ensures In(After(init, es).providers, s, p) <==> Lists(StandingOf(es, p), s)
  {
    CacheRefinesHistory(init, es, p, s);
    var st := StandingOf(es, p);
    if Lists(st, s) {
      var b :| IsBest(st.records, b) && s in st.records[b].record.subnets;
      assert StillCounts(st.records[b], es, s);
    }
  }

  // ---- The limit and the pins ----

  predicate NeverUnpinned(es: seq<Event>, s: Subnet)
  {
    forall i :: 0 <= i < |es| ==> es[i] != Unpin(s)
  }

  /** The last event that pins or unpins the subnet pins it, or there is none and it was pinned at first. */
  predicate PinStands(pinned: set<Subnet>, es: seq<Event>, s: Subnet)
  {
    if es == [] then s in pinned
    else
      var front, e := es[..|es| - 1], es[|es| - 1];
      if e == Pin(s) then true else if e == Unpin(s) then false else PinStands(pinned, front, s)
  }

  lemma {:induction false} PinnedExactly(init: Cache, es: seq<Event>, s: Subnet)
    ensures s in After(init, es).pinned <==> PinStands(init.pinned, es, s)
  {
    if es == [] {
    } else {
      PinnedExactly(init, es[..|es| - 1], s);
    }
  }

  /** From a time at which it is pinned, and for as long as it is not unpinned, a subnet is never dropped. */
  lemma {:induction false} PinnedNeverDropped(init: Cache, es: seq<Event>, rest: seq<Event>, s: Subnet)
    requires Legal(init, es + rest) && PinStands(init.pinned, es, s) && NeverUnpinned(rest, s)
    ensures PinStands(init.pinned, es + rest, s) && KeptFrom(es + rest, |es|, s)
    decreases |rest|
  {
    if rest == [] {
      assert es + rest == es;
    } else {
      var front, e := rest[..|rest| - 1], rest[|rest| - 1];
      assert es + rest == es + front + [e];
      assert (es + rest)[..|es + rest| - 1] == es + front;
      assert NeverUnpinned(front, s) && e != Unpin(s);
      PinnedNeverDropped(init, es, front, s);
      PinnedExactly(init, es + front, s);
      KeptStep(es + front, e, |es|, s);
    }
  }

  /** However often the limit is hit, a subnet that stays pinned lists exactly the peers it should. */
  lemma PinnedExact(init: Cache, es: seq<Event>, p: Peer, s: Subnet)
    requires init.routable == {} && init.providers == map[] && init.timestamps == map[]
    requires Legal(init, es) && s in init.pinned && NeverUnpinned(es, s)
    ensures In(After(init, es).providers, s, p) <==> Lists(StandingOf(es, p), s)
  {
    assert [] + es == es;
    PinnedNeverDropped(init, [], es, s);
    UndroppedExact(init, es, p, s);
  }

  /** Events that drop nothing do not change which records count. */
  lemma VouchedBefore(st: Standing, es: seq<Event>, all: seq<Event>, s: Subnet)
    requires es <= all && KeptFrom(all, |es|, s)
    ensures Vouched(st, all, s) <==> Vouched(st, es, s)
  {
    assert forall i :: 0 <= i < |es| ==> all[i] == es[i];
    if st.Present? {
      assert forall b :: 0 <= b < |st.records| ==>
                           (StillCounts(st.records[b], all, s) <==> StillCounts(st.records[b], es, s));
    }
  }

  lemma KeptSincePin(init: Cache, es: seq<Event>, rest: seq<Event>, s: Subnet)
    requires Legal(init, es + [Pin(s)] + rest) && NeverUnpinned(rest, s)
    ensures s in After(init, es + [Pin(s)] + rest).pinned && KeptFrom(es + [Pin(s)] + rest, |es|, s)
  {
    var pinned, all := es + [Pin(s)], es + [Pin(s)] + rest;
    assert pinned[|pinned| - 1] == Pin(s);
    PinnedNeverDropped(init, pinned, rest, s);
    PinnedExactly(init, all, s);
    assert all[|es|] == Pin(s);
  }

  /**
  Likewise from any time on at which a subnet is pinned: it lists exactly the peers whose best record lists it,
  except that a record sent before the pin must not have been dropped before the pin.
  */
  lemma PinnedSinceExact(init: Cache, es: seq<Event>, rest: seq<Event>, p: Peer, s: Subnet)
    requires init.routable == {} && init.providers == map[] && init.timestamps == map[]
    requires Legal(init, es + [Pin(s)] + rest) && NeverUnpinned(rest, s)
    ensures var all := es + [Pin(s)] + rest;
            && s in After(init, all).pinned && KeptFrom(all, |es|, s)
            && (In(After(init, all).providers, s, p) <==> Vouched(StandingOf(all, p), es, s))
  {
    var all := es + [Pin(s)] + rest;
    KeptSincePin(init, es, rest, s);
    CacheRefinesHistory(init, all, p, s);
    VouchedBefore(StandingOf(all, p), es, all, s);
  }

  /** The subnets that have lost their pin since a record was last taken in. */
  function LatelyUnpinned(init: Cache, es: seq<Event>): set<Subnet>
  {
    if es == [] then {}
    else
      var front, e := es[..|es| - 1], es[|es| - 1];
      if e.Add? && Accepts(After(init, front), e.record) then {}
      else if e.Unpin? && e.subnet in After(init, front).pinned then LatelyUnpinned(init, front) + {e.subnet}
      else LatelyUnpinned(init, front)
  }

  /**
  After any run the cache is within its limit, or holds nothing but subnets that are pinned or have lost their pin
  since a record was last taken in.
  */
  lemma {:induction false} LimitKept(init: Cache, es: seq<Event>)
    requires Legal(init, es) && init.providers == map[]
    ensures After(init, es).maxSubnets == init.maxSubnets
    ensures || |After(init, es).providers| <= init.maxSubnets
            || After(init, es).providers.Keys <= After(init, es).pinned + LatelyUnpinned(init, es)
  {
    if es == [] {
    } else {
      var front, e := es[..|es| - 1], es[|es| - 1];
      LimitKept(init, front);
      var c := After(init, front);
      match e
      case Add(r, dropped) =>
        if Accepts(c, r) {
          PruneGuarantee(Assign(c.providers, r.peer, r.subnets), c.pinned, c.maxSubnets, dropped);
        }
      case Unroutable(p) =>
        assert Without(c.providers, {p}).Keys == c.providers.Keys;
      case PruneByAge(cutoff) =>
        assert Without(c.providers, Expired(c, cutoff)).Keys == c.providers.Keys;
      case _ =>
    }
  }

  lemma {:induction false} NoneUnpinned(init: Cache, es: seq<Event>)
    requires forall i :: 0 <= i < |es| ==> !es[i].Unpin?
    ensures LatelyUnpinned(init, es) == {}
  {
    if es == [] {
    } else {
      NoneUnpinned(init, es[..|es| - 1]);
    }
  }

  lemma {:induction false} NonePinned(init: Cache, es: seq<Event>)
    requires init.pinned == {} && forall i :: 0 <= i < |es| ==> !es[i].Pin?
    ensures After(init, es).pinned == {} && LatelyUnpinned(init, es) == {}
  {
    if es == [] {
    } else {
      NonePinned(init, es[..|es| - 1]);
    }
  }

  /** While nothing is unpinned, only pinned subnets can exceed the limit; without pins nothing ever does. */
  lemma LimitKeptByPins(init: Cache, es: seq<Event>)
    requires Legal(init, es) && init.providers == map[]
    ensures (forall i :: 0 <= i < |es| ==> !es[i].Unpin?) ==>
              |After(init, es).providers| <= init.maxSubnets || After(init, es).providers.Keys <= After(init, es).pinned
    ensures init.pinned == {} && (forall i :: 0 <= i < |es| ==> !es[i].Pin?) ==>
              |After(init, es).providers| <= init.maxSubnets
  {
    LimitKept(init, es);
    if forall i :: 0 <= i < |es| ==> !es[i].Unpin? {
      NoneUnpinned(init, es);
    }
    if init.pinned == {} && forall i :: 0 <= i < |es| ==> !es[i].Pin? {
      NonePinned(init, es);
      assert After(init, es).providers.Keys <= {} ==> After(init, es).providers == map[];
    }
  }

  // ---- Which losses are reported ----

  /** The peer was in the subnet and is not any more. */
  predicate Loses(c: Cache, r: Record, dropped: set<Subnet>, s: Subnet)
  {
    In(c.providers, s, r.peer) && !In(Added(c, r, dropped).providers, s, r.peer)
  }

  /** Removals are reported for subnets the record does not list; does that cover all losses? */
  ghost predicate AllReported(c: Cache, r: Record, dropped: set<Subnet>)
  {
    forall s :: Loses(c, r, dropped, s) ==> s !in r.subnets
  }

  /** The unpinned subnets with strictly fewer providers than the given one: they are dropped before it. */
  function Fewer(ps: Providers, pinned: set<Subnet>, s: Subnet): set<Subnet>
    requires s in ps
  {
    set d | d in Unpinned(ps, pinned) && |ps[d]| < |ps[s]|
  }

  /** No subnet that the peer keeps listing can be reached by pruning. */
  predicate OutOfReach(c: Cache, r: Record)
  {
    var ps := Assign(c.providers, r.peer, r.subnets);
    forall s :: s in r.subnets && In(c.providers, s, r.peer) && s !in c.pinned ==>
      Excess(ps, c.maxSubnets) <= |Fewer(ps, c.pinned, s)|
  }

  /** Dropping a subnet takes dropping all that have fewer providers first. */
  lemma DropsFewerFirst(ps: Providers, pinned: set<Subnet>, maxSubnets: nat, dropped: set<Subnet>, s: Subnet)
    requires MayDrop(ps, pinned, maxSubnets, dropped) && s in dropped
    ensures |Fewer(ps, pinned, s)| < Excess(ps, maxSubnets)
  {
    var fewer := Fewer(ps, pinned, s);
    forall d | d in fewer
      ensures d in dropped - {s}
    {
      assert d in dropped || NoMore(ps, s, d);
    }
    SubsetSize(fewer, dropped - {s});
  }

  lemma {:induction false} SubsetSize(a: set<Subnet>, b: set<Subnet>)
    requires a <= b
    ensures |a| <= |b|
  {
    if a == {} {
    } else {
      var x :| x in a;
      SubsetSize(a - {x}, b - {x});
    }
  }

  lemma {:induction false} LeastOf(ps: Providers, pool: set<Subnet>) returns (m: Subnet)
    requires pool != {} && pool <= ps.Keys
    ensures m in pool && forall s :: s in pool ==> NoMore(ps, m, s)
    decreases |pool|
  {
    var x :| x in pool;
    var rest := pool - {x};
    if rest == {} {
      assert pool == {x};
      m := x;
    } else {
      var n := LeastOf(ps, rest);
      m := if |ps[n]| < |ps[x]| then n else x;
      assert forall s :: s in pool ==> s == x || (s in rest && NoMore(ps, n, s));
    }
  }

  /** A choice that has taken the least provided so far can go on to the required number. */
  lemma {:induction false} GrowChoice(ps: Providers, pool: set<Subnet>, chosen: set<Subnet>, n: nat)
    returns (dropped: set<Subnet>)
    requires chosen <= pool <= ps.Keys && |chosen| <= n && LeastProvided(ps, chosen, pool - chosen)
    ensures chosen <= dropped <= pool && LeastProvided(ps, dropped, pool - dropped)
    ensures |dropped| == n || (|dropped| < n && dropped == pool)
    decreases n - |chosen|
  {
    if |chosen| == n || chosen == pool {
      dropped := chosen;
    } else {
      assert pool == chosen + (pool - chosen);
      var m := LeastOf(ps, pool - chosen);
      assert |chosen + {m}| == |chosen| + 1;
      dropped := GrowChoice(ps, pool, chosen + {m}, n);
    }
  }

  /** If fewer subnets stand before it than must go, pruning can reach a subnet. */
  lemma ReachableChoice(ps: Providers, pinned: set<Subnet>, maxSubnets: nat, s: Subnet)
    returns (dropped: set<Subnet>)
    requires s in Unpinned(ps, pinned) && |Fewer(ps, pinned, s)| < Excess(ps, maxSubnets)
    ensures MayDrop(ps, pinned, maxSubnets, dropped) && s in dropped
  {
    var pool, chosen := Unpinned(ps, pinned), Fewer(ps, pinned, s) + {s};
    assert |chosen| == |Fewer(ps, pinned, s)| + 1;
    dropped := GrowChoice(ps, pool, chosen, Excess(ps, maxSubnets));
  }

  /**
  A record taken in reports every association that the peer loses, whatever subnets pruning chooses, if and only
  if every unpinned subnet the peer keeps has at least as many less provided ones before it as must be dropped.
  */
  lemma ReportCompleteExactly(c: Cache, r: Record)
    requires Accepts(c, r)
    ensures (forall dropped ::
               MayDrop(Assign(c.providers, r.peer, r.subnets), c.pinned, c.maxSubnets, dropped) ==>
                 AllReported(c, r, dropped))
       <==> OutOfReach(c, r)
  {
    var ps := Assign(c.providers, r.peer, r.subnets);
    if OutOfReach(c, r) {
      forall dropped | MayDrop(ps, c.pinned, c.maxSubnets, dropped)
        ensures AllReported(c, r, dropped)
      {
        ReportComplete(c, r, dropped);
      }
    } else {
      var s :| s in r.subnets && In(c.providers, s, r.peer) && s !in c.pinned
               && Excess(ps, c.maxSubnets) > |Fewer(ps, c.pinned, s)|;
      var dropped := ReachableChoice(ps, c.pinned, c.maxSubnets, s);
      AddedProviders(c, r, dropped);
      assert Loses(c, r, dropped, s);
    }
  }

  lemma ReportComplete(c: Cache, r: Record, dropped: set<Subnet>)
    requires Accepts(c, r) && OutOfReach(c, r)
    requires MayDrop(Assign(c.providers, r.peer, r.subnets), c.pinned, c.maxSubnets, dropped)
    ensures AllReported(c, r, dropped)
  {
    var ps := Assign(c.providers, r.peer, r.subnets);
    AddedProviders(c, r, dropped);
    forall s | Loses(c, r, dropped, s)
      ensures s !in r.subnets
    {
      if s in r.subnets {
        DropsFewerFirst(ps, c.pinned, c.maxSubnets, dropped, s);
      }
    }
  }

  /**
  What a delta tells. The added subnets are exactly those the peer is in now and was not before. The removed ones
  are all lost, and they are all that is lost if pruning cannot reach a subnet that the peer keeps.
  */
  ghost predicate DeltaRight(before: Cache, after: Cache, r: Record, d: Delta)
  {
    && d.isNew == (r.peer !in before.timestamps)
    && Distinct(d.added) && Distinct(d.removed)
    && (forall s :: s in d.added <==> In(after.providers, s, r.peer) && !In(before.providers, s, r.peer))
    && (forall s :: s in d.removed <==> Accepts(before, r) && In(before.providers, s, r.peer) && s !in r.subnets)
    && (forall s :: s in d.removed ==> !In(after.providers, s, r.peer))
    && (OutOfReach(before, r) ==>
          forall s :: In(before.providers, s, r.peer) && !In(after.providers, s, r.peer) ==> s in d.removed)
  }

  lemma DeltaOfAccepted(c: Cache, r: Record, dropped: set<Subnet>, d: Delta)
    requires Accepts(c, r) && d.isNew == (r.peer !in c.timestamps) && Distinct(d.added) && Distinct(d.removed)
    requires MayDrop(Assign(c.providers, r.peer, r.subnets), c.pinned, c.maxSubnets, dropped)
    requires forall s :: s in d.added <==> s in r.subnets && s !in dropped && !In(c.providers, s, r.peer)
    requires forall s :: s in d.removed <==> In(c.providers, s, r.peer) && s !in r.subnets
    ensures DeltaRight(c, Added(c, r, dropped), r, d)
  {
    AddedProviders(c, r, dropped);
    if OutOfReach(c, r) {
      ReportComplete(c, r, dropped);
      forall s | In(c.providers, s, r.peer) && !In(Added(c, r, dropped).providers, s, r.peer)
        ensures s in d.removed
      {
        assert Loses(c, r, dropped, s);
      }
    }
  }

  lemma LegalStep(init: Cache, es: seq<Event>, e: Event)
    requires Legal(init, es) && Possible(After(init, es), e)
    ensures Legal(init, es + [e]) && After(init, es + [e]) == Next(After(init, es), e)
  {
    assert (es + [e])[..|es|] == es;
  }

  /** One peer in one subnet, and then in a second one, over a limit of one. */
  lemma AssignExamples(p: Peer, s: Subnet, t: Subnet)
    requires s != t
    ensures Assign(map[], p, [s]) == map[s := {p}]
    ensures Assign(map[s := {p}], p, [s, t]) == map[s := {p}, t := {p}]
  {
    var a, b := Assign(map[], p, [s]), Assign(map[s := {p}], p, [s, t]);
    assert a[s] == {p} && b[s] == {p} && b[t] == {p};
    assert forall x :: x in a <==> x == s;
    assert forall x :: x in b <==> x == s || x == t;
  }

  lemma DropExamples(p: Peer, s: Subnet, t: Subnet)
    requires s != t
    ensures MayDrop(map[s := {p}], {}, 1, {}) && MayDrop(map[s := {p}, t := {p}], {}, 1, {s})
  {
    assert map[s := {p}, t := {p}].Keys == {s, t} && |map[s := {p}, t := {p}]| == 2;
  }

  /** A peer can lose a subnet it keeps listing without a report. */
  lemma LossUnreported(p: Peer, s: Subnet, t: Subnet)
    requires s != t
    ensures var second := Record(p, [s, t], 2);
            var es := [Routable(p), Add(Record(p, [s], 1), {})];
            var c := After(Fresh(1, {}), es);
            && Legal(Fresh(1, {}), es + [Add(second, {s})])
            && Accepts(c, second) && Loses(c, second, {s}, s) && !AllReported(c, second, {s})
  {
    var init, e0, e1, e2 := Fresh(1, {}), Routable(p), Add(Record(p, [s], 1), {}), Add(Record(p, [s, t], 2), {s});
    AssignExamples(p, s, t);
    DropExamples(p, s, t);
    LegalStep(init, [], e0);
    LegalStep(init, [e0], e1);
    assert [] + [e0] == [e0] && [e0] + [e1] == [e0, e1];
    var c := After(init, [e0, e1]);
    assert c.providers == map[s := {p}];
    LegalStep(init, [e0, e1], e2);
    AddedProviders(c, e2.record, {s});
    assert Loses(c, e2.record, {s}, s);
  }

  lemma PinnedExample(p: Peer, s: Subnet)
    ensures Assign(map[], p, [s]) == map[s := {p}] && MayDrop(map[s := {p}], {s}, 0, {})
  {
    var a := Assign(map[], p, [s]);
    assert a[s] == {p} && forall x :: x in a <==> x == s;
  }

  /** Unpinning does not prune, so a subnet can lose its pin and stay over the limit. */
  lemma UnpinLeavesExcess(p: Peer, s: Subnet)
    ensures var es := [Routable(p), Add(Record(p, [s], 1), {}), Unpin(s)];
            var c := After(Fresh(0, {s}), es);
            Legal(Fresh(0, {s}), es) && c.pinned == {} && c.maxSubnets == 0 && |c.providers| == 1
  {
    var init, e0, e1, e2 := Fresh(0, {s}), Routable(p), Add(Record(p, [s], 1), {}), Unpin(s);
    PinnedExample(p, s);
    LegalStep(init, [], e0);
    LegalStep(init, [e0], e1);
    assert [] + [e0] == [e0] && [e0] + [e1] == [e0, e1] && [e0, e1] + [e2] == [e0, e1, e2];
    assert After(init, [e0, e1]).providers == map[s := {p}];
    LegalStep(init, [e0, e1], e2);
  }

  // ---- The cache as an object ----

  class SubnetProviderCache {
    const maxSubnets: nat
    var pinnedSubnets: set<Subnet>
    var routablePeers: set<Peer>
    var subnetProviders: Providers
    var peerTimestamps: map<Peer, Timestamp>
    /** How the cache started, and everything that happened to it since. */
    ghost const init: Cache
    ghost var history: seq<Event>

    ghost function View(): Cache
      reads this
    {
      Cache(maxSubnets, pinnedSubnets, routablePeers, subnetProviders, peerTimestamps)
    }

    ghost predicate Valid()
      reads this
    {
      && init.routable == {} && init.providers == map[] && init.timestamps == map[]
      && Legal(init, history) && After(init, history) == View()
    }

    constructor (maxSubnets: nat, staticSubnets: seq<Subnet>)
      ensures Valid() && history == []
      ensures this.maxSubnets == maxSubnets && pinnedSubnets == set s | s in staticSubnets
    {
      this.maxSubnets := maxSubnets;
      pinnedSubnets := set s | s in staticSubnets;
      routablePeers := {};
      subnetProviders := map[];
      peerTimestamps := map[];
      init := Fresh(maxSubnets, set s | s in staticSubnets);
      history := [];
    }

    ghost method Happen(before: Cache, e: Event)
      requires Legal(init, history) && After(init, history) == before && Possible(before, e)
      modifies this`history
      ensures history == old(history) + [e] && Legal(init, history) && After(init, history) == Next(before, e)
    {
      history := history + [e];
      assert history[..|history| - 1] == old(history);
    }

    method PinSubnet(s: Subnet)
      requires Valid()
      modifies this
      ensures Valid() && history == old(history) + [Pin(s)]
      ensures View() == old(View()).(pinned := old(pinnedSubnets) + {s})
    {
      Happen(View(), Pin(s));
      pinnedSubnets := pinnedSubnets + {s};
    }

    method UnpinSubnet(s: Subnet)
      requires Valid()
      modifies this
      ensures Valid() && history == old(history) + [Unpin(s)]
      ensures View() == old(View()).(pinned := old(pinnedSubnets) - {s})
    {
      Happen(View(), Unpin(s));
      pinnedSubnets := pinnedSubnets - {s};
    }

    method SetRoutable(p: Peer)
      requires Valid()
      modifies this
      ensures Valid() && history == old(history) + [Routable(p)]
      ensures View() == old(View()).(routable := old(routablePeers) + {p})
    {
      Happen(View(), Routable(p));
      routablePeers := routablePeers + {p};
    }

    /** Forgets a peer: its routability, its timestamp, and its place in every subnet. */
    method Forget(p: Peer)
      modifies this`routablePeers, this`peerTimestamps, this`subnetProviders
      ensures View() == Unrouted(old(View()), {p})
    {
      routablePeers := routablePeers - {p};
      peerTimestamps := peerTimestamps - {p};
      var todo := subnetProviders.Keys;
      while todo != {}
        invariant todo <= subnetProviders.Keys == old(subnetProviders).Keys
        invariant forall s :: s in subnetProviders ==>
                    subnetProviders[s] == old(subnetProviders)[s] - if s in todo then {} else {p}
        modifies this`subnetProviders
        decreases todo
      {
        var s :| s in todo;
        subnetProviders := subnetProviders[s := subnetProviders[s] - {p}];
        todo := todo - {s};
      }
      assert subnetProviders == Without(old(subnetProviders), {p});
    }

    method SetUnroutable(p: Peer)
      requires Valid()
      modifies this
      ensures Valid() && history == old(history) + [Unroutable(p)]
    {
      Happen(View(), Unroutable(p));
      Forget(p);
    }

    /** Makes every peer unroutable whose newest record is older than the cutoff. */
    method PruneProviders(cutoff: Timestamp) returns (pruned: set<Peer>)
      requires Valid()
      modifies this
      ensures Valid() && history == old(history) + [PruneByAge(cutoff)]
      ensures pruned == Expired(old(View()), cutoff)
    {
      ghost var before := View();
      pruned := set p | p in peerTimestamps && peerTimestamps[p] < cutoff;
      var todo := pruned;
      UnroutedNone(before);
      assert pruned - todo == {};
      while todo != {}
        invariant todo <= pruned && View() == Unrouted(before, pruned - todo)
        invariant history == old(history)
        decreases todo
      {
        var p :| p in todo;
        Forget(p);
        UnroutedTwice(before, pruned - todo, p);
        assert pruned - (todo - {p}) == pruned - todo + {p};
        todo := todo - {p};
      }
      assert pruned - todo == pruned;
      Happen(before, PruneByAge(cutoff));
    }

    /** The subnets with their numbers of providers, in no particular order. */
    method Counts() returns (counts: seq<(Subnet, nat)>)
      ensures AreCounts(subnetProviders, counts)
    {
      counts := [];
      var todo := subnetProviders.Keys;
      while todo != {}
        invariant todo <= subnetProviders.Keys
        invariant forall s :: s in subnetProviders && s !in todo ==> (s, |subnetProviders[s]|) in counts
        invariant forall c :: c in counts ==> c.0 in subnetProviders && c.1 == |subnetProviders[c.0]|
        decreases todo
      {
        var s :| s in todo;
        counts := counts + [(s, |subnetProviders[s]|)];
        todo := todo - {s};
      }
    }

    /** The subnets with their numbers of providers, least provided first. */
    method SortedCounts() returns (counts: seq<(Subnet, nat)>)
      ensures SortedBy(CountKey, counts) && AreCounts(subnetProviders, counts)
    {
      var unsorted := Counts();
      counts := SortBy(CountKey, unsorted);
      SortBySorts(CountKey, unsorted);
      PermutationMembers(unsorted, counts);
    }

    /** Drops unpinned subnets in the given order until enough are gone or none is left. */
    method DropInOrder(counts: seq<(Subnet, nat)>, toPrune: nat) returns (removed: set<Subnet>, ghost n: nat)
      requires toPrune > 0
      modifies this`subnetProviders
      ensures subnetProviders == old(subnetProviders) - removed
      ensures n <= |counts| && removed == FirstUnpinned(counts, n, pinnedSubnets)
      ensures |removed| == toPrune || (|removed| < toPrune && n == |counts|)
    {
      removed, n := {}, 0;
      for i := 0 to |counts|
        invariant n == i && |removed| < toPrune
        invariant removed == FirstUnpinned(counts, i, pinnedSubnets)
        invariant subnetProviders == old(subnetProviders) - removed
      {
        n := i + 1;
        FirstUnpinnedStep(counts, i, pinnedSubnets);
        var s := counts[i].0;
        if s in pinnedSubnets {
          continue;
        }
        DropTwice(old(subnetProviders), removed, s);
        subnetProviders := subnetProviders - {s};
        removed := removed + {s};
        if |removed| == toPrune {
          break;
        }
      }
    }

    /** Drops the least provided unpinned subnets until the cache is within its limit. */
    method PruneSubnets() returns (removed: set<Subnet>)
      modifies this`subnetProviders
      ensures subnetProviders == old(subnetProviders) - removed
      ensures MayDrop(old(subnetProviders), pinnedSubnets, maxSubnets, removed)
    {
      removed := {};
      var toPrune := if |subnetProviders| > maxSubnets then |subnetProviders| - maxSubnets else 0;
      if toPrune > 0 {
        var counts := SortedCounts();
        ghost var n;
        removed, n := DropInOrder(counts, toPrune);
        ChoiceAllowed(old(subnetProviders), pinnedSubnets, counts, n);
      }
    }

    /** Removes the peer from the subnets that its record no longer lists. */
    method RemoveStale(p: Peer, listed: set<Subnet>) returns (removed: seq<Subnet>)
      modifies this`subnetProviders
      ensures subnetProviders.Keys == old(subnetProviders).Keys
      ensures forall s :: s in subnetProviders ==>
                subnetProviders[s] == old(subnetProviders)[s] - if s in listed then {} else {p}
      ensures Distinct(removed) && forall s :: s in removed <==> In(old(subnetProviders), s, p) && s !in listed
    {
      removed := [];
      var todo := subnetProviders.Keys;
      while todo != {}
        invariant todo <= subnetProviders.Keys == old(subnetProviders).Keys
        invariant forall s :: s in subnetProviders ==>
                    subnetProviders[s] == old(subnetProviders)[s] - if s in todo || s in listed then {} else {p}
        invariant Distinct(removed)
        invariant forall s :: s in removed <==> In(old(subnetProviders), s, p) && s !in listed && s !in todo
        decreases todo
      {
        var s :| s in todo;
        if s !in listed && p in subnetProviders[s] {
          subnetProviders := subnetProviders[s := subnetProviders[s] - {p}];
          removed := removed + [s];
        }
        todo := todo - {s};
      }
    }

    /** Adds the peer to the subnets that its record lists. */
    method AddListed(p: Peer, subnets: seq<Subnet>) returns (added: seq<Subnet>)
      modifies this`subnetProviders
      ensures subnetProviders == EnrolledIn(old(subnetProviders), p, subnets)
      ensures Distinct(added) && forall s :: s in added <==> s in subnets && !In(old(subnetProviders), s, p)
    {
      added := [];
      for i := 0 to |subnets|
        invariant subnetProviders == EnrolledIn(old(subnetProviders), p, subnets[..i])
        invariant Distinct(added)
        invariant forall s :: s in added <==> s in subnets[..i] && !In(old(subnetProviders), s, p)
      {
        var s := subnets[i];
        assert subnets[..i + 1][..i] == subnets[..i];
        EnrolledFacts(old(subnetProviders), p, subnets[..i]);
        var peers := if s in subnetProviders then subnetProviders[s] else {};
        if p !in peers {
          added := added + [s];
        }
        subnetProviders := subnetProviders[s := peers + {p}];
      }
      assert subnets[..|subnets|] == subnets;
    }

    /** Makes the peer a provider of exactly the subnets its record lists. */
    method Reassign(r: Record) returns (added: seq<Subnet>, removed: seq<Subnet>)
      modifies this`subnetProviders
      ensures subnetProviders == Assign(old(subnetProviders), r.peer, r.subnets)
      ensures Distinct(added) && forall s :: s in added <==> s in r.subnets && !In(old(subnetProviders), s, r.peer)
      ensures Distinct(removed) && forall s :: s in removed <==> In(old(subnetProviders), s, r.peer) && s !in r.subnets
    {
      removed := RemoveStale(r.peer, set s | s in r.subnets);
      ghost var kept := subnetProviders;
      added := AddListed(r.peer, r.subnets);
      AssignInTwoSteps(old(subnetProviders), kept, r.peer, r.subnets);
    }

    /** Takes in a record that is newer than any before from its peer. */
    method Accept(r: Record) returns (added: seq<Subnet>, removed: seq<Subnet>, ghost dropped: set<Subnet>)
      requires Accepts(View(), r)
      modifies this`peerTimestamps, this`subnetProviders
      ensures View() == Added(old(View()), r, dropped)
      ensures MayDrop(Assign(old(subnetProviders), r.peer, r.subnets), pinnedSubnets, maxSubnets, dropped)
      ensures Distinct(added) && Distinct(removed)
      ensures forall s :: s in added <==> s in r.subnets && s !in dropped && !In(old(subnetProviders), s, r.peer)
      ensures forall s :: s in removed <==> In(old(subnetProviders), s, r.peer) && s !in r.subnets
    {
      peerTimestamps := peerTimestamps[r.peer := r.timestamp];
      added, removed := Reassign(r);
      var gone := PruneSubnets();
      dropped := gone;
      RetainFacts(added, gone);
      added := Retain(added, gone);
    }

    /** Takes a provider record in; what it changes is reported, except that pruning is silent about removals. */
    method AddProvider(r: Record) returns (delta: Option<Delta>, ghost dropped: set<Subnet>)
      requires Valid()
      modifies this
      ensures Valid() && history == old(history) + [Add(r, dropped)]
      ensures delta.None? <==> r.peer !in old(routablePeers)
      ensures delta.Some? ==> DeltaRight(old(View()), View(), r, delta.value)
      ensures Accepts(old(View()), r) ==>
        && MayDrop(Assign(old(subnetProviders), r.peer, r.subnets), pinnedSubnets, maxSubnets, dropped)
        && (|subnetProviders| <= maxSubnets || subnetProviders.Keys <= pinnedSubnets)
    {
      ghost var before := View();
      dropped := {};
      if r.peer !in routablePeers {
        Happen(before, Add(r, {}));
        return None, {};
      }
      var isNew := r.peer !in peerTimestamps;
      var timestamp := if r.peer in peerTimestamps then peerTimestamps[r.peer] else 0;
      if timestamp < r.timestamp {
        var added, removed;
        added, removed, dropped := Accept(r);
        PruneGuarantee(Assign(before.providers, r.peer, r.subnets), pinnedSubnets, maxSubnets, dropped);
        delta := Some(Delta(isNew, added, removed));
        DeltaOfAccepted(before, r, dropped, delta.value);
        Happen(before, Add(r, dropped));
      } else {
        peerTimestamps := peerTimestamps[r.peer := timestamp];
        Happen(before, Add(r, {}));
        delta := Some(Delta(isNew, [], []));
      }
    }

    /** The known providers of a subnet are exactly the peers that the history vouches for. */
    method ProvidersOfSubnet(s: Subnet) returns (peers: set<Peer>)
      requires Valid()
      ensures forall p :: p in peers <==> Vouched(StandingOf(history, p), history, s)
    {
      peers := if s in subnetProviders then subnetProviders[s] else {};
      forall p
        ensures p in peers <==> Vouched(StandingOf(history, p), history, s)
      {
        CacheRefinesHistory(init, history, p, s);
      }
    }
  }

  lemma AddedProviders(c: Cache, r: Record, dropped: set<Subnet>)
    requires Accepts(c, r)
    ensures forall s :: In(Added(c, r, dropped).providers, s, r.peer) <==> s in r.subnets && s !in dropped
  {
  }

  function EnrolledIn(ps: Providers, p: Peer, subnets: seq<Subnet>): Providers
  {
    if subnets == [] then ps
    else
      var ps' := EnrolledIn(ps, p, subnets[..|subnets| - 1]);
      var s := subnets[|subnets| - 1];
      ps'[s := (if s in ps' then ps'[s] else {}) + {p}]
  }

  lemma {:induction false} EnrolledFacts(ps: Providers, p: Peer, subnets: seq<Subnet>)
    ensures forall s :: s in EnrolledIn(ps, p, subnets) <==> s in ps || s in subnets
    ensures forall s :: s in EnrolledIn(ps, p, subnets) ==>
              EnrolledIn(ps, p, subnets)[s] == (if s in ps then ps[s] else {}) + if s in subnets then {p} else {}
  {
    if subnets == [] {
    } else {
      var front := subnets[..|subnets| - 1];
      EnrolledFacts(ps, p, front);
      assert subnets == front + [subnets[|subnets| - 1]];
    }
  }

  /** Leaving the unlisted subnets and joining the listed ones is the assignment to exactly the listed ones. */
  lemma AssignInTwoSteps(ps: Providers, kept: Providers, p: Peer, subnets: seq<Subnet>)
    requires kept.Keys == ps.Keys
    requires forall s :: s in kept ==> kept[s] == ps[s] - if s in subnets then {} else {p}
    ensures EnrolledIn(kept, p, subnets) == Assign(ps, p, subnets)
  {
    EnrolledFacts(kept, p, subnets);
    var done, goal := EnrolledIn(kept, p, subnets), Assign(ps, p, subnets);
    assert forall s :: s in done <==> s in goal;
    forall s | s in goal
      ensures done[s] == goal[s]
    {
    }
  }

  lemma DropTwice(ps: Providers, dropped: set<Subnet>, s: Subnet)
    ensures ps - dropped - {s} == ps - (dropped + {s})
  {
  }

  function CountKey(entry: (Subnet, nat)): int
  {
    entry.1
  }

  ghost predicate AreCounts(ps: Providers, counts: seq<(Subnet, nat)>)
  {
    && (forall s :: s in ps ==> (s, |ps[s]|) in counts)
    && (forall c :: c in counts ==> c.0 in ps && c.1 == |ps[c.0]|)
  }

  /** The unpinned subnets among the first `n` entries. */
  function FirstUnpinned(counts: seq<(Subnet, nat)>, n: nat, pinned: set<Subnet>): set<Subnet>
    requires n <= |counts|
  {
    set i | 0 <= i < n && counts[i].0 !in pinned :: counts[i].0
  }

  lemma FirstUnpinnedStep(counts: seq<(Subnet, nat)>, n: nat, pinned: set<Subnet>)
    requires n < |counts|
    ensures FirstUnpinned(counts, n + 1, pinned)
         == FirstUnpinned(counts, n, pinned) + if counts[n].0 in pinned then {} else {counts[n].0}
  {
  }

  /** Taking unpinned subnets in ascending order of their counts is a choice that pruning allows. */
  lemma ChoiceAllowed(ps: Providers, pinned: set<Subnet>, counts: seq<(Subnet, nat)>, n: nat)
    requires n <= |counts| && SortedBy(CountKey, counts)
    requires AreCounts(ps, counts)
    ensures var dropped := FirstUnpinned(counts, n, pinned);
            && dropped <= Unpinned(ps, pinned)
            && (n == |counts| ==> dropped == Unpinned(ps, pinned))
            && LeastProvided(ps, dropped, Unpinned(ps, pinned) - dropped)
  {
    var dropped := FirstUnpinned(counts, n, pinned);
    forall i | 0 <= i < n && counts[i].0 !in pinned
      ensures counts[i].0 in Unpinned(ps, pinned)
    {
      assert counts[i] in counts;
    }
    forall s | s in Unpinned(ps, pinned) - dropped
      ensures exists k :: n <= k < |counts| && counts[k] == (s, |ps[s]|)
    {
      var k :| 0 <= k < |counts| && counts[k] == (s, |ps[s]|);
    }
    forall d, s | d in dropped && s in Unpinned(ps, pinned) - dropped
      ensures NoMore(ps, d, s)
    {
      var j :| 0 <= j < n && counts[j].0 !in pinned && counts[j].0 == d;
      var k :| n <= k < |counts| && counts[k] == (s, |ps[s]|);
      assert counts[j] in counts;
      assert CountKey(counts[j]) <= CountKey(counts[k]);
    }
  }

  function Retain(s: seq<Subnet>, gone: set<Subnet>): seq<Subnet>
  {
    if s == [] then []
    else Retain(s[..|s| - 1], gone) + if s[|s| - 1] in gone then [] else [s[|s| - 1]]
  }

  lemma {:induction false} RetainFacts(s: seq<Subnet>, gone: set<Subnet>)
    ensures forall x :: x in Retain(s, gone) <==> x in s && x !in gone
    ensures Distinct(s) ==> Distinct(Retain(s, gone))
  {
    if s == [] {
    } else {
      RetainFacts(s[..|s| - 1], gone);
      assert s == s[..|s| - 1] + [s[|s| - 1]];
    }
  }

  lemma UnroutedNone(c: Cache)
    ensures Unrouted(c, {}) == c
  {
    assert c.routable - {} == c.routable && c.timestamps - {} == c.timestamps;
    assert forall s :: s in c.providers ==> c.providers[s] - {} == c.providers[s];
    assert Without(c.providers, {}) == c.providers;
  }

  lemma UnroutedTwice(c: Cache, gone: set<Peer>, p: Peer)
    ensures Unrouted(Unrouted(c, gone), {p}) == Unrouted(c, gone + {p})
  {
    forall s | s in c.providers
      ensures Without(Without(c.providers, gone), {p})[s] == Without(c.providers, gone + {p})[s]
    {
    }
    assert c.timestamps - gone - {p} == c.timestamps - (gone + {p});
  }
}
