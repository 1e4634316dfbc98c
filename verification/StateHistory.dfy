/**
The application's history of past states: the state that block `h - 1` committed is filed under height `h`,
and all but the newest few are pruned. Blocks are committed one by one; importing a snapshot jumps ahead.
*/
module StateHistory {
  import opened Bits
  import opened Outcomes

  /** The parameters of a committed state. */
  type Params(==, !new)

  type Height = nat

  datatype AppState = AppState(blockHeight: Height, oldestStateHeight: Height, params: Params)

  datatype App = App(histSize: nat, hist: map<Height, Params>, state: AppState)

  /** A state takes effect at the block after the one that committed it. */
  function StateHeight(s: AppState): Height
  {
    s.blockHeight + 1
  }

  /** The newest height to be pruned, if any is: zero is never a filed height. */
  function PruneHeight(histSize: nat, top: Height): Height
  {
    if histSize > 0 && top >= histSize then top - histSize else 0
  }

  /** The history once everything from the oldest height up to the prune height is gone. */
  function SetCommitted(histSize: nat, hist: map<Height, Params>, s: AppState): App
  {
    var top := StateHeight(s);
    var limit := PruneHeight(histSize, top);
    var pruning := histSize > 0 && top >= histSize;
    var filed := hist[top := s.params];
    App(histSize,
        if pruning then map h | h in filed && !(s.oldestStateHeight <= h <= limit) :: filed[h] else filed,
        if pruning && s.oldestStateHeight <= limit then s.(oldestStateHeight := limit + 1) else s)
  }

  // ---- Runs ----

  /** A block is committed on top of the last, or a snapshot of some height is imported. */
  datatype Event = CommitBlock(params: Params) | Import(height: Height, params: Params)

  function NewHeight(a: App, e: Event): Height
  {
    match e
    case CommitBlock(_) => a.state.blockHeight + 1
    case Import(h, _) => h
  }

  function Next(a: App, e: Event): App
  {
    SetCommitted(a.histSize, a.hist, a.state.(blockHeight := NewHeight(a, e), params := e.params))
  }

  /** A store with nothing but the empty state in it. */
  function Blank(histSize: nat, empty: Params): App
  {
    SetCommitted(histSize, map[], AppState(0, 0, empty))
  }

  /**
  How a node begins: with a genesis, or with nothing but the empty state, as when it is bootstrapped from a
  snapshot by state sync.
  */
  datatype Setup =
    | Bare(histSize: nat, empty: Params)
    | Founded(histSize: nat, empty: Params, initialHeight: Height, genesis: Params)

  predicate Proper(u: Setup)
  {
    u.Founded? ==> u.initialHeight >= 1
  }

  function Start(u: Setup): App
    requires Proper(u)
  {
    var blank := Blank(u.histSize, u.empty);
    match u
    case Bare(_, _) => blank
    case Founded(_, _, initialHeight, genesis) =>
      SetCommitted(u.histSize, blank.hist, AppState(initialHeight - 1, initialHeight - 1, genesis))
  }

  function After(start: App, es: seq<Event>): App
  {
    if es == [] then start else Next(After(start, es[..|es| - 1]), es[|es| - 1])
  }

  /** No event goes back below the current height. */
  predicate Rising(start: App, es: seq<Event>)
  {
    es != [] ==>
      && Rising(start, es[..|es| - 1])
      && NewHeight(After(start, es[..|es| - 1]), es[|es| - 1]) >= After(start, es[..|es| - 1]).state.blockHeight
  }

  // ---- The reference: everything ever filed, never pruned ----

  /** What was filed at first, then every event under its own height. */
  function Filed(start: App, base: map<Height, Params>, es: seq<Event>): map<Height, Params>
  {
    if es == [] then base
    else
      var front, e := es[..|es| - 1], es[|es| - 1];
      Filed(start, base, front)[NewHeight(After(start, front), e) + 1 := e.params]
  }

  /** The empty state under height 1, then the genesis state, if there is one, under the initial height. */
  function FiledAtStart(u: Setup): map<Height, Params>
  {
    if u.Bare? then map[1 := u.empty] else map[1 := u.empty][u.initialHeight := u.genesis]
  }

  function FirstHeight(u: Setup): Height
  {
    if u.Bare? then 1 else u.initialHeight
  }

  /** Everything a run has filed. */
  function AllFiled(u: Setup, es: seq<Event>): map<Height, Params>
    requires Proper(u)
  {
    Filed(Start(u), FiledAtStart(u), es)
  }

  /** The height of the latest state of a run. */
  function Top(u: Setup, es: seq<Event>): Height
    requires Proper(u)
  {
    StateHeight(After(Start(u), es).state)
  }

  /** A height that pruning has passed, other than a left-over empty state that it never reaches. */
  predicate PrunedAway(histSize: nat, initialHeight: Height, top: Height, h: Height)
  {
    histSize > 0 && h + histSize <= top && !(h == 1 && initialHeight > 2)
  }

  /** What pruning leaves of everything filed. */
  function Window(filed: map<Height, Params>, histSize: nat, initialHeight: Height, top: Height): map<Height, Params>
  {
    map h | h in filed && !PrunedAway(histSize, initialHeight, top, h) :: filed[h]
  }

  /** Where the next pruning will begin. */
  function OldestHeight(histSize: nat, initialHeight: Height, top: Height): int
  {
    if histSize > 0 && top >= histSize && initialHeight <= top - histSize + 1 then top - histSize + 1
    else initialHeight - 1
  }

  /** Nothing was filed above the latest state, or below the first except under height 1. */
  predicate Bounded(filed: map<Height, Params>, initialHeight: Height, top: Height)
  {
    forall h :: h in filed ==> h <= top && (h == 1 || initialHeight <= h)
  }

  ghost predicate Pruned(a: App, initialHeight: Height, filed: map<Height, Params>)
  {
    var top := StateHeight(a.state);
    && Bounded(filed, initialHeight, top)
    && a.hist == Window(filed, a.histSize, initialHeight, top)
    && top in filed && filed[top] == a.state.params
    && a.state.oldestStateHeight == OldestHeight(a.histSize, initialHeight, top)
  }

  lemma PrunedStep(a: App, initialHeight: Height, filed: map<Height, Params>, e: Event)
    requires initialHeight >= 1 && Pruned(a, initialHeight, filed) && initialHeight <= StateHeight(a.state)
    requires NewHeight(a, e) >= a.state.blockHeight
    ensures Pruned(Next(a, e), initialHeight, filed[NewHeight(a, e) + 1 := e.params])
    ensures initialHeight <= StateHeight(Next(a, e).state)
  {
    var a', filed' := Next(a, e), filed[NewHeight(a, e) + 1 := e.params];
    var window := Window(filed', a.histSize, initialHeight, NewHeight(a, e) + 1);
    assert forall h :: h in a'.hist <==> h in window;
    assert forall h :: h in window ==> a'.hist[h] == window[h];
  }

  lemma StartPruned(u: Setup)
    requires Proper(u)
    ensures Pruned(Start(u), FirstHeight(u), FiledAtStart(u))
    ensures StateHeight(Start(u).state) == FirstHeight(u) && Start(u).histSize == u.histSize
  {
  }

  lemma AfterStep(start: App, base: map<Height, Params>, es: seq<Event>, e: Event)
    ensures After(start, es + [e]) == Next(After(start, es), e)
    ensures Filed(start, base, es + [e]) == Filed(start, base, es)[NewHeight(After(start, es), e) + 1 := e.params]
    ensures Rising(start, es + [e]) <==>
            Rising(start, es) && NewHeight(After(start, es), e) >= After(start, es).state.blockHeight
  {
    assert (es + [e])[..|es|] == es;
  }

  lemma PrunedNext(start: App, initialHeight: Height, base: map<Height, Params>, es: seq<Event>, e: Event)
    requires initialHeight >= 1 && Pruned(After(start, es), initialHeight, Filed(start, base, es))
    requires initialHeight <= StateHeight(After(start, es).state) && Rising(start, es + [e])
    ensures Pruned(After(start, es + [e]), initialHeight, Filed(start, base, es + [e]))
    ensures initialHeight <= StateHeight(After(start, es + [e]).state)
    ensures After(start, es + [e]).histSize == After(start, es).histSize
  {
    AfterStep(start, base, es, e);
    PrunedStep(After(start, es), initialHeight, Filed(start, base, es), e);
  }

  lemma {:induction false} RunPruned(start: App, initialHeight: Height, base: map<Height, Params>, es: seq<Event>)
    requires 1 <= initialHeight <= StateHeight(start.state) && Pruned(start, initialHeight, base) && Rising(start, es)
    ensures Pruned(After(start, es), initialHeight, Filed(start, base, es))
    ensures initialHeight <= StateHeight(After(start, es).state) && After(start, es).histSize == start.histSize
  {
    if es == [] {
    } else {
      var front, e := es[..|es| - 1], es[|es| - 1];
      RunPruned(start, initialHeight, base, front);
      assert es == front + [e];
      PrunedNext(start, initialHeight, base, front, e);
    }
  }

  /**
  The history is everything ever filed, less what pruning has passed: after any start, with or without genesis,
  and any rising run of commits and snapshot imports, exactly the heights within the last `histSize` are kept,
  with what was last filed there. An empty state left under height 1 by a genesis above height 2 is never pruned.
  */
  lemma HistoryExact(u: Setup, es: seq<Event>)
    requires Proper(u) && Rising(Start(u), es)
    ensures Pruned(After(Start(u), es), FirstHeight(u), AllFiled(u, es))
    ensures FirstHeight(u) <= Top(u, es) && After(Start(u), es).histSize == u.histSize
  {
    StartPruned(u);
    RunPruned(Start(u), FirstHeight(u), FiledAtStart(u), es);
  }

  // ---- Consequences ----

  /** Never more than `histSize` states are kept, besides a left-over empty one. */
  lemma HistoryBounded(u: Setup, es: seq<Event>)
    requires Proper(u) && Rising(Start(u), es) && u.histSize > 0
    ensures |After(Start(u), es).hist| <= u.histSize + if FirstHeight(u) > 2 then 1 else 0
  {
    HistoryExact(u, es);
    var a, top := After(Start(u), es), Top(u, es);
    var kept := a.hist.Keys - if FirstHeight(u) > 2 then {1} else {};
    forall h | h in kept
      ensures top - u.histSize < h <= top
    {
      assert h in a.hist;
    }
    IntervalSize(kept, top - u.histSize + 1, u.histSize);
    assert |a.hist.Keys| <= |kept| + if FirstHeight(u) > 2 then 1 else 0;
  }

  lemma {:induction false} IntervalSize(s: set<Height>, low: int, size: nat)
    requires forall h :: h in s ==> low <= h < low + size
    ensures |s| <= size
    decreases size
  {
    if s == {} {
    } else {
      IntervalSize(s - {low + size - 1}, low, size - 1);
    }
  }

  function Blocks(params: seq<Params>): seq<Event>
  {
    seq(|params|, i requires 0 <= i < |params| => CommitBlock(params[i]))
  }

  lemma BlocksSplit(params: seq<Params>)
    requires params != []
    ensures Blocks(params) == Blocks(params[..|params| - 1]) + [CommitBlock(params[|params| - 1])]
  {
  }

  /** Blocks committed one after another rise by one each. */
  lemma {:induction false} BlocksRise(start: App, params: seq<Params>)
    ensures Rising(start, Blocks(params))
    ensures StateHeight(After(start, Blocks(params)).state) == StateHeight(start.state) + |params|
  {
    if params == [] {
    } else {
      var front, last := params[..|params| - 1], CommitBlock(params[|params| - 1]);
      BlocksRise(start, front);
      BlocksSplit(params);
      AfterStep(start, map[], Blocks(front), last);
      assert Next(After(start, Blocks(front)), last).state.blockHeight
          == After(start, Blocks(front)).state.blockHeight + 1;
    }
  }

  /** They file their states under consecutive heights. */
  lemma {:induction false} BlocksFiled(start: App, base: map<Height, Params>, params: seq<Params>, h: Height)
    ensures var filed, top := Filed(start, base, Blocks(params)), StateHeight(start.state);
            && (h in filed <==> h in base || top < h <= top + |params|)
            && (h in filed ==> filed[h] == if top < h <= top + |params| then params[h - top - 1] else base[h])
  {
    if params == [] {
    } else {
      var front, last := params[..|params| - 1], CommitBlock(params[|params| - 1]);
      BlocksFiled(start, base, front, h);
      BlocksSplit(params);
      AfterStep(start, base, Blocks(front), last);
      BlocksRise(start, front);
    }
  }

  /**
  The window after genesis at height 1 and any number of blocks: the heights kept are exactly the last
  `histSize`, from 1 on, and each holds what the block before it committed.
  */
  lemma WindowExact(u: Setup, params: seq<Params>, h: Height)
    requires u.Founded? && u.initialHeight == 1 && u.histSize > 0
    ensures var hist := After(Start(u), Blocks(params)).hist;
            && (h in hist <==> 1 <= h <= |params| + 1 && |params| + 1 < h + u.histSize)
            && (h in hist ==> hist[h] == if h == 1 then u.genesis else params[h - 2])
  {
    StartPruned(u);
    BlocksRise(Start(u), params);
    BlocksFiled(Start(u), FiledAtStart(u), params, h);
    HistoryExact(u, Blocks(params));
    var a := After(Start(u), Blocks(params));
    assert h in a.hist <==> h in AllFiled(u, Blocks(params)) && !PrunedAway(u.histSize, 1, |params| + 1, h);
  }

  // ---- What a query sees ----

  /** A height at which a state was filed and has not been pruned. */
  predicate Kept(u: Setup, es: seq<Event>, h: Height)
    requires Proper(u)
  {
    h in AllFiled(u, es) && !PrunedAway(u.histSize, FirstHeight(u), Top(u, es), h)
  }

  lemma KeptInHistory(u: Setup, es: seq<Event>, h: Height)
    requires Proper(u) && Rising(Start(u), es)
    ensures Kept(u, es, h) <==> h in After(Start(u), es).hist
    ensures Kept(u, es, h) ==> AllFiled(u, es)[h] == After(Start(u), es).hist[h]
  {
    HistoryExact(u, es);
  }

  lemma TopFiled(u: Setup, es: seq<Event>)
    requires Proper(u) && Rising(Start(u), es)
    ensures Top(u, es) in AllFiled(u, es) && AllFiled(u, es)[Top(u, es)] == After(Start(u), es).state.params
  {
    HistoryExact(u, es);
  }

  /** The height under which the answer to a query was filed: the queried one if kept, or else the latest. */
  function AnswerHeight(u: Setup, es: seq<Event>, query: Option<Height>): Height
    requires Proper(u)
  {
    if query.Some? && Kept(u, es, query.value) then query.value else Top(u, es)
  }

  /**
  The answer to a query, read off what the run has filed. The state filed under a height was committed by the
  block below it, and that is the height returned with the latest state; but with a state from the history the
  queried height itself is returned.
  */
  function Answer(u: Setup, es: seq<Event>, query: Option<Height>): (Params, Height)
    requires Proper(u) && Rising(Start(u), es)
  {
    TopFiled(u, es);
    var h := AnswerHeight(u, es, query);
    (AllFiled(u, es)[h], if query == Some(h) then h else h - 1)
  }

  /** The latest state is never pruned. */
  lemma TopKept(u: Setup, es: seq<Event>)
    requires Proper(u) && Rising(Start(u), es)
    ensures Kept(u, es, Top(u, es))
  {
    HistoryExact(u, es);
  }

  lemma AnswerKept(u: Setup, es: seq<Event>, h: Height)
    requires Proper(u) && Rising(Start(u), es) && Kept(u, es, h)
    ensures Answer(u, es, Some(h)) == (AllFiled(u, es)[h], h)
  {
  }

  lemma AnswerLatest(u: Setup, es: seq<Event>, query: Option<Height>)
    requires Proper(u) && Rising(Start(u), es) && !(query.Some? && Kept(u, es, query.value))
    ensures Answer(u, es, query) == (After(Start(u), es).state.params, After(Start(u), es).state.blockHeight)
  {
    TopKept(u, es);
    TopFiled(u, es);
  }

  /** The pruned history answers every query as the full record does. */
  lemma QueryAnswered(u: Setup, es: seq<Event>, query: Option<Height>)
    requires Proper(u) && Rising(Start(u), es)
    ensures var a := After(Start(u), es);
            Answer(u, es, query) == if query.Some? && query.value in a.hist then (a.hist[query.value], query.value)
                                    else (a.state.params, a.state.blockHeight)
  {
    if query.Some? {
      KeptInHistory(u, es, query.value);
    }
    if query.Some? && Kept(u, es, query.value) {
      AnswerKept(u, es, query.value);
    } else {
      AnswerLatest(u, es, query);
    }
  }

  /** The height returned is that of the block which committed the state exactly if the height was not kept. */
  lemma CommittingBlockReturned(u: Setup, es: seq<Event>, query: Option<Height>)
    requires Proper(u) && Rising(Start(u), es)
    ensures Answer(u, es, query).1 == AnswerHeight(u, es, query) - 1 <==>
            !(query.Some? && query.value in After(Start(u), es).hist)
  {
    if query.Some? {
      KeptInHistory(u, es, query.value);
    }
  }

  /** At height 1 a query right after genesis gets the genesis state, of a block at height 0, with height 1. */
  lemma WrongBlockReturned(histSize: nat, empty: Params, genesis: Params)
    ensures var u := Founded(histSize, empty, 1, genesis);
            && Rising(Start(u), []) && Answer(u, [], Some(1)) == (genesis, 1)
            && AnswerHeight(u, [], Some(1)) - 1 == 0 == Start(u).state.blockHeight
  {
  }

  /** In the window every query gets what the block before the queried height committed. */
  lemma WindowAnswered(u: Setup, params: seq<Params>, h: Height)
    requires u.Founded? && u.initialHeight == 1 && u.histSize > 0
    requires 1 <= h <= |params| + 1 && |params| + 1 < h + u.histSize
    ensures Rising(Start(u), Blocks(params))
    ensures Answer(u, Blocks(params), Some(h)) == (if h == 1 then u.genesis else params[h - 2], h)
  {
    BlocksRise(Start(u), params);
    QueryAnswered(u, Blocks(params), Some(h));
    WindowExact(u, params, h);
  }

  // ---- The empty state ----

  /** The guard meant to keep queries off the empty state. */
  predicate CanQueryState(height: Height, isEmpty: bool)
  {
    !(height == 0 && isEmpty)
  }

  /** No other state looks like the empty one. */
  predicate EmptyIsUnique(u: Setup, es: seq<Event>)
  {
    (u.Founded? ==> u.genesis != u.empty) && forall i :: 0 <= i < |es| ==> es[i].params != u.empty
  }

  /** Another state was filed under height 1: a genesis at the first height, or a snapshot of height 0. */
  predicate EmptyReplaced(u: Setup, es: seq<Event>)
  {
    (u.Founded? && u.initialHeight == 1) || exists i :: 0 <= i < |es| && es[i].Import? && es[i].height == 0
  }

  /** The empty state is still in the history. */
  predicate EmptyLeft(u: Setup, es: seq<Event>)
    requires Proper(u)
  {
    !EmptyReplaced(u, es) && (u.histSize == 0 || Top(u, es) <= u.histSize || FirstHeight(u) > 2)
  }

  lemma {:induction false} EmptyFiled(u: Setup, es: seq<Event>)
    requires Proper(u) && EmptyIsUnique(u, es)
    ensures 1 in AllFiled(u, es)
    ensures forall h :: h in AllFiled(u, es) ==> (AllFiled(u, es)[h] == u.empty <==> h == 1 && !EmptyReplaced(u, es))
  {
    if es == [] {
    } else {
      var front, e := es[..|es| - 1], es[|es| - 1];
      assert forall i :: 0 <= i < |front| ==> front[i] == es[i];
      EmptyFiled(u, front);
      var h := NewHeight(After(Start(u), front), e) + 1;
      assert AllFiled(u, es) == AllFiled(u, front)[h := e.params];
      assert h == 1 <==> e.Import? && e.height == 0;
      assert EmptyReplaced(u, es) <==> EmptyReplaced(u, front) || h == 1;
    }
  }

  /**
  A query runs on the empty state exactly if it asks for height 1 while the empty state is still there. The
  guard does not help, because the height that comes with the state is then 1.
  */
  lemma EmptyStateServed(u: Setup, es: seq<Event>, query: Option<Height>)
    requires Proper(u) && Rising(Start(u), es) && EmptyIsUnique(u, es)
    ensures Answer(u, es, query).0 == u.empty && CanQueryState(Answer(u, es, query).1, true) <==>
            query == Some(1) && EmptyLeft(u, es)
  {
    EmptyFiled(u, es);
    HistoryExact(u, es);
    TopFiled(u, es);
  }

  /** The guard never gets in the way of any other state. */
  lemma OtherStatesServed(u: Setup, es: seq<Event>, query: Option<Height>)
    requires Proper(u) && Rising(Start(u), es)
    ensures CanQueryState(Answer(u, es, query).1, false)
    ensures !CanQueryState(Answer(u, es, query).1, true) <==> Top(u, es) == 1 && query != Some(1)
  {
    HistoryExact(u, es);
    TopKept(u, es);
  }

  /** After genesis and some blocks. */
  lemma EmptyAfterGenesis(u: Setup, params: seq<Params>)
    requires u.Founded? && Proper(u)
    ensures EmptyLeft(u, Blocks(params)) <==>
            || u.initialHeight > 2
            || (u.initialHeight == 2 && (u.histSize == 0 || |params| + 2 <= u.histSize))
  {
    StartPruned(u);
    BlocksRise(Start(u), params);
  }

  /** After state sync from a snapshot and some blocks. */
  lemma EmptyAfterStateSync(u: Setup, height: Height, p: Params, params: seq<Params>)
    requires u.Bare? && height >= 1
    ensures Rising(Start(u), [Import(height, p)] + Blocks(params))
    ensures EmptyLeft(u, [Import(height, p)] + Blocks(params)) <==> u.histSize == 0 || height + |params| < u.histSize
  {
    SyncedTop(u, height, p, params);
    var es := [Import(height, p)] + Blocks(params);
    assert forall i :: 0 <= i < |es| ==> es[i] == if i == 0 then Import(height, p) else CommitBlock(params[i - 1]);
  }

  lemma {:induction false} SyncedTop(u: Setup, height: Height, p: Params, params: seq<Params>)
    requires u.Bare? && height >= 1
    ensures Rising(Start(u), [Import(height, p)] + Blocks(params))
    ensures Top(u, [Import(height, p)] + Blocks(params)) == height + |params| + 1
  {
    if params == [] {
      StartPruned(u);
      AfterStep(Start(u), map[], [], Import(height, p));
      assert [Import(height, p)] + Blocks(params) == [] + [Import(height, p)];
    } else {
      var front, last := params[..|params| - 1], CommitBlock(params[|params| - 1]);
      SyncedTop(u, height, p, front);
      assert [Import(height, p)] + Blocks(params) == [Import(height, p)] + Blocks(front) + [last];
      AfterStep(Start(u), map[], [Import(height, p)] + Blocks(front), last);
    }
  }

  // ---- Runs that go back ----

  /**
  An import that goes back below the current height prunes nothing. The bound then still holds exactly if the
  imported height is filed already or there is room for one more.
  */
  lemma FallingImport(a: App, initialHeight: Height, filed: map<Height, Params>, e: Event)
    requires initialHeight >= 1 && Pruned(a, initialHeight, filed) && 0 < |a.hist| <= a.histSize
    requires NewHeight(a, e) < a.state.blockHeight
    ensures Next(a, e).hist == a.hist[NewHeight(a, e) + 1 := e.params]
    ensures |Next(a, e).hist| <= a.histSize <==> NewHeight(a, e) + 1 in a.hist || |a.hist| < a.histSize
  {
    var g := NewHeight(a, e) + 1;
    assert a.hist[g := e.params].Keys == a.hist.Keys + {g};
    if g !in a.hist {
      assert |a.hist.Keys + {g}| == |a.hist.Keys| + 1;
    } else {
      assert a.hist.Keys + {g} == a.hist.Keys;
    }
  }

  lemma AfterTwo(start: App, e: Event, f: Event)
    ensures After(start, [e, f]) == Next(Next(start, e), f)
  {
    assert [e, f][..1] == [e] && [e][..0] == [];
    assert After(start, [e]) == Next(After(start, []), e);
  }

  /** Going back below the current height can exceed the bound. */
  lemma FallingRunOverflows(empty: Params, genesis: Params, p: Params, q: Params)
    ensures |After(Start(Founded(1, empty, 1, genesis)), [Import(10, p), Import(3, q)]).hist| == 2
  {
    var start := Start(Founded(1, empty, 1, genesis));
    AfterTwo(start, Import(10, p), Import(3, q));
    var a := Next(start, Import(10, p));
    assert a.hist == map[11 := p];
    assert Next(a, Import(3, q)).hist == map[11 := p, 4 := q];
  }

  // ---- Retaining blocks ----

  /** The height below which the consensus engine may forget blocks. */
  function RetainHeight(histSize: nat, blockHeight: Height): Height
  {
    if histSize == 0 || blockHeight < histSize then 0 else blockHeight - histSize
  }

  /** The engine is never told to forget a block whose state is still kept. */
  lemma RetainHeightSafe(u: Setup, es: seq<Event>, h: Height)
    requires Proper(u) && Rising(Start(u), es)
    requires h in After(Start(u), es).hist && (h == 1 ==> FirstHeight(u) <= 2)
    ensures h >= 1 && RetainHeight(u.histSize, After(Start(u), es).state.blockHeight) <= h - 1
  {
    HistoryExact(u, es);
  }

  /**
  What the retain height tells about the history. While it is zero, nothing has been pruned. After that a state is
  kept exactly if its block is above the retain height, except for an empty state that pruning never reaches.
  */
  ghost predicate Retains(u: Setup, es: seq<Event>, retainHeight: Height)
    requires Proper(u)
  {
    var a := After(Start(u), es);
    if u.histSize == 0 || a.state.blockHeight < u.histSize then retainHeight == 0 && a.hist == AllFiled(u, es)
    else forall h :: h in AllFiled(u, es) && !(h == 1 && FirstHeight(u) > 2) ==> (h in a.hist <==> h - 1 > retainHeight)
  }

  lemma RetainHeightExact(u: Setup, es: seq<Event>)
    requires Proper(u) && Rising(Start(u), es)
    ensures Retains(u, es, RetainHeight(u.histSize, After(Start(u), es).state.blockHeight))
  {
    HistoryExact(u, es);
    var a := After(Start(u), es);
    if u.histSize == 0 || a.state.blockHeight < u.histSize {
      FiledPositive(u, es);
      assert Window(AllFiled(u, es), u.histSize, FirstHeight(u), Top(u, es)) == AllFiled(u, es);
    }
  }

  lemma FiledPositive(u: Setup, es: seq<Event>)
    requires Proper(u) && Rising(Start(u), es)
    ensures forall h :: h in AllFiled(u, es) ==> h > 0
  {
    HistoryExact(u, es);
  }

  /** After genesis at height 1 the lowest block whose state is kept is the one just above the retain height. */
  lemma WindowRetained(u: Setup, params: seq<Params>)
    requires u.Founded? && u.initialHeight == 1 && 0 < u.histSize <= |params|
    ensures var a := After(Start(u), Blocks(params));
            var retainHeight := RetainHeight(u.histSize, a.state.blockHeight);
            && a.state.blockHeight == |params| && retainHeight == |params| - u.histSize
            && retainHeight + 2 in a.hist && forall h :: h in a.hist ==> h >= retainHeight + 2
  {
    BlocksRise(Start(u), params);
    WindowExact(u, params, |params| - u.histSize + 2);
    forall h | h in After(Start(u), Blocks(params)).hist
      ensures h >= |params| - u.histSize + 2
    {
      WindowExact(u, params, h);
    }
  }

  // ---- The application as an object ----

  /** How the node began, and everything filed since. */
  datatype Run = Run(setup: Setup, events: seq<Event>)

  ghost predicate LeadsTo(run: Run, a: App)
  {
    Proper(run.setup) && After(Start(run.setup), run.events) == a
  }

  /** The run never went back, so all that is proved of such runs holds. */
  ghost predicate Regular(run: Run)
  {
    Proper(run.setup) && Rising(Start(run.setup), run.events)
  }

  /** Filing a state at some height, as an event: a block if it is the next height, and otherwise a jump. */
  function FilingOf(a: App, height: Height, params: Params): Event
  {
    if height == a.state.blockHeight + 1 then CommitBlock(params) else Import(height, params)
  }

  lemma RunExtended(run: Run, a: App, height: Height, params: Params)
    requires LeadsTo(run, a)
    ensures var e := FilingOf(a, height, params);
            && LeadsTo(Run(run.setup, run.events + [e]), Next(a, e))
            && Next(a, e) == SetCommitted(a.histSize, a.hist, a.state.(blockHeight := height, params := params))
            && (Regular(Run(run.setup, run.events + [e])) <==> Regular(run) && height >= a.state.blockHeight)
  {
    AfterStep(Start(run.setup), map[], run.events, FilingOf(a, height, params));
  }

  class Application {
    const histSize: nat
    var hist: map<Height, Params>
    var state: Option<AppState>
    /** The run so far; unknown if genesis was repeated. */
    ghost var run: Option<Run>

    ghost function View(): App
      requires state.Some?
      reads this
    {
      App(histSize, hist, state.value)
    }

    ghost predicate Valid()
      reads this
    {
      run.Some? ==> state.Some? && run.value.setup.histSize == histSize && LeadsTo(run.value, View())
    }

    /** A new application on an empty database. */
    constructor (histSize: nat, empty: Params)
      ensures state.Some? && View() == Blank(histSize, empty) && this.histSize == histSize
      ensures Valid() && run == Some(Run(Bare(histSize, empty), [])) && Regular(run.value)
    {
      this.histSize := histSize;
      hist := map[];
      state := None;
      run := None;
      new;
      InitCommittedState(empty);
      run := Some(Run(Bare(histSize, empty), []));
    }

    method InitCommittedState(empty: Params)
      requires Valid()
      modifies this
      ensures Valid() && state.Some? && run == old(run)
      ensures old(state).None? ==> View() == SetCommitted(histSize, old(hist), AppState(0, 0, empty))
      ensures old(state).Some? ==> state == old(state) && hist == old(hist)
    {
      if state.None? {
        SetCommittedState(AppState(0, 0, empty));
      }
    }

    /** Files the state and prunes the history. */
    method SetCommittedState(newState: AppState)
      requires newState.blockHeight < U64_MAX
      modifies this
      ensures state.Some? && View() == SetCommitted(histSize, old(hist), newState) && run == old(run)
    {
      var stateHeight := StateHeight(newState);
      var oldest := newState.oldestStateHeight;
      hist := hist[stateHeight := newState.params];
      ghost var filed := hist;
      if histSize > 0 && stateHeight >= histSize {
        var pruneHeight := stateHeight - histSize;
        while oldest <= pruneHeight
          invariant newState.oldestStateHeight <= oldest && run == old(run)
          invariant oldest == newState.oldestStateHeight || oldest <= pruneHeight + 1
          invariant hist == map h | h in filed && !(newState.oldestStateHeight <= h < oldest) :: filed[h]
        {
          hist := hist - {oldest};
          oldest := oldest + 1;
        }
      }
      state := Some(newState.(oldestStateHeight := oldest));
    }

    /** Genesis: the state of a fictive block just below the initial height. */
    method InitChain(initialHeight: Height, genesis: Params)
      requires Valid() && 1 <= initialHeight <= U64_MAX
      modifies this
      ensures Valid() && state.Some?
      ensures View() == SetCommitted(histSize, old(hist), AppState(initialHeight - 1, initialHeight - 1, genesis))
      ensures old(run).Some? && old(run).value.setup.Bare? && old(run).value.events == [] ==>
                && run == Some(Run(Founded(histSize, old(run).value.setup.empty, initialHeight, genesis), []))
                && Regular(run.value)
    {
      var height := initialHeight - 1;
      SetCommittedState(AppState(height, height, genesis));
      run := if run.Some? && run.value.setup.Bare? && run.value.events == []
             then Some(Run(Founded(histSize, run.value.setup.empty, initialHeight, genesis), [])) else None;
    }

    /** Files a state over the last one, as one more event of the run. */
    method FileNext(blockHeight: Height, params: Params)
      requires Valid() && state.Some? && blockHeight < U64_MAX
      modifies this
      ensures Valid() && state.Some?
      ensures View() == SetCommitted(histSize, old(hist),
                                     old(state).value.(blockHeight := blockHeight, params := params))
      ensures old(run).Some? ==>
                && run == Some(Run(old(run).value.setup,
                                   old(run).value.events + [FilingOf(old(View()), blockHeight, params)]))
                && (Regular(run.value) <==> Regular(old(run).value) && blockHeight >= old(state).value.blockHeight)
    {
      ghost var before := View();
      SetCommittedState(state.value.(blockHeight := blockHeight, params := params));
      if run.Some? {
        RunExtended(run.value, before, blockHeight, params);
        run := Some(Run(run.value.setup, run.value.events + [FilingOf(before, blockHeight, params)]));
      }
    }

    /** Commits a block. As long as heights rise, no block is given up whose state is kept. */
    method Commit(blockHeight: Height, params: Params) returns (r: Result<Height>)
      requires Valid() && blockHeight < U64_MAX
      modifies this
      ensures Valid()
      ensures old(state).None? ==> r.Err? && state == old(state) && hist == old(hist) && run == old(run)
      ensures old(state).Some? ==>
        && r == Ok(RetainHeight(histSize, blockHeight)) && state.Some?
        && View() == SetCommitted(histSize, old(hist), old(state).value.(blockHeight := blockHeight, params := params))
      ensures old(run).Some? ==>
        && run == Some(Run(old(run).value.setup,
                           old(run).value.events + [FilingOf(old(View()), blockHeight, params)]))
        && (Regular(run.value) <==> Regular(old(run).value) && blockHeight >= old(state).value.blockHeight)
      ensures run.Some? && Regular(run.value) && r.Ok? ==>
        && (forall h :: h in hist && (h == 1 ==> FirstHeight(run.value.setup) <= 2) ==> r.value <= h - 1)
        && Retains(run.value.setup, run.value.events, r.value)
    {
      if state.None? {
        return Err;
      }
      var retainHeight := if histSize == 0 || blockHeight < histSize then 0 else blockHeight - histSize;
      FileNext(blockHeight, params);
      if run.Some? && Regular(run.value) {
        RetainHeightExact(run.value.setup, run.value.events);
        forall h | h in hist && (h == 1 ==> FirstHeight(run.value.setup) <= 2)
          ensures retainHeight <= h - 1
        {
          RetainHeightSafe(run.value.setup, run.value.events, h);
        }
      }
      r := Ok(retainHeight);
    }

    method ImportSnapshot(blockHeight: Height, params: Params) returns (r: Result<()>)
      requires Valid() && blockHeight < U64_MAX
      modifies this
      ensures Valid()
      ensures old(state).None? ==> r.Err? && state == old(state) && hist == old(hist) && run == old(run)
      ensures old(state).Some? ==>
        && r.Ok? && state.Some? && View() == Next(old(View()), Import(blockHeight, params))
      ensures old(run).Some? ==>
        && run == Some(Run(old(run).value.setup,
                           old(run).value.events + [FilingOf(old(View()), blockHeight, params)]))
        && (Regular(run.value) <==> Regular(old(run).value) && blockHeight >= old(state).value.blockHeight)
    {
      if state.None? {
        return Err;
      }
      FileNext(blockHeight, params);
      r := Ok(());
    }

    /**
    Whatever the application has been through without going back, the answer is the one that the full record of
    its run gives; and so would any other run that leads to the same state.
    */
    method StateParamsAtHeight(query: Option<Height>) returns (r: Result<(Params, Height)>)
      requires Valid()
      ensures r.Err? <==> state.None? && !(query.Some? && query.value in hist)
      ensures run.Some? && Regular(run.value) ==> r == Ok(Answer(run.value.setup, run.value.events, query))
      ensures forall u, es :: Proper(u) && Rising(Start(u), es) && state.Some? && View() == After(Start(u), es) ==>
                r == Ok(Answer(u, es, query))
    {
      forall u, es | Proper(u) && Rising(Start(u), es) && state.Some? && View() == After(Start(u), es)
        ensures Answer(u, es, query) == if query.Some? && query.value in hist then (hist[query.value], query.value)
                                        else (state.value.params, state.value.blockHeight)
      {
        QueryAnswered(u, es, query);
      }
      if query.Some? && query.value in hist {
        return Ok((hist[query.value], query.value));
      }
      if state.None? {
        return Err;
      }
      r := Ok((state.value.params, state.value.blockHeight));
    }
  }
}
