/**
The transactional in-memory key-value store. Transactions work on a snapshot of the data; a write
transaction holds the write token from before its snapshot until after it has published its data.
Any number of transactions interleave, one step at a time.
*/
module KvStore {
  import opened Outcomes

  type Namespace(==, !new)
  type Key(==, !new)
  type Val(==, !new)

  type Data = map<Namespace, map<Key, Val>>

  datatype Op = Put(ns: Namespace, key: Key, val: Val) | Delete(ns: Namespace, key: Key)

  function ValueAt(d: Data, ns: Namespace, key: Key): Option<Val>
  {
    if ns in d && key in d[ns] then Some(d[ns][key]) else None
  }

  function Apply(d: Data, op: Op): Data
  {
    match op
    case Put(ns, key, val) => d[ns := (if ns in d then d[ns] else map[])[key := val]]
    case Delete(ns, key) => if ns in d then d[ns := d[ns] - {key}] else d
  }

  function ApplyAll(d: Data, ops: seq<Op>): Data
  {
    if ops == [] then d else Apply(ApplyAll(d, ops[..|ops| - 1]), ops[|ops| - 1])
  }

  /** What a key holds after some operations: whatever the last operation on that key left there. */
  function LastWrite(ops: seq<Op>, ns: Namespace, key: Key): Option<Val>
  {
    if ops == [] then None
    else
      var op := ops[|ops| - 1];
      if op.ns == ns && op.key == key then (if op.Put? then Some(op.val) else None)
      else LastWrite(ops[..|ops| - 1], ns, key)
  }

  predicate Touches(ops: seq<Op>, ns: Namespace, key: Key)
  {
    exists i :: 0 <= i < |ops| && ops[i].ns == ns && ops[i].key == key
  }

  lemma TouchesStep(ops: seq<Op>, op: Op, ns: Namespace, key: Key)
    ensures Touches(ops + [op], ns, key) <==> Touches(ops, ns, key) || (op.ns == ns && op.key == key)
  {
    var all := ops + [op];
    assert all[|ops|] == op;
    assert forall i :: 0 <= i < |ops| ==> all[i] == ops[i];
  }

  lemma {:induction false} GetIsLastWrite(ops: seq<Op>, ns: Namespace, key: Key)
    ensures ValueAt(ApplyAll(map[], ops), ns, key) == LastWrite(ops, ns, key)
  {
    if ops == [] {
    } else {
      GetIsLastWrite(ops[..|ops| - 1], ns, key);
    }
  }

  lemma {:induction false} ApplyAllAppend(d: Data, a: seq<Op>, b: seq<Op>)
    ensures ApplyAll(d, a + b) == ApplyAll(ApplyAll(d, a), b)
  {
    if b == [] {
      assert a + b == a;
    } else {
      ApplyAllAppend(d, a, b[..|b| - 1]);
      assert (a + b)[..|a + b| - 1] == a + b[..|b| - 1];
    }
  }

  // ---- The step machine ----

  type TxId = nat

  /**
  A transaction reads, or waits for its snapshot while holding the token, or writes, or has published
  its data but not yet released the token.
  */
  datatype Tx = Reading(data: Data) | Waiting | Writing(data: Data) | Published

  datatype Store = Store(lockWrites: bool, data: Data, token: Option<TxId>, txs: map<TxId, Tx>)

  datatype Event =
    | OpenRead(t: TxId)
    | TakeToken(t: TxId)
    | OpenWrite(t: TxId)
    | Write(t: TxId, op: Op)
    | Publish(t: TxId)
    | Release(t: TxId)
    | Rollback(t: TxId)
    | CloseRead(t: TxId)

  function Initial(lockWrites: bool): Store
  {
    Store(lockWrites, map[], None, map[])
  }

  predicate Enabled(s: Store, e: Event)
  {
    match e
    case OpenRead(t) => t !in s.txs
    case TakeToken(t) => s.lockWrites && s.token == None && t !in s.txs
    case OpenWrite(t) => if s.lockWrites then t in s.txs && s.txs[t].Waiting? else t !in s.txs
    case Write(t, _) => t in s.txs && s.txs[t].Writing?
    case Publish(t) => t in s.txs && s.txs[t].Writing?
    case Release(t) => t in s.txs && s.txs[t].Published?
    case Rollback(t) => t in s.txs && s.txs[t].Writing?
    case CloseRead(t) => t in s.txs && s.txs[t].Reading?
  }

  function Next(s: Store, e: Event): Store
    requires Enabled(s, e)
  {
    match e
    case OpenRead(t) => s.(txs := s.txs[t := Reading(s.data)])
    case TakeToken(t) => s.(token := Some(t), txs := s.txs[t := Waiting])
    case OpenWrite(t) => s.(txs := s.txs[t := Writing(s.data)])
    case Write(t, op) => s.(txs := s.txs[t := Writing(Apply(s.txs[t].data, op))])
    case Publish(t) =>
      if s.lockWrites then s.(data := s.txs[t].data, txs := s.txs[t := Published])
      else s.(data := s.txs[t].data, txs := s.txs - {t})
    case Release(t) => s.(token := None, txs := s.txs - {t})
    case Rollback(t) => s.(token := if s.lockWrites then None else s.token, txs := s.txs - {t})
    case CloseRead(t) => s.(txs := s.txs - {t})
  }

  /** The events can happen in this order from an empty store. */
  predicate Feasible(lockWrites: bool, es: seq<Event>)
    decreases |es|, 0
  {
    es != [] ==>
      && Feasible(lockWrites, es[..|es| - 1])
      && Enabled(After(lockWrites, es[..|es| - 1]), es[|es| - 1])
  }

  function After(lockWrites: bool, es: seq<Event>): Store
    requires Feasible(lockWrites, es)
    decreases |es|, 1
  {
    if es == [] then Initial(lockWrites) else Next(After(lockWrites, es[..|es| - 1]), es[|es| - 1])
  }

  // ---- The reference: what the history says ----

  predicate Opens(e: Event, t: TxId)
  {
    e == OpenRead(t) || e == OpenWrite(t)
  }

  /** The operations a transaction has issued since it was last opened. */
  function OpsOf(es: seq<Event>, t: TxId): seq<Op>
  {
    if es == [] then []
    else
      var front, e := es[..|es| - 1], es[|es| - 1];
      if Opens(e, t) then [] else if e.Write? && e.t == t then OpsOf(front, t) + [e.op] else OpsOf(front, t)
  }

  /** The committed write transactions, in commit order. */
  function Commits(es: seq<Event>): seq<seq<Op>>
  {
    if es == [] then []
    else
      var front, e := es[..|es| - 1], es[|es| - 1];
      if e.Publish? then Commits(front) + [OpsOf(front, e.t)] else Commits(front)
  }

  /** The transactions that had committed when a transaction was last opened. */
  function SeenBy(es: seq<Event>, t: TxId): seq<seq<Op>>
  {
    if es == [] then []
    else if Opens(es[|es| - 1], t) then Commits(es[..|es| - 1])
    else SeenBy(es[..|es| - 1], t)
  }

  function Concat(txs: seq<seq<Op>>): seq<Op>
  {
    if txs == [] then [] else Concat(txs[..|txs| - 1]) + txs[|txs| - 1]
  }

  /** Runs whole transactions one after another. */
  function RunSerially(txs: seq<seq<Op>>): Data
  {
    if txs == [] then map[] else ApplyAll(RunSerially(txs[..|txs| - 1]), txs[|txs| - 1])
  }

  lemma {:induction false} SerialIsConcat(txs: seq<seq<Op>>)
    ensures RunSerially(txs) == ApplyAll(map[], Concat(txs))
  {
    if txs == [] {
    } else {
      var front := txs[..|txs| - 1];
      SerialIsConcat(front);
      ApplyAllAppend(map[], Concat(front), txs[|txs| - 1]);
    }
  }

  lemma {:induction false} SeenIsPrefix(es: seq<Event>, t: TxId)
    ensures SeenBy(es, t) <= Commits(es)
  {
    if es == [] {
    } else {
      SeenIsPrefix(es[..|es| - 1], t);
    }
  }

  // ---- Snapshot reads, with or without locking ----

  /** The committed data when a transaction was last opened. */
  function DataAtOpen(lockWrites: bool, es: seq<Event>, t: TxId): Data
    requires Feasible(lockWrites, es)
  {
    if es == [] then map[]
    else if Opens(es[|es| - 1], t) then After(lockWrites, es[..|es| - 1]).data
    else DataAtOpen(lockWrites, es[..|es| - 1], t)
  }

  lemma {:induction false} OwnData(lockWrites: bool, es: seq<Event>, t: TxId)
    requires Feasible(lockWrites, es) && t in After(lockWrites, es).txs
    ensures var tx := After(lockWrites, es).txs[t];
            tx.Reading? || tx.Writing? ==>
              && tx.data == ApplyAll(DataAtOpen(lockWrites, es, t), OpsOf(es, t))
              && (tx.Reading? ==> OpsOf(es, t) == [])
  {
    var front, e := es[..|es| - 1], es[|es| - 1];
    if Opens(e, t) || t !in After(lockWrites, front).txs {
    } else {
      OwnData(lockWrites, front, t);
      if e.Write? && e.t == t {
        var d := DataAtOpen(lockWrites, front, t);
        ApplyAllAppend(d, OpsOf(front, t), [e.op]);
        ApplyOne(ApplyAll(d, OpsOf(front, t)), e.op);
      }
    }
  }

  lemma {:induction false} ValueAfter(d: Data, ops: seq<Op>, ns: Namespace, key: Key)
    ensures ValueAt(ApplyAll(d, ops), ns, key)
         == if Touches(ops, ns, key) then LastWrite(ops, ns, key) else ValueAt(d, ns, key)
  {
    if ops == [] {
    } else {
      var front, op := ops[..|ops| - 1], ops[|ops| - 1];
      ValueAfter(d, front, ns, key);
      assert ops == front + [op];
      TouchesStep(front, op, ns, key);
    }
  }

  /**
  In every run, locked or not, an open transaction reads its own last write of a key, or else what the store
  held when it was opened, whatever has been committed since.
  */
  lemma SnapshotRead(lockWrites: bool, es: seq<Event>, t: TxId, ns: Namespace, key: Key)
    requires Feasible(lockWrites, es) && t in After(lockWrites, es).txs
    requires After(lockWrites, es).txs[t].Reading? || After(lockWrites, es).txs[t].Writing?
    ensures ValueAt(After(lockWrites, es).txs[t].data, ns, key)
         == if Touches(OpsOf(es, t), ns, key) then LastWrite(OpsOf(es, t), ns, key)
            else ValueAt(DataAtOpen(lockWrites, es, t), ns, key)
  {
    OwnData(lockWrites, es, t);
    ValueAfter(DataAtOpen(lockWrites, es, t), OpsOf(es, t), ns, key);
  }

  // ---- Serialisability ----

  /** Whenever a transaction commits, no other one has committed since it was opened. */
  predicate UpToDate(es: seq<Event>)
  {
    es != [] ==>
      && UpToDate(es[..|es| - 1])
      && (es[|es| - 1].Publish? ==> SeenBy(es[..|es| - 1], es[|es| - 1].t) == Commits(es[..|es| - 1]))
  }

  /** Under locking, whoever is not a reader holds the token. */
  lemma {:induction false} TokenHeld(es: seq<Event>)
    requires Feasible(true, es)
    ensures var s := After(true, es);
            s.lockWrites && forall t :: t in s.txs && !s.txs[t].Reading? ==> s.token == Some(t)
  {
    if es == [] {
    } else {
      TokenHeld(es[..|es| - 1]);
    }
  }

  /** Under locking, the token is held only by a transaction that is open and not a reader. */
  lemma {:induction false} TokenOwned(es: seq<Event>)
    requires Feasible(true, es)
    ensures var s := After(true, es);
            s.token.Some? ==> s.token.value in s.txs && !s.txs[s.token.value].Reading?
  {
    if es == [] {
    } else {
      TokenOwned(es[..|es| - 1]);
      TokenHeld(es[..|es| - 1]);
    }
  }

  /** From any point the token can come back within two steps, with nothing committed on the way. */
  lemma TokenComesBack(es: seq<Event>) returns (rest: seq<Event>)
    requires Feasible(true, es)
    ensures |rest| <= 2 && Feasible(true, es + rest) && Commits(es + rest) == Commits(es)
    ensures After(true, es + rest).token == None && After(true, es + rest).data == After(true, es).data
  {
    TokenOwned(es);
    TokenHeld(es);
    var s := After(true, es);
    if s.token == None {
      rest := [];
      assert es + rest == es;
    } else {
      var t := s.token.value;
      if s.txs[t].Waiting? {
        rest := [OpenWrite(t), Rollback(t)];
        Extend(true, es, OpenWrite(t));
        Extend(true, es + [OpenWrite(t)], Rollback(t));
        HistoryStep(es, OpenWrite(t), t);
        HistoryStep(es + [OpenWrite(t)], Rollback(t), t);
        assert es + rest == es + [OpenWrite(t)] + [Rollback(t)];
      } else {
        rest := if s.txs[t].Writing? then [Rollback(t)] else [Release(t)];
        Extend(true, es, rest[0]);
        HistoryStep(es, rest[0], t);
      }
    }
  }

  /** The last event that opens or ends a transaction opens it. */
  predicate Active(lockWrites: bool, es: seq<Event>, t: TxId)
  {
    es != [] &&
    var front, e := es[..|es| - 1], es[|es| - 1];
    if e.t != t then Active(lockWrites, front, t)
    else match e
      case OpenRead(_) => true
      case TakeToken(_) => true
      case OpenWrite(_) => true
      case Write(_, _) => Active(lockWrites, front, t)
      case Publish(_) => lockWrites
      case Release(_) => false
      case Rollback(_) => false
      case CloseRead(_) => false
  }

  /** A transaction is open from its first step to its last, whatever others do; under locking a commit has two. */
  lemma {:induction false} OpenExactly(lockWrites: bool, es: seq<Event>, t: TxId)
    requires Feasible(lockWrites, es)
    ensures After(lockWrites, es).lockWrites == lockWrites
    ensures t in After(lockWrites, es).txs <==> Active(lockWrites, es, t)
  {
    if es == [] {
    } else {
      OpenExactly(lockWrites, es[..|es| - 1], t);
    }
  }

  /** The write token keeps everyone else from committing while a write transaction is open. */
  lemma {:induction false} LockKeepsUpToDate(es: seq<Event>)
    requires Feasible(true, es)
    ensures UpToDate(es)
    ensures forall t :: t in After(true, es).txs && After(true, es).txs[t].Writing? ==> SeenBy(es, t) == Commits(es)
  {
    if es == [] {
    } else {
      LockKeepsUpToDate(es[..|es| - 1]);
      TokenHeld(es[..|es| - 1]);
    }
  }

  /** A transaction's own data are the commits it has seen, followed by its own operations. */
  ghost predicate TxExplained(s: Store, es: seq<Event>, t: TxId)
    requires t in s.txs
  {
    match s.txs[t]
    case Reading(data) => OpsOf(es, t) == [] && data == RunSerially(SeenBy(es, t))
    case Writing(data) => data == ApplyAll(RunSerially(SeenBy(es, t)), OpsOf(es, t))
    case _ => true
  }

  /** The whole state is what the history says. */
  ghost predicate Explained(s: Store, es: seq<Event>)
  {
    s.data == RunSerially(Commits(es)) && forall t :: t in s.txs ==> TxExplained(s, es, t)
  }

  lemma HistoryStep(es: seq<Event>, e: Event, t: TxId)
    ensures Commits(es + [e]) == if e.Publish? then Commits(es) + [OpsOf(es, e.t)] else Commits(es)
    ensures SeenBy(es + [e], t) == if Opens(e, t) then Commits(es) else SeenBy(es, t)
    ensures OpsOf(es + [e], t) == if Opens(e, t) then []
                                  else if e.Write? && e.t == t then OpsOf(es, t) + [e.op] else OpsOf(es, t)
  {
    assert (es + [e])[..|es|] == es;
  }

  lemma SerialAppend(txs: seq<seq<Op>>, ops: seq<Op>)
    ensures RunSerially(txs + [ops]) == ApplyAll(RunSerially(txs), ops)
    ensures Concat(txs + [ops]) == Concat(txs) + ops
  {
    assert (txs + [ops])[..|txs|] == txs;
  }

  lemma ApplyOne(d: Data, op: Op)
    ensures ApplyAll(d, [op]) == Apply(d, op)
  {
    assert ApplyAll(d, [op]) == Apply(ApplyAll(d, []), op);
  }

  lemma StepOfTx(s: Store, es: seq<Event>, e: Event, t: TxId)
    requires Explained(s, es) && Enabled(s, e) && t in Next(s, e).txs
    ensures TxExplained(Next(s, e), es + [e], t)
  {
    HistoryStep(es, e, t);
    if t != e.t {
      assert TxExplained(s, es, t);
    } else if e.Write? {
      assert TxExplained(s, es, t);
      var seen := RunSerially(SeenBy(es, t));
      ApplyAllAppend(seen, OpsOf(es, t), [e.op]);
      ApplyOne(ApplyAll(seen, OpsOf(es, t)), e.op);
    }
  }

  lemma StepExplained(s: Store, es: seq<Event>, e: Event)
    requires Explained(s, es) && Enabled(s, e)
    requires e.Publish? ==> SeenBy(es, e.t) == Commits(es)
    ensures Explained(Next(s, e), es + [e])
  {
    forall t | t in Next(s, e).txs
      ensures TxExplained(Next(s, e), es + [e], t)
    {
      StepOfTx(s, es, e, t);
    }
    HistoryStep(es, e, e.t);
    if e.Publish? {
      SerialAppend(Commits(es), OpsOf(es, e.t));
      assert TxExplained(s, es, e.t);
    }
  }

  lemma {:induction false} RunExplained(lockWrites: bool, es: seq<Event>)
    requires Feasible(lockWrites, es) && UpToDate(es)
    ensures Explained(After(lockWrites, es), es)
  {
    if es == [] {
    } else {
      var front := es[..|es| - 1];
      RunExplained(lockWrites, front);
      StepExplained(After(lockWrites, front), front, es[|es| - 1]);
      assert front + [es[|es| - 1]] == es;
    }
  }

  lemma Law(lockWrites: bool, es: seq<Event>)
    requires Feasible(lockWrites, es) && (lockWrites || UpToDate(es))
    ensures Explained(After(lockWrites, es), es)
  {
    if lockWrites {
      LockKeepsUpToDate(es);
    }
    RunExplained(lockWrites, es);
  }

  /**
  Serialisability: with write locking after any interleaving, and without it as long as no write transaction
  misses a commit, the committed data are those of running the committed write transactions one after another
  in commit order; so every key holds its last committed write.
  */
  lemma Serialisable(lockWrites: bool, es: seq<Event>, ns: Namespace, key: Key)
    requires Feasible(lockWrites, es) && (lockWrites || UpToDate(es))
    ensures After(lockWrites, es).data == RunSerially(Commits(es))
    ensures ValueAt(After(lockWrites, es).data, ns, key) == LastWrite(Concat(Commits(es)), ns, key)
  {
    Law(lockWrites, es);
    SerialIsConcat(Commits(es));
    GetIsLastWrite(Concat(Commits(es)), ns, key);
  }

  /**
  Isolation: an open transaction sees exactly the transactions that had committed when it was opened, then
  its own operations, for as long as it is open. With locking these are, for a write transaction, all commits
  until now, so what it read is what it would have read when run alone at its place in the commit order.
  */
  lemma Isolated(lockWrites: bool, es: seq<Event>, t: TxId, ns: Namespace, key: Key)
    requires Feasible(lockWrites, es) && (lockWrites || UpToDate(es))
    requires t in After(lockWrites, es).txs
    requires After(lockWrites, es).txs[t].Reading? || After(lockWrites, es).txs[t].Writing?
    ensures var tx := After(lockWrites, es).txs[t];
            && ValueAt(tx.data, ns, key) == LastWrite(Concat(SeenBy(es, t)) + OpsOf(es, t), ns, key)
            && SeenBy(es, t) <= Commits(es)
            && (tx.Reading? ==> OpsOf(es, t) == [])
            && (tx.Writing? && lockWrites ==> SeenBy(es, t) == Commits(es))
  {
    Law(lockWrites, es);
    if lockWrites {
      LockKeepsUpToDate(es);
    }
    assert TxExplained(After(lockWrites, es), es, t);
    SeenIsPrefix(es, t);
    var seen, ops := SeenBy(es, t), OpsOf(es, t);
    SerialIsConcat(seen);
    ApplyAllAppend(map[], Concat(seen), ops);
    GetIsLastWrite(Concat(seen) + ops, ns, key);
  }

  lemma {:induction false} LastWriteAppend(a: seq<Op>, b: seq<Op>, ns: Namespace, key: Key)
    ensures LastWrite(a + b, ns, key) == if Touches(b, ns, key) then LastWrite(b, ns, key) else LastWrite(a, ns, key)
    decreases |b|
  {
    if b == [] {
      assert a + b == a;
    } else {
      var front, last := b[..|b| - 1], b[|b| - 1];
      LastWriteAppend(a, front, ns, key);
      assert (a + b)[..|a + b| - 1] == a + front;
      assert b == front + [last];
      TouchesStep(front, last, ns, key);
    }
  }

  /**
  Without locking a commit can miss others, and so can those before it. In every run, a commit leaves a key with
  its value in the serial order exactly if the committing transaction wrote the key itself, or the store held that
  value already when the transaction was opened.
  */
  lemma CommitKeepsOrderExactly(es: seq<Event>, t: TxId, ns: Namespace, key: Key)
    requires Feasible(false, es) && Enabled(After(false, es), Publish(t))
    ensures Feasible(false, es + [Publish(t)])
    ensures ValueAt(After(false, es + [Publish(t)]).data, ns, key)
            == LastWrite(Concat(Commits(es + [Publish(t)])), ns, key)
       <==> || Touches(OpsOf(es, t), ns, key)
            || ValueAt(DataAtOpen(false, es, t), ns, key) == LastWrite(Concat(Commits(es)), ns, key)
  {
    OpenExactly(false, es, t);
    Extend(false, es, Publish(t));
    SnapshotRead(false, es, t, ns, key);
    HistoryStep(es, Publish(t), t);
    SerialAppend(Commits(es), OpsOf(es, t));
    LastWriteAppend(Concat(Commits(es)), OpsOf(es, t), ns, key);
  }

  /** The first commit to miss others does so exactly if the key is the same with or without the missed commits. */
  lemma FirstMissKeepsOrderExactly(es: seq<Event>, t: TxId, ns: Namespace, key: Key)
    requires Feasible(false, es) && UpToDate(es) && Enabled(After(false, es), Publish(t))
    ensures Feasible(false, es + [Publish(t)])
    ensures ValueAt(After(false, es + [Publish(t)]).data, ns, key)
            == LastWrite(Concat(Commits(es + [Publish(t)])), ns, key)
       <==> || Touches(OpsOf(es, t), ns, key)
            || LastWrite(Concat(SeenBy(es, t)), ns, key) == LastWrite(Concat(Commits(es)), ns, key)
  {
    CommitKeepsOrderExactly(es, t, ns, key);
    SnapshotRead(false, es, t, ns, key);
    Isolated(false, es, t, ns, key);
    LastWriteAppend(Concat(SeenBy(es, t)), OpsOf(es, t), ns, key);
  }

  /**
  For later commits that is not enough. Once a key is lost, a commit that misses another one which left the key
  alone sees the key the same with or without it, and still does not restore the serial order.
  */
  lemma LaterMissKeepsLoss(es: seq<Event>, t: TxId, u: TxId, ns: Namespace, key: Key)
    requires Feasible(false, es) && t != u && t !in After(false, es).txs && u !in After(false, es).txs
    requires ValueAt(After(false, es).data, ns, key) != LastWrite(Concat(Commits(es)), ns, key)
    ensures var before := es + [OpenWrite(t)] + [OpenWrite(u)] + [Publish(u)];
            && Feasible(false, before + [Publish(t)])
            && LastWrite(Concat(SeenBy(before, t)), ns, key) == LastWrite(Concat(Commits(before)), ns, key)
            && ValueAt(After(false, before + [Publish(t)]).data, ns, key)
            != LastWrite(Concat(Commits(before + [Publish(t)])), ns, key)
  {
    OpenExactly(false, es, t);
    var first := es + [OpenWrite(t)];
    var second := first + [OpenWrite(u)];
    var before := second + [Publish(u)];
    OpenStep(es, t, t);
    OpenStep(first, u, t);
    HistoryStep(second, Publish(u), t);
    Extend(false, second, Publish(u));
    assert before[..|second|] == second;
    SerialAppend(Commits(es), []);
    assert Concat(Commits(es)) + [] == Concat(Commits(es));
    CommitKeepsOrderExactly(before, t, ns, key);
  }

  lemma OpenStep(es: seq<Event>, u: TxId, t: TxId)
    requires Feasible(false, es) && !After(false, es).lockWrites && u !in After(false, es).txs
    ensures var next := es + [OpenWrite(u)];
            && Feasible(false, next)
            && After(false, next) == After(false, es).(txs := After(false, es).txs[u := Writing(After(false, es).data)])
            && Commits(next) == Commits(es) && OpsOf(next, u) == []
            && (u == t ==> SeenBy(next, t) == Commits(es) && DataAtOpen(false, next, t) == After(false, es).data)
            && (u != t ==> && SeenBy(next, t) == SeenBy(es, t) && OpsOf(next, t) == OpsOf(es, t)
                           && DataAtOpen(false, next, t) == DataAtOpen(false, es, t))
  {
    Extend(false, es, OpenWrite(u));
    HistoryStep(es, OpenWrite(u), t);
    HistoryStep(es, OpenWrite(u), u);
    assert (es + [OpenWrite(u)])[..|es|] == es;
  }

  /** Without locking, overlapping write transactions can lose an update, in whatever order one runs them. */
  lemma UpdateLost(ns: Namespace, a: Key, b: Key, val: Val)
    requires a != b
    ensures var es := [OpenWrite(1), OpenWrite(2), Write(1, Put(ns, a, val)), Write(2, Put(ns, b, val)),
                       Publish(1), Publish(2)];
            && Feasible(false, es)
            && ValueAt(After(false, es).data, ns, a) == None
            && ValueAt(RunSerially([[Put(ns, a, val)], [Put(ns, b, val)]]), ns, a) == Some(val)
            && ValueAt(RunSerially([[Put(ns, b, val)], [Put(ns, a, val)]]), ns, a) == Some(val)
  {
    var w1, w2 := Write(1, Put(ns, a, val)), Write(2, Put(ns, b, val));
    var e0 := [];
    Extend(false, e0, OpenWrite(1));
    var e1 := e0 + [OpenWrite(1)];
    Extend(false, e1, OpenWrite(2));
    var e2 := e1 + [OpenWrite(2)];
    Extend(false, e2, w1);
    var e3 := e2 + [w1];
    Extend(false, e3, w2);
    var e4 := e3 + [w2];
    Extend(false, e4, Publish(1));
    var e5 := e4 + [Publish(1)];
    Extend(false, e5, Publish(2));
    assert e5 + [Publish(2)] == [OpenWrite(1), OpenWrite(2), w1, w2, Publish(1), Publish(2)];
    SerialPair(Put(ns, a, val), Put(ns, b, val));
    SerialPair(Put(ns, b, val), Put(ns, a, val));
  }

  lemma Extend(lockWrites: bool, es: seq<Event>, e: Event)
    requires Feasible(lockWrites, es) && Enabled(After(lockWrites, es), e)
    ensures Feasible(lockWrites, es + [e]) && After(lockWrites, es + [e]) == Next(After(lockWrites, es), e)
  {
    assert (es + [e])[..|es|] == es;
  }

  lemma SerialPair(p: Op, q: Op)
    ensures RunSerially([[p], [q]]) == Apply(Apply(map[], p), q)
  {
    SerialAppend([], [p]);
    SerialAppend([[p]], [q]);
    assert [] + [[p]] == [[p]] && [[p]] + [[q]] == [[p], [q]];
    ApplyOne(map[], p);
    ApplyOne(Apply(map[], p), q);
  }

  // ---- The store as an object ----

  /** The backend with the transactions opened on it; a transaction is named by the handle it was opened under. */
  class InMemoryBackend {
    const lockWrites: bool
    var data: Data
    var token: Option<TxId>
    var txs: map<TxId, Tx>
    var nextId: TxId
    /** Every step taken so far. */
    ghost var history: seq<Event>

    ghost predicate Valid()
      reads this
    {
      && (forall t :: t in txs ==> t < nextId)
      && Feasible(lockWrites, history)
      && After(lockWrites, history) == Store(lockWrites, data, token, txs)
    }

    constructor (lockWrites: bool)
      ensures Valid() && this.lockWrites == lockWrites && history == []
    {
      this.lockWrites := lockWrites;
      data, token, txs, nextId := map[], None, map[], 0;
      history := [];
    }

    ghost method Record(e: Event)
      requires Feasible(lockWrites, history) && Enabled(After(lockWrites, history), e)
      modifies this`history
      ensures history == old(history) + [e] && Feasible(lockWrites, history)
      ensures After(lockWrites, history) == Next(old(After(lockWrites, history)), e)
    {
      Extend(lockWrites, history, e);
      history := history + [e];
    }

    /** Takes a fresh snapshot. */
    method Read() returns (t: TxId)
      requires Valid()
      modifies this
      ensures Valid() && history == old(history) + [OpenRead(t)]
      ensures t !in old(txs) && txs == old(txs)[t := Reading(data)] && data == old(data) && token == old(token)
    {
      t := nextId;
      nextId := nextId + 1;
      Record(OpenRead(t));
      txs := txs[t := Reading(data)];
    }

    /** Takes the token, if writes are locked, and then a snapshot. Called while the token is taken, it blocks. */
    method Write() returns (t: TxId)
      requires Valid() && (lockWrites ==> token == None)
      modifies this
      ensures Valid()
      ensures history == old(history) + if lockWrites then [TakeToken(t), OpenWrite(t)] else [OpenWrite(t)]
      ensures t !in old(txs) && txs == old(txs)[t := Writing(data)] && data == old(data)
      ensures token == if lockWrites then Some(t) else old(token)
    {
      t := nextId;
      nextId := nextId + 1;
      if lockWrites {
        Record(TakeToken(t));
        token := Some(t);
        txs := txs[t := Waiting];
      }
      Record(OpenWrite(t));
      txs := txs[t := Writing(data)];
    }

    method Get(t: TxId, ns: Namespace, key: Key) returns (val: Option<Val>)
      requires Valid() && t in txs && (txs[t].Reading? || txs[t].Writing?)
      ensures val == if Touches(OpsOf(history, t), ns, key) then LastWrite(OpsOf(history, t), ns, key)
                     else ValueAt(DataAtOpen(lockWrites, history, t), ns, key)
      ensures lockWrites || UpToDate(history) ==>
                val == LastWrite(Concat(SeenBy(history, t)) + OpsOf(history, t), ns, key)
    {
      SnapshotRead(lockWrites, history, t, ns, key);
      if lockWrites || UpToDate(history) {
        Isolated(lockWrites, history, t, ns, key);
      }
      val := ValueAt(txs[t].data, ns, key);
    }

    method Put(t: TxId, ns: Namespace, key: Key, val: Val)
      requires Valid() && t in txs && txs[t].Writing?
      modifies this
      ensures Valid() && history == old(history) + [Event.Write(t, Op.Put(ns, key, val))]
      ensures data == old(data) && token == old(token) && txs.Keys == old(txs).Keys
    {
      Record(Event.Write(t, Op.Put(ns, key, val)));
      var d := txs[t].data;
      var m := if ns in d then d[ns] else map[];
      txs := txs[t := Writing(d[ns := m[key := val]])];
    }

    method Delete(t: TxId, ns: Namespace, key: Key)
      requires Valid() && t in txs && txs[t].Writing?
      modifies this
      ensures Valid() && history == old(history) + [Event.Write(t, Op.Delete(ns, key))]
      ensures data == old(data) && token == old(token) && txs.Keys == old(txs).Keys
    {
      Record(Event.Write(t, Op.Delete(ns, key)));
      var d := txs[t].data;
      if ns in d {
        txs := txs[t := Writing(d[ns := d[ns] - {key}])];
      }
    }

    /** Publishes the transaction's data and then releases the token. */
    method Commit(t: TxId)
      requires Valid() && t in txs && txs[t].Writing?
      modifies this
      ensures Valid() && txs == old(txs) - {t} && data == old(txs[t].data)
      ensures token == if lockWrites then None else old(token)
      ensures history == old(history) + if lockWrites then [Publish(t), Release(t)] else [Publish(t)]
    {
      Record(Publish(t));
      data := txs[t].data;
      if lockWrites {
        txs := txs[t := Published];
        Record(Release(t));
        token := None;
      }
      txs := txs - {t};
    }

    /** Drops a reader. */
    method CloseRead(t: TxId)
      requires Valid() && t in txs && txs[t].Reading?
      modifies this
      ensures Valid() && txs == old(txs) - {t} && data == old(data) && token == old(token)
      ensures history == old(history) + [Event.CloseRead(t)]
    {
      Record(Event.CloseRead(t));
      txs := txs - {t};
    }

    method Rollback(t: TxId)
      requires Valid() && t in txs && txs[t].Writing?
      modifies this
      ensures Valid() && txs == old(txs) - {t} && data == old(data)
      ensures token == if lockWrites then None else old(token)
      ensures history == old(history) + [Event.Rollback(t)]
    {
      Record(Event.Rollback(t));
      if lockWrites {
        token := None;
      }
      txs := txs - {t};
    }
  }
}
