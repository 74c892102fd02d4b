/**
 Write transactions and their tickets, as threads interleave. A step is one shared access: the
 ticket counter's `fetch_add`, a load of `committed_tx_id`, a store of it, or one call made on a
 transaction by its own thread. Loading the counter and storing it are separate steps; nothing
 in the protocol compares and swaps.
 */
module TicketLock {
  import opened Types

  const SPIN_LIMIT: nat := 100_000

  datatype Write =
    | CreateNode(id: NodeId, labels: vec<LabelId>, propsRow: u32)
    | CreateEdge(id: EdgeId, src: NodeId, dst: NodeId, etype: TypeId, propsRow: u32)
    | Relabel(id: NodeId, labels: vec<LabelId>)
    | DeleteNode(id: NodeId)
    | DeleteEdge(id: EdgeId)

  /** The write buffer, one list per kind of write. */
  datatype Buffer = Buffer(
    nodeInserts: seq<Write>,
    nodeUpdates: seq<Write>,
    nodeDeletes: seq<Write>,
    edgeInserts: seq<Write>,
    edgeDeletes: seq<Write>)
  {
    function Push(w: Write): Buffer {
      match w
      case CreateNode(_, _, _) => this.(nodeInserts := nodeInserts + [w])
      case Relabel(_, _) => this.(nodeUpdates := nodeUpdates + [w])
      case DeleteNode(_) => this.(nodeDeletes := nodeDeletes + [w])
      case CreateEdge(_, _, _, _, _) => this.(edgeInserts := edgeInserts + [w])
      case DeleteEdge(_) => this.(edgeDeletes := edgeDeletes + [w])
    }

    /** The order in which commit applies them. */
    function Plan(): seq<Write> {
      nodeInserts + nodeUpdates + nodeDeletes + edgeInserts + edgeDeletes
    }
  }

  const NO_WRITES: Buffer := Buffer([], [], [], [], [])

  /** Where a transaction's thread is. */
  datatype Phase =
    | Begun                         // has its ticket, has not loaded its snapshot
    | Idle                          // between calls
    | Spinning(spins: nat)          // commit, about to load the counter
    | SawTurn                       // commit, about to store
    | Applying(pending: seq<Write>) // commit, after the store
    | Rolling(dropping: bool)       // rollback, about to load
    | RollSawTurn(dropping: bool)   // rollback, about to store
    | Gone

  /** `committed` is the transaction's own flag, set when its ticket is resolved. */
  datatype Txn = Txn(snapshot: TxId, committed: bool, phase: Phase, buffer: Buffer)

  datatype Tickets = Tickets(nextTxId: u64, committedTxId: u64, txns: map<TxId, Txn>)

  datatype Event =
    | Begin
    | LoadSnapshot(t: TxId)
    | Push(t: TxId, w: Write)
    | CallCommit(t: TxId)
    | CommitLoad(t: TxId)
    | CommitStore(t: TxId)
    | ApplyOne(t: TxId)
    | Finish(t: TxId)
    | CallRollback(t: TxId)
    | CallDrop(t: TxId)
    | RollLoad(t: TxId)
    | RollStore(t: TxId)
    | HardDeleteNode(nodeId: NodeId)
    | HardDeleteEdge(edgeId: EdgeId)

  const START: Tickets := Tickets(1, 0, map[])

  predicate OfTxn(e: Event) {
    !e.Begin? && !e.HardDeleteNode? && !e.HardDeleteEdge?
  }

  predicate Enabled(s: Tickets, e: Event) {
    if e.Begin? then s.nextTxId < MAX_TX_ID
    else if !OfTxn(e) then true
    else
      && e.t in s.txns
      && var p := s.txns[e.t].phase;
         match e
         case LoadSnapshot(_) => p.Begun?
         case Push(_, _) => p.Idle?
         case CallCommit(_) => p.Idle?
         case CommitLoad(_) => p.Spinning?
         case CommitStore(_) => p.SawTurn?
         case ApplyOne(_) => p.Applying? && p.pending != []
         case Finish(_) => p.Applying? && p.pending == []
         case CallRollback(_) => p.Idle?
         case CallDrop(_) => p.Idle?
         case RollLoad(_) => p.Rolling?
         case RollStore(_) => p.RollSawTurn?
  }

  /** What the transaction's own thread does to it. */
  function Moved(s: Tickets, x: Txn, e: Event): Txn
    requires OfTxn(e) && e.t in s.txns && x == s.txns[e.t] && Enabled(s, e)
  {
    match e
    case LoadSnapshot(_) => x.(snapshot := s.committedTxId, phase := Idle)
    case Push(_, w) => x.(buffer := x.buffer.Push(w))
    case CallCommit(_) => if x.committed then x else x.(phase := Spinning(0))
    case CommitLoad(t) =>
      var spins := x.phase.spins + 1;
      if s.committedTxId == t - 1 then x.(phase := SawTurn)
      else if spins > SPIN_LIMIT then x.(phase := Idle)
      else x.(phase := Spinning(spins))
    case CommitStore(_) => x.(committed := true, phase := Applying(x.buffer.Plan()))
    case ApplyOne(_) => x.(phase := Applying(x.phase.pending[1..]))
    case Finish(_) => x.(phase := Idle)
    case CallRollback(_) => x.(phase := Rolling(false))
    case CallDrop(_) => x.(phase := if x.committed then Gone else Rolling(true))
    case RollLoad(t) => if s.committedTxId == t - 1 then x.(phase := RollSawTurn(x.phase.dropping)) else x
    case RollStore(_) => x.(committed := true, phase := if x.phase.dropping then Gone else Idle)
  }

  predicate Stores(e: Event) {
    e.CommitStore? || e.RollStore?
  }

  function Next(s: Tickets, e: Event): Tickets
    requires Enabled(s, e)
  {
    if e.Begin? then
      s.(nextTxId := s.nextTxId + 1, txns := s.txns[s.nextTxId := Txn(0, false, Begun, NO_WRITES)])
    else if !OfTxn(e) then s
    else
      s.(committedTxId := if Stores(e) then e.t else s.committedTxId,
         txns := s.txns[e.t := Moved(s, s.txns[e.t], e)])
  }

  /** About to store the counter. */
  predicate InWindow(x: Txn) {
    x.phase.SawTurn? || x.phase.RollSawTurn?
  }

  predicate PhaseOk(x: Txn) {
    match x.phase
    case Begun => !x.committed
    case Spinning(_) => !x.committed
    case SawTurn => !x.committed
    case Applying(_) => x.committed
    case Rolling(dropping) => dropping ==> !x.committed
    case RollSawTurn(_) => !x.committed
    case Gone => x.committed
    case Idle => true
  }

  ghost predicate TxnOk(s: Tickets, t: TxId) {
    t in s.txns ==>
      var x := s.txns[t];
      && (x.committed <==> t <= s.committedTxId)
      && (InWindow(x) ==> s.committedTxId == t - 1)
      && PhaseOk(x)
      && x.snapshot < t
  }

  ghost predicate Inv(s: Tickets) {
    && s.committedTxId < s.nextTxId
    && (forall t: TxId :: t in s.txns <==> 1 <= t < s.nextTxId)
    && (forall t: TxId {:trigger TxnOk(s, t)} {:trigger t in s.txns} :: TxnOk(s, t))
  }

  predicate Allowed(s: Tickets, es: seq<Event>)
    decreases |es|
  {
    es == [] || (Enabled(s, es[0]) && Allowed(Next(s, es[0]), es[1..]))
  }

  function Exec(s: Tickets, es: seq<Event>): Tickets
    requires Allowed(s, es)
    decreases |es|
  {
    if es == [] then s else Exec(Next(s, es[0]), es[1..])
  }

  // ---------------------------------------------------------------- safety

  lemma StepTxnOk(s: Tickets, e: Event, t: TxId)
    requires Inv(s) && Enabled(s, e)
    ensures TxnOk(Next(s, e), t)
  {
    assert TxnOk(s, t);
    if OfTxn(e) {
      assert TxnOk(s, e.t);
    }
  }

  lemma StepKeepsInv(s: Tickets, e: Event)
    requires Inv(s) && Enabled(s, e)
    ensures Inv(Next(s, e))
  {
    hide TxnOk, Moved;
    var s' := Next(s, e);
    if OfTxn(e) && Stores(e) {
      assert s.txns[e.t].phase.SawTurn? || s.txns[e.t].phase.RollSawTurn?;
    }
    forall t: TxId ensures TxnOk(s', t) {
      StepTxnOk(s, e, t);
    }
  }

  lemma {:induction false} RunKeepsInv(s: Tickets, es: seq<Event>)
    requires Inv(s) && Allowed(s, es)
    ensures Inv(Exec(s, es))
    decreases |es|
  {
    hide Inv, Next, Enabled;
    if es != [] {
      StepKeepsInv(s, es[0]);
      RunKeepsInv(Next(s, es[0]), es[1..]);
    }
  }

  /** A transaction's snapshot is the counter as it was when the transaction loaded it, from then on. */
  lemma SnapshotIsLoaded(s: Tickets, e: Event, t: TxId)
    requires Enabled(s, e) && t in s.txns && s.nextTxId !in s.txns
    ensures t in Next(s, e).txns
    ensures Next(s, e).txns[t].snapshot == if e == LoadSnapshot(t) then s.committedTxId else s.txns[t].snapshot
  {
  }

  /** Who may advance the counter, and by how much. */
  lemma StoreAdvancesByOne(s: Tickets, e: Event)
    requires Inv(s) && Enabled(s, e)
    ensures var s' := Next(s, e);
      && s'.committedTxId == s.committedTxId + (if Stores(e) then 1 else 0)
      && (Stores(e) ==> e.t == s.committedTxId + 1 && !s.txns[e.t].committed && s'.txns[e.t].committed)
  {
    if OfTxn(e) {
      assert TxnOk(s, e.t);
    }
  }

  lemma InvStart()
    ensures Inv(START)
  {
  }

  /** In every interleaving: at most one writer stands between seeing its turn and storing; the
      counter stays below the next ticket; the resolved tickets are exactly those up to the
      counter; every write transaction's snapshot lies strictly below its own ticket. */
  lemma Safety(es: seq<Event>)
    requires Allowed(START, es)
    ensures var s := Exec(START, es);
      && s.committedTxId < s.nextTxId
      && (forall t <- s.txns, u <- s.txns :: InWindow(s.txns[t]) && InWindow(s.txns[u]) ==> t == u)
      && (forall t: TxId :: 1 <= t < s.nextTxId ==> t in s.txns && (s.txns[t].committed <==> t <= s.committedTxId))
      && (forall t <- s.txns :: s.txns[t].snapshot < t)
      && (forall t <- s.txns :: s.txns[t].phase.Gone? ==> s.txns[t].committed)
  {
    hide Exec, Allowed, Next;
    InvStart();
    RunKeepsInv(START, es);
    var s := Exec(START, es);
    forall t: TxId | 1 <= t < s.nextTxId
      ensures t in s.txns && (s.txns[t].committed <==> t <= s.committedTxId)
    {
      assert TxnOk(s, t);
    }
  }

  function StoresOf(es: seq<Event>, t: TxId): nat {
    if es == [] then 0 else (if Stores(es[0]) && es[0].t == t then 1 else 0) + StoresOf(es[1..], t)
  }

  lemma {:induction false} StoresCount(s: Tickets, es: seq<Event>, t: TxId)
    requires Inv(s) && Allowed(s, es)
    ensures var s' := Exec(s, es);
      StoresOf(es, t) == (if s.committedTxId < t <= s'.committedTxId then 1 else 0)
      && s.committedTxId <= s'.committedTxId
    decreases |es|
  {
    hide Inv, Next, Enabled;
    if es != [] {
      StepKeepsInv(s, es[0]);
      StoreAdvancesByOne(s, es[0]);
      StoresCount(Next(s, es[0]), es[1..], t);
    }
  }

  /** Across commits, timeouts, rollbacks and drops, every ticket advances the counter exactly
      once if it is resolved by the end of the run, and not at all otherwise. */
  lemma ResolvedExactlyOnce(es: seq<Event>, t: TxId)
    requires Allowed(START, es) && t >= 1
    ensures var s := Exec(START, es);
      StoresOf(es, t) == if t in s.txns && s.txns[t].committed then 1 else 0
  {
    hide Exec, Allowed, Next;
    InvStart();
    StoresCount(START, es, t);
    RunKeepsInv(START, es);
    assert TxnOk(Exec(START, es), t);
  }

  // ---------------------------------------------------------------- progress

  /** Own steps a transaction is away from resolving its ticket, once it is its turn. */
  function Rank(x: Txn): nat {
    match x.phase
    case Begun => 4
    case Idle => 3
    case Spinning(_) => 2
    case Rolling(_) => 2
    case SawTurn => 1
    case RollSawTurn(_) => 1
    case _ => 0
  }

  function Unresolved(s: Tickets): nat
    requires s.committedTxId < s.nextTxId
  {
    s.nextTxId - 1 - s.committedTxId
  }

  function OwnerRank(s: Tickets): nat {
    var t := s.committedTxId + 1;
    if t < TWO64 && t in s.txns then Rank(s.txns[t]) else 0
  }

  predicate Descends(s: Tickets, s': Tickets)
    requires s.committedTxId < s.nextTxId && s'.committedTxId < s'.nextTxId
  {
    Unresolved(s') < Unresolved(s) || (Unresolved(s') == Unresolved(s) && OwnerRank(s') < OwnerRank(s))
  }

  /** The owner of the next ticket is never kept waiting and never times out: each of its steps
      other than buffering a write brings the measure down, and no step of another transaction
      touches it. */
  lemma OwnerStepsDescend(s: Tickets, e: Event)
    requires Inv(s) && Enabled(s, e) && !e.Begin?
    ensures Inv(Next(s, e))
    ensures OfTxn(e) && e.t == s.committedTxId + 1 && !e.Push? ==> Descends(s, Next(s, e))
    ensures !OfTxn(e) || e.t != s.committedTxId + 1 ==>
      Unresolved(Next(s, e)) == Unresolved(s) && OwnerRank(Next(s, e)) == OwnerRank(s)
  {
    StepKeepsInv(s, e);
    StoreAdvancesByOne(s, e);
    assert TxnOk(s, s.committedTxId + 1);
  }

  /** A step the owner can take right now. */
  function OwnerEvent(s: Tickets): Event
    requires s.committedTxId + 1 < TWO64
  {
    var t: TxId := s.committedTxId + 1;
    if t !in s.txns then Begin
    else match s.txns[t].phase
      case Begun => LoadSnapshot(t)
      case Spinning(_) => CommitLoad(t)
      case SawTurn => CommitStore(t)
      case Rolling(_) => RollLoad(t)
      case RollSawTurn(_) => RollStore(t)
      case _ => CallDrop(t)
  }

  lemma OwnerCanMove(s: Tickets)
    requires Inv(s) && s.committedTxId + 1 < s.nextTxId
    ensures var e := OwnerEvent(s);
      Enabled(s, e) && OfTxn(e) && e.t == s.committedTxId + 1 && !e.Push? && !e.Begin?
  {
    assert TxnOk(s, s.committedTxId + 1);
  }

  /** From every reachable state, taking no new tickets, the open ones can all be resolved; what
      is already resolved keeps its phase. */
  lemma {:induction false} Drain(s: Tickets) returns (es: seq<Event>)
    requires Inv(s)
    ensures Allowed(s, es) && Inv(Exec(s, es))
    ensures var s' := Exec(s, es);
      && s'.nextTxId == s.nextTxId && s'.committedTxId == s.nextTxId - 1
      && (forall t :: t in s.txns ==> t in s'.txns && s'.txns[t].committed)
    decreases Unresolved(s), OwnerRank(s)
  {
    hide Next, Enabled, Moved, TxnOk, OwnerEvent;
    if s.committedTxId + 1 == s.nextTxId {
      es := [];
      forall t | t in s.txns ensures s.txns[t].committed {
        CommittedUpTo(s, t);
      }
    } else {
      var e := OwnerEvent(s);
      OwnerCanMove(s);
      OwnerStepsDescend(s, e);
      NextKeeps(s, e);
      var rest := Drain(Next(s, e));
      es := [e] + rest;
      assert es[1..] == rest;
    }
  }

  lemma CommittedUpTo(s: Tickets, t: TxId)
    requires Inv(s) && t in s.txns
    ensures s.txns[t].committed <==> t <= s.committedTxId
  {
    assert TxnOk(s, t);
  }

  lemma NextKeeps(s: Tickets, e: Event)
    requires Inv(s) && Enabled(s, e) && !e.Begin?
    ensures Next(s, e).nextTxId == s.nextTxId && Next(s, e).txns.Keys == s.txns.Keys
  {
  }

  /** Calling rollback on a transaction already resolved: its thread waits for a counter value
      that is past and stays in the loop whatever the others do. */
  lemma {:induction false} LateRollbackHangs(s: Tickets, es: seq<Event>, t: TxId)
    requires Inv(s) && Allowed(s, es)
    requires t in s.txns && s.txns[t].committed && s.txns[t].phase.Rolling?
    ensures t in Exec(s, es).txns && Exec(s, es).txns[t].phase.Rolling?
    decreases |es|
  {
    if es != [] {
      StepKeepsInv(s, es[0]);
      assert TxnOk(s, t);
      LateRollbackHangs(Next(s, es[0]), es[1..], t);
    }
  }

  /** A rollback can return exactly when its ticket was not resolved before it was called. */
  lemma RollbackReturnsIff(s: Tickets, t: TxId)
    requires Inv(s) && t in s.txns && s.txns[t].phase.Rolling?
    ensures (exists es: seq<Event> ::
               Allowed(s, es) && t in Exec(s, es).txns && !Exec(s, es).txns[t].phase.Rolling?) <==>
            !s.txns[t].committed
  {
    hide Exec, Allowed;
    if s.txns[t].committed {
      forall es: seq<Event> | Allowed(s, es) ensures t in Exec(s, es).txns ==> Exec(s, es).txns[t].phase.Rolling? {
        LateRollbackHangs(s, es, t);
      }
    } else {
      var es := DrainedPast(s, t);
    }
  }

  lemma {:induction false} DrainedPast(s: Tickets, t: TxId) returns (es: seq<Event>)
    requires Inv(s) && t in s.txns && s.txns[t].phase.Rolling? && !s.txns[t].committed
    ensures Allowed(s, es) && t in Exec(s, es).txns && !Exec(s, es).txns[t].phase.Rolling?
    decreases Unresolved(s), OwnerRank(s)
  {
    hide TxnOk;
    var e := OwnerEvent(s);
    CommittedUpTo(s, t);
    OwnerCanMove(s);
    OwnerStepsDescend(s, e);
    NextKeeps(s, e);
    var s' := Next(s, e);
    if !s'.txns[t].phase.Rolling? {
      es := [e];
      assert es[1..] == [];
    } else {
      var rest := DrainedPast(s', t);
      es := [e] + rest;
      assert es[1..] == rest;
    }
  }

  lemma RunCons(s: Tickets, e: Event, es: seq<Event>)
    requires Enabled(s, e) && Allowed(Next(s, e), es)
    ensures Allowed(s, [e] + es) && Exec(s, [e] + es) == Exec(Next(s, e), es)
  {
    assert ([e] + es)[1..] == es;
  }

  /** The first transaction by itself. */
  function Alone(committedTxId: u64, x: Txn): Tickets {
    Tickets(2, committedTxId, map[1 := x])
  }

  lemma AloneStep(c: u64, x: Txn, e: Event)
    requires OfTxn(e) && e.t == 1 && Enabled(Alone(c, x), e)
    ensures Next(Alone(c, x), e) == Alone(if Stores(e) then 1 else c, Moved(Alone(c, x), x, e))
  {
    hide Moved, Enabled;
    assert map[1 := x][1 := Moved(Alone(c, x), x, e)] == map[1 := Moved(Alone(c, x), x, e)];
  }

  /** The steps by which it commits, having buffered nothing, and is then rolled back. */
  lemma CommitThenRollback(x: Txn)
    requires x == Txn(0, false, Idle, NO_WRITES)
    ensures var es := [CallCommit(1), CommitLoad(1), CommitStore(1), Finish(1), CallRollback(1)];
      && Allowed(Alone(0, x), es)
      && Exec(Alone(0, x), es) == Alone(1, x.(committed := true, phase := Rolling(false)))
  {
    hide Next;
    AloneStep(0, x, CallCommit(1));
    var x3, x4 := x.(phase := Spinning(0)), x.(phase := SawTurn);
    AloneStep(0, x3, CommitLoad(1));
    assert NO_WRITES.Plan() == [];
    AloneStep(0, x4, CommitStore(1));
    var y := x.(committed := true);
    var x5 := y.(phase := Applying([]));
    AloneStep(1, x5, Finish(1));
    AloneStep(1, y, CallRollback(1));
    hide Enabled, Moved;
    RunCons(Alone(1, y), CallRollback(1), []);
    RunCons(Alone(1, x5), Finish(1), [CallRollback(1)]);
    RunCons(Alone(0, x4), CommitStore(1), [Finish(1), CallRollback(1)]);
    RunCons(Alone(0, x3), CommitLoad(1), [CommitStore(1), Finish(1), CallRollback(1)]);
    RunCons(Alone(0, x), CallCommit(1), [CommitLoad(1), CommitStore(1), Finish(1), CallRollback(1)]);
  }

  /** A rollback called after a finished commit: a run to a transaction that no continuation frees. */
  lemma RollbackAfterCommit()
    ensures var es := [Begin, LoadSnapshot(1), CallCommit(1), CommitLoad(1), CommitStore(1), Finish(1), CallRollback(1)];
      && Allowed(START, es)
      && var s := Exec(START, es);
         1 in s.txns && s.txns[1].committed && s.txns[1].phase.Rolling?
  {
    hide Allowed, Exec;
    var x := Txn(0, false, Begun, NO_WRITES);
    assert Next(START, Begin) == Alone(0, x);
    AloneStep(0, x, LoadSnapshot(1));
    CommitThenRollback(x.(phase := Idle));
    var rest := [CallCommit(1), CommitLoad(1), CommitStore(1), Finish(1), CallRollback(1)];
    RunCons(Alone(0, x), LoadSnapshot(1), rest);
    RunCons(START, Begin, [LoadSnapshot(1)] + rest);
    assert [Begin] + ([LoadSnapshot(1)] + rest) ==
      [Begin, LoadSnapshot(1), CallCommit(1), CommitLoad(1), CommitStore(1), Finish(1), CallRollback(1)];
  }

  function Loads(t: TxId, n: nat): seq<Event> {
    seq(n, _ => CommitLoad(t))
  }

  /** A commit whose turn has not come loads the counter 100,000 times and goes on waiting, and gives up
      at the next load; its ticket is still unresolved then. */
  lemma {:induction false} GivesUpAfter(s: Tickets, t: TxId, k: nat, n: nat)
    requires t in s.txns && s.txns[t].phase == Spinning(k) && s.committedTxId != t - 1 && k + n <= 100_001 && n > 0
    ensures Allowed(s, Loads(t, n))
    ensures var s' := Exec(s, Loads(t, n));
      && s'.committedTxId == s.committedTxId && t in s'.txns
      && s'.txns[t] == s.txns[t].(phase := if k + n <= 100_000 then Spinning(k + n) else Idle)
    decreases n
  {
    var e, s1 := CommitLoad(t), Next(s, CommitLoad(t));
    assert Loads(t, n)[1..] == Loads(t, n - 1);
    if n > 1 {
      GivesUpAfter(s1, t, k + 1, n - 1);
    } else {
      assert Loads(t, 0) == [];
    }
  }
}
