/**
 Snapshots over interleaved runs. Writers reserve ids while they buffer, resolve their ticket,
 and only then apply their writes to the shared records, one at a time, among the steps of
 everybody else; records may be reclaimed and their ids used again at any point.
 */
module Mvcc {
  import opened Types
  import opened TicketLock

  datatype Key = NodeKey(id: NodeId) | EdgeKey(id: EdgeId)

  datatype Entity = NodeRec(node: Node) | EdgeRec(edge: Edge)
  {
    function Created(): TxId {
      match this case NodeRec(n) => n.createdTx case EdgeRec(e) => e.createdTx
    }

    function Deleted(): TxId {
      match this case NodeRec(n) => n.deletedTx case EdgeRec(e) => e.deletedTx
    }

    predicate IsAlive(tx: TxId) {
      match this case NodeRec(n) => n.IsAlive(tx) case EdgeRec(e) => e.IsAlive(tx)
    }

    function WithDeleted(tx: TxId): Entity {
      match this case NodeRec(n) => NodeRec(n.(deletedTx := tx)) case EdgeRec(e) => EdgeRec(e.(deletedTx := tx))
    }
  }

  /** The shared stores and their allocators. */
  datatype Db = Db(recs: map<Key, Entity>, free: set<Key>, reserved: set<Key>, nextNode: u64, nextEdge: u64)

  datatype State = State(tickets: Tickets, db: Db)

  const EMPTY: State := State(START, Db(map[], {}, {}, 0, 0))

  function NextIdOf(db: Db, k: Key): u64 {
    match k case NodeKey(_) => db.nextNode case EdgeKey(_) => db.nextEdge
  }

  /** An allocation returns an id off the free list or the next fresh one. */
  predicate CanAlloc(db: Db, k: Key) {
    k in db.free || (k.id == NextIdOf(db, k) && k.id < NULL_EDGE)
  }

  function Alloc(db: Db, k: Key): Db
    requires CanAlloc(db, k)
  {
    if k in db.free then db.(free := db.free - {k}, reserved := db.reserved + {k})
    else match k
      case NodeKey(id) => db.(reserved := db.reserved + {k}, nextNode := id + 1)
      case EdgeKey(id) => db.(reserved := db.reserved + {k}, nextEdge := id + 1)
  }

  predicate Creates(w: Write) {
    w.CreateNode? || w.CreateEdge?
  }

  function KeyOf(w: Write): Key {
    match w
    case CreateNode(id, _, _) => NodeKey(id)
    case CreateEdge(id, _, _, _, _) => EdgeKey(id)
    case Relabel(id, _) => NodeKey(id)
    case DeleteNode(id) => NodeKey(id)
    case DeleteEdge(id) => EdgeKey(id)
  }

  /** One buffered write reaching the stores, stamped with its transaction's ticket. */
  function ApplyWrite(db: Db, w: Write, t: TxId): Db {
    var k := KeyOf(w);
    match w
    case CreateNode(id, labels, propsRow) =>
      db.(recs := db.recs[k := NodeRec(Node.New(id, labels, propsRow, t))], reserved := db.reserved - {k})
    case CreateEdge(id, src, dst, etype, propsRow) =>
      db.(recs := db.recs[k := EdgeRec(Edge.New(id, src, dst, etype, propsRow, t))], reserved := db.reserved - {k})
    case Relabel(_, labels) =>
      if k in db.recs && db.recs[k].NodeRec? then
        db.(recs := db.recs[k := NodeRec(db.recs[k].node.(labels := labels, createdTx := t))])
      else db
    case _ => if k in db.recs then db.(recs := db.recs[k := db.recs[k].WithDeleted(t)]) else db
  }

  function Reclaim(db: Db, k: Key): Db {
    if k in db.recs then db.(recs := db.recs - {k}, free := db.free + {k}) else db
  }

  predicate Enabled(s: State, e: Event) {
    && TicketLock.Enabled(s.tickets, e)
    && (e.Push? && Creates(e.w) ==> CanAlloc(s.db, KeyOf(e.w)))
  }

  function NextDb(s: State, e: Event): Db
    requires Enabled(s, e)
  {
    match e
    case Push(_, w) => if Creates(w) then Alloc(s.db, KeyOf(w)) else s.db
    case ApplyOne(t) => ApplyWrite(s.db, s.tickets.txns[t].phase.pending[0], t)
    case HardDeleteNode(id) => Reclaim(s.db, NodeKey(id))
    case HardDeleteEdge(id) => Reclaim(s.db, EdgeKey(id))
    case _ => s.db
  }

  function Next(s: State, e: Event): State
    requires Enabled(s, e)
  {
    State(TicketLock.Next(s.tickets, e), NextDb(s, e))
  }

  predicate Allowed(s: State, es: seq<Event>)
    decreases |es|
  {
    es == [] || (Enabled(s, es[0]) && Allowed(Next(s, es[0]), es[1..]))
  }

  function Exec(s: State, es: seq<Event>): State
    requires Allowed(s, es)
    decreases |es|
  {
    if es == [] then s else Exec(Next(s, es[0]), es[1..])
  }

  // ---------------------------------------------------------------- id conservation

  /** How often `k` is to be created by the writes `ws`. */
  function CreatesOf(ws: seq<Write>, k: Key): nat {
    if ws == [] then 0 else (if Creates(ws[0]) && KeyOf(ws[0]) == k then 1 else 0) + CreatesOf(ws[1..], k)
  }

  /** Writes a transaction may still apply. */
  function Pending(x: Txn): seq<Write> {
    if x.phase.Applying? then x.phase.pending
    else if x.committed then []
    else x.buffer.Plan()
  }

  /** Stored, free and reserved ids partition the ids handed out so far. */
  ghost predicate Conserved(db: Db, k: Key) {
    && (k.id < NextIdOf(db, k) <==> k in db.recs || k in db.free || k in db.reserved)
    && !(k in db.recs && k in db.free) && !(k in db.recs && k in db.reserved) && !(k in db.free && k in db.reserved)
    && (k in db.recs ==> (k.NodeKey? <==> db.recs[k].NodeRec?))
  }

  /** How often transaction `t` is still to create `k`. */
  function ToCreate(s: State, t: TxId, k: Key): nat {
    if t in s.tickets.txns then CreatesOf(Pending(s.tickets.txns[t]), k) else 0
  }

  /** An id is still to be created at most once, and then it is reserved. */
  ghost predicate Reserved(s: State, t: TxId, k: Key) {
    ToCreate(s, t, k) > 0 ==> ToCreate(s, t, k) == 1 && k in s.db.reserved
  }

  /** No two transactions are to create the same id. */
  ghost predicate OneOwner(s: State, t: TxId, u: TxId, k: Key) {
    ToCreate(s, t, k) > 0 && ToCreate(s, u, k) > 0 ==> t == u
  }

  ghost predicate IdInv(s: State) {
    && (forall k :: Conserved(s.db, k))
    && (forall t: TxId, k {:trigger Reserved(s, t, k)} :: Reserved(s, t, k))
    && (forall t: TxId, u: TxId, k {:trigger OneOwner(s, t, u, k)} :: OneOwner(s, t, u, k))
  }

  ghost predicate Inv(s: State) {
    TicketLock.Inv(s.tickets) && IdInv(s)
  }

  lemma {:induction false} CreatesOfAppend(a: seq<Write>, b: seq<Write>, k: Key)
    ensures CreatesOf(a + b, k) == CreatesOf(a, k) + CreatesOf(b, k)
  {
    if a == [] {
      assert a + b == b;
    } else {
      CreatesOfAppend(a[1..], b, k);
      assert (a + b)[1..] == a[1..] + b;
    }
  }

  lemma CreatesOfPlan(b: Buffer, k: Key)
    ensures CreatesOf(b.Plan(), k) ==
            CreatesOf(b.nodeInserts, k) + CreatesOf(b.nodeUpdates, k) + CreatesOf(b.nodeDeletes, k)
            + CreatesOf(b.edgeInserts, k) + CreatesOf(b.edgeDeletes, k)
  {
    CreatesOfAppend(b.nodeInserts, b.nodeUpdates, k);
    CreatesOfAppend(b.nodeInserts + b.nodeUpdates, b.nodeDeletes, k);
    CreatesOfAppend(b.nodeInserts + b.nodeUpdates + b.nodeDeletes, b.edgeInserts, k);
    CreatesOfAppend(b.nodeInserts + b.nodeUpdates + b.nodeDeletes + b.edgeInserts, b.edgeDeletes, k);
  }

  lemma CreatesOfSnoc(ws: seq<Write>, w: Write, k: Key)
    ensures CreatesOf(ws + [w], k) == CreatesOf(ws, k) + if Creates(w) && KeyOf(w) == k then 1 else 0
  {
    CreatesOfAppend(ws, [w], k);
    assert CreatesOf([w][1..], k) == 0;
  }

  lemma CreatesOfPush(b: Buffer, w: Write, k: Key)
    ensures CreatesOf(b.Push(w).Plan(), k) ==
            CreatesOf(b.Plan(), k) + if Creates(w) && KeyOf(w) == k then 1 else 0
  {
    hide Buffer.Plan, CreatesOf, Creates, KeyOf;
    CreatesOfPlan(b, k);
    CreatesOfPlan(b.Push(w), k);
    match w
    case CreateNode(_, _, _) => CreatesOfSnoc(b.nodeInserts, w, k);
    case Relabel(_, _) => CreatesOfSnoc(b.nodeUpdates, w, k);
    case DeleteNode(_) => CreatesOfSnoc(b.nodeDeletes, w, k);
    case CreateEdge(_, _, _, _, _) => CreatesOfSnoc(b.edgeInserts, w, k);
    case DeleteEdge(_) => CreatesOfSnoc(b.edgeDeletes, w, k);
  }

  function Pushed(e: Event, t: TxId, k: Key): nat {
    if e.Push? && e.t == t && Creates(e.w) && KeyOf(e.w) == k then 1 else 0
  }

  predicate AppliesCreate(s: State, e: Event, k: Key)
    requires Enabled(s, e)
  {
    e.ApplyOne? && var w := s.tickets.txns[e.t].phase.pending[0]; Creates(w) && KeyOf(w) == k
  }

  /** Writes still to come after a transaction's own step. */
  lemma PendingAfter(s: Tickets, x: Txn, e: Event, k: Key)
    requires TicketLock.Enabled(s, e) && OfTxn(e) && x == s.txns[e.t] && PhaseOk(x)
    ensures CreatesOf(Pending(Moved(s, x, e)), k) <= CreatesOf(Pending(x), k) + Pushed(e, e.t, k)
    ensures e.ApplyOne? ==> Pending(Moved(s, x, e)) == Pending(x)[1..]
    ensures x.committed && !e.ApplyOne? ==> Pending(Moved(s, x, e)) == Pending(x)
  {
    hide Buffer.Plan, Buffer.Push;
    if e.Push? {
      CreatesOfPush(x.buffer, e.w, k);
    }
    assert CreatesOf([], k) == 0;
  }

  /** Creations still to come after a step. */
  lemma ToCreateAfter(s: State, e: Event, t: TxId, k: Key)
    requires Enabled(s, e) && TicketLock.Inv(s.tickets)
    ensures ToCreate(Next(s, e), t, k) <= ToCreate(s, t, k) + Pushed(e, t, k)
    ensures AppliesCreate(s, e, k) && e.t == t ==> ToCreate(s, t, k) == ToCreate(Next(s, e), t, k) + 1
    ensures t in s.tickets.txns && s.tickets.txns[t].committed && !(AppliesCreate(s, e, k) && e.t == t) ==>
      ToCreate(Next(s, e), t, k) == ToCreate(s, t, k)
  {
    hide NextDb, Pending, Moved, KeyOf, Creates;
    assert TxnOk(s.tickets, t);
    if OfTxn(e) && e.t == t {
      PendingAfter(s.tickets, s.tickets.txns[t], e, k);
      assert Next(s, e).tickets.txns[t] == Moved(s.tickets, s.tickets.txns[t], e);
      PendingApplying(s.tickets.txns[t]);
      assert e.ApplyOne? ==> Pending(s.tickets.txns[t]) == s.tickets.txns[t].phase.pending;
    } else if e.Begin? && t == s.tickets.nextTxId {
      NothingPending(k);
    } else if t in s.tickets.txns {
      assert Next(s, e).tickets.txns[t] == s.tickets.txns[t];
    }
  }

  lemma PendingApplying(x: Txn)
    ensures x.phase.Applying? ==> Pending(x) == x.phase.pending
  {
  }

  lemma NothingPending(k: Key)
    ensures CreatesOf(Pending(Txn(0, false, Begun, NO_WRITES)), k) == 0
  {
  }

  lemma DbStepConserved(s: State, e: Event, k: Key)
    requires Inv(s) && Enabled(s, e)
    ensures Conserved(NextDb(s, e), k)
  {
    hide TicketLock.Inv, CreatesOf;
    assert Conserved(s.db, k);
    if e.ApplyOne? {
      var w := s.tickets.txns[e.t].phase.pending[0];
      if Creates(w) {
        AppliedIsReserved(s, e);
      }
      assert Conserved(s.db, KeyOf(w));
    }
  }

  /** A create about to be applied owns its id: it is reserved, so nothing is stored under it. */
  lemma AppliedIsReserved(s: State, e: Event)
    requires Inv(s) && Enabled(s, e) && e.ApplyOne? && Creates(s.tickets.txns[e.t].phase.pending[0])
    ensures var k := KeyOf(s.tickets.txns[e.t].phase.pending[0]);
      k in s.db.reserved && k !in s.db.recs && ToCreate(s, e.t, k) == 1
  {
    var k := KeyOf(s.tickets.txns[e.t].phase.pending[0]);
    assert ToCreate(s, e.t, k) > 0;
    assert Reserved(s, e.t, k);
    assert Conserved(s.db, k);
  }

  /** Ids leave the reserved set only by being created. */
  lemma ReservedAfter(s: State, e: Event, k: Key)
    requires Enabled(s, e)
    ensures k in s.db.reserved && !AppliesCreate(s, e, k) ==> k in NextDb(s, e).reserved
    ensures e.Push? && Creates(e.w) ==> KeyOf(e.w) in NextDb(s, e).reserved
  {
  }

  /** A freshly allocated id is not about to be created by anyone. */
  lemma AllocatedIsUnowned(s: State, t: TxId, k: Key)
    requires IdInv(s) && CanAlloc(s.db, k)
    ensures ToCreate(s, t, k) == 0
  {
    assert Conserved(s.db, k) && Reserved(s, t, k);
  }

  lemma StepReserved(s: State, e: Event, t: TxId, k: Key)
    requires Inv(s) && Enabled(s, e)
    ensures Reserved(Next(s, e), t, k)
  {
    hide ToCreate, Next, NextDb, TicketLock.Inv, Conserved;
    StepShape(s, e);
    ToCreateAfter(s, e, t, k);
    ReservedAfter(s, e, k);
    assert Reserved(s, t, k);
    if Pushed(e, t, k) == 1 {
      AllocatedIsUnowned(s, t, k);
    }
    if AppliesCreate(s, e, k) {
      AppliedIsReserved(s, e);
      assert OneOwner(s, t, e.t, k);
    }
  }

  lemma StepShape(s: State, e: Event)
    requires Enabled(s, e)
    ensures Next(s, e).db == NextDb(s, e) && Next(s, e).tickets == TicketLock.Next(s.tickets, e)
    ensures e.Push? && Creates(e.w) ==> CanAlloc(s.db, KeyOf(e.w))
  {
  }

  lemma StepOneOwner(s: State, e: Event, t: TxId, u: TxId, k: Key)
    requires Inv(s) && Enabled(s, e)
    ensures OneOwner(Next(s, e), t, u, k)
  {
    hide ToCreate, Next, NextDb, TicketLock.Inv, Conserved;
    StepShape(s, e);
    ToCreateAfter(s, e, t, k);
    ToCreateAfter(s, e, u, k);
    assert OneOwner(s, t, u, k);
    if Pushed(e, t, k) == 1 || Pushed(e, u, k) == 1 {
      AllocatedIsUnowned(s, t, k);
      AllocatedIsUnowned(s, u, k);
    }
  }

  lemma StepKeepsInv(s: State, e: Event)
    requires Inv(s) && Enabled(s, e)
    ensures Inv(Next(s, e))
  {
    hide Next, NextDb, Conserved, Reserved, OneOwner, TicketLock.Inv, TicketLock.Next;
    StepShape(s, e);
    TicketLock.StepKeepsInv(s.tickets, e);
    var s' := Next(s, e);
    forall k ensures Conserved(s'.db, k) {
      DbStepConserved(s, e, k);
    }
    forall t: TxId, k ensures Reserved(s', t, k) {
      StepReserved(s, e, t, k);
    }
    forall t: TxId, u: TxId, k ensures OneOwner(s', t, u, k) {
      StepOneOwner(s, e, t, u, k);
    }
  }

  lemma {:induction false} RunKeepsInv(s: State, es: seq<Event>)
    requires Inv(s) && Allowed(s, es)
    ensures Inv(Exec(s, es))
    decreases |es|
  {
    hide Inv, Next, Enabled;
    if es != [] {
      StepKeepsInv(s, es[0]);
      RunKeepsInv(Next(s, es[0]), es[1..]);
    }
  }

  lemma EmptyInv()
    ensures Inv(EMPTY)
  {
    InvStart();
  }

  /** In every interleaved run: stored, free and reserved ids partition the ids handed out, no
      two transactions are to create the same id, and applying a create never overwrites. */
  lemma IdsConserved(es: seq<Event>)
    requires Allowed(EMPTY, es)
    ensures var s := Exec(EMPTY, es);
      && (forall k: Key :: k.id < NextIdOf(s.db, k) <==> k in s.db.recs || k in s.db.free || k in s.db.reserved)
      && s.db.recs.Keys !! s.db.free && s.db.recs.Keys !! s.db.reserved && s.db.free !! s.db.reserved
      && (forall t: TxId, u: TxId, k ::
           ToCreate(s, t, k) > 0 && ToCreate(s, u, k) > 0 ==> t == u && ToCreate(s, t, k) == 1)
      && (forall e :: Enabled(s, e) && e.ApplyOne? && Creates(s.tickets.txns[e.t].phase.pending[0]) ==>
           KeyOf(s.tickets.txns[e.t].phase.pending[0]) !in s.db.recs)
  {
    hide Exec, Allowed, ToCreate;
    EmptyInv();
    RunKeepsInv(EMPTY, es);
    var s := Exec(EMPTY, es);
    forall k: Key
      ensures k.id < NextIdOf(s.db, k) <==> k in s.db.recs || k in s.db.free || k in s.db.reserved
      ensures !(k in s.db.recs && k in s.db.free) && !(k in s.db.recs && k in s.db.reserved)
      ensures !(k in s.db.free && k in s.db.reserved)
    {
      assert Conserved(s.db, k);
    }
    forall t: TxId, u: TxId, k | ToCreate(s, t, k) > 0 && ToCreate(s, u, k) > 0
      ensures t == u && ToCreate(s, t, k) == 1
    {
      assert OneOwner(s, t, u, k) && Reserved(s, t, k);
    }
    forall e | Enabled(s, e) && e.ApplyOne? && Creates(s.tickets.txns[e.t].phase.pending[0])
      ensures KeyOf(s.tickets.txns[e.t].phase.pending[0]) !in s.db.recs
    {
      AppliedIsReserved(s, e);
    }
  }
}
