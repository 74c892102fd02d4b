/** What a snapshot sees, and which steps can change it. */
module Snapshots {
  import opened Types
  import opened TicketLock
  import opened Mvcc

  /** The records visible at a snapshot, apart from their deletion stamps. */
  function View(db: Db, tx: TxId): map<Key, Entity> {
    map k | k in db.recs && db.recs[k].IsAlive(tx) :: db.recs[k].WithDeleted(MAX_TX_ID)
  }

  /** Applying `w` with ticket `t` alters what snapshot `tx` sees. For tickets above the snapshot
      these are: a label update of a visible node, and a delete of a record that was already
      deleted for the snapshot. */
  predicate WriteDisturbs(db: Db, w: Write, t: TxId, tx: TxId) {
    var k := KeyOf(w);
    match w
    case CreateNode(_, _, _) => t <= tx
    case CreateEdge(_, _, _, _, _) => t <= tx
    case Relabel(_, labels) =>
      k in db.recs && db.recs[k].NodeRec? && db.recs[k].Deleted() > tx &&
      if t <= tx then db.recs[k].node.labels != labels || db.recs[k].Created() != t
      else db.recs[k].Created() <= tx
    case _ =>
      k in db.recs && db.recs[k].Created() <= tx &&
      if t <= tx then db.recs[k].Deleted() > tx else db.recs[k].Deleted() <= tx
  }

  predicate Disturbs(s: State, e: Event, tx: TxId)
    requires Mvcc.Enabled(s, e)
  {
    match e
    case ApplyOne(t) => WriteDisturbs(s.db, s.tickets.txns[t].phase.pending[0], t, tx)
    case HardDeleteNode(id) => NodeKey(id) in s.db.recs && s.db.recs[NodeKey(id)].IsAlive(tx)
    case HardDeleteEdge(id) => EdgeKey(id) in s.db.recs && s.db.recs[EdgeKey(id)].IsAlive(tx)
    case _ => false
  }

  /** Two record maps that differ at most at `k` show a snapshot the same exactly when they do so at `k`. */
  lemma ViewOnlyAt(db: Db, db': Db, k: Key, tx: TxId)
    requires forall x: Key :: x != k ==> (x in db.recs <==> x in db'.recs)
    requires forall x: Key :: x != k && x in db.recs ==> db'.recs[x] == db.recs[x]
    ensures View(db', tx) == View(db, tx) <==>
            ((k in View(db, tx) <==> k in View(db', tx)) && (k in View(db, tx) ==> View(db, tx)[k] == View(db', tx)[k]))
  {
    var v, v' := View(db, tx), View(db', tx);
    assert forall x: Key :: x != k ==> (x in v <==> x in v') && (x in v ==> v[x] == v'[x]);
    if (k in v <==> k in v') && (k in v ==> v[k] == v'[k]) {
      assert v == v';
    }
  }

  lemma WriteChangesIff(db: Db, w: Write, t: TxId, tx: TxId)
    requires tx < MAX_TX_ID
    requires Creates(w) ==> KeyOf(w) !in db.recs
    ensures View(ApplyWrite(db, w, t), tx) == View(db, tx) <==> !WriteDisturbs(db, w, t, tx)
  {
    ViewOnlyAt(db, ApplyWrite(db, w, t), KeyOf(w), tx);
  }

  lemma ReclaimChangesIff(db: Db, k: Key, tx: TxId)
    ensures View(Reclaim(db, k), tx) == View(db, tx) <==> !(k in db.recs && db.recs[k].IsAlive(tx))
  {
    ViewOnlyAt(db, Reclaim(db, k), k, tx);
  }

  /** Exactly which steps change what a snapshot sees, in every reachable state and for every
      snapshot. */
  lemma ViewChangesIff(s: State, e: Event, tx: TxId)
    requires Mvcc.Inv(s) && Mvcc.Enabled(s, e) && tx < MAX_TX_ID
    ensures View(Mvcc.Next(s, e).db, tx) == View(s.db, tx) <==> !Disturbs(s, e, tx)
  {
    hide Mvcc.Inv, View, WriteDisturbs, ApplyWrite, Reclaim;
    match e
    case ApplyOne(t) =>
      var w := s.tickets.txns[t].phase.pending[0];
      if Creates(w) {
        AppliedIsReserved(s, e);
      }
      WriteChangesIff(s.db, w, t, tx);
    case HardDeleteNode(id) => ReclaimChangesIff(s.db, NodeKey(id), tx);
    case HardDeleteEdge(id) => ReclaimChangesIff(s.db, EdgeKey(id), tx);
    case _ => AllocKeepsRecs(s, e);
  }

  lemma AllocKeepsRecs(s: State, e: Event)
    requires Mvcc.Enabled(s, e) && !e.ApplyOne? && !e.HardDeleteNode? && !e.HardDeleteEdge?
    ensures forall tx: TxId :: View(Mvcc.Next(s, e).db, tx) == View(s.db, tx)
  {
  }

  // ---------------------------------------------------------------- stamps over runs

  /** Records are stamped with tickets resolved so far: created by one, and deleted by none or one. */
  ghost predicate StampedBy(s: State, k: Key) {
    k in s.db.recs ==>
      && 1 <= s.db.recs[k].Created() <= s.tickets.committedTxId
      && (s.db.recs[k].Deleted() == MAX_TX_ID || 1 <= s.db.recs[k].Deleted() <= s.tickets.committedTxId)
  }

  lemma StepStampedBy(s: State, e: Event, k: Key)
    requires TicketLock.Inv(s.tickets) && Mvcc.Enabled(s, e) && StampedBy(s, k)
    ensures StampedBy(Mvcc.Next(s, e), k)
  {
    hide TicketLock.Inv, Moved;
    StoreAdvancesByOne(s.tickets, e);
    if e.ApplyOne? {
      AppliesResolved(s.tickets, e);
    }
  }

  lemma AppliesResolved(s: Tickets, e: Event)
    requires TicketLock.Inv(s) && TicketLock.Enabled(s, e) && e.ApplyOne?
    ensures 1 <= e.t <= s.committedTxId
  {
    assert TxnOk(s, e.t);
  }

  lemma {:induction false} RunStampedBy(s: State, es: seq<Event>, k: Key)
    requires TicketLock.Inv(s.tickets) && Mvcc.Allowed(s, es) && StampedBy(s, k)
    ensures StampedBy(Mvcc.Exec(s, es), k)
    decreases |es|
  {
    hide TicketLock.Inv, Mvcc.Next, Mvcc.Enabled, StampedBy;
    if es != [] {
      StepStampedBy(s, es[0], k);
      assert TicketLock.Inv(Mvcc.Next(s, es[0]).tickets) by { TicketStep(s, es[0]); }
      RunStampedBy(Mvcc.Next(s, es[0]), es[1..], k);
    }
  }

  lemma TicketStep(s: State, e: Event)
    requires TicketLock.Inv(s.tickets) && Mvcc.Enabled(s, e)
    ensures TicketLock.Inv(Mvcc.Next(s, e).tickets)
  {
    TicketLock.StepKeepsInv(s.tickets, e);
  }

  /** In every run from the empty database all stamps are tickets resolved by then, and the snapshot
      0 a reopened database starts with sees nothing. */
  lemma RunStamps(es: seq<Event>)
    requires Mvcc.Allowed(EMPTY, es)
    ensures var s := Mvcc.Exec(EMPTY, es);
      && (forall k :: StampedBy(s, k))
      && View(s.db, 0) == map[]
  {
    hide Mvcc.Exec, Mvcc.Allowed;
    InvStart();
    forall k ensures StampedBy(Mvcc.Exec(EMPTY, es), k) {
      RunStampedBy(EMPTY, es, k);
    }
    forall k ensures k !in View(Mvcc.Exec(EMPTY, es).db, 0) {
      AliveIsInView(Mvcc.Exec(EMPTY, es).db, k, 0);
      assert StampedBy(Mvcc.Exec(EMPTY, es), k);
    }
  }

  // ---------------------------------------------------------------- frozen snapshots

  /** Every ticket up to `tx` has been handed out and its transaction has finished applying. */
  ghost predicate Settled(s: State, tx: TxId) {
    && tx < s.tickets.nextTxId
    && forall t <- s.tickets.txns :: t <= tx ==> s.tickets.txns[t].committed && !s.tickets.txns[t].phase.Applying?
  }

  /** Writes inside the regime the store is meant for: creates, and deletes of records not deleted
      before. Reclaiming is not restricted. */
  predicate Gentle(s: State, e: Event)
    requires Mvcc.Enabled(s, e)
  {
    e.ApplyOne? ==>
      var w := s.tickets.txns[e.t].phase.pending[0];
      !w.Relabel? && (!Creates(w) && KeyOf(w) in s.db.recs ==> s.db.recs[KeyOf(w)].Deleted() == MAX_TX_ID)
  }

  predicate AllGentle(s: State, es: seq<Event>)
    requires Mvcc.Allowed(s, es)
    decreases |es|
  {
    es == [] || (Gentle(s, es[0]) && AllGentle(Mvcc.Next(s, es[0]), es[1..]))
  }

  /** The step is a `hard_delete` of `k`, which does not look at the record it takes away. */
  predicate ReclaimsKey(e: Event, k: Key) {
    match e
    case HardDeleteNode(id) => k == NodeKey(id)
    case HardDeleteEdge(id) => k == EdgeKey(id)
    case _ => false
  }

  predicate Removes(e: Event) {
    e.HardDeleteNode? || e.HardDeleteEdge?
  }

  /** Some step of the run reclaims `k`. */
  predicate Reclaimed(es: seq<Event>, k: Key) {
    exists e <- es :: ReclaimsKey(e, k)
  }

  lemma ReclaimedCons(es: seq<Event>, k: Key)
    requires es != []
    ensures Reclaimed(es, k) <==> ReclaimsKey(es[0], k) || Reclaimed(es[1..], k)
  {
    assert es == [es[0]] + es[1..];
  }

  lemma SettledStays(s: State, e: Event, tx: TxId)
    requires Mvcc.Inv(s) && Mvcc.Enabled(s, e) && Settled(s, tx)
    ensures Settled(Mvcc.Next(s, e), tx)
  {
    if OfTxn(e) {
      assert TxnOk(s.tickets, e.t);
    }
  }

  lemma GentleDisturbsNothing(s: State, e: Event, tx: TxId)
    requires Mvcc.Inv(s) && Mvcc.Enabled(s, e) && Settled(s, tx) && Gentle(s, e) && !Removes(e)
    ensures !Disturbs(s, e, tx)
  {
  }

  predicate SameIn(a: map<Key, Entity>, b: map<Key, Entity>, k: Key) {
    (k in a <==> k in b) && (k in a ==> a[k] == b[k])
  }

  lemma ReclaimView(db: Db, r: Key, tx: TxId, k: Key)
    ensures if k == r then k !in View(Reclaim(db, r), tx) else SameIn(View(Reclaim(db, r), tx), View(db, tx), k)
  {
  }

  lemma StepView(s: State, e: Event, tx: TxId, k: Key)
    requires Mvcc.Inv(s) && Mvcc.Enabled(s, e) && Settled(s, tx) && Gentle(s, e) && tx < MAX_TX_ID
    ensures var before, after := View(s.db, tx), View(Mvcc.Next(s, e).db, tx);
      if ReclaimsKey(e, k) then k !in after else SameIn(after, before, k)
  {
    hide Mvcc.Inv, View, Gentle, Reclaim;
    match e
    case HardDeleteNode(id) => ReclaimView(s.db, NodeKey(id), tx, k);
    case HardDeleteEdge(id) => ReclaimView(s.db, EdgeKey(id), tx, k);
    case _ =>
      GentleDisturbsNothing(s, e, tx);
      ViewChangesIff(s, e, tx);
  }

  /** Over any run of gentle writes and arbitrary reclaims, record by record: a settled snapshot
      keeps exactly the records no step reclaims, with the same fields, and gains none. */
  lemma {:induction false} RunView(s: State, es: seq<Event>, tx: TxId, k: Key)
    requires Mvcc.Inv(s) && Settled(s, tx)
    requires Mvcc.Allowed(s, es) && AllGentle(s, es)
    ensures var before, after := View(s.db, tx), View(Mvcc.Exec(s, es).db, tx);
      if Reclaimed(es, k) then k !in after else SameIn(after, before, k)
    decreases |es|
  {
    hide Mvcc.Inv, Mvcc.Next, Mvcc.Enabled, View, Gentle, Reclaimed, ReclaimsKey;
    assert tx < MAX_TX_ID by { TicketsBelowMax(s); }
    if es == [] {
      assert !Reclaimed(es, k) by { NothingReclaimed(k); }
    } else {
      StepView(s, es[0], tx, k);
      SettledStays(s, es[0], tx);
      Mvcc.StepKeepsInv(s, es[0]);
      RunView(Mvcc.Next(s, es[0]), es[1..], tx, k);
      ReclaimedCons(es, k);
    }
  }

  lemma NothingReclaimed(k: Key)
    ensures !Reclaimed([], k)
  {
  }

  lemma TicketsBelowMax(s: State)
    ensures s.tickets.nextTxId <= MAX_TX_ID
  {
  }

  /** Frozen snapshots: once every transaction up to `tx` has finished applying, whatever
      interleaving of creates, first deletes, reclaims and reused ids follows, the snapshot `tx`
      keeps seeing the same records with the same fields, if and only if none of the ids reclaimed
      is one it saw at the start. */
  lemma FrozenSnapshotIff(s: State, es: seq<Event>, tx: TxId)
    requires Mvcc.Inv(s) && Settled(s, tx)
    requires Mvcc.Allowed(s, es) && AllGentle(s, es)
    ensures View(Mvcc.Exec(s, es).db, tx) == View(s.db, tx) <==> forall k <- View(s.db, tx) :: !Reclaimed(es, k)
  {
    hide Mvcc.Inv, Mvcc.Exec, Mvcc.Allowed, View, AllGentle, Settled, Reclaimed;
    var before, after := View(s.db, tx), View(Mvcc.Exec(s, es).db, tx);
    forall k ensures if Reclaimed(es, k) then k !in after else SameIn(after, before, k) {
      RunView(s, es, tx, k);
    }
    if forall k <- before :: !Reclaimed(es, k) {
      assert after == before;
    }
  }

  // ---------------------------------------------------------------- compaction

  /** Collected by a compaction: stored, and deleted for snapshot `tx` and all later ones. */
  predicate DeadAt(s: State, id: NodeId, tx: TxId) {
    NodeKey(id) in s.db.recs && s.db.recs[NodeKey(id)].Deleted() <= tx
  }

  /** All reclaims of the run are of ids on one list, each id at most once. */
  predicate FromList(es: seq<Event>, left: set<NodeId>) {
    es == [] ||
    match es[0]
    case HardDeleteNode(id) => id in left && FromList(es[1..], left - {id})
    case HardDeleteEdge(_) => false
    case _ => FromList(es[1..], left)
  }

  /** What is left of the list. */
  function StillListed(es: seq<Event>, left: set<NodeId>): (r: set<NodeId>)
    ensures r <= left
  {
    if es == [] then left
    else if es[0].HardDeleteNode? then StillListed(es[1..], left - {es[0].nodeId})
    else StillListed(es[1..], left)
  }

  lemma {:induction false} FromListConcat(a: seq<Event>, b: seq<Event>, left: set<NodeId>)
    requires FromList(a + b, left)
    ensures FromList(a, left) && FromList(b, StillListed(a, left))
  {
    if a == [] {
      assert a + b == b;
    } else {
      assert (a + b)[1..] == a[1..] + b;
      FromListConcat(a[1..], b, if a[0].HardDeleteNode? then left - {a[0].nodeId} else left);
    }
  }

  lemma {:induction false} ReclaimedIsListed(es: seq<Event>, left: set<NodeId>, k: Key)
    requires FromList(es, left) && Reclaimed(es, k)
    ensures k.NodeKey? && k.id in left
  {
    ReclaimedCons(es, k);
    if !ReclaimsKey(es[0], k) {
      ReclaimedIsListed(es[1..], if es[0].HardDeleteNode? then left - {es[0].nodeId} else left, k);
    }
  }

  lemma StepKeepsDead(s: State, e: Event, id: NodeId, tx: TxId)
    requires Mvcc.Inv(s) && Mvcc.Enabled(s, e) && Gentle(s, e) && !ReclaimsKey(e, NodeKey(id))
    requires tx < MAX_TX_ID && DeadAt(s, id, tx)
    ensures DeadAt(Mvcc.Next(s, e), id, tx)
  {
    hide TicketLock.Inv, CreatesOf;
    if e.ApplyOne? && Creates(s.tickets.txns[e.t].phase.pending[0]) {
      AppliedIsReserved(s, e);
    }
  }

  /** Among whatever else happens, an id still on the list still has its dead record. */
  lemma {:induction false} ListedStaysDead(s: State, es: seq<Event>, left: set<NodeId>, id: NodeId, tx: TxId)
    requires Mvcc.Inv(s) && Mvcc.Allowed(s, es) && AllGentle(s, es) && FromList(es, left)
    requires tx < MAX_TX_ID && DeadAt(s, id, tx) && id in StillListed(es, left)
    ensures DeadAt(Mvcc.Exec(s, es), id, tx)
    decreases |es|
  {
    hide Mvcc.Inv, Mvcc.Next, Mvcc.Enabled, Gentle, DeadAt;
    if es != [] {
      var left' := if es[0].HardDeleteNode? then left - {es[0].nodeId} else left;
      assert id in StillListed(es[1..], left') && id in left';
      StepKeepsDead(s, es[0], id, tx);
      Mvcc.StepKeepsInv(s, es[0]);
      ListedStaysDead(Mvcc.Next(s, es[0]), es[1..], left', id, tx);
    }
  }

  /** One compaction, its list collected at once and its reclaims spread over a run among everybody
      else's steps: every snapshot it was collected for is frozen from the moment it settles, be
      that before or after the list was collected. */
  lemma CompactionFreezes(s: State, a: seq<Event>, b: seq<Event>, ids: set<NodeId>, tx: TxId)
    requires Mvcc.Inv(s) && forall id <- ids :: DeadAt(s, id, tx)
    requires Mvcc.Allowed(s, a) && AllGentle(s, a) && Settled(Mvcc.Exec(s, a), tx)
    requires Mvcc.Allowed(Mvcc.Exec(s, a), b) && AllGentle(Mvcc.Exec(s, a), b) && FromList(a + b, ids)
    ensures View(Mvcc.Exec(Mvcc.Exec(s, a), b).db, tx) == View(Mvcc.Exec(s, a).db, tx)
  {
    hide Mvcc.Inv, Mvcc.Exec, Mvcc.Allowed, View, AllGentle, FromList, Reclaimed;
    var s' := Mvcc.Exec(s, a);
    TicketsBelowMax(s');
    Mvcc.RunKeepsInv(s, a);
    FromListConcat(a, b, ids);
    forall k | k in View(s'.db, tx) ensures !Reclaimed(b, k) {
      if Reclaimed(b, k) {
        ReclaimedIsListed(b, StillListed(a, ids), k);
        ListedStaysDead(s, a, ids, k.id, tx);
        AliveIsInView(s'.db, k, tx);
        DeadIsNotAlive(s', k.id, tx);
        assert false;
      }
    }
    FrozenSnapshotIff(s', b, tx);
  }

  lemma DeadIsNotAlive(s: State, id: NodeId, tx: TxId)
    requires DeadAt(s, id, tx)
    ensures !s.db.recs[NodeKey(id)].IsAlive(tx)
  {
  }

  /** Some step of the run stores a new record under `k`. */
  predicate Reused(s: State, es: seq<Event>, k: Key)
    requires Mvcc.Allowed(s, es)
    decreases |es|
  {
    es != [] && (AppliesCreate(s, es[0], k) || Reused(Mvcc.Next(s, es[0]), es[1..], k))
  }

  /** Whatever is reclaimed in between, by this or another list, an id once collected has its dead
      record, or none, or was used again. */
  lemma {:induction false} CollectedOrReused(s: State, es: seq<Event>, id: NodeId, tx: TxId)
    requires Mvcc.Inv(s) && Mvcc.Allowed(s, es) && AllGentle(s, es) && tx < MAX_TX_ID
    requires NodeKey(id) in s.db.recs ==> DeadAt(s, id, tx)
    ensures NodeKey(id) in Mvcc.Exec(s, es).db.recs ==>
      DeadAt(Mvcc.Exec(s, es), id, tx) || Reused(s, es, NodeKey(id))
    decreases |es|
  {
    hide Mvcc.Inv, Mvcc.Next, Mvcc.Enabled, Gentle, DeadAt, AppliesCreate;
    if es != [] && !AppliesCreate(s, es[0], NodeKey(id)) {
      StepKeepsCollected(s, es[0], id, tx);
      Mvcc.StepKeepsInv(s, es[0]);
      CollectedOrReused(Mvcc.Next(s, es[0]), es[1..], id, tx);
    }
  }

  lemma StepKeepsCollected(s: State, e: Event, id: NodeId, tx: TxId)
    requires Mvcc.Inv(s) && Mvcc.Enabled(s, e) && Gentle(s, e) && !AppliesCreate(s, e, NodeKey(id)) && tx < MAX_TX_ID
    requires NodeKey(id) in s.db.recs ==> DeadAt(s, id, tx)
    ensures NodeKey(id) in Mvcc.Next(s, e).db.recs ==> DeadAt(Mvcc.Next(s, e), id, tx)
  {
    hide Mvcc.Inv;
  }

  /** Between collecting an id and reclaiming it, exactly this makes the reclaim take away something
      that snapshot `tx` sees: the id was used again, and its new record is alive there. */
  lemma StaleReclaimIff(s: State, es: seq<Event>, id: NodeId, tx: TxId)
    requires Mvcc.Inv(s) && Mvcc.Allowed(s, es) && AllGentle(s, es) && tx < MAX_TX_ID && DeadAt(s, id, tx)
    ensures var s', k := Mvcc.Exec(s, es), NodeKey(id);
      View(Mvcc.Next(s', HardDeleteNode(id)).db, tx) != View(s'.db, tx) <==>
      Reused(s, es, k) && k in s'.db.recs && s'.db.recs[k].IsAlive(tx)
  {
    hide Mvcc.Inv, Mvcc.Exec, Mvcc.Allowed, View, AllGentle, Reclaim, Reused;
    CollectedOrReused(s, es, id, tx);
    ReclaimChangesIff(Mvcc.Exec(s, es).db, NodeKey(id), tx);
  }

  // ---------------------------------------------------------------- where the freeze starts

  /** While a resolved ticket is still being applied, readers get snapshots that include it, yet
      none of its remaining creates is there: atomic visibility starts only once it settles. */
  lemma UnappliedIsInvisible(s: State, t: TxId, w: Write)
    requires Mvcc.Inv(s) && t in s.tickets.txns && s.tickets.txns[t].phase.Applying?
    requires w in s.tickets.txns[t].phase.pending && Creates(w)
    ensures t <= s.tickets.committedTxId && !Settled(s, s.tickets.committedTxId)
    ensures KeyOf(w) !in View(s.db, s.tickets.committedTxId)
  {
    assert TxnOk(s.tickets, t);
    CreatesOfMember(s.tickets.txns[t].phase.pending, w);
    assert Reserved(s, t, KeyOf(w)) && Conserved(s.db, KeyOf(w));
  }

  lemma {:induction false} CreatesOfMember(ws: seq<Write>, w: Write)
    requires w in ws && Creates(w)
    ensures CreatesOf(ws, KeyOf(w)) > 0
  {
    if ws[0] != w {
      CreatesOfMember(ws[1..], w);
    }
  }

  /** A step that keeps a record visible at `t`, once it is: no label update by a later ticket, no
      delete by a ticket up to `t`, no reclaiming. */
  predicate Spares(s: State, e: Event, t: TxId, k: Key)
    requires Mvcc.Enabled(s, e)
  {
    match e
    case ApplyOne(u) =>
      var w := s.tickets.txns[u].phase.pending[0];
      KeyOf(w) == k && k in s.db.recs && !Creates(w) ==> if w.Relabel? then u <= t else t < u
    case HardDeleteNode(id) => NodeKey(id) == k ==> k !in s.db.recs
    case HardDeleteEdge(id) => EdgeKey(id) == k ==> k !in s.db.recs
    case _ => true
  }

  predicate AllSpare(s: State, es: seq<Event>, t: TxId, k: Key)
    requires Mvcc.Allowed(s, es)
    decreases |es|
  {
    es == [] || (Spares(s, es[0], t, k) && AllSpare(Mvcc.Next(s, es[0]), es[1..], t, k))
  }

  lemma AliveIsInView(db: Db, k: Key, tx: TxId)
    ensures k in View(db, tx) <==> k in db.recs && db.recs[k].IsAlive(tx)
  {
  }

  /** These are exactly the steps that keep a visible record visible. */
  lemma StaysVisibleIff(s: State, e: Event, t: TxId, k: Key)
    requires Mvcc.Inv(s) && Mvcc.Enabled(s, e) && t < MAX_TX_ID
    requires k in s.db.recs && s.db.recs[k].IsAlive(t)
    ensures var db' := Mvcc.Next(s, e).db;
      k in db'.recs && db'.recs[k].IsAlive(t) <==> Spares(s, e, t, k)
  {
    hide TicketLock.Inv, CreatesOf;
    assert Conserved(s.db, k);
    if e.ApplyOne? && Creates(s.tickets.txns[e.t].phase.pending[0]) {
      AppliedIsReserved(s, e);
    }
  }

  lemma CommittedStays(s: State, e: Event, t: TxId)
    requires Mvcc.Enabled(s, e) && t in s.tickets.txns && s.tickets.txns[t].committed && TicketLock.Inv(s.tickets)
    ensures t in Mvcc.Next(s, e).tickets.txns && Mvcc.Next(s, e).tickets.txns[t].committed
  {
    assert TxnOk(s.tickets, t);
  }

  /** Still to be created and absent, or created and visible. */
  ghost predicate CreatesShow(s: State, t: TxId, k: Key) {
    && t in s.tickets.txns && s.tickets.txns[t].committed
    && if ToCreate(s, t, k) > 0 then k !in s.db.recs else k in s.db.recs && s.db.recs[k].IsAlive(t)
  }

  lemma StepCreatesShow(s: State, e: Event, t: TxId, k: Key)
    requires Mvcc.Inv(s) && Mvcc.Enabled(s, e) && Spares(s, e, t, k) && t < MAX_TX_ID
    requires CreatesShow(s, t, k)
    ensures CreatesShow(Mvcc.Next(s, e), t, k)
  {
    hide TicketLock.Inv, ToCreate, CreatesOf;
    CommittedStays(s, e, t);
    ToCreateAfter(s, e, t, k);
    Mvcc.StepKeepsInv(s, e);
    var s' := Mvcc.Next(s, e);
    assert Reserved(s', t, k) && Conserved(s'.db, k);
    if ToCreate(s, t, k) == 0 {
      if AppliesCreate(s, e, k) {
        AppliedIsReserved(s, e);
      }
      StaysVisibleIff(s, e, t, k);
    } else if AppliesCreate(s, e, k) {
      AppliedIsReserved(s, e);
      assert OneOwner(s, t, e.t, k) && Reserved(s, t, k);
    }
  }

  lemma {:induction false} RunCreatesShow(s: State, es: seq<Event>, t: TxId, k: Key)
    requires Mvcc.Inv(s) && Mvcc.Allowed(s, es) && AllSpare(s, es, t, k) && t < MAX_TX_ID
    requires CreatesShow(s, t, k)
    ensures CreatesShow(Mvcc.Exec(s, es), t, k)
    decreases |es|
  {
    hide Mvcc.Inv, Mvcc.Next, Mvcc.Enabled, Spares, CreatesShow;
    if es != [] {
      StepCreatesShow(s, es[0], t, k);
      Mvcc.StepKeepsInv(s, es[0]);
      RunCreatesShow(Mvcc.Next(s, es[0]), es[1..], t, k);
    }
  }

  /** Where atomic visibility starts, exactly: from the moment its ticket is resolved, a record a
      transaction creates is visible at that ticket if and only if its create has been applied,
      in every run that does not take the record away again. */
  lemma AppliedIsVisibleIff(s: State, es: seq<Event>, t: TxId, k: Key)
    requires Mvcc.Inv(s) && t in s.tickets.txns && s.tickets.txns[t].committed && ToCreate(s, t, k) > 0
    requires Mvcc.Allowed(s, es) && AllSpare(s, es, t, k)
    ensures k in View(Mvcc.Exec(s, es).db, t) <==> ToCreate(Mvcc.Exec(s, es), t, k) == 0
  {
    hide TicketLock.Inv, ToCreate, Mvcc.Exec, Mvcc.Allowed, AllSpare, View;
    assert t < MAX_TX_ID by { TicketBelowNext(s.tickets, t); }
    assert Reserved(s, t, k) && Conserved(s.db, k);
    RunCreatesShow(s, es, t, k);
    AliveIsInView(Mvcc.Exec(s, es).db, k, t);
  }

  lemma TicketBelowNext(s: Tickets, t: TxId)
    requires TicketLock.Inv(s) && t in s.txns
    ensures t < s.nextTxId
  {
  }

  /** Once it has settled, all of a transaction's creates are visible together. */
  lemma SettledShowsAll(s: State, es: seq<Event>, t: TxId)
    requires Mvcc.Inv(s) && t in s.tickets.txns && s.tickets.txns[t].committed
    requires Mvcc.Allowed(s, es) && Settled(Mvcc.Exec(s, es), t)
    requires forall k :: ToCreate(s, t, k) > 0 ==> AllSpare(s, es, t, k)
    ensures forall k :: ToCreate(s, t, k) > 0 ==> k in View(Mvcc.Exec(s, es).db, t)
  {
    hide Mvcc.Inv, ToCreate, Mvcc.Exec, Mvcc.Allowed, AllSpare, View;
    forall k | ToCreate(s, t, k) > 0 ensures k in View(Mvcc.Exec(s, es).db, t) {
      AppliedIsVisibleIff(s, es, t, k);
      NothingToCreate(Mvcc.Exec(s, es), t, k);
    }
  }

  lemma NothingToCreate(s: State, t: TxId, k: Key)
    requires Settled(s, t)
    ensures ToCreate(s, t, k) == 0
  {
  }

  const FIRST: Write := CreateNode(0, [], 0)
  const SECOND: Write := CreateNode(1, [], 0)

  const BUFFERED: Txn := Txn(0, false, Idle, Buffer([FIRST, SECOND], [], [], [], []))

  /** One transaction has buffered two nodes. */
  const BUFFERING: State := State(Tickets(2, 0, map[1 := BUFFERED]), Db(map[], {}, {NodeKey(0), NodeKey(1)}, 2, 0))

  lemma BufferRun()
    ensures var es := [Begin, LoadSnapshot(1), TicketLock.Push(1, FIRST), TicketLock.Push(1, SECOND)];
      Mvcc.Allowed(EMPTY, es) && Mvcc.Exec(EMPTY, es) == BUFFERING
  {
    var x := Txn(0, false, Begun, NO_WRITES);
    var s1 := State(Tickets(2, 0, map[1 := x]), EMPTY.db);
    assert Mvcc.Next(EMPTY, Begin) == s1;
    var s2 := s1.(tickets := Tickets(2, 0, map[1 := x.(phase := Idle)]));
    assert Mvcc.Next(s1, LoadSnapshot(1)) == s2;
    var s3 := State(Tickets(2, 0, map[1 := BUFFERED.(buffer := Buffer([FIRST], [], [], [], []))]),
                    Db(map[], {}, {NodeKey(0)}, 1, 0));
    assert NO_WRITES.Push(FIRST) == Buffer([FIRST], [], [], [], []);
    var next2 := Mvcc.Next(s2, TicketLock.Push(1, FIRST));
    assert next2.tickets.txns == s3.tickets.txns && next2.db.reserved == s3.db.reserved;
    assert next2 == s3;
    assert [FIRST] + [SECOND] == [FIRST, SECOND];
    assert Mvcc.Next(s3, TicketLock.Push(1, SECOND)) == BUFFERING;
    hide Mvcc.Next, Mvcc.Enabled;
    RunCons(s3, TicketLock.Push(1, SECOND), []);
    RunCons(s2, TicketLock.Push(1, FIRST), [TicketLock.Push(1, SECOND)]);
    RunCons(s1, LoadSnapshot(1), [TicketLock.Push(1, FIRST), TicketLock.Push(1, SECOND)]);
    RunCons(EMPTY, Begin, [LoadSnapshot(1), TicketLock.Push(1, FIRST), TicketLock.Push(1, SECOND)]);
  }

  lemma RunCons(s: State, e: Event, es: seq<Event>)
    requires Mvcc.Enabled(s, e) && Mvcc.Allowed(Mvcc.Next(s, e), es)
    ensures Mvcc.Allowed(s, [e] + es) && Mvcc.Exec(s, [e] + es) == Mvcc.Exec(Mvcc.Next(s, e), es)
  {
    assert ([e] + es)[1..] == es;
  }

  /** Half of a transaction visible at a snapshot a reader can get. */
  lemma HalfAppliedIsVisible()
    ensures var es := [CallCommit(1), CommitLoad(1), CommitStore(1), TicketLock.ApplyOne(1)];
      && Mvcc.Allowed(BUFFERING, es)
      && var s := Mvcc.Exec(BUFFERING, es);
         s.tickets.committedTxId == 1 && NodeKey(0) in View(s.db, 1) && NodeKey(1) !in View(s.db, 1)
  {
    var db := BUFFERING.db;
    var s1 := State(Tickets(2, 0, map[1 := BUFFERED.(phase := Spinning(0))]), db);
    assert Mvcc.Next(BUFFERING, CallCommit(1)) == s1;
    var s2 := State(Tickets(2, 0, map[1 := BUFFERED.(phase := SawTurn)]), db);
    assert Mvcc.Next(s1, CommitLoad(1)) == s2;
    assert BUFFERED.buffer.Plan() == [FIRST, SECOND];
    var s3 := State(Tickets(2, 1, map[1 := BUFFERED.(committed := true, phase := Applying([FIRST, SECOND]))]), db);
    assert Mvcc.Next(s2, CommitStore(1)) == s3;
    var s4 := Mvcc.Next(s3, TicketLock.ApplyOne(1));
    assert s4.db.recs == map[NodeKey(0) := NodeRec(Node.New(0, [], 0, 1))];
    hide Mvcc.Next, Mvcc.Enabled;
    RunCons(s3, TicketLock.ApplyOne(1), []);
    RunCons(s2, CommitStore(1), [TicketLock.ApplyOne(1)]);
    RunCons(s1, CommitLoad(1), [CommitStore(1), TicketLock.ApplyOne(1)]);
    RunCons(BUFFERING, CallCommit(1), [CommitLoad(1), CommitStore(1), TicketLock.ApplyOne(1)]);
  }

  // ---------------------------------------------------------------- runs that disturb a settled snapshot

  /** The steps of a transaction that buffers and commits one write by itself. */
  function OneWrite(t: TxId, w: Write): seq<Event> {
    [Begin, LoadSnapshot(t), TicketLock.Push(t, w),
     CallCommit(t), CommitLoad(t), CommitStore(t), TicketLock.ApplyOne(t), Finish(t)]
  }

  function WithId(db: Db, w: Write): Db
    requires Creates(w) ==> CanAlloc(db, KeyOf(w))
  {
    if Creates(w) then Alloc(db, KeyOf(w)) else db
  }

  /** All tickets are resolved; the next one is `t`. */
  predicate NextIs(s: State, t: TxId) {
    s.tickets.nextTxId == t && s.tickets.committedTxId == t - 1 && 1 <= t < MAX_TX_ID
  }

  /** And they have settled. */
  ghost predicate Quiet(s: State, t: TxId) {
    NextIs(s, t) && forall u <- s.tickets.txns :: s.tickets.txns[u].committed && !s.tickets.txns[u].phase.Applying?
  }

  lemma PlanOfOne(w: Write)
    ensures NO_WRITES.Push(w).Plan() == [w]
  {
  }

  /** A transaction's own step changes its entry, perhaps the counter, perhaps the stores. */
  lemma OwnStep(s: State, txns: map<TxId, Txn>, x: Txn, e: Event)
    requires OfTxn(e) && s.tickets.txns == txns[e.t := x] && Mvcc.Enabled(s, e)
    ensures Mvcc.Next(s, e) ==
      State(Tickets(s.tickets.nextTxId, if Stores(e) then e.t else s.tickets.committedTxId,
                    txns[e.t := Moved(s.tickets, x, e)]),
            NextDb(s, e))
  {
    hide Moved, NextDb;
    assert txns[e.t := x][e.t := Moved(s.tickets, x, e)] == txns[e.t := Moved(s.tickets, x, e)];
  }

  /** The steps from begin to the buffered write. */
  lemma BeginRun(s: State, t: TxId, w: Write)
    requires NextIs(s, t) && (Creates(w) ==> CanAlloc(s.db, KeyOf(w)))
    ensures var es := [Begin, LoadSnapshot(t), TicketLock.Push(t, w)];
      && Mvcc.Allowed(s, es)
      && Mvcc.Exec(s, es) ==
         State(Tickets(t + 1, t - 1, s.tickets.txns[t := Txn(t - 1, false, Idle, NO_WRITES.Push(w))]), WithId(s.db, w))
  {
    hide Buffer.Push, Buffer.Plan, Alloc, CanAlloc;
    var txns, x := s.tickets.txns, Txn(0, false, Begun, NO_WRITES);
    var s1 := State(Tickets(t + 1, t - 1, txns[t := x]), s.db);
    assert Mvcc.Next(s, Begin) == s1;
    OwnStep(s1, txns, x, LoadSnapshot(t));
    var x2 := x.(snapshot := t - 1, phase := Idle);
    var s2 := State(Tickets(t + 1, t - 1, txns[t := x2]), s.db);
    OwnStep(s2, txns, x2, TicketLock.Push(t, w));
    hide Mvcc.Next, Mvcc.Enabled;
    RunCons(s2, TicketLock.Push(t, w), []);
    RunCons(s1, LoadSnapshot(t), [TicketLock.Push(t, w)]);
    RunCons(s, Begin, [LoadSnapshot(t), TicketLock.Push(t, w)]);
  }

  /** The steps from the call of commit to the store of the counter. */
  lemma ResolveRun(s: State, txns: map<TxId, Txn>, t: TxId, x: Txn, w: Write)
    requires 1 <= t < MAX_TX_ID && s.tickets == Tickets(t + 1, t - 1, txns[t := x])
    requires x.phase.Idle? && !x.committed && x.buffer == NO_WRITES.Push(w)
    ensures var es := [CallCommit(t), CommitLoad(t), CommitStore(t)];
      && Mvcc.Allowed(s, es)
      && Mvcc.Exec(s, es) == State(Tickets(t + 1, t, txns[t := x.(committed := true, phase := Applying([w]))]), s.db)
  {
    PlanOfOne(w);
    hide Buffer.Push, Buffer.Plan, Mvcc.Next, TicketLock.Next;
    OwnStep(s, txns, x, CallCommit(t));
    var x1 := x.(phase := Spinning(0));
    var s1 := State(Tickets(t + 1, t - 1, txns[t := x1]), s.db);
    OwnStep(s1, txns, x1, CommitLoad(t));
    var x2 := x.(phase := SawTurn);
    var s2 := State(Tickets(t + 1, t - 1, txns[t := x2]), s.db);
    OwnStep(s2, txns, x2, CommitStore(t));
    hide Mvcc.Enabled, Moved, NextDb;
    RunCons(s2, CommitStore(t), []);
    RunCons(s1, CommitLoad(t), [CommitStore(t)]);
    RunCons(s, CallCommit(t), [CommitLoad(t), CommitStore(t)]);
  }

  /** The steps from there to the return of commit. */
  lemma ApplyRun(s: State, txns: map<TxId, Txn>, t: TxId, x: Txn, w: Write)
    requires s.tickets.txns == txns[t := x.(committed := true, phase := Applying([w]))] && x.phase.Idle?
    ensures var es := [TicketLock.ApplyOne(t), Finish(t)];
      && Mvcc.Allowed(s, es)
      && Mvcc.Exec(s, es) == State(s.tickets.(txns := txns[t := x.(committed := true)]), ApplyWrite(s.db, w, t))
  {
    hide ApplyWrite, Mvcc.Next, TicketLock.Next;
    var x3 := x.(committed := true, phase := Applying([w]));
    assert [w][1..] == [];
    OwnStep(s, txns, x3, TicketLock.ApplyOne(t));
    var x4 := x.(committed := true, phase := Applying([]));
    var s4 := State(s.tickets.(txns := txns[t := x4]), ApplyWrite(s.db, w, t));
    OwnStep(s4, txns, x4, Finish(t));
    hide Mvcc.Enabled, Moved, NextDb;
    RunCons(s4, Finish(t), []);
    RunCons(s, TicketLock.ApplyOne(t), [Finish(t)]);
  }

  lemma {:induction false} RunAppend(s: State, a: seq<Event>, b: seq<Event>)
    requires Mvcc.Allowed(s, a) && Mvcc.Allowed(Mvcc.Exec(s, a), b)
    ensures Mvcc.Allowed(s, a + b) && Mvcc.Exec(s, a + b) == Mvcc.Exec(Mvcc.Exec(s, a), b)
    decreases |a|
  {
    hide Mvcc.Next, Mvcc.Enabled;
    if a == [] {
      assert a + b == b;
    } else {
      RunAppend(Mvcc.Next(s, a[0]), a[1..], b);
      assert (a + b)[1..] == a[1..] + b;
    }
  }

  /** The entry of a transaction that buffered one write and committed it. */
  function Done(t: TxId, w: Write): Txn
    requires t >= 1
  {
    Txn(t - 1, true, Idle, NO_WRITES.Push(w))
  }

  /** A transaction that runs by itself, whatever earlier ones have still to apply, applies its
      write with its ticket; if they have settled, all have. */
  lemma OneWriteRun(s: State, t: TxId, w: Write)
    requires NextIs(s, t) && (Creates(w) ==> CanAlloc(s.db, KeyOf(w)))
    ensures Mvcc.Allowed(s, OneWrite(t, w))
    ensures var s' := Mvcc.Exec(s, OneWrite(t, w));
      && s' == State(Tickets(t + 1, t, s.tickets.txns[t := Done(t, w)]), ApplyWrite(WithId(s.db, w), w, t))
      && (Quiet(s, t) ==> (t + 1 < MAX_TX_ID ==> Quiet(s', t + 1)) && Settled(s', t))
  {
    hide Mvcc.Exec, Mvcc.Allowed, Buffer.Push, ApplyWrite, WithId, CanAlloc;
    var a := [Begin, LoadSnapshot(t), TicketLock.Push(t, w)];
    var b := [CallCommit(t), CommitLoad(t), CommitStore(t)];
    var c := [TicketLock.ApplyOne(t), Finish(t)];
    var x := Txn(t - 1, false, Idle, NO_WRITES.Push(w));
    BeginRun(s, t, w);
    ResolveRun(Mvcc.Exec(s, a), s.tickets.txns, t, x, w);
    RunAppend(s, a, b);
    ApplyRun(Mvcc.Exec(s, a + b), s.tickets.txns, t, x, w);
    RunAppend(s, a + b, c);
    assert OneWrite(t, w) == a + b + c;
  }

  /** Where one transaction by itself leads. */
  ghost function AfterOne(s: State, t: TxId, w: Write): (s': State)
    requires NextIs(s, t) && (Creates(w) ==> CanAlloc(s.db, KeyOf(w)))
    ensures Mvcc.Allowed(s, OneWrite(t, w)) && s' == Mvcc.Exec(s, OneWrite(t, w))
  {
    OneWriteRun(s, t, w);
    Mvcc.Exec(s, OneWrite(t, w))
  }

  /** The database after one transaction has created node 0. */
  ghost function OneNode(): State {
    AfterOne(EMPTY, 1, FIRST)
  }

  lemma OneNodeFacts()
    ensures Quiet(OneNode(), 2) && Settled(OneNode(), 1)
    ensures OneNode().db.recs == map[NodeKey(0) := NodeRec(Node.New(0, [], 0, 1))]
  {
    hide Mvcc.Exec, Mvcc.Allowed;
    OneWriteRun(EMPTY, 1, FIRST);
  }

  /** A label update after the snapshot settled: the node the snapshot saw is gone from it. */
  lemma RelabelDisturbsSettled(labels: vec<LabelId>)
    ensures Settled(OneNode(), 1) && NodeKey(0) in View(OneNode().db, 1)
    ensures var es := OneWrite(2, Relabel(0, labels));
      Mvcc.Allowed(OneNode(), es) && NodeKey(0) !in View(Mvcc.Exec(OneNode(), es).db, 1)
  {
    hide Mvcc.Exec, Mvcc.Allowed, OneNode, OneWrite;
    OneNodeFacts();
    OneWriteRun(OneNode(), 2, Relabel(0, labels));
  }

  /** A second delete after the snapshot settled: the node it no longer saw is back in it. */
  lemma SecondDeleteDisturbsSettled()
    ensures Mvcc.Allowed(OneNode(), OneWrite(2, DeleteNode(0)))
    ensures var s := Mvcc.Exec(OneNode(), OneWrite(2, DeleteNode(0)));
      && Settled(s, 2) && NodeKey(0) !in View(s.db, 2)
      && Mvcc.Allowed(s, OneWrite(3, DeleteNode(0)))
      && NodeKey(0) in View(Mvcc.Exec(s, OneWrite(3, DeleteNode(0))).db, 2)
  {
    hide Mvcc.Exec, Mvcc.Allowed, OneNode, OneWrite;
    OneNodeFacts();
    OneWriteRun(OneNode(), 2, DeleteNode(0));
    OneWriteRun(Mvcc.Exec(OneNode(), OneWrite(2, DeleteNode(0))), 3, DeleteNode(0));
  }

  /** The database after node 0 was deleted, collected, reclaimed and its id used again. */
  function ReuseRun(labels: vec<LabelId>): seq<Event> {
    [HardDeleteNode(0)] + OneWrite(3, CreateNode(0, labels, 0))
  }

  lemma ReuseRunFacts(s: State, labels: vec<LabelId>)
    requires Quiet(s, 3) && NodeKey(0) in s.db.recs
    ensures Mvcc.Allowed(s, ReuseRun(labels))
    ensures var s' := Mvcc.Exec(s, ReuseRun(labels));
      Settled(s', 3) && NodeKey(0) in s'.db.recs && s'.db.recs[NodeKey(0)] == NodeRec(Node.New(0, labels, 0, 3))
  {
    hide Mvcc.Exec, Mvcc.Allowed, OneWrite;
    var s1 := Mvcc.Next(s, HardDeleteNode(0));
    assert CanAlloc(s1.db, NodeKey(0)) && Quiet(s1, 3);
    OneWriteRun(s1, 3, CreateNode(0, labels, 0));
    RunCons(s, HardDeleteNode(0), OneWrite(3, CreateNode(0, labels, 0)));
  }

  /** The database after node 0 was created and deleted. */
  ghost function OneDeleted(): State {
    OneNodeFacts();
    AfterOne(OneNode(), 2, DeleteNode(0))
  }

  lemma OneDeletedFacts()
    ensures Quiet(OneDeleted(), 3) && DeadAt(OneDeleted(), 0, 2)
  {
    hide Mvcc.Exec, Mvcc.Allowed, OneNode, OneWrite;
    OneNodeFacts();
    OneWriteRun(OneNode(), 2, DeleteNode(0));
  }

  /** A list collected before the id was reclaimed and used again: going through it once more takes
      away the new record, committed and settled. */
  lemma StaleListLosesRecord(labels: vec<LabelId>)
    ensures DeadAt(OneDeleted(), 0, 2) && Mvcc.Allowed(OneDeleted(), ReuseRun(labels))
    ensures var s := Mvcc.Exec(OneDeleted(), ReuseRun(labels));
      && Settled(s, 3) && NodeKey(0) in View(s.db, 3)
      && NodeKey(0) !in View(Mvcc.Next(s, HardDeleteNode(0)).db, 3)
  {
    hide Mvcc.Exec, Mvcc.Allowed, OneDeleted, ReuseRun;
    OneDeletedFacts();
    ReuseRunFacts(OneDeleted(), labels);
  }
}
