/**
 Which orders of application leave the records of the ticket order, exactly. A record keeps its
 create, the last create or label update and the last delete that found it there; everything else
 done to it is overwritten.
 */
module SerialRecords {
  import opened Types
  import opened TicketLock
  import opened Mvcc
  import opened Snapshots
  import opened Plans
  import opened Serial

  predicate Labels(w: Write) {
    Creates(w) || w.Relabel?
  }

  /** A create, or a label update that finds its node. */
  predicate LabelsFound(recs: map<Key, Entity>, w: Write) {
    Creates(w) || (w.Relabel? && KeyOf(w) in recs && recs[KeyOf(w)].NodeRec?)
  }

  /** The last create or label update to take effect on `k`. */
  function LastLabel(recs: map<Key, Entity>, h: seq<Stamped>, k: Key): Option<Stamped> {
    if h == [] then None
    else
      var n := |h| - 1;
      if KeyOf(h[n].w) == k && LabelsFound(Folded(recs, h[..n]), h[n].w) then Some(h[n])
      else LastLabel(recs, h[..n], k)
  }

  /** The last delete to take effect on `k` since its create. */
  function LastDelete(recs: map<Key, Entity>, h: seq<Stamped>, k: Key): Option<Stamped> {
    if h == [] then None
    else
      var n := |h| - 1;
      if KeyOf(h[n].w) == k && Creates(h[n].w) then None
      else if KeyOf(h[n].w) == k && Deletes(h[n].w) && k in Folded(recs, h[..n]) then Some(h[n])
      else LastDelete(recs, h[..n], k)
  }

  function LastCreate(h: seq<Stamped>, k: Key): Option<Stamped> {
    if h == [] then None
    else
      var n := |h| - 1;
      if KeyOf(h[n].w) == k && Creates(h[n].w) then Some(h[n]) else LastCreate(h[..n], k)
  }

  function TicketOf(x: Option<Stamped>): Option<TxId> {
    match x case Some(y) => Some(y.t) case None => None
  }

  function Created(x: Stamped): Entity
    requires Creates(x.w)
  {
    match x.w
    case CreateNode(id, labels, propsRow) => NodeRec(Node.New(id, labels, propsRow, x.t))
    case CreateEdge(id, src, dst, etype, propsRow) => EdgeRec(Edge.New(id, src, dst, etype, propsRow, x.t))
  }

  function Labelled(r: Entity, x: Option<Stamped>): Entity {
    if x.Some? && x.value.w.Relabel? && r.NodeRec? then
      NodeRec(r.node.(labels := x.value.w.labels, createdTx := x.value.t))
    else r
  }

  function Deleted(r: Entity, x: Option<Stamped>): Entity {
    if x.Some? then r.WithDeleted(x.value.t) else r
  }

  lemma {:induction false} FoldedTyped(recs: map<Key, Entity>, h: seq<Stamped>)
    requires Typed(recs)
    ensures Typed(Folded(recs, h))
  {
    if h != [] {
      FoldedTyped(recs, h[..|h| - 1]);
    }
  }

  /** What a sequence of writes makes of one record. */
  ghost predicate Formed(recs: map<Key, Entity>, h: seq<Stamped>, k: Key) {
    var c, after := LastCreate(h, k), Folded(recs, h);
    && (k in after <==> k in recs || c.Some?)
    && (c.Some? ==> Creates(c.value.w) && KeyOf(c.value.w) == k && LastLabel(recs, h, k).Some?)
    && (LastLabel(recs, h, k).Some? ==>
        k in after && Labels(LastLabel(recs, h, k).value.w) && KeyOf(LastLabel(recs, h, k).value.w) == k
        && (Creates(LastLabel(recs, h, k).value.w) ==> c == LastLabel(recs, h, k)))
    && (LastDelete(recs, h, k).Some? ==> k in after)
    && (k in after ==>
        var start := if c.Some? then Created(c.value) else recs[k];
        after[k] == Deleted(Labelled(start, LastLabel(recs, h, k)), LastDelete(recs, h, k)))
  }

  lemma FormedNothing(recs: map<Key, Entity>, k: Key)
    ensures Formed(recs, [], k)
  {
  }

  lemma FormedElsewhere(recs: map<Key, Entity>, h: seq<Stamped>, k: Key)
    requires h != [] && KeyOf(h[|h| - 1].w) != k && Formed(recs, h[..|h| - 1], k)
    ensures Formed(recs, h, k)
  {
  }

  lemma FormedHere(recs: map<Key, Entity>, h: seq<Stamped>, k: Key)
    requires h != [] && KeyOf(h[|h| - 1].w) == k && Formed(recs, h[..|h| - 1], k)
    requires Typed(recs)
    ensures Formed(recs, h, k)
  {
    FoldedTyped(recs, h[..|h| - 1]);
  }

  lemma {:induction false} FoldedForm(recs: map<Key, Entity>, h: seq<Stamped>, k: Key)
    requires Typed(recs)
    ensures Formed(recs, h, k)
  {
    hide Formed;
    if h == [] {
      FormedNothing(recs, k);
    } else {
      FoldedForm(recs, h[..|h| - 1], k);
      if KeyOf(h[|h| - 1].w) == k {
        FormedHere(recs, h, k);
      } else {
        FormedElsewhere(recs, h, k);
      }
    }
  }

  // ---------------------------------------------------------------- one ticket's share

  /** What ticket `t` does to `k`, in order. */
  function Share(h: seq<Stamped>, t: TxId, k: Key): seq<Stamped> {
    if h == [] then []
    else
      var n := |h| - 1;
      Share(h[..n], t, k) + if h[n].t == t && KeyOf(h[n].w) == k then [h[n]] else []
  }

  lemma {:induction false} ShareConcat(a: seq<Stamped>, b: seq<Stamped>, t: TxId, k: Key)
    ensures Share(a + b, t, k) == Share(a, t, k) + Share(b, t, k)
  {
    if b == [] {
      assert a + b == a;
    } else {
      var n := |b| - 1;
      ShareConcat(a, b[..n], t, k);
      assert (a + b)[..|a + b| - 1] == a + b[..n];
    }
  }

  lemma {:induction false} ShareOfStamp(ws: seq<Write>, u: TxId, t: TxId, k: Key)
    ensures Share(Stamp(ws, u), t, k) == if u == t then On(Stamp(ws, u), k) else []
  {
    if ws != [] {
      var n := |ws| - 1;
      ShareOfStamp(ws[..n], u, t, k);
      assert Stamp(ws, u)[..n] == Stamp(ws[..n], u);
    }
  }

  lemma {:induction false} InShare(h: seq<Stamped>, x: Stamped)
    ensures x in h <==> x in Share(h, x.t, KeyOf(x.w))
  {
    if h != [] {
      var n := |h| - 1;
      InShare(h[..n], x);
      assert h == h[..n] + [h[n]];
    }
  }

  /** Each ticket has resolved, on each record, what it has applied and then what it has left. */
  ghost predicate Shared(s: State, h: seq<Stamped>, p: seq<Stamped>, t: TxId, k: Key) {
    Share(p, t, k) == Share(h, t, k) + Left(s.tickets, t, k)
  }

  lemma ShareOfStep(s: State, e: Event, t: TxId, k: Key)
    requires Mvcc.Enabled(s, e)
    ensures Share(AppliedBy(s, e), t, k) == if e.ApplyOne? && e.t == t then On(AppliedBy(s, e), k) else []
    ensures Share(ResolvedBy(s, e), t, k) == if e.CommitStore? && e.t == t then On(ResolvedBy(s, e), k) else []
  {
    hide On, Share, Buffer.Plan;
    assert Share([], t, k) == [] by { NoShare(t, k); }
    if e.ApplyOne? {
      var w := s.tickets.txns[e.t].phase.pending[0];
      assert AppliedBy(s, e) == Stamp([w], e.t);
      ShareOfStamp([w], e.t, t, k);
    } else if e.CommitStore? {
      ShareOfStamp(s.tickets.txns[e.t].buffer.Plan(), e.t, t, k);
    }
  }

  lemma NoShare(t: TxId, k: Key)
    ensures Share([], t, k) == []
  {
  }

  lemma StepShared(s: State, e: Event, h: seq<Stamped>, p: seq<Stamped>, t: TxId, k: Key)
    requires TicketLock.Inv(s.tickets) && Mvcc.Enabled(s, e) && Shared(s, h, p, t, k)
    ensures Shared(Mvcc.Next(s, e), h + AppliedBy(s, e), p + ResolvedBy(s, e), t, k)
  {
    hide Left, TicketLock.Inv, Mvcc.Next, Mvcc.Enabled, AppliedBy, ResolvedBy, Share, On;
    LeftAfter(s, e, t, k);
    ShareConcat(h, AppliedBy(s, e), t, k);
    ShareConcat(p, ResolvedBy(s, e), t, k);
    ShareOfStep(s, e, t, k);
  }

  lemma {:induction false} RunShared(s: State, es: seq<Event>, h: seq<Stamped>, p: seq<Stamped>, t: TxId, k: Key)
    requires TicketLock.Inv(s.tickets) && Mvcc.Allowed(s, es) && Shared(s, h, p, t, k)
    ensures Shared(Mvcc.Exec(s, es), h + Applied(s, es), p + Resolved(s, es), t, k)
    decreases |es|
  {
    hide TicketLock.Inv, Mvcc.Next, Mvcc.Enabled, Shared, AppliedBy, ResolvedBy;
    if es == [] {
      assert h + [] == h && p + [] == p;
    } else {
      var e, s' := es[0], Mvcc.Next(s, es[0]);
      StepShared(s, e, h, p, t, k);
      TicketStep(s, e);
      RunShared(s', es[1..], h + AppliedBy(s, e), p + ResolvedBy(s, e), t, k);
      assert h + Applied(s, es) == h + AppliedBy(s, e) + Applied(s', es[1..]);
      assert p + Resolved(s, es) == p + ResolvedBy(s, e) + Resolved(s', es[1..]);
    }
  }

  /** When nothing is left, both orders hold the same writes, each ticket's in the same order. */
  lemma SameShares(s: State, es: seq<Event>, t: TxId, k: Key)
    requires TicketLock.Inv(s.tickets) && Mvcc.Allowed(s, es) && NoneApplying(s) && NoneApplying(Mvcc.Exec(s, es))
    ensures Share(Applied(s, es), t, k) == Share(Resolved(s, es), t, k)
  {
    hide TicketLock.Inv, Mvcc.Exec, Mvcc.Allowed, Applied, Resolved;
    assert Left(s.tickets, t, k) == [] && Left(Mvcc.Exec(s, es).tickets, t, k) == [];
    RunShared(s, es, [], [], t, k);
    assert [] + Applied(s, es) == Applied(s, es) && [] + Resolved(s, es) == Resolved(s, es);
  }

  // ---------------------------------------------------------------- creates happen once

  function CreateCount(h: seq<Stamped>, k: Key): nat {
    if h == [] then 0
    else
      var n := |h| - 1;
      CreateCount(h[..n], k) + if KeyOf(h[n].w) == k && Creates(h[n].w) then 1 else 0
  }

  /** Between reclaims an id is created at most once, and only if nothing was stored under it. */
  ghost predicate CreatedOnce(recs: map<Key, Entity>, s: State, h: seq<Stamped>, k: Key) {
    && CreateCount(h, k) <= 1 && (k in recs ==> CreateCount(h, k) == 0)
    && (k in recs || CreateCount(h, k) > 0 ==> k in s.db.recs)
  }

  lemma StepCreatedOnce(recs: map<Key, Entity>, s: State, e: Event, h: seq<Stamped>, k: Key)
    requires Mvcc.Inv(s) && Mvcc.Enabled(s, e) && !Removes(e) && CreatedOnce(recs, s, h, k)
    ensures CreatedOnce(recs, Mvcc.Next(s, e), h + AppliedBy(s, e), k)
  {
    hide Mvcc.Inv, Mvcc.Next, KeyOf, Creates;
    StoredStays(s, e, k);
    if e.ApplyOne? {
      assert (h + AppliedBy(s, e))[..|h|] == h;
      if Creates(s.tickets.txns[e.t].phase.pending[0]) {
        AppliedIsReserved(s, e);
      }
    } else {
      assert h + [] == h;
    }
  }

  lemma StoredStays(s: State, e: Event, k: Key)
    requires Mvcc.Enabled(s, e) && !Removes(e)
    ensures k in s.db.recs || AppliesCreate(s, e, k) ==> k in Mvcc.Next(s, e).db.recs
  {
  }

  lemma {:induction false} RunCreatedOnce(recs: map<Key, Entity>, s: State, es: seq<Event>, h: seq<Stamped>, k: Key)
    requires Mvcc.Inv(s) && Mvcc.Allowed(s, es) && CreatedOnce(recs, s, h, k)
    requires forall e <- es :: !Removes(e)
    ensures CreatedOnce(recs, Mvcc.Exec(s, es), h + Applied(s, es), k)
    decreases |es|
  {
    hide Mvcc.Inv, Mvcc.Next, Mvcc.Enabled, CreatedOnce, AppliedBy, Removes;
    if es == [] {
      assert h + [] == h;
    } else {
      var s' := Mvcc.Next(s, es[0]);
      StepCreatedOnce(recs, s, es[0], h, k);
      Mvcc.StepKeepsInv(s, es[0]);
      RunCreatedOnce(recs, s', es[1..], h + AppliedBy(s, es[0]), k);
      assert h + Applied(s, es) == h + AppliedBy(s, es[0]) + Applied(s', es[1..]);
    }
  }

  lemma {:induction false} OnlyCreate(h: seq<Stamped>, k: Key, x: Stamped)
    requires x in h && KeyOf(x.w) == k && Creates(x.w) && CreateCount(h, k) <= 1
    ensures CreateCount(h, k) == 1 && LastCreate(h, k) == Some(x)
  {
    var n := |h| - 1;
    assert h == h[..n] + [h[n]];
    if x in h[..n] {
      OnlyCreate(h[..n], k, x);
    }
  }

  lemma {:induction false} LastCreateIn(h: seq<Stamped>, k: Key)
    ensures match LastCreate(h, k)
      case Some(x) => x in h && KeyOf(x.w) == k && Creates(x.w)
      case None => CreateCount(h, k) == 0
  {
    if h != [] {
      LastCreateIn(h[..|h| - 1], k);
    }
  }

  /** Both orders have the same create of `k`, or none. */
  lemma SameCreate(h: seq<Stamped>, p: seq<Stamped>, k: Key)
    requires forall t: TxId :: Share(h, t, k) == Share(p, t, k)
    requires CreateCount(h, k) <= 1
    ensures LastCreate(h, k) == LastCreate(p, k)
  {
    hide Share, CreateCount, LastCreate;
    LastCreateIn(h, k);
    LastCreateIn(p, k);
    if LastCreate(p, k).Some? {
      var x := LastCreate(p, k).value;
      InShare(p, x);
      InShare(h, x);
      OnlyCreate(h, k, x);
    } else if LastCreate(h, k).Some? {
      var x := LastCreate(h, k).value;
      InShare(h, x);
      InShare(p, x);
      CreateCounted(p, k, x);
    }
  }

  lemma {:induction false} CreateCounted(h: seq<Stamped>, k: Key, x: Stamped)
    requires x in h && KeyOf(x.w) == k && Creates(x.w)
    ensures CreateCount(h, k) > 0
  {
    var n := |h| - 1;
    assert h == h[..n] + [h[n]];
    if x != h[n] {
      CreateCounted(h[..n], k, x);
    }
  }

  // ---------------------------------------------------------------- the same last label update

  function LastOf(h: seq<Stamped>): Option<Stamped> {
    if h == [] then None else if Labels(h[|h| - 1].w) then Some(h[|h| - 1]) else LastOf(h[..|h| - 1])
  }

  /** The last update to take effect is the last one of its own ticket. */
  lemma {:induction false} LabelIsLastOfShare(recs: map<Key, Entity>, h: seq<Stamped>, k: Key)
    requires Typed(recs) && LastLabel(recs, h, k).Some?
    ensures var x := LastLabel(recs, h, k).value;
      LastOf(Share(h, x.t, k)) == Some(x)
  {
    hide Folded;
    var n, x := |h| - 1, LastLabel(recs, h, k).value;
    FoldedTyped(recs, h[..n]);
    if KeyOf(h[n].w) == k && LabelsFound(Folded(recs, h[..n]), h[n].w) {
      LastOfSnoc(Share(h[..n], x.t, k), h[n]);
    } else {
      LabelIsLastOfShare(recs, h[..n], k);
      FoldedForm(recs, h[..n], k);
      if h[n].t == x.t && KeyOf(h[n].w) == k {
        LastOfSnoc(Share(h[..n], x.t, k), h[n]);
      } else {
        assert Share(h, x.t, k) == Share(h[..n], x.t, k);
      }
    }
  }

  lemma LastOfSnoc(h: seq<Stamped>, x: Stamped)
    ensures LastOf(h + [x]) == if Labels(x.w) then Some(x) else LastOf(h)
  {
    assert (h + [x])[..|h|] == h;
  }

  // ---------------------------------------------------------------- the records

  /** In both orders the last update and the last delete to take effect on `k` have the same tickets. */
  predicate SameTickets(recs: map<Key, Entity>, h: seq<Stamped>, p: seq<Stamped>, k: Key) {
    && TicketOf(LastLabel(recs, h, k)) == TicketOf(LastLabel(recs, p, k))
    && TicketOf(LastDelete(recs, h, k)) == TicketOf(LastDelete(recs, p, k))
  }

  /** Two orders of the same writes, each ticket's own in the same order. */
  ghost predicate Reordered(recs: map<Key, Entity>, h: seq<Stamped>, p: seq<Stamped>, k: Key) {
    && (forall t: TxId :: Share(h, t, k) == Share(p, t, k))
    && CreateCount(h, k) <= 1 && (k in recs ==> CreateCount(h, k) == 0)
  }

  /** Tickets that stamp no record yet and are not the "not deleted" stamp. */
  ghost predicate NewTickets(recs: map<Key, Entity>, h: seq<Stamped>) {
    forall x, k :: x in h && k in recs ==>
      recs[k].Created() < x.t < MAX_TX_ID && (recs[k].Deleted() == MAX_TX_ID || recs[k].Deleted() < x.t)
  }

  lemma SameLabel(recs: map<Key, Entity>, h: seq<Stamped>, p: seq<Stamped>, k: Key)
    requires Typed(recs) && (forall t: TxId :: Share(h, t, k) == Share(p, t, k))
    requires TicketOf(LastLabel(recs, h, k)) == TicketOf(LastLabel(recs, p, k))
    ensures LastLabel(recs, h, k) == LastLabel(recs, p, k)
  {
    hide LastLabel, Share;
    if LastLabel(recs, h, k).Some? {
      LabelIsLastOfShare(recs, h, k);
      LabelIsLastOfShare(recs, p, k);
    }
  }

  lemma SameTicketsSameRecord(recs: map<Key, Entity>, h: seq<Stamped>, p: seq<Stamped>, k: Key)
    requires Typed(recs) && Reordered(recs, h, p, k) && SameTickets(recs, h, p, k)
    ensures SameAt(Folded(recs, h), Folded(recs, p), k)
  {
    hide LastLabel, LastDelete, LastCreate, Folded, Share, CreateCount;
    SameCreate(h, p, k);
    SameLabel(recs, h, p, k);
    FoldedForm(recs, h, k);
    FoldedForm(recs, p, k);
  }

  lemma {:induction false} LastIn(recs: map<Key, Entity>, h: seq<Stamped>, k: Key)
    ensures LastLabel(recs, h, k).Some? ==> LastLabel(recs, h, k).value in h
    ensures LastDelete(recs, h, k).Some? ==> LastDelete(recs, h, k).value in h
  {
    hide Folded, LabelsFound;
    if h != [] {
      LastIn(recs, h[..|h| - 1], k);
    }
  }

  /** The stamps of a record tell which ticket updated and which deleted it last. */
  lemma StampsTell(recs: map<Key, Entity>, h: seq<Stamped>, k: Key)
    requires Typed(recs) && k in Folded(recs, h)
    ensures Folded(recs, h)[k].Created() ==
            if LastLabel(recs, h, k).Some? then LastLabel(recs, h, k).value.t
            else if k in recs then recs[k].Created() else Folded(recs, h)[k].Created()
    ensures LastLabel(recs, h, k).None? ==> k in recs && LastCreate(h, k).None?
    ensures Folded(recs, h)[k].Deleted() ==
            if LastDelete(recs, h, k).Some? then LastDelete(recs, h, k).value.t
            else if LastCreate(h, k).None? && k in recs then recs[k].Deleted() else MAX_TX_ID
  {
    hide LastLabel, LastDelete, LastCreate, Folded;
    FoldedForm(recs, h, k);
    FormStamps(recs, h, k);
  }

  lemma FormStamps(recs: map<Key, Entity>, h: seq<Stamped>, k: Key)
    requires Typed(recs) && Formed(recs, h, k) && k in Folded(recs, h)
    ensures var r, c := Folded(recs, h)[k], LastCreate(h, k);
      && r.Deleted() == (if LastDelete(recs, h, k).Some? then LastDelete(recs, h, k).value.t
                         else if c.Some? then MAX_TX_ID else recs[k].Deleted())
      && r.Created() == (if LastLabel(recs, h, k).Some? then LastLabel(recs, h, k).value.t else recs[k].Created())
  {
    hide LastLabel, LastDelete, LastCreate, Folded;
    assert k in recs ==> (k.NodeKey? <==> recs[k].NodeRec?);
  }

  lemma SameRecordSameTickets(recs: map<Key, Entity>, h: seq<Stamped>, p: seq<Stamped>, k: Key)
    requires Typed(recs) && NewTickets(recs, h) && NewTickets(recs, p) && Reordered(recs, h, p, k)
    requires (forall x <- h :: x.t < MAX_TX_ID) && (forall x <- p :: x.t < MAX_TX_ID)
    requires SameAt(Folded(recs, h), Folded(recs, p), k)
    ensures SameTickets(recs, h, p, k)
  {
    hide LastLabel, LastDelete, LastCreate, Folded, Share, CreateCount;
    LastIn(recs, h, k);
    LastIn(recs, p, k);
    SameCreate(h, p, k);
    FoldedForm(recs, h, k);
    FoldedForm(recs, p, k);
    if k in Folded(recs, h) {
      StampsTell(recs, h, k);
      StampsTell(recs, p, k);
    }
  }

  // ---------------------------------------------------------------- runs

  lemma {:induction false} ResolvedTickets(s: State, es: seq<Event>)
    requires TicketLock.Inv(s.tickets) && Mvcc.Allowed(s, es)
    ensures s.tickets.committedTxId <= Mvcc.Exec(s, es).tickets.committedTxId
    ensures forall i :: 0 <= i < |Resolved(s, es)| ==>
      s.tickets.committedTxId < Resolved(s, es)[i].t <= Mvcc.Exec(s, es).tickets.committedTxId
    decreases |es|
  {
    hide TicketLock.Inv, Mvcc.Next, Mvcc.Enabled;
    if es != [] {
      TicketStep(s, es[0]);
      ResolvedNext(s, es[0]);
      ResolvedTickets(Mvcc.Next(s, es[0]), es[1..]);
    }
  }

  lemma CountersBelowMax(s: Tickets)
    requires TicketLock.Inv(s)
    ensures s.committedTxId < MAX_TX_ID
  {
  }

  /** Concurrent application, once finished, has left the records that applying the same plans in
      ticket order leaves, if and only if on every record the last label update and the last delete to
      take effect are those of the tickets whose are last in ticket order. */
  lemma ConcurrentIsSerialIff(s: State, es: seq<Event>)
    requires Mvcc.Inv(s) && NoneApplying(s) && forall k :: StampedBy(s, k)
    requires Mvcc.Allowed(s, es) && (forall e <- es :: !Removes(e)) && NoneApplying(Mvcc.Exec(s, es))
    ensures Mvcc.Exec(s, es).db.recs == Folded(s.db.recs, Resolved(s, es)) <==>
            forall k :: SameTickets(s.db.recs, Applied(s, es), Resolved(s, es), k)
  {
    hide Mvcc.Inv, Mvcc.Exec, Mvcc.Allowed, Applied, Resolved, NoneApplying, Folded, SameTickets, Removes;
    var recs, h, p := s.db.recs, Applied(s, es), Resolved(s, es);
    assert Folded(recs, []) == recs by { FoldedNothing(recs); }
    RunFolds(s, es, recs, []);
    assert [] + h == h;
    var a, b := Folded(recs, h), Folded(recs, p);
    forall k: Key ensures SameAt(a, b, k) <==> SameTickets(recs, h, p, k) {
      RecordIff(s, es, k);
    }
    if forall k :: SameTickets(recs, h, p, k) {
      forall k: Key ensures (k in a <==> k in b) && (k in a ==> a[k] == b[k]) {
        assert SameAt(a, b, k);
      }
      assert a == b;
    }
  }

  lemma FoldedNothing(recs: map<Key, Entity>)
    ensures Folded(recs, []) == recs
  {
  }

  lemma RecordIff(s: State, es: seq<Event>, k: Key)
    requires Mvcc.Inv(s) && NoneApplying(s) && forall k :: StampedBy(s, k)
    requires Mvcc.Allowed(s, es) && (forall e <- es :: !Removes(e)) && NoneApplying(Mvcc.Exec(s, es))
    ensures var recs, h, p := s.db.recs, Applied(s, es), Resolved(s, es);
      SameAt(Folded(recs, h), Folded(recs, p), k) <==> SameTickets(recs, h, p, k)
  {
    hide Mvcc.Exec, Mvcc.Allowed, Applied, Resolved, NoneApplying, Folded, SameTickets, Removes, TicketLock.Inv;
    var recs, h, p := s.db.recs, Applied(s, es), Resolved(s, es);
    RunTyped(s);
    RunNewTickets(s, es);
    RunReordered(s, es, k);
    if SameTickets(recs, h, p, k) {
      SameTicketsSameRecord(recs, h, p, k);
    } else if SameAt(Folded(recs, h), Folded(recs, p), k) {
      SameRecordSameTickets(recs, h, p, k);
    }
  }

  lemma RunTyped(s: State)
    requires Mvcc.Inv(s)
    ensures Typed(s.db.recs)
  {
    hide TicketLock.Inv;
    forall k | k in s.db.recs ensures k.NodeKey? <==> s.db.recs[k].NodeRec? {
      assert Conserved(s.db, k);
    }
  }

  lemma RunReordered(s: State, es: seq<Event>, k: Key)
    requires Mvcc.Inv(s) && NoneApplying(s)
    requires Mvcc.Allowed(s, es) && (forall e <- es :: !Removes(e)) && NoneApplying(Mvcc.Exec(s, es))
    ensures Reordered(s.db.recs, Applied(s, es), Resolved(s, es), k)
  {
    hide Mvcc.Exec, Mvcc.Allowed, Applied, Resolved, NoneApplying, Removes, TicketLock.Inv, Share;
    forall t: TxId ensures Share(Applied(s, es), t, k) == Share(Resolved(s, es), t, k) {
      SameShares(s, es, t, k);
    }
    RunCreatedOnce(s.db.recs, s, es, [], k);
    assert [] + Applied(s, es) == Applied(s, es);
  }

  lemma RunNewTickets(s: State, es: seq<Event>)
    requires Mvcc.Inv(s) && NoneApplying(s) && forall k :: StampedBy(s, k)
    requires Mvcc.Allowed(s, es) && NoneApplying(Mvcc.Exec(s, es))
    ensures NewTickets(s.db.recs, Applied(s, es)) && NewTickets(s.db.recs, Resolved(s, es))
    ensures forall x <- Applied(s, es) :: x.t < MAX_TX_ID
    ensures forall x <- Resolved(s, es) :: x.t < MAX_TX_ID
  {
    hide Mvcc.Exec, Mvcc.Allowed, Applied, Resolved, NoneApplying, TicketLock.Inv, Share;
    var h, p := Applied(s, es), Resolved(s, es);
    ResolvedTickets(s, es);
    Mvcc.RunKeepsInv(s, es);
    CountersBelowMax(Mvcc.Exec(s, es).tickets);
    forall x | x in h ensures x in p {
      SameShares(s, es, x.t, KeyOf(x.w));
      InShare(h, x);
      InShare(p, x);
    }
    forall k | k in s.db.recs
      ensures s.db.recs[k].Created() <= s.tickets.committedTxId
      ensures s.db.recs[k].Deleted() == MAX_TX_ID || s.db.recs[k].Deleted() <= s.tickets.committedTxId
    {
      assert StampedBy(s, k);
    }
  }
}
