/**
 What the writes of one transaction come to: from the calls that buffer them, through the five lists
 and the order in which commit applies those, to the records it leaves.
 */
module Plans {
  import opened Types
  import opened TicketLock
  import opened Mvcc

  /** What applying `w` does to the records, as in the interleaved model. */
  function AppliedTo(recs: map<Key, Entity>, w: Write, t: TxId): map<Key, Entity> {
    ApplyWrite(Db(recs, {}, {}, 0, 0), w, t).recs
  }

  function AppliedAll(recs: map<Key, Entity>, ws: seq<Write>, t: TxId): map<Key, Entity> {
    if ws == [] then recs else AppliedTo(AppliedAll(recs, ws[..|ws| - 1], t), ws[|ws| - 1], t)
  }

  /** Node ids hold nodes and edge ids edges. */
  predicate Typed(recs: map<Key, Entity>) {
    forall k <- recs :: k.NodeKey? <==> recs[k].NodeRec?
  }

  ghost predicate StampedUpTo(recs: map<Key, Entity>, t: TxId) {
    forall k <- recs :: 1 <= recs[k].Created() <= t
  }

  // ---------------------------------------------------------------- what a commit makes visible

  /** Position of a write's list in the plan. */
  function ListIndex(w: Write): nat {
    match w
    case CreateNode(_, _, _) => 0
    case Relabel(_, _) => 1
    case DeleteNode(_) => 2
    case CreateEdge(_, _, _, _, _) => 3
    case DeleteEdge(_) => 4
  }

  predicate AllRank(ws: seq<Write>, n: nat) {
    forall w <- ws :: ListIndex(w) == n
  }

  /** Each list holds the kind of write it is for. */
  predicate Sorted(b: Buffer) {
    AllRank(b.nodeInserts, 0) && AllRank(b.nodeUpdates, 1) && AllRank(b.nodeDeletes, 2)
    && AllRank(b.edgeInserts, 3) && AllRank(b.edgeDeletes, 4)
  }

  predicate Ordered(ws: seq<Write>) {
    forall i, j :: 0 <= i < j < |ws| ==> ListIndex(ws[i]) <= ListIndex(ws[j])
  }

  lemma OrderedConcat(a: seq<Write>, b: seq<Write>, n: nat)
    requires Ordered(a) && AllRank(b, n) && forall w <- a :: ListIndex(w) <= n
    ensures Ordered(a + b) && forall w <- a + b :: ListIndex(w) <= n
  {
  }

  lemma PlanOrdered(b: Buffer)
    requires Sorted(b)
    ensures Ordered(b.Plan())
  {
    OrderedConcat(b.nodeInserts, b.nodeUpdates, 1);
    OrderedConcat(b.nodeInserts + b.nodeUpdates, b.nodeDeletes, 2);
    OrderedConcat(b.nodeInserts + b.nodeUpdates + b.nodeDeletes, b.edgeInserts, 3);
    OrderedConcat(b.nodeInserts + b.nodeUpdates + b.nodeDeletes + b.edgeInserts, b.edgeDeletes, 4);
  }

  predicate Deletes(w: Write) {
    w.DeleteNode? || w.DeleteEdge?
  }

  predicate CreatedBy(ws: seq<Write>, k: Key) {
    exists w <- ws :: Creates(w) && KeyOf(w) == k
  }

  predicate DeletedBy(ws: seq<Write>, k: Key) {
    exists w <- ws :: Deletes(w) && KeyOf(w) == k
  }

  ghost predicate VisibleAt(recs: map<Key, Entity>, k: Key, tx: TxId) {
    k in recs && recs[k].IsAlive(tx)
  }

  predicate RelabelledBy(ws: seq<Write>, k: Key) {
    exists w <- ws :: w.Relabel? && KeyOf(w) == k
  }

  /** The stamps a plan leaves on a record: the last delete, create or label update decides. */
  ghost predicate StampsAfter(recs: map<Key, Entity>, after: map<Key, Entity>, ws: seq<Write>, t: TxId, k: Key) {
    && (k in after <==> k in recs || CreatedBy(ws, k))
    && (k in after ==>
        && (!CreatedBy(ws, k) ==> (after[k].NodeRec? <==> recs[k].NodeRec?))
        && after[k].Deleted() == (
           if DeletedBy(ws, k) then t else if CreatedBy(ws, k) then MAX_TX_ID else recs[k].Deleted())
        && after[k].Created() == (
           if CreatedBy(ws, k) || (RelabelledBy(ws, k) && recs[k].NodeRec?) then t else recs[k].Created()))
  }

  lemma {:induction false} PlanStamps(recs: map<Key, Entity>, ws: seq<Write>, t: TxId, k: Key)
    requires Ordered(ws)
    ensures StampsAfter(recs, AppliedAll(recs, ws, t), ws, t, k)
  {
    hide AppliedTo, StampsAfter;
    if ws == [] {
      assert StampsAfter(recs, recs, [], t, k) by { NoStamps(recs, t, k); }
    } else {
      var n := |ws| - 1;
      PlanStamps(recs, ws[..n], t, k);
      assert ws == ws[..n] + [ws[n]];
      StampsSnoc(recs, AppliedAll(recs, ws[..n], t), ws[..n], ws[n], t, k);
    }
  }

  lemma NoStamps(recs: map<Key, Entity>, t: TxId, k: Key)
    ensures StampsAfter(recs, recs, [], t, k)
  {
  }

  lemma StampsSnoc(recs: map<Key, Entity>, before: map<Key, Entity>, ws: seq<Write>, w: Write, t: TxId, k: Key)
    requires Ordered(ws + [w]) && StampsAfter(recs, before, ws, t, k)
    ensures StampsAfter(recs, AppliedTo(before, w, t), ws + [w], t, k)
  {
    hide CreatedBy, DeletedBy, RelabelledBy;
    MembersSnoc(ws, w, k);
    if Creates(w) && KeyOf(w) == k {
      assert (ws + [w])[|ws + [w]| - 1] == w;
      NotDeletedBefore(ws + [w], k);
    }
  }

  lemma MembersSnoc(ws: seq<Write>, w: Write, k: Key)
    ensures CreatedBy(ws + [w], k) <==> CreatedBy(ws, k) || (Creates(w) && KeyOf(w) == k)
    ensures DeletedBy(ws + [w], k) <==> DeletedBy(ws, k) || (Deletes(w) && KeyOf(w) == k)
    ensures RelabelledBy(ws + [w], k) <==> RelabelledBy(ws, k) || (w.Relabel? && KeyOf(w) == k)
  {
    assert forall x :: x in ws + [w] <==> x in ws || x == w;
  }

  lemma NotDeletedBefore(ws: seq<Write>, k: Key)
    requires ws != [] && Ordered(ws) && Creates(ws[|ws| - 1]) && KeyOf(ws[|ws| - 1]) == k
    ensures !DeletedBy(ws, k)
  {
    forall w | w in ws ensures !(Deletes(w) && KeyOf(w) == k) {
      var i :| 0 <= i < |ws| && ws[i] == w;
    }
  }

  /** Visible at the ticket of a commit: what it created and what was there, undeleted, unless
      created later than the ticket and not relabelled by the commit; less what it deleted. */
  ghost predicate Shown(recs: map<Key, Entity>, ws: seq<Write>, t: TxId, k: Key) {
    && !DeletedBy(ws, k)
    && if CreatedBy(ws, k) then t < MAX_TX_ID
       else k in recs && recs[k].Deleted() > t && (recs[k].Created() <= t || (RelabelledBy(ws, k) && recs[k].NodeRec?))
  }

  /** What a commit makes visible at its own ticket, whatever stamps it meets. On records not
      stamped above the ticket that is exactly what it created and what was visible there before,
      less what it deleted; a record it both creates and deletes never shows. */
  lemma CommitVisibility(recs: map<Key, Entity>, b: Buffer, t: TxId, k: Key)
    requires Sorted(b)
    ensures VisibleAt(AppliedAll(recs, b.Plan(), t), k, t) <==> Shown(recs, b.Plan(), t, k)
    ensures t < MAX_TX_ID && (forall x <- recs :: recs[x].Created() <= t) ==>
      (Shown(recs, b.Plan(), t, k) <==> !DeletedBy(b.Plan(), k) && (CreatedBy(b.Plan(), k) || VisibleAt(recs, k, t)))
  {
    hide Buffer.Plan, CreatedBy, DeletedBy, RelabelledBy, AppliedAll;
    PlanOrdered(b);
    PlanStamps(recs, b.Plan(), t, k);
  }

  /** Records stay stamped by resolved tickets when the next ticket's plan is applied. */
  lemma PlanKeepsStamped(recs: map<Key, Entity>, b: Buffer, t: TxId)
    requires Sorted(b) && t >= 1 && StampedUpTo(recs, t - 1)
    ensures StampedUpTo(AppliedAll(recs, b.Plan(), t), t)
  {
    hide Buffer.Plan, CreatedBy, DeletedBy, RelabelledBy, AppliedAll;
    PlanOrdered(b);
    forall k | k in AppliedAll(recs, b.Plan(), t)
      ensures 1 <= AppliedAll(recs, b.Plan(), t)[k].Created() <= t
    {
      PlanStamps(recs, b.Plan(), t, k);
    }
  }

  // ---------------------------------------------------------------- from calls to lists

  /** The calls that satisfy `p`, in order. */
  function Select(p: Write -> bool, cs: seq<Write>): seq<Write> {
    if cs == [] then []
    else Select(p, cs[..|cs| - 1]) + if p(cs[|cs| - 1]) then [cs[|cs| - 1]] else []
  }

  const NODE_INSERT: Write -> bool := (w: Write) => w.CreateNode?
  const NODE_UPDATE: Write -> bool := (w: Write) => w.Relabel?
  const NODE_DELETE: Write -> bool := (w: Write) => w.DeleteNode?
  const EDGE_INSERT: Write -> bool := (w: Write) => w.CreateEdge?
  const EDGE_DELETE: Write -> bool := (w: Write) => w.DeleteEdge?

  /** Each list holds exactly the calls of its kind, in the order in which they were made. */
  ghost predicate Buffered(b: Buffer, cs: seq<Write>) {
    && b.nodeInserts == Select(NODE_INSERT, cs)
    && b.nodeUpdates == Select(NODE_UPDATE, cs)
    && b.nodeDeletes == Select(NODE_DELETE, cs)
    && b.edgeInserts == Select(EDGE_INSERT, cs)
    && b.edgeDeletes == Select(EDGE_DELETE, cs)
  }

  /** The positions of all calls that satisfy `p`. */
  ghost predicate Positions(p: Write -> bool, cs: seq<Write>, ps: seq<nat>) {
    forall i: nat :: i in ps <==> i < |cs| && p(cs[i])
  }

  /** `r` reads off increasing positions of `cs`. */
  ghost predicate ReadsOff(cs: seq<Write>, r: seq<Write>, ps: seq<nat>) {
    && |ps| == |r|
    && (forall j :: 0 <= j < |ps| ==> ps[j] < |cs| && r[j] == cs[ps[j]])
    && (forall i, j :: 0 <= i < j < |ps| ==> ps[i] < ps[j])
  }

  lemma PositionsSnoc(p: Write -> bool, cs: seq<Write>, w: Write, ps: seq<nat>)
    requires Positions(p, cs, ps)
    ensures Positions(p, cs + [w], if p(w) then ps + [|cs|] else ps)
  {
    var all := cs + [w];
    var ps' := if p(w) then ps + [|cs|] else ps;
    forall i: nat ensures i in ps' <==> i < |all| && p(all[i]) {
      assert i in ps' <==> i in ps || (p(w) && i == |cs|);
      assert i < |cs| ==> all[i] == cs[i];
    }
  }

  lemma ReadsOffSnoc(cs: seq<Write>, w: Write, r: seq<Write>, ps: seq<nat>)
    requires ReadsOff(cs, r, ps)
    ensures ReadsOff(cs + [w], r, ps) && ReadsOff(cs + [w], r + [w], ps + [|cs|])
  {
  }

  /** A selection read off positions: increasing ones, and all that qualify. */
  lemma {:induction false} SelectIs(p: Write -> bool, cs: seq<Write>) returns (ps: seq<nat>)
    ensures ReadsOff(cs, Select(p, cs), ps) && Positions(p, cs, ps)
  {
    hide Positions, ReadsOff;
    if cs == [] {
      ps := [];
      NothingSelected(p);
    } else {
      var n := |cs| - 1;
      ps := SelectIs(p, cs[..n]);
      PositionsSnoc(p, cs[..n], cs[n], ps);
      ReadsOffSnoc(cs[..n], cs[n], Select(p, cs[..n]), ps);
      assert cs == cs[..n] + [cs[n]] && Select(p, cs[..n]) + [] == Select(p, cs[..n]);
      if p(cs[n]) {
        ps := ps + [n];
      }
    }
  }

  lemma NothingSelected(p: Write -> bool)
    ensures ReadsOff([], Select(p, []), []) && Positions(p, [], [])
  {
  }

  lemma SelectSnoc(p: Write -> bool, cs: seq<Write>, w: Write)
    ensures Select(p, cs + [w]) == Select(p, cs) + if p(w) then [w] else []
  {
    assert (cs + [w])[..|cs|] == cs;
  }

  lemma NothingBuffered()
    ensures Buffered(NO_WRITES, [])
  {
  }

  /** Buffering one more call. */
  lemma PushBuffers(b: Buffer, cs: seq<Write>, w: Write)
    requires Buffered(b, cs)
    ensures Buffered(b.Push(w), cs + [w])
  {
    hide Select;
    SelectSnoc(NODE_INSERT, cs, w);
    SelectSnoc(NODE_UPDATE, cs, w);
    SelectSnoc(NODE_DELETE, cs, w);
    SelectSnoc(EDGE_INSERT, cs, w);
    SelectSnoc(EDGE_DELETE, cs, w);
  }

  function Pushed(cs: seq<Write>): Buffer {
    if cs == [] then NO_WRITES else Pushed(cs[..|cs| - 1]).Push(cs[|cs| - 1])
  }

  /** After any calls on a fresh transaction each list is exactly the calls of its kind, in order. */
  lemma {:induction false} CallsBuffered(cs: seq<Write>)
    ensures Buffered(Pushed(cs), cs)
  {
    hide Buffered;
    if cs == [] {
      NothingBuffered();
    } else {
      CallsBuffered(cs[..|cs| - 1]);
      PushBuffers(Pushed(cs[..|cs| - 1]), cs[..|cs| - 1], cs[|cs| - 1]);
      assert cs == cs[..|cs| - 1] + [cs[|cs| - 1]];
    }
  }

  lemma {:induction false} SelectMembers(p: Write -> bool, cs: seq<Write>)
    ensures forall w :: w in Select(p, cs) <==> w in cs && p(w)
  {
    if cs != [] {
      SelectMembers(p, cs[..|cs| - 1]);
      assert cs == cs[..|cs| - 1] + [cs[|cs| - 1]];
    }
  }

  lemma BufferedIsSorted(b: Buffer, cs: seq<Write>)
    requires Buffered(b, cs)
    ensures Sorted(b)
  {
    SelectMembers(NODE_INSERT, cs);
    SelectMembers(NODE_UPDATE, cs);
    SelectMembers(NODE_DELETE, cs);
    SelectMembers(EDGE_INSERT, cs);
    SelectMembers(EDGE_DELETE, cs);
  }

  /** The plan holds the calls made and no others. */
  lemma PlanHoldsCalls(b: Buffer, cs: seq<Write>)
    requires Buffered(b, cs)
    ensures forall w :: w in b.Plan() <==> w in cs
  {
    SelectMembers(NODE_INSERT, cs);
    SelectMembers(NODE_UPDATE, cs);
    SelectMembers(NODE_DELETE, cs);
    SelectMembers(EDGE_INSERT, cs);
    SelectMembers(EDGE_DELETE, cs);
  }

  // ---------------------------------------------------------------- what a record holds afterwards

  /** The last of the writes to `k` that satisfies `p`. */
  function Last(p: Write -> bool, ws: seq<Write>, k: Key): (r: Option<Write>)
    ensures r.Some? ==> p(r.value) && KeyOf(r.value) == k
  {
    if ws == [] then None
    else if p(ws[|ws| - 1]) && KeyOf(ws[|ws| - 1]) == k then Some(ws[|ws| - 1])
    else Last(p, ws[..|ws| - 1], k)
  }

  lemma {:induction false} LastIs(p: Write -> bool, ws: seq<Write>, k: Key)
    ensures match Last(p, ws, k)
      case None => forall w <- ws :: !(p(w) && KeyOf(w) == k)
      case Some(x) => exists i ::
        && 0 <= i < |ws| && ws[i] == x && p(x) && KeyOf(x) == k
        && forall j :: i < j < |ws| ==> !(p(ws[j]) && KeyOf(ws[j]) == k)
  {
    hide KeyOf;
    if ws != [] {
      var n := |ws| - 1;
      LastIs(p, ws[..n], k);
      assert ws == ws[..n] + [ws[n]];
    }
  }

  lemma {:induction false} LastConcat(p: Write -> bool, a: seq<Write>, b: seq<Write>, k: Key)
    ensures Last(p, a + b, k) == if Last(p, b, k).Some? then Last(p, b, k) else Last(p, a, k)
  {
    hide KeyOf;
    if b == [] {
      assert a + b == a;
    } else {
      var n := |b| - 1;
      LastConcat(p, a, b[..n], k);
      assert (a + b)[..|a + b| - 1] == a + b[..n];
    }
  }

  lemma LastSnoc(p: Write -> bool, ws: seq<Write>, w: Write, k: Key)
    ensures Last(p, ws + [w], k) == if p(w) && KeyOf(w) == k then Some(w) else Last(p, ws, k)
  {
    assert (ws + [w])[..|ws|] == ws;
  }

  lemma {:induction false} LastOfOwn(p: Write -> bool, cs: seq<Write>, k: Key)
    ensures Last(p, Select(p, cs), k) == Last(p, cs, k)
  {
    hide KeyOf;
    if cs != [] {
      var n := |cs| - 1;
      LastOfOwn(p, cs[..n], k);
      LastSnoc(p, Select(p, cs[..n]), cs[n], k);
      assert Select(p, cs[..n]) + [] == Select(p, cs[..n]);
    }
  }

  lemma {:induction false} LastOfOther(p: Write -> bool, q: Write -> bool, cs: seq<Write>, k: Key)
    requires forall w :: !(p(w) && q(w))
    ensures Last(p, Select(q, cs), k) == None
  {
    hide KeyOf;
    if cs != [] {
      var n := |cs| - 1;
      LastOfOther(p, q, cs[..n], k);
      LastSnoc(p, Select(q, cs[..n]), cs[n], k);
      assert Select(q, cs[..n]) + [] == Select(q, cs[..n]);
    }
  }

  /** What a record holds after a plan: the fields of its create, or those it had, and the labels of
      the last update. */
  ghost predicate ContentsAfter(recs: map<Key, Entity>, after: map<Key, Entity>, ws: seq<Write>, k: Key) {
    k in after ==>
      match after[k]
      case NodeRec(n) =>
        var c, l := Last(NODE_INSERT, ws, k), Last(NODE_UPDATE, ws, k);
        && k.NodeKey? && (c.None? ==> k in recs && recs[k].NodeRec?)
        && n.labels == (
           if l.Some? then l.value.labels else if c.Some? then c.value.labels else recs[k].node.labels)
        && if c.Some? then
             n.id == k.id && n.propsRow == c.value.propsRow && n.firstOut == NULL_EDGE && n.firstIn == NULL_EDGE
           else
             && n.id == recs[k].node.id && n.propsRow == recs[k].node.propsRow
             && n.firstOut == recs[k].node.firstOut && n.firstIn == recs[k].node.firstIn
      case EdgeRec(e) =>
        var c := Last(EDGE_INSERT, ws, k);
        && k.EdgeKey? && (c.None? ==> k in recs && recs[k].EdgeRec?)
        && if c.Some? then
             && e.id == k.id && e.src == c.value.src && e.dst == c.value.dst && e.etype == c.value.etype
             && e.propsRow == c.value.propsRow && e.nextOut == NULL_EDGE && e.nextIn == NULL_EDGE
           else
             && e.id == recs[k].edge.id && e.src == recs[k].edge.src && e.dst == recs[k].edge.dst
             && e.etype == recs[k].edge.etype && e.propsRow == recs[k].edge.propsRow
             && e.nextOut == recs[k].edge.nextOut && e.nextIn == recs[k].edge.nextIn
  }

  lemma {:induction false} PlanContents(recs: map<Key, Entity>, ws: seq<Write>, t: TxId, k: Key)
    requires Ordered(ws) && Typed(recs)
    ensures ContentsAfter(recs, AppliedAll(recs, ws, t), ws, k)
  {
    hide AppliedTo, ContentsAfter;
    if ws == [] {
      NoContents(recs, k);
    } else {
      var n := |ws| - 1;
      PlanContents(recs, ws[..n], t, k);
      assert ws == ws[..n] + [ws[n]];
      ContentsSnoc(recs, AppliedAll(recs, ws[..n], t), ws[..n], ws[n], t, k);
    }
  }

  lemma NoContents(recs: map<Key, Entity>, k: Key)
    requires Typed(recs)
    ensures ContentsAfter(recs, recs, [], k)
  {
  }

  lemma ContentsSnoc(recs: map<Key, Entity>, before: map<Key, Entity>, ws: seq<Write>, w: Write, t: TxId, k: Key)
    requires Ordered(ws + [w]) && ContentsAfter(recs, before, ws, k)
    ensures ContentsAfter(recs, AppliedTo(before, w, t), ws + [w], k)
  {
    assert (ws + [w])[..|ws|] == ws;
    if w.CreateNode? && KeyOf(w) == k {
      NoUpdateBefore(ws, w, k);
    }
  }

  /** In a plan no label update comes before a create. */
  lemma NoUpdateBefore(ws: seq<Write>, w: Write, k: Key)
    requires Ordered(ws + [w]) && w.CreateNode?
    ensures Last(NODE_UPDATE, ws, k) == None
  {
    LastIs(NODE_UPDATE, ws, k);
    assert (ws + [w])[|ws|] == w;
    forall i | 0 <= i < |ws| ensures !NODE_UPDATE(ws[i]) {
      assert (ws + [w])[i] == ws[i];
    }
  }

  /** Commit's whole effect on one record, over the calls made: whether it is there, its two stamps and
      every other field. */
  ghost predicate CommitsTo(recs: map<Key, Entity>, after: map<Key, Entity>, cs: seq<Write>, t: TxId, k: Key) {
    StampsAfter(recs, after, cs, t, k) && ContentsAfter(recs, after, cs, k)
  }

  lemma LastOfPlan(b: Buffer, cs: seq<Write>, k: Key)
    requires Buffered(b, cs)
    ensures Last(NODE_INSERT, b.Plan(), k) == Last(NODE_INSERT, cs, k)
    ensures Last(NODE_UPDATE, b.Plan(), k) == Last(NODE_UPDATE, cs, k)
    ensures Last(EDGE_INSERT, b.Plan(), k) == Last(EDGE_INSERT, cs, k)
  {
    hide Last, Select;
    LastOfLists(NODE_INSERT, b, k);
    LastOfLists(NODE_UPDATE, b, k);
    LastOfLists(EDGE_INSERT, b, k);
    LastOfOwn(NODE_INSERT, cs, k);
    LastOfOther(NODE_INSERT, NODE_UPDATE, cs, k);
    LastOfOther(NODE_INSERT, NODE_DELETE, cs, k);
    LastOfOther(NODE_INSERT, EDGE_INSERT, cs, k);
    LastOfOther(NODE_INSERT, EDGE_DELETE, cs, k);
    LastOfOwn(NODE_UPDATE, cs, k);
    LastOfOther(NODE_UPDATE, NODE_DELETE, cs, k);
    LastOfOther(NODE_UPDATE, EDGE_INSERT, cs, k);
    LastOfOther(NODE_UPDATE, EDGE_DELETE, cs, k);
    LastOfOther(NODE_UPDATE, NODE_INSERT, cs, k);
    LastOfOwn(EDGE_INSERT, cs, k);
    LastOfOther(EDGE_INSERT, NODE_INSERT, cs, k);
    LastOfOther(EDGE_INSERT, NODE_UPDATE, cs, k);
    LastOfOther(EDGE_INSERT, NODE_DELETE, cs, k);
    LastOfOther(EDGE_INSERT, EDGE_DELETE, cs, k);
  }

  /** The last of a plan is the last of its last list that has one. */
  lemma LastOfLists(p: Write -> bool, b: Buffer, k: Key)
    ensures Last(p, b.Plan(), k) ==
      if Last(p, b.edgeDeletes, k).Some? then Last(p, b.edgeDeletes, k)
      else if Last(p, b.edgeInserts, k).Some? then Last(p, b.edgeInserts, k)
      else if Last(p, b.nodeDeletes, k).Some? then Last(p, b.nodeDeletes, k)
      else if Last(p, b.nodeUpdates, k).Some? then Last(p, b.nodeUpdates, k)
      else Last(p, b.nodeInserts, k)
  {
    hide Last;
    LastConcat(p, b.nodeInserts, b.nodeUpdates, k);
    LastConcat(p, b.nodeInserts + b.nodeUpdates, b.nodeDeletes, k);
    LastConcat(p, b.nodeInserts + b.nodeUpdates + b.nodeDeletes, b.edgeInserts, k);
    LastConcat(p, b.nodeInserts + b.nodeUpdates + b.nodeDeletes + b.edgeInserts, b.edgeDeletes, k);
  }

  /** Committing what any calls have buffered. */
  lemma CommitOfCalls(recs: map<Key, Entity>, b: Buffer, cs: seq<Write>, t: TxId, k: Key)
    requires Buffered(b, cs) && Typed(recs)
    ensures CommitsTo(recs, AppliedAll(recs, b.Plan(), t), cs, t, k)
    ensures VisibleAt(AppliedAll(recs, b.Plan(), t), k, t) <==> Shown(recs, cs, t, k)
  {
    hide Buffered, Buffer.Plan, AppliedAll, Last;
    BufferedIsSorted(b, cs);
    PlanOrdered(b);
    PlanHoldsCalls(b, cs);
    PlanStamps(recs, b.Plan(), t, k);
    PlanContents(recs, b.Plan(), t, k);
    LastOfPlan(b, cs, k);
    CommitVisibility(recs, b, t, k);
  }
}
