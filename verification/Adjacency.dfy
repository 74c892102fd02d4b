/**
 The store-wide picture: every node's two chains, threaded through one map of edge records,
 over whole runs of the edge store's operations with each edge linked at its own end points'
 heads. `chains` and `linked` are what the links mean; no operation of the store reads them.
 */
module Adjacency {
  import opened Types
  import opened WalFormat
  import opened Recovery
  import opened Chains
  import opened Edges

  /** One head field: `first_out` or `first_in` of a node. */
  datatype Slot = Slot(d: Dir, n: NodeId)

  datatype Graph = Graph(
    edges: EdgeMap,
    free: seq<EdgeId>,
    next: nat,
    reserved: set<EdgeId>,
    heads: map<Slot, EdgeId>,
    log: seq<WalCmd>,
    chains: map<Slot, seq<EdgeId>>,
    linked: set<EdgeId>)

  const EMPTY: Graph := Graph(map[], [], 0, {}, map[], [], map[], {})

  datatype Op =
    | Reserve
    | InsertReserved(id: EdgeId, src: NodeId, dst: NodeId, etype: TypeId, propsRow: u32, tx: TxId)
    | Link(id: EdgeId)
    | Unlink(id: EdgeId)
    | SoftDelete(id: EdgeId, tx: TxId)
    | HardDelete(id: EdgeId)

  function HeadOf(g: Graph, k: Slot): EdgeId {
    if k in g.heads then g.heads[k] else NULL_EDGE
  }

  function ChainOf(g: Graph, k: Slot): seq<EdgeId> {
    if k in g.chains then g.chains[k] else []
  }

  function SlotOf(e: Edge, d: Dir): Slot {
    Slot(d, OwnerOf(e, d))
  }

  /** Set both of an edge's slots. */
  function AtSlots<T>(m: map<Slot, T>, e: Edge, atOut: T, atIn: T): map<Slot, T> {
    m[SlotOf(e, Out) := atOut][SlotOf(e, In) := atIn]
  }

  /** What callers must respect: ids come from the allocator, only unlinked edges are linked or
      removed for good. */
  predicate Enabled(g: Graph, op: Op) {
    match op
    case Reserve => g.free != [] || g.next < NULL_EDGE
    case InsertReserved(id, _, _, _, _, _) => id in g.reserved
    case Link(id) => id in g.edges && id !in g.linked
    case Unlink(_) => true
    case SoftDelete(_, _) => true
    case HardDelete(id) => id !in g.linked
  }

  function PutNow(edges: EdgeMap, id: EdgeId): seq<WalCmd> {
    PutPred(edges, Some(id))
  }

  function LinkStep(g: Graph, id: EdgeId): (r: Graph)
    requires id in g.edges
    ensures r.edges.Keys == g.edges.Keys
  {
    var e := g.edges[id];
    var so, si := SlotOf(e, Out), SlotOf(e, In);
    var edges' := LinkEdges(g.edges, id, HeadOf(g, so), HeadOf(g, si));
    g.(edges := edges',
       heads := AtSlots(g.heads, e, id, id),
       log := g.log + PutNow(edges', id),
       chains := AtSlots(g.chains, e, [id] + ChainOf(g, so), [id] + ChainOf(g, si)),
       linked := g.linked + {id})
  }

  function UnlinkStep(g: Graph, id: EdgeId): (r: Graph)
    requires id in g.edges
    ensures r.edges.Keys == g.edges.Keys
  {
    var e := g.edges[id];
    var so, si := SlotOf(e, Out), SlotOf(e, In);
    var outs, ins := ChainOf(g, so), ChainOf(g, si);
    var edges' := UnlinkEdges(g.edges, id, outs, ins);
    g.(edges := edges',
       heads := AtSlots(g.heads, e, SpliceHead(HeadOf(g, so), id, e.nextOut), SpliceHead(HeadOf(g, si), id, e.nextIn)),
       log := g.log + (PutPred(edges', PredOf(outs, id)) + PutPred(edges', PredOf(ins, id))),
       chains := AtSlots(g.chains, e, Without(outs, id), Without(ins, id)),
       linked := g.linked - {id})
  }

  function Step(g: Graph, op: Op): Graph
    requires Enabled(g, op)
  {
    match op
    case Reserve =>
      if g.free != [] then g.(free := g.free[1..], reserved := g.reserved + {g.free[0]})
      else g.(next := g.next + 1, reserved := g.reserved + {g.next})
    case InsertReserved(id, src, dst, etype, propsRow, tx) =>
      var e := Edge.New(id, src, dst, etype, propsRow, tx);
      g.(edges := g.edges[id := e], reserved := g.reserved - {id}, log := g.log + [PutEdge(id, e)])
    case Link(id) => LinkStep(g, id)
    case Unlink(id) => if id in g.edges then UnlinkStep(g, id) else g
    case SoftDelete(id, tx) =>
      if id !in g.edges then g
      else
        var edges' := g.edges[id := g.edges[id].(deletedTx := tx)];
        g.(edges := edges', log := g.log + PutNow(edges', id))
    case HardDelete(id) =>
      g.(edges := g.edges - {id}, log := g.log + [Delete(id)],
         free := if id in g.edges then g.free + [id] else g.free)
  }

  /** Every head leads through its chain to the null link. */
  ghost predicate HeadsLead(edges: EdgeMap, g: Graph) {
    forall k: Slot {:trigger HeadOf(g, k)} {:trigger ChainOf(g, k)} :: Chain(edges, k.d, HeadOf(g, k), ChainOf(g, k))
  }

  /** A chain holds exactly the linked edges its node owns in that direction. */
  ghost predicate ChainsPartition(g: Graph) {
    && (forall id <- g.linked :: id in g.edges)
    && (forall k: Slot, id: EdgeId {:trigger id in ChainOf(g, k)} ::
         id in ChainOf(g, k) <==> id in g.linked && OwnerOf(g.edges[id], k.d) == k.n)
  }

  ghost predicate IdsConserved(g: Graph) {
    g.next <= NULL_EDGE && Partition(g.edges.Keys, g.free, g.reserved, g.next)
  }

  /** Replaying the log emitted so far rebuilds the records, links included. */
  ghost predicate LogRecovers(g: Graph) {
    AllFit(g.log) && Recovered(EDGE_DECODER, [], g.log) == g.edges
  }

  ghost predicate Inv(g: Graph) {
    HeadsLead(g.edges, g) && ChainsPartition(g) && IdsConserved(g) && LogRecovers(g)
  }

  predicate Allowed(g: Graph, ops: seq<Op>)
    decreases |ops|
  {
    ops == [] || (Enabled(g, ops[0]) && Allowed(Step(g, ops[0]), ops[1..]))
  }

  function Run(g: Graph, ops: seq<Op>): Graph
    requires Allowed(g, ops)
    decreases |ops|
  {
    if ops == [] then g else Run(Step(g, ops[0]), ops[1..])
  }

  // ---------------------------------------------------------------- each operation

  lemma NullNeverStored(g: Graph)
    requires IdsConserved(g)
    ensures NULL_EDGE !in g.edges && NULL_EDGE !in g.reserved
  {
  }

  lemma IdsKept(g: Graph, op: Op)
    requires IdsConserved(g) && Enabled(g, op)
    ensures IdsConserved(Step(g, op))
  {
    hide Partition, LinkStep, UnlinkStep, PutPred;
    var g' := Step(g, op);
    match op
    case Reserve => AllocKeepsPartition(g.edges.Keys, g.free, g.reserved, g.next);
    case InsertReserved(id, _, _, _, _, _) =>
      StoreKeepsPartition(g.edges.Keys, g.free, g.reserved, g.next, id);
      assert g'.edges.Keys == g.edges.Keys + {id};
    case HardDelete(id) =>
      if id in g.edges {
        FreeKeepsPartition(g.edges.Keys, g.free, g.reserved, g.next, id);
        assert g'.edges.Keys == g.edges.Keys - {id};
      } else {
        assert g'.edges == g.edges;
      }
    case _ => IdsUntouched(g, op);
  }

  lemma IdsUntouched(g: Graph, op: Op)
    requires Enabled(g, op) && (op.Link? || op.Unlink? || op.SoftDelete?)
    ensures var g' := Step(g, op);
      g'.edges.Keys == g.edges.Keys && g'.free == g.free && g'.reserved == g.reserved && g'.next == g.next
  {
    hide LinkEdges, UnlinkEdges, SpliceHead, PutPred, Without, HeadOf, ChainOf;
    assert Step(g, op).edges.Keys == g.edges.Keys;
  }

  lemma LogPut(log: seq<WalCmd>, edges: EdgeMap, id: EdgeId, e: Edge)
    requires AllFit(log) && Recovered(EDGE_DECODER, [], log) == edges
    ensures AllFit(log + [PutEdge(id, e)]) && Recovered(EDGE_DECODER, [], log + [PutEdge(id, e)]) == edges[id := e]
  {
    hide Recovered, PutEdge;
    RecoveredPut([], log, id, e);
    PutEdgeFits(id, e);
  }

  lemma LogPutPred(log: seq<WalCmd>, before: EdgeMap, edges: EdgeMap, pred: Option<EdgeId>)
    requires AllFit(log) && Recovered(EDGE_DECODER, [], log) == before
    ensures var log' := log + PutPred(edges, pred);
      && AllFit(log')
      && Recovered(EDGE_DECODER, [], log') ==
         if pred.Some? && pred.value in edges then before[pred.value := edges[pred.value]] else before
  {
    hide Recovered, PutEdge, AllFit;
    if pred.Some? && pred.value in edges {
      LogPut(log, before, pred.value, edges[pred.value]);
    } else {
      assert log + [] == log;
    }
  }

  lemma LogKept(g: Graph, op: Op)
    requires LogRecovers(g) && Enabled(g, op)
    ensures LogRecovers(Step(g, op))
  {
    hide Recovered, PutEdge, AllFit;
    var g' := Step(g, op);
    match op
    case Reserve =>
    case InsertReserved(id, _, _, _, _, _) => LogPut(g.log, g.edges, id, g'.edges[id]);
    case Link(id) => LogPutPred(g.log, g.edges, g'.edges, Some(id));
    case Unlink(id) =>
      if id in g.edges {
        UnlinkLogKept(g, id);
      }
    case SoftDelete(id, tx) =>
      if id in g.edges {
        LogPutPred(g.log, g.edges, g'.edges, Some(id));
      }
    case HardDelete(id) =>
      RecoveredDelete([], g.log, id);
      LogDeleteFits(g.log, id);
  }

  lemma LogDeleteFits(log: seq<WalCmd>, id: EdgeId)
    requires AllFit(log)
    ensures AllFit(log + [Delete(id)])
  {
  }

  lemma UnlinkLogKept(g: Graph, id: EdgeId)
    requires LogRecovers(g) && id in g.edges
    ensures LogRecovers(UnlinkStep(g, id))
  {
    hide Recovered, PutEdge, AllFit, PutPred, Without, SpliceHead;
    var g' := UnlinkStep(g, id);
    var e := g.edges[id];
    var p, q := PredOf(ChainOf(g, SlotOf(e, Out)), id), PredOf(ChainOf(g, SlotOf(e, In)), id);
    LogPutPred(g.log, g.edges, g'.edges, p);
    var mid := if p.Some? && p.value in g'.edges then g.edges[p.value := g'.edges[p.value]] else g.edges;
    LogPutPred(g.log + PutPred(g'.edges, p), mid, g'.edges, q);
    assert g'.log == g.log + PutPred(g'.edges, p) + PutPred(g'.edges, q);
    var end := if q.Some? && q.value in g'.edges then mid[q.value := g'.edges[q.value]] else mid;
    assert end == g'.edges;
  }

  // ---------------------------------------------------------------- chains under each operation

  lemma ChainFacts(g: Graph, k: Slot)
    requires HeadsLead(g.edges, g)
    ensures Traversal(g.edges, k.d, HeadOf(g, k), ChainOf(g, k), NULL_EDGE)
    ensures NoDup(ChainOf(g, k))
    ensures forall id <- ChainOf(g, k) :: id in g.edges && id != NULL_EDGE
  {
    assert Chain(g.edges, k.d, HeadOf(g, k), ChainOf(g, k));
    PathMembers(g.edges, k.d, HeadOf(g, k), ChainOf(g, k), NULL_EDGE);
    TraversalNoDup(g.edges, k.d, HeadOf(g, k), ChainOf(g, k), NULL_EDGE);
  }

  /** Records off every chain may come, go or change, as long as linked ones keep their links
      and end points. */
  lemma FrameChains(g: Graph, g': Graph)
    requires HeadsLead(g.edges, g) && ChainsPartition(g)
    requires g'.heads == g.heads && g'.chains == g.chains && g'.linked == g.linked
    requires forall id <- g.linked :: id in g'.edges
    requires forall id <- g.linked, d :: NextOf(g'.edges[id], d) == NextOf(g.edges[id], d)
    requires forall id <- g.linked, d :: OwnerOf(g'.edges[id], d) == OwnerOf(g.edges[id], d)
    ensures HeadsLead(g'.edges, g') && ChainsPartition(g')
  {
    hide Path, Traversal;
    forall k: Slot ensures Chain(g'.edges, k.d, HeadOf(g', k), ChainOf(g', k)) {
      ChainFacts(g, k);
      assert HeadOf(g', k) == HeadOf(g, k) && ChainOf(g', k) == ChainOf(g, k);
      assert Chain(g.edges, k.d, HeadOf(g, k), ChainOf(g, k));
      PathFrame(g.edges, g'.edges, k.d, HeadOf(g, k), ChainOf(g, k), NULL_EDGE);
    }
    forall k: Slot, x: EdgeId
      ensures x in ChainOf(g', k) <==> x in g'.linked && OwnerOf(g'.edges[x], k.d) == k.n
    {
      assert ChainOf(g', k) == ChainOf(g, k);
    }
  }

  lemma LinkChain(g: Graph, id: EdgeId, k: Slot)
    requires Inv(g) && id in g.edges && id !in g.linked
    ensures var g' := LinkStep(g, id); Chain(g'.edges, k.d, HeadOf(g', k), ChainOf(g', k))
  {
    hide LogRecovers, Path, Traversal, PutPred;
    NullNeverStored(g);
    ChainFacts(g, k);
    var g' := LinkStep(g, id);
    var head, c := HeadOf(g, k), ChainOf(g, k);
    assert Chain(g.edges, k.d, head, c);
    PathFrame(g.edges, g'.edges, k.d, head, c, NULL_EDGE);
    if k == SlotOf(g.edges[id], k.d) {
      PathCons(g'.edges, k.d, id, c, NULL_EDGE);
    }
  }

  /** Linking an unlinked edge puts it in front of its source's out-chain and its destination's
      in-chain and leaves every other chain as it was. */
  lemma LinkKept(g: Graph, id: EdgeId)
    requires Inv(g) && id in g.edges && id !in g.linked
    ensures var g' := LinkStep(g, id); HeadsLead(g'.edges, g') && ChainsPartition(g')
  {
    hide LogRecovers, Chain, IdsConserved, PutPred;
    var g' := LinkStep(g, id);
    forall k: Slot ensures Chain(g'.edges, k.d, HeadOf(g', k), ChainOf(g', k)) {
      LinkChain(g, id, k);
    }
    forall k: Slot, x: EdgeId
      ensures x in ChainOf(g', k) <==> x in g'.linked && OwnerOf(g'.edges[x], k.d) == k.n
    {
      assert ChainOf(g', k) == if k == SlotOf(g.edges[id], k.d) then [id] + ChainOf(g, k) else ChainOf(g, k);
    }
  }

  lemma SpliceFrame(edges: EdgeMap, d: Dir, s: seq<EdgeId>, id: EdgeId, after: EdgeId)
    ensures var edges' := SpliceEdges(edges, d, s, id, after);
      && edges'.Keys == edges.Keys
      && (forall x <- edges :: x !in s ==> edges'[x] == edges[x])
      && (forall x <- edges, c :: OwnerOf(edges'[x], c) == OwnerOf(edges[x], c))
      && (forall x <- edges, c :: c != d ==> NextOf(edges'[x], c) == NextOf(edges[x], c))
  {
  }

  lemma UnlinkChain(g: Graph, id: EdgeId, k: Slot)
    requires Inv(g) && id in g.edges
    ensures var g' := UnlinkStep(g, id); Chain(g'.edges, k.d, HeadOf(g', k), ChainOf(g', k))
  {
    hide LogRecovers, Path, Without, SpliceEdges, SpliceHead, PutPred, PredOf;
    NullNeverStored(g);
    var e := g.edges[id];
    var so, si := SlotOf(e, Out), SlotOf(e, In);
    var outs, ins := ChainOf(g, so), ChainOf(g, si);
    var mid := SpliceEdges(g.edges, Out, outs, id, e.nextOut);
    SpliceFrame(g.edges, Out, outs, id, e.nextOut);
    SpliceFrame(mid, In, ins, id, e.nextIn);
    ChainFacts(g, k);
    var head, c := HeadOf(g, k), ChainOf(g, k);
    var g' := UnlinkStep(g, id);
    if k.d == Out {
      if k == so {
        SplicePath(g.edges, Out, head, outs, NULL_EDGE, id);
        PathOtherDir(mid, g'.edges, Out, HeadOf(g', k), ChainOf(g', k), NULL_EDGE);
      } else {
        PathFrame(g.edges, g'.edges, Out, head, c, NULL_EDGE);
      }
    } else {
      if k == si {
        PathOtherDir(g.edges, mid, In, head, ins, NULL_EDGE);
        SplicePath(mid, In, head, ins, NULL_EDGE, id);
      } else {
        PathFrame(g.edges, g'.edges, In, head, c, NULL_EDGE);
      }
    }
  }

  lemma UnlinkMembers(g: Graph, id: EdgeId, k: Slot, x: EdgeId)
    requires Inv(g) && id in g.edges
    ensures var g' := UnlinkStep(g, id);
      x in ChainOf(g', k) <==> x in g'.linked && OwnerOf(g'.edges[x], k.d) == k.n
  {
    hide LogRecovers, Chain, IdsConserved, Without, SpliceEdges, SpliceHead, PutPred, PredOf;
    var e := g.edges[id];
    var outs, ins := ChainOf(g, SlotOf(e, Out)), ChainOf(g, SlotOf(e, In));
    SpliceFrame(g.edges, Out, outs, id, e.nextOut);
    SpliceFrame(SpliceEdges(g.edges, Out, outs, id, e.nextOut), In, ins, id, e.nextIn);
    ChainFacts(g, k);
    WithoutMembers(ChainOf(g, k), id);
    var g' := UnlinkStep(g, id);
    assert ChainOf(g', k) == if k == SlotOf(e, k.d) then Without(ChainOf(g, k), id) else ChainOf(g, k);
    assert x in ChainOf(g, k) <==> x in g.linked && OwnerOf(g.edges[x], k.d) == k.n;
  }

  /** Unlinking takes exactly that edge off its two chains and leaves every other chain alone. */
  lemma UnlinkKept(g: Graph, id: EdgeId)
    requires Inv(g) && id in g.edges
    ensures var g' := UnlinkStep(g, id); HeadsLead(g'.edges, g') && ChainsPartition(g')
  {
    hide LogRecovers, Chain, IdsConserved, UnlinkStep;
    var g' := UnlinkStep(g, id);
    UnlinkedSubset(g, id);
    forall k: Slot ensures Chain(g'.edges, k.d, HeadOf(g', k), ChainOf(g', k)) {
      UnlinkChain(g, id, k);
    }
    forall k: Slot, x: EdgeId
      ensures x in ChainOf(g', k) <==> x in g'.linked && OwnerOf(g'.edges[x], k.d) == k.n
    {
      UnlinkMembers(g, id, k, x);
    }
  }

  lemma UnlinkedSubset(g: Graph, id: EdgeId)
    requires id in g.edges
    ensures UnlinkStep(g, id).linked == g.linked - {id}
  {
  }

  lemma OthersKept(g: Graph, op: Op)
    requires Inv(g) && Enabled(g, op) && !op.Link? && !op.Unlink?
    ensures var g' := Step(g, op); HeadsLead(g'.edges, g') && ChainsPartition(g')
  {
    hide LogRecovers, Chain, PutPred, PutEdge, LinkStep, UnlinkStep, HeadsLead;
    assert op.InsertReserved? ==> op.id !in g.edges;
    FrameChains(g, Step(g, op));
  }

  lemma StepKeepsInv(g: Graph, op: Op)
    requires Inv(g) && Enabled(g, op)
    ensures Inv(Step(g, op))
  {
    hide LogRecovers, HeadsLead, ChainsPartition, IdsConserved, LinkStep, UnlinkStep;
    LogKept(g, op);
    IdsKept(g, op);
    match op
    case Link(id) => LinkKept(g, id);
    case Unlink(id) =>
      if id in g.edges {
        UnlinkKept(g, id);
      }
    case _ => OthersKept(g, op);
  }

  // ---------------------------------------------------------------- whole runs

  lemma {:induction false} RunKeepsInv(g: Graph, ops: seq<Op>)
    requires Inv(g) && Allowed(g, ops)
    ensures Inv(Run(g, ops))
    decreases |ops|
  {
    hide Inv, Step;
    if ops != [] {
      StepKeepsInv(g, ops[0]);
      RunKeepsInv(Step(g, ops[0]), ops[1..]);
    }
  }

  lemma EmptyInv()
    ensures Inv(EMPTY)
  {
    assert [] + ToRecords([]) == [];
  }

  /** In every state any run reaches: from every head, traversal visits that node's chain and
      ends at the null link without meeting an edge twice; a linked edge is on the out-chain of
      its source and the in-chain of its destination and on no other; and no id, recycled or
      fresh, is stored, free and reserved at once. */
  lemma StoreWide(ops: seq<Op>)
    requires Allowed(EMPTY, ops)
    ensures var g := Run(EMPTY, ops);
      && (forall k: Slot :: Traversal(g.edges, k.d, HeadOf(g, k), ChainOf(g, k), NULL_EDGE) && NoDup(ChainOf(g, k)))
      && (forall k: Slot, id ::
           id in ChainOf(g, k) <==> id in g.linked && id in g.edges && k == SlotOf(g.edges[id], k.d))
      && Partition(g.edges.Keys, g.free, g.reserved, g.next)
  {
    hide Traversal, Run, Allowed;
    EmptyInv();
    RunKeepsInv(EMPTY, ops);
    var g := Run(EMPTY, ops);
    forall k: Slot ensures Traversal(g.edges, k.d, HeadOf(g, k), ChainOf(g, k), NULL_EDGE) && NoDup(ChainOf(g, k)) {
      ChainFacts(g, k);
    }
  }

  /** After any run, replaying the bytes of the log it emitted rebuilds the same records, links
      included; so from the same head every traversal visits the same edges. */
  lemma RecoveryRefines(ops: seq<Op>)
    requires Allowed(EMPTY, ops)
    ensures var g := Run(EMPTY, ops); var file := ParseFile(MAGIC + EncodeAll(g.log));
      && file.status == Complete
      && Rebuild(EDGE_DECODER, file.records).recs == g.edges
      && forall k: Slot :: Traversal(Rebuild(EDGE_DECODER, file.records).recs, k.d, HeadOf(g, k), ChainOf(g, k), NULL_EDGE)
  {
    hide Traversal, Run, Allowed, ParseFile, EncodeAll;
    EmptyInv();
    RunKeepsInv(EMPTY, ops);
    StoreWide(ops);
    ReplayInvertsEncodeIff(Run(EMPTY, ops).log);
    assert [] + ToRecords(Run(EMPTY, ops).log) == ToRecords(Run(EMPTY, ops).log);
  }

  /** Unlinking an edge just linked restores every head, every chain and every other record; the
      edge itself differs only in the links it keeps. */
  lemma UnlinkUndoesLink(g: Graph, id: EdgeId)
    requires Inv(g) && id in g.edges && id !in g.linked
    ensures var g' := UnlinkStep(LinkStep(g, id), id);
      && (forall k: Slot :: HeadOf(g', k) == HeadOf(g, k) && ChainOf(g', k) == ChainOf(g, k))
      && g'.linked == g.linked
      && g'.edges == g.edges[id := g'.edges[id]]
      && g'.edges[id] == g.edges[id].(nextOut := g'.edges[id].nextOut, nextIn := g'.edges[id].nextIn)
  {
    hide LogRecovers, Chain, PutPred;
    var e := g.edges[id];
    var so, si := SlotOf(e, Out), SlotOf(e, In);
    var g1 := LinkStep(g, id);
    var outs, ins := ChainOf(g1, so), ChainOf(g1, si);
    assert outs == [id] + ChainOf(g, so) && ins == [id] + ChainOf(g, si);
    IndexOfIs(outs, id, 0);
    IndexOfIs(ins, id, 0);
    assert Without(outs, id) == ChainOf(g, so) && Without(ins, id) == ChainOf(g, si);
    assert UnlinkEdges(g1.edges, id, outs, ins) == g1.edges;
  }

  // ---------------------------------------------------------------- why callers must respect the guards

  /** Following the links from `head` reaches the null link. */
  ghost predicate EndsAtNull(edges: EdgeMap, d: Dir, head: EdgeId) {
    exists s :: Chain(edges, d, head, s)
  }

  /** Linked again, an edge leads back along its old chain to itself. */
  lemma {:induction false} RelinkedFollows(g: Graph, id: EdgeId, d: Dir, t: seq<EdgeId>, k: nat)
    requires Inv(g) && id in g.linked
    requires Chain(LinkStep(g, id).edges, d, id, t)
    requires var c := ChainOf(g, SlotOf(g.edges[id], d)); k <= IndexOf(c, id) < |c|
    ensures var c := ChainOf(g, SlotOf(g.edges[id], d)); k + 1 < |t| && t[k + 1] == c[k]
  {
    hide LogRecovers, IdsConserved, PutPred, LinkStep;
    var slot := SlotOf(g.edges[id], d);
    var c, edges' := ChainOf(g, slot), LinkStep(g, id).edges;
    LinkedNext(g, id, d);
    ChainFacts(g, slot);
    assert Chain(g.edges, d, HeadOf(g, slot), c);
    if k == 0 {
      assert |t| > 0 && LinkOk(edges', d, t, NULL_EDGE, 0);
      assert HeadOf(g, slot) == c[0];
    } else {
      RelinkedFollows(g, id, d, t, k - 1);
      assert c[k - 1] != id by { assert c[k - 1] == c[..IndexOf(c, id)][k - 1]; }
      assert LinkOk(edges', d, t, NULL_EDGE, k);
      assert LinkOk(g.edges, d, c, NULL_EDGE, k - 1);
    }
    assert c[k] in c && c[k] != NULL_EDGE;
  }

  lemma LinkedNext(g: Graph, id: EdgeId, d: Dir)
    requires id in g.edges
    ensures var edges' := LinkStep(g, id).edges;
      && NextOf(edges'[id], d) == HeadOf(g, SlotOf(g.edges[id], d))
      && forall x <- g.edges :: x != id ==> edges'[x] == g.edges[x]
  {
    hide PutPred, AtSlots;
  }

  /** After linking, the chain of either kind from the new head ends exactly when the edge was not
      linked before: linking twice closes both cycles. */
  lemma LinkEndsIff(g: Graph, id: EdgeId, d: Dir)
    requires Inv(g) && id in g.edges
    ensures EndsAtNull(LinkStep(g, id).edges, d, id) <==> id !in g.linked
  {
    hide LogRecovers, IdsConserved, PutPred, Path, LinkStep;
    var slot := SlotOf(g.edges[id], d);
    if id in g.linked {
      var c := ChainOf(g, slot);
      assert id in c;
      forall t ensures !Chain(LinkStep(g, id).edges, d, id, t) {
        if Chain(LinkStep(g, id).edges, d, id, t) {
          RelinkedFollows(g, id, d, t, IndexOf(c, id));
          TraversalStart(LinkStep(g, id).edges, d, id, t, NULL_EDGE);
          assert t[0] == t[IndexOf(c, id) + 1];
          TraversalNoDup(LinkStep(g, id).edges, d, id, t, NULL_EDGE);
          assert false;
        }
      }
    } else {
      LinkKept(g, id);
      LinkHead(g, id, d);
      assert Chain(LinkStep(g, id).edges, d, id, [id] + ChainOf(g, slot));
    }
  }

  lemma LinkHead(g: Graph, id: EdgeId, d: Dir)
    requires id in g.edges
    ensures var g', slot := LinkStep(g, id), SlotOf(g.edges[id], d);
      HeadOf(g', slot) == id && ChainOf(g', slot) == [id] + ChainOf(g, slot)
  {
    hide LinkEdges, PutPred;
    var e := g.edges[id];
    AtSlotsOf(g.heads, e, id, id, d);
    AtSlotsOf(g.chains, e, [id] + ChainOf(g, SlotOf(e, Out)), [id] + ChainOf(g, SlotOf(e, In)), d);
    hide AtSlots;
  }

  lemma AtSlotsOf<T>(m: map<Slot, T>, e: Edge, atOut: T, atIn: T, d: Dir)
    ensures var m' := AtSlots(m, e, atOut, atIn);
      SlotOf(e, d) in m' && m'[SlotOf(e, d)] == if d == Out then atOut else atIn
  {
  }

  /** Removing a record for good leaves every head leading to the null link exactly when the edge
      was not linked: otherwise its two chains end at a missing record. */
  lemma HardDeleteKeepsChainsIff(g: Graph, id: EdgeId)
    requires Inv(g) && id in g.edges
    ensures (forall k: Slot :: EndsAtNull(g.edges - {id}, k.d, HeadOf(g, k))) <==> id !in g.linked
  {
    hide LogRecovers, IdsConserved, Path;
    var edges' := g.edges - {id};
    if id in g.linked {
      var k := SlotOf(g.edges[id], Out);
      assert id in ChainOf(g, k);
      forall s ensures !Chain(edges', Out, HeadOf(g, k), s) {
        if Chain(edges', Out, HeadOf(g, k), s) {
          PathMembers(edges', Out, HeadOf(g, k), s, NULL_EDGE);
          PathFrame(edges', g.edges, Out, HeadOf(g, k), s, NULL_EDGE);
          ChainFacts(g, k);
          TraversalUnique(g.edges, Out, HeadOf(g, k), s, NULL_EDGE, ChainOf(g, k), NULL_EDGE);
          assert false;
        }
      }
      assert !EndsAtNull(edges', k.d, HeadOf(g, k));
    } else {
      forall k: Slot ensures EndsAtNull(edges', k.d, HeadOf(g, k)) {
        ChainFacts(g, k);
        PathFrame(g.edges, edges', k.d, HeadOf(g, k), ChainOf(g, k), NULL_EDGE);
        assert Chain(edges', k.d, HeadOf(g, k), ChainOf(g, k));
      }
    }
  }

  /** No step changes what an edge is, only its links and its deletion stamp. */
  lemma StepKeepsEnds(g: Graph, op: Op, id: EdgeId)
    requires Inv(g) && Enabled(g, op) && id in g.edges && op != HardDelete(id)
    ensures var e, g' := g.edges[id], Step(g, op);
      && id in g'.edges
      && SameButLinks(g'.edges[id].(deletedTx := e.deletedTx), e)
      && (!(op.SoftDelete? && op.id == id) ==> g'.edges[id].deletedTx == e.deletedTx)
  {
    hide LogRecovers, HeadsLead, ChainsPartition, PutPred;
    if op.InsertReserved? {
      assert op.id != id;
    } else if op.Unlink? && op.id in g.edges {
      hide SpliceEdges;
      var e := g.edges[op.id];
      SpliceKeepsEnds(g.edges, Out, ChainOf(g, SlotOf(e, Out)), op.id, e.nextOut);
      var mid := SpliceEdges(g.edges, Out, ChainOf(g, SlotOf(e, Out)), op.id, e.nextOut);
      SpliceKeepsEnds(mid, In, ChainOf(g, SlotOf(e, In)), op.id, e.nextIn);
    }
  }

  lemma SpliceKeepsEnds(edges: EdgeMap, d: Dir, s: seq<EdgeId>, id: EdgeId, after: EdgeId)
    ensures forall x <- edges :: SameButLinks(SpliceEdges(edges, d, s, id, after)[x], edges[x])
  {
  }

  lemma {:induction false} RunKeepsEnds(g: Graph, ops: seq<Op>, id: EdgeId)
    requires Inv(g) && Allowed(g, ops) && id in g.edges && HardDelete(id) !in ops
    ensures var e, g' := g.edges[id], Run(g, ops);
      id in g'.edges && SameButLinks(g'.edges[id].(deletedTx := e.deletedTx), e)
    decreases |ops|
  {
    hide Inv, Step, Enabled;
    if ops != [] {
      StepKeepsEnds(g, ops[0], id);
      StepKeepsInv(g, ops[0]);
      RunKeepsEnds(Step(g, ops[0]), ops[1..], id);
    }
  }

  /** An edge inserted from `src` to `dst`, whatever happens to others or to itself before it is linked,
      goes to the front of the out-chain of `src` and of the in-chain of `dst`. */
  lemma LinkedAtItsEnds(g: Graph, id: EdgeId, src: NodeId, dst: NodeId, etype: TypeId, propsRow: u32, tx: TxId,
                        ops: seq<Op>)
    requires Inv(g) && id in g.reserved
    requires var g1 := Step(g, InsertReserved(id, src, dst, etype, propsRow, tx));
      Allowed(g1, ops) && HardDelete(id) !in ops && Enabled(Run(g1, ops), Link(id))
    ensures var g2 := Run(Step(g, InsertReserved(id, src, dst, etype, propsRow, tx)), ops);
      var g3 := Step(g2, Link(id));
      && ChainOf(g3, Slot(Out, src)) == [id] + ChainOf(g2, Slot(Out, src)) && HeadOf(g3, Slot(Out, src)) == id
      && ChainOf(g3, Slot(In, dst)) == [id] + ChainOf(g2, Slot(In, dst)) && HeadOf(g3, Slot(In, dst)) == id
      && g3.edges[id].id == id && g3.edges[id].src == src && g3.edges[id].dst == dst && g3.edges[id].etype == etype
      && g3.edges[id].propsRow == propsRow && g3.edges[id].createdTx == tx
  {
    hide Inv, Run, Allowed, PutPred, PutEdge;
    var op := InsertReserved(id, src, dst, etype, propsRow, tx);
    var g1 := Step(g, op);
    StepKeepsInv(g, op);
    RunKeepsEnds(g1, ops, id);
    RunKeepsInv(g1, ops);
    var g2 := Run(g1, ops);
    LinkHead(g2, id, Out);
    LinkHead(g2, id, In);
    StepKeepsEnds(g2, Link(id), id);
  }

  lemma RunCons(g: Graph, op: Op, ops: seq<Op>)
    requires Enabled(g, op) && Allowed(Step(g, op), ops)
    ensures Allowed(g, [op] + ops) && Run(g, [op] + ops) == Run(Step(g, op), ops)
  {
    assert ([op] + ops)[1..] == ops;
  }

  /** A run to a linked edge. */
  lemma LinkedRun(src: NodeId, dst: NodeId, etype: TypeId, propsRow: u32, tx: TxId)
    ensures var ops := [Reserve, InsertReserved(0, src, dst, etype, propsRow, tx), Link(0)];
      Allowed(EMPTY, ops) && Inv(Run(EMPTY, ops)) && 0 in Run(EMPTY, ops).edges && 0 in Run(EMPTY, ops).linked
  {
    hide Inv, LinkEdges, PutPred, PutEdge, AtSlots;
    var op2 := InsertReserved(0, src, dst, etype, propsRow, tx);
    EmptyInv();
    var g1 := Step(EMPTY, Reserve);
    StepKeepsInv(EMPTY, Reserve);
    assert 0 in g1.reserved && Enabled(g1, op2);
    StepKeepsInv(g1, op2);
    var g2 := Step(g1, op2);
    assert 0 in g2.edges && g2.linked == {} && Enabled(g2, Link(0));
    StepKeepsInv(g2, Link(0));
    hide Step, Enabled, LinkStep;
    RunCons(g2, Link(0), []);
    RunCons(g1, op2, [Link(0)]);
    RunCons(EMPTY, Reserve, [op2, Link(0)]);
    assert [Reserve] + [op2, Link(0)] == [Reserve, op2, Link(0)];
  }

  /** There, linking the edge again leaves both its chains without an end, and removing its record
      leaves a head that leads to nothing. */
  lemma LinkedRunFails(src: NodeId, dst: NodeId, etype: TypeId, propsRow: u32, tx: TxId)
    ensures var ops := [Reserve, InsertReserved(0, src, dst, etype, propsRow, tx), Link(0)];
      Allowed(EMPTY, ops) &&
      var g := Run(EMPTY, ops);
      0 in g.edges && !EndsAtNull(LinkStep(g, 0).edges, Out, 0) && !EndsAtNull(LinkStep(g, 0).edges, In, 0)
      && exists k: Slot :: !EndsAtNull(g.edges - {0}, k.d, HeadOf(g, k))
  {
    hide Inv, Run, Allowed, LinkStep, EndsAtNull;
    LinkedRun(src, dst, etype, propsRow, tx);
    var g := Run(EMPTY, [Reserve, InsertReserved(0, src, dst, etype, propsRow, tx), Link(0)]);
    LinkEndsIff(g, 0, Out);
    LinkEndsIff(g, 0, In);
    HardDeleteKeepsChainsIff(g, 0);
  }

  // ---------------------------------------------------------------- the store itself

  /** The store and the heads its callers keep are in the state `g`. */
  ghost predicate Mirrors(store: EdgeStore, heads: map<Slot, EdgeId>, g: Graph)
    reads store
  {
    && store.Valid() && store.Opened() == []
    && store.edges == g.edges && store.freeList == g.free && store.nextId == g.next
    && store.reserved == g.reserved && store.wal.sent == g.log && heads == g.heads
  }

  method PerformLink(store: EdgeStore, heads: map<Slot, EdgeId>, id: EdgeId, ghost g: Graph)
    returns (heads': map<Slot, EdgeId>)
    requires Mirrors(store, heads, g) && id in g.edges
    modifies store`edges, store`wal
    ensures Mirrors(store, heads', LinkStep(g, id))
  {
    hide EdgeStore.Valid, PutPred;
    var e := store.edges[id];
    var so, si := SlotOf(e, Out), SlotOf(e, In);
    var firstOut, firstIn := if so in heads then heads[so] else NULL_EDGE, if si in heads then heads[si] else NULL_EDGE;
    firstOut, firstIn := store.LinkIntoChains(id, firstOut, firstIn);
    heads' := heads[so := firstOut][si := firstIn];
  }

  method PerformUnlink(store: EdgeStore, heads: map<Slot, EdgeId>, id: EdgeId, ghost g: Graph)
    returns (heads': map<Slot, EdgeId>)
    requires Mirrors(store, heads, g) && Inv(g) && id in g.edges
    modifies store`edges, store`wal
    ensures Mirrors(store, heads', UnlinkStep(g, id))
  {
    hide EdgeStore.Valid, PutPred, LogRecovers, IdsConserved, ChainsPartition, Traversal, UnlinkEdges, Without, SpliceHead;
    var e := store.edges[id];
    var so, si := SlotOf(e, Out), SlotOf(e, In);
    var firstOut, firstIn := if so in heads then heads[so] else NULL_EDGE, if si in heads then heads[si] else NULL_EDGE;
    ChainFacts(g, so);
    ChainFacts(g, si);
    assert id != NULL_EDGE by { InvNull(g); }
    var _, head, first :=
      store.UnlinkFromChains(id, firstOut, firstIn, ChainOf(g, so), NULL_EDGE, ChainOf(g, si), NULL_EDGE);
    heads' := heads[so := head][si := first];
  }

  /** The store's own methods, called with each edge's own heads, take the steps of the model. */
  method Perform(store: EdgeStore, heads: map<Slot, EdgeId>, op: Op, ghost g: Graph)
    returns (heads': map<Slot, EdgeId>)
    requires Mirrors(store, heads, g) && Inv(g) && Enabled(g, op)
    modifies store
    ensures Inv(Step(g, op)) && Mirrors(store, heads', Step(g, op))
  {
    hide EdgeStore.Valid, PutPred, PutEdge, Inv, LinkStep, UnlinkStep;
    StepKeepsInv(g, op);
    heads' := heads;
    match op {
      case Reserve => var _ := store.AllocId();
      case InsertReserved(id, src, dst, etype, propsRow, tx) =>
        store.InsertWithId(id, src, dst, etype, propsRow, tx);
      case Link(id) => heads' := PerformLink(store, heads, id, g);
      case Unlink(id) =>
        if id in store.edges {
          heads' := PerformUnlink(store, heads, id, g);
        }
      case SoftDelete(id, tx) => var _ := store.SoftDelete(id, tx);
      case HardDelete(id) => var _ := store.HardDelete(id);
    }
  }

  lemma InvNull(g: Graph)
    requires Inv(g)
    ensures NULL_EDGE !in g.edges && NULL_EDGE !in g.reserved
  {
    NullNeverStored(g);
  }
}
