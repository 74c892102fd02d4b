/**
 The database as one client thread sees it: transactions over three stores with their logs.
 Committing applies the buffered writes in the order of the interleaved model and leaves every
 store's log, as it is on disk, able to rebuild that store exactly.
 */
module Transactions {
  import opened Types
  import opened TicketLock
  import opened Mvcc
  import opened Plans
  import opened Nodes
  import opened Edges
  import opened Props
  import WalFormat
  import WalThread
  import Recovery

  datatype CommitResult = Ok | Err(reason: string)

  // ---------------------------------------------------------------- the ticket lock

  /** The counter value a ticket waits for; the subtraction wraps, as in a release build. */
  function Before(t: TxId): TxId {
    (t - 1) % TWO64
  }

  lemma BeforeIff(t: TxId, c: TxId)
    ensures c == Before(t) <==> (c + 1) % TWO64 == t
  {
  }

  class TxManager {
    var nextTxId: u64
    var committedTxId: u64

    constructor ()
      ensures nextTxId == 1 && committedTxId == 0
    {
      nextTxId, committedTxId := 1, 0;
    }

    method BeginRead() returns (snapshot: TxId)
      ensures snapshot == committedTxId
    {
      snapshot := committedTxId;
    }

    method BeginWrite() returns (t: TxId)
      modifies this`nextTxId
      ensures t == old(nextTxId) && nextTxId == (t + 1) % TWO64
    {
      t := nextTxId;
      nextTxId := (nextTxId + 1) % TWO64;
    }

    /** Spin until it is our turn, giving up after the limit. With no other thread the counter
        does not move meanwhile, so commit succeeds exactly when all earlier tickets are resolved. */
    method Commit(t: TxId) returns (r: CommitResult)
      modifies this`committedTxId
      ensures r.Ok? <==> (old(committedTxId) + 1) % TWO64 == t
      ensures committedTxId == if r.Ok? then t else old(committedTxId)
      ensures r.Err? ==> r.reason == "timeout"
    {
      var expected := Before(t);
      var spins := 0;
      while true
        invariant spins <= SPIN_LIMIT && committedTxId == old(committedTxId)
        invariant spins > 0 ==> committedTxId != expected
        decreases SPIN_LIMIT - spins
      {
        var current := committedTxId;
        if current == expected {
          committedTxId := t;
          return Ok;
        }
        spins := spins + 1;
        if spins > SPIN_LIMIT {
          return Err("timeout");
        }
      }
    }

    /** Spins without a limit, followed here for as many loads of the counter as are given: `loads` are
        the values that other threads' stores make them return. Returns at the first one that says
        it is our turn, and never otherwise. */
    method Rollback(t: TxId, loads: seq<TxId>) returns (returned: bool)
      modifies this`committedTxId
      ensures returned <==> exists c <- loads :: (c + 1) % TWO64 == t
      ensures committedTxId == if returned then t else if loads != [] then loads[|loads| - 1] else old(committedTxId)
    {
      var expected := Before(t);
      var i := 0;
      while i < |loads|
        invariant i <= |loads| && expected !in loads[..i]
        invariant committedTxId == if i > 0 then loads[i - 1] else old(committedTxId)
      {
        committedTxId := loads[i];
        var current := committedTxId;
        if current == expected {
          BeforeIff(t, current);
          committedTxId := t;
          assert current in loads;
          return true;
        }
        i := i + 1;
      }
      assert loads[..i] == loads;
      forall c | c in loads ensures (c + 1) % TWO64 != t {
        BeforeIff(t, c);
      }
      returned := false;
    }
  }

  // ---------------------------------------------------------------- records of both stores

  function RecsOf(nodes: map<NodeId, Node>, edges: map<EdgeId, Edge>): map<Key, Entity> {
    (map k: Key | k in NodeKeys(nodes) :: NodeRec(nodes[k.id]))
    + (map k: Key | k in EdgeKeys(edges) :: EdgeRec(edges[k.id]))
  }

  function NodeKeys(nodes: map<NodeId, Node>): (ks: set<Key>)
    ensures forall k :: k in ks <==> k.NodeKey? && k.id in nodes
  {
    set id | id in nodes :: NodeKey(id)
  }

  function EdgeKeys(edges: map<EdgeId, Edge>): (ks: set<Key>)
    ensures forall k :: k in ks <==> k.EdgeKey? && k.id in edges
  {
    set id | id in edges :: EdgeKey(id)
  }

  lemma RecsAt(nodes: map<NodeId, Node>, edges: map<EdgeId, Edge>, k: Key)
    ensures var recs := RecsOf(nodes, edges);
      match k
      case NodeKey(id) => if id in nodes then k in recs && recs[k] == NodeRec(nodes[id]) else k !in recs
      case EdgeKey(id) => if id in edges then k in recs && recs[k] == EdgeRec(edges[id]) else k !in recs
  {
  }

  lemma RecsTyped(nodes: map<NodeId, Node>, edges: map<EdgeId, Edge>)
    ensures Typed(RecsOf(nodes, edges))
  {
    hide RecsOf;
    forall k | k in RecsOf(nodes, edges) ensures k.NodeKey? <==> RecsOf(nodes, edges)[k].NodeRec? {
      RecsAt(nodes, edges, k);
    }
  }

  lemma RecsWithNode(nodes: map<NodeId, Node>, edges: map<EdgeId, Edge>, id: NodeId, n: Node)
    ensures RecsOf(nodes[id := n], edges) == RecsOf(nodes, edges)[NodeKey(id) := NodeRec(n)]
  {
    hide RecsOf;
    var after, expected := RecsOf(nodes[id := n], edges), RecsOf(nodes, edges)[NodeKey(id) := NodeRec(n)];
    forall k: Key ensures (k in after <==> k in expected) && (k in after ==> after[k] == expected[k])
    {
      RecsAt(nodes, edges, k);
      RecsAt(nodes[id := n], edges, k);
    }
  }

  lemma RecsWithEdge(nodes: map<NodeId, Node>, edges: map<EdgeId, Edge>, id: EdgeId, e: Edge)
    ensures RecsOf(nodes, edges[id := e]) == RecsOf(nodes, edges)[EdgeKey(id) := EdgeRec(e)]
  {
    hide RecsOf;
    var after, expected := RecsOf(nodes, edges[id := e]), RecsOf(nodes, edges)[EdgeKey(id) := EdgeRec(e)];
    forall k: Key ensures (k in after <==> k in expected) && (k in after ==> after[k] == expected[k])
    {
      RecsAt(nodes, edges, k);
      RecsAt(nodes, edges[id := e], k);
    }
  }

  /** What one buffered write does to each store's map. */
  function NodesAfter(nodes: map<NodeId, Node>, w: Write, t: TxId): map<NodeId, Node> {
    match w
    case CreateNode(id, labels, propsRow) => nodes[id := Node.New(id, labels, propsRow, t)]
    case Relabel(id, labels) => if id in nodes then nodes[id := nodes[id].(labels := labels, createdTx := t)] else nodes
    case DeleteNode(id) => if id in nodes then nodes[id := nodes[id].(deletedTx := t)] else nodes
    case _ => nodes
  }

  function EdgesAfter(edges: map<EdgeId, Edge>, w: Write, t: TxId): map<EdgeId, Edge> {
    match w
    case CreateEdge(id, src, dst, etype, propsRow) => edges[id := Edge.New(id, src, dst, etype, propsRow, t)]
    case DeleteEdge(id) => if id in edges then edges[id := edges[id].(deletedTx := t)] else edges
    case _ => edges
  }

  /** The stores' own updates are the interleaved model's. */
  lemma AppliedToStores(nodes: map<NodeId, Node>, edges: map<EdgeId, Edge>, w: Write, t: TxId)
    ensures RecsOf(NodesAfter(nodes, w, t), EdgesAfter(edges, w, t)) == AppliedTo(RecsOf(nodes, edges), w, t)
  {
    hide RecsOf;
    RecsAt(nodes, edges, KeyOf(w));
    var nodes', edges' := NodesAfter(nodes, w, t), EdgesAfter(edges, w, t);
    if w.id in nodes' {
      RecsWithNode(nodes, edges, w.id, nodes'[w.id]);
    }
    if w.id in edges' {
      RecsWithEdge(nodes, edges, w.id, edges'[w.id]);
    }
  }

  /** The node and the edge store, each with everything it has sent to its log. */
  datatype Sides = Sides(
    nodes: map<NodeId, Node>,
    nodeLog: seq<WalFormat.WalCmd>,
    edges: map<EdgeId, Edge>,
    edgeLog: seq<WalFormat.WalCmd>)

  /** What one buffered write sends to the node log. */
  function NodeCmd(nodes: map<NodeId, Node>, w: Write, t: TxId): seq<WalFormat.WalCmd> {
    if w.CreateNode? || ((w.Relabel? || w.DeleteNode?) && w.id in nodes) then
      [PutNode(w.id, NodesAfter(nodes, w, t)[w.id])]
    else []
  }

  function EdgeCmd(edges: map<EdgeId, Edge>, w: Write, t: TxId): seq<WalFormat.WalCmd> {
    if w.CreateEdge? || (w.DeleteEdge? && w.id in edges) then [PutEdge(w.id, EdgesAfter(edges, w, t)[w.id])]
    else []
  }

  function After(s: Sides, w: Write, t: TxId): Sides {
    Sides(NodesAfter(s.nodes, w, t), s.nodeLog + NodeCmd(s.nodes, w, t),
          EdgesAfter(s.edges, w, t), s.edgeLog + EdgeCmd(s.edges, w, t))
  }

  function AfterAll(s: Sides, ws: seq<Write>, t: TxId): Sides {
    if ws == [] then s else After(AfterAll(s, ws[..|ws| - 1], t), ws[|ws| - 1], t)
  }

  function CellCmds(ws: seq<CellWrite>): (cs: seq<WalFormat.WalCmd>)
    ensures |cs| == |ws| && forall i :: 0 <= i < |cs| ==> cs[i] == PutCell(ws[i])
  {
    seq(|ws|, i requires 0 <= i < |ws| => PutCell(ws[i]))
  }

  lemma AfterSnoc(s: Sides, ws: seq<Write>, w: Write, t: TxId)
    ensures AfterAll(s, ws + [w], t) == After(AfterAll(s, ws, t), w, t)
  {
    assert (ws + [w])[..|ws|] == ws;
  }

  lemma {:induction false} AfterConcat(s: Sides, a: seq<Write>, b: seq<Write>, t: TxId)
    ensures AfterAll(s, a + b, t) == AfterAll(AfterAll(s, a, t), b, t)
  {
    hide After;
    if b == [] {
      assert a + b == a;
    } else {
      var n := |b| - 1;
      AfterConcat(s, a, b[..n], t);
      assert (a + b)[..|a + b| - 1] == a + b[..n];
    }
  }

  /** The records of both stores after a list of writes are those of the interleaved model. */
  lemma {:induction false} AfterApplies(s: Sides, ws: seq<Write>, t: TxId)
    ensures var s' := AfterAll(s, ws, t);
      RecsOf(s'.nodes, s'.edges) == AppliedAll(RecsOf(s.nodes, s.edges), ws, t)
  {
    hide RecsOf, AppliedTo, NodesAfter, EdgesAfter;
    if ws != [] {
      var before := AfterAll(s, ws[..|ws| - 1], t);
      AfterApplies(s, ws[..|ws| - 1], t);
      AppliedToStores(before.nodes, before.edges, ws[|ws| - 1], t);
    }
  }

  class Database {
    const txManager: TxManager
    const nodes: NodeStore
    const edges: EdgeStore
    const props: PropStore

    constructor (txManager: TxManager, nodes: NodeStore, edges: EdgeStore, props: PropStore)
      ensures this.txManager == txManager && this.nodes == nodes && this.edges == edges && this.props == props
    {
      this.txManager, this.nodes, this.edges, this.props := txManager, nodes, edges, props;
    }

    ghost predicate Valid()
      reads this, nodes, edges, props
    {
      nodes.Valid() && edges.Valid() && props.Valid()
    }

    lemma RecsOfStores()
      ensures Recs() == RecsOf(Stores().nodes, Stores().edges)
    {
    }

    ghost function Recs(): map<Key, Entity>
      reads this, nodes, edges
    {
      RecsOf(nodes.nodes, edges.edges)
    }

    ghost function Stores(): Sides
      reads this, nodes, edges
    {
      Sides(nodes.nodes, nodes.wal.sent, edges.edges, edges.wal.sent)
    }

    /** While intact, the three files on disk rebuild the three stores as they are in memory. */
    ghost predicate Durable()
      reads this, nodes, edges, props
    {
      nodes.Durable() && edges.Durable() && props.Durable()
    }

    /** The files were whole when opened, and nothing logged since overflows a length. */
    ghost predicate Intact()
      reads this, nodes, edges, props
    {
      && WholeFiles(nodes.file, edges.file, props.file)
      && WalFormat.AllFit(nodes.wal.sent) && WalFormat.AllFit(props.wal.sent) && NamesFit(props.columns)
    }

    /** Every record was created by a resolved ticket, as in a database only transactions wrote to. */
    ghost predicate Stamped()
      reads this, nodes, edges, txManager
    {
      StampedUpTo(Recs(), txManager.committedTxId)
    }

    /** `Database::open`. The ticket counters are not stored anywhere. */
    static method Open(cfg: WalThread.Config, nodesFile: seq<byte>, edgesFile: seq<byte>, propsFile: seq<byte>)
      returns (r: Option<Database>)
      requires cfg.cap > 0
      ensures r.Some? <==> Opens(nodesFile) && Opens(edgesFile) && Opens(propsFile)
      ensures r.Some? ==>
        var db := r.value;
        && fresh(db) && fresh(db.txManager) && db.Valid()
        && db.Recs() == OpenedRecs(nodesFile, edgesFile) && db.props.columns == OpenedColumns(propsFile)
        && db.txManager.nextTxId == 1 && db.txManager.committedTxId == 0
        && db.Durable() && (WholeFiles(nodesFile, edgesFile, propsFile) && NamesFit(db.props.columns) ==> db.Intact())
    {
      hide NodeStore.Valid, EdgeStore.Valid, PropStore.Valid, RecsOf, Opens, WholeFiles, Database.Intact;
      hide NodeStore.Durable, EdgeStore.Durable, PropStore.Durable;
      var txManager := new TxManager();
      var nodes :- OpenNodes(cfg, nodesFile);
      var edges :- OpenEdges(cfg, edgesFile);
      var props :- OpenProps(cfg, propsFile);
      var db := new Database(txManager, nodes, edges, props);
      if WholeFiles(nodesFile, edgesFile, propsFile) && NamesFit(props.columns) {
        db.OpenedIntact();
      }
      r := Some(db);
    }

    static method OpenNodes(cfg: WalThread.Config, file: seq<byte>) returns (r: Option<NodeStore>)
      requires cfg.cap > 0
      ensures r.Some? <==> Opens(file)
      ensures r.Some? ==>
        var s := r.value;
        && fresh(s) && s.Valid() && s.Durable() && s.file == file && s.wal.sent == []
        && s.nodes == Recovery.Rebuild(NODE_DECODER, WalFormat.ParseFile(file).records).recs
    {
      hide NodeStore.Valid, NodeStore.Durable, NodeStore.Conserved, Recovery.OpenStatus, Recovery.Rebuild;
      r := NodeStore.Open(cfg, file);
    }

    static method OpenEdges(cfg: WalThread.Config, file: seq<byte>) returns (r: Option<EdgeStore>)
      requires cfg.cap > 0
      ensures r.Some? <==> Opens(file)
      ensures r.Some? ==>
        var s := r.value;
        && fresh(s) && s.Valid() && s.Durable() && s.file == file && s.wal.sent == []
        && s.edges == Recovery.Rebuild(EDGE_DECODER, WalFormat.ParseFile(file).records).recs
    {
      hide EdgeStore.Valid, EdgeStore.Durable, EdgeStore.Conserved, Recovery.OpenStatus, Recovery.Rebuild;
      r := EdgeStore.Open(cfg, file);
    }

    static method OpenProps(cfg: WalThread.Config, file: seq<byte>) returns (r: Option<PropStore>)
      requires cfg.cap > 0
      ensures r.Some? <==> Opens(file)
      ensures r.Some? ==>
        var s := r.value;
        && fresh(s) && s.Valid() && s.Durable() && s.file == file && s.wal.sent == []
        && s.columns == OpenedColumns(file)
    {
      hide PropStore.Valid, PropStore.Durable, PropStore.Fresh, LastRowWritten, Props.Rebuild, WalFormat.ParseFile;
      r := PropStore.Open(cfg, file);
    }

    lemma OpenedIntact()
      requires WholeFiles(nodes.file, edges.file, props.file) && NamesFit(props.columns)
      requires nodes.wal.sent == [] && edges.wal.sent == [] && props.wal.sent == []
      ensures Intact()
    {
    }

    /** Dropping the handle stops the three threads. After a commit, or any flush with nothing
        written since, the files it leaves are whole and open again to the same records and columns. */
    method Close() returns (nodesFile: seq<byte>, edgesFile: seq<byte>, propsFile: seq<byte>)
      requires Valid()
      modifies nodes, edges, props
      ensures old(Durable() && Intact()) ==>
        && WholeFiles(nodesFile, edgesFile, propsFile) && Opens(nodesFile) && Opens(edgesFile) && Opens(propsFile)
        && OpenedRecs(nodesFile, edgesFile) == old(Recs()) && OpenedColumns(propsFile) == old(props.columns)
    {
      hide NodeStore.Valid, EdgeStore.Valid, PropStore.Valid, RecsOf, Opens, WholeFiles;
      hide WalFormat.ParseFile, WalFormat.Whole, WalThread.Synced, WalFormat.AllFit;
      hide Recovery.Rebuild, Props.Rebuild, Recovery.Recovered, OpenedRecs, OpenedColumns;
      if Durable() && Intact() {
        ReopenRestores(this);
      }
      nodesFile := nodes.Close();
      edgesFile := edges.Close();
      propsFile := props.Close();
    }

    /** One session to the next. Durability carries over any number of them: what one leaves durable
        and intact, the next has, durable and intact. */
    static method Reopen(db: Database, cfg: WalThread.Config) returns (r: Option<Database>)
      requires db.Valid() && cfg.cap > 0
      modifies db.nodes, db.edges, db.props
      ensures old(db.Durable() && db.Intact()) ==>
        && r.Some? && fresh(r.value) && r.value.Valid() && r.value.Durable() && r.value.Intact()
        && r.value.Recs() == old(db.Recs()) && r.value.props.columns == old(db.props.columns)
    {
      hide Database.Valid, Database.Durable, Database.Recs, Opens, WholeFiles, OpenedRecs, OpenedColumns;
      var nodesFile, edgesFile, propsFile := db.Close();
      r := Open(cfg, nodesFile, edgesFile, propsFile);
    }
  }

  predicate WholeFiles(nodesFile: seq<byte>, edgesFile: seq<byte>, propsFile: seq<byte>) {
    && WalFormat.Whole(WalThread.Started(nodesFile))
    && WalFormat.Whole(WalThread.Started(edgesFile))
    && WalFormat.Whole(WalThread.Started(propsFile))
  }

  predicate Opens(file: seq<byte>) {
    |file| > 4 ==> WalFormat.ParseFile(file).status == WalFormat.Complete
  }

  function OpenedRecs(nodesFile: seq<byte>, edgesFile: seq<byte>): map<Key, Entity> {
    RecsOf(Recovery.Rebuild(NODE_DECODER, WalFormat.ParseFile(nodesFile).records).recs,
           Recovery.Rebuild(EDGE_DECODER, WalFormat.ParseFile(edgesFile).records).recs)
  }

  function OpenedColumns(propsFile: seq<byte>): Columns {
    Props.Rebuild(WalFormat.ParseFile(propsFile).records).cols
  }

  /** What a durable database left on disk opens again to the same records and columns, from files
      that are whole for another session. */
  lemma ReopenRestores(db: Database)
    requires db.Durable() && db.Intact()
    ensures var nodesFile, edgesFile := db.nodes.wal.local.disk, db.edges.wal.local.disk;
      var propsFile := db.props.wal.local.disk;
      && WholeFiles(nodesFile, edgesFile, propsFile) && Opens(nodesFile) && Opens(edgesFile) && Opens(propsFile)
      && OpenedRecs(nodesFile, edgesFile) == db.Recs() && OpenedColumns(propsFile) == db.props.columns
  {
    hide WalFormat.ParseFile, Recovery.Rebuild, Props.Rebuild, RecsOf, WalFormat.Whole;
    WalThread.WholeIsSome(db.nodes.wal.local.disk);
    WalThread.WholeIsSome(db.edges.wal.local.disk);
    WalThread.WholeIsSome(db.props.wal.local.disk);
  }

  /** The ticket counters do not come back, so new snapshots count from 0 again over old stamps. The
      first reader sees no record that a transaction created. Until tickets reach the old counter
      `c`, a new snapshot shows again exactly what was deleted after it, and lacks exactly what was
      created after it. */
  lemma ReopenedViews(recs: map<Key, Entity>, c: TxId, tx: TxId, k: Key)
    requires StampedUpTo(recs, c) && tx <= c
    ensures !VisibleAt(recs, k, 0)
    ensures VisibleAt(recs, k, tx) && !VisibleAt(recs, k, c) <==>
            k in recs && recs[k].Created() <= tx < recs[k].Deleted() <= c
    ensures VisibleAt(recs, k, c) && !VisibleAt(recs, k, tx) <==>
            k in recs && tx < recs[k].Created() <= c < recs[k].Deleted()
  {
  }

  // ---------------------------------------------------------------- applying a write buffer

  method ApplyToNodes(nodes: NodeStore, w: Write, t: TxId)
    requires nodes.Valid()
    modifies nodes
    ensures nodes.Valid() && nodes.nodes == NodesAfter(old(nodes.nodes), w, t)
    ensures nodes.wal.sent == old(nodes.wal.sent) + NodeCmd(old(nodes.nodes), w, t)
  {
    hide NodeStore.Valid, PutNode;
    assert nodes.wal.sent + [] == nodes.wal.sent;
    match w {
      case CreateNode(id, labels, propsRow) => nodes.InsertWithId(id, labels, propsRow, t);
      case Relabel(id, labels) => var _ := nodes.UpdateLabels(id, labels, t);
      case DeleteNode(id) => var _ := nodes.SoftDelete(id, t);
      case _ =>
    }
  }

  method ApplyToEdges(edges: EdgeStore, w: Write, t: TxId)
    requires edges.Valid()
    modifies edges
    ensures edges.Valid() && edges.edges == EdgesAfter(old(edges.edges), w, t)
    ensures edges.wal.sent == old(edges.wal.sent) + EdgeCmd(old(edges.edges), w, t)
  {
    hide EdgeStore.Valid, PutEdge;
    assert edges.wal.sent + [] == edges.wal.sent;
    match w {
      case CreateEdge(id, src, dst, etype, propsRow) => edges.InsertWithId(id, src, dst, etype, propsRow, t);
      case DeleteEdge(id) => var _ := edges.SoftDelete(id, t);
      case _ =>
    }
  }

  /** One buffered write reaching its store. */
  method ApplyOne(db: Database, w: Write, t: TxId)
    requires db.Valid()
    modifies db.nodes, db.edges
    ensures db.Valid()
    ensures db.Stores() == After(old(db.Stores()), w, t)
  {
    hide NodeStore.Valid, EdgeStore.Valid, PropStore.Valid, NodesAfter, EdgesAfter, NodeCmd, EdgeCmd;
    ApplyToNodes(db.nodes, w, t);
    ApplyToEdges(db.edges, w, t);
  }

  /** One of commit's loops: a list of buffered writes, in order. */
  method ApplyList(db: Database, ws: seq<Write>, t: TxId)
    requires db.Valid()
    modifies db.nodes, db.edges
    ensures db.Valid()
    ensures db.Stores() == AfterAll(old(db.Stores()), ws, t)
  {
    hide Database.Valid, Database.Stores, After;
    var i := 0;
    while i < |ws|
      invariant i <= |ws| && db.Valid()
      invariant db.Stores() == AfterAll(old(db.Stores()), ws[..i], t)
    {
      assert ws[..i + 1] == ws[..i] + [ws[i]];
      AfterSnoc(old(db.Stores()), ws[..i], ws[i], t);
      ApplyOne(db, ws[i], t);
      i := i + 1;
    }
    assert ws[..i] == ws;
  }

  /** Commit's five loops. */
  method ApplyBuffer(db: Database, b: Buffer, t: TxId)
    requires db.Valid()
    modifies db.nodes, db.edges
    ensures db.Valid()
    ensures db.Stores() == AfterAll(old(db.Stores()), b.Plan(), t)
  {
    hide Database.Valid, Database.Stores, AfterAll, Buffer.Plan;
    PlanApplies(db.Stores(), b, t);
    ApplyList(db, b.nodeInserts, t);
    ApplyList(db, b.nodeUpdates, t);
    ApplyList(db, b.nodeDeletes, t);
    ApplyList(db, b.edgeInserts, t);
    ApplyList(db, b.edgeDeletes, t);
  }

  method ApplyProps(db: Database, ws: seq<CellWrite>)
    requires db.Valid()
    modifies db.props
    ensures db.Valid()
    ensures db.props.columns == WrittenAll(old(db.props.columns), ws)
    ensures db.props.wal.sent == old(db.props.wal.sent) + CellCmds(ws)
  {
    hide NodeStore.Valid, EdgeStore.Valid, PropStore.Valid, Written, PutCell;
    var i := 0;
    while i < |ws|
      invariant i <= |ws| && db.Valid()
      invariant db.props.columns == WrittenAll(old(db.props.columns), ws[..i])
      invariant db.props.wal.sent == old(db.props.wal.sent) + CellCmds(ws[..i])
    {
      assert ws[..i + 1][..i] == ws[..i];
      assert CellCmds(ws[..i + 1]) == CellCmds(ws[..i]) + [PutCell(ws[i])];
      var w := ws[i];
      var _ := db.props.InsertProp(w.labelId, w.prop, w.row, w.value);
      i := i + 1;
    }
    assert ws[..i] == ws;
  }

  method FlushAll(db: Database)
    requires db.Valid()
    modifies db.nodes, db.edges, db.props
    ensures db.Valid() && db.Durable()
    ensures db.Stores() == old(db.Stores())
    ensures db.props.columns == old(db.props.columns) && db.props.wal.sent == old(db.props.wal.sent)
  {
    hide NodeStore.Valid, EdgeStore.Valid, PropStore.Valid;
    hide NodeStore.Durable, EdgeStore.Durable, PropStore.Durable;
    db.nodes.Flush();
    db.edges.Flush();
    db.props.Flush();
  }

  // ---------------------------------------------------------------- transactions

  class Transaction {
    const txId: TxId
    const snapshot: TxId
    const isWrite: bool
    const db: Database
    var committed: bool
    var buffer: Buffer
    var propWrites: seq<CellWrite>
    /** The buffering calls made so far, apart from property writes. */
    ghost var calls: seq<Write>

    /** Each list of the buffer holds exactly the calls of its kind, in order. */
    ghost predicate Valid()
      reads this
    {
      Buffered(buffer, calls)
    }

    /** `Database::begin_write`. */
    constructor BeginWrite(db: Database)
      modifies db.txManager
      ensures Valid() && this.db == db && isWrite && !committed && calls == [] && propWrites == []
      ensures txId == old(db.txManager.nextTxId) && db.txManager.nextTxId == (txId + 1) % TWO64
      ensures snapshot == db.txManager.committedTxId == old(db.txManager.committedTxId)
    {
      this.db := db;
      isWrite, committed, buffer, propWrites, calls := true, false, NO_WRITES, [], [];
      NothingBuffered();
      var t := db.txManager.BeginWrite();
      txId := t;
      snapshot := db.txManager.committedTxId;
    }

    /** `Database::begin_read`: no ticket. */
    constructor BeginRead(db: Database)
      ensures Valid() && this.db == db && !isWrite && txId == 0 && snapshot == db.txManager.committedTxId
      ensures !committed && calls == [] && propWrites == []
    {
      this.db := db;
      isWrite, committed, buffer, propWrites, calls := false, false, NO_WRITES, [], [];
      NothingBuffered();
      var s := db.txManager.BeginRead();
      txId, snapshot := 0, s;
    }

    /** Reserves the id at once; the node itself is stored by commit. */
    method CreateNode(labels: vec<LabelId>, propsRow: u32) returns (id: NodeId)
      requires Valid() && db.Valid()
      modifies this`buffer, this`calls, db.nodes
      ensures Valid() && db.Valid() && db.Recs() == old(db.Recs())
      ensures calls == old(calls) + [Write.CreateNode(id, labels, propsRow)]
      ensures old(db.nodes.Conserved()) ==> NodeKey(id) !in db.Recs() && id !in old(db.nodes.reserved)
      ensures old(db.nodes.Conserved()) ==>
        (db.nodes.Conserved() <==> old(db.nodes.freeList) != [] || old(db.nodes.nextId) < NULL_EDGE)
    {
      hide NodeStore.Valid, EdgeStore.Valid, PropStore.Valid, NodeStore.Conserved, RecsOf;
      id := db.nodes.AllocId();
      RecsAt(db.nodes.nodes, db.edges.edges, NodeKey(id));
      var w := Write.CreateNode(id, labels, propsRow);
      PushBuffers(buffer, calls, w);
      buffer, calls := buffer.Push(w), calls + [w];
    }

    method CreateEdge(src: NodeId, dst: NodeId, etype: TypeId, propsRow: u32) returns (id: EdgeId)
      requires Valid() && db.Valid()
      modifies this`buffer, this`calls, db.edges
      ensures Valid() && db.Valid() && db.Recs() == old(db.Recs())
      ensures calls == old(calls) + [Write.CreateEdge(id, src, dst, etype, propsRow)]
      ensures old(db.edges.Conserved()) ==> EdgeKey(id) !in db.Recs() && id !in old(db.edges.reserved)
      ensures old(db.edges.Conserved()) ==>
        (db.edges.Conserved() <==> old(db.edges.freeList) != [] || old(db.edges.nextId) < NULL_EDGE)
    {
      hide NodeStore.Valid, EdgeStore.Valid, PropStore.Valid, EdgeStore.Conserved, RecsOf;
      id := db.edges.AllocId();
      RecsAt(db.nodes.nodes, db.edges.edges, EdgeKey(id));
      var w := Write.CreateEdge(id, src, dst, etype, propsRow);
      PushBuffers(buffer, calls, w);
      buffer, calls := buffer.Push(w), calls + [w];
    }

    method UpdateNodeLabels(id: NodeId, labels: vec<LabelId>)
      requires Valid()
      modifies this`buffer, this`calls
      ensures Valid() && calls == old(calls) + [Relabel(id, labels)]
    {
      var w := Relabel(id, labels);
      PushBuffers(buffer, calls, w);
      buffer, calls := buffer.Push(w), calls + [w];
    }

    method DeleteNode(id: NodeId)
      requires Valid()
      modifies this`buffer, this`calls
      ensures Valid() && calls == old(calls) + [Write.DeleteNode(id)]
    {
      var w := Write.DeleteNode(id);
      PushBuffers(buffer, calls, w);
      buffer, calls := buffer.Push(w), calls + [w];
    }

    method DeleteEdge(id: EdgeId)
      requires Valid()
      modifies this`buffer, this`calls
      ensures Valid() && calls == old(calls) + [Write.DeleteEdge(id)]
    {
      var w := Write.DeleteEdge(id);
      PushBuffers(buffer, calls, w);
      buffer, calls := buffer.Push(w), calls + [w];
    }

    method SetProp(labelId: LabelId, prop: seq<byte>, row: u32, value: Cell)
      modifies this`propWrites
      ensures propWrites == old(propWrites) + [CellWrite(labelId, prop, row, value)]
    {
      propWrites := propWrites + [CellWrite(labelId, prop, row, value)];
    }

    /** Reads filter by our snapshot; buffered writes are not seen. */
    method GetNode(id: NodeId) returns (r: Option<Node>)
      ensures r ==
        if id in db.nodes.nodes && db.nodes.nodes[id].createdTx <= snapshot < db.nodes.nodes[id].deletedTx
        then Some(db.nodes.nodes[id]) else None
    {
      if id !in db.nodes.nodes || !db.nodes.nodes[id].IsAlive(snapshot) {
        return None;
      }
      r := Some(db.nodes.nodes[id]);
    }

    method GetEdge(id: EdgeId) returns (r: Option<Edge>)
      ensures r ==
        if id in db.edges.edges && db.edges.edges[id].createdTx <= snapshot < db.edges.edges[id].deletedTx
        then Some(db.edges.edges[id]) else None
    {
      if id !in db.edges.edges || !db.edges.edges[id].IsAlive(snapshot) {
        return None;
      }
      r := Some(db.edges.edges[id]);
    }

    /** End-to-end: a write commit that returns `Ok` has applied exactly the calls made, field by field,
        shows what it created and no longer shows what it deleted, and the three files on disk
        rebuild the three stores as they now are. */
    method Commit() returns (r: CommitResult)
      requires Valid() && db.Valid()
      modifies this`committed, db.txManager`committedTxId, db.nodes, db.edges, db.props
      ensures db.Valid()
      ensures r.Ok? <==> !isWrite || (!old(committed) && (old(db.txManager.committedTxId) + 1) % TWO64 == txId)
      ensures r.Err? ==> r.reason == if old(committed) then "already committed or rolled back" else "timeout"
      ensures isWrite && r.Ok? ==>
        && committed && db.txManager.committedTxId == txId
        && db.Recs() == AppliedAll(old(db.Recs()), buffer.Plan(), txId)
        && db.Stores() == AfterAll(old(db.Stores()), buffer.Plan(), txId)
        && db.props.wal.sent == old(db.props.wal.sent) + CellCmds(propWrites)
        && db.props.columns == WrittenAll(old(db.props.columns), propWrites)
        && db.Durable()
        && (forall k :: CommitsTo(old(db.Recs()), db.Recs(), calls, txId, k))
        && (forall k :: VisibleAt(db.Recs(), k, txId) <==> Shown(old(db.Recs()), calls, txId, k))
        && (forall key: ColumnKey, row: nat ::
             IsLastWrite(old(db.props.columns), propWrites, key, row, CellAt(db.props.columns, key, row)))
      ensures old(db.Stamped()) && (isWrite ==> txId >= 1) ==> db.Stamped()
      ensures !isWrite || r.Err? ==>
        && committed == old(committed) && db.txManager.committedTxId == old(db.txManager.committedTxId)
        && db.Recs() == old(db.Recs()) && db.props.columns == old(db.props.columns)
    {
      hide Database.Valid, Database.Recs, Database.Stores, Database.Durable, AppliedAll, AfterAll, WrittenAll, RecsOf;
      hide Sorted, Buffer.Plan, VisibleAt, Shown, StampedUpTo, Buffered, CommitsTo, IsLastWrite, CellAt, Typed;
      if !isWrite {
        return Ok;
      }
      if committed {
        return Err("already committed or rolled back");
      }
      r := db.txManager.Commit(txId);
      if r.Err? {
        return;
      }
      committed := true;
      ghost var recs := db.Recs();
      var b := buffer;
      ghost var stores := db.Stores();
      AfterApplies(stores, b.Plan(), txId);
      assert recs == RecsOf(stores.nodes, stores.edges) by { db.RecsOfStores(); }
      ApplyBuffer(db, b, txId);
      ApplyProps(db, propWrites);
      FlushAll(db);
      assert db.Recs() == RecsOf(db.Stores().nodes, db.Stores().edges) by { db.RecsOfStores(); }
      RecsTyped(stores.nodes, stores.edges);
      forall k
        ensures CommitsTo(recs, db.Recs(), calls, txId, k)
        ensures VisibleAt(db.Recs(), k, txId) <==> Shown(recs, calls, txId, k)
      {
        CommitOfCalls(recs, b, calls, txId, k);
      }
      forall key: ColumnKey, row: nat
        ensures IsLastWrite(old(db.props.columns), propWrites, key, row, CellAt(db.props.columns, key, row))
      {
        LastWriteWins(old(db.props.columns), propWrites, key, row);
      }
      BufferedIsSorted(b, calls);
      if txId >= 1 && StampedUpTo(recs, txId - 1) {
        PlanKeepsStamped(recs, b, txId);
      }
    }

    /** Gives the ticket back without applying anything, once it is our turn. */
    method Rollback(loads: seq<TxId>) returns (returned: bool)
      modifies this`committed, db.txManager`committedTxId
      ensures returned <==> !isWrite || exists c <- loads :: (c + 1) % TWO64 == txId
      ensures isWrite && returned ==> committed && db.txManager.committedTxId == txId
      ensures !isWrite || !returned ==> committed == old(committed)
      ensures !isWrite || (!returned && loads == []) ==> db.txManager.committedTxId == old(db.txManager.committedTxId)
    {
      returned := true;
      if isWrite {
        returned := db.txManager.Rollback(txId, loads);
        if returned {
          committed := true;
        }
      }
    }
  }

  lemma PlanApplies(s: Sides, b: Buffer, t: TxId)
    ensures AfterAll(s, b.Plan(), t) ==
      AfterAll(AfterAll(AfterAll(AfterAll(AfterAll(s,
        b.nodeInserts, t), b.nodeUpdates, t), b.nodeDeletes, t), b.edgeInserts, t), b.edgeDeletes, t)
  {
    hide AfterAll;
    AfterConcat(s, b.nodeInserts, b.nodeUpdates, t);
    AfterConcat(s, b.nodeInserts + b.nodeUpdates, b.nodeDeletes, t);
    AfterConcat(s, b.nodeInserts + b.nodeUpdates + b.nodeDeletes, b.edgeInserts, t);
    AfterConcat(s, b.nodeInserts + b.nodeUpdates + b.nodeDeletes + b.edgeInserts, b.edgeDeletes, t);
  }
}
