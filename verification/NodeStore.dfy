/** The node store: a map from ids to nodes, an id allocator and a write-ahead log. */
module Nodes {
  import opened Types
  import opened WalFormat
  import opened WalThread
  import opened Bincode
  import opened Recovery

  const NODE_DECODER: Decoder<Node> := s => DecodeNode(s)

  function PutNode(id: NodeId, n: Node): WalCmd {
    Insert(id, EncodeNode(n))
  }

  function DeletesOf(ids: seq<NodeId>): (cs: seq<WalCmd>)
    ensures |cs| == |ids| && forall i :: 0 <= i < |ids| ==> cs[i] == Delete(ids[i])
  {
    seq(|ids|, i requires 0 <= i < |ids| => Delete(ids[i]))
  }

  lemma DeletesOfSnoc(ids: seq<NodeId>, id: NodeId)
    ensures DeletesOf(ids + [id]) == DeletesOf(ids) + [Delete(id)]
  {
  }

  /** Ids a compaction reclaims. */
  function Dead(nodes: map<NodeId, Node>, oldestActiveTx: TxId): set<NodeId> {
    set k | k in nodes && nodes[k].deletedTx < oldestActiveTx
  }

  function Visible(nodes: map<NodeId, Node>, tx: TxId): set<NodeId> {
    set k | k in nodes && nodes[k].IsAlive(tx)
  }

  lemma RecoveredPut(found: seq<Record>, cs: seq<WalCmd>, id: NodeId, n: Node)
    ensures Recovered(NODE_DECODER, found, cs + [PutNode(id, n)]) == Recovered(NODE_DECODER, found, cs)[id := n]
  {
    hide EncodeNode, DecodeNode;
    DecodeEncodeNode(n);
    RecoveredSnoc(NODE_DECODER, found, cs, PutNode(id, n));
  }

  lemma RecoveredDelete(found: seq<Record>, cs: seq<WalCmd>, id: NodeId)
    ensures Recovered(NODE_DECODER, found, cs + [Delete(id)]) == Recovered(NODE_DECODER, found, cs) - {id}
  {
    RecoveredSnoc(NODE_DECODER, found, cs, Delete(id));
  }

  function Elements(ids: seq<NodeId>): set<NodeId> {
    set k | k in ids
  }

  /** Iterating a map visits the chosen ids in an unspecified order. */
  method Collect(ids: set<NodeId>) returns (r: seq<NodeId>)
    ensures Lists(r, ids)
  {
    hide Lists;
    r := [];
    ghost var done: set<NodeId> := {};
    assert Lists(r, done) by { ListsNothing<NodeId>(); }
    var left := ids;
    while left != {}
      invariant left <= ids && done == ids - left && Lists(r, done)
      decreases left
    {
      var id :| id in left;
      ListsSnoc(r, done, id);
      r, done, left := r + [id], done + {id}, left - {id};
    }
    assert done == ids;
  }

  lemma ListsElements(r: seq<NodeId>, ids: set<NodeId>)
    requires Lists(r, ids)
    ensures Elements(r) == ids && |r| == |ids|
  {
  }

  lemma ListsMembers(r: seq<NodeId>, ids: set<NodeId>)
    requires Lists(r, ids)
    ensures forall x :: x in r <==> x in ids
  {
  }

  lemma ListedOnce(r: seq<NodeId>, ids: set<NodeId>, i: nat)
    requires Lists(r, ids) && i < |r|
    ensures r[i] in ids && r[i] !in Elements(r[..i])
  {
  }

  class NodeStore {
    var nodes: map<NodeId, Node>
    var nextId: u64
    var freeList: seq<NodeId>
    var wal: State
    const cfg: Config
    /** The log file as it was opened. */
    const file: seq<byte>
    /** Ids handed out by the allocator and not stored since. */
    ghost var reserved: set<NodeId>

    /** The log thread serves us, and replaying what we sent it gives the map in memory. */
    ghost predicate Valid()
      reads this
    {
      Live(cfg, wal) && wal.base == Started(file) && Recovered(NODE_DECODER, Opened(), wal.sent) == nodes
    }

    /** The records the log held when it was opened. */
    ghost function Opened(): seq<Record> {
      ParseFile(file).records
    }

    ghost predicate Conserved()
      reads this
    {
      Partition(nodes.Keys, freeList, reserved, nextId)
    }

    /** Replaying the file as it is on disk now gives the map in memory. */
    ghost predicate Durable()
      reads this
    {
      && Synced(wal)
      && (Whole(Started(file)) && AllFit(wal.sent) ==>
          && Whole(wal.local.disk) && ParseFile(wal.local.disk).status == Complete
          && Rebuild(NODE_DECODER, ParseFile(wal.local.disk).records).recs == nodes)
    }

    /** A store over a file whose replay gave `b`. */
    constructor FromReplay(cfg: Config, file: seq<byte>, b: Rebuilt<Node>, next: u64, ghost leaked: set<NodeId>)
      requires cfg.cap > 0 && b == Rebuild(NODE_DECODER, ParseFile(file).records)
      ensures Valid() && this.cfg == cfg && this.file == file && wal == Init(file)
      ensures nodes == b.recs && freeList == b.free && nextId == next && reserved == leaked
    {
      hide Inv, ParseFile, RebuildFrom;
      this.cfg, this.file := cfg, file;
      wal := Init(file);
      InitInv(cfg, file);
      StartedRecords(file);
      nodes, freeList, nextId, reserved := b.recs, b.free, next, leaked;
      assert ParseFile(file).records + ToRecords([]) == ParseFile(file).records;
    }

    /** Open any file; a replay error is an error of opening. */
    static method Open(cfg: Config, file: seq<byte>) returns (r: Option<NodeStore>)
      requires cfg.cap > 0
      ensures r.None? <==> |file| > 4 && ParseFile(file).status != Complete
      ensures r.Some? ==>
        var store, b := r.value, Rebuild(NODE_DECODER, ParseFile(file).records);
        && fresh(store) && store.Valid() && store.cfg == cfg && store.file == file && store.wal == Init(file)
        && store.nodes == b.recs && store.freeList == b.free
        && store.nextId == (if |file| <= 4 then 0 else NextAfter(b))
        && IsRebuilt(NODE_DECODER, ParseFile(file).records, store.nodes, store.freeList)
        && (|file| > 4 ==> IsNextId(NODE_DECODER, ParseFile(file).records, store.nextId))
        && store.Durable()
        && (store.Conserved() <==>
            |file| <= 4 || (NoReinsert(NODE_DECODER, ParseFile(file).records) && store.nextId > 0))
    {
      hide ParseFile, RebuildFrom, NoReinsert, NextAfter, Partition, Inv, Whole, IsRebuilt, IsNextId;
      var b, next, status := OpenLog(NODE_DECODER, file);
      if status != Complete {
        return None;
      }
      ghost var leaked := OpenPartition(NODE_DECODER, file, next);
      var store := new NodeStore.FromReplay(cfg, file, b, next, leaked);
      InitDurable(file);
      RebuiltIsAll(NODE_DECODER, ParseFile(file).records);
      r := Some(store);
    }

    method WalInsert(id: NodeId, node: Node)
      requires Live(cfg, wal)
      modifies this`wal
      ensures Live(cfg, wal) && wal.base == old(wal.base) && wal.sent == old(wal.sent) + [PutNode(id, node)]
      ensures Recovered(NODE_DECODER, Opened(), wal.sent) == Recovered(NODE_DECODER, Opened(), old(wal.sent))[id := node]
    {
      hide Inv, EncodeNode, DecodeNode, RebuildFrom;
      RecoveredPut(Opened(), wal.sent, id, node);
      wal := SendCmd(cfg, wal, PutNode(id, node));
    }

    method WalDelete(id: NodeId)
      requires Live(cfg, wal)
      modifies this`wal
      ensures Live(cfg, wal) && wal.base == old(wal.base) && wal.sent == old(wal.sent) + [Delete(id)]
      ensures Recovered(NODE_DECODER, Opened(), wal.sent) == Recovered(NODE_DECODER, Opened(), old(wal.sent)) - {id}
    {
      hide Inv, Recovered, EncodeNode;
      RecoveredDelete(Opened(), wal.sent, id);
      wal := SendCmd(cfg, wal, Delete(id));
    }

    /** Pop the free list, else take a fresh id; the counter wraps. Ids stay conserved exactly as
        long as it does not. */
    method AllocId() returns (id: NodeId)
      modifies this`freeList, this`nextId, this`reserved
      ensures old(freeList) != [] ==> id == old(freeList)[0] && freeList == old(freeList)[1..] && nextId == old(nextId)
      ensures old(freeList) == [] ==> id == old(nextId) && freeList == [] && nextId == (old(nextId) + 1) % TWO64
      ensures reserved == old(reserved) + {id}
      ensures old(Valid()) ==> Valid()
      ensures old(Conserved()) ==> id !in nodes && id !in old(reserved)
      ensures old(Conserved()) ==> (Conserved() <==> old(freeList) != [] || old(nextId) < NULL_EDGE)
    {
      hide Partition;
      if Conserved() {
        AllocKeepsPartition(nodes.Keys, freeList, reserved, nextId);
      }
      if freeList != [] {
        id := freeList[0];
        freeList := freeList[1..];
      } else {
        id := nextId;
        nextId := (nextId + 1) % TWO64;
      }
      reserved := reserved + {id};
    }

    /** Called with an id handed out earlier; it is stored under exactly that id. */
    method InsertWithId(id: NodeId, labels: vec<LabelId>, propsRow: u32, txId: TxId)
      requires Valid()
      modifies this`nodes, this`wal, this`reserved
      ensures Valid()
      ensures nodes.Keys == old(nodes.Keys) + {id} && forall k <- old(nodes) :: k != id ==> nodes[k] == old(nodes)[k]
      ensures nodes[id] == Node(id := id, labels := labels, firstOut := NULL_EDGE, firstIn := NULL_EDGE,
                                propsRow := propsRow, createdTx := txId, deletedTx := MAX_TX_ID)
      ensures wal.sent == old(wal.sent) + [PutNode(id, nodes[id])]
      ensures reserved == old(reserved) - {id}
      ensures old(Conserved()) && id in old(reserved) ==> Conserved() && id !in old(nodes)
    {
      hide Inv, Recovered, Partition, EncodeNode;
      if Conserved() && id in reserved {
        StoreKeepsPartition(nodes.Keys, freeList, reserved, nextId, id);
      }
      var node := Node.New(id, labels, propsRow, txId);
      nodes := nodes[id := node];
      assert nodes.Keys == old(nodes.Keys) + {id};
      WalInsert(id, node);
      reserved := reserved - {id};
    }

    method InsertNode(labels: vec<LabelId>, propsRow: u32, txId: TxId) returns (id: NodeId)
      requires Valid()
      modifies this
      ensures Valid()
      ensures id == if old(freeList) != [] then old(freeList)[0] else old(nextId)
      ensures freeList == if old(freeList) != [] then old(freeList)[1..] else []
      ensures nextId == if old(freeList) != [] then old(nextId) else (old(nextId) + 1) % TWO64
      ensures nodes.Keys == old(nodes.Keys) + {id} && forall k <- old(nodes) :: k != id ==> nodes[k] == old(nodes)[k]
      ensures nodes[id] == Node(id := id, labels := labels, firstOut := NULL_EDGE, firstIn := NULL_EDGE,
                                propsRow := propsRow, createdTx := txId, deletedTx := MAX_TX_ID)
      ensures wal.sent == old(wal.sent) + [PutNode(id, nodes[id])]
      ensures old(Conserved()) && (old(freeList) != [] || old(nextId) < NULL_EDGE) ==>
        Conserved() && id !in old(nodes) && reserved == old(reserved)
    {
      hide Inv, Recovered, Partition, EncodeNode;
      id := AllocId();
      InsertWithId(id, labels, propsRow, txId);
    }

    /** Store a changed record of an id that is present. */
    method Replace(id: NodeId, node: Node)
      requires Valid() && id in nodes
      modifies this`nodes, this`wal
      ensures Valid()
      ensures nodes == old(nodes)[id := node] && nodes.Keys == old(nodes.Keys)
      ensures wal.sent == old(wal.sent) + [PutNode(id, node)]
    {
      hide Inv, Recovered, EncodeNode;
      nodes := nodes[id := node];
      WalInsert(id, node);
    }

    /** Overwrites the creation stamp: older snapshots lose the node. */
    method UpdateLabels(id: NodeId, labels: vec<LabelId>, txId: TxId) returns (ok: bool)
      requires Valid()
      modifies this`nodes, this`wal
      ensures Valid() && ok == (id in old(nodes)) && nodes.Keys == old(nodes.Keys)
      ensures ok ==> nodes == old(nodes)[id := old(nodes)[id].(labels := labels, createdTx := txId)]
      ensures ok ==> wal.sent == old(wal.sent) + [PutNode(id, nodes[id])]
      ensures !ok ==> nodes == old(nodes) && wal == old(wal)
    {
      hide Inv, Recovered, EncodeNode;
      ok := id in nodes;
      if ok {
        Replace(id, nodes[id].(labels := labels, createdTx := txId));
      }
    }

    method UpdatePropsRow(id: NodeId, propsRow: u32) returns (ok: bool)
      requires Valid()
      modifies this`nodes, this`wal
      ensures Valid() && ok == (id in old(nodes)) && nodes.Keys == old(nodes.Keys)
      ensures ok ==> nodes == old(nodes)[id := old(nodes)[id].(propsRow := propsRow)]
      ensures ok ==> wal.sent == old(wal.sent) + [PutNode(id, nodes[id])]
      ensures !ok ==> nodes == old(nodes) && wal == old(wal)
    {
      hide Inv, Recovered, EncodeNode;
      ok := id in nodes;
      if ok {
        Replace(id, nodes[id].(propsRow := propsRow));
      }
    }

    method SetFirstOut(id: NodeId, edgeId: EdgeId) returns (ok: bool)
      requires Valid()
      modifies this`nodes, this`wal
      ensures Valid() && ok == (id in old(nodes)) && nodes.Keys == old(nodes.Keys)
      ensures ok ==> nodes == old(nodes)[id := old(nodes)[id].(firstOut := edgeId)]
      ensures ok ==> wal.sent == old(wal.sent) + [PutNode(id, nodes[id])]
      ensures !ok ==> nodes == old(nodes) && wal == old(wal)
    {
      hide Inv, Recovered, EncodeNode;
      ok := id in nodes;
      if ok {
        Replace(id, nodes[id].(firstOut := edgeId));
      }
    }

    method SetFirstIn(id: NodeId, edgeId: EdgeId) returns (ok: bool)
      requires Valid()
      modifies this`nodes, this`wal
      ensures Valid() && ok == (id in old(nodes)) && nodes.Keys == old(nodes.Keys)
      ensures ok ==> nodes == old(nodes)[id := old(nodes)[id].(firstIn := edgeId)]
      ensures ok ==> wal.sent == old(wal.sent) + [PutNode(id, nodes[id])]
      ensures !ok ==> nodes == old(nodes) && wal == old(wal)
    {
      hide Inv, Recovered, EncodeNode;
      ok := id in nodes;
      if ok {
        Replace(id, nodes[id].(firstIn := edgeId));
      }
    }

    method SoftDelete(id: NodeId, txId: TxId) returns (ok: bool)
      requires Valid()
      modifies this`nodes, this`wal
      ensures Valid() && ok == (id in old(nodes)) && nodes.Keys == old(nodes.Keys)
      ensures ok ==> nodes == old(nodes)[id := old(nodes)[id].(deletedTx := txId)]
      ensures ok ==> wal.sent == old(wal.sent) + [PutNode(id, nodes[id])]
      ensures !ok ==> nodes == old(nodes) && wal == old(wal)
    {
      hide Inv, Recovered, EncodeNode;
      ok := id in nodes;
      if ok {
        Replace(id, nodes[id].(deletedTx := txId));
      }
    }

    /** The delete is logged even when nothing is stored; only a stored id becomes free. */
    method HardDelete(id: NodeId) returns (ok: bool)
      requires Valid()
      modifies this`nodes, this`wal, this`freeList
      ensures Valid() && ok == (id in old(nodes))
      ensures nodes == old(nodes) - {id}
      ensures freeList == if ok then old(freeList) + [id] else old(freeList)
      ensures wal.sent == old(wal.sent) + [Delete(id)]
      ensures old(Conserved()) ==> Conserved()
    {
      hide Inv, Recovered, Partition, EncodeNode;
      WalDelete(id);
      ok := id in nodes;
      if ok {
        if Conserved() {
          FreeKeepsPartition(nodes.Keys, freeList, reserved, nextId, id);
        }
        nodes := nodes - {id};
        freeList := freeList + [id];
        assert nodes.Keys == old(nodes.Keys) - {id};
      } else {
        assert nodes - {id} == nodes;
      }
    }

    /** Reclaims exactly the records deleted before every active snapshot, in some order. */
    method Compact(oldestActiveTx: TxId) returns (n: nat, ghost order: seq<NodeId>)
      requires Valid()
      modifies this`nodes, this`wal, this`freeList
      ensures Valid()
      ensures n == |order| && Lists(order, Dead(old(nodes), oldestActiveTx))
      ensures nodes == old(nodes) - Dead(old(nodes), oldestActiveTx)
      ensures forall id :: id in nodes <==> id in old(nodes) && old(nodes)[id].deletedTx >= oldestActiveTx
      ensures forall id <- nodes :: nodes[id] == old(nodes)[id]
      ensures forall id :: id in order <==> id in old(nodes) && old(nodes)[id].deletedTx < oldestActiveTx
      ensures freeList == old(freeList) + order
      ensures wal.sent == old(wal.sent) + DeletesOf(order)
      ensures old(Conserved()) ==> Conserved()
    {
      hide Valid, Conserved, NODE_DECODER, Lists;
      var toRemove := Collect(set k | k in nodes && nodes[k].deletedTx < oldestActiveTx);
      order := toRemove;
      n := |toRemove|;
      var i := 0;
      while i < |toRemove|
        invariant i <= |toRemove| == n && order == toRemove
        invariant Valid()
        invariant nodes == old(nodes) - Elements(toRemove[..i])
        invariant freeList == old(freeList) + toRemove[..i]
        invariant wal.sent == old(wal.sent) + DeletesOf(toRemove[..i])
        invariant old(Conserved()) ==> Conserved()
      {
        var id := toRemove[i];
        assert toRemove[..i + 1] == toRemove[..i] + [id];
        assert old(freeList) + toRemove[..i] + [id] == old(freeList) + toRemove[..i + 1];
        var ok := HardDelete(id);
        assert ok by { ListedOnce(toRemove, Dead(old(nodes), oldestActiveTx), i); }
        DeletesOfSnoc(toRemove[..i], id);
        i := i + 1;
      }
      assert toRemove[..i] == toRemove;
      ListsElements(toRemove, Dead(old(nodes), oldestActiveTx));
      ListsMembers(toRemove, Dead(old(nodes), oldestActiveTx));
    }

    /** The ids visible at a snapshot, each once, in the map's iteration order. */
    method VisibleNodes(tx: TxId) returns (ids: seq<NodeId>)
      ensures Lists(ids, Visible(nodes, tx)) && NoDup(ids)
      ensures forall id :: id in ids <==> id in nodes && nodes[id].createdTx <= tx < nodes[id].deletedTx
    {
      ids := Collect(set k | k in nodes && nodes[k].IsAlive(tx));
    }

    method VisibleCount(tx: TxId) returns (n: nat)
      ensures n == |set id | id in nodes && nodes[id].createdTx <= tx < nodes[id].deletedTx|
    {
      var ids := VisibleNodes(tx);
      n := |ids|;
      assert Visible(nodes, tx) == set id | id in nodes && nodes[id].createdTx <= tx < nodes[id].deletedTx;
    }

    /** Blocks until everything sent is on disk. */
    method Flush()
      requires Valid()
      modifies this`wal
      ensures Valid() && wal.sent == old(wal.sent) && Durable()
    {
      hide Inv, Recovered, ParseFile, EncodeAll, AllFit, Whole;
      wal := FlushHandle(cfg, wal);
      if Whole(Started(file)) && AllFit(wal.sent) {
        StartedRecords(file);
        SyncedRecovers(NODE_DECODER, wal.base, wal.sent);
      }
    }

    /** Drop: the thread stops with what it had taken on disk. The file is whole again, if it was when
        opened, and rebuilds the map as it was after that many commands. */
    method Close() returns (left: seq<byte>)
      requires Valid()
      modifies this`wal
      ensures left == wal.local.disk && wal.local.stopped && wal.sent == old(wal.sent)
      ensures old(Synced(wal)) ==> left == old(wal.local.disk)
      ensures old(wal.local.taken) <= |wal.sent|
      ensures Whole(Started(file)) && AllFit(old(wal.sent)) ==>
        Whole(left) &&
        Rebuild(NODE_DECODER, ParseFile(left).records).recs ==
        Recovered(NODE_DECODER, Opened(), wal.sent[..old(wal.local.taken)])
    {
      hide Inv, Recovered, ParseFile, EncodeAll, AllFit, Whole;
      var taken := wal.local.taken;
      wal := DropHandle(cfg, wal);
      left := wal.local.disk;
      if Whole(Started(file)) && AllFit(wal.sent) {
        StartedRecords(file);
        TakeFits(wal.sent, taken);
        SyncedRecovers(NODE_DECODER, wal.base, wal.sent[..taken]);
      }
    }
  }

  /** Compaction leaves the nodes visible at a snapshot alone exactly when no node visible there
      was deleted before the oldest active transaction; so always for snapshots that are active. */
  lemma CompactKeepsVisibleIff(nodes: map<NodeId, Node>, oldestActiveTx: TxId, tx: TxId)
    ensures Visible(nodes - Dead(nodes, oldestActiveTx), tx) == Visible(nodes, tx) <==>
            forall k ::
              k in nodes && nodes[k].createdTx <= tx < nodes[k].deletedTx ==> oldestActiveTx <= nodes[k].deletedTx
    ensures oldestActiveTx <= tx + 1 ==> Visible(nodes - Dead(nodes, oldestActiveTx), tx) == Visible(nodes, tx)
  {
    var after := nodes - Dead(nodes, oldestActiveTx);
    if k :| k in Visible(nodes, tx) && k in Dead(nodes, oldestActiveTx) {
      assert k !in Visible(after, tx);
    } else {
      assert Visible(after, tx) == Visible(nodes, tx);
      assert forall k :: k in nodes && nodes[k].createdTx <= tx < nodes[k].deletedTx ==> k in Visible(nodes, tx);
    }
  }
}
