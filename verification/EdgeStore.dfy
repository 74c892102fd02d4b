/** The edge store: edge records with intrusive chains, an id allocator and a write-ahead log. */
module Edges {
  import opened Types
  import opened Bytes
  import opened WalFormat
  import opened WalThread
  import opened Bincode
  import opened Recovery
  import opened Chains

  const EDGE_DECODER: Decoder<Edge> := s => DecodeEdge(s)

  function PutEdge(id: EdgeId, e: Edge): WalCmd {
    Insert(id, EncodeEdge(e))
  }

  /** Predecessors are logged after both links were redirected. */
  function PutPred(edges: EdgeMap, pred: Option<EdgeId>): seq<WalCmd> {
    if pred.Some? && pred.value in edges then [PutEdge(pred.value, edges[pred.value])] else []
  }

  function AliveOn(edges: EdgeMap, s: seq<EdgeId>, tx: TxId): seq<EdgeId>
    requires forall id <- s :: id in edges
  {
    if s == [] then []
    else AliveOn(edges, s[..|s| - 1], tx) + if edges[s[|s| - 1]].IsAlive(tx) then [s[|s| - 1]] else []
  }

  /** The edges of a traversal that a snapshot sees, each where it was. */
  ghost predicate IsVisiblePart(edges: EdgeMap, s: seq<EdgeId>, tx: TxId, r: seq<EdgeId>)
    requires forall id <- s :: id in edges
  {
    && (forall id :: id in r <==> id in s && edges[id].createdTx <= tx < edges[id].deletedTx)
    && (forall i, j :: 0 <= i < j < |r| ==> IndexOf(s, r[i]) < IndexOf(s, r[j]))
    && NoDup(r)
  }

  lemma {:induction false} AliveOnIs(edges: EdgeMap, s: seq<EdgeId>, tx: TxId)
    requires NoDup(s) && forall id <- s :: id in edges
    ensures IsVisiblePart(edges, s, tx, AliveOn(edges, s, tx))
  {
    hide IsVisiblePart, NoDup;
    if s == [] {
      NothingVisible(edges, tx);
    } else {
      var n := |s| - 1;
      assert NoDup(s[..n]) by { PrefixNoDup(s, n); }
      AliveOnIs(edges, s[..n], tx);
      assert AliveOn(edges, s[..n], tx) + [] == AliveOn(edges, s[..n], tx);
      VisibleSnoc(edges, s, tx, AliveOn(edges, s[..n], tx));
    }
  }

  lemma NothingVisible(edges: EdgeMap, tx: TxId)
    ensures IsVisiblePart(edges, [], tx, [])
  {
  }

  lemma PrefixNoDup(s: seq<EdgeId>, n: nat)
    requires NoDup(s) && n <= |s|
    ensures NoDup(s[..n])
  {
  }

  lemma IndexInPrefix(s: seq<EdgeId>, n: nat, x: EdgeId)
    requires n <= |s| && x in s[..n]
    ensures IndexOf(s, x) == IndexOf(s[..n], x) < n
  {
    var i := IndexOf(s[..n], x);
    assert s[..i] == s[..n][..i];
    IndexOfIs(s, x, i);
  }

  lemma VisibleSnoc(edges: EdgeMap, s: seq<EdgeId>, tx: TxId, r: seq<EdgeId>)
    requires s != [] && NoDup(s) && forall id <- s :: id in edges
    requires IsVisiblePart(edges, s[..|s| - 1], tx, r)
    ensures var x := s[|s| - 1];
      IsVisiblePart(edges, s, tx, if edges[x].createdTx <= tx < edges[x].deletedTx then r + [x] else r)
  {
    hide IndexOf;
    var n, x := |s| - 1, s[|s| - 1];
    assert forall y :: y in s <==> y in s[..n] || y == x;
    assert x !in s[..n];
    forall y | y in s[..n] ensures IndexOf(s, y) == IndexOf(s[..n], y) < n {
      IndexInPrefix(s, n, y);
    }
    IndexOfIs(s, x, n);
  }

  lemma RecoveredPut(found: seq<Record>, cs: seq<WalCmd>, id: EdgeId, e: Edge)
    ensures Recovered(EDGE_DECODER, found, cs + [PutEdge(id, e)]) == Recovered(EDGE_DECODER, found, cs)[id := e]
  {
    hide EncodeEdge, DecodeEdge;
    DecodeEncodeEdge(e);
    RecoveredSnoc(EDGE_DECODER, found, cs, PutEdge(id, e));
  }

  lemma RecoveredDelete(found: seq<Record>, cs: seq<WalCmd>, id: EdgeId)
    ensures Recovered(EDGE_DECODER, found, cs + [Delete(id)]) == Recovered(EDGE_DECODER, found, cs) - {id}
  {
    RecoveredSnoc(EDGE_DECODER, found, cs, Delete(id));
  }

  /** An edge record always fits its length prefix. */
  lemma PutEdgeFits(id: EdgeId, e: Edge)
    ensures Fits(PutEdge(id, e))
  {
    hide ToLe, FromLe;
    assert |EncodeEdge(e)| == 64;
  }

  class EdgeStore {
    var edges: EdgeMap
    var nextId: u64
    var freeList: seq<EdgeId>
    var wal: State
    const cfg: Config
    /** The log file as it was opened. */
    const file: seq<byte>
    /** Ids handed out by the allocator and not stored since. */
    ghost var reserved: set<EdgeId>

    /** The log thread serves us, and replaying what we sent it gives the map in memory. */
    ghost predicate Valid()
      reads this
    {
      && Live(cfg, wal) && wal.base == Started(file) && AllFit(wal.sent)
      && Recovered(EDGE_DECODER, Opened(), wal.sent) == edges
    }

    /** The records the log held when it was opened. */
    ghost function Opened(): seq<Record> {
      ParseFile(file).records
    }

    ghost predicate Conserved()
      reads this
    {
      Partition(edges.Keys, freeList, reserved, nextId)
    }

    /** Replaying the file as it is on disk now gives the map in memory, links included. */
    ghost predicate Durable()
      reads this
    {
      && Synced(wal)
      && (Whole(Started(file)) ==>
          && Whole(wal.local.disk) && ParseFile(wal.local.disk).status == Complete
          && Rebuild(EDGE_DECODER, ParseFile(wal.local.disk).records).recs == edges)
    }

    /** A store over a file whose replay gave `b`. */
    constructor FromReplay(cfg: Config, file: seq<byte>, b: Rebuilt<Edge>, next: u64, ghost leaked: set<EdgeId>)
      requires cfg.cap > 0 && b == Rebuild(EDGE_DECODER, ParseFile(file).records)
      ensures Valid() && this.cfg == cfg && this.file == file && wal == Init(file)
      ensures edges == b.recs && freeList == b.free && nextId == next && reserved == leaked
    {
      hide Inv, ParseFile, RebuildFrom;
      this.cfg, this.file := cfg, file;
      wal := Init(file);
      InitInv(cfg, file);
      StartedRecords(file);
      edges, freeList, nextId, reserved := b.recs, b.free, next, leaked;
      assert ParseFile(file).records + ToRecords([]) == ParseFile(file).records;
    }

    /** Open any file; a replay error is an error of opening. */
    static method Open(cfg: Config, file: seq<byte>) returns (r: Option<EdgeStore>)
      requires cfg.cap > 0
      ensures r.None? <==> |file| > 4 && ParseFile(file).status != Complete
      ensures r.Some? ==>
        var store, b := r.value, Rebuild(EDGE_DECODER, ParseFile(file).records);
        && fresh(store) && store.Valid() && store.cfg == cfg && store.file == file && store.wal == Init(file)
        && store.edges == b.recs && store.freeList == b.free
        && store.nextId == (if |file| <= 4 then 0 else NextAfter(b))
        && IsRebuilt(EDGE_DECODER, ParseFile(file).records, store.edges, store.freeList)
        && (|file| > 4 ==> IsNextId(EDGE_DECODER, ParseFile(file).records, store.nextId))
        && store.Durable()
        && (store.Conserved() <==>
            |file| <= 4 || (NoReinsert(EDGE_DECODER, ParseFile(file).records) && store.nextId > 0))
    {
      hide ParseFile, RebuildFrom, NoReinsert, NextAfter, Partition, Inv, Whole, IsRebuilt, IsNextId;
      var b, next, status := OpenLog(EDGE_DECODER, file);
      if status != Complete {
        return None;
      }
      ghost var leaked := OpenPartition(EDGE_DECODER, file, next);
      var store := new EdgeStore.FromReplay(cfg, file, b, next, leaked);
      InitDurable(file);
      RebuiltIsAll(EDGE_DECODER, ParseFile(file).records);
      r := Some(store);
    }

    method WalInsert(id: EdgeId, edge: Edge)
      requires Live(cfg, wal) && AllFit(wal.sent)
      modifies this`wal
      ensures Live(cfg, wal) && wal.base == old(wal.base) && AllFit(wal.sent)
      ensures wal.sent == old(wal.sent) + [PutEdge(id, edge)]
      ensures Recovered(EDGE_DECODER, Opened(), wal.sent) == Recovered(EDGE_DECODER, Opened(), old(wal.sent))[id := edge]
    {
      hide Inv, EncodeEdge, DecodeEdge, RebuildFrom;
      RecoveredPut(Opened(), wal.sent, id, edge);
      PutEdgeFits(id, edge);
      wal := SendCmd(cfg, wal, PutEdge(id, edge));
    }

    method WalDelete(id: EdgeId)
      requires Live(cfg, wal) && AllFit(wal.sent)
      modifies this`wal
      ensures Live(cfg, wal) && wal.base == old(wal.base) && AllFit(wal.sent)
      ensures wal.sent == old(wal.sent) + [Delete(id)]
      ensures Recovered(EDGE_DECODER, Opened(), wal.sent) == Recovered(EDGE_DECODER, Opened(), old(wal.sent)) - {id}
    {
      hide Inv, RebuildFrom;
      RecoveredDelete(Opened(), wal.sent, id);
      wal := SendCmd(cfg, wal, Delete(id));
    }

    /** Pop the free list, else take a fresh id; the counter wraps. Ids stay conserved exactly as
        long as it does not. */
    method AllocId() returns (id: EdgeId)
      modifies this`freeList, this`nextId, this`reserved
      ensures old(freeList) != [] ==> id == old(freeList)[0] && freeList == old(freeList)[1..] && nextId == old(nextId)
      ensures old(freeList) == [] ==> id == old(nextId) && freeList == [] && nextId == (old(nextId) + 1) % TWO64
      ensures reserved == old(reserved) + {id}
      ensures old(Valid()) ==> Valid()
      ensures old(Conserved()) ==> id !in edges && id !in old(reserved)
      ensures old(Conserved()) ==> (Conserved() <==> old(freeList) != [] || old(nextId) < NULL_EDGE)
    {
      hide Partition;
      if Conserved() {
        AllocKeepsPartition(edges.Keys, freeList, reserved, nextId);
      }
      if freeList != [] {
        id := freeList[0];
        freeList := freeList[1..];
      } else {
        id := nextId;
        nextId := (nextId + 1) % TWO64;
      }
      reserved := reserved + {id};
    }

    method InsertWithId(id: EdgeId, src: NodeId, dst: NodeId, etype: TypeId, propsRow: u32, txId: TxId)
      requires Valid()
      modifies this`edges, this`wal, this`reserved
      ensures Valid()
      ensures edges.Keys == old(edges.Keys) + {id} && forall k <- old(edges) :: k != id ==> edges[k] == old(edges)[k]
      ensures edges[id] == Edge(id := id, src := src, dst := dst, etype := etype,
                                nextOut := NULL_EDGE, nextIn := NULL_EDGE,
                                propsRow := propsRow, createdTx := txId, deletedTx := MAX_TX_ID)
      ensures wal.sent == old(wal.sent) + [PutEdge(id, edges[id])]
      ensures reserved == old(reserved) - {id}
      ensures old(Conserved()) && id in old(reserved) ==> Conserved() && id !in old(edges)
    {
      hide Inv, Recovered, Partition, AllFit, EncodeEdge;
      if Conserved() && id in reserved {
        StoreKeepsPartition(edges.Keys, freeList, reserved, nextId, id);
      }
      var edge := Edge.New(id, src, dst, etype, propsRow, txId);
      edges := edges[id := edge];
      assert edges.Keys == old(edges.Keys) + {id};
      WalInsert(id, edge);
      reserved := reserved - {id};
    }

    method InsertEdge(src: NodeId, dst: NodeId, etype: TypeId, propsRow: u32, txId: TxId) returns (id: EdgeId)
      requires Valid()
      modifies this
      ensures Valid()
      ensures id == if old(freeList) != [] then old(freeList)[0] else old(nextId)
      ensures freeList == if old(freeList) != [] then old(freeList)[1..] else []
      ensures nextId == if old(freeList) != [] then old(nextId) else (old(nextId) + 1) % TWO64
      ensures edges.Keys == old(edges.Keys) + {id} && forall k <- old(edges) :: k != id ==> edges[k] == old(edges)[k]
      ensures edges[id] == Edge(id := id, src := src, dst := dst, etype := etype,
                                nextOut := NULL_EDGE, nextIn := NULL_EDGE,
                                propsRow := propsRow, createdTx := txId, deletedTx := MAX_TX_ID)
      ensures wal.sent == old(wal.sent) + [PutEdge(id, edges[id])]
      ensures old(Conserved()) && (old(freeList) != [] || old(nextId) < NULL_EDGE) ==>
        Conserved() && id !in old(edges) && reserved == old(reserved)
    {
      hide Inv, Recovered, Partition, AllFit, EncodeEdge;
      id := AllocId();
      InsertWithId(id, src, dst, etype, propsRow, txId);
    }

    /** Put `newEdge` in front of both chains. The caller's heads move even if the edge is absent. */
    method LinkIntoChains(newEdge: EdgeId, srcFirstOut: EdgeId, dstFirstIn: EdgeId)
      returns (srcFirstOut': EdgeId, dstFirstIn': EdgeId)
      requires Valid()
      modifies this`edges, this`wal
      ensures Valid() && edges.Keys == old(edges.Keys)
      ensures edges == LinkEdges(old(edges), newEdge, srcFirstOut, dstFirstIn)
      ensures newEdge in edges ==>
        && SameButLinks(edges[newEdge], old(edges)[newEdge])
        && edges[newEdge].nextOut == srcFirstOut && edges[newEdge].nextIn == dstFirstIn
      ensures forall x <- edges :: x != newEdge ==> edges[x] == old(edges)[x]
      ensures srcFirstOut' == newEdge && dstFirstIn' == newEdge
      ensures wal.sent == old(wal.sent) + PutPred(edges, Some(newEdge))
    {
      hide Inv, Recovered, AllFit, EncodeEdge;
      if newEdge in edges {
        edges := edges[newEdge := edges[newEdge].(nextOut := srcFirstOut)];
      }
      srcFirstOut' := newEdge;
      if newEdge in edges {
        edges := edges[newEdge := edges[newEdge].(nextIn := dstFirstIn)];
      }
      dstFirstIn' := newEdge;
      if newEdge in edges {
        WalInsert(newEdge, edges[newEdge]);
      }
    }

    /** One of the two unlinking passes: find the edge before `id` and redirect its link. */
    method Splice(d: Dir, id: EdgeId, head: EdgeId, after: EdgeId, ghost s: seq<EdgeId>, ghost stop: EdgeId)
      returns (head': EdgeId, pred: Option<EdgeId>)
      requires Traversal(edges, d, head, s, stop) && id in edges && id != NULL_EDGE
      modifies this`edges
      ensures edges == SpliceEdges(old(edges), d, s, id, after) && edges.Keys == old(edges.Keys)
      ensures head' == SpliceHead(head, id, after) && pred == PredOf(s, id)
    {
      hide Traversal, Path;
      head', pred := head, None;
      TraversalStart(edges, d, head, s, stop);
      if head == id {
        head' := after;
        return;
      }
      var cur := head;
      ghost var i := 0;
      while cur != NULL_EDGE
        invariant i <= |s| && cur == At(s, i, stop) && id !in s[..i]
        invariant i < |s| ==> s[i] != id
        invariant cur == NULL_EDGE || cur !in edges ==> i == |s|
        invariant edges == old(edges) && Traversal(edges, d, head, s, stop)
        decreases |s| - i
      {
        if cur !in edges {
          break;
        }
        TraversalStep(edges, d, head, s, stop, i);
        assert s[..i + 1] == s[..i] + [cur];
        if NextOf(edges[cur], d) == id {
          edges := edges[cur := WithNext(edges[cur], d, after)];
          pred := Some(cur);
          IndexOfIs(s, id, i + 1);
          return;
        }
        cur := NextOf(edges[cur], d);
        i := i + 1;
      }
      assert s[..i] == s;
    }

    /** Take an edge off the chains with the given heads; its own links stay as they were. The
        traversals from the two heads must end, as the loops would otherwise not. */
    method UnlinkFromChains(id: EdgeId, srcFirstOut: EdgeId, dstFirstIn: EdgeId,
                            ghost outs: seq<EdgeId>, ghost outStop: EdgeId, ghost ins: seq<EdgeId>, ghost inStop: EdgeId)
      returns (found: bool, srcFirstOut': EdgeId, dstFirstIn': EdgeId)
      requires Valid() && id != NULL_EDGE
      requires Traversal(edges, Out, srcFirstOut, outs, outStop) && Traversal(edges, In, dstFirstIn, ins, inStop)
      modifies this`edges, this`wal
      ensures Valid() && edges.Keys == old(edges.Keys)
      ensures found == (id in old(edges)) && edges == UnlinkEdges(old(edges), id, outs, ins)
      ensures srcFirstOut' == if found then SpliceHead(srcFirstOut, id, old(edges)[id].nextOut) else srcFirstOut
      ensures dstFirstIn' == if found then SpliceHead(dstFirstIn, id, old(edges)[id].nextIn) else dstFirstIn
      ensures wal.sent == old(wal.sent) +
              if found then PutPred(edges, PredOf(outs, id)) + PutPred(edges, PredOf(ins, id)) else []
      ensures found ==> Unlinked(old(edges), edges, id, outs, ins)
      ensures found ==> Traversal(edges, Out, srcFirstOut', Without(outs, id), outStop)
      ensures found ==> Traversal(edges, In, dstFirstIn', Without(ins, id), inStop)
    {
      hide Inv, Recovered, AllFit, EncodeEdge, Path, Unlinked;
      srcFirstOut', dstFirstIn' := srcFirstOut, dstFirstIn;
      found := id in edges;
      if !found {
        assert wal.sent + [] == wal.sent;
        return;
      }
      var edge := edges[id];
      UnlinkFields(edges, id, srcFirstOut, outs, outStop, dstFirstIn, ins, inStop);
      SplicePath(edges, Out, srcFirstOut, outs, outStop, id);
      var srcPred, dstPred;
      srcFirstOut', srcPred := Splice(Out, id, srcFirstOut, edge.nextOut, outs, outStop);
      PathOtherDir(old(edges), edges, In, dstFirstIn, ins, inStop);
      SplicePath(edges, In, dstFirstIn, ins, inStop, id);
      ghost var mid := edges;
      dstFirstIn', dstPred := Splice(In, id, dstFirstIn, edge.nextIn, ins, inStop);
      PathOtherDir(mid, edges, Out, srcFirstOut', Without(outs, id), outStop);
      PersistPreds(srcPred, dstPred, old(edges));
    }

    /** Log the edges whose links were redirected, in their final state. */
    method PersistPreds(srcPred: Option<EdgeId>, dstPred: Option<EdgeId>, ghost before: EdgeMap)
      requires Live(cfg, wal) && AllFit(wal.sent) && Recovered(EDGE_DECODER, Opened(), wal.sent) == before
      requires before.Keys == edges.Keys
      requires forall k <- edges :: edges[k] == before[k] || Some(k) == srcPred || Some(k) == dstPred
      modifies this`wal
      ensures Live(cfg, wal) && wal.base == old(wal.base) && AllFit(wal.sent)
      ensures Recovered(EDGE_DECODER, Opened(), wal.sent) == edges
      ensures wal.sent == old(wal.sent) + (PutPred(edges, srcPred) + PutPred(edges, dstPred))
    {
      hide Inv, Recovered, AllFit, EncodeEdge;
      ghost var m := before;
      if srcPred.Some? && srcPred.value in edges {
        WalInsert(srcPred.value, edges[srcPred.value]);
        m := m[srcPred.value := edges[srcPred.value]];
      }
      assert wal.sent == old(wal.sent) + PutPred(edges, srcPred);
      if dstPred.Some? && dstPred.value in edges {
        WalInsert(dstPred.value, edges[dstPred.value]);
        m := m[dstPred.value := edges[dstPred.value]];
      }
      assert m == edges;
    }

    method SoftDelete(id: EdgeId, txId: TxId) returns (ok: bool)
      requires Valid()
      modifies this`edges, this`wal
      ensures Valid() && ok == (id in old(edges)) && edges.Keys == old(edges.Keys)
      ensures ok ==> edges == old(edges)[id := old(edges)[id].(deletedTx := txId)]
      ensures ok ==> wal.sent == old(wal.sent) + PutPred(edges, Some(id))
      ensures !ok ==> edges == old(edges) && wal == old(wal)
    {
      hide Inv, Recovered, AllFit, EncodeEdge;
      ok := id in edges;
      if ok {
        edges := edges[id := edges[id].(deletedTx := txId)];
        WalInsert(id, edges[id]);
      }
    }

    /** The delete is logged even when nothing is stored; only a stored id becomes free. */
    method HardDelete(id: EdgeId) returns (ok: bool)
      requires Valid()
      modifies this`edges, this`wal, this`freeList
      ensures Valid() && ok == (id in old(edges))
      ensures edges == old(edges) - {id}
      ensures freeList == if ok then old(freeList) + [id] else old(freeList)
      ensures wal.sent == old(wal.sent) + [Delete(id)]
      ensures old(Conserved()) ==> Conserved()
    {
      hide Inv, Recovered, Partition, AllFit, EncodeEdge;
      WalDelete(id);
      ok := id in edges;
      if ok {
        if Conserved() {
          FreeKeepsPartition(edges.Keys, freeList, reserved, nextId, id);
        }
        edges := edges - {id};
        freeList := freeList + [id];
        assert edges.Keys == old(edges.Keys) - {id};
      } else {
        assert edges - {id} == edges;
      }
    }

    /** Follow one chain to its end. */
    method Walk(d: Dir, start: EdgeId, ghost s: seq<EdgeId>, ghost stop: EdgeId) returns (r: seq<EdgeId>)
      requires Traversal(edges, d, start, s, stop)
      ensures r == s
    {
      hide Traversal, Path;
      r := [];
      var cur := start;
      TraversalStart(edges, d, start, s, stop);
      while cur != NULL_EDGE
        invariant |r| <= |s| && r == s[..|r|] && cur == At(s, |r|, stop)
        invariant cur == NULL_EDGE || cur !in edges ==> |r| == |s|
        decreases |s| - |r|
      {
        if cur !in edges {
          break;
        }
        TraversalStep(edges, d, start, s, stop, |r|);
        r := r + [cur];
        cur := NextOf(edges[cur], d);
      }
    }

    method OutEdges(start: EdgeId, ghost s: seq<EdgeId>, ghost stop: EdgeId) returns (r: seq<EdgeId>)
      requires Traversal(edges, Out, start, s, stop)
      ensures r == s && start == if r == [] then stop else r[0]
      ensures forall i :: 0 <= i < |r| ==>
        r[i] in edges && edges[r[i]].nextOut == if i + 1 < |r| then r[i + 1] else stop
      ensures stop == NULL_EDGE || stop !in edges
    {
      r := Walk(Out, start, s, stop);
      OutLinks(edges, start, r, stop);
      hide Traversal;
    }

    method InEdges(start: EdgeId, ghost s: seq<EdgeId>, ghost stop: EdgeId) returns (r: seq<EdgeId>)
      requires Traversal(edges, In, start, s, stop)
      ensures r == s && start == if r == [] then stop else r[0]
      ensures forall i :: 0 <= i < |r| ==>
        r[i] in edges && edges[r[i]].nextIn == if i + 1 < |r| then r[i + 1] else stop
      ensures stop == NULL_EDGE || stop !in edges
    {
      r := Walk(In, start, s, stop);
      InLinks(edges, start, r, stop);
      hide Traversal;
    }

    /** The visible part of an out-chain, in chain order. */
    method OutEdgesVisible(start: EdgeId, tx: TxId, ghost s: seq<EdgeId>, ghost stop: EdgeId) returns (r: seq<EdgeId>)
      requires Traversal(edges, Out, start, s, stop)
      ensures (forall id <- s :: id in edges) && IsVisiblePart(edges, s, tx, r)
    {
      hide Traversal, Path, IsVisiblePart;
      TraversalNoDup(edges, Out, start, s, stop);
      r := [];
      var cur := start;
      ghost var i := 0;
      TraversalStart(edges, Out, start, s, stop);
      while cur != NULL_EDGE
        invariant i <= |s| && cur == At(s, i, stop)
        invariant cur == NULL_EDGE || cur !in edges ==> i == |s|
        invariant forall id <- s :: id in edges
        invariant r == AliveOn(edges, s[..i], tx)
        decreases |s| - i
      {
        if cur !in edges {
          break;
        }
        TraversalStep(edges, Out, start, s, stop, i);
        assert s[..i + 1][..i] == s[..i];
        if edges[cur].IsAlive(tx) {
          r := r + [cur];
        }
        cur := edges[cur].nextOut;
        i := i + 1;
      }
      assert s[..i] == s;
      AliveOnIs(edges, s, tx);
    }

    /** Blocks until everything sent is on disk. */
    method Flush()
      requires Valid()
      modifies this`wal
      ensures Valid() && wal.sent == old(wal.sent) && Durable()
    {
      hide Inv, Recovered, ParseFile, EncodeAll, AllFit, Whole;
      wal := FlushHandle(cfg, wal);
      if Whole(Started(file)) && AllFit(wal.sent) {
        StartedRecords(file);
        SyncedRecovers(EDGE_DECODER, wal.base, wal.sent);
      }
    }

    /** Drop: the thread stops with what it had taken on disk. The file is whole again, if it was when
        opened, and rebuilds the map as it was after that many commands. */
    method Close() returns (left: seq<byte>)
      requires Valid()
      modifies this`wal
      ensures left == wal.local.disk && wal.local.stopped && wal.sent == old(wal.sent)
      ensures old(Synced(wal)) ==> left == old(wal.local.disk)
      ensures old(wal.local.taken) <= |wal.sent|
      ensures Whole(Started(file)) ==>
        Whole(left) &&
        Rebuild(EDGE_DECODER, ParseFile(left).records).recs ==
        Recovered(EDGE_DECODER, Opened(), wal.sent[..old(wal.local.taken)])
    {
      hide Inv, Recovered, ParseFile, EncodeAll, AllFit, Whole, EncodeEdge;
      var taken := wal.local.taken;
      wal := DropHandle(cfg, wal);
      left := wal.local.disk;
      if Whole(Started(file)) && AllFit(wal.sent) {
        StartedRecords(file);
        TakeFits(wal.sent, taken);
        SyncedRecovers(EDGE_DECODER, wal.base, wal.sent[..taken]);
      }
    }
  }
}
