/**
 Intrusive adjacency chains. Each edge record carries two links, one for the chain of edges
 leaving its source and one for the chain of edges entering its destination; all chains of
 both kinds share one map of records.
 */
module Chains {
  import opened Types

  datatype Dir = Out | In

  type EdgeMap = map<EdgeId, Edge>

  function NextOf(e: Edge, d: Dir): EdgeId {
    match d
    case Out => e.nextOut
    case In => e.nextIn
  }

  function WithNext(e: Edge, d: Dir, next: EdgeId): Edge {
    match d
    case Out => e.(nextOut := next)
    case In => e.(nextIn := next)
  }

  /** The node whose chain in direction `d` the edge belongs to. */
  function OwnerOf(e: Edge, d: Dir): NodeId {
    match d
    case Out => e.src
    case In => e.dst
  }

  function At(s: seq<EdgeId>, i: nat, stop: EdgeId): EdgeId {
    if i < |s| then s[i] else stop
  }

  /** The link of the `i`-th edge leads to the next one. */
  ghost predicate LinkOk(edges: EdgeMap, d: Dir, s: seq<EdgeId>, stop: EdgeId, i: nat) {
    i < |s| && s[i] in edges && s[i] != NULL_EDGE && NextOf(edges[s[i]], d) == At(s, i + 1, stop)
  }

  /** Following links from `start` visits the edges `s` and then reaches `stop`. */
  ghost predicate Path(edges: EdgeMap, d: Dir, start: EdgeId, s: seq<EdgeId>, stop: EdgeId) {
    && start == At(s, 0, stop)
    && (forall i {:trigger LinkOk(edges, d, s, stop, i)} :: 0 <= i < |s| ==> LinkOk(edges, d, s, stop, i))
  }

  /** Where a traversal ends: the null link, or a link to no record. */
  predicate Terminal(edges: EdgeMap, stop: EdgeId) {
    stop == NULL_EDGE || stop !in edges
  }

  ghost predicate Traversal(edges: EdgeMap, d: Dir, start: EdgeId, s: seq<EdgeId>, stop: EdgeId) {
    Path(edges, d, start, s, stop) && Terminal(edges, stop)
  }

  /** A chain proper ends at the null link. */
  ghost predicate Chain(edges: EdgeMap, d: Dir, start: EdgeId, s: seq<EdgeId>) {
    Path(edges, d, start, s, NULL_EDGE)
  }

  function IndexOf(s: seq<EdgeId>, id: EdgeId): (i: nat)
    ensures i <= |s| && id !in s[..i]
    ensures i < |s| ==> s[i] == id
    ensures i == |s| <==> id !in s
  {
    if s == [] then 0
    else if s[0] == id then 0
    else 1 + IndexOf(s[1..], id)
  }

  /** `s` with `id` taken out, the rest in order. */
  function Without(s: seq<EdgeId>, id: EdgeId): seq<EdgeId> {
    var i := IndexOf(s, id);
    if i < |s| then s[..i] + s[i + 1..] else s
  }

  lemma IndexOfIs(s: seq<EdgeId>, id: EdgeId, i: nat)
    requires i < |s| && s[i] == id && id !in s[..i]
    ensures IndexOf(s, id) == i
  {
    var j := IndexOf(s, id);
    assert forall k :: 0 <= k < i ==> s[k] == s[..i][k];
    assert forall k :: 0 <= k < j ==> s[k] == s[..j][k];
  }

  /** The edge before `id` on the chain, when there is one. */
  function PredOf(s: seq<EdgeId>, id: EdgeId): Option<EdgeId> {
    var i := IndexOf(s, id);
    if 0 < i < |s| then Some(s[i - 1]) else None
  }

  function SpliceEdges(edges: EdgeMap, d: Dir, s: seq<EdgeId>, id: EdgeId, after: EdgeId): (r: EdgeMap)
    ensures r.Keys == edges.Keys
  {
    match PredOf(s, id)
    case Some(p) => if p in edges then edges[p := WithNext(edges[p], d, after)] else edges
    case None => edges
  }

  function SpliceHead(head: EdgeId, id: EdgeId, after: EdgeId): EdgeId {
    if head == id then after else head
  }

  function LinkEdges(edges: EdgeMap, id: EdgeId, outHead: EdgeId, inHead: EdgeId): (r: EdgeMap)
    ensures r.Keys == edges.Keys
  {
    if id in edges then edges[id := edges[id].(nextOut := outHead, nextIn := inHead)] else edges
  }

  /** Unlinking `id` from an out-chain `outs` and an in-chain `ins`. */
  function UnlinkEdges(edges: EdgeMap, id: EdgeId, outs: seq<EdgeId>, ins: seq<EdgeId>): (r: EdgeMap)
    ensures r.Keys == edges.Keys
  {
    if id !in edges then edges
    else SpliceEdges(SpliceEdges(edges, Out, outs, id, edges[id].nextOut), In, ins, id, edges[id].nextIn)
  }

  /** Nothing of the record but its two links differs. */
  predicate SameButLinks(a: Edge, b: Edge) {
    && a.id == b.id && a.src == b.src && a.dst == b.dst && a.etype == b.etype && a.propsRow == b.propsRow
    && a.createdTx == b.createdTx && a.deletedTx == b.deletedTx
  }

  // ---------------------------------------------------------------- shape of traversals

  lemma PathMembers(edges: EdgeMap, d: Dir, start: EdgeId, s: seq<EdgeId>, stop: EdgeId)
    requires Path(edges, d, start, s, stop)
    ensures forall id <- s :: id in edges && id != NULL_EDGE
  {
    forall i | 0 <= i < |s| ensures s[i] in edges && s[i] != NULL_EDGE {
      assert LinkOk(edges, d, s, stop, i);
    }
  }

  lemma {:induction false} RepeatRunsForever(
    edges: EdgeMap, d: Dir, start: EdgeId, s: seq<EdgeId>, stop: EdgeId, i: nat, j: nat)
    requires Traversal(edges, d, start, s, stop) && i < j < |s| && s[i] == s[j]
    ensures false
    decreases |s| - j
  {
    assert LinkOk(edges, d, s, stop, i + 1);
    assert LinkOk(edges, d, s, stop, i);
    assert LinkOk(edges, d, s, stop, j);
    if j + 1 < |s| {
      RepeatRunsForever(edges, d, start, s, stop, i + 1, j + 1);
    }
  }

  /** A traversal that ends visits no edge twice. */
  lemma TraversalNoDup(edges: EdgeMap, d: Dir, start: EdgeId, s: seq<EdgeId>, stop: EdgeId)
    requires Traversal(edges, d, start, s, stop)
    ensures NoDup(s)
  {
    forall i, j | 0 <= i < j < |s| ensures s[i] != s[j] {
      if s[i] == s[j] {
        RepeatRunsForever(edges, d, start, s, stop, i, j);
      }
    }
  }

  lemma PathTail(edges: EdgeMap, d: Dir, start: EdgeId, s: seq<EdgeId>, stop: EdgeId)
    requires Path(edges, d, start, s, stop) && s != []
    ensures start == s[0] && start in edges && start != NULL_EDGE
    ensures Path(edges, d, NextOf(edges[start], d), s[1..], stop)
  {
    assert LinkOk(edges, d, s, stop, 0);
    forall i | 0 <= i < |s[1..]| ensures LinkOk(edges, d, s[1..], stop, i) {
      assert LinkOk(edges, d, s, stop, i + 1);
      assert s[1..][i] == s[i + 1];
    }
  }

  /** The cursor of a traversal: at its start, and after one more link. */
  lemma TraversalStart(edges: EdgeMap, d: Dir, start: EdgeId, s: seq<EdgeId>, stop: EdgeId)
    requires Traversal(edges, d, start, s, stop)
    ensures start == At(s, 0, stop)
    ensures forall id <- s :: id in edges && id != NULL_EDGE
    ensures start == NULL_EDGE || start !in edges ==> s == []
    ensures Terminal(edges, stop)
  {
    PathMembers(edges, d, start, s, stop);
    assert s != [] ==> s[0] in s;
  }

  lemma TraversalStep(edges: EdgeMap, d: Dir, start: EdgeId, s: seq<EdgeId>, stop: EdgeId, i: nat)
    requires Traversal(edges, d, start, s, stop)
    requires i <= |s| && At(s, i, stop) in edges && At(s, i, stop) != NULL_EDGE
    ensures i < |s| && NextOf(edges[s[i]], d) == At(s, i + 1, stop)
    ensures At(s, i + 1, stop) == NULL_EDGE || At(s, i + 1, stop) !in edges ==> i + 1 == |s|
  {
    assert i < |s|;
    PathMembers(edges, d, start, s, stop);
    assert i + 1 < |s| ==> s[i + 1] in s;
    assert LinkOk(edges, d, s, stop, i);
  }

  /** Start and records determine the traversal. */
  lemma {:induction false} TraversalUnique(
    edges: EdgeMap, d: Dir, start: EdgeId, s: seq<EdgeId>, stop: EdgeId, t: seq<EdgeId>, stop': EdgeId)
    requires Traversal(edges, d, start, s, stop) && Traversal(edges, d, start, t, stop')
    ensures s == t && stop == stop'
    decreases |s|
  {
    if s != [] {
      PathTail(edges, d, start, s, stop);
    }
    if t != [] {
      PathTail(edges, d, start, t, stop');
    }
    if s != [] && t != [] {
      TraversalUnique(edges, d, NextOf(edges[start], d), s[1..], stop, t[1..], stop');
      assert s == [s[0]] + s[1..] && t == [t[0]] + t[1..];
    }
  }

  /** A path depends only on the records of its own edges, and only on the links of its kind. */
  lemma PathFrame(edges: EdgeMap, edges': EdgeMap, d: Dir, start: EdgeId, s: seq<EdgeId>, stop: EdgeId)
    requires Path(edges, d, start, s, stop)
    requires forall id <- s :: id in edges && id in edges' && NextOf(edges'[id], d) == NextOf(edges[id], d)
    ensures Path(edges', d, start, s, stop)
  {
    forall i | 0 <= i < |s| ensures LinkOk(edges', d, s, stop, i) {
      assert LinkOk(edges, d, s, stop, i);
    }
  }

  /** A pass over chains of one kind leaves the paths of the other kind alone. */
  lemma PathOtherDir(edges: EdgeMap, edges': EdgeMap, d: Dir, start: EdgeId, s: seq<EdgeId>, stop: EdgeId)
    requires Traversal(edges, d, start, s, stop) && edges.Keys == edges'.Keys
    requires forall id <- edges :: NextOf(edges'[id], d) == NextOf(edges[id], d)
    ensures Traversal(edges', d, start, s, stop)
  {
    PathMembers(edges, d, start, s, stop);
    PathFrame(edges, edges', d, start, s, stop);
  }

  /** Putting a linked record in front of a path. */
  lemma PathCons(edges: EdgeMap, d: Dir, id: EdgeId, s: seq<EdgeId>, stop: EdgeId)
    requires id in edges && id != NULL_EDGE && Path(edges, d, NextOf(edges[id], d), s, stop)
    ensures Path(edges, d, id, [id] + s, stop)
  {
    var t := [id] + s;
    forall i | 0 <= i < |t| ensures LinkOk(edges, d, t, stop, i) {
      if i > 0 {
        assert LinkOk(edges, d, s, stop, i - 1);
      }
    }
  }

  // ---------------------------------------------------------------- splicing

  /** Members of a duplicate-free sequence with one element removed. */
  lemma WithoutMembers(s: seq<EdgeId>, id: EdgeId)
    requires NoDup(s)
    ensures forall x :: x in Without(s, id) <==> x in s && x != id
    ensures |Without(s, id)| == if id in s then |s| - 1 else |s|
  {
    var i := IndexOf(s, id);
    if i < |s| {
      assert s == s[..i] + [id] + s[i + 1..];
    }
  }

  lemma SplicePathAt(edges: EdgeMap, d: Dir, head: EdgeId, s: seq<EdgeId>, stop: EdgeId, i: nat)
    requires Path(edges, d, head, s, stop) && NoDup(s) && 0 < i < |s|
    requires s[i - 1] in edges && s[i] in edges
    ensures Path(edges[s[i - 1] := WithNext(edges[s[i - 1]], d, NextOf(edges[s[i]], d))], d,
                 head, s[..i] + s[i + 1..], stop)
  {
    var p := s[i - 1];
    var t, edges' := s[..i] + s[i + 1..], edges[p := WithNext(edges[p], d, NextOf(edges[s[i]], d))];
    assert LinkOk(edges, d, s, stop, i);
    forall j | 0 <= j < |t| ensures LinkOk(edges', d, t, stop, j) {
      if j < i - 1 {
        assert LinkOk(edges, d, s, stop, j);
        assert t[j] == s[j] && t[j + 1] == s[j + 1];
      } else if j == i - 1 {
        assert LinkOk(edges, d, s, stop, j);
        assert t[j] == p && At(t, i, stop) == At(s, i + 1, stop);
      } else {
        assert LinkOk(edges, d, s, stop, j + 1);
        assert t[j] == s[j + 1] && At(t, j + 1, stop) == At(s, j + 2, stop);
      }
    }
  }

  /** Redirecting the predecessor's link, or the head, takes exactly `id` off the path. */
  lemma SplicePath(edges: EdgeMap, d: Dir, head: EdgeId, s: seq<EdgeId>, stop: EdgeId, id: EdgeId)
    requires Traversal(edges, d, head, s, stop) && id in edges && id != NULL_EDGE
    ensures var after := NextOf(edges[id], d);
      Path(SpliceEdges(edges, d, s, id, after), d, SpliceHead(head, id, after), Without(s, id), stop)
  {
    TraversalNoDup(edges, d, head, s, stop);
    PathMembers(edges, d, head, s, stop);
    var i := IndexOf(s, id);
    if i == 0 && s != [] {
      PathTail(edges, d, head, s, stop);
      assert s[..0] + s[1..] == s[1..];
    } else if i < |s| {
      hide Path;
      SplicePathAt(edges, d, head, s, stop, i);
      assert head != id by { PathTail(edges, d, head, s, stop); }
    }
  }

  /** Splicing changes one link of the edge that led to `id`, and nothing else of any record. */
  lemma SpliceFields(edges: EdgeMap, d: Dir, head: EdgeId, s: seq<EdgeId>, stop: EdgeId, id: EdgeId, after: EdgeId)
    requires Traversal(edges, d, head, s, stop) && id in edges && id != NULL_EDGE
    ensures var edges' := SpliceEdges(edges, d, s, id, after);
      forall x <- edges ::
        && SameButLinks(edges'[x], edges[x])
        && edges'[x].nextOut == (if d == Out && x in s && edges[x].nextOut == id then after else edges[x].nextOut)
        && edges'[x].nextIn == (if d == In && x in s && edges[x].nextIn == id then after else edges[x].nextIn)
  {
    TraversalNoDup(edges, d, head, s, stop);
    PathMembers(edges, d, head, s, stop);
    forall x | x in edges
      ensures PredOf(s, id) == Some(x) <==> x in s && NextOf(edges[x], d) == id
    {
      PredLeads(edges, d, head, s, stop, id, x);
    }
  }

  /** After unlinking `id`: whatever led to it on its two chains leads past it, and no other field of
      any record differs. */
  ghost predicate Unlinked(edges: EdgeMap, edges': EdgeMap, id: EdgeId, outs: seq<EdgeId>, ins: seq<EdgeId>)
    requires id in edges
  {
    && edges'.Keys == edges.Keys
    && forall x <- edges ::
         && SameButLinks(edges'[x], edges[x])
         && edges'[x].nextOut == (if x in outs && edges[x].nextOut == id then edges[id].nextOut else edges[x].nextOut)
         && edges'[x].nextIn == (if x in ins && edges[x].nextIn == id then edges[id].nextIn else edges[x].nextIn)
  }

  lemma UnlinkFields(edges: EdgeMap, id: EdgeId, outHead: EdgeId, outs: seq<EdgeId>, outStop: EdgeId,
                     inHead: EdgeId, ins: seq<EdgeId>, inStop: EdgeId)
    requires Traversal(edges, Out, outHead, outs, outStop) && Traversal(edges, In, inHead, ins, inStop)
    requires id in edges && id != NULL_EDGE
    ensures Unlinked(edges, UnlinkEdges(edges, id, outs, ins), id, outs, ins)
  {
    hide Traversal, SpliceEdges;
    var mid := SpliceEdges(edges, Out, outs, id, edges[id].nextOut);
    SpliceFields(edges, Out, outHead, outs, outStop, id, edges[id].nextOut);
    PathOtherDir(edges, mid, In, inHead, ins, inStop);
    SpliceFields(mid, In, inHead, ins, inStop, id, edges[id].nextIn);
  }

  lemma PredLeads(edges: EdgeMap, d: Dir, head: EdgeId, s: seq<EdgeId>, stop: EdgeId, id: EdgeId, x: EdgeId)
    requires Traversal(edges, d, head, s, stop) && id in edges && id != NULL_EDGE && NoDup(s) && x in edges
    ensures PredOf(s, id) == Some(x) <==> x in s && NextOf(edges[x], d) == id
  {
    var i := IndexOf(s, id);
    if PredOf(s, id) == Some(x) {
      assert LinkOk(edges, d, s, stop, i - 1);
    }
    if x in s && NextOf(edges[x], d) == id {
      var j :| 0 <= j < |s| && s[j] == x;
      assert LinkOk(edges, d, s, stop, j);
      assert j + 1 < |s| && s[j + 1] == id;
    }
  }

  /** The links of a traversal in terms of the records' own fields. */
  lemma OutLinks(edges: EdgeMap, start: EdgeId, s: seq<EdgeId>, stop: EdgeId)
    requires Traversal(edges, Out, start, s, stop)
    ensures forall i :: 0 <= i < |s| ==> s[i] in edges && s[i] != NULL_EDGE
    ensures start == if s == [] then stop else s[0]
    ensures forall i :: 0 <= i < |s| ==> edges[s[i]].nextOut == if i + 1 < |s| then s[i + 1] else stop
  {
    forall i | 0 <= i < |s|
      ensures s[i] in edges && s[i] != NULL_EDGE && edges[s[i]].nextOut == if i + 1 < |s| then s[i + 1] else stop
    {
      assert LinkOk(edges, Out, s, stop, i);
    }
  }

  lemma InLinks(edges: EdgeMap, start: EdgeId, s: seq<EdgeId>, stop: EdgeId)
    requires Traversal(edges, In, start, s, stop)
    ensures forall i :: 0 <= i < |s| ==> s[i] in edges && s[i] != NULL_EDGE
    ensures start == if s == [] then stop else s[0]
    ensures forall i :: 0 <= i < |s| ==> edges[s[i]].nextIn == if i + 1 < |s| then s[i + 1] else stop
  {
    forall i | 0 <= i < |s|
      ensures s[i] in edges && s[i] != NULL_EDGE && edges[s[i]].nextIn == if i + 1 < |s| then s[i + 1] else stop
    {
      assert LinkOk(edges, In, s, stop, i);
    }
  }
}
