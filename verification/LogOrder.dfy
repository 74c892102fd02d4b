/**
 One store and its log, as threads interleave inside its methods. An insert stores its record and
 logs it afterwards; removing a record logs the delete first; every update of a stored record logs
 while it holds the entry. So the log need not have the order of the changes. Edges and nodes alike.
 */
module LogOrder {
  import opened Types
  import opened WalFormat
  import opened Recovery
  import opened Nodes
  import opened Bincode

  datatype Step =
    | Store(id: NodeId, node: Node)  // insert: the record is in the map
    | Log(id: NodeId, node: Node)    // insert: the record stored is sent to the log
    | Change(id: NodeId, node: Node) // any update: both, under the entry's lock
    | LogDelete(id: NodeId)          // hard_delete: the delete is sent to the log
    | Remove(id: NodeId)             // hard_delete: the record leaves the map

  /** `unlogged` and `removing` are the calls half way through. */
  datatype State = State(
    nodes: map<NodeId, Node>,
    log: seq<WalCmd>,
    unlogged: multiset<(NodeId, Node)>,
    removing: multiset<NodeId>)

  predicate Enabled(s: State, e: Step) {
    match e
    case Store(_, _) => true
    case Log(id, node) => (id, node) in s.unlogged
    case Change(id, _) => id in s.nodes
    case LogDelete(_) => true
    case Remove(id) => id in s.removing
  }

  function Next(s: State, e: Step): State
    requires Enabled(s, e)
  {
    match e
    case Store(id, node) => s.(nodes := s.nodes[id := node], unlogged := s.unlogged + multiset{(id, node)})
    case Log(id, node) => s.(log := s.log + [PutNode(id, node)], unlogged := s.unlogged - multiset{(id, node)})
    case Change(id, node) => s.(nodes := s.nodes[id := node], log := s.log + [PutNode(id, node)])
    case LogDelete(id) => s.(log := s.log + [Delete(id)], removing := s.removing + multiset{id})
    case Remove(id) => s.(nodes := s.nodes - {id}, removing := s.removing - multiset{id})
  }

  predicate Allowed(s: State, es: seq<Step>)
    decreases |es|
  {
    es == [] || (Enabled(s, es[0]) && Allowed(Next(s, es[0]), es[1..]))
  }

  function Exec(s: State, es: seq<Step>): State
    requires Allowed(s, es)
    decreases |es|
  {
    if es == [] then s else Exec(Next(s, es[0]), es[1..])
  }

  /** No call is half way through. */
  predicate Finished(s: State) {
    s.unlogged == multiset{} && s.removing == multiset{}
  }

  /** The log says nothing of `id`, or last that it is deleted. */
  predicate EndsDeleted(log: seq<WalCmd>, id: NodeId) {
    log == [] || if log[|log| - 1].id == id then log[|log| - 1].Delete? else EndsDeleted(log[..|log| - 1], id)
  }

  predicate Mentions(log: seq<WalCmd>, id: NodeId) {
    exists c <- log :: c.id == id
  }

  /** How the latest step on an id leaves it: the log agreeing with the map, or not, or to be told
      by a step still to come. */
  datatype Verdict = Fine | Broken | Open

  /** An update is always fine. Logging an insert is, if the record it stored is still there;
      removing a record is, if its delete is still the last thing logged of it. */
  function Judge(s: State, e: Step): Verdict {
    match e
    case Change(_, _) => Fine
    case Log(id, node) => if id in s.nodes && s.nodes[id] == node then Fine else Broken
    case Remove(id) => if EndsDeleted(s.log, id) then Fine else Broken
    case _ => Open
  }

  /** The verdict on the last step of a run that is on `id`. */
  function Last(s: State, es: seq<Step>, id: NodeId, v: Verdict): Verdict
    requires Allowed(s, es)
    decreases |es|
  {
    if es == [] then v
    else Last(Next(s, es[0]), es[1..], id, if es[0].id == id then Judge(s, es[0]) else v)
  }

  predicate SameAt(a: map<NodeId, Node>, b: map<NodeId, Node>, id: NodeId) {
    (id in a <==> id in b) && (id in a ==> a[id] == b[id])
  }

  /** What the verdict so far means. */
  ghost predicate Judged(found: seq<Record>, s: State, id: NodeId, v: Verdict) {
    && (id in s.removing ==> Mentions(s.log, id))
    && match v
       case Fine => SameAt(Recovered(NODE_DECODER, found, s.log), s.nodes, id)
       case Broken => !SameAt(Recovered(NODE_DECODER, found, s.log), s.nodes, id)
       case Open => id in s.removing || exists node :: (id, node) in s.unlogged
  }

  lemma {:induction false} DeletedIff(found: seq<Record>, log: seq<WalCmd>, id: NodeId)
    requires Mentions(log, id) && Decodable(log)
    ensures id in Recovered(NODE_DECODER, found, log) <==> !EndsDeleted(log, id)
  {
    hide Recovered, NODE_DECODER;
    var n := |log| - 1;
    assert log == log[..n] + [log[n]];
    RecoveredSnoc(NODE_DECODER, found, log[..n], log[n]);
    if log[n].id != id {
      var c :| c in log && c.id == id;
      assert c in log[..n];
      DeletedIff(found, log[..n], id);
    }
  }

  ghost predicate Decodable(log: seq<WalCmd>) {
    forall c <- log :: c.Insert? ==> NODE_DECODER(c.record).Some?
  }

  lemma PutDecodes(log: seq<WalCmd>, id: NodeId, n: Node)
    requires Decodable(log)
    ensures Decodable(log + [PutNode(id, n)])
  {
    hide EncodeNode, DecodeNode;
    DecodeEncodeNode(n);
  }

  lemma StepDecodable(s: State, e: Step)
    requires Enabled(s, e) && Decodable(s.log)
    ensures Decodable(Next(s, e).log)
  {
    hide PutNode, Decodable;
    match e
    case Log(id, node) => PutDecodes(s.log, id, node);
    case Change(id, node) => PutDecodes(s.log, id, node);
    case LogDelete(id) => DeleteDecodes(s.log, id);
    case _ =>
  }

  lemma DeleteDecodes(log: seq<WalCmd>, id: NodeId)
    requires Decodable(log)
    ensures Decodable(log + [Delete(id)])
  {
  }

  /** What a step does to the map that the log replays to. */
  lemma RecoveredStep(found: seq<Record>, s: State, e: Step)
    requires Enabled(s, e)
    ensures Recovered(NODE_DECODER, found, Next(s, e).log) ==
      match e
      case Log(k, node) => Recovered(NODE_DECODER, found, s.log)[k := node]
      case Change(k, node) => Recovered(NODE_DECODER, found, s.log)[k := node]
      case LogDelete(k) => Recovered(NODE_DECODER, found, s.log) - {k}
      case _ => Recovered(NODE_DECODER, found, s.log)
  {
    hide Recovered, PutNode, NODE_DECODER;
    match e
    case Log(k, node) => RecoveredPut(found, s.log, k, node);
    case Change(k, node) => RecoveredPut(found, s.log, k, node);
    case LogDelete(k) => RecoveredDelete(found, s.log, k);
    case _ =>
  }

  lemma MentionsStep(s: State, e: Step, id: NodeId)
    requires Enabled(s, e)
    ensures Mentions(Next(s, e).log, id) <==> Mentions(s.log, id) || (e.id == id && !e.Store? && !e.Remove?)
  {
    hide PutNode, Mentions;
    match e
    case Log(k, node) => PutMentions(s.log, k, node, id);
    case Change(k, node) => PutMentions(s.log, k, node, id);
    case LogDelete(k) => DeleteMentions(s.log, k, id);
    case _ =>
  }

  lemma StepElsewhere(found: seq<Record>, s: State, e: Step, id: NodeId, v: Verdict)
    requires Enabled(s, e) && Judged(found, s, id, v) && e.id != id
    ensures Judged(found, Next(s, e), id, v)
  {
    hide Recovered, PutNode, NODE_DECODER, Mentions;
    RecoveredStep(found, s, e);
    MentionsStep(s, e, id);
    if v == Open && id !in s.removing {
      var node :| (id, node) in s.unlogged;
      assert (id, node) in Next(s, e).unlogged;
    }
  }

  lemma StepJudged(found: seq<Record>, s: State, e: Step, id: NodeId, v: Verdict)
    requires Enabled(s, e) && Decodable(s.log) && Judged(found, s, id, v)
    ensures Judged(found, Next(s, e), id, if e.id == id then Judge(s, e) else v)
  {
    hide Recovered, PutNode, NODE_DECODER, Mentions, EndsDeleted, Decodable;
    if e.id != id {
      StepElsewhere(found, s, e, id, v);
    } else {
      RecoveredStep(found, s, e);
      MentionsStep(s, e, id);
      if e.Remove? {
        DeletedIff(found, s.log, id);
      } else if e.Store? {
        assert (id, e.node) in Next(s, e).unlogged;
      }
    }
  }

  lemma PutMentions(log: seq<WalCmd>, k: NodeId, n: Node, id: NodeId)
    ensures Mentions(log + [PutNode(k, n)], id) <==> Mentions(log, id) || k == id
  {
    assert PutNode(k, n) in log + [PutNode(k, n)] && PutNode(k, n).id == k;
    assert forall c :: c in log ==> c in log + [PutNode(k, n)];
  }

  lemma DeleteMentions(log: seq<WalCmd>, k: NodeId, id: NodeId)
    ensures Mentions(log + [Delete(k)], id) <==> Mentions(log, id) || k == id
  {
    assert Delete(k) in log + [Delete(k)] && Delete(k).id == k;
    assert forall c :: c in log ==> c in log + [Delete(k)];
  }

  lemma {:induction false} RunJudged(found: seq<Record>, s: State, es: seq<Step>, id: NodeId, v: Verdict)
    requires Allowed(s, es) && Decodable(s.log) && Judged(found, s, id, v)
    ensures Judged(found, Exec(s, es), id, Last(s, es, id, v))
    decreases |es|
  {
    hide Next, Enabled, Judged, Judge, Decodable;
    if es != [] {
      StepJudged(found, s, es[0], id, v);
      StepDecodable(s, es[0]);
      RunJudged(found, Next(s, es[0]), es[1..], id, if es[0].id == id then Judge(s, es[0]) else v);
    }
  }

  ghost predicate AllFine(s: State, es: seq<Step>)
    requires Allowed(s, es)
  {
    forall id: NodeId :: Last(s, es, id, Fine) == Fine
  }

  /** In every run, once all calls have returned: replaying the log gives the map in memory if and
      only if on every id the last step was an update, or the logging of a record still stored, or
      the removal of one whose delete was still last in the log. */
  lemma LogOrderIff(found: seq<Record>, s: State, es: seq<Step>)
    requires Allowed(s, es) && Decodable(s.log) && Finished(s) && Finished(Exec(s, es))
    requires Recovered(NODE_DECODER, found, s.log) == s.nodes
    ensures Recovered(NODE_DECODER, found, Exec(s, es).log) == Exec(s, es).nodes <==>
            AllFine(s, es)
  {
    hide Recovered, Exec, Allowed, Decodable, NODE_DECODER;
    var s' := Exec(s, es);
    var replayed := Recovered(NODE_DECODER, found, s'.log);
    forall id ensures SameAt(replayed, s'.nodes, id) <==> Last(s, es, id, Fine) == Fine {
      RunJudged(found, s, es, id, Fine);
    }
    if AllFine(s, es) {
      forall id: NodeId
        ensures (id in replayed <==> id in s'.nodes) && (id in replayed ==> replayed[id] == s'.nodes[id])
      {
        assert SameAt(replayed, s'.nodes, id) <==> Last(s, es, id, Fine) == Fine;
      }
      assert replayed == s'.nodes;
    } else {
      var id: NodeId :| Last(s, es, id, Fine) != Fine;
      Differ(replayed, s'.nodes, id);
    }
  }

  lemma Differ(a: map<NodeId, Node>, b: map<NodeId, Node>, id: NodeId)
    requires !SameAt(a, b, id)
    ensures a != b
  {
  }

  const NEW: State := State(map[], [], multiset{}, multiset{})

  /** An insert of node 0, overtaken between its two halves by a delete. */
  function Race(n: Node, t: TxId): seq<Step> {
    [Store(0, n), Change(0, n.(deletedTx := t)), Log(0, n)]
  }

  lemma RaceRun(n: Node, t: TxId)
    ensures var n' := n.(deletedTx := t);
      && Allowed(NEW, Race(n, t))
      && Exec(NEW, Race(n, t)) == State(map[0 := n'], [PutNode(0, n'), PutNode(0, n)], multiset{}, multiset{})
  {
    hide PutNode;
    var n' := n.(deletedTx := t);
    var s1 := State(map[0 := n], [], multiset{(0, n)}, multiset{});
    var s2 := State(map[0 := n'], [PutNode(0, n')], multiset{(0, n)}, multiset{});
    var s3 := State(map[0 := n'], [PutNode(0, n'), PutNode(0, n)], multiset{}, multiset{});
    assert Next(NEW, Store(0, n)) == s1 && Next(s1, Change(0, n')) == s2 && Next(s2, Log(0, n)) == s3;
    hide Next, Enabled;
    RunCons(s2, Log(0, n), []);
    RunCons(s1, Change(0, n'), [Log(0, n)]);
    RunCons(NEW, Store(0, n), [Change(0, n'), Log(0, n)]);
  }

  /** A node's insert has stored it and not yet logged it when another thread deletes it and returns,
      its delete logged; then the insert logs the node as it was. Flushed, closed and opened again,
      the file has the node undeleted. */
  lemma DeleteIsLost(n: Node, t: TxId)
    requires n.deletedTx != t && Fits(PutNode(0, n)) && Fits(PutNode(0, n.(deletedTx := t)))
    ensures Allowed(NEW, Race(n, t)) && Finished(Exec(NEW, Race(n, t)))
    ensures var s := Exec(NEW, Race(n, t));
      && s.nodes == map[0 := n.(deletedTx := t)] && AllFit(s.log)
      && ParseFile(MAGIC + EncodeAll(s.log)).status == Complete
      && Rebuild(NODE_DECODER, ParseFile(MAGIC + EncodeAll(s.log)).records).recs == map[0 := n]
  {
    hide PutNode, ParseFile, EncodeAll, Recovered, Rebuild, NODE_DECODER, Exec, Allowed, Race;
    var n' := n.(deletedTx := t);
    RaceRun(n, t);
    var log := [PutNode(0, n'), PutNode(0, n)];
    MagicWhole();
    SyncedRecovers(NODE_DECODER, MAGIC, log);
    RecoveredPut([], [], 0, n');
    RecoveredPut([], [PutNode(0, n')], 0, n);
    assert [] + [PutNode(0, n')] == [PutNode(0, n')] && [PutNode(0, n')] + [PutNode(0, n)] == log;
    NothingRecovered();
  }

  lemma NothingRecovered()
    ensures Recovered(NODE_DECODER, [], []) == map[]
  {
    RebuildEmpty(NODE_DECODER, Rebuilt(map[], [], 0));
    assert [] + ToRecords([]) == [];
  }

  lemma RunCons(s: State, e: Step, es: seq<Step>)
    requires Enabled(s, e) && Allowed(Next(s, e), es)
    ensures Allowed(s, [e] + es) && Exec(s, [e] + es) == Exec(Next(s, e), es)
  {
    assert ([e] + es)[1..] == es;
  }
}
