/**
 A crash during a commit. The client's thread sends a transaction's records to the three logs, one
 list after the other, and then flushes the logs one after the other; each log's own thread writes
 whenever it likes, so each file ends wherever it ends.
 */
module CommitCrash {
  import opened Types
  import opened WalFormat
  import opened TicketLock
  import opened Nodes
  import opened Edges
  import opened Props
  import opened Plans
  import opened Transactions
  import Recovery
  import WalThread

  datatype Log = NodeLog | EdgeLog | PropLog

  /** One thing for each log. */
  datatype Three<T> = Three(nodes: T, edges: T, props: T)
  {
    function At(l: Log): T {
      match l case NodeLog => nodes case EdgeLog => edges case PropLog => props
    }

    function With(l: Log, x: T): Three<T> {
      match l case NodeLog => this.(nodes := x) case EdgeLog => this.(edges := x) case PropLog => this.(props := x)
    }
  }

  /** What commit has to do: send a record, ask for a flush, wait for the answer. */
  datatype Action = Put(l: Log, c: WalCmd) | Sync(l: Log) | Wait(l: Log, mark: nat)

  datatype Machine = Machine(logs: Three<WalThread.State>, todo: seq<Action>)

  datatype Move = Client | Thread(l: Log, e: WalThread.Event)

  function Puts(l: Log, cs: seq<WalCmd>): seq<Action> {
    if cs == [] then [] else [Put(l, cs[0])] + Puts(l, cs[1..])
  }

  /** The calls of one commit, in order. */
  function Program(cmds: Three<seq<WalCmd>>): seq<Action> {
    Puts(NodeLog, cmds.nodes) + Puts(EdgeLog, cmds.edges) + Puts(PropLog, cmds.props)
    + [Sync(NodeLog), Sync(EdgeLog), Sync(PropLog)]
  }

  predicate OfThread(e: WalThread.Event) {
    e.Receive? || e.CheckRunning? || e.Expire?
  }

  predicate Enabled(cfg: WalThread.Config, m: Machine, e: Move) {
    match e
    case Thread(l, te) => OfThread(te) && WalThread.Enabled(cfg, m.logs.At(l), te)
    case Client =>
      m.todo != [] &&
      match m.todo[0]
      case Put(l, c) => WalThread.Enabled(cfg, m.logs.At(l), WalThread.Send(c))
      case Sync(l) => WalThread.Enabled(cfg, m.logs.At(l), WalThread.SendFlush)
      case Wait(l, mark) => mark in m.logs.At(l).local.acks
  }

  function Advanced(cfg: WalThread.Config, logs: Three<WalThread.State>, l: Log, e: WalThread.Event)
    : Three<WalThread.State>
    requires WalThread.Enabled(cfg, logs.At(l), e)
  {
    logs.With(l, WalThread.Next(cfg, logs.At(l), e))
  }

  function Next(cfg: WalThread.Config, m: Machine, e: Move): Machine
    requires Enabled(cfg, m, e)
  {
    match e
    case Thread(l, te) => m.(logs := Advanced(cfg, m.logs, l, te))
    case Client =>
      match m.todo[0]
      case Put(l, c) => Machine(Advanced(cfg, m.logs, l, WalThread.Send(c)), m.todo[1..])
      case Sync(l) =>
        Machine(Advanced(cfg, m.logs, l, WalThread.SendFlush), [Wait(l, |m.logs.At(l).sent|)] + m.todo[1..])
      case Wait(_, _) => m.(todo := m.todo[1..])
  }

  predicate Allowed(cfg: WalThread.Config, m: Machine, es: seq<Move>)
    decreases |es|
  {
    es == [] || (Enabled(cfg, m, es[0]) && Allowed(cfg, Next(cfg, m, es[0]), es[1..]))
  }

  function Exec(cfg: WalThread.Config, m: Machine, es: seq<Move>): Machine
    requires Allowed(cfg, m, es)
    decreases |es|
  {
    if es == [] then m else Exec(cfg, Next(cfg, m, es[0]), es[1..])
  }

  // ---------------------------------------------------------------- what is still to be sent

  function PutsOf(todo: seq<Action>, l: Log): seq<WalCmd> {
    if todo == [] then []
    else (if todo[0].Put? && todo[0].l == l then [todo[0].c] else []) + PutsOf(todo[1..], l)
  }

  /** The log is still to be flushed. */
  predicate Syncing(todo: seq<Action>, l: Log) {
    todo != [] && ((!todo[0].Put? && todo[0].l == l) || Syncing(todo[1..], l))
  }

  /** Flushing a log comes after everything sent to it; waiting is for all of that. */
  predicate Tidy(todo: seq<Action>, l: Log, total: nat) {
    todo == [] ||
    (&& (!todo[0].Put? && todo[0].l == l ==> PutsOf(todo[1..], l) == [])
     && (todo[0].Wait? && todo[0].l == l ==> todo[0].mark == total)
     && Tidy(todo[1..], l, total))
  }

  /** One log during the commit, `before` having been its state. */
  ghost predicate LogOk(cfg: WalThread.Config, before: WalThread.State, cmds: seq<WalCmd>, m: Machine, l: Log) {
    var s, total := m.logs.At(l), |before.sent| + |cmds|;
    && WalThread.Inv(cfg, s) && s.base == before.base
    && s.sent + PutsOf(m.todo, l) == before.sent + cmds && |before.sent| <= |s.sent|
    && before.local.acks <= s.local.acks
    && Tidy(m.todo, l, total)
    && (Syncing(m.todo, l) || total in s.local.acks)
  }

  lemma {:induction false} PutsOfConcat(a: seq<Action>, b: seq<Action>, l: Log)
    ensures PutsOf(a + b, l) == PutsOf(a, l) + PutsOf(b, l)
  {
    if a == [] {
      assert a + b == b;
    } else {
      assert (a + b)[1..] == a[1..] + b;
      PutsOfConcat(a[1..], b, l);
    }
  }

  lemma {:induction false} PutsOfPuts(l: Log, cs: seq<WalCmd>, x: Log)
    ensures PutsOf(Puts(l, cs), x) == if x == l then cs else []
  {
    if cs != [] {
      PutsOfPuts(l, cs[1..], x);
      assert Puts(l, cs)[1..] == Puts(l, cs[1..]);
    }
  }

  lemma {:induction false} TidyAfterPuts(l: Log, cs: seq<WalCmd>, b: seq<Action>, x: Log, total: nat)
    requires Tidy(b, x, total)
    ensures Tidy(Puts(l, cs) + b, x, total)
    ensures Syncing(b, x) ==> Syncing(Puts(l, cs) + b, x)
  {
    if cs == [] {
      assert Puts(l, cs) + b == b;
    } else {
      assert (Puts(l, cs) + b)[1..] == Puts(l, cs[1..]) + b;
      TidyAfterPuts(l, cs[1..], b, x, total);
    }
  }

  lemma SyncsTidy(x: Log, total: nat)
    ensures var syncs := [Sync(NodeLog), Sync(EdgeLog), Sync(PropLog)];
      PutsOf(syncs, x) == [] && Tidy(syncs, x, total) && Syncing(syncs, x)
  {
    SyncTidy(PropLog, [], x, total);
    SyncTidy(EdgeLog, [Sync(PropLog)], x, total);
    SyncTidy(NodeLog, [Sync(EdgeLog), Sync(PropLog)], x, total);
    assert [Sync(PropLog)] + [] == [Sync(PropLog)];
    assert [Sync(EdgeLog)] + [Sync(PropLog)] == [Sync(EdgeLog), Sync(PropLog)];
    assert [Sync(NodeLog)] + [Sync(EdgeLog), Sync(PropLog)] == [Sync(NodeLog), Sync(EdgeLog), Sync(PropLog)];
  }

  lemma SyncTidy(l: Log, rest: seq<Action>, x: Log, total: nat)
    requires PutsOf(rest, x) == [] && Tidy(rest, x, total)
    ensures var todo := [Sync(l)] + rest;
      PutsOf(todo, x) == [] && Tidy(todo, x, total) && (Syncing(todo, x) <==> x == l || Syncing(rest, x))
  {
    assert ([Sync(l)] + rest)[1..] == rest;
  }

  lemma ProgramOk(cmds: Three<seq<WalCmd>>, x: Log, total: nat)
    ensures PutsOf(Program(cmds), x) == cmds.At(x)
    ensures Tidy(Program(cmds), x, total) && Syncing(Program(cmds), x)
  {
    hide PutsOf, Tidy, Syncing;
    var n, e, p := Puts(NodeLog, cmds.nodes), Puts(EdgeLog, cmds.edges), Puts(PropLog, cmds.props);
    var syncs := [Sync(NodeLog), Sync(EdgeLog), Sync(PropLog)];
    SyncsTidy(x, total);
    TidyAfterPuts(PropLog, cmds.props, syncs, x, total);
    TidyAfterPuts(EdgeLog, cmds.edges, p + syncs, x, total);
    TidyAfterPuts(NodeLog, cmds.nodes, e + (p + syncs), x, total);
    assert Program(cmds) == n + (e + (p + syncs));
    PutsOfConcat(n, e + (p + syncs), x);
    PutsOfConcat(e, p + syncs, x);
    PutsOfConcat(p, syncs, x);
    PutsOfPuts(NodeLog, cmds.nodes, x);
    PutsOfPuts(EdgeLog, cmds.edges, x);
    PutsOfPuts(PropLog, cmds.props, x);
  }

  lemma ThreadStepKeeps(cfg: WalThread.Config, s: WalThread.State, e: WalThread.Event)
    requires WalThread.Inv(cfg, s) && WalThread.Enabled(cfg, s, e) && (OfThread(e) || e.Send? || e.SendFlush?)
    ensures var s' := WalThread.Next(cfg, s, e);
      && WalThread.Inv(cfg, s') && s'.base == s.base && s.local.acks <= s'.local.acks
      && s'.sent == s.sent + if e.Send? then [e.c] else []
  {
    hide WalThread.Inv, Encode;
    WalThread.StepKeepsInv(cfg, s, e);
  }

  lemma StepLogOk(cfg: WalThread.Config, before: WalThread.State, cmds: seq<WalCmd>, m: Machine, e: Move, l: Log)
    requires LogOk(cfg, before, cmds, m, l) && Enabled(cfg, m, e)
    ensures LogOk(cfg, before, cmds, Next(cfg, m, e), l)
  {
    hide WalThread.Inv, WalThread.Enabled, WalThread.Next, PutsOf, Tidy, Syncing;
    if e.Thread? {
      if e.l == l {
        ThreadStepKeeps(cfg, m.logs.At(l), e.e);
      }
    } else {
      TodoAfter(m, l, |before.sent| + |cmds|);
      if m.todo[0].l == l {
        ClientStepLogOk(cfg, before, cmds, m, l);
      }
    }
  }

  /** What a step of the client leaves to be done. */
  lemma TodoAfter(m: Machine, l: Log, total: nat)
    requires m.todo != [] && Tidy(m.todo, l, total)
    ensures var a, rest := m.todo[0], m.todo[1..];
      && PutsOf(m.todo, l) == (if a.Put? && a.l == l then [a.c] else []) + PutsOf(rest, l)
      && Tidy(rest, l, total) && (Syncing(m.todo, l) <==> (!a.Put? && a.l == l) || Syncing(rest, l))
      && (!a.Put? && a.l == l ==> PutsOf(rest, l) == [])
      && (a.Wait? && a.l == l ==> a.mark == total)
      && forall b: Action :: b.Wait? && b.l == a.l && a.Sync? && (b.l == l ==> b.mark == total) ==>
           && PutsOf([b] + rest, l) == PutsOf(rest, l) && Tidy([b] + rest, l, total)
           && (Syncing([b] + rest, l) <==> b.l == l || Syncing(rest, l))
  {
    forall b: Action
      ensures ([b] + m.todo[1..])[1..] == m.todo[1..]
    {
    }
  }

  lemma ClientStepLogOk(cfg: WalThread.Config, before: WalThread.State, cmds: seq<WalCmd>, m: Machine, l: Log)
    requires LogOk(cfg, before, cmds, m, l) && Enabled(cfg, m, Client) && m.todo[0].l == l
    ensures LogOk(cfg, before, cmds, Next(cfg, m, Client), l)
  {
    hide WalThread.Inv, WalThread.Enabled, WalThread.Next, PutsOf, Tidy, Syncing;
    var s, a := m.logs.At(l), m.todo[0];
    TodoAfter(m, l, |before.sent| + |cmds|);
    match a
    case Put(_, c) =>
      ThreadStepKeeps(cfg, s, WalThread.Send(c));
      assert s.sent + ([c] + PutsOf(m.todo[1..], l)) == (s.sent + [c]) + PutsOf(m.todo[1..], l);
    case Sync(_) =>
      ThreadStepKeeps(cfg, s, WalThread.SendFlush);
      assert s.sent + [] == s.sent;
    case Wait(_, _) =>
  }

  lemma {:induction false} RunLogOk(cfg: WalThread.Config, before: WalThread.State, cmds: seq<WalCmd>, m: Machine,
                                    es: seq<Move>, l: Log)
    requires LogOk(cfg, before, cmds, m, l) && Allowed(cfg, m, es)
    ensures LogOk(cfg, before, cmds, Exec(cfg, m, es), l)
    decreases |es|
  {
    hide LogOk, Enabled, Next;
    if es != [] {
      StepLogOk(cfg, before, cmds, m, es[0], l);
      RunLogOk(cfg, before, cmds, Next(cfg, m, es[0]), es[1..], l);
    }
  }

  // ---------------------------------------------------------------- the crash

  /** The state of the three logs when commit begins: whole files, everything so far flushed. */
  ghost predicate Ready(cfg: WalThread.Config, s: WalThread.State) {
    WalThread.Inv(cfg, s) && Whole(s.base) && (s.sent == [] || |s.sent| in s.local.acks)
  }

  /** A crash inside a step `e` of a log's thread, with `length` bytes of its file there. */
  ghost predicate Cut(cfg: WalThread.Config, s: WalThread.State, e: WalThread.Event, length: nat) {
    && OfThread(e) && WalThread.Enabled(cfg, s, e)
    && |s.local.disk| <= length <= |WalThread.Next(cfg, s, e).local.disk|
  }

  /** What one log replays after the crash: `k` of its commands, everything from before the commit
      among them, as many as the length of the file allows, and all of them once its flush was
      answered. */
  ghost predicate Recovers(cfg: WalThread.Config, before: WalThread.State, cmds: seq<WalCmd>, m: Machine, l: Log,
                           e: WalThread.Event, length: nat, k: nat)
    requires WalThread.Enabled(cfg, m.logs.At(l), e)
  {
    var all := before.sent + cmds;
    var file := WalThread.Next(cfg, m.logs.At(l), e).local.disk;
    && length <= |file| && |before.sent| <= k <= |all|
    && ParseFile(file[..length]).records == ParseFile(before.base).records + ToRecords(all[..k])
    && (forall n :: 0 < n <= |all| ==> (n <= k <==> |WalThread.LogOf(before.base, all, n)| <= length))
    && (!Syncing(m.todo, l) ==> k == |all|)
  }

  lemma LogRecovers(cfg: WalThread.Config, before: WalThread.State, cmds: seq<WalCmd>, m: Machine, l: Log,
                    e: WalThread.Event, length: nat) returns (k: nat)
    requires LogOk(cfg, before, cmds, m, l) && Ready(cfg, before) && AllFit(before.sent + cmds)
    requires Cut(cfg, m.logs.At(l), e, length)
    ensures Recovers(cfg, before, cmds, m, l, e, length, k)
  {
    hide WalThread.Inv, WalThread.Enabled, WalThread.Next, PutsOf, Tidy, Syncing, ParseFile, Whole, AllFit, Encode;
    var s, all := m.logs.At(l), before.sent + cmds;
    ThreadStepKeeps(cfg, s, e);
    var s' := WalThread.Next(cfg, s, e);
    assert s'.sent == s.sent && s.sent == all[..|s.sent|];
    WalThread.TakeFits(all, |s.sent|);
    k := WalThread.CrashInStep(cfg, s, e, length);
    assert s.sent[..k] == all[..k];
    assert k < |s.sent| ==> s.sent[..k + 1] == all[..k + 1] && length < |WalThread.LogOf(s'.base, s'.sent, k + 1)|;
    DiskBound(cfg, s');
    assert WalThread.LogOf(before.base, all, |s.sent|) == before.base + EncodeAll(s.sent);
    WalThread.DeliveredIff(before.base, all, |s.sent|, k, length);
  }

  lemma DiskBound(cfg: WalThread.Config, s: WalThread.State)
    requires WalThread.Inv(cfg, s)
    ensures |s.local.disk| <= |s.base + EncodeAll(s.sent)|
  {
    hide EncodeAll;
    WalThread.LogLength(s.base, s.sent, s.local.taken, |s.sent|);
    assert s.sent[..|s.sent|] == s.sent;
  }

  /** A crash at any moment of a commit, in the middle of any of the three threads' writes: each log
      recovers its own prefix of its part of the commit. Together they are the state before the commit
      exactly when no file reaches the end of its first record, and the state after it exactly when
      all three reach the end of their last. Once all flushes are answered they are the state after. */
  lemma CrashDuringCommit(cfg: WalThread.Config, before: Three<WalThread.State>, cmds: Three<seq<WalCmd>>,
                          run: seq<Move>, e: Three<WalThread.Event>, length: Three<nat>) returns (k: Three<nat>)
    requires Allowed(cfg, Machine(before, Program(cmds)), run)
    requires var m := Exec(cfg, Machine(before, Program(cmds)), run);
      forall l ::
        && Ready(cfg, before.At(l)) && AllFit(before.At(l).sent + cmds.At(l))
        && Cut(cfg, m.logs.At(l), e.At(l), length.At(l))
    ensures var m := Exec(cfg, Machine(before, Program(cmds)), run);
      forall l :: Recovers(cfg, before.At(l), cmds.At(l), m, l, e.At(l), length.At(l), k.At(l))
    ensures forall l :: Counted(before.At(l), cmds.At(l), length.At(l), k.At(l))
    ensures (forall l :: k.At(l) == |before.At(l).sent|) <==>
            forall l :: cmds.At(l) == [] || length.At(l) < EndOf(before.At(l), cmds.At(l), 1)
    ensures (forall l :: k.At(l) == |before.At(l).sent| + |cmds.At(l)|) <==>
            forall l :: length.At(l) >= EndOf(before.At(l), cmds.At(l), |cmds.At(l)|)
    ensures Exec(cfg, Machine(before, Program(cmds)), run).todo == [] ==>
            forall l :: k.At(l) == |before.At(l).sent| + |cmds.At(l)|
  {
    hide Exec, Allowed, Program, Ready, AllFit, Recovers, LogOk, EndOf, WalThread.Next, WalThread.Enabled;
    var start := Machine(before, Program(cmds));
    var m := Exec(cfg, start, run);
    forall l ensures LogOk(cfg, before.At(l), cmds.At(l), m, l) {
      StartLogOk(cfg, before, cmds, l);
      RunLogOk(cfg, before.At(l), cmds.At(l), start, run, l);
    }
    var n := LogRecovers(cfg, before.At(NodeLog), cmds.At(NodeLog), m, NodeLog, e.At(NodeLog), length.At(NodeLog));
    var x := LogRecovers(cfg, before.At(EdgeLog), cmds.At(EdgeLog), m, EdgeLog, e.At(EdgeLog), length.At(EdgeLog));
    var p := LogRecovers(cfg, before.At(PropLog), cmds.At(PropLog), m, PropLog, e.At(PropLog), length.At(PropLog));
    k := Three(n, x, p);
    forall l
      ensures Cut(cfg, m.logs.At(l), e.At(l), length.At(l))
      ensures Recovers(cfg, before.At(l), cmds.At(l), m, l, e.At(l), length.At(l), k.At(l))
      ensures Counted(before.At(l), cmds.At(l), length.At(l), k.At(l))
      ensures m.todo == [] ==> k.At(l) == |before.At(l).sent| + |cmds.At(l)|
    {
      assert l.NodeLog? || l.EdgeLog? || l.PropLog?;
      EndReached(cfg, before.At(l), cmds.At(l), m, l, e.At(l), length.At(l), k.At(l));
    }
  }

  /** Where in the file the commit's `n`-th record for a log ends. */
  function EndOf(before: WalThread.State, cmds: seq<WalCmd>, n: nat): nat {
    if n <= |cmds| then |WalThread.LogOf(before.base, before.sent + cmds, |before.sent| + n)| else 0
  }

  /** None, or all, of the commit's records for a log are recovered, read off the file's length. */
  predicate Counted(before: WalThread.State, cmds: seq<WalCmd>, length: nat, k: nat) {
    && (k == |before.sent| <==> cmds == [] || length < EndOf(before, cmds, 1))
    && (k == |before.sent| + |cmds| <==> length >= EndOf(before, cmds, |cmds|))
  }

  lemma StartLogOk(cfg: WalThread.Config, before: Three<WalThread.State>, cmds: Three<seq<WalCmd>>, l: Log)
    requires Ready(cfg, before.At(l))
    ensures LogOk(cfg, before.At(l), cmds.At(l), Machine(before, Program(cmds)), l)
  {
    hide WalThread.Inv, Program, PutsOf, Tidy, Syncing, Whole;
    ProgramOk(cmds, l, |before.At(l).sent| + |cmds.At(l)|);
  }

  lemma EndReached(cfg: WalThread.Config, before: WalThread.State, cmds: seq<WalCmd>, m: Machine, l: Log,
                   e: WalThread.Event, length: nat, k: nat)
    requires Ready(cfg, before) && Cut(cfg, m.logs.At(l), e, length) && LogOk(cfg, before, cmds, m, l)
    requires Recovers(cfg, before, cmds, m, l, e, length, k)
    ensures Counted(before, cmds, length, k)
    ensures m.todo == [] ==> k == |before.sent| + |cmds|
  {
    hide WalThread.Inv, WalThread.Enabled, WalThread.Next, ParseFile, Whole, Encode, PutsOf, Tidy, WalThread.LogOf;
    if cmds == [] {
      EmptyCommit(cfg, before, m.logs.At(l), length);
      assert before.sent + cmds == before.sent;
    }
  }

  lemma EmptyCommit(cfg: WalThread.Config, before: WalThread.State, s: WalThread.State, length: nat)
    requires Ready(cfg, before) && WalThread.Inv(cfg, s) && s.base == before.base && s.sent == before.sent
    requires before.local.acks <= s.local.acks && |s.local.disk| <= length
    ensures |WalThread.LogOf(before.base, before.sent, |before.sent|)| <= length
  {
    hide EncodeAll, Whole;
    if before.sent == [] {
      assert before.sent[..0] == [];
      assert EncodeAll([]) == [] by { NothingEncoded(); }
    }
  }

  lemma NothingEncoded()
    ensures EncodeAll([]) == []
  {
  }

  // ---------------------------------------------------------------- what the stores come back with

  /** Replaying the commit's part of a node log after the rest gives the nodes after the commit. */
  lemma {:induction false} NodesReplayed(found: seq<Record>, s: Sides, ws: seq<Write>, t: TxId)
    requires Recovery.Recovered(NODE_DECODER, found, s.nodeLog) == s.nodes
    ensures var s' := AfterAll(s, ws, t);
      s.nodeLog <= s'.nodeLog && Recovery.Recovered(NODE_DECODER, found, s'.nodeLog) == s'.nodes
  {
    hide PutNode, Recovery.Recovered, NodesAfter, EdgesAfter, EdgeCmd;
    if ws != [] {
      var before, w := AfterAll(s, ws[..|ws| - 1], t), ws[|ws| - 1];
      NodesReplayed(found, s, ws[..|ws| - 1], t);
      assert before.nodeLog + [] == before.nodeLog;
      Nodes.RecoveredPut(found, before.nodeLog, w.id, NodeStored(before.nodes, w, t));
      NodeWritten(before.nodes, w, t);
    }
  }

  function NodeStored(nodes: map<NodeId, Node>, w: Write, t: TxId): Node {
    var after := NodesAfter(nodes, w, t);
    if w.id in after then after[w.id] else Node.New(w.id, [], 0, t)
  }

  lemma NodeWritten(nodes: map<NodeId, Node>, w: Write, t: TxId)
    ensures if NodeCmd(nodes, w, t) == [] then NodesAfter(nodes, w, t) == nodes
            else NodesAfter(nodes, w, t) == nodes[w.id := NodeStored(nodes, w, t)]
                 && NodeCmd(nodes, w, t) == [PutNode(w.id, NodeStored(nodes, w, t))]
  {
    hide PutNode;
  }

  lemma {:induction false} EdgesReplayed(found: seq<Record>, s: Sides, ws: seq<Write>, t: TxId)
    requires Recovery.Recovered(EDGE_DECODER, found, s.edgeLog) == s.edges
    ensures var s' := AfterAll(s, ws, t);
      s.edgeLog <= s'.edgeLog && Recovery.Recovered(EDGE_DECODER, found, s'.edgeLog) == s'.edges
  {
    hide PutEdge, Recovery.Recovered, NodesAfter, EdgesAfter, NodeCmd;
    if ws != [] {
      var before, w := AfterAll(s, ws[..|ws| - 1], t), ws[|ws| - 1];
      EdgesReplayed(found, s, ws[..|ws| - 1], t);
      assert before.edgeLog + [] == before.edgeLog;
      Edges.RecoveredPut(found, before.edgeLog, w.id, EdgeStored(before.edges, w, t));
      EdgeWritten(before.edges, w, t);
    }
  }

  function EdgeStored(edges: map<EdgeId, Edge>, w: Write, t: TxId): Edge {
    var after := EdgesAfter(edges, w, t);
    if w.id in after then after[w.id] else Edge.New(w.id, 0, 0, 0, 0, t)
  }

  lemma EdgeWritten(edges: map<EdgeId, Edge>, w: Write, t: TxId)
    ensures if EdgeCmd(edges, w, t) == [] then EdgesAfter(edges, w, t) == edges
            else EdgesAfter(edges, w, t) == edges[w.id := EdgeStored(edges, w, t)]
                 && EdgeCmd(edges, w, t) == [PutEdge(w.id, EdgeStored(edges, w, t))]
  {
    hide PutEdge;
  }

  lemma {:induction false} CellsReplayed(found: seq<Record>, log: seq<WalCmd>, cells: seq<CellWrite>)
    requires forall w <- cells :: |w.prop| <= 255
    ensures Props.Recovered(found, log + CellCmds(cells)) == WrittenAll(Props.Recovered(found, log), cells)
  {
    hide PutCell, Props.Recovered, Written;
    if cells == [] {
      assert log + CellCmds(cells) == log;
    } else {
      var n := |cells| - 1;
      CellsReplayed(found, log, cells[..n]);
      Props.RecoveredPut(found, log + CellCmds(cells[..n]), cells[n]);
      assert log + CellCmds(cells) == log + CellCmds(cells[..n]) + [PutCell(cells[n])];
    }
  }

  /** Every record of a node log's part of the commit is that of one write: any prefix of it is what
      some prefix of the plan logs. */
  lemma {:induction false} NodePrefix(s: Sides, ws: seq<Write>, t: TxId, k: nat) returns (i: nat)
    requires |s.nodeLog| <= k <= |AfterAll(s, ws, t).nodeLog| && s.nodeLog <= AfterAll(s, ws, t).nodeLog
    ensures i <= |ws| && AfterAll(s, ws[..i], t).nodeLog == AfterAll(s, ws, t).nodeLog[..k]
    ensures k == |AfterAll(s, ws, t).nodeLog| ==> i == |ws|
  {
    hide PutNode, NodesAfter, EdgesAfter, EdgeCmd;
    if k == |AfterAll(s, ws, t).nodeLog| {
      i := |ws|;
      assert ws[..i] == ws;
    } else {
      var n := |ws| - 1;
      NodeLogGrows(s, ws[..n], t);
      i := NodePrefix(s, ws[..n], t, k);
      assert ws[..n][..i] == ws[..i];
    }
  }

  lemma {:induction false} NodeLogGrows(s: Sides, ws: seq<Write>, t: TxId)
    ensures s.nodeLog <= AfterAll(s, ws, t).nodeLog
  {
    hide PutNode, NodesAfter, EdgesAfter, EdgeCmd, NodeCmd;
    if ws != [] {
      NodeLogGrows(s, ws[..|ws| - 1], t);
    }
  }

  lemma {:induction false} EdgePrefix(s: Sides, ws: seq<Write>, t: TxId, k: nat) returns (i: nat)
    requires |s.edgeLog| <= k <= |AfterAll(s, ws, t).edgeLog| && s.edgeLog <= AfterAll(s, ws, t).edgeLog
    ensures i <= |ws| && AfterAll(s, ws[..i], t).edgeLog == AfterAll(s, ws, t).edgeLog[..k]
    ensures k == |AfterAll(s, ws, t).edgeLog| ==> i == |ws|
  {
    hide PutEdge, NodesAfter, EdgesAfter, NodeCmd;
    if k == |AfterAll(s, ws, t).edgeLog| {
      i := |ws|;
      assert ws[..i] == ws;
    } else {
      var n := |ws| - 1;
      EdgeLogGrows(s, ws[..n], t);
      i := EdgePrefix(s, ws[..n], t, k);
      assert ws[..n][..i] == ws[..i];
    }
  }

  lemma {:induction false} EdgeLogGrows(s: Sides, ws: seq<Write>, t: TxId)
    ensures s.edgeLog <= AfterAll(s, ws, t).edgeLog
  {
    hide PutEdge, NodesAfter, EdgesAfter, EdgeCmd, NodeCmd;
    if ws != [] {
      EdgeLogGrows(s, ws[..|ws| - 1], t);
    }
  }

  /** A ticket no record is stamped with yet. */
  ghost predicate Unused(s: Sides, t: TxId) {
    && (forall id <- s.nodes :: s.nodes[id].createdTx != t && s.nodes[id].deletedTx != t)
    && (forall id <- s.edges :: s.edges[id].createdTx != t && s.edges[id].deletedTx != t)
  }

  /** Logging anything at a new ticket leaves its stamp on some record. */
  lemma {:induction false} LoggedIsStamped(s: Sides, ws: seq<Write>, t: TxId)
    requires Unused(s, t)
    ensures var s' := AfterAll(s, ws, t);
      && (s'.nodeLog != s.nodeLog ==>
          exists id :: id in s'.nodes && (s'.nodes[id].createdTx == t || s'.nodes[id].deletedTx == t))
      && (s'.edgeLog != s.edgeLog ==>
          exists id :: id in s'.edges && (s'.edges[id].createdTx == t || s'.edges[id].deletedTx == t))
      && (s'.nodeLog == s.nodeLog ==> s'.nodes == s.nodes)
      && (s'.edgeLog == s.edgeLog ==> s'.edges == s.edges)
  {
    hide PutNode, PutEdge;
    if ws != [] {
      var before, w := AfterAll(s, ws[..|ws| - 1], t), ws[|ws| - 1];
      LoggedIsStamped(s, ws[..|ws| - 1], t);
      NodeLogGrows(s, ws[..|ws| - 1], t);
      EdgeLogGrows(s, ws[..|ws| - 1], t);
      NodeWritten(before.nodes, w, t);
      EdgeWritten(before.edges, w, t);
    }
  }

  function Rest<T>(a: seq<T>, b: seq<T>): (r: seq<T>)
    requires a <= b
    ensures a + r == b
  {
    b[|a|..]
  }

  /** What the commit of a plan and of cell writes sends to each log. */
  function CommitCmds(s: Sides, ws: seq<Write>, t: TxId, cells: seq<CellWrite>): (r: Three<seq<WalCmd>>)
    ensures s.nodeLog + r.nodes == AfterAll(s, ws, t).nodeLog
    ensures s.edgeLog + r.edges == AfterAll(s, ws, t).edgeLog
  {
    NodeLogGrows(s, ws, t);
    EdgeLogGrows(s, ws, t);
    var s' := AfterAll(s, ws, t);
    Three(Rest(s.nodeLog, s'.nodeLog), Rest(s.edgeLog, s'.edgeLog), CellCmds(cells))
  }

  /** The three stores hold what their logs replay. */
  ghost predicate Holds(logs: Three<WalThread.State>, s: Sides, cols: Columns) {
    && logs.nodes.sent == s.nodeLog && logs.edges.sent == s.edgeLog
    && Recovery.Recovered(NODE_DECODER, ParseFile(logs.nodes.base).records, s.nodeLog) == s.nodes
    && Recovery.Recovered(EDGE_DECODER, ParseFile(logs.edges.base).records, s.edgeLog) == s.edges
    && Props.Recovered(ParseFile(logs.props.base).records, logs.props.sent) == cols
  }

  lemma NodesRecover(found: seq<Record>, s: Sides, ws: seq<Write>, t: TxId, rs: seq<Record>, k: nat) returns (i: nat)
    requires Recovery.Recovered(NODE_DECODER, found, s.nodeLog) == s.nodes
    requires |s.nodeLog| <= k <= |AfterAll(s, ws, t).nodeLog|
    requires rs == found + ToRecords(AfterAll(s, ws, t).nodeLog[..k])
    ensures i <= |ws| && Recovery.Rebuild(NODE_DECODER, rs).recs == AfterAll(s, ws[..i], t).nodes
    ensures k == |AfterAll(s, ws, t).nodeLog| ==> i == |ws|
    ensures Unused(s, t) ==> (Recovery.Rebuild(NODE_DECODER, rs).recs == s.nodes <==> k == |s.nodeLog|)
  {
    hide AfterAll, Recovery.Rebuild, NODE_DECODER;
    NodeLogGrows(s, ws, t);
    i := NodePrefix(s, ws, t, k);
    NodesReplayed(found, s, ws[..i], t);
    if Unused(s, t) {
      LoggedIsStamped(s, ws[..i], t);
    }
  }

  lemma EdgesRecover(found: seq<Record>, s: Sides, ws: seq<Write>, t: TxId, rs: seq<Record>, k: nat) returns (i: nat)
    requires Recovery.Recovered(EDGE_DECODER, found, s.edgeLog) == s.edges
    requires |s.edgeLog| <= k <= |AfterAll(s, ws, t).edgeLog|
    requires rs == found + ToRecords(AfterAll(s, ws, t).edgeLog[..k])
    ensures i <= |ws| && Recovery.Rebuild(EDGE_DECODER, rs).recs == AfterAll(s, ws[..i], t).edges
    ensures k == |AfterAll(s, ws, t).edgeLog| ==> i == |ws|
    ensures Unused(s, t) ==> (Recovery.Rebuild(EDGE_DECODER, rs).recs == s.edges <==> k == |s.edgeLog|)
  {
    hide AfterAll, Recovery.Rebuild, EDGE_DECODER;
    EdgeLogGrows(s, ws, t);
    i := EdgePrefix(s, ws, t, k);
    EdgesReplayed(found, s, ws[..i], t);
    if Unused(s, t) {
      LoggedIsStamped(s, ws[..i], t);
    }
  }

  lemma ColumnsRecover(found: seq<Record>, log: seq<WalCmd>, cells: seq<CellWrite>, rs: seq<Record>, k: nat)
    returns (i: nat)
    requires (forall w <- cells :: |w.prop| <= 255) && |log| <= k <= |log| + |cells|
    requires rs == found + ToRecords((log + CellCmds(cells))[..k])
    ensures i == k - |log| <= |cells| && Props.Rebuild(rs).cols == WrittenAll(Props.Recovered(found, log), cells[..i])
  {
    hide Props.Rebuild, PutCell, WrittenAll;
    i := k - |log|;
    assert (log + CellCmds(cells))[..k] == log + CellCmds(cells[..i]);
    CellsReplayed(found, log, cells[..i]);
  }

  /** The records a crash leaves in one log's file. */
  function RecordsOf(cfg: WalThread.Config, m: Machine, l: Log, e: WalThread.Event, length: nat): seq<Record>
    requires WalThread.Enabled(cfg, m.logs.At(l), e)
  {
    var disk := WalThread.Next(cfg, m.logs.At(l), e).local.disk;
    ParseFile(if length <= |disk| then disk[..length] else disk).records
  }

  lemma RecordsAre(cfg: WalThread.Config, before: WalThread.State, cmds: seq<WalCmd>, m: Machine, l: Log,
                   e: WalThread.Event, length: nat, k: nat)
    requires Cut(cfg, m.logs.At(l), e, length) && Recovers(cfg, before, cmds, m, l, e, length, k)
    ensures |before.sent| <= k <= |before.sent + cmds|
    ensures RecordsOf(cfg, m, l, e, length) == ParseFile(before.base).records + ToRecords((before.sent + cmds)[..k])
  {
    hide WalThread.Next, WalThread.Enabled, ParseFile, WalThread.LogOf;
  }

  /** After a crash at any moment of a commit each store comes back as some prefix of the plan left it:
      the node store, the edge store and the columns each their own. At a ticket no record is stamped
      with, the nodes come back as they were before exactly when their file does not reach the end of
      its first record, the edges likewise; all is as after the commit when all files reach the end of
      their last, and so whenever commit had returned. In between, the commit is not atomic. */
  lemma CommitRecovers(cfg: WalThread.Config, before: Three<WalThread.State>, s: Sides, cols: Columns,
                       ws: seq<Write>, t: TxId, cells: seq<CellWrite>,
                       run: seq<Move>, e: Three<WalThread.Event>, length: Three<nat>) returns (i: Three<nat>)
    requires Holds(before, s, cols) && forall w <- cells :: |w.prop| <= 255
    requires var cmds := CommitCmds(s, ws, t, cells);
      Allowed(cfg, Machine(before, Program(cmds)), run) &&
      var m := Exec(cfg, Machine(before, Program(cmds)), run);
      forall l ::
        && Ready(cfg, before.At(l)) && AllFit(before.At(l).sent + cmds.At(l))
        && Cut(cfg, m.logs.At(l), e.At(l), length.At(l))
    ensures i.nodes <= |ws| && i.edges <= |ws| && i.props <= |cells|
    ensures var cmds := CommitCmds(s, ws, t, cells);
      var m := Exec(cfg, Machine(before, Program(cmds)), run);
      var nodes := Recovery.Rebuild(NODE_DECODER, RecordsOf(cfg, m, NodeLog, e.At(NodeLog), length.At(NodeLog))).recs;
      var edges := Recovery.Rebuild(EDGE_DECODER, RecordsOf(cfg, m, EdgeLog, e.At(EdgeLog), length.At(EdgeLog))).recs;
      var columns := Props.Rebuild(RecordsOf(cfg, m, PropLog, e.At(PropLog), length.At(PropLog))).cols;
      && nodes == AfterAll(s, ws[..i.nodes], t).nodes && edges == AfterAll(s, ws[..i.edges], t).edges
      && columns == WrittenAll(cols, cells[..i.props])
      && (Unused(s, t) ==>
          && (nodes == s.nodes <==> cmds.nodes == [] || length.nodes < EndOf(before.nodes, cmds.nodes, 1))
          && (edges == s.edges <==> cmds.edges == [] || length.edges < EndOf(before.edges, cmds.edges, 1)))
      && ((forall l :: length.At(l) >= EndOf(before.At(l), cmds.At(l), |cmds.At(l)|)) || m.todo == [] ==>
          i == Three(|ws|, |ws|, |cells|))
  {
    hide Exec, Allowed, Program, Ready, AllFit, EndOf, WalThread.Next, WalThread.Enabled, ParseFile, Recovers;
    hide AfterAll, Recovery.Rebuild, Recovery.Recovered, Props.Rebuild, Props.Recovered, WrittenAll, Unused, RecordsOf;
    var cmds := CommitCmds(s, ws, t, cells);
    var m := Exec(cfg, Machine(before, Program(cmds)), run);
    var k := CrashDuringCommit(cfg, before, cmds, run, e, length);
    RecordsAre(cfg, before.At(NodeLog), cmds.At(NodeLog), m, NodeLog, e.At(NodeLog), length.At(NodeLog), k.At(NodeLog));
    RecordsAre(cfg, before.At(EdgeLog), cmds.At(EdgeLog), m, EdgeLog, e.At(EdgeLog), length.At(EdgeLog), k.At(EdgeLog));
    RecordsAre(cfg, before.At(PropLog), cmds.At(PropLog), m, PropLog, e.At(PropLog), length.At(PropLog), k.At(PropLog));
    var n := NodesRecover(ParseFile(before.nodes.base).records, s, ws, t,
      RecordsOf(cfg, m, NodeLog, e.At(NodeLog), length.At(NodeLog)), k.nodes);
    var x := EdgesRecover(ParseFile(before.edges.base).records, s, ws, t,
      RecordsOf(cfg, m, EdgeLog, e.At(EdgeLog), length.At(EdgeLog)), k.edges);
    assert cmds.props == CellCmds(cells);
    var p := ColumnsRecover(ParseFile(before.props.base).records, before.props.sent, cells,
      RecordsOf(cfg, m, PropLog, e.At(PropLog), length.At(PropLog)), k.props);
    i := Three(n, x, p);
    assert Counted(before.At(NodeLog), cmds.At(NodeLog), length.At(NodeLog), k.At(NodeLog));
    assert Counted(before.At(EdgeLog), cmds.At(EdgeLog), length.At(EdgeLog), k.At(EdgeLog));
    assert Counted(before.At(PropLog), cmds.At(PropLog), length.At(PropLog), k.At(PropLog));
  }

  // ---------------------------------------------------------------- a torn commit

  lemma RunCons(cfg: WalThread.Config, m: Machine, e: Move, es: seq<Move>)
    requires Enabled(cfg, m, e) && Allowed(cfg, Next(cfg, m, e), es)
    ensures Allowed(cfg, m, [e] + es) && Exec(cfg, m, [e] + es) == Exec(cfg, Next(cfg, m, e), es)
  {
    assert ([e] + es)[1..] == es;
  }

  /** Three new log files. */
  const NEW: Three<WalThread.State> :=
    Three(WalThread.Init([]), WalThread.Init([]), WalThread.Init([]))

  /** The client has sent a node and an edge; then one log's thread receives its record and writes. */
  function TornRun(l: Log): seq<Move> {
    [Client, Client, Thread(l, WalThread.Receive), Thread(l, WalThread.CheckRunning(true))]
  }

  lemma SentBoth(cfg: WalThread.Config, n: WalCmd, x: WalCmd)
    requires cfg.cap > 0
    ensures var m := Machine(NEW, Program(Three([n], [x], [])));
      && Enabled(cfg, m, Client) && Enabled(cfg, Next(cfg, m, Client), Client)
      && var m2 := Next(cfg, Next(cfg, m, Client), Client);
         && m2.logs.nodes == WalThread.Next(cfg, WalThread.Init([]), WalThread.Send(n))
         && m2.logs.edges == WalThread.Next(cfg, WalThread.Init([]), WalThread.Send(x))
  {
    var m := Machine(NEW, Program(Three([n], [x], [])));
    assert Puts(NodeLog, [n]) == [Put(NodeLog, n)] && Puts(EdgeLog, [x]) == [Put(EdgeLog, x)] by {
      assert [n][1..] == [] && [x][1..] == [];
    }
    var syncs := [Sync(NodeLog), Sync(EdgeLog), Sync(PropLog)];
    assert Program(Three([n], [x], [])) == [Put(NodeLog, n), Put(EdgeLog, x)] + syncs;
    var m1 := Next(cfg, m, Client);
    assert m1.todo == [Put(EdgeLog, x)] + syncs;
  }

  lemma WritesOne(cfg: WalThread.Config, c: WalCmd)
    requires cfg.cap > 0
    ensures var s1 := WalThread.Next(cfg, WalThread.Init([]), WalThread.Send(c));
      && WalThread.Enabled(cfg, s1, WalThread.Receive)
      && var s2 := WalThread.Next(cfg, s1, WalThread.Receive);
         && WalThread.Enabled(cfg, s2, WalThread.CheckRunning(true))
         && var s3 := WalThread.Next(cfg, s2, WalThread.CheckRunning(true));
            s1.local.disk == MAGIC && s3.local.disk == MAGIC + Encode(c)
  {
    hide Encode;
    var s1 := WalThread.Next(cfg, WalThread.Init([]), WalThread.Send(c));
    assert s1.chan == [WalThread.Cmd(c)];
    assert [] + Encode(c) == Encode(c);
  }

  /** A commit of one node and one edge, crashed before its flushes: either log alone may have been
      written. The edge can be there without its node, and the node without its edge. */
  lemma CommitIsNotAtomic(cfg: WalThread.Config, n: WalCmd, x: WalCmd, l: Log)
    requires cfg.cap > 0 && Fits(n) && Fits(x) && !l.PropLog?
    ensures Allowed(cfg, Machine(NEW, Program(Three([n], [x], []))), TornRun(l))
    ensures var m := Exec(cfg, Machine(NEW, Program(Three([n], [x], []))), TornRun(l));
      && ParseFile(m.logs.nodes.local.disk).records == (if l.NodeLog? then [ToRecord(n)] else [])
      && ParseFile(m.logs.edges.local.disk).records == (if l.EdgeLog? then [ToRecord(x)] else [])
  {
    hide WalThread.Next, WalThread.Enabled, Encode, ParseFile, Program;
    var m := Machine(NEW, Program(Three([n], [x], [])));
    SentBoth(cfg, n, x);
    WritesOne(cfg, n);
    WritesOne(cfg, x);
    var m1 := Next(cfg, m, Client);
    var m2 := Next(cfg, m1, Client);
    var m3 := Next(cfg, m2, Thread(l, WalThread.Receive));
    var m4 := Next(cfg, m3, Thread(l, WalThread.CheckRunning(true)));
    OneReplays(n);
    OneReplays(x);
    MagicWhole();
    assert m4.logs.nodes.local.disk == (if l.NodeLog? then MAGIC + Encode(n) else MAGIC);
    assert m4.logs.edges.local.disk == (if l.EdgeLog? then MAGIC + Encode(x) else MAGIC);
    hide Next, Enabled;
    RunCons(cfg, m3, Thread(l, WalThread.CheckRunning(true)), []);
    RunCons(cfg, m2, Thread(l, WalThread.Receive), [Thread(l, WalThread.CheckRunning(true))]);
    RunCons(cfg, m1, Client, [Thread(l, WalThread.Receive), Thread(l, WalThread.CheckRunning(true))]);
    RunCons(cfg, m, Client, [Client, Thread(l, WalThread.Receive), Thread(l, WalThread.CheckRunning(true))]);
  }

  lemma OneReplays(c: WalCmd)
    requires Fits(c)
    ensures ParseFile(MAGIC + Encode(c)).records == [ToRecord(c)]
  {
    hide Encode, ParseFile;
    MagicWhole();
    assert [c][1..] == [] && EncodeAll([c]) == Encode(c) + [];
    AppendedReplaysIff(MAGIC, [c]);
    assert MAGIC + EncodeAll([c]) == MAGIC + Encode(c);
    assert ParseFile(MAGIC).records + ToRecords([c]) == [ToRecord(c)];
  }
}
