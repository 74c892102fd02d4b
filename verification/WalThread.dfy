/**
 The write-ahead-log thread: a single consumer of a bounded FIFO channel.

 Shared accesses of different threads interleave freely; a step of `State` is one such
 access. Receiving a message and then loading the `running` flag are two steps, so the flag
 may be cleared in between. Timeouts (of the receive and of the sync interval) are choices of
 the environment. Writing and fsyncing the buffer is one successful step.
 */
module WalThread {
  import opened Types
  import opened WalFormat

  datatype Durability = Immediate | Batch(intervalMs: u64, bytes: u64)
  {
    function BatchBytes(): u64 {
      match this
      case Immediate => 1
      case Batch(_, bytes) => bytes
    }
  }

  /** A flush request is known by the number of commands enqueued before it. */
  datatype Msg = Cmd(c: WalCmd) | Flush(mark: nat) | Shutdown

  /** What the thread owns. `taken` counts the commands encoded so far. */
  datatype Local = Local(buffer: seq<byte>, disk: seq<byte>, acks: set<nat>, taken: nat, stopped: bool)

  /** Outcome of one `recv_timeout`, with the value of `running` loaded after it. */
  datatype Received = Got(m: Msg, running: bool) | TimedOut(running: bool)

  function FlushAndSync(l: Local): Local {
    if l.buffer == [] then l else l.(disk := l.disk + l.buffer, buffer := [])
  }

  function SyncIfDue(l: Local, batch: nat, timedOut: bool): Local {
    if (|l.buffer| >= batch || timedOut) && l.buffer != [] then FlushAndSync(l) else l
  }

  /** One iteration of the loop. */
  function Iterate(l: Local, r: Received, batch: nat, timedOut: bool): Local {
    match r
    case Got(m, false) => FlushAndSync(l).(stopped := true)
    case Got(Cmd(c), true) =>
      SyncIfDue(l.(buffer := l.buffer + Encode(c), taken := l.taken + 1), batch, timedOut)
    case Got(Flush(mark), true) => FlushAndSync(l).(acks := l.acks + {mark})
    case Got(Shutdown, true) => FlushAndSync(l).(stopped := true)
    case TimedOut(running) =>
      if !running && l.buffer == [] then l.(stopped := true) else SyncIfDue(l, batch, timedOut)
  }

  function RunLoop(l: Local, events: seq<(Received, bool)>, batch: nat): Local
    decreases |events|
  {
    if events == [] || l.stopped then l
    else RunLoop(Iterate(l, events[0].0, batch, events[0].1), events[1..], batch)
  }

  /** The loop itself, driven by the outcomes it observes until it returns or they run out. */
  method WalLoop(events: seq<(Received, bool)>, batch: nat, log: seq<byte>) returns (l: Local)
    ensures l == RunLoop(Local([], log, {}, 0, false), events, batch)
  {
    hide Encode;
    var buffer, disk, acks, taken := [], log, {}, 0;
    var i := 0;
    ghost var start := Local([], log, {}, 0, false);
    while i < |events|
      invariant i <= |events|
      invariant RunLoop(start, events, batch) ==
                RunLoop(Local(buffer, disk, acks, taken, false), events[i..], batch)
    {
      var (received, timedOut) := events[i];
      i := i + 1;
      match received {
        case Got(m, running) =>
          if !running {
            if buffer != [] {
              disk, buffer := disk + buffer, [];
            }
            return Local(buffer, disk, acks, taken, true);
          }
          match m {
            case Cmd(c) =>
              match c {
                case Insert(id, record) => buffer := EncodeInsert(buffer, id, record);
                case Delete(id) => buffer := EncodeDelete(buffer, id);
              }
              taken := taken + 1;
            case Flush(mark) =>
              if buffer != [] {
                disk, buffer := disk + buffer, [];
              }
              acks := acks + {mark};
              continue;
            case Shutdown =>
              if buffer != [] {
                disk, buffer := disk + buffer, [];
              }
              return Local(buffer, disk, acks, taken, true);
          }
        case TimedOut(running) =>
          if !running && buffer == [] {
            return Local(buffer, disk, acks, taken, true);
          }
      }
      var bufferFull := |buffer| >= batch;
      if (bufferFull || timedOut) && buffer != [] {
        disk, buffer := disk + buffer, [];
      }
    }
    l := Local(buffer, disk, acks, taken, false);
  }

  // ------------------------------------------------- senders and the thread together

  datatype Config = Config(cap: nat, batch: nat)

  /** `base` is the file as the thread found or started it; `sent` is the history of commands
      enqueued by `send_insert` and `send_delete`. */
  datatype State = State(
    base: seq<byte>,
    chan: seq<Msg>,
    hand: Option<Msg>,
    local: Local,
    running: bool,
    sent: seq<WalCmd>)

  datatype Event =
    | Send(c: WalCmd)
    | SendFlush
    | ClearRunning                 // Drop and shutdown
    | WakeDummy                    // Drop: try_send(Delete(u64::MAX))
    | SendShutdown
    | Receive
    | CheckRunning(timedOut: bool) // load `running`, then the rest of the iteration
    | Expire(timedOut: bool)       // recv_timeout returned an error

  const DUMMY: WalCmd := Delete(MAX_TX_ID)

  /** A new or empty file gets the magic; any other is appended to as it is. */
  function Started(file: seq<byte>): seq<byte> {
    if file == [] then MAGIC else file
  }

  /** Spawning the thread on a file. */
  function Init(file: seq<byte>): State {
    State(Started(file), [], None, Local([], Started(file), {}, 0, false), true, [])
  }

  lemma StartedRecords(file: seq<byte>)
    ensures ParseFile(Started(file)).records == ParseFile(file).records
  {
    MagicWhole();
  }

  predicate Enabled(cfg: Config, s: State, e: Event) {
    match e
    case Send(_) => s.running && |s.chan| < cfg.cap
    case SendFlush => s.running && |s.chan| < cfg.cap
    case ClearRunning => s.running
    case WakeDummy => !s.running
    case SendShutdown => !s.running && !s.local.stopped && |s.chan| < cfg.cap
    case Receive => !s.local.stopped && s.hand == None && s.chan != []
    case CheckRunning(_) => !s.local.stopped && s.hand.Some?
    case Expire(_) => !s.local.stopped && s.hand == None
  }

  function Next(cfg: Config, s: State, e: Event): State
    requires Enabled(cfg, s, e)
  {
    match e
    case Send(c) => s.(chan := s.chan + [Cmd(c)], sent := s.sent + [c])
    case SendFlush => s.(chan := s.chan + [Flush(|s.sent|)])
    case ClearRunning => s.(running := false)
    case WakeDummy =>
      if s.local.stopped || |s.chan| >= cfg.cap then s else s.(chan := s.chan + [Cmd(DUMMY)])
    case SendShutdown => s.(chan := s.chan + [Shutdown])
    case Receive => s.(hand := Some(s.chan[0]), chan := s.chan[1..])
    case CheckRunning(t) => s.(hand := None, local := Iterate(s.local, Got(s.hand.value, s.running), cfg.batch, t))
    case Expire(t) => s.(local := Iterate(s.local, TimedOut(s.running), cfg.batch, t))
  }

  /** Messages not yet dispatched, oldest first. */
  function Flight(s: State): seq<Msg> {
    match s.hand
    case Some(m) => [m] + s.chan
    case None => s.chan
  }

  function CmdsOf(ms: seq<Msg>): seq<WalCmd> {
    if ms == [] then []
    else if ms[0].Cmd? then [ms[0].c] + CmdsOf(ms[1..])
    else CmdsOf(ms[1..])
  }

  /** `ms` carries exactly `sent[pos..]`, each flush request after the commands it covers. */
  predicate InOrder(ms: seq<Msg>, pos: nat, sent: seq<WalCmd>) {
    if ms == [] then pos == |sent|
    else match ms[0]
      case Cmd(c) => pos < |sent| && sent[pos] == c && InOrder(ms[1..], pos + 1, sent)
      case Flush(mark) => pos == mark && InOrder(ms[1..], pos, sent)
      case Shutdown => false
  }

  /** The file with the first `n` commands sent appended. */
  function LogOf(base: seq<byte>, sent: seq<WalCmd>, n: nat): seq<byte>
    requires n <= |sent|
  {
    base + EncodeAll(sent[..n])
  }

  ghost predicate Inv(cfg: Config, s: State) {
    var l := s.local;
    && l.taken <= |s.sent|
    && s.base <= l.disk
    && l.disk + l.buffer == LogOf(s.base, s.sent, l.taken)
    && (s.running ==> !l.stopped && InOrder(Flight(s), l.taken, s.sent))
    && (forall m <- l.acks :: m <= l.taken && LogOf(s.base, s.sent, m) <= l.disk)
    && (l.buffer == [] || |l.buffer| < cfg.batch)
    && (l.stopped ==> l.buffer == [])
  }

  function Exec(cfg: Config, s: State, es: seq<Event>): State
    requires Allowed(cfg, s, es)
    decreases |es|
  {
    if es == [] then s else Exec(cfg, Next(cfg, s, es[0]), es[1..])
  }

  predicate Allowed(cfg: Config, s: State, es: seq<Event>)
    decreases |es|
  {
    es == [] || (Enabled(cfg, s, es[0]) && Allowed(cfg, Next(cfg, s, es[0]), es[1..]))
  }

  // ---------------------------------------------------------------- step lemmas

  lemma PrefixLength(cs: seq<WalCmd>, n: nat)
    requires n <= |cs|
    ensures |EncodeAll(cs[..n])| <= |EncodeAll(cs)|
  {
    EncodeAllAppend(cs[..n], cs[n..]);
    assert cs[..n] + cs[n..] == cs;
  }

  lemma {:induction false} InOrderSend(ms: seq<Msg>, pos: nat, sent: seq<WalCmd>, c: WalCmd)
    requires InOrder(ms, pos, sent)
    ensures InOrder(ms + [Cmd(c)], pos, sent + [c])
  {
    if ms != [] {
      assert (ms + [Cmd(c)])[1..] == ms[1..] + [Cmd(c)];
      InOrderSend(ms[1..], if ms[0].Cmd? then pos + 1 else pos, sent, c);
    }
  }

  lemma {:induction false} InOrderFlush(ms: seq<Msg>, pos: nat, sent: seq<WalCmd>)
    requires InOrder(ms, pos, sent)
    ensures InOrder(ms + [Flush(|sent|)], pos, sent)
  {
    if ms != [] {
      assert (ms + [Flush(|sent|)])[1..] == ms[1..] + [Flush(|sent|)];
      InOrderFlush(ms[1..], if ms[0].Cmd? then pos + 1 else pos, sent);
    }
  }

  lemma {:induction false} InOrderCmds(ms: seq<Msg>, pos: nat, sent: seq<WalCmd>)
    requires InOrder(ms, pos, sent)
    ensures pos <= |sent| && CmdsOf(ms) == sent[pos..]
  {
    if ms != [] {
      InOrderCmds(ms[1..], if ms[0].Cmd? then pos + 1 else pos, sent);
    }
  }

  lemma LogOfTake(base: seq<byte>, sent: seq<WalCmd>, n: nat)
    requires n < |sent|
    ensures LogOf(base, sent, n + 1) == LogOf(base, sent, n) + Encode(sent[n])
  {
    hide Encode;
    assert sent[..n + 1] == sent[..n] + [sent[n]];
    EncodeAllSnoc(sent[..n], sent[n]);
  }

  lemma SendKeepsInv(cfg: Config, s: State, c: WalCmd)
    requires Inv(cfg, s) && Enabled(cfg, s, Send(c))
    ensures Inv(cfg, Next(cfg, s, Send(c)))
  {
    hide EncodeAll;
    var s' := Next(cfg, s, Send(c));
    assert Flight(s') == Flight(s) + [Cmd(c)];
    InOrderSend(Flight(s), s.local.taken, s.sent, c);
    forall n | 0 <= n <= |s.sent| ensures LogOf(s'.base, s'.sent, n) == LogOf(s.base, s.sent, n) {
      assert s'.sent[..n] == s.sent[..n];
    }
  }

  lemma FlushAndSyncKeepsInv(cfg: Config, s: State)
    requires Inv(cfg, s)
    ensures var l := FlushAndSync(s.local);
      && l == s.local.(disk := l.disk, buffer := [])
      && l.disk == LogOf(s.base, s.sent, s.local.taken)
      && s.local.disk <= l.disk
      && Inv(cfg, s.(local := l))
  {
    hide LogOf;
    var l := FlushAndSync(s.local);
    assert s.local.disk + s.local.buffer + [] == s.local.disk + s.local.buffer;
    assert l.disk == LogOf(s.base, s.sent, s.local.taken);
    assert Flight(s.(local := l)) == Flight(s);
  }

  /** Dispatching a command while running. */
  lemma CommandKeepsInv(cfg: Config, s: State, c: WalCmd, t: bool)
    requires Inv(cfg, s) && s.running && s.hand == Some(Cmd(c)) && !s.local.stopped
    ensures Inv(cfg, Next(cfg, s, CheckRunning(t)))
  {
    hide LogOf, Encode;
    var l := s.local;
    assert Flight(s)[1..] == s.chan;
    assert InOrder(s.chan, l.taken + 1, s.sent) && s.sent[l.taken] == c;
    LogOfTake(s.base, s.sent, l.taken);
    assert l.disk + (l.buffer + Encode(c)) == l.disk + l.buffer + Encode(c);
    var l1 := l.(buffer := l.buffer + Encode(c), taken := l.taken + 1);
    var l2 := SyncIfDue(l1, cfg.batch, t);
    assert l2.disk + l2.buffer == l1.disk + l1.buffer;
    assert l.disk <= l2.disk;
  }

  lemma CheckRunningKeepsInv(cfg: Config, s: State, t: bool)
    requires Inv(cfg, s) && Enabled(cfg, s, CheckRunning(t))
    ensures Inv(cfg, Next(cfg, s, CheckRunning(t)))
  {
    hide LogOf, Encode;
    FlushAndSyncKeepsInv(cfg, s);
    assert Flight(s)[1..] == s.chan;
    if s.running && s.hand.value.Cmd? {
      CommandKeepsInv(cfg, s, s.hand.value.c, t);
    }
  }

  lemma ExpireKeepsInv(cfg: Config, s: State, t: bool)
    requires Inv(cfg, s) && Enabled(cfg, s, Expire(t))
    ensures Inv(cfg, Next(cfg, s, Expire(t)))
  {
    hide LogOf, Encode;
    FlushAndSyncKeepsInv(cfg, s);
    var s' := Next(cfg, s, Expire(t));
    assert Flight(s') == Flight(s);
  }

  lemma StepKeepsInv(cfg: Config, s: State, e: Event)
    requires Inv(cfg, s) && Enabled(cfg, s, e)
    ensures Inv(cfg, Next(cfg, s, e))
  {
    hide LogOf, Iterate;
    var s' := Next(cfg, s, e);
    match e
    case Send(c) => SendKeepsInv(cfg, s, c);
    case SendFlush =>
      assert Flight(s') == Flight(s) + [Flush(|s.sent|)];
      InOrderFlush(Flight(s), s.local.taken, s.sent);
    case Receive => assert Flight(s') == Flight(s);
    case CheckRunning(t) => CheckRunningKeepsInv(cfg, s, t);
    case Expire(t) => ExpireKeepsInv(cfg, s, t);
    case _ =>
  }

  // ---------------------------------------------------------------- whole runs

  lemma {:induction false} RunKeepsInv(cfg: Config, s: State, es: seq<Event>)
    requires Inv(cfg, s) && Allowed(cfg, s, es)
    ensures Inv(cfg, Exec(cfg, s, es))
    decreases |es|
  {
    hide Inv, Next;
    if es != [] {
      StepKeepsInv(cfg, s, es[0]);
      RunKeepsInv(cfg, Next(cfg, s, es[0]), es[1..]);
    }
  }

  lemma InitInv(cfg: Config, file: seq<byte>)
    ensures Inv(cfg, Init(file))
  {
    assert Started(file) + [] == Started(file);
  }

  /** Senders wait for room: the channel never holds more than its capacity. */
  lemma {:induction false} ChannelBounded(cfg: Config, s: State, es: seq<Event>)
    requires Allowed(cfg, s, es) && |s.chan| <= cfg.cap
    ensures |Exec(cfg, s, es).chan| <= cfg.cap
    decreases |es|
  {
    hide Iterate;
    if es != [] {
      ChannelBounded(cfg, Next(cfg, s, es[0]), es[1..]);
    }
  }

  lemma RunningConserves(cfg: Config, s: State)
    requires Inv(cfg, s) && s.running
    ensures s.local.disk + s.local.buffer + EncodeAll(CmdsOf(Flight(s))) == s.base + EncodeAll(s.sent)
  {
    hide Flight, InOrder, CmdsOf, EncodeAll;
    var n := s.local.taken;
    InOrderCmds(Flight(s), n, s.sent);
    EncodeAllAppend(s.sent[..n], s.sent[n..]);
    assert s.sent[..n] + s.sent[n..] == s.sent;
  }

  /** In every run: while the handle is held, disk, buffer and in-flight commands together are
      the encoding of everything sent; once the thread has stopped, the disk is the encoding of
      the commands it took. The buffer never reaches the batch size at a loop head, so under
      `Immediate` it is empty there. Commands enqueued before an answered flush are on disk. */
  lemma Refinement(cfg: Config, file: seq<byte>, es: seq<Event>)
    requires Allowed(cfg, Init(file), es)
    ensures var s := Exec(cfg, Init(file), es);
      && (s.running ==> s.local.disk + s.local.buffer + EncodeAll(CmdsOf(Flight(s))) == s.base + EncodeAll(s.sent))
      && (s.local.stopped ==> s.local.taken <= |s.sent| && s.local.disk == LogOf(s.base, s.sent, s.local.taken))
      && |s.chan| <= cfg.cap
      && (s.local.buffer == [] || |s.local.buffer| < cfg.batch)
      && (cfg.batch == Immediate.BatchBytes() ==> s.local.buffer == [])
      && (forall mark <- s.local.acks :: mark <= |s.sent| && LogOf(s.base, s.sent, mark) <= s.local.disk)
  {
    hide Next, Allowed, Exec, Flight, InOrder, CmdsOf, EncodeAll;
    InitInv(cfg, file);
    RunKeepsInv(cfg, Init(file), es);
    ChannelBounded(cfg, Init(file), es);
    var s := Exec(cfg, Init(file), es);
    if s.running {
      RunningConserves(cfg, s);
    }
    assert s.local.disk + [] == s.local.disk;
  }

  /** Whenever the thread finds its sync interval elapsed, or loses its handle's flag, everything
      it has taken so far is on disk when that iteration ends. */
  lemma ElapsedMeansSynced(cfg: Config, s: State, e: Event)
    requires Inv(cfg, s) && Enabled(cfg, s, e)
    requires e == CheckRunning(true) || e == Expire(true) || (e.CheckRunning? && !s.running)
    ensures var s' := Next(cfg, s, e);
      s'.local.buffer == [] && s'.local.taken <= |s'.sent| && s'.local.disk == LogOf(s'.base, s'.sent, s'.local.taken)
  {
    hide LogOf, Encode, InOrder;
    StepKeepsInv(cfg, s, e);
    var l := Next(cfg, s, e).local;
    assert l.disk + [] == l.disk;
  }

  /** When a command reaches the file, by durability level: under `Immediate` at once; under `Batch` in
      the iteration in which the buffer reaches the given bytes, and not before unless an interval
      expires. Nothing is written by an iteration that receives nothing before the interval. */
  lemma WrittenWhenFull(d: Durability, cap: nat, s: State, c: WalCmd)
    requires var cfg := Config(cap, d.BatchBytes());
      Inv(cfg, s) && s.running && s.hand == Some(Cmd(c)) && !s.local.stopped
    ensures var cfg, grown := Config(cap, d.BatchBytes()), s.local.buffer + Encode(c);
      var s' := Next(cfg, s, CheckRunning(false)).local;
      var written := match d case Immediate => true case Batch(_, bytes) => |grown| >= bytes;
      if written then s'.disk == s.local.disk + grown && s'.buffer == []
      else s'.disk == s.local.disk && s'.buffer == grown
    ensures var cfg := Config(cap, d.BatchBytes());
      Next(cfg, s.(hand := None), Expire(false)).local == s.local
  {
    hide Encode;
  }

  lemma StepExtendsDisk(cfg: Config, s: State, e: Event)
    requires Enabled(cfg, s, e)
    ensures var s' := Next(cfg, s, e);
      s.local.disk <= s'.local.disk && s.sent <= s'.sent && s'.base == s.base
  {
    hide Encode;
  }

  /** A crash in the middle of one step, from any state of the invariant over a whole log. */
  lemma CrashInStep(cfg: Config, s: State, e: Event, length: nat) returns (k: nat)
    requires Inv(cfg, s) && Whole(s.base) && Enabled(cfg, s, e)
    requires var s' := Next(cfg, s, e); AllFit(s'.sent) && |s.local.disk| <= length <= |s'.local.disk|
    ensures CrashLeaves(Next(cfg, s, e), s.local.acks, length, k)
  {
    hide Next, Encode, ParseFile, Whole, AllFit, InOrder, Enabled;
    StepKeepsInv(cfg, s, e);
    StepExtendsDisk(cfg, s, e);
    var s' := Next(cfg, s, e);
    var l := s'.local;
    var cs := s'.sent[..l.taken];
    var n := length - |s'.base|;
    assert l.disk[..length] == LogOf(s'.base, s'.sent, l.taken)[..length];
    assert l.disk[..length] == s'.base + EncodeAll(cs)[..n];
    TakeFits(s'.sent, l.taken);
    k := TornAppend(s'.base, cs, n);
    WholeCutIff(s'.base, cs, n, k);
    assert cs[..k] == s'.sent[..k];
    assert k < l.taken ==> cs[..k + 1] == s'.sent[..k + 1];
    DeliveredIff(s'.base, s'.sent, l.taken, k, length);
    forall m | m in s.local.acks ensures m <= k {
      assert s.sent[..m] == s'.sent[..m];
      assert m > 0 ==> (m <= k <==> |LogOf(s'.base, s'.sent, m)| <= length);
    }
  }

  /** What the first `length` bytes of a log replay: what the file held before and the first `k`
      commands sent, `k` being as large as the length allows and covering all the flushed ones. */
  ghost predicate CrashLeaves(s: State, acks: set<nat>, length: nat, k: nat) {
    && length <= |s.local.disk| && k <= |s.sent| && |LogOf(s.base, s.sent, k)| <= length
    && ParseFile(s.local.disk[..length]) ==
       Replayed(ParseFile(s.base).records + ToRecords(s.sent[..k]),
                if length - |LogOf(s.base, s.sent, k)| < 4 then Complete else UnexpectedEof)
    && (Whole(s.local.disk[..length]) <==> length == |LogOf(s.base, s.sent, k)|)
    && (forall n :: 0 < n <= |s.sent| ==> (n <= k <==> |LogOf(s.base, s.sent, n)| <= length))
    && (forall m <- acks :: m <= k)
  }

  /** Crash at any moment, even in the middle of the write that a step makes, the write of the very
      command it dispatches included: replay delivers what the file held before and a prefix of the
      commands sent. The n-th command is delivered exactly when the file reaches its end; every
      command covered by an answered flush does. The replay itself reports an error exactly when
      the torn tail is 4 bytes or longer, and the file can be appended to exactly when there is none. */
  lemma CrashRecovery(cfg: Config, file: seq<byte>, es: seq<Event>, e: Event, length: nat) returns (k: nat)
    requires Whole(Started(file)) && Allowed(cfg, Init(file), es)
    requires var s := Exec(cfg, Init(file), es);
      Enabled(cfg, s, e) &&
      var s' := Next(cfg, s, e);
      AllFit(s'.sent) && |s.local.disk| <= length <= |s'.local.disk|
    ensures var s := Exec(cfg, Init(file), es);
      var s' := Next(cfg, s, e);
      s'.base == Started(file) && CrashLeaves(s', s.local.acks, length, k)
  {
    hide Next, Inv, Whole, Started, AllFit, Enabled, CrashLeaves;
    InitInv(cfg, file);
    RunKeepsInv(cfg, Init(file), es);
    BaseKept(cfg, Init(file), es);
    var s := Exec(cfg, Init(file), es);
    StepExtendsDisk(cfg, s, e);
    k := CrashInStep(cfg, s, e, length);
  }

  /** Under `Immediate` too: a crash inside the write of the first command, 4 bytes or more into
      its record, leaves a file whose replay is an error. */
  lemma ImmediateTears(cap: nat, c: WalCmd, length: nat)
    requires cap > 0 && Fits(c) && 8 <= length < |MAGIC + Encode(c)|
    ensures Allowed(Config(cap, Immediate.BatchBytes()), Init([]), [Send(c), Receive])
    ensures var cfg := Config(cap, Immediate.BatchBytes());
      var s := Exec(cfg, Init([]), [Send(c), Receive]);
      Enabled(cfg, s, CheckRunning(false)) && s.local.disk == MAGIC &&
      var file := Next(cfg, s, CheckRunning(false)).local.disk;
      file == MAGIC + Encode(c) && ParseFile(file[..length]) == Replayed([], UnexpectedEof)
  {
    hide Encode;
    var cfg := Config(cap, 1);
    var s1 := Next(cfg, Init([]), Send(c));
    var s2 := Next(cfg, s1, Receive);
    var s3 := Next(cfg, s2, CheckRunning(false));
    assert s3.local.disk == MAGIC + Encode(c);
    assert (MAGIC + Encode(c))[..length] == MAGIC + Encode(c)[..length - 4];
    assert (MAGIC + Encode(c)[..length - 4])[..4] == MAGIC;
    assert (MAGIC + Encode(c)[..length - 4])[4..] == Encode(c)[..length - 4];
    ParseTornRecord(c, length - 4);
    hide Next, Enabled;
    RunCons(cfg, s1, Receive, []);
    RunCons(cfg, Init([]), Send(c), [Receive]);
  }

  lemma DeliveredIff(base: seq<byte>, sent: seq<WalCmd>, taken: nat, k: nat, len: nat)
    requires k <= taken <= |sent|
    requires |LogOf(base, sent, k)| <= len <= |LogOf(base, sent, taken)|
    requires k < taken ==> len < |LogOf(base, sent, k + 1)|
    ensures forall n :: 0 < n <= |sent| ==> (n <= k <==> |LogOf(base, sent, n)| <= len)
  {
    hide LogOf;
    forall n | 0 < n <= |sent| ensures n <= k <==> |LogOf(base, sent, n)| <= len {
      if n <= k {
        LogLength(base, sent, n, k);
      } else {
        LogLength(base, sent, k + 1, n);
        if k == taken {
          LogOfTake(base, sent, k);
        }
      }
    }
  }

  lemma TakeFits(cs: seq<WalCmd>, n: nat)
    requires n <= |cs| && AllFit(cs)
    ensures AllFit(cs[..n])
  {
  }

  lemma LogLength(base: seq<byte>, sent: seq<WalCmd>, m: nat, n: nat)
    requires m <= n <= |sent|
    ensures |LogOf(base, sent, m)| <= |LogOf(base, sent, n)|
  {
    assert sent[..n][..m] == sent[..m];
    PrefixLength(sent[..n], m);
  }

  /** Opening never rewrites the file. */
  lemma {:induction false} BaseKept(cfg: Config, s: State, es: seq<Event>)
    requires Allowed(cfg, s, es)
    ensures Exec(cfg, s, es).base == s.base
    decreases |es|
  {
    if es != [] {
      BaseKept(cfg, Next(cfg, s, es[0]), es[1..]);
    }
  }

  /** A write returns once it is enqueued. Right then, under every durability level, a crash
      loses it: the file replays nothing. */
  lemma EnqueuedIsNotDurable(cfg: Config, c: WalCmd)
    requires cfg.cap > 0
    ensures Allowed(cfg, Init([]), [Send(c)])
    ensures var s := Exec(cfg, Init([]), [Send(c)]);
      s.sent == [c] && ParseFile(s.local.disk).records == []
  {
    var s1 := Next(cfg, Init([]), Send(c));
    assert [Send(c)][1..] == [];
    assert Allowed(cfg, s1, []) && Exec(cfg, s1, []) == s1;
    MagicWhole();
  }

  /** The wake-up command sent by Drop is never written: unless a caller itself deleted that id,
      nothing appended to the file replays it. */
  lemma DummyNeverWritten(cfg: Config, file: seq<byte>, es: seq<Event>, e: Event, length: nat)
    requires Whole(Started(file)) && Allowed(cfg, Init(file), es)
    requires var s := Exec(cfg, Init(file), es);
      Enabled(cfg, s, e) &&
      var s' := Next(cfg, s, e);
      AllFit(s'.sent) && DUMMY !in s'.sent && |s.local.disk| <= length <= |s'.local.disk|
    ensures var before := ParseFile(Started(file)).records;
      var after := ParseFile(Next(cfg, Exec(cfg, Init(file), es), e).local.disk[..length]).records;
      && before <= after
      && Record(OP_DELETE, MAX_TX_ID, []) !in after[|before|..]
  {
    hide Next, Allowed, Exec, ParseFile, Whole, Enabled, LogOf;
    var s' := Next(cfg, Exec(cfg, Init(file), es), e);
    var k := CrashRecovery(cfg, file, es, e, length);
    var rs := ToRecords(s'.sent[..k]);
    var before := ParseFile(Started(file)).records;
    assert (before + rs)[|before|..] == rs;
    forall i | 0 <= i < |rs| ensures rs[i] != Record(OP_DELETE, MAX_TX_ID, []) {
      assert rs[i] == ToRecord(s'.sent[i]) && s'.sent[i] in s'.sent;
    }
  }

  // ---------------------------------------------------------------- shutdown

  /** Once `running` is cleared nothing more is encoded or sent. */
  lemma {:induction false} ClearedTakesNothing(cfg: Config, s: State, es: seq<Event>)
    requires Allowed(cfg, s, es) && !s.running
    ensures var t := Exec(cfg, s, es);
      !t.running && t.sent == s.sent && t.local.taken == s.local.taken
    decreases |es|
  {
    if es != [] {
      ClearedTakesNothing(cfg, Next(cfg, s, es[0]), es[1..]);
    }
  }

  /** Stopping keeps every command exactly when none was in flight as the flag was cleared; the
      thread does not drain its channel, whatever its documentation says. */
  lemma ShutdownKeepsAllIff(cfg: Config, s: State, es: seq<Event>)
    requires Inv(cfg, s) && s.running
    requires Allowed(cfg, s, [ClearRunning] + es)
    requires Exec(cfg, s, [ClearRunning] + es).local.stopped
    ensures Exec(cfg, s, [ClearRunning] + es).local.disk == s.base + EncodeAll(s.sent) <==>
            CmdsOf(Flight(s)) == []
  {
    hide EncodeAll, CmdsOf, Flight, InOrder, Iterate;
    var s1 := Next(cfg, s, ClearRunning);
    assert ([ClearRunning] + es)[1..] == es;
    ClearedTakesNothing(cfg, s1, es);
    RunKeepsInv(cfg, s, [ClearRunning] + es);
    BaseKept(cfg, s, [ClearRunning] + es);
    var t := Exec(cfg, s, [ClearRunning] + es);
    assert t == Exec(cfg, s1, es);
    assert t.local.disk + [] == t.local.disk;
    var n := s.local.taken;
    InOrderCmds(Flight(s), n, s.sent);
    EncodeAllAppend(s.sent[..n], s.sent[n..]);
    assert s.sent[..n] + s.sent[n..] == s.sent;
    EncodeAllEmptyIff(s.sent[n..]);
  }

  /** A command still in the channel when the flag is cleared: the thread receives it, sees the
      flag and leaves. The stopped log does not hold it. */
  lemma ShutdownLosesInFlight(cfg: Config, c: WalCmd)
    requires cfg.cap > 0
    ensures var es := [Send(c), ClearRunning, Receive, CheckRunning(false)];
      && Allowed(cfg, Init([]), es)
      && var s := Exec(cfg, Init([]), es);
         s.local.stopped && s.sent == [c] && s.local.disk == MAGIC && ParseFile(s.local.disk).records == []
  {
    var s1 := Next(cfg, Init([]), Send(c));
    var s2 := Next(cfg, s1, ClearRunning);
    var s3 := Next(cfg, s2, Receive);
    var s4 := Next(cfg, s3, CheckRunning(false));
    assert s4.local == Local([], MAGIC, {}, 0, true);
    MagicWhole();
    hide Next, Enabled;
    RunCons(cfg, s3, CheckRunning(false), []);
    RunCons(cfg, s2, Receive, [CheckRunning(false)]);
    RunCons(cfg, s1, ClearRunning, [Receive, CheckRunning(false)]);
    RunCons(cfg, Init([]), Send(c), [ClearRunning, Receive, CheckRunning(false)]);
  }

  lemma RunCons(cfg: Config, s: State, e: Event, es: seq<Event>)
    requires Enabled(cfg, s, e) && Allowed(cfg, Next(cfg, s, e), es)
    ensures Allowed(cfg, s, [e] + es) && Exec(cfg, s, [e] + es) == Exec(cfg, Next(cfg, s, e), es)
  {
    assert ([e] + es)[1..] == es;
  }

  lemma EncodeAllEmptyIff(cs: seq<WalCmd>)
    ensures EncodeAll(cs) == [] <==> cs == []
  {
    hide Encode;
  }

  // ---------------------------------------------------------------- sessions

  /** One opening of a log file: everything that happens until its thread has stopped. */
  datatype Session = Session(cfg: Config, events: seq<Event>)

  predicate Runs(file: seq<byte>, x: Session) {
    && Allowed(x.cfg, Init(file), x.events)
    && var s := Exec(x.cfg, Init(file), x.events);
       s.local.stopped && AllFit(s.sent)
  }

  /** The file a session leaves, and the commands of it that got there. */
  function Left(file: seq<byte>, x: Session): seq<byte>
    requires Runs(file, x)
  {
    Exec(x.cfg, Init(file), x.events).local.disk
  }

  function Logged(file: seq<byte>, x: Session): seq<WalCmd>
    requires Runs(file, x)
  {
    var s := Exec(x.cfg, Init(file), x.events);
    if s.local.taken <= |s.sent| then s.sent[..s.local.taken] else []
  }

  predicate AllRun(file: seq<byte>, xs: seq<Session>)
    decreases |xs|
  {
    xs == [] || (Runs(file, xs[0]) && AllRun(Left(file, xs[0]), xs[1..]))
  }

  function AllLeft(file: seq<byte>, xs: seq<Session>): seq<byte>
    requires AllRun(file, xs)
    decreases |xs|
  {
    if xs == [] then file else AllLeft(Left(file, xs[0]), xs[1..])
  }

  function AllLogged(file: seq<byte>, xs: seq<Session>): seq<WalCmd>
    requires AllRun(file, xs)
    decreases |xs|
  {
    if xs == [] then [] else Logged(file, xs[0]) + AllLogged(Left(file, xs[0]), xs[1..])
  }

  /** A stopped thread leaves a whole log again: what it found, then what it took. */
  lemma SessionLeaves(file: seq<byte>, x: Session)
    requires Whole(Started(file)) && Runs(file, x)
    ensures Left(file, x) == Started(file) + EncodeAll(Logged(file, x)) && Left(file, x) != []
    ensures Whole(Left(file, x)) && AllFit(Logged(file, x))
  {
    hide Next, Allowed, Exec, EncodeAll, Whole, Started, InOrder;
    InitInv(x.cfg, file);
    RunKeepsInv(x.cfg, Init(file), x.events);
    BaseKept(x.cfg, Init(file), x.events);
    var s := Exec(x.cfg, Init(file), x.events);
    assert s.local.disk + [] == s.local.disk;
    TakeFits(s.sent, s.local.taken);
    WholeAppend(Started(file), Logged(file, x));
    assert Left(file, x) != [] by { WholeIsSome(Left(file, x)); }
  }

  lemma WholeIsSome(file: seq<byte>)
    requires Whole(file)
    ensures file != [] && Started(file) == file
  {
  }

  /** Over any number of sessions: a log once whole can always be opened again, and replays every
      command that any session's thread took, in order, after what it held at first. */
  lemma {:induction false} SessionsRecover(file: seq<byte>, xs: seq<Session>)
    requires Whole(Started(file)) && AllRun(file, xs)
    ensures Whole(Started(AllLeft(file, xs)))
    ensures ParseFile(AllLeft(file, xs)) ==
            Replayed(ParseFile(file).records + ToRecords(AllLogged(file, xs)), Complete)
    decreases |xs|
  {
    hide Runs, Left, Logged, Whole, ParseFile, Started;
    if xs == [] {
      StartedParses(file);
      assert ParseFile(file).records + ToRecords([]) == ParseFile(file).records;
    } else {
      var next := Left(file, xs[0]);
      var a, b := Logged(file, xs[0]), AllLogged(next, xs[1..]);
      SessionReplays(file, xs[0]);
      SessionsRecover(next, xs[1..]);
      var found := ParseFile(file).records;
      assert found + ToRecords(a) + ToRecords(b) == found + ToRecords(a + b);
    }
  }

  lemma SessionReplays(file: seq<byte>, x: Session)
    requires Whole(Started(file)) && Runs(file, x)
    ensures Whole(Started(Left(file, x)))
    ensures ParseFile(Left(file, x)).records == ParseFile(file).records + ToRecords(Logged(file, x))
  {
    hide Runs, Left, Logged, Whole, ParseFile, Started, AllFit;
    SessionLeaves(file, x);
    WholeIsSome(Left(file, x));
    AppendedReplaysIff(Started(file), Logged(file, x));
    StartedRecords(file);
  }

  /** A file as opened: started with the magic if it was empty and left as it is otherwise, nothing sent
      yet, everything in it found. */
  lemma InitDurable(file: seq<byte>)
    ensures Init(file).local.disk == if |file| == 0 then [0x4C, 0x47, 0x44, 0x42] else file
    ensures Synced(Init(file)) && ParseFile(Init(file).local.disk).records == ParseFile(file).records
    ensures Whole(Started(file)) ==> ParseFile(Init(file).local.disk).status == Complete
  {
    hide Whole, ParseFile;
    StartedRecords(file);
    assert Started(file) + [] == Started(file);
    if Whole(Started(file)) {
      ParseFileAppend(Started(file), []);
    }
  }

  lemma StartedParses(file: seq<byte>)
    requires Whole(Started(file))
    ensures ParseFile(file).status == Complete
  {
    hide WholeRecords, Parse;
    if file != [] {
      ParseFileAppend(file, []);
    }
  }

  // ---------------------------------------------------------------- handle operations

  /** The thread is serving a live handle. */
  ghost predicate Live(cfg: Config, s: State) {
    Inv(cfg, s) && s.running && cfg.cap > 0
  }

  /** Everything sent is on disk and nothing else is. */
  predicate Synced(s: State) {
    s.local.disk == s.base + EncodeAll(s.sent)
  }

  function Pending(s: State): nat {
    2 * |s.chan| + if s.hand.Some? then 1 else 0
  }

  /** The thread advances by one step: dispatch what it holds, else receive the next message. */
  method ThreadStep(cfg: Config, s: State) returns (s': State)
    requires Live(cfg, s) && Flight(s) != []
    ensures Live(cfg, s') && s'.base == s.base && s'.sent == s.sent && Pending(s') < Pending(s)
    ensures s.local.acks <= s'.local.acks
    ensures s.hand.None? ==> s'.chan == s.chan[1..] && s'.hand == Some(s.chan[0]) && s'.local == s.local
    ensures s.hand.Some? ==> s'.chan == s.chan && s'.hand == None
    ensures s.hand.Some? && s.hand.value.Flush? ==> s.hand.value.mark in s'.local.acks
  {
    hide LogOf, Encode;
    var timedOut: bool := *;
    var e := if s.hand.Some? then CheckRunning(timedOut) else Receive;
    s' := Next(cfg, s, e);
    StepKeepsInv(cfg, s, e);
  }

  /** Steps the thread may take on its own while a caller is between two sends. */
  method Background(cfg: Config, s: State) returns (s': State)
    requires Live(cfg, s)
    ensures Live(cfg, s') && s'.base == s.base && s'.sent == s.sent
  {
    hide Inv, Iterate;
    s' := s;
    var more: bool := *;
    while more && Flight(s') != []
      invariant Live(cfg, s') && s'.base == s.base && s'.sent == s.sent
      decreases Pending(s')
    {
      s' := ThreadStep(cfg, s');
      more := *;
    }
    var idle: bool := *;
    if idle && s'.hand == None {
      var timedOut: bool := *;
      assert Enabled(cfg, s', Expire(timedOut)) by { LiveRuns(cfg, s'); }
      StepKeepsInv(cfg, s', Expire(timedOut));
      s' := Next(cfg, s', Expire(timedOut));
    }
  }

  lemma LiveRuns(cfg: Config, s: State)
    requires Live(cfg, s)
    ensures !s.local.stopped
  {
  }

  /** Waits until the channel has room. */
  method WaitForRoom(cfg: Config, s: State) returns (s': State)
    requires Live(cfg, s)
    ensures Live(cfg, s') && s'.base == s.base && s'.sent == s.sent && |s'.chan| < cfg.cap
  {
    hide Inv, Iterate;
    s' := Background(cfg, s);
    while |s'.chan| >= cfg.cap
      invariant Live(cfg, s') && s'.base == s.base && s'.sent == s.sent
      decreases Pending(s')
    {
      s' := ThreadStep(cfg, s');
    }
  }

  /** Blocks while the channel is full, then enqueues. */
  method SendCmd(cfg: Config, s: State, c: WalCmd) returns (s': State)
    requires Live(cfg, s)
    ensures Live(cfg, s') && s'.base == s.base && s'.sent == s.sent + [c]
  {
    hide Inv, Iterate;
    s' := WaitForRoom(cfg, s);
    StepKeepsInv(cfg, s', Send(c));
    s' := Next(cfg, s', Send(c));
  }

  /** Waits for the reply to a flush request, the last message in flight. */
  method AwaitReply(cfg: Config, s: State, mark: nat) returns (s': State)
    requires Live(cfg, s) && Flight(s) != [] && Flight(s)[|Flight(s)| - 1] == Flush(mark)
    ensures Live(cfg, s') && s'.base == s.base && s'.sent == s.sent && mark in s'.local.acks
  {
    hide Inv, Iterate;
    s' := s;
    while mark !in s'.local.acks
      invariant Live(cfg, s') && s'.base == s.base && s'.sent == s.sent
      invariant mark in s'.local.acks || (Flight(s') != [] && Flight(s')[|Flight(s')| - 1] == Flush(mark))
      decreases Pending(s')
    {
      s' := ThreadStep(cfg, s');
    }
  }

  /** `flush`: enqueue a request and wait for its reply. On return everything sent is durable. */
  method FlushHandle(cfg: Config, s: State) returns (s': State)
    requires Live(cfg, s)
    ensures Live(cfg, s') && s'.base == s.base && s'.sent == s.sent && Synced(s')
  {
    hide Inv, Iterate, Synced;
    s' := WaitForRoom(cfg, s);
    var mark := |s'.sent|;
    StepKeepsInv(cfg, s', SendFlush);
    s' := Next(cfg, s', SendFlush);
    assert Flight(s')[|Flight(s')| - 1] == Flush(mark);
    s' := AwaitReply(cfg, s', mark);
    AckedMeansSynced(cfg, s');
  }

  lemma AckedMeansSynced(cfg: Config, s: State)
    requires Inv(cfg, s) && |s.sent| in s.local.acks
    ensures Synced(s)
  {
    hide EncodeAll;
    assert s.sent[..|s.sent|] == s.sent;
    var l := s.local;
    assert |l.disk| + |l.buffer| == |LogOf(s.base, s.sent, |s.sent|)|;
  }

  lemma ClearedStep(cfg: Config, s: State, e: Event)
    requires Inv(cfg, s) && Enabled(cfg, s, e) && !s.running
    ensures var s' := Next(cfg, s, e);
      && Inv(cfg, s') && !s'.running && s'.sent == s.sent && s'.base == s.base && s'.local.taken == s.local.taken
      && (e.CheckRunning? ==> s'.local.stopped)
  {
    hide Inv, EncodeAll;
    StepKeepsInv(cfg, s, e);
  }

  lemma StoppedHasTaken(cfg: Config, s: State)
    requires Inv(cfg, s)
    ensures s.local.taken <= |s.sent|
    ensures s.local.stopped ==> s.local.disk == LogOf(s.base, s.sent, s.local.taken)
    ensures Synced(s) ==> LogOf(s.base, s.sent, s.local.taken) == s.local.disk
  {
    hide EncodeAll, InOrder;
    assert s.local.disk + [] == s.local.disk;
    if Synced(s) {
      assert s.sent[..|s.sent|] == s.sent;
      LogLength(s.base, s.sent, s.local.taken, |s.sent|);
    }
  }

  /** A step the thread takes once the flag is cleared, if there is a message. */
  method LastStep(cfg: Config, s: State) returns (s': State)
    requires Inv(cfg, s) && !s.running && !s.local.stopped && Flight(s) != []
    ensures Inv(cfg, s') && !s'.running && s'.sent == s.sent && s'.base == s.base && s'.local.taken == s.local.taken
    ensures s'.local.stopped || (s.hand == None && s'.hand.Some?)
  {
    hide Inv, Iterate;
    var timedOut: bool := *;
    var e := if s.hand.Some? then CheckRunning(timedOut) else Receive;
    ClearedStep(cfg, s, e);
    s' := Next(cfg, s, e);
  }

  /** Drop: clear the flag, wake the thread if there is room, and join it. The thread takes nothing
      more; what it had taken is on disk when it is gone. */
  method DropHandle(cfg: Config, s: State) returns (s': State)
    requires Live(cfg, s)
    ensures s'.local.stopped && s'.base == s.base && s'.sent == s.sent
    ensures s.local.taken <= |s.sent| && s'.local.disk == LogOf(s.base, s.sent, s.local.taken)
    ensures Synced(s) ==> s'.local.disk == s.local.disk
  {
    hide Inv, LogOf, Iterate;
    StoppedHasTaken(cfg, s);
    LiveRuns(cfg, s);
    assert Enabled(cfg, s, ClearRunning);
    StepKeepsInv(cfg, s, ClearRunning);
    s' := Next(cfg, s, ClearRunning);
    var early: bool := *;
    if early && Flight(s') != [] {
      s' := LastStep(cfg, s');
    }
    ClearedStep(cfg, s', WakeDummy);
    s' := Next(cfg, s', WakeDummy);
    while !s'.local.stopped
      invariant Inv(cfg, s') && !s'.running && s'.sent == s.sent && s'.base == s.base && s'.local.taken == s.local.taken
      invariant s'.local.stopped || Flight(s') != []
      decreases if s'.local.stopped then 0 else if s'.hand.Some? then 1 else 2
    {
      s' := LastStep(cfg, s');
    }
    StoppedHasTaken(cfg, s');
  }
}
