/**
 Writes and tickets. Tickets are resolved in order, but resolved transactions apply their writes
 concurrently; this is when the records still come out as if the tickets had been applied in turn.
 */
module Serial {
  import opened Types
  import opened TicketLock
  import opened Mvcc
  import opened Snapshots
  import opened Plans

  datatype Stamped = Stamped(t: TxId, w: Write)

  function Stamp(ws: seq<Write>, t: TxId): (h: seq<Stamped>)
    ensures |h| == |ws| && forall i :: 0 <= i < |h| ==> h[i] == Stamped(t, ws[i])
  {
    seq(|ws|, i requires 0 <= i < |ws| => Stamped(t, ws[i]))
  }

  /** The writes to one record, in order. */
  function On(h: seq<Stamped>, k: Key): seq<Stamped> {
    if h == [] then []
    else On(h[..|h| - 1], k) + if KeyOf(h[|h| - 1].w) == k then [h[|h| - 1]] else []
  }

  /** The records after a sequence of stamped writes. */
  function Folded(recs: map<Key, Entity>, h: seq<Stamped>): map<Key, Entity> {
    if h == [] then recs else AppliedTo(Folded(recs, h[..|h| - 1]), h[|h| - 1].w, h[|h| - 1].t)
  }

  function AppliedBy(s: State, e: Event): seq<Stamped>
    requires Mvcc.Enabled(s, e)
  {
    if e.ApplyOne? then [Stamped(e.t, s.tickets.txns[e.t].phase.pending[0])] else []
  }

  function ResolvedBy(s: State, e: Event): seq<Stamped>
    requires Mvcc.Enabled(s, e)
  {
    if e.CommitStore? then Stamp(s.tickets.txns[e.t].buffer.Plan(), e.t) else []
  }

  /** The writes a run applies, in the order in which they reach the stores. */
  function Applied(s: State, es: seq<Event>): seq<Stamped>
    requires Mvcc.Allowed(s, es)
    decreases |es|
  {
    if es == [] then [] else AppliedBy(s, es[0]) + Applied(Mvcc.Next(s, es[0]), es[1..])
  }

  /** The plans of the transactions a run resolves, one after the other. */
  function Resolved(s: State, es: seq<Event>): seq<Stamped>
    requires Mvcc.Allowed(s, es)
    decreases |es|
  {
    if es == [] then [] else ResolvedBy(s, es[0]) + Resolved(Mvcc.Next(s, es[0]), es[1..])
  }

  /** Ticket order, from above ticket `c`. */
  ghost predicate InOrder(p: seq<Stamped>, c: TxId) {
    && (forall i :: 0 <= i < |p| ==> p[i].t > c)
    && forall i, j :: 0 <= i < j < |p| ==> p[i].t <= p[j].t
  }

  lemma InOrderConcat(a: seq<Stamped>, b: seq<Stamped>, c: TxId, c': TxId)
    requires InOrder(b, c') && c <= c' && forall i :: 0 <= i < |a| ==> c < a[i].t == c'
    ensures InOrder(a + b, c)
  {
  }

  /** The plans come in ticket order. */
  lemma {:induction false} ResolvedInOrder(s: State, es: seq<Event>)
    requires TicketLock.Inv(s.tickets) && Mvcc.Allowed(s, es)
    ensures InOrder(Resolved(s, es), s.tickets.committedTxId)
    decreases |es|
  {
    hide TicketLock.Inv, Mvcc.Next, Mvcc.Enabled;
    if es != [] {
      var s' := Mvcc.Next(s, es[0]);
      TicketStep(s, es[0]);
      ResolvedNext(s, es[0]);
      ResolvedInOrder(s', es[1..]);
      InOrderConcat(ResolvedBy(s, es[0]), Resolved(s', es[1..]), s.tickets.committedTxId, s'.tickets.committedTxId);
    }
  }

  lemma ResolvedNext(s: State, e: Event)
    requires TicketLock.Inv(s.tickets) && Mvcc.Enabled(s, e)
    ensures var c, c' := s.tickets.committedTxId, Mvcc.Next(s, e).tickets.committedTxId;
      c <= c' && forall i :: 0 <= i < |ResolvedBy(s, e)| ==> c < ResolvedBy(s, e)[i].t == c'
  {
    hide TicketLock.Inv;
    StoreAdvancesByOne(s.tickets, e);
  }

  lemma {:induction false} OnConcat(a: seq<Stamped>, b: seq<Stamped>, k: Key)
    ensures On(a + b, k) == On(a, k) + On(b, k)
  {
    if b == [] {
      assert a + b == a;
    } else {
      var n := |b| - 1;
      OnConcat(a, b[..n], k);
      assert (a + b)[..|a + b| - 1] == a + b[..n];
    }
  }

  lemma {:induction false} OnStamp(ws: seq<Write>, t: TxId, k: Key)
    ensures forall x <- On(Stamp(ws, t), k) :: x.t == t
  {
    if ws != [] {
      var n := |ws| - 1;
      OnStamp(ws[..n], t, k);
      assert Stamp(ws, t)[..n] == Stamp(ws[..n], t);
    }
  }

  // ---------------------------------------------------------------- writes still to come

  /** What transaction `t` has still to apply to `k`. */
  function Left(s: Tickets, t: TxId, k: Key): seq<Stamped> {
    if t in s.txns && s.txns[t].phase.Applying? then On(Stamp(s.txns[t].phase.pending, t), k) else []
  }

  /** What the transactions up to ticket `c` have still to apply to `k`, by ticket. */
  function Outstanding(s: Tickets, c: TxId, k: Key): seq<Stamped> {
    if c == 0 then [] else Outstanding(s, c - 1, k) + Left(s, c, k)
  }

  lemma LeftAfter(s: State, e: Event, t: TxId, k: Key)
    requires TicketLock.Inv(s.tickets) && Mvcc.Enabled(s, e)
    ensures var before, after := Left(s.tickets, t, k), Left(Mvcc.Next(s, e).tickets, t, k);
      if e.CommitStore? && e.t == t then before == [] && after == On(ResolvedBy(s, e), k)
      else if e.ApplyOne? && e.t == t then before == On(AppliedBy(s, e), k) + after
      else before == after
  {
    hide On, NextDb, Buffer.Plan, TicketLock.Inv;
    if OfTxn(e) && e.t == t {
      LeftAfterOwn(s, e, k);
    } else if e.Begin? && t == s.tickets.nextTxId {
      assert t !in s.tickets.txns by { TicketIsNew(s.tickets); }
    } else if t in s.tickets.txns {
      assert Mvcc.Next(s, e).tickets.txns[t] == s.tickets.txns[t];
    }
  }

  lemma TicketIsNew(s: Tickets)
    requires TicketLock.Inv(s)
    ensures s.nextTxId !in s.txns
  {
  }

  lemma LeftAfterOwn(s: State, e: Event, k: Key)
    requires Mvcc.Enabled(s, e) && OfTxn(e)
    ensures var before, after := Left(s.tickets, e.t, k), Left(Mvcc.Next(s, e).tickets, e.t, k);
      if e.CommitStore? then before == [] && after == On(ResolvedBy(s, e), k)
      else if e.ApplyOne? then before == On(AppliedBy(s, e), k) + after
      else before == after
  {
    hide On, NextDb, Buffer.Plan;
    OnNothing(k);
    var x := s.tickets.txns[e.t];
    assert Mvcc.Next(s, e).tickets.txns[e.t] == Moved(s.tickets, x, e);
    if e.ApplyOne? {
      var pending := x.phase.pending;
      assert Stamp(pending, e.t) == AppliedBy(s, e) + Stamp(pending[1..], e.t);
      OnConcat(AppliedBy(s, e), Stamp(pending[1..], e.t), k);
    } else {
      assert Stamp([], e.t) == [];
    }
  }

  lemma OnNothing(k: Key)
    ensures On([], k) == []
  {
  }

  lemma {:induction false} NothingOutstanding(s: Tickets, c: TxId, k: Key)
    requires forall t: TxId :: 1 <= t <= c ==> Left(s, t, k) == []
    ensures Outstanding(s, c, k) == []
    decreases c
  {
    if c > 0 {
      NothingOutstanding(s, c - 1, k);
    }
  }

  lemma {:induction false} FirstOutstanding(s: Tickets, c: TxId, t: TxId, k: Key)
    requires 1 <= t <= c && Left(s, t, k) != []
    ensures Outstanding(s, c, k) != [] && Outstanding(s, c, k)[0].t <= t
    decreases c
  {
    hide Left;
    if c > t {
      FirstOutstanding(s, c - 1, t, k);
    } else {
      LeftStamps(s, t, k);
      OutstandingStamps(s, c - 1, k);
    }
  }

  lemma LeftStamps(s: Tickets, t: TxId, k: Key)
    ensures forall x <- Left(s, t, k) :: x.t == t
  {
    if t in s.txns && s.txns[t].phase.Applying? {
      OnStamp(s.txns[t].phase.pending, t, k);
    }
  }

  lemma {:induction false} OutstandingStamps(s: Tickets, c: TxId, k: Key)
    ensures forall x <- Outstanding(s, c, k) :: x.t <= c
    decreases c
  {
    hide Left;
    if c > 0 {
      OutstandingStamps(s, c - 1, k);
      LeftStamps(s, c, k);
    }
  }

  /** A write that is applied while no earlier ticket has one to the same record left. */
  predicate InTurn(s: State, e: Event)
    requires Mvcc.Enabled(s, e)
  {
    e.ApplyOne? ==>
      forall t <- s.tickets.txns :: t < e.t ==> Left(s.tickets, t, KeyOf(s.tickets.txns[e.t].phase.pending[0])) == []
  }

  predicate AllInTurn(s: State, es: seq<Event>)
    requires Mvcc.Allowed(s, es)
    decreases |es|
  {
    es == [] || (InTurn(s, es[0]) && AllInTurn(Mvcc.Next(s, es[0]), es[1..]))
  }

  lemma {:induction false} OutstandingKept(s: State, e: Event, c: TxId, k: Key)
    requires TicketLock.Inv(s.tickets) && Mvcc.Enabled(s, e)
    requires (e.CommitStore? || e.ApplyOne?) ==> c < e.t
    ensures Outstanding(Mvcc.Next(s, e).tickets, c, k) == Outstanding(s.tickets, c, k)
    decreases c
  {
    hide Left, Mvcc.Next, TicketLock.Inv, Mvcc.Enabled;
    if c > 0 {
      OutstandingKept(s, e, c - 1, k);
      LeftAfter(s, e, c, k);
    }
  }

  /** A write applied in its turn is the first outstanding one to its record. */
  lemma {:induction false} OutstandingApplied(s: State, e: Event, c: TxId, k: Key)
    requires TicketLock.Inv(s.tickets) && Mvcc.Enabled(s, e) && e.ApplyOne? && 1 <= e.t <= c && InTurn(s, e)
    ensures Outstanding(s.tickets, c, k) == On(AppliedBy(s, e), k) + Outstanding(Mvcc.Next(s, e).tickets, c, k)
    decreases c
  {
    hide Left, Mvcc.Next, TicketLock.Inv, InTurn, Mvcc.Enabled, AppliedBy, On;
    LeftAfter(s, e, c, k);
    if c > e.t {
      OutstandingApplied(s, e, c - 1, k);
    } else {
      OutstandingKept(s, e, c - 1, k);
      FirstInTurn(s, e, k);
    }
  }

  lemma FirstInTurn(s: State, e: Event, k: Key)
    requires Mvcc.Enabled(s, e) && e.ApplyOne? && e.t >= 1 && InTurn(s, e)
    ensures On(AppliedBy(s, e), k) == [] || Outstanding(s.tickets, e.t - 1, k) == []
  {
    hide Left;
    if KeyOf(s.tickets.txns[e.t].phase.pending[0]) == k {
      forall t: TxId | 1 <= t < e.t ensures Left(s.tickets, t, k) == [] {
        if t !in s.tickets.txns {
          LeftOfNobody(s.tickets, t, k);
        }
      }
      NothingOutstanding(s.tickets, e.t - 1, k);
    }
  }

  lemma LeftOfNobody(s: Tickets, t: TxId, k: Key)
    requires t !in s.txns
    ensures Left(s, t, k) == []
  {
  }

  // ---------------------------------------------------------------- the order at each record

  /** The writes resolved are those applied so far, then those outstanding. */
  ghost predicate OnTime(s: State, h: seq<Stamped>, p: seq<Stamped>, k: Key) {
    On(p, k) == On(h, k) + Outstanding(s.tickets, s.tickets.committedTxId, k)
  }

  lemma StepOnTime(s: State, e: Event, h: seq<Stamped>, p: seq<Stamped>, k: Key)
    requires TicketLock.Inv(s.tickets) && Mvcc.Enabled(s, e) && InTurn(s, e)
    requires OnTime(s, h, p, k)
    ensures OnTime(Mvcc.Next(s, e), h + AppliedBy(s, e), p + ResolvedBy(s, e), k)
  {
    hide On, Outstanding, TicketLock.Inv, InTurn, Moved;
    var c := s.tickets.committedTxId;
    OnConcat(h, AppliedBy(s, e), k);
    OnConcat(p, ResolvedBy(s, e), k);
    OnNothing(k);
    StoreAdvancesByOne(s.tickets, e);
    if e.ApplyOne? {
      AppliesResolved(s.tickets, e);
      OutstandingApplied(s, e, c, k);
    } else {
      OutstandingKept(s, e, c, k);
      if Stores(e) {
        OutstandingNext(Mvcc.Next(s, e).tickets, k);
        LeftAfter(s, e, e.t, k);
      }
    }
  }

  lemma OutstandingNext(s: Tickets, k: Key)
    requires s.committedTxId > 0
    ensures Outstanding(s, s.committedTxId, k) ==
            Outstanding(s, s.committedTxId - 1, k) + Left(s, s.committedTxId, k)
  {
  }

  lemma {:induction false} RunOnTime(s: State, es: seq<Event>, h: seq<Stamped>, p: seq<Stamped>, k: Key)
    requires TicketLock.Inv(s.tickets) && Mvcc.Allowed(s, es) && AllInTurn(s, es)
    requires OnTime(s, h, p, k)
    ensures OnTime(Mvcc.Exec(s, es), h + Applied(s, es), p + Resolved(s, es), k)
    decreases |es|
  {
    hide TicketLock.Inv, Mvcc.Next, Mvcc.Enabled, InTurn, OnTime, AppliedBy, ResolvedBy;
    if es == [] {
      assert h + [] == h && p + [] == p;
    } else {
      var e, s' := es[0], Mvcc.Next(s, es[0]);
      StepOnTime(s, e, h, p, k);
      TicketStep(s, e);
      RunOnTime(s', es[1..], h + AppliedBy(s, e), p + ResolvedBy(s, e), k);
      assert h + Applied(s, es) == h + AppliedBy(s, e) + Applied(s', es[1..]);
      assert p + Resolved(s, es) == p + ResolvedBy(s, e) + Resolved(s', es[1..]);
    }
  }

  /** A write out of turn: at its record the order of application has left the ticket order. */
  lemma {:induction false} RunOvertakes(s: State, es: seq<Event>, h: seq<Stamped>, p: seq<Stamped>) returns (k: Key)
    requires TicketLock.Inv(s.tickets) && Mvcc.Allowed(s, es) && !AllInTurn(s, es)
    requires forall k :: OnTime(s, h, p, k)
    ensures !(On(h + Applied(s, es), k) <= On(p + Resolved(s, es), k))
    decreases |es|
  {
    hide TicketLock.Inv, Mvcc.Next, Mvcc.Enabled, InTurn, OnTime, AppliedBy, ResolvedBy, On;
    var e, s', rest := es[0], Mvcc.Next(s, es[0]), es[1..];
    if InTurn(s, e) {
      forall k ensures OnTime(s', h + AppliedBy(s, e), p + ResolvedBy(s, e), k) {
        StepOnTime(s, e, h, p, k);
      }
      TicketStep(s, e);
      k := RunOvertakes(s', rest, h + AppliedBy(s, e), p + ResolvedBy(s, e));
      assert h + Applied(s, es) == h + AppliedBy(s, e) + Applied(s', rest);
      assert p + Resolved(s, es) == p + ResolvedBy(s, e) + Resolved(s', rest);
    } else {
      k := Overtaken(s, e, h, p);
      var n := |On(h, k)|;
      OnConcat(h, AppliedBy(s, e), k);
      OnConcat(h + AppliedBy(s, e), Applied(s', rest), k);
      assert h + Applied(s, es) == h + AppliedBy(s, e) + Applied(s', rest);
      assert On(h + Applied(s, es), k)[n] == On(AppliedBy(s, e), k)[0];
      OnConcat(p, Resolved(s, es), k);
      assert On(p + Resolved(s, es), k)[n] == On(p, k)[n];
    }
  }

  lemma Overtaken(s: State, e: Event, h: seq<Stamped>, p: seq<Stamped>) returns (k: Key)
    requires TicketLock.Inv(s.tickets) && Mvcc.Enabled(s, e) && !InTurn(s, e)
    requires forall k :: OnTime(s, h, p, k)
    ensures |On(p, k)| > |On(h, k)| && |On(AppliedBy(s, e), k)| > 0
    ensures On(AppliedBy(s, e), k)[0] != On(p, k)[|On(h, k)|]
  {
    hide Outstanding, TicketLock.Inv, Left;
    k := KeyOf(s.tickets.txns[e.t].phase.pending[0]);
    var t :| t in s.tickets.txns && t < e.t && Left(s.tickets, t, k) != [];
    assert OnTime(s, h, p, k);
    AppliesResolved(s.tickets, e);
    TicketFromOne(s.tickets, t);
    FirstOutstanding(s.tickets, s.tickets.committedTxId, t, k);
    assert AppliedBy(s, e)[..0] == [];
  }

  lemma TicketFromOne(s: Tickets, t: TxId)
    requires TicketLock.Inv(s) && t in s.txns
    ensures t >= 1
  {
  }

  /** No transaction is applying its writes. */
  predicate NoneApplying(s: State) {
    forall t <- s.tickets.txns :: !s.tickets.txns[t].phase.Applying?
  }

  lemma NoneLeft(s: State, k: Key)
    requires NoneApplying(s)
    ensures Outstanding(s.tickets, s.tickets.committedTxId, k) == []
  {
    forall t: TxId ensures Left(s.tickets, t, k) == [] {
    }
    NothingOutstanding(s.tickets, s.tickets.committedTxId, k);
  }

  /** In every run, at every moment: the writes have reached each record in ticket order if and
      only if none was applied while an earlier ticket had one to the same record left. */
  lemma TicketOrderIff(s: State, es: seq<Event>)
    requires TicketLock.Inv(s.tickets) && NoneApplying(s) && Mvcc.Allowed(s, es)
    ensures AllInTurn(s, es) <==> forall k :: On(Applied(s, es), k) <= On(Resolved(s, es), k)
  {
    hide TicketLock.Inv, Mvcc.Exec, AllInTurn, Mvcc.Allowed, On, Applied, Resolved, OnTime;
    forall k ensures OnTime(s, [], [], k) {
      StartOnTime(s, k);
    }
    var h, p := Applied(s, es), Resolved(s, es);
    assert [] + h == h && [] + p == p;
    if AllInTurn(s, es) {
      forall k ensures On(h, k) <= On(p, k) {
        RunOnTime(s, es, [], [], k);
        OnTimeIsPrefix(Mvcc.Exec(s, es), h, p, k);
      }
    } else {
      var k := RunOvertakes(s, es, [], []);
    }
  }

  lemma StartOnTime(s: State, k: Key)
    requires NoneApplying(s)
    ensures OnTime(s, [], [], k)
  {
    NoneLeft(s, k);
  }

  lemma OnTimeIsPrefix(s: State, h: seq<Stamped>, p: seq<Stamped>, k: Key)
    requires OnTime(s, h, p, k)
    ensures On(h, k) <= On(p, k)
    ensures NoneApplying(s) ==> On(h, k) == On(p, k)
  {
    hide On, Outstanding;
    if NoneApplying(s) {
      NoneLeft(s, k);
    }
  }

  // ---------------------------------------------------------------- transactions on separate records

  predicate SomeOn(ws: seq<Write>, k: Key) {
    exists i :: 0 <= i < |ws| && KeyOf(ws[i]) == k
  }

  /** A ticket is resolved while no transaction still applying has a write left to a record its own
      plan touches. */
  ghost predicate Apart(s: State, e: Event)
    requires Mvcc.Enabled(s, e)
  {
    e.CommitStore? ==>
      forall t: TxId, k :: Left(s.tickets, t, k) != [] ==> !SomeOn(s.tickets.txns[e.t].buffer.Plan(), k)
  }

  ghost predicate AllApart(s: State, es: seq<Event>)
    requires Mvcc.Allowed(s, es)
    decreases |es|
  {
    es == [] || (Apart(s, es[0]) && AllApart(Mvcc.Next(s, es[0]), es[1..]))
  }

  /** At most one transaction has writes to a record left. */
  ghost predicate OneWriter(s: State, t: TxId, u: TxId, k: Key) {
    Left(s.tickets, t, k) != [] && Left(s.tickets, u, k) != [] ==> t == u
  }

  lemma {:induction false} OnSome(ws: seq<Write>, t: TxId, k: Key)
    ensures On(Stamp(ws, t), k) != [] <==> SomeOn(ws, k)
  {
    if ws != [] {
      var n := |ws| - 1;
      OnSome(ws[..n], t, k);
      assert Stamp(ws, t)[..n] == Stamp(ws[..n], t);
      assert SomeOn(ws[..n], k) ==> SomeOn(ws, k);
    }
  }

  lemma StepOneWriter(s: State, e: Event, t: TxId, u: TxId, k: Key)
    requires TicketLock.Inv(s.tickets) && Mvcc.Enabled(s, e) && Apart(s, e)
    requires forall t: TxId, u: TxId, k :: OneWriter(s, t, u, k)
    ensures OneWriter(Mvcc.Next(s, e), t, u, k)
  {
    hide Left, Mvcc.Next, TicketLock.Inv, SomeOn, On;
    LeftAfter(s, e, t, k);
    LeftAfter(s, e, u, k);
    assert OneWriter(s, t, u, k);
    if e.CommitStore? {
      OnSome(s.tickets.txns[e.t].buffer.Plan(), e.t, k);
    }
  }

  lemma OneWriterInTurn(s: State, e: Event)
    requires Mvcc.Enabled(s, e) && forall t: TxId, u: TxId, k :: OneWriter(s, t, u, k)
    ensures InTurn(s, e)
  {
    hide OneWriter;
    if e.ApplyOne? {
      var pending := s.tickets.txns[e.t].phase.pending;
      var k := KeyOf(pending[0]);
      OnSome(pending, e.t, k);
      forall t | t in s.tickets.txns && t < e.t ensures Left(s.tickets, t, k) == [] {
        assert OneWriter(s, t, e.t, k);
        OneWriterMeans(s, t, e.t, k);
      }
    }
  }

  lemma OneWriterMeans(s: State, t: TxId, u: TxId, k: Key)
    requires OneWriter(s, t, u, k) && t != u && Left(s.tickets, u, k) != []
    ensures Left(s.tickets, t, k) == []
  {
  }

  lemma {:induction false} RunApart(s: State, es: seq<Event>)
    requires TicketLock.Inv(s.tickets) && Mvcc.Allowed(s, es) && AllApart(s, es)
    requires forall t: TxId, u: TxId, k :: OneWriter(s, t, u, k)
    ensures AllInTurn(s, es)
    decreases |es|
  {
    hide TicketLock.Inv, Mvcc.Next, Mvcc.Enabled, InTurn, Apart, OneWriter;
    if es != [] {
      var s' := Mvcc.Next(s, es[0]);
      OneWriterInTurn(s, es[0]);
      TicketStep(s, es[0]);
      forall t: TxId, u: TxId, k ensures OneWriter(s', t, u, k) {
        StepOneWriter(s, es[0], t, u, k);
      }
      RunApart(s', es[1..]);
    }
  }

  // ---------------------------------------------------------------- the records

  lemma StepFolds(s: State, e: Event, recs: map<Key, Entity>, h: seq<Stamped>)
    requires Mvcc.Enabled(s, e) && !Removes(e) && s.db.recs == Folded(recs, h)
    ensures Mvcc.Next(s, e).db.recs == Folded(recs, h + AppliedBy(s, e))
  {
    if e.ApplyOne? {
      assert (h + AppliedBy(s, e))[..|h|] == h;
    } else {
      assert h + [] == h;
    }
  }

  /** Between reclaims, the records are the fold of the writes applied. */
  lemma {:induction false} RunFolds(s: State, es: seq<Event>, recs: map<Key, Entity>, h: seq<Stamped>)
    requires Mvcc.Allowed(s, es) && s.db.recs == Folded(recs, h)
    requires forall e <- es :: !Removes(e)
    ensures Mvcc.Exec(s, es).db.recs == Folded(recs, h + Applied(s, es))
    decreases |es|
  {
    hide Mvcc.Next, Mvcc.Enabled, Folded, AppliedBy;
    if es == [] {
      assert h + [] == h;
    } else {
      var s' := Mvcc.Next(s, es[0]);
      StepFolds(s, es[0], recs, h);
      RunFolds(s', es[1..], recs, h + AppliedBy(s, es[0]));
      assert h + Applied(s, es) == h + AppliedBy(s, es[0]) + Applied(s', es[1..]);
    }
  }

  ghost predicate SameAt(a: map<Key, Entity>, b: map<Key, Entity>, k: Key) {
    (k in a <==> k in b) && (k in a ==> a[k] == b[k])
  }

  lemma AppliedAt(a: map<Key, Entity>, b: map<Key, Entity>, x: Stamped, k: Key)
    requires SameAt(a, b, k)
    ensures SameAt(AppliedTo(a, x.w, x.t), if KeyOf(x.w) == k then AppliedTo(b, x.w, x.t) else b, k)
  {
  }

  /** A record depends on the writes to it alone. */
  lemma {:induction false} FoldedAt(recs: map<Key, Entity>, h: seq<Stamped>, k: Key)
    ensures SameAt(Folded(recs, h), Folded(recs, On(h, k)), k)
  {
    hide AppliedTo, SameAt;
    if h == [] {
      assert SameAt(recs, recs, k) by { SameAsItself(recs, k); }
    } else {
      var n := |h| - 1;
      FoldedAt(recs, h[..n], k);
      AppliedAt(Folded(recs, h[..n]), Folded(recs, On(h[..n], k)), h[n], k);
      if KeyOf(h[n].w) == k {
        assert On(h, k) == On(h[..n], k) + [h[n]];
        assert On(h, k)[..|On(h[..n], k)|] == On(h[..n], k);
        assert Folded(recs, On(h, k)) == AppliedTo(Folded(recs, On(h[..n], k)), h[n].w, h[n].t);
      } else {
        assert On(h, k) == On(h[..n], k);
      }
    }
  }

  lemma SameAsItself(a: map<Key, Entity>, k: Key)
    ensures SameAt(a, a, k)
  {
  }

  /** Two orders that agree at each record give the same records. */
  lemma SameOrderSameRecords(recs: map<Key, Entity>, h: seq<Stamped>, p: seq<Stamped>)
    requires forall k :: On(h, k) == On(p, k)
    ensures Folded(recs, h) == Folded(recs, p)
  {
    hide Folded, On;
    var a, b := Folded(recs, h), Folded(recs, p);
    forall k: Key ensures (k in a <==> k in b) && (k in a ==> a[k] == b[k]) {
      FoldedAt(recs, h, k);
      FoldedAt(recs, p, k);
    }
  }

  /** One client's commit of a plan is the fold of its writes, stamped. */
  lemma {:induction false} FoldedPlan(recs: map<Key, Entity>, ws: seq<Write>, t: TxId)
    ensures Folded(recs, Stamp(ws, t)) == AppliedAll(recs, ws, t)
  {
    hide AppliedTo;
    if ws != [] {
      FoldedPlan(recs, ws[..|ws| - 1], t);
      assert Stamp(ws, t)[..|ws| - 1] == Stamp(ws[..|ws| - 1], t);
    }
  }

  /** Concurrent application, once finished, has left the records that applying the same plans in
      ticket order leaves, provided no write was applied out of turn. */
  lemma ConcurrentIsSerial(s: State, es: seq<Event>)
    requires TicketLock.Inv(s.tickets) && NoneApplying(s) && Mvcc.Allowed(s, es)
    requires (forall e <- es :: !Removes(e)) && AllInTurn(s, es) && NoneApplying(Mvcc.Exec(s, es))
    ensures InOrder(Resolved(s, es), s.tickets.committedTxId)
    ensures Mvcc.Exec(s, es).db.recs == Folded(s.db.recs, Resolved(s, es))
  {
    hide TicketLock.Inv, Mvcc.Exec, AllInTurn, Mvcc.Allowed, On, Applied, Resolved, OnTime, InOrder, NoneApplying;
    ResolvedInOrder(s, es);
    var h, p := Applied(s, es), Resolved(s, es);
    assert [] + h == h && [] + p == p;
    RunFolds(s, es, s.db.recs, []);
    forall k ensures On(h, k) == On(p, k) {
      StartOnTime(s, k);
      RunOnTime(s, es, [], [], k);
      OnTimeIsPrefix(Mvcc.Exec(s, es), h, p, k);
    }
    SameOrderSameRecords(s.db.recs, h, p);
  }

  /** In particular when no two transactions write to one record while both are open to apply. */
  lemma SeparateIsSerial(s: State, es: seq<Event>)
    requires TicketLock.Inv(s.tickets) && NoneApplying(s) && Mvcc.Allowed(s, es)
    requires (forall e <- es :: !Removes(e)) && AllApart(s, es) && NoneApplying(Mvcc.Exec(s, es))
    ensures Mvcc.Exec(s, es).db.recs == Folded(s.db.recs, Resolved(s, es))
  {
    hide TicketLock.Inv, Mvcc.Exec, AllInTurn, AllApart, Mvcc.Allowed, Resolved, Folded;
    forall t: TxId, u: TxId, k ensures OneWriter(s, t, u, k) {
      assert Left(s.tickets, t, k) == [];
    }
    RunApart(s, es);
    ConcurrentIsSerial(s, es);
  }

  // ---------------------------------------------------------------- a lost update

  /** A transaction that runs from begin to end between another one's store of the counter and its
      only write. */
  function Overtaking(t: TxId, v: Write, w: Write): seq<Event>
    requires t < MAX_TX_ID
  {
    [Begin, LoadSnapshot(t), TicketLock.Push(t, v), CallCommit(t), CommitLoad(t), CommitStore(t)]
    + OneWrite(t + 1, w)
    + [TicketLock.ApplyOne(t), Finish(t)]
  }

  lemma OvertakingRun(s: State, t: TxId, v: Write, w: Write)
    requires NextIs(s, t) && t + 1 < MAX_TX_ID && !Creates(v) && !Creates(w)
    ensures Mvcc.Allowed(s, Overtaking(t, v, w))
    ensures Mvcc.Exec(s, Overtaking(t, v, w)).db == ApplyWrite(ApplyWrite(s.db, w, t + 1), v, t)
  {
    hide Mvcc.Exec, Mvcc.Allowed, Buffer.Push, ApplyWrite, CanAlloc;
    var a := [Begin, LoadSnapshot(t), TicketLock.Push(t, v)];
    var b := [CallCommit(t), CommitLoad(t), CommitStore(t)];
    var x := Txn(t - 1, false, Idle, NO_WRITES.Push(v));
    BeginRun(s, t, v);
    ResolveRun(Mvcc.Exec(s, a), s.tickets.txns, t, x, v);
    RunAppend(s, a, b);
    var s1 := Mvcc.Exec(s, a + b);
    OneWriteRun(s1, t + 1, w);
    RunAppend(s, a + b, OneWrite(t + 1, w));
    var s2 := Mvcc.Exec(s1, OneWrite(t + 1, w));
    var applying := x.(committed := true, phase := Applying([v]));
    assert s2.tickets.txns == s.tickets.txns[t + 1 := Done(t + 1, w)][t := applying];
    ApplyRun(s2, s.tickets.txns[t + 1 := Done(t + 1, w)], t, x, v);
    RunAppend(s, a + b + OneWrite(t + 1, w), [TicketLock.ApplyOne(t), Finish(t)]);
    assert Overtaking(t, v, w) == a + b + OneWrite(t + 1, w) + [TicketLock.ApplyOne(t), Finish(t)];
  }

  /** Two label updates of one node, applied against ticket order: the earlier ticket's labels and
      stamp are what stays, where ticket order leaves the later one's. */
  lemma OvertakenUpdateIsLost(labels: vec<LabelId>, labels': vec<LabelId>)
    ensures var es := Overtaking(2, Relabel(0, labels), Relabel(0, labels'));
      && Mvcc.Allowed(OneNode(), es)
      && Mvcc.Exec(OneNode(), es).db.recs == map[NodeKey(0) := NodeRec(Node.New(0, labels, 0, 2))]
      && Folded(OneNode().db.recs, [Stamped(2, Relabel(0, labels)), Stamped(3, Relabel(0, labels'))]) ==
         map[NodeKey(0) := NodeRec(Node.New(0, labels', 0, 3))]
  {
    hide Mvcc.Exec, Mvcc.Allowed, OneNode, Overtaking;
    OneNodeFacts();
    var v, w := Relabel(0, labels), Relabel(0, labels');
    OvertakingRun(OneNode(), 2, v, w);
    var recs := OneNode().db.recs;
    assert [Stamped(2, v), Stamped(3, w)][..1] == [Stamped(2, v)];
    assert [Stamped(2, v)][..0] == [];
    assert Folded(recs, [Stamped(2, v)]) == AppliedTo(recs, v, 2);
    assert Folded(recs, [Stamped(2, v), Stamped(3, w)]) == AppliedTo(AppliedTo(recs, v, 2), w, 3);
  }
}
