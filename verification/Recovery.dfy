/**
 What opening a store does with its replayed log, and the id space it restarts with. The node
 and the edge store recover in the same way and differ only in how they decode a payload.
 */
module Recovery {
  import opened Types
  import opened WalFormat

  type Decoder<!R> = seq<byte> -> Option<R>

  datatype Rebuilt<R> = Rebuilt(recs: map<u64, R>, free: seq<u64>, maxId: u64)

  /** One replay callback. A payload that does not decode is skipped, a delete of an absent id too. */
  function Apply<R>(dec: Decoder<R>, b: Rebuilt<R>, r: Record): Rebuilt<R> {
    if r.opcode == OP_INSERT then
      match dec(r.payload)
      case Some(x) => Rebuilt(b.recs[r.id := x], b.free, if r.id > b.maxId then r.id else b.maxId)
      case None => b
    else if r.opcode == OP_DELETE && r.id in b.recs then
      Rebuilt(b.recs - {r.id}, b.free + [r.id], b.maxId)
    else b
  }

  function RebuildFrom<R>(dec: Decoder<R>, start: Rebuilt<R>, rs: seq<Record>): Rebuilt<R> {
    if rs == [] then start
    else Apply(dec, RebuildFrom(dec, start, rs[..|rs| - 1]), rs[|rs| - 1])
  }

  function Rebuild<R>(dec: Decoder<R>, rs: seq<Record>): Rebuilt<R> {
    RebuildFrom(dec, Rebuilt(map[], [], 0), rs)
  }

  /** The map a store recovers from the records its log held and the commands sent since. */
  function Recovered<R>(dec: Decoder<R>, found: seq<Record>, cs: seq<WalCmd>): map<u64, R> {
    Rebuild(dec, found + ToRecords(cs)).recs
  }

  /** The counter stored after a replay; the increment wraps. */
  function NextAfter<R>(b: Rebuilt<R>): u64 {
    (b.maxId + 1) % TWO64
  }

  /** A record that stores something under its id: an insert whose payload decodes. */
  predicate Inserts<R>(dec: Decoder<R>, r: Record) {
    r.opcode == OP_INSERT && dec(r.payload).Some?
  }

  predicate Deletes(r: Record) {
    r.opcode == OP_DELETE
  }

  /** Somewhere in the log `id` is inserted and later deleted. */
  ghost predicate InsertedAndDeleted<R>(dec: Decoder<R>, rs: seq<Record>, id: u64) {
    exists i, j :: 0 <= i < j < |rs| && Inserts(dec, rs[i]) && Deletes(rs[j]) && rs[i].id == rs[j].id == id
  }

  ghost predicate Inserted<R>(dec: Decoder<R>, rs: seq<Record>, id: u64) {
    exists i :: 0 <= i < |rs| && Inserts(dec, rs[i]) && rs[i].id == id
  }

  /** Nowhere in the log is an id inserted, deleted and inserted again. */
  ghost predicate NoReinsert<R>(dec: Decoder<R>, rs: seq<Record>) {
    forall i, j, k :: 0 <= i < j < k < |rs| && Inserts(dec, rs[i]) && Deletes(rs[j]) && Inserts(dec, rs[k]) ==>
      !(rs[i].id == rs[j].id == rs[k].id)
  }

  ghost predicate CleanFree<R>(b: Rebuilt<R>) {
    NoDup(b.free) && forall k <- b.free :: k !in b.recs
  }

  /** Stored ids, free ids and ids handed out but not (yet) stored: together `0..next`, disjoint. */
  ghost predicate Partition(stored: set<u64>, free: seq<u64>, reserved: set<u64>, next: nat) {
    && NoDup(free)
    && (forall k <- free :: k !in stored && k !in reserved)
    && stored !! reserved
    && (forall k: u64 :: k < next <==> k in stored || k in free || k in reserved)
  }

  // ---------------------------------------------------------------- lemmas

  lemma ApplySnoc<R>(dec: Decoder<R>, start: Rebuilt<R>, rs: seq<Record>, r: Record)
    ensures RebuildFrom(dec, start, rs + [r]) == Apply(dec, RebuildFrom(dec, start, rs), r)
  {
    assert (rs + [r])[..|rs|] == rs;
  }

  /** Replaying a concatenated log continues from the state the first part leaves. */
  lemma {:induction false} ReplayConcat<R>(dec: Decoder<R>, start: Rebuilt<R>, a: seq<Record>, b: seq<Record>)
    ensures RebuildFrom(dec, start, a + b) == RebuildFrom(dec, RebuildFrom(dec, start, a), b)
  {
    if b == [] {
      assert a + b == a;
    } else {
      var n := |b| - 1;
      ReplayConcat(dec, start, a, b[..n]);
      assert (a + b)[..|a + b| - 1] == a + b[..n];
    }
  }

  lemma RecoveredSnoc<R>(dec: Decoder<R>, found: seq<Record>, cs: seq<WalCmd>, c: WalCmd)
    ensures Recovered(dec, found, cs + [c]) ==
      match c
      case Insert(id, record) =>
        if dec(record).Some? then Recovered(dec, found, cs)[id := dec(record).value] else Recovered(dec, found, cs)
      case Delete(id) => Recovered(dec, found, cs) - {id}
  {
    assert found + ToRecords(cs + [c]) == found + ToRecords(cs) + [ToRecord(c)];
    ApplySnoc(dec, Rebuilt(map[], [], 0), found + ToRecords(cs), ToRecord(c));
    var m := Recovered(dec, found, cs);
    assert c.Delete? && c.id !in m ==> m - {c.id} == m;
  }

  /** Every stored and every free id is at most the largest id seen, and that id is one of them. */
  lemma {:induction false} RebuiltBound<R>(dec: Decoder<R>, rs: seq<Record>)
    ensures var b := Rebuild(dec, rs);
      && (forall k <- b.recs :: k <= b.maxId)
      && (forall k <- b.free :: k <= b.maxId)
      && (b.maxId == 0 || b.maxId in b.recs || b.maxId in b.free)
  {
    if rs != [] {
      RebuiltBound(dec, rs[..|rs| - 1]);
      var b0, b := Rebuild(dec, rs[..|rs| - 1]), Rebuild(dec, rs);
      var r := rs[|rs| - 1];
      assert b == Apply(dec, b0, r);
      if b.free != b0.free {
        assert b.free[|b0.free|] == r.id;
        assert forall k :: k in b0.free ==> k in b.free;
      }
    }
  }

  /** The restarted counter lies above every known id exactly when it did not wrap. */
  lemma NextExceedsIff<R>(dec: Decoder<R>, rs: seq<Record>)
    ensures var b := Rebuild(dec, rs);
      (forall k: u64 :: k in b.recs || k in b.free ==> k < NextAfter(b)) <==> b.maxId < TWO64 - 1
  {
    RebuiltBound(dec, rs);
  }

  /** An id that is free twice, or both free and stored. */
  ghost predicate DirtyAt<R>(b: Rebuilt<R>, k: u64) {
    multiset(b.free)[k] + (if k in b.recs then 1 else 0) >= 2
  }

  lemma CleanMeansNoDirt<R>(b: Rebuilt<R>, k: u64)
    requires CleanFree(b)
    ensures !DirtyAt(b, k)
  {
    NoDupCount(b.free, k);
  }

  lemma {:induction false} NoDupCount(s: seq<u64>, k: u64)
    requires NoDup(s)
    ensures multiset(s)[k] <= 1
  {
    if s != [] {
      NoDupCount(s[1..], k);
      assert s == [s[0]] + s[1..];
      if s[0] == k {
        assert k !in s[1..];
      }
    }
  }

  lemma DirtStays<R>(dec: Decoder<R>, b: Rebuilt<R>, r: Record, k: u64)
    requires DirtyAt(b, k)
    ensures DirtyAt(Apply(dec, b, r), k)
  {
  }

  lemma InsertedSnoc<R>(dec: Decoder<R>, rs: seq<Record>, r: Record, id: u64)
    ensures Inserted(dec, rs + [r], id) <==> Inserted(dec, rs, id) || (Inserts(dec, r) && r.id == id)
  {
    var all := rs + [r];
    assert all[|rs|] == r;
    if i :| 0 <= i < |rs| && Inserts(dec, rs[i]) && rs[i].id == id {
      assert all[i] == rs[i];
    }
  }

  lemma InsertedAndDeletedSnoc<R>(dec: Decoder<R>, rs: seq<Record>, r: Record, id: u64)
    ensures InsertedAndDeleted(dec, rs + [r], id) <==>
            InsertedAndDeleted(dec, rs, id) || (Inserted(dec, rs, id) && Deletes(r) && r.id == id)
  {
    var all := rs + [r];
    assert all[|rs|] == r;
    if i, j :| 0 <= i < j < |rs| && Inserts(dec, rs[i]) && Deletes(rs[j]) && rs[i].id == rs[j].id == id {
      assert all[i] == rs[i] && all[j] == rs[j];
    }
    if i :| 0 <= i < |rs| && Inserts(dec, rs[i]) && rs[i].id == id {
      assert all[i] == rs[i];
    }
  }

  lemma NoReinsertSnoc<R>(dec: Decoder<R>, rs: seq<Record>, r: Record)
    ensures NoReinsert(dec, rs + [r]) <==>
            NoReinsert(dec, rs) && !(Inserts(dec, r) && InsertedAndDeleted(dec, rs, r.id))
  {
    var all := rs + [r];
    assert all[|rs|] == r;
    if NoReinsert(dec, all) {
      forall i, j, k | 0 <= i < j < k < |rs| && Inserts(dec, rs[i]) && Deletes(rs[j]) && Inserts(dec, rs[k])
        ensures !(rs[i].id == rs[j].id == rs[k].id)
      {
        assert all[i] == rs[i] && all[j] == rs[j] && all[k] == rs[k];
      }
      if i, j :| 0 <= i < j < |rs| && Inserts(dec, rs[i]) && Deletes(rs[j]) && rs[i].id == rs[j].id == r.id {
        assert all[i] == rs[i] && all[j] == rs[j];
      }
    }
  }

  /** The replay's own lists, read off the log: an id is known once it was inserted, and it is on
      the free list once it was deleted after that. */
  lemma {:induction false} FreeIff<R>(dec: Decoder<R>, rs: seq<Record>, id: u64)
    ensures var b := Rebuild(dec, rs);
      && (id in b.free <==> InsertedAndDeleted(dec, rs, id))
      && (id in b.recs || id in b.free <==> Inserted(dec, rs, id))
  {
    hide InsertedAndDeleted, Inserted;
    if rs == [] {
      NothingInserted(dec, id);
    } else {
      var n := |rs| - 1;
      var b0, r := Rebuild(dec, rs[..n]), rs[n];
      FreeIff(dec, rs[..n], id);
      assert rs == rs[..n] + [r];
      InsertedSnoc(dec, rs[..n], r, id);
      InsertedAndDeletedSnoc(dec, rs[..n], r, id);
      assert Rebuild(dec, rs) == Apply(dec, b0, r);
    }
  }

  lemma NothingInserted<R>(dec: Decoder<R>, id: u64)
    ensures !Inserted(dec, [], id) && !InsertedAndDeleted(dec, [], id)
  {
  }

  /** Either no deleted id was inserted again, or some id is now dirty. */
  lemma {:induction false} CleanOrDirty<R>(dec: Decoder<R>, rs: seq<Record>) returns (k: u64)
    ensures NoReinsert(dec, rs) ==> CleanFree(Rebuild(dec, rs))
    ensures !NoReinsert(dec, rs) ==> DirtyAt(Rebuild(dec, rs), k)
  {
    hide NoReinsert, InsertedAndDeleted;
    k := 0;
    if rs == [] {
      assert NoReinsert(dec, rs) by { NothingReinserted(dec); }
    } else {
      var b0, r := Rebuild(dec, rs[..|rs| - 1]), rs[|rs| - 1];
      k := CleanOrDirty(dec, rs[..|rs| - 1]);
      assert rs == rs[..|rs| - 1] + [r];
      NoReinsertSnoc(dec, rs[..|rs| - 1], r);
      FreeIff(dec, rs[..|rs| - 1], r.id);
      if NoReinsert(dec, rs[..|rs| - 1]) {
        if Inserts(dec, r) && r.id in b0.free {
          k := r.id;
          assert k in multiset(b0.free);
        }
      } else {
        DirtStays(dec, b0, r, k);
      }
    }
  }

  lemma NothingReinserted<R>(dec: Decoder<R>)
    ensures NoReinsert(dec, [])
  {
  }

  /** The recovered free list is duplicate-free and disjoint from the stored ids exactly when the
      log never inserts, deletes and again inserts an id: a replayed insert does not take its id off the
      free list. */
  lemma CleanFreeIff<R>(dec: Decoder<R>, rs: seq<Record>)
    ensures CleanFree(Rebuild(dec, rs)) <==> NoReinsert(dec, rs)
  {
    var k := CleanOrDirty(dec, rs);
    if !NoReinsert(dec, rs) && CleanFree(Rebuild(dec, rs)) {
      CleanMeansNoDirt(Rebuild(dec, rs), k);
      assert false;
    }
  }

  /** Insert, delete, insert again: the id comes back both stored and free. */
  lemma RecycledIdComesBackFree<R>(dec: Decoder<R>, p: seq<byte>, id: u64)
    requires dec(p).Some?
    ensures var ins, del := Record(OP_INSERT, id, p), Record(OP_DELETE, id, []);
      var b := Rebuild(dec, [ins, del, ins]);
      id in b.recs && b.free == [id]
  {
    hide RebuildFrom;
    var ins, del, b0 := Record(OP_INSERT, id, p), Record(OP_DELETE, id, []), Rebuilt(map[], [], 0);
    assert RebuildFrom(dec, b0, []) == b0 by { RebuildEmpty(dec, b0); }
    ApplySnoc(dec, b0, [], ins);
    ApplySnoc(dec, b0, [ins], del);
    ApplySnoc(dec, b0, [ins, del], ins);
    assert [] + [ins] == [ins] && [ins] + [del] == [ins, del] && [ins, del] + [ins] == [ins, del, ins];
  }

  lemma RebuildEmpty<R>(dec: Decoder<R>, b: Rebuilt<R>)
    ensures RebuildFrom(dec, b, []) == b
  {
  }

  /** After a clean replay the id space is again a partition; ids below the counter that are
      neither stored nor free (rolled back or never logged) stay out of use. */
  lemma RestartPartition<R>(dec: Decoder<R>, rs: seq<Record>) returns (leaked: set<u64>)
    requires NoReinsert(dec, rs) && Rebuild(dec, rs).maxId < TWO64 - 1
    ensures var b := Rebuild(dec, rs);
      Partition(b.recs.Keys, b.free, leaked, NextAfter(b))
  {
    CleanFreeIff(dec, rs);
    RebuiltBound(dec, rs);
    var b := Rebuild(dec, rs);
    leaked := set k: int | 0 <= k <= b.maxId && k !in b.recs && k !in b.free;
  }

  // ---------------------------------------------------------------- the rebuilt store, read off the log

  /** Among the first `n` records `id` is inserted and not deleted after that. */
  ghost predicate StoredAt<R>(dec: Decoder<R>, rs: seq<Record>, n: nat, id: u64)
    requires n <= |rs|
  {
    exists p ::
      && 0 <= p < n && Inserts(dec, rs[p]) && rs[p].id == id
      && forall q :: p < q < n ==> !(Deletes(rs[q]) && rs[q].id == id)
  }

  /** `x` is what the last insert of `id` decodes to. */
  ghost predicate IsLastInsert<R>(dec: Decoder<R>, rs: seq<Record>, id: u64, x: R) {
    exists p ::
      && 0 <= p < |rs| && Inserts(dec, rs[p]) && rs[p].id == id && dec(rs[p].payload) == Some(x)
      && forall q :: p < q < |rs| ==> !(Inserts(dec, rs[q]) && rs[q].id == id)
  }

  /** `m` is the largest id inserted, or 0 if there is none. */
  ghost predicate IsMaxId<R>(dec: Decoder<R>, rs: seq<Record>, m: u64) {
    && (forall r <- rs :: Inserts(dec, r) ==> r.id <= m)
    && (m == 0 || exists r <- rs :: Inserts(dec, r) && r.id == m)
  }

  /** `free` lists the ids of the deletes that found something stored, in log order. */
  ghost predicate IsFreeList<R>(dec: Decoder<R>, rs: seq<Record>, free: seq<u64>) {
    exists ps: seq<nat> :: FreedAt(dec, rs, ps, free)
  }

  ghost predicate FreedAt<R>(dec: Decoder<R>, rs: seq<Record>, ps: seq<nat>, free: seq<u64>) {
    && |ps| == |free|
    && (forall j :: 0 <= j < |ps| ==> ps[j] < |rs| && rs[ps[j]].id == free[j])
    && (forall i, j :: 0 <= i < j < |ps| ==> ps[i] < ps[j])
    && (forall i: nat :: i in ps <==> i < |rs| && Deletes(rs[i]) && StoredAt(dec, rs, i, rs[i].id))
  }

  lemma StoredAtPrefix<R>(dec: Decoder<R>, rs: seq<Record>, r: Record, n: nat, id: u64)
    requires n <= |rs|
    ensures StoredAt(dec, rs + [r], n, id) <==> StoredAt(dec, rs, n, id)
  {
    assert forall p :: 0 <= p < |rs| ==> (rs + [r])[p] == rs[p];
  }

  lemma StoredSnoc<R>(dec: Decoder<R>, rs: seq<Record>, r: Record, id: u64)
    ensures StoredAt(dec, rs + [r], |rs| + 1, id) <==>
      if r.id == id && Inserts(dec, r) then true
      else if r.id == id && Deletes(r) then false
      else StoredAt(dec, rs, |rs|, id)
  {
    var all := rs + [r];
    assert all[|rs|] == r && forall p :: 0 <= p < |rs| ==> all[p] == rs[p];
    if !(r.id == id && Inserts(dec, r)) && !(r.id == id && Deletes(r)) && StoredAt(dec, rs, |rs|, id) {
      var p :| 0 <= p < |rs| && Inserts(dec, rs[p]) && rs[p].id == id
               && forall q :: p < q < |rs| ==> !(Deletes(rs[q]) && rs[q].id == id);
      assert all[p] == rs[p];
    }
  }

  lemma LastInsertSnoc<R>(dec: Decoder<R>, rs: seq<Record>, r: Record, id: u64, x: R)
    ensures !(Inserts(dec, r) && r.id == id) && IsLastInsert(dec, rs, id, x) ==> IsLastInsert(dec, rs + [r], id, x)
    ensures Inserts(dec, r) && r.id == id ==> IsLastInsert(dec, rs + [r], id, dec(r.payload).value)
  {
    var all := rs + [r];
    assert all[|rs|] == r;
    if !(Inserts(dec, r) && r.id == id) && IsLastInsert(dec, rs, id, x) {
      var p :| 0 <= p < |rs| && Inserts(dec, rs[p]) && rs[p].id == id && dec(rs[p].payload) == Some(x)
               && forall q :: p < q < |rs| ==> !(Inserts(dec, rs[q]) && rs[q].id == id);
      assert all[p] == rs[p];
    }
  }

  lemma FreedSnoc<R>(dec: Decoder<R>, rs: seq<Record>, r: Record, ps: seq<nat>, free: seq<u64>)
    requires FreedAt(dec, rs, ps, free)
    ensures var frees := Deletes(r) && StoredAt(dec, rs, |rs|, r.id);
      FreedAt(dec, rs + [r], if frees then ps + [|rs|] else ps, if frees then free + [r.id] else free)
  {
    hide StoredAt;
    var all := rs + [r];
    var frees := Deletes(r) && StoredAt(dec, rs, |rs|, r.id);
    var ps', free' := if frees then ps + [|rs|] else ps, if frees then free + [r.id] else free;
    FreedMembers(dec, rs, r, ps, free);
    forall j | 0 <= j < |ps'| ensures ps'[j] < |all| && all[ps'[j]].id == free'[j] {
      if j < |ps| {
        assert ps[j] < |rs| && rs[ps[j]].id == free[j];
      }
    }
    forall i, j | 0 <= i < j < |ps'| ensures ps'[i] < ps'[j] {
      assert i < |ps| && ps[i] < |rs|;
    }
  }

  lemma FreedMembers<R>(dec: Decoder<R>, rs: seq<Record>, r: Record, ps: seq<nat>, free: seq<u64>)
    requires FreedAt(dec, rs, ps, free)
    ensures var all := rs + [r];
      var ps' := if Deletes(r) && StoredAt(dec, rs, |rs|, r.id) then ps + [|rs|] else ps;
      forall i: nat :: i in ps' <==> i < |all| && Deletes(all[i]) && StoredAt(dec, all, i, all[i].id)
  {
    hide StoredAt;
    var all := rs + [r];
    var ps' := if Deletes(r) && StoredAt(dec, rs, |rs|, r.id) then ps + [|rs|] else ps;
    forall i: nat ensures i in ps' <==> i < |all| && Deletes(all[i]) && StoredAt(dec, all, i, all[i].id) {
      if i < |rs| {
        StoredAtPrefix(dec, rs, r, i, rs[i].id);
        assert all[i] == rs[i];
      } else if i == |rs| {
        StoredAtPrefix(dec, rs, r, i, r.id);
        assert i !in ps;
      }
    }
  }

  /** What opening recovers, read off the log: under each id the last insert not deleted since. */
  lemma {:induction false} RecordIs<R>(dec: Decoder<R>, rs: seq<Record>, id: u64)
    ensures var b := Rebuild(dec, rs);
      && (id in b.recs <==> StoredAt(dec, rs, |rs|, id))
      && (id in b.recs ==> IsLastInsert(dec, rs, id, b.recs[id]))
  {
    hide StoredAt, IsLastInsert;
    if rs == [] {
      NothingRebuilt(dec, id);
    } else {
      var before, r := rs[..|rs| - 1], rs[|rs| - 1];
      var b := Rebuild(dec, before);
      RecordIs(dec, before, id);
      assert rs == before + [r];
      StoredSnoc(dec, before, r, id);
      if id in b.recs {
        LastInsertSnoc(dec, before, r, id, b.recs[id]);
      } else if Inserts(dec, r) {
        LastInsertSnoc(dec, before, r, id, dec(r.payload).value);
      }
      assert Rebuild(dec, rs) == Apply(dec, b, r);
    }
  }

  /** And the free list as the ids deleted while stored, in log order, and the largest id inserted. */
  lemma {:induction false} RebuiltIs<R>(dec: Decoder<R>, rs: seq<Record>) returns (ps: seq<nat>)
    ensures var b := Rebuild(dec, rs);
      IsMaxId(dec, rs, b.maxId) && FreedAt(dec, rs, ps, b.free)
  {
    hide StoredAt, IsMaxId, FreedAt;
    if rs == [] {
      ps := [];
      NothingRebuilt(dec, 0);
    } else {
      var before, r := rs[..|rs| - 1], rs[|rs| - 1];
      var b := Rebuild(dec, before);
      ps := RebuiltIs(dec, before);
      assert rs == before + [r];
      RecordIs(dec, before, r.id);
      MaxIdSnoc(dec, before, r, b.maxId);
      FreedSnoc(dec, before, r, ps, b.free);
      if Deletes(r) && StoredAt(dec, before, |before|, r.id) {
        ps := ps + [|before|];
      }
      assert Rebuild(dec, rs) == Apply(dec, b, r);
    }
  }

  lemma MaxIdSnoc<R>(dec: Decoder<R>, rs: seq<Record>, r: Record, m: u64)
    requires IsMaxId(dec, rs, m)
    ensures IsMaxId(dec, rs + [r], if Inserts(dec, r) && r.id > m then r.id else m)
  {
    assert forall x :: x in rs + [r] <==> x in rs || x == r;
  }

  lemma NothingRebuilt<R>(dec: Decoder<R>, id: u64)
    ensures var b := Rebuild(dec, []);
      && id !in b.recs && !StoredAt(dec, [], 0, id) && IsMaxId(dec, [], b.maxId) && FreedAt(dec, [], [], b.free)
  {
  }

  /** The counter a store opened from these records starts with: one more than the largest id
      inserted, modulo `2^64`; 1 if there is none. */
  ghost predicate IsNextId<R>(dec: Decoder<R>, rs: seq<Record>, next: u64) {
    exists m: u64 :: IsMaxId(dec, rs, m) && next == (m + 1) % TWO64
  }

  /** All of a rebuilt store, read off the log. */
  ghost predicate IsRebuilt<R(!new)>(
    dec: Decoder<R>, rs: seq<Record>, recs: map<u64, R>, free: seq<u64>)
  {
    && (forall id: u64 :: id in recs <==> StoredAt(dec, rs, |rs|, id))
    && (forall id: u64 :: id in recs ==> IsLastInsert(dec, rs, id, recs[id]))
    && IsFreeList(dec, rs, free)
  }

  lemma RebuiltIsAll<R(!new)>(dec: Decoder<R>, rs: seq<Record>)
    ensures var b := Rebuild(dec, rs);
      IsRebuilt(dec, rs, b.recs, b.free) && IsNextId(dec, rs, NextAfter(b))
  {
    hide StoredAt, IsLastInsert, IsMaxId, FreedAt, RebuildFrom;
    var ps := RebuiltIs(dec, rs);
    forall id: u64
      ensures id in Rebuild(dec, rs).recs <==> StoredAt(dec, rs, |rs|, id)
      ensures id in Rebuild(dec, rs).recs ==> IsLastInsert(dec, rs, id, Rebuild(dec, rs).recs[id])
    {
      RecordIs(dec, rs, id);
    }
  }

  /** Opening succeeds when the replay does; a file no longer than the magic is not replayed. */
  function OpenStatus(file: seq<byte>): Status {
    if |file| <= 4 then Complete else ParseFile(file).status
  }

  method OpenLog<R>(dec: Decoder<R>, file: seq<byte>) returns (b: Rebuilt<R>, next: u64, status: Status)
    ensures status == OpenStatus(file)
    ensures b == Rebuild(dec, ParseFile(file).records)
    ensures next == if |file| <= 4 then 0 else NextAfter(b)
  {
    b := Rebuilt(map[], [], 0);
    if |file| <= 4 {
      ShortFile(file);
      return b, 0, Complete;
    }
    var records;
    records, status := ReplayWal(file);
    var i := 0;
    while i < |records|
      invariant i <= |records|
      invariant b == Rebuild(dec, records[..i])
    {
      ApplySnoc(dec, Rebuilt(map[], [], 0), records[..i], records[i]);
      assert records[..i + 1] == records[..i] + [records[i]];
      b := Apply(dec, b, records[i]);
      i := i + 1;
    }
    assert records[..i] == records;
    next := NextAfter(b);
  }

  lemma ShortFile(file: seq<byte>)
    requires |file| <= 4
    ensures ParseFile(file).records == []
  {
  }

  /** The id space an opened store starts with is a partition exactly when the log inserts no id
      again and the counter did not wrap; unused ids below the counter stay out of use. */
  lemma OpenPartition<R>(dec: Decoder<R>, file: seq<byte>, next: u64) returns (leaked: set<u64>)
    requires next == if |file| <= 4 then 0 else NextAfter(Rebuild(dec, ParseFile(file).records))
    ensures var b := Rebuild(dec, ParseFile(file).records);
      Partition(b.recs.Keys, b.free, leaked, next) <==>
        |file| <= 4 || (NoReinsert(dec, ParseFile(file).records) && next > 0)
  {
    hide Partition, NoReinsert, NextAfter, ParseFile, RebuildFrom;
    var b := Rebuild(dec, ParseFile(file).records);
    leaked := {};
    if |file| <= 4 {
      ShortFile(file);
      RebuildEmpty(dec, Rebuilt(map[], [], 0));
      assert b.recs.Keys == {};
      EmptyPartition();
    } else if NoReinsert(dec, ParseFile(file).records) && next > 0 {
      NextAfterPositive(Rebuild(dec, ParseFile(file).records));
      leaked := RestartPartition(dec, ParseFile(file).records);
    } else {
      NoPartition(dec, ParseFile(file).records, leaked, next);
    }
  }

  lemma NoPartition<R>(dec: Decoder<R>, rs: seq<Record>, leaked: set<u64>, next: u64)
    requires next == NextAfter(Rebuild(dec, rs)) && (!NoReinsert(dec, rs) || next == 0)
    ensures var b := Rebuild(dec, rs);
      !Partition(b.recs.Keys, b.free, leaked, next)
  {
    hide NoReinsert, RebuildFrom;
    CleanFreeIff(dec, rs);
    RebuiltBound(dec, rs);
  }

  /** A file holding everything appended to a whole log recovers what memory holds, and is itself a
      whole log for the next opening. */
  lemma SyncedRecovers<R>(dec: Decoder<R>, base: seq<byte>, cs: seq<WalCmd>)
    requires Whole(base) && AllFit(cs)
    ensures Whole(base + EncodeAll(cs))
    ensures var file := ParseFile(base + EncodeAll(cs));
      file.status == Complete && Rebuild(dec, file.records).recs == Recovered(dec, ParseFile(base).records, cs)
  {
    hide ParseFile, EncodeAll, RebuildFrom, Whole, AllFit;
    AppendedReplaysIff(base, cs);
    WholeAppend(base, cs);
  }

  /** A file that opens can be appended to exactly when it has no torn bytes: with one to three of
      them it opens this time, and after one more delete it does not open again. */
  lemma ReopensIff(file: seq<byte>, id: u64)
    requires file != [] && OpenStatus(file) == Complete
    ensures Whole(file) <==> OpenStatus(file + Encode(Delete(id))) == Complete
  {
    hide Encode, Parse, WholeRecords;
    var d := Encode(Delete(id));
    EncodedDelete(id);
    assert d[0] == d[..4][0];
    if |file| < 4 {
      assert (file + d)[..4][|file|] == 9;
    } else {
      assert (file + d)[..4] == file[..4] && (file + d)[4..] == file[4..] + d;
      if file[..4] == MAGIC {
        assert Parse(file[4..]).status == Complete by { OpensParsed(file); }
        AppendableIff(file[4..], id);
      }
    }
  }

  lemma OpensParsed(file: seq<byte>)
    requires |file| >= 4 && file[..4] == MAGIC && OpenStatus(file) == Complete
    ensures Parse(file[4..]).status == Complete
  {
  }

  // ---------------------------------------------------------------- allocation

  lemma EmptyPartition()
    ensures Partition({}, [], {}, 0)
  {
  }

  lemma NextAfterPositive<R>(b: Rebuilt<R>)
    requires NextAfter(b) > 0
    ensures b.maxId < TWO64 - 1
  {
  }

  /** Handing out an id: the oldest free one, else the next fresh one. The id space stays
      partitioned until the counter itself wraps. */
  lemma AllocKeepsPartition(stored: set<u64>, free: seq<u64>, reserved: set<u64>, next: nat)
    requires Partition(stored, free, reserved, next)
    requires next <= NULL_EDGE
    ensures free != [] ==> Partition(stored, free[1..], reserved + {free[0]}, next)
    ensures free == [] && next < NULL_EDGE ==> Partition(stored, free, reserved + {next}, next + 1)
    ensures free == [] && next == NULL_EDGE ==> !Partition(stored, free, reserved + {next}, 0)
    ensures var id := if free != [] then free[0] else next;
      id !in stored && id !in reserved
  {
    if free != [] {
      assert forall k :: k in free <==> k == free[0] || k in free[1..];
    }
  }

  /** Storing a record under an id handed out earlier never overwrites one. */
  lemma StoreKeepsPartition(stored: set<u64>, free: seq<u64>, reserved: set<u64>, next: nat, id: u64)
    requires Partition(stored, free, reserved, next) && id in reserved
    ensures Partition(stored + {id}, free, reserved - {id}, next) && id !in stored
  {
  }

  /** Removing a stored id makes it free, once. */
  lemma FreeKeepsPartition(stored: set<u64>, free: seq<u64>, reserved: set<u64>, next: nat, id: u64)
    requires Partition(stored, free, reserved, next) && id in stored
    ensures Partition(stored - {id}, free + [id], reserved, next)
  {
    assert forall k :: k in free + [id] <==> k in free || k == id;
  }
}
