/** Columnar property storage: sparse columns that grow on demand, logged cell by cell. */
module Props {
  import opened Types
  import opened Bytes
  import opened WalFormat
  import opened WalThread
  import opened Bincode

  /** A cell holds an optional value whose lengths fit memory. */
  type Cell = v: Option<Value> | EncodableCell(v) witness None

  /** A column is known by its label and its property name (UTF-8 bytes). */
  type ColumnKey = (LabelId, seq<byte>)
  type Column = seq<Cell>
  type Columns = map<ColumnKey, Column>

  datatype CellWrite = CellWrite(labelId: LabelId, prop: seq<byte>, row: u32, value: Cell)

  // ---------------------------------------------------------------- columns

  function ExtendTo(col: Column, minLen: nat): (r: Column)
    ensures |r| == if |col| < minLen then minLen else |col|
    ensures forall i :: 0 <= i < |r| ==> r[i] == if i < |col| then col[i] else None
  {
    if |col| < minLen then col + seq(minLen - |col|, _ => None) else col
  }

  function ColumnOf(cols: Columns, key: ColumnKey): Column {
    if key in cols then cols[key] else []
  }

  /** A cell beyond the end of its column reads like a hole. */
  function CellAt(cols: Columns, key: ColumnKey, row: nat): Cell {
    var col := ColumnOf(cols, key);
    if row < |col| then col[row] else None
  }

  function Written(cols: Columns, w: CellWrite): Columns {
    var key := (w.labelId, w.prop);
    cols[key := ExtendTo(ColumnOf(cols, key), w.row + 1)[w.row := w.value]]
  }

  function WrittenAll(cols: Columns, ws: seq<CellWrite>): Columns {
    if ws == [] then cols else Written(WrittenAll(cols, ws[..|ws| - 1]), ws[|ws| - 1])
  }

  lemma WrittenNothing(cols: Columns, ws: seq<CellWrite>)
    requires ws == []
    ensures WrittenAll(cols, ws) == cols
  {
  }

  lemma WrittenSnoc(cols: Columns, ws: seq<CellWrite>, w: CellWrite)
    ensures WrittenAll(cols, ws + [w]) == Written(WrittenAll(cols, ws), w)
  {
    assert (ws + [w])[..|ws|] == ws;
  }

  /** A write changes one cell; whatever rows it had to create are holes. */
  lemma WrittenCells(cols: Columns, w: CellWrite, key: ColumnKey, row: nat)
    ensures CellAt(Written(cols, w), key, row) ==
            if key == (w.labelId, w.prop) && row == w.row then w.value else CellAt(cols, key, row)
    ensures |ColumnOf(Written(cols, w), key)| ==
            if key == (w.labelId, w.prop) && |ColumnOf(cols, key)| <= w.row then w.row + 1 else |ColumnOf(cols, key)|
  {
  }

  // ---------------------------------------------------------------- cell records

  /** `[labelId: u32][name length: u8][name][row: u32][value]`; the length is cast to `u8`. */
  function CellPayload(w: CellWrite): (s: seq<byte>)
    ensures |s| >= 10 + |w.prop|
  {
    U32(w.labelId) + ([|w.prop| % 256] + (w.prop + (U32(w.row) + EncodeCell(w.value))))
  }

  function ParseCell(s: seq<byte>): Option<CellWrite> {
    if |s| < 10 then None
    else
      var headerEnd: int := 5 + (s[4] as int);
      if |s| < headerEnd + 4 then None
      else
        var value :- DecodeCell(s[headerEnd + 4..]);
        Some(CellWrite(ReadU32(s[..4]), s[5..headerEnd], ReadU32(s[headerEnd..headerEnd + 4]), value))
  }

  lemma ParseCellName(s: seq<byte>)
    ensures ParseCell(s).Some? ==> |ParseCell(s).value.prop| <= 255
  {
  }

  lemma ParseCellPayload(w: CellWrite)
    requires |w.prop| <= 255
    ensures ParseCell(CellPayload(w)) == Some(w)
  {
    hide U32, ReadU32, EncodeCell, DecodeCell;
    var s := CellPayload(w);
    var n := 5 + |w.prop|;
    DecodeEncodeCell(w.value);
    assert s[..4] == U32(w.labelId) && s[4] == |w.prop| && s[5..n] == w.prop;
    assert s[n..n + 4] == U32(w.row) && s[n + 4..] == EncodeCell(w.value);
  }

  /** Where the fields of a cell record lie, the name being as long as it is. */
  lemma CellLayout(w: CellWrite)
    ensures var s, end := CellPayload(w), 5 + |w.prop|;
      && |s| > end + 4 && ReadU32(s[..4]) == w.labelId && s[4] == |w.prop| % 256 && s[5..end] == w.prop
      && ReadU32(s[end..end + 4]) == w.row && s[end + 4..] == EncodeCell(w.value)
  {
    hide ReadU32, EncodeCell;
    var s, end := CellPayload(w), 5 + |w.prop|;
    assert s[..4] == U32(w.labelId) && s[5..end] == w.prop && s[end..end + 4] == U32(w.row);
    assert s[end + 4..] == EncodeCell(w.value);
  }

  /** The cell codec round-trips, holes and empty names included, exactly for names whose length
      fits its one-byte field. */
  lemma CellCodecIff(w: CellWrite)
    ensures ParseCell(CellPayload(w)) == Some(w) <==> |w.prop| <= 255
  {
    hide CellPayload, ParseCell;
    ParseCellName(CellPayload(w));
    if |w.prop| <= 255 {
      ParseCellPayload(w);
    }
  }

  // ---------------------------------------------------------------- replay

  /** What opening rebuilds: the columns, and per label the next row to hand out. */
  datatype Rebuilt = Rebuilt(cols: Columns, rows: map<LabelId, u32>)

  function RowsOf(rows: map<LabelId, u32>, labelId: LabelId): u32 {
    if labelId in rows then rows[labelId] else 0
  }

  /** Every label's counter is at least the length of each of its columns. */
  predicate Covered(cols: Columns, rows: map<LabelId, u32>) {
    forall key <- cols :: |cols[key]| <= RowsOf(rows, key.0)
  }

  /** One replay callback; the row counter is raised to the row after, in `u32` arithmetic. */
  function Apply(b: Rebuilt, r: Record): Rebuilt {
    if r.opcode != OP_INSERT then b
    else match ParseCell(r.payload)
      case None => b
      case Some(w) =>
        var after: u32 := (w.row + 1) % TWO32;
        var before := RowsOf(b.rows, w.labelId);
        Rebuilt(Written(b.cols, w), b.rows[w.labelId := if after > before then after else before])
  }

  function Rebuild(rs: seq<Record>): Rebuilt {
    if rs == [] then Rebuilt(map[], map[]) else Apply(Rebuild(rs[..|rs| - 1]), rs[|rs| - 1])
  }

  /** The columns recovered from the records the log held and the commands sent since. */
  function Recovered(found: seq<Record>, cs: seq<WalCmd>): Columns {
    Rebuild(found + ToRecords(cs)).cols
  }

  function PutCell(w: CellWrite): WalCmd {
    Insert(w.labelId, CellPayload(w))
  }

  lemma RebuildSnoc(rs: seq<Record>, r: Record)
    ensures Rebuild(rs + [r]) == Apply(Rebuild(rs), r)
  {
    assert (rs + [r])[..|rs|] == rs;
  }

  lemma RecoveredPut(found: seq<Record>, cs: seq<WalCmd>, w: CellWrite)
    requires |w.prop| <= 255
    ensures Recovered(found, cs + [PutCell(w)]) == Written(Recovered(found, cs), w)
  {
    hide CellPayload, ParseCell, Written, Rebuild;
    ParseCellPayload(w);
    assert found + ToRecords(cs + [PutCell(w)]) == found + ToRecords(cs) + [ToRecord(PutCell(w))];
    RebuildSnoc(found + ToRecords(cs), ToRecord(PutCell(w)));
  }

  /** Each column is at most as long as its label's counter, unless the counter wrapped. */
  predicate CoveredOrFull(b: Rebuilt) {
    forall key <- b.cols :: |b.cols[key]| <= RowsOf(b.rows, key.0) || |b.cols[key]| == TWO32
  }

  lemma ApplyKeepsCovered(b: Rebuilt, r: Record)
    requires CoveredOrFull(b)
    ensures CoveredOrFull(Apply(b, r))
  {
    hide ParseCell, Written;
    var b' := Apply(b, r);
    if r.opcode == OP_INSERT && ParseCell(r.payload).Some? {
      var w := ParseCell(r.payload).value;
      assert RowsOf(b'.rows, w.labelId) >= (w.row + 1) % TWO32;
      forall key | key in b'.cols
        ensures |b'.cols[key]| <= RowsOf(b'.rows, key.0) || |b'.cols[key]| == TWO32
      {
        WrittenCells(b.cols, w, key, 0);
        assert key != (w.labelId, w.prop) ==> key in b.cols by { WrittenKeys(b.cols, w); }
      }
    }
  }

  lemma WrittenKeys(cols: Columns, w: CellWrite)
    ensures Written(cols, w).Keys == cols.Keys + {(w.labelId, w.prop)}
  {
  }

  lemma {:induction false} CountersCover(rs: seq<Record>)
    ensures CoveredOrFull(Rebuild(rs))
  {
    hide Apply, CoveredOrFull;
    if rs == [] {
      NothingCovered();
    } else {
      CountersCover(rs[..|rs| - 1]);
      ApplyKeepsCovered(Rebuild(rs[..|rs| - 1]), rs[|rs| - 1]);
    }
  }

  lemma NothingCovered()
    ensures CoveredOrFull(Rebuild([]))
  {
  }

  /** The record writes row `u32::MAX`. */
  predicate WritesLastRow(r: Record) {
    r.opcode == OP_INSERT && ParseCell(r.payload).Some? && ParseCell(r.payload).value.row == TWO32 - 1
  }

  predicate HasFull(cols: Columns) {
    exists key <- cols :: |cols[key]| == TWO32
  }

  predicate LastRowWritten(rs: seq<Record>) {
    exists r <- rs :: WritesLastRow(r)
  }

  lemma LastRowSnoc(rs: seq<Record>, r: Record)
    ensures LastRowWritten(rs + [r]) <==> LastRowWritten(rs) || WritesLastRow(r)
  {
    hide WritesLastRow;
    assert forall x :: x in rs + [r] <==> x in rs || x == r;
  }

  /** A column is `2^32` long exactly when the log wrote the last row. */
  lemma {:induction false} FullIffLastRow(rs: seq<Record>)
    ensures HasFull(Rebuild(rs).cols) <==> LastRowWritten(rs)
    ensures forall key <- Rebuild(rs).cols :: |Rebuild(rs).cols[key]| <= TWO32
  {
    hide ParseCell, Written, LastRowWritten;
    if rs == [] {
      assert !LastRowWritten(rs) by { NothingWritten(); }
    } else {
      var r, b0 := rs[|rs| - 1], Rebuild(rs[..|rs| - 1]);
      FullIffLastRow(rs[..|rs| - 1]);
      assert rs == rs[..|rs| - 1] + [r];
      LastRowSnoc(rs[..|rs| - 1], r);
      assert Rebuild(rs) == Apply(b0, r);
      if r.opcode == OP_INSERT && ParseCell(r.payload).Some? {
        var w := ParseCell(r.payload).value;
        WrittenLengths(b0.cols, w);
      } else {
        assert Apply(b0, r) == b0 && !WritesLastRow(r);
      }
    }
  }

  lemma NothingWritten()
    ensures !LastRowWritten([])
  {
  }

  /** The column written to grows to its new row; no other column changes length. */
  lemma WrittenLengths(cols: Columns, w: CellWrite)
    requires forall key <- cols :: |cols[key]| <= TWO32
    ensures var cols' := Written(cols, w);
      && (forall key <- cols' :: |cols'[key]| <= TWO32)
      && (HasFull(cols') <==> HasFull(cols) || w.row == TWO32 - 1)
  {
    var cols', k := Written(cols, w), (w.labelId, w.prop);
    WrittenKeys(cols, w);
    forall key | key in cols'
      ensures |cols'[key]| == if key == k && |ColumnOf(cols, key)| <= w.row then w.row + 1 else |ColumnOf(cols, key)|
    {
      WrittenCells(cols, w, key, 0);
    }
    hide Written;
    if key :| key in cols && |cols[key]| == TWO32 {
      assert key in cols' && |cols'[key]| == TWO32;
    }
    if w.row == TWO32 - 1 {
      assert k in cols' && |cols'[k]| == TWO32;
    }
    if key :| key in cols' && |cols'[key]| == TWO32 && w.row != TWO32 - 1 {
      assert key in cols && |cols[key]| == TWO32;
    }
  }

  /** Row freshness after recovery: every label's counter is at least the length of each of its
      columns exactly when no record of the log writes row `u32::MAX`. */
  lemma FreshAfterRecoveryIff(rs: seq<Record>)
    ensures Covered(Rebuild(rs).cols, Rebuild(rs).rows) <==> !LastRowWritten(rs)
  {
    hide LastRowWritten, Rebuild;
    CountersCover(rs);
    FullIffLastRow(rs);
    var b := Rebuild(rs);
    if key :| key in b.cols && |b.cols[key]| == TWO32 {
      assert RowsOf(b.rows, key.0) < TWO32;
    }
  }

  /** A log with one cell in the last row: the column is `2^32` long and the counter restarts at 0. */
  lemma LastRowWraps(w: CellWrite)
    requires |w.prop| <= 255 && w.row == TWO32 - 1
    ensures var b := Rebuild([ToRecord(PutCell(w))]);
      RowsOf(b.rows, w.labelId) == 0 && |ColumnOf(b.cols, (w.labelId, w.prop))| == TWO32
  {
    hide ParseCell, CellPayload, Written, ColumnOf;
    ParseCellPayload(w);
    var r := ToRecord(PutCell(w));
    assert [] + [r] == [r];
    RebuildSnoc([], r);
    RebuildNothing();
    WrittenCells(map[], w, (w.labelId, w.prop), 0);
    NoColumn((w.labelId, w.prop));
  }

  lemma NoColumn(key: ColumnKey)
    ensures ColumnOf(map[], key) == []
  {
  }

  /** A row at or after the counter of a covered label holds nothing in any of its columns. */
  lemma CoveredRowIsFree(cols: Columns, rows: map<LabelId, u32>, key: ColumnKey, row: nat)
    requires Covered(cols, rows)
    requires RowsOf(rows, key.0) <= row
    ensures CellAt(cols, key, row) == None && |ColumnOf(cols, key)| <= row
  {
  }

  // ---------------------------------------------------------------- the rebuilt store, read off the log

  /** The record is an insert whose payload decodes to a cell of column `key`. */
  predicate WritesColumn(r: Record, key: ColumnKey) {
    && r.opcode == OP_INSERT && ParseCell(r.payload).Some?
    && (ParseCell(r.payload).value.labelId, ParseCell(r.payload).value.prop) == key
  }

  predicate WritesLabel(r: Record, labelId: LabelId) {
    r.opcode == OP_INSERT && ParseCell(r.payload).Some? && ParseCell(r.payload).value.labelId == labelId
  }

  /** `n` is the largest row after one written for the label, in `u32` arithmetic, or 0 if there is none. */
  ghost predicate IsNextRow(rs: seq<Record>, labelId: LabelId, n: nat) {
    && (forall r <- rs :: WritesLabel(r, labelId) ==> (ParseCell(r.payload).value.row + 1) % TWO32 <= n)
    && (n == 0 || exists r <- rs :: WritesLabel(r, labelId) && (ParseCell(r.payload).value.row + 1) % TWO32 == n)
  }

  /** `n` is the largest row after one written in the column, or 0 if there is none. */
  ghost predicate IsLength(rs: seq<Record>, key: ColumnKey, n: nat) {
    && (forall r <- rs :: WritesColumn(r, key) ==> ParseCell(r.payload).value.row + 1 <= n)
    && (n == 0 || exists r <- rs :: WritesColumn(r, key) && ParseCell(r.payload).value.row + 1 == n)
  }

  predicate WritesCell(r: Record, key: ColumnKey, row: nat) {
    WritesColumn(r, key) && ParseCell(r.payload).value.row == row
  }

  /** `v` is what the last record to write the cell holds, or a hole if none does. */
  ghost predicate IsCell(rs: seq<Record>, key: ColumnKey, row: nat, v: Cell) {
    || (v == None && forall r <- rs :: !WritesCell(r, key, row))
    || exists i ::
         && 0 <= i < |rs| && WritesCell(rs[i], key, row) && ParseCell(rs[i].payload).value.value == v
         && forall j :: i < j < |rs| ==> !WritesCell(rs[j], key, row)
  }

  lemma NextRowSnoc(rs: seq<Record>, r: Record, labelId: LabelId, n: nat)
    requires IsNextRow(rs, labelId, n)
    ensures !WritesLabel(r, labelId) ==> IsNextRow(rs + [r], labelId, n)
    ensures WritesLabel(r, labelId) ==>
      var after := (ParseCell(r.payload).value.row + 1) % TWO32;
      IsNextRow(rs + [r], labelId, if after > n then after else n)
  {
    hide WritesLabel, ParseCell;
    assert forall x :: x in rs + [r] <==> x in rs || x == r;
  }

  lemma LengthSnoc(rs: seq<Record>, r: Record, key: ColumnKey, n: nat)
    requires IsLength(rs, key, n)
    ensures !WritesColumn(r, key) ==> IsLength(rs + [r], key, n)
    ensures WritesColumn(r, key) ==>
      var after := ParseCell(r.payload).value.row + 1;
      IsLength(rs + [r], key, if after > n then after else n)
  {
    hide WritesColumn, ParseCell;
    assert forall x :: x in rs + [r] <==> x in rs || x == r;
  }

  lemma CellSnoc(rs: seq<Record>, r: Record, key: ColumnKey, row: nat, v: Cell)
    requires IsCell(rs, key, row, v)
    ensures IsCell(rs + [r], key, row, if WritesCell(r, key, row) then ParseCell(r.payload).value.value else v)
  {
    hide ParseCell;
    var all := rs + [r];
    assert all[|rs|] == r && forall x :: x in all <==> x in rs || x == r;
    if i :|
      && 0 <= i < |rs| && WritesCell(rs[i], key, row) && ParseCell(rs[i].payload).value.value == v
      && forall j :: i < j < |rs| ==> !WritesCell(rs[j], key, row)
    {
      assert all[i] == rs[i];
    }
  }

  /** What opening recovers, read off the log: the row counter is exactly the largest row after one
      written for its label, a column is exactly as long as its largest row asks, and a cell holds
      what its last record wrote. */
  lemma {:induction false} RebuiltIs(rs: seq<Record>, key: ColumnKey, row: nat)
    ensures IsNextRow(rs, key.0, RowsOf(Rebuild(rs).rows, key.0))
    ensures IsLength(rs, key, |ColumnOf(Rebuild(rs).cols, key)|)
    ensures IsCell(rs, key, row, CellAt(Rebuild(rs).cols, key, row))
  {
    hide ParseCell, Written, ColumnOf, CellAt, IsNextRow, IsLength, IsCell;
    if rs == [] {
      NothingRebuilt(key, row);
    } else {
      var before, r := rs[..|rs| - 1], rs[|rs| - 1];
      RebuiltIs(before, key, row);
      assert rs == before + [r];
      NextRowSnoc(before, r, key.0, RowsOf(Rebuild(before).rows, key.0));
      LengthSnoc(before, r, key, |ColumnOf(Rebuild(before).cols, key)|);
      CellSnoc(before, r, key, row, CellAt(Rebuild(before).cols, key, row));
      if r.opcode == OP_INSERT && ParseCell(r.payload).Some? {
        WrittenCells(Rebuild(before).cols, ParseCell(r.payload).value, key, row);
      }
    }
  }

  lemma NothingRebuilt(key: ColumnKey, row: nat)
    ensures IsNextRow([], key.0, RowsOf(Rebuild([]).rows, key.0))
    ensures IsLength([], key, |ColumnOf(Rebuild([]).cols, key)|)
    ensures IsCell([], key, row, CellAt(Rebuild([]).cols, key, row))
  {
  }

  /** Unless the last row was written, a label's next row is the length of its longest column. */
  lemma NextRowIsLongest(rs: seq<Record>, labelId: LabelId)
    requires !LastRowWritten(rs)
    ensures var b, n := Rebuild(rs), RowsOf(Rebuild(rs).rows, labelId);
      && (forall key: ColumnKey :: key.0 == labelId ==> |ColumnOf(b.cols, key)| <= n)
      && exists key: ColumnKey :: key.0 == labelId && |ColumnOf(b.cols, key)| == n
  {
    hide ParseCell, Rebuild, LastRowWritten;
    var b, n := Rebuild(rs), RowsOf(Rebuild(rs).rows, labelId);
    FreshAfterRecoveryIff(rs);
    var key: ColumnKey := (labelId, []);
    RebuiltIs(rs, key, 0);
    if n > 0 {
      var r :| r in rs && WritesLabel(r, labelId) && (ParseCell(r.payload).value.row + 1) % TWO32 == n;
      key := (labelId, ParseCell(r.payload).value.prop);
      RebuiltIs(rs, key, 0);
      assert WritesColumn(r, key);
    }
    assert |ColumnOf(b.cols, key)| == n;
  }

  /** `v` is what the last write to the cell says, or what the cell held if there is none. */
  ghost predicate IsLastWrite(cols: Columns, ws: seq<CellWrite>, key: ColumnKey, row: nat, v: Cell) {
    || (v == CellAt(cols, key, row) && forall w <- ws :: !((w.labelId, w.prop) == key && w.row == row))
    || exists i ::
         && 0 <= i < |ws| && (ws[i].labelId, ws[i].prop) == key && ws[i].row == row && ws[i].value == v
         && forall j :: i < j < |ws| ==> !((ws[j].labelId, ws[j].prop) == key && ws[j].row == row)
  }

  /** After a list of writes a cell holds what the last write to it says, else what it held. */
  lemma {:induction false} LastWriteWins(cols: Columns, ws: seq<CellWrite>, key: ColumnKey, row: nat)
    ensures IsLastWrite(cols, ws, key, row, CellAt(WrittenAll(cols, ws), key, row))
  {
    hide Written, CellAt;
    if ws != [] {
      var n := |ws| - 1;
      LastWriteWins(cols, ws[..n], key, row);
      WrittenCells(WrittenAll(cols, ws[..n]), ws[n], key, row);
      assert ws == ws[..n] + [ws[n]];
    }
  }

  // ---------------------------------------------------------------- the store

  /** Every name written so far fits the one-byte length field of its records. */
  predicate NamesFit(cols: Columns) {
    forall key <- cols :: |key.1| <= 255
  }

  function RowWrites(labelId: LabelId, row: u32, props: seq<(seq<byte>, Value)>): seq<CellWrite>
    requires forall p <- props :: Encodable(p.1)
  {
    seq(|props|, i requires 0 <= i < |props| =>
      assert props[i] in props; CellWrite(labelId, props[i].0, row, Some(props[i].1)))
  }

  class PropStore {
    var columns: Columns
    var nextRow: map<LabelId, u32>
    var wal: State
    const cfg: Config
    /** The log file as it was opened. */
    const file: seq<byte>

    /** As long as all names fit, replaying what we sent the log gives the columns in memory,
        with their lengths and holes. */
    ghost predicate Valid()
      reads this
    {
      && Live(cfg, wal) && wal.base == Started(file)
      && (NamesFit(columns) ==> Recovered(Opened(), wal.sent) == columns)
    }

    /** The records the log held when it was opened. */
    ghost function Opened(): seq<Record> {
      ParseFile(file).records
    }

    ghost predicate Durable()
      reads this
    {
      && Synced(wal)
      && (Whole(Started(file)) && AllFit(wal.sent) && NamesFit(columns) ==>
          && Whole(wal.local.disk) && ParseFile(wal.local.disk).status == Complete
          && Rebuild(ParseFile(wal.local.disk).records).cols == columns)
    }

    /** Every row below is free in every column of its labelId. */
    ghost predicate Fresh()
      reads this
    {
      Covered(columns, nextRow)
    }

    lemma FreshIs()
      ensures Fresh() == Covered(columns, nextRow)
    {
    }

    /** A store over a file whose replay gave `b`. */
    constructor FromReplay(cfg: Config, file: seq<byte>, b: Rebuilt)
      requires cfg.cap > 0 && b == Rebuild(ParseFile(file).records)
      ensures Valid() && this.cfg == cfg && this.file == file && wal == Init(file)
      ensures columns == b.cols && nextRow == b.rows
    {
      hide Inv, ParseFile, Rebuild;
      this.cfg, this.file := cfg, file;
      wal := Init(file);
      InitInv(cfg, file);
      columns, nextRow := b.cols, b.rows;
      assert ParseFile(file).records + ToRecords([]) == ParseFile(file).records;
    }

    /** Open any file; a replay error is an error of opening. Rows are fresh exactly when the log
        never wrote the last one. */
    static method Open(cfg: Config, file: seq<byte>) returns (r: Option<PropStore>)
      requires cfg.cap > 0
      ensures r.None? <==> |file| > 4 && ParseFile(file).status != Complete
      ensures r.Some? ==>
        var store, records := r.value, ParseFile(file).records;
        && fresh(store) && store.Valid() && store.cfg == cfg && store.file == file && store.wal == Init(file)
        && store.columns == Rebuild(records).cols && store.nextRow == Rebuild(records).rows
        && store.Durable() && (store.Fresh() <==> !LastRowWritten(records))
        && (forall key: ColumnKey ::
             && IsNextRow(records, key.0, RowsOf(store.nextRow, key.0))
             && IsLength(records, key, |ColumnOf(store.columns, key)|))
        && (forall key: ColumnKey, row: nat :: IsCell(records, key, row, CellAt(store.columns, key, row)))
    {
      hide ParseFile, Rebuild, Inv, LastRowWritten, Apply, Covered, IsNextRow, IsLength, IsCell, CellAt, ColumnOf;
      var records, status := [], Complete;
      if |file| > 4 {
        records, status := ReplayWal(file);
        if status != Complete {
          return None;
        }
      } else {
        assert ParseFile(file).records == [] by { ShortRecords(file); }
      }
      var b := Rebuilt(map[], map[]);
      var i := 0;
      RebuildNothing();
      while i < |records|
        invariant i <= |records|
        invariant b == Rebuild(records[..i])
      {
        RebuildSnoc(records[..i], records[i]);
        assert records[..i + 1] == records[..i] + [records[i]];
        b := Apply(b, records[i]);
        i := i + 1;
      }
      assert records[..i] == records;
      FreshAfterRecoveryIff(records);
      var store := new PropStore.FromReplay(cfg, file, b);
      store.FreshIs();
      InitDurable(file);
      forall key: ColumnKey
        ensures IsNextRow(records, key.0, RowsOf(store.nextRow, key.0))
        ensures IsLength(records, key, |ColumnOf(store.columns, key)|)
      {
        RebuiltIs(records, key, 0);
      }
      forall key: ColumnKey, row: nat ensures IsCell(records, key, row, CellAt(store.columns, key, row)) {
        RebuiltIs(records, key, row);
      }
      r := Some(store);
    }

    method WalSendCell(w: CellWrite)
      requires Live(cfg, wal)
      modifies this`wal
      ensures Live(cfg, wal) && wal.base == old(wal.base) && wal.sent == old(wal.sent) + [PutCell(w)]
      ensures |w.prop| <= 255 ==> Recovered(Opened(), wal.sent) == Written(Recovered(Opened(), old(wal.sent)), w)
    {
      hide Inv, Recovered, Written, CellPayload, EncodeCell, U32;
      if |w.prop| <= 255 {
        RecoveredPut(Opened(), wal.sent, w);
      }
      var payload := U32(w.labelId);
      payload := payload + [|w.prop| % 256];
      payload := payload + w.prop;
      payload := payload + U32(w.row);
      payload := payload + EncodeCell(w.value);
      assert payload == CellPayload(w) by { CellPayloadParts(w, payload); }
      wal := SendCmd(cfg, wal, Insert(w.labelId, payload));
    }

    method AllocRow(labelId: LabelId) returns (row: u32)
      modifies this`nextRow
      ensures row == RowsOf(old(nextRow), labelId)
      ensures nextRow == old(nextRow)[labelId := (row + 1) % TWO32]
      ensures old(Valid()) ==> Valid()
    {
      row := if labelId in nextRow then nextRow[labelId] else 0;
      nextRow := nextRow[labelId := (row + 1) % TWO32];
    }

    method InsertProp(labelId: LabelId, prop: seq<byte>, row: u32, value: Cell) returns (r: u32)
      requires Valid()
      modifies this`columns, this`wal
      ensures Valid() && r == row
      ensures columns == Written(old(columns), CellWrite(labelId, prop, row, value))
      ensures wal.sent == old(wal.sent) + [PutCell(CellWrite(labelId, prop, row, value))]
      ensures old(Fresh()) ==> (Fresh() <==> row < RowsOf(nextRow, labelId))
    {
      hide Inv, Recovered, CellPayload;
      if Fresh() {
        CoveredAfterWriteIff(columns, CellWrite(labelId, prop, row, value), nextRow);
      }
      var key := (labelId, prop);
      var col := if key in columns then columns[key] else [];
      col := ExtendTo(col, row + 1);
      columns := columns[key := col[row := value]];
      WalSendCell(CellWrite(labelId, prop, row, value));
      r := row;
    }

    method GetProp(labelId: LabelId, prop: seq<byte>, row: u32) returns (value: Cell)
      ensures value == CellAt(columns, (labelId, prop), row)
    {
      var key := (labelId, prop);
      if key !in columns || row >= |columns[key]| {
        return None;
      }
      value := columns[key][row];
    }

    /** Overwrites a cell that exists; never creates a column or a row. */
    method SetProp(labelId: LabelId, prop: seq<byte>, row: u32, value: Cell) returns (ok: bool)
      requires Valid()
      modifies this`columns, this`wal
      ensures Valid() && ok == (row < |ColumnOf(old(columns), (labelId, prop))|)
      ensures ok ==> columns == Written(old(columns), CellWrite(labelId, prop, row, value))
      ensures ok ==> columns.Keys == old(columns.Keys)
      ensures ok ==> wal.sent == old(wal.sent) + [PutCell(CellWrite(labelId, prop, row, value))]
      ensures !ok ==> columns == old(columns) && wal == old(wal)
    {
      hide Inv, Recovered, CellPayload;
      var key := (labelId, prop);
      ok := key in columns && row < |columns[key]|;
      if ok {
        var col: Column := columns[key][row := value];
        columns := columns[key := col];
        assert columns == Written(old(columns), CellWrite(labelId, prop, row, value));
        WalSendCell(CellWrite(labelId, prop, row, value));
      }
    }

    /** Fill one new row. */
    method InsertRow(labelId: LabelId, props: seq<(seq<byte>, Value)>) returns (row: u32)
      requires Valid() && forall p <- props :: Encodable(p.1)
      modifies this
      ensures Valid()
      ensures row == RowsOf(old(nextRow), labelId)
      ensures nextRow == old(nextRow)[labelId := (row + 1) % TWO32]
      ensures columns == WrittenAll(old(columns), RowWrites(labelId, row, props))
      ensures old(Fresh()) && row < TWO32 - 1 ==> Fresh()
    {
      hide Valid, Written, WrittenAll, RowWrites, Fresh, Covered;
      FreshIs();
      row := AllocRow(labelId);
      ghost var ws := RowWrites(labelId, row, props);
      RowWritesAre(labelId, row, props);
      var i := 0;
      WrittenNothing(columns, ws[..0]);
      while i < |props|
        invariant i <= |props|
        invariant Valid() && columns == WrittenAll(old(columns), ws[..i])
        invariant nextRow == old(nextRow)[labelId := (row + 1) % TWO32]
      {
        WrittenSnoc(old(columns), ws[..i], ws[i]);
        assert ws[..i + 1] == ws[..i] + [ws[i]];
        var _ := InsertProp(labelId, props[i].0, row, Some(props[i].1));
        i := i + 1;
      }
      assert ws[..i] == ws;
      if old(Fresh()) && row < TWO32 - 1 {
        NewRowKeepsFresh(old(columns), old(nextRow), labelId, row, ws);
        assert Fresh() by { FreshIs(); }
      }
    }

    /** Blocks until everything sent is on disk. */
    method Flush()
      requires Valid()
      modifies this`wal
      ensures Valid() && wal.sent == old(wal.sent) && Durable()
    {
      hide Inv, Rebuild, ParseFile, EncodeAll, AllFit, NamesFit, Whole;
      wal := FlushHandle(cfg, wal);
      if Whole(Started(file)) && AllFit(wal.sent) {
        StartedRecords(file);
        AppendedReplaysIff(wal.base, wal.sent);
        WholeAppend(wal.base, wal.sent);
      }
    }

    /** Drop: the thread stops with what it had taken on disk. The file is whole again, if it was when
        opened, and holds that many of the commands. */
    method Close() returns (left: seq<byte>)
      requires Valid()
      modifies this`wal
      ensures left == wal.local.disk && wal.local.stopped && wal.sent == old(wal.sent)
      ensures old(Synced(wal)) ==> left == old(wal.local.disk)
      ensures old(wal.local.taken) <= |wal.sent|
      ensures Whole(Started(file)) && AllFit(old(wal.sent)) ==>
        Whole(left) && ParseFile(left).records == Opened() + ToRecords(wal.sent[..old(wal.local.taken)])
    {
      hide Inv, Rebuild, ParseFile, EncodeAll, AllFit, NamesFit, Whole;
      var taken := wal.local.taken;
      wal := DropHandle(cfg, wal);
      left := wal.local.disk;
      if Whole(Started(file)) && AllFit(wal.sent) {
        StartedRecords(file);
        TakeFits(wal.sent, taken);
        AppendedReplaysIff(wal.base, wal.sent[..taken]);
        WholeAppend(wal.base, wal.sent[..taken]);
      }
    }
  }

  lemma RebuildNothing()
    ensures Rebuild([]) == Rebuilt(map[], map[])
  {
  }

  lemma CellPayloadParts(w: CellWrite, payload: seq<byte>)
    requires payload == U32(w.labelId) + [|w.prop| % 256] + w.prop + U32(w.row) + EncodeCell(w.value)
    ensures payload == CellPayload(w)
  {
    hide U32, EncodeCell;
  }

  lemma ShortRecords(file: seq<byte>)
    requires |file| <= 4
    ensures ParseFile(file).records == []
  {
  }

  /** A write leaves all rows from the counter on free exactly when its own row lies below the
      counter; otherwise a later new row may land on it. */
  lemma CoveredAfterWriteIff(cols: Columns, w: CellWrite, rows: map<LabelId, u32>)
    requires Covered(cols, rows)
    ensures Covered(Written(cols, w), rows) <==> w.row < RowsOf(rows, w.labelId)
  {
    var cols', k := Written(cols, w), (w.labelId, w.prop);
    WrittenCells(cols, w, k, 0);
    assert k in cols' && |cols'[k]| > w.row;
    forall key | key in cols' && w.row < RowsOf(rows, w.labelId) ensures |cols'[key]| <= RowsOf(rows, key.0) {
      WrittenCells(cols, w, key, 0);
    }
  }

  lemma RowWritesAre(labelId: LabelId, row: u32, props: seq<(seq<byte>, Value)>)
    requires forall p <- props :: Encodable(p.1)
    ensures var ws := RowWrites(labelId, row, props);
      && |ws| == |props|
      && (forall i :: 0 <= i < |props| ==>
           props[i] in props && ws[i] == CellWrite(labelId, props[i].0, row, Some(props[i].1)))
      && (forall w <- ws :: w.labelId == labelId && w.row == row)
  {
  }

  lemma {:induction false} WrittenAllCovered(cols: Columns, ws: seq<CellWrite>, rows: map<LabelId, u32>)
    requires Covered(cols, rows) && forall w <- ws :: w.row < RowsOf(rows, w.labelId)
    ensures Covered(WrittenAll(cols, ws), rows)
  {
    hide Written;
    if ws != [] {
      WrittenAllCovered(cols, ws[..|ws| - 1], rows);
      CoveredAfterWriteIff(WrittenAll(cols, ws[..|ws| - 1]), ws[|ws| - 1], rows);
    }
  }

  /** Filling the row the counter handed out keeps every row from the new counter on free. */
  lemma NewRowKeepsFresh(cols: Columns, rows: map<LabelId, u32>, labelId: LabelId, row: u32, ws: seq<CellWrite>)
    requires Covered(cols, rows) && row == RowsOf(rows, labelId) && row < TWO32 - 1
    requires forall w <- ws :: w.labelId == labelId && w.row == row
    ensures Covered(WrittenAll(cols, ws), rows[labelId := (row + 1) % TWO32])
  {
    hide WrittenAll;
    WrittenAllCovered(cols, ws, rows[labelId := (row + 1) % TWO32]);
  }

  // ---------------------------------------------------------------- handing out rows

  /** The counters after `n` rows of a label were handed out. */
  function Advanced(rows: map<LabelId, u32>, labelId: LabelId, n: nat): map<LabelId, u32> {
    if n == 0 then rows
    else
      var before := Advanced(rows, labelId, n - 1);
      before[labelId := (RowsOf(before, labelId) + 1) % TWO32]
  }

  /** Counting `n` rows on from the counter, `turns` times round. */
  lemma {:induction false} AdvancedRow(rows: map<LabelId, u32>, labelId: LabelId, n: nat) returns (turns: nat)
    ensures RowsOf(rows, labelId) + n == RowsOf(Advanced(rows, labelId, n), labelId) + TWO32 * turns
  {
    turns := 0;
    if n > 0 {
      turns := AdvancedRow(rows, labelId, n - 1);
      if RowsOf(Advanced(rows, labelId, n - 1), labelId) == TWO32 - 1 {
        turns := turns + 1;
      }
    }
  }

  /** The rows handed out by two calls differ exactly when they are not whole turns of the `u32`
      counter apart. */
  lemma RowsDistinctIff(rows: map<LabelId, u32>, labelId: LabelId, i: nat, j: nat)
    requires i < j
    ensures RowsOf(Advanced(rows, labelId, i), labelId) != RowsOf(Advanced(rows, labelId, j), labelId) <==>
            (j - i) % TWO32 != 0
  {
    hide Advanced;
    var p := AdvancedRow(rows, labelId, i);
    var q := AdvancedRow(rows, labelId, j);
    Remainder(RowsOf(Advanced(rows, labelId, j), labelId) - RowsOf(Advanced(rows, labelId, i), labelId), q - p, j - i);
  }

  /** Two rows less than a turn apart, `turns` turns apart in all. */
  lemma Remainder(diff: int, turns: int, total: nat)
    requires -TWO32 < diff < TWO32 && total == diff + TWO32 * turns
    ensures total % TWO32 == 0 <==> diff == 0
  {
    var q := total / TWO32;
    assert total == TWO32 * q + total % TWO32;
  }
}
