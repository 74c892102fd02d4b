/** The bytes of a write-ahead log: record encoders and the replay parser. */
module WalFormat {
  import opened Types
  import opened Bytes

  /** "LGDB" */
  const MAGIC: seq<byte> := [0x4C, 0x47, 0x44, 0x42]

  const OP_INSERT: byte := 1
  const OP_DELETE: byte := 2

  datatype WalCmd = Insert(id: u64, record: seq<byte>) | Delete(id: u64)

  /** What replay hands to its callback for one record. */
  datatype Record = Record(opcode: byte, id: u64, payload: seq<byte>)

  datatype Status = Complete | BadMagic | RecordTooShort | UnexpectedEof

  /** Everything one replay does: the callbacks it made, in order, and how it ended. */
  datatype Replayed = Replayed(records: seq<Record>, status: Status)

  function ToRecord(c: WalCmd): Record {
    match c
    case Insert(id, record) => Record(OP_INSERT, id, record)
    case Delete(id) => Record(OP_DELETE, id, [])
  }

  function ToRecords(cs: seq<WalCmd>): (rs: seq<Record>)
    ensures |rs| == |cs|
    ensures forall i :: 0 <= i < |cs| ==> rs[i] == ToRecord(cs[i])
  {
    seq(|cs|, i requires 0 <= i < |cs| => ToRecord(cs[i]))
  }

  /** `[total: u32][opcode: u8][id: u64][payload]`; the length is cast to `u32`, so it wraps. */
  function Encode(c: WalCmd): (s: seq<byte>)
    ensures |s| >= 13
  {
    match c
    case Insert(id, record) => U32((9 + |record|) % TWO32) + [OP_INSERT] + U64(id) + record
    case Delete(id) => U32(9) + [OP_DELETE] + U64(id)
  }

  function EncodeAll(cs: seq<WalCmd>): seq<byte> {
    if cs == [] then [] else Encode(cs[0]) + EncodeAll(cs[1..])
  }

  /** The record's true length survives the cast to `u32`. */
  predicate Fits(c: WalCmd) {
    c.Insert? ==> |c.record| < TWO32 - 9
  }

  predicate AllFit(cs: seq<WalCmd>) {
    forall c <- cs :: Fits(c)
  }

  method EncodeInsert(buf: seq<byte>, id: u64, record: seq<byte>) returns (r: seq<byte>)
    ensures r == buf + Encode(Insert(id, record))
  {
    var total := 1 + 8 + |record|;
    r := buf + U32(total % TWO32);
    r := r + [OP_INSERT];
    r := r + U64(id);
    r := r + record;
  }

  method EncodeDelete(buf: seq<byte>, id: u64) returns (r: seq<byte>)
    ensures r == buf + Encode(Delete(id))
  {
    r := buf + U32(1 + 8);
    r := r + [OP_DELETE];
    r := r + U64(id);
  }

  /** Parsing after the magic. A clean end of file is one that leaves fewer than 4 bytes. */
  function Parse(s: seq<byte>): Replayed {
    if |s| < 4 then Replayed([], Complete)
    else
      var total := ReadU32(s[..4]);
      if total < 9 then Replayed([], RecordTooShort)
      else if |s| < 4 + total then Replayed([], UnexpectedEof)
      else
        var rest := Parse(s[4 + total..]);
        Replayed([Record(s[4], ReadU64(s[5..13]), s[13..4 + total])] + rest.records, rest.status)
  }

  function ParseFile(file: seq<byte>): Replayed {
    if |file| < 4 then Replayed([], Complete)
    else if file[..4] != MAGIC then Replayed([], BadMagic)
    else Parse(file[4..])
  }

  /** `read_exact`: the next `n` bytes, or nothing when the file ends first. */
  method ReadExact(file: seq<byte>, pos: nat, n: nat) returns (data: Option<seq<byte>>)
    requires pos <= |file|
    ensures data == if pos + n <= |file| then Some(file[pos..pos + n]) else None
  {
    if pos + n <= |file| {
      data := Some(file[pos..pos + n]);
    } else {
      data := None;
    }
  }

  /** One step of the parser, in terms of positions in the file. */
  lemma ParseAt(file: seq<byte>, pos: nat)
    requires pos <= |file|
    ensures pos + 4 > |file| ==> Parse(file[pos..]) == Replayed([], Complete)
    ensures pos + 4 <= |file| ==>
      var total := ReadU32(file[pos..pos + 4]);
      && (total < 9 ==> Parse(file[pos..]) == Replayed([], RecordTooShort))
      && (total >= 9 && pos + 4 + total > |file| ==> Parse(file[pos..]) == Replayed([], UnexpectedEof))
      && (total >= 9 && pos + 4 + total <= |file| ==>
        var r := Record(file[pos + 4], ReadU64(file[pos + 5..pos + 13]), file[pos + 13..pos + 4 + total]);
        var rest := Parse(file[pos + 4 + total..]);
        Parse(file[pos..]) == Replayed([r] + rest.records, rest.status))
  {
    hide ReadU32, ReadU64;
    var s := file[pos..];
    if |s| >= 4 {
      assert s[..4] == file[pos..pos + 4];
      var total := ReadU32(s[..4]);
      if total >= 9 && 4 + total <= |s| {
        assert s[5..13] == file[pos + 5..pos + 13];
        assert s[13..4 + total] == file[pos + 13..pos + 4 + total];
        assert s[4 + total..] == file[pos + 4 + total..];
      }
    }
  }

  method ReplayWal(file: seq<byte>) returns (records: seq<Record>, status: Status)
    ensures Replayed(records, status) == ParseFile(file)
  {
    hide ReadU32, ReadU64, Parse;
    records := [];
    var magic := ReadExact(file, 0, 4);
    if magic == None {
      return records, Complete;
    }
    if magic.value != MAGIC {
      return records, BadMagic;
    }
    var pos := 4;
    while true
      invariant 4 <= pos <= |file|
      invariant Parse(file[4..]).records == records + Parse(file[pos..]).records
      invariant Parse(file[4..]).status == Parse(file[pos..]).status
      decreases |file| - pos
    {
      ParseAt(file, pos);
      var lenBuf := ReadExact(file, pos, 4);
      if lenBuf == None {
        return records, Complete;
      }
      var total := ReadU32(lenBuf.value);
      if total < 9 {
        return records, RecordTooShort;
      }
      var header := ReadExact(file, pos + 4, 9);
      if header == None {
        return records, UnexpectedEof;
      }
      var opcode := header.value[0];
      assert header.value[1..9] == file[pos + 5..pos + 13];
      var id := ReadU64(header.value[1..9]);
      var payloadLen := total - 9;
      var payload := [];
      if payloadLen > 0 {
        var p := ReadExact(file, pos + 13, payloadLen);
        if p == None {
          return records, UnexpectedEof;
        }
        payload := p.value;
      }
      assert payload == file[pos + 13..pos + 4 + total];
      var r := Record(opcode, id, payload);
      ghost var rest := Parse(file[pos + 4 + total..]).records;
      assert records + ([r] + rest) == (records + [r]) + rest;
      records := records + [r];
      pos := pos + 4 + total;
    }
  }

  // ---------------------------------------------------------------- lemmas

  lemma {:induction false} EncodeAllAppend(a: seq<WalCmd>, b: seq<WalCmd>)
    ensures EncodeAll(a + b) == EncodeAll(a) + EncodeAll(b)
  {
    hide Encode;
    if a == [] {
      assert a + b == b;
    } else {
      EncodeAllAppend(a[1..], b);
      assert (a + b)[1..] == a[1..] + b;
    }
  }

  lemma EncodeAllSnoc(a: seq<WalCmd>, c: WalCmd)
    ensures EncodeAll(a + [c]) == EncodeAll(a) + Encode(c)
  {
    EncodeAllAppend(a, [c]);
    assert EncodeAll([c]) == Encode(c) + EncodeAll([]);
  }

  /** Where the fields of an encoded record lie. */
  lemma EncodeLayout(c: WalCmd)
    ensures var s := Encode(c);
      && |s| == 13 + |ToRecord(c).payload|
      && ReadU32(s[..4]) == (9 + |ToRecord(c).payload|) % TWO32
      && s[4] == ToRecord(c).opcode == (if c.Insert? then 1 else 2)
      && ReadU64(s[5..13]) == c.id
      && s[13..] == ToRecord(c).payload
  {
    var s := Encode(c);
    var payload := ToRecord(c).payload;
    var len := U32((9 + |payload|) % TWO32);
    assert s == len + [ToRecord(c).opcode] + U64(c.id) + payload;
    assert s[..4] == len;
    assert s[5..13] == U64(c.id);
  }

  lemma EncodeThen(c: WalCmd, rest: seq<byte>)
    requires Fits(c)
    ensures var s, total := Encode(c) + rest, 9 + |ToRecord(c).payload|;
      && |s| >= 4 + total
      && ReadU32(s[..4]) == total
      && Record(s[4], ReadU64(s[5..13]), s[13..4 + total]) == ToRecord(c)
      && s[4 + total..] == rest
  {
    hide Encode, ReadU32, ReadU64;
    EncodeLayout(c);
    var s, e := Encode(c) + rest, Encode(c);
    assert s[..4] == e[..4] && s[5..13] == e[5..13];
    assert s[13..|e|] == e[13..] && s[|e|..] == rest;
  }

  lemma ParseEncode(c: WalCmd, rest: seq<byte>)
    requires Fits(c)
    ensures Parse(Encode(c) + rest) ==
            Replayed([ToRecord(c)] + Parse(rest).records, Parse(rest).status)
  {
    hide Encode, ReadU32, ReadU64, ToRecord;
    EncodeThen(c, rest);
  }

  /** Encoded commands at the front of a log are delivered unaltered whatever follows them. */
  lemma {:induction false} ParseEncodeAll(cs: seq<WalCmd>, rest: seq<byte>)
    requires AllFit(cs)
    ensures Parse(EncodeAll(cs) + rest) ==
            Replayed(ToRecords(cs) + Parse(rest).records, Parse(rest).status)
  {
    hide Encode, Parse;
    if cs == [] {
      assert EncodeAll(cs) + rest == rest;
      assert ToRecords(cs) + Parse(rest).records == Parse(rest).records;
    } else {
      ParseEncodeAll(cs[1..], rest);
      ParseEncode(cs[0], EncodeAll(cs[1..]) + rest);
      assert EncodeAll(cs) + rest == Encode(cs[0]) + (EncodeAll(cs[1..]) + rest);
      assert ToRecords(cs) == [ToRecord(cs[0])] + ToRecords(cs[1..]);
    }
  }

  /** A record cut short delivers nothing; the cut is noticed once its length prefix is there. */
  lemma ParseTornRecord(c: WalCmd, n: nat)
    requires Fits(c) && n < |Encode(c)|
    ensures Parse(Encode(c)[..n]) == Replayed([], if n < 4 then Complete else UnexpectedEof)
  {
    hide Encode, ReadU32, ReadU64;
    EncodeLayout(c);
    if n >= 4 {
      assert Encode(c)[..n][..4] == Encode(c)[..4];
    }
  }

  /** Cutting an encoded log after `n` bytes leaves `k` whole records and part of the next. */
  lemma {:induction false} CutPoint(cs: seq<WalCmd>, n: nat) returns (k: nat)
    requires n <= |EncodeAll(cs)|
    ensures k <= |cs|
    ensures |EncodeAll(cs[..k])| <= n
    ensures k < |cs| ==> n < |EncodeAll(cs[..k + 1])|
    ensures k < |cs| ==>
      && n - |EncodeAll(cs[..k])| < |Encode(cs[k])|
      && EncodeAll(cs)[..n] == EncodeAll(cs[..k]) + Encode(cs[k])[..n - |EncodeAll(cs[..k])|]
    ensures k == |cs| ==> n == |EncodeAll(cs)| && cs[..k] == cs
  {
    hide Encode;
    if cs == [] {
      k := 0;
    } else if n < |Encode(cs[0])| {
      k := 0;
      assert cs[..1] == [cs[0]];
      assert EncodeAll([cs[0]]) == Encode(cs[0]) + EncodeAll([]);
    } else {
      var j := CutPoint(cs[1..], n - |Encode(cs[0])|);
      k := j + 1;
      assert cs[..k] == [cs[0]] + cs[1..][..j];
      assert cs[..k][1..] == cs[1..][..j];
      if k < |cs| {
        assert cs[..k + 1][1..] == cs[1..][..j + 1];
        assert cs[1..][j] == cs[k];
      }
    }
  }

  lemma TornParse(cs: seq<WalCmd>, n: nat) returns (k: nat)
    requires AllFit(cs) && n <= |EncodeAll(cs)|
    ensures k <= |cs| && |EncodeAll(cs[..k])| <= n
    ensures k < |cs| ==> n < |EncodeAll(cs[..k + 1])|
    ensures Parse(EncodeAll(cs)[..n]) ==
            Replayed(ToRecords(cs[..k]), if n - |EncodeAll(cs[..k])| < 4 then Complete else UnexpectedEof)
  {
    assert Parse([]) == Replayed([], Complete);
    hide Encode, Parse, Fits;
    k := CutPoint(cs, n);
    var left := if k < |cs| then Encode(cs[k])[..n - |EncodeAll(cs[..k])|] else [];
    assert EncodeAll(cs)[..n] == EncodeAll(cs[..k]) + left;
    ParseEncodeAll(cs[..k], left);
    if k < |cs| {
      ParseTornRecord(cs[k], |left|);
    }
    assert ToRecords(cs[..k]) + [] == ToRecords(cs[..k]);
  }

  /** Torn-log replay: for every cut of an encoded log, replay delivers exactly the complete
      commands, unaltered and in order, and fails exactly when 4 or more bytes of an
      incomplete record are left. */
  lemma TornLog(cs: seq<WalCmd>, n: nat) returns (k: nat)
    requires AllFit(cs)
    requires n <= |MAGIC + EncodeAll(cs)|
    ensures k <= |cs|
    ensures n >= 4 ==> |MAGIC + EncodeAll(cs[..k])| <= n
    ensures k < |cs| ==> n < |MAGIC + EncodeAll(cs[..k + 1])|
    ensures ParseFile((MAGIC + EncodeAll(cs))[..n]) ==
            Replayed(ToRecords(cs[..k]),
                     if n < 4 || n - |MAGIC + EncodeAll(cs[..k])| < 4 then Complete else UnexpectedEof)
  {
    hide EncodeAll, Parse, AllFit;
    var file := (MAGIC + EncodeAll(cs))[..n];
    if n < 4 {
      k := 0;
    } else {
      k := TornParse(cs, n - 4);
      assert file[..4] == MAGIC;
      assert file[4..] == EncodeAll(cs)[..n - 4];
    }
  }

  lemma {:induction false} ParseEncodeAllUnfit(cs: seq<WalCmd>)
    requires !AllFit(cs)
    ensures Parse(EncodeAll(cs)).records != ToRecords(cs)
  {
    hide Encode, ReadU32, ReadU64;
    var c, rest := cs[0], EncodeAll(cs[1..]);
    if Fits(c) {
      assert forall x <- cs :: x == c || x in cs[1..];
      ParseEncodeAllUnfit(cs[1..]);
      ParseEncode(c, rest);
      assert ToRecords(cs) == [ToRecord(c)] + ToRecords(cs[1..]);
      assert Parse(EncodeAll(cs)).records[1..] == Parse(rest).records;
      assert ToRecords(cs)[1..] == ToRecords(cs[1..]);
    } else {
      EncodeLayout(c);
      var s := Encode(c) + rest;
      assert s[..4] == Encode(c)[..4];
      var total := ReadU32(s[..4]);
      assert total < 9 + |c.record|;
      if total >= 9 {
        assert |Parse(s).records[0].payload| == total - 9;
      }
      assert ToRecords(cs)[0].payload == c.record;
    }
  }

  /** Replay undoes the encoders exactly when no record's length overflows its `u32` prefix. */
  lemma ReplayInvertsEncodeIff(cs: seq<WalCmd>)
    ensures ParseFile(MAGIC + EncodeAll(cs)) == Replayed(ToRecords(cs), Complete) <==> AllFit(cs)
  {
    assert Parse([]) == Replayed([], Complete);
    hide Encode, Parse;
    var file := MAGIC + EncodeAll(cs);
    assert file[..4] == MAGIC && file[4..] == EncodeAll(cs);
    if AllFit(cs) {
      ParseEncodeAll(cs, []);
      assert EncodeAll(cs) + [] == EncodeAll(cs);
      assert ToRecords(cs) + [] == ToRecords(cs);
    } else {
      ParseEncodeAllUnfit(cs);
    }
  }

  // ---------------------------------------------------------------- appending to a log

  /** Whole records up to the last byte. */
  predicate WholeRecords(s: seq<byte>) {
    s == [] ||
    (|s| >= 4 &&
     var total := ReadU32(s[..4]);
     total >= 9 && 4 + total <= |s| && WholeRecords(s[4 + total..]))
  }

  /** A log that can be appended to: the magic and whole records, of whatever opcodes. */
  predicate Whole(file: seq<byte>) {
    |file| >= 4 && file[..4] == MAGIC && WholeRecords(file[4..])
  }

  /** The first record of a text whose length prefix it satisfies. */
  function First(s: seq<byte>): Record
    requires |s| >= 13 && 4 + ReadU32(s[..4]) <= |s| && ReadU32(s[..4]) >= 9
  {
    Record(s[4], ReadU64(s[5..13]), s[13..4 + ReadU32(s[..4])])
  }

  lemma ParseFirst(s: seq<byte>)
    requires |s| >= 13 && ReadU32(s[..4]) >= 9 && 4 + ReadU32(s[..4]) <= |s|
    ensures var rest := Parse(s[4 + ReadU32(s[..4])..]);
      Parse(s) == Replayed([First(s)] + rest.records, rest.status)
  {
    hide ReadU32, ReadU64;
  }

  lemma FirstOfLonger(s: seq<byte>, rest: seq<byte>)
    requires |s| >= 13 && ReadU32(s[..4]) >= 9 && 4 + ReadU32(s[..4]) <= |s|
    ensures (s + rest)[..4] == s[..4] && First(s + rest) == First(s)
    ensures var n := 4 + ReadU32(s[..4]); (s + rest)[n..] == s[n..] + rest
  {
    hide ReadU32, ReadU64;
    var t, n := s + rest, 4 + ReadU32(s[..4]);
    assert t[..4] == s[..4] && t[5..13] == s[5..13] && t[13..n] == s[13..n];
  }

  /** `s` is delivered in full and parsing goes on with what follows. */
  ghost predicate Delivers(s: seq<byte>, rest: seq<byte>) {
    && Parse(s).status == Complete
    && Parse(s + rest) == Replayed(Parse(s).records + Parse(rest).records, Parse(rest).status)
  }

  lemma DeliversFirst(s: seq<byte>, rest: seq<byte>)
    requires |s| >= 13 && ReadU32(s[..4]) >= 9 && 4 + ReadU32(s[..4]) <= |s|
    requires Delivers(s[4 + ReadU32(s[..4])..], rest)
    ensures Delivers(s, rest)
  {
    hide ReadU32, ReadU64, Parse, First;
    ParseFirst(s);
    FirstOfLonger(s, rest);
    ParseFirst(s + rest);
    var tail, after := Parse(s[4 + ReadU32(s[..4])..]).records, Parse(rest).records;
    assert [First(s)] + (tail + after) == ([First(s)] + tail) + after;
  }

  /** Whole records are delivered whatever follows them. */
  lemma {:induction false} ParseWhole(s: seq<byte>, rest: seq<byte>)
    requires WholeRecords(s)
    ensures Delivers(s, rest)
    decreases |s|
  {
    hide ReadU32, Delivers;
    if s == [] {
      DeliversNothing(rest);
    } else {
      ParseWhole(s[4 + ReadU32(s[..4])..], rest);
      DeliversFirst(s, rest);
    }
  }

  lemma DeliversNothing(rest: seq<byte>)
    ensures Delivers([], rest)
  {
    assert [] + rest == rest;
  }

  lemma ParseFileAppend(base: seq<byte>, rest: seq<byte>)
    requires Whole(base)
    ensures ParseFile(base).status == Complete
    ensures ParseFile(base + rest) == Replayed(ParseFile(base).records + Parse(rest).records, Parse(rest).status)
  {
    hide Parse, WholeRecords;
    ParseWhole(base[4..], rest);
    assert (base + rest)[..4] == base[..4];
    assert (base + rest)[4..] == base[4..] + rest;
  }

  lemma MagicWhole()
    ensures Whole(MAGIC) && ParseFile(MAGIC) == Replayed([], Complete)
  {
    assert MAGIC[4..] == [];
  }

  /** Replaying what was appended to a whole log: everything there before, then exactly the
      commands, if and only if no record's length overflows. */
  lemma AppendedReplaysIff(base: seq<byte>, cs: seq<WalCmd>)
    requires Whole(base)
    ensures ParseFile(base + EncodeAll(cs)) == Replayed(ParseFile(base).records + ToRecords(cs), Complete) <==> AllFit(cs)
  {
    assert Parse([]) == Replayed([], Complete);
    hide Encode, Parse, Whole;
    ParseFileAppend(base, EncodeAll(cs));
    var before, after := ParseFile(base).records, Parse(EncodeAll(cs)).records;
    if AllFit(cs) {
      ParseEncodeAll(cs, []);
      assert EncodeAll(cs) + [] == EncodeAll(cs);
      assert ToRecords(cs) + [] == ToRecords(cs);
    } else {
      ParseEncodeAllUnfit(cs);
      assert (before + after)[|before|..] == after;
      assert (before + ToRecords(cs))[|before|..] == ToRecords(cs);
    }
  }

  /** A log torn while commands were appended to it delivers what was there before and the
      maximal prefix of complete commands. */
  lemma TornAppend(base: seq<byte>, cs: seq<WalCmd>, n: nat) returns (k: nat)
    requires Whole(base) && AllFit(cs) && n <= |EncodeAll(cs)|
    ensures k <= |cs| && |EncodeAll(cs[..k])| <= n
    ensures k < |cs| ==> n < |EncodeAll(cs[..k + 1])|
    ensures ParseFile(base + EncodeAll(cs)[..n]) ==
            Replayed(ParseFile(base).records + ToRecords(cs[..k]),
                     if n - |EncodeAll(cs[..k])| < 4 then Complete else UnexpectedEof)
  {
    hide EncodeAll, Parse, AllFit, Whole;
    ParseFileAppend(base, EncodeAll(cs)[..n]);
    k := TornParse(cs, n);
  }

  /** A 9 after the first byte of a length makes it 256 times as long. */
  lemma NineLater(s: seq<byte>, k: nat)
    requires |s| == 4 && 1 <= k < 4 && s[k] == 9
    ensures ReadU32(s) >= 256 * 9
  {
    assert s[1..][0] == s[1] && s[1..][1..] == s[2..] && s[2..][0] == s[2] && s[2..][1..] == s[3..];
    assert FromLe(s[3..]) >= s[3] && FromLe(s[2..]) >= s[2] && FromLe(s[1..]) >= s[1];
  }

  lemma EncodedDelete(id: u64)
    ensures |Encode(Delete(id))| == 13 && Encode(Delete(id))[..4] == [9, 0, 0, 0]
  {
    assert ToLe(9, 4) == [9] + ToLe(0, 3) && ToLe(0, 3) == [0] + ToLe(0, 2) && ToLe(0, 2) == [0] + ToLe(0, 1);
    assert ToLe(0, 1) == [0] + ToLe(0, 0);
    assert U32(9) == [9, 0, 0, 0];
  }

  /** One to three bytes of a torn record are taken for the end of the log. Appended to, they are
      taken for the start of a length, and the log ends in an error. */
  lemma TornThenDelete(s: seq<byte>, id: u64)
    requires 0 < |s| < 4
    ensures Parse(s + Encode(Delete(id))) == Replayed([], UnexpectedEof)
  {
    hide Encode, ReadU32;
    EncodedDelete(id);
    var d := Encode(Delete(id));
    var t := s + d;
    assert forall i :: |s| <= i < 4 ==> t[i] == d[..4][i - |s|];
    NineLater(t[..4], |s|);
  }

  /** Of the logs that replay without an error, those with no torn bytes are exactly the ones that
      still do after one more delete. */
  lemma {:induction false} AppendableIff(s: seq<byte>, id: u64)
    requires Parse(s).status == Complete
    ensures WholeRecords(s) <==> Parse(s + Encode(Delete(id))).status == Complete
    decreases |s|
  {
    hide Encode, ReadU32;
    var d := Encode(Delete(id));
    if s == [] {
      ParseEncodeAll([Delete(id)], []);
      assert [Delete(id)][1..] == [] && EncodeAll([Delete(id)]) == d + [];
      assert EncodeAll([Delete(id)]) + [] == d && s + d == d;
    } else if |s| < 4 {
      TornThenDelete(s, id);
    } else {
      var n := 4 + ReadU32(s[..4]);
      AppendableIff(s[n..], id);
      assert (s + d)[..4] == s[..4] && (s + d)[n..] == s[n..] + d;
    }
  }

  /** A whole log stays whole when commands are appended whose lengths fit. */
  lemma WholeAppend(base: seq<byte>, cs: seq<WalCmd>)
    requires Whole(base) && AllFit(cs)
    ensures Whole(base + EncodeAll(cs))
  {
    hide EncodeAll, WholeRecords;
    EncodedWhole(cs);
    WholeConcat(base[4..], EncodeAll(cs));
    assert (base + EncodeAll(cs))[..4] == base[..4] && (base + EncodeAll(cs))[4..] == base[4..] + EncodeAll(cs);
  }

  lemma {:induction false} WholeConcat(a: seq<byte>, b: seq<byte>)
    requires WholeRecords(a) && WholeRecords(b)
    ensures WholeRecords(a + b)
    decreases |a|
  {
    hide ReadU32;
    if a == [] {
      assert a + b == b;
    } else {
      var n := 4 + ReadU32(a[..4]);
      WholeConcat(a[n..], b);
      assert (a + b)[..4] == a[..4] && (a + b)[n..] == a[n..] + b;
    }
  }

  lemma {:induction false} EncodedWhole(cs: seq<WalCmd>)
    requires AllFit(cs)
    ensures WholeRecords(EncodeAll(cs))
  {
    hide Encode, ReadU32;
    if cs != [] {
      var e := Encode(cs[0]);
      EncodeLayout(cs[0]);
      EncodedWhole(cs[1..]);
      assert Fits(cs[0]) && 9 + |ToRecord(cs[0]).payload| < TWO32;
      assert 4 + ReadU32(e[..4]) == |e| && e[|e|..] == [];
      assert WholeRecords(e);
      WholeConcat(e, EncodeAll(cs[1..]));
    }
  }

  lemma CutSplits(cs: seq<WalCmd>, n: nat, k: nat) returns (torn: seq<byte>)
    requires n <= |EncodeAll(cs)| && k <= |cs| && |EncodeAll(cs[..k])| <= n
    ensures EncodeAll(cs)[..n] == EncodeAll(cs[..k]) + torn && |torn| == n - |EncodeAll(cs[..k])|
  {
    hide EncodeAll;
    EncodeAllAppend(cs[..k], cs[k..]);
    assert cs[..k] + cs[k..] == cs;
    torn := EncodeAll(cs)[|EncodeAll(cs[..k])|..n];
  }

  /** A log cut while commands were appended is whole exactly when the cut fell between records. */
  lemma WholeCutIff(base: seq<byte>, cs: seq<WalCmd>, n: nat, k: nat)
    requires Whole(base) && AllFit(cs) && n <= |EncodeAll(cs)|
    requires k <= |cs| && |EncodeAll(cs[..k])| <= n && (k < |cs| ==> n < |EncodeAll(cs[..k + 1])|)
    requires ParseFile(base + EncodeAll(cs)[..n]).status ==
      if n - |EncodeAll(cs[..k])| < 4 then Complete else UnexpectedEof
    ensures Whole(base + EncodeAll(cs)[..n]) <==> n == |EncodeAll(cs[..k])|
  {
    assert AllFit(cs[..k]);
    hide EncodeAll, ParseFile, Whole, AllFit;
    var torn := CutSplits(cs, n, k);
    var whole := base + EncodeAll(cs[..k]);
    assert base + EncodeAll(cs)[..n] == whole + torn;
    WholeAppend(base, cs[..k]);
    WholeIfNoneTorn(whole, torn);
  }

  lemma WholeIfNoneTorn(whole: seq<byte>, torn: seq<byte>)
    requires Whole(whole) && ParseFile(whole + torn).status == if |torn| < 4 then Complete else UnexpectedEof
    ensures Whole(whole + torn) <==> torn == []
  {
    hide ParseFile, Whole;
    if torn == [] {
      assert whole + torn == whole;
    } else if |torn| >= 4 {
      if Whole(whole + torn) {
        ParseFileAppend(whole + torn, []);
      }
    } else {
      TornNotWhole(whole, torn);
    }
  }

  lemma TornNotWhole(base: seq<byte>, torn: seq<byte>)
    requires Whole(base) && 0 < |torn| < 4
    ensures !Whole(base + torn)
  {
    hide Encode, Parse, Whole;
    var d := Encode(Delete(0));
    TornThenDelete(torn, 0);
    ParseFileAppend(base, torn + d);
    assert base + torn + d == base + (torn + d);
    if Whole(base + torn) {
      ParseFileAppend(base + torn, d);
      DeleteParses(0);
    }
  }

  lemma DeleteParses(id: u64)
    ensures Parse(Encode(Delete(id))).status == Complete
  {
    hide Encode;
    var d := Encode(Delete(id));
    ParseEncodeAll([Delete(id)], []);
    assert [Delete(id)][1..] == [] && EncodeAll([Delete(id)]) == d + [] && EncodeAll([Delete(id)]) + [] == d;
  }

  // ---------------------------------------------------------------- what any file replays

  /** The outcome of a replay after its last whole record, `rest` being what follows it. */
  predicate EndsWith(rest: seq<byte>, status: Status) {
    match status
    case Complete => |rest| < 4
    case RecordTooShort => |rest| >= 4 && ReadU32(rest[..4]) < 9
    case UnexpectedEof => |rest| >= 4 && 9 <= ReadU32(rest[..4]) && |rest| < 4 + ReadU32(rest[..4])
    case BadMagic => false
  }

  /** Any bytes are whole records, all delivered, and something after them that decides how the replay
      ends: nothing or too little for a length, a length too short for a header, or a cut record. */
  lemma {:induction false} ParseSplits(s: seq<byte>) returns (n: nat)
    ensures n <= |s| && WholeRecords(s[..n]) && EndsWith(s[n..], Parse(s).status)
    ensures Parse(s).records == Parse(s[..n]).records
    decreases |s|
  {
    hide ReadU32;
    n := 0;
    if |s| < 4 || ReadU32(s[..4]) < 9 || |s| < 4 + ReadU32(s[..4]) {
      assert s[..0] == [] && s[0..] == s && Parse([]) == Replayed([], Complete);
    } else {
      var m := 4 + ReadU32(s[..4]);
      var k := ParseSplits(s[m..]);
      n := m + k;
      assert s[..n][..4] == s[..4] && s[..n][m..] == s[m..][..k] && s[n..] == s[m..][k..];
      WholeCons(s[..n]);
      assert s[m..n] == s[m..][..k];
      FirstOfLonger(s[..n], s[n..]);
      assert s == s[..n] + s[n..];
      ParseFirst(s);
      ParseFirst(s[..n]);
    }
  }

  lemma WholeCons(s: seq<byte>)
    requires |s| >= 4 && ReadU32(s[..4]) >= 9 && 4 + ReadU32(s[..4]) <= |s| && WholeRecords(s[4 + ReadU32(s[..4])..])
    ensures WholeRecords(s)
  {
  }

  /** A file too short for the magic replays nothing without an error, one with another magic nothing
      with one, and otherwise what follows the magic decides. */
  lemma FileOutcome(file: seq<byte>)
    ensures |file| < 4 ==> ParseFile(file) == Replayed([], Complete)
    ensures |file| >= 4 ==>
      (ParseFile(file).status == BadMagic <==>
       !(file[0] == 0x4C && file[1] == 0x47 && file[2] == 0x44 && file[3] == 0x42))
    ensures ParseFile(file).status == BadMagic ==> ParseFile(file).records == []
    ensures |file| >= 4 && ParseFile(file).status != BadMagic ==> ParseFile(file) == Parse(file[4..])
  {
    hide Parse;
    if |file| >= 4 {
      assert file[..4] == [file[0], file[1], file[2], file[3]];
      var n := ParseSplits(file[4..]);
    }
  }

  /** A whole record of any opcode, in front of anything, is delivered with its fields. */
  lemma AnyRecord(opcode: byte, id: u64, payload: seq<byte>, rest: seq<byte>)
    requires |payload| < TWO32 - 9
    ensures var after := Parse(rest);
      Parse(U32(9 + |payload|) + [opcode] + U64(id) + payload + rest) ==
      Replayed([Record(opcode, id, payload)] + after.records, after.status)
  {
    hide ReadU32, ReadU64, Parse;
    var s := U32(9 + |payload|) + [opcode] + U64(id) + payload + rest;
    assert s[..4] == U32(9 + |payload|) && s[4] == opcode && s[5..13] == U64(id);
    assert s[13..4 + (9 + |payload|)] == payload && s[4 + (9 + |payload|)..] == rest;
    ParseFirst(s);
  }
}
