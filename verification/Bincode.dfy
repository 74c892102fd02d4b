/**
 The fixed-width binary form of stored records: integers little-endian, a vector or string as a
 `u64` length and its elements, an enum as a `u32` variant index and its fields, an option as
 one tag byte. Decoding a whole payload ignores trailing bytes.
 */
module Bincode {
  import opened Types
  import opened Bytes

  /** A property value. Floats are their bit patterns, strings their UTF-8 bytes. */
  datatype Value =
    | Null
    | Bool(b: bool)
    | Int(i: i64)
    | Float(bits: u64)
    | Str(utf8: seq<byte>)
    | List(items: seq<Value>)
    | Vector(floats: seq<u32>)

  type i64 = x: int | -0x8000_0000_0000_0000 <= x < 0x8000_0000_0000_0000

  /** A decoded prefix and what follows it. */
  type Decoded<T> = Option<(T, seq<byte>)>

  // ---------------------------------------------------------------- integers and vectors

  function TakeU32(s: seq<byte>): Decoded<u32> {
    if |s| < 4 then None else Some((ReadU32(s[..4]), s[4..]))
  }

  function TakeU64(s: seq<byte>): Decoded<u64> {
    if |s| < 8 then None else Some((ReadU64(s[..8]), s[8..]))
  }

  lemma TakeU32Of(v: u32, rest: seq<byte>)
    ensures TakeU32(U32(v) + rest) == Some((v, rest))
  {
    hide ReadU32;
    assert (U32(v) + rest)[..4] == U32(v);
  }

  lemma TakeU64Of(v: u64, rest: seq<byte>)
    ensures TakeU64(U64(v) + rest) == Some((v, rest))
  {
    hide ReadU64;
    assert (U64(v) + rest)[..8] == U64(v);
  }

  function EncodeU32s(vs: seq<u32>): seq<byte> {
    if vs == [] then [] else U32(vs[0]) + EncodeU32s(vs[1..])
  }

  function TakeU32s(n: nat, s: seq<byte>): (r: Decoded<seq<u32>>)
    ensures r.Some? ==> |r.value.0| == n
  {
    if n == 0 then Some(([], s))
    else
      var (v, rest) :- TakeU32(s);
      var (vs, rest') :- TakeU32s(n - 1, rest);
      Some(([v] + vs, rest'))
  }

  lemma {:induction false} TakeU32sOf(vs: seq<u32>, rest: seq<byte>)
    ensures TakeU32s(|vs|, EncodeU32s(vs) + rest) == Some((vs, rest))
  {
    hide TakeU32, U32;
    if vs == [] {
      assert EncodeU32s(vs) + rest == rest;
    } else {
      TakeU32Of(vs[0], EncodeU32s(vs[1..]) + rest);
      TakeU32sOf(vs[1..], rest);
      assert EncodeU32s(vs) + rest == U32(vs[0]) + (EncodeU32s(vs[1..]) + rest);
      assert [vs[0]] + vs[1..] == vs;
    }
  }

  function EncodeVec(vs: vec<u32>): seq<byte> {
    U64(|vs|) + EncodeU32s(vs)
  }

  function TakeVec(s: seq<byte>): Decoded<vec<u32>> {
    var (n, rest) :- TakeU64(s);
    var (vs, rest') :- TakeU32s(n, rest);
    Some((vs, rest'))
  }

  lemma TakeVecOf(vs: vec<u32>, rest: seq<byte>)
    ensures TakeVec(EncodeVec(vs) + rest) == Some((vs, rest))
  {
    hide TakeU64, U64, EncodeU32s, TakeU32s;
    TakeU64Of(|vs|, EncodeU32s(vs) + rest);
    TakeU32sOf(vs, rest);
    assert EncodeVec(vs) + rest == U64(|vs|) + (EncodeU32s(vs) + rest);
  }

  // ---------------------------------------------------------------- edges and nodes

  function EncodeEdge(e: Edge): seq<byte> {
    U64(e.id) + (U64(e.src) + (U64(e.dst) + (U32(e.etype) + (U64(e.nextOut) + (U64(e.nextIn) +
    (U32(e.propsRow) + (U64(e.createdTx) + (U64(e.deletedTx) + []))))))))
  }

  function DecodeEdge(s: seq<byte>): Option<Edge> {
    var (id, s) :- TakeU64(s);
    var (src, s) :- TakeU64(s);
    var (dst, s) :- TakeU64(s);
    var (etype, s) :- TakeU32(s);
    var (nextOut, s) :- TakeU64(s);
    var (nextIn, s) :- TakeU64(s);
    var (propsRow, s) :- TakeU32(s);
    var (createdTx, s) :- TakeU64(s);
    var (deletedTx, s) :- TakeU64(s);
    Some(Edge(id, src, dst, etype, nextOut, nextIn, propsRow, createdTx, deletedTx))
  }

  lemma DecodeEncodeEdge(e: Edge)
    ensures DecodeEdge(EncodeEdge(e)) == Some(e)
  {
    hide U32, U64, TakeU32, TakeU64;
    var s9 := U64(e.deletedTx) + [];
    var s8 := U64(e.createdTx) + s9;
    var s7 := U32(e.propsRow) + s8;
    var s6 := U64(e.nextIn) + s7;
    var s5 := U64(e.nextOut) + s6;
    var s4 := U32(e.etype) + s5;
    var s3 := U64(e.dst) + s4;
    var s2 := U64(e.src) + s3;
    TakeU64Of(e.id, s2);
    TakeU64Of(e.src, s3);
    TakeU64Of(e.dst, s4);
    TakeU32Of(e.etype, s5);
    TakeU64Of(e.nextOut, s6);
    TakeU64Of(e.nextIn, s7);
    TakeU32Of(e.propsRow, s8);
    TakeU64Of(e.createdTx, s9);
    TakeU64Of(e.deletedTx, []);
  }

  function EncodeNode(n: Node): seq<byte> {
    U64(n.id) + (EncodeVec(n.labels) + (U64(n.firstOut) + (U64(n.firstIn) + (U32(n.propsRow) +
    (U64(n.createdTx) + (U64(n.deletedTx) + []))))))
  }

  function DecodeNode(s: seq<byte>): Option<Node> {
    var (id, s) :- TakeU64(s);
    var (labels, s) :- TakeVec(s);
    var (firstOut, s) :- TakeU64(s);
    var (firstIn, s) :- TakeU64(s);
    var (propsRow, s) :- TakeU32(s);
    var (createdTx, s) :- TakeU64(s);
    var (deletedTx, s) :- TakeU64(s);
    Some(Node(id, labels, firstOut, firstIn, propsRow, createdTx, deletedTx))
  }

  lemma DecodeEncodeNode(n: Node)
    ensures DecodeNode(EncodeNode(n)) == Some(n)
  {
    hide U32, U64, TakeU32, TakeU64, EncodeVec, TakeVec;
    var s7 := U64(n.deletedTx) + [];
    var s6 := U64(n.createdTx) + s7;
    var s5 := U32(n.propsRow) + s6;
    var s4 := U64(n.firstIn) + s5;
    var s3 := U64(n.firstOut) + s4;
    var s2 := EncodeVec(n.labels) + s3;
    TakeU64Of(n.id, s2);
    TakeVecOf(n.labels, s3);
    TakeU64Of(n.firstOut, s4);
    TakeU64Of(n.firstIn, s5);
    TakeU32Of(n.propsRow, s6);
    TakeU64Of(n.createdTx, s7);
    TakeU64Of(n.deletedTx, []);
  }

  /** Fields come in the order in which the records declare them. */
  lemma EdgeLayout(e: Edge)
    ensures var s := EncodeEdge(e);
      && |s| == 64 && ReadU64(s[0..8]) == e.id && ReadU64(s[8..16]) == e.src && ReadU64(s[16..24]) == e.dst
      && ReadU32(s[24..28]) == e.etype && ReadU64(s[28..36]) == e.nextOut && ReadU64(s[36..44]) == e.nextIn
      && ReadU32(s[44..48]) == e.propsRow && ReadU64(s[48..56]) == e.createdTx && ReadU64(s[56..64]) == e.deletedTx
  {
    hide ReadU32, ReadU64;
    var s := EncodeEdge(e);
    assert s[0..8] == U64(e.id) && s[8..16] == U64(e.src) && s[16..24] == U64(e.dst) && s[24..28] == U32(e.etype);
    assert s[28..36] == U64(e.nextOut) && s[36..44] == U64(e.nextIn) && s[44..48] == U32(e.propsRow);
    assert s[48..56] == U64(e.createdTx) && s[56..64] == U64(e.deletedTx);
  }

  lemma {:induction false} U32sLayout(vs: seq<u32>, i: nat)
    requires i < |vs|
    ensures |EncodeU32s(vs)| == 4 * |vs| && ReadU32(EncodeU32s(vs)[4 * i..4 * i + 4]) == vs[i]
  {
    hide ReadU32;
    var rest := EncodeU32s(vs[1..]);
    if i > 0 {
      U32sLayout(vs[1..], i - 1);
      assert EncodeU32s(vs)[4 * i..4 * i + 4] == rest[4 * (i - 1)..4 * (i - 1) + 4];
    } else {
      U32sLength(vs[1..]);
      assert EncodeU32s(vs)[0..4] == U32(vs[0]);
    }
  }

  lemma {:induction false} U32sLength(vs: seq<u32>)
    ensures |EncodeU32s(vs)| == 4 * |vs|
  {
    if vs != [] {
      U32sLength(vs[1..]);
    }
  }

  lemma NodeLayout(n: Node)
    ensures var s, end := EncodeNode(n), 16 + 4 * |n.labels|;
      && |s| == end + 36 && ReadU64(s[0..8]) == n.id && ReadU64(s[8..16]) == |n.labels|
      && (forall i :: 0 <= i < |n.labels| ==> ReadU32(s[16 + 4 * i..16 + 4 * i + 4]) == n.labels[i])
      && ReadU64(s[end..end + 8]) == n.firstOut && ReadU64(s[end + 8..end + 16]) == n.firstIn
      && ReadU32(s[end + 16..end + 20]) == n.propsRow
      && ReadU64(s[end + 20..end + 28]) == n.createdTx && ReadU64(s[end + 28..end + 36]) == n.deletedTx
  {
    hide ReadU32, ReadU64, EncodeU32s;
    var s, end := EncodeNode(n), 16 + 4 * |n.labels|;
    U32sLength(n.labels);
    assert s[0..8] == U64(n.id) && s[8..16] == U64(|n.labels|) && s[16..end] == EncodeU32s(n.labels);
    assert s[end..end + 8] == U64(n.firstOut) && s[end + 8..end + 16] == U64(n.firstIn);
    assert s[end + 16..end + 20] == U32(n.propsRow) && s[end + 20..end + 28] == U64(n.createdTx);
    assert s[end + 28..end + 36] == U64(n.deletedTx);
    forall i | 0 <= i < |n.labels| ensures ReadU32(s[16 + 4 * i..16 + 4 * i + 4]) == n.labels[i] {
      U32sLayout(n.labels, i);
      assert s[16 + 4 * i..16 + 4 * i + 4] == EncodeU32s(n.labels)[4 * i..4 * i + 4];
    }
  }

  // ---------------------------------------------------------------- property values

  /** Lengths of strings, lists and vectors fit a `u64`, as they do for values in memory. */
  predicate Encodable(v: Value) {
    match v
    case Str(utf8) => |utf8| < TWO64
    case List(items) => |items| < TWO64 && forall x <- items :: Encodable(x)
    case Vector(floats) => |floats| < TWO64
    case _ => true
  }

  function EncodeBool(b: bool): byte {
    if b then 1 else 0
  }

  function EncodeValue(v: Value): seq<byte>
    requires Encodable(v)
    decreases v, 0
  {
    match v
    case Null => U32(0)
    case Bool(b) => U32(1) + [EncodeBool(b)]
    case Int(i) => U32(2) + U64(i % TWO64)
    case Float(bits) => U32(3) + U64(bits)
    case Str(utf8) => U32(4) + (U64(|utf8|) + utf8)
    case List(items) => U32(5) + (U64(|items|) + EncodeItems(items))
    case Vector(floats) => U32(6) + EncodeVec(floats)
  }

  function EncodeItems(vs: seq<Value>): seq<byte>
    requires forall x <- vs :: Encodable(x)
    decreases vs, 0
  {
    if vs == [] then [] else EncodeValue(vs[0]) + EncodeItems(vs[1..])
  }

  function TakeByte(s: seq<byte>): Decoded<byte> {
    if s == [] then None else Some((s[0], s[1..]))
  }

  function TakeBool(s: seq<byte>): Decoded<bool> {
    var (b, rest) :- TakeByte(s);
    if b > 1 then None else Some((b == 1, rest))
  }

  function TakeBytes(n: nat, s: seq<byte>): Decoded<seq<byte>> {
    if |s| < n then None else Some((s[..n], s[n..]))
  }

  function ToI64(v: u64): i64 {
    if v < 0x8000_0000_0000_0000 then v else v - TWO64
  }

  function TakeValue(s: seq<byte>): (r: Decoded<Value>)
    ensures r.Some? ==> |r.value.1| < |s| && Encodable(r.value.0)
    decreases |s|, 0
  {
    var (tag, s1) :- TakeU32(s);
    match tag
    case 0 => Some((Null, s1))
    case 1 => var (b, r) :- TakeBool(s1); Some((Bool(b), r))
    case 2 => var (v, r) :- TakeU64(s1); Some((Int(ToI64(v)), r))
    case 3 => var (v, r) :- TakeU64(s1); Some((Float(v), r))
    case 4 =>
      var (n, s2) :- TakeU64(s1);
      var (utf8, r) :- TakeBytes(n, s2);
      Some((Str(utf8), r))
    case 5 =>
      var (n, s2) :- TakeU64(s1);
      var (items, r) :- TakeItems(n, s2);
      Some((List(items), r))
    case 6 =>
      var (n, s2) :- TakeU64(s1);
      var (floats, r) :- TakeU32s(n, s2);
      TakeU32sShrinks(n, s2);
      Some((Vector(floats), r))
    case _ => None
  }

  function TakeItems(n: nat, s: seq<byte>): (r: Decoded<seq<Value>>)
    ensures r.Some? ==> |r.value.1| <= |s| && |r.value.0| == n && forall v <- r.value.0 :: Encodable(v)
    decreases |s|, 1
  {
    if n == 0 then Some(([], s))
    else
      var (v, rest) :- TakeValue(s);
      var (vs, rest') :- TakeItems(n - 1, rest);
      Some(([v] + vs, rest'))
  }

  lemma {:induction false} TakeU32sShrinks(n: nat, s: seq<byte>)
    ensures TakeU32s(n, s).Some? ==> |TakeU32s(n, s).value.1| <= |s|
  {
    if n > 0 && TakeU32(s).Some? {
      TakeU32sShrinks(n - 1, TakeU32(s).value.1);
    }
  }

  lemma {:induction false} TakeValueOf(v: Value, rest: seq<byte>)
    requires Encodable(v)
    ensures TakeValue(EncodeValue(v) + rest) == Some((v, rest))
    decreases v, 0
  {
    hide EncodeValue, TakeValue, EncodeItems, TakeItems;
    match v
    case List(items) =>
      TakeItemsOf(items, rest);
      TakeListOf(items, rest);
    case Str(utf8) => TakeStrOf(utf8, rest);
    case Vector(floats) => TakeVectorOf(floats, rest);
    case _ => TakeScalarOf(v, rest);
  }

  lemma TakeScalarOf(v: Value, rest: seq<byte>)
    requires v.Null? || v.Bool? || v.Int? || v.Float?
    ensures TakeValue(EncodeValue(v) + rest) == Some((v, rest))
  {
    hide U32, U64, TakeU32, TakeU64;
    match v
    case Null => TakeU32Of(0, rest);
    case Bool(b) =>
      TakeU32Of(1, [EncodeBool(b)] + rest);
      assert EncodeValue(v) + rest == U32(1) + ([EncodeBool(b)] + rest);
    case Int(i) =>
      TakeU32Of(2, U64(i % TWO64) + rest);
      TakeU64Of(i % TWO64, rest);
      assert EncodeValue(v) + rest == U32(2) + (U64(i % TWO64) + rest);
    case Float(bits) =>
      TakeU32Of(3, U64(bits) + rest);
      TakeU64Of(bits, rest);
      assert EncodeValue(v) + rest == U32(3) + (U64(bits) + rest);
  }

  lemma TakeListOf(items: seq<Value>, rest: seq<byte>)
    requires Encodable(List(items))
    requires TakeItems(|items|, EncodeItems(items) + rest) == Some((items, rest))
    ensures TakeValue(EncodeValue(List(items)) + rest) == Some((List(items), rest))
  {
    hide U32, U64, TakeU32, TakeU64, EncodeItems, TakeItems;
    var body := EncodeItems(items) + rest;
    TakeU32Of(5, U64(|items|) + body);
    TakeU64Of(|items|, body);
    assert EncodeValue(List(items)) + rest == U32(5) + (U64(|items|) + body);
  }

  lemma TakeStrOf(utf8: seq<byte>, rest: seq<byte>)
    requires |utf8| < TWO64
    ensures TakeValue(EncodeValue(Str(utf8)) + rest) == Some((Str(utf8), rest))
  {
    hide U32, U64, TakeU32, TakeU64;
    var body := utf8 + rest;
    TakeU32Of(4, U64(|utf8|) + body);
    TakeU64Of(|utf8|, body);
    assert EncodeValue(Str(utf8)) + rest == U32(4) + (U64(|utf8|) + body);
  }

  lemma TakeVectorOf(floats: seq<u32>, rest: seq<byte>)
    requires |floats| < TWO64
    ensures TakeValue(EncodeValue(Vector(floats)) + rest) == Some((Vector(floats), rest))
  {
    hide U32, U64, TakeU32, TakeU64, TakeU32s, EncodeU32s;
    var body := EncodeU32s(floats) + rest;
    TakeU32Of(6, U64(|floats|) + body);
    TakeU64Of(|floats|, body);
    TakeU32sOf(floats, rest);
    assert EncodeValue(Vector(floats)) + rest == U32(6) + (U64(|floats|) + body);
  }

  lemma {:induction false} TakeItemsOf(vs: seq<Value>, rest: seq<byte>)
    requires forall x <- vs :: Encodable(x)
    ensures TakeItems(|vs|, EncodeItems(vs) + rest) == Some((vs, rest))
    decreases vs, 0
  {
    hide EncodeValue, TakeValue;
    if vs == [] {
      assert EncodeItems(vs) + rest == rest;
    } else {
      TakeValueOf(vs[0], EncodeItems(vs[1..]) + rest);
      TakeItemsOf(vs[1..], rest);
      assert EncodeItems(vs) + rest == EncodeValue(vs[0]) + (EncodeItems(vs[1..]) + rest);
      assert [vs[0]] + vs[1..] == vs;
    }
  }

  /** A value is the index of its variant, as declared, and its contents. */
  lemma ValueLayout(v: Value)
    requires Encodable(v)
    ensures var s := EncodeValue(v);
      |s| >= 4 &&
      match v
      case Null => s == U32(0)
      case Bool(b) => ReadU32(s[..4]) == 1 && s[4..] == [if b then 1 else 0]
      case Int(i) => ReadU32(s[..4]) == 2 && |s| == 12 && ReadU64(s[4..]) == if i >= 0 then i else i + TWO64
      case Float(bits) => ReadU32(s[..4]) == 3 && |s| == 12 && ReadU64(s[4..]) == bits
      case Str(utf8) => ReadU32(s[..4]) == 4 && |s| == 12 + |utf8| && ReadU64(s[4..12]) == |utf8| && s[12..] == utf8
      case List(items) => ReadU32(s[..4]) == 5 && |s| >= 12 && ReadU64(s[4..12]) == |items|
      case Vector(floats) => ReadU32(s[..4]) == 6 && |s| == 12 + 4 * |floats| && ReadU64(s[4..12]) == |floats|
  {
    hide ReadU32, ReadU64, EncodeItems;
    var s := EncodeValue(v);
    match v
    case Null =>
    case Bool(b) => assert s[..4] == U32(1);
    case Int(i) => assert s[..4] == U32(2) && s[4..] == U64(i % TWO64);
    case Float(bits) => assert s[..4] == U32(3) && s[4..] == U64(bits);
    case Str(utf8) => assert s[..4] == U32(4) && s[4..12] == U64(|utf8|);
    case List(items) => assert s[..4] == U32(5) && s[4..12] == U64(|items|);
    case Vector(floats) =>
      U32sLength(floats);
      assert s[..4] == U32(6) && s[4..12] == U64(|floats|);
  }

  predicate EncodableCell(v: Option<Value>) {
    v.Some? ==> Encodable(v.value)
  }

  function EncodeCell(v: Option<Value>): (s: seq<byte>)
    requires EncodableCell(v)
    ensures |s| >= 1
  {
    match v
    case None => [0]
    case Some(x) => [1] + EncodeValue(x)
  }

  function DecodeCell(s: seq<byte>): (r: Option<Option<Value>>)
    ensures r.Some? ==> EncodableCell(r.value)
  {
    var (tag, rest) :- TakeByte(s);
    match tag
    case 0 => Some(None)
    case 1 => var (v, _) :- TakeValue(rest); Some(Some(v))
    case _ => None
  }

  /** Every optional value, however deeply nested, survives encoding. */
  lemma DecodeEncodeCell(v: Option<Value>)
    requires EncodableCell(v)
    ensures DecodeCell(EncodeCell(v)) == Some(v)
  {
    hide EncodeValue, TakeValue;
    if v.Some? {
      TakeValueOf(v.value, []);
      assert EncodeCell(v)[1..] == EncodeValue(v.value) + [];
    }
  }
}
