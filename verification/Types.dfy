/** Integer widths, sentinels and the records stored by the engine. */
module Types {
  const TWO32: int := 0x1_0000_0000
  const TWO64: int := 0x1_0000_0000_0000_0000

  type byte = x: int | 0 <= x < 256
  type u32 = x: int | 0 <= x < TWO32
  type u64 = x: int | 0 <= x < TWO64

  /** A `Vec`: its length always fits a `usize`. */
  type vec<T> = s: seq<T> | |s| < TWO64 witness []

  type NodeId = u64
  type EdgeId = u64
  type LabelId = u32
  type TypeId = u32
  type TxId = u64

  const NULL_EDGE: EdgeId := 0xFFFF_FFFF_FFFF_FFFF
  const MAX_TX_ID: TxId := 0xFFFF_FFFF_FFFF_FFFF

  datatype Option<+T> = None | Some(value: T) {
    predicate IsFailure() {
      None?
    }

    function PropagateFailure<U>(): Option<U>
      requires None?
    {
      None
    }

    function Extract(): T
      requires Some?
    {
      value
    }
  }

  datatype Node = Node(
    id: NodeId,
    labels: vec<LabelId>,
    firstOut: EdgeId,
    firstIn: EdgeId,
    propsRow: u32,
    createdTx: TxId,
    deletedTx: TxId)
  {
    static function New(id: NodeId, labels: vec<LabelId>, propsRow: u32, createdTx: TxId): Node {
      Node(id, labels, NULL_EDGE, NULL_EDGE, propsRow, createdTx, MAX_TX_ID)
    }

    /** Visible to a transaction whose snapshot is `tx`. */
    predicate IsAlive(tx: TxId) {
      createdTx <= tx && deletedTx > tx
    }
  }

  datatype Edge = Edge(
    id: EdgeId,
    src: NodeId,
    dst: NodeId,
    etype: TypeId,
    nextOut: EdgeId,
    nextIn: EdgeId,
    propsRow: u32,
    createdTx: TxId,
    deletedTx: TxId)
  {
    static function New(id: EdgeId, src: NodeId, dst: NodeId, etype: TypeId, propsRow: u32, createdTx: TxId): Edge {
      Edge(id, src, dst, etype, NULL_EDGE, NULL_EDGE, propsRow, createdTx, MAX_TX_ID)
    }

    predicate IsAlive(tx: TxId) {
      createdTx <= tx && deletedTx > tx
    }
  }

  /** No element occurs twice. */
  ghost predicate NoDup<T(!new)>(s: seq<T>) {
    forall i, j :: 0 <= i < j < |s| ==> s[i] != s[j]
  }

  /** `s` lists the elements of `xs`, each once. */
  ghost predicate Lists<T(!new)>(s: seq<T>, xs: set<T>) {
    NoDup(s) && |s| == |xs| && forall x :: x in s <==> x in xs
  }

  lemma ListsNothing<T(!new)>()
    ensures Lists<T>([], {})
  {
  }

  lemma ListsSnoc<T(!new)>(s: seq<T>, xs: set<T>, x: T)
    requires Lists(s, xs) && x !in xs
    ensures Lists(s + [x], xs + {x})
  {
    forall y ensures y in s + [x] <==> y in xs + {x} {
    }
  }
}
