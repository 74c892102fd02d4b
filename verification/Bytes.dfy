/** Little-endian integers, as written by `to_le_bytes` and read by `from_le_bytes`. */
module Bytes {
  import opened Types

  function Pow256(n: nat): nat {
    if n == 0 then 1 else 256 * Pow256(n - 1)
  }

  function ToLe(v: nat, n: nat): (s: seq<byte>)
    ensures |s| == n
  {
    if n == 0 then [] else [v % 256] + ToLe(v / 256, n - 1)
  }

  function FromLe(s: seq<byte>): nat {
    if s == [] then 0 else s[0] + 256 * FromLe(s[1..])
  }

  lemma {:induction false} FromLeBound(s: seq<byte>)
    ensures FromLe(s) < Pow256(|s|)
  {
    if s != [] {
      FromLeBound(s[1..]);
    }
  }

  /** Reading back `n` little-endian bytes yields the value truncated to `n` bytes. */
  lemma {:induction false} FromLeToLe(v: nat, n: nat)
    requires v < Pow256(n)
    ensures FromLe(ToLe(v, n)) == v
  {
    if n != 0 {
      FromLeToLe(v / 256, n - 1);
      assert ToLe(v, n)[1..] == ToLe(v / 256, n - 1);
    }
  }

  lemma Widths()
    ensures Pow256(4) == TWO32
    ensures Pow256(8) == TWO64
  {
    assert Pow256(1) == 256 && Pow256(2) == 0x1_0000 && Pow256(3) == 0x100_0000;
    assert Pow256(5) == 0x100_0000_0000 && Pow256(6) == 0x1_0000_0000_0000 && Pow256(7) == 0x100_0000_0000_0000;
  }

  function U32(v: u32): (s: seq<byte>)
    ensures |s| == 4 && ReadU32(s) == v
  {
    Widths();
    FromLeToLe(v, 4);
    ToLe(v, 4)
  }

  function U64(v: u64): (s: seq<byte>)
    ensures |s| == 8 && ReadU64(s) == v
  {
    Widths();
    FromLeToLe(v, 8);
    ToLe(v, 8)
  }

  function ReadU32(s: seq<byte>): u32
    requires |s| == 4
  {
    FromLeBound(s);
    Widths();
    FromLe(s)
  }

  function ReadU64(s: seq<byte>): u64
    requires |s| == 8
  {
    FromLeBound(s);
    Widths();
    FromLe(s)
  }

  /** The bytes of an integer, least significant first. */
  lemma U32Bytes(v: u32)
    ensures U32(v) == [v % 0x100, v / 0x100 % 0x100, v / 0x1_0000 % 0x100, v / 0x100_0000]
  {
    var w := v / 0x100;
    assert w / 0x100 == v / 0x1_0000 && w / 0x100 / 0x100 == v / 0x100_0000;
    assert ToLe(v, 4) == [v % 0x100] + ToLe(w, 3);
    assert ToLe(w, 3) == [w % 0x100] + ToLe(w / 0x100, 2);
    assert ToLe(w / 0x100, 2) == [w / 0x100 % 0x100] + ToLe(w / 0x100 / 0x100, 1);
    assert ToLe(w / 0x100 / 0x100, 1) == [w / 0x100 / 0x100 % 0x100] + ToLe(w / 0x100 / 0x100 / 0x100, 0);
    assert v / 0x100_0000 < 0x100;
  }

  /** A `u64` is its low and then its high `u32`. */
  lemma U64Bytes(v: u64)
    ensures U64(v) == U32(v % TWO32) + U32(v / TWO32)
  {
    ToLeSplit(v % TWO32, v / TWO32);
  }

  lemma ToLeSplit(low: u32, high: u32)
    ensures ToLe(low + TWO32 * high, 8) == ToLe(low, 4) + ToLe(high, 4)
  {
    hide ToLe;
    var b := low / 0x100;
    var c := b / 0x100;
    var d := c / 0x100;
    ToLeStep(low, 0x100_0000 * high, 8);
    ToLeStep(b, 0x1_0000 * high, 7);
    ToLeStep(c, 0x100 * high, 6);
    ToLeStep(d, high, 5);
    ToLeStep(low, 0, 4);
    ToLeStep(b, 0, 3);
    ToLeStep(c, 0, 2);
    ToLeStep(d, 0, 1);
    assert d / 0x100 == 0;
    assert ToLe(0, 0) == [] by { ToLeNone(0); }
  }

  lemma ToLeNone(v: nat)
    ensures ToLe(v, 0) == []
  {
  }

  lemma ToLeStep(low: nat, x: nat, n: nat)
    requires n > 0
    ensures ToLe(low + 0x100 * x, n) == [low % 0x100] + ToLe(low / 0x100 + x, n - 1)
  {
  }
}
