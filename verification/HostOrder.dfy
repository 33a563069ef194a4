/**
 How the C program's fixed-width integers sit in memory.

 The program reads and writes uint8_t .. uint64_t through pointers, so their
 bytes lie in the order of the machine it runs on.  Everything built on this
 module takes that order as a parameter and holds for both.
 */
module HostOrder {

  type byte = x: int | 0 <= x < 0x100

  const U32: int := 0x1_0000_0000

  datatype Endian = Little | Big

  function Pow256(n: nat): (p: nat)
    ensures 0 < p
  {
    if n == 0 then 1 else 256 * Pow256(n - 1)
  }

  /** The `n` bytes of the integer `v`. */
  function Store(e: Endian, n: nat, v: nat): (s: seq<byte>)
    requires v < Pow256(n)
    ensures |s| == n
    decreases n
  {
    if n == 0 then
      []
    else
      match e
      case Little => [v % 256] + Store(e, n - 1, v / 256)
      case Big => Store(e, n - 1, v / 256) + [v % 256]
  }

  /** The integer held by the bytes `s`. */
  function Load(e: Endian, s: seq<byte>): (v: nat)
    ensures v < Pow256(|s|)
  {
    if s == [] then
      0
    else
      match e
      case Little => s[0] + 256 * Load(e, s[1..])
      case Big => 256 * Load(e, s[..|s| - 1]) + s[|s| - 1]
  }

  lemma {:induction false} LoadStore(e: Endian, n: nat, v: nat)
    requires v < Pow256(n)
    ensures Load(e, Store(e, n, v)) == v
    decreases n
  {
    if n != 0 {
      var s := Store(e, n, v);
      LoadStore(e, n - 1, v / 256);
      match e
      case Little => assert s[1..] == Store(e, n - 1, v / 256);
      case Big => assert s[..|s| - 1] == Store(e, n - 1, v / 256);
    }
  }

  lemma {:induction false} StoreLoad(e: Endian, s: seq<byte>)
    ensures Store(e, |s|, Load(e, s)) == s
    decreases |s|
  {
    hide Pow256;
    if s != [] {
      var (rest, b) := match e case Little => (s[1..], s[0]) case Big => (s[..|s| - 1], s[|s| - 1]);
      StoreLoad(e, rest);
      LastByte(Load(e, rest), b);
      match e
      case Little => assert s == [s[0]] + s[1..];
      case Big => assert s == s[..|s| - 1] + [s[|s| - 1]];
    }
  }

  /** A number by its low byte and the rest. */
  function Word(low: nat, high: nat): nat {
    low + 0x100 * high
  }

  /** The number whose digits to the base 256 are `t`, the low one first. */
  function Number(t: seq<byte>): nat {
    if t == [] then 0 else Word(t[0], Number(t[1..]))
  }

  /** The order spelled out: the first byte is the low one, or the last. */
  lemma {:induction false} LoadOrder(e: Endian, s: seq<byte>)
    ensures Load(e, s) == Number(if e.Little? then s else Backward(s))
    decreases |s|
  {
    if s != [] {
      match e
      case Little =>
        LoadOrder(e, s[1..]);
      case Big =>
        LoadOrder(e, s[..|s| - 1]);
        assert Backward(s)[1..] == Backward(s[..|s| - 1]);
    }
  }

  lemma LoadOfTwo(e: Endian, s: seq<byte>)
    requires |s| == 2
    ensures Load(e, s) == if e.Little? then Word(s[0], s[1]) else Word(s[1], s[0])
  {
    hide Load;
    LoadOrder(e, s);
    NumberOfTwo(if e.Little? then s else Backward(s));
  }

  lemma LoadOfFour(e: Endian, s: seq<byte>)
    requires |s| == 4
    ensures Load(e, s) == if e.Little? then Word(s[0], Word(s[1], Word(s[2], s[3])))
                          else Word(s[3], Word(s[2], Word(s[1], s[0])))
  {
    hide Load;
    LoadOrder(e, s);
    var t := if e.Little? then s else Backward(s);
    NumberOfTwo(t[2..]);
    assert t[1..][1..] == t[2..];
    assert Number(t) == Word(t[0], Number(t[1..]));
    assert Number(t[1..]) == Word(t[1], Number(t[2..]));
  }

  lemma NumberOfTwo(t: seq<byte>)
    requires |t| == 2
    ensures Number(t) == Word(t[0], t[1])
  {
    assert t[1..][1..] == [];
    assert Number(t[1..]) == Word(t[1], Number([])) == t[1];
  }

  function Backward(s: seq<byte>): (r: seq<byte>)
    ensures |r| == |s| && forall i :: 0 <= i < |s| ==> r[i] == s[|s| - 1 - i]
  {
    seq(|s|, i requires 0 <= i < |s| => s[|s| - 1 - i])
  }

  lemma LastByte(v: nat, b: byte)
    ensures (256 * v + b) / 256 == v && (256 * v + b) % 256 == b
  {
  }

  /** The widths the program uses, spelled out. */
  lemma Widths()
    ensures Pow256(1) == 0x100
    ensures Pow256(2) == 0x1_0000
    ensures Pow256(4) == 0x1_0000_0000
    ensures Pow256(8) == 0x1_0000_0000_0000_0000
  {
    assert Pow256(3) == 0x100_0000;
    assert Pow256(5) == 0x100_0000_0000;
    assert Pow256(6) == 0x1_0000_0000_0000;
    assert Pow256(7) == 0x100_0000_0000_0000;
  }

  /** `s` with `part` written over it from `at` on. */
  function Patch<T>(s: seq<T>, at: nat, part: seq<T>): (r: seq<T>)
    requires at + |part| <= |s|
    ensures |r| == |s|
    ensures r[at..at + |part|] == part
    ensures forall i :: 0 <= i < at || at + |part| <= i < |s| ==> r[i] == s[i]
  {
    s[..at] + part + s[at + |part|..]
  }

  lemma SliceOfSlice<T>(s: seq<T>, at: nat, n: nat, i: nat, j: nat)
    requires at + n <= |s| && i <= j <= n
    ensures s[at..at + n][i..j] == s[at + i..at + j]
  {
    var b := s[at..at + n];
    assert forall k :: 0 <= k < n ==> b[k] == s[at + k];
    assert b[i..j] == s[at + i..at + j];
  }
}
