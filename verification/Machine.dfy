/** Fixed-width integers of the C++ source, their conversions, and a small option type. */
module Machine {

  datatype Option<+T> = None | Some(value: T)

  type Byte = n: nat | n < 0x100
  type UInt16 = n: nat | n < 0x1_0000
  type UInt32 = n: nat | n < 0x1_0000_0000
  type Int32 = n: int | -0x8000_0000 <= n < 0x8000_0000

  /** Conversion of a mathematical result to uint32_t. */
  function ToUInt32(x: int): UInt32 {
    x % 0x1_0000_0000
  }

  /** Conversion of a mathematical result to int32_t (two's complement). */
  function ToInt32(x: int): Int32 {
    var u := x % 0x1_0000_0000;
    if u < 0x8000_0000 then u else u - 0x1_0000_0000
  }

  /** Little-endian byte images, the host order in which Netlink headers are laid out. */
  function Bytes16(v: UInt16): (s: seq<Byte>)
    ensures |s| == 2
  {
    [v % 0x100, v / 0x100]
  }

  function Bytes32(v: UInt32): (s: seq<Byte>)
    ensures |s| == 4
  {
    [v % 0x100, v / 0x100 % 0x100, v / 0x1_0000 % 0x100, v / 0x100_0000]
  }

  lemma JoinBytes32(v: UInt32)
    ensures v % 0x100 + 0x100 * (v / 0x100 % 0x100) + 0x1_0000 * (v / 0x1_0000 % 0x100) + 0x100_0000 * (v / 0x100_0000)
         == v
  {
    assert v / 0x1_0000 == v / 0x100 / 0x100;
    assert v / 0x100_0000 == v / 0x1_0000 / 0x100;
  }

  lemma Regroup<T>(a: seq<T>, b: seq<T>, c: seq<T>)
    ensures a + (b + c) == (a + b) + c
  {
  }

  /** The element at i, with what precedes and what follows it. */
  lemma Around<T>(l: seq<T>, i: nat)
    requires i < |l|
    ensures l[i..] == [l[i]] + l[i + 1..] && l[i..][1..] == l[i + 1..] && l[..i + 1] == l[..i] + [l[i]]
  {
  }
}
