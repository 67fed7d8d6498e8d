/** Bytes and the little-endian layout of integers in memory and on disk. */
module Bytes {

  type byte = b: int | 0 <= b < 256
  type uint32 = x: int | 0 <= x < 0x1_0000_0000

  function U16(f: seq<byte>, o: nat): (r: nat)
    requires o + 2 <= |f|
    ensures r < 0x1_0000
  {
    (f[o] as int) + 256 * (f[o + 1] as int)
  }

  function U32(f: seq<byte>, o: nat): (r: uint32)
    requires o + 4 <= |f|
  {
    (f[o] as int) + 256 * (f[o + 1] as int) + 0x1_0000 * (f[o + 2] as int) + 0x100_0000 * (f[o + 3] as int)
  }

  /** The characters of a C string, without its terminator. */
  predicate IsCString(s: seq<byte>) { 0 !in s }

  /** The string in a field: what precedes the first NUL. */
  function CString(f: seq<byte>): (s: seq<byte>)
    ensures IsCString(s) && |s| <= |f|
  {
    if f == [] || f[0] == 0 then [] else [f[0]] + CString(f[1..])
  }

  function Bytes32(x: uint32): (r: seq<byte>)
    ensures |r| == 4
  {
    [x % 256, x / 256 % 256, x / 0x1_0000 % 256, x / 0x100_0000]
  }

  lemma Bytes32RoundTrip(f: seq<byte>, o: nat, x: uint32)
    requires o + 4 <= |f| && f[o..o + 4] == Bytes32(x)
    ensures U32(f, o) == x
  {
    var b := Bytes32(x);
    assert forall i {:trigger b[i]} :: 0 <= i < 4 ==> f[o + i] == f[o..o + 4][i];
    assert f[o] == b[0] && f[o + 1] == b[1] && f[o + 2] == b[2] && f[o + 3] == b[3];
    DigitSum(x);
  }

  function Bytes16(x: nat): (r: seq<byte>)
    requires x < 0x1_0000
    ensures |r| == 2
  {
    [x % 256, x / 256]
  }

  lemma Bytes16RoundTrip(f: seq<byte>, o: nat, x: nat)
    requires x < 0x1_0000 && o + 2 <= |f| && f[o..o + 2] == Bytes16(x)
    ensures U16(f, o) == x
  {
    var b := Bytes16(x);
    assert f[o] == f[o..o + 2][0] == b[0] && f[o + 1] == f[o..o + 2][1] == b[1];
  }

  lemma DigitSum(x: int)
    ensures x == x % 256 + 256 * (x / 256 % 256) + 0x1_0000 * (x / 0x1_0000 % 256) + 0x100_0000 * (x / 0x100_0000)
  {
  }
}
