/** Bytes, fixed-width unsigned integers and their big-endian wire forms. */
module Bytes {
  type byte = x: int | 0 <= x < 0x100
  type uint16 = x: int | 0 <= x < 0x1_0000
  type uint24 = x: int | 0 <= x < 0x100_0000

  /** The number that two bytes make, most significant first. */
  function U16(s: seq<byte>): uint16
    requires |s| == 2
  {
    var high: int, low: int := s[0], s[1];
    high * 0x100 + low
  }

  /** The two bytes that make a number. */
  function U16Bytes(v: uint16): (s: seq<byte>)
    ensures |s| == 2 && U16(s) == v
  {
    assert v == v / 0x100 * 0x100 + v % 0x100;
    var high: byte, low: byte :| high * 0x100 + low == v;
    [high, low]
  }

  lemma U16Digits(s: seq<byte>)
    requires |s| == 2
    ensures U16Bytes(U16(s)) == s
  {
  }

  /** `GetUint24Value`: three bytes, most significant first. */
  function U24(s: seq<byte>): uint24
    requires |s| == 3
  {
    var high: int, middle: int, low: int := s[0], s[1], s[2];
    high * 0x1_0000 + middle * 0x100 + low
  }

  /** A number's most significant byte, and the other two. */
  function HighAndRest(n: uint24): (r: (byte, uint16))
    ensures r.0 * 0x1_0000 + r.1 == n
  {
    assert n == n / 0x1_0000 * 0x1_0000 + n % 0x1_0000;
    var high: byte, rest: uint16 :| high * 0x1_0000 + rest == n;
    (high, rest)
  }

  /** `SetUint24Value`: keeps the low 24 bits of `v` and drops the rest. */
  function U24Bytes(v: nat): (s: seq<byte>)
    ensures |s| == 3 && U24(s) == v % 0x100_0000
  {
    var (high, rest) := HighAndRest(v % 0x100_0000);
    [high] + U16Bytes(rest)
  }

  lemma HighAndRestOf(high: byte, rest: uint16)
    ensures HighAndRest(high * 0x1_0000 + rest) == (high, rest)
  {
    var r := HighAndRest(high * 0x1_0000 + rest);
    hide HighAndRest;
    assert r.0 == high && r.1 == rest;
  }

  lemma U24Digits(s: seq<byte>)
    requires |s| == 3
    ensures U24Bytes(U24(s)) == s
  {
    hide HighAndRest, U16Bytes;
    var n, rest := U24(s), s[1..];
    assert n % 0x100_0000 == n;
    HighAndRestOf(s[0], U16(rest));
    U16Digits(rest);
  }

  function Concat(parts: seq<seq<byte>>): seq<byte> {
    if parts == [] then [] else parts[0] + Concat(parts[1..])
  }

  lemma Regroup<T>(a: seq<T>, b: seq<T>, c: seq<T>)
    ensures (a + b) + c == a + (b + c)
  {
  }

  lemma SubSlice<T>(s: seq<T>, from: nat, n: nat, k: nat)
    requires from + n <= |s| && k <= n
    ensures s[from..from + n][..k] == s[from..from + k]
    ensures s[from..from + n][k..] == s[from + k..from + n]
  {
  }

  lemma {:induction false} ConcatAppend(parts: seq<seq<byte>>, part: seq<byte>)
    ensures Concat(parts + [part]) == Concat(parts) + part
  {
    if parts == [] {
      assert [part][1..] == [];
    } else {
      assert (parts + [part])[1..] == parts[1..] + [part];
      ConcatAppend(parts[1..], part);
    }
  }
}
