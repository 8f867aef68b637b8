/** Big-endian byte strings and the numbers they stand for. */
module Bytes {
  type Byte = x: int | 0 <= x < 256

  function BigEndian(s: seq<Byte>): (v: nat) {
    if s == [] then 0 else BigEndian(s[..|s| - 1]) * 256 + s[|s| - 1]
  }

  /** The n-byte big-endian encoding of v modulo 256^n. */
  function ToBytes(v: nat, n: nat): (s: seq<Byte>)
    ensures |s| == n
  {
    if n == 0 then [] else ToBytes(v / 256, n - 1) + [v % 256]
  }

  /** v >> 8 n. */
  function ShiftRight(v: nat, n: nat): nat {
    if n == 0 then v else ShiftRight(v, n - 1) / 256
  }

  function Pow256(n: nat): (p: nat)
    ensures p > 0
  {
    if n == 0 then 1 else Pow256(n - 1) * 256
  }

  lemma {:induction false} BigEndianBound(s: seq<Byte>)
    ensures BigEndian(s) < Pow256(|s|)
  {
    if s != [] {
      BigEndianBound(s[..|s| - 1]);
    }
  }

  lemma {:induction false} BigEndianConcat(s: seq<Byte>, t: seq<Byte>)
    ensures BigEndian(s + t) == BigEndian(s) * Pow256(|t|) + BigEndian(t)
  {
    if t == [] {
      assert s + t == s;
    } else {
      var u := t[..|t| - 1];
      assert (s + t)[..|s + t| - 1] == s + u;
      BigEndianConcat(s, u);
      assert (BigEndian(s) * Pow256(|u|)) * 256 == BigEndian(s) * Pow256(|t|);
    }
  }

  /** Encoding inverts decoding: a byte string is determined by its length and its number. */
  lemma {:induction false} ToBytesOfBigEndian(s: seq<Byte>)
    ensures ToBytes(BigEndian(s), |s|) == s
  {
    if s != [] {
      var u := s[..|s| - 1];
      ToBytesOfBigEndian(u);
      assert s == u + [s[|s| - 1]];
    }
  }

  lemma {:induction false} BigEndianOfToBytes(v: nat, n: nat)
    requires v < Pow256(n)
    ensures BigEndian(ToBytes(v, n)) == v
  {
    if n > 0 {
      BigEndianOfToBytes(v / 256, n - 1);
      assert ToBytes(v, n)[..n - 1] == ToBytes(v / 256, n - 1);
    }
  }

  lemma {:induction false} ShiftOut(v: nat, n: nat)
    requires v < Pow256(n)
    ensures ShiftRight(v, n) == 0
  {
    if n > 0 {
      ShiftRightFirst(v, n);
      ShiftOut(v / 256, n - 1);
    }
  }

  lemma {:induction false} ShiftRightFirst(v: nat, n: nat)
    requires n > 0
    ensures ShiftRight(v, n) == ShiftRight(v / 256, n - 1)
  {
    if n > 1 {
      ShiftRightFirst(v, n - 1);
    }
  }

  lemma Pow256Values()
    ensures Pow256(8) == 0x1_0000000000000000
    ensures Pow256(16) == 0x1_0000000000000000_0000000000000000
    ensures Pow256(24) == 0x1_0000000000000000_0000000000000000_0000000000000000
    ensures Pow256(32) == 0x1_0000000000000000_0000000000000000_0000000000000000_0000000000000000
  {
    assert Pow256(4) == 0x1_0000_0000;
    Pow256Add(4, 4);
    Pow256Add(8, 8);
    Pow256Add(16, 8);
    Pow256Add(16, 16);
  }

  lemma {:induction false} Pow256Add(m: nat, n: nat)
    ensures Pow256(m + n) == Pow256(m) * Pow256(n)
  {
    if n > 0 {
      Pow256Add(m, n - 1);
      assert (Pow256(m) * Pow256(n - 1)) * 256 == Pow256(m) * Pow256(n);
    }
  }
}
