/** Bytes and the fixed-width integer encodings the transport uses. */
module Bytes {

  type byte = x: int | 0 <= x < 256

  /** 256^n: the number of values that n bytes can hold. */
  function Pow256(n: nat): (r: nat)
    ensures r > 0
  {
    if n == 0 then 1 else 256 * Pow256(n - 1)
  }

  lemma Pow256Of2And8()
    ensures Pow256(2) == 0x1_0000
    ensures Pow256(8) == 0x1_0000_0000_0000_0000
  {
    assert Pow256(1) == 256;
    assert Pow256(2) == 0x1_0000;
    assert Pow256(4) == 0x1_0000_0000 by { assert Pow256(3) == 0x100_0000; }
    assert Pow256(6) == 0x1_0000_0000_0000 by { assert Pow256(5) == 0x100_0000_0000; }
    assert Pow256(8) == 0x1_0000_0000_0000_0000 by { assert Pow256(7) == 0x100_0000_0000_0000; }
  }

  lemma {:induction false} Pow256Add(a: nat, b: nat)
    ensures Pow256(a + b) == Pow256(a) * Pow256(b)
    decreases a
  {
    if a > 0 {
      Pow256Add(a - 1, b);
      assert Pow256(a + b) == 256 * (Pow256(a - 1) * Pow256(b));
    }
  }

  lemma Pow256Of32()
    ensures Pow256(32) == 0x1_0000_0000_0000_0000_0000_0000_0000_0000_0000_0000_0000_0000_0000_0000_0000_0000
  {
    Pow256Of2And8();
    Pow256Add(8, 8);
    Pow256Add(16, 16);
  }

  /** The low `len` bytes of n, least significant first (encoding/binary LittleEndian). */
  function ToLE(n: nat, len: nat): (r: seq<byte>)
    ensures |r| == len
  {
    if len == 0 then [] else [n % 256] + ToLE(n / 256, len - 1)
  }

  function FromLE(s: seq<byte>): nat
  {
    if s == [] then 0 else s[0] + 256 * FromLE(s[1..])
  }

  /** The low `len` bytes of n, most significant first (encoding/binary BigEndian). */
  function ToBE(n: nat, len: nat): (r: seq<byte>)
    ensures |r| == len
  {
    if len == 0 then [] else ToBE(n / 256, len - 1) + [n % 256]
  }

  function FromBE(s: seq<byte>): nat
  {
    if s == [] then 0 else FromBE(s[..|s| - 1]) * 256 + s[|s| - 1]
  }

  lemma {:induction false} FromLEToLE(n: nat, len: nat)
    requires n < Pow256(len)
    ensures FromLE(ToLE(n, len)) == n
  {
    if len > 0 {
      FromLEToLE(n / 256, len - 1);
      assert ToLE(n, len)[1..] == ToLE(n / 256, len - 1);
    }
  }

  lemma {:induction false} FromBEToBE(n: nat, len: nat)
    requires n < Pow256(len)
    ensures FromBE(ToBE(n, len)) == n
  {
    if len > 0 {
      FromBEToBE(n / 256, len - 1);
      var s := ToBE(n, len);
      assert s[..|s| - 1] == ToBE(n / 256, len - 1);
    }
  }

  lemma {:induction false} FromBEBound(s: seq<byte>)
    ensures FromBE(s) < Pow256(|s|)
  {
    if s != [] {
      FromBEBound(s[..|s| - 1]);
    }
  }

  lemma {:induction false} ToBEFromBE(s: seq<byte>)
    ensures ToBE(FromBE(s), |s|) == s
  {
    if s != [] {
      var init := s[..|s| - 1];
      ToBEFromBE(init);
      var n := FromBE(s);
      assert n / 256 == FromBE(init) && n % 256 == s[|s| - 1];
      assert s == init + [s[|s| - 1]];
    }
  }

  /** The bytes of an ASCII string (every character of the strings used here is below 128). */
  function Ascii(s: string): (r: seq<byte>)
    ensures |r| == |s|
  {
    seq(|s|, i requires 0 <= i < |s| => (s[i] as int) % 256)
  }
}
