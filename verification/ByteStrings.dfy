/** Bytes, byte strings and the fixed-width integers that `struct` packs into them. */
module ByteStrings {

  type Byte = b: int | 0 <= b < 256

  type Bytes = seq<Byte>

  const U16 := 0x1_0000

  const U32 := 0x1_0000_0000

  const U64 := 0x1_0000_0000_0000_0000

  function Min(a: int, b: int): int {
    if a < b then a else b
  }

  /** `data[from:to]`: bounds past the end are cut to the end. */
  function Slice<T>(data: seq<T>, from: nat, to: nat): seq<T>
    requires from <= to
  {
    data[Min(from, |data|)..Min(to, |data|)]
  }

  /** The number of values k bytes can hold. */
  function Pow256(k: nat): (p: nat)
    ensures p > 0
  {
    if k == 0 then 1 else 256 * Pow256(k - 1)
  }

  lemma Pow256Values()
    ensures Pow256(2) == U16 && Pow256(4) == U32 && Pow256(8) == U64
  {
    assert Pow256(4) == 256 * (256 * Pow256(2));
    assert Pow256(8) == 256 * (256 * (256 * (256 * Pow256(4))));
  }

  /** Little-endian: the k low bytes of n, least significant first. */
  function LeBytes(n: nat, k: nat): (s: Bytes)
    ensures |s| == k
  {
    if k == 0 then [] else [n % 256] + LeBytes(n / 256, k - 1)
  }

  function LeValue(s: Bytes): nat {
    if s == [] then 0 else s[0] + 256 * LeValue(s[1..])
  }

  lemma {:induction false} LeValueOfBytes(n: nat, k: nat)
    requires n < Pow256(k)
    ensures LeValue(LeBytes(n, k)) == n
  {
    if k > 0 {
      LeValueOfBytes(n / 256, k - 1);
      assert LeBytes(n, k)[1..] == LeBytes(n / 256, k - 1);
    }
  }

  lemma {:induction false} LeBytesOfValue(s: Bytes)
    ensures LeValue(s) < Pow256(|s|)
    ensures LeBytes(LeValue(s), |s|) == s
  {
    if s != [] {
      LeBytesOfValue(s[1..]);
      assert LeValue(s) / 256 == LeValue(s[1..]);
      assert s == [s[0]] + s[1..];
    }
  }

  /** The little-endian bytes written out, for the widths in use. */
  lemma LeLayout2(b0: Byte, b1: Byte)
    ensures LeBytes(b0 + 0x100 * b1, 2) == [b0, b1]
  {
    var s: Bytes := [b0, b1];
    assert s[1..] == [b1] && s[1..][1..] == [];
    assert LeValue(s[1..]) == b1;
    LeBytesOfValue(s);
  }

  lemma LeLayout4(b0: Byte, b1: Byte, b2: Byte, b3: Byte)
    ensures LeBytes(b0 + 0x100 * b1 + 0x1_0000 * b2 + 0x100_0000 * b3, 4) == [b0, b1, b2, b3]
  {
    LeValue4([b0, b1, b2, b3]);
    LeBytesOfValue([b0, b1, b2, b3]);
  }

  lemma LeLayout8(low: Bytes, high: Bytes)
    requires |low| == |high| == 4
    ensures LeBytes(LeValue(low) + 0x1_0000_0000 * LeValue(high), 8) == low + high
  {
    LeValueAppend(low, high);
    Pow256Values();
    LeBytesOfValue(low + high);
  }

  lemma LeValue4(s: Bytes)
    requires |s| == 4
    ensures LeValue(s) == s[0] as nat + 0x100 * s[1] as nat + 0x1_0000 * s[2] as nat + 0x100_0000 * s[3] as nat
  {
    var t := s[1..];
    var u := t[1..];
    var v := u[1..];
    assert t[0] == s[1] && u[0] == s[2] && v[0] == s[3] && v[1..] == [];
    assert LeValue(v) == v[0] + 256 * LeValue(v[1..]) == s[3];
    assert LeValue(u) == s[2] + 256 * LeValue(v);
    assert LeValue(t) == s[1] + 256 * LeValue(u);
  }

  lemma {:induction false} LeValueAppend(s: Bytes, t: Bytes)
    ensures LeValue(s + t) == LeValue(s) + Pow256(|s|) * LeValue(t)
  {
    if s == [] {
      assert s + t == t;
    } else {
      assert (s + t)[1..] == s[1..] + t;
      LeValueAppend(s[1..], t);
      assert 256 * (Pow256(|s| - 1) * LeValue(t)) == Pow256(|s|) * LeValue(t);
    }
  }

  /** A 32-bit value by its four digits. */
  lemma Digits4(n: nat)
    requires n < 0x1_0000_0000
    ensures n == n % 256 + 0x100 * (n / 0x100 % 256) + 0x1_0000 * (n / 0x1_0000 % 256) + 0x100_0000 * (n / 0x100_0000 % 256)
  {
    assert n / 0x100 == 0x100 * (n / 0x1_0000) + n / 0x100 % 256;
    assert n / 0x1_0000 == 0x100 * (n / 0x100_0000) + n / 0x1_0000 % 256;
  }

  lemma LeInjective(m: nat, n: nat, k: nat)
    requires m < Pow256(k) && n < Pow256(k)
    requires LeBytes(m, k) == LeBytes(n, k)
    ensures m == n
  {
    LeValueOfBytes(m, k);
    LeValueOfBytes(n, k);
  }

  /** Big-endian: the k low bytes of n, most significant first. */
  function BeBytes(n: nat, k: nat): (s: Bytes)
    ensures |s| == k
  {
    if k == 0 then [] else BeBytes(n / 256, k - 1) + [n % 256]
  }

  function BeValue(s: Bytes): nat {
    if s == [] then 0 else 256 * BeValue(s[..|s| - 1]) + s[|s| - 1]
  }

  /** The big-endian bytes written out, for the widths in use. */
  lemma BeLayout2(b0: Byte, b1: Byte)
    ensures BeBytes(0x100 * b0 + b1, 2) == [b0, b1]
    ensures BeValue([b0, b1]) == 0x100 * b0 + b1
  {
    var s: Bytes := [b0, b1];
    assert s[..1] == [b0] && s[..1][..0] == [];
    assert BeValue(s[..1]) == b0;
    BeBytesOfValue(s);
  }

  lemma BeLayout4(b0: Byte, b1: Byte, b2: Byte, b3: Byte)
    ensures BeBytes(0x100_0000 * b0 + 0x1_0000 * b1 + 0x100 * b2 + b3, 4) == [b0, b1, b2, b3]
    ensures BeValue([b0, b1, b2, b3]) == 0x100_0000 * b0 + 0x1_0000 * b1 + 0x100 * b2 + b3
  {
    var s: Bytes := [b0, b1, b2, b3];
    BeLayout2(b0, b1);
    assert s[..3] == [b0, b1, b2] && s[..3][..2] == [b0, b1];
    assert BeValue(s[..3]) == 256 * BeValue([b0, b1]) + b2;
    assert BeValue(s) == 256 * BeValue(s[..3]) + b3;
    BeBytesOfValue(s);
  }

  lemma {:induction false} BeValueOfBytes(n: nat, k: nat)
    requires n < Pow256(k)
    ensures BeValue(BeBytes(n, k)) == n
  {
    if k > 0 {
      BeValueOfBytes(n / 256, k - 1);
      assert BeBytes(n, k)[..k - 1] == BeBytes(n / 256, k - 1);
    }
  }

  lemma {:induction false} BeBytesOfValue(s: Bytes)
    ensures BeValue(s) < Pow256(|s|)
    ensures BeBytes(BeValue(s), |s|) == s
  {
    if s != [] {
      var front := s[..|s| - 1];
      BeBytesOfValue(front);
      assert BeValue(s) / 256 == BeValue(front);
      assert s == front + [s[|s| - 1]];
    }
  }

  lemma Regroup<T>(a: seq<T>, b: seq<T>, c: seq<T>)
    ensures a + b + c == a + (b + c)
  {
  }
}
