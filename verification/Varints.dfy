/**
 Protobuf varints and length-delimited fields: the writer of the vector generator, the second writer
 of the contact-card checker, and the reader inside `media_fields_in_order`.
 */
module Varints {
  import opened Outcomes
  import opened ByteStrings

  /** Seven bits a byte, least significant first, the high bit on every byte but the last. */
  function VarintBytes(n: nat): (s: Bytes)
    ensures s != []
  {
    if n < 128 then [n] else [n % 128 + 128] + VarintBytes(n / 128)
  }

  /** `_varint`: the argument is first cut to 64 bits, two's complement. */
  method Varint(value: int) returns (out: Bytes)
    ensures out == VarintBytes(value % U64)
  {
    out := [];
    var n := value % U64;
    while n > 0x7F
      invariant n >= 0
      invariant out + VarintBytes(n) == VarintBytes(value % U64)
      decreases n
    {
      assert out + VarintBytes(n) == out + [n % 128 + 128] + VarintBytes(n / 128);
      out := out + [n % 128 + 128];
      n := n / 128;
    }
    out := out + [n];
  }

  /** `varint_field`: shifts first, then decides the high bit by what is left. */
  method VarintField(tag: Byte, value: nat) returns (out: Bytes)
    ensures out == [tag] + VarintBytes(value)
  {
    out := [tag];
    var v: nat := value;
    while true
      invariant out + VarintBytes(v) == [tag] + VarintBytes(value)
      decreases v
    {
      var low := v % 128;
      ghost var before := v;
      v := v / 128;
      assert VarintBytes(before) == if v == 0 then [low] else [low + 128] + VarintBytes(v);
      assert out + ([low + 128] + VarintBytes(v)) == out + [low + 128] + VarintBytes(v);
      out := out + [low + if v != 0 then 128 else 0];
      if v == 0 {
        return;
      }
    }
  }

  /** The value of the varint at offset i and the offset after it; None past the end of the data. */
  function ReadVarint(data: Bytes, i: nat): (r: Option<(nat, nat)>)
    ensures r.Some? ==> i < r.value.1 <= |data|
    decreases if i < |data| then |data| - i else 0
  {
    if i >= |data| then None
    else if data[i] < 128 then Some((data[i], i + 1))
    else
      match ReadVarint(data, i + 1)
      case None => None
      case Some((high, next)) => Some((data[i] - 128 + 128 * high, next))
  }

  lemma {:induction false} ReadOfVarint(n: nat, data: Bytes, i: nat)
    requires i <= |data| && VarintBytes(n) <= data[i..]
    ensures ReadVarint(data, i) == Some((n, i + |VarintBytes(n)|))
  {
    var code := VarintBytes(n);
    assert data[i] == code[0];
    if n >= 128 {
      assert code[1..] == VarintBytes(n / 128);
      assert data[i + 1..] == data[i..][1..];
      ReadOfVarint(n / 128, data, i + 1);
    }
  }

  /** Minimal: the last byte of a longer code carries bits. */
  ghost predicate Minimal(code: Bytes) {
    |code| > 1 ==> code[|code| - 1] != 0
  }

  function Pow128(k: nat): nat {
    if k == 0 then 1 else 128 * Pow128(k - 1)
  }

  lemma {:induction false} VarintLength(n: nat, k: nat)
    requires n < Pow128(k) && k > 0
    ensures |VarintBytes(n)| <= k
  {
    if n >= 128 {
      VarintLength(n / 128, k - 1);
    }
  }

  lemma {:induction false} VarintMinimal(n: nat)
    ensures Minimal(VarintBytes(n))
    ensures n > 0 ==> VarintBytes(n)[|VarintBytes(n)| - 1] != 0
  {
    if n >= 128 {
      VarintMinimal(n / 128);
    }
  }

  /** What `_varint` writes reads back as its argument modulo 2^64, from at most ten minimal bytes. */
  lemma VarintRoundTrip(value: int, rest: Bytes)
    ensures var code := VarintBytes(value % U64);
            && ReadVarint(code + rest, 0) == Some((value % U64, |code|))
            && |code| <= 10 && Minimal(code)
  {
    var n := value % U64;
    assert (VarintBytes(n) + rest)[0..] == VarintBytes(n) + rest;
    ReadOfVarint(n, VarintBytes(n) + rest, 0);
    assert Pow128(10) == 128 * (128 * (128 * (128 * (128 * Pow128(5)))));
    VarintLength(n, 10);
    VarintMinimal(n);
  }

  /** Minimal codes are the only ones `_varint` writes: a value has one minimal code. */
  lemma {:induction false} MinimalUnique(code: Bytes, n: nat)
    requires Minimal(code) && ReadVarint(code, 0) == Some((n, |code|))
    ensures code == VarintBytes(n)
    decreases |code|
  {
    if code[0] >= 128 {
      var tail := code[1..];
      ReadShiftBy(code, tail, 1, 0);
      var high := ReadVarint(tail, 0).value.0;
      MinimalUnique(tail, high);
      assert code == [code[0]] + tail;
    }
  }

  lemma {:induction false} ReadShiftBy(data: Bytes, tail: Bytes, k: nat, i: nat)
    requires k <= |data| && tail == data[k..] && i <= |tail|
    ensures ReadVarint(data, k + i) ==
            match ReadVarint(tail, i)
            case None => None
            case Some((n, next)) => Some((n, k + next))
    decreases |tail| - i
  {
    if i < |tail| {
      assert tail[i] == data[k + i];
      if tail[i] >= 128 {
        ReadShiftBy(data, tail, k, i + 1);
      }
    }
  }

  lemma VarintInjective(m: nat, n: nat)
    requires VarintBytes(m) == VarintBytes(n)
    ensures m == n
  {
    var code := VarintBytes(m);
    assert code[0..] == code;
    ReadOfVarint(m, code, 0);
    ReadOfVarint(n, code, 0);
  }

  /** `varint_field` writes what `_varint` writes exactly while the value fits 64 bits. */
  lemma WritersAgree(value: nat)
    ensures VarintBytes(value) == VarintBytes(value % U64) <==> value < U64
  {
    if VarintBytes(value) == VarintBytes(value % U64) {
      VarintInjective(value, value % U64);
    }
  }

  /** 300 takes two bytes. */
  lemma VarintOf300()
    ensures VarintBytes(300) == [0xAC, 0x02]
  {
  }

  /** `p_bytes`: the key of a length-delimited field, the length, the value. */
  function FieldBytes(number: nat, value: Bytes): Bytes {
    VarintBytes((number * 8 + 2) % U64) + VarintBytes(|value| % U64) + value
  }

  /** Reading raises exactly where every byte left asks for another. */
  lemma {:induction false} ReadRaisesExactly(data: Bytes, i: nat)
    requires i <= |data|
    ensures ReadVarint(data, i) == None <==> forall j | i <= j < |data| :: data[j] >= 128
    decreases |data| - i
  {
    if i < |data| && data[i] >= 128 {
      ReadRaisesExactly(data, i + 1);
    }
  }

  lemma {:induction false} VarintContinues(n: nat, j: nat)
    requires j + 1 < |VarintBytes(n)|
    ensures VarintBytes(n)[j] >= 128
  {
    if j > 0 {
      VarintContinues(n / 128, j - 1);
    }
  }
}
