/**
 The C-escaped strings protoc prints: the decoder of the sticker checker, and the two writers that
 feed protoc, in hex and in octal. The decoder inverts both, and any mixture of escapes.
 */
module CEscapes {
  import opened Outcomes
  import opened ByteStrings

  // ---- Characters ----

  /** `str.encode()` of one character. */
  function Utf8(c: char): Bytes {
    var n := c as int;
    if n < 0x80 then [n]
    else if n < 0x800 then [0xC0 + n / 64, 0x80 + n % 64]
    else if n < 0x1_0000 then [0xE0 + n / 4096, 0x80 + n / 64 % 64, 0x80 + n % 64]
    else [0xF0 + n / 262_144 % 8, 0x80 + n / 4096 % 64, 0x80 + n / 64 % 64, 0x80 + n % 64]
  }

  predicate IsOctal(c: char) {
    '0' <= c <= '7'
  }

  predicate IsHex(c: char) {
    '0' <= c <= '9' || 'a' <= c <= 'f' || 'A' <= c <= 'F'
  }

  function HexDigit(c: char): (d: nat)
    requires IsHex(c)
    ensures d < 16
  {
    if c <= '9' then c as int - '0' as int
    else if c <= 'F' then c as int - 'A' as int + 10
    else c as int - 'a' as int + 10
  }

  /** What Python's `int` strips from both ends; the controls 0x1C to 0x1F are not among it. */
  predicate IsSpace(c: char) {
    var n := c as int;
    || 0x09 <= n <= 0x0D || n in {0x20, 0x85, 0xA0, 0x1680, 0x2028, 0x2029, 0x202F, 0x205F, 0x3000}
    || 0x2000 <= n <= 0x200A
  }

  function Stripped(s: string): string {
    if s != [] && IsSpace(s[0]) then Stripped(s[1..])
    else if s != [] && IsSpace(s[|s| - 1]) then Stripped(s[..|s| - 1])
    else s
  }

  /** The byte `int(s, 16)` gives for at most two characters; None where it, or storing it, raises. */
  function HexByte(s: string): Option<Byte>
    requires |s| <= 2
  {
    var t := Stripped(s);
    if |t| == 1 && IsHex(t[0]) then Some(HexDigit(t[0]))
    else if |t| == 2 && IsHex(t[0]) && IsHex(t[1]) then Some(16 * HexDigit(t[0]) + HexDigit(t[1]))
    else if |t| == 2 && t[0] == '+' && IsHex(t[1]) then Some(HexDigit(t[1]))
    else if t == "-0" then Some(0)
    else None
  }

  const NAMED: map<char, Byte> := map['n' := 10, 'r' := 13, 't' := 9, '\\' := 92, '"' := 34, '\'' := 39]

  // ---- Decoder ----

  /** Where the octal digits from j on end, at most at `limit`. */
  function OctalEnd(body: string, limit: nat, j: nat): (e: nat)
    requires j <= |body|
    ensures j <= e <= |body| && (j <= limit ==> e <= limit)
    ensures j < |body| && j < limit && IsOctal(body[j]) ==> j < e
    ensures forall k | j <= k < e :: IsOctal(body[k])
    decreases |body| - j
  {
    if j < |body| && j < limit && IsOctal(body[j]) then OctalEnd(body, limit, j + 1) else j
  }

  function OctalValue(digits: string): nat
    requires forall c | c in digits :: IsOctal(c)
  {
    if digits == [] then 0
    else
      var last := digits[|digits| - 1];
      assert last in digits && IsOctal(last);
      8 * OctalValue(digits[..|digits| - 1]) + (last as int - '0' as int)
  }

  /** The bytes body[i..] decodes to; None where the decoder raises. */
  function Decoded(body: string, i: nat): Option<Bytes>
    decreases if i < |body| then |body| - i else 0
  {
    if i >= |body| then Some([])
    else if body[i] != '\\' then Prepend(Utf8(body[i]), Decoded(body, i + 1))
    else if i + 1 >= |body| then None
    else if IsOctal(body[i + 1]) then
      var j := OctalEnd(body, i + 4, i + 1);
      var n := OctalValue(body[i + 1..j]);
      if n > 255 then None else Prepend([n], Decoded(body, j))
    else if body[i + 1] == 'x' then
      match HexByte(Slice(body, i + 2, i + 4))
      case None => None
      case Some(b) => Prepend([b], Decoded(body, i + 4))
    else if body[i + 1] in NAMED then Prepend([NAMED[body[i + 1]]], Decoded(body, i + 2))
    else None
  }

  /** What stands between the first and the last character. */
  function Body(text: string): string {
    if |text| < 2 then [] else text[1..|text| - 1]
  }

  method Unescape(text: string) returns (r: Option<Bytes>)
    ensures r == Decoded(Body(text), 0)
  {
    var body := Body(text);
    var out: Bytes, i := [], 0;
    PrependTwice([], [], Decoded(body, 0));
    while i < |body|
      invariant i >= 0
      invariant Decoded(body, 0) == Prepend(out, Decoded(body, i))
      decreases |body| - i
    {
      var c := body[i];
      ghost var before, at := out, i;
      if c != '\\' {
        out := out + Utf8(c);
        i := i + 1;
        PrependTwice(before, Utf8(c), Decoded(body, i));
        continue;
      }
      if i + 1 >= |body| {
        return None;
      }
      var nxt := body[i + 1];
      if IsOctal(nxt) {
        var j := i + 1;
        while j < |body| && j < i + 4 && IsOctal(body[j])
          invariant i + 1 <= j <= |body|
          invariant OctalEnd(body, i + 4, i + 1) == OctalEnd(body, i + 4, j)
          decreases |body| - j
        {
          j := j + 1;
        }
        assert j == OctalEnd(body, i + 4, i + 1) > i;
        var n := OctalValue(body[i + 1..j]);
        if n > 255 {
          return None;
        }
        out := out + [n];
        i := j;
        PrependTwice(before, [n], Decoded(body, i));
      } else if nxt == 'x' {
        var digits := Slice(body, i + 2, i + 4);
        if HexByte(digits).None? {
          return None;
        }
        out := out + [HexByte(digits).value];
        i := i + 4;
        PrependTwice(before, [HexByte(digits).value], Decoded(body, i));
      } else {
        if nxt !in NAMED {
          return None;
        }
        out := out + [NAMED[nxt]];
        i := i + 2;
        PrependTwice(before, [NAMED[nxt]], Decoded(body, i));
      }
    }
    assert out + [] == out;
    return Some(out);
  }

  // ---- Writers ----

  /** One piece of an escaped string. */
  datatype Token = Plain(c: char) | Hex(high: char, low: char) | Octal(b: Byte) | Named(c: char)

  predicate WellFormed(t: Token) {
    match t
    case Plain(c) => c != '\\'
    case Hex(high, low) => IsHex(high) && IsHex(low)
    case Octal(_) => true
    case Named(c) => c in NAMED
  }

  function OctalChar(d: nat): (c: char)
    requires d < 8
    ensures IsOctal(c)
  {
    ('0' as int + d) as char
  }

  function TextOf(t: Token): (s: string)
    ensures s != []
  {
    match t
    case Plain(c) => [c]
    case Hex(high, low) => ['\\', 'x', high, low]
    case Octal(b) => ['\\', OctalChar(b / 64), OctalChar(b / 8 % 8), OctalChar(b % 8)]
    case Named(c) => ['\\', c]
  }

  function Meaning(t: Token): Bytes
    requires WellFormed(t)
  {
    match t
    case Plain(c) => Utf8(c)
    case Hex(high, low) => [16 * HexDigit(high) + HexDigit(low)]
    case Octal(b) => [b]
    case Named(c) => [NAMED[c]]
  }

  function Texts(ts: seq<Token>): string {
    if ts == [] then [] else TextOf(ts[0]) + Texts(ts[1..])
  }

  predicate AllWellFormed(ts: seq<Token>) {
    forall k | 0 <= k < |ts| :: WellFormed(ts[k])
  }

  function Meanings(ts: seq<Token>): Bytes
    requires AllWellFormed(ts)
  {
    if ts == [] then [] else Meaning(ts[0]) + Meanings(ts[1..])
  }

  lemma OctalDigits(b: Byte)
    ensures OctalValue([OctalChar(b / 64), OctalChar(b / 8 % 8), OctalChar(b % 8)]) == b
  {
    var x, y, z := OctalChar(b / 64), OctalChar(b / 8 % 8), OctalChar(b % 8);
    assert [x, y, z][..2] == [x, y] && [x, y][..1] == [x] && [x][..0] == [];
    assert OctalValue([x]) == b / 64;
    assert OctalValue([x, y]) == 8 * (b / 64) + b / 8 % 8;
    assert OctalValue([x, y, z]) == 8 * OctalValue([x, y]) + b % 8;
  }

  lemma ThreeOctals(body: string, i: nat)
    requires i + 4 <= |body|
    requires IsOctal(body[i + 1]) && IsOctal(body[i + 2]) && IsOctal(body[i + 3])
    ensures OctalEnd(body, i + 4, i + 1) == i + 4
  {
    assert OctalEnd(body, i + 4, i + 4) == i + 4;
    assert OctalEnd(body, i + 4, i + 3) == i + 4;
    assert OctalEnd(body, i + 4, i + 2) == i + 4;
  }

  lemma OctalToken(body: string, i: nat, b: Byte)
    requires i + 4 <= |body| && body[i..i + 4] == TextOf(Octal(b))
    ensures Decoded(body, i) == Prepend([b], Decoded(body, i + 4))
  {
    var s := body[i..i + 4];
    assert body[i] == s[0] && body[i + 1] == s[1] && body[i + 2] == s[2] && body[i + 3] == s[3];
    ThreeOctals(body, i);
    assert body[i + 1..i + 4] == [s[1], s[2], s[3]];
    OctalDigits(b);
  }

  lemma HexToken(body: string, i: nat, high: char, low: char)
    requires IsHex(high) && IsHex(low)
    requires i + 4 <= |body| && body[i..i + 4] == TextOf(Hex(high, low))
    ensures Decoded(body, i) == Prepend([16 * HexDigit(high) + HexDigit(low)], Decoded(body, i + 4))
  {
    var s := body[i..i + 4];
    assert body[i] == s[0] && body[i + 1] == s[1] && body[i + 2] == s[2] && body[i + 3] == s[3];
    assert Slice(body, i + 2, i + 4) == [high, low];
    assert Stripped([high, low]) == [high, low];
  }

  /** A token decodes to its bytes whatever text follows it. */
  lemma TokenDecodes(body: string, i: nat, t: Token, rest: string)
    requires WellFormed(t)
    requires i <= |body| && body[i..] == TextOf(t) + rest
    ensures Decoded(body, i) == Prepend(Meaning(t), Decoded(body, i + |TextOf(t)|))
    ensures i + |TextOf(t)| <= |body| && body[i + |TextOf(t)|..] == rest
  {
    var n := |TextOf(t)|;
    assert body[i..i + n] == body[i..][..n] == TextOf(t);
    assert body[i + n..] == body[i..][n..] == rest;
    assert body[i] == body[i..i + n][0];
    match t
    case Plain(_) =>
    case Hex(high, low) => HexToken(body, i, high, low);
    case Octal(b) => OctalToken(body, i, b);
    case Named(_) => assert body[i + 1] == body[i..i + n][1];
  }

  /** The first token gives its bytes and leaves the rest of the tokens at `next`. */
  lemma FirstToken(body: string, i: nat, ts: seq<Token>) returns (next: nat, front: Bytes)
    requires AllWellFormed(ts) && ts != []
    requires i <= |body| && body[i..] == Texts(ts)
    ensures AllWellFormed(ts[1..])
    ensures next <= |body| && body[next..] == Texts(ts[1..])
    ensures Decoded(body, i) == Prepend(front, Decoded(body, next))
    ensures Meanings(ts) == front + Meanings(ts[1..])
  {
    hide Decoded, TextOf, Meaning;
    TokenDecodes(body, i, ts[0], Texts(ts[1..]));
    next, front := i + |TextOf(ts[0])|, Meaning(ts[0]);
  }

  lemma {:induction false} TokensDecode(body: string, i: nat, ts: seq<Token>)
    requires AllWellFormed(ts)
    requires i <= |body| && body[i..] == Texts(ts)
    ensures Decoded(body, i) == Some(Meanings(ts))
    decreases |ts|
  {
    if ts == [] {
      assert |body[i..]| == 0;
    } else {
      var next, front := FirstToken(body, i, ts);
      TokensDecode(body, next, ts[1..]);
    }
  }

  /** Any quoted sequence of tokens decodes to the bytes of its tokens. */
  lemma UnescapesTokens(ts: seq<Token>)
    requires AllWellFormed(ts)
    ensures Decoded(Body(['"'] + Texts(ts) + ['"']), 0) == Some(Meanings(ts))
  {
    var text := ['"'] + Texts(ts) + ['"'];
    assert Body(text) == Texts(ts);
    assert Texts(ts)[0..] == Texts(ts);
    TokensDecode(Texts(ts), 0, ts);
  }

  function HexChar(d: nat): (c: char)
    requires d < 16
    ensures IsHex(c) && HexDigit(c) == d
  {
    if d < 10 then ('0' as int + d) as char else ('a' as int + d - 10) as char
  }

  /** `esc`: every byte as `\x` and two lower-case digits. */
  function Esc(bytes: Bytes): string {
    if bytes == [] then [] else ['\\', 'x', HexChar(bytes[0] / 16), HexChar(bytes[0] % 16)] + Esc(bytes[1..])
  }

  /** The octal writer of `avatar_text`: every byte as three octal digits. */
  function EscOctal(bytes: Bytes): string {
    if bytes == [] then []
    else
      var b := bytes[0];
      ['\\', OctalChar(b / 64), OctalChar(b / 8 % 8), OctalChar(b % 8)] + EscOctal(bytes[1..])
  }

  function HexTokens(bytes: Bytes): seq<Token> {
    seq(|bytes|, k requires 0 <= k < |bytes| => Hex(HexChar(bytes[k] / 16), HexChar(bytes[k] % 16)))
  }

  function OctalTokens(bytes: Bytes): seq<Token> {
    seq(|bytes|, k requires 0 <= k < |bytes| => Octal(bytes[k]))
  }

  lemma {:induction false} HexTokensText(bytes: Bytes)
    ensures Texts(HexTokens(bytes)) == Esc(bytes)
    ensures AllWellFormed(HexTokens(bytes))
    ensures Meanings(HexTokens(bytes)) == bytes
  {
    if bytes != [] {
      HexTokensText(bytes[1..]);
      assert HexTokens(bytes)[1..] == HexTokens(bytes[1..]);
    }
  }

  lemma {:induction false} OctalTokensText(bytes: Bytes)
    ensures Texts(OctalTokens(bytes)) == EscOctal(bytes)
    ensures Meanings(OctalTokens(bytes)) == bytes
  {
    if bytes != [] {
      OctalTokensText(bytes[1..]);
      assert OctalTokens(bytes)[1..] == OctalTokens(bytes[1..]);
    }
  }

  /** The decoder inverts the hex writer on every byte string. */
  lemma UnescapeInvertsHex(bytes: Bytes)
    ensures Decoded(Body(['"'] + Esc(bytes) + ['"']), 0) == Some(bytes)
  {
    HexTokensText(bytes);
    UnescapesTokens(HexTokens(bytes));
  }

  /** The decoder inverts the octal writer on every byte string. */
  lemma UnescapeInvertsOctal(bytes: Bytes)
    ensures Decoded(Body(['"'] + EscOctal(bytes) + ['"']), 0) == Some(bytes)
  {
    OctalTokensText(bytes);
    UnescapesTokens(OctalTokens(bytes));
  }

  // ---- The decoder character by character ----

  function Digit(c: char): int {
    c as int - 48
  }

  /** The six named escapes and their bytes; any other letter raises, and so does a lone backslash. */
  lemma NamedEscapes(body: string, i: nat)
    requires i < |body| && body[i] == '\\'
    ensures i + 1 == |body| ==> Decoded(body, i) == None
    ensures i + 1 < |body| ==>
              var rest := Decoded(body, i + 2);
              && (body[i + 1] == 'n' ==> Decoded(body, i) == Prepend([10], rest))
              && (body[i + 1] == 'r' ==> Decoded(body, i) == Prepend([13], rest))
              && (body[i + 1] == 't' ==> Decoded(body, i) == Prepend([9], rest))
              && (body[i + 1] == '\\' ==> Decoded(body, i) == Prepend([92], rest))
              && (body[i + 1] == '"' ==> Decoded(body, i) == Prepend([34], rest))
              && (body[i + 1] == '\'' ==> Decoded(body, i) == Prepend([39], rest))
              && (body[i + 1] !in "01234567xnrt\\\"\'" ==> Decoded(body, i) == None)
  {
  }

  /** One to three octal digits, as many as there are: their value up to 255; above it raises. */
  lemma OctalEscapes(body: string, i: nat, k: nat)
    requires 1 <= k <= 3 && i + k < |body| && body[i] == '\\'
    requires forall j | i < j <= i + k :: IsOctal(body[j])
    requires k == 3 || i + k + 1 == |body| || !IsOctal(body[i + k + 1])
    ensures var n := if k == 1 then Digit(body[i + 1])
                     else if k == 2 then 8 * Digit(body[i + 1]) + Digit(body[i + 2])
                     else 64 * Digit(body[i + 1]) + 8 * Digit(body[i + 2]) + Digit(body[i + 3]);
            Decoded(body, i) == if n > 255 then None else Prepend([n], Decoded(body, i + k + 1))
  {
    assert IsOctal(body[i + 1]);
    OctalRun(body, i, k);
    var digits := body[i + 1..i + k + 1];
    assert digits[..1] == [body[i + 1]] && digits[..1][..0] == [];
    assert OctalValue(digits[..1]) == Digit(body[i + 1]);
    if k == 1 {
      assert digits == digits[..1];
    } else {
      assert digits[..2][..1] == digits[..1];
      assert OctalValue(digits[..2]) == 8 * OctalValue(digits[..1]) + Digit(body[i + 2]);
      if k == 2 {
        assert digits == digits[..2];
      } else {
        assert OctalValue(digits) == 8 * OctalValue(digits[..2]) + Digit(body[i + 3]);
      }
    }
  }

  lemma OctalRun(body: string, i: nat, k: nat)
    requires 1 <= k <= 3 && i + k < |body|
    requires forall j | i < j <= i + k :: IsOctal(body[j])
    requires k == 3 || i + k + 1 == |body| || !IsOctal(body[i + k + 1])
    ensures OctalEnd(body, i + 4, i + 1) == i + k + 1
  {
    assert IsOctal(body[i + 1]);
    assert OctalEnd(body, i + 4, i + k + 1) == i + k + 1;
    if k >= 2 {
      assert IsOctal(body[i + 2]);
    }
    if k == 3 {
      assert IsOctal(body[i + 3]);
      assert OctalEnd(body, i + 4, i + 3) == i + 4;
    }
    if k >= 2 {
      assert OctalEnd(body, i + 4, i + 2) == i + k + 1;
    }
  }

  /** The value of every hexadecimal digit. */
  lemma HexDigits()
    ensures forall c | '0' <= c <= '9' :: IsHex(c) && HexDigit(c) == c as int - 48
    ensures HexDigit('a') == 10 && HexDigit('b') == 11 && HexDigit('c') == 12
    ensures HexDigit('d') == 13 && HexDigit('e') == 14 && HexDigit('f') == 15
    ensures HexDigit('A') == 10 && HexDigit('B') == 11 && HexDigit('C') == 12
    ensures HexDigit('D') == 13 && HexDigit('E') == 14 && HexDigit('F') == 15
    ensures forall c :: IsHex(c) <==> c in "0123456789abcdefABCDEF"
  {
  }

  /** A hex escape takes the next two characters; at the end of the text, the one that is left, or raises. */
  lemma HexEscapes(body: string, i: nat)
    requires i + 1 < |body| && body[i] == '\\' && body[i + 1] == 'x'
    ensures i + 2 == |body| ==> Decoded(body, i) == None
    ensures i + 3 == |body| && IsHex(body[i + 2]) ==> Decoded(body, i) == Some([HexDigit(body[i + 2])])
    ensures i + 4 <= |body| && IsHex(body[i + 2]) && IsHex(body[i + 3]) ==>
              Decoded(body, i) == Prepend([16 * HexDigit(body[i + 2]) + HexDigit(body[i + 3])], Decoded(body, i + 4))
    ensures i + 4 <= |body| ==>
              match HexByte([body[i + 2], body[i + 3]])
              case None => Decoded(body, i) == None
              case Some(n) => Decoded(body, i) == Prepend([n], Decoded(body, i + 4))
  {
    var digits := Slice(body, i + 2, i + 4);
    if i + 2 == |body| {
      assert digits == [];
    } else if i + 3 == |body| {
      assert digits == [body[i + 2]];
      if IsHex(body[i + 2]) {
        OneCharacter(body[i + 2]);
        assert Decoded(body, i + 4) == Some([]);
        assert [HexDigit(body[i + 2])] + [] == [HexDigit(body[i + 2])];
      }
    } else {
      assert digits == [body[i + 2], body[i + 3]];
      TwoCharacters(body[i + 2], body[i + 3]);
    }
  }

  lemma OneCharacter(c: char)
    requires IsHex(c)
    ensures HexByte([c]) == Some(HexDigit(c))
  {
    assert Stripped([c]) == [c];
  }

  /** What `int` makes of two characters: two digits, or one with a space or a sign, minus only before 0. */
  lemma TwoCharacters(a: char, b: char)
    ensures IsHex(a) && IsHex(b) ==> HexByte([a, b]) == Some(16 * HexDigit(a) + HexDigit(b))
    ensures IsHex(a) && b == ' ' ==> HexByte([a, b]) == Some(HexDigit(a))
    ensures a == ' ' && IsHex(b) ==> HexByte([a, b]) == Some(HexDigit(b))
    ensures a == '+' && IsHex(b) ==> HexByte([a, b]) == Some(HexDigit(b))
    ensures a == '-' ==> HexByte([a, b]) == if b == '0' then Some(0) else None
    ensures !IsHex(a) && a !in "+-" && !IsSpace(a) ==> HexByte([a, b]) == None
    ensures !IsHex(b) && !IsSpace(b) ==> HexByte([a, b]) == None
  {
    assert [a, b][1..] == [b] && [a, b][..1] == [a] && [b][1..] == [] && [a][..0] == [];
    assert Stripped([]) == [];
    assert Stripped([b]) == if IsSpace(b) then [] else [b];
    assert Stripped([a]) == if IsSpace(a) then [] else [a];
    assert Stripped([a, b]) == if IsSpace(a) then Stripped([b]) else if IsSpace(b) then Stripped([a]) else [a, b];
  }

  /** The six bits of a continuation byte, or the low bits of a lead byte, over its mark. */
  function Over(b: Byte, mark: nat): int {
    b as int - mark
  }

  /** The bytes of a plain character are its UTF-8: the shortest form, and the code point read back. */
  lemma Utf8Exactly(c: char)
    ensures var n, u := c as int, Utf8(c);
            && (n < 0x80 ==> |u| == 1 && u[0] == n)
            && (0x80 <= n < 0x800 ==> |u| == 2 && 0xC0 <= u[0] < 0xE0 && 64 * Over(u[0], 0xC0) + Over(u[1], 0x80) == n)
            && (0x800 <= n < 0x1_0000 ==>
                  |u| == 3 && 0xE0 <= u[0] < 0xF0 &&
                  4096 * Over(u[0], 0xE0) + 64 * Over(u[1], 0x80) + Over(u[2], 0x80) == n)
    ensures forall k | 1 <= k < |Utf8(c)| :: 0x80 <= Utf8(c)[k] < 0xC0
  {
    var n := c as int;
    assert n == 64 * (n / 64) + n % 64;
    assert n / 64 == 64 * (n / 4096) + n / 64 % 64;
  }

  lemma Utf8Four(c: char)
    requires c as int >= 0x1_0000
    ensures var u := Utf8(c);
            && |u| == 4 && 0xF0 <= u[0] < 0xF8
            && 262_144 * Over(u[0], 0xF0) + 4096 * Over(u[1], 0x80) + 64 * Over(u[2], 0x80) + Over(u[3], 0x80) == c as int
  {
    var n := c as int;
    assert n < 0x20_0000 && n / 262_144 % 8 == n / 262_144;
    assert n == 64 * (n / 64) + n % 64;
    assert n / 64 == 64 * (n / 4096) + n / 64 % 64;
    assert n / 4096 == 64 * (n / 262_144) + n / 4096 % 64;
  }

  /** The digits the writers use. */
  lemma WriterDigits()
    ensures forall d: nat | d < 16 :: HexChar(d) == "0123456789abcdef"[d]
    ensures forall d: nat | d < 8 :: OctalChar(d) == "01234567"[d]
    ensures Esc([0xAB]) == "\\xab" && EscOctal([0xFF]) == "\\377" && EscOctal([0x0A]) == "\\012"
  {
    forall d: nat | d < 16
      ensures HexChar(d) == "0123456789abcdef"[d]
    {
      assert "0123456789abcdef"[d] == if d < 10 then ('0' as int + d) as char else ('a' as int + d - 10) as char;
    }
  }
}
