/**
 The field-order check of a media blob payload. The reader takes one key byte per field, so fields
 numbered up to 15 are the ones it reads as the writer wrote them.
 */
module MediaFields {
  import opened Outcomes
  import opened ByteStrings
  import opened Varints

  datatype Field = Field(number: nat, value: Bytes)

  function Encoded(fs: seq<Field>): Bytes {
    if fs == [] then [] else FieldBytes(fs[0].number, fs[0].value) + Encoded(fs[1..])
  }

  function Numbers(fs: seq<Field>): seq<nat> {
    seq(|fs|, k requires 0 <= k < |fs| => fs[k].number)
  }

  /** The field numbers the reader collects from offset i; None where indexing past the end raises. */
  function FieldNumbers(payload: Bytes, i: nat): Option<seq<nat>>
    decreases if i < |payload| then |payload| - i else 0
  {
    if i >= |payload| then Some([])
    else
      match ReadVarint(payload, i + 1)
      case None => None
      case Some((length, next)) => Prepend([payload[i] / 8], FieldNumbers(payload, next + length))
  }

  predicate NonDecreasing(ns: seq<nat>) {
    forall i, j | 0 <= i < j < |ns| :: ns[i] <= ns[j]
  }

  predicate StrictlyAscending(ns: seq<nat>) {
    forall i, j | 0 <= i < j < |ns| :: ns[i] < ns[j]
  }

  function ToSet(ns: seq<nat>): set<nat> {
    set n | n in ns
  }

  /** Comparing the size of the set with the length finds exactly the repeats. */
  lemma {:induction false} SetCountsDistinct(ns: seq<nat>)
    ensures |ToSet(ns)| <= |ns|
    ensures |ToSet(ns)| == |ns| <==> forall i, j | 0 <= i < j < |ns| :: ns[i] != ns[j]
  {
    if ns != [] {
      var last, front := ns[|ns| - 1], ns[..|ns| - 1];
      SetCountsDistinct(front);
      assert ns == front + [last];
      assert ToSet(ns) == ToSet(front) + {last};
      if last in front {
        assert ToSet(ns) == ToSet(front);
        var i :| 0 <= i < |front| && front[i] == last;
        assert ns[i] == ns[|ns| - 1];
      } else {
        assert forall i | 0 <= i < |front| :: front[i] == ns[i] && front[i] in front;
      }
    }
  }

  lemma OrderCheck(ns: seq<nat>)
    ensures NonDecreasing(ns) && |ToSet(ns)| == |ns| <==> StrictlyAscending(ns)
  {
    SetCountsDistinct(ns);
  }

  lemma NextField(payload: Bytes, i: nat, length: nat, next: nat)
    requires i < |payload| && ReadVarint(payload, i + 1) == Some((length, next))
    ensures FieldNumbers(payload, i) == Prepend([payload[i] / 8], FieldNumbers(payload, next + length))
  {
  }

  /** `v << shift`. */
  function ShiftLeft(v: nat, shift: nat): nat {
    if shift == 0 then v else 2 * ShiftLeft(v, shift - 1)
  }

  lemma {:induction false} ShiftSum(a: nat, b: nat, shift: nat)
    ensures ShiftLeft(a + b, shift) == ShiftLeft(a, shift) + ShiftLeft(b, shift)
  {
    if shift > 0 {
      ShiftSum(a, b, shift - 1);
    }
  }

  lemma {:induction false} ShiftMore(v: nat, shift: nat)
    ensures ShiftLeft(2 * v, shift) == ShiftLeft(v, shift + 1)
  {
    if shift > 0 {
      ShiftMore(v, shift - 1);
    }
  }

  lemma ShiftSeven(v: nat, shift: nat)
    ensures ShiftLeft(128 * v, shift) == ShiftLeft(v, shift + 7)
  {
    ShiftMore(64 * v, shift);
    ShiftMore(32 * v, shift + 1);
    ShiftMore(16 * v, shift + 2);
    ShiftMore(8 * v, shift + 3);
    ShiftMore(4 * v, shift + 4);
    ShiftMore(2 * v, shift + 5);
    ShiftMore(v, shift + 6);
  }

  lemma {:induction false} ShiftMonotone(a: nat, b: nat, shift: nat)
    requires a < b
    ensures ShiftLeft(a, shift) < ShiftLeft(b, shift)
  {
    if shift > 0 {
      ShiftMonotone(a, b, shift - 1);
    }
  }

  /** Below 1 << shift, or-ing in seven bits shifted is adding them, and stays below 1 << shift + 7. */
  lemma SevenMore(length: nat, low: nat, shift: nat)
    requires length < ShiftLeft(1, shift) && low < 128
    ensures length + ShiftLeft(low, shift) < ShiftLeft(1, shift + 7)
  {
    ShiftSeven(1, shift);
    ShiftSum(low, 1, shift);
    if low + 1 < 128 {
      ShiftMonotone(low + 1, 128, shift);
    }
  }

  /** The varint at `start` after the inner loop took its bytes before i as `length`. */
  ghost predicate Reading(payload: Bytes, start: nat, i: nat, length: nat, shift: nat) {
    match ReadVarint(payload, i)
    case None => ReadVarint(payload, start) == None
    case Some((high, next)) => ReadVarint(payload, start) == Some((length + ShiftLeft(high, shift), next))
  }

  lemma ReadingLast(payload: Bytes, start: nat, i: nat, length: nat, shift: nat)
    requires Reading(payload, start, i, length, shift) && i < |payload| && payload[i] < 128
    ensures ReadVarint(payload, start) == Some((length + ShiftLeft(payload[i], shift), i + 1))
  {
    assert ReadVarint(payload, i) == Some((payload[i], i + 1));
  }

  lemma ReadingMore(payload: Bytes, start: nat, i: nat, length: nat, shift: nat)
    requires Reading(payload, start, i, length, shift) && i < |payload| && payload[i] >= 128
    ensures Reading(payload, start, i + 1, length + ShiftLeft(payload[i] - 128, shift), shift + 7)
  {
    var rest := ReadVarint(payload, i + 1);
    if rest.Some? {
      ShiftSum(payload[i] - 128, 128 * rest.value.0, shift);
      ShiftSeven(rest.value.0, shift);
    }
  }

  lemma ReadingStep(payload: Bytes, start: nat, i: nat, length: nat, shift: nat)
    requires Reading(payload, start, i, length, shift) && i < |payload|
    ensures var taken := length + ShiftLeft(payload[i] % 128, shift);
            if payload[i] < 128 then ReadVarint(payload, start) == Some((taken, i + 1))
            else Reading(payload, start, i + 1, taken, shift + 7)
  {
    if payload[i] < 128 {
      ReadingLast(payload, start, i, length, shift);
    } else {
      ReadingMore(payload, start, i, length, shift);
    }
  }

  /** Whether the field numbers strictly ascend; None where reading them raises. */
  function InOrder(payload: Bytes): Option<bool> {
    match FieldNumbers(payload, 0)
    case None => None
    case Some(ns) => Some(StrictlyAscending(ns))
  }

  method MediaFieldsInOrder(payload: Bytes) returns (r: Option<bool>)
    ensures r == InOrder(payload)
  {
    var numbers: seq<nat>, i := [], 0;
    PrependTwice([], [], FieldNumbers(payload, 0));
    while i < |payload|
      invariant i >= 0
      invariant FieldNumbers(payload, 0) == Prepend(numbers, FieldNumbers(payload, i))
      decreases |payload| - i
    {
      var key := payload[i];
      ghost var at := i;
      i := i + 1;
      ghost var start := i;
      var length, shift := 0, 0;
      while true
        invariant start <= i && shift >= 0
        // so that `|` is `+` below
        invariant 0 <= length < ShiftLeft(1, shift)
        invariant Reading(payload, start, i, length, shift)
        decreases |payload| - i
      {
        if i >= |payload| {
          return None;
        }
        var b: nat := payload[i];
        ReadingStep(payload, start, i, length, shift);
        SevenMore(length, b % 128, shift);
        i := i + 1;
        length := length + ShiftLeft(b % 128, shift);
        shift := shift + 7;
        if b < 128 {
          break;
        }
      }
      NextField(payload, at, length, i);
      PrependTwice(numbers, [key / 8], FieldNumbers(payload, i + length));
      numbers := numbers + [key / 8];
      i := i + length;
    }
    assert numbers + [] == numbers;
    OrderCheck(numbers);
    return Some(NonDecreasing(numbers) && |ToSet(numbers)| == |numbers|);
  }

  // ---- Against the writer ----

  /** A one-byte key, and a length that `_varint` does not cut: any value Python can hold. */
  predicate Readable(f: Field) {
    1 <= f.number <= 15 && |f.value| < U64
  }

  predicate AllReadable(fs: seq<Field>) {
    forall k | 0 <= k < |fs| :: Readable(fs[k])
  }

  lemma Suffix(data: Bytes, i: nat, front: Bytes, rest: Bytes)
    requires i <= |data| && data[i..] == front + rest
    ensures i + |front| <= |data| && data[i + |front|..] == rest
  {
    assert data[i + |front|..] == data[i..][|front|..];
  }

  lemma OneByteKey(f: Field)
    requires Readable(f)
    ensures FieldBytes(f.number, f.value) == [f.number * 8 + 2] + VarintBytes(|f.value|) + f.value
  {
    assert VarintBytes(f.number * 8 + 2) == [f.number * 8 + 2];
  }

  lemma FirstField(payload: Bytes, i: nat, f: Field, rest: Bytes)
    requires Readable(f)
    requires i <= |payload| && payload[i..] == FieldBytes(f.number, f.value) + rest
    ensures i < |payload| && payload[i] / 8 == f.number
    ensures ReadVarint(payload, i + 1) == Some((|f.value|, i + 1 + |VarintBytes(|f.value|)|))
    ensures var next := i + 1 + |VarintBytes(|f.value|)| + |f.value|;
            next <= |payload| && payload[next..] == rest
  {
    var key, code := [f.number * 8 + 2], VarintBytes(|f.value|);
    var body := f.value + rest;
    OneByteKey(f);
    assert key + code + f.value + rest == key + (code + body);
    assert payload[i] == payload[i..][0];
    Suffix(payload, i, key, code + body);
    ReadOfVarint(|f.value|, payload, i + 1);
    Suffix(payload, i + 1, code, body);
    Suffix(payload, i + 1 + |code|, f.value, rest);
  }

  /** The first field gives its number and leaves the other fields at `next`. */
  lemma ReadFirst(payload: Bytes, i: nat, fs: seq<Field>, tail: Bytes) returns (next: nat)
    requires AllReadable(fs) && fs != []
    requires i <= |payload| && payload[i..] == Encoded(fs) + tail
    ensures AllReadable(fs[1..])
    ensures next <= |payload| && payload[next..] == Encoded(fs[1..]) + tail
    ensures FieldNumbers(payload, i) == Prepend([fs[0].number], FieldNumbers(payload, next))
  {
    var f, rest := fs[0], Encoded(fs[1..]) + tail;
    hide FieldNumbers;
    assert payload[i..] == FieldBytes(f.number, f.value) + rest by {
      Regroup(FieldBytes(f.number, f.value), Encoded(fs[1..]), tail);
    }
    FirstField(payload, i, f, rest);
    var start := i + 1 + |VarintBytes(|f.value|)|;
    NextField(payload, i, |f.value|, start);
    next := start + |f.value|;
  }

  /** What the first m bytes of a field, and no more, give: nothing, an exception, or its number all the same. */
  function PartNumbers(f: Field, m: nat): Option<seq<nat>> {
    if m == 0 then Some([]) else if m <= |VarintBytes(|f.value|)| then None else Some([f.number])
  }

  lemma RaisesIn(payload: Bytes, i: nat)
    requires i < |payload| && ReadVarint(payload, i + 1) == None
    ensures FieldNumbers(payload, i) == None
  {
  }

  /** A length that reaches past the end just ends the loop. */
  lemma PastTheEnd(payload: Bytes, i: nat)
    requires i >= |payload|
    ensures FieldNumbers(payload, i) == Some([])
  {
  }

  lemma PartRead(payload: Bytes, i: nat, f: Field, m: nat)
    requires Readable(f) && m < |FieldBytes(f.number, f.value)|
    requires i <= |payload| && payload[i..] == FieldBytes(f.number, f.value)[..m]
    ensures FieldNumbers(payload, i) == PartNumbers(f, m)
  {
    var key, code := [f.number * 8 + 2], VarintBytes(|f.value|);
    OneByteKey(f);
    assert |payload| == i + m;
    if m > 0 {
      hide FieldNumbers, ReadVarint, VarintBytes;
      assert payload[i] == payload[i..][0] == key[0];
      assert payload[i + 1..] == payload[i..][1..];
      if m <= |code| {
        forall j | i + 1 <= j < |payload|
          ensures payload[j] >= 128
        {
          assert payload[j] == payload[i..][j - i] == code[j - i - 1];
          VarintContinues(|f.value|, j - i - 1);
        }
        ReadRaisesExactly(payload, i + 1);
        RaisesIn(payload, i);
      } else {
        assert code <= payload[i + 1..];
        ReadOfVarint(|f.value|, payload, i + 1);
        NextField(payload, i, |f.value|, i + 1 + |code|);
        PastTheEnd(payload, i + 1 + |code| + |f.value|);
        PrependTwice([f.number], [], Some([]));
        assert [f.number] + [] == [f.number];
      }
    }
  }

  lemma {:induction false} FieldsRead(payload: Bytes, i: nat, fs: seq<Field>, f: Field, m: nat)
    requires AllReadable(fs) && Readable(f) && m < |FieldBytes(f.number, f.value)|
    requires i <= |payload| && payload[i..] == Encoded(fs) + FieldBytes(f.number, f.value)[..m]
    ensures FieldNumbers(payload, i) == Prepend(Numbers(fs), PartNumbers(f, m))
    decreases |fs|
  {
    if fs == [] {
      assert Encoded(fs) + FieldBytes(f.number, f.value)[..m] == FieldBytes(f.number, f.value)[..m];
      PartRead(payload, i, f, m);
      PrependTwice([], [], PartNumbers(f, m));
    } else {
      var next := ReadFirst(payload, i, fs, FieldBytes(f.number, f.value)[..m]);
      FieldsRead(payload, next, fs[1..], f, m);
      PrependTwice([fs[0].number], Numbers(fs[1..]), PartNumbers(f, m));
      assert Numbers(fs) == [fs[0].number] + Numbers(fs[1..]);
    }
  }

  /**
   On any sequence of length-delimited fields numbered 1..15 the reader recovers every number, hence
   stepped over every length, and so its answer is whether the writer's numbers strictly ascend.
   */
  lemma ReadsWrittenFields(fs: seq<Field>)
    requires AllReadable(fs)
    ensures FieldNumbers(Encoded(fs), 0) == Some(Numbers(fs))
  {
    var f := Field(1, []);
    assert Encoded(fs)[0..] == Encoded(fs) + FieldBytes(f.number, f.value)[..0];
    OneByteKey(f);
    FieldsRead(Encoded(fs), 0, fs, f, 0);
    assert Numbers(fs) + [] == Numbers(fs);
  }

  /**
   A payload broken off inside its last field. Within the key or the length the check raises; later it
   does not notice, and judges the numbers as if the field were whole.
   */
  lemma BrokenField(fs: seq<Field>, f: Field, m: nat)
    requires AllReadable(fs + [f]) && 0 < m < |FieldBytes(f.number, f.value)|
    ensures var payload := Encoded(fs) + FieldBytes(f.number, f.value)[..m];
            && (InOrder(payload) == None <==> m <= |VarintBytes(|f.value|)|)
            && (InOrder(payload).Some? ==> InOrder(payload) == Some(StrictlyAscending(Numbers(fs + [f]))))
  {
    assert Readable((fs + [f])[|fs|]);
    forall k | 0 <= k < |fs|
      ensures Readable(fs[k])
    {
      assert (fs + [f])[k] == fs[k];
    }
    var payload := Encoded(fs) + FieldBytes(f.number, f.value)[..m];
    assert payload[0..] == payload;
    FieldsRead(payload, 0, fs, f, m);
    assert Numbers(fs + [f]) == Numbers(fs) + [f.number];
  }

  // ---- Against the documented rule ----

  /** What the check is documented to require: the fields 1, 2, 3 in that order, each optional. */
  predicate Documented(ns: seq<nat>) {
    StrictlyAscending(ns) && forall k | 0 <= k < |ns| :: 1 <= ns[k] <= 3
  }

  /** A field that a media blob does not have passes the check. */
  lemma UnknownFieldAccepted()
    ensures InOrder(Encoded([Field(4, [])])) == Some(true)
    ensures !Documented(Numbers([Field(4, [])]))
  {
    ReadsWrittenFields([Field(4, [])]);
    assert Numbers([Field(4, [])])[0] == 4;
  }

  /**
   The check never refuses what the rule allows, and it decides the rule exactly on the payloads whose
   ascending field numbers are all 1, 2 or 3.
   */
  lemma DocumentedExactly(payload: Bytes)
    requires FieldNumbers(payload, 0).Some?
    ensures var ns := FieldNumbers(payload, 0).value;
            && (Documented(ns) ==> InOrder(payload) == Some(true))
            && (InOrder(payload) == Some(Documented(ns)) <==>
                (StrictlyAscending(ns) ==> forall k | 0 <= k < |ns| :: 1 <= ns[k] <= 3))
  {
  }

  /** On written fields: the check decides the rule exactly when no field above 3 ends an ascending list. */
  lemma WrittenDocumentedExactly(fs: seq<Field>)
    requires AllReadable(fs)
    ensures InOrder(Encoded(fs)) == Some(Documented(Numbers(fs))) <==>
            (StrictlyAscending(Numbers(fs)) ==> forall f | f in fs :: f.number <= 3)
  {
    ReadsWrittenFields(fs);
    DocumentedExactly(Encoded(fs));
    var ns := Numbers(fs);
    if forall f | f in fs :: f.number <= 3 {
      assert forall k | 0 <= k < |ns| :: fs[k] in fs && 1 <= ns[k] <= 3;
    } else {
      var k :| 0 <= k < |fs| && fs[k].number > 3;
      assert ns[k] > 3;
    }
  }
}
