/**
 The checker's verdict on one history stream: parse it, check its phase, then the field order of every
 media payload, each step with its own reader of the same bytes.
 */
module HistoryCheck {
  import opened Outcomes
  import opened ByteStrings
  import opened Cth1
  import opened StreamWalkers
  import opened MediaFields
  import opened Phases

  datatype Verdict =
    | Fine
    | Unparsed(error: ParseError)
    | Illegal(reason: Reason)
    | MediaOutOfOrder
    | Raised

  /** The verdict on media payloads taken in order, up to the first that is wrong or raises. */
  function MediaVerdict(payloads: seq<Bytes>): Verdict {
    if payloads == [] then Fine
    else
      match InOrder(payloads[0])
      case None => Raised
      case Some(inOrder) => if inOrder then MediaVerdict(payloads[1..]) else MediaOutOfOrder
  }

  /** The verdict in terms of the records the stream holds. */
  ghost function StreamVerdict(phase: int, data: Bytes): Verdict {
    match Parse(data)
    case Err(e) => Unparsed(e)
    case Ok(rs) =>
      match PhaseReason(phase, Types(rs) + [RT_END])
      case Some(reason) => Illegal(reason)
      case None => MediaVerdict(MediaRecords(rs))
  }

  method CheckStream(phase: int, data: Bytes) returns (v: Verdict)
    ensures v == StreamVerdict(phase, data)
  {
    var parsed := ParseCth1(data);
    if parsed.Err? {
      return Unparsed(parsed.error);
    }
    var reason := PhaseOk(phase, parsed.value.types);
    if reason.Some? {
      return Illegal(reason.value);
    }
    WalkersAgree(data);
    var walked := MediaPayloads(data);
    var payloads := walked.value;
    assert payloads[0..] == payloads;
    for k := 0 to |payloads|
      invariant MediaVerdict(payloads) == MediaVerdict(payloads[k..])
    {
      assert payloads[k..][1..] == payloads[k + 1..];
      var inOrder := MediaFieldsInOrder(payloads[k]);
      if inOrder.None? {
        return Raised;
      }
      if !inOrder.value {
        return MediaOutOfOrder;
      }
    }
    return Fine;
  }

  // ---- What each verdict means ----

  /** The media verdict is decided by the first payload that is out of order or raises. */
  lemma {:induction false} MediaVerdictExactly(payloads: seq<Bytes>)
    ensures MediaVerdict(payloads) == Fine <==> forall k | 0 <= k < |payloads| :: InOrder(payloads[k]) == Some(true)
    ensures MediaVerdict(payloads) == MediaOutOfOrder <==> exists k :: FirstWrong(payloads, k, Some(false))
    ensures MediaVerdict(payloads) == Raised <==> exists k :: FirstWrong(payloads, k, None)
  {
    if payloads != [] {
      var rest := payloads[1..];
      MediaVerdictExactly(rest);
      if InOrder(payloads[0]) == Some(true) {
        forall k: nat, answer: Option<bool>
          ensures FirstWrong(payloads, k + 1, answer) <==> FirstWrong(rest, k, answer)
        {
          FirstWrongNext(payloads, k, answer);
        }
        NotFirst(payloads, Some(false));
        NotFirst(payloads, None);
        assert forall k | 1 <= k < |payloads| :: payloads[k] == rest[k - 1];
      } else {
        assert FirstWrong(payloads, 0, InOrder(payloads[0]));
      }
    }
  }

  /** Payload k gets this answer, and every payload before it is in order. */
  ghost predicate FirstWrong(payloads: seq<Bytes>, k: nat, answer: Option<bool>) {
    k < |payloads| && InOrder(payloads[k]) == answer && forall j | 0 <= j < k :: InOrder(payloads[j]) == Some(true)
  }

  lemma FirstWrongNext(payloads: seq<Bytes>, k: nat, answer: Option<bool>)
    requires payloads != [] && InOrder(payloads[0]) == Some(true)
    ensures FirstWrong(payloads, k + 1, answer) <==> FirstWrong(payloads[1..], k, answer)
  {
    var rest := payloads[1..];
    if FirstWrong(rest, k, answer) {
      assert forall j | 1 <= j < k + 1 :: payloads[j] == rest[j - 1];
    }
    if FirstWrong(payloads, k + 1, answer) {
      assert forall j | 0 <= j < k :: rest[j] == payloads[j + 1];
    }
  }

  lemma NotFirst(payloads: seq<Bytes>, answer: Option<bool>)
    requires payloads != [] && InOrder(payloads[0]) == Some(true) && answer != Some(true)
    ensures forall k: nat | FirstWrong(payloads, k, answer) :: k > 0 && FirstWrong(payloads[1..], k - 1, answer)
  {
    forall k: nat | FirstWrong(payloads, k, answer)
      ensures k > 0 && FirstWrong(payloads[1..], k - 1, answer)
    {
      FirstWrongNext(payloads, k - 1, answer);
    }
  }

  /** Records that make a fine stream in a phase. */
  ghost predicate FineRecords(phase: int, rs: seq<Record>) {
    && AllAdmitted(rs) && Legal(phase, Types(rs) + [0x00])
    && forall k | 0 <= k < |MediaRecords(rs)| :: InOrder(MediaRecords(rs)[k]) == Some(true)
  }

  /** A stream is fine exactly when it is the writer's stream of such records. */
  lemma FineExactly(phase: int, data: Bytes)
    ensures StreamVerdict(phase, data) == Fine <==> exists rs :: data == StreamBytes(rs) && FineRecords(phase, rs)
  {
    AcceptsExactlyStreams(data);
    if Parse(data).Ok? {
      var rs := Parse(data).value;
      MediaVerdictExactly(MediaRecords(rs));
      ParseRecordsSound(data[5..]);
      assert data == StreamBytes(rs);
      assert StreamVerdict(phase, data) == Fine <==> FineRecords(phase, rs);
    }
  }

  /** What the reader rejects is unparsed with the reader's error, and nothing else is. */
  lemma UnparsedExactly(phase: int, data: Bytes, e: ParseError)
    ensures StreamVerdict(phase, data) == Unparsed(e) <==> Parse(data) == Err(e)
  {
    if Parse(data).Ok? {
      NeverUnparsed(MediaRecords(Parse(data).value));
    }
  }

  lemma {:induction false} NeverUnparsed(payloads: seq<Bytes>)
    ensures !MediaVerdict(payloads).Unparsed?
  {
    if payloads != [] {
      NeverUnparsed(payloads[1..]);
    }
  }

  /** A stream cut anywhere, or with anything after it, is unparsed, with the error of the place. */
  lemma DamagedUnparsed(phase: int, rs: seq<Record>, m: nat, k: nat, extra: Bytes)
    requires AllAdmitted(rs) && m < |rs| && k < |RecordBytes(rs[m])| && extra != []
    requires m > 0 || k > 0
    ensures StreamVerdict(phase, Cut(rs, m, k)) ==
            Unparsed(if k == 0 then NoEnd else if k < 9 then TruncatedLength else TruncatedPayload)
    ensures StreamVerdict(phase, StreamBytes(rs) + extra) == Unparsed(TrailingBytes)
  {
    CutStream(rs, m, k);
    RoundTrip(rs);
    ExtensionRejected(StreamBytes(rs), extra);
  }

  /** The other verdicts, in terms of the stream's records. */
  lemma OtherVerdicts(phase: int, rs: seq<Record>)
    requires AllAdmitted(rs)
    ensures PhaseReason(phase, Types(rs) + [0x00]).Some? ==>
              StreamVerdict(phase, StreamBytes(rs)) == Illegal(PhaseReason(phase, Types(rs) + [0x00]).value)
    ensures Legal(phase, Types(rs) + [0x00]) ==>
              StreamVerdict(phase, StreamBytes(rs)) == MediaVerdict(MediaRecords(rs))
  {
    RoundTrip(rs);
  }

  // ---- Against the writer ----

  /** A snapshot as its writer has it: media records are lists of fields, the others opaque bytes. */
  datatype Item = Plain(rtype: Byte, payload: Bytes) | Media(fields: seq<MediaFields.Field>)

  function RecordOf(item: Item): Record {
    match item
    case Plain(rtype, payload) => Record(rtype, payload)
    case Media(fields) => Record(RT_MEDIA, Encoded(fields))
  }

  function RecordsOf(items: seq<Item>): seq<Record> {
    if items == [] then [] else [RecordOf(items[0])] + RecordsOf(items[1..])
  }

  predicate Writable(item: Item) {
    && Admitted(RecordOf(item))
    && (item.Plain? ==> item.rtype != RT_MEDIA)
    && (item.Media? ==> AllReadable(item.fields))
  }

  predicate Ordered(item: Item) {
    item.Media? ==> StrictlyAscending(Numbers(item.fields))
  }

  lemma {:induction false} RecordsAdmitted(items: seq<Item>)
    requires forall x | x in items :: Writable(x)
    ensures AllAdmitted(RecordsOf(items))
  {
    if items != [] {
      assert items[0] in items && forall x | x in items[1..] :: x in items;
      RecordsAdmitted(items[1..]);
    }
  }

  lemma {:induction false} MediaVerdictOf(items: seq<Item>)
    requires forall x | x in items :: Writable(x)
    ensures MediaVerdict(MediaRecords(RecordsOf(items))) ==
            if forall x | x in items :: Ordered(x) then Fine else MediaOutOfOrder
  {
    if items != [] {
      var first, rest := items[0], items[1..];
      assert items == [first] + rest;
      assert first in items && forall x | x in rest :: x in items;
      MediaVerdictOf(rest);
      assert RecordsOf(items)[1..] == RecordsOf(rest);
      if first.Media? {
        ReadsWrittenFields(first.fields);
        assert MediaRecords(RecordsOf(items))[1..] == MediaRecords(RecordsOf(rest));
      }
    }
  }

  /** The verdict a writer should expect: legal types, and every media record with fields in order. */
  ghost function WriterVerdict(phase: int, items: seq<Item>): Verdict {
    match PhaseReason(phase, Types(RecordsOf(items)))
    case Some(reason) => Illegal(reason)
    case None => if forall x | x in items :: Ordered(x) then Fine else MediaOutOfOrder
  }

  /** On every stream a writer can produce, the verdict is that one: no reader fails or raises. */
  lemma WrittenStreamVerdict(phase: int, items: seq<Item>)
    requires forall x | x in items :: Writable(x)
    ensures StreamVerdict(phase, StreamBytes(RecordsOf(items))) == WriterVerdict(phase, items)
  {
    RecordsAdmitted(items);
    RoundTrip(RecordsOf(items));
    MediaVerdictOf(items);
    KeepAppendEnd(Types(RecordsOf(items)));
  }

  lemma {:induction false} KeepAppendEnd(types: seq<Byte>)
    ensures WithoutEnd(types + [RT_END]) == WithoutEnd(types)
  {
    if types == [] {
      assert types + [RT_END] == [RT_END];
    } else {
      assert (types + [RT_END])[1..] == types[1..] + [RT_END];
      KeepAppendEnd(types[1..]);
    }
  }
}
