/**
 The CTH1 history stream: magic, version, records, End. `Stream` is the generator's writer,
 `ParseCth1` the checker's reader; the lemmas show that they are inverse on records the reader
 admits, and that the reader notices every cut and every extra byte.
 */
module Cth1 {
  import opened Outcomes
  import opened ByteStrings

  const MAGIC: Bytes := [0x43, 0x54, 0x48, 0x31]

  const VERSION: Byte := 0x01

  const RT_END: Byte := 0x00

  const MAX_RECORD_BYTES := 512 * 1024 * 1024

  datatype Record = Record(rtype: Byte, payload: Bytes)

  /** What the reader returns: every type including End, every payload length excluding End. */
  datatype Layout = Layout(types: seq<Byte>, lens: seq<nat>)

  datatype ParseError =
    | MissingMagic
    | TruncatedAfterMagic
    | BadVersion(version: Byte)
    | TruncatedLength
    | OverCap(plen: nat)
    | TruncatedPayload
    | NoEnd
    | TrailingBytes

  // ---- Writer ----

  function RecordBytes(r: Record): Bytes {
    [r.rtype] + LeBytes(|r.payload|, 8) + r.payload
  }

  function Records(rs: seq<Record>): Bytes {
    if rs == [] then [] else RecordBytes(rs[0]) + Records(rs[1..])
  }

  function StreamBytes(rs: seq<Record>): Bytes {
    MAGIC + [VERSION] + Records(rs) + [RT_END]
  }

  /** One media record of one byte, byte for byte. */
  lemma StreamOfOneRecord()
    ensures StreamBytes([Record(0x08, [0xFF])]) ==
            [0x43, 0x54, 0x48, 0x31, 0x01, 0x08, 1, 0, 0, 0, 0, 0, 0, 0, 0xFF, 0x00]
  {
    assert LeBytes(0, 7) == [0, 0, 0, 0, 0, 0, 0] by {
      assert LeBytes(0, 4) == [0, 0, 0, 0];
    }
    assert LeBytes(1, 8) == [1] + LeBytes(0, 7);
    assert [Record(0x08, [0xFF])][1..] == [];
  }

  lemma {:induction false} RecordsAppend(rs: seq<Record>, ts: seq<Record>)
    ensures Records(rs + ts) == Records(rs) + Records(ts)
  {
    if rs == [] {
      assert rs + ts == ts;
    } else {
      assert (rs + ts)[1..] == rs[1..] + ts;
      RecordsAppend(rs[1..], ts);
    }
  }

  lemma RecordsNext(rs: seq<Record>, k: nat)
    requires k < |rs|
    ensures Records(rs[..k + 1]) == Records(rs[..k]) + RecordBytes(rs[k])
  {
    assert rs[..k + 1] == rs[..k] + [rs[k]];
    RecordsAppend(rs[..k], [rs[k]]);
    assert [rs[k]][1..] == [];
  }

  method Stream(rs: seq<Record>) returns (out: Bytes)
    ensures out == StreamBytes(rs)
  {
    out := MAGIC + [VERSION];
    for k := 0 to |rs|
      invariant out == MAGIC + [VERSION] + Records(rs[..k])
    {
      RecordsNext(rs, k);
      out := out + RecordBytes(rs[k]);
    }
    assert rs[..|rs|] == rs;
    out := out + [RT_END];
  }

  // ---- Reader ----

  /** A record the reader admits: not End, and within the cap. */
  predicate Admitted(r: Record) {
    r.rtype != RT_END && |r.payload| <= MAX_RECORD_BYTES
  }

  ghost predicate AllAdmitted(rs: seq<Record>) {
    forall k | 0 <= k < |rs| :: Admitted(rs[k])
  }

  /** The records after the version byte, or the first thing wrong with them. */
  function ParseRecords(s: Bytes): Result<seq<Record>, ParseError>
    decreases |s|
  {
    if s == [] then Err(NoEnd)
    else if s[0] == RT_END then
      if |s| == 1 then Ok([]) else Err(TrailingBytes)
    else if |s| < 9 then Err(TruncatedLength)
    else
      var plen := LeValue(s[1..9]);
      if plen > MAX_RECORD_BYTES then Err(OverCap(plen))
      else if |s| < 9 + plen then Err(TruncatedPayload)
      else PrependOk([Record(s[0], s[9..9 + plen])], ParseRecords(s[9 + plen..]))
  }

  function Parse(data: Bytes): Result<seq<Record>, ParseError> {
    if data[..Min(4, |data|)] != MAGIC then Err(MissingMagic)
    else if |data| < 6 then Err(TruncatedAfterMagic)
    else if data[4] != VERSION then Err(BadVersion(data[4]))
    else ParseRecords(data[5..])
  }

  function Types(rs: seq<Record>): seq<Byte> {
    seq(|rs|, k requires 0 <= k < |rs| => rs[k].rtype)
  }

  function Lens(rs: seq<Record>): seq<nat> {
    seq(|rs|, k requires 0 <= k < |rs| => |rs[k].payload|)
  }

  function LayoutOf(rs: seq<Record>): Layout {
    Layout(Types(rs) + [RT_END], Lens(rs))
  }

  lemma ParseStep(s: Bytes, plen: nat)
    requires |s| >= 9 + plen && s[0] != RT_END && LeValue(s[1..9]) == plen <= MAX_RECORD_BYTES
    ensures ParseRecords(s) == PrependOk([Record(s[0], s[9..9 + plen])], ParseRecords(s[9 + plen..]))
  {
  }

  method ParseCth1(data: Bytes) returns (r: Result<Layout, ParseError>)
    ensures match Parse(data)
            case Ok(rs) => r == Ok(LayoutOf(rs))
            case Err(e) => r == Err(e)
  {
    if data[..Min(4, |data|)] != MAGIC {
      return Err(MissingMagic);
    }
    if |data| < 6 {
      return Err(TruncatedAfterMagic);
    }
    if data[4] != VERSION {
      return Err(BadVersion(data[4]));
    }
    var types: seq<Byte>, lens: seq<nat> := [], [];
    ghost var done: seq<Record> := [];
    var i := 5;
    var ended := false;
    PrependOkTwice([], [], ParseRecords(data[5..]));
    while i < |data|
      invariant 5 <= i <= |data|
      invariant types == Types(done) && lens == Lens(done)
      invariant Parse(data) == PrependOk(done, ParseRecords(data[i..]))
      decreases |data| - i
    {
      var rtype := data[i];
      ghost var rest := data[i..];
      i := i + 1;
      if rtype == RT_END {
        types := types + [RT_END];
        ended := true;
        break;
      }
      if i + 8 > |data| {
        return Err(TruncatedLength);
      }
      var plen := LeValue(data[i..i + 8]);
      assert rest[1..9] == data[i..i + 8];
      i := i + 8;
      if plen > MAX_RECORD_BYTES {
        return Err(OverCap(plen));
      }
      if i + plen > |data| {
        return Err(TruncatedPayload);
      }
      i := i + plen;
      types := types + [rtype];
      lens := lens + [plen];
      ghost var next := Record(rtype, rest[9..9 + plen]);
      ParseStep(rest, plen);
      assert rest[9 + plen..] == data[i..];
      PrependOkTwice(done, [next], ParseRecords(data[i..]));
      done := done + [next];
    }
    if !ended {
      return Err(NoEnd);
    }
    if i != |data| {
      return Err(TrailingBytes);
    }
    assert done + [] == done;
    return Ok(Layout(types, lens));
  }

  // ---- Writer and reader together ----

  lemma RecordBytesParse(r: Record, tail: Bytes)
    requires Admitted(r)
    ensures ParseRecords(RecordBytes(r) + tail) == PrependOk([r], ParseRecords(tail))
  {
    var s := RecordBytes(r) + tail;
    var n := |r.payload|;
    assert s[1..9] == LeBytes(n, 8);
    Pow256Values();
    LeValueOfBytes(n, 8);
    assert s[9..9 + n] == r.payload;
    assert s[9 + n..] == tail;
  }

  /** Reading a run of whole records leaves the verdict to whatever follows them. */
  lemma {:induction false} RecordsParse(rs: seq<Record>, tail: Bytes)
    requires AllAdmitted(rs)
    ensures ParseRecords(Records(rs) + tail) == PrependOk(rs, ParseRecords(tail))
  {
    if rs == [] {
      assert Records(rs) + tail == tail;
      PrependOkTwice([], [], ParseRecords(tail));
    } else {
      RecordsParse(rs[1..], tail);
      assert Records(rs) + tail == RecordBytes(rs[0]) + (Records(rs[1..]) + tail);
      RecordBytesParse(rs[0], Records(rs[1..]) + tail);
      PrependOkTwice([rs[0]], rs[1..], ParseRecords(tail));
      assert rs == [rs[0]] + rs[1..];
    }
  }

  lemma SplitRecord(s: Bytes, n: nat)
    requires |s| >= 9 + n && n == LeValue(s[1..9])
    ensures s == RecordBytes(Record(s[0], s[9..9 + n])) + s[9 + n..]
  {
    LeBytesOfValue(s[1..9]);
    assert s == [s[0]] + s[1..9] + s[9..9 + n] + s[9 + n..];
  }

  lemma {:induction false} ParseRecordsSound(s: Bytes)
    requires ParseRecords(s).Ok?
    ensures AllAdmitted(ParseRecords(s).value)
    ensures Records(ParseRecords(s).value) + [RT_END] == s
    decreases |s|
  {
    if s[0] == RT_END {
      assert s == [RT_END];
    } else {
      var n := LeValue(s[1..9]);
      var r, rest := Record(s[0], s[9..9 + n]), s[9 + n..];
      SplitRecord(s, n);
      ParseRecordsSound(rest);
      var ts := ParseRecords(rest).value;
      RecordsAppend([r], ts);
      assert [r][1..] == [] && Records([r]) == RecordBytes(r);
      assert RecordBytes(r) + Records(ts) + [RT_END] == RecordBytes(r) + (Records(ts) + [RT_END]);
    }
  }

  lemma HeaderParse(tail: Bytes)
    requires tail != []
    ensures Parse(MAGIC + [VERSION] + tail) == ParseRecords(tail)
  {
    var data := MAGIC + [VERSION] + tail;
    assert data[..4] == MAGIC;
    assert data[5..] == tail;
  }

  lemma RoundTrip(rs: seq<Record>)
    requires AllAdmitted(rs)
    ensures Parse(StreamBytes(rs)) == Ok(rs)
  {
    HeaderParse(Records(rs) + [RT_END]);
    assert StreamBytes(rs) == MAGIC + [VERSION] + (Records(rs) + [RT_END]);
    RecordsParse(rs, [RT_END]);
    assert rs + [] == rs;
  }

  /** What parsing a written stream returns: the types with the final zero, and the payload lengths. */
  lemma LayoutOfWritten(rs: seq<Record>)
    ensures var layout := LayoutOf(rs);
            && |layout.types| == |rs| + 1 && layout.types[|rs|] == 0x00
            && |layout.lens| == |rs|
            && forall k | 0 <= k < |rs| :: layout.types[k] == rs[k].rtype && layout.lens[k] == |rs[k].payload|
  {
  }

  /** The accepted byte strings are exactly the writer's streams of admitted records. */
  lemma AcceptsExactlyStreams(data: Bytes)
    ensures Parse(data).Ok? <==> exists rs :: AllAdmitted(rs) && data == StreamBytes(rs)
    ensures forall rs | AllAdmitted(rs) && data == StreamBytes(rs) :: Parse(data) == Ok(rs)
  {
    if Parse(data).Ok? {
      ParseRecordsSound(data[5..]);
      var rs := Parse(data).value;
      assert data == data[..4] + [data[4]] + data[5..];
      assert data == StreamBytes(rs);
    }
    forall rs | AllAdmitted(rs) && data == StreamBytes(rs)
      ensures Parse(data) == Ok(rs)
    {
      RoundTrip(rs);
    }
  }

  lemma StreamInjective(rs: seq<Record>, ts: seq<Record>)
    requires AllAdmitted(rs) && AllAdmitted(ts)
    requires StreamBytes(rs) == StreamBytes(ts)
    ensures rs == ts
  {
    RoundTrip(rs);
    RoundTrip(ts);
  }

  /** Any bytes after an accepted stream are reported as trailing, whatever they are. */
  lemma ExtensionRejected(data: Bytes, extra: Bytes)
    requires Parse(data).Ok? && extra != []
    ensures Parse(data + extra) == Err(TrailingBytes)
  {
    AcceptsExactlyStreams(data);
    var rs := Parse(data).value;
    assert data == StreamBytes(rs);
    assert data + extra == MAGIC + [VERSION] + (Records(rs) + ([RT_END] + extra));
    HeaderParse(Records(rs) + ([RT_END] + extra));
    RecordsParse(rs, [RT_END] + extra);
  }

  /** No accepted stream is a proper prefix of another, so no cut goes unnoticed. */
  lemma PrefixFree(data: Bytes, longer: Bytes)
    requires Parse(data).Ok? && Parse(longer).Ok?
    requires data <= longer
    ensures data == longer
  {
    if data != longer {
      var extra := longer[|data|..];
      assert longer == data + extra;
      ExtensionRejected(data, extra);
    }
  }

  /** What is left of a record cut after k bytes, and the error it causes. */
  lemma CutRecord(r: Record, k: nat)
    requires Admitted(r)
    requires k < |RecordBytes(r)|
    ensures ParseRecords(RecordBytes(r)[..k]) ==
            Err(if k == 0 then NoEnd else if k < 9 then TruncatedLength else TruncatedPayload)
  {
    var s := RecordBytes(r)[..k];
    if k >= 9 {
      assert s[1..9] == LeBytes(|r.payload|, 8);
      Pow256Values();
      LeValueOfBytes(|r.payload|, 8);
    }
  }

  /** The stream cut k bytes into its record number m. */
  function Cut(rs: seq<Record>, m: nat, k: nat): Bytes
    requires m < |rs| && k <= |RecordBytes(rs[m])|
  {
    MAGIC + [VERSION] + (Records(rs[..m]) + RecordBytes(rs[m])[..k])
  }

  lemma SplitAt(rs: seq<Record>, m: nat)
    requires m < |rs|
    ensures Records(rs) == Records(rs[..m]) + (RecordBytes(rs[m]) + Records(rs[m + 1..]))
  {
    assert rs == rs[..m] + rs[m..];
    RecordsAppend(rs[..m], rs[m..]);
    assert rs[m..][1..] == rs[m + 1..];
  }

  lemma CutJoins(head: Bytes, before: Bytes, record: Bytes, after: Bytes, end: Bytes, k: nat)
    requires k <= |record|
    ensures head + (before + record[..k]) <= head + (before + (record + after)) + end
  {
  }

  lemma CutIsPrefix(rs: seq<Record>, m: nat, k: nat)
    requires m < |rs| && k <= |RecordBytes(rs[m])|
    ensures Cut(rs, m, k) <= StreamBytes(rs)
  {
    SplitAt(rs, m);
    CutJoins(MAGIC + [VERSION], Records(rs[..m]), RecordBytes(rs[m]), Records(rs[m + 1..]), [RT_END], k);
  }

  /** A stream cut k bytes into its record number m fails with the error of that place. */
  lemma CutStream(rs: seq<Record>, m: nat, k: nat)
    requires AllAdmitted(rs) && m < |rs| && k < |RecordBytes(rs[m])|
    requires m > 0 || k > 0
    ensures Cut(rs, m, k) <= StreamBytes(rs)
    ensures Parse(Cut(rs, m, k)) ==
            Err(if k == 0 then NoEnd else if k < 9 then TruncatedLength else TruncatedPayload)
  {
    CutIsPrefix(rs, m, k);
    var piece := RecordBytes(rs[m])[..k];
    if m > 0 {
      assert Records(rs[..m]) == RecordBytes(rs[..m][0]) + Records(rs[..m][1..]);
    }
    HeaderParse(Records(rs[..m]) + piece);
    RecordsParse(rs[..m], piece);
    CutRecord(rs[m], k);
  }

  // ---- The verdicts on literal bytes ----

  lemma {:induction false} RecordErrors(s: Bytes)
    ensures ParseRecords(s).Err? ==>
              var e := ParseRecords(s).error; !e.MissingMagic? && !e.TruncatedAfterMagic? && !e.BadVersion?
    decreases |s|
  {
    if |s| >= 9 && s[0] != RT_END && 9 + LeValue(s[1..9]) <= |s| {
      RecordErrors(s[9 + LeValue(s[1..9])..]);
    }
  }

  /** Which inputs fail in the first five bytes, and how. */
  lemma HeaderVerdict(data: Bytes)
    ensures Parse(data) == Err(MissingMagic) <==> !([0x43, 0x54, 0x48, 0x31] <= data)
    ensures Parse(data) == Err(TruncatedAfterMagic) <==> [0x43, 0x54, 0x48, 0x31] <= data && |data| < 6
    ensures forall v :: Parse(data) == Err(BadVersion(v)) <==>
                        [0x43, 0x54, 0x48, 0x31] <= data && |data| >= 6 && data[4] == v && v != 0x01
  {
    if |data| >= 6 {
      RecordErrors(data[5..]);
    }
  }

  /** A record that the reader must accept, with the cap written out. */
  predicate WithinFormat(r: Record) {
    r.rtype != 0x00 && |r.payload| <= 536_870_912
  }

  /** What follows the version byte and any such records decides the verdict, whatever comes after. */
  lemma TailVerdict(rs: seq<Record>, tail: Bytes)
    requires forall k | 0 <= k < |rs| :: WithinFormat(rs[k])
    requires rs != [] || tail != []
    ensures var verdict := Parse([0x43, 0x54, 0x48, 0x31, 0x01] + (Records(rs) + tail));
            && (tail == [] ==> verdict == Err(NoEnd))
            && (tail == [0x00] ==> verdict == Ok(rs))
            && (|tail| > 1 && tail[0] == 0x00 ==> verdict == Err(TrailingBytes))
            && (0 < |tail| < 9 && tail[0] != 0x00 ==> verdict == Err(TruncatedLength))
            && (|tail| >= 9 && tail[0] != 0x00 ==>
                  var n := LeValue(tail[1..9]);
                  && (n > 536_870_912 ==> verdict == Err(OverCap(n)))
                  && (n <= 536_870_912 && |tail| < 9 + n ==> verdict == Err(TruncatedPayload)))
  {
    if rs != [] {
      assert Records(rs) == RecordBytes(rs[0]) + Records(rs[1..]);
    }
    assert MAGIC + [VERSION] == [0x43, 0x54, 0x48, 0x31, 0x01];
    HeaderParse(Records(rs) + tail);
    RecordsParse(rs, tail);
    assert rs + [] == rs;
  }

  /**
   Whatever records a writer is given, their stream is accepted if and only if every type is non-zero
   and every payload at most 512 MiB. (No byte string in memory reaches 2^64 bytes.)
   */
  lemma WriterAccepted(rs: seq<Record>)
    requires forall k | 0 <= k < |rs| :: |rs[k].payload| < 0x1_0000_0000_0000_0000
    ensures Parse(StreamBytes(rs)).Ok? <==> forall k | 0 <= k < |rs| :: WithinFormat(rs[k])
  {
    if forall k | 0 <= k < |rs| :: WithinFormat(rs[k]) {
      RoundTrip(rs);
    } else {
      var m := FirstOutside(rs);
      OutsideRejected(rs, m);
    }
  }

  lemma {:induction false} FirstOutside(rs: seq<Record>) returns (m: nat)
    requires exists k | 0 <= k < |rs| :: !WithinFormat(rs[k])
    ensures m < |rs| && !WithinFormat(rs[m])
    ensures forall k | 0 <= k < m :: WithinFormat(rs[k])
  {
    m := 0;
    while WithinFormat(rs[m])
      invariant m < |rs|
      invariant forall k | 0 <= k < m :: WithinFormat(rs[k])
      invariant exists k | m <= k < |rs| :: !WithinFormat(rs[k])
      decreases |rs| - m
    {
      m := m + 1;
    }
  }

  /** The first record outside the format decides the error: bytes after End, or over the cap. */
  lemma OutsideRejected(rs: seq<Record>, m: nat)
    requires m < |rs| && |rs[m].payload| < 0x1_0000_0000_0000_0000
    requires forall k | 0 <= k < m :: WithinFormat(rs[k])
    requires !WithinFormat(rs[m])
    ensures Parse(StreamBytes(rs)) ==
            Err(if rs[m].rtype == 0x00 then TrailingBytes else OverCap(|rs[m].payload|))
  {
    SplitAt(rs, m);
    var tail := RecordBytes(rs[m]) + (Records(rs[m + 1..]) + [RT_END]);
    assert StreamBytes(rs) == [0x43, 0x54, 0x48, 0x31, 0x01] + (Records(rs[..m]) + tail);
    assert tail[1..9] == LeBytes(|rs[m].payload|, 8);
    Pow256Values();
    LeValueOfBytes(|rs[m].payload|, 8);
    TailVerdict(rs[..m], tail);
  }
}
