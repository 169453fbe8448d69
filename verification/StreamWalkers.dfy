/**
 The two walkers that read a CTH1 stream without checking it: `MediaPayloads` collects the media
 payloads, `ParseRecordTypes` the record types. Both step over the same headers; on a stream the
 reader accepts, those are the headers of its records. An exception is None.
 */
module StreamWalkers {
  import opened Outcomes
  import opened ByteStrings
  import opened Cth1

  const RT_MEDIA: Byte := 0x08

  /** A record header as a walker meets it: where it stands, its type, the length it declares. */
  datatype Header = Header(at: nat, rtype: Byte, plen: nat)

  /** A walk: the headers passed and the place it stops; None when a length field is cut short. */
  datatype Walk = Walk(headers: seq<Header>, stop: nat)

  /** Headers put before the rest of a walk; an exception there is an exception of the whole. */
  function PrependWalk(front: seq<Header>, rest: Option<Walk>): Option<Walk> {
    match rest case None => None case Some(w) => Some(Walk(front + w.headers, w.stop))
  }

  lemma PrependWalkTwice(a: seq<Header>, b: seq<Header>, rest: Option<Walk>)
    ensures PrependWalk(a, PrependWalk(b, rest)) == PrependWalk(a + b, rest)
    ensures PrependWalk([], rest) == rest
  {
    match rest
    case None =>
    case Some(w) =>
      assert a + (b + w.headers) == a + b + w.headers;
      assert [] + w.headers == w.headers;
  }

  /** The unchecked walk from offset i: it stops at End, or past the data. */
  function WalkFrom(data: Bytes, i: nat): Option<Walk>
    decreases if i < |data| then |data| - i else 0
  {
    if i >= |data| || data[i] == RT_END then Some(Walk([], i))
    else if i + 9 > |data| then None
    else
      var plen := LeValue(data[i + 1..i + 9]);
      PrependWalk([Header(i, data[i], plen)], WalkFrom(data, i + 9 + plen))
  }

  function HeaderTypes(hs: seq<Header>): seq<Byte> {
    seq(|hs|, k requires 0 <= k < |hs| => hs[k].rtype)
  }

  /** The payload bytes of the media headers; a slice past the data is cut to its end. */
  function MediaOf(data: Bytes, hs: seq<Header>): seq<Bytes> {
    if hs == [] then []
    else
      var h, rest := hs[0], MediaOf(data, hs[1..]);
      if h.rtype == RT_MEDIA then [Slice(data, h.at + 9, h.at + 9 + h.plen)] + rest else rest
  }

  lemma {:induction false} MediaOfAppend(data: Bytes, hs: seq<Header>, h: Header)
    ensures MediaOf(data, hs + [h]) == MediaOf(data, hs) + MediaOf(data, [h])
  {
    if hs == [] {
      assert hs + [h] == [h];
    } else {
      assert (hs + [h])[1..] == hs[1..] + [h];
      MediaOfAppend(data, hs[1..], h);
    }
  }

  function MediaIn(data: Bytes): Option<seq<Bytes>> {
    match WalkFrom(data, 5)
    case None => None
    case Some(w) => Some(MediaOf(data, w.headers))
  }

  method MediaPayloads(data: Bytes) returns (r: Option<seq<Bytes>>)
    ensures r == MediaIn(data)
  {
    var out: seq<Bytes> := [];
    var i := 5;
    ghost var done: seq<Header> := [];
    PrependWalkTwice([], [], WalkFrom(data, 5));
    while i < |data| && data[i] != RT_END
      invariant i >= 5
      invariant WalkFrom(data, 5) == PrependWalk(done, WalkFrom(data, i))
      invariant out == MediaOf(data, done)
      decreases |data| - i
    {
      if i + 9 > |data| {
        return None;
      }
      var rtype := data[i];
      var plen := LeValue(data[i + 1..i + 9]);
      ghost var h := Header(i, rtype, plen);
      WalkStep(data, i, rtype, plen);
      PrependWalkTwice(done, [h], WalkFrom(data, i + 9 + plen));
      MediaOfAppend(data, done, h);
      assert [h][1..] == [];
      done := done + [h];
      if rtype == RT_MEDIA {
        out := out + [Slice(data, i + 9, i + 9 + plen)];
      }
      i := i + 9 + plen;
    }
    assert done + [] == done;
    return Some(out);
  }

  /** The types along the walk, with End if it stopped on one. */
  function TypesIn(data: Bytes): Option<seq<Byte>> {
    if data[..Min(4, |data|)] != MAGIC then None
    else
      match WalkFrom(data, 5)
      case None => None
      case Some(w) => Some(HeaderTypes(w.headers) + if w.stop < |data| then [RT_END] else [])
  }

  method ParseRecordTypes(data: Bytes) returns (r: Option<seq<Byte>>)
    ensures r == TypesIn(data)
  {
    if data[..Min(4, |data|)] != MAGIC {
      return None;
    }
    var types: seq<Byte> := [];
    var i := 5;
    ghost var done: seq<Header> := [];
    PrependWalkTwice([], [], WalkFrom(data, 5));
    while i < |data|
      invariant i >= 5
      invariant WalkFrom(data, 5) == PrependWalk(done, WalkFrom(data, i))
      invariant types == HeaderTypes(done)
      decreases |data| - i
    {
      var rtype := data[i];
      i := i + 1;
      if rtype == RT_END {
        assert done + [] == done;
        return Some(types + [RT_END]);
      }
      if i + 8 > |data| {
        return None;
      }
      var plen := LeValue(data[i..i + 8]);
      WalkStep(data, i - 1, rtype, plen);
      PrependWalkTwice(done, [Header(i - 1, rtype, plen)], WalkFrom(data, i + 8 + plen));
      done := done + [Header(i - 1, rtype, plen)];
      i := i + 8 + plen;
      types := types + [rtype];
    }
    assert done + [] == done;
    assert types + [] == types;
    return Some(types);
  }

  // ---- Agreement with the checked reader ----

  /** The headers of records laid out one after another from offset `at`. */
  function HeadersOf(rs: seq<Record>, at: nat): seq<Header> {
    if rs == [] then []
    else [Header(at, rs[0].rtype, |rs[0].payload|)] + HeadersOf(rs[1..], at + 9 + |rs[0].payload|)
  }

  /** The payloads of the media records, in order. */
  function MediaRecords(rs: seq<Record>): seq<Bytes> {
    if rs == [] then []
    else if rs[0].rtype == RT_MEDIA then [rs[0].payload] + MediaRecords(rs[1..])
    else MediaRecords(rs[1..])
  }

  lemma FirstRecord(data: Bytes, at: nat, r: Record, rest: Bytes)
    requires Admitted(r) && at <= |data| && data[at..] == RecordBytes(r) + rest
    ensures at + 9 + |r.payload| <= |data|
    ensures data[at] == r.rtype && LeValue(data[at + 1..at + 9]) == |r.payload|
    ensures data[at + 9..at + 9 + |r.payload|] == r.payload
    ensures data[at + 9 + |r.payload|..] == rest
  {
    var s := data[at..];
    var n := |r.payload|;
    assert s[1..9] == LeBytes(n, 8) && data[at + 1..at + 9] == s[1..9];
    Pow256Values();
    LeValueOfBytes(n, 8);
    assert s[9..9 + n] == r.payload && data[at + 9..at + 9 + n] == s[9..9 + n];
    assert s[9 + n..] == rest && data[at + 9 + n..] == s[9 + n..];
    assert data[at] == s[0];
  }

  lemma RecordsHead(rs: seq<Record>, tail: Bytes)
    requires rs != []
    ensures Records(rs) + tail == RecordBytes(rs[0]) + (Records(rs[1..]) + tail)
    ensures |Records(rs)| == 9 + |rs[0].payload| + |Records(rs[1..])|
  {
    var head := RecordBytes(rs[0]);
    assert |head| == 9 + |rs[0].payload|;
    hide RecordBytes;
    assert Records(rs) == head + Records(rs[1..]);
    hide Records;
    Regroup(head, Records(rs[1..]), tail);
  }

  lemma HeadRecord(data: Bytes, at: nat, rs: seq<Record>, tail: Bytes)
    requires rs != [] && Admitted(rs[0])
    requires at <= |data| && data[at..] == Records(rs) + tail
    ensures var n := |rs[0].payload|;
            && at + 9 + n <= |data|
            && data[at] == rs[0].rtype && LeValue(data[at + 1..at + 9]) == n
            && data[at + 9 + n..] == Records(rs[1..]) + tail
            && Slice(data, at + 9, at + 9 + n) == rs[0].payload
            && |Records(rs)| == 9 + n + |Records(rs[1..])|
  {
    RecordsHead(rs, tail);
    hide Records;
    FirstRecord(data, at, rs[0], Records(rs[1..]) + tail);
  }

  lemma WalkStep(data: Bytes, i: nat, rtype: Byte, plen: nat)
    requires i + 9 <= |data| && data[i] == rtype != RT_END && LeValue(data[i + 1..i + 9]) == plen
    ensures WalkFrom(data, i) == PrependWalk([Header(i, rtype, plen)], WalkFrom(data, i + 9 + plen))
  {
  }

  lemma WalkHead(data: Bytes, at: nat, rs: seq<Record>, tail: Bytes) returns (h: Header, next: nat)
    requires rs != [] && AllAdmitted(rs)
    requires at <= |data| && data[at..] == Records(rs) + tail
    ensures AllAdmitted(rs[1..])
    ensures next <= |data| && data[next..] == Records(rs[1..]) + tail
    ensures at + |Records(rs)| == next + |Records(rs[1..])|
    ensures WalkFrom(data, at) == PrependWalk([h], WalkFrom(data, next))
    ensures HeadersOf(rs, at) == [h] + HeadersOf(rs[1..], next)
  {
    hide Records, RecordBytes, LeValue, WalkFrom, PrependWalk;
    var r := rs[0];
    HeadRecord(data, at, rs, tail);
    WalkStep(data, at, r.rtype, |r.payload|);
    h, next := Header(at, r.rtype, |r.payload|), at + 9 + |r.payload|;
  }

  /** Over whole records, which end at `end`, the walk passes their headers, whatever follows them. */
  lemma {:induction false} WalkOnRecords(data: Bytes, at: nat, rs: seq<Record>, tail: Bytes, end: nat)
    requires AllAdmitted(rs) && at <= |data| && end == at + |Records(rs)|
    requires data[at..] == Records(rs) + tail
    ensures WalkFrom(data, at) == PrependWalk(HeadersOf(rs, at), WalkFrom(data, end))
    decreases |rs|
  {
    if rs == [] {
      assert Records(rs) == [];
      PrependWalkTwice([], [], WalkFrom(data, at));
    } else {
      var h, next := WalkHead(data, at, rs, tail);
      WalkOnRecords(data, next, rs[1..], tail, end);
      PrependWalkTwice([h], HeadersOf(rs[1..], next), WalkFrom(data, end));
    }
  }

  lemma {:induction false} MediaOnRecords(data: Bytes, at: nat, rs: seq<Record>, tail: Bytes)
    requires AllAdmitted(rs) && at <= |data|
    requires data[at..] == Records(rs) + tail
    ensures MediaOf(data, HeadersOf(rs, at)) == MediaRecords(rs)
    decreases |rs|
  {
    if rs != [] {
      var r, rest := rs[0], rs[1..];
      var next := at + 9 + |r.payload|;
      HeadRecord(data, at, rs, tail);
      hide Records, RecordBytes, LeValue;
      MediaOnRecords(data, next, rest, tail);
      var h, tailHeaders := Header(at, r.rtype, |r.payload|), HeadersOf(rest, next);
      assert HeadersOf(rs, at) == [h] + tailHeaders;
      assert ([h] + tailHeaders)[1..] == tailHeaders;
    }
  }

  lemma AfterRecords(data: Bytes, at: nat, rs: seq<Record>, tail: Bytes)
    requires at <= |data| && data[at..] == Records(rs) + tail
    ensures at + |Records(rs)| + |tail| == |data|
    ensures data[at + |Records(rs)|..] == tail
  {
    hide Records;
    assert data[at + |Records(rs)|..] == data[at..][|Records(rs)|..];
  }

  /** The media records are those of type 8. */
  lemma {:induction false} MediaIsType8(rs: seq<Record>, r: Record)
    ensures MediaRecords([]) == []
    ensures MediaRecords(rs + [r]) == MediaRecords(rs) + if r.rtype == 0x08 then [r.payload] else []
  {
    if rs == [] {
      assert rs + [r] == [r];
      assert [r][1..] == [];
    } else {
      assert (rs + [r])[1..] == rs[1..] + [r];
      MediaIsType8(rs[1..], r);
    }
  }

  lemma {:induction false} TypesOnRecords(rs: seq<Record>, at: nat)
    ensures HeaderTypes(HeadersOf(rs, at)) == Types(rs)
  {
    if rs != [] {
      var next := at + 9 + |rs[0].payload|;
      TypesOnRecords(rs[1..], next);
      assert HeaderTypes(HeadersOf(rs, at)) == [rs[0].rtype] + HeaderTypes(HeadersOf(rs[1..], next));
      assert Types(rs) == [rs[0].rtype] + Types(rs[1..]);
    }
  }

  /** On a stream the reader accepts, the unchecked walk passes the records' headers and stops on End. */
  lemma WalkPassesRecords(data: Bytes)
    requires Parse(data).Ok?
    ensures WalkFrom(data, 5) == Some(Walk(HeadersOf(Parse(data).value, 5), |data| - 1))
  {
    var rs := Parse(data).value;
    ParseRecordsSound(data[5..]);
    hide Records;
    AfterRecords(data, 5, rs, [RT_END]);
    WalkOnRecords(data, 5, rs, [RT_END], |data| - 1);
    assert data[|data| - 1] == data[|data| - 1..][0];
    assert HeadersOf(rs, 5) + [] == HeadersOf(rs, 5);
  }

  /**
   On a stream the reader accepts, neither unchecked walker raises: one returns the payloads of the
   media records in order, the other the type list the reader returns.
   */
  lemma WalkersAgree(data: Bytes)
    requires Parse(data).Ok?
    ensures MediaIn(data) == Some(MediaRecords(Parse(data).value))
    ensures TypesIn(data) == Some(LayoutOf(Parse(data).value).types)
  {
    var rs := Parse(data).value;
    WalkPassesRecords(data);
    ParseRecordsSound(data[5..]);
    MediaOnRecords(data, 5, rs, [RT_END]);
    TypesOnRecords(rs, 5);
  }

  /**
   What neither walker checks: the version byte, anything after End, and for the media walker the magic
   as well. The type walker asserts the magic.
   */
  lemma WalkersUnchecked(head: Bytes, rs: seq<Record>, more: Bytes)
    requires |head| == 5 && AllAdmitted(rs)
    ensures var data := head + Records(rs) + ([0x00] + more);
            && MediaIn(data) == Some(MediaRecords(rs))
            && TypesIn(data) == if head[..4] == [0x43, 0x54, 0x48, 0x31] then Some(Types(rs) + [0x00]) else None
  {
    hide Records, MediaRecords;
    var tail := [0x00] + more;
    var data := head + Records(rs) + tail;
    var end := 5 + |Records(rs)|;
    assert data[5..] == Records(rs) + tail && data[..4] == head[..4];
    AfterRecords(data, 5, rs, tail);
    assert data[end] == data[end..][0];
    WalkOnRecords(data, 5, rs, tail, end);
    assert HeadersOf(rs, 5) + [] == HeadersOf(rs, 5);
    MediaOnRecords(data, 5, rs, tail);
    TypesOnRecords(rs, 5);
  }

  /** The headers say where the records stand: header k is at the end of the first k records. */
  lemma {:induction false} HeadersAt(rs: seq<Record>, at: nat, k: nat)
    requires k < |rs|
    ensures |HeadersOf(rs, at)| == |rs|
    ensures HeadersOf(rs, at)[k] == Header(at + |Records(rs[..k])|, rs[k].rtype, |rs[k].payload|)
  {
    var next := at + 9 + |rs[0].payload|;
    if k == 0 {
      if |rs| > 1 {
        HeadersAt(rs[1..], next, 0);
      }
    } else {
      HeadersAt(rs[1..], next, k - 1);
      assert rs[..k][1..] == rs[1..][..k - 1];
    }
  }

  // ---- On a stream that was cut ----

  lemma CutParts(rs: seq<Record>, m: nat, k: nat)
    requires m < |rs| && k <= |RecordBytes(rs[m])|
    ensures var data, at := Cut(rs, m, k), 5 + |Records(rs[..m])|;
            && data[5..] == Records(rs[..m]) + RecordBytes(rs[m])[..k]
            && |data| == at + k
            && data[at..] == RecordBytes(rs[m])[..k]
            && data[..4] == MAGIC
  {
    var data := Cut(rs, m, k);
    assert data[5..] == Records(rs[..m]) + RecordBytes(rs[m])[..k];
    AfterRecords(data, 5, rs[..m], RecordBytes(rs[m])[..k]);
  }

  /** What is left of the record that was cut: nothing, an exception, or a shortened payload. */
  lemma WalkCutRecord(data: Bytes, at: nat, r: Record, k: nat)
    requires Admitted(r) && k <= |RecordBytes(r)|
    requires |data| == at + k && data[at..] == RecordBytes(r)[..k]
    ensures WalkFrom(data, at) ==
            if k == 0 then Some(Walk([], at))
            else if k < 9 then None
            else Some(Walk([Header(at, r.rtype, |r.payload|)], at + 9 + |r.payload|))
  {
    if k > 0 {
      assert data[at] == data[at..][0] == r.rtype;
    }
    if k >= 9 {
      var next := at + 9 + |r.payload|;
      CutLength(data, at, r, k);
      WalkStep(data, at, r.rtype, |r.payload|);
      assert WalkFrom(data, next) == Some(Walk([], next));
      assert [Header(at, r.rtype, |r.payload|)] + [] == [Header(at, r.rtype, |r.payload|)];
    }
  }

  lemma CutLength(data: Bytes, at: nat, r: Record, k: nat)
    requires Admitted(r) && 9 <= k <= |RecordBytes(r)|
    requires |data| == at + k && data[at..] == RecordBytes(r)[..k]
    ensures LeValue(data[at + 1..at + 9]) == |r.payload|
  {
    assert data[at + 1..at + 9] == data[at..][1..9];
    assert RecordBytes(r)[..k][1..9] == LeBytes(|r.payload|, 8);
    Pow256Values();
    LeValueOfBytes(|r.payload|, 8);
  }

  lemma CutPayload(data: Bytes, at: nat, r: Record, k: nat)
    requires 9 <= k <= |RecordBytes(r)|
    requires |data| == at + k && data[at..] == RecordBytes(r)[..k]
    ensures Slice(data, at + 9, at + 9 + |r.payload|) == r.payload[..k - 9]
  {
    assert data[at + 9..] == data[at..][9..];
    assert RecordBytes(r)[..k][9..] == r.payload[..k - 9];
  }

  /** The walk over a cut stream: the whole records before the cut, and what is left of the cut one. */
  lemma WalkCut(rs: seq<Record>, m: nat, k: nat)
    requires AllAdmitted(rs) && m < |rs| && k <= |RecordBytes(rs[m])|
    ensures var hs, at, n := HeadersOf(rs[..m], 5), 5 + |Records(rs[..m])|, |rs[m].payload|;
            WalkFrom(Cut(rs, m, k), 5) ==
            if k == 0 then Some(Walk(hs, at))
            else if k < 9 then None
            else Some(Walk(hs + [Header(at, rs[m].rtype, n)], at + 9 + n))
  {
    var data, at := Cut(rs, m, k), 5 + |Records(rs[..m])|;
    CutParts(rs, m, k);
    WalkCutRecord(data, at, rs[m], k);
    WalkOnRecords(data, 5, rs[..m], RecordBytes(rs[m])[..k], at);
    assert HeadersOf(rs[..m], 5) + [] == HeadersOf(rs[..m], 5);
  }

  /**
   On a stream cut k bytes into record m, which the reader rejects, the media walker raises if the cut is
   in the nine header bytes. Otherwise it returns what is there, the payload of the cut record shortened.
   */
  lemma MediaOnCut(rs: seq<Record>, m: nat, k: nat)
    requires AllAdmitted(rs) && m < |rs| && k <= |RecordBytes(rs[m])|
    ensures MediaIn(Cut(rs, m, k)) ==
            if k == 0 then Some(MediaRecords(rs[..m]))
            else if k < 9 then None
            else Some(MediaRecords(rs[..m]) + if rs[m].rtype == 0x08 then [rs[m].payload[..k - 9]] else [])
  {
    var data, at, r := Cut(rs, m, k), 5 + |Records(rs[..m])|, rs[m];
    CutParts(rs, m, k);
    MediaOnRecords(data, 5, rs[..m], RecordBytes(r)[..k]);
    WalkCut(rs, m, k);
    if k >= 9 {
      CutPayload(data, at, r, k);
      LastMedia(data, HeadersOf(rs[..m], 5), Header(at, r.rtype, |r.payload|));
    }
  }

  lemma LastMedia(data: Bytes, hs: seq<Header>, h: Header)
    ensures MediaOf(data, hs + [h]) ==
            MediaOf(data, hs) + if h.rtype == RT_MEDIA then [Slice(data, h.at + 9, h.at + 9 + h.plen)] else []
  {
    MediaOfAppend(data, hs, h);
    assert [h][1..] == [];
  }

  /** The type walker likewise; it returns the types without an End. */
  lemma TypesOnCut(rs: seq<Record>, m: nat, k: nat)
    requires AllAdmitted(rs) && m < |rs| && k <= |RecordBytes(rs[m])|
    ensures TypesIn(Cut(rs, m, k)) ==
            if k == 0 then Some(Types(rs[..m])) else if k < 9 then None else Some(Types(rs[..m + 1]))
  {
    var at, n := 5 + |Records(rs[..m])|, |rs[m].payload|;
    CutParts(rs, m, k);
    WalkCut(rs, m, k);
    TypesOnRecords(rs[..m], 5);
    hide WalkFrom, HeadersOf, Records, RecordBytes, Cut, AllAdmitted;
    LastType(HeadersOf(rs[..m], 5), Header(at, rs[m].rtype, n));
    TypesNext(rs, m);
    hide Types, HeaderTypes;
    assert Types(rs[..m]) + [] == Types(rs[..m]);
    assert Types(rs[..m + 1]) + [] == Types(rs[..m + 1]);
  }

  lemma LastType(hs: seq<Header>, h: Header)
    ensures HeaderTypes(hs + [h]) == HeaderTypes(hs) + [h.rtype]
  {
  }

  lemma TypesNext(rs: seq<Record>, m: nat)
    requires m < |rs|
    ensures Types(rs[..m + 1]) == Types(rs[..m]) + [rs[m].rtype]
  {
  }
}
