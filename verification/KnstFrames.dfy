/**
 The KNST plaintext frame: a 30-byte big-endian header and a payload, the reader every client
 applies, and the splitting of a body into frames.
 */
module KnstFrames {
  import opened Outcomes
  import opened ByteStrings

  const MAGIC: Bytes := [0x4B, 0x4E, 0x53, 0x54]
  const VERSION: Byte := 1
  const HEADER: nat := 30
  const CHUNK_PAYLOAD: nat := 3770
  const MAX_CHUNKS: nat := 256

  /** The UUID's 16 raw bytes. */
  type MessageId = id: Bytes | |id| == 16 witness LeBytes(0, 16)

  datatype Header = Header(contentType: Byte, messageId: MessageId, index: nat, total: nat, length: nat)

  /** What a reader learns from a frame; `body` only when it is a control frame. */
  datatype Reading = Reading(header: Header, control: bool, body: Option<Bytes>)

  /** The header fields that `struct.pack` accepts as u16, u16, u32. */
  predicate Fits(h: Header) {
    h.index < U16 && h.total < U16 && h.length < U32
  }

  function HeaderBytes(h: Header): (s: Bytes)
    ensures |s| == HEADER
  {
    MAGIC + [VERSION, h.contentType] + h.messageId
    + BeBytes(h.index, 2) + BeBytes(h.total, 2) + BeBytes(h.length, 4)
  }

  /** None where packing a header field raises. */
  function Frame(h: Header, payload: Bytes): Option<Bytes> {
    if Fits(h) then Some(HeaderBytes(h) + payload) else None
  }

  function Read(data: Bytes): Option<Reading> {
    if |data| < HEADER || data[..4] != MAGIC || data[4] != VERSION then None
    else
      var h := Header(data[5], data[6..22], BeValue(data[22..24]), BeValue(data[24..26]), BeValue(data[26..30]));
      var payload := data[30..];
      var control := h.total == 1 && h.length <= |payload|;
      Some(Reading(h, control, if control then Some(payload[..h.length]) else None))
  }

  // ---- Frame and Read are inverse ----

  lemma ReadsFrame(h: Header, payload: Bytes)
    requires Fits(h)
    ensures var control := h.total == 1 && h.length <= |payload|;
            && Frame(h, payload).Some?
            && Read(Frame(h, payload).value)
               == Some(Reading(h, control, if control then Some(payload[..h.length]) else None))
            && Frame(h, payload).value[HEADER..] == payload
    ensures var data := Frame(h, payload).value;
            && data[..6] == [0x4B, 0x4E, 0x53, 0x54, 0x01, h.contentType]
            && data[6..22] == h.messageId
            && BeValue(data[22..24]) == h.index && BeValue(data[24..26]) == h.total && BeValue(data[26..30]) == h.length
  {
    var data := HeaderBytes(h) + payload;
    assert data[..6] == MAGIC + [VERSION, h.contentType];
    assert data[..4] == MAGIC;
    assert data[6..22] == h.messageId;
    assert data[22..24] == BeBytes(h.index, 2);
    assert data[24..26] == BeBytes(h.total, 2);
    assert data[26..30] == BeBytes(h.length, 4);
    assert data[30..] == payload;
    Pow256Values();
    BeValueOfBytes(h.index, 2);
    BeValueOfBytes(h.total, 2);
    BeValueOfBytes(h.length, 4);
  }

  /** Whatever the reader accepts is the frame of the fields it reports, byte for byte. */
  lemma ReframesRead(data: Bytes)
    requires Read(data).Some?
    ensures Fits(Read(data).value.header)
    ensures Frame(Read(data).value.header, data[HEADER..]) == Some(data)
  {
    var h := Read(data).value.header;
    Pow256Values();
    BeBytesOfValue(data[22..24]);
    BeBytesOfValue(data[24..26]);
    BeBytesOfValue(data[26..30]);
    assert data == data[..4] + [data[4], data[5]] + data[6..22] + data[22..24] + data[24..26] + data[26..30] + data[30..];
  }

  /** A frame and nothing else: the accepted byte strings are the frames of fitting headers. */
  lemma ReadsExactlyFrames(data: Bytes)
    ensures Read(data).Some? <==> exists h, payload :: Frame(h, payload) == Some(data)
  {
    if Read(data).Some? {
      ReframesRead(data);
    }
    forall h, payload | Frame(h, payload) == Some(data)
      ensures Read(data).Some?
    {
      ReadsFrame(h, payload);
    }
  }

  // ---- Splitting ----

  function Total(size: nat): nat {
    var pieces := (size + CHUNK_PAYLOAD - 1) / CHUNK_PAYLOAD;
    if pieces > 1 then pieces else 1
  }

  function Piece(payload: Bytes, i: nat): Bytes {
    Slice(payload, i * CHUNK_PAYLOAD, (i + 1) * CHUNK_PAYLOAD)
  }

  function ChunkHeader(payload: Bytes, contentType: Byte, id: MessageId, i: nat): Header {
    Header(contentType, id, i, Total(|payload|), |payload|)
  }

  /** None: refused. */
  function Chunks(payload: Bytes, contentType: Byte, id: MessageId): Option<seq<Bytes>> {
    var total := Total(|payload|);
    if total > MAX_CHUNKS then None
    else Some(seq(total, i requires 0 <= i < total =>
                           HeaderBytes(ChunkHeader(payload, contentType, id, i)) + Piece(payload, i)))
  }

  /** Refused exactly over 965120 bytes; otherwise every header field fits, so no frame raises. */
  lemma ChunksExact(payload: Bytes, contentType: Byte, id: MessageId)
    ensures Chunks(payload, contentType, id) == None <==> |payload| > 965_120
    ensures Chunks(payload, contentType, id).Some? ==>
              var frames := Chunks(payload, contentType, id).value;
              && |frames| == Total(|payload|)
              && forall i | 0 <= i < |frames| ::
                   Frame(ChunkHeader(payload, contentType, id, i), Piece(payload, i)) == Some(frames[i])
  {
  }

  lemma ChunkReads(payload: Bytes, contentType: Byte, id: MessageId, i: nat)
    requires |payload| <= 965_120 && i < Total(|payload|)
    ensures var frames := Chunks(payload, contentType, id).value;
            && Read(frames[i]).Some?
            && Read(frames[i]).value.header == ChunkHeader(payload, contentType, id, i)
            && frames[i][HEADER..] == Piece(payload, i)
  {
    ChunksExact(payload, contentType, id);
    ReadsFrame(ChunkHeader(payload, contentType, id, i), Piece(payload, i));
  }

  /** Frames of a body are control frames exactly when the body fits one; its body is then the input. */
  lemma ControlExactlyWhenWhole(payload: Bytes, contentType: Byte, id: MessageId, i: nat)
    requires |payload| <= 965_120 && i < Total(|payload|)
    ensures var r := Read(Chunks(payload, contentType, id).value[i]).value;
            && (r.control <==> |payload| <= CHUNK_PAYLOAD)
            && r.body == if |payload| <= CHUNK_PAYLOAD then Some(payload) else None
  {
    ChunksExact(payload, contentType, id);
    ReadsFrame(ChunkHeader(payload, contentType, id, i), Piece(payload, i));
    if |payload| <= CHUNK_PAYLOAD {
      assert Piece(payload, 0) == payload;
      assert payload[..|payload|] == payload;
    }
  }

  /**
   The frames of a body on the wire: max(1, ceil(n / 3770)) of them, at most 256, every one with the same
   id, content type, total and plaintext_length, frame i with index i and the 3770 bytes from 3770 i on.
   */
  lemma ChunksRead(payload: Bytes, contentType: Byte, id: MessageId)
    requires |payload| <= 965_120
    ensures Chunks(payload, contentType, id).Some?
    ensures var frames, n := Chunks(payload, contentType, id).value, |payload|;
            && |frames| == (if n <= 3770 then 1 else (n + 3769) / 3770) && 1 <= |frames| <= 256
            && forall i | 0 <= i < |frames| ::
                 && Read(frames[i]).Some?
                 && Read(frames[i]).value.header == Header(contentType, id, i, |frames|, n)
                 && frames[i][30..] == payload[Min(3770 * i, n)..Min(3770 * (i + 1), n)]
  {
    var frames := Chunks(payload, contentType, id).value;
    forall i | 0 <= i < |frames|
      ensures && Read(frames[i]).Some?
              && Read(frames[i]).value.header == Header(contentType, id, i, |frames|, |payload|)
              && frames[i][30..] == payload[Min(3770 * i, |payload|)..Min(3770 * (i + 1), |payload|)]
    {
      ChunkReads(payload, contentType, id, i);
    }
  }

  // ---- Reassembly ----

  /** The payloads a receiver holds for one message after the wire delivered these byte strings. */
  function Received(wire: seq<Bytes>, id: MessageId): map<nat, Bytes> {
    if wire == [] then map[]
    else
      var last, held := wire[|wire| - 1], Received(wire[..|wire| - 1], id);
      match Read(last)
      case None => held
      case Some(r) => if r.header.messageId == id then held[r.header.index := last[HEADER..]] else held
  }

  /** The held payloads joined by index. */
  function Joined(held: map<nat, Bytes>, total: nat): Bytes {
    if total == 0 then []
    else Joined(held, total - 1) + if total - 1 in held then held[total - 1] else []
  }

  /** Nothing on the wire that reads as a frame of this message is anything but one of its chunks. */
  ghost predicate OnlyOurs(wire: seq<Bytes>, frames: seq<Bytes>, id: MessageId) {
    forall data | data in wire && Read(data).Some? && Read(data).value.header.messageId == id :: data in frames
  }

  lemma {:induction false} Holds(payload: Bytes, contentType: Byte, id: MessageId, wire: seq<Bytes>)
    requires |payload| <= 965_120
    requires OnlyOurs(wire, Chunks(payload, contentType, id).value, id)
    ensures var frames, held := Chunks(payload, contentType, id).value, Received(wire, id);
            && (forall i: nat :: i in held <==> i < |frames| && frames[i] in wire)
            && (forall i | i in held :: held[i] == Piece(payload, i))
    decreases |wire|
  {
    var frames := Chunks(payload, contentType, id).value;
    forall i | 0 <= i < |frames|
      ensures && Read(frames[i]).Some?
              && Read(frames[i]).value.header == ChunkHeader(payload, contentType, id, i)
              && frames[i][HEADER..] == Piece(payload, i)
    {
      ChunkReads(payload, contentType, id, i);
    }
    if wire != [] {
      var last, front := wire[|wire| - 1], wire[..|wire| - 1];
      assert wire == front + [last];
      Holds(payload, contentType, id, front);
    }
  }

  lemma PieceJoins(payload: Bytes, i: nat)
    ensures Slice(payload, 0, i * CHUNK_PAYLOAD) + Piece(payload, i) == Slice(payload, 0, (i + 1) * CHUNK_PAYLOAD)
  {
    var a, b := Min(i * CHUNK_PAYLOAD, |payload|), Min((i + 1) * CHUNK_PAYLOAD, |payload|);
    assert payload[0..a] + payload[a..b] == payload[0..b];
  }

  lemma {:induction false} JoinedPieces(payload: Bytes, held: map<nat, Bytes>, m: nat)
    requires forall i | 0 <= i < m :: i in held && held[i] == Piece(payload, i)
    ensures Joined(held, m) == Slice(payload, 0, m * CHUNK_PAYLOAD)
  {
    if m > 0 {
      JoinedPieces(payload, held, m - 1);
      PieceJoins(payload, m - 1);
    }
  }

  lemma {:induction false} JoinedLength(payload: Bytes, held: map<nat, Bytes>, m: nat)
    requires forall i | i in held :: held[i] == Piece(payload, i)
    ensures |Joined(held, m)| <= Min(m * CHUNK_PAYLOAD, |payload|)
    ensures (exists i | 0 <= i < m :: i !in held && i * CHUNK_PAYLOAD < |payload|) ==>
              |Joined(held, m)| < Min(m * CHUNK_PAYLOAD, |payload|)
  {
    if m > 0 {
      JoinedLength(payload, held, m - 1);
    }
  }

  /** While some chunk of two or more is missing, the join is shorter than `plaintext_length`. */
  lemma MissingIsShorter(payload: Bytes, contentType: Byte, id: MessageId, wire: seq<Bytes>, i: nat)
    requires |payload| <= 965_120
    requires OnlyOurs(wire, Chunks(payload, contentType, id).value, id)
    requires 2 <= Total(|payload|) && i < Total(|payload|)
    requires Chunks(payload, contentType, id).value[i] !in wire
    ensures |Joined(Received(wire, id), Total(|payload|))| < |payload|
  {
    var held, total := Received(wire, id), Total(|payload|);
    Holds(payload, contentType, id, wire);
    assert i !in held && i * CHUNK_PAYLOAD < |payload|;
    JoinedLength(payload, held, total);
  }

  /** Once every chunk has arrived, the join is the body. */
  lemma CompleteIsBody(payload: Bytes, contentType: Byte, id: MessageId, wire: seq<Bytes>)
    requires |payload| <= 965_120
    requires OnlyOurs(wire, Chunks(payload, contentType, id).value, id)
    requires forall f | f in Chunks(payload, contentType, id).value :: f in wire
    ensures Joined(Received(wire, id), Total(|payload|)) == payload
  {
    var frames, held := Chunks(payload, contentType, id).value, Received(wire, id);
    Holds(payload, contentType, id, wire);
    assert forall i | 0 <= i < |frames| :: frames[i] in wire && i in held;
    JoinedPieces(payload, held, |frames|);
    assert payload[0..|payload|] == payload;
  }

  /**
   Deliver a body's frames in any order, any number of times, between frames of other messages and
   bytes that are no frame at all. Once every index is held the join is the body; while one of two
   or more is missing the join is shorter than `plaintext_length`.
   */
  lemma Reassembles(payload: Bytes, contentType: Byte, id: MessageId, wire: seq<Bytes>)
    requires |payload| <= 965_120
    requires OnlyOurs(wire, Chunks(payload, contentType, id).value, id)
    ensures var frames := Chunks(payload, contentType, id).value;
            var joined := Joined(Received(wire, id), |frames|);
            && ((forall f | f in frames :: f in wire) ==> joined == payload)
            && ((exists f | f in frames :: f !in wire) && |frames| >= 2 ==> |joined| < |payload|)
  {
    var frames := Chunks(payload, contentType, id).value;
    if forall f | f in frames :: f in wire {
      CompleteIsBody(payload, contentType, id, wire);
    } else if |frames| >= 2 {
      var i :| 0 <= i < |frames| && frames[i] !in wire;
      MissingIsShorter(payload, contentType, id, wire, i);
    }
  }

  /** A frame of the message that arrived is one of its chunks, and says so in its own numbers. */
  lemma ArrivedFrame(payload: Bytes, contentType: Byte, id: MessageId, wire: seq<Bytes>, frame: Bytes)
    requires |payload| <= 965_120
    requires OnlyOurs(wire, Chunks(payload, contentType, id).value, id)
    requires frame in wire && Read(frame).Some? && Read(frame).value.header.messageId == id
    ensures var h := Read(frame).value.header;
            h.total == Total(|payload|) && h.length == |payload| && h.index < h.total && h.index in Received(wire, id)
  {
    var frames := Chunks(payload, contentType, id).value;
    ChunksRead(payload, contentType, id);
    var k :| 0 <= k < |frames| && frames[k] == frame;
    Holds(payload, contentType, id, wire);
  }

  /** Holding every index, the receiver has the body; short of one of two or more, it has less. */
  lemma HeldDecides(payload: Bytes, contentType: Byte, id: MessageId, wire: seq<Bytes>)
    requires |payload| <= 965_120
    requires OnlyOurs(wire, Chunks(payload, contentType, id).value, id)
    ensures var held, total := Received(wire, id), Total(|payload|);
            && ((forall i: nat | i < total :: i in held) ==> Joined(held, total) == payload)
            && (total >= 2 && (exists i: nat | i < total :: i !in held) ==> |Joined(held, total)| < |payload|)
  {
    var frames, held := Chunks(payload, contentType, id).value, Received(wire, id);
    Holds(payload, contentType, id, wire);
    hide Joined, Received, OnlyOurs, Chunks;
    if forall i: nat | i < Total(|payload|) :: i in held {
      forall f | f in frames
        ensures f in wire
      {
        var k :| 0 <= k < |frames| && frames[k] == f;
        assert k in held;
      }
      CompleteIsBody(payload, contentType, id, wire);
    } else if Total(|payload|) >= 2 {
      var i: nat :| i < Total(|payload|) && i !in held;
      MissingIsShorter(payload, contentType, id, wire, i);
    }
  }

  /**
   What a receiver may conclude from any frame of the message that arrived, in the frame's own numbers:
   once it holds every index the join is the body, plaintext_length bytes long; while one of two or more
   is missing the join is shorter than that.
   */
  lemma ReceiverConcludes(payload: Bytes, contentType: Byte, id: MessageId, wire: seq<Bytes>, frame: Bytes)
    requires |payload| <= 965_120
    requires OnlyOurs(wire, Chunks(payload, contentType, id).value, id)
    requires frame in wire && Read(frame).Some? && Read(frame).value.header.messageId == id
    ensures var h, held := Read(frame).value.header, Received(wire, id);
            var joined := Joined(held, h.total);
            && ((forall i | 0 <= i < h.total :: i in held) ==> joined == payload && |joined| == h.length)
            && ((exists i | 0 <= i < h.total :: i !in held) ==> h.total >= 2 && |joined| < h.length)
  {
    hide Joined, Received, Read, OnlyOurs, Chunks, Total;
    ArrivedFrame(payload, contentType, id, wire, frame);
    HeldDecides(payload, contentType, id, wire);
  }
}
