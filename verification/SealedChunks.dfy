/**
 The CTHF file body: a stream cut into 64 KiB pieces, each sealed under its index, framed by length
 and closed by an empty frame. `SealStream` writes it, `ChunkFrames` checks the framing.

 The cipher is a parameter. ChaCha20-Poly1305 under a fixed key adds 16 bytes and opens what it
 sealed under the same nonce and associated data (RFC 8439, section 2.8); that is all most results
 use. The reader that opens the frames in order is the one the format describes; the scripts only
 seal.
 */
module SealedChunks {
  import opened Outcomes
  import opened ByteStrings
  import opened Cth1

  const CHUNK_PLAINTEXT: nat := 65_536
  const NONCE_LEN: nat := 12
  const TAG_LEN: nat := 16
  const CTHF_HEADER_LEN: nat := 7062
  const MAX_SEALED_CHUNK: nat := 65_536 + 12 + 16
  const MAX_PLAINTEXT: nat := 0x1_0000_0000 * 65_536
  const EOF_FRAME: Bytes := [0, 0, 0, 0]

  /** The cipher under one key (nonce, text, associated data) and the ids every chunk is bound to. */
  datatype Channel = Channel(
    encrypt: (Bytes, Bytes, Bytes) -> Bytes,
    decrypt: (Bytes, Bytes, Bytes) -> Option<Bytes>,
    snapshotId: Bytes,
    userId: Bytes)

  ghost predicate Lawful(c: Channel) {
    forall nonce, text, data ::
      && |c.encrypt(nonce, text, data)| == |text| + TAG_LEN
      && c.decrypt(nonce, c.encrypt(nonce, text, data), data) == Some(text)
  }

  // ---- Writer ----

  function ChunkCount(size: nat): nat {
    (size + CHUNK_PLAINTEXT - 1) / CHUNK_PLAINTEXT
  }

  function Chunk(p: Bytes, k: nat): Bytes {
    Slice(p, k * CHUNK_PLAINTEXT, (k + 1) * CHUNK_PLAINTEXT)
  }

  function Nonce(k: nat): Bytes {
    LeBytes(k, 4) + [0, 0, 0, 0, 0, 0, 0, 0]
  }

  function Aad(c: Channel, k: nat): Bytes {
    c.snapshotId + c.userId + LeBytes(k, 4)
  }

  function Sealed(c: Channel, p: Bytes, k: nat): Bytes {
    Nonce(k) + c.encrypt(Nonce(k), Chunk(p, k), Aad(c, k))
  }

  function SealedAll(c: Channel, p: Bytes): seq<Bytes> {
    seq(ChunkCount(|p|), k requires 0 <= k < ChunkCount(|p|) => Sealed(c, p, k))
  }

  function Frame(body: Bytes): Bytes {
    LeBytes(|body|, 4) + body
  }

  function Frames(bodies: seq<Bytes>): Bytes {
    if bodies == [] then [] else Frame(bodies[0]) + Frames(bodies[1..])
  }

  function Framed(bodies: seq<Bytes>): Bytes {
    Frames(bodies) + EOF_FRAME
  }

  lemma {:induction false} FramesAppend(bodies: seq<Bytes>, body: Bytes)
    ensures Frames(bodies + [body]) == Frames(bodies) + Frame(body)
  {
    if bodies == [] {
      assert bodies + [body] == [body];
      assert [body][1..] == [];
    } else {
      assert (bodies + [body])[1..] == bodies[1..] + [body];
      FramesAppend(bodies[1..], body);
    }
  }

  lemma FramesNext(bodies: seq<Bytes>, k: nat)
    requires k < |bodies|
    ensures Frames(bodies[..k + 1]) == Frames(bodies[..k]) + Frame(bodies[k])
  {
    assert bodies[..k + 1] == bodies[..k] + [bodies[k]];
    FramesAppend(bodies[..k], bodies[k]);
  }

  /** None where packing the chunk index raises; a lawful cipher's output always fits its length field. */
  method SealStream(c: Channel, plaintext: Bytes) returns (r: Option<Bytes>)
    requires Lawful(c)
    ensures r == if |plaintext| <= 0x1_0000_0000_0000 then Some(Framed(SealedAll(c, plaintext))) else None
  {
    var out: Bytes := [];
    var index, at := 0, 0;
    while at < |plaintext|
      invariant 0 <= index <= ChunkCount(|plaintext|) && index <= U32
      invariant at == index * CHUNK_PLAINTEXT
      invariant out == Frames(SealedAll(c, plaintext)[..index])
      decreases |plaintext| - at
    {
      if index >= U32 {
        return None;
      }
      var nonce := LeBytes(index, 4) + [0, 0, 0, 0, 0, 0, 0, 0];
      var aad := c.snapshotId + c.userId + LeBytes(index, 4);
      var sealed := nonce + c.encrypt(nonce, Slice(plaintext, at, at + CHUNK_PLAINTEXT), aad);
      FramesNext(SealedAll(c, plaintext), index);
      assert sealed == Sealed(c, plaintext, index);
      out := out + (LeBytes(|sealed|, 4) + sealed);
      index, at := index + 1, at + CHUNK_PLAINTEXT;
    }
    assert SealedAll(c, plaintext)[..index] == SealedAll(c, plaintext);
    return Some(out + EOF_FRAME);
  }

  /** Within a file no nonce and no associated data is used twice. */
  lemma NoncesUnique(c: Channel, j: nat, k: nat)
    requires j < U32 && k < U32 && j != k
    ensures Nonce(j) != Nonce(k) && Aad(c, j) != Aad(c, k)
  {
    Pow256Values();
    if LeBytes(j, 4) == LeBytes(k, 4) {
      LeInjective(j, k, 4);
    }
    assert Nonce(j)[..4] == LeBytes(j, 4) && Nonce(k)[..4] == LeBytes(k, 4);
    var ids := c.snapshotId + c.userId;
    assert Aad(c, j)[|ids|..] == LeBytes(j, 4) && Aad(c, k)[|ids|..] == LeBytes(k, 4);
  }

  // ---- Framing check ----

  datatype FramingError = NoEof | BytesAfterEof | BadLength(n: nat)

  /** Where a frame starts, and the length it declares. */
  datatype FrameAt = FrameAt(offset: nat, sealedLen: nat)

  /** The frames from offset i on, or the first thing wrong with them. */
  function ScanFrames(data: Bytes, i: nat): Result<seq<FrameAt>, FramingError>
    decreases if i < |data| then |data| - i else 0
  {
    if i + 4 > |data| then Err(NoEof)
    else
      var n := LeValue(data[i..i + 4]);
      if n == 0 then if i + 4 == |data| then Ok([]) else Err(BytesAfterEof)
      else if n > MAX_SEALED_CHUNK || n < NONCE_LEN + TAG_LEN + 1 then Err(BadLength(n))
      else PrependOk([FrameAt(i, n)], ScanFrames(data, i + 4 + n))
  }

  method ChunkFrames(data: Bytes) returns (r: Result<seq<FrameAt>, FramingError>)
    ensures r == ScanFrames(data, CTHF_HEADER_LEN)
  {
    var frames: seq<FrameAt>, i := [], CTHF_HEADER_LEN;
    PrependOkTwice([], [], ScanFrames(data, CTHF_HEADER_LEN));
    while true
      invariant i >= 0 && ScanFrames(data, CTHF_HEADER_LEN) == PrependOk(frames, ScanFrames(data, i))
      decreases |data| - i
    {
      if i + 4 > |data| {
        return Err(NoEof);
      }
      var n := LeValue(data[i..i + 4]);
      if n == 0 {
        assert frames + [] == frames;
        return if i + 4 == |data| then Ok(frames) else Err(BytesAfterEof);
      }
      if n > MAX_SEALED_CHUNK || n < NONCE_LEN + TAG_LEN + 1 {
        return Err(BadLength(n));
      }
      PrependOkTwice(frames, [FrameAt(i, n)], ScanFrames(data, i + 4 + n));
      frames := frames + [FrameAt(i, n)];
      i := i + 4 + n;
    }
  }

  /** A sealed body some writer produces: nonce, tag and 1 to 65536 bytes of text. */
  predicate Frameable(body: Bytes) {
    NONCE_LEN + TAG_LEN + 1 <= |body| <= MAX_SEALED_CHUNK
  }

  ghost predicate AllFrameable(bodies: seq<Bytes>) {
    forall k | 0 <= k < |bodies| :: Frameable(bodies[k])
  }

  /** Where the frames of `bodies` stand when the first starts at offset i. */
  function Places(bodies: seq<Bytes>, i: nat): seq<FrameAt> {
    if bodies == [] then [] else [FrameAt(i, |bodies[0]|)] + Places(bodies[1..], i + 4 + |bodies[0]|)
  }

  function BodyAt(data: Bytes, f: FrameAt): Bytes {
    Slice(data, f.offset + 4, f.offset + 4 + f.sealedLen)
  }

  function BodiesAt(data: Bytes, frames: seq<FrameAt>): seq<Bytes> {
    seq(|frames|, k requires 0 <= k < |frames| => BodyAt(data, frames[k]))
  }

  lemma FirstFrame(data: Bytes, i: nat, body: Bytes, rest: Bytes)
    requires Frameable(body)
    requires i <= |data| && data[i..] == Frame(body) + rest
    ensures i + 4 + |body| <= |data| && LeValue(data[i..i + 4]) == |body|
    ensures BodyAt(data, FrameAt(i, |body|)) == body
    ensures data[i + 4 + |body|..] == rest
  {
    var s := data[i..];
    assert data[i..i + 4] == s[..4] == LeBytes(|body|, 4);
    Pow256Values();
    LeValueOfBytes(|body|, 4);
    assert data[i + 4..i + 4 + |body|] == s[4..4 + |body|] == body;
    assert data[i + 4 + |body|..] == s[4 + |body|..] == rest;
  }

  lemma {:induction false} ScanComplete(data: Bytes, i: nat, bodies: seq<Bytes>)
    requires AllFrameable(bodies)
    requires i <= |data| && data[i..] == Framed(bodies)
    ensures ScanFrames(data, i) == Ok(Places(bodies, i))
    ensures BodiesAt(data, Places(bodies, i)) == bodies
    decreases |bodies|
  {
    if bodies == [] {
      assert data[i..i + 4] == data[i..][..4] == EOF_FRAME;
      assert LeValue(EOF_FRAME) == 0 by {
        Pow256Values();
        assert LeBytes(0, 4) == EOF_FRAME;
        LeValueOfBytes(0, 4);
      }
    } else {
      var rest := Framed(bodies[1..]);
      assert data[i..] == Frame(bodies[0]) + rest;
      FirstFrame(data, i, bodies[0], rest);
      ScanComplete(data, i + 4 + |bodies[0]|, bodies[1..]);
      BodiesAtFirst(data, FrameAt(i, |bodies[0]|), Places(bodies[1..], i + 4 + |bodies[0]|));
    }
  }

  lemma BodiesAtFirst(data: Bytes, f: FrameAt, frames: seq<FrameAt>)
    ensures BodiesAt(data, [f] + frames) == [BodyAt(data, f)] + BodiesAt(data, frames)
  {
  }

  lemma ZeroWord(s: Bytes)
    requires |s| == 4 && LeValue(s) == 0
    ensures s == EOF_FRAME
  {
    LeBytesOfValue(s);
    assert LeBytes(0, 4) == EOF_FRAME;
  }

  lemma SplitFrame(data: Bytes, i: nat, n: nat)
    requires i + 4 + n <= |data| && LeValue(data[i..i + 4]) == n
    ensures |BodyAt(data, FrameAt(i, n))| == n
    ensures data[i..] == Frame(BodyAt(data, FrameAt(i, n))) + data[i + 4 + n..]
  {
    LeBytesOfValue(data[i..i + 4]);
    assert data[i..] == data[i..i + 4] + data[i + 4..i + 4 + n] + data[i + 4 + n..];
  }

  lemma FramedFirst(body: Bytes, bodies: seq<Bytes>)
    ensures Framed([body] + bodies) == Frame(body) + Framed(bodies)
  {
    assert ([body] + bodies)[1..] == bodies;
  }

  lemma {:induction false} ScanSound(data: Bytes, i: nat)
    requires ScanFrames(data, i).Ok?
    ensures i <= |data|
    ensures AllFrameable(BodiesAt(data, ScanFrames(data, i).value))
    ensures data[i..] == Framed(BodiesAt(data, ScanFrames(data, i).value))
    decreases if i < |data| then |data| - i else 0
  {
    var n := LeValue(data[i..i + 4]);
    if n == 0 {
      ZeroWord(data[i..i + 4]);
      assert data[i..] == data[i..i + 4];
    } else {
      var next := i + 4 + n;
      ScanSound(data, next);
      var f, frames := FrameAt(i, n), ScanFrames(data, next).value;
      BodiesAtFirst(data, f, frames);
      SplitFrame(data, i, n);
      FramedFirst(BodyAt(data, f), BodiesAt(data, frames));
    }
  }

  /** A header's worth of bytes, then frames of 29 to 65564 bytes, one empty frame and nothing else. */
  ghost predicate FramedBody(data: Bytes, bodies: seq<Bytes>) {
    && (forall k | 0 <= k < |bodies| :: 29 <= |bodies[k]| <= 65_564)
    && |data| >= 7062 && data[7062..] == Frames(bodies) + [0, 0, 0, 0]
  }

  /** The framing check accepts exactly the framed bodies. */
  lemma AcceptsExactlyFramed(data: Bytes)
    ensures ScanFrames(data, CTHF_HEADER_LEN).Ok? <==>
            exists bodies :: FramedBody(data, bodies)
  {
    if ScanFrames(data, CTHF_HEADER_LEN).Ok? {
      ScanSound(data, CTHF_HEADER_LEN);
      assert FramedBody(data, BodiesAt(data, ScanFrames(data, CTHF_HEADER_LEN).value));
    }
    if bodies :| FramedBody(data, bodies) {
      ScanComplete(data, CTHF_HEADER_LEN, bodies);
    }
  }

  /** The check reports where those frames stand, and they are the only reading of the bytes. */
  lemma FramesFound(data: Bytes, bodies: seq<Bytes>)
    requires FramedBody(data, bodies)
    ensures ScanFrames(data, CTHF_HEADER_LEN) == Ok(Places(bodies, CTHF_HEADER_LEN))
    ensures BodiesAt(data, Places(bodies, CTHF_HEADER_LEN)) == bodies
  {
    ScanComplete(data, CTHF_HEADER_LEN, bodies);
  }

  lemma {:induction false} ScanCut(data: Bytes, i: nat, n: nat)
    requires ScanFrames(data, i).Ok? && n < |data|
    ensures ScanFrames(data[..n], i) == Err(NoEof)
    decreases if i < |data| then |data| - i else 0
  {
    if i + 4 <= n {
      assert data[..n][i..i + 4] == data[i..i + 4];
      ScanCut(data, i + 4 + LeValue(data[i..i + 4]), n);
    }
  }

  lemma {:induction false} ScanExtended(data: Bytes, i: nat, extra: Bytes)
    requires ScanFrames(data, i).Ok? && extra != []
    ensures ScanFrames(data + extra, i) == Err(BytesAfterEof)
    decreases if i < |data| then |data| - i else 0
  {
    assert (data + extra)[i..i + 4] == data[i..i + 4];
    if LeValue(data[i..i + 4]) != 0 {
      ScanExtended(data, i + 4 + LeValue(data[i..i + 4]), extra);
    }
  }

  /** Accepted framing cut anywhere has no EOF frame; with anything appended it has bytes after it. */
  lemma FramingSelfDelimiting(data: Bytes, n: nat, extra: Bytes)
    requires ScanFrames(data, CTHF_HEADER_LEN).Ok?
    requires n < |data| && extra != []
    ensures ScanFrames(data[..n], CTHF_HEADER_LEN) == Err(NoEof)
    ensures ScanFrames(data + extra, CTHF_HEADER_LEN) == Err(BytesAfterEof)
  {
    ScanCut(data, CTHF_HEADER_LEN, n);
    ScanExtended(data, CTHF_HEADER_LEN, extra);
  }

  // ---- The frames of a sealed stream ----

  lemma ChunkSize(p: Bytes, k: nat)
    requires k < ChunkCount(|p|)
    ensures k * CHUNK_PLAINTEXT < |p|
    ensures |Chunk(p, k)| == Min(CHUNK_PLAINTEXT, |p| - k * CHUNK_PLAINTEXT)
  {
  }

  lemma SealedSize(c: Channel, p: Bytes, k: nat)
    requires Lawful(c) && k < ChunkCount(|p|)
    ensures |Sealed(c, p, k)| == NONCE_LEN + |Chunk(p, k)| + TAG_LEN
    ensures Frameable(Sealed(c, p, k))
  {
    ChunkSize(p, k);
  }

  lemma {:induction false} PlaceOf(bodies: seq<Bytes>, i: nat, k: nat)
    requires k < |bodies|
    requires forall j | 0 <= j < k :: |bodies[j]| == MAX_SEALED_CHUNK
    ensures |Places(bodies, i)| == |bodies|
    ensures Places(bodies, i)[k] == FrameAt(i + k * (4 + MAX_SEALED_CHUNK), |bodies[k]|)
  {
    if k > 0 {
      PlaceOf(bodies[1..], i + 4 + |bodies[0]|, k - 1);
    } else if |bodies| > 1 {
      PlaceOf(bodies[1..], i + 4 + |bodies[0]|, 0);
    }
  }

  lemma BodySizes(c: Channel, p: Bytes)
    requires Lawful(c)
    ensures |SealedAll(c, p)| == (|p| + 65_535) / 65_536
    ensures forall k | 0 <= k < |SealedAll(c, p)| ::
              && Frameable(SealedAll(c, p)[k])
              && |SealedAll(c, p)[k]| == 28 + Min(65_536, |p| - 65_536 * k)
  {
    forall k | 0 <= k < |SealedAll(c, p)|
      ensures && Frameable(SealedAll(c, p)[k])
              && |SealedAll(c, p)[k]| == 28 + Min(65_536, |p| - 65_536 * k)
    {
      SealedSize(c, p, k);
      ChunkSize(p, k);
    }
  }

  /** On a sealed stream: one frame per 64 KiB begun, frame k at its fixed place, full but the last. */
  lemma SealedFrames(c: Channel, header: Bytes, p: Bytes)
    requires Lawful(c) && |header| == 7062
    ensures var scan := ScanFrames(header + Framed(SealedAll(c, p)), CTHF_HEADER_LEN);
            && scan.Ok? && |scan.value| == (|p| + 65_535) / 65_536
            && forall k | 0 <= k < |scan.value| ::
                 scan.value[k] == FrameAt(7062 + 65_568 * k, 28 + Min(65_536, |p| - 65_536 * k))
  {
    var bodies := SealedAll(c, p);
    var data := header + Framed(bodies);
    BodySizes(c, p);
    assert data[CTHF_HEADER_LEN..] == Framed(bodies);
    ScanComplete(data, CTHF_HEADER_LEN, bodies);
    if bodies != [] {
      PlaceOf(bodies, CTHF_HEADER_LEN, 0);
    }
    forall k | 0 <= k < |bodies|
      ensures Places(bodies, CTHF_HEADER_LEN)[k] == FrameAt(7062 + 65_568 * k, |bodies[k]|)
    {
      PlaceOf(bodies, CTHF_HEADER_LEN, k);
    }
  }

  /** The upper bound of the framing check is attained by every full chunk. */
  lemma FullChunkAttainsBound(c: Channel, p: Bytes, k: nat)
    requires Lawful(c)
    requires (k + 1) * CHUNK_PLAINTEXT <= |p|
    ensures |Sealed(c, p, k)| == MAX_SEALED_CHUNK
  {
    SealedSize(c, p, k);
    ChunkSize(p, k);
  }

  // ---- The bytes of a sealed stream ----

  /**
   Body k: the index in four bytes and eight zeros, then the 64 KiB from 65536 k on, encrypted under that
   nonce with the snapshot id, the user id and the index as associated data.
   */
  lemma SealedBody(c: Channel, p: Bytes, k: nat)
    requires k < 0x1_0000_0000 && 65_536 * k < |p|
    ensures k < |SealedAll(c, p)|
    ensures var index: Bytes := [k % 256, k / 0x100 % 256, k / 0x1_0000 % 256, k / 0x100_0000 % 256];
            var nonce := index + [0, 0, 0, 0, 0, 0, 0, 0];
            SealedAll(c, p)[k] ==
            nonce + c.encrypt(nonce, p[65_536 * k..Min(65_536 * (k + 1), |p|)], c.snapshotId + c.userId + index)
  {
    Digits4(k);
    LeLayout4(k % 256, k / 0x100 % 256, k / 0x1_0000 % 256, k / 0x100_0000 % 256);
    assert Chunk(p, k) == p[65_536 * k..Min(65_536 * (k + 1), |p|)];
  }

  lemma {:induction false} FramesSplit(bodies: seq<Bytes>, k: nat)
    requires k < |bodies|
    ensures Frames(bodies) == Frames(bodies[..k]) + (Frame(bodies[k]) + Frames(bodies[k + 1..]))
  {
    if k == 0 {
      assert bodies[..0] == [];
    } else {
      FramesSplit(bodies[1..], k - 1);
      assert bodies[1..][..k - 1] == bodies[..k][1..];
      assert bodies[1..][k - 1 + 1..] == bodies[k + 1..];
    }
  }

  lemma {:induction false} FramesLength(bodies: seq<Bytes>)
    requires forall j | 0 <= j < |bodies| :: |bodies[j]| == MAX_SEALED_CHUNK
    ensures |Frames(bodies)| == 65_568 * |bodies|
  {
    if bodies != [] {
      FramesLength(bodies[1..]);
    }
  }

  lemma FrameOf(bodies: seq<Bytes>, k: nat)
    requires k < |bodies|
    requires forall j | 0 <= j < k :: |bodies[j]| == MAX_SEALED_CHUNK
    ensures var at := 65_568 * k; var n := |bodies[k]|;
            at + 4 + n <= |Framed(bodies)| && Framed(bodies)[at..at + 4 + n] == LeBytes(n, 4) + bodies[k]
  {
    FramesSplit(bodies, k);
    FramesLength(bodies[..k]);
    var at, n := 65_568 * k, |bodies[k]|;
    var before, frame, after := Frames(bodies[..k]), Frame(bodies[k]), Frames(bodies[k + 1..]);
    assert |frame| == 4 + n;
    hide Frame, Frames;
    Middle(before, frame, after, EOF_FRAME);
  }

  lemma Middle(a: Bytes, b: Bytes, c: Bytes, d: Bytes)
    ensures |a| + |b| <= |a + (b + c) + d| && (a + (b + c) + d)[|a|..|a| + |b|] == b
  {
  }

  /**
   In the sealed stream, frame k stands at 65568 k: the length of its body in four bytes, low byte first,
   and the body. The stream ends with four zeros.
   */
  lemma SealedStreamBytes(c: Channel, p: Bytes, k: nat)
    requires Lawful(c) && 65_536 * k < |p|
    ensures var sealed, at := Framed(SealedAll(c, p)), 65_568 * k;
            var n := 28 + Min(65_536, |p| - 65_536 * k);
            && k < |SealedAll(c, p)| && at + 4 + n <= |sealed|
            && sealed[at..at + 4] == [n % 256, n / 0x100 % 256, n / 0x1_0000 % 256, 0]
            && sealed[at + 4..at + 4 + n] == SealedAll(c, p)[k]
            && sealed[|sealed| - 4..] == [0, 0, 0, 0]
  {
    hide Frames, LeBytes, SealedAll;
    var bodies, at := SealedAll(c, p), 65_568 * k;
    BodySizes(c, p);
    FrameOf(bodies, k);
    var n := |bodies[k]|;
    Digits4(n);
    LeLayout4(n % 256, n / 0x100 % 256, n / 0x1_0000 % 256, n / 0x100_0000 % 256);
    var frame := Framed(bodies)[at..at + 4 + n];
    assert Framed(bodies)[at..at + 4] == frame[..4] && Framed(bodies)[at + 4..at + 4 + n] == frame[4..];
    assert Framed(bodies)[|Framed(bodies)| - 4..] == EOF_FRAME;
  }

  // ---- The verdict on framing, byte by byte ----

  lemma {:induction false} ScanOnFrames(data: Bytes, i: nat, bodies: seq<Bytes>, tail: Bytes, end: nat)
    requires AllFrameable(bodies) && i <= |data| && end == i + |Frames(bodies)|
    requires data[i..] == Frames(bodies) + tail
    ensures ScanFrames(data, i) == PrependOk(Places(bodies, i), ScanFrames(data, end))
    decreases |bodies|
  {
    if bodies == [] {
      assert Frames(bodies) == [];
      PrependOkTwice([], [], ScanFrames(data, i));
    } else {
      var body, rest := bodies[0], bodies[1..];
      var next := i + 4 + |body|;
      assert data[i..] == Frame(body) + (Frames(rest) + tail);
      FirstFrame(data, i, body, Frames(rest) + tail);
      ScanOnFrames(data, next, rest, tail, end);
      PrependOkTwice([FrameAt(i, |body|)], Places(rest, next), ScanFrames(data, end));
    }
  }

  /** After any whole frames, what follows decides: every way the framing can be wrong. */
  lemma FramingVerdict(data: Bytes, bodies: seq<Bytes>, tail: Bytes)
    requires forall k | 0 <= k < |bodies| :: 29 <= |bodies[k]| <= 65_564
    requires |data| >= 7062 && data[7062..] == Frames(bodies) + tail
    ensures var verdict := ScanFrames(data, CTHF_HEADER_LEN);
            && (|tail| < 4 ==> verdict == Err(NoEof))
            && (|tail| >= 4 ==>
                  var n := LeValue(tail[..4]);
                  && (n == 0 && |tail| > 4 ==> verdict == Err(BytesAfterEof))
                  && (0 < n < 29 || n > 65_564 ==> verdict == Err(BadLength(n)))
                  && (29 <= n <= 65_564 && |tail| < 4 + n ==> verdict == Err(NoEof)))
  {
    var end := 7062 + |Frames(bodies)|;
    assert data[end..] == data[7062..][|Frames(bodies)|..] == tail;
    ScanOnFrames(data, 7062, bodies, tail, end);
    if |tail| >= 4 {
      assert data[end..end + 4] == data[end..][..4] == tail[..4];
    }
  }

  /** A file shorter than a header and an EOF frame has no EOF frame. */
  lemma ShortFile(data: Bytes)
    requires |data| < 7066
    ensures ScanFrames(data, CTHF_HEADER_LEN) == Err(NoEof)
  {
  }
}
