/**
 The history file as a whole: records to stream to sealed chunks, and back. The chunks are bound to
 their places; the stream notices its own end. Together they leave no arrangement of a file's own
 chunks that reads as anything but the whole file.
 */
module HistoryFile {
  import opened Outcomes
  import opened ByteStrings
  import opened Cth1
  import opened SealedChunks

  // ---- Reader ----

  /** Opens a sealed body as the chunk at place k: nonce from the body, associated data from k. */
  function OpenBody(c: Channel, body: Bytes, k: nat): Option<Bytes> {
    if |body| < NONCE_LEN || k >= U32 then None
    else c.decrypt(body[..NONCE_LEN], body[NONCE_LEN..], Aad(c, k))
  }

  function OpenBodies(c: Channel, bodies: seq<Bytes>, k: nat): Option<Bytes> {
    if bodies == [] then Some([])
    else
      match OpenBody(c, bodies[0], k)
      case None => None
      case Some(piece) =>
        match OpenBodies(c, bodies[1..], k + 1)
        case None => None
        case Some(rest) => Some(piece + rest)
  }

  function OpenFile(c: Channel, file: Bytes): Option<Bytes> {
    match ScanFrames(file, CTHF_HEADER_LEN)
    case Err(_) => None
    case Ok(frames) => OpenBodies(c, BodiesAt(file, frames), 0)
  }

  function ReadFile(c: Channel, file: Bytes): Option<seq<Record>> {
    match OpenFile(c, file)
    case None => None
    case Some(data) => match Parse(data) case Ok(rs) => Some(rs) case Err(_) => None
  }

  /** A file over any header: the sealed chunks of p named by `js`, in that order, then EOF. */
  function Arranged(c: Channel, p: Bytes, js: seq<nat>): seq<Bytes> {
    seq(|js|, i requires 0 <= i < |js| => Sealed(c, p, js[i]))
  }

  function File(c: Channel, header: Bytes, p: Bytes, js: seq<nat>): Bytes {
    header + Framed(Arranged(c, p, js))
  }

  function UpTo(n: nat): seq<nat> {
    seq(n, i requires 0 <= i < n => i)
  }

  // ---- Opening chunks in their places ----

  lemma OpenInPlace(c: Channel, p: Bytes, k: nat)
    requires Lawful(c) && k < U32
    ensures OpenBody(c, Sealed(c, p, k), k) == Some(Chunk(p, k))
  {
    assert Sealed(c, p, k)[..NONCE_LEN] == Nonce(k);
    assert Sealed(c, p, k)[NONCE_LEN..] == c.encrypt(Nonce(k), Chunk(p, k), Aad(c, k));
  }

  /** The text of the chunks k up to (not including) m. */
  function Piece(p: Bytes, k: nat, m: nat): Bytes
    requires k <= m
  {
    Slice(p, k * CHUNK_PLAINTEXT, m * CHUNK_PLAINTEXT)
  }

  lemma PieceSplit(p: Bytes, k: nat, m: nat)
    requires k < m
    ensures Chunk(p, k) + Piece(p, k + 1, m) == Piece(p, k, m)
  {
    var a, b, e := Min(k * CHUNK_PLAINTEXT, |p|), Min((k + 1) * CHUNK_PLAINTEXT, |p|), Min(m * CHUNK_PLAINTEXT, |p|);
    assert k * CHUNK_PLAINTEXT <= (k + 1) * CHUNK_PLAINTEXT <= m * CHUNK_PLAINTEXT;
    assert p[a..b] + p[b..e] == p[a..e];
  }

  ghost predicate InPlace(js: seq<nat>, k: nat) {
    forall i | 0 <= i < |js| :: js[i] == k + i
  }

  lemma InPlaceRest(js: seq<nat>, k: nat)
    requires js != []
    ensures InPlace(js, k) <==> js[0] == k && InPlace(js[1..], k + 1)
  {
    if js[0] == k && InPlace(js[1..], k + 1) {
      assert forall i | 1 <= i < |js| :: js[i] == js[1..][i - 1];
    }
  }

  lemma ArrangedFirst(c: Channel, p: Bytes, js: seq<nat>)
    requires js != []
    ensures Arranged(c, p, js) == [Sealed(c, p, js[0])] + Arranged(c, p, js[1..])
    ensures Arranged(c, p, js)[1..] == Arranged(c, p, js[1..])
  {
  }

  lemma {:induction false} OpenRun(c: Channel, p: Bytes, js: seq<nat>, k: nat)
    requires Lawful(c) && InPlace(js, k) && k + |js| <= U32
    ensures OpenBodies(c, Arranged(c, p, js), k) == Some(Piece(p, k, k + |js|))
    decreases |js|
  {
    if js != [] {
      ArrangedFirst(c, p, js);
      InPlaceRest(js, k);
      OpenInPlace(c, p, k);
      OpenRun(c, p, js[1..], k + 1);
      PieceSplit(p, k, k + |js|);
      assert k + 1 + |js[1..]| == k + |js|;
    } else {
      assert Arranged(c, p, js) == [];
      assert Piece(p, k, k) == [];
    }
  }

  lemma Scans(c: Channel, header: Bytes, p: Bytes, js: seq<nat>)
    requires Lawful(c) && |header| == CTHF_HEADER_LEN
    requires forall j | j in js :: j < ChunkCount(|p|)
    ensures var file := File(c, header, p, js);
            var bodies := Arranged(c, p, js);
            && ScanFrames(file, CTHF_HEADER_LEN) == Ok(Places(bodies, CTHF_HEADER_LEN))
            && |Places(bodies, CTHF_HEADER_LEN)| == |js|
            && OpenFile(c, file) == OpenBodies(c, bodies, 0)
  {
    var bodies := Arranged(c, p, js);
    forall i | 0 <= i < |js|
      ensures Frameable(bodies[i])
    {
      assert js[i] in js;
      SealedSize(c, p, js[i]);
    }
    var file := File(c, header, p, js);
    assert file[CTHF_HEADER_LEN..] == Framed(bodies);
    ScanComplete(file, CTHF_HEADER_LEN, bodies);
    assert |BodiesAt(file, Places(bodies, CTHF_HEADER_LEN))| == |js|;
  }

  /** Frames that are the first m chunks in order open to the first m * 65536 bytes. */
  lemma OpenFirst(c: Channel, header: Bytes, p: Bytes, m: nat)
    requires Lawful(c) && |header| == CTHF_HEADER_LEN && |p| <= MAX_PLAINTEXT
    requires m <= ChunkCount(|p|)
    ensures OpenFile(c, File(c, header, p, UpTo(m))) == Some(p[..Min(m * CHUNK_PLAINTEXT, |p|)])
  {
    Scans(c, header, p, UpTo(m));
    OpenRun(c, p, UpTo(m), 0);
  }

  lemma WholeFile(c: Channel, header: Bytes, p: Bytes)
    ensures header + Framed(SealedAll(c, p)) == File(c, header, p, UpTo(ChunkCount(|p|)))
  {
    assert SealedAll(c, p) == Arranged(c, p, UpTo(ChunkCount(|p|)));
  }

  /** Sealing, framing, opening and parsing give back exactly the records written. */
  lemma EndToEnd(c: Channel, header: Bytes, rs: seq<Record>)
    requires Lawful(c) && |header| == CTHF_HEADER_LEN
    requires AllAdmitted(rs) && |StreamBytes(rs)| <= MAX_PLAINTEXT
    ensures OpenFile(c, header + Framed(SealedAll(c, StreamBytes(rs)))) == Some(StreamBytes(rs))
    ensures ReadFile(c, header + Framed(SealedAll(c, StreamBytes(rs)))) == Some(rs)
  {
    var p := StreamBytes(rs);
    WholeFile(c, header, p);
    OpenFirst(c, header, p, ChunkCount(|p|));
    assert p[..|p|] == p;
    RoundTrip(rs);
  }

  lemma ShortPlaintext(rs: seq<Record>, n: nat)
    requires AllAdmitted(rs) && n < |StreamBytes(rs)|
    ensures Parse(StreamBytes(rs)[..n]).Err?
  {
    RoundTrip(rs);
    if Parse(StreamBytes(rs)[..n]).Ok? {
      PrefixFree(StreamBytes(rs)[..n], StreamBytes(rs));
    }
  }

  /**
   Dropping any non-empty tail of the chunks and keeping the EOF frame passes the framing check and
   opens, to a proper prefix of the stream; the stream reader rejects it.
   */
  lemma TruncationDetected(c: Channel, header: Bytes, rs: seq<Record>, m: nat)
    requires Lawful(c) && |header| == CTHF_HEADER_LEN
    requires AllAdmitted(rs) && |StreamBytes(rs)| <= MAX_PLAINTEXT
    requires m < ChunkCount(|StreamBytes(rs)|)
    ensures var p := StreamBytes(rs);
            var file := header + Framed(SealedAll(c, p)[..m]);
            && ScanFrames(file, CTHF_HEADER_LEN).Ok?
            && |ScanFrames(file, CTHF_HEADER_LEN).value| == m
            && OpenFile(c, file) == Some(p[..m * CHUNK_PLAINTEXT])
            && m * CHUNK_PLAINTEXT < |p|
            && Parse(p[..m * CHUNK_PLAINTEXT]).Err?
            && ReadFile(c, file) == None
  {
    var p := StreamBytes(rs);
    assert SealedAll(c, p)[..m] == Arranged(c, p, UpTo(m));
    Scans(c, header, p, UpTo(m));
    OpenFirst(c, header, p, m);
    ChunkSize(p, m);
    ShortPlaintext(rs, m * CHUNK_PLAINTEXT);
  }

  // ---- Any arrangement of the file's own chunks ----

  /** No chunk of this stream opens at a place that is not its own. */
  ghost predicate PlacesBound(c: Channel, p: Bytes) {
    forall j: nat, k: nat | j < ChunkCount(|p|) && k < U32 && j != k ::
      OpenBody(c, Sealed(c, p, j), k) == None
  }

  lemma {:induction false} OpenMisplaced(c: Channel, p: Bytes, js: seq<nat>, k: nat)
    requires Lawful(c) && PlacesBound(c, p)
    requires forall j | j in js :: j < ChunkCount(|p|)
    requires !InPlace(js, k)
    ensures OpenBodies(c, Arranged(c, p, js), k) == None
    decreases |js|
  {
    ArrangedFirst(c, p, js);
    InPlaceRest(js, k);
    assert js[0] in js;
    if k < U32 && js[0] == k {
      assert forall j | j in js[1..] :: j in js;
      OpenMisplaced(c, p, js[1..], k + 1);
    }
  }

  /**
   Reorder, repeat or leave out the chunks of a file in any way: the framing check accepts, and the
   reader returns the records if the chunks are all there in order, and nothing otherwise.
   */
  lemma OnlyTheWholeFileReads(c: Channel, header: Bytes, rs: seq<Record>, js: seq<nat>)
    requires Lawful(c) && |header| == CTHF_HEADER_LEN
    requires AllAdmitted(rs) && |StreamBytes(rs)| <= MAX_PLAINTEXT
    requires PlacesBound(c, StreamBytes(rs))
    requires forall j | j in js :: j < ChunkCount(|StreamBytes(rs)|)
    ensures var p := StreamBytes(rs);
            var file := File(c, header, p, js);
            && ScanFrames(file, CTHF_HEADER_LEN).Ok?
            && ReadFile(c, file) == if js == UpTo(ChunkCount(|p|)) then Some(rs) else None
  {
    var p := StreamBytes(rs);
    Scans(c, header, p, js);
    if js == UpTo(ChunkCount(|p|)) {
      WholeFile(c, header, p);
      EndToEnd(c, header, rs);
    } else if InPlace(js, 0) {
      var m := |js|;
      assert js == UpTo(m);
      if m > 0 {
        assert js[m - 1] in js;
      }
      assert m < ChunkCount(|p|);
      assert SealedAll(c, p)[..m] == Arranged(c, p, js);
      TruncationDetected(c, header, rs, m);
    } else {
      OpenMisplaced(c, p, js, 0);
    }
  }

  // ---- The two assumptions can be met together ----

  /** A toy cipher: the tag is the last four bytes of the associated data. */
  function ToyTag(data: Bytes): Bytes {
    (if |data| >= 4 then data[|data| - 4..] else [0, 0, 0, 0]) + [0, 0, 0, 0, 0, 0, 0, 0, 0, 0, 0, 0]
  }

  function ToyChannel(): Channel {
    Channel((nonce: Bytes, text: Bytes, data: Bytes) => text + ToyTag(data),
            (nonce: Bytes, sealed: Bytes, data: Bytes) =>
              if |sealed| >= TAG_LEN && sealed[|sealed| - TAG_LEN..] == ToyTag(data)
              then Some(sealed[..|sealed| - TAG_LEN]) else None,
            [], [])
  }

  lemma AssumptionsConsistent(p: Bytes)
    requires |p| <= MAX_PLAINTEXT
    ensures Lawful(ToyChannel()) && PlacesBound(ToyChannel(), p)
  {
    var c := ToyChannel();
    forall nonce, text, data
      ensures && |c.encrypt(nonce, text, data)| == |text| + TAG_LEN
              && c.decrypt(nonce, c.encrypt(nonce, text, data), data) == Some(text)
    {
      var sealed := text + ToyTag(data);
      assert sealed[|sealed| - TAG_LEN..] == ToyTag(data);
      assert sealed[..|sealed| - TAG_LEN] == text;
    }
    forall j: nat, k: nat | j < ChunkCount(|p|) && k < U32 && j != k
      ensures OpenBody(c, Sealed(c, p, j), k) == None
    {
      ToyMisplaced(p, j, k);
    }
  }

  lemma ToyMisplaced(p: Bytes, j: nat, k: nat)
    requires j < U32 && k < U32 && j != k
    ensures OpenBody(ToyChannel(), Sealed(ToyChannel(), p, j), k) == None
  {
    var c := ToyChannel();
    var body := Sealed(c, p, j);
    var text := body[NONCE_LEN..];
    assert text == Chunk(p, j) + ToyTag(Aad(c, j));
    assert text[|text| - TAG_LEN..] == ToyTag(Aad(c, j));
    assert ToyTag(Aad(c, j))[..4] == LeBytes(j, 4) && ToyTag(Aad(c, k))[..4] == LeBytes(k, 4);
    Pow256Values();
    if LeBytes(j, 4) == LeBytes(k, 4) {
      LeInjective(j, k, 4);
    }
  }
}
