/**
 The fixed-seed generator behind the golden vectors: SHA-256 of the seed and a counter, handed out
 byte by byte from a 32-byte block. It is the infinite byte stream `StreamByte`, read from a cursor.
 The hash is a parameter: any function to 32 bytes.
 */
module SeedRandom {
  import opened ByteStrings

  type Digest = d: Bytes | |d| == 32 witness LeBytes(0, 32)

  type Hash = Bytes -> Digest

  /** Byte k of the stream of a seed. */
  function StreamByte(hash: Hash, seed: Digest, k: nat): Byte {
    hash(seed + LeBytes(k / 32, 8))[k % 32]
  }

  /** The n bytes of the stream from position pos on. */
  function Window(hash: Hash, seed: Digest, pos: nat, n: nat): (w: Bytes)
    ensures |w| == n
  {
    seq<Byte>(n, i requires 0 <= i < n => StreamByte(hash, seed, pos + i))
  }

  class SeedRng {
    const hash: Hash
    const seed: Digest
    const block: array<Byte>
    var off: nat
    var counter: nat

    ghost predicate Valid()
      reads this, block
    {
      && block.Length == 32 && off <= 32 && counter < U64
      && (counter == 0 ==> off == 32)
      && (counter > 0 ==> Holds(hash(seed + LeBytes(counter - 1, 8)), 32))
    }

    /** The block starts with the first n bytes of the digest. */
    ghost predicate Holds(digest: Digest, n: nat)
      reads this, block
      requires block.Length == 32 && n <= 32
    {
      forall k | 0 <= k < n :: block[k] == digest[k]
    }

    /** How many bytes were handed out. */
    ghost function Position(): nat
      reads this, block
      requires Valid()
    {
      32 * counter + off - 32
    }

    /** Whether n more bytes leave the 64-bit block counter in range. */
    ghost predicate Lasts(n: nat)
      reads this, block
      requires Valid()
    {
      Position() + n <= 32 * (U64 - 1)
    }

    constructor (hash: Hash, seed: Digest)
      ensures Valid() && Position() == 0
      ensures this.hash == hash && this.seed == seed && fresh(block)
    {
      this.hash := hash;
      this.seed := seed;
      block := new Byte[32](_ => 0);
      off := 32;
      counter := 0;
    }

    /** Moves to the start of the next block; at the end of a block that is where the cursor was. */
    method Refill()
      requires Valid() && counter + 1 < U64
      modifies this, block
      ensures Valid() && off == 0 && counter == old(counter) + 1
      ensures Position() == 32 * old(counter)
      ensures old(off) == 32 ==> Position() == old(Position())
    {
      var digest := hash(seed + LeBytes(counter, 8));
      for i := 0 to 32
        invariant Holds(digest, i)
        invariant off == old(off) && counter == old(counter)
        modifies block
      {
        block[i] := digest[i];
      }
      counter := counter + 1;
      off := 0;
    }

    /** The byte under the cursor is the next byte of the stream. */
    lemma NextByte()
      requires Valid() && off < 32
      ensures block[off] == StreamByte(hash, seed, Position())
    {
      assert Position() == 32 * (counter - 1) + off;
      assert Position() / 32 == counter - 1 && Position() % 32 == off;
    }

    /** Fills the caller's buffer with the next bytes of the stream, whatever was drawn before. */
    method TryFillBytes(dst: array<Byte>)
      requires Valid() && Lasts(dst.Length) && dst != block
      modifies this, block, dst
      ensures Valid() && Position() == old(Position()) + dst.Length
      ensures dst[..] == Window(hash, seed, old(Position()), dst.Length)
    {
      hide StreamByte;
      ghost var start := Position();
      for i := 0 to dst.Length
        invariant Valid() && Position() == start + i
        invariant forall k | 0 <= k < i :: dst[k] == StreamByte(hash, seed, start + k)
      {
        if off >= 32 {
          Refill();
        }
        NextByte();
        dst[i] := block[off];
        off := off + 1;
      }
    }

    method TryNextU32() returns (r: nat)
      requires Valid() && Lasts(4)
      modifies this, block
      ensures Valid() && Position() == old(Position()) + 4
      ensures r == LeValue(Window(hash, seed, old(Position()), 4)) && r < U32
    {
      var b := new Byte[4](_ => 0);
      TryFillBytes(b);
      LeBytesOfValue(b[..]);
      Pow256Values();
      return LeValue(b[..]);
    }

    method TryNextU64() returns (r: nat)
      requires Valid() && Lasts(8)
      modifies this, block
      ensures Valid() && Position() == old(Position()) + 8
      ensures r == LeValue(Window(hash, seed, old(Position()), 8)) && r < U64
    {
      var b := new Byte[8](_ => 0);
      TryFillBytes(b);
      LeBytesOfValue(b[..]);
      Pow256Values();
      return LeValue(b[..]);
    }
  }

  // ---- However the requests are split ----

  datatype Request = Fill(n: nat) | NextU32 | NextU64 {
    function Size(): nat {
      match this case Fill(n) => n case NextU32 => 4 case NextU64 => 8
    }
  }

  function Total(requests: seq<Request>): nat {
    if requests == [] then 0 else requests[0].Size() + Total(requests[1..])
  }

  /** The bytes a run of requests takes from position pos on, each request from where the last ended. */
  function Drawn(hash: Hash, seed: Digest, pos: nat, requests: seq<Request>): Bytes
    decreases |requests|
  {
    if requests == [] then []
    else
      var n := requests[0].Size();
      Window(hash, seed, pos, n) + Drawn(hash, seed, pos + n, requests[1..])
  }

  /** Serves one request and returns the bytes it took, an integer as its little-endian bytes. */
  method DrawOne(rng: SeedRng, request: Request) returns (out: Bytes)
    requires rng.Valid() && rng.Lasts(request.Size())
    modifies rng, rng.block
    ensures rng.Valid() && rng.Position() == old(rng.Position()) + request.Size()
    ensures out == Window(rng.hash, rng.seed, old(rng.Position()), request.Size())
  {
    hide StreamByte, Window;
    match request {
      case Fill(n) =>
        var dst := new Byte[n](_ => 0);
        rng.TryFillBytes(dst);
        out := dst[..];
      case NextU32 =>
        ghost var taken := Window(rng.hash, rng.seed, rng.Position(), 4);
        var r := rng.TryNextU32();
        LeBytesOfValue(taken);
        out := LeBytes(r, 4);
      case NextU64 =>
        ghost var taken := Window(rng.hash, rng.seed, rng.Position(), 8);
        var r := rng.TryNextU64();
        LeBytesOfValue(taken);
        out := LeBytes(r, 8);
    }
  }

  /** Serves a list of requests on one generator. */
  method Draw(rng: SeedRng, requests: seq<Request>) returns (out: Bytes)
    requires rng.Valid() && rng.Lasts(Total(requests))
    modifies rng, rng.block
    ensures rng.Valid() && rng.Position() == old(rng.Position()) + Total(requests)
    ensures out == Drawn(rng.hash, rng.seed, old(rng.Position()), requests)
    ensures out == Window(rng.hash, rng.seed, old(rng.Position()), Total(requests))
    decreases |requests|
  {
    hide StreamByte, Window;
    ghost var start := rng.Position();
    DrawnIsWindow(rng.hash, rng.seed, start, requests);
    out := [];
    if requests != [] {
      var first := DrawOne(rng, requests[0]);
      var rest := Draw(rng, requests[1..]);
      DrawnIsWindow(rng.hash, rng.seed, start + requests[0].Size(), requests[1..]);
      out := first + rest;
    }
  }

  lemma {:induction false} DrawnIsWindow(hash: Hash, seed: Digest, pos: nat, requests: seq<Request>)
    ensures Drawn(hash, seed, pos, requests) == Window(hash, seed, pos, Total(requests))
    decreases |requests|
  {
    if requests != [] {
      DrawnIsWindow(hash, seed, pos + requests[0].Size(), requests[1..]);
    }
  }

  /** Two splits of the same total draw the same bytes: fill n then m is fill n + m. */
  lemma SplitInvariant(hash: Hash, seed: Digest, pos: nat, a: seq<Request>, b: seq<Request>)
    requires Total(a) == Total(b)
    ensures Drawn(hash, seed, pos, a) == Drawn(hash, seed, pos, b)
  {
    DrawnIsWindow(hash, seed, pos, a);
    DrawnIsWindow(hash, seed, pos, b);
  }

  /**
   Block number `counter` of a seed is the hash of the seed followed by the counter in eight bytes, low
   byte first; byte i of the block is byte 32 * counter + i of the stream.
   */
  lemma StreamBlocks(hash: Hash, seed: Digest, low: Bytes, high: Bytes, i: nat)
    requires |low| == |high| == 4 && i < 32
    ensures var counter := low[0] as nat + 0x100 * low[1] as nat + 0x1_0000 * low[2] as nat + 0x100_0000 * low[3] as nat
                           + 0x1_0000_0000 * (high[0] as nat + 0x100 * high[1] as nat
                                              + 0x1_0000 * high[2] as nat + 0x100_0000 * high[3] as nat);
            StreamByte(hash, seed, 32 * counter + i) == hash(seed + (low + high))[i]
  {
    LeValue4(low);
    LeValue4(high);
    LeLayout8(low, high);
    var counter := LeValue(low) + 0x1_0000_0000 * LeValue(high);
    assert (32 * counter + i) / 32 == counter && (32 * counter + i) % 32 == i;
  }

  /** The first two blocks, and the block where the second counter byte comes in. */
  lemma FirstBlocks(hash: Hash, seed: Digest)
    ensures StreamByte(hash, seed, 0) == hash(seed + [0, 0, 0, 0, 0, 0, 0, 0])[0]
    ensures StreamByte(hash, seed, 32) == hash(seed + [1, 0, 0, 0, 0, 0, 0, 0])[0]
    ensures StreamByte(hash, seed, 8192) == hash(seed + [0, 1, 0, 0, 0, 0, 0, 0])[0]
  {
    StreamBlocks(hash, seed, [0, 0, 0, 0], [0, 0, 0, 0], 0);
    StreamBlocks(hash, seed, [1, 0, 0, 0], [0, 0, 0, 0], 0);
    StreamBlocks(hash, seed, [0, 1, 0, 0], [0, 0, 0, 0], 0);
    assert [0, 0, 0, 0] + [0, 0, 0, 0] == [0, 0, 0, 0, 0, 0, 0, 0];
    assert [1, 0, 0, 0] + [0, 0, 0, 0] == [1, 0, 0, 0, 0, 0, 0, 0];
    assert [0, 1, 0, 0] + [0, 0, 0, 0] == [0, 1, 0, 0, 0, 0, 0, 0];
  }
}
