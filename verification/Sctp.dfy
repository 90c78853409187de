/** SCTP packets: chunk lists, and the CRC-32C over a packet whose checksum field is zero. */
module Sctp {
  import opened Crc32c

  function Pack16(x: bv16): (p: octets)
    ensures |p| == 2
  {
    [(x >> 8) as bv8, (x & 0xff) as bv8]
  }

  function Pack32(x: bv32): (p: octets)
    ensures |p| == 4
  {
    [(x >> 24) as bv8, ((x >> 16) & 0xff) as bv8, ((x >> 8) & 0xff) as bv8, (x & 0xff) as bv8]
  }

  function Unpack16(p: octets): bv16
    requires |p| == 2
  {
    ((p[0] as bv16) << 8) | p[1] as bv16
  }

  function Unpack32(p: octets): bv32
    requires |p| == 4
  {
    ((p[0] as bv32) << 24) | ((p[1] as bv32) << 16) | ((p[2] as bv32) << 8) | p[3] as bv32
  }

  lemma Back16(x: bv16)
    ensures Unpack16(Pack16(x)) == x
  {
  }

  lemma Back32(x: bv32)
    ensures Unpack32(Pack32(x)) == x
  {
  }

  const DATA: bv8 := 0

  datatype Chunk = Chunk(kind: bv8, flags: bv8, len: bv16, data: octets, padding: octets)

  function ChunkBytes(c: Chunk): octets {
    [c.kind, c.flags] + Pack16(c.len) + c.data + c.padding
  }

  function ChunksBytes(cs: seq<Chunk>): octets {
    if |cs| == 0 then [] else ChunkBytes(cs[0]) + ChunksBytes(cs[1..])
  }

  /** pack_hdr. */
  function Header(sport: bv16, dport: bv16, vtag: bv32, sum: bv32): (h: octets)
    ensures |h| == 12
  {
    Pack16(sport) + Pack16(dport) + Pack32(vtag) + Pack32(sum)
  }

  /** What a receiver checks: the checksum field holds the CRC of the packet with that field zeroed. */
  predicate Verifies(p: octets) {
    |p| >= 12 && p[8..12] == Pack32(Checksum(p[..8] + [0, 0, 0, 0] + p[12..]))
  }

  class Packet {
    var sport: bv16
    var dport: bv16
    var vtag: bv32
    var sum: bv32
    var chunks: seq<Chunk>

    constructor (sport: bv16, dport: bv16, vtag: bv32, sum: bv32, chunks: seq<Chunk>)
      ensures this.sport == sport && this.dport == dport && this.vtag == vtag
      ensures this.sum == sum && this.chunks == chunks
    {
      this.sport, this.dport, this.vtag, this.sum, this.chunks := sport, dport, vtag, sum, chunks;
    }

    /** __bytes__: a zero checksum is replaced by the piecewise CRC of header and chunks. */
    method ToBytes() returns (p: octets)
      modifies this`sum
      ensures p == Header(sport, dport, vtag, sum) + ChunksBytes(chunks)
      ensures old(sum) != 0 ==> sum == old(sum)
      ensures old(sum) == 0 ==> sum == Checksum(Header(sport, dport, vtag, 0) + ChunksBytes(chunks)) && Verifies(p)
    {
      hide Checksum, Remainder, Done, Header, ChunkBytes;
      if sum == 0 {
        var h := Header(sport, dport, vtag, 0);
        var s := Add(0xffffffff, h);
        var i := 0;
        ghost var done: octets := [];
        assert h + done == h;
        while i < |chunks|
          invariant 0 <= i <= |chunks| && ChunksBytes(chunks) == done + ChunksBytes(chunks[i..])
          invariant s == Remainder(0xffffffff, h + done)
        {
          var x := ChunkBytes(chunks[i]);
          RemainderConcat(0xffffffff, h + done, x);
          assert h + done + x == h + (done + x);
          assert chunks[i..][1..] == chunks[i + 1..];
          done := done + x;
          s := Add(s, x);
          i := i + 1;
        }
        assert ChunksBytes(chunks) == done;
        ChecksumIs(h + done);
        sum := Done(s);
        FreshVerifies(sport, dport, vtag, done);
      }
      p := Header(sport, dport, vtag, sum) + ChunksBytes(chunks);
    }
  }

  lemma ChecksumIs(buf: octets)
    ensures Checksum(buf) == Done(Remainder(0xffffffff, buf))
  {
  }

  lemma FreshVerifies(sport: bv16, dport: bv16, vtag: bv32, body: octets)
    ensures var c := Checksum(Header(sport, dport, vtag, 0) + body);
            Verifies(Header(sport, dport, vtag, c) + body)
  {
    hide Checksum;
    var c := Checksum(Header(sport, dport, vtag, 0) + body);
    var p := Header(sport, dport, vtag, c) + body;
    assert Pack32(0) == [0, 0, 0, 0];
    assert p[8..12] == Pack32(c);
    assert p[..8] + [0, 0, 0, 0] + p[12..] == Header(sport, dport, vtag, 0) + body;
  }

  lemma PackInjective(x: bv32, y: bv32)
    requires Pack32(x) == Pack32(y)
    ensures x == y
  {
    hide Pack32;
    Back32(x);
    Back32(y);
  }

  /**
   A packet that verifies stops verifying when bits inside any 32 consecutive ones are changed, the lowest bit of each
   byte coming first, if they are all outside the checksum field. A change of that field alone always shows.
   */
  lemma CorruptionDetected(p: octets, q: octets, at: nat, s: nat)
    requires Verifies(p) && p != q && |p| == |q|
    requires s < 8
    requires (p[8..12] == q[8..12] && DifferWithinBits(p, q, at, s)) || (p[..8] == q[..8] && p[12..] == q[12..])
    ensures !Verifies(q)
  {
    hide Checksum, Pack32, Xor, Wide, LowClear, Within;
    if p[..8] == q[..8] && p[12..] == q[12..] {
      assert p == p[..8] + p[8..12] + p[12..] && q == p[..8] + q[8..12] + p[12..];
    } else {
      var a := p[..8] + [0, 0, 0, 0] + p[12..];
      var b := q[..8] + [0, 0, 0, 0] + q[12..];
      ZeroedDiffer(p, q, at, s);
      BitBurstDetected(a, b, at, s);
      if Pack32(Checksum(a)) == Pack32(Checksum(b)) {
        PackInjective(Checksum(a), Checksum(b));
      }
    }
  }

  lemma ZeroedDiffer(p: octets, q: octets, at: nat, s: nat)
    requires |p| >= 12 && s < 8 && DifferWithinBits(p, q, at, s) && p != q && p[8..12] == q[8..12]
    ensures var a := p[..8] + [0, 0, 0, 0] + p[12..];
            var b := q[..8] + [0, 0, 0, 0] + q[12..];
            DifferWithinBits(a, b, at, s) && a != b
  {
    hide Xor, Wide, LowClear, Within;
    var a := p[..8] + [0, 0, 0, 0] + p[12..];
    var b := q[..8] + [0, 0, 0, 0] + q[12..];
    NoDifference(s);
    assert forall i :: 8 <= i < 12 ==> p[i] == p[8..12][i - 8] && q[i] == q[8..12][i - 8];
    assert forall i :: 0 <= i < |p| && !(8 <= i < 12) ==> a[i] == p[i] && b[i] == q[i];
    assert forall i :: 8 <= i < 12 ==> a[i] == 0 && b[i] == 0;
    var k :| 0 <= k < |p| && p[k] != q[k];
    assert k < 8 || k >= 12;
    assert a[k] == p[k] && b[k] == q[k];
  }

  lemma NoDifference(s: nat)
    requires s < 8
    ensures LowClear(Xor(Wide(0), Wide(0)), s) && Within(Xor(Wide(0), Wide(0)), s)
  {
  }

  // ---------- unpacking ----------

  /** A Python slice d[:n] where n may be negative. */
  function Upto(d: octets, n: int): (r: octets)
    ensures 0 <= n <= |d| ==> r == d[..n]
  {
    if n >= 0 then d[..if n < |d| then n else |d|]
    else if |d| + n <= 0 then [] else d[..|d| + n]
  }

  function Cut(d: octets, lo: int, n: int): octets
    requires 0 <= lo && 0 <= n
  {
    if lo >= |d| then [] else Upto(d[lo..], n)
  }

  /** Chunk.unpack; None when the four header bytes are missing. */
  datatype MaybeChunk = Missing | Parsed(chunk: Chunk)

  function ParseChunk(buf: octets): MaybeChunk {
    if |buf| < 4 then Missing
    else
      var len := Unpack16(buf[2..4]);
      var (data, padding) := Body(buf, buf[0] == DATA, len as int);
      Parsed(Chunk(buf[0], buf[1], len, data, padding))
  }

  /** The data and the padding of a chunk of declared length n. */
  function Body(buf: octets, padded: bool, n: nat): (octets, octets)
    requires |buf| >= 4
  {
    var data := Upto(buf[4..], n - 4);
    (data, if padded && n % 4 != 0 then Cut(buf, 4 + |data|, 4 - n % 4) else [])
  }

  function ChunkLen(c: Chunk): nat {
    c.len as int + |c.padding|
  }

  datatype MaybeChunks = Failed | Chunks(list: seq<Chunk>)

  /** The chunk loop of SCTP.unpack: a chunk of declared length zero ends it. */
  function ParseChunks(buf: octets): MaybeChunks
    decreases |buf|
  {
    if |buf| == 0 then Chunks([])
    else
      match ParseChunk(buf)
      case Missing => Failed
      case Parsed(c) =>
        if ChunkLen(c) == 0 then Chunks([c])
        else if ChunkLen(c) >= |buf| then Chunks([c])
        else
          match ParseChunks(buf[ChunkLen(c)..])
          case Failed => Failed
          case Chunks(rest) => Chunks([c] + rest)
  }

  function PrependChunks(done: seq<Chunk>, r: MaybeChunks): MaybeChunks {
    if r.Failed? then r else Chunks(done + r.list)
  }

  lemma ChunkStep(list: seq<Chunk>, data: octets)
    requires |data| > 0
    ensures var r := PrependChunks(list, ParseChunks(data));
            match ParseChunk(data)
            case Missing => r == Failed
            case Parsed(c) =>
              if ChunkLen(c) == 0 || ChunkLen(c) >= |data| then r == Chunks(list + [c])
              else r == PrependChunks(list + [c], ParseChunks(data[ChunkLen(c)..]))
  {
    hide ParseChunk, ChunkLen;
    var m := ParseChunk(data);
    if m.Parsed? && 0 < ChunkLen(m.chunk) < |data| {
      var rest := ParseChunks(data[ChunkLen(m.chunk)..]);
      assert rest.Chunks? ==> list + ([m.chunk] + rest.list) == list + [m.chunk] + rest.list;
    }
  }

  method UnpackChunks(buf: octets) returns (r: MaybeChunks)
    ensures r == ParseChunks(buf)
  {
    hide ParseChunk, ChunkLen, ParseChunks;
    var data := buf;
    var list: seq<Chunk> := [];
    ghost var whole := ParseChunks(buf);
    assert whole.Chunks? ==> [] + whole.list == whole.list;
    while |data| > 0
      invariant whole == PrependChunks(list, ParseChunks(data))
      decreases |data|
    {
      ChunkStep(list, data);
      var m := ParseChunk(data);
      if m.Missing? {
        return Failed;
      }
      list := list + [m.chunk];
      if ChunkLen(m.chunk) == 0 || ChunkLen(m.chunk) >= |data| {
        return Chunks(list);
      }
      data := data[ChunkLen(m.chunk)..];
    }
    NoData(data);
    assert list + [] == list;
    return Chunks(list);
  }

  lemma NoData(data: octets)
    ensures |data| == 0 ==> ParseChunks(data) == Chunks([])
  {
  }

  /** The declared length covers header and data, and only DATA chunks carry padding, to a multiple of four. */
  predicate WellFormed(c: Chunk) {
    var n := c.len as int;
    && n == 4 + |c.data|
    && |c.padding| == if c.kind == DATA && n % 4 != 0 then 4 - n % 4 else 0
  }

  lemma Layout(a: octets, len: octets, data: octets, padding: octets, rest: octets)
    requires |a| == 2 && |len| == 2
    ensures var buf := a + len + data + padding + rest;
            && buf[0] == a[0] && buf[1] == a[1] && buf[2..4] == len
            && |buf| >= 4 + |data| + |padding| && buf[4..][..|data|] == data
            && (4 + |data| < |buf| ==> buf[4 + |data|..][..|padding|] == padding)
  {
  }

  lemma ChunkSize(c: Chunk)
    requires WellFormed(c)
    ensures |ChunkBytes(c)| == ChunkLen(c) > 0
  {
    hide Pack16;
  }

  lemma ChunkBody(c: Chunk, buf: octets)
    requires WellFormed(c) && |buf| >= 4 + |c.data| + |c.padding| && buf[4..][..|c.data|] == c.data
    requires 4 + |c.data| < |buf| ==> buf[4 + |c.data|..][..|c.padding|] == c.padding
    ensures Body(buf, c.kind == DATA, c.len as int) == (c.data, c.padding)
  {
    BodyBack(buf, c.kind == DATA, c.len as int, c.data, c.padding);
  }

  lemma ChunkBack(c: Chunk, rest: octets)
    requires WellFormed(c)
    ensures ParseChunk(ChunkBytes(c) + rest) == Parsed(c)
  {
    hide Pack16, Unpack16, Body, WellFormed;
    var buf := ChunkBytes(c) + rest;
    Layout([c.kind, c.flags], Pack16(c.len), c.data, c.padding, rest);
    Back16(c.len);
    ChunkBody(c, buf);
  }

  lemma BodyBack(buf: octets, padded: bool, n: nat, data: octets, padding: octets)
    requires n == 4 + |data| && |padding| == (if padded && n % 4 != 0 then 4 - n % 4 else 0)
    requires |buf| >= 4 + |data| + |padding| && buf[4..][..|data|] == data
    requires 4 + |data| < |buf| ==> buf[4 + |data|..][..|padding|] == padding
    ensures Body(buf, padded, n) == (data, padding)
  {
    CutIs(buf[4..], 0, data);
    if |padding| > 0 {
      CutIs(buf, 4 + |data|, padding);
    }
  }

  lemma CutIs(d: octets, lo: nat, piece: octets)
    requires lo + |piece| <= |d| && d[lo..][..|piece|] == piece
    ensures Cut(d, lo, |piece|) == piece && (lo == 0 ==> Upto(d, |piece|) == piece)
  {
  }

  /** Every list of well-formed chunks is recovered from its bytes. */
  lemma {:induction false} ChunksRoundTrip(cs: seq<Chunk>)
    requires forall i :: 0 <= i < |cs| ==> WellFormed(cs[i])
    ensures ParseChunks(ChunksBytes(cs)) == Chunks(cs)
    decreases |cs|
  {
    hide ParseChunk, ChunkBytes, WellFormed, ChunkLen;
    if |cs| > 0 {
      var rest := ChunksBytes(cs[1..]);
      ChunkBack(cs[0], rest);
      ChunkSize(cs[0]);
      ChunksRoundTrip(cs[1..]);
      var buf := ChunksBytes(cs);
      if |rest| == 0 {
        NoBytesNoChunks(cs[1..]);
        assert cs == [cs[0]];
      } else {
        assert buf[|ChunkBytes(cs[0])|..] == rest;
        assert [cs[0]] + cs[1..] == cs;
      }
    }
  }

  lemma NoBytesNoChunks(cs: seq<Chunk>)
    requires |ChunksBytes(cs)| == 0
    ensures cs == []
  {
  }
}
