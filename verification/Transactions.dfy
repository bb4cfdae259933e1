/** The memory transactions that a warp's accesses are merged into. */
module Transactions {

  /** One access of one lane. */
  datatype Touch = Touch(lane: nat, addr: nat, size: nat)

  /** A transaction in the making; chunks and bytes are counted from the enclosing 128-byte block. */
  datatype Transaction = Transaction(chunks: set<nat>, bytes: set<nat>, active: set<nat>)

  /** A transaction sent to memory. */
  datatype Access = Access(addr: nat, size: nat, active: set<nat>, bytes: set<nat>)

  predicate IsSegment(seg: nat) {
    seg == 32 || seg == 64 || seg == 128
  }

  /** The segment an address lies in. */
  function Block(addr: nat, seg: nat): (b: nat)
    requires IsSegment(seg)
    ensures b <= addr < b + seg && b % seg == 0
  {
    addr - addr % seg
  }

  /** The access stays within one 32-byte chunk, as every naturally aligned access does. */
  predicate InChunk(t: Touch) {
    0 < t.size && t.addr % 32 + t.size <= 32
  }

  lemma AlignedTo2(addr: nat)
    requires addr % 2 == 0
    ensures addr % 32 + 2 <= 32
  {
  }

  lemma AlignedTo4(addr: nat)
    requires addr % 4 == 0
    ensures addr % 32 + 4 <= 32
  {
  }

  lemma AlignedTo8(addr: nat)
    requires addr % 8 == 0
    ensures addr % 32 + 8 <= 32
  {
  }

  lemma AlignedTo16(addr: nat)
    requires addr % 16 == 0
    ensures addr % 32 + 16 <= 32
  {
  }

  predicate NaturallyAligned(t: Touch) {
    || t.size == 1
    || (t.size == 2 && t.addr % 2 == 0)
    || (t.size == 4 && t.addr % 4 == 0)
    || (t.size == 8 && t.addr % 8 == 0)
    || (t.size == 16 && t.addr % 16 == 0)
  }

  /** Chunks are the smallest thing a naturally aligned access of up to 16 bytes cannot cross. */
  lemma AlignedIsInChunk(t: Touch)
    requires NaturallyAligned(t)
    ensures InChunk(t)
  {
    if t.size == 8 {
      AlignedTo8(t.addr);
    } else if t.size == 16 {
      AlignedTo16(t.addr);
    } else if t.size == 4 {
      AlignedTo4(t.addr);
    } else if t.size == 2 {
      AlignedTo2(t.addr);
    }
  }

  predicate AtOffset(t: Touch, i: nat) {
    t.addr % 128 <= i < t.addr % 128 + t.size
  }

  function Offsets(t: Touch): set<nat> {
    set i: nat | i < 128 && AtOffset(t, i)
  }

  function Chunk(t: Touch): nat {
    t.addr % 128 / 32
  }

  const EMPTY := Transaction({}, {}, {})

  function Extended(info: Transaction, t: Touch): Transaction {
    Transaction(info.chunks + {Chunk(t)}, info.bytes + Offsets(t), info.active + {t.lane})
  }

  // ----- the smallest aligned block around the used chunks -----

  /** The chunk lies within [off, off + size) of its 128-byte block. */
  predicate ChunkWithin(chunk: nat, off: nat, size: nat) {
    off <= 32 * chunk && 32 * chunk + 32 <= off + size
  }

  ghost predicate AllWithin(chunks: set<nat>, off: nat, size: nat) {
    forall q :: q in chunks ==> ChunkWithin(q, off, size)
  }

  /** An aligned block of 32, 64 or 128 bytes. */
  predicate IsBlock(addr: nat, size: nat) {
    IsSegment(size) && addr % size == 0
  }

  /** [off, off + size) is an aligned block that holds all used chunks, and unless it is as small as a chunk,
      neither half of it does. */
  ghost predicate Tightest(chunks: set<nat>, off: nat, size: nat) {
    && IsBlock(off, size) && off + size <= 128 && AllWithin(chunks, off, size)
    && (size > 32 ==> !AllWithin(chunks, off, size / 2) && !AllWithin(chunks, off + size / 2, size / 2))
  }

  /** The used chunks lie in the segment, which is part of the 128-byte block. */
  ghost predicate InSegment(chunks: set<nat>, off: nat, seg: nat) {
    chunks != {} && IsBlock(off, seg) && off + seg <= 128 && AllWithin(chunks, off, seg)
  }

  lemma BlocksNest(a: nat, m: nat, b: nat, n: nat, q: nat)
    requires IsBlock(a, m) && IsBlock(b, n) && m < n && a + m <= 128 && b + n <= 128
    requires ChunkWithin(q, a, m) && ChunkWithin(q, b, n)
    ensures (b <= a && a + m <= b + n / 2) || (b + n / 2 <= a && a + m <= b + n)
  {
  }

  lemma SameSizeSameBlock(a: nat, b: nat, m: nat, q: nat)
    requires IsBlock(a, m) && IsBlock(b, m) && a + m <= 128 && b + m <= 128
    requires ChunkWithin(q, a, m) && ChunkWithin(q, b, m)
    ensures a == b
  {
  }

  /** Nothing smaller or elsewhere would do: the tightest block is unique. */
  lemma TightestIsUnique(chunks: set<nat>, a: nat, m: nat, b: nat, n: nat)
    requires chunks != {} && Tightest(chunks, a, m) && Tightest(chunks, b, n)
    ensures a == b && m == n
  {
    var q :| q in chunks;
    assert ChunkWithin(q, a, m) && ChunkWithin(q, b, n);
    if m < n {
      BlocksNest(a, m, b, n, q);
    } else if n < m {
      BlocksNest(b, n, a, m, q);
    } else {
      SameSizeSameBlock(a, b, m, q);
    }
  }

  lemma FourChunks(chunks: set<nat>, off: nat, seg: nat)
    requires InSegment(chunks, off, seg)
    ensures 0 in chunks || 1 in chunks || 2 in chunks || 3 in chunks
    ensures forall q :: q in chunks ==> q == 0 || q == 1 || q == 2 || q == 3
  {
    var q :| q in chunks;
    assert ChunkWithin(q, off, seg);
  }

  /** Halves the segment as long as only one half of it is used. */
  method Reduce(chunks: set<nat>, block: nat, seg: nat) returns (addr: nat, size: nat)
    requires block % 128 + seg <= 128 && InSegment(chunks, block % 128, seg)
    ensures block <= addr && addr + size <= block + seg
    ensures Tightest(chunks, block % 128 + (addr - block), size)
  {
    FourChunks(chunks, block % 128, seg);
    var h0, h1 := false, false;
    addr, size := block, seg;
    if seg == 128 {
      var lowerHalfUsed, upperHalfUsed := 0 in chunks || 1 in chunks, 2 in chunks || 3 in chunks;
      if lowerHalfUsed && !upperHalfUsed {
        size := 64;
        h0, h1 := 0 in chunks, 1 in chunks;
      } else if !lowerHalfUsed && upperHalfUsed {
        addr, size := addr + 64, 64;
        h0, h1 := 2 in chunks, 3 in chunks;
      } else {
        assert lowerHalfUsed && upperHalfUsed;
      }
    } else if seg == 64 {
      if addr % 128 == 0 {
        h0, h1 := 0 in chunks, 1 in chunks;
      } else {
        assert addr % 128 == 64;
        h0, h1 := 2 in chunks, 3 in chunks;
      }
    }
    if size == 64 {
      if h0 && !h1 {
        size := 32;
      } else if !h0 && h1 {
        addr, size := addr + 32, 32;
      } else {
        assert h0 && h1;
      }
    }
    assert forall q :: q in chunks ==> ChunkWithin(q, block % 128, seg);
  }

  // ----- merging all accesses to a segment -----

  /** The transaction of a segment: all accesses to it, merged. */
  function Info(touches: seq<Touch>, block: nat, seg: nat): Transaction
    requires IsSegment(seg)
  {
    if touches == [] then EMPTY
    else
      var before, t := Info(touches[..|touches| - 1], block, seg), touches[|touches| - 1];
      if Block(t.addr, seg) == block then Extended(before, t) else before
  }

  function Blocks(touches: seq<Touch>, seg: nat): set<nat>
    requires IsSegment(seg)
  {
    if touches == [] then {} else Blocks(touches[..|touches| - 1], seg) + {Block(touches[|touches| - 1].addr, seg)}
  }

  predicate Grouped(m: map<nat, Transaction>, touches: seq<Touch>, seg: nat)
    requires IsSegment(seg)
  {
    m.Keys == Blocks(touches, seg) && forall b :: b in m ==> m[b] == Info(touches, b, seg)
  }

  lemma {:induction false} NoInfoElsewhere(touches: seq<Touch>, block: nat, seg: nat)
    requires IsSegment(seg) && block !in Blocks(touches, seg)
    ensures Info(touches, block, seg) == EMPTY
  {
    if touches != [] {
      NoInfoElsewhere(touches[..|touches| - 1], block, seg);
    }
  }

  lemma {:induction false} InfoHas(touches: seq<Touch>, i: nat, seg: nat)
    requires IsSegment(seg) && i < |touches|
    ensures var t, info := touches[i], Info(touches, Block(touches[i].addr, seg), seg);
      && Block(t.addr, seg) in Blocks(touches, seg)
      && Chunk(t) in info.chunks && Offsets(t) <= info.bytes && t.lane in info.active
  {
    if i < |touches| - 1 {
      InfoHas(touches[..|touches| - 1], i, seg);
    }
  }

  lemma {:induction false} ChunkFrom(touches: seq<Touch>, block: nat, seg: nat, q: nat) returns (i: nat)
    requires IsSegment(seg) && q in Info(touches, block, seg).chunks
    ensures i < |touches| && Block(touches[i].addr, seg) == block && Chunk(touches[i]) == q
  {
    i := |touches| - 1;
    if Block(touches[i].addr, seg) != block || Chunk(touches[i]) != q {
      i := ChunkFrom(touches[..i], block, seg, q);
    }
  }

  lemma {:induction false} LaneFrom(touches: seq<Touch>, block: nat, seg: nat, l: nat) returns (i: nat)
    requires IsSegment(seg) && l in Info(touches, block, seg).active
    ensures i < |touches| && Block(touches[i].addr, seg) == block && touches[i].lane == l
  {
    i := |touches| - 1;
    if Block(touches[i].addr, seg) != block || touches[i].lane != l {
      i := LaneFrom(touches[..i], block, seg, l);
    }
  }

  lemma {:induction false} ByteFrom(touches: seq<Touch>, block: nat, seg: nat, b: nat) returns (i: nat)
    requires IsSegment(seg) && b in Info(touches, block, seg).bytes
    ensures i < |touches| && Block(touches[i].addr, seg) == block && AtOffset(touches[i], b)
  {
    i := |touches| - 1;
    if Block(touches[i].addr, seg) != block || b !in Offsets(touches[i]) {
      i := ByteFrom(touches[..i], block, seg, b);
    }
  }

  lemma {:induction false} BlockFrom(touches: seq<Touch>, block: nat, seg: nat) returns (i: nat)
    requires IsSegment(seg) && block in Blocks(touches, seg)
    ensures i < |touches| && Block(touches[i].addr, seg) == block
  {
    i := |touches| - 1;
    if Block(touches[i].addr, seg) != block {
      i := BlockFrom(touches[..i], block, seg);
    }
  }

  // ----- what coalescing promises -----

  predicate Covers(e: Access, t: Touch) {
    e.addr <= t.addr && t.addr + t.size <= e.addr + e.size && t.lane in e.active
  }

  predicate Inside(t: Touch, addr: nat, size: nat) {
    addr <= t.addr && t.addr + t.size <= addr + size
  }

  /** The lanes and bytes of a transaction are those of accesses it covers, and each half of it is used. */
  ghost predicate JustUsed(touches: seq<Touch>, e: Access) {
    && (forall l :: l in e.active ==> exists t :: t in touches && t.lane == l && Covers(e, t))
    && (forall b :: b in e.bytes ==> exists t :: t in touches && Covers(e, t) && AtOffset(t, b))
    && (e.size > 32 ==>
          && (exists t :: t in touches && Inside(t, e.addr, e.size / 2))
          && (exists t :: t in touches && Inside(t, e.addr + e.size / 2, e.size / 2)))
  }

  ghost predicate Separate(out: seq<Access>) {
    forall i, j :: 0 <= i < j < |out| ==> out[i].addr + out[i].size <= out[j].addr
  }

  /** Every access is covered by a transaction with its lane and its bytes; transactions are aligned blocks,
      do not overlap, and are no larger than what is used of them demands. */
  ghost predicate Coalesced(touches: seq<Touch>, out: seq<Access>) {
    && (forall t :: t in touches ==> exists e :: e in out && Covers(e, t) && Offsets(t) <= e.bytes)
    && (forall e :: e in out ==> IsBlock(e.addr, e.size) && JustUsed(touches, e))
    && Separate(out)
  }

  /** The transactions are merged as far as their segments allow: there is at most one for each. */
  ghost predicate OnePerSegment(out: seq<Access>, seg: nat)
    requires IsSegment(seg)
  {
    && (forall i :: 0 <= i < |out| ==> out[i].addr + out[i].size <= Block(out[i].addr, seg) + seg)
    && forall i, j :: 0 <= i < j < |out| ==> Block(out[i].addr, seg) != Block(out[j].addr, seg)
  }

  /** The transaction made of the accesses to one segment. */
  ghost predicate MadeFrom(info: Transaction, block: nat, seg: nat, e: Access)
    requires IsSegment(seg)
  {
    && block % seg == 0 && block <= e.addr && e.addr + e.size <= block + seg
    && Tightest(info.chunks, block % 128 + (e.addr - block), e.size)
    && e.active == info.active && e.bytes == info.bytes
  }

  lemma Within32(k: nat, off: nat)
    ensures (128 * k + off) % 32 == off % 32
  {
    assert 128 * k + off == 32 * (4 * k) + off;
  }

  lemma Within64(k: nat, off: nat)
    ensures (128 * k + off) % 64 == off % 64
  {
    assert 128 * k + off == 64 * (2 * k) + off;
  }

  lemma Within128(k: nat, off: nat)
    ensures (128 * k + off) % 128 == off % 128
  {
  }

  lemma WithinBlock(base: nat, off: nat, size: nat)
    requires base % 128 == 0 && IsSegment(size)
    ensures (base + off) % size == off % size && (off < 128 ==> (base + off) % 128 == off)
  {
    var k := base / 128;
    assert base == 128 * k;
    Within128(k, off);
    if size == 32 {
      Within32(k, off);
    } else if size == 64 {
      Within64(k, off);
    } else {
      assert size == 128;
    }
  }

  lemma OffsetInItsChunk(m: nat, size: nat, seg: nat)
    requires IsSegment(seg) && m < 128 && 0 < size && m % 32 + size <= 32
    ensures var off, q := m - m % seg, m / 32;
      && q < 4 && 32 * q <= m && m + size <= 32 * q + 32
      && off + seg <= 128 && IsBlock(off, seg) && ChunkWithin(q, off, seg)
  {
  }

  lemma InItsChunk(t: Touch, seg: nat)
    requires IsSegment(seg) && InChunk(t)
    ensures var b, q, base := Block(t.addr, seg), Chunk(t), t.addr - t.addr % 128;
      && b - b % 128 == base && q < 4
      && base + 32 * q <= t.addr && t.addr + t.size <= base + 32 * q + 32
      && b % 128 + seg <= 128 && ChunkWithin(q, b % 128, seg) && IsBlock(b % 128, seg)
  {
    var m := t.addr % 128;
    var base := t.addr - m;
    WithinBlock(base, m, seg);
    WithinBlock(base, m, 32);
    OffsetInItsChunk(m, t.size, seg);
    WithinBlock(base, m - m % seg, seg);
  }

  lemma AlignedBlock(block: nat, off: nat, addr: nat, size: nat)
    requires IsBlock(off, size) && block <= addr && off == block % 128 + (addr - block)
    ensures IsBlock(addr, size)
  {
    WithinBlock(block - block % 128, off, size);
  }

  /** An access lies where its chunk lies. */
  lemma InsideWithChunk(t: Touch, seg: nat, off: nat, size: nat)
    requires IsSegment(seg) && InChunk(t) && ChunkWithin(Chunk(t), off, size)
    ensures var b := Block(t.addr, seg); Inside(t, b - b % 128 + off, size)
  {
    InItsChunk(t, seg);
  }

  lemma MadeCovers(touches: seq<Touch>, i: nat, seg: nat, e: Access)
    requires IsSegment(seg) && i < |touches| && InChunk(touches[i])
    requires MadeFrom(Info(touches, Block(touches[i].addr, seg), seg), Block(touches[i].addr, seg), seg, e)
    ensures Covers(e, touches[i]) && Offsets(touches[i]) <= e.bytes
  {
    InfoHas(touches, i, seg);
    InItsChunk(touches[i], seg);
    var b := Block(touches[i].addr, seg);
    assert ChunkWithin(Chunk(touches[i]), b % 128 + (e.addr - b), e.size);
  }

  lemma OneChunkOneHalf(q: nat, off: nat, size: nat)
    requires ChunkWithin(q, off, size) && IsBlock(off, size) && size > 32
    ensures AllWithin({q}, off, size / 2) || AllWithin({q}, off + size / 2, size / 2)
  {
    var k := off / 32;
    if size == 64 {
      HalfOf64(off, k);
      assert q == k || q == k + 1;
    } else {
      assert size == 128;
      HalfOf128(off, k);
      assert q == k || q == k + 1 || q == k + 2 || q == k + 3;
    }
  }

  lemma HalfOf64(off: nat, k: nat)
    requires off % 64 == 0 && k == off / 32
    ensures off == 32 * k
  {
  }

  lemma HalfOf128(off: nat, k: nat)
    requires off % 128 == 0 && k == off / 32
    ensures off == 32 * k
  {
  }

  /** What is needed to cover an access on its own is the chunk it starts in. */
  lemma AloneTakesOneChunk(q: nat, off: nat, size: nat)
    requires Tightest({q}, off, size)
    ensures off == 32 * q && size == 32
  {
    assert ChunkWithin(q, off, size);
    if size > 32 {
      OneChunkOneHalf(q, off, size);
    }
  }

  lemma InfoOfOne(t: Touch, seg: nat)
    requires IsSegment(seg)
    ensures var info := Info([t], Block(t.addr, seg), seg); info.chunks == {Chunk(t)} && info.active == {t.lane}
  {
    var ts, b := [t], Block(t.addr, seg);
    assert ts[..|ts| - 1] == [] && Info(ts[..|ts| - 1], b, seg) == EMPTY;
    assert Info(ts, b, seg) == Extended(EMPTY, t);
  }

  lemma ChunkOffset(x: nat)
    ensures x % 32 == x % 128 - 32 * (x % 128 / 32)
  {
    var k := x / 128;
    Within32(k, x % 128);
    assert x == 128 * k + x % 128;
  }

  /** The chunk of an access's last byte, which lies past the 128-byte block if it is 4 or more. */
  function LastChunk(t: Touch): nat
    requires 0 < t.size
  {
    (t.addr % 128 + t.size - 1) / 32
  }

  lemma EndsInLastChunk(m: nat, size: nat, off: nat, blockSize: nat)
    requires 0 < size && off <= m && IsBlock(off, blockSize) && off + blockSize <= 128
    ensures m + size <= off + blockSize <==> ChunkWithin((m + size - 1) / 32, off, blockSize)
  {
    assert off % 32 == 0 && blockSize % 32 == 0;
  }

  lemma StartsBefore(t: Touch, off: nat, size: nat)
    requires ChunkWithin(Chunk(t), off, size)
    ensures off <= t.addr % 128
  {
  }

  /** Where the transaction of a segment lies: the block that holds its used chunks. */
  lemma MadeLiesIn(t: Touch, seg: nat, info: Transaction, e: Access)
    requires IsSegment(seg) && MadeFrom(info, Block(t.addr, seg), seg, e)
    ensures Tightest(info.chunks, e.addr % 128, e.size) && e.addr == t.addr - t.addr % 128 + e.addr % 128
  {
    var b, base := Block(t.addr, seg), t.addr - t.addr % 128;
    InItsChunk(Touch(t.lane, t.addr, 1), seg);
    WithinBlock(base, b % 128 + (e.addr - b), 128);
  }

  /** Merged with whatever else its segment is accessed by, an access is covered if and only if the chunk of its
      last byte lies in the tightest block around the chunks that the accesses to the segment start in. */
  lemma IsCoveredIff(touches: seq<Touch>, i: nat, seg: nat, e: Access)
    requires IsSegment(seg) && i < |touches| && 0 < touches[i].size
    requires MadeFrom(Info(touches, Block(touches[i].addr, seg), seg), Block(touches[i].addr, seg), seg, e)
    ensures Tightest(Info(touches, Block(touches[i].addr, seg), seg).chunks, e.addr % 128, e.size)
    ensures Covers(e, touches[i]) <==> ChunkWithin(LastChunk(touches[i]), e.addr % 128, e.size)
  {
    var t, off := touches[i], e.addr % 128;
    var info := Info(touches, Block(t.addr, seg), seg);
    assert Chunk(t) in info.chunks && t.lane in info.active by {
      InfoHas(touches, i, seg);
    }
    MadeLiesIn(t, seg, info, e);
    StartsBefore(t, off, e.size);
    EndsInLastChunk(t.addr % 128, t.size, off, e.size);
  }

  lemma StaysInChunkIff(t: Touch)
    requires 0 < t.size
    ensures ChunkWithin(LastChunk(t), 32 * Chunk(t), 32) <==> InChunk(t)
  {
    ChunkOffset(t.addr);
  }

  /** An access on its own is covered if and only if it does not cross a chunk. */
  lemma AloneIsCoveredIff(t: Touch, seg: nat, e: Access)
    requires IsSegment(seg) && 0 < t.size
    requires MadeFrom(Info([t], Block(t.addr, seg), seg), Block(t.addr, seg), seg, e)
    ensures Covers(e, t) <==> InChunk(t)
  {
    IsCoveredIff([t], 0, seg, e);
    assert e.addr % 128 == 32 * Chunk(t) && e.size == 32 by {
      InfoOfOne(t, seg);
      AloneTakesOneChunk(Chunk(t), e.addr % 128, e.size);
    }
    StaysInChunkIff(t);
  }

  /** If not all used chunks are in one half, some access is in the other half. */
  lemma OtherHalfUsed(touches: seq<Touch>, block: nat, seg: nat, off: nat, size: nat, lower: bool) returns (i: nat)
    requires IsSegment(seg) && (forall t :: t in touches ==> InChunk(t)) && size > 32
    requires Tightest(Info(touches, block, seg).chunks, off, size)
    ensures i < |touches| && Block(touches[i].addr, seg) == block
    ensures ChunkWithin(Chunk(touches[i]), if lower then off else off + size / 2, size / 2)
  {
    var chunks := Info(touches, block, seg).chunks;
    var q :| q in chunks && !ChunkWithin(q, if lower then off + size / 2 else off, size / 2);
    assert ChunkWithin(q, off, size);
    i := ChunkFrom(touches, block, seg, q);
  }

  lemma MadeIsJustUsed(touches: seq<Touch>, block: nat, seg: nat, e: Access)
    requires IsSegment(seg) && (forall t :: t in touches ==> InChunk(t))
    requires MadeFrom(Info(touches, block, seg), block, seg, e)
    ensures IsBlock(e.addr, e.size) && JustUsed(touches, e)
  {
    var off := block % 128 + (e.addr - block);
    AlignedBlock(block, off, e.addr, e.size);
    forall l | l in e.active
      ensures exists t :: t in touches && t.lane == l && Covers(e, t)
    {
      var i := LaneFrom(touches, block, seg, l);
      MadeCovers(touches, i, seg, e);
    }
    forall b | b in e.bytes
      ensures exists t :: t in touches && Covers(e, t) && AtOffset(t, b)
    {
      var i := ByteFrom(touches, block, seg, b);
      MadeCovers(touches, i, seg, e);
    }
    if e.size > 32 {
      var i := OtherHalfUsed(touches, block, seg, off, e.size, true);
      InsideWithChunk(touches[i], seg, off, e.size / 2);
      assert touches[i] in touches && Inside(touches[i], e.addr, e.size / 2);
      var j := OtherHalfUsed(touches, block, seg, off, e.size, false);
      InsideWithChunk(touches[j], seg, off + e.size / 2, e.size / 2);
      assert touches[j] in touches && Inside(touches[j], e.addr + e.size / 2, e.size / 2);
    }
  }

  /** The transactions made of all segments, in ascending order. */
  ghost predicate AllMade(touches: seq<Touch>, seg: nat, order: seq<nat>, out: seq<Access>)
    requires IsSegment(seg)
  {
    && |order| == |out|
    && (forall k :: 0 <= k < |order| ==> MadeFrom(Info(touches, order[k], seg), order[k], seg, out[k]))
    && (forall i, j :: 0 <= i < j < |order| ==> order[i] < order[j])
  }

  lemma SegmentsApart(a: nat, b: nat, seg: nat)
    requires IsSegment(seg) && a % seg == 0 && b % seg == 0 && a < b
    ensures a + seg <= b
  {
    if seg == 32 {
    } else if seg == 64 {
    } else {
      assert seg == 128;
    }
  }

  lemma In32(block: nat, addr: nat)
    requires block % 32 == 0 && block <= addr < block + 32
    ensures addr - addr % 32 == block
  {
  }

  lemma In64(block: nat, addr: nat)
    requires block % 64 == 0 && block <= addr < block + 64
    ensures addr - addr % 64 == block
  {
  }

  lemma In128(block: nat, addr: nat)
    requires block % 128 == 0 && block <= addr < block + 128
    ensures addr - addr % 128 == block
  {
  }

  lemma BlockOfPart(block: nat, seg: nat, addr: nat)
    requires IsSegment(seg) && block % seg == 0 && block <= addr < block + seg
    ensures Block(addr, seg) == block
  {
    if seg == 32 {
      In32(block, addr);
    } else if seg == 64 {
      In64(block, addr);
    } else {
      In128(block, addr);
    }
  }

  lemma AllMadeIsOnePerSegment(touches: seq<Touch>, seg: nat, order: seq<nat>, out: seq<Access>)
    requires IsSegment(seg) && AllMade(touches, seg, order, out)
    ensures OnePerSegment(out, seg)
  {
    forall i | 0 <= i < |out|
      ensures Block(out[i].addr, seg) == order[i]
    {
      assert MadeFrom(Info(touches, order[i], seg), order[i], seg, out[i]);
      BlockOfPart(order[i], seg, out[i].addr);
    }
  }

  lemma AllMadeIsCoalesced(touches: seq<Touch>, seg: nat, order: seq<nat>, out: seq<Access>)
    requires IsSegment(seg) && (forall t :: t in touches ==> InChunk(t)) && AllMade(touches, seg, order, out)
    requires forall b :: b in Blocks(touches, seg) ==> b in order
    ensures Coalesced(touches, out) && OnePerSegment(out, seg)
  {
    AllMadeIsOnePerSegment(touches, seg, order, out);
    forall t | t in touches
      ensures exists e :: e in out && Covers(e, t) && Offsets(t) <= e.bytes
    {
      var i :| 0 <= i < |touches| && touches[i] == t;
      InfoHas(touches, i, seg);
      var k :| 0 <= k < |order| && order[k] == Block(t.addr, seg);
      MadeCovers(touches, i, seg, out[k]);
    }
    forall e | e in out
      ensures IsBlock(e.addr, e.size) && JustUsed(touches, e)
    {
      var k :| 0 <= k < |out| && out[k] == e;
      MadeIsJustUsed(touches, order[k], seg, e);
    }
    forall i, j | 0 <= i < j < |out|
      ensures out[i].addr + out[i].size <= out[j].addr
    {
      SegmentsApart(order[i], order[j], seg);
    }
  }

  /** All used chunks of a segment lie in it. */
  lemma InfoInSegment(touches: seq<Touch>, block: nat, seg: nat)
    requires IsSegment(seg) && (forall t :: t in touches ==> InChunk(t)) && block in Blocks(touches, seg)
    ensures block % seg == 0 && block % 128 + seg <= 128
    ensures InSegment(Info(touches, block, seg).chunks, block % 128, seg)
  {
    var chunks := Info(touches, block, seg).chunks;
    var i := BlockFrom(touches, block, seg);
    InfoHas(touches, i, seg);
    InItsChunk(touches[i], seg);
    forall q | q in chunks
      ensures ChunkWithin(q, block % 128, seg)
    {
      var j := ChunkFrom(touches, block, seg, q);
      InItsChunk(touches[j], seg);
    }
  }

  lemma GroupedWithOneMore(m: map<nat, Transaction>, touches: seq<Touch>, t: Touch, seg: nat)
    requires IsSegment(seg) && Grouped(m, touches, seg)
    ensures var b := Block(t.addr, seg);
      Grouped(m[b := Extended(if b in m then m[b] else EMPTY, t)], touches + [t], seg)
  {
    var b := Block(t.addr, seg);
    assert (touches + [t])[..|touches|] == touches;
    if b !in m {
      NoInfoElsewhere(touches, b, seg);
    }
  }
}
