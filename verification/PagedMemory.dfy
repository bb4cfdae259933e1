/** The functional memory: a table of zero-filled pages that behaves like a flat array of bytes. */
module PagedMemory {
  import opened Bits
  import opened Options

  type Byte = b: int | 0 <= b < 256

  const SPACE: nat := 0x1_0000_0000

  /** One page of memory. */
  class MemStorage {
    const data: array<Byte>

    constructor (size: nat)
      ensures fresh(data) && data[..] == Zeros(size)
    {
      data := new Byte[size](_ => 0);
    }

    method Write(offset: nat, bytes: seq<Byte>)
      requires offset + |bytes| <= data.Length
      modifies data
      ensures data[..] == Spliced(old(data[..]), offset, bytes)
    {
      var n := 0;
      while n < |bytes|
        invariant n <= |bytes| && data[..] == Spliced(old(data[..]), offset, bytes[..n])
      {
        SplicedOneMore(old(data[..]), offset, bytes, n);
        data[offset + n] := bytes[n];
        n := n + 1;
      }
      assert bytes[..n] == bytes;
    }

    method Read(offset: nat, length: nat) returns (bytes: seq<Byte>)
      requires offset + length <= data.Length
      ensures bytes == data[offset..offset + length]
    {
      bytes := data[offset..offset + length];
    }
  }

  function Zeros(n: nat): seq<Byte> {
    seq(n, _ => 0)
  }

  function Spliced(page: seq<Byte>, offset: nat, bytes: seq<Byte>): seq<Byte>
    requires offset + |bytes| <= |page|
  {
    page[..offset] + bytes + page[offset + |bytes|..]
  }

  lemma SplicedOneMore(page: seq<Byte>, offset: nat, bytes: seq<Byte>, n: nat)
    requires offset + |bytes| <= |page| && n < |bytes|
    ensures Spliced(page, offset, bytes[..n])[offset + n := bytes[n]] == Spliced(page, offset, bytes[..n + 1])
  {
  }

  // ----- addresses: page and offset -----

  function Page(a: nat, log2: nat): nat {
    ShiftRight(a, log2)
  }

  function Offset(a: nat, log2: nat): (o: nat)
    ensures o < Pow2(log2)
  {
    Recombined(a, log2);
    LowBits(a, log2)
  }

  /** The first address after a block, computed in 32 bits: 0 for the last block. */
  function BlockEnd(block: nat, log2: nat): nat {
    (block + 1) * Pow2(log2) % SPACE
  }

  lemma InPage(a: nat, log2: nat)
    ensures a == Page(a, log2) * Pow2(log2) + Offset(a, log2)
  {
    Recombined(a, log2);
  }

  /** Adding to the offset stays in the page as long as the page has room. */
  lemma SamePage(a: nat, k: nat, log2: nat)
    requires Offset(a, log2) + k < Pow2(log2)
    ensures Page(a + k, log2) == Page(a, log2) && Offset(a + k, log2) == Offset(a, log2) + k
  {
    InPage(a, log2);
    Stitched(Page(a, log2), Offset(a, log2) + k, log2);
  }

  /** What lies in the page of `a`, relative to `a`. */
  lemma PageBounds(a: nat, b: nat, log2: nat)
    ensures Page(b, log2) == Page(a, log2) <==>
      a - Offset(a, log2) <= b < a - Offset(a, log2) + Pow2(log2)
    ensures Page(b, log2) == Page(a, log2) ==> Offset(b, log2) - Offset(a, log2) == b - a
  {
    InPage(a, log2);
    InPage(b, log2);
    var p, q, size := Page(a, log2), Page(b, log2), Pow2(log2);
    if p < q {
      MulMono(p + 1, q, size);
      MulSuccessor(p, size);
    } else if q < p {
      MulMono(q + 1, p, size);
      MulSuccessor(q, size);
    }
  }

  /** A route taken for accesses within a page is taken only for those. */
  lemma FastRouteFits(addr: nat, length: nat, log2: nat)
    requires addr < SPACE && Pow2(log2) <= SPACE && addr + length <= BlockEnd(Page(addr, log2), log2)
    ensures Offset(addr, log2) + length <= Pow2(log2)
  {
    InPage(addr, log2);
    var p, size := Page(addr, log2), Pow2(log2);
    MulSuccessor(p, size);
    var e := (p + 1) * size;
    assert e % SPACE <= e;
  }

  // ----- pages as one array of bytes -----

  type Image = map<nat, seq<Byte>>

  ghost predicate PagesFull(image: Image, log2: nat) {
    forall p :: p in image ==> |image[p]| == Pow2(log2)
  }

  /** The byte at an address; pages that were never written are zero. */
  ghost function ByteAt(image: Image, a: nat, log2: nat): Byte
    requires PagesFull(image, log2)
  {
    if Page(a, log2) in image then image[Page(a, log2)][Offset(a, log2)] else 0
  }

  ghost function PageOf(image: Image, p: nat, log2: nat): seq<Byte> {
    if p in image then image[p] else Zeros(Pow2(log2))
  }

  /** How far an address lies behind a start address, around the end of the address space. */
  function Distance(start: nat, a: nat): nat
    requires start < SPACE && a < SPACE
  {
    if start <= a then a - start else a + SPACE - start
  }

  type Flat = nat -> Byte

  function Overwritten(flat: Flat, start: nat, bytes: seq<Byte>): Flat
    requires start < SPACE
  {
    (a: nat) => if a < SPACE && Distance(start, a) < |bytes| then bytes[Distance(start, a)] else flat(a)
  }

  ghost predicate Represents(image: Image, flat: Flat, log2: nat) {
    PagesFull(image, log2) && forall a :: 0 <= a < SPACE ==> ByteAt(image, a, log2) == flat(a)
  }

  /** Splicing bytes into one page overwrites them in the flat array and changes nothing else. */
  lemma SplicedPage(image: Image, flat: Flat, a: nat, bytes: seq<Byte>, log2: nat)
    requires Represents(image, flat, log2) && a + |bytes| <= SPACE && a < SPACE
    requires Offset(a, log2) + |bytes| <= Pow2(log2)
    ensures var p := Page(a, log2);
      Represents(image[p := Spliced(PageOf(image, p, log2), Offset(a, log2), bytes)], Overwritten(flat, a, bytes), log2)
  {
    var p := Page(a, log2);
    var image' := image[p := Spliced(PageOf(image, p, log2), Offset(a, log2), bytes)];
    forall b | 0 <= b < SPACE
      ensures ByteAt(image', b, log2) == Overwritten(flat, a, bytes)(b)
    {
      PageBounds(a, b, log2);
      assert ByteAt(image, b, log2) == flat(b);
    }
  }

  function Wrapped(a: nat): (w: nat)
    requires a < 2 * SPACE
    ensures w < SPACE && w == a % SPACE
  {
    if a < SPACE then a else a - SPACE
  }

  /** Writing on where a piece ended is the same as writing both pieces at once. */
  lemma OverwrittenOn(flat: Flat, start: nat, first: seq<Byte>, second: seq<Byte>, b: nat)
    requires start < SPACE && |first| + |second| <= SPACE && b < SPACE
    ensures Overwritten(Overwritten(flat, start, first), Wrapped(start + |first|), second)(b)
         == Overwritten(flat, start, first + second)(b)
  {
    var d := Distance(start, b);
    assert Distance(Wrapped(start + |first|), b) == if d < |first| then d - |first| + SPACE else d - |first|;
    if d < |first| {
      assert (first + second)[d] == first[d];
    } else if d < |first| + |second| {
      assert (first + second)[d] == second[d - |first|];
    }
  }

  // ----- sequences of writes -----

  datatype WriteOp = WriteOp(addr: nat, bytes: seq<Byte>)

  predicate InSpace(w: WriteOp) {
    w.addr < SPACE
  }

  predicate Hits(w: WriteOp, a: nat)
    requires InSpace(w) && a < SPACE
  {
    Distance(w.addr, a) < |w.bytes|
  }

  ghost predicate AllInSpace(writes: seq<WriteOp>) {
    forall i :: 0 <= i < |writes| ==> InSpace(writes[i])
  }

  function AfterWrites(writes: seq<WriteOp>): Flat
    requires AllInSpace(writes)
  {
    if writes == [] then (a: nat) => 0
    else
      var w := writes[|writes| - 1];
      assert InSpace(w);
      Overwritten(AfterWrites(writes[..|writes| - 1]), w.addr, w.bytes)
  }

  lemma AfterOneMore(writes: seq<WriteOp>, w: WriteOp)
    requires AllInSpace(writes) && InSpace(w)
    ensures AllInSpace(writes + [w]) && AfterWrites(writes + [w]) == Overwritten(AfterWrites(writes), w.addr, w.bytes)
  {
    assert (writes + [w])[..|writes|] == writes;
  }

  /** The last of the writes to an address is the i-th one; -1 means that there is none. */
  ghost predicate IsLastHit(writes: seq<WriteOp>, i: int, a: nat)
    requires AllInSpace(writes) && a < SPACE
  {
    -1 <= i < |writes| && (0 <= i ==> Hits(writes[i], a)) && forall j :: i < j < |writes| ==> !Hits(writes[j], a)
  }

  ghost function ByteWritten(writes: seq<WriteOp>, i: int, a: nat): Byte
    requires AllInSpace(writes) && a < SPACE && IsLastHit(writes, i, a)
  {
    if i == -1 then 0 else writes[i].bytes[Distance(writes[i].addr, a)]
  }

  /** A byte is the one last written to its address, or zero if none was. */
  lemma {:induction false} LastWriteWins(writes: seq<WriteOp>, i: int, a: nat)
    requires AllInSpace(writes) && a < SPACE && IsLastHit(writes, i, a)
    ensures AfterWrites(writes)(a) == ByteWritten(writes, i, a)
  {
    if i < |writes| - 1 {
      assert !Hits(writes[|writes| - 1], a);
      LastWriteWins(writes[..|writes| - 1], i, a);
    }
  }

  /** The bytes at an address and those that follow it, in the flat array. */
  ghost function Bytes(flat: Flat, addr: nat, length: nat): seq<Byte> {
    seq(length, i requires 0 <= i => flat(addr + i))
  }

  lemma SameFlat(image: Image, f: Flat, g: Flat, log2: nat)
    requires Represents(image, f, log2) && forall b :: 0 <= b < SPACE ==> f(b) == g(b)
    ensures Represents(image, g, log2)
  {
  }

  /** One more piece has been written. */
  lemma PieceWritten(
    image: Image, flat: Flat, start: nat, first: seq<Byte>, second: seq<Byte>, cur: nat, log2: nat)
    requires start < SPACE && |first| + |second| <= SPACE && cur == Wrapped(start + |first|) && cur + |second| <= SPACE
    requires Represents(image, Overwritten(flat, start, first), log2) && Offset(cur, log2) + |second| <= Pow2(log2)
    ensures var p := Page(cur, log2);
      Represents(image[p := Spliced(PageOf(image, p, log2), Offset(cur, log2), second)],
                 Overwritten(flat, start, first + second), log2)
  {
    SplicedPage(image, Overwritten(flat, start, first), cur, second, log2);
    forall b | 0 <= b < SPACE
      ensures Overwritten(Overwritten(flat, start, first), cur, second)(b) ==
        Overwritten(flat, start, first + second)(b)
    {
      OverwrittenOn(flat, start, first, second, b);
    }
  }

  /** A piece that stays in a page stays in the address space, whose size is a number of pages. */
  lemma PieceFits(a: nat, n: nat, log2: nat)
    requires a < SPACE && Pow2(log2) <= SPACE && Offset(a, log2) + n <= Pow2(log2)
    ensures a + n <= SPACE && SPACE % Pow2(log2) == 0
  {
    PagesFill(log2);
    InPage(a, log2);
    var size := Pow2(log2);
    var k := SPACE / size;
    assert SPACE == k * size;
    PageBelow(Page(a, log2), Offset(a, log2), k, size);
  }

  lemma PageBelow(p: nat, o: nat, k: nat, size: nat)
    requires p * size + o < k * size && o < size
    ensures p * size + size <= k * size
  {
    if p >= k {
      MulMono(k, p, size);
    } else {
      MulMono(p + 1, k, size);
      MulSuccessor(p, size);
    }
  }

  lemma PagesFill(log2: nat)
    requires Pow2(log2) <= SPACE
    ensures SPACE % Pow2(log2) == 0
  {
    Pow2Of32();
    if log2 > 32 {
      Pow2Grows(33, log2);
    } else {
      Pow2Sum(32 - log2, log2);
      var k, size := Pow2(32 - log2), Pow2(log2);
      assert SPACE == k * size;
      MultipleModulo(k, size);
    }
  }

  lemma MultipleModulo(k: nat, n: nat)
    requires 0 < n
    ensures (k * n) % n == 0
  {
    QuotientIs(k * n, k, 0, n);
  }

  /** The end of a page: pages do not straddle the end of the address space, where the 32-bit end wraps to 0. */
  lemma PageEndIs(a: nat, log2: nat)
    requires a < SPACE && Pow2(log2) <= SPACE
    ensures var size, e := Pow2(log2), a - Offset(a, log2) + Pow2(log2);
      && a < e <= SPACE && (e < SPACE ==> e + size <= SPACE)
      && BlockEnd(Page(a, log2), log2) == if e == SPACE then 0 else e
  {
    var size, o := Pow2(log2), Offset(a, log2);
    InPage(a, log2);
    MulSuccessor(Page(a, log2), size);
    PieceFits(a, size - o, log2);
    var e := a - o + size;
    assert e == (Page(a, log2) + 1) * size;
    if e < SPACE {
      SmallModulo(e, SPACE);
      Stitched(Page(a, log2) + 1, 0, log2);
      PieceFits(e, size, log2);
    }
  }

  /** The bytes of a page are those of the flat array. */
  lemma BytesOfPage(image: Image, flat: Flat, a: nat, n: nat, log2: nat)
    requires Represents(image, flat, log2) && a + n <= SPACE && Offset(a, log2) + n <= Pow2(log2)
    ensures var o := Offset(a, log2);
      && |PageOf(image, Page(a, log2), log2)| == Pow2(log2)
      && PageOf(image, Page(a, log2), log2)[o..o + n] == Bytes(flat, a, n)
  {
    var o, page, bytes := Offset(a, log2), PageOf(image, Page(a, log2), log2), Bytes(flat, a, n);
    forall k | 0 <= k < |bytes|
      ensures page[o..o + n][k] == bytes[k]
    {
      SamePage(a, k, log2);
      assert ByteAt(image, a + k, log2) == flat(a + k);
    }
    assert page[o..o + n] == bytes;
  }

  lemma BytesOn(flat: Flat, a: nat, m: nat, n: nat)
    ensures Bytes(flat, a, m) + Bytes(flat, a + m, n) == Bytes(flat, a, m + n)
  {
  }

  lemma UpdateTwice(image: Image, p: nat, x: seq<Byte>, y: seq<Byte>)
    ensures image[p := x][p := y] == image[p := y]
  {
  }

  class MemorySpace {
    const log2: nat
    var pages: map<nat, MemStorage>
    /** The writes so far, and the flat array of bytes that they make up. */
    ghost var writes: seq<WriteOp>
    ghost var flat: Flat
    ghost var buffers: set<array<Byte>>

    /** Each page has its own buffer. */
    ghost predicate Separate()
      reads this
    {
      && (forall p :: p in pages ==> pages[p].data in buffers)
      && forall p, q :: p in pages && q in pages && p != q ==> pages[p].data != pages[q].data
    }

    ghost function Contents(): Image
      reads this, set p | p in pages :: pages[p].data
    {
      map p | p in pages :: pages[p].data[..]
    }

    /** The pages represent a flat array of bytes. */
    ghost predicate Valid()
      reads this, buffers, set p | p in pages :: pages[p].data
    {
      && Separate() && Pow2(log2) <= SPACE && Represents(Contents(), flat, log2)
      && AllInSpace(writes) && flat == AfterWrites(writes)
    }

    constructor (log2: nat)
      requires Pow2(log2) <= SPACE
      ensures Valid() && this.log2 == log2 && writes == []
    {
      this.log2 := log2;
      pages := map[];
      writes, flat := [], AfterWrites([]);
      buffers := {};
    }

    /** Makes sure that a page exists. */
    method TouchPage(p: nat)
      requires Separate()
      modifies this`pages, this`buffers
      ensures Separate() && p in pages && fresh(buffers - old(buffers))
      ensures Contents() == old(Contents())[p := PageOf(old(Contents()), p, log2)]
    {
      if p !in pages {
        var page := new MemStorage(Pow2(log2));
        pages, buffers := pages[p := page], buffers + {page.data};
      }
    }

    method SplicePage(p: nat, offset: nat, bytes: seq<Byte>)
      requires Separate() && p in pages && offset + |bytes| <= pages[p].data.Length
      modifies pages[p].data
      ensures Separate() && Contents() == old(Contents())[p := Spliced(old(Contents())[p], offset, bytes)]
    {
      pages[p].Write(offset, bytes);
    }

    /** Writes into one page, which is created if need be. */
    method WritePage(p: nat, offset: nat, bytes: seq<Byte>)
      requires Separate() && PagesFull(Contents(), log2) && offset + |bytes| <= Pow2(log2)
      modifies this`pages, this`buffers, buffers
      ensures Separate() && fresh(buffers - old(buffers))
      ensures Contents() == old(Contents())[p := Spliced(PageOf(old(Contents()), p, log2), offset, bytes)]
    {
      ghost var before := Contents();
      TouchPage(p);
      ghost var page := PageOf(before, p, log2);
      assert Contents()[p] == page && |page| == Pow2(log2);
      SplicePage(p, offset, bytes);
      UpdateTwice(before, p, page, Spliced(page, offset, bytes));
    }

    /** Writes the part of the data that goes into the page of the current address. */
    method WritePiece(addr: nat, data: seq<Byte>, src: nat, cur: nat) returns (tx: nat)
      requires addr < SPACE && |data| <= SPACE && src < |data| && cur == Wrapped(addr + src) && Pow2(log2) <= SPACE
      requires Separate() && Represents(Contents(), Overwritten(flat, addr, data[..src]), log2)
      modifies this`pages, this`buffers, buffers
      ensures Separate() && fresh(buffers - old(buffers))
      ensures 0 < tx && src + tx <= |data| && Wrapped(cur + tx) == Wrapped(addr + (src + tx))
      ensures Represents(Contents(), Overwritten(flat, addr, data[..src + tx]), log2)
    {
      var offset := Offset(cur, log2);
      var accessLimit := offset + (|data| - src);
      if accessLimit > Pow2(log2) {
        accessLimit := Pow2(log2);
      }
      tx := accessLimit - offset;
      var piece := data[src..src + tx];
      PieceFits(cur, tx, log2);
      PieceWritten(Contents(), flat, addr, data[..src], piece, cur, log2);
      assert data[..src] + piece == data[..src + tx];
      WritePage(Page(cur, log2), offset, piece);
    }

    method WriteAcross(addr: nat, data: seq<Byte>)
      requires addr < SPACE && |data| + Pow2(log2) <= SPACE
      requires Separate() && Represents(Contents(), flat, log2)
      modifies this`pages, this`buffers, buffers
      ensures Separate() && fresh(buffers - old(buffers)) && Represents(Contents(), Overwritten(flat, addr, data), log2)
    {
      var remain: nat, src: nat, cur: nat := |data|, 0, addr;
      SameFlat(Contents(), flat, Overwritten(flat, addr, data[..0]), log2);
      while remain > 0
        invariant src + remain == |data| && cur == Wrapped(addr + src)
        invariant Separate() && fresh(buffers - old(buffers))
        invariant Represents(Contents(), Overwritten(flat, addr, data[..src]), log2)
        decreases remain
      {
        var tx := WritePiece(addr, data, src, cur);
        src, cur, remain := src + tx, Wrapped(cur + tx), remain - tx;
      }
      assert data[..src] == data;
    }

    /** Writes within a page or, piece by piece, across pages; beyond the last address it goes on at 0. */
    method WriteBytes(addr: nat, data: seq<Byte>)
      requires addr < SPACE && |data| + Pow2(log2) <= SPACE
      requires Separate() && Represents(Contents(), flat, log2)
      modifies this`pages, this`buffers, buffers
      ensures Separate() && fresh(buffers - old(buffers)) && Represents(Contents(), Overwritten(flat, addr, data), log2)
    {
      var index := Page(addr, log2);
      if addr + |data| <= BlockEnd(index, log2) {
        FastRouteFits(addr, |data|, log2);
        PieceFits(addr, |data|, log2);
        SplicedPage(Contents(), flat, addr, data, log2);
        WritePage(index, Offset(addr, log2), data);
      } else {
        WriteAcross(addr, data);
      }
    }

    method Write(addr: nat, data: seq<Byte>)
      requires Valid() && addr < SPACE && |data| + Pow2(log2) <= SPACE
      modifies this, buffers
      ensures Valid() && fresh(buffers - old(buffers))
      ensures writes == old(writes) + [WriteOp(addr, data)] && flat == Overwritten(old(flat), addr, data)
    {
      WriteBytes(addr, data);
      AfterOneMore(writes, WriteOp(addr, data));
      flat, writes := Overwritten(flat, addr, data), writes + [WriteOp(addr, data)];
    }

    /** Reads from the page of an address, or fails when the access seems to leave the block. */
    method ReadSingleBlock(block: nat, addr: nat, length: nat) returns (r: Option<seq<Byte>>)
      requires Valid() && addr < SPACE && block == Page(addr, log2)
      ensures r == if addr + length > BlockEnd(block, log2) then None else Some(Bytes(flat, addr, length))
    {
      if addr + length > BlockEnd(block, log2) {
        return None;
      }
      FastRouteFits(addr, length, log2);
      BytesOfPage(Contents(), flat, addr, length, log2);
      if block !in pages {
        var zeros := Zeros(length);
        assert zeros == Zeros(Pow2(log2))[Offset(addr, log2)..Offset(addr, log2) + length];
        return Some(zeros);
      }
      assert pages[block].data[..] == Contents()[block];
      var bytes := pages[block].Read(Offset(addr, log2), length);
      return Some(bytes);
    }

    /** Reads the next piece of an access, up to the end of the page; it fails exactly in the last page. */
    method ReadPiece(cur: nat, remain: nat) returns (r: Option<seq<Byte>>, tx: nat)
      requires Valid() && cur < SPACE && 0 < remain
      ensures 0 < tx <= remain && (r.None? <==> cur + Pow2(log2) >= SPACE)
      ensures r.Some? ==> cur + tx + Pow2(log2) <= SPACE && r.value == Bytes(flat, cur, tx)
    {
      var offset := Offset(cur, log2);
      var accessLimit := offset + remain;
      if accessLimit > Pow2(log2) {
        accessLimit := Pow2(log2);
      }
      tx := accessLimit - offset;
      PieceFits(cur, tx, log2);
      PageEndIs(cur, log2);
      r := ReadSingleBlock(Page(cur, log2), cur, tx);
    }

    /** Appends the next piece to what has been read. */
    method ReadOn(addr: nat, data: seq<Byte>, remain: nat) returns (r: Option<seq<Byte>>)
      requires Valid() && addr + |data| < SPACE && 0 < remain && data == Bytes(flat, addr, |data|)
      ensures r.None? <==> addr + |data| + Pow2(log2) >= SPACE
      ensures r.Some? ==>
        && |data| < |r.value| <= |data| + remain && addr + |r.value| + Pow2(log2) <= SPACE
        && r.value == Bytes(flat, addr, |r.value|)
    {
      var piece, tx := ReadPiece(addr + |data|, remain);
      if piece.None? {
        return None;
      }
      BytesOn(flat, addr, |data|, tx);
      r := Some(data + piece.value);
    }

    method ReadAcross(addr: nat, length: nat) returns (r: Option<seq<Byte>>)
      requires Valid() && addr < SPACE && length + Pow2(log2) <= SPACE
      ensures r == if 0 < length && addr + length + Pow2(log2) > SPACE then None else Some(Bytes(flat, addr, length))
    {
      var remain: nat, data: seq<Byte> := length, [];
      while remain > 0
        invariant |data| + remain == length && data == Bytes(flat, addr, |data|)
        invariant data != [] ==> addr + |data| + Pow2(log2) <= SPACE
        decreases remain
      {
        var more := ReadOn(addr, data, remain);
        if more.None? {
          return None;
        }
        data, remain := more.value, length - |more.value|;
      }
      r := Some(data);
    }

    /** Reads within a page or, piece by piece, across pages. A read that touches the last page of the address
        space fails, and no other read does; what it returns are the bytes of the flat array, each of which was
        the last one written to its address. */
    method Read(addr: nat, length: nat) returns (r: Option<seq<Byte>>)
      requires Valid() && addr < SPACE && length + Pow2(log2) <= SPACE
      ensures r == if 0 < length && addr + length + Pow2(log2) > SPACE then None else Some(Bytes(flat, addr, length))
      ensures r.Some? ==> forall a, i :: addr <= a < addr + length && IsLastHit(writes, i, a) ==>
        r.value[a - addr] == ByteWritten(writes, i, a)
    {
      var index := Page(addr, log2);
      PageEndIs(addr, log2);
      if addr + length <= BlockEnd(index, log2) {
        r := ReadSingleBlock(index, addr, length);
      } else {
        r := ReadAcross(addr, length);
      }
      forall a, i | r.Some? && addr <= a < addr + length && IsLastHit(writes, i, a)
        ensures flat(a) == ByteWritten(writes, i, a)
      {
        LastWriteWins(writes, i, a);
      }
    }
  }
}
