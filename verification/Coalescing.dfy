/** Coalescing: how a warp's global and local memory accesses are merged into transactions. */
module Coalescing {
  import opened AtomicSlots
  import opened Bits
  import opened Transactions

  method Smallest(s: set<nat>) returns (x: nat)
    requires s != {}
    ensures x in s && forall y :: y in s ==> x <= y
  {
    x :| x in s;
    var rest := s - {x};
    while rest != {}
      invariant x in s && rest <= s && forall y :: y in s && y !in rest ==> x <= y
      decreases rest
    {
      var y :| y in rest;
      if y < x {
        x := y;
      }
      rest := rest - {y};
    }
  }

  /** Marks the bytes of one access. */
  method WithBytes(bytes: set<nat>, t: Touch) returns (r: set<nat>)
    requires t.addr % 128 + t.size <= 128
    ensures r == bytes + Offsets(t)
  {
    r := bytes;
    var idx, i := t.addr % 128, 0;
    while i < t.size
      invariant i <= t.size && forall k :: k in r <==> k in bytes || idx <= k < idx + i
    {
      r := r + {idx + i};
      i := i + 1;
    }
  }

  /** Merges one access into the transaction of its segment. */
  method WithTouch(m: map<nat, Transaction>, ghost touches: seq<Touch>, t: Touch, seg: nat)
    returns (r: map<nat, Transaction>)
    requires IsSegment(seg) && InChunk(t) && Grouped(m, touches, seg)
    ensures Grouped(r, touches + [t], seg)
  {
    InItsChunk(t, seg);
    GroupedWithOneMore(m, touches, t, seg);
    var blockAddress, chunk := Block(t.addr, seg), t.addr % 128 / 32;
    SameSegment(t, seg);
    assert blockAddress == Block(t.addr + t.size - 1, seg);
    var info := if blockAddress in m then m[blockAddress] else EMPTY;
    var bytes := WithBytes(info.bytes, t);
    r := m[blockAddress := Transaction(info.chunks + {chunk}, bytes, info.active + {t.lane})];
  }

  /** An access within a chunk does not leave its segment. */
  lemma SameSegment(t: Touch, seg: nat)
    requires IsSegment(seg) && InChunk(t)
    ensures Block(t.addr + t.size - 1, seg) == Block(t.addr, seg) && t.addr % 128 + t.size <= 128
  {
    var m := t.addr % 128;
    assert m % 32 + t.size <= 32 by {
      WithinBlock(t.addr - m, m, 32);
    }
    assert m + t.size <= 128 by {
      OffsetInItsChunk(m, t.size, seg);
    }
    SameSegmentAt(t.addr - m, m, t.size, seg);
  }

  lemma SameSegmentAt(base: nat, m: nat, size: nat, seg: nat)
    requires base % 128 == 0 && IsSegment(seg) && m < 128 && 0 < size && m % 32 + size <= 32
    ensures Block(base + m + size - 1, seg) == Block(base + m, seg)
  {
    WithinBlock(base, m, seg);
    WithinBlock(base, m + size - 1, seg);
    SmallStep(m, size, seg);
  }

  lemma SmallStep(m: nat, size: nat, seg: nat)
    requires IsSegment(seg) && m < 128 && 0 < size && m % 32 + size <= 32
    ensures m + size - 1 - (m + size - 1) % seg == m - m % seg
  {
    if seg == 32 {
    } else if seg == 64 {
    } else {
      assert seg == 128;
    }
  }

  /** Whether a byte in [start, end] is marked. */
  method TestBytes(bytes: set<nat>, start: nat, end: nat) returns (r: bool)
    ensures r <==> exists i :: start <= i <= end && i in bytes
  {
    var i := start;
    while i <= end
      invariant start <= i && forall k :: start <= k < i ==> k !in bytes
    {
      if i in bytes {
        return true;
      }
      i := i + 1;
    }
    return false;
  }

  /** Finds the first transaction that does not conflict with an access. */
  method FindFree(list: seq<Transaction>, t: Touch) returns (i: nat)
    requires 0 < t.size && t.addr % 128 + t.size <= 128
    ensures i == FirstFree(list, t)
  {
    i := 0;
    while i < |list|
      invariant i <= |list| && forall k :: 0 <= k < i ==> Overlaps(list[k], t)
    {
      var idx := t.addr % 128;
      var conflict := TestBytes(list[i].bytes, idx, idx + t.size - 1);
      TestedIsOverlap(list[i], t);
      if !conflict {
        break;
      }
      i := i + 1;
    }
    FirstFreeIs(list, t, i);
  }

  lemma TestedIsOverlap(info: Transaction, t: Touch)
    requires 0 < t.size && t.addr % 128 + t.size <= 128
    ensures Overlaps(info, t) <==> exists i :: t.addr % 128 <= i <= t.addr % 128 + t.size - 1 && i in info.bytes
  {
    assert forall i: nat :: i in Offsets(t) <==> AtOffset(t, i);
  }

  /** Marks the bytes of an access, none of which is marked already. */
  method WithNewBytes(bytes: set<nat>, t: Touch) returns (r: set<nat>)
    requires t.addr % 128 + t.size <= 128 && bytes !! Offsets(t)
    ensures r == bytes + Offsets(t)
  {
    r := bytes;
    var idx, i := t.addr % 128, 0;
    while i < t.size
      invariant i <= t.size && forall k :: k in r <==> k in bytes || idx <= k < idx + i
    {
      assert idx + i in Offsets(t);
      assert idx + i !in r;
      r := r + {idx + i};
      i := i + 1;
    }
  }

  /** Puts one atomic access into the first transaction of its segment that it does not conflict with. */
  method WithAtomic(m: map<nat, seq<Transaction>>, ghost touches: seq<Touch>, t: Touch, seg: nat)
    returns (r: map<nat, seq<Transaction>>)
    requires IsSegment(seg) && InChunk(t) && Placed(m, touches, seg)
    ensures Placed(r, touches + [t], seg)
  {
    PlacedWithOneMore(m, touches, t, seg);
    SameSegment(t, seg);
    var blockAddress, chunk := Block(t.addr, seg), t.addr % 128 / 32;
    assert blockAddress == Block(t.addr + t.size - 1, seg);
    var list := if blockAddress in m then m[blockAddress] else [];
    var i := FindFree(list, t);
    FreeThere(list, t);
    var info := if i < |list| then list[i] else EMPTY;
    var bytes := WithNewBytes(info.bytes, t);
    var extended := Transaction(info.chunks + {chunk}, bytes, info.active + {t.lane});
    r := m[blockAddress := if i < |list| then list[i := extended] else list + [extended]];
  }

  ghost function Flat(parts: seq<seq<Access>>): seq<Access> {
    if parts == [] then [] else Flat(parts[..|parts| - 1]) + parts[|parts| - 1]
  }

  /** The warp instruction whose accesses are coalesced. */
  class WarpInstruction {
    const warpSize: nat
    const warpParts: nat
    const dataSize: nat
    const isLocal: bool
    const active: set<nat>
    const addrs: seq<seq<nat>>
    var accessq: seq<Access>

    constructor (warpSize: nat, warpParts: nat, dataSize: nat, isLocal: bool, active: set<nat>, addrs: seq<seq<nat>>)
      ensures this.warpSize == warpSize && this.warpParts == warpParts && this.dataSize == dataSize
      ensures this.isLocal == isLocal && this.active == active && this.addrs == addrs && accessq == []
    {
      this.warpSize, this.warpParts, this.dataSize, this.isLocal := warpSize, warpParts, dataSize, isLocal;
      this.active, this.addrs, accessq := active, addrs, [];
    }

    /** As much as 32 lanes access, but no more than 128 bytes. */
    function SegmentSize(): (seg: nat)
      ensures Valid() ==> IsSegment(seg) && seg == if dataSize < 4 then 32 * dataSize else 128
    {
      if dataSize == 1 then 32 else if dataSize == 2 then 64 else 128
    }

    /** Local accesses of more than 4 bytes have been split into pieces of 4. */
    function PieceSize(): nat {
      if isLocal && dataSize >= 4 then 4 else dataSize
    }

    function Pieces(): nat {
      if isLocal && dataSize >= 4 then dataSize / 4 else 1
    }

    ghost predicate Valid()
    {
      && 0 < warpParts && (dataSize == 1 || dataSize == 2 || dataSize == 4 || dataSize == 8 || dataSize == 16)
      && |addrs| == warpSize && forall l :: 0 <= l < warpSize ==> |addrs[l]| == 8
    }

    /** The first n pieces of a lane's access. */
    ghost function LaneTouches(lane: nat, n: nat): seq<Touch>
      requires Valid() && lane < warpSize && n <= Pieces()
    {
      if n == 0 then [] else LaneTouches(lane, n - 1) + [Touch(lane, addrs[lane][n - 1], PieceSize())]
    }

    /** What the active lanes in [first, end) access, in order. */
    ghost function Touches(first: nat, end: nat): seq<Touch>
      requires Valid() && end <= warpSize
    {
      if end <= first then []
      else Touches(first, end - 1) + if end - 1 in active then LaneTouches(end - 1, Pieces()) else []
    }

    /** The pieces make up the access. */
    lemma PiecesMakeUpAccess()
      requires Valid()
      ensures Pieces() * PieceSize() == dataSize && (isLocal ==> PieceSize() <= 4) && (!isLocal ==> Pieces() == 1)
    {
    }

    lemma {:induction false} LaneTouchesAre(lane: nat, n: nat, t: Touch)
      requires Valid() && lane < warpSize && n <= Pieces()
      ensures t in LaneTouches(lane, n) <==>
        t.lane == lane && t.size == PieceSize() && exists a :: 0 <= a < n && addrs[lane][a] == t.addr
    {
      if n > 0 {
        LaneTouchesAre(lane, n - 1, t);
      }
    }

    /** What is coalesced are the pieces of the active lanes, and nothing else. */
    lemma {:induction false} TouchesAre(first: nat, end: nat, t: Touch)
      requires Valid() && end <= warpSize
      ensures t in Touches(first, end) <==>
        && first <= t.lane < end && t.lane in active && t.size == PieceSize()
        && exists a :: 0 <= a < Pieces() && addrs[t.lane][a] == t.addr
    {
      if end > first {
        TouchesAre(first, end - 1, t);
        LaneTouchesAre(end - 1, Pieces(), t);
      }
    }

    /** No piece of an active lane crosses a chunk. */
    ghost predicate Aligned()
      requires Valid()
    {
      forall l, a :: 0 <= l < warpSize && l in active && 0 <= a < Pieces() ==>
        InChunk(Touch(l, addrs[l][a], PieceSize())) && addrs[l][a] + PieceSize() <= 0x1_0000_0000
    }

    lemma {:induction false} LaneTouchesAreInChunks(lane: nat, n: nat)
      requires Valid() && Aligned() && lane < warpSize && lane in active && n <= Pieces()
      ensures forall t :: t in LaneTouches(lane, n) ==> InChunk(t)
    {
      if n > 0 {
        LaneTouchesAreInChunks(lane, n - 1);
      }
    }

    lemma {:induction false} TouchesAreInChunks(first: nat, end: nat)
      requires Valid() && Aligned() && end <= warpSize
      ensures forall t :: t in Touches(first, end) ==> InChunk(t)
    {
      if end > first {
        TouchesAreInChunks(first, end - 1);
        if end - 1 in active {
          LaneTouchesAreInChunks(end - 1, Pieces());
        }
      }
    }

    /** Finds all transactions of a subwarp. */
    method CollectSubwarp(first: nat, end: nat) returns (m: map<nat, Transaction>)
      requires Valid() && Aligned() && first <= end <= warpSize
      ensures Grouped(m, Touches(first, end), SegmentSize())
    {
      m := map[];
      for thread := first to end
        invariant Grouped(m, Touches(first, thread), SegmentSize())
      {
        assert Touches(first, thread) + [] == Touches(first, thread);
        if thread in active {
          m := CollectLane(m, Touches(first, thread), thread);
        }
      }
    }

    method CollectLane(before: map<nat, Transaction>, ghost touches: seq<Touch>, thread: nat)
      returns (m: map<nat, Transaction>)
      requires Valid() && Aligned() && thread < warpSize && thread in active && Grouped(before, touches, SegmentSize())
      ensures Grouped(m, touches + LaneTouches(thread, Pieces()), SegmentSize())
    {
      m := before;
      assert touches + LaneTouches(thread, 0) == touches;
      for access := 0 to Pieces()
        invariant Grouped(m, touches + LaneTouches(thread, access), SegmentSize())
      {
        var t := Touch(thread, addrs[thread][access], PieceSize());
        m := WithTouch(m, touches + LaneTouches(thread, access), t, SegmentSize());
        assert touches + LaneTouches(thread, access) + [t] == touches + (LaneTouches(thread, access) + [t]);
      }
    }

    /** Sends a transaction, reduced to the tightest aligned block. */
    method ReduceAndSend(info: Transaction, block: nat) returns (e: Access)
      requires Valid() && block % SegmentSize() == 0 && block % 128 + SegmentSize() <= 128
      requires InSegment(info.chunks, block % 128, SegmentSize())
      modifies this`accessq
      ensures accessq == old(accessq) + [e] && MadeFrom(info, block, SegmentSize(), e)
    {
      var addr, size := Reduce(info.chunks, block, SegmentSize());
      e := Access(addr, size, info.active, info.bytes);
      accessq := accessq + [e];
    }

    /** Sends the reduced transactions of a subwarp, in the order of their addresses. */
    method SendSubwarp(m: map<nat, Transaction>, ghost touches: seq<Touch>) returns (ghost out: seq<Access>)
      requires Valid() && Grouped(m, touches, SegmentSize()) && forall t :: t in touches ==> InChunk(t)
      modifies this`accessq
      ensures accessq == old(accessq) + out && Coalesced(touches, out) && OnePerSegment(out, SegmentSize())
    {
      var seg, todo := SegmentSize(), m.Keys;
      ghost var order: seq<nat> := [];
      out := [];
      while todo != {}
        invariant todo <= m.Keys && accessq == old(accessq) + out && AllMade(touches, seg, order, out)
        invariant forall b :: b in m.Keys - todo ==> b in order
        invariant forall k, b :: 0 <= k < |order| && b in todo ==> order[k] < b
        decreases todo
      {
        var block := Smallest(todo);
        InfoInSegment(touches, block, seg);
        var e := ReduceAndSend(m[block], block);
        out, order := out + [e], order + [block];
        todo := todo - {block};
      }
      AllMadeIsCoalesced(touches, seg, order, out);
    }

    lemma OneTouch(lane: nat)
      requires Valid() && Aligned() && !isLocal && lane < warpSize && lane in active
      ensures var t := Touch(lane, addrs[lane][0], dataSize); LaneTouches(lane, Pieces()) == [t] && InChunk(t)
    {
      assert LaneTouches(lane, 0) == [];
    }

    method CollectAtomic(before: map<nat, seq<Transaction>>, ghost touches: seq<Touch>, thread: nat)
      returns (m: map<nat, seq<Transaction>>)
      requires Valid() && Aligned() && !isLocal && thread < warpSize && Placed(before, touches, SegmentSize())
      ensures Placed(m, touches + if thread in active then LaneTouches(thread, Pieces()) else [], SegmentSize())
    {
      m := before;
      assert touches + [] == touches;
      if thread in active {
        OneTouch(thread);
        m := WithAtomic(m, touches, Touch(thread, addrs[thread][0], dataSize), SegmentSize());
      }
    }

    /** Finds all transactions of a subwarp's atomic accesses. */
    method CollectAtomics(first: nat, end: nat) returns (m: map<nat, seq<Transaction>>)
      requires Valid() && Aligned() && !isLocal && first <= end <= warpSize
      ensures Placed(m, Touches(first, end), SegmentSize())
    {
      m := map[];
      for thread := first to end
        invariant Placed(m, Touches(first, thread), SegmentSize())
      {
        m := CollectAtomic(m, Touches(first, thread), thread);
      }
    }

    /** Sends the transactions of one segment, in order. */
    method SendList(list: seq<Transaction>, block: nat, ghost touches: seq<Touch>, ghost order: seq<(nat, nat)>,
                    ghost out: seq<Access>)
      returns (ghost order': seq<(nat, nat)>, ghost out': seq<Access>)
      requires Valid() && (forall t :: t in touches ==> InChunk(t)) && Sent(touches, SegmentSize(), order, out)
      requires list == Infos(Slots(touches, block, SegmentSize()), block, SegmentSize())
      requires forall j :: 0 <= j < |order| ==> order[j].0 < block
      modifies this`accessq
      ensures Sent(touches, SegmentSize(), order', out') && order <= order' && out <= out'
      ensures accessq == old(accessq) + out'[|out|..]
      ensures forall j :: |order| <= j < |order'| ==> order'[j].0 == block
      ensures forall k :: 0 <= k < |list| ==> (block, k) in order'
    {
      order', out' := order, out;
      var k := 0;
      while k < |list|
        invariant k <= |list| && Sent(touches, SegmentSize(), order', out') && order <= order' && out <= out'
        invariant accessq == old(accessq) + out'[|out|..]
        invariant forall j :: |order| <= j < |order'| ==> order'[j].0 == block && order'[j].1 < k
        invariant forall i :: 0 <= i < k ==> (block, i) in order'
      {
        SlotInSegment(touches, block, SegmentSize(), k);
        var e := ReduceAndSend(list[k], block);
        assert SentFor(touches, SegmentSize(), block, k, e);
        order', out' := order' + [(block, k)], out' + [e];
        k := k + 1;
      }
    }

    /** Sends the transactions of a subwarp's atomic accesses. */
    method SendAtomics(m: map<nat, seq<Transaction>>, ghost touches: seq<Touch>)
      returns (ghost order: seq<(nat, nat)>, ghost out: seq<Access>)
      requires Valid() && (forall t :: t in touches ==> InChunk(t)) && Placed(m, touches, SegmentSize())
      modifies this`accessq
      ensures accessq == old(accessq) + out
      ensures Sent(touches, SegmentSize(), order, out) && AllSlotsSent(touches, SegmentSize(), order)
    {
      var todo := m.Keys;
      order, out := [], [];
      while todo != {}
        invariant todo <= m.Keys && accessq == old(accessq) + out && Sent(touches, SegmentSize(), order, out)
        invariant forall j, b :: 0 <= j < |order| && b in todo ==> order[j].0 < b
        invariant forall b, k :: b in m && b !in todo && 0 <= k < |m[b]| ==> (b, k) in order
        decreases todo
      {
        var block := Smallest(todo);
        ghost var before := out;
        order, out := SendList(m[block], block, touches, order, out);
        assert out == before + out[|before|..];
        todo := todo - {block};
      }
    }

    /** Coalesces the atomic accesses of one half of the warp. */
    method CoalesceAtomics(first: nat, end: nat) returns (ghost order: seq<(nat, nat)>, ghost out: seq<Access>)
      requires Valid() && Aligned() && !isLocal && first <= end <= warpSize
      modifies this`accessq
      ensures accessq == old(accessq) + out
      ensures Sent(Touches(first, end), SegmentSize(), order, out)
      ensures AllSlotsSent(Touches(first, end), SegmentSize(), order)
    {
      TouchesAreInChunks(first, end);
      var m := CollectAtomics(first, end);
      order, out := SendAtomics(m, Touches(first, end));
    }

    /** The first lane of a part of the warp. */
    ghost function First(part: nat): nat
      requires 0 < warpParts
    {
      if part == 0 then 0 else First(part - 1) + warpSize / warpParts
    }

    lemma {:induction false} FirstIs(part: nat)
      requires 0 < warpParts
      ensures First(part) == part * (warpSize / warpParts)
    {
      if part > 0 {
        FirstIs(part - 1);
        MulSuccessor(part - 1, warpSize / warpParts);
      }
    }

    /** The parts divide the warp: each lane is in one, when the lanes can be divided evenly. */
    lemma LaneIsInItsPart(lane: nat)
      requires 0 < warpParts && warpSize % warpParts == 0 && lane < warpSize
      ensures var part := lane / (warpSize / warpParts); part < warpParts && First(part) <= lane < First(part + 1)
    {
      var size := warpSize / warpParts;
      assert warpSize == warpParts * size;
      var part := lane / size;
      assert lane == size * part + lane % size;
      FirstIs(part);
      FirstIs(part + 1);
      MulSuccessor(part, size);
      if part >= warpParts {
        MulMono(warpParts, part, size);
        assert false;
      }
    }

    lemma PartFits(part: nat)
      requires part < warpParts
      ensures First(part) <= First(part + 1) <= warpSize
    {
      var size := warpSize / warpParts;
      FirstIs(part + 1);
      MulMono(part + 1, warpParts, size);
      assert warpSize == warpParts * size + warpSize % warpParts;
    }

    method CoalescePart(first: nat, end: nat) returns (ghost out: seq<Access>)
      requires Valid() && Aligned() && first <= end <= warpSize
      modifies this`accessq
      ensures accessq == old(accessq) + out && Coalesced(Touches(first, end), out) && OnePerSegment(out, SegmentSize())
    {
      TouchesAreInChunks(first, end);
      var m := CollectSubwarp(first, end);
      out := SendSubwarp(m, Touches(first, end));
    }

    ghost predicate PartCoalesced(part: nat, out: seq<Access>)
      requires Valid()
    {
      First(part + 1) <= warpSize && Coalesced(Touches(First(part), First(part + 1)), out)
      && OnePerSegment(out, SegmentSize())
    }

    method CoalesceNth(subwarp: nat) returns (ghost out: seq<Access>)
      requires Valid() && Aligned() && subwarp < warpParts
      modifies this`accessq
      ensures accessq == old(accessq) + out && PartCoalesced(subwarp, out)
    {
      var size := warpSize / warpParts;
      PartFits(subwarp);
      FirstIs(subwarp);
      FirstIs(subwarp + 1);
      out := CoalescePart(subwarp * size, (subwarp + 1) * size);
    }

    /** Each part's accesses have been coalesced. */
    ghost predicate AllCoalesced(parts: seq<seq<Access>>)
      requires Valid()
    {
      parts == [] || (AllCoalesced(parts[..|parts| - 1]) && PartCoalesced(|parts| - 1, parts[|parts| - 1]))
    }

    lemma OneMorePart(before: seq<Access>, parts: seq<seq<Access>>, out: seq<Access>) returns (more: seq<seq<Access>>)
      requires Valid() && AllCoalesced(parts) && PartCoalesced(|parts|, out)
      ensures AllCoalesced(more) && |more| == |parts| + 1
      ensures before + Flat(parts) + out == before + Flat(more)
    {
      more := parts + [out];
      assert more[..|parts|] == parts;
      assert before + Flat(parts) + out == before + (Flat(parts) + out);
    }

    /** Coalesces the accesses of each part of the warp. */
    method MemoryCoalescing() returns (ghost parts: seq<seq<Access>>)
      requires Valid() && Aligned()
      modifies this`accessq
      ensures accessq == old(accessq) + Flat(parts) && |parts| == warpParts
      ensures AllCoalesced(parts)
    {
      parts := [];
      var subwarp := 0;
      while subwarp < warpParts
        invariant subwarp == |parts| <= warpParts && accessq == old(accessq) + Flat(parts)
        invariant AllCoalesced(parts)
      {
        ghost var out := CoalesceNth(subwarp);
        parts := OneMorePart(old(accessq), parts, out);
        subwarp := subwarp + 1;
      }
    }

    /** Coalesces the atomic accesses of the two halves of the warp. */
    method MemoryCoalescingAtomic()
      returns (ghost order0: seq<(nat, nat)>, ghost out0: seq<Access>, ghost order1: seq<(nat, nat)>,
               ghost out1: seq<Access>)
      requires Valid() && Aligned() && !isLocal
      modifies this`accessq
      ensures accessq == old(accessq) + out0 + out1
      ensures var half, seg := warpSize / 2, SegmentSize();
        && Sent(Touches(0, half), seg, order0, out0) && AllSlotsSent(Touches(0, half), seg, order0)
        && Sent(Touches(half, 2 * half), seg, order1, out1) && AllSlotsSent(Touches(half, 2 * half), seg, order1)
    {
      var half := warpSize / 2;
      order0, out0 := CoalesceAtomics(0, half);
      order1, out1 := CoalesceAtomics(half, 2 * half);
    }
  }

  lemma SlotInSegment(touches: seq<Touch>, block: nat, seg: nat, k: nat)
    requires IsSegment(seg) && (forall t :: t in touches ==> InChunk(t)) && k < |Slots(touches, block, seg)|
    ensures block % seg == 0 && block % 128 + seg <= 128
    ensures InSegment(Info(Slots(touches, block, seg)[k], block, seg).chunks, block % 128, seg)
  {
    SlotsInBlock(touches, block, seg, k);
    var slot := Slots(touches, block, seg)[k];
    InfoHas(slot, 0, seg);
    InfoInSegment(slot, block, seg);
  }
}
