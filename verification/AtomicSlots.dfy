/** Atomic accesses: each one joins the first transaction of its segment whose bytes it does not overlap. */
module AtomicSlots {
  import opened Transactions

  predicate Overlaps(info: Transaction, t: Touch) {
    !(info.bytes !! Offsets(t))
  }

  /** The first transaction that an access does not conflict with, or one past the last. */
  function FirstFree(list: seq<Transaction>, t: Touch): (i: nat)
    ensures i <= |list|
  {
    if list == [] then 0
    else if !Overlaps(list[0], t) then 0
    else 1 + FirstFree(list[1..], t)
  }

  lemma {:induction false} FirstFreeIs(list: seq<Transaction>, t: Touch, i: nat)
    requires i <= |list| && (forall k :: 0 <= k < i ==> Overlaps(list[k], t)) && (i < |list| ==> !Overlaps(list[i], t))
    ensures FirstFree(list, t) == i
  {
    if i > 0 {
      FirstFreeIs(list[1..], t, i - 1);
    }
  }

  lemma {:induction false} FreeThere(list: seq<Transaction>, t: Touch)
    ensures var i := FirstFree(list, t);
      && (i < |list| ==> !Overlaps(list[i], t)) && forall k :: 0 <= k < i ==> Overlaps(list[k], t)
  {
    if list != [] && Overlaps(list[0], t) {
      FreeThere(list[1..], t);
    }
  }

  /** The accesses in each slot of a segment, and the transactions they make up. */
  function Infos(slots: seq<seq<Touch>>, block: nat, seg: nat): seq<Transaction>
    requires IsSegment(seg)
  {
    seq(|slots|, k requires 0 <= k < |slots| => Info(slots[k], block, seg))
  }

  function Put(slots: seq<seq<Touch>>, i: nat, t: Touch): seq<seq<Touch>>
    requires i <= |slots|
  {
    if i < |slots| then slots[i := slots[i] + [t]] else slots + [[t]]
  }

  function Slots(touches: seq<Touch>, block: nat, seg: nat): seq<seq<Touch>>
    requires IsSegment(seg)
  {
    if touches == [] then []
    else
      var before, t := Slots(touches[..|touches| - 1], block, seg), touches[|touches| - 1];
      if Block(t.addr, seg) != block then before
      else Put(before, FirstFree(Infos(before, block, seg), t), t)
  }

  function OfBlock(touches: seq<Touch>, block: nat, seg: nat): seq<Touch>
    requires IsSegment(seg)
  {
    if touches == [] then []
    else
      var t := touches[|touches| - 1];
      OfBlock(touches[..|touches| - 1], block, seg) + if Block(t.addr, seg) == block then [t] else []
  }

  // ----- the slots of a segment partition the accesses to it -----

  function Concat(slots: seq<seq<Touch>>): seq<Touch> {
    if slots == [] then [] else Concat(slots[..|slots| - 1]) + slots[|slots| - 1]
  }

  lemma {:induction false} ConcatPut(slots: seq<seq<Touch>>, i: nat, t: Touch)
    requires i <= |slots|
    ensures multiset(Concat(Put(slots, i, t))) == multiset(Concat(slots)) + multiset{t}
  {
    var n := |slots| - 1;
    if i == |slots| {
      assert Put(slots, i, t)[..|slots|] == slots;
    } else if i == n {
      assert Put(slots, i, t)[..n] == slots[..n];
    } else {
      assert Put(slots, i, t)[..n] == Put(slots[..n], i, t);
      ConcatPut(slots[..n], i, t);
    }
  }

  /** Every access to the segment is in exactly one slot. */
  lemma {:induction false} SlotsPartition(touches: seq<Touch>, block: nat, seg: nat)
    requires IsSegment(seg)
    ensures multiset(Concat(Slots(touches, block, seg))) == multiset(OfBlock(touches, block, seg))
  {
    if touches != [] {
      var init, t := touches[..|touches| - 1], touches[|touches| - 1];
      SlotsPartition(init, block, seg);
      if Block(t.addr, seg) == block {
        var before := Slots(init, block, seg);
        ConcatPut(before, FirstFree(Infos(before, block, seg), t), t);
      }
    }
  }

  ghost predicate InBlock(slot: seq<Touch>, block: nat, seg: nat)
    requires IsSegment(seg)
  {
    forall t :: t in slot ==> Block(t.addr, seg) == block
  }

  ghost predicate PairwiseDisjoint(slot: seq<Touch>) {
    forall i, j :: 0 <= i < j < |slot| ==> Offsets(slot[i]) !! Offsets(slot[j])
  }

  lemma {:induction false} SlotsInBlock(touches: seq<Touch>, block: nat, seg: nat, k: nat)
    requires IsSegment(seg) && k < |Slots(touches, block, seg)|
    ensures var slot := Slots(touches, block, seg)[k];
      slot != [] && InBlock(slot, block, seg) && forall t :: t in slot ==> t in touches
  {
    var init, t := touches[..|touches| - 1], touches[|touches| - 1];
    if k < |Slots(init, block, seg)| {
      SlotsInBlock(init, block, seg, k);
    }
  }

  lemma DisjointFromAll(slot: seq<Touch>, block: nat, seg: nat, t: Touch)
    requires IsSegment(seg) && InBlock(slot, block, seg) && !Overlaps(Info(slot, block, seg), t)
    ensures forall i :: 0 <= i < |slot| ==> Offsets(slot[i]) !! Offsets(t)
  {
    forall i | 0 <= i < |slot|
      ensures Offsets(slot[i]) !! Offsets(t)
    {
      InfoHas(slot, i, seg);
    }
  }

  /** The accesses in one slot do not overlap: no byte of a transaction is marked twice. */
  lemma {:induction false} SlotsAreDisjoint(touches: seq<Touch>, block: nat, seg: nat, k: nat)
    requires IsSegment(seg) && k < |Slots(touches, block, seg)|
    ensures PairwiseDisjoint(Slots(touches, block, seg)[k])
  {
    var init, t := touches[..|touches| - 1], touches[|touches| - 1];
    var before := Slots(init, block, seg);
    if k < |before| {
      SlotsAreDisjoint(init, block, seg, k);
      var infos := Infos(before, block, seg);
      if Block(t.addr, seg) == block && FirstFree(infos, t) == k {
        FreeThere(infos, t);
        SlotsInBlock(init, block, seg, k);
        DisjointFromAll(before[k], block, seg, t);
      }
    }
  }

  // ----- equal accesses -----

  /** Naturally aligned accesses of one size. */
  ghost predicate Uniform(touches: seq<Touch>, size: nat) {
    forall t :: t in touches ==> IsUniform(t, size)
  }

  predicate IsUniform(t: Touch, size: nat) {
    t.size == size && NaturallyAligned(t)
  }

  function Mult(touches: seq<Touch>, addr: nat): nat {
    if touches == [] then 0
    else Mult(touches[..|touches| - 1], addr) + if touches[|touches| - 1].addr == addr then 1 else 0
  }

  lemma MultiplesApart(t: Touch, u: Touch)
    requires NaturallyAligned(t) && NaturallyAligned(u) && t.size == u.size && t.addr < u.addr
    ensures t.addr + t.size <= u.addr
  {
    if t.size == 2 {
    } else if t.size == 4 {
    } else if t.size == 8 {
    } else if t.size == 16 {
    }
  }

  /** Aligned accesses of one size to a segment have the same address or no common byte. */
  lemma SameOrDisjoint(t: Touch, u: Touch, size: nat, seg: nat)
    requires IsSegment(seg) && Uniform([t, u], size) && Block(t.addr, seg) == Block(u.addr, seg)
    ensures Offsets(t) !! Offsets(u) <==> t.addr != u.addr
  {
    assert t in [t, u] && u in [t, u];
    AlignedIsInChunk(t);
    AlignedIsInChunk(u);
    InItsChunk(t, seg);
    InItsChunk(u, seg);
    if t.addr < u.addr {
      MultiplesApart(t, u);
    } else if u.addr < t.addr {
      MultiplesApart(u, t);
    } else {
      assert t.addr % 128 in Offsets(t) && t.addr % 128 in Offsets(u);
    }
  }

  lemma InfosPut(slots: seq<seq<Touch>>, i: nat, t: Touch, block: nat, seg: nat)
    requires IsSegment(seg) && i <= |slots| && Block(t.addr, seg) == block
    ensures var old_, new_ := Infos(slots, block, seg), Infos(Put(slots, i, t), block, seg);
      && |new_| == (if i < |slots| then |slots| else |slots| + 1)
      && new_[i] == Extended(if i < |slots| then old_[i] else EMPTY, t)
      && forall k :: 0 <= k < |slots| && k != i ==> new_[k] == old_[k]
  {
    if i < |slots| {
      assert (slots[i] + [t])[..|slots[i]|] == slots[i];
    } else {
      assert [t][..0] == [] && Info([t][..0], block, seg) == EMPTY;
    }
  }

  ghost predicate ByMultiplicity(infos: seq<Transaction>, t: Touch, m: nat) {
    m <= |infos| && forall k :: 0 <= k < |infos| ==> (Overlaps(infos[k], t) <==> k < m)
  }

  lemma OneMoreKeepsMultiplicity(slots: seq<seq<Touch>>, u: Touch, t: Touch, m: nat, i: nat, size: nat, block: nat,
                                 seg: nat)
    requires IsSegment(seg) && Uniform([u, t], size) && Block(u.addr, seg) == block == Block(t.addr, seg)
    requires ByMultiplicity(Infos(slots, block, seg), t, m) && i <= |slots| && (u.addr == t.addr ==> i == m)
    ensures ByMultiplicity(Infos(Put(slots, i, u), block, seg), t, if u.addr == t.addr then m + 1 else m)
  {
    InfosPut(slots, i, u, block, seg);
    SameOrDisjoint(u, t, size, seg);
    var old_, new_ := Infos(slots, block, seg), Infos(Put(slots, i, u), block, seg);
    assert new_[i].bytes == (if i < |slots| then old_[i].bytes else {}) + Offsets(u);
    forall k | 0 <= k < |new_|
      ensures Overlaps(new_[k], t) <==> k < if u.addr == t.addr then m + 1 else m
    {
      assert k != i ==> new_[k] == old_[k];
    }
  }

  /** For aligned accesses of one size, exactly the first m transactions of a segment hold an address that has
      been accessed m times. */
  lemma {:induction false} SlotsHoldByMultiplicity(touches: seq<Touch>, t: Touch, size: nat, seg: nat)
    requires IsSegment(seg) && Uniform(touches + [t], size)
    ensures var b := Block(t.addr, seg); ByMultiplicity(Infos(Slots(touches, b, seg), b, seg), t, Mult(touches, t.addr))
    decreases |touches|
  {
    if touches != [] {
      var block, init, u := Block(t.addr, seg), touches[..|touches| - 1], touches[|touches| - 1];
      assert u in touches + [t] && t in touches + [t];
      assert forall x :: x in init ==> x in touches + [t];
      SlotsHoldByMultiplicity(init, t, size, seg);
      if Block(u.addr, seg) == block {
        SlotsHoldByMultiplicity(init, u, size, seg);
        var before := Slots(init, block, seg);
        FirstFreeIs(Infos(before, block, seg), u, Mult(init, u.addr));
        OneMoreKeepsMultiplicity(before, u, t, Mult(init, t.addr), Mult(init, u.addr), size, block, seg);
      }
    }
  }

  /** The lanes that share an address are spread over successive transactions in lane order: the one that
      comes after m others goes into transaction m. */
  lemma SuccessiveSlots(touches: seq<Touch>, t: Touch, size: nat, seg: nat)
    requires IsSegment(seg) && Uniform(touches + [t], size)
    ensures var b := Block(t.addr, seg);
      FirstFree(Infos(Slots(touches, b, seg), b, seg), t) == Mult(touches, t.addr)
  {
    var b := Block(t.addr, seg);
    SlotsHoldByMultiplicity(touches, t, size, seg);
    FirstFreeIs(Infos(Slots(touches, b, seg), b, seg), t, Mult(touches, t.addr));
  }

  // ----- accesses of any sizes -----

  /** The transactions of a segment after one more access to it. */
  function Joined(list: seq<Transaction>, t: Touch): seq<Transaction> {
    var i := FirstFree(list, t);
    if i < |list| then list[i := Extended(list[i], t)] else list + [Extended(EMPTY, t)]
  }

  lemma SlotsWithOneMore(touches: seq<Touch>, t: Touch, seg: nat)
    requires IsSegment(seg)
    ensures var b := Block(t.addr, seg);
      Infos(Slots(touches + [t], b, seg), b, seg) == Joined(Infos(Slots(touches, b, seg), b, seg), t)
  {
    var b, now := Block(t.addr, seg), touches + [t];
    assert now[..|now| - 1] == touches;
    var slots := Slots(touches, b, seg);
    InfosPut(slots, FirstFree(Infos(slots, b, seg), t), t, b, seg);
  }

  /** The transactions of a segment after the first n accesses. */
  function ListAfter(touches: seq<Touch>, n: nat, block: nat, seg: nat): seq<Transaction>
    requires IsSegment(seg) && n <= |touches|
  {
    Infos(Slots(touches[..n], block, seg), block, seg)
  }

  /** The transaction of its segment that an access joins. */
  function SlotGiven(touches: seq<Touch>, i: nat, seg: nat): nat
    requires IsSegment(seg) && i < |touches|
  {
    FirstFree(ListAfter(touches, i, Block(touches[i].addr, seg), seg), touches[i])
  }

  lemma ListStep(touches: seq<Touch>, n: nat, block: nat, seg: nat)
    requires IsSegment(seg) && n < |touches|
    ensures var l, l' := ListAfter(touches, n, block, seg), ListAfter(touches, n + 1, block, seg);
      && |l| <= |l'| && (forall k :: 0 <= k < |l| ==> l[k].bytes <= l'[k].bytes)
      && (Block(touches[n].addr, seg) == block ==>
            var k := SlotGiven(touches, n, seg);
            k < |l'| && Offsets(touches[n]) <= l'[k].bytes)
  {
    assert touches[..n + 1][..n] == touches[..n];
    if Block(touches[n].addr, seg) == block {
      InfosPut(Slots(touches[..n], block, seg), SlotGiven(touches, n, seg), touches[n], block, seg);
    }
  }

  /** Transactions are only added, and only gain bytes. */
  lemma {:induction false} ListGrows(touches: seq<Touch>, i: nat, j: nat, block: nat, seg: nat)
    requires IsSegment(seg) && i <= j <= |touches|
    ensures var l, l' := ListAfter(touches, i, block, seg), ListAfter(touches, j, block, seg);
      |l| <= |l'| && forall k :: 0 <= k < |l| ==> l[k].bytes <= l'[k].bytes
    decreases j - i
  {
    if i < j {
      ListGrows(touches, i, j - 1, block, seg);
      ListStep(touches, j - 1, block, seg);
    }
  }

  /** An access that overlaps an earlier one of its segment goes into a later transaction exactly when it
      overlaps every transaction before that of the earlier one as well. */
  lemma LaterSlotIff(touches: seq<Touch>, i: nat, j: nat, seg: nat)
    requires IsSegment(seg) && i < j < |touches| && Block(touches[i].addr, seg) == Block(touches[j].addr, seg)
    requires !(Offsets(touches[i]) !! Offsets(touches[j]))
    ensures SlotGiven(touches, i, seg) != SlotGiven(touches, j, seg)
    ensures var list := ListAfter(touches, j, Block(touches[j].addr, seg), seg);
      && SlotGiven(touches, i, seg) < |list|
      && (SlotGiven(touches, i, seg) < SlotGiven(touches, j, seg)
          <==> forall k :: 0 <= k < SlotGiven(touches, i, seg) ==> Overlaps(list[k], touches[j]))
  {
    var block, k := Block(touches[j].addr, seg), SlotGiven(touches, i, seg);
    ListStep(touches, i, block, seg);
    ListGrows(touches, i + 1, j, block, seg);
    var list := ListAfter(touches, j, block, seg);
    assert Offsets(touches[i]) <= list[k].bytes;
    assert Overlaps(list[k], touches[j]);
    FreeThere(list, touches[j]);
  }

  /** An access to all the bytes of an earlier one, and perhaps more, goes into a later transaction. */
  lemma CoveringGoesLater(touches: seq<Touch>, i: nat, j: nat, seg: nat)
    requires IsSegment(seg) && i < j < |touches| && Block(touches[i].addr, seg) == Block(touches[j].addr, seg)
    requires Offsets(touches[i]) <= Offsets(touches[j]) && Offsets(touches[i]) != {}
    ensures SlotGiven(touches, i, seg) < SlotGiven(touches, j, seg)
  {
    var block := Block(touches[j].addr, seg);
    LaterSlotIff(touches, i, j, seg);
    ListGrows(touches, i, j, block, seg);
    FreeThere(ListAfter(touches, i, block, seg), touches[i]);
    var list := ListAfter(touches, j, block, seg);
    forall k | 0 <= k < SlotGiven(touches, i, seg)
      ensures Overlaps(list[k], touches[j])
    {
      assert Overlaps(ListAfter(touches, i, block, seg)[k], touches[i]);
    }
  }

  /** Overlapping is not enough: when the second of three accesses overlaps the first and the third overlaps
      only the second, the third joins the transaction before that of the second. */
  lemma OverlappingGoesEarlier(a: Touch, b: Touch, c: Touch, seg: nat)
    requires IsSegment(seg) && Block(a.addr, seg) == Block(b.addr, seg) == Block(c.addr, seg)
    requires !(Offsets(a) !! Offsets(b)) && !(Offsets(b) !! Offsets(c)) && Offsets(a) !! Offsets(c)
    ensures SlotGiven([a, b, c], 1, seg) == 1 && SlotGiven([a, b, c], 2, seg) == 0
  {
    var touches, block := [a, b, c], Block(a.addr, seg);
    assert touches[..0] == [] && touches[..1] == [a] && touches[..2] == [a, b];
    SlotsWithOneMore([], a, seg);
    assert [] + [a] == [a] && ListAfter(touches, 1, block, seg) == [Extended(EMPTY, a)];
    SlotsWithOneMore([a], b, seg);
    assert [a] + [b] == [a, b];
    FirstFreeIs([Extended(EMPTY, a)], b, 1);
    assert ListAfter(touches, 2, block, seg) == [Extended(EMPTY, a), Extended(EMPTY, b)];
    FirstFreeIs(ListAfter(touches, 2, block, seg), c, 0);
  }

  /** There are such accesses: three unaligned ones of 4 bytes, as one instruction may make them. */
  lemma UnalignedGoesEarlier()
    ensures var touches := [Touch(0, 4, 4), Touch(1, 2, 4), Touch(2, 0, 4)];
      && (forall t :: t in touches ==> InChunk(t)) && !(Offsets(touches[1]) !! Offsets(touches[2]))
      && SlotGiven(touches, 2, 128) < SlotGiven(touches, 1, 128)
  {
    var a, b, c := Touch(0, 4, 4), Touch(1, 2, 4), Touch(2, 0, 4);
    FourBytes(a);
    FourBytes(b);
    FourBytes(c);
    assert 4 in Offsets(a) && 4 in Offsets(b) && 2 in Offsets(b) && 2 in Offsets(c);
    OverlappingGoesEarlier(a, b, c, 128);
  }

  lemma FourBytes(t: Touch)
    requires t.addr < 64 && t.size == 4
    ensures Offsets(t) == {t.addr, t.addr + 1, t.addr + 2, t.addr + 3} && Block(t.addr, 128) == 0
  {
  }

  /** For aligned accesses of one size, a segment takes as many transactions as the most accessed address in it
      has accesses. */
  lemma {:induction false} SlotsAreMaxMultiplicity(touches: seq<Touch>, block: nat, size: nat, seg: nat)
    requires IsSegment(seg) && Uniform(touches, size)
    ensures forall t :: t in touches && Block(t.addr, seg) == block ==>
      Mult(touches, t.addr) <= |Slots(touches, block, seg)|
    ensures Slots(touches, block, seg) != [] ==>
      exists t :: t in touches && Block(t.addr, seg) == block && Mult(touches, t.addr) == |Slots(touches, block, seg)|
  {
    forall t | t in touches && Block(t.addr, seg) == block
      ensures Mult(touches, t.addr) <= |Slots(touches, block, seg)|
    {
      SlotsHoldByMultiplicity(touches, t, size, seg);
    }
    if touches != [] {
      var init, u := touches[..|touches| - 1], touches[|touches| - 1];
      var before, now := Slots(init, block, seg), Slots(touches, block, seg);
      assert touches == init + [u];
      SlotsAreMaxMultiplicity(init, block, size, seg);
      if Block(u.addr, seg) == block {
        SuccessiveSlots(init, u, size, seg);
      }
      if |now| > |before| {
        assert u in touches && Mult(touches, u.addr) == |now|;
      } else if before != [] {
        var t :| t in init && Block(t.addr, seg) == block && Mult(init, t.addr) == |before|;
        assert t in touches;
        if t.addr == u.addr {
          SlotsHoldByMultiplicity(touches, t, size, seg);
        }
      }
    }
  }

  // ----- the transactions of a subwarp -----

  predicate Placed(m: map<nat, seq<Transaction>>, touches: seq<Touch>, seg: nat)
    requires IsSegment(seg)
  {
    m.Keys == Blocks(touches, seg) && forall b :: b in m ==> m[b] == Infos(Slots(touches, b, seg), b, seg)
  }

  lemma {:induction false} NoSlotsElsewhere(touches: seq<Touch>, block: nat, seg: nat)
    requires IsSegment(seg) && block !in Blocks(touches, seg)
    ensures Slots(touches, block, seg) == []
  {
    if touches != [] {
      NoSlotsElsewhere(touches[..|touches| - 1], block, seg);
    }
  }

  lemma PlacedWithOneMore(m: map<nat, seq<Transaction>>, touches: seq<Touch>, t: Touch, seg: nat)
    requires IsSegment(seg) && Placed(m, touches, seg)
    ensures var b := Block(t.addr, seg);
      Placed(m[b := Joined(if b in m then m[b] else [], t)], touches + [t], seg)
  {
    var b, now := Block(t.addr, seg), touches + [t];
    var m' := m[b := Joined(if b in m then m[b] else [], t)];
    assert now[..|touches|] == touches;
    assert m'.Keys == Blocks(now, seg);
    forall c | c in m'
      ensures m'[c] == Infos(Slots(now, c, seg), c, seg)
    {
      if c == b {
        JoinedInItsBlock(m, touches, t, seg);
      }
    }
  }

  lemma JoinedInItsBlock(m: map<nat, seq<Transaction>>, touches: seq<Touch>, t: Touch, seg: nat)
    requires IsSegment(seg) && Placed(m, touches, seg)
    ensures var b := Block(t.addr, seg);
      Joined(if b in m then m[b] else [], t) == Infos(Slots(touches + [t], b, seg), b, seg)
  {
    var b := Block(t.addr, seg);
    if b !in m {
      NoSlotsElsewhere(touches, b, seg);
      assert Infos(Slots(touches, b, seg), b, seg) == [];
    }
    SlotsWithOneMore(touches, t, seg);
  }

  /** An access is in some slot of its segment. */
  lemma {:induction false} SlotOf(touches: seq<Touch>, i: nat, seg: nat) returns (k: nat)
    requires IsSegment(seg) && i < |touches|
    ensures var b := Block(touches[i].addr, seg);
      b in Blocks(touches, seg) && k < |Slots(touches, b, seg)| && touches[i] in Slots(touches, b, seg)[k]
  {
    var init, t, b := touches[..|touches| - 1], touches[|touches| - 1], Block(touches[i].addr, seg);
    if i < |touches| - 1 {
      k := SlotOf(init, i, seg);
    } else {
      k := FirstFree(Infos(Slots(init, b, seg), b, seg), t);
    }
  }

  /** One transaction is sent per slot of each segment, in ascending order of segments. */
  ghost predicate Sent(touches: seq<Touch>, seg: nat, order: seq<(nat, nat)>, out: seq<Access>)
    requires IsSegment(seg)
  {
    && |order| == |out|
    && (forall j :: 0 <= j < |order| ==> SentFor(touches, seg, order[j].0, order[j].1, out[j]))
    && (forall i, j :: 0 <= i < j < |order| ==> Before(order[i], order[j]))
  }

  predicate Before(a: (nat, nat), b: (nat, nat)) {
    a.0 < b.0 || (a.0 == b.0 && a.1 < b.1)
  }

  ghost predicate SentFor(touches: seq<Touch>, seg: nat, block: nat, k: nat, e: Access)
    requires IsSegment(seg)
  {
    k < |Slots(touches, block, seg)| && MadeFrom(Info(Slots(touches, block, seg)[k], block, seg), block, seg, e)
  }

  ghost predicate AllSlotsSent(touches: seq<Touch>, seg: nat, order: seq<(nat, nat)>)
    requires IsSegment(seg)
  {
    forall b, k :: b in Blocks(touches, seg) && 0 <= k < |Slots(touches, b, seg)| ==> (b, k) in order
  }

  /** What atomic coalescing promises: every access is covered by a transaction with its lane and bytes, and
      transactions are aligned blocks no larger than their accesses demand. */
  lemma SentCovers(touches: seq<Touch>, seg: nat, order: seq<(nat, nat)>, out: seq<Access>)
    requires IsSegment(seg) && (forall t :: t in touches ==> InChunk(t))
    requires Sent(touches, seg, order, out) && AllSlotsSent(touches, seg, order)
    ensures forall t :: t in touches ==> exists e :: e in out && Covers(e, t) && Offsets(t) <= e.bytes
    ensures forall e :: e in out ==> IsBlock(e.addr, e.size) && JustUsed(touches, e)
  {
    forall t | t in touches
      ensures exists e :: e in out && Covers(e, t) && Offsets(t) <= e.bytes
    {
      var i :| 0 <= i < |touches| && touches[i] == t;
      var b := Block(t.addr, seg);
      var k := SlotOf(touches, i, seg);
      var j :| 0 <= j < |order| && order[j] == (b, k);
      assert SentFor(touches, seg, order[j].0, order[j].1, out[j]);
      var slot := Slots(touches, b, seg)[k];
      var p :| 0 <= p < |slot| && slot[p] == t;
      MadeCovers(slot, p, seg, out[j]);
    }
    forall e | e in out
      ensures IsBlock(e.addr, e.size) && JustUsed(touches, e)
    {
      var j :| 0 <= j < |out| && out[j] == e;
      var b, k := order[j].0, order[j].1;
      assert SentFor(touches, seg, b, k, e);
      SlotsInBlock(touches, b, seg, k);
      var slot := Slots(touches, b, seg)[k];
      MadeIsJustUsed(slot, b, seg, e);
      UsedInMore(slot, touches, e);
    }
  }

  lemma UsedInMore(some: seq<Touch>, all: seq<Touch>, e: Access)
    requires JustUsed(some, e) && forall t :: t in some ==> t in all
    ensures JustUsed(all, e)
  {
  }
}
