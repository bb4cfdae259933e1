/** The memory cells that addresses are translated to: which of them an address exists for. */
module CellAddresses {
  import opened Bits
  import opened AddressDecoding

  // ----- numbers made of chosen bits -----

  function FromBits(bits: seq<bool>): nat {
    if bits == [] then 0 else (if bits[0] then 1 else 0) + 2 * FromBits(bits[1..])
  }

  lemma {:induction false} FromBitsHas(bits: seq<bool>, i: nat)
    requires i < |bits|
    ensures Bit(FromBits(bits), i) == bits[i]
  {
    assert FromBits(bits) / 2 == FromBits(bits[1..]);
    if i > 0 {
      FromBitsHas(bits[1..], i - 1);
    }
  }

  lemma {:induction false} FromBitsFits(bits: seq<bool>)
    ensures FromBits(bits) < Pow2(|bits|)
  {
    if bits != [] {
      FromBitsFits(bits[1..]);
    }
  }

  lemma {:induction false} OneMoreBit(x: nat, n: nat)
    ensures LowBits(x, n + 1) == LowBits(x, n) + if Bit(x, n) then Pow2(n) else 0
  {
    if n > 0 {
      OneMoreBit(x / 2, n - 1);
    }
  }

  /** If the selected bits of a value are the bits of `x` one after the other, packing them gives `x` back. */
  lemma {:induction false} PackedIs(mask: Mask, val: nat, x: nat, low: nat, high: nat)
    requires high <= 64
    requires forall i :: low <= i < high && mask[i] ==> Bit(val, i) == Bit(x, Count(mask, low, i))
    ensures Packed(mask, val, low, high) == LowBits(x, Count(mask, low, high))
  {
    if high > low {
      PackedIs(mask, val, x, low, high - 1);
      OneMoreBit(x, Count(mask, low, high - 1));
    }
  }

  lemma GatherIs(f: Field, val: nat, x: nat)
    requires f.Valid() && f.Narrow() && x < Pow2(Count(f.mask, f.low, f.high))
    requires forall i :: 0 <= i < 64 && f.mask[i] ==> Bit(val, i) == Bit(x, Count(f.mask, f.low, i))
    ensures f.Gather(val) == x
  {
    PackedIs(f.mask, val, x, f.low, f.high);
    LowBitsOfSmall(x, Count(f.mask, f.low, f.high));
    Pow2Grows(Count(f.mask, f.low, f.high), 32);
    Pow2Of32();
    SmallModulo(x, UINT32);
  }

  // ----- the cells -----

  ghost predicate Holds(f: Field, x: nat)
    requires f.Valid()
  {
    x < Pow2(Count(f.mask, f.low, f.high))
  }

  /** The channel is one that the masks or the channel count can name, and bank, row and column fit their masks. */
  ghost predicate IsCell(t: Translation, cell: RawAddress)
    requires Usable(t)
  {
    && (if t.gap == 0 then Holds(t.chip, cell.chip) else cell.chip < t.nChannel)
    && Holds(t.bk, cell.bk) && Holds(t.row, cell.row) && Holds(t.col, cell.col)
  }

  ghost predicate InChip(t: Translation, i: nat)
    requires i < 64
  {
    t.gap == 0 && t.chip.mask[i]
  }

  /** No two of channel, bank, row and column select the bit. */
  ghost predicate SelectedOnce(t: Translation, i: nat)
    requires i < 64
  {
    && !(t.bk.mask[i] && t.row.mask[i]) && !(t.bk.mask[i] && t.col.mask[i]) && !(t.row.mask[i] && t.col.mask[i])
    && (InChip(t, i) ==> !t.bk.mask[i] && !t.row.mask[i] && !t.col.mask[i])
  }

  ghost predicate Disjoint(t: Translation) {
    forall i :: 0 <= i < 64 ==> SelectedOnce(t, i)
  }

  ghost predicate SelectsBelow(t: Translation, bits: nat) {
    forall i :: bits <= i < 64 ==> !t.bk.mask[i] && !t.row.mask[i] && !t.col.mask[i] && !InChip(t, i)
  }

  /** The bit that an address of the cell has at a position. */
  ghost function CellBit(t: Translation, cell: RawAddress, i: nat): bool
    requires Usable(t) && i < 64
  {
    if t.bk.mask[i] then Bit(cell.bk, Count(t.bk.mask, t.bk.low, i))
    else if t.row.mask[i] then Bit(cell.row, Count(t.row.mask, t.row.low, i))
    else if t.col.mask[i] then Bit(cell.col, Count(t.col.mask, t.col.low, i))
    else InChip(t, i) && Bit(cell.chip, Count(t.chip.mask, t.chip.low, i))
  }

  ghost function CellBits(t: Translation, cell: RawAddress, bits: nat): seq<bool>
    requires Usable(t) && bits <= 64
  {
    seq(bits, i requires 0 <= i < bits => CellBit(t, cell, i))
  }

  lemma HasCellBit(t: Translation, cell: RawAddress, bits: nat, i: nat)
    requires Usable(t) && bits <= 64 && SelectsBelow(t, bits) && i < 64
    requires t.bk.mask[i] || t.row.mask[i] || t.col.mask[i] || InChip(t, i)
    ensures Bit(FromBits(CellBits(t, cell, bits)), i) == CellBit(t, cell, i)
  {
    FromBitsHas(CellBits(t, cell, bits), i);
  }

  lemma GathersCell(t: Translation, cell: RawAddress, bits: nat)
    requires Usable(t) && NarrowFields(t) && bits <= 64 && Disjoint(t) && SelectsBelow(t, bits) && IsCell(t, cell)
    ensures var rest := FromBits(CellBits(t, cell, bits));
      && t.bk.Gather(rest) == cell.bk && t.row.Gather(rest) == cell.row && t.col.Gather(rest) == cell.col
      && (t.gap == 0 ==> t.chip.Gather(rest) == cell.chip)
  {
    var rest := FromBits(CellBits(t, cell, bits));
    forall i | 0 <= i < 64 && (t.bk.mask[i] || t.row.mask[i] || t.col.mask[i] || InChip(t, i))
      ensures Bit(rest, i) == CellBit(t, cell, i) && SelectedOnce(t, i)
    {
      HasCellBit(t, cell, bits, i);
    }
    GatherIs(t.bk, rest, cell.bk);
    GatherIs(t.row, rest, cell.row);
    GatherIs(t.col, rest, cell.col);
    if t.gap == 0 {
      GatherIs(t.chip, rest, cell.chip);
    }
  }

  /** The address with a given channel and a given rest, when the channel count is no power of two. */
  function Joined(s: nat, n: nat, chip: nat, rest: nat): nat {
    (ShiftRight(rest, s) * n + chip) * Pow2(s) + LowBits(rest, s)
  }

  lemma JoinedSplits(t: Translation, chip: nat, rest: nat)
    requires 0 < t.gap && 0 <= t.chipStart && chip < t.nChannel
    ensures var addr := Joined(t.chipStart, t.nChannel, chip, rest);
      Rest(t, addr) == rest && ShiftRight(addr, t.chipStart) % t.nChannel == chip
  {
    var s, n := t.chipStart, t.nChannel;
    Recombined(rest, s);
    Stitched(ShiftRight(rest, s) * n + chip, LowBits(rest, s), s);
    QuotientIs(ShiftRight(rest, s) * n + chip, ShiftRight(rest, s), chip, n);
  }

  lemma JoinedBelow(s: nat, n: nat, chip: nat, rest: nat, bits: nat)
    requires s <= bits && chip < n && rest < Pow2(bits)
    ensures Joined(s, n, chip, rest) < n * Pow2(bits)
  {
    var k, q := bits - s, ShiftRight(rest, s);
    Pow2Sum(k, s);
    ShiftedBelow(rest, s, Pow2(k));
    MulSuccessor(q, n);
    MulMono(q + 1, Pow2(k), n);
    assert q * n + chip < Pow2(k) * n;
    LowBitsFit(rest, s);
    MulSuccessor(q * n + chip, Pow2(s));
    MulMono(q * n + chip + 1, n * Pow2(k), Pow2(s));
    MulAssociates(n, Pow2(k), Pow2(s));
  }

  /** The number of addresses with that many bits beside a channel that no mask holds. */
  ghost function Span(t: Translation, bits: nat): nat {
    if t.gap == 0 then Pow2(bits) else t.nChannel * Pow2(bits)
  }

  /** If no bit is selected twice, every cell has an address. */
  lemma CellHasAddress(t: Translation, cell: RawAddress, bits: nat) returns (addr: nat)
    requires Usable(t) && NarrowFields(t) && t.nChannel < UINT32 && bits <= 64 && t.chipStart <= bits
    requires Disjoint(t) && SelectsBelow(t, bits) && IsCell(t, cell)
    ensures addr < Span(t, bits) && SameCell(Decoded(t, addr), cell)
  {
    var rest := FromBits(CellBits(t, cell, bits));
    FromBitsFits(CellBits(t, cell, bits));
    GathersCell(t, cell, bits);
    if t.gap == 0 {
      addr := rest;
    } else {
      addr := Joined(t.chipStart, t.nChannel, cell.chip, rest);
      JoinedSplits(t, cell.chip, rest);
      JoinedBelow(t.chipStart, t.nChannel, cell.chip, rest, bits);
      ChannelIsRemainder(t, addr);
    }
  }

  // ----- a bit that is selected twice -----

  lemma {:induction false} ZeroHasNoBits(i: nat)
    ensures !Bit(0, i)
  {
    if i > 0 {
      ZeroHasNoBits(i - 1);
    }
  }

  lemma GatherFits(f: Field, val: nat)
    requires f.Valid() && f.Narrow()
    ensures Holds(f, f.Gather(val))
  {
    PackedFits(f.mask, val, f.low, f.high);
    Pow2Grows(Count(f.mask, f.low, f.high), 32);
    Pow2Of32();
    SmallModulo(Packed(f.mask, val, f.low, f.high), UINT32);
  }

  datatype Part = Channel | Bank | Row | Column

  ghost function AllOnesIf(b: bool): nat {
    if b then Pow2(64) - 1 else 0
  }

  /** The cell with one part all ones and the others zero. */
  ghost function Corner(t: Translation, p: Part): RawAddress
    requires Usable(t)
  {
    RawAddress(if t.gap == 0 then t.chip.Gather(AllOnesIf(p.Channel?)) else 0, t.bk.Gather(AllOnesIf(p.Bank?)),
               t.row.Gather(AllOnesIf(p.Row?)), t.col.Gather(AllOnesIf(p.Column?)), 0, 0)
  }

  lemma CornerIsCell(t: Translation, p: Part)
    requires Usable(t) && NarrowFields(t)
    ensures IsCell(t, Corner(t, p))
  {
    GatherFits(t.chip, AllOnesIf(p.Channel?));
    GatherFits(t.bk, AllOnesIf(p.Bank?));
    GatherFits(t.row, AllOnesIf(p.Row?));
    GatherFits(t.col, AllOnesIf(p.Column?));
  }

  ghost predicate SelectedBy(t: Translation, p: Part, i: nat)
    requires i < 64
  {
    match p
    case Channel => InChip(t, i)
    case Bank => t.bk.mask[i]
    case Row => t.row.mask[i]
    case Column => t.col.mask[i]
  }

  /** An address of the corner has each bit that the part selects, and none that another part selects. */
  lemma CornerBits(t: Translation, p: Part, addr: nat, q: Part, i: nat)
    requires Usable(t) && NarrowFields(t) && SameCell(Decoded(t, addr), Corner(t, p)) && i < 64 && SelectedBy(t, q, i)
    ensures Bit(Rest(t, addr), i) == (p == q)
  {
    var rest, val := Rest(t, addr), AllOnesIf(p == q);
    OnesHaveAllBits(64, i);
    ZeroHasNoBits(i);
    match q {
      case Channel => GatherDeterminesBits(t.chip, rest, val);
      case Bank => GatherDeterminesBits(t.bk, rest, val);
      case Row => GatherDeterminesBits(t.row, rest, val);
      case Column => GatherDeterminesBits(t.col, rest, val);
    }
  }

  lemma NoHighBits(x: nat, n: nat, i: nat)
    requires x < Pow2(n) && n <= i
    ensures !Bit(x, i)
  {
    ShiftedBelow(x, n, 1);
    ShiftedTwice(x, n, i - n);
    ZeroHasNoBits(i - n);
  }

  ghost predicate HasAddress(t: Translation, cell: RawAddress, limit: nat)
    requires Usable(t)
  {
    exists addr :: 0 <= addr < limit && SameCell(Decoded(t, addr), cell)
  }

  ghost predicate AllHaveAddresses(t: Translation, limit: nat)
    requires Usable(t)
  {
    forall cell :: IsCell(t, cell) ==> HasAddress(t, cell, limit)
  }

  lemma SelectsOnceIfAddressed(t: Translation, bits: nat, p: Part, q: Part, i: nat)
    requires Usable(t) && NarrowFields(t) && AllHaveAddresses(t, Span(t, bits)) && i < 64
    requires SelectedBy(t, p, i) && SelectedBy(t, q, i)
    ensures p == q
  {
    CornerIsCell(t, p);
    var addr :| 0 <= addr < Span(t, bits) && SameCell(Decoded(t, addr), Corner(t, p));
    CornerBits(t, p, addr, p, i);
    CornerBits(t, p, addr, q, i);
  }

  lemma SelectsBelowIfAddressed(t: Translation, bits: nat, p: Part, i: nat)
    requires Usable(t) && NarrowFields(t) && AllHaveAddresses(t, Span(t, bits)) && t.chipStart <= bits && bits <= i < 64
    ensures !SelectedBy(t, p, i)
  {
    if SelectedBy(t, p, i) {
      CornerIsCell(t, p);
      var addr :| 0 <= addr < Span(t, bits) && SameCell(Decoded(t, addr), Corner(t, p));
      CornerBits(t, p, addr, p, i);
      if t.gap > 0 {
        RestIsBelow(t, addr, bits);
      }
      NoHighBits(Rest(t, addr), bits, i);
    }
  }

  lemma SelectedOnceIfAddressed(t: Translation, bits: nat, i: nat)
    requires Usable(t) && NarrowFields(t) && AllHaveAddresses(t, Span(t, bits)) && i < 64
    ensures SelectedOnce(t, i)
  {
    forall p, q | SelectedBy(t, p, i) && SelectedBy(t, q, i)
      ensures p == q
    {
      SelectsOnceIfAddressed(t, bits, p, q, i);
    }
    assert SelectedBy(t, Bank, i) == t.bk.mask[i] && SelectedBy(t, Row, i) == t.row.mask[i];
    assert SelectedBy(t, Column, i) == t.col.mask[i] && SelectedBy(t, Channel, i) == InChip(t, i);
  }

  /** Every cell has an address of so many bits, channels beside them that no mask holds, if and only if no bit is
      selected twice and none beyond. */
  lemma CellsHaveAddressesIff(t: Translation, bits: nat)
    requires Usable(t) && NarrowFields(t) && t.nChannel < UINT32 && bits <= 64 && t.chipStart <= bits
    ensures AllHaveAddresses(t, Span(t, bits)) <==> Disjoint(t) && SelectsBelow(t, bits)
  {
    if Disjoint(t) && SelectsBelow(t, bits) {
      forall cell | IsCell(t, cell)
        ensures HasAddress(t, cell, Span(t, bits))
      {
        var addr := CellHasAddress(t, cell, bits);
      }
    }
    if AllHaveAddresses(t, Span(t, bits)) {
      forall i | 0 <= i < 64
        ensures SelectedOnce(t, i)
      {
        SelectedOnceIfAddressed(t, bits, i);
      }
      forall i | bits <= i < 64
        ensures !t.bk.mask[i] && !t.row.mask[i] && !t.col.mask[i] && !InChip(t, i)
      {
        SelectsBelowIfAddressed(t, bits, Channel, i);
        SelectsBelowIfAddressed(t, bits, Bank, i);
        SelectsBelowIfAddressed(t, bits, Row, i);
        SelectsBelowIfAddressed(t, bits, Column, i);
      }
    }
  }

  /** Some address below the limit goes to the cell, and no other does. */
  ghost predicate HasOneAddress(t: Translation, cell: RawAddress, limit: nat)
    requires Usable(t)
  {
    && HasAddress(t, cell, limit)
    && forall v, w :: 0 <= v < limit && 0 <= w < limit && SameCell(Decoded(t, v), cell) && SameCell(Decoded(t, w), cell)
         ==> v == w
  }

  ghost predicate IsBijective(t: Translation, limit: nat)
    requires Usable(t)
  {
    forall cell :: IsCell(t, cell) ==> HasOneAddress(t, cell, limit)
  }

  lemma SpanIsLimit(c: Config, t: Translation, width: nat)
    requires c.Valid() && Translates(c, t)
    ensures Span(t, width + if c.InsertsChip() then Log2(c.nChannel) else 0) == c.Limit(width)
  {
    Pow2Sum(Log2(c.nChannel), width);
  }

  lemma OneAddressIfAny(c: Config, t: Translation, width: nat, cell: RawAddress)
    requires c.Valid() && Translates(c, t) && c.Covers(width) && NarrowFields(t)
    ensures HasOneAddress(t, cell, c.Limit(width)) <==> HasAddress(t, cell, c.Limit(width))
  {
    forall v, w | 0 <= v < c.Limit(width) && 0 <= w < c.Limit(width)
                  && SameCell(Decoded(t, v), cell) && SameCell(Decoded(t, w), cell)
      ensures v == w
    {
      DecodingIsInjective(c, t, width, v, w);
    }
  }

  lemma BijectiveIfAddressed(c: Config, t: Translation, width: nat)
    requires c.Valid() && Translates(c, t) && c.Covers(width) && NarrowFields(t)
    ensures IsBijective(t, c.Limit(width)) <==> AllHaveAddresses(t, c.Limit(width))
  {
    var limit := c.Limit(width);
    forall cell
      ensures HasOneAddress(t, cell, limit) <==> HasAddress(t, cell, limit)
    {
      OneAddressIfAny(c, t, width, cell);
    }
  }

  /** If the configured masks cover the address bits, then decoding is a bijection between the addresses and the
      cells if and only if no bit is selected twice and none beyond those. */
  lemma DecodingIsBijectiveIff(c: Config, t: Translation, width: nat)
    requires c.Valid() && Translates(c, t) && c.Covers(width) && NarrowFields(t)
    ensures IsBijective(t, c.Limit(width)) <==>
      Disjoint(t) && SelectsBelow(t, width + if c.InsertsChip() then Log2(c.nChannel) else 0)
  {
    BijectiveIfAddressed(c, t, width);
    SpanIsLimit(c, t, width);
    CellsHaveAddressesIff(t, width + if c.InsertsChip() then Log2(c.nChannel) else 0);
  }
}
