/** The translation of linear memory addresses into channel, bank, row and column. */
module AddressDecoding {
  import opened Bits

  /** A 64-bit mask: for each bit position whether it is selected. */
  type Mask = m: seq<bool> | |m| == 64 witness seq(64, _ => false)

  const UINT32: nat := 0x1_0000_0000

  // ----- gathering the selected bits of an address -----

  /** The number of selected positions in [low, high). */
  function Count(mask: Mask, low: nat, high: nat): (c: nat)
    requires high <= 64
  {
    if high <= low then 0 else Count(mask, low, high - 1) + if mask[high - 1] then 1 else 0
  }

  /** The selected bits in [low, high), packed together. */
  function Packed(mask: Mask, val: nat, low: nat, high: nat): nat
    requires high <= 64
  {
    if high <= low then 0
    else Packed(mask, val, low, high - 1)
         + if mask[high - 1] && Bit(val, high - 1) then Pow2(Count(mask, low, high - 1)) else 0
  }

  lemma {:induction false} PackedFits(mask: Mask, val: nat, low: nat, high: nat)
    requires high <= 64
    ensures Packed(mask, val, low, high) < Pow2(Count(mask, low, high))
  {
    if high > low {
      PackedFits(mask, val, low, high - 1);
    }
  }

  /** The packed value determines every selected bit, and nothing else. */
  lemma {:induction false} PackedDeterminesBits(mask: Mask, v: nat, w: nat, low: nat, high: nat)
    requires high <= 64
    ensures Packed(mask, v, low, high) == Packed(mask, w, low, high) <==>
      forall i :: low <= i < high && mask[i] ==> Bit(v, i) == Bit(w, i)
  {
    if high > low {
      PackedDeterminesBits(mask, v, w, low, high - 1);
      PackedFits(mask, v, low, high - 1);
      PackedFits(mask, w, low, high - 1);
      var p, q := Packed(mask, v, low, high), Packed(mask, w, low, high);
      if mask[high - 1] && Bit(v, high - 1) != Bit(w, high - 1) {
        assert p != q;
      } else {
        assert p == q <==> Packed(mask, v, low, high - 1) == Packed(mask, w, low, high - 1);
      }
    }
  }

  /** A number below 2^k with 2^k added to it: the bits below k are as before, and bit k is set. */
  lemma {:induction false} TopBit(p: nat, k: nat, j: nat)
    requires p < Pow2(k) && j <= k
    ensures Bit(p + Pow2(k), j) == (j == k || Bit(p, j)) && (j == k ==> !Bit(p, j))
  {
    if j > 0 {
      assert (p + Pow2(k)) / 2 == p / 2 + Pow2(k - 1);
      TopBit(p / 2, k - 1, j - 1);
    } else if k > 0 {
      assert (p + Pow2(k)) % 2 == p % 2;
    }
  }

  /** Packing keeps the selected bits in order: each becomes the bit whose number is that of the selected bits
      below it. */
  lemma {:induction false} PackedBit(mask: Mask, val: nat, low: nat, high: nat, i: nat)
    requires high <= 64 && low <= i < high && mask[i]
    ensures Bit(Packed(mask, val, low, high), Count(mask, low, i)) == Bit(val, i)
  {
    var p, k := Packed(mask, val, low, high - 1), Count(mask, low, high - 1);
    PackedFits(mask, val, low, high - 1);
    if i < high - 1 {
      PackedBit(mask, val, low, high - 1, i);
      CountGrows(mask, low, i + 1, high - 1);
    }
    TopBit(p, k, Count(mask, low, i));
  }

  method PackBits(mask: Mask, val: nat, high: nat, low: nat) returns (result: nat)
    requires high <= 64
    ensures result == Packed(mask, val, low, high)
  {
    var pos, i := 0, low;
    result := 0;
    while i < high
      invariant low <= i && (i <= high || i == low)
      invariant i <= high ==> pos == Count(mask, low, i) && result == Packed(mask, val, low, i)
      invariant i > high ==> result == 0
      decreases high - i
    {
      if mask[i] {
        result := result + if Bit(val, i) then Pow2(pos) else 0;
        pos := pos + 1;
      }
      i := i + 1;
    }
  }

  ghost predicate Within(mask: Mask, low: nat, high: nat) {
    low <= 64 && high <= 64 && forall i :: 0 <= i < 64 && mask[i] ==> low <= i < high
  }

  /** The limits of a mask enclose all of its bits. */
  method GetMaskLimit(mask: Mask) returns (high: nat, low: nat)
    ensures Within(mask, low, high)
    ensures (exists i :: 0 <= i < 64 && mask[i]) ==> low < high && mask[low] && mask[high - 1]
    ensures (forall i :: 0 <= i < 64 ==> !mask[i]) ==> low == 0 && high == 64
  {
    high, low := 64, 0;
    var lowFound := false;
    for i := 0 to 64
      invariant lowFound <==> exists k :: 0 <= k < i && mask[k]
      invariant if lowFound then low < high <= i && mask[low] && mask[high - 1] else low == 0 && high == 64
      invariant forall k :: 0 <= k < i && mask[k] ==> low <= k < high
    {
      if mask[i] {
        if lowFound {
          high := i + 1;
        } else {
          high, low := i + 1, i;
          lowFound := true;
        }
      }
    }
  }

  /** Some bit of `x` in [k, 2k) is set. */
  predicate UpperHalf(x: nat, k: nat) {
    ShiftRight(x, k) % Pow2(k) != 0
  }

  /** Shifts out the lower half of a number whose upper half is not empty. */
  method Halve(v: nat, x: nat, r: nat, k: nat) returns (y: nat, s: nat)
    requires x == ShiftRight(v, r) && 0 < x < Pow2(k + k)
    ensures y == ShiftRight(v, s) && 0 < y < Pow2(k) && r <= s <= r + k
  {
    Pow2Sum(k, k);
    ShiftedBelow(x, k, Pow2(k));
    SmallModulo(ShiftRight(x, k), Pow2(k));
    ShiftedTwice(v, r, k);
    Recombined(x, k);
    y, s := x, r;
    if UpperHalf(x, k) {
      y, s := ShiftRight(x, k), r + k;
    }
  }

  /** The integer part of the binary logarithm of a positive 32-bit number. */
  method LogB2(v: nat) returns (r: nat)
    requires 0 < v < UINT32
    ensures r < 32 && Pow2(r) <= v < Pow2(r + 1)
  {
    Pow2Of32();
    var x, k := v, 16;
    x, r := Halve(v, x, 0, k);
    k := 8;
    x, r := Halve(v, x, r, k);
    k := 4;
    x, r := Halve(v, x, r, k);
    k := 2;
    x, r := Halve(v, x, r, k);
    k := 1;
    x, r := Halve(v, x, r, k);
    assert x == 1;
    Recombined(v, r);
  }

  function Log2(n: nat): nat {
    if n < 2 then 0 else 1 + Log2(n / 2)
  }

  lemma {:induction false} Log2Is(v: nat, r: nat)
    requires Pow2(r) <= v < Pow2(r + 1)
    ensures r == Log2(v)
  {
    if r > 0 {
      assert Pow2(r - 1) <= v / 2 < Pow2(r);
      Log2Is(v / 2, r - 1);
    }
  }

  predicate IsPowerOf2(n: nat) {
    n == Pow2(Log2(n))
  }

  // ----- the configuration and what initialisation makes of it -----

  /** A mask with limits that enclose its bits. */
  datatype Field = Field(mask: Mask, low: nat, high: nat) {

    ghost predicate Valid() {
      Within(mask, low, high)
    }

    function Gather(val: nat): nat
      requires high <= 64
    {
      Packed(mask, val, low, high) % UINT32
    }

    /** The field fits into 32 bits. */
    predicate Narrow()
      requires high <= 64
    {
      Count(mask, low, high) <= 32
    }
  }

  /** The address mapping as configured: the position of the channel bits, or -1 if the masks name them. */
  datatype Config = Config(
    chipStart: int, chip: Mask, bk: Mask, row: Mask, col: Mask, burst: Mask, nChannel: nat, nSub: nat)
  {

    /** What initialisation asserts, and shift counts that the machine's words allow. */
    ghost predicate Valid() {
      && -1 <= chipStart && 0 < nChannel < 0x8000_0000 && 0 < nSub < 0x8000_0000
      && IsPowerOf2(nSub) && nChannel * nSub <= UINT32
      && (chipStart == -1 ==> IsPowerOf2(nChannel))
      && (chipStart >= 0 && IsPowerOf2(nChannel) ==> chipStart + Log2(nChannel) <= 64)
      && (chipStart >= 0 && !IsPowerOf2(nChannel) ==> chipStart <= 30)
    }

    ghost predicate InsertsChip() {
      chipStart >= 0 && IsPowerOf2(nChannel)
    }

    /** The masks cover the bits below `width` of an address without its channel bits. */
    ghost predicate Covers(width: nat) {
      && width + (if InsertsChip() then Log2(nChannel) else 0) <= 64
      && chipStart <= width
      && forall i :: 0 <= i < width ==> bk[i] || row[i] || col[i] || (chipStart == -1 && chip[i])
    }

    /** The number of addresses that the masks and the channels cover. */
    ghost function Limit(width: nat): nat {
      if chipStart == -1 then Pow2(width) else nChannel * Pow2(width)
    }
  }

  datatype Translation = Translation(
    chipStart: int, chip: Field, bk: Field, row: Field, col: Field, burst: Field,
    subMask: Mask, gap: nat, nChannel: nat, nSub: nat)

  /** The mask with room for `n` more bits at a position; what is shifted beyond bit 63 is lost. */
  function Inserted(mask: Mask, start: nat, n: nat): Mask
    requires start + n <= 64
  {
    mask[..start] + seq(n, _ => false) + mask[start..64 - n]
  }

  function Range(start: nat, end: nat): Mask {
    seq(64, i => start <= i < end)
  }

  /** The positions of the lowest `n` selected bits in [low, high). */
  function Lowest(f: Field, n: nat): Mask
    requires f.high <= 64
  {
    seq(64, i requires 0 <= i < 64 => f.low <= i < f.high && f.mask[i] && Count(f.mask, f.low, i) < n)
  }

  ghost predicate Translates(c: Config, t: Translation)
    requires c.Valid()
  {
    && t.chipStart == c.chipStart && t.nChannel == c.nChannel && t.nSub == c.nSub
    && t.gap == c.nChannel - Pow2(Log2(c.nChannel))
    && t.chip.Valid() && t.bk.Valid() && t.row.Valid() && t.col.Valid() && t.burst.Valid()
    && (var n := Log2(c.nChannel);
        if c.InsertsChip() then
          && t.bk.mask == Inserted(c.bk, c.chipStart, n) && t.row.mask == Inserted(c.row, c.chipStart, n)
          && t.col.mask == Inserted(c.col, c.chipStart, n)
          && forall i :: 0 <= i < 64 ==> t.chip.mask[i] == (c.chip[i] || c.chipStart <= i < c.chipStart + n)
        else
          t.bk.mask == c.bk && t.row.mask == c.row && t.col.mask == c.col && t.chip.mask == c.chip)
    && t.burst.mask == c.burst
    && t.subMask == if c.nSub > 1 then Lowest(t.bk, Log2(c.nSub)) else Range(0, 0)
  }

  // ----- translating an address -----

  datatype RawAddress = RawAddress(chip: nat, bk: nat, row: nat, col: nat, burst: nat, subPartition: nat)

  /** The address without its channel: the quotient of the upper bits stitched to the lower bits. */
  function Rest(t: Translation, addr: nat): nat
    requires t.gap > 0 ==> 0 <= t.chipStart && 0 < t.nChannel
  {
    if t.gap == 0 then addr
    else ShiftRight(addr, t.chipStart) / t.nChannel * Pow2(t.chipStart) + LowBits(addr, t.chipStart)
  }

  ghost predicate Usable(t: Translation) {
    && t.chip.Valid() && t.bk.Valid() && t.row.Valid() && t.col.Valid() && t.burst.Valid()
    && 0 < t.nChannel && 0 < t.nSub && (t.gap > 0 ==> 0 <= t.chipStart)
  }

  function Decoded(t: Translation, addr: nat): RawAddress
    requires Usable(t)
  {
    var rest := Rest(t, addr);
    var chip := if t.gap == 0 then t.chip.Gather(addr) else ShiftRight(addr, t.chipStart) % t.nChannel % UINT32;
    var bk := t.bk.Gather(rest);
    RawAddress(chip, bk, t.row.Gather(rest), t.col.Gather(rest), t.burst.Gather(rest),
               (chip * t.nSub + LowBits(bk, Log2(t.nSub))) % UINT32)
  }

  function Without(removed: Mask): Mask {
    seq(64, i requires 0 <= i < 64 => !removed[i])
  }

  function Either(a: Mask, b: Mask): Mask {
    seq(64, i requires 0 <= i < 64 => a[i] || b[i])
  }

  function PartitionAddress(t: Translation, addr: nat): nat
    requires Usable(t)
  {
    if t.gap == 0 then Packed(Without(Either(t.chip.mask, t.subMask)), addr, 0, 64)
    else Packed(Without(t.subMask), Rest(t, addr), 0, 64)
  }

  class AddressTranslation {
    var chipStart: int
    var chip: Field
    var bk: Field
    var row: Field
    var col: Field
    var burst: Field
    var subMask: Mask
    var gap: nat
    var nChannel: nat
    var nSub: nat

    ghost function State(): Translation
      reads this
    {
      Translation(chipStart, chip, bk, row, col, burst, subMask, gap, nChannel, nSub)
    }

    /** Makes room for the channel bits if there are any, and finds the limits of the masks. */
    method Init(c: Config)
      requires c.Valid()
      modifies this
      ensures Translates(c, State())
    {
      var nchipbits := LogB2(c.nChannel);
      Log2Is(c.nChannel, nchipbits);
      nChannel, nSub, chipStart := c.nChannel, c.nSub, c.chipStart;
      gap := c.nChannel - Pow2(nchipbits);
      var chipMask, bkMask, rowMask, colMask := c.chip, c.bk, c.row, c.col;
      if chipStart != -1 && gap == 0 {
        bkMask := Inserted(c.bk, c.chipStart, nchipbits);
        rowMask := Inserted(c.row, c.chipStart, nchipbits);
        colMask := Inserted(c.col, c.chipStart, nchipbits);
        chipMask := WithChip(c.chip, c.chipStart, nchipbits);
      }
      chip := Limited(chipMask);
      bk := Limited(bkMask);
      row := Limited(rowMask);
      col := Limited(colMask);
      burst := Limited(c.burst);
      subMask := Range(0, 0);
      if c.nSub > 1 {
        var n := LogB2(c.nSub);
        Log2Is(c.nSub, n);
        subMask := LowestBits(bk, n);
      }
    }

    static method WithChip(mask: Mask, start: nat, n: nat) returns (r: Mask)
      requires start + n <= 64
      ensures forall k :: 0 <= k < 64 ==> r[k] == (mask[k] || start <= k < start + n)
    {
      r := mask;
      for i := start to start + n
        invariant forall k :: 0 <= k < 64 ==> r[k] == (mask[k] || start <= k < i)
      {
        r := r[i := true];
      }
    }

    static method Limited(mask: Mask) returns (f: Field)
      ensures f.mask == mask && f.Valid()
    {
      var high, low := GetMaskLimit(mask);
      f := Field(mask, low, high);
    }

    /** Collects the lowest bits of a field, until there are enough of them. */
    static method LowestBits(f: Field, n: nat) returns (m: Mask)
      requires f.high <= 64 && 0 < n
      ensures m == Lowest(f, n)
    {
      m := Range(0, 0);
      var pos, i := 0, f.low;
      while i < f.high && pos < n
        invariant f.low <= i && (i <= f.high || i == f.low)
        invariant i <= f.high ==> pos == Count(f.mask, f.low, i)
        invariant i > f.high ==> pos == 0
        invariant forall k :: 0 <= k < 64 ==> m[k] == (f.low <= k < i && k < f.high && f.mask[k])
        invariant forall k :: f.low <= k < i && k < f.high ==> Count(f.mask, f.low, k) < n
        decreases f.high - i
      {
        if f.mask[i] {
          m := m[i := true];
          pos := pos + 1;
        }
        i := i + 1;
      }
      forall k | 0 <= k < 64
        ensures m[k] == Lowest(f, n)[k]
      {
        if i <= k < f.high {
          CountGrows(f.mask, f.low, i, k);
        }
      }
    }

    method AddrDecTlx(addr: nat) returns (tlx: RawAddress)
      requires Usable(State())
      ensures tlx == Decoded(State(), addr)
    {
      var chipPart, rest := addr, addr;
      if gap == 0 {
        chipPart := PackBits(chip.mask, addr, chip.high, chip.low);
      } else {
        chipPart := ShiftRight(addr, chipStart) % nChannel;
        rest := ShiftRight(addr, chipStart) / nChannel * Pow2(chipStart) + LowBits(addr, chipStart);
      }
      var bkPart := PackBits(bk.mask, rest, bk.high, bk.low);
      var rowPart := PackBits(row.mask, rest, row.high, row.low);
      var colPart := PackBits(col.mask, rest, col.high, col.low);
      var burstPart := PackBits(burst.mask, rest, burst.high, burst.low);
      var c, b := chipPart % UINT32, bkPart % UINT32;
      tlx := RawAddress(c, b, rowPart % UINT32, colPart % UINT32, burstPart % UINT32,
                        (c * nSub + LowBits(b, Log2(nSub))) % UINT32);
    }

    method GetPartitionAddress(addr: nat) returns (a: nat)
      requires Usable(State())
      ensures a == PartitionAddress(State(), addr)
    {
      if gap == 0 {
        a := PackBits(Without(Either(chip.mask, subMask)), addr, 64, 0);
      } else {
        var rest := ShiftRight(addr, chipStart) / nChannel * Pow2(chipStart) + LowBits(addr, chipStart);
        a := PackBits(Without(subMask), rest, 64, 0);
      }
    }
  }

  lemma {:induction false} CountGrows(mask: Mask, low: nat, mid: nat, high: nat)
    requires mid <= high <= 64
    ensures Count(mask, low, mid) <= Count(mask, low, high)
    decreases high - mid
  {
    if mid < high {
      CountGrows(mask, low, mid, high - 1);
    }
  }

  // ----- no two addresses are translated alike -----

  lemma GatherDeterminesBits(f: Field, v: nat, w: nat)
    requires f.Valid() && f.Narrow()
    ensures f.Gather(v) == f.Gather(w) <==> forall i :: 0 <= i < 64 && f.mask[i] ==> Bit(v, i) == Bit(w, i)
  {
    PackedDeterminesBits(f.mask, v, w, f.low, f.high);
    PackedFits(f.mask, v, f.low, f.high);
    PackedFits(f.mask, w, f.low, f.high);
    Pow2Grows(Count(f.mask, f.low, f.high), 32);
    Pow2Of32();
    SmallModulo(Packed(f.mask, v, f.low, f.high), UINT32);
    SmallModulo(Packed(f.mask, w, f.low, f.high), UINT32);
  }

  ghost predicate NarrowFields(t: Translation)
    requires Usable(t)
  {
    t.chip.Narrow() && t.bk.Narrow() && t.row.Narrow() && t.col.Narrow()
  }

  /** Both results agree on channel, bank, row and column. */
  ghost predicate SameCell(a: RawAddress, b: RawAddress) {
    a.chip == b.chip && a.bk == b.bk && a.row == b.row && a.col == b.col
  }

  lemma QuotientAndRemainder(a: nat, b: nat, n: nat)
    requires 0 < n && a / n == b / n && a % n == b % n
    ensures a == b
  {
    assert a == n * (a / n) + a % n;
    assert b == n * (b / n) + b % n;
  }

  lemma StitchIsUnique(p: nat, x: nat, q: nat, y: nat, s: nat)
    requires x < Pow2(s) && y < Pow2(s) && p * Pow2(s) + x == q * Pow2(s) + y
    ensures p == q && x == y
  {
    Stitched(p, x, s);
    Stitched(q, y, s);
  }

  lemma StitchedQuotients(a: nat, x: nat, b: nat, y: nat, s: nat, n: nat)
    requires 0 < n && x < Pow2(s) && y < Pow2(s) && a / n * Pow2(s) + x == b / n * Pow2(s) + y && a % n == b % n
    ensures a == b && x == y
  {
    var p, q := a / n, b / n;
    StitchIsUnique(p, x, q, y, s);
    QuotientAndRemainder(a, b, n);
  }

  /** With a channel count that is no power of two, the channel and the stitched rest determine the address. */
  lemma ChannelAndRest(t: Translation, v: nat, w: nat)
    requires 0 < t.gap && 0 <= t.chipStart && 0 < t.nChannel && Rest(t, v) == Rest(t, w)
    requires ShiftRight(v, t.chipStart) % t.nChannel == ShiftRight(w, t.chipStart) % t.nChannel
    ensures v == w
  {
    var s := t.chipStart;
    Recombined(v, s);
    Recombined(w, s);
    StitchedQuotients(ShiftRight(v, s), LowBits(v, s), ShiftRight(w, s), LowBits(w, s), s, t.nChannel);
  }

  lemma DividedBelow(a: nat, n: nat, b: nat)
    requires 0 < n && a < n * b
    ensures a / n < b
  {
    var q := a / n;
    assert a == n * q + a % n;
    MulMono(b, q, n);
  }

  lemma StitchedBelow(q: nat, low: nat, s: nat, k: nat)
    requires q < Pow2(k) && low < Pow2(s)
    ensures q * Pow2(s) + low < Pow2(k + s)
  {
    Pow2Sum(k, s);
    MulMono(q + 1, Pow2(k), Pow2(s));
    MulSuccessor(q, Pow2(s));
  }

  lemma QuotientIsBelow(addr: nat, s: nat, k: nat, n: nat)
    requires 0 < n && addr < n * Pow2(k + s)
    ensures ShiftRight(addr, s) / n < Pow2(k)
  {
    Pow2Sum(k, s);
    MulAssociates(n, Pow2(k), Pow2(s));
    ShiftedBelow(addr, s, n * Pow2(k));
    DividedBelow(ShiftRight(addr, s), n, Pow2(k));
  }

  lemma RestIsBelow(t: Translation, addr: nat, width: nat)
    requires 0 < t.gap && 0 <= t.chipStart <= width && 0 < t.nChannel && addr < t.nChannel * Pow2(width)
    ensures Rest(t, addr) < Pow2(width)
  {
    var s, k := t.chipStart, width - t.chipStart;
    QuotientIsBelow(addr, s, k, t.nChannel);
    Recombined(addr, s);
    StitchedBelow(ShiftRight(addr, s) / t.nChannel, LowBits(addr, s), s, k);
  }

  /** Equal banks, rows and columns, and equal channels where the masks hold the channel, mean equal bits. */
  lemma SameCellSameBits(t: Translation, v: nat, w: nat, i: nat)
    requires Usable(t) && NarrowFields(t) && SameCell(Decoded(t, v), Decoded(t, w)) && i < 64
    requires t.bk.mask[i] || t.row.mask[i] || t.col.mask[i] || (t.gap == 0 && t.chip.mask[i])
    ensures Bit(Rest(t, v), i) == Bit(Rest(t, w), i)
  {
    GatherDeterminesBits(t.bk, Rest(t, v), Rest(t, w));
    GatherDeterminesBits(t.row, Rest(t, v), Rest(t, w));
    GatherDeterminesBits(t.col, Rest(t, v), Rest(t, w));
    if t.gap == 0 {
      GatherDeterminesBits(t.chip, v, w);
    }
  }

  lemma TranslatesIsUsable(c: Config, t: Translation)
    requires c.Valid() && Translates(c, t)
    ensures Usable(t) && (t.gap == 0 <==> IsPowerOf2(c.nChannel))
  {
  }

  lemma InsertedAt(mask: Mask, start: nat, n: nat, i: nat)
    requires start + n <= 64 && i < 64
    ensures Inserted(mask, start, n)[i] == if i < start then mask[i] else if i < start + n then false else mask[i - n]
  {
  }

  /** Initialisation keeps the cover: after it every bit of an address, channel bits included, is selected. */
  lemma CoverIsKept(c: Config, t: Translation, width: nat, i: nat)
    requires c.Valid() && Translates(c, t) && c.Covers(width) && Usable(t)
    requires i < width + if c.InsertsChip() then Log2(c.nChannel) else 0
    ensures i < 64 && (t.bk.mask[i] || t.row.mask[i] || t.col.mask[i] || (t.gap == 0 && t.chip.mask[i]))
  {
    if c.InsertsChip() {
      var start, n := c.chipStart, Log2(c.nChannel);
      InsertedAt(c.bk, start, n, i);
      InsertedAt(c.row, start, n, i);
      InsertedAt(c.col, start, n, i);
      var k := if i < start + n then i else i - n;
      assert k < width ==> c.bk[k] || c.row[k] || c.col[k];
    }
  }

  lemma InjectiveForPowersOf2(c: Config, t: Translation, width: nat, v: nat, w: nat)
    requires c.Valid() && Translates(c, t) && c.Covers(width) && Usable(t) && NarrowFields(t) && t.gap == 0
    requires v < c.Limit(width) && w < c.Limit(width) && SameCell(Decoded(t, v), Decoded(t, w))
    ensures v == w
  {
    var n := Log2(c.nChannel);
    var bits := width + if c.InsertsChip() then n else 0;
    Pow2Sum(n, width);
    assert c.Limit(width) == Pow2(bits);
    forall i | 0 <= i < bits
      ensures Bit(v, i) == Bit(w, i)
    {
      CoverIsKept(c, t, width, i);
      SameCellSameBits(t, v, w, i);
    }
    SameBits(v, w, bits);
  }

  lemma InjectiveForGaps(c: Config, t: Translation, width: nat, v: nat, w: nat)
    requires c.Valid() && Translates(c, t) && c.Covers(width) && Usable(t) && NarrowFields(t) && t.gap > 0
    requires v < c.Limit(width) && w < c.Limit(width) && SameCell(Decoded(t, v), Decoded(t, w))
    ensures v == w
  {
    RestIsBelow(t, v, width);
    RestIsBelow(t, w, width);
    forall i | 0 <= i < width
      ensures Bit(Rest(t, v), i) == Bit(Rest(t, w), i)
    {
      CoverIsKept(c, t, width, i);
      SameCellSameBits(t, v, w, i);
    }
    SameBits(Rest(t, v), Rest(t, w), width);
    ChannelIsRemainder(t, v);
    ChannelIsRemainder(t, w);
    ChannelAndRest(t, v, w);
  }

  lemma ChannelIsRemainder(t: Translation, addr: nat)
    requires Usable(t) && t.gap > 0 && t.nChannel < UINT32
    ensures Decoded(t, addr).chip == ShiftRight(addr, t.chipStart) % t.nChannel < t.nChannel
  {
    SmallModulo(ShiftRight(addr, t.chipStart) % t.nChannel, UINT32);
  }

  /** If the configured masks cover the address bits, then for every number of channels no two addresses that
      the channels can hold have the same channel, bank, row and column. */
  lemma DecodingIsInjective(c: Config, t: Translation, width: nat, v: nat, w: nat)
    requires c.Valid() && Translates(c, t) && c.Covers(width) && NarrowFields(t)
    requires v < c.Limit(width) && w < c.Limit(width) && SameCell(Decoded(t, v), Decoded(t, w))
    ensures v == w
  {
    TranslatesIsUsable(c, t);
    if t.gap == 0 {
      InjectiveForPowersOf2(c, t, width, v, w);
    } else {
      InjectiveForGaps(c, t, width, v, w);
    }
  }

  // ----- what the parts of a decoded address are -----

  lemma FieldBit(f: Field, val: nat, i: nat)
    requires f.Valid() && f.Narrow() && i < 64 && f.mask[i]
    ensures Bit(f.Gather(val), Count(f.mask, f.low, i)) == Bit(val, i)
    ensures f.Gather(val) < Pow2(Count(f.mask, f.low, f.high))
  {
    PackedFits(f.mask, val, f.low, f.high);
    Pow2Grows(Count(f.mask, f.low, f.high), 32);
    Pow2Of32();
    SmallModulo(Packed(f.mask, val, f.low, f.high), UINT32);
    PackedBit(f.mask, val, f.low, f.high, i);
  }

  /** Bank, row, column and burst are the bits that their masks select, in order. */
  lemma PartsHoldTheirBits(t: Translation, addr: nat, i: nat)
    requires Usable(t) && NarrowFields(t) && t.burst.Narrow() && i < 64
    ensures var d, rest := Decoded(t, addr), Rest(t, addr);
      && (t.bk.mask[i] ==> Bit(d.bk, Count(t.bk.mask, t.bk.low, i)) == Bit(rest, i))
      && (t.row.mask[i] ==> Bit(d.row, Count(t.row.mask, t.row.low, i)) == Bit(rest, i))
      && (t.col.mask[i] ==> Bit(d.col, Count(t.col.mask, t.col.low, i)) == Bit(rest, i))
      && (t.burst.mask[i] ==> Bit(d.burst, Count(t.burst.mask, t.burst.low, i)) == Bit(rest, i))
      && (t.gap == 0 && t.chip.mask[i] ==> Bit(d.chip, Count(t.chip.mask, t.chip.low, i)) == Bit(addr, i))
  {
    var rest := Rest(t, addr);
    if t.bk.mask[i] {
      FieldBit(t.bk, rest, i);
    }
    if t.row.mask[i] {
      FieldBit(t.row, rest, i);
    }
    if t.col.mask[i] {
      FieldBit(t.col, rest, i);
    }
    if t.burst.mask[i] {
      FieldBit(t.burst, rest, i);
    }
    if t.gap == 0 && t.chip.mask[i] {
      FieldBit(t.chip, addr, i);
    }
  }

  lemma QuotientStitched(a: nat, low: nat, s: nat, n: nat)
    requires 0 < n && low < Pow2(s)
    ensures var rest := a / n * Pow2(s) + low;
      a == ShiftRight(rest, s) * n + a % n && LowBits(rest, s) == low
  {
    var q := a / n;
    assert a == n * q + a % n;
    Stitched(q, low, s);
  }

  /** With a channel count that is no power of two, the upper part of the address is divided by it: the channel is the
      remainder, and the rest holds the quotient above the unchanged lower bits. */
  lemma ChannelIsDividedOut(t: Translation, addr: nat)
    requires Usable(t) && t.gap > 0 && t.nChannel < UINT32
    ensures var chip, rest, s := Decoded(t, addr).chip, Rest(t, addr), t.chipStart;
      && ShiftRight(addr, s) == ShiftRight(rest, s) * t.nChannel + chip && chip < t.nChannel
      && LowBits(rest, s) == LowBits(addr, s)
  {
    ChannelIsRemainder(t, addr);
    LowBitsFit(addr, t.chipStart);
    QuotientStitched(ShiftRight(addr, t.chipStart), LowBits(addr, t.chipStart), t.chipStart, t.nChannel);
  }

  /** The bits that name the channel, where the masks hold it, and the sub partition. */
  ghost predicate NamesPartition(t: Translation, i: nat)
    requires i < 64
  {
    t.subMask[i] || (t.gap == 0 && t.chip.mask[i])
  }

  /** The number of bits below `i` that do not name the partition. */
  ghost function Kept(t: Translation, i: nat): nat
    requires i <= 64
  {
    if i == 0 then 0 else Kept(t, i - 1) + if NamesPartition(t, i - 1) then 0 else 1
  }

  lemma {:induction false} KeptIsCount(t: Translation, mask: Mask, i: nat)
    requires i <= 64 && forall k :: 0 <= k < 64 ==> mask[k] == !NamesPartition(t, k)
    ensures Count(mask, 0, i) == Kept(t, i)
  {
    if i > 0 {
      KeptIsCount(t, mask, i - 1);
    }
  }

  /** The address within a partition has no bit that names the partition, and all others, in order. */
  lemma PartitionAddressHolds(t: Translation, addr: nat, i: nat)
    requires Usable(t) && i < 64
    ensures PartitionAddress(t, addr) < Pow2(Kept(t, 64))
    ensures !NamesPartition(t, i) ==> Bit(PartitionAddress(t, addr), Kept(t, i)) == Bit(Rest(t, addr), i)
  {
    var mask := Without(if t.gap == 0 then Either(t.chip.mask, t.subMask) else t.subMask);
    KeptIsCount(t, mask, i);
    KeptIsCount(t, mask, 64);
    PackedFits(mask, Rest(t, addr), 0, 64);
    if !NamesPartition(t, i) {
      PackedBit(mask, Rest(t, addr), 0, 64, i);
    }
  }

  // ----- every address goes to an existing channel -----

  lemma {:induction false} OnesHaveAllBits(n: nat, i: nat)
    requires i < n
    ensures Bit(Pow2(n) - 1, i)
  {
    if i > 0 {
      assert (Pow2(n) - 1) / 2 == Pow2(n - 1) - 1;
      OnesHaveAllBits(n - 1, i - 1);
    }
  }

  lemma {:induction false} PackedOnes(mask: Mask, val: nat, low: nat, high: nat)
    requires high <= 64 && forall i :: 0 <= i < 64 ==> Bit(val, i)
    ensures Packed(mask, val, low, high) == Pow2(Count(mask, low, high)) - 1
  {
    if high > low {
      PackedOnes(mask, val, low, high - 1);
    }
  }

  lemma ChannelIsGathered(t: Translation, addr: nat)
    requires Usable(t) && NarrowFields(t) && t.gap == 0
    ensures Decoded(t, addr).chip == Packed(t.chip.mask, addr, t.chip.low, t.chip.high)
    ensures Decoded(t, addr).chip < Pow2(Count(t.chip.mask, t.chip.low, t.chip.high))
  {
    var f := t.chip;
    Pow2Grows(Count(f.mask, f.low, f.high), 32);
    Pow2Of32();
    PackedFits(f.mask, addr, f.low, f.high);
    SmallModulo(Packed(f.mask, addr, f.low, f.high), UINT32);
  }

  /** The address of all ones goes to the channel of all ones. */
  lemma OnesGoToLastChannel(t: Translation)
    requires Usable(t) && NarrowFields(t) && t.gap == 0
    ensures Decoded(t, Pow2(64) - 1).chip == Pow2(Count(t.chip.mask, t.chip.low, t.chip.high)) - 1
  {
    var ones := Pow2(64) - 1;
    forall i | 0 <= i < 64
      ensures Bit(ones, i)
    {
      OnesHaveAllBits(64, i);
    }
    ChannelIsGathered(t, ones);
    PackedOnes(t.chip.mask, ones, t.chip.low, t.chip.high);
  }

  /** When the masks hold the channel, it is in range for all addresses if and only if the channel mask has no
      more bits than the number of channels needs. */
  lemma ChannelsExistIff(c: Config, t: Translation)
    requires c.Valid() && Translates(c, t) && NarrowFields(t) && IsPowerOf2(c.nChannel)
    ensures (forall addr: nat :: Decoded(t, addr).chip < c.nChannel) <==>
      Count(t.chip.mask, t.chip.low, t.chip.high) <= Log2(c.nChannel)
  {
    TranslatesIsUsable(c, t);
    var bits, n := Count(t.chip.mask, t.chip.low, t.chip.high), Log2(c.nChannel);
    if bits <= n {
      Pow2Grows(bits, n);
      forall addr: nat
        ensures Decoded(t, addr).chip < c.nChannel
      {
        ChannelIsGathered(t, addr);
      }
    } else {
      OnesGoToLastChannel(t);
      Pow2Grows(n + 1, bits);
    }
  }

  lemma {:induction false} CountOfRange(mask: Mask, start: nat, n: nat, low: nat, high: nat)
    requires high <= 64 && forall i :: 0 <= i < 64 && mask[i] ==> start <= i < start + n
    ensures Count(mask, low, high) <= (if high <= start then 0 else if high <= start + n then high - start else n)
  {
    if high > low {
      CountOfRange(mask, start, n, low, high - 1);
    }
  }

  /** When the channel bits are inserted by position, or the count is no power of two, the channel is in range. */
  lemma ChannelExists(c: Config, t: Translation, addr: nat)
    requires c.Valid() && Translates(c, t) && NarrowFields(t)
    requires IsPowerOf2(c.nChannel) ==> c.chipStart >= 0 && forall i :: 0 <= i < 64 ==> !c.chip[i]
    ensures Decoded(t, addr).chip < c.nChannel
  {
    TranslatesIsUsable(c, t);
    if t.gap == 0 {
      CountOfRange(t.chip.mask, c.chipStart, Log2(c.nChannel), t.chip.low, t.chip.high);
      ChannelsExistIff(c, t);
    } else {
      ChannelIsRemainder(t, addr);
    }
  }

  // ----- the partition address -----

  lemma {:induction false} CountBelow(f: Field, n: nat, i: nat)
    requires f.high <= 64 && i <= 64 && i <= f.high
    ensures Count(Lowest(f, n), f.low, i) == if Count(f.mask, f.low, i) < n then Count(f.mask, f.low, i) else n
  {
    if i > f.low {
      CountBelow(f, n, i - 1);
    }
  }

  lemma NextBitLow(p: nat, k: nat, n: nat, set_: bool)
    requires p < Pow2(k) && k < n
    ensures LowBits(p, n) == p && LowBits(p + (if set_ then Pow2(k) else 0), n) == p + if set_ then Pow2(k) else 0
  {
    Pow2Grows(k, n);
    Pow2Grows(k + 1, n);
    LowBitsOfSmall(p, n);
    LowBitsOfSmall(p + if set_ then Pow2(k) else 0, n);
  }

  lemma NextBitHigh(p: nat, k: nat, n: nat, set_: bool)
    requires n <= k
    ensures LowBits(p + (if set_ then Pow2(k) else 0), n) == LowBits(p, n)
  {
    Pow2Sum(k - n, n);
    LowBitsOfSum(p, Pow2(k - n), n);
  }

  lemma LowestStep(f: Field, n: nat, val: nat, high: nat)
    requires f.low < high <= f.high <= 64
    ensures Packed(Lowest(f, n), val, f.low, high) == Packed(Lowest(f, n), val, f.low, high - 1)
         + if f.mask[high - 1] && Bit(val, high - 1) && Count(f.mask, f.low, high - 1) < n
           then Pow2(Count(f.mask, f.low, high - 1)) else 0
  {
    CountBelow(f, n, high - 1);
  }

  /** The lowest bits of a packed field are the packed lowest bits of the field. */
  lemma {:induction false} LowestOfPacked(f: Field, n: nat, val: nat, high: nat)
    requires f.high <= 64 && high <= f.high
    ensures LowBits(Packed(f.mask, val, f.low, high), n) == Packed(Lowest(f, n), val, f.low, high)
  {
    if high > f.low {
      var k, p := Count(f.mask, f.low, high - 1), Packed(f.mask, val, f.low, high - 1);
      var set_ := f.mask[high - 1] && Bit(val, high - 1);
      LowestOfPacked(f, n, val, high - 1);
      LowestStep(f, n, val, high);
      PackedFits(f.mask, val, f.low, high - 1);
      assert Packed(f.mask, val, f.low, high) == p + if set_ then Pow2(k) else 0;
      if k < n {
        NextBitLow(p, k, n, set_);
      } else {
        NextBitHigh(p, k, n, set_);
      }
    } else {
      LowBitsOfSmall(0, n);
    }
  }

  /** Equal low bank bits mean equal address bits at the positions that form the sub partition. */
  lemma SameSubPartitionBits(t: Translation, n: nat, v: nat, w: nat, i: nat)
    requires t.bk.Valid() && t.bk.Narrow() && i < 64 && Lowest(t.bk, n)[i]
    requires LowBits(t.bk.Gather(v), n) == LowBits(t.bk.Gather(w), n)
    ensures Bit(v, i) == Bit(w, i)
  {
    var f := t.bk;
    Pow2Grows(Count(f.mask, f.low, f.high), 32);
    Pow2Of32();
    PackedFits(f.mask, v, f.low, f.high);
    PackedFits(f.mask, w, f.low, f.high);
    SmallModulo(Packed(f.mask, v, f.low, f.high), UINT32);
    SmallModulo(Packed(f.mask, w, f.low, f.high), UINT32);
    LowestOfPacked(f, n, v, f.high);
    LowestOfPacked(f, n, w, f.high);
    PackedDeterminesBits(Lowest(f, n), v, w, f.low, f.high);
  }

  lemma LowBitsFit(x: nat, n: nat)
    ensures LowBits(x, n) < Pow2(n)
  {
    Recombined(x, n);
  }

  lemma DigitsAreUnique(a: nat, x: nat, b: nat, y: nat, n: nat)
    requires x < n && y < n && a * n + x == b * n + y
    ensures a == b && x == y
  {
    if a < b {
      MulMono(a + 1, b, n);
      MulSuccessor(a, n);
    } else if b < a {
      MulMono(b + 1, a, n);
      MulSuccessor(b, n);
    }
  }

  lemma DigitsFit(a: nat, x: nat, b: nat, n: nat)
    requires a < b && x < n && b * n <= UINT32
    ensures (a * n + x) % UINT32 == a * n + x
  {
    MulMono(a + 1, b, n);
    MulSuccessor(a, n);
    var y := a * n + x;
    assert y < UINT32;
  }

  lemma QuotientIsSmaller(a: nat, n: nat)
    requires 0 < n
    ensures a / n <= a
  {
    MulMono(1, n, a + 1);
    DividedBelow(a, n, a + 1);
  }

  lemma SubPartitionOf(t: Translation, addr: nat)
    requires Usable(t)
    ensures var d := Decoded(t, addr); d.subPartition == (d.chip * t.nSub + LowBits(d.bk, Log2(t.nSub))) % UINT32
  {
  }

  /** The sub partition determines the channel and the low bits of the bank. */
  lemma SubPartitionDetermines(t: Translation, a: RawAddress, b: RawAddress)
    requires 0 < t.nChannel && 0 < t.nSub && IsPowerOf2(t.nSub) && t.nChannel * t.nSub <= UINT32
    requires a.chip < t.nChannel && b.chip < t.nChannel && a.subPartition == b.subPartition
    requires a.subPartition == (a.chip * t.nSub + LowBits(a.bk, Log2(t.nSub))) % UINT32
    requires b.subPartition == (b.chip * t.nSub + LowBits(b.bk, Log2(t.nSub))) % UINT32
    ensures a.chip == b.chip && LowBits(a.bk, Log2(t.nSub)) == LowBits(b.bk, Log2(t.nSub))
  {
    var n, k := t.nSub, Log2(t.nSub);
    LowBitsFit(a.bk, k);
    LowBitsFit(b.bk, k);
    DigitsFit(a.chip, LowBits(a.bk, k), t.nChannel, n);
    DigitsFit(b.chip, LowBits(b.bk, k), t.nChannel, n);
    DigitsAreUnique(a.chip, LowBits(a.bk, k), b.chip, LowBits(b.bk, k), n);
  }

  lemma SubPartitionsFit(c: Config, t: Translation)
    requires c.Valid() && Translates(c, t)
    ensures t.nChannel * t.nSub <= UINT32 && IsPowerOf2(t.nSub)
  {
  }

  lemma SameSubPartition(c: Config, t: Translation, v: nat, w: nat)
    requires c.Valid() && Translates(c, t) && Usable(t)
    requires Decoded(t, v).chip < c.nChannel && Decoded(t, w).chip < c.nChannel
    requires Decoded(t, v).subPartition == Decoded(t, w).subPartition
    ensures Decoded(t, v).chip == Decoded(t, w).chip
    ensures LowBits(Decoded(t, v).bk, Log2(t.nSub)) == LowBits(Decoded(t, w).bk, Log2(t.nSub))
  {
    SubPartitionOf(t, v);
    SubPartitionOf(t, w);
    SubPartitionsFit(c, t);
    SubPartitionDetermines(t, Decoded(t, v), Decoded(t, w));
  }

  lemma RestIsSmaller(t: Translation, addr: nat)
    requires Usable(t)
    ensures Rest(t, addr) <= addr
  {
    if t.gap > 0 {
      Recombined(addr, t.chipStart);
      var a := ShiftRight(addr, t.chipStart);
      QuotientIsSmaller(a, t.nChannel);
      var q := a / t.nChannel;
      MulMono(q, a, Pow2(t.chipStart));
    }
  }

  lemma SamePartitionSameBits(c: Config, t: Translation, v: nat, w: nat, i: nat)
    requires c.Valid() && Translates(c, t) && Usable(t) && NarrowFields(t) && i < 64
    requires PartitionAddress(t, v) == PartitionAddress(t, w) && Decoded(t, v).chip == Decoded(t, w).chip
    requires LowBits(Decoded(t, v).bk, Log2(t.nSub)) == LowBits(Decoded(t, w).bk, Log2(t.nSub))
    ensures Bit(Rest(t, v), i) == Bit(Rest(t, w), i)
  {
    if t.subMask[i] {
      SameSubPartitionBits(t, Log2(t.nSub), Rest(t, v), Rest(t, w), i);
    } else if t.gap == 0 && t.chip.mask[i] {
      GatherDeterminesBits(t.chip, v, w);
    } else if t.gap == 0 {
      PackedDeterminesBits(Without(Either(t.chip.mask, t.subMask)), v, w, 0, 64);
    } else {
      PackedDeterminesBits(Without(t.subMask), Rest(t, v), Rest(t, w), 0, 64);
    }
  }

  /** Within the existing channels no two addresses share both the sub partition and the partition address. */
  lemma PartitioningIsInjective(c: Config, t: Translation, v: nat, w: nat)
    requires c.Valid() && Translates(c, t) && NarrowFields(t) && v < Pow2(64) && w < Pow2(64)
    requires Decoded(t, v).chip < c.nChannel && Decoded(t, w).chip < c.nChannel
    requires Decoded(t, v).subPartition == Decoded(t, w).subPartition
    requires PartitionAddress(t, v) == PartitionAddress(t, w)
    ensures v == w
  {
    TranslatesIsUsable(c, t);
    SameSubPartition(c, t, v, w);
    RestIsSmaller(t, v);
    RestIsSmaller(t, w);
    forall i | 0 <= i < 64
      ensures Bit(Rest(t, v), i) == Bit(Rest(t, w), i)
    {
      SamePartitionSameBits(c, t, v, w, i);
    }
    SameBits(Rest(t, v), Rest(t, w), 64);
    if t.gap > 0 {
      ChannelIsRemainder(t, v);
      ChannelIsRemainder(t, w);
      ChannelAndRest(t, v, w);
    }
  }
}
