/** The tag array shared by the caches: lookup, choice of a victim, allocation and fill. */
module CacheTags {

  datatype LineStatus = Invalid | Reserved | Resident | Modified

  datatype Line = Line(tag: nat, blockAddr: nat, allocTime: nat, lastAccessTime: nat, fillTime: nat, status: LineStatus)

  datatype RequestStatus = Hit | HitReserved | Miss | ReservationFail

  datatype ReplacementPolicy = LRU | FIFO

  const UINT_MAX: nat := 0xFFFF_FFFF

  /** The geometry of a cache that allocates on a miss. The set index function is any function into the sets. */
  datatype Geometry = Geometry(nset: nat, assoc: nat, lineSize: nat, policy: ReplacementPolicy, setIndex: nat -> nat) {

    ghost predicate Valid() {
      0 < nset && 0 < assoc && 0 < lineSize && forall a :: setIndex(a) < nset
    }

    /** The first line of the set that an address maps to. */
    function Base(addr: nat): (b: nat)
      requires Valid()
      ensures b + assoc <= nset * assoc
    {
      SetFits(setIndex(addr), nset, assoc);
      setIndex(addr) * assoc
    }

    /** Tags are block addresses: the offset is masked off with a 32-bit mask, which drops the upper half of
        the address as well. */
    function BlockAddr(addr: nat): (b: nat)
      requires 0 < lineSize
    {
      addr % 0x1_0000_0000 - addr % 0x1_0000_0000 % lineSize
    }

    ghost predicate InSet(addr: nat, i: int)
      requires Valid()
    {
      Base(addr) <= i < Base(addr) + assoc
    }
  }

  lemma SetFits(set_: nat, nset: nat, assoc: nat)
    requires set_ < nset
    ensures set_ * assoc + assoc <= nset * assoc
  {
    assert (set_ + 1) * assoc <= nset * assoc;
  }

  lemma BlockAddrIsIdempotent(g: Geometry, addr: nat)
    requires 0 < g.lineSize
    ensures g.BlockAddr(g.BlockAddr(addr)) == g.BlockAddr(addr)
  {
    var x, n := addr % 0x1_0000_0000, g.lineSize;
    var y := x - x % n;
    NoMultipleBetween(n, x / n - y / n, y % n);
  }

  lemma NoMultipleBetween(n: nat, d: int, r: int)
    requires 0 <= r < n && n * d == r
    ensures r == 0
  {
    assert d >= 1 ==> n * d >= n;
    assert d <= -1 ==> n * d <= n * -1;
  }

  // ----- what a lookup finds -----

  ghost predicate Matches(line: Line, tag: nat) {
    line.status != Invalid && line.tag == tag
  }

  function Stamp(g: Geometry, line: Line): nat {
    if g.policy == LRU then line.lastAccessTime else line.allocTime
  }

  /** The victim of a miss: the last invalid line of the set or, if there is none, the first line with the
      least time stamp among those not waiting for a fill. */
  ghost predicate IsVictim(g: Geometry, lines: seq<Line>, addr: nat, v: nat)
    requires g.Valid() && |lines| == g.nset * g.assoc
  {
    && g.InSet(addr, v) && lines[v].status != Reserved
    && if lines[v].status == Invalid then
         forall j :: g.InSet(addr, j) && v < j ==> lines[j].status != Invalid
       else
         forall j :: g.InSet(addr, j) ==>
           && lines[j].status != Invalid
           && (lines[j].status != Reserved ==>
                 Stamp(g, lines[v]) <= Stamp(g, lines[j]) && (j < v ==> Stamp(g, lines[v]) < Stamp(g, lines[j])))
  }

  ghost predicate Probed(g: Geometry, lines: seq<Line>, addr: nat, status: RequestStatus, idx: nat)
    requires g.Valid() && |lines| == g.nset * g.assoc
  {
    match status
    case Hit =>
      g.InSet(addr, idx) && Matches(lines[idx], g.BlockAddr(addr)) && lines[idx].status != Reserved
      && forall j :: g.InSet(addr, j) && j < idx ==> !Matches(lines[j], g.BlockAddr(addr))
    case HitReserved =>
      g.InSet(addr, idx) && Matches(lines[idx], g.BlockAddr(addr)) && lines[idx].status == Reserved
      && forall j :: g.InSet(addr, j) && j < idx ==> !Matches(lines[j], g.BlockAddr(addr))
    case Miss =>
      IsVictim(g, lines, addr, idx) && forall j :: g.InSet(addr, j) ==> !Matches(lines[j], g.BlockAddr(addr))
    case ReservationFail =>
      forall j :: g.InSet(addr, j) ==> lines[j].status == Reserved && !Matches(lines[j], g.BlockAddr(addr))
  }

  /** The outcome of a lookup is determined by the lines. */
  lemma ProbeIsDetermined(g: Geometry, lines: seq<Line>, addr: nat, s: RequestStatus, i: nat, s': RequestStatus,
                          i': nat)
    requires g.Valid() && |lines| == g.nset * g.assoc
    requires Probed(g, lines, addr, s, i) && Probed(g, lines, addr, s', i')
    ensures s == s' && (s != ReservationFail ==> i == i')
  {
    assert g.InSet(addr, g.Base(addr));
  }

  /** The lines after an access with that outcome. */
  function Accessed(g: Geometry, lines: seq<Line>, addr: nat, time: nat, status: RequestStatus, idx: nat): seq<Line>
    requires 0 < g.lineSize && (status != ReservationFail ==> idx < |lines|)
  {
    match status
    case Hit => lines[idx := lines[idx].(lastAccessTime := time)]
    case HitReserved => lines[idx := lines[idx].(lastAccessTime := time)]
    case Miss => lines[idx := Line(g.BlockAddr(addr), g.BlockAddr(addr), time, time, 0, Reserved)]
    case ReservationFail => lines
  }

  /** The last invalid line of a range, or -1. */
  ghost predicate LastInvalid(lines: seq<Line>, lo: nat, hi: nat, v: int)
    requires lo <= hi <= |lines|
  {
    && (v == -1 || (lo <= v < hi && lines[v].status == Invalid))
    && forall j :: lo <= j < hi && v < j ==> lines[j].status != Invalid
  }

  /** The first line of a range with the least time stamp among those that could be evicted, or -1. */
  ghost predicate Oldest(g: Geometry, lines: seq<Line>, lo: nat, hi: nat, v: int)
    requires lo <= hi <= |lines|
  {
    && (v == -1 || (lo <= v < hi && lines[v].status !in {Reserved, Invalid}))
    && forall j :: lo <= j < hi && lines[j].status !in {Reserved, Invalid} ==>
         v != -1 && Stamp(g, lines[v]) <= Stamp(g, lines[j]) && (j < v ==> Stamp(g, lines[v]) < Stamp(g, lines[j]))
  }

  /** Over the whole set the two searches find the victim. */
  lemma FoundIsVictim(g: Geometry, lines: seq<Line>, addr: nat, invalidLine: int, validLine: int)
    requires g.Valid() && |lines| == g.nset * g.assoc && (invalidLine != -1 || validLine != -1)
    requires LastInvalid(lines, g.Base(addr), g.Base(addr) + g.assoc, invalidLine)
    requires Oldest(g, lines, g.Base(addr), g.Base(addr) + g.assoc, validLine)
    ensures IsVictim(g, lines, addr, if invalidLine != -1 then invalidLine else validLine)
  {
  }

  /** One more line is looked at. */
  lemma SearchOn(g: Geometry, lines: seq<Line>, lo: nat, i: nat, invalidLine: int, validLine: int)
    requires lo <= i < |lines| && LastInvalid(lines, lo, i, invalidLine) && Oldest(g, lines, lo, i, validLine)
    ensures LastInvalid(lines, lo, i + 1, if lines[i].status == Invalid then i else invalidLine)
    ensures Oldest(g, lines, lo, i + 1,
                   if lines[i].status !in {Reserved, Invalid}
                      && (validLine == -1 || Stamp(g, lines[i]) < Stamp(g, lines[validLine])) then i else validLine)
  {
  }

  class TagArray {
    const g: Geometry
    const lines: array<Line>

    constructor (g: Geometry)
      requires g.Valid()
      ensures this.g == g && Valid() && fresh(lines)
      ensures forall i :: 0 <= i < lines.Length ==> lines[i].status == Invalid
    {
      this.g := g;
      lines := new Line[g.nset * g.assoc](_ => Line(0, 0, 0, 0, 0, Invalid));
    }

    ghost predicate Valid()
      reads this, lines
    {
      && g.Valid() && lines.Length == g.nset * g.assoc
      && forall i :: 0 <= i < lines.Length ==> Stamp(g, lines[i]) < UINT_MAX
    }

    method Probe(addr: nat) returns (status: RequestStatus, idx: nat)
      requires Valid()
      ensures Probed(g, lines[..], addr, status, idx)
    {
      ghost var ls := lines[..];
      var base, tag := g.Base(addr), g.BlockAddr(addr);
      var invalidLine, validLine, validTimestamp, allReserved := -1, -1, UINT_MAX, true;
      for way := 0 to g.assoc
        invariant forall j :: base <= j < base + way ==> !Matches(ls[j], tag)
        invariant allReserved ==> forall j :: base <= j < base + way ==> ls[j].status == Reserved
        invariant !allReserved ==> invalidLine != -1 || validLine != -1
        invariant LastInvalid(ls, base, base + way, invalidLine)
        invariant Oldest(g, ls, base, base + way, validLine)
        invariant validTimestamp == if validLine == -1 then UINT_MAX else Stamp(g, ls[validLine])
      {
        var index := base + way;
        var line := lines[index];
        assert line == ls[index];
        SearchOn(g, ls, base, index, invalidLine, validLine);
        if line.tag == tag {
          if line.status == Reserved {
            return HitReserved, index;
          } else if line.status == Resident || line.status == Modified {
            return Hit, index;
          }
        }
        if line.status != Reserved {
          allReserved := false;
          if line.status == Invalid {
            invalidLine := index;
          } else if Stamp(g, line) < validTimestamp {
            validTimestamp, validLine := Stamp(g, line), index;
          }
        }
      }
      if allReserved {
        return ReservationFail, 0;
      }
      FoundIsVictim(g, ls, addr, invalidLine, validLine);
      status := Miss;
      idx := if invalidLine != -1 then invalidLine else validLine;
    }

    /** Looks an address up and updates the line it finds; a miss reserves the victim, which is returned if
        it has to be written back. */
    method Access(addr: nat, time: nat) returns (status: RequestStatus, idx: nat, wb: bool, evicted: Line)
      requires Valid() && time < UINT_MAX
      modifies lines
      ensures Valid() && Probed(g, old(lines[..]), addr, status, idx)
      ensures lines[..] == Accessed(g, old(lines[..]), addr, time, status, idx)
      ensures wb <==> status == Miss && old(lines[..])[idx].status == Modified
      ensures wb ==> evicted == old(lines[..])[idx]
      ensures status != ReservationFail ==>
        && idx < lines.Length && lines[idx].tag == g.BlockAddr(addr) && lines[idx].lastAccessTime == time
        && lines[idx].allocTime == (if status == Miss then time else old(lines[..])[idx].allocTime)
        && lines[idx].status == if status == Miss then Reserved else old(lines[..])[idx].status
      ensures forall j :: 0 <= j < lines.Length && (status == ReservationFail || j != idx) ==> lines[j] == old(lines[j])
    {
      wb, evicted := false, Line(0, 0, 0, 0, 0, Invalid);
      status, idx := Probe(addr);
      match status {
        case Hit =>
          lines[idx] := lines[idx].(lastAccessTime := time);
        case HitReserved =>
          lines[idx] := lines[idx].(lastAccessTime := time);
        case Miss =>
          if lines[idx].status == Modified {
            wb, evicted := true, lines[idx];
          }
          lines[idx] := Line(g.BlockAddr(addr), g.BlockAddr(addr), time, time, 0, Reserved);
        case ReservationFail =>
      }
    }

    method Fill(index: nat, time: nat)
      requires Valid() && index < lines.Length && lines[index].status == Reserved
      modifies lines
      ensures Valid() && lines[..] == old(lines[..])[index := old(lines[index]).(status := Resident, fillTime := time)]
    {
      lines[index] := lines[index].(status := Resident, fillTime := time);
    }

    method SetStatus(index: nat, status: LineStatus)
      requires Valid() && index < lines.Length
      modifies lines
      ensures Valid() && lines[..] == old(lines[..])[index := old(lines[index]).(status := status)]
    {
      lines[index] := lines[index].(status := status);
    }

    /** Invalidates every line. */
    method Flush()
      requires Valid()
      modifies lines
      ensures Valid() && forall i :: 0 <= i < lines.Length ==> lines[i] == old(lines[i]).(status := Invalid)
    {
      for i := 0 to lines.Length
        invariant forall j :: 0 <= j < i ==> lines[j] == old(lines[j]).(status := Invalid)
        invariant forall j :: i <= j < lines.Length ==> lines[j] == old(lines[j])
      {
        lines[i] := lines[i].(status := Invalid);
      }
    }
  }
}
