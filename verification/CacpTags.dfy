/** The tag lookup of the criticality-aware cache: a predicted partition, and a victim found by aging. */
module CacpTags {
  import opened CacheTags
  import opened Options

  const PARTITION_PCT: nat := 50

  datatype CriticalLine = CriticalLine(tag: nat, status: LineStatus, sig: nat, cReuse: bool, ncReuse: bool)

  /** The signature of an access: the low bytes of its address and of its PC, exclusive-ored. */
  function Signature(addr: nat, pc: nat): (s: nat)
    ensures s < 256
  {
    ((addr % 256) as bv8 ^ (pc % 256) as bv8) as nat
  }

  predicate HoldsTag(line: CriticalLine, tag: nat) {
    line.tag == tag && line.status != Invalid
  }

  /** The ways that a prediction of criticality selects. */
  function FirstWay(assoc: nat, predicted: bool): (w: nat)
    ensures w <= LastWay(assoc, predicted)
  {
    if predicted then 0 else assoc * PARTITION_PCT / 100
  }

  function LastWay(assoc: nat, predicted: bool): (w: nat)
    ensures w <= assoc
  {
    if predicted then assoc * PARTITION_PCT / 100 else assoc
  }

  /** The two partitions split the ways of a set between them, and neither is empty if there are two ways. */
  lemma PartitionsSplitTheSet(assoc: nat, w: nat)
    ensures w < assoc ==>
      (FirstWay(assoc, true) <= w < LastWay(assoc, true)) != (FirstWay(assoc, false) <= w < LastWay(assoc, false))
    ensures FirstWay(assoc, true) == 0 && LastWay(assoc, true) == assoc / 2
    ensures 2 <= assoc <==> FirstWay(assoc, true) < LastWay(assoc, true)
    ensures 1 <= assoc <==> FirstWay(assoc, false) < LastWay(assoc, false)
  {
  }

  // ----- re-reference counters and their aging -----

  ghost predicate InRange(counters: seq<int>) {
    |counters| == 256 && forall s :: 0 <= s < 256 ==> 0 <= counters[s] <= 3
  }

  ghost predicate SigsOk(lines: seq<CriticalLine>) {
    forall i :: 0 <= i < |lines| ==> lines[i].sig < 256
  }

  function Raised(counters: seq<int>, s: nat): seq<int>
    requires s < |counters|
  {
    counters[s := if counters[s] == 3 then 3 else counters[s] + 1]
  }

  function Lowered(counters: seq<int>, s: nat): seq<int>
    requires s < |counters|
  {
    counters[s := if counters[s] == 0 then 0 else counters[s] - 1]
  }

  /** Training goes by single steps and is undone by untraining, except at the ends of the range; two steps up make a
      prediction of criticality. */
  lemma TrainingIsUndone(counters: seq<int>, s: nat)
    requires InRange(counters) && s < 256
    ensures InRange(Raised(counters, s)) && InRange(Lowered(counters, s))
    ensures counters[s] < 3 ==>
      Raised(counters, s)[s] == counters[s] + 1 && Lowered(Raised(counters, s), s) == counters
    ensures 0 < counters[s] ==>
      Lowered(counters, s)[s] == counters[s] - 1 && Raised(Lowered(counters, s), s) == counters
    ensures counters[s] == 3 ==> Raised(counters, s) == counters
    ensures counters[s] == 0 ==> Lowered(counters, s) == counters
    ensures Raised(Raised(counters, s), s)[s] >= 2
    ensures forall t :: 0 <= t < 256 && t != s ==>
      Raised(counters, s)[t] == counters[t] && Lowered(counters, s)[t] == counters[t]
  {
    assert counters[s := counters[s]] == counters;
    if counters[s] < 3 {
      assert counters[s := counters[s] + 1][s := counters[s]] == counters;
    }
    if 0 < counters[s] {
      assert counters[s := counters[s] - 1][s := counters[s]] == counters;
    }
  }

  /** Each line in turn raises the counter of its signature, up to 3. */
  ghost function Aged(ship: seq<int>, lines: seq<CriticalLine>): (r: seq<int>)
    requires |ship| == 256 && SigsOk(lines)
    ensures |r| == 256
  {
    if lines == [] then ship
    else
      Raised(Aged(ship, lines[..|lines| - 1]), lines[|lines| - 1].sig)
  }

  ghost function AgedTimes(ship: seq<int>, lines: seq<CriticalLine>, rounds: nat): (r: seq<int>)
    requires |ship| == 256 && SigsOk(lines)
    ensures |r| == 256
  {
    if rounds == 0 then ship else Aged(AgedTimes(ship, lines, rounds - 1), lines)
  }

  lemma {:induction false} AgingStaysInRange(ship: seq<int>, lines: seq<CriticalLine>)
    requires InRange(ship) && SigsOk(lines)
    ensures InRange(Aged(ship, lines)) && forall s :: 0 <= s < 256 ==> ship[s] <= Aged(ship, lines)[s]
  {
    if lines != [] {
      AgingStaysInRange(ship, lines[..|lines| - 1]);
    }
  }

  /** One round of aging brings each of the lines at least one step closer to 3. */
  lemma {:induction false} AgingRaises(ship: seq<int>, lines: seq<CriticalLine>, i: nat)
    requires InRange(ship) && i < |lines| && SigsOk(lines)
    ensures var s := lines[i].sig; Aged(ship, lines)[s] == 3 || Aged(ship, lines)[s] >= ship[s] + 1
  {
    var n := |lines| - 1;
    AgingStaysInRange(ship, lines[..n]);
    if i < n {
      AgingRaises(ship, lines[..n], i);
    }
  }

  lemma {:induction false} RoundsStayInRange(ship: seq<int>, lines: seq<CriticalLine>, rounds: nat)
    requires InRange(ship) && SigsOk(lines)
    ensures InRange(AgedTimes(ship, lines, rounds))
  {
    if rounds > 0 {
      RoundsStayInRange(ship, lines, rounds - 1);
      AgingStaysInRange(AgedTimes(ship, lines, rounds - 1), lines);
    }
  }

  lemma {:induction false} RoundsRaise(ship: seq<int>, lines: seq<CriticalLine>, rounds: nat, i: nat)
    requires InRange(ship) && i < |lines| && SigsOk(lines)
    ensures var c := AgedTimes(ship, lines, rounds)[lines[i].sig]; c == 3 || c >= rounds
  {
    if rounds > 0 {
      RoundsStayInRange(ship, lines, rounds - 1);
      RoundsRaise(ship, lines, rounds - 1, i);
      AgingRaises(AgedTimes(ship, lines, rounds - 1), lines, i);
      RoundsStayInRange(ship, lines, rounds);
    }
  }

  /** A line that can be replaced: not reserved, and either invalid or aged to 3. */
  ghost predicate Replaceable(line: CriticalLine, ship: seq<int>)
    requires line.sig < |ship|
  {
    line.status != Reserved && (line.status == Invalid || ship[line.sig] == 3)
  }

  ghost predicate NoneReplaceable(lines: seq<CriticalLine>, ship: seq<int>)
    requires forall i :: 0 <= i < |lines| ==> lines[i].sig < |ship|
  {
    forall i :: 0 <= i < |lines| ==> !Replaceable(lines[i], ship)
  }

  /** If some line is not reserved, three rounds of aging make one replaceable. */
  lemma ThreeRoundsSuffice(ship: seq<int>, lines: seq<CriticalLine>, rounds: nat, i: nat)
    requires InRange(ship) && (SigsOk(lines))
    requires i < |lines| && lines[i].status != Reserved && NoneReplaceable(lines, AgedTimes(ship, lines, rounds))
    ensures rounds < 3
  {
    RoundsRaise(ship, lines, rounds, i);
    RoundsStayInRange(ship, lines, rounds);
    assert !Replaceable(lines[i], AgedTimes(ship, lines, rounds));
  }

  /** The victim the lookup must find: the last replaceable line after the fewest rounds that leave one. */
  ghost predicate IsCacpVictim(lines: seq<CriticalLine>, ship: seq<int>, rounds: nat, v: nat)
    requires |ship| == 256 && SigsOk(lines)
  {
    var now := AgedTimes(ship, lines, rounds);
    && v < |lines| && Replaceable(lines[v], now)
    && (forall i :: v < i < |lines| ==> !Replaceable(lines[i], now))
    && forall r :: 0 <= r < rounds ==> NoneReplaceable(lines, AgedTimes(ship, lines, r))
  }

  /** The last replaceable line among the first `n`. */
  ghost predicate Scanned(lines: seq<CriticalLine>, ship: seq<int>, n: nat, v: Option<nat>)
    requires |ship| == 256 && SigsOk(lines) && n <= |lines|
  {
    match v
    case None => forall i :: 0 <= i < n ==> !Replaceable(lines[i], ship)
    case Some(k) => k < n && Replaceable(lines[k], ship) && forall i :: k < i < n ==> !Replaceable(lines[i], ship)
  }

  lemma ScanStep(lines: seq<CriticalLine>, ship: seq<int>, n: nat, v: Option<nat>)
    requires |ship| == 256 && SigsOk(lines) && n < |lines| && Scanned(lines, ship, n, v)
    ensures Scanned(lines, ship, n + 1, if Replaceable(lines[n], ship) then Some(n) else v)
  {
  }

  ghost predicate SomeFree(lines: seq<CriticalLine>) {
    exists i :: 0 <= i < |lines| && lines[i].status != Reserved
  }

  ghost predicate AllReserved(lines: seq<CriticalLine>, n: nat) {
    forall i :: 0 <= i < n && i < |lines| ==> lines[i].status == Reserved
  }

  /** No round so far has left a replaceable line. */
  ghost predicate RoundsInVain(ship: seq<int>, lines: seq<CriticalLine>, rounds: nat)
    requires |ship| == 256 && SigsOk(lines)
  {
    forall r :: 0 <= r < rounds ==> NoneReplaceable(lines, AgedTimes(ship, lines, r))
  }

  /** A round in vain is followed by another, of which there are at most three. */
  lemma NextRound(ship: seq<int>, lines: seq<CriticalLine>, rounds: nat)
    requires InRange(ship) && SigsOk(lines) && SomeFree(lines) && RoundsInVain(ship, lines, rounds)
    requires Scanned(lines, AgedTimes(ship, lines, rounds), |lines|, None)
    ensures rounds < 3 && RoundsInVain(ship, lines, rounds + 1)
    ensures Scanned(lines, AgedTimes(ship, lines, rounds + 1), 0, None)
    ensures InRange(AgedTimes(ship, lines, rounds + 1))
  {
    assert NoneReplaceable(lines, AgedTimes(ship, lines, rounds));
    var i :| 0 <= i < |lines| && lines[i].status != Reserved;
    ThreeRoundsSuffice(ship, lines, rounds, i);
    RoundsStayInRange(ship, lines, rounds + 1);
  }

  /** What is known in round `rounds` after the first `n` lines have been looked at. */
  ghost predicate Searching(
    ship0: seq<int>, lines: seq<CriticalLine>, rounds: nat, now: seq<int>, n: nat, victim: Option<nat>,
    allReserved: bool)
    requires |ship0| == |now| == 256 && SigsOk(lines) && n <= |lines|
  {
    && now == AgedTimes(ship0, lines, rounds) && InRange(now)
    && Scanned(lines, now, n, victim) && RoundsInVain(ship0, lines, rounds)
    && if allReserved then rounds == 0 && AllReserved(lines, n) && victim.None? else SomeFree(lines)
  }

  lemma SearchStep(
    ship0: seq<int>, lines: seq<CriticalLine>, rounds: nat, now: seq<int>, n: nat, victim: Option<nat>,
    allReserved: bool)
    requires |ship0| == |now| == 256 && SigsOk(lines) && n < |lines|
    requires Searching(ship0, lines, rounds, now, n, victim, allReserved)
    ensures var free, candidate := lines[n].status != Reserved, Replaceable(lines[n], now);
      Searching(ship0, lines, rounds, now, n + 1, if candidate then Some(n) else victim, allReserved && !free)
  {
    ScanStep(lines, now, n, victim);
  }

  lemma SearchEnds(ship0: seq<int>, lines: seq<CriticalLine>, rounds: nat, now: seq<int>, victim: Option<nat>)
    requires |ship0| == |now| == 256 && SigsOk(lines)
    requires Searching(ship0, lines, rounds, now, |lines|, victim, false) && victim.Some?
    ensures victim.value < |lines| && IsCacpVictim(lines, ship0, rounds, victim.value)
  {
  }

  function Reused(line: CriticalLine, critical: bool): CriticalLine {
    if critical then line.(cReuse := true) else line.(ncReuse := true)
  }

  /** A line that only uncritical accesses have reused, in a way of the partition for critical ones. */
  predicate Misplaced(line: CriticalLine, way: nat, assoc: nat) {
    !line.cReuse && line.ncReuse && way < assoc * PARTITION_PCT / 100
  }

  /** The counters once a line that held data has been evicted. */
  function ShipAfterEviction(ship: seq<int>, line: CriticalLine): seq<int>
    requires line.sig < |ship|
  {
    if !line.cReuse && !line.ncReuse then Lowered(ship, line.sig) else ship
  }

  function CcbpAfterEviction(ccbp: seq<int>, line: CriticalLine, way: nat, assoc: nat): seq<int>
    requires line.sig < |ccbp|
  {
    if Misplaced(line, way, assoc) then Lowered(ccbp, line.sig) else ccbp
  }

  ghost predicate InSet(lines: seq<CriticalLine>, base: nat, assoc: nat, tag: nat) {
    exists w :: base <= w < base + assoc && w < |lines| && HoldsTag(lines[w], tag)
  }

  /** What a lookup that finds no line must answer: a victim in [first, end), or failure if all are reserved. */
  ghost predicate MissAnswer(
    lines: seq<CriticalLine>, ship: seq<int>, first: nat, end: nat, status: RequestStatus, idx: nat, rounds: nat)
    requires |ship| == 256 && SigsOk(lines) && first <= end <= |lines|
  {
    var part := lines[first..end];
    if status.ReservationFail? then AllReserved(part, |part|) && rounds == 0
    else status.Miss? && first <= idx < end && IsCacpVictim(part, ship, rounds, idx - first)
  }

  class TagArray {
    const assoc: nat
    const nset: nat
    var lines: seq<CriticalLine>
    const ship: array<int>
    const ccbp: array<int>

    ghost predicate Valid()
      reads this, ship, ccbp
    {
      && 0 < assoc && |lines| == nset * assoc && ship != ccbp
      && InRange(ship[..]) && InRange(ccbp[..])
      && SigsOk(lines)
    }

    constructor (assoc: nat, nset: nat, lines: seq<CriticalLine>)
      requires 0 < assoc && |lines| == nset * assoc && SigsOk(lines)
      ensures Valid() && this.assoc == assoc && this.nset == nset && this.lines == lines && fresh(ship) && fresh(ccbp)
    {
      this.assoc, this.nset, this.lines := assoc, nset, lines;
      ship := new int[256](_ => 3);
      ccbp := new int[256](_ => 1);
    }

    /** Ages all lines in [first, end). */
    method Age(first: nat, end: nat)
      requires Valid() && first <= end <= |lines|
      modifies ship
      ensures ship[..] == Aged(old(ship[..]), lines[first..end])
    {
      var i := first;
      while i < end
        invariant first <= i <= end && ship.Length == 256 && ship[..] == Aged(old(ship[..]), lines[first..i])
      {
        assert lines[first..i + 1][..i - first] == lines[first..i];
        ghost var before := ship[..];
        var s := lines[i].sig;
        ship[s] := ship[s] + if ship[s] == 3 then 0 else 1;
        assert ship[..] == Raised(before, s);
        i := i + 1;
      }
    }

    /** Whether a line is not reserved, and whether it can be replaced. */
    method Inspect(index: nat) returns (free: bool, candidate: bool)
      requires Valid() && index < |lines|
      ensures free <==> lines[index].status != Reserved
      ensures candidate <==> Replaceable(lines[index], ship[..])
    {
      var line := lines[index];
      assert ship[..][line.sig] == ship[line.sig] <= 3;
      free := line.status != Reserved;
      candidate := free && (line.status == Invalid || ship[line.sig] == 3);
    }

    /** Looks for a replaceable line in [first, end), aging all of them and starting over as long as there is
        none, unless all of them are reserved. */
    method FindVictim(first: nat, end: nat) returns (victim: Option<nat>, ghost rounds: nat)
      requires Valid() && first <= end <= |lines|
      modifies ship
      ensures Valid() && rounds <= 3 && ship[..] == AgedTimes(old(ship[..]), lines[first..end], rounds)
      ensures victim.None? ==> rounds == 0 && AllReserved(lines[first..end], end - first)
      ensures victim.Some? ==>
        victim.value < end - first && IsCacpVictim(lines[first..end], old(ship[..]), rounds, victim.value)
    {
      ghost var part, ship0 := lines[first..end], ship[..];
      victim, rounds := None, 0;
      var allReserved := true;
      var way := first;
      while way < end
        invariant first <= way <= end && rounds <= 3 && ship.Length == 256
        invariant Searching(ship0, part, rounds, ship[..], way - first, victim, allReserved)
        invariant way == end && victim.None? ==> allReserved
        decreases 3 - rounds, end - way
      {
        var free, candidate := Inspect(way);
        assert part[way - first] == lines[way];
        SearchStep(ship0, part, rounds, ship[..], way - first, victim, allReserved);
        allReserved := allReserved && !free;
        if candidate {
          victim := Some(way - first);
        }
        if way == end - 1 && victim.None? {
          if allReserved {
            return;
          }
          NextRound(ship0, part, rounds);
          Age(first, end);
          rounds := rounds + 1;
          way := first;
        } else {
          way := way + 1;
        }
      }
      if victim.Some? {
        SearchEnds(ship0, part, rounds, ship[..], victim);
      }
    }

    /** Trains the counters on a hit and marks the line as reused. */
    method CacpHit(critical: bool, idx: nat)
      requires Valid() && idx < |lines|
      modifies this`lines, ship, ccbp
      ensures Valid()
      ensures lines == old(lines)[idx := Reused(old(lines)[idx], critical)]
      ensures critical ==> lines == old(lines)[idx := old(lines)[idx].(cReuse := true)]
      ensures !critical ==> lines == old(lines)[idx := old(lines)[idx].(ncReuse := true)]
      ensures var s := old(lines)[idx].sig;
        && ship[..] == Raised(old(ship[..]), s)
        && ccbp[..] == if critical then Raised(old(ccbp[..]), s) else old(ccbp[..])
    {
      var s := lines[idx].sig;
      assert ship[..][s] == ship[s] && ccbp[..][s] == ccbp[s];
      if critical {
        lines := lines[idx := lines[idx].(cReuse := true)];
        if ccbp[s] != 3 {
          ccbp[s] := ccbp[s] + 1;
        }
      } else {
        lines := lines[idx := lines[idx].(ncReuse := true)];
      }
      if ship[s] != 3 {
        ship[s] := ship[s] + 1;
      }
    }

    /** Untrains the counters when a line is evicted that did not do what was predicted of it. */
    method CacpEviction(idx: nat, setIndex: nat)
      requires Valid() && setIndex * assoc <= idx < |lines|
      modifies ship, ccbp
      ensures Valid()
      ensures ship[..] == ShipAfterEviction(old(ship[..]), lines[idx])
      ensures ccbp[..] == CcbpAfterEviction(old(ccbp[..]), lines[idx], idx - setIndex * assoc, assoc)
      ensures var line, s := lines[idx], lines[idx].sig;
        && ship[..] == (if line.cReuse || line.ncReuse then old(ship[..]) else Lowered(old(ship[..]), s))
        && ccbp[..] == if !line.cReuse && line.ncReuse && idx - setIndex * assoc < assoc / 2
                       then Lowered(old(ccbp[..]), s) else old(ccbp[..])
    {
      var evicted := lines[idx];
      var s, way := evicted.sig, idx - setIndex * assoc;
      assert ship[..][s] == ship[s] && ccbp[..][s] == ccbp[s];
      if !evicted.cReuse && evicted.ncReuse && way < assoc * PARTITION_PCT / 100 {
        if ccbp[s] != 0 {
          ccbp[s] := ccbp[s] - 1;
        }
      } else if !evicted.cReuse && !evicted.ncReuse {
        if ship[s] != 0 {
          ship[s] := ship[s] - 1;
        }
      }
    }

    /** The first way of a set that holds the tag. */
    method Lookup(base: nat, tag: nat) returns (way: Option<nat>)
      requires Valid() && base + assoc <= |lines|
      ensures way.None? ==> forall w :: base <= w < base + assoc ==> !HoldsTag(lines[w], tag)
      ensures way.Some? ==>
        && base <= way.value < base + assoc && HoldsTag(lines[way.value], tag)
        && forall w :: base <= w < way.value ==> !HoldsTag(lines[w], tag)
    {
      for w := base to base + assoc
        invariant forall v :: base <= v < w ==> !HoldsTag(lines[v], tag)
      {
        if lines[w].tag == tag && lines[w].status != Invalid {
          return Some(w);
        }
      }
      return None;
    }

    /** A hit trains the counters; afterwards the signature counts as recently used. */
    method Hit(critical: bool, idx: nat) returns (status: RequestStatus)
      requires Valid() && idx < |lines| && lines[idx].status != Invalid
      modifies this`lines, ship, ccbp
      ensures Valid() && lines == old(lines)[idx := Reused(old(lines)[idx], critical)]
      ensures status == if old(lines)[idx].status == Reserved then RequestStatus.HitReserved else RequestStatus.Hit
      ensures ship[..] == old(ship[..])[old(lines)[idx].sig := 0]
      ensures ccbp[..] == if critical then Raised(old(ccbp[..]), old(lines)[idx].sig) else old(ccbp[..])
    {
      var line := lines[idx];
      CacpHit(critical, idx);
      ship[line.sig] := 0;
      status := if line.status == Reserved then RequestStatus.HitReserved else RequestStatus.Hit;
    }

    /** The counters are those before the victim was taken over, untrained if it held data. */
    ghost predicate TakenOver(ship': seq<int>, ccbp': seq<int>, line: CriticalLine, way: nat)
      requires line.sig < |ship'| && line.sig < |ccbp'|
      reads ship, ccbp
    {
      if line.status == Invalid then ship[..] == ship' && ccbp[..] == ccbp'
      else ship[..] == ShipAfterEviction(ship', line) && ccbp[..] == CcbpAfterEviction(ccbp', line, way, assoc)
    }

    /** A miss takes the victim over: it gets the signature of the access, and is untrained if it held data. */
    method Replace(idx: nat, setIndex: nat, signature: nat, critical: bool)
      returns (criticalEviction: bool, zeroReuse: bool)
      requires Valid() && setIndex * assoc <= idx < |lines| && signature < 256
      modifies this`lines, ship, ccbp
      ensures Valid() && lines == old(lines)[idx := old(lines)[idx].(sig := signature)]
      ensures TakenOver(old(ship[..])[signature := 2], old(ccbp[..]), lines[idx], idx - setIndex * assoc)
      ensures criticalEviction == (critical && old(lines)[idx].status != Invalid)
      ensures zeroReuse == (criticalEviction && !old(lines)[idx].cReuse && !old(lines)[idx].ncReuse)
    {
      criticalEviction, zeroReuse := false, false;
      ship[signature] := 2;
      lines := lines[idx := lines[idx].(sig := signature)];
      if lines[idx].status != Invalid {
        CacpEviction(idx, setIndex);
        criticalEviction := critical;
        if criticalEviction {
          zeroReuse := !lines[idx].cReuse && !lines[idx].ncReuse;
        }
      }
    }

    /** No line holds the tag: the victim comes from the predicted partition. */
    method Miss(first: nat, end: nat, setIndex: nat, signature: nat, critical: bool)
      returns (status: RequestStatus, idx: nat, criticalEviction: bool, zeroReuse: bool, ghost rounds: nat)
      requires Valid() && setIndex * assoc <= first <= end <= |lines| && signature < 256
      modifies this`lines, ship, ccbp
      ensures Valid() && rounds <= 3 && MissAnswer(old(lines), old(ship[..]), first, end, status, idx, rounds)
      ensures status.ReservationFail? ==> lines == old(lines) && ship[..] == old(ship[..]) && ccbp[..] == old(ccbp[..])
      ensures status.Miss? ==> setIndex * assoc <= idx < |lines|
      ensures status.Miss? ==>
        && lines == old(lines)[idx := old(lines)[idx].(sig := signature)]
        && TakenOver(AgedTimes(old(ship[..]), old(lines)[first..end], rounds)[signature := 2], old(ccbp[..]),
                     lines[idx], idx - setIndex * assoc)
    {
      criticalEviction, zeroReuse, idx := false, false, 0;
      var victim;
      victim, rounds := FindVictim(first, end);
      if victim.None? {
        status := RequestStatus.ReservationFail;
        return;
      }
      idx := first + victim.value;
      criticalEviction, zeroReuse := Replace(idx, setIndex, signature, critical);
      status := RequestStatus.Miss;
    }

    /** Looks an address up. On a miss the victim is a line of the partition that the counter of the signature
        predicts, found within three rounds of aging; only if all lines of it are reserved is there none. */
    method Probe(addr: nat, pc: nat, setIndex: nat, tag: nat, critical: bool)
      returns (status: RequestStatus, idx: nat, criticalEviction: bool, zeroReuse: bool, correct: bool,
               ghost rounds: nat)
      requires Valid() && setIndex < nset
      modifies this`lines, ship, ccbp
      ensures Valid() && rounds <= 3 && setIndex * assoc + assoc <= |old(lines)|
      ensures InSet(old(lines), setIndex * assoc, assoc, tag) <==> status.Hit? || status.HitReserved?
      ensures status.Hit? || status.HitReserved? ==>
        && setIndex * assoc <= idx < setIndex * assoc + assoc && HoldsTag(old(lines)[idx], tag)
        && lines == old(lines)[idx := Reused(old(lines)[idx], critical)]
        && ship[..] == old(ship[..])[old(lines)[idx].sig := 0]
        && ccbp[..] == if critical then Raised(old(ccbp[..]), old(lines)[idx].sig) else old(ccbp[..])
      ensures status.Miss? || status.ReservationFail? ==>
        var base, predicted := setIndex * assoc, old(ccbp[..])[Signature(addr, pc)] >= 2;
        var first, end := base + (if predicted then 0 else assoc / 2), base + if predicted then assoc / 2 else assoc;
        && correct == (critical == predicted)
        && MissAnswer(old(lines), old(ship[..]), first, end, status, idx, rounds)
        && if status.Miss? then
             && setIndex * assoc <= idx < |lines|
             && lines == old(lines)[idx := old(lines)[idx].(sig := Signature(addr, pc))]
             && TakenOver(AgedTimes(old(ship[..]), old(lines)[first..end], rounds)[Signature(addr, pc) := 2],
                          old(ccbp[..]), lines[idx], idx - setIndex * assoc)
           else lines == old(lines) && ship[..] == old(ship[..]) && ccbp[..] == old(ccbp[..])
    {
      criticalEviction, zeroReuse, correct, rounds := false, false, false, 0;
      var signature := Signature(addr, pc);
      var base := setIndex * assoc;
      SetFits(setIndex, nset, assoc);
      var way := Lookup(base, tag);
      if way.Some? {
        idx := way.value;
        status := Hit(critical, idx);
        return;
      }
      status, idx, criticalEviction, zeroReuse, correct, rounds := ProbeMiss(setIndex, signature, critical);
    }

    /** The victim of a miss comes from the partition that the counter of the signature predicts. */
    method ProbeMiss(setIndex: nat, signature: nat, critical: bool)
      returns (status: RequestStatus, idx: nat, criticalEviction: bool, zeroReuse: bool, correct: bool,
               ghost rounds: nat)
      requires Valid() && setIndex * assoc + assoc <= |lines| && signature < 256
      modifies this`lines, ship, ccbp
      ensures Valid() && rounds <= 3 && (status.Miss? || status.ReservationFail?)
      ensures var base, predicted := setIndex * assoc, old(ccbp[..])[signature] >= 2;
        var first, end := base + (if predicted then 0 else assoc / 2), base + if predicted then assoc / 2 else assoc;
        && correct == (critical == predicted)
        && MissAnswer(old(lines), old(ship[..]), first, end, status, idx, rounds)
        && if status.Miss? then
             && setIndex * assoc <= idx < |lines|
             && lines == old(lines)[idx := old(lines)[idx].(sig := signature)]
             && TakenOver(AgedTimes(old(ship[..]), old(lines)[first..end], rounds)[signature := 2],
                          old(ccbp[..]), lines[idx], idx - setIndex * assoc)
           else lines == old(lines) && ship[..] == old(ship[..]) && ccbp[..] == old(ccbp[..])
    {
      var base := setIndex * assoc;
      assert ccbp[..][signature] == ccbp[signature];
      var predicted := ccbp[signature] >= 2;
      correct := critical == predicted;
      status, idx, criticalEviction, zeroReuse, rounds :=
        Miss(base + FirstWay(assoc, predicted), base + LastWay(assoc, predicted), setIndex, signature, critical);
    }
  }
}
