/** The way of requests through a DRAM channel: waiting, in service at a bank, on the data bus, finished. */
module RequestFlow {
  import opened Options
  import opened FrFcfs
  import DramTiming

  /** Bytes sent to the data queue and bytes whose transfer is over. */
  datatype Bytes = Bytes(sent: nat, moved: nat)

  /** Where the requests are, and the commands that move their data, in the order in which the bursts were sent. */
  datatype Flow = Flow(
    mrqq: seq<Request>, queues: seq<seq<Request>>, serving: seq<Option<Request>>, inFlight: seq<Request>,
    finished: seq<Request>, bytes: map<Request, Bytes>, transfers: seq<DramTiming.Command>)

  /** A burst of a request is written or read as the request says. */
  function TransferOf(b: nat, r: Request): DramTiming.Command {
    if r.isWrite then DramTiming.Write(b, r.row) else DramTiming.Read(b, r.row)
  }

  // ----- the steps -----

  ghost function Accepted(f: Flow, r: Request): Flow {
    f.(mrqq := f.mrqq + [r], bytes := f.bytes[r := Bytes(0, 0)])
  }

  /** The oldest arrival enters the scheduler. */
  ghost function Admitted(f: Flow): Flow
    requires f.mrqq != [] && f.mrqq[0].bank < |f.queues|
  {
    var r := f.mrqq[0];
    f.(mrqq := f.mrqq[1..], queues := f.queues[r.bank := [r] + f.queues[r.bank]])
  }

  /** The oldest arrival goes straight to its bank. */
  ghost function Forwarded(f: Flow): Flow
    requires f.mrqq != [] && f.mrqq[0].bank < |f.serving|
  {
    var r := f.mrqq[0];
    f.(mrqq := f.mrqq[1..], serving := f.serving[r.bank := Some(r)])
  }

  /** A bank takes a request out of its scheduler queue. */
  ghost function Scheduled(f: Flow, b: nat, i: nat): Flow
    requires b < |f.serving| == |f.queues| && i < |f.queues[b]|
  {
    f.(queues := f.queues[b := Removed(f.queues[b], i)], serving := f.serving[b := Some(f.queues[b][i])])
  }

  /** A bank sends one burst of its request, and lets go of the request when all of it has been sent. */
  ghost function Burst(f: Flow, b: nat, atomSize: nat): Flow
    requires b < |f.serving| && f.serving[b].Some? && f.serving[b].value in f.bytes
  {
    var r := f.serving[b].value;
    var sent := f.bytes[r].sent + atomSize;
    f.(inFlight := f.inFlight + [r], transfers := f.transfers + [TransferOf(b, r)],
       bytes := f.bytes[r := f.bytes[r].(sent := sent)],
       serving := f.serving[b := if sent < r.nbytes then Some(r) else None])
  }

  /** The oldest burst leaves the data bus, and the request is finished when all of it has been moved. */
  ghost function Moved(f: Flow, atomSize: nat): Flow
    requires f.inFlight != [] && f.inFlight[0] in f.bytes
  {
    var r := f.inFlight[0];
    var moved := f.bytes[r].moved + atomSize;
    f.(inFlight := f.inFlight[1..], bytes := f.bytes[r := f.bytes[r].(moved := moved)],
       finished := if moved >= r.nbytes then f.finished + [r] else f.finished)
  }

  // ----- the invariant -----

  ghost function Waiting(f: Flow, r: Request): nat {
    multiset(f.mrqq)[r] + if r.bank < |f.queues| then multiset(f.queues[r.bank])[r] else 0
  }

  ghost predicate Serving(f: Flow, r: Request) {
    r.bank < |f.serving| && f.serving[r.bank] == Some(r)
  }

  /** All of a request has been sent, in no more bursts than needed. */
  predicate Enough(nbytes: nat, sent: nat, atomSize: nat) {
    0 < sent && nbytes <= sent && (sent == atomSize || sent < nbytes + atomSize)
  }

  /** Where one request is: how often it is queued, in service, on the bus and finished, and its bytes. */
  datatype Place = Place(waiting: nat, serving: bool, bursts: nat, finished: nat, bytes: Bytes)

  ghost function PlaceOf(f: Flow, r: Request): Place
    requires r in f.bytes
  {
    Place(Waiting(f, r), Serving(f, r), multiset(f.inFlight)[r], multiset(f.finished)[r], f.bytes[r])
  }

  /** A request is in exactly one place, with as many bytes on the bus as it has bursts there. */
  predicate Orderly(p: Place, nbytes: nat, atomSize: nat) {
    var sent := p.bytes.sent;
    && sent == p.bytes.moved + atomSize * p.bursts
    && (|| (p.waiting == 1 && !p.serving && p.finished == 0 && sent == 0)
        || (p.waiting == 0 && p.serving && p.finished == 0 && (sent == 0 || sent < nbytes))
        || (p.waiting == 0 && !p.serving && p.finished == 0 && p.bursts > 0 && Enough(nbytes, sent, atomSize))
        || (p.waiting == 0 && !p.serving && p.finished == 1 && p.bursts == 0 && Enough(nbytes, sent, atomSize)))
  }

  ghost predicate InOnePlace(f: Flow, r: Request, atomSize: nat)
    requires r in f.bytes
  {
    Orderly(PlaceOf(f, r), r.nbytes, atomSize)
  }

  /** Whatever is queued anywhere has been accepted, and is queued at its own bank. */
  ghost predicate Known(f: Flow, nbk: nat) {
    && |f.queues| == |f.serving| == nbk
    && (forall r :: r in f.bytes ==> r.bank < nbk)
    && (forall r :: r in f.mrqq ==> r in f.bytes)
    && (forall r :: r in f.inFlight ==> r in f.bytes)
    && (forall r :: r in f.finished ==> r in f.bytes)
    && (forall b, i :: 0 <= b < nbk && 0 <= i < |f.queues[b]| ==> f.queues[b][i] in f.bytes && f.queues[b][i].bank == b)
    && (forall b :: 0 <= b < nbk && f.serving[b].Some? ==>
          f.serving[b].value in f.bytes && f.serving[b].value.bank == b)
  }

  ghost predicate FlowInv(f: Flow, nbk: nat, atomSize: nat) {
    Known(f, nbk) && forall r :: r in f.bytes ==> InOnePlace(f, r, atomSize)
  }

  lemma CountRemoved(q: seq<Request>, i: nat, r: Request)
    requires i < |q|
    ensures multiset(Removed(q, i))[r] == multiset(q)[r] - if q[i] == r then 1 else 0
  {
    assert q == q[..i] + [q[i]] + q[i + 1..];
  }

  lemma CountFirst(q: seq<Request>, r: Request)
    requires q != []
    ensures multiset(q[1..])[r] == multiset(q)[r] - if q[0] == r then 1 else 0
  {
    assert q == [q[0]] + q[1..];
  }

  lemma CountPresent(q: seq<Request>, r: Request)
    ensures r in q <==> multiset(q)[r] > 0
  {
  }

  lemma CountAbsent(q: seq<Request>, r: Request)
    requires r !in q
    ensures multiset(q)[r] == 0
  {
  }

  lemma AcceptKeepsFlow(f: Flow, r: Request, nbk: nat, atomSize: nat)
    requires FlowInv(f, nbk, atomSize) && r !in f.bytes && r.bank < nbk
    ensures FlowInv(Accepted(f, r), nbk, atomSize)
  {
    var f' := Accepted(f, r);
    forall q | q in f'.bytes
      ensures InOnePlace(f', q, atomSize)
    {
      if q == r {
        CountAbsent(f.mrqq, r);
        CountAbsent(f.inFlight, r);
        CountAbsent(f.finished, r);
        CountAbsent(f.queues[r.bank], r);
      } else {
        assert InOnePlace(f, q, atomSize);
      }
    }
  }

  lemma AdmitKeepsKnown(f: Flow, nbk: nat)
    requires Known(f, nbk) && f.mrqq != []
    ensures f.mrqq[0].bank < nbk && Known(Admitted(f), nbk)
  {
    var r := f.mrqq[0];
    assert r in f.bytes;
    assert forall q :: q in f.mrqq[1..] ==> q in f.mrqq;
  }

  lemma AdmitKeepsPlace(f: Flow, q: Request)
    requires f.mrqq != [] && f.mrqq[0].bank < |f.queues| && q in f.bytes
    ensures PlaceOf(Admitted(f), q) == PlaceOf(f, q)
  {
    CountFirst(f.mrqq, q);
  }

  lemma AdmitKeepsFlow(f: Flow, nbk: nat, atomSize: nat)
    requires FlowInv(f, nbk, atomSize) && f.mrqq != []
    ensures f.mrqq[0].bank < nbk && FlowInv(Admitted(f), nbk, atomSize)
  {
    AdmitKeepsKnown(f, nbk);
    forall q | q in f.bytes
      ensures InOnePlace(Admitted(f), q, atomSize)
    {
      assert InOnePlace(f, q, atomSize);
      AdmitKeepsPlace(f, q);
    }
  }

  lemma ForwardKeepsKnown(f: Flow, nbk: nat)
    requires Known(f, nbk) && f.mrqq != []
    ensures f.mrqq[0].bank < nbk && Known(Forwarded(f), nbk)
  {
    assert f.mrqq[0] in f.bytes;
    assert forall q :: q in f.mrqq[1..] ==> q in f.mrqq;
  }

  lemma ForwardKeepsFlow(f: Flow, nbk: nat, atomSize: nat)
    requires FlowInv(f, nbk, atomSize) && f.mrqq != []
    requires f.mrqq[0].bank < nbk ==> f.serving[f.mrqq[0].bank] == None
    ensures f.mrqq[0].bank < nbk && FlowInv(Forwarded(f), nbk, atomSize)
  {
    ForwardKeepsKnown(f, nbk);
    forall q | q in f.bytes
      ensures InOnePlace(Forwarded(f), q, atomSize)
    {
      assert InOnePlace(f, q, atomSize);
      ForwardKeepsPlace(f, nbk, atomSize, q);
    }
  }

  lemma ForwardKeepsPlace(f: Flow, nbk: nat, atomSize: nat, q: Request)
    requires Known(f, nbk) && f.mrqq != [] && f.mrqq[0].bank < nbk && f.serving[f.mrqq[0].bank] == None
    requires q in f.bytes && InOnePlace(f, q, atomSize)
    ensures InOnePlace(Forwarded(f), q, atomSize)
  {
    CountFirst(f.mrqq, q);
    var r, p := f.mrqq[0], PlaceOf(f, q);
    assert q == r ==> p.waiting >= 1;
    assert PlaceOf(Forwarded(f), q) == if q == r then p.(waiting := p.waiting - 1, serving := true) else p;
  }

  lemma ScheduleKeepsKnown(f: Flow, b: nat, i: nat, nbk: nat)
    requires Known(f, nbk) && b < nbk && i < |f.queues[b]|
    ensures Known(Scheduled(f, b, i), nbk)
  {
    var left := Removed(f.queues[b], i);
    assert forall k :: 0 <= k < |left| ==> left[k] == f.queues[b][if k < i then k else k + 1];
  }

  lemma ScheduledPlace(f: Flow, b: nat, i: nat, q: Request)
    requires b < |f.queues| == |f.serving| && i < |f.queues[b]| && q in f.bytes
    requires f.queues[b][i].bank == b && f.serving[b] == None
    ensures var p, f' := PlaceOf(f, q), Scheduled(f, b, i);
      if q == f.queues[b][i] then p.waiting >= 1 && PlaceOf(f', q) == p.(waiting := p.waiting - 1, serving := true)
      else PlaceOf(f', q) == p
  {
    CountRemoved(f.queues[b], i, q);
  }

  lemma ScheduleKeepsFlow(f: Flow, b: nat, i: nat, nbk: nat, atomSize: nat)
    requires FlowInv(f, nbk, atomSize) && b < nbk && i < |f.queues[b]| && f.serving[b] == None
    ensures FlowInv(Scheduled(f, b, i), nbk, atomSize)
  {
    ScheduleKeepsKnown(f, b, i, nbk);
    forall q | q in f.bytes
      ensures InOnePlace(Scheduled(f, b, i), q, atomSize)
    {
      assert InOnePlace(f, q, atomSize);
      ScheduledPlace(f, b, i, q);
    }
  }

  lemma BurstKeepsKnown(f: Flow, b: nat, nbk: nat, atomSize: nat)
    requires Known(f, nbk) && b < nbk && f.serving[b].Some?
    ensures f.serving[b].value in f.bytes && Known(Burst(f, b, atomSize), nbk)
  {
  }

  lemma BurstPlace(f: Flow, b: nat, atomSize: nat, q: Request)
    requires b < |f.serving| && f.serving[b].Some? && f.serving[b].value in f.bytes && q in f.bytes
    requires f.serving[b].value.bank == b
    ensures var p, r, f' := PlaceOf(f, q), f.serving[b].value, Burst(f, b, atomSize);
      var sent := p.bytes.sent + atomSize;
      PlaceOf(f', q) ==
        if q == r then p.(bursts := p.bursts + 1, bytes := p.bytes.(sent := sent), serving := sent < r.nbytes) else p
  {
  }

  lemma OrderlyBurst(p: Place, nbytes: nat, atomSize: nat)
    requires Orderly(p, nbytes, atomSize) && p.serving && 0 < atomSize
    ensures var sent := p.bytes.sent + atomSize;
      Orderly(p.(bursts := p.bursts + 1, bytes := p.bytes.(sent := sent), serving := sent < nbytes), nbytes, atomSize)
  {
    assert atomSize * (p.bursts + 1) == atomSize * p.bursts + atomSize;
  }

  lemma BurstKeepsFlow(f: Flow, b: nat, nbk: nat, atomSize: nat)
    requires FlowInv(f, nbk, atomSize) && b < nbk && f.serving[b].Some? && 0 < atomSize
    ensures f.serving[b].value in f.bytes && FlowInv(Burst(f, b, atomSize), nbk, atomSize)
  {
    BurstKeepsKnown(f, b, nbk, atomSize);
    forall q | q in f.bytes
      ensures InOnePlace(Burst(f, b, atomSize), q, atomSize)
    {
      assert InOnePlace(f, q, atomSize);
      BurstKeepsPlace(f, b, atomSize, q);
    }
  }

  lemma BurstKeepsPlace(f: Flow, b: nat, atomSize: nat, q: Request)
    requires b < |f.serving| && f.serving[b].Some? && f.serving[b].value in f.bytes && q in f.bytes && 0 < atomSize
    requires f.serving[b].value.bank == b && InOnePlace(f, q, atomSize)
    ensures InOnePlace(Burst(f, b, atomSize), q, atomSize)
  {
    BurstPlace(f, b, atomSize, q);
    if q == f.serving[b].value {
      OrderlyBurst(PlaceOf(f, q), q.nbytes, atomSize);
    }
  }

  lemma MoveKeepsKnown(f: Flow, nbk: nat, atomSize: nat)
    requires Known(f, nbk) && f.inFlight != []
    ensures f.inFlight[0] in f.bytes && Known(Moved(f, atomSize), nbk)
  {
    assert f.inFlight[0] in f.inFlight;
    assert forall q :: q in f.inFlight[1..] ==> q in f.inFlight;
  }

  ghost function MovedPlace(p: Place, nbytes: nat, atomSize: nat): Place
    requires p.bursts > 0
  {
    var moved := p.bytes.moved + atomSize;
    p.(bursts := p.bursts - 1, bytes := p.bytes.(moved := moved),
       finished := if moved >= nbytes then p.finished + 1 else p.finished)
  }

  lemma MovePlace(f: Flow, atomSize: nat, q: Request)
    requires f.inFlight != [] && f.inFlight[0] in f.bytes && q in f.bytes
    ensures var p, r, f' := PlaceOf(f, q), f.inFlight[0], Moved(f, atomSize);
      if q == r then p.bursts > 0 && PlaceOf(f', q) == MovedPlace(p, r.nbytes, atomSize) else PlaceOf(f', q) == p
  {
    CountFirst(f.inFlight, q);
    assert q in multiset(f.inFlight) <==> q in f.inFlight;
  }

  lemma OrderlyMove(p: Place, nbytes: nat, atomSize: nat)
    requires Orderly(p, nbytes, atomSize) && p.bursts > 0 && 0 < atomSize
    ensures Orderly(MovedPlace(p, nbytes, atomSize), nbytes, atomSize)
  {
    var left := p.bursts - 1;
    assert atomSize * (left + 1) == atomSize * left + atomSize;
    assert left > 0 ==> atomSize * left >= atomSize;
  }

  lemma MoveKeepsFlow(f: Flow, nbk: nat, atomSize: nat)
    requires FlowInv(f, nbk, atomSize) && f.inFlight != [] && 0 < atomSize
    ensures f.inFlight[0] in f.bytes && FlowInv(Moved(f, atomSize), nbk, atomSize)
  {
    MoveKeepsKnown(f, nbk, atomSize);
    forall q | q in f.bytes
      ensures InOnePlace(Moved(f, atomSize), q, atomSize)
    {
      assert InOnePlace(f, q, atomSize);
      MovePlace(f, atomSize, q);
      if q == f.inFlight[0] {
        OrderlyMove(PlaceOf(f, q), q.nbytes, atomSize);
      }
    }
  }

  lemma OrderlyFinish(p: Place, nbytes: nat, atomSize: nat)
    requires Orderly(p, nbytes, atomSize) && p.finished > 0
    ensures p.finished == 1 && p.waiting == p.bursts == 0 && !p.serving
    ensures p.bytes.sent == p.bytes.moved && Enough(nbytes, p.bytes.moved, atomSize)
  {
    assert atomSize * 0 == 0;
  }

  lemma FinishedPlace(f: Flow, r: Request, nbk: nat, atomSize: nat)
    requires FlowInv(f, nbk, atomSize) && r in f.finished
    ensures r in f.bytes && r.bank < nbk
    ensures var p := PlaceOf(f, r);
      && p.finished == 1 && p.waiting == p.bursts == 0 && !p.serving
      && p.bytes.sent == p.bytes.moved && Enough(r.nbytes, p.bytes.moved, atomSize)
  {
    CountPresent(f.finished, r);
    assert InOnePlace(f, r, atomSize);
    OrderlyFinish(PlaceOf(f, r), r.nbytes, atomSize);
  }

  // ----- histories -----

  datatype Event = Accept(r: Request) | Admit | Forward | Select(bank: nat, i: nat) | Send(bank: nat) | Move

  predicate Allowed(f: Flow, e: Event) {
    match e
    case Accept(r) => r !in f.bytes && r.bank < |f.queues|
    case Admit => f.mrqq != [] && f.mrqq[0].bank < |f.queues|
    case Forward => f.mrqq != [] && f.mrqq[0].bank < |f.serving| && f.serving[f.mrqq[0].bank] == None
    case Select(b, i) => b < |f.serving| == |f.queues| && i < |f.queues[b]| && f.serving[b] == None
    case Send(b) => b < |f.serving| && f.serving[b].Some? && f.serving[b].value in f.bytes
    case Move => f.inFlight != [] && f.inFlight[0] in f.bytes
  }

  ghost function Next(f: Flow, e: Event, atomSize: nat): Flow
    requires Allowed(f, e)
  {
    match e
    case Accept(r) => Accepted(f, r)
    case Admit => Admitted(f)
    case Forward => Forwarded(f)
    case Select(b, i) => Scheduled(f, b, i)
    case Send(b) => Burst(f, b, atomSize)
    case Move => Moved(f, atomSize)
  }

  ghost function Start(nbk: nat): Flow {
    Flow([], seq(nbk, _ => []), seq(nbk, _ => None), [], [], map[], [])
  }

  /** The flow after a history; an event that is not allowed changes nothing. */
  ghost function Replay(nbk: nat, atomSize: nat, history: seq<Event>): Flow {
    if history == [] then Start(nbk)
    else
      var f := Replay(nbk, atomSize, history[..|history| - 1]);
      if Allowed(f, history[|history| - 1]) then Next(f, history[|history| - 1], atomSize) else f
  }

  lemma EventKeepsFlow(f: Flow, e: Event, nbk: nat, atomSize: nat)
    requires FlowInv(f, nbk, atomSize) && Allowed(f, e) && 0 < atomSize
    ensures FlowInv(Next(f, e, atomSize), nbk, atomSize)
  {
    match e {
      case Accept(r) => AcceptKeepsFlow(f, r, nbk, atomSize);
      case Admit => AdmitKeepsFlow(f, nbk, atomSize);
      case Forward => ForwardKeepsFlow(f, nbk, atomSize);
      case Select(b, i) => ScheduleKeepsFlow(f, b, i, nbk, atomSize);
      case Send(b) => BurstKeepsFlow(f, b, nbk, atomSize);
      case Move => MoveKeepsFlow(f, nbk, atomSize);
    }
  }

  /** After every history each request is in exactly one place. */
  lemma {:induction false} HistoryKeepsFlow(nbk: nat, atomSize: nat, history: seq<Event>)
    requires 0 < atomSize
    ensures FlowInv(Replay(nbk, atomSize, history), nbk, atomSize)
  {
    if history != [] {
      var before, e := history[..|history| - 1], history[|history| - 1];
      HistoryKeepsFlow(nbk, atomSize, before);
      if Allowed(Replay(nbk, atomSize, before), e) {
        EventKeepsFlow(Replay(nbk, atomSize, before), e, nbk, atomSize);
      }
    }
  }

  /** A request is finished at most once; from then on nothing in the channel points at it, all its bytes
      have been moved, and no more bursts were spent on it than its size takes. */
  lemma FinishedOnceAndForAll(nbk: nat, atomSize: nat, history: seq<Event>, r: Request)
    requires 0 < atomSize && r in Replay(nbk, atomSize, history).finished
    ensures var f := Replay(nbk, atomSize, history);
      && multiset(f.finished)[r] == 1 && r in f.bytes
      && r !in f.mrqq && r !in f.inFlight
      && |f.queues| == |f.serving| == nbk
      && (forall b :: 0 <= b < nbk ==> r !in f.queues[b] && f.serving[b] != Some(r))
      && f.bytes[r].sent == f.bytes[r].moved && Enough(r.nbytes, f.bytes[r].moved, atomSize)
  {
    var f := Replay(nbk, atomSize, history);
    HistoryKeepsFlow(nbk, atomSize, history);
    FinishedPlace(f, r, nbk, atomSize);
    CountPresent(f.mrqq, r);
    CountPresent(f.inFlight, r);
    CountPresent(f.queues[r.bank], r);
    assert Known(f, nbk);
  }

  /** A request that is not finished is still in the channel: none is lost. */
  lemma UnfinishedIsInside(nbk: nat, atomSize: nat, history: seq<Event>, r: Request)
    requires 0 < atomSize
    ensures var f := Replay(nbk, atomSize, history);
      r in f.bytes && r !in f.finished ==>
        && r.bank < nbk == |f.queues| == |f.serving|
        && (r in f.mrqq || r in f.queues[r.bank] || f.serving[r.bank] == Some(r) || r in f.inFlight)
  {
    var f := Replay(nbk, atomSize, history);
    HistoryKeepsFlow(nbk, atomSize, history);
    if r in f.bytes {
      assert InOnePlace(f, r, atomSize);
      CountPresent(f.finished, r);
      CountPresent(f.mrqq, r);
      CountPresent(f.inFlight, r);
      CountPresent(f.queues[r.bank], r);
    }
  }

  // ----- what the controller relies on -----

  lemma ServedIsKnown(nbk: nat, atomSize: nat, history: seq<Event>, b: nat)
    requires 0 < atomSize && b < nbk
    ensures var f := Replay(nbk, atomSize, history);
      b < |f.serving| && (f.serving[b].Some? ==> f.serving[b].value in f.bytes && f.serving[b].value.bank == b)
  {
    HistoryKeepsFlow(nbk, atomSize, history);
  }

  lemma FirstsAreKnown(nbk: nat, atomSize: nat, history: seq<Event>)
    requires 0 < atomSize
    ensures var f := Replay(nbk, atomSize, history);
      && (f.mrqq != [] ==> f.mrqq[0].bank < nbk)
      && (f.inFlight != [] ==> f.inFlight[0] in f.bytes)
  {
    HistoryKeepsFlow(nbk, atomSize, history);
    var f := Replay(nbk, atomSize, history);
    assert f.mrqq != [] ==> f.mrqq[0] in f.mrqq;
    assert f.inFlight != [] ==> f.inFlight[0] in f.inFlight;
  }

  lemma ReplayNext(nbk: nat, atomSize: nat, history: seq<Event>, e: Event)
    requires Allowed(Replay(nbk, atomSize, history), e)
    ensures Replay(nbk, atomSize, history + [e]) == Next(Replay(nbk, atomSize, history), e, atomSize)
  {
    assert (history + [e])[..|history|] == history;
  }
}
