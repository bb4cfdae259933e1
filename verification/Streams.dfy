/** The stream manager: host threads queue operations on streams, and the simulator carries them out. */
module Streams {
  import opened Options

  /** An operation: a kernel with its uid, or a copy or an event, which is done as soon as it is started. */
  datatype Op = Kernel(uid: nat) | Immediate(id: nat)

  /** A stream; the first operation is pending when it has been started but is not yet done. */
  datatype Queue = Queue(ops: seq<Op>, pending: bool)

  /** A stream by its name: stream zero, or one of the concurrent streams. */
  datatype Name = Zero | Concurrent(id: nat)

  /** The manager's state. The logs of what was pushed to and completed on each stream, and the set of kernels
      on the GPU, are for stating what happens; so is the stream that each kernel was pushed to. */
  datatype State = State(
    streams: seq<nat>, queues: map<Name, Queue>, serviceZero: bool, grids: map<nat, Name>,
    onGpu: set<nat>, home: map<nat, Name>, pushed: map<Name, seq<Op>>, completed: map<Name, seq<Op>>)

  const IDLE := Queue([], false)

  function Of(s: State, n: Name): Queue {
    if n in s.queues then s.queues[n] else IDLE
  }

  function Log(log: map<Name, seq<Op>>, n: Name): seq<Op> {
    if n in log then log[n] else []
  }

  // ----- the steps -----

  function Pushed(s: State, n: Name, op: Op): State {
    var q := Of(s, n);
    s.(queues := s.queues[n := q.(ops := q.ops + [op])], pushed := s.pushed[n := Log(s.pushed, n) + [op]],
       home := if op.Kernel? then s.home[op.uid := n] else s.home)
  }

  /** The first operation of a stream is started. */
  function Started(s: State, n: Name): State
    requires Of(s, n).ops != []
  {
    var q := Of(s, n);
    var s' := s.(queues := s.queues[n := q.(pending := true)]);
    if q.ops[0].Kernel? then s'.(grids := s.grids[q.ops[0].uid := n]) else s'
  }

  /** The first operation of a stream is done. */
  function Done(s: State, n: Name): State
    requires Of(s, n).ops != []
  {
    var q := Of(s, n);
    s.(queues := s.queues[n := Queue(q.ops[1..], false)],
       completed := s.completed[n := Log(s.completed, n) + [q.ops[0]]])
  }

  /** A kernel has finished. */
  function Finished(s: State, uid: nat): State
    requires uid in s.grids && Of(s, s.grids[uid]).ops != []
  {
    var s' := Done(s, s.grids[uid]);
    s'.(grids := s.grids - {uid}, onGpu := s.onGpu - {uid})
  }

  predicate ConcurrentEmpty(s: State) {
    forall i :: 0 <= i < |s.streams| ==> Of(s, Concurrent(s.streams[i])).ops == []
  }

  /** The first concurrent stream, in order of creation, that has an operation and is not busy. */
  function FirstReady(s: State, n: nat): Option<nat>
    requires n <= |s.streams|
    decreases |s.streams| - n
  {
    if n == |s.streams| then None
    else
      var q := Of(s, Concurrent(s.streams[n]));
      if !q.pending && q.ops != [] then Some(s.streams[n]) else FirstReady(s, n + 1)
  }

  /** Whether stream zero is serviced, decided anew in every round. */
  function Serviced(s: State): State {
    if !s.serviceZero && ConcurrentEmpty(s) then s.(serviceZero := true) else s
  }

  /** The stream whose first operation is started next, if any. */
  function Chosen(s: State): Option<Name> {
    if s.serviceZero then
      if Of(s, Zero).ops != [] && !Of(s, Zero).pending then Some(Zero) else None
    else
      match FirstReady(s, 0)
      case Some(id) => Some(Concurrent(id))
      case None => None
  }

  /** Stream zero is left when it has run empty. */
  function Left(s: State): State {
    if s.serviceZero && Of(s, Zero).ops == [] then s.(serviceZero := false) else s
  }

  /** Carries out an operation that has been started: copies and events are done at once; a kernel is put on the
      GPU if that can start one, or simulated at once when only its function is. */
  function Performed(s: State, n: Name, canStart: bool, functional: bool): State
    requires Of(s, n).ops != []
    requires Of(s, n).ops[0].Kernel? ==> Of(s, n).ops[0].uid in s.grids && s.grids[Of(s, n).ops[0].uid] == n
  {
    match Of(s, n).ops[0]
    case Immediate(_) => Done(s, n)
    case Kernel(uid) =>
      if !canStart then s
      else if functional then Finished(s, uid)
      else s.(onGpu := s.onGpu + {uid})
  }

  /** One round of the simulator: at most one finished kernel is registered, at most one operation started. */
  function Round(s: State, finished: nat, canStart: bool, functional: bool): State
    requires finished > 0 ==> finished in s.grids && Of(s, s.grids[finished]).ops != []
  {
    var s1 := Serviced(if finished > 0 then Finished(s, finished) else s);
    match Chosen(s1)
    case None => Left(s1)
    case Some(n) => Begin(s1, n, canStart, functional)
  }

  function Begin(s: State, n: Name, canStart: bool, functional: bool): State {
    if Of(s, n).ops == [] then s else Performed(Started(s, n), n, canStart, functional)
  }

  // ----- the invariant -----

  ghost predicate KnownStream(s: State, n: Name) {
    n == Zero || n.id in s.streams
  }

  /** A kernel has a uid that belongs to the stream it is on. */
  predicate AtHome(home: map<nat, Name>, op: Op, n: Name) {
    op.Kernel? ==> 0 < op.uid && op.uid in home && home[op.uid] == n
  }

  ghost predicate AllAtHome(home: map<nat, Name>, ops: seq<Op>, n: Name) {
    forall i :: 0 <= i < |ops| ==> AtHome(home, ops[i], n)
  }

  lemma NewKernelsLeaveOthersAtHome(home: map<nat, Name>, ops: seq<Op>, n: Name, uid: nat, m: Name)
    requires AllAtHome(home, ops, n) && uid !in home
    ensures AllAtHome(home[uid := m], ops, n)
  {
    forall i | 0 <= i < |ops|
      ensures AtHome(home[uid := m], ops[i], n)
    {
      assert AtHome(home, ops[i], n);
    }
  }

  /** A stream is busy exactly while its first operation is a kernel that has been registered for it. */
  ghost predicate QueueOk(s: State, n: Name) {
    var q := Of(s, n);
    && (q.pending ==> q.ops != [] && q.ops[0].Kernel? && q.ops[0].uid in s.grids && s.grids[q.ops[0].uid] == n)
    && (q.ops != [] ==> KnownStream(s, n))
    && AllAtHome(s.home, q.ops, n)
    && Log(s.pushed, n) == Log(s.completed, n) + q.ops
  }

  ghost predicate GridOk(s: State, uid: nat)
    requires uid in s.grids
  {
    var q := Of(s, s.grids[uid]);
    q.pending && q.ops != [] && q.ops[0] == Kernel(uid)
  }

  /** Stream zero and the concurrent streams take turns. */
  ghost predicate TurnsOk(s: State) {
    && (s.serviceZero ==> forall id :: !Of(s, Concurrent(id)).pending)
    && (!s.serviceZero ==> !Of(s, Zero).pending)
  }

  ghost predicate Inv(s: State) {
    && (forall n :: QueueOk(s, n)) && (forall uid :: uid in s.grids ==> GridOk(s, uid))
    && TurnsOk(s) && s.onGpu <= s.grids.Keys
  }

  lemma PushKeepsOtherQueue(s: State, n: Name, op: Op, m: Name)
    requires QueueOk(s, m) && m != n && (op.Kernel? ==> op.uid !in s.home)
    ensures QueueOk(Pushed(s, n, op), m)
  {
    if op.Kernel? {
      NewKernelsLeaveOthersAtHome(s.home, Of(s, m).ops, m, op.uid, n);
    }
  }

  lemma PushKeepsItsQueue(s: State, n: Name, op: Op)
    requires QueueOk(s, n) && KnownStream(s, n) && (op.Kernel? ==> 0 < op.uid && op.uid !in s.home)
    ensures QueueOk(Pushed(s, n, op), n)
  {
    var q, s' := Of(s, n), Pushed(s, n, op);
    if op.Kernel? {
      NewKernelsLeaveOthersAtHome(s.home, q.ops, n, op.uid, n);
    }
    assert Of(s', n) == Queue(q.ops + [op], q.pending);
    assert AllAtHome(s'.home, q.ops, n) && AtHome(s'.home, op, n);
    assert Log(s'.pushed, n) == Log(s.completed, n) + (q.ops + [op]);
  }

  lemma PushKeepsInv(s: State, n: Name, op: Op)
    requires Inv(s) && KnownStream(s, n) && (op.Kernel? ==> 0 < op.uid && op.uid !in s.home)
    ensures Inv(Pushed(s, n, op))
  {
    var s' := Pushed(s, n, op);
    forall m
      ensures QueueOk(s', m)
    {
      assert QueueOk(s, m);
      if m == n {
        PushKeepsItsQueue(s, n, op);
      } else {
        PushKeepsOtherQueue(s, n, op, m);
      }
    }
    forall uid | uid in s'.grids
      ensures GridOk(s', uid)
    {
      assert GridOk(s, uid);
    }
    forall id
      ensures s'.serviceZero ==> !Of(s', Concurrent(id)).pending
    {
      assert s.serviceZero ==> !Of(s, Concurrent(id)).pending;
    }
  }

  lemma FinishKeepsInv(s: State, uid: nat)
    requires Inv(s) && uid in s.grids
    ensures Of(s, s.grids[uid]).ops != [] && Inv(Finished(s, uid))
  {
    assert GridOk(s, uid);
    var n, s' := s.grids[uid], Finished(s, uid);
    forall m
      ensures QueueOk(s', m)
    {
      assert QueueOk(s, m) && QueueOk(s, n);
      if m != n {
        assert Of(s', m) == Of(s, m) && Log(s'.completed, m) == Log(s.completed, m);
      }
    }
    forall u | u in s'.grids
      ensures GridOk(s', u)
    {
      assert GridOk(s, u);
    }
    forall id
      ensures s'.serviceZero ==> !Of(s', Concurrent(id)).pending
    {
      assert s.serviceZero ==> !Of(s, Concurrent(id)).pending;
    }
  }

  lemma {:induction false} FirstReadyIs(s: State, n: nat)
    requires n <= |s.streams|
    ensures var r := FirstReady(s, n);
      r.Some? ==> r.value in s.streams && !Of(s, Concurrent(r.value)).pending && Of(s, Concurrent(r.value)).ops != []
    decreases |s.streams| - n
  {
    if n < |s.streams| {
      FirstReadyIs(s, n + 1);
    }
  }

  lemma EmptyIsIdle(s: State, id: nat)
    requires ConcurrentEmpty(s) && QueueOk(s, Concurrent(id))
    ensures !Of(s, Concurrent(id)).pending
  {
    if id in s.streams {
      var i :| 0 <= i < |s.streams| && s.streams[i] == id;
      assert Of(s, Concurrent(s.streams[i])).ops == [];
    }
  }

  /** While stream zero is serviced no concurrent stream is busy, because it starts only when all are empty. */
  lemma ServiceKeepsInv(s: State)
    requires Inv(s)
    ensures Inv(Serviced(s))
  {
    var s' := Serviced(s);
    forall m
      ensures QueueOk(s', m)
    {
      assert QueueOk(s, m);
    }
    forall uid | uid in s'.grids
      ensures GridOk(s', uid)
    {
      assert GridOk(s, uid);
    }
    forall id
      ensures s'.serviceZero ==> !Of(s', Concurrent(id)).pending
    {
      assert s.serviceZero ==> !Of(s, Concurrent(id)).pending;
      if ConcurrentEmpty(s) {
        EmptyIsIdle(s, id);
      }
    }
  }

  lemma LeaveKeepsInv(s: State)
    requires Inv(s)
    ensures Inv(Left(s))
  {
    var s' := Left(s);
    assert QueueOk(s, Zero);
    forall m
      ensures QueueOk(s', m)
    {
      assert QueueOk(s, m);
    }
    forall uid | uid in s'.grids
      ensures GridOk(s', uid)
    {
      assert GridOk(s, uid);
    }
  }

  lemma StartImmediateKeepsInv(s: State, n: Name)
    requires Inv(s) && Chosen(s) == Some(n) && Of(s, n).ops != [] && Of(s, n).ops[0].Immediate? && !Of(s, n).pending
    ensures Inv(Done(Started(s, n), n))
  {
    var s' := Done(Started(s, n), n);
    forall m
      ensures QueueOk(s', m)
    {
      assert QueueOk(s, m) && QueueOk(s, n);
      if m != n {
        assert Of(s', m) == Of(s, m) && Log(s'.completed, m) == Log(s.completed, m);
      }
    }
    forall uid | uid in s'.grids
      ensures GridOk(s', uid)
    {
      assert GridOk(s, uid);
    }
    forall id
      ensures s'.serviceZero ==> !Of(s', Concurrent(id)).pending
    {
      assert s.serviceZero ==> !Of(s, Concurrent(id)).pending;
    }
  }

  lemma StartKernelKeepsInv(s: State, n: Name)
    requires Inv(s) && Chosen(s) == Some(n) && Of(s, n).ops != [] && Of(s, n).ops[0].Kernel? && !Of(s, n).pending
    ensures Inv(Started(s, n))
  {
    var s', uid := Started(s, n), Of(s, n).ops[0].uid;
    assert QueueOk(s, n);
    assert uid in s.grids ==> GridOk(s, uid) && QueueOk(s, s.grids[uid]);
    forall m
      ensures QueueOk(s', m)
    {
      assert QueueOk(s, m);
    }
    forall u | u in s'.grids
      ensures GridOk(s', u)
    {
      assert u in s.grids ==> GridOk(s, u);
    }
    forall id
      ensures s'.serviceZero ==> !Of(s', Concurrent(id)).pending
    {
      assert s.serviceZero ==> !Of(s, Concurrent(id)).pending;
    }
  }

  lemma LaunchKeepsInv(s: State, uid: nat)
    requires Inv(s) && uid in s.grids
    ensures Inv(s.(onGpu := s.onGpu + {uid}))
  {
    var s' := s.(onGpu := s.onGpu + {uid});
    forall m
      ensures QueueOk(s', m)
    {
      assert QueueOk(s, m);
    }
    forall u | u in s'.grids
      ensures GridOk(s', u)
    {
      assert GridOk(s, u);
    }
    forall id
      ensures s'.serviceZero ==> !Of(s', Concurrent(id)).pending
    {
      assert s.serviceZero ==> !Of(s, Concurrent(id)).pending;
    }
  }

  lemma BeginKeepsInv(s: State, n: Name, canStart: bool, functional: bool)
    requires Inv(s) && Chosen(s) == Some(n)
    ensures Inv(Begin(s, n, canStart, functional))
  {
    FirstReadyIs(s, 0);
    if Of(s, n).ops[0].Immediate? {
      StartImmediateKeepsInv(s, n);
    } else {
      StartKernelKeepsInv(s, n);
      var s' := Started(s, n);
      if canStart && functional {
        FinishKeepsInv(s', Of(s, n).ops[0].uid);
      } else if canStart {
        LaunchKeepsInv(s', Of(s, n).ops[0].uid);
      }
    }
  }

  lemma RoundKeepsInv(s: State, finished: nat, canStart: bool, functional: bool)
    requires Inv(s) && (finished > 0 ==> finished in s.onGpu)
    ensures finished > 0 ==> finished in s.grids && Of(s, s.grids[finished]).ops != []
    ensures Inv(Round(s, finished, canStart, functional))
  {
    var s0 := s;
    if finished > 0 {
      FinishKeepsInv(s, finished);
      s0 := Finished(s, finished);
    }
    ServiceKeepsInv(s0);
    var s1 := Serviced(s0);
    if Chosen(s1).Some? {
      BeginKeepsInv(s1, Chosen(s1).value, canStart, functional);
    } else {
      LeaveKeepsInv(s1);
    }
  }

  // ----- what a round starts -----

  /** The state in which a round chooses: a kernel reported as finished has been taken off its stream. */
  function Reported(s: State, finished: nat): State
    requires finished > 0 ==> finished in s.grids && Of(s, s.grids[finished]).ops != []
  {
    if finished > 0 then Finished(s, finished) else s
  }

  ghost predicate Waits(s: State, n: Name) {
    Of(s, n).ops != [] && !Of(s, n).pending
  }

  /** The first operation of a stream has been started: it is pending, or already done. */
  ghost predicate Begun(s: State, s': State, n: Name) {
    var q, q' := Of(s, n), Of(s', n);
    Waits(s, n) && (
      || q' == Queue(q.ops, true)
      || (q' == Queue(q.ops[1..], false) && Log(s'.completed, n) == Log(s.completed, n) + [q.ops[0]]))
  }

  /** The first of the concurrent streams, in order of creation, that waits. */
  ghost predicate FirstWaiting(s: State, i: nat) {
    && i < |s.streams| && Waits(s, Concurrent(s.streams[i]))
    && forall k :: 0 <= k < i ==> !Waits(s, Concurrent(s.streams[k]))
  }

  lemma {:induction false} FirstReadyIsFirst(s: State, n: nat) returns (i: nat)
    requires n <= |s.streams|
    ensures n <= i <= |s.streams| && forall k :: n <= k < i ==> !Waits(s, Concurrent(s.streams[k]))
    ensures i < |s.streams| ==> Waits(s, Concurrent(s.streams[i])) && FirstReady(s, n) == Some(s.streams[i])
    ensures i == |s.streams| ==> FirstReady(s, n) == None
    decreases |s.streams| - n
  {
    i := n;
    if n < |s.streams| && !Waits(s, Concurrent(s.streams[n])) {
      i := FirstReadyIsFirst(s, n + 1);
    }
  }

  /** A copy or an event that is started is done, and so is a kernel of which only the function is simulated; another
      kernel is on the GPU if that can start one. */
  ghost predicate Carried(s: State, s': State, n: Name, canStart: bool, functional: bool) {
    Waits(s, n)
    && match Of(s, n).ops[0]
       case Immediate(_) => Of(s', n) == Queue(Of(s, n).ops[1..], false)
       case Kernel(uid) =>
         && Of(s', n) == (if canStart && functional then Queue(Of(s, n).ops[1..], false) else Queue(Of(s, n).ops, true))
         && (canStart && !functional ==> uid in s'.onGpu)
  }

  lemma KernelBegins(s: State, n: Name, canStart: bool, functional: bool)
    requires Waits(s, n) && Of(s, n).ops[0].Kernel?
    ensures Begun(s, Begin(s, n, canStart, functional), n)
    ensures Carried(s, Begin(s, n, canStart, functional), n, canStart, functional)
  {
    var q, s' := Of(s, n), Started(s, n);
    assert Of(s', n) == Queue(q.ops, true);
  }

  lemma BeginBegins(s: State, n: Name, canStart: bool, functional: bool)
    requires Waits(s, n)
    ensures Begun(s, Begin(s, n, canStart, functional), n)
    ensures Carried(s, Begin(s, n, canStart, functional), n, canStart, functional)
  {
    if Of(s, n).ops[0].Kernel? {
      KernelBegins(s, n, canStart, functional);
    }
  }

  lemma BeginLeavesOthers(s: State, n: Name, canStart: bool, functional: bool, m: Name)
    requires Waits(s, n) && m != n
    ensures Of(Begin(s, n, canStart, functional), m) == Of(s, m)
    ensures Begin(s, n, canStart, functional).serviceZero == s.serviceZero
  {
  }

  /** Stream zero is not serviced any longer once a round has found it empty. */
  lemma EmptyZeroIsLeft(s: State, finished: nat, canStart: bool, functional: bool)
    requires Inv(s) && (finished > 0 ==> finished in s.onGpu) && Of(s, Zero).ops == []
    ensures finished > 0 ==> finished in s.grids && Of(s, s.grids[finished]).ops != []
    ensures !Round(s, finished, canStart, functional).serviceZero
  {
    assert finished > 0 ==> GridOk(s, finished);
    var s1 := Serviced(Reported(s, finished));
    assert Of(s1, Zero).ops == [];
    if !s1.serviceZero && Chosen(s1).Some? {
      FirstReadyIs(s1, 0);
      BeginLeavesOthers(s1, Chosen(s1).value, canStart, functional, Zero);
    }
  }

  lemma RoundLeavesEmptyZero(s: State, finished: nat, canStart: bool, functional: bool)
    requires Inv(s) && (finished > 0 ==> finished in s.onGpu)
    ensures finished > 0 ==> finished in s.grids && Of(s, s.grids[finished]).ops != []
    ensures var s' := Round(s, finished, canStart, functional); Inv(s') && (Of(s, Zero).ops == [] ==> !s'.serviceZero)
  {
    RoundKeepsInv(s, finished, canStart, functional);
    if Of(s, Zero).ops == [] {
      EmptyZeroIsLeft(s, finished, canStart, functional);
    }
  }

  lemma FirstWaitingIsChosen(s: State, i: nat)
    requires FirstWaiting(s, i) && !s.serviceZero
    ensures Serviced(s) == s && Chosen(s) == Some(Concurrent(s.streams[i]))
  {
    var j := FirstReadyIsFirst(s, 0);
    assert !(j < i) && !(i < j);
  }

  /** While stream zero is not serviced, a round starts the first waiting concurrent stream, and no other. */
  lemma RoundStartsFirstWaiting(s: State, finished: nat, canStart: bool, functional: bool, i: nat)
    requires !s.serviceZero && (finished > 0 ==> finished in s.grids && Of(s, s.grids[finished]).ops != [])
    requires FirstWaiting(Reported(s, finished), i)
    ensures var s0, s' := Reported(s, finished), Round(s, finished, canStart, functional);
      && Begun(s0, s', Concurrent(s0.streams[i]))
      && Carried(s0, s', Concurrent(s0.streams[i]), canStart, functional)
      && forall n :: n != Concurrent(s0.streams[i]) ==> Of(s', n) == Of(s0, n)
  {
    var s0 := Reported(s, finished);
    var chosen := Concurrent(s0.streams[i]);
    FirstWaitingIsChosen(s0, i);
    assert Round(s, finished, canStart, functional) == Begin(s0, chosen, canStart, functional);
    BeginBegins(s0, chosen, canStart, functional);
    forall n | n != chosen
      ensures Of(Begin(s0, chosen, canStart, functional), n) == Of(s0, n)
    {
      BeginLeavesOthers(s0, chosen, canStart, functional, n);
    }
  }

  lemma FirstWaitingExists(s: State, id: nat) returns (i: nat)
    requires id in s.streams && Waits(s, Concurrent(id))
    ensures FirstWaiting(s, i)
  {
    i := FirstReadyIsFirst(s, 0);
    var k :| 0 <= k < |s.streams| && s.streams[k] == id;
    assert Waits(s, Concurrent(s.streams[k]));
  }

  /** A stream that waits goes on waiting when another stream's kernel finishes, or stream zero is left. */
  lemma WaitsOn(s: State, finished: nat, id: nat)
    requires Inv(s) && (finished > 0 ==> finished in s.onGpu) && Waits(s, Concurrent(id))
    ensures finished > 0 ==> finished in s.grids && Of(s, s.grids[finished]).ops != []
    ensures Waits(Reported(s, finished), Concurrent(id))
    ensures id in s.streams && Reported(s, finished).streams == s.streams
  {
    assert QueueOk(s, Concurrent(id));
    assert finished > 0 ==> GridOk(s, finished);
  }

  /** Stream zero does not hold the others up. When it is empty and a concurrent stream waits, then of any two rounds
      without a push between them one starts the first waiting concurrent stream. */
  lemma TwoRoundsStart(s: State, id: nat, finished: nat, canStart: bool, functional: bool,
                       finished': nat, canStart': bool, functional': bool) returns (i: nat)
    requires Inv(s) && Of(s, Zero).ops == [] && Waits(s, Concurrent(id)) && (finished > 0 ==> finished in s.onGpu)
    ensures finished > 0 ==> finished in s.grids && Of(s, s.grids[finished]).ops != []
    ensures var s0, s1 := Reported(s, finished), Round(s, finished, canStart, functional);
      if !s.serviceZero then
        FirstWaiting(s0, i) && Begun(s0, s1, Concurrent(s.streams[i]))
      else (finished' > 0 ==> finished' in s1.onGpu) ==>
        && (finished' > 0 ==> finished' in s1.grids && Of(s1, s1.grids[finished']).ops != [])
        && FirstWaiting(Reported(s1, finished'), i)
        && Begun(Reported(s1, finished'), Round(s1, finished', canStart', functional'), Concurrent(s.streams[i]))
  {
    i := 0;
    WaitsOn(s, finished, id);
    var s0, s1 := Reported(s, finished), Round(s, finished, canStart, functional);
    if !s.serviceZero {
      i := FirstWaitingExists(s0, id);
      RoundStartsFirstWaiting(s, finished, canStart, functional, i);
    } else {
      RoundKeepsInv(s, finished, canStart, functional);
      EmptyZeroIsLeft(s, finished, canStart, functional);
      assert finished > 0 ==> GridOk(s, finished);
      assert Waits(s1, Concurrent(id)) && s1.streams == s.streams;
      if finished' > 0 ==> finished' in s1.onGpu {
        WaitsOn(s1, finished', id);
        i := FirstWaitingExists(Reported(s1, finished'), id);
        RoundStartsFirstWaiting(s1, finished', canStart', functional', i);
      }
    }
  }

  /** Stream zero is not held up either: when all concurrent streams are empty, one round starts it. */
  lemma RoundStartsZero(s: State, finished: nat, canStart: bool, functional: bool)
    requires Inv(s) && (finished > 0 ==> finished in s.onGpu) && ConcurrentEmpty(s) && Waits(s, Zero)
    ensures finished > 0 ==> finished in s.grids && Of(s, s.grids[finished]).ops != []
    ensures Begun(Reported(s, finished), Round(s, finished, canStart, functional), Zero)
    ensures Carried(Reported(s, finished), Round(s, finished, canStart, functional), Zero, canStart, functional)
  {
    assert finished > 0 ==> GridOk(s, finished);
    if finished > 0 {
      FinishKeepsInv(s, finished);
    }
    var s0 := Reported(s, finished);
    assert ConcurrentEmpty(s0) && Waits(s0, Zero);
    ServiceKeepsInv(s0);
    BeginBegins(Serviced(s0), Zero, canStart, functional);
  }

  // ----- runs: every interleaving of host threads and the simulator -----

  /** What happens under the manager's lock: host threads push operations and create and destroy streams, the
      simulator makes rounds. */
  datatype Event = HostPush(n: Name, op: Op) | AddStream(id: nat) | DestroyStream(id: nat)
                 | SimulatorRound(finished: nat, canStart: bool, functional: bool)

  /** Pushes name existing streams and new kernels, destroyed streams are empty, and the GPU reports kernels it
      has been given. */
  predicate Allowed(s: State, e: Event) {
    match e
    case HostPush(n, op) => (n == Zero || n.id in s.streams) && (op.Kernel? ==> 0 < op.uid && op.uid !in s.home)
    case AddStream(id) => id !in s.streams
    case DestroyStream(id) => id in s.streams && Of(s, Concurrent(id)).ops == []
    case SimulatorRound(finished, _, _) => finished > 0 ==> finished in s.onGpu
  }

  function Without(streams: seq<nat>, id: nat): seq<nat> {
    if streams == [] then []
    else if streams[0] == id then streams[1..]
    else [streams[0]] + Without(streams[1..], id)
  }

  /** The kernel reported as finished is the first operation of the stream it is registered for. */
  predicate Registered(s: State, uid: nat) {
    uid in s.grids && Of(s, s.grids[uid]).ops != [] && Of(s, s.grids[uid]).ops[0] == Kernel(uid)
  }

  /** The next state, or None when the manager's assertion about a finished kernel fails. */
  function Next(s: State, e: Event): Option<State> {
    match e
    case HostPush(n, op) => Some(Pushed(s, n, op))
    case AddStream(id) => Some(s.(streams := s.streams + [id]))
    case DestroyStream(id) => Some(s.(streams := Without(s.streams, id)))
    case SimulatorRound(finished, canStart, functional) =>
      if finished > 0 && !Registered(s, finished) then None else Some(Round(s, finished, canStart, functional))
  }

  lemma {:induction false} WithoutSplits(streams: seq<nat>, id: nat, i: nat)
    requires i < |streams| && streams[i] == id && forall k :: 0 <= k < i ==> streams[k] != id
    ensures Without(streams, id) == streams[..i] + streams[i + 1..]
  {
    if i > 0 {
      WithoutSplits(streams[1..], id, i - 1);
      assert [streams[0]] + streams[1..][..i - 1] == streams[..i];
    }
  }

  lemma {:induction false} WithoutKeepsOthers(streams: seq<nat>, id: nat, other: nat)
    requires other in streams && other != id
    ensures other in Without(streams, id)
  {
    if streams[0] != id && streams[0] != other {
      WithoutKeepsOthers(streams[1..], id, other);
    }
  }

  lemma SameQueuesKeepInv(s: State, streams: seq<nat>)
    requires Inv(s) && forall id :: id in s.streams && id !in streams ==> Of(s, Concurrent(id)).ops == []
    ensures Inv(s.(streams := streams))
  {
    var s' := s.(streams := streams);
    forall m
      ensures QueueOk(s', m)
    {
      assert QueueOk(s, m);
    }
    forall uid | uid in s'.grids
      ensures GridOk(s', uid)
    {
      assert GridOk(s, uid);
    }
    forall id
      ensures s'.serviceZero ==> !Of(s', Concurrent(id)).pending
    {
      assert s.serviceZero ==> !Of(s, Concurrent(id)).pending;
    }
  }

  lemma NextKeepsInv(s: State, e: Event)
    requires Inv(s) && Allowed(s, e)
    ensures Next(s, e).Some? && Inv(Next(s, e).value)
  {
    match e {
      case HostPush(n, op) => PushKeepsInv(s, n, op);
      case AddStream(id) => SameQueuesKeepInv(s, s.streams + [id]);
      case DestroyStream(id) =>
        forall other | other in s.streams && other !in Without(s.streams, id)
          ensures Of(s, Concurrent(other)).ops == []
        {
          if other != id {
            WithoutKeepsOthers(s.streams, id, other);
          }
        }
        SameQueuesKeepInv(s, Without(s.streams, id));
      case SimulatorRound(finished, canStart, functional) =>
        assert finished > 0 ==> GridOk(s, finished);
        RoundKeepsInv(s, finished, canStart, functional);
    }
  }

  const START := State([], map[], false, map[], {}, map[], map[], map[])

  /** The state after a sequence of events; an event that is not allowed does not happen. */
  function After(events: seq<Event>): Option<State> {
    if events == [] then Some(START)
    else
      match After(events[..|events| - 1])
      case None => None
      case Some(s) => if Allowed(s, events[|events| - 1]) then Next(s, events[|events| - 1]) else Some(s)
  }

  lemma {:induction false} RunsKeepInv(events: seq<Event>)
    ensures After(events).Some? && Inv(After(events).value)
  {
    if events != [] {
      var before, e := events[..|events| - 1], events[|events| - 1];
      RunsKeepInv(before);
      if Allowed(After(before).value, e) {
        NextKeepsInv(After(before).value, e);
      }
    }
  }

  /** In every interleaving the assertion about finished kernels holds, stream zero and a concurrent stream are
      never both busy, and each stream completes its operations in the order in which they were pushed. */
  lemma InterleavingsAreSafe(events: seq<Event>, n: Name, id: nat, uid: nat)
    ensures After(events).Some?
    ensures var s := After(events).value;
      && !(Of(s, Zero).pending && Of(s, Concurrent(id)).pending)
      && Log(s.pushed, n) == Log(s.completed, n) + Of(s, n).ops
      && (uid in s.onGpu ==> Registered(s, uid) && Of(s, s.grids[uid]).pending)
  {
    RunsKeepInv(events);
    var s := After(events).value;
    assert QueueOk(s, n);
    assert uid in s.grids ==> GridOk(s, uid);
  }

  /** What was pushed on a stream without operations has completed. */
  lemma EmptyIsCompleted(s: State, n: Name)
    requires Inv(s) && Of(s, n).ops == []
    ensures Log(s.pushed, n) == Log(s.completed, n)
  {
    assert QueueOk(s, n);
  }

  // ----- the manager -----

  class StreamManager {
    const launchBlocking: bool
    var streams: seq<nat>
    var queues: map<Name, Queue>
    var serviceZero: bool
    var grids: map<nat, Name>
    ghost var onGpu: set<nat>
    ghost var home: map<nat, Name>
    ghost var pushed: map<Name, seq<Op>>
    ghost var completed: map<Name, seq<Op>>

    ghost function Now(): State
      reads this
    {
      State(streams, queues, serviceZero, grids, onGpu, home, pushed, completed)
    }

    ghost predicate Valid()
      reads this
    {
      Inv(Now())
    }

    constructor (launchBlocking: bool)
      ensures Valid() && Now() == START && this.launchBlocking == launchBlocking
    {
      this.launchBlocking := launchBlocking;
      streams, queues, serviceZero, grids := [], map[], false, map[];
      onGpu, home, pushed, completed := {}, map[], map[], map[];
    }

    function Stream(n: Name): Queue
      reads this
    {
      if n in queues then queues[n] else IDLE
    }

    method AddStream(id: nat)
      requires Valid() && id !in streams
      modifies this
      ensures Valid() && Some(Now()) == Next(old(Now()), Event.AddStream(id))
    {
      NextKeepsInv(Now(), Event.AddStream(id));
      streams := streams + [id];
    }

    /** Removes a stream from the list if it is empty. Otherwise the call never comes to that: it spins holding the
        lock, so that no other thread can empty the stream. */
    method DestroyStream(id: nat) returns (destroyed: bool)
      requires Valid() && id in streams
      modifies this
      ensures Valid() && (destroyed <==> old(Stream(Concurrent(id)).ops) == [])
      ensures if destroyed then Some(Now()) == Next(old(Now()), Event.DestroyStream(id)) else Now() == old(Now())
    {
      if Stream(Concurrent(id)).ops != [] {
        return false;
      }
      NextKeepsInv(Now(), Event.DestroyStream(id));
      streams := Erase(streams, id);
      return true;
    }

    static method Erase(streams: seq<nat>, id: nat) returns (r: seq<nat>)
      requires id in streams
      ensures r == Without(streams, id)
    {
      var i := 0;
      while streams[i] != id
        invariant i < |streams| && forall k :: 0 <= k < i ==> streams[k] != id
        decreases |streams| - i
      {
        i := i + 1;
      }
      WithoutSplits(streams, id, i);
      r := streams[..i] + streams[i + 1..];
    }

    /** Queues an operation: on its stream, or on stream zero if it has none or launches block. */
    method Push(stream: Option<nat>, op: Op)
      requires Valid() && (stream.Some? ==> stream.value in streams) && (op.Kernel? ==> 0 < op.uid && op.uid !in home)
      modifies this
      ensures Valid()
      ensures var n := if Blocks(stream) then Zero else Concurrent(stream.value);
        Some(Now()) == Next(old(Now()), Event.HostPush(n, op))
    {
      var n := if Blocks(stream) then Zero else Concurrent(stream.value);
      PushKeepsInv(Now(), n, op);
      var q := Stream(n);
      queues := queues[n := q.(ops := q.ops + [op])];
      pushed := pushed[n := Log(pushed, n) + [op]];
      if op.Kernel? {
        home := home[op.uid := n];
      }
    }

    predicate Blocks(stream: Option<nat>) {
      stream.None? || launchBlocking
    }

    /** The check that a push to stream zero repeats before it queues anything. */
    method MayPush(stream: Option<nat>) returns (go: bool)
      ensures go <==> !Blocks(stream) || ConcurrentEmpty(Now())
    {
      go := true;
      if Blocks(stream) {
        go := ConcurrentStreamsEmpty();
      }
    }

    /** The check that a push to stream zero repeats before it returns: by then everything pushed has completed. */
    method MayReturn(stream: Option<nat>) returns (go: bool)
      requires Valid()
      ensures go <==> !Blocks(stream) || (ConcurrentEmpty(Now()) && Stream(Zero).ops == [])
      ensures go && Blocks(stream) ==>
        && Log(pushed, Zero) == Log(completed, Zero)
        && forall id :: id in streams ==> Log(pushed, Concurrent(id)) == Log(completed, Concurrent(id))
    {
      go := true;
      if Blocks(stream) {
        var empty := ConcurrentStreamsEmpty();
        go := empty && Stream(Zero).ops == [];
        if go {
          EmptyIsCompleted(Now(), Zero);
          forall id | id in streams
            ensures Log(pushed, Concurrent(id)) == Log(completed, Concurrent(id))
          {
            EmptyIsCompleted(Now(), Concurrent(id));
          }
        }
      }
    }

    method ConcurrentStreamsEmpty() returns (result: bool)
      ensures result <==> ConcurrentEmpty(Now())
    {
      result := true;
      var i := 0;
      while i < |streams|
        invariant i <= |streams|
        invariant result <==> forall k :: 0 <= k < i ==> Of(Now(), Concurrent(streams[k])).ops == []
      {
        if Stream(Concurrent(streams[i])).ops != [] {
          result := false;
        }
        i := i + 1;
      }
    }

    /** Marks the first operation of a stream as pending. */
    method StartNext(n: Name)
      requires Stream(n).ops != []
      modifies this`queues, this`grids
      ensures Now() == Started(old(Now()), n)
    {
      var q := Stream(n);
      queues := queues[n := q.(pending := true)];
      if q.ops[0].Kernel? {
        grids := grids[q.ops[0].uid := n];
      }
    }

    /** Removes the first operation of a stream, which must be pending. */
    method RecordNextDone(n: Name)
      requires Stream(n).pending && Stream(n).ops != []
      modifies this`queues, this`completed
      ensures Now() == Done(old(Now()), n)
    {
      var q := Stream(n);
      queues := queues[n := Queue(q.ops[1..], false)];
      completed := completed[n := Log(completed, n) + [q.ops[0]]];
    }

    method RegisterFinishedKernel(uid: nat) returns (check: bool)
      requires uid > 0 ==> Registered(Now(), uid) && Stream(grids[uid]).pending
      modifies this`queues, this`grids, this`onGpu, this`completed
      ensures check <==> uid > 0
      ensures Now() == if uid > 0 then Finished(old(Now()), uid) else old(Now())
    {
      if uid > 0 {
        var n := grids[uid];
        assert Stream(n).ops[0] == Kernel(uid);
        RecordNextDone(n);
        grids := grids - {uid};
        onGpu := onGpu - {uid};
        return true;
      }
      return false;
    }

    /** Chooses the next operation and starts it. */
    method Front() returns (chosen: Option<Name>)
      modifies this`serviceZero, this`queues, this`grids
      ensures chosen == Chosen(Serviced(old(Now())))
      ensures chosen.Some? ==> Of(Serviced(old(Now())), chosen.value).ops != []
      ensures Now() == if chosen.Some? then Started(Serviced(old(Now())), chosen.value) else Left(Serviced(old(Now())))
      ensures old(Stream(Zero)).ops == [] ==> !serviceZero
    {
      chosen := None;
      var empty := ConcurrentStreamsEmpty();
      if empty {
        serviceZero := true;
      }
      assert Now() == Serviced(old(Now()));
      if serviceZero {
        if Stream(Zero).ops != [] {
          if !Stream(Zero).pending {
            chosen := Some(Zero);
            StartNext(Zero);
          }
        } else {
          serviceZero := false;
        }
      } else {
        var i := 0;
        while i < |streams| && chosen.None?
          invariant i <= |streams| && (chosen.None? ==> Now() == Serviced(old(Now())))
          invariant chosen.None? ==> FirstReady(Now(), 0) == FirstReady(Now(), i)
          invariant chosen.Some? ==>
            && chosen == Chosen(Serviced(old(Now()))) && Of(Serviced(old(Now())), chosen.value).ops != []
            && Now() == Started(Serviced(old(Now())), chosen.value)
        {
          var n := Concurrent(streams[i]);
          if !Stream(n).pending && Stream(n).ops != [] {
            chosen := Some(n);
            StartNext(n);
          }
          i := i + 1;
        }
      }
    }

    /** Carries out a started operation. */
    method DoOperation(n: Name, canStart: bool, functional: bool)
      requires Stream(n).ops != [] && Stream(n).pending
      requires Stream(n).ops[0].Kernel? ==>
        Stream(n).ops[0].uid > 0 && Stream(n).ops[0].uid in grids && grids[Stream(n).ops[0].uid] == n
      modifies this`queues, this`grids, this`onGpu, this`completed
      ensures Now() == Performed(old(Now()), n, canStart, functional)
    {
      match Stream(n).ops[0] {
        case Immediate(_) => RecordNextDone(n);
        case Kernel(uid) =>
          if canStart {
            if functional {
              var _ := RegisterFinishedKernel(uid);
            } else {
              onGpu := onGpu + {uid};
            }
          }
      }
    }

    /** One round of the simulator thread. */
    method Operation(finished: nat, canStart: bool, functional: bool) returns (check: bool)
      requires Valid() && (finished > 0 ==> finished in onGpu)
      modifies this
      ensures Valid() && Some(Now()) == Next(old(Now()), SimulatorRound(finished, canStart, functional))
      ensures check <==> finished > 0
      ensures old(Stream(Zero)).ops == [] ==> !serviceZero
    {
      assert finished > 0 ==> GridOk(Now(), finished);
      RoundLeavesEmptyZero(Now(), finished, canStart, functional);
      if finished > 0 {
        FinishKeepsInv(Now(), finished);
      }
      check := RegisterFinishedKernel(finished);
      ServiceKeepsInv(Now());
      ghost var serviced := Serviced(Now());
      var chosen := Front();
      if chosen.Some? {
        assert QueueOk(serviced, chosen.value);
        assert AtHome(serviced.home, Of(serviced, chosen.value).ops[0], chosen.value);
        DoOperation(chosen.value, canStart, functional);
      }
    }
  }
}
