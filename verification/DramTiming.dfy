/** The timing state of a DRAM channel: countdown counters, open rows, and the commands they allow. */
module DramTiming {
  import opened Bits
  import opened Options

  datatype Command =
    | Activate(bank: nat, row: nat)
    | Precharge(bank: nat)
    | Read(bank: nat, row: nat)
    | Write(bank: nat, row: nat)

  /** The configuration of a channel; `burst` is the burst length in command cycles. */
  datatype Config = Config(
    nbk: nat, nbkgrp: nat, bkTagLength: nat,
    tCCD: nat, tRRD: nat, tRCD: nat, tRCDWR: nat, tRAS: nat, tRP: nat, tRC: nat,
    tCCDL: nat, tRTPL: nat, tWTR: nat, tRTW: nat, tWTP: nat, burst: nat,
    CL: nat, WL: nat, atomSize: nat, schedQueueSize: nat, returnQueueSize: nat)
  {
    /** What initialisation establishes, and a write latency no larger than the read latency. */
    ghost predicate Valid() {
      && 0 < nbk && 0 < nbkgrp && bkTagLength == BitLength(nbk / nbkgrp)
      && 0 < atomSize && WL <= CL
    }

    /** The bank group of a bank, as the controller computes it. */
    function Group(bank: nat): nat {
      ShiftRight(bank, bkTagLength)
    }
  }

  function BitLength(n: nat): nat {
    if n == 0 then 0 else BitLength(n / 2) + 1
  }

  lemma {:induction false} BitLengthBounds(n: nat)
    ensures n < Pow2(BitLength(n))
  {
    if n > 0 {
      BitLengthBounds(n / 2);
    }
  }

  lemma BelowProduct(n: nat, g: nat, p: nat)
    requires 0 < g && n / g < p
    ensures n < g * p
  {
    var q := n / g;
    assert n == g * q + n % g;
    assert g * (q + 1) <= g * p;
  }

  /** Every bank falls into an existing bank group. */
  lemma GroupExists(cfg: Config, bank: nat)
    requires cfg.Valid() && bank < cfg.nbk
    ensures cfg.Group(bank) < cfg.nbkgrp
  {
    var g, perGroup, p := cfg.nbkgrp, cfg.nbk / cfg.nbkgrp, Pow2(cfg.bkTagLength);
    BitLengthBounds(perGroup);
    BelowProduct(cfg.nbk, g, p);
    ShiftedBelow(bank, cfg.bkTagLength, g);
  }

  /** The counters and the row state of one bank. */
  datatype Bank = Bank(active: bool, row: nat, rcd: nat, rcdwr: nat, ras: nat, rp: nat, rc: nat, wtp: nat, rtp: nat)

  datatype BankGroup = BankGroup(ccdl: nat, rtpl: nat)

  datatype Channel = Channel(banks: seq<Bank>, groups: seq<BankGroup>, rrd: nat, ccd: nat, rtw: nat, wtr: nat) {

    ghost predicate Fits(cfg: Config) {
      |banks| == cfg.nbk && |groups| == cfg.nbkgrp
    }

    /** No counter that a command waits for is running, and the row state allows it. */
    predicate Ready(cfg: Config, cmd: Command) {
      && cmd.bank < |banks| && cfg.Group(cmd.bank) < |groups|
      && var b, g := banks[cmd.bank], groups[cfg.Group(cmd.bank)];
         match cmd
         case Read(_, row) => ccd == 0 && b.rcd == 0 && g.ccdl == 0 && b.row == row && wtr == 0 && b.active
         case Write(_, row) => ccd == 0 && b.rcdwr == 0 && g.ccdl == 0 && b.row == row && rtw == 0 && b.active
         case Activate(_, _) => rrd == 0 && !b.active && b.rp == 0 && b.rc == 0
         case Precharge(_) => b.active && b.ras == 0 && b.wtp == 0 && b.rtp == 0 && g.rtpl == 0
    }

    /** A command sets the counters it restarts and changes the row state of its bank. */
    function Issued(cfg: Config, cmd: Command): Channel
      requires cmd.bank < |banks| && cfg.Group(cmd.bank) < |groups|
    {
      var j, grp := cmd.bank, cfg.Group(cmd.bank);
      match cmd
      case Read(_, _) =>
        this.(ccd := cfg.tCCD, rtw := cfg.tRTW, banks := banks[j := banks[j].(rtp := cfg.burst)],
              groups := groups[grp := BankGroup(cfg.tCCDL, cfg.tRTPL)])
      case Write(_, _) =>
        this.(ccd := cfg.tCCD, wtr := cfg.tWTR, banks := banks[j := banks[j].(wtp := cfg.tWTP)],
              groups := groups[grp := groups[grp].(ccdl := cfg.tCCDL)])
      case Activate(_, row) =>
        this.(rrd := cfg.tRRD,
              banks := banks[j := banks[j].(active := true, row := row, rcd := cfg.tRCD, rcdwr := cfg.tRCDWR,
                                            ras := cfg.tRAS, rc := cfg.tRC)])
      case Precharge(_) =>
        this.(banks := banks[j := banks[j].(active := false, rp := cfg.tRP)])
    }

    /** One cycle later every running counter is one lower. */
    function Elapsed(): Channel {
      Channel(seq(|banks|, j requires 0 <= j < |banks| => ElapsedBank(banks[j])),
              seq(|groups|, j requires 0 <= j < |groups| => ElapsedGroup(groups[j])),
              DecToZero(rrd), DecToZero(ccd), DecToZero(rtw), DecToZero(wtr))
    }
  }

  function DecToZero(x: nat): nat {
    if x == 0 then 0 else x - 1
  }

  function ElapsedBank(b: Bank): Bank {
    b.(rcd := DecToZero(b.rcd), ras := DecToZero(b.ras), rc := DecToZero(b.rc), rp := DecToZero(b.rp),
       rcdwr := DecToZero(b.rcdwr), wtp := DecToZero(b.wtp), rtp := DecToZero(b.rtp))
  }

  function ElapsedGroup(g: BankGroup): BankGroup {
    BankGroup(DecToZero(g.ccdl), DecToZero(g.rtpl))
  }

  // ----- what the standard demands of a trace of commands, one slot per cycle -----

  type Trace = seq<Option<Command>>

  function Max(a: nat, b: nat): nat {
    if a < b then b else a
  }

  function If(c: bool, n: nat): nat {
    if c then n else 0
  }

  /** The number of cycles that must lie between two commands of one channel. */
  function Spacing(cfg: Config, first: Command, second: Command): nat {
    var sameBank := first.bank == second.bank;
    var sameGroup := cfg.Group(first.bank) == cfg.Group(second.bank);
    match (first, second)
    case (Activate(_, _), Activate(_, _)) => Max(cfg.tRRD, If(sameBank, cfg.tRC))
    case (Activate(_, _), Read(_, _)) => If(sameBank, cfg.tRCD)
    case (Activate(_, _), Write(_, _)) => If(sameBank, cfg.tRCDWR)
    case (Activate(_, _), Precharge(_)) => If(sameBank, cfg.tRAS)
    case (Precharge(_), Activate(_, _)) => If(sameBank, cfg.tRP)
    case (Read(_, _), Read(_, _)) => Max(cfg.tCCD, If(sameGroup, cfg.tCCDL))
    case (Read(_, _), Write(_, _)) => Max(Max(cfg.tCCD, cfg.tRTW), If(sameGroup, cfg.tCCDL))
    case (Read(_, _), Precharge(_)) => Max(If(sameBank, cfg.burst), If(sameGroup, cfg.tRTPL))
    case (Write(_, _), Write(_, _)) => Max(cfg.tCCD, If(sameGroup, cfg.tCCDL))
    case (Write(_, _), Read(_, _)) => Max(Max(cfg.tCCD, cfg.tWTR), If(sameGroup, cfg.tCCDL))
    case (Write(_, _), Precharge(_)) => If(sameBank, cfg.tWTP)
    case _ => 0
  }

  ghost predicate WellSpaced(cfg: Config, trace: Trace) {
    forall s, t :: 0 <= s < t < |trace| && trace[s].Some? && trace[t].Some? ==>
      t - s >= Spacing(cfg, trace[s].value, trace[t].value)
  }

  /** The row that the commands so far have left open in a bank. */
  function OpenRow(trace: Trace, bank: nat): Option<nat> {
    if trace == [] then None
    else
      match trace[|trace| - 1]
      case Some(Activate(b, row)) => if b == bank then Some(row) else OpenRow(trace[..|trace| - 1], bank)
      case Some(Precharge(b)) => if b == bank then None else OpenRow(trace[..|trace| - 1], bank)
      case _ => OpenRow(trace[..|trace| - 1], bank)
  }

  /** Reads and writes go to the open row, and rows are opened and closed in turn. */
  ghost predicate RowAllows(trace: Trace, cmd: Command) {
    match cmd
    case Activate(b, _) => OpenRow(trace, b) == None
    case Precharge(b) => OpenRow(trace, b) != None
    case Read(b, row) => OpenRow(trace, b) == Some(row)
    case Write(b, row) => OpenRow(trace, b) == Some(row)
  }

  ghost predicate RowLegal(trace: Trace, t: nat)
    requires t < |trace|
  {
    trace[t].Some? ==> RowAllows(trace[..t], trace[t].value)
  }

  ghost predicate RowsLegal(trace: Trace) {
    forall t :: 0 <= t < |trace| ==> RowLegal(trace, t)
  }

  // ----- the counters as one family of timers -----

  datatype Timer = Rrd | Ccd | Rtw | Wtr | Rcd(bank: nat) | RcdWr(bank: nat) | Ras(bank: nat) | Rp(bank: nat)
                 | Rc(bank: nat) | Wtp(bank: nat) | Rtp(bank: nat) | CcdL(group: nat) | RtpL(group: nat)

  function Counter(c: Channel, timer: Timer): nat {
    match timer
    case Rrd => c.rrd
    case Ccd => c.ccd
    case Rtw => c.rtw
    case Wtr => c.wtr
    case CcdL(g) => if g < |c.groups| then c.groups[g].ccdl else 0
    case RtpL(g) => if g < |c.groups| then c.groups[g].rtpl else 0
    case _ =>
      if timer.bank >= |c.banks| then 0
      else
        var b := c.banks[timer.bank];
        match timer
        case Rcd(_) => b.rcd
        case RcdWr(_) => b.rcdwr
        case Ras(_) => b.ras
        case Rp(_) => b.rp
        case Rc(_) => b.rc
        case Wtp(_) => b.wtp
        case _ => b.rtp
  }

  /** The timer's full time. */
  function Length(cfg: Config, timer: Timer): nat {
    match timer
    case Rrd => cfg.tRRD
    case Ccd => cfg.tCCD
    case Rtw => cfg.tRTW
    case Wtr => cfg.tWTR
    case Rcd(_) => cfg.tRCD
    case RcdWr(_) => cfg.tRCDWR
    case Ras(_) => cfg.tRAS
    case Rp(_) => cfg.tRP
    case Rc(_) => cfg.tRC
    case Wtp(_) => cfg.tWTP
    case Rtp(_) => cfg.burst
    case CcdL(_) => cfg.tCCDL
    case RtpL(_) => cfg.tRTPL
  }

  /** A command restarts a timer. */
  predicate Restarts(cfg: Config, cmd: Command, timer: Timer) {
    match timer
    case Rrd => cmd.Activate?
    case Ccd => cmd.Read? || cmd.Write?
    case Rtw => cmd.Read?
    case Wtr => cmd.Write?
    case Rcd(b) => cmd.Activate? && cmd.bank == b
    case RcdWr(b) => cmd.Activate? && cmd.bank == b
    case Ras(b) => cmd.Activate? && cmd.bank == b
    case Rc(b) => cmd.Activate? && cmd.bank == b
    case Rp(b) => cmd.Precharge? && cmd.bank == b
    case Wtp(b) => cmd.Write? && cmd.bank == b
    case Rtp(b) => cmd.Read? && cmd.bank == b
    case CcdL(g) => (cmd.Read? || cmd.Write?) && cfg.Group(cmd.bank) == g
    case RtpL(g) => cmd.Read? && cfg.Group(cmd.bank) == g
  }

  /** A command waits until a timer has run out. */
  predicate Awaits(cfg: Config, cmd: Command, timer: Timer) {
    match timer
    case Rrd => cmd.Activate?
    case Ccd => cmd.Read? || cmd.Write?
    case Rtw => cmd.Write?
    case Wtr => cmd.Read?
    case Rcd(b) => cmd.Read? && cmd.bank == b
    case RcdWr(b) => cmd.Write? && cmd.bank == b
    case Ras(b) => cmd.Precharge? && cmd.bank == b
    case Rc(b) => cmd.Activate? && cmd.bank == b
    case Rp(b) => cmd.Activate? && cmd.bank == b
    case Wtp(b) => cmd.Precharge? && cmd.bank == b
    case Rtp(b) => cmd.Precharge? && cmd.bank == b
    case CcdL(g) => (cmd.Read? || cmd.Write?) && cfg.Group(cmd.bank) == g
    case RtpL(g) => cmd.Precharge? && cfg.Group(cmd.bank) == g
  }

  lemma IssuingRestarts(cfg: Config, c: Channel, cmd: Command, timer: Timer)
    requires c.Ready(cfg, cmd)
    ensures Counter(c.Issued(cfg, cmd), timer) ==
      if Restarts(cfg, cmd, timer) then Length(cfg, timer) else Counter(c, timer)
  {
  }

  lemma TimeCountsDown(c: Channel, timer: Timer)
    ensures Counter(c.Elapsed(), timer) == DecToZero(Counter(c, timer))
  {
  }

  lemma ReadyMeansRunOut(cfg: Config, c: Channel, cmd: Command, timer: Timer)
    requires c.Ready(cfg, cmd) && Awaits(cfg, cmd, timer)
    ensures Counter(c, timer) == 0
  {
  }

  // ----- the invariant of a run -----

  /** A counter is never behind: it has at least what is left of its time since any command that restarted it. */
  ghost predicate OnTime(cfg: Config, c: Channel, trace: Trace) {
    forall t, timer :: 0 <= t < |trace| && trace[t].Some? && Restarts(cfg, trace[t].value, timer) ==>
      Counter(c, timer) + (|trace| - t) >= Length(cfg, timer)
  }

  ghost predicate RowsKnown(c: Channel, trace: Trace) {
    forall b :: 0 <= b < |c.banks| ==> OpenRow(trace, b) == if c.banks[b].active then Some(c.banks[b].row) else None
  }

  ghost predicate TimingInv(cfg: Config, c: Channel, trace: Trace) {
    OnTime(cfg, c, trace) && RowsKnown(c, trace) && WellSpaced(cfg, trace) && RowsLegal(trace)
  }

  /** The channel a cycle later, when `cmd` has been issued in this one. */
  function After(cfg: Config, c: Channel, cmd: Option<Command>): Channel
    requires cmd.Some? ==> c.Ready(cfg, cmd.value)
  {
    (if cmd.Some? then c.Issued(cfg, cmd.value) else c).Elapsed()
  }

  /** A timer that the first command restarted and the second awaits has run out since. */
  lemma TimerRanOut(cfg: Config, c: Channel, trace: Trace, s: nat, cmd: Command, timer: Timer)
    requires OnTime(cfg, c, trace) && c.Ready(cfg, cmd) && s < |trace| && trace[s].Some?
    ensures Restarts(cfg, trace[s].value, timer) && Awaits(cfg, cmd, timer) ==> |trace| - s >= Length(cfg, timer)
  {
    if Awaits(cfg, cmd, timer) {
      ReadyMeansRunOut(cfg, c, cmd, timer);
    }
  }

  /** A command that is ready is far enough from every earlier one. */
  lemma ReadyIsSpaced(cfg: Config, c: Channel, trace: Trace, s: nat, cmd: Command)
    requires OnTime(cfg, c, trace) && c.Ready(cfg, cmd) && s < |trace| && trace[s].Some?
    ensures |trace| - s >= Spacing(cfg, trace[s].value, cmd)
  {
    var b, g := cmd.bank, cfg.Group(cmd.bank);
    TimerRanOut(cfg, c, trace, s, cmd, Ccd);
    TimerRanOut(cfg, c, trace, s, cmd, CcdL(g));
    match cmd {
      case Activate(_, _) =>
        TimerRanOut(cfg, c, trace, s, cmd, Rrd);
        TimerRanOut(cfg, c, trace, s, cmd, Rc(b));
        TimerRanOut(cfg, c, trace, s, cmd, Rp(b));
      case Precharge(_) =>
        TimerRanOut(cfg, c, trace, s, cmd, Ras(b));
        TimerRanOut(cfg, c, trace, s, cmd, Wtp(b));
        TimerRanOut(cfg, c, trace, s, cmd, Rtp(b));
        TimerRanOut(cfg, c, trace, s, cmd, RtpL(g));
      case Read(_, _) =>
        TimerRanOut(cfg, c, trace, s, cmd, Wtr);
        TimerRanOut(cfg, c, trace, s, cmd, Rcd(b));
      case Write(_, _) =>
        TimerRanOut(cfg, c, trace, s, cmd, Rtw);
        TimerRanOut(cfg, c, trace, s, cmd, RcdWr(b));
    }
  }

  lemma StaysOnTime(cfg: Config, c: Channel, trace: Trace, cmd: Option<Command>)
    requires OnTime(cfg, c, trace) && (cmd.Some? ==> c.Ready(cfg, cmd.value))
    ensures OnTime(cfg, After(cfg, c, cmd), trace + [cmd])
  {
    var now, c' := trace + [cmd], After(cfg, c, cmd);
    forall t, timer | 0 <= t < |now| && now[t].Some? && Restarts(cfg, now[t].value, timer)
      ensures Counter(c', timer) + (|now| - t) >= Length(cfg, timer)
    {
      if cmd.Some? {
        IssuingRestarts(cfg, c, cmd.value, timer);
        TimeCountsDown(c.Issued(cfg, cmd.value), timer);
      } else {
        TimeCountsDown(c, timer);
      }
      if t < |trace| {
        assert Restarts(cfg, trace[t].value, timer);
      }
    }
  }

  lemma StaysWellSpaced(cfg: Config, c: Channel, trace: Trace, cmd: Option<Command>)
    requires OnTime(cfg, c, trace) && WellSpaced(cfg, trace) && (cmd.Some? ==> c.Ready(cfg, cmd.value))
    ensures WellSpaced(cfg, trace + [cmd])
  {
    forall s | 0 <= s < |trace| && trace[s].Some? && cmd.Some?
      ensures |trace| - s >= Spacing(cfg, trace[s].value, cmd.value)
    {
      ReadyIsSpaced(cfg, c, trace, s, cmd.value);
    }
  }

  lemma RowsStayLegal(cfg: Config, c: Channel, trace: Trace, cmd: Option<Command>)
    requires RowsKnown(c, trace) && RowsLegal(trace) && (cmd.Some? ==> c.Ready(cfg, cmd.value))
    ensures RowsKnown(After(cfg, c, cmd), trace + [cmd]) && RowsLegal(trace + [cmd])
  {
    var now := trace + [cmd];
    assert now[..|trace|] == trace;
    forall t | 0 <= t < |now|
      ensures RowLegal(now, t)
    {
      if t < |trace| {
        assert now[..t] == trace[..t] && RowLegal(trace, t);
      }
    }
  }

  /** Every cycle keeps the invariant: no counter is behind, all commands so far are far enough apart, and
      columns were accessed only in the open row. */
  lemma CycleKeepsTiming(cfg: Config, c: Channel, trace: Trace, cmd: Option<Command>)
    requires TimingInv(cfg, c, trace) && (cmd.Some? ==> c.Ready(cfg, cmd.value))
    ensures TimingInv(cfg, After(cfg, c, cmd), trace + [cmd])
  {
    StaysOnTime(cfg, c, trace, cmd);
    StaysWellSpaced(cfg, c, trace, cmd);
    RowsStayLegal(cfg, c, trace, cmd);
  }

  // ----- runs -----

  function Initial(cfg: Config): Channel {
    Channel(seq(cfg.nbk, _ => Bank(false, 0, 0, 0, 0, 0, 0, 0, 0)), seq(cfg.nbkgrp, _ => BankGroup(0, 0)), 0, 0, 0, 0)
  }

  /** The channel after a run: in each cycle at most one command is issued, and only if it is ready. */
  function ChannelAfter(cfg: Config, trace: Trace): Option<Channel> {
    if trace == [] then Some(Initial(cfg))
    else
      var c, cmd := ChannelAfter(cfg, trace[..|trace| - 1]), trace[|trace| - 1];
      if c.None? || (cmd.Some? && !c.value.Ready(cfg, cmd.value)) then None
      else Some(After(cfg, c.value, cmd))
  }

  lemma NextChannel(cfg: Config, trace: Trace, cmd: Option<Command>)
    requires ChannelAfter(cfg, trace).Some? && (cmd.Some? ==> ChannelAfter(cfg, trace).value.Ready(cfg, cmd.value))
    ensures ChannelAfter(cfg, trace + [cmd]) == Some(After(cfg, ChannelAfter(cfg, trace).value, cmd))
  {
    assert (trace + [cmd])[..|trace|] == trace;
  }

  lemma {:induction false} RunKeepsTiming(cfg: Config, trace: Trace)
    requires ChannelAfter(cfg, trace).Some?
    ensures TimingInv(cfg, ChannelAfter(cfg, trace).value, trace)
  {
    if trace != [] {
      var before, cmd := trace[..|trace| - 1], trace[|trace| - 1];
      RunKeepsTiming(cfg, before);
      CycleKeepsTiming(cfg, ChannelAfter(cfg, before).value, before, cmd);
      assert before + [cmd] == trace;
    }
  }

  /** In every run, any two commands are as far apart as the standard demands, columns are accessed only in
      the open row, and rows are opened and closed in turn. */
  lemma RunsAreTimingSafe(cfg: Config, trace: Trace)
    requires ChannelAfter(cfg, trace).Some?
    ensures WellSpaced(cfg, trace) && RowsLegal(trace)
  {
    RunKeepsTiming(cfg, trace);
  }

  // ----- no command waits longer than it must -----

  /** A running timer was restarted by a command, and not longer ago than it takes. */
  ghost predicate HasCause(cfg: Config, c: Channel, trace: Trace, timer: Timer) {
    Counter(c, timer) > 0 ==> exists t :: 0 <= t < |trace| && IsCause(cfg, c, trace, timer, t)
  }

  ghost predicate IsCause(cfg: Config, c: Channel, trace: Trace, timer: Timer, t: nat)
    requires t < |trace|
  {
    && trace[t].Some? && Restarts(cfg, trace[t].value, timer)
    && Counter(c, timer) + (|trace| - t) <= Length(cfg, timer)
  }

  lemma CauseStays(cfg: Config, c: Channel, trace: Trace, cmd: Option<Command>, timer: Timer)
    requires HasCause(cfg, c, trace, timer) && (cmd.Some? ==> c.Ready(cfg, cmd.value))
    ensures HasCause(cfg, After(cfg, c, cmd), trace + [cmd], timer)
  {
    var c' := After(cfg, c, cmd);
    if cmd.Some? {
      IssuingRestarts(cfg, c, cmd.value, timer);
      TimeCountsDown(c.Issued(cfg, cmd.value), timer);
    } else {
      TimeCountsDown(c, timer);
    }
    if Counter(c', timer) > 0 {
      if cmd.Some? && Restarts(cfg, cmd.value, timer) {
        assert IsCause(cfg, c', trace + [cmd], timer, |trace|);
      } else {
        var t :| 0 <= t < |trace| && IsCause(cfg, c, trace, timer, t);
        assert IsCause(cfg, c', trace + [cmd], timer, t);
      }
    }
  }

  lemma {:induction false} RunningHasCause(cfg: Config, trace: Trace, timer: Timer)
    requires ChannelAfter(cfg, trace).Some?
    ensures HasCause(cfg, ChannelAfter(cfg, trace).value, trace, timer)
  {
    if trace != [] {
      var before, cmd := trace[..|trace| - 1], trace[|trace| - 1];
      RunningHasCause(cfg, before, timer);
      CauseStays(cfg, ChannelAfter(cfg, before).value, before, cmd, timer);
      assert before + [cmd] == trace;
    }
  }

  lemma SpacingIsAwaited(cfg: Config, first: Command, second: Command, timer: Timer)
    requires Restarts(cfg, first, timer) && Awaits(cfg, second, timer)
    ensures Length(cfg, timer) <= Spacing(cfg, first, second)
  {
  }

  /** A command issued now would be far enough from all earlier ones. */
  ghost predicate FarEnough(cfg: Config, trace: Trace, cmd: Command) {
    forall s :: 0 <= s < |trace| && trace[s].Some? ==> |trace| - s >= Spacing(cfg, trace[s].value, cmd)
  }

  lemma AwaitedHasRunOut(cfg: Config, trace: Trace, cmd: Command, timer: Timer)
    requires ChannelAfter(cfg, trace).Some? && FarEnough(cfg, trace, cmd)
    ensures Awaits(cfg, cmd, timer) ==> Counter(ChannelAfter(cfg, trace).value, timer) == 0
  {
    var c := ChannelAfter(cfg, trace).value;
    RunningHasCause(cfg, trace, timer);
    if Awaits(cfg, cmd, timer) && Counter(c, timer) > 0 {
      var t :| 0 <= t < |trace| && IsCause(cfg, c, trace, timer, t);
      SpacingIsAwaited(cfg, trace[t].value, cmd, timer);
      assert false;
    }
  }

  lemma {:induction false} ChannelFits(cfg: Config, trace: Trace)
    requires ChannelAfter(cfg, trace).Some?
    ensures ChannelAfter(cfg, trace).value.Fits(cfg)
  {
    if trace != [] {
      ChannelFits(cfg, trace[..|trace| - 1]);
    }
  }

  /** The timers that a command awaits are the ones its readiness asks for. */
  lemma ReadyIfRunOut(cfg: Config, c: Channel, cmd: Command)
    requires c.Fits(cfg) && cmd.bank < cfg.nbk && cfg.Group(cmd.bank) < cfg.nbkgrp
    requires var b := c.banks[cmd.bank];
      match cmd
      case Activate(_, _) => !b.active
      case Precharge(_) => b.active
      case Read(_, row) => b.active && b.row == row
      case Write(_, row) => b.active && b.row == row
    requires var b, g := cmd.bank, cfg.Group(cmd.bank);
      match cmd
      case Activate(_, _) => Counter(c, Rrd) == Counter(c, Rc(b)) == Counter(c, Rp(b)) == 0
      case Precharge(_) => Counter(c, Ras(b)) == Counter(c, Wtp(b)) == Counter(c, Rtp(b)) == Counter(c, RtpL(g)) == 0
      case Read(_, _) => Counter(c, Ccd) == Counter(c, CcdL(g)) == Counter(c, Wtr) == Counter(c, Rcd(b)) == 0
      case Write(_, _) => Counter(c, Ccd) == Counter(c, CcdL(g)) == Counter(c, Rtw) == Counter(c, RcdWr(b)) == 0
    ensures c.Ready(cfg, cmd)
  {
  }

  lemma FarEnoughIsReady(cfg: Config, trace: Trace, cmd: Command)
    requires cfg.Valid() && ChannelAfter(cfg, trace).Some? && cmd.bank < cfg.nbk && FarEnough(cfg, trace, cmd)
    requires RowsKnown(ChannelAfter(cfg, trace).value, trace) && RowAllows(trace, cmd)
    ensures ChannelAfter(cfg, trace).value.Ready(cfg, cmd)
  {
    var b, c := cmd.bank, ChannelAfter(cfg, trace).value;
    ChannelFits(cfg, trace);
    GroupExists(cfg, b);
    assert OpenRow(trace, b) == if c.banks[b].active then Some(c.banks[b].row) else None;
    match cmd {
      case Activate(_, _) => ActivateTimersRanOut(cfg, trace, cmd);
      case Precharge(_) => PrechargeTimersRanOut(cfg, trace, cmd);
      case _ => ColumnTimersRanOut(cfg, trace, cmd);
    }
    ReadyIfRunOut(cfg, c, cmd);
  }

  lemma ColumnTimersRanOut(cfg: Config, trace: Trace, cmd: Command)
    requires ChannelAfter(cfg, trace).Some? && FarEnough(cfg, trace, cmd) && (cmd.Read? || cmd.Write?)
    ensures var c, b, g := ChannelAfter(cfg, trace).value, cmd.bank, cfg.Group(cmd.bank);
      && Counter(c, Ccd) == Counter(c, CcdL(g)) == 0
      && (cmd.Read? ==> Counter(c, Wtr) == Counter(c, Rcd(b)) == 0)
      && (cmd.Write? ==> Counter(c, Rtw) == Counter(c, RcdWr(b)) == 0)
  {
    AwaitedHasRunOut(cfg, trace, cmd, Ccd);
    AwaitedHasRunOut(cfg, trace, cmd, CcdL(cfg.Group(cmd.bank)));
    AwaitedHasRunOut(cfg, trace, cmd, if cmd.Read? then Wtr else Rtw);
    AwaitedHasRunOut(cfg, trace, cmd, if cmd.Read? then Rcd(cmd.bank) else RcdWr(cmd.bank));
  }

  lemma ActivateTimersRanOut(cfg: Config, trace: Trace, cmd: Command)
    requires ChannelAfter(cfg, trace).Some? && FarEnough(cfg, trace, cmd) && cmd.Activate?
    ensures var c, b := ChannelAfter(cfg, trace).value, cmd.bank;
      Counter(c, Rrd) == Counter(c, Rc(b)) == Counter(c, Rp(b)) == 0
  {
    AwaitedHasRunOut(cfg, trace, cmd, Rrd);
    AwaitedHasRunOut(cfg, trace, cmd, Rc(cmd.bank));
    AwaitedHasRunOut(cfg, trace, cmd, Rp(cmd.bank));
  }

  lemma PrechargeTimersRanOut(cfg: Config, trace: Trace, cmd: Command)
    requires ChannelAfter(cfg, trace).Some? && FarEnough(cfg, trace, cmd) && cmd.Precharge?
    ensures var c, b, g := ChannelAfter(cfg, trace).value, cmd.bank, cfg.Group(cmd.bank);
      Counter(c, Ras(b)) == Counter(c, Wtp(b)) == Counter(c, Rtp(b)) == Counter(c, RtpL(g)) == 0
  {
    AwaitedHasRunOut(cfg, trace, cmd, Ras(cmd.bank));
    AwaitedHasRunOut(cfg, trace, cmd, Wtp(cmd.bank));
    AwaitedHasRunOut(cfg, trace, cmd, Rtp(cmd.bank));
    AwaitedHasRunOut(cfg, trace, cmd, RtpL(cfg.Group(cmd.bank)));
  }

  lemma ReadyIsAllowed(cfg: Config, trace: Trace, cmd: Command)
    requires ChannelAfter(cfg, trace).Some? && ChannelAfter(cfg, trace).value.Ready(cfg, cmd)
    ensures RowAllows(trace, cmd) && FarEnough(cfg, trace, cmd)
  {
    RunKeepsTiming(cfg, trace);
    forall s | 0 <= s < |trace| && trace[s].Some?
      ensures |trace| - s >= Spacing(cfg, trace[s].value, cmd)
    {
      ReadyIsSpaced(cfg, ChannelAfter(cfg, trace).value, trace, s, cmd);
    }
  }

  /** The counters are exact: in every run a command is ready if and only if the rows allow it and it is far enough
      from all earlier commands. */
  lemma ReadyIffAllowed(cfg: Config, trace: Trace, cmd: Command)
    requires cfg.Valid() && ChannelAfter(cfg, trace).Some? && cmd.bank < cfg.nbk
    ensures ChannelAfter(cfg, trace).value.Ready(cfg, cmd) <==> RowAllows(trace, cmd) && FarEnough(cfg, trace, cmd)
  {
    if ChannelAfter(cfg, trace).value.Ready(cfg, cmd) {
      ReadyIsAllowed(cfg, trace, cmd);
    }
    if RowAllows(trace, cmd) && FarEnough(cfg, trace, cmd) {
      RunKeepsTiming(cfg, trace);
      FarEnoughIsReady(cfg, trace, cmd);
    }
  }
}
