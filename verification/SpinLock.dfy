/** Any number of threads calling the control-plane profiler
    (src/profiler/shm_profiler.c, lines 20-30 and 492-621) as a state machine. A
    call spins on the flag, sets the profiler up if it is the first and reads the clock
    and the counters, writes the counters, writes its log line from the counters as
    they are then, and unlocks: five atomic steps that other threads may interleave
    with. The exit handler, which the set-up registers, writes one line a step. Only
    the test-and-set keeps them apart. */
module SpinLock {
  import opened Wrappers
  import opened LiveTable
  import opened Accounting

  type Tid = nat

  datatype Request =
    | MapCall(op: string, name: Option<string>, addr: Addr, size: UInt32, flags: int, ret: int, pg: Option<string>)
    | UnmapCall(addr: Addr, ret: int)
    | ExitCall

  datatype PC =
    | Idle
    | Spinning(req: Request)
    | Holding(req: Request)                 // the flag was clear and is now set
    | Loaded(e: Event, snap: Stats)         // clock and counters read
    | Stored(e: Event, snap: Stats)         // counters written
    | Exiting(t: int, rest: set<Addr>)      // exit handler: clock read, entries still to be listed
    | Leaving                               // only the unlock remains

  datatype State = State(
    canOpen: bool,                          // whether opening the output file succeeds
    locked: bool, inited: bool, g: Stats, open: bool, log: seq<Line>, pcs: map<Tid, PC>,
    history: seq<Event>,                    // events whose counters were written, in order
    closed: Option<nat>,                    // how many of them preceded closing the file
    exitLines: seq<Line>, exitTime: int,
    clock: int, monotone: bool)             // last clock reading; none was ever lower than the one before

  datatype Action =
    | Call(tid: Tid, req: Request)
    | TestAndSet(tid: Tid)
    | Load(tid: Tid, now: int)
    | Store(tid: Tid)
    | WriteLine(tid: Tid)
    | WriteExitLine(tid: Tid, addr: Addr)
    | WriteSummary(tid: Tid)
    | Unlock(tid: Tid)

  function Pc(s: State, t: Tid): PC
  {
    if t in s.pcs then s.pcs[t] else Idle
  }

  function Init(canOpen: bool): State
  {
    State(canOpen, false, false, START, false, [], map[], [], None, [], 0, 0, true)
  }

  function Stamp(r: Request, t: int): Event
    requires !r.ExitCall?
  {
    match r
    case MapCall(op, name, addr, size, flags, ret, pg) => MapEvent(op, name, addr, size, flags, ret, pg, t)
    case UnmapCall(addr, ret) => UnmapEvent(addr, ret, t)
  }

  ghost predicate Enabled(s: State, a: Action)
  {
    match a
    case Call(t, req) => Pc(s, t).Idle? && (req.ExitCall? ==> s.inited)
    case TestAndSet(t) => Pc(s, t).Spinning?
    case Load(t, _) => Pc(s, t).Holding?
    case Store(t) => Pc(s, t).Loaded?
    case WriteLine(t) => Pc(s, t).Stored?
    case WriteExitLine(t, addr) => Pc(s, t).Exiting? && s.open && addr in Pc(s, t).rest && addr in s.g.live
    case WriteSummary(t) => Pc(s, t).Exiting? && (s.open ==> Pc(s, t).rest == {})
    case Unlock(t) => Pc(s, t).Leaving?
  }

  /** The line an event writes takes its counts from the counters at that moment,
      its lifetime from the entry found before the update. */
  function WrittenLine(g: Stats, e: Event, snap: Stats): Line
  {
    EventLine(e, LineOf(snap, e).hit, |g.live|, g.liveBytes)
  }

  function Do(s: State, a: Action): State
    requires Enabled(s, a)
  {
    match a
    case Call(t, req) => s.(pcs := s.pcs[t := Spinning(req)])
    case TestAndSet(t) =>
      if s.locked then s else s.(locked := true, pcs := s.pcs[t := Holding(Pc(s, t).req)])
    case Load(t, now) =>
      var req := Pc(s, t).req;
      s.(clock := now, monotone := s.monotone && s.clock <= now, inited := true,
         open := if s.inited || req.ExitCall? then s.open else s.canOpen,
         pcs := s.pcs[t := if req.ExitCall? then Exiting(now, s.g.live.Keys) else Loaded(Stamp(req, now), s.g)])
    case Store(t) =>
      var Loaded(e, snap) := Pc(s, t);
      s.(g := Step(snap, e), history := s.history + [e], pcs := s.pcs[t := Stored(e, snap)])
    case WriteLine(t) =>
      var Stored(e, snap) := Pc(s, t);
      s.(log := if s.open then s.log + [WrittenLine(s.g, e, snap)] else s.log, pcs := s.pcs[t := Leaving])
    case WriteExitLine(t, addr) =>
      var line := ExitLineOf(addr, s.g.live[addr], Pc(s, t).t);
      s.(log := s.log + [line], exitLines := s.exitLines + [line],
         pcs := s.pcs[t := Exiting(Pc(s, t).t, Pc(s, t).rest - {addr})])
    case WriteSummary(t) =>
      var now := Pc(s, t).t;
      if s.open then
        s.(log := s.log + [SummaryOf(s.g, now)], open := false, closed := Some(|s.history|), exitTime := now,
           pcs := s.pcs[t := Leaving])
      else
        s.(pcs := s.pcs[t := Leaving])
    case Unlock(t) => s.(locked := false, pcs := s.pcs[t := Idle])
  }

  ghost predicate Legal(s: State, run: seq<Action>)
    decreases |run|, 0
  {
    run == [] || (Legal(s, run[..|run| - 1]) && Enabled(After(s, run[..|run| - 1]), run[|run| - 1]))
  }

  ghost function After(s: State, run: seq<Action>): State
    requires Legal(s, run)
    decreases |run|, 1
  {
    if run == [] then s else Do(After(s, run[..|run| - 1]), run[|run| - 1])
  }

  // ---- the invariant -------------------------------------------------------

  predicate Critical(p: PC)
  {
    !p.Idle? && !p.Spinning?
  }

  ghost predicate MutualExclusion(s: State)
  {
    && (s.locked <==> exists t :: Critical(Pc(s, t)))
    && (forall t, u :: Critical(Pc(s, t)) && Critical(Pc(s, u)) ==> t == u)
  }

  ghost predicate Processing(s: State)
  {
    exists t :: Pc(s, t).Stored?
  }

  ghost predicate InExit(s: State)
  {
    exists t :: Pc(s, t).Exiting?
  }

  /** The events whose line is due: all of them, but for the one being processed. */
  ghost function Due(s: State): seq<Event>
  {
    if s.history != [] && Processing(s) then s.history[..|s.history| - 1] else s.history
  }

  ghost predicate LogIsReplay(s: State)
  {
    match s.closed
    case None =>
      && s.open == (s.inited && s.canOpen)
      && s.log == (if s.canOpen then LinesOf(Due(s)) else []) + s.exitLines
    case Some(k) =>
      && s.inited && s.canOpen && !s.open && k <= |s.history|
      && s.log == LinesOf(s.history[..k]) + s.exitLines + [SummaryOf(Run(s.history[..k]), s.exitTime)]
      && Lists(s.exitLines, Run(s.history[..k]).live, s.exitTime)
  }

  /** What the exit handler has listed so far: all live entries but the rest. */
  ghost predicate Listing(s: State)
  {
    && (forall t :: Pc(s, t).Exiting? && s.open ==>
          Pc(s, t).rest <= s.g.live.Keys && Lists(s.exitLines, s.g.live - Pc(s, t).rest, Pc(s, t).t))
    && (s.closed.None? && (!InExit(s) || !s.open) ==> s.exitLines == [])
  }

  /** Only the set-up makes the rest possible. */
  ghost predicate SetUp(s: State)
  {
    && (forall t :: Pc(s, t).Loaded? || Pc(s, t).Stored? || Pc(s, t).Exiting? ==> s.inited)
    && (forall t :: (Pc(s, t).Spinning? || Pc(s, t).Holding?) && Pc(s, t).req.ExitCall? ==> s.inited)
    && (s.closed.Some? ==> s.inited)
  }

  ghost predicate PcFacts(s: State)
  {
    && (forall t :: Pc(s, t).Loaded? ==> Pc(s, t).snap == s.g && Pc(s, t).e.t == s.clock)
    && (forall t :: Pc(s, t).Stored? ==> s.history != [] && s.history[|s.history| - 1] == Pc(s, t).e)
    && (forall t :: Pc(s, t).Stored? ==> Pc(s, t).snap == Run(s.history[..|s.history| - 1]))
  }

  ghost predicate Inv(s: State)
  {
    && MutualExclusion(s)
    && s.g == Run(s.history)
    && SetUp(s) && PcFacts(s)
    && LogIsReplay(s) && Listing(s)
    && (s.monotone ==> InTimeOrder(s.history) && forall i :: 0 <= i < |s.history| ==> s.history[i].t <= s.clock)
  }

  lemma InitInv(canOpen: bool)
    ensures Inv(Init(canOpen))
  {
    assert LinesOf([]) == [];
  }

  lemma ExclusionStep(s: State, a: Action)
    requires MutualExclusion(s) && Enabled(s, a)
    ensures MutualExclusion(Do(s, a))
  {
    hide Step, Run, LineOf, Lists;
    var s' := Do(s, a);
    assert forall t :: t != a.tid ==> Pc(s', t) == Pc(s, t);
    if Critical(Pc(s, a.tid)) && !a.Unlock? {
      assert Critical(Pc(s', a.tid));
    }
    if a.TestAndSet? && !s.locked {
      assert Critical(Pc(s', a.tid));
    }
  }

  lemma SetUpStep(s: State, a: Action)
    requires SetUp(s) && Enabled(s, a)
    ensures SetUp(Do(s, a))
  {
    hide Step, Run, LineOf, Lists;
    assert forall t :: t != a.tid ==> Pc(Do(s, a), t) == Pc(s, t);
  }

  /** Who holds the flag is alone in the critical section. */
  lemma Alone(s: State, t: Tid)
    requires MutualExclusion(s) && Critical(Pc(s, t))
    ensures forall u :: u != t ==> !Critical(Pc(s, u))
    ensures !Pc(s, t).Stored? ==> !Processing(s)
    ensures !Pc(s, t).Exiting? ==> !InExit(s)
  {}

  lemma PcFactsStep(s: State, a: Action)
    requires MutualExclusion(s) && PcFacts(s) && s.g == Run(s.history) && Enabled(s, a)
    ensures PcFacts(Do(s, a))
  {
    hide Step, Run, LineOf, Lists;
    var s' := Do(s, a);
    if Critical(Pc(s, a.tid)) {
      Alone(s, a.tid);
    }
    if a.Store? {
      assert s'.history[..|s'.history| - 1] == s.history;
    }
    forall t | Pc(s', t).Stored? ensures s'.history != [] && s'.history[|s'.history| - 1] == Pc(s', t).e
        && Pc(s', t).snap == Run(s'.history[..|s'.history| - 1]) {
      if t != a.tid {
        assert Pc(s', t) == Pc(s, t);
      }
    }
    forall t | Pc(s', t).Loaded? ensures Pc(s', t).snap == s'.g && Pc(s', t).e.t == s'.clock {
      if t != a.tid {
        assert Pc(s', t) == Pc(s, t);
      }
    }
  }

  /** An event is being processed exactly between Store and WriteLine. */
  lemma ProcessingStep(s: State, a: Action)
    requires MutualExclusion(s) && Enabled(s, a)
    ensures a.Store? ==> !Processing(s) && Processing(Do(s, a))
    ensures a.WriteLine? ==> Processing(s) && !Processing(Do(s, a))
    ensures !a.Store? && !a.WriteLine? ==> (Processing(s) <==> Processing(Do(s, a)))
  {
    hide Step, Run, LineOf, Lists;
    var s' := Do(s, a);
    assert forall t :: t != a.tid ==> Pc(s', t) == Pc(s, t);
    if Critical(Pc(s, a.tid)) {
      Alone(s, a.tid);
    }
    if a.Store? {
      assert Pc(s', a.tid).Stored?;
    }
    if !a.Store? && !a.WriteLine? {
      assert forall t :: Pc(s', t).Stored? <==> Pc(s, t).Stored?;
    }
  }

  lemma StoreKeepsLog(s: State, a: Action)
    requires LogIsReplay(s) && Enabled(s, a) && a.Store? && !Processing(s) && Processing(Do(s, a))
    ensures LogIsReplay(Do(s, a))
  {
    hide Step, LineOf, Lists, LinesOf, Run, Processing;
    var s' := Do(s, a);
    assert s'.history[..|s'.history| - 1] == s.history;
    if s.closed.Some? {
      assert s'.history[..s.closed.value] == s.history[..s.closed.value];
    }
  }

  lemma LineCounts(s: Stats, e: Event)
    ensures LineOf(s, e).liveCount == |Step(s, e).live| && LineOf(s, e).liveBytes == Step(s, e).liveBytes
    ensures LineOf(s, e).e == e
  {}

  /** The line written is the line of the sequential replay. */
  lemma WriteLineMatches(s: State, t: Tid)
    requires PcFacts(s) && s.g == Run(s.history) && Pc(s, t).Stored?
    ensures LinesOf(s.history)
         == LinesOf(s.history[..|s.history| - 1]) + [WrittenLine(s.g, Pc(s, t).e, Pc(s, t).snap)]
  {
    hide Step, LineOf;
    RunUnfold(s.history);
    assert LineOf(Pc(s, t).snap, Pc(s, t).e) == WrittenLine(s.g, Pc(s, t).e, Pc(s, t).snap) by {
      LineCounts(Pc(s, t).snap, Pc(s, t).e);
    }
  }

  lemma WriteLineKeepsLog(s: State, a: Action)
    requires Inv(s) && Enabled(s, a) && a.WriteLine?
    requires Processing(s) && !Processing(Do(s, a))
    ensures LogIsReplay(Do(s, a))
  {
    Alone(s, a.tid);
    hide Step, LineOf, Lists, LinesOf, Run, Processing, InExit;
    if s.closed.None? && s.canOpen {
      WriteLineMatches(s, a.tid);
      assert LinesOf(Due(s)) + [] == LinesOf(Due(s)) && LinesOf(s.history) + [] == LinesOf(s.history);
    }
  }

  lemma SummaryKeepsLog(s: State, a: Action)
    requires MutualExclusion(s) && LogIsReplay(s) && Listing(s) && s.g == Run(s.history)
    requires Enabled(s, a) && a.WriteSummary? && s.open
    ensures LogIsReplay(Do(s, a))
  {
    hide Step, LineOf, Lists, LinesOf, Run, SummaryOf;
    Alone(s, a.tid);
    hide MutualExclusion, Processing;
    assert s.history[..|s.history|] == s.history;
    assert s.g.live - {} == s.g.live;
  }

  lemma ExitLineKeepsLog(s: State, a: Action)
    requires LogIsReplay(s) && Enabled(s, a) && a.WriteExitLine? && (Processing(s) <==> Processing(Do(s, a)))
    ensures LogIsReplay(Do(s, a))
  {
    hide Step, LineOf, Lists, LinesOf, Run, Processing, ExitLineOf;
    var line := ExitLineOf(a.addr, s.g.live[a.addr], Pc(s, a.tid).t);
    assert (LinesOf(Due(s)) + s.exitLines) + [line] == LinesOf(Due(s)) + (s.exitLines + [line]);
  }

  lemma OtherStepsKeepLog(s: State, a: Action)
    requires LogIsReplay(s) && SetUp(s) && Enabled(s, a) && (Processing(s) <==> Processing(Do(s, a)))
    requires !a.Store? && !a.WriteLine? && !a.WriteExitLine? && !(a.WriteSummary? && s.open)
    ensures LogIsReplay(Do(s, a))
  {
    hide Step, LineOf, Lists, LinesOf, Run, Processing;
  }

  lemma LogStep(s: State, a: Action)
    requires Inv(s) && Enabled(s, a)
    ensures LogIsReplay(Do(s, a))
  {
    hide Do, MutualExclusion, PcFacts, Listing, Run, LogIsReplay, InTimeOrder, Processing;
    ProcessingStep(s, a);
    if a.Store? {
      StoreKeepsLog(s, a);
    } else if a.WriteLine? {
      WriteLineKeepsLog(s, a);
    } else if a.WriteSummary? && s.open {
      SummaryKeepsLog(s, a);
    } else if a.WriteExitLine? {
      ExitLineKeepsLog(s, a);
    } else {
      OtherStepsKeepLog(s, a);
    }
  }

  lemma OthersStay(s: State, a: Action)
    requires Enabled(s, a)
    ensures forall t :: t != a.tid ==> Pc(Do(s, a), t) == Pc(s, t)
  {
    hide Step, LineOf, Lists;
  }

  /** Each line of the exit handler takes one entry off the rest. */
  lemma ExitLineLists(s: State, a: Action)
    requires MutualExclusion(s) && Listing(s) && Enabled(s, a) && a.WriteExitLine?
    ensures Listing(Do(s, a))
  {
    hide Lists, Step;
    Alone(s, a.tid);
    hide MutualExclusion;
    var s' := Do(s, a);
    OthersStay(s, a);
    assert forall t :: t != a.tid ==> !Critical(Pc(s', t));
    var x, now, rest := a.addr, Pc(s, a.tid).t, Pc(s, a.tid).rest;
    ListsOneMore(s.exitLines, s.g.live - rest, now, x, s.g.live[x]);
    assert (s.g.live - rest)[x := s.g.live[x]] == s.g.live - (rest - {x});
    assert Pc(s', a.tid).Exiting?;
  }

  lemma ListsNothing(t: int)
    ensures Lists([], map[], t)
  {}

  lemma ExitBeginsListing(s: State, a: Action)
    requires MutualExclusion(s) && Listing(s) && Enabled(s, a) && a.Load? && Pc(s, a.tid).req.ExitCall?
    requires s.open ==> s.closed.None?
    ensures Listing(Do(s, a))
  {
    Alone(s, a.tid);
    hide Lists, MutualExclusion;
    var s' := Do(s, a);
    OthersStay(s, a);
    assert forall t :: t != a.tid ==> !Critical(Pc(s', t));
    assert s.g.live - s.g.live.Keys == map[];
    ListsNothing(Pc(s', a.tid).t);
  }

  /** Steps outside the critical section leave everything that is listed alone. */
  lemma OutsideStepsList(s: State, a: Action)
    requires Listing(s) && Enabled(s, a) && !Critical(Pc(s, a.tid))
    ensures Listing(Do(s, a))
  {
    hide Step, LineOf, Lists;
    OthersStay(s, a);
    assert !Pc(Do(s, a), a.tid).Exiting?;
    assert forall t :: Pc(Do(s, a), t).Exiting? ==> Pc(s, t) == Pc(Do(s, a), t);
    assert forall t :: Pc(s, t).Exiting? ==> Pc(s, t) == Pc(Do(s, a), t);
  }

  /** The other steps inside leave no thread in the exit handler. */
  lemma InsideStepsList(s: State, a: Action)
    requires MutualExclusion(s) && Listing(s) && Enabled(s, a) && Critical(Pc(s, a.tid))
    requires !a.WriteExitLine? && !(a.Load? && Pc(s, a.tid).req.ExitCall?)
    ensures Listing(Do(s, a))
  {
    Alone(s, a.tid);
    OthersStay(s, a);
    hide Step, LineOf, Lists, MutualExclusion;
    assert !Pc(Do(s, a), a.tid).Exiting?;
    assert forall t :: t != a.tid ==> !Critical(Pc(Do(s, a), t));
  }

  lemma ListingStep(s: State, a: Action)
    requires Inv(s) && Enabled(s, a)
    ensures Listing(Do(s, a))
  {
    hide Do, MutualExclusion, PcFacts, Listing, Run, SetUp, InTimeOrder;
    if a.WriteExitLine? {
      ExitLineLists(s, a);
    } else if a.Load? && Pc(s, a.tid).req.ExitCall? {
      ExitBeginsListing(s, a);
    } else if Critical(Pc(s, a.tid)) {
      InsideStepsList(s, a);
    } else {
      OutsideStepsList(s, a);
    }
  }

  lemma TimeStep(s: State, a: Action)
    requires Inv(s) && Enabled(s, a) && Do(s, a).monotone
    ensures InTimeOrder(Do(s, a).history)
    ensures forall i :: 0 <= i < |Do(s, a).history| ==> Do(s, a).history[i].t <= Do(s, a).clock
  {
    hide Step, Run, LineOf, Lists, LogIsReplay, MutualExclusion, Listing;
    if a.Store? {
      assert Pc(s, a.tid).e.t == s.clock;
    }
  }

  lemma ReplayStep(s: State, a: Action)
    requires Inv(s) && Enabled(s, a)
    ensures Do(s, a).g == Run(Do(s, a).history)
  {
    hide Run, Step, LineOf, Lists, LogIsReplay, MutualExclusion, InTimeOrder, Listing;
    if a.Store? {
      var history := s.history + [Pc(s, a.tid).e];
      assert history[..|history| - 1] == s.history;
      RunUnfold(history);
    }
  }

  /** Every step of every thread keeps the invariant. */
  lemma StepInv(s: State, a: Action)
    requires Inv(s) && Enabled(s, a)
    ensures Inv(Do(s, a))
  {
    ExclusionStep(s, a);
    SetUpStep(s, a);
    ReplayStep(s, a);
    PcFactsStep(s, a);
    LogStep(s, a);
    ListingStep(s, a);
    if Do(s, a).monotone {
      TimeStep(s, a);
    }
  }

  lemma {:induction false} EveryRunInv(canOpen: bool, run: seq<Action>)
    requires Legal(Init(canOpen), run)
    ensures Inv(After(Init(canOpen), run))
    decreases |run|
  {
    if run == [] {
      InitInv(canOpen);
    } else {
      EveryRunInv(canOpen, run[..|run| - 1]);
      StepInv(After(Init(canOpen), run[..|run| - 1]), run[|run| - 1]);
    }
  }

  lemma Exclusive(canOpen: bool, run: seq<Action>)
    requires Legal(Init(canOpen), run)
    ensures MutualExclusion(After(Init(canOpen), run))
  {
    EveryRunInv(canOpen, run);
  }

  // ---- which calls the events are ------------------------------------------

  /** The index of thread t's last Call in a run, -1 if there is none; of its last Load and
      its last Unlock. */
  function LastCall(run: seq<Action>, t: Tid): (c: int)
    ensures -1 <= c < |run| && (c >= 0 ==> run[c].Call? && run[c].tid == t)
    ensures forall j :: c < j < |run| ==> !(run[j].Call? && run[j].tid == t)
  {
    if run == [] then -1
    else
      var n := |run| - 1;
      if run[n].Call? && run[n].tid == t then n else LastCall(run[..n], t)
  }

  function LastLoad(run: seq<Action>, t: Tid): (l: int)
    ensures -1 <= l < |run| && (l >= 0 ==> run[l].Load? && run[l].tid == t)
    ensures forall j :: l < j < |run| ==> !(run[j].Load? && run[j].tid == t)
  {
    if run == [] then -1
    else
      var n := |run| - 1;
      if run[n].Load? && run[n].tid == t then n else LastLoad(run[..n], t)
  }

  function LastUnlock(run: seq<Action>, t: Tid): (u: int)
    ensures -1 <= u < |run| && (u >= 0 ==> run[u].Unlock? && run[u].tid == t)
    ensures forall j :: u < j < |run| ==> !(run[j].Unlock? && run[j].tid == t)
  {
    if run == [] then -1
    else
      var n := |run| - 1;
      if run[n].Unlock? && run[n].tid == t then n else LastUnlock(run[..n], t)
  }

  /** Event e has everything the request says, and the time now. */
  predicate Describes(e: Event, req: Request, now: int)
  {
    && e.t == now && !req.ExitCall? && e.addr == req.addr && e.ret == req.ret
    && (req.MapCall? ==>
          && e.MapEvent? && e.op == req.op && e.name == req.name && e.size == req.size
          && e.flags == req.flags && e.pg == req.pg)
    && (req.UnmapCall? ==> e.UnmapEvent?)
  }

  /** Event e is that of the call at c, whose clock reading is at l: the thread neither
      calls nor returns in between. */
  ghost predicate OfCall(run: seq<Action>, c: nat, l: nat, e: Event)
  {
    && c < l < |run| && run[c].Call? && run[l].Load? && run[c].tid == run[l].tid
    && Describes(e, run[c].req, run[l].now)
    && (forall j :: c < j < l && run[j].tid == run[c].tid ==> !run[j].Call? && !run[j].Load? && !run[j].Unlock?)
  }

  ghost predicate InCall(run: seq<Action>, t: Tid)
  {
    0 <= LastCall(run, t) && LastUnlock(run, t) < LastCall(run, t)
  }

  /** What a thread's control state says of its last call. */
  ghost predicate AtCall(run: seq<Action>, t: Tid, pc: PC)
  {
    var c, l := LastCall(run, t), LastLoad(run, t);
    match pc
    case Idle => !InCall(run, t)
    case Spinning(req) => InCall(run, t) && run[c].req == req && l < c
    case Holding(req) => InCall(run, t) && run[c].req == req && l < c
    case Loaded(e, _) => InCall(run, t) && c < l && OfCall(run, c, l, e)
    case Stored(e, _) => InCall(run, t) && c < l && !run[c].req.ExitCall?
    case Exiting(now, _) => InCall(run, t) && c < l && run[c].req.ExitCall? && now == run[l].now
    case Leaving => InCall(run, t)
  }

  /** The event of the call at c, if the call makes one, is in the history. */
  ghost predicate Counted(run: seq<Action>, s: State, c: nat)
    requires c < |run| && run[c].Call?
  {
    var t := run[c].tid;
    !run[c].req.ExitCall? && (c != LastCall(run, t) || Pc(s, t).Idle? || Pc(s, t).Stored? || Pc(s, t).Leaving?)
  }

  /** The history consists of the events of the calls at `calls`, read at `loads`. */
  ghost predicate Traced(run: seq<Action>, s: State, calls: seq<nat>, loads: seq<nat>)
  {
    && |calls| == |loads| == |s.history|
    && (forall i :: 0 <= i < |calls| ==> OfCall(run, calls[i], loads[i], s.history[i]))
    && (forall i, j :: 0 <= i < j < |calls| ==> calls[i] != calls[j] && loads[i] < loads[j])
    && (forall i, j :: 0 <= i < j < |calls| && run[calls[i]].tid == run[calls[j]].tid ==> calls[i] < calls[j])
    && (forall c: nat :: c < |run| && run[c].Call? ==> (c in calls <==> Counted(run, s, c)))
  }

  /** A clock reading made inside the lock is later than those of the events before. */
  ghost predicate ReadLast(run: seq<Action>, s: State, loads: seq<nat>)
  {
    forall t, i :: Pc(s, t).Loaded? && 0 <= i < |loads| ==> loads[i] < LastLoad(run, t)
  }

  /** The time in the exit handler's lines is a clock reading of a call of it. */
  ghost predicate ExitTimed(run: seq<Action>, s: State)
  {
    s.closed.Some? ==>
      exists c, l :: 0 <= c < l < |run| && run[c].Call? && run[c].req.ExitCall? && run[l].Load?
        && run[c].tid == run[l].tid && run[l].now == s.exitTime
  }

  /** The last calls after one more step. */
  lemma LastStep(run: seq<Action>, a: Action, t: Tid)
    ensures LastCall(run + [a], t) == if a.Call? && a.tid == t then |run| else LastCall(run, t)
    ensures LastLoad(run + [a], t) == if a.Load? && a.tid == t then |run| else LastLoad(run, t)
    ensures LastUnlock(run + [a], t) == if a.Unlock? && a.tid == t then |run| else LastUnlock(run, t)
  {
    assert (run + [a])[..|run|] == run;
  }

  lemma StampDescribes(req: Request, now: int)
    requires !req.ExitCall?
    ensures Describes(Stamp(req, now), req, now)
  {}

  lemma OfCallKept(run: seq<Action>, a: Action, c: nat, l: nat, e: Event)
    requires OfCall(run, c, l, e)
    ensures OfCall(run + [a], c, l, e)
  {
    hide Describes;
  }

  lemma AtCallKept(run: seq<Action>, a: Action, t: Tid, pc: PC)
    requires AtCall(run, t, pc) && (a.tid == t ==> !a.Call? && !a.Load? && !a.Unlock?)
    ensures AtCall(run + [a], t, pc)
  {
    LastStep(run, a, t);
    if pc.Loaded? {
      OfCallKept(run, a, LastCall(run, t), LastLoad(run, t), pc.e);
    }
    hide LastCall, LastLoad, LastUnlock, Describes, OfCall;
  }

  /** The steps between a call's clock reading and its return stay with the call. */
  lemma WithinCall(run: seq<Action>, s: State, a: Action)
    requires Enabled(s, a) && AtCall(run, a.tid, Pc(s, a.tid)) && !a.Call? && !a.Load? && !a.Unlock?
    ensures AtCall(run, a.tid, Pc(Do(s, a), a.tid))
  {
    hide LastCall, LastLoad, LastUnlock, Step, WrittenLine, ExitLineOf, SummaryOf;
  }

  lemma LoadBegins(run: seq<Action>, s: State, a: Action)
    requires Enabled(s, a) && AtCall(run, a.tid, Pc(s, a.tid)) && a.Load?
    ensures AtCall(run + [a], a.tid, Pc(Do(s, a), a.tid))
  {
    LastStep(run, a, a.tid);
    hide LastCall, LastLoad, LastUnlock, Stamp, Describes;
    var req := Pc(s, a.tid).req;
    assert (run + [a])[LastCall(run, a.tid)] == run[LastCall(run, a.tid)];
    if !req.ExitCall? {
      StampDescribes(req, a.now);
    }
  }

  lemma AtCallStep(run: seq<Action>, s: State, a: Action, t: Tid)
    requires Enabled(s, a) && AtCall(run, t, Pc(s, t))
    ensures AtCall(run + [a], t, Pc(Do(s, a), t))
  {
    if a.tid != t {
      OthersStay(s, a);
      AtCallKept(run, a, t, Pc(s, t));
    } else if a.Load? {
      LoadBegins(run, s, a);
    } else if a.Call? || a.Unlock? {
      LastStep(run, a, t);
      hide LastCall, LastLoad, LastUnlock;
    } else {
      WithinCall(run, s, a);
      AtCallKept(run, a, t, Pc(Do(s, a), t));
    }
  }

  /** A call's event enters the history in the call's Store step, and stays. */
  lemma CountedStep(run: seq<Action>, s: State, a: Action, c: nat)
    requires Enabled(s, a) && AtCall(run, a.tid, Pc(s, a.tid)) && c < |run| && run[c].Call?
    ensures a.Store? && c == LastCall(run, a.tid) ==> !Counted(run, s, c) && Counted(run + [a], Do(s, a), c)
    ensures !(a.Store? && c == LastCall(run, a.tid)) ==> (Counted(run + [a], Do(s, a), c) <==> Counted(run, s, c))
  {
    var t := run[c].tid;
    LastStep(run, a, t);
    OthersStay(s, a);
    assert (run + [a])[c] == run[c];
    hide LastCall, LastLoad, LastUnlock, Step, WrittenLine, ExitLineOf, SummaryOf, Stamp, Describes;
    if a.tid != t {
      assert Pc(Do(s, a), t) == Pc(s, t);
    }
  }

  lemma StoreTraces(run: seq<Action>, s: State, a: Action, calls: seq<nat>, loads: seq<nat>)
    returns (calls': seq<nat>, loads': seq<nat>)
    requires Enabled(s, a) && a.Store? && AtCall(run, a.tid, Pc(s, a.tid))
    requires Traced(run, s, calls, loads) && ReadLast(run, s, loads)
    ensures Traced(run + [a], Do(s, a), calls', loads')
  {
    hide LastCall, LastLoad, LastUnlock, Step, Describes, Counted;
    var run', s', c, l := run + [a], Do(s, a), LastCall(run, a.tid), LastLoad(run, a.tid);
    var e := Pc(s, a.tid).e;
    calls', loads' := calls + [c], loads + [l];
    assert s'.history == s.history + [e];
    forall i | 0 <= i < |calls'| ensures OfCall(run', calls'[i], loads'[i], s'.history[i]) {
      OfCallKept(run, a, calls'[i], loads'[i], s'.history[i]);
    }
    hide OfCall, AtCall, Do;
    CountedStep(run, s, a, c);
    assert c !in calls;
    forall d: nat | d < |run'| && run'[d].Call? ensures d in calls' <==> Counted(run', s', d) {
      CountedStep(run, s, a, d);
    }
  }

  lemma OtherStepsTrace(run: seq<Action>, s: State, a: Action, calls: seq<nat>, loads: seq<nat>)
    requires Enabled(s, a) && !a.Store? && AtCall(run, a.tid, Pc(s, a.tid))
    requires Traced(run, s, calls, loads)
    ensures Traced(run + [a], Do(s, a), calls, loads)
  {
    LastStep(run, a, a.tid);
    hide LastCall, LastLoad, LastUnlock, Step, Describes, WrittenLine, ExitLineOf, SummaryOf, Stamp;
    var run', s' := run + [a], Do(s, a);
    assert s'.history == s.history;
    if a.Call? {
      assert !Counted(run', s', |run|);
    }
    hide Do, Enabled, Counted, AtCall;
    forall i | 0 <= i < |calls| ensures OfCall(run', calls[i], loads[i], s'.history[i]) {
      OfCallKept(run, a, calls[i], loads[i], s'.history[i]);
    }
    forall d: nat | d < |run'| && run'[d].Call? ensures d in calls <==> Counted(run', s', d) {
      if d < |run| {
        CountedStep(run, s, a, d);
      }
    }
  }

  lemma ReadLastStep(run: seq<Action>, s: State, a: Action, calls: seq<nat>, loads: seq<nat>)
    requires Enabled(s, a) && MutualExclusion(s) && Traced(run, s, calls, loads) && ReadLast(run, s, loads)
    ensures a.Store? ==> forall t :: !Pc(Do(s, a), t).Loaded?
    ensures !a.Store? ==> ReadLast(run + [a], Do(s, a), loads)
  {
    OthersStay(s, a);
    if a.Store? {
      Alone(s, a.tid);
    }
    hide LastCall, LastLoad, LastUnlock, Step, WrittenLine, ExitLineOf, SummaryOf, Stamp, MutualExclusion, Counted;
    forall t, i | Pc(Do(s, a), t).Loaded? && 0 <= i < |loads| && !a.Store?
      ensures loads[i] < LastLoad(run + [a], t)
    {
      LastStep(run, a, t);
      assert OfCall(run, calls[i], loads[i], s.history[i]);
    }
  }

  lemma ExitTimedStep(run: seq<Action>, s: State, a: Action)
    requires Enabled(s, a) && ExitTimed(run, s) && AtCall(run, a.tid, Pc(s, a.tid))
    ensures ExitTimed(run + [a], Do(s, a))
  {
    hide LastCall, LastLoad, LastUnlock, Step, Describes, WrittenLine, ExitLineOf, SummaryOf, Stamp;
    var run', s' := run + [a], Do(s, a);
    if a.WriteSummary? && s.open {
      var c, l := LastCall(run, a.tid), LastLoad(run, a.tid);
      assert run'[c] == run[c] && run'[l] == run[l];
    } else if s'.closed.Some? {
      var c, l :| 0 <= c < l < |run| && run[c].Call? && run[c].req.ExitCall? && run[l].Load?
        && run[c].tid == run[l].tid && run[l].now == s.exitTime;
      assert run'[c] == run[c] && run'[l] == run[l];
    }
  }

  lemma NoneInside(run: seq<Action>, s: State, loads: seq<nat>)
    requires forall t :: !Pc(s, t).Loaded?
    ensures ReadLast(run, s, loads)
  {}

  /** The history and the control states follow from the calls of the run. */
  ghost predicate Follows(run: seq<Action>, s: State, calls: seq<nat>, loads: seq<nat>)
  {
    && Traced(run, s, calls, loads) && ReadLast(run, s, loads) && ExitTimed(run, s)
    && forall t :: AtCall(run, t, Pc(s, t))
  }

  lemma FollowsStep(run: seq<Action>, s: State, a: Action, calls: seq<nat>, loads: seq<nat>)
    returns (calls': seq<nat>, loads': seq<nat>)
    requires Follows(run, s, calls, loads) && MutualExclusion(s) && Enabled(s, a)
    ensures Follows(run + [a], Do(s, a), calls', loads')
  {
    hide Do, Enabled, AtCall, Traced, ReadLast, ExitTimed, MutualExclusion;
    forall t ensures AtCall(run + [a], t, Pc(Do(s, a), t)) {
      AtCallStep(run, s, a, t);
    }
    ExitTimedStep(run, s, a);
    ReadLastStep(run, s, a, calls, loads);
    if a.Store? {
      calls', loads' := StoreTraces(run, s, a, calls, loads);
      NoneInside(run + [a], Do(s, a), loads');
    } else {
      calls', loads' := calls, loads;
      OtherStepsTrace(run, s, a, calls, loads);
    }
  }

  lemma FollowsFromStart(canOpen: bool)
    ensures Follows([], Init(canOpen), [], [])
  {}

  lemma {:induction false} EveryRunFollows(canOpen: bool, run: seq<Action>)
    returns (calls: seq<nat>, loads: seq<nat>)
    requires Legal(Init(canOpen), run)
    ensures Follows(run, After(Init(canOpen), run), calls, loads)
    decreases |run|
  {
    hide Follows, Inv, Do, Enabled;
    if run == [] {
      FollowsFromStart(canOpen);
      calls, loads := [], [];
    } else {
      var n := |run| - 1;
      var p, a := run[..n], run[n];
      calls, loads := EveryRunFollows(canOpen, p);
      Exclusive(canOpen, p);
      calls, loads := FollowsStep(p, After(Init(canOpen), p), a, calls, loads);
      assert run == p + [a];
    }
  }

  // ---- what every run gives ------------------------------------------------

  /** No two threads are ever past the lock at the same time. */
  lemma NeverTwoInside(canOpen: bool, run: seq<Action>, t: Tid, u: Tid)
    requires Legal(Init(canOpen), run)
    ensures Critical(Pc(After(Init(canOpen), run), t)) && Critical(Pc(After(Init(canOpen), run), u)) ==> t == u
  {
    EveryRunInv(canOpen, run);
  }

  lemma {:induction false} LineAt(evs: seq<Event>, k: nat)
    requires k < |evs|
    ensures LinesOf(evs)[k] == LineOf(Run(evs[..k]), evs[k])
  {
    var n := |evs| - 1;
    if k < n {
      LineAt(evs[..n], k);
      assert evs[..n][..k] == evs[..k];
    }
  }

  /** The lines of events stand before those of the exit handler. */
  lemma EventLinesFirst(s: State, k: nat) returns (evs: seq<Event>)
    requires Inv(s) && k < |s.log| && s.log[k].EventLine?
    ensures k < |evs| && evs <= s.history && LinesOf(evs)[k] == s.log[k]
  {
    hide Run, Step, LinesOf, LineOf, MutualExclusion, PcFacts, SetUp, InTimeOrder;
    evs := match s.closed case None => Due(s) case Some(n) => s.history[..n];
    assert s.exitLines == [] || forall i :: 0 <= i < |s.exitLines| ==> s.exitLines[i].ExitLine?;
  }

  /** The call at c has returned. */
  ghost predicate Completed(run: seq<Action>, c: nat)
    requires c < |run|
  {
    exists u :: c < u < |run| && run[u].Unlock? && run[u].tid == run[c].tid
  }

  lemma CompletedIsCounted(run: seq<Action>, s: State, c: nat)
    requires c < |run| && run[c].Call? && !run[c].req.ExitCall? && Completed(run, c)
    requires AtCall(run, run[c].tid, Pc(s, run[c].tid))
    ensures Counted(run, s, c)
  {
    hide LastCall, LastLoad, LastUnlock, OfCall;
    var u :| c < u < |run| && run[u].Unlock? && run[u].tid == run[c].tid;
    assert LastUnlock(run, run[c].tid) >= u;
  }

  /** Whatever the interleaving was, the history is made of the calls: each event has what
      one call was given and the time that this call read, no two are of one call, every
      call that returned has its event, each thread's events are in the order of its
      calls, and all are in the order in which the clock was read. */
  lemma HistoryIsTheCalls(canOpen: bool, run: seq<Action>) returns (calls: seq<nat>, loads: seq<nat>)
    requires Legal(Init(canOpen), run)
    ensures var history := After(Init(canOpen), run).history;
      && |calls| == |loads| == |history|
      && (forall i :: 0 <= i < |calls| ==> OfCall(run, calls[i], loads[i], history[i]))
      && (forall i, j :: 0 <= i < j < |calls| ==> calls[i] != calls[j] && loads[i] < loads[j])
      && (forall i, j :: 0 <= i < j < |calls| && run[calls[i]].tid == run[calls[j]].tid ==> calls[i] < calls[j])
      && (forall c: nat :: c < |run| && run[c].Call? && !run[c].req.ExitCall? && Completed(run, c) ==> c in calls)
  {
    calls, loads := EveryRunFollows(canOpen, run);
    var s := After(Init(canOpen), run);
    hide Legal, After, AtCall, Counted, OfCall, Completed, LastCall, LastLoad, LastUnlock;
    forall c: nat | c < |run| && run[c].Call? && !run[c].req.ExitCall? && Completed(run, c) ensures c in calls {
      CompletedIsCounted(run, s, c);
    }
  }

  /** Whatever the interleaving was: an event's line, the k-th of the log, carries the
      counts of replaying the first k + 1 events one after the other, and of an entry that
      it took out the name, size and age. */
  lemma LogCarriesReplayedCounts(canOpen: bool, run: seq<Action>, k: nat)
    requires Legal(Init(canOpen), run)
    requires var s := After(Init(canOpen), run); k < |s.log| && s.log[k].EventLine?
    ensures var s := After(Init(canOpen), run);
      && k < |s.history| && s.log[k].e == s.history[k]
      && s.log[k].liveCount == |Run(s.history[..k + 1]).live|
      && s.log[k].liveBytes == Run(s.history[..k + 1]).liveBytes
      && IsHit(s.log[k].hit, s.history[..k], s.history[k])
  {
    hide Legal, Run, Step, LinesOf, LineOf, Inv, Due, IsHit;
    EveryRunInv(canOpen, run);
    var s := After(Init(canOpen), run);
    var evs := EventLinesFirst(s, k);
    hide After;
    LineAt(evs, k);
    assert evs[..k] == s.history[..k];
    var one := s.history[..k + 1];
    assert one[..k] == s.history[..k];
    RunUnfold(one);
    LineCounts(Run(s.history[..k]), s.history[k]);
    HitIsLatestMap(s.history[..k], s.history[k]);
  }

  lemma StillLive(m: Line, evs: seq<Event>, t: int)
    requires Summarizes(m, evs, t)
    ensures m.SummaryLine? && m.stillLive == |Run(evs).live|
  {
    hide Run, Matches, MappedBytes;
  }

  /** Once the exit handler has closed the file, the log is the replayed events,
      then one line for each entry then live, then the summary. The lines are those of the
      last maps, the summary has the peaks and counts of these events, and their time is a
      clock reading of the exit handler's call. */
  lemma ExitAccountsForEveryLiveEntry(canOpen: bool, run: seq<Action>)
    requires Legal(Init(canOpen), run)
    requires After(Init(canOpen), run).closed.Some?
    ensures var s := After(Init(canOpen), run);
      var k := s.closed.value;
      && k <= |s.history|
      && s.log == LinesOf(s.history[..k]) + s.exitLines + [SummaryOf(Run(s.history[..k]), s.exitTime)]
      && Lists(s.exitLines, Run(s.history[..k]).live, s.exitTime)
      && ListsLatestMaps(s.exitLines, s.history[..k], s.exitTime)
      && Summarizes(s.log[|s.log| - 1], s.history[..k], s.exitTime)
      && |s.exitLines| == s.log[|s.log| - 1].stillLive
    ensures exists c, l :: 0 <= c < l < |run| && run[c].Call? && run[c].req.ExitCall? && run[l].Load?
              && run[c].tid == run[l].tid && run[l].now == After(Init(canOpen), run).exitTime
  {
    var calls, loads := EveryRunFollows(canOpen, run);
    EveryRunInv(canOpen, run);
    var s := After(Init(canOpen), run);
    hide Legal, After, MutualExclusion, SetUp, PcFacts, Listing, InTimeOrder, Traced, ReadLast, AtCall;
    hide Summarizes, ListsLatestMaps, SummaryOf, Run, LinesOf;
    var evs := s.history[..s.closed.value];
    SummaryIsExact(evs, s.exitTime);
    ExitLinesAreLatestMaps(evs, s.exitLines, s.exitTime);
    StillLive(s.log[|s.log| - 1], evs, s.exitTime);
  }

  /** The clock is read inside the lock, so if no reading is lower than the one
      before it, the events are logged in time order. */
  lemma LoggedInTimeOrder(canOpen: bool, run: seq<Action>)
    requires Legal(Init(canOpen), run) && After(Init(canOpen), run).monotone
    ensures InTimeOrder(After(Init(canOpen), run).history)
  {
    EveryRunInv(canOpen, run);
  }
}
