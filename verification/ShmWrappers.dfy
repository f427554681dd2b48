/** The Platform_Shm* wrappers (src/platform_shm.c, lines 9-37) called from any
    number of threads: each call first goes to the OS and is recorded in the live
    set afterwards, and other threads run in between. The OS counts references: a map
    may be answered with an address that is mapped already, and an unmap gives one
    reference back. Says exactly when the recorded live set is the set of addresses
    the OS has mapped. */
module ShmWrappers {
  import opened Wrappers
  import opened LiveTable
  import opened Accounting

  type Tid = nat

  datatype PC =
    | Idle
    | MapDone(e: Event)      // the OS call returned, its record is still to be made
    | UnmapDone(e: Event)

  datatype State = State(
    refs: map<Addr, nat>,    // the mapped addresses, with their reference counts
    g: Stats,                // the profiler's counters, with the live set
    pcs: map<Tid, PC>)

  datatype Action =
    | OsMap(tid: Tid, e: Event)
    | RecordMap(tid: Tid)
    | OsUnmap(tid: Tid, e: Event)
    | RecordUnmap(tid: Tid)

  const INIT := State(map[], START, map[])

  function Pc(s: State, t: Tid): PC
  {
    if t in s.pcs then s.pcs[t] else Idle
  }

  ghost predicate Mapping(s: State, t: Tid)
  {
    Pc(s, t).MapDone? && Tracked(Pc(s, t).e)
  }

  /** The threads whose map call was answered with address a and is not yet recorded. */
  ghost function Mappers(s: State, a: Addr): set<Tid>
  {
    set t | t in s.pcs && Mapping(s, t) && Pc(s, t).e.addr == a
  }

  /** Addresses of map calls, and of unmap calls, not yet recorded. */
  ghost function MapsPending(s: State): set<Addr>
  {
    set t | t in s.pcs && Mapping(s, t) :: Pc(s, t).e.addr
  }

  ghost function UnmapsPending(s: State): set<Addr>
  {
    set t | t in s.pcs && Pc(s, t).UnmapDone? :: Pc(s, t).e.addr
  }

  ghost predicate Quiescent(s: State)
  {
    forall t :: Pc(s, t).Idle?
  }

  /** A failed map call (ret < 0) records a NULL address; a failed unmap does nothing. An
      unmap that succeeds gives back a reference whose map call has returned. */
  ghost predicate Enabled(s: State, a: Action)
  {
    match a
    case OsMap(t, e) => Pc(s, t).Idle? && e.MapEvent? && (e.ret < 0 ==> e.addr == 0)
    case RecordMap(t) => Pc(s, t).MapDone?
    case OsUnmap(t, e) =>
      Pc(s, t).Idle? && e.UnmapEvent? && (e.ret >= 0 ==> e.addr in s.refs && s.refs[e.addr] > |Mappers(s, e.addr)|)
    case RecordUnmap(t) => Pc(s, t).UnmapDone?
  }

  function Refs(s: State, a: Addr): nat
  {
    if a in s.refs then s.refs[a] else 0
  }

  function Do(s: State, a: Action): State
    requires Enabled(s, a)
  {
    match a
    case OsMap(t, e) =>
      s.(refs := if Tracked(e) then s.refs[e.addr := Refs(s, e.addr) + 1] else s.refs, pcs := s.pcs[t := MapDone(e)])
    case OsUnmap(t, e) =>
      s.(refs := if e.ret < 0 then s.refs
                 else if s.refs[e.addr] == 1 then s.refs - {e.addr}
                 else s.refs[e.addr := s.refs[e.addr] - 1],
         pcs := s.pcs[t := UnmapDone(e)])
    case RecordMap(t) => s.(g := Step(s.g, Pc(s, t).e), pcs := s.pcs[t := Idle])
    case RecordUnmap(t) => s.(g := Step(s.g, Pc(s, t).e), pcs := s.pcs[t := Idle])
  }

  /** The discipline under which nothing is ever lost: unmaps succeed, and the OS answers
      a map only with an address that is free and has no unmap still to be recorded. */
  ghost predicate Disciplined(s: State, a: Action)
  {
    && (a.OsUnmap? ==> a.e.ret >= 0)
    && (a.OsMap? && Tracked(a.e) ==> a.e.addr !in s.refs && a.e.addr !in UnmapsPending(s))
  }

  ghost predicate Legal(run: seq<Action>, disciplined: bool)
    decreases |run|, 0
  {
    run == [] ||
    var p := run[..|run| - 1];
    Legal(p, disciplined) && Enabled(After(p, disciplined), run[|run| - 1])
    && (disciplined ==> Disciplined(After(p, disciplined), run[|run| - 1]))
  }

  ghost function After(run: seq<Action>, disciplined: bool): State
    requires Legal(run, disciplined)
    decreases |run|, 1
  {
    if run == [] then INIT else Do(After(run[..|run| - 1], disciplined), run[|run| - 1])
  }

  /** The events recorded in a run, in the order of their recording. */
  ghost function Recorded(run: seq<Action>, disciplined: bool): seq<Event>
    requires Legal(run, disciplined)
    decreases |run|
  {
    if run == [] then []
    else
      var p, a := run[..|run| - 1], run[|run| - 1];
      Recorded(p, disciplined) + if a.RecordMap? || a.RecordUnmap? then [Pc(After(p, disciplined), a.tid).e] else []
  }

  // ---- any run -------------------------------------------------------------

  /** Which calls are in flight; each map call holds a reference of its own. */
  ghost predicate Shape(s: State)
  {
    && (forall t :: Pc(s, t).MapDone? ==> Pc(s, t).e.MapEvent?)
    && (forall t :: Pc(s, t).UnmapDone? ==> Pc(s, t).e.UnmapEvent?)
    && (forall a :: a in s.refs ==> a != 0 && s.refs[a] >= 1)
    && (forall a :: |Mappers(s, a)| <= Refs(s, a))
  }

  /** What is live and no longer mapped has an unmap still to be recorded. */
  ghost predicate Books(s: State)
  {
    forall a :: a in s.g.live && a !in s.refs ==> a in UnmapsPending(s)
  }

  ghost predicate Inv(s: State)
  {
    Shape(s) && Books(s)
  }

  /** Which records are outstanding after one step. */
  lemma MappersStep(s: State, a: Action, x: Addr)
    requires Enabled(s, a)
    ensures a.OsMap? && Tracked(a.e) && a.e.addr == x ==> Mappers(Do(s, a), x) == Mappers(s, x) + {a.tid}
    ensures a.OsMap? && !(Tracked(a.e) && a.e.addr == x) ==> Mappers(Do(s, a), x) == Mappers(s, x)
    ensures a.RecordMap? ==> Mappers(Do(s, a), x) == Mappers(s, x) - {a.tid}
    ensures a.OsUnmap? || a.RecordUnmap? ==> Mappers(Do(s, a), x) == Mappers(s, x)
  {
    hide Step;
    var s' := Do(s, a);
    assert forall t :: t != a.tid ==> Pc(s', t) == Pc(s, t) && (Mapping(s', t) <==> Mapping(s, t));
    if a.OsMap? && Tracked(a.e) {
      assert Mapping(s', a.tid);
    }
  }

  lemma PendingMappers(s: State, x: Addr)
    ensures x in MapsPending(s) <==> Mappers(s, x) != {}
  {
    if x in MapsPending(s) {
      var t :| t in s.pcs && Mapping(s, t) && Pc(s, t).e.addr == x;
      assert t in Mappers(s, x);
    }
    if Mappers(s, x) != {} {
      var t :| t in Mappers(s, x);
    }
  }

  lemma UnmapsPendingStep(s: State, a: Action)
    requires Enabled(s, a)
    ensures a.OsUnmap? ==> UnmapsPending(Do(s, a)) == UnmapsPending(s) + {a.e.addr}
    ensures a.RecordUnmap? ==> UnmapsPending(s) - {Pc(s, a.tid).e.addr} <= UnmapsPending(Do(s, a)) <= UnmapsPending(s)
    ensures a.OsMap? || a.RecordMap? ==> UnmapsPending(Do(s, a)) == UnmapsPending(s)
  {
    hide Step;
    var s' := Do(s, a);
    assert forall t :: t != a.tid ==> Pc(s', t) == Pc(s, t);
    if a.OsUnmap? {
      assert Pc(s', a.tid) == UnmapDone(a.e);
    }
  }

  /** Keys of the live set after one recorded event. */
  lemma LiveKeysStep(g: Stats, e: Event)
    ensures Step(g, e).live.Keys
         == if Tracked(e) then g.live.Keys + {e.addr} else if e.UnmapEvent? then g.live.Keys - {e.addr} else g.live.Keys
  {}

  lemma RefsCoverMappers(s: State, a: Action, x: Addr)
    requires Enabled(s, a) && |Mappers(s, x)| <= Refs(s, x)
    ensures |Mappers(Do(s, a), x)| <= Refs(Do(s, a), x)
  {
    hide Step, Mappers, Mapping;
    MappersStep(s, a, x);
  }

  lemma ShapeStep(s: State, a: Action)
    requires Shape(s) && Enabled(s, a)
    ensures Shape(Do(s, a))
  {
    forall x ensures |Mappers(Do(s, a), x)| <= Refs(Do(s, a), x) {
      RefsCoverMappers(s, a, x);
    }
    hide Step, Mappers, Refs;
    assert forall t :: t != a.tid ==> Pc(Do(s, a), t) == Pc(s, t);
  }

  /** The address of a map call in flight is mapped. */
  lemma MapperHasRef(s: State, t: Tid)
    requires Shape(s) && Mapping(s, t)
    ensures Pc(s, t).e.addr in s.refs
  {
    assert t in Mappers(s, Pc(s, t).e.addr);
    assert |Mappers(s, Pc(s, t).e.addr)| <= Refs(s, Pc(s, t).e.addr);
  }

  lemma BooksStep(s: State, a: Action)
    requires Inv(s) && Enabled(s, a)
    ensures Books(Do(s, a))
  {
    UnmapsPendingStep(s, a);
    if a.RecordMap? || a.RecordUnmap? {
      LiveKeysStep(s.g, Pc(s, a.tid).e);
    }
    if a.RecordMap? && Tracked(Pc(s, a.tid).e) {
      MapperHasRef(s, a.tid);
    }
    hide Step, UnmapsPending, Mappers;
    forall x | x in Do(s, a).g.live && x !in Do(s, a).refs ensures x in UnmapsPending(Do(s, a)) {
      assert x in s.g.live.Keys ==> x in s.g.live;
      assert x in Do(s, a).g.live.Keys;
    }
  }

  lemma InvStep(s: State, a: Action)
    requires Inv(s) && Enabled(s, a)
    ensures Inv(Do(s, a))
  {
    ShapeStep(s, a);
    BooksStep(s, a);
  }

  lemma {:induction false} EveryRunInv(run: seq<Action>, disciplined: bool)
    requires Legal(run, disciplined)
    ensures Inv(After(run, disciplined))
    decreases |run|
  {
    if run != [] {
      EveryRunInv(run[..|run| - 1], disciplined);
      InvStep(After(run[..|run| - 1], disciplined), run[|run| - 1]);
    }
  }

  lemma {:induction false} CountersReplayRecords(run: seq<Action>, disciplined: bool)
    requires Legal(run, disciplined)
    ensures After(run, disciplined).g == Run(Recorded(run, disciplined))
    decreases |run|
  {
    hide Step;
    if run != [] {
      var p, a := run[..|run| - 1], run[|run| - 1];
      CountersReplayRecords(p, disciplined);
      if a.RecordMap? || a.RecordUnmap? {
        var evs := Recorded(p, disciplined) + [Pc(After(p, disciplined), a.tid).e];
        assert evs[..|evs| - 1] == Recorded(p, disciplined);
        RunUnfold(evs);
      } else {
        assert Recorded(p, disciplined) + [] == Recorded(p, disciplined);
      }
    }
  }

  predicate IsOsCall(a: Action)
  {
    a.OsMap? || a.OsUnmap?
  }

  /** The index of thread t's last OS call in a run, -1 if there is none. */
  function LastOsCall(run: seq<Action>, t: Tid): (c: int)
    ensures -1 <= c < |run| && (c >= 0 ==> IsOsCall(run[c]) && run[c].tid == t)
    ensures forall j :: c < j < |run| ==> !(IsOsCall(run[j]) && run[j].tid == t)
  {
    if run == [] then -1
    else
      var n := |run| - 1;
      if IsOsCall(run[n]) && run[n].tid == t then n else LastOsCall(run[..n], t)
  }

  /** A call in flight is the thread's last one. */
  ghost predicate InHand(run: seq<Action>, s: State, t: Tid)
  {
    !Pc(s, t).Idle? ==> LastOsCall(run, t) >= 0 && run[LastOsCall(run, t)].e == Pc(s, t).e
  }

  /** The call at c is not in flight any more. */
  ghost predicate Done(run: seq<Action>, s: State, c: nat)
    requires c < |run|
  {
    c != LastOsCall(run, run[c].tid) || Pc(s, run[c].tid).Idle?
  }

  /** Each record is that of one call, with what the call was given and answered; no call
      is recorded twice, all but those in flight are, and each thread's records are in the
      order of its calls. */
  ghost predicate RecordsOfCalls(run: seq<Action>, s: State, recorded: seq<Event>, calls: seq<nat>)
  {
    && |calls| == |recorded|
    && (forall i :: 0 <= i < |calls| ==>
          calls[i] < |run| && IsOsCall(run[calls[i]]) && run[calls[i]].e == recorded[i])
    && (forall i, j :: 0 <= i < j < |calls| ==> calls[i] != calls[j])
    && (forall i, j :: 0 <= i < j < |calls| && run[calls[i]].tid == run[calls[j]].tid ==> calls[i] < calls[j])
    && (forall c: nat :: c < |run| && IsOsCall(run[c]) ==> (c in calls <==> Done(run, s, c)))
  }

  lemma LastOsCallStep(run: seq<Action>, a: Action, t: Tid)
    ensures LastOsCall(run + [a], t) == if IsOsCall(a) && a.tid == t then |run| else LastOsCall(run, t)
  {
    assert (run + [a])[..|run|] == run;
  }

  lemma InHandStep(run: seq<Action>, s: State, a: Action, t: Tid)
    requires Enabled(s, a) && InHand(run, s, t)
    ensures InHand(run + [a], Do(s, a), t)
  {
    hide LastOsCall, Step;
    LastOsCallStep(run, a, t);
  }

  lemma DoneStep(run: seq<Action>, s: State, a: Action, c: nat)
    requires Enabled(s, a) && c < |run| && IsOsCall(run[c])
    ensures c == LastOsCall(run, a.tid) && !IsOsCall(a) ==> !Done(run, s, c) && Done(run + [a], Do(s, a), c)
    ensures !(c == LastOsCall(run, a.tid) && !IsOsCall(a)) ==> (Done(run + [a], Do(s, a), c) <==> Done(run, s, c))
  {
    hide LastOsCall, Step;
    assert (run + [a])[c] == run[c];
    LastOsCallStep(run, a, run[c].tid);
  }

  lemma OsCallKeeps(run: seq<Action>, s: State, a: Action, recorded: seq<Event>, calls: seq<nat>)
    requires Enabled(s, a) && IsOsCall(a) && RecordsOfCalls(run, s, recorded, calls)
    ensures RecordsOfCalls(run + [a], Do(s, a), recorded, calls)
  {
    LastOsCallStep(run, a, a.tid);
    hide LastOsCall, Step;
    var run', s' := run + [a], Do(s, a);
    assert !Done(run', s', |run|);
    hide Do, Enabled, Done;
    assert forall i :: 0 <= i < |calls| ==> run'[calls[i]] == run[calls[i]];
    forall d: nat | d < |run'| && IsOsCall(run'[d]) ensures d in calls <==> Done(run', s', d) {
      if d < |run| {
        DoneStep(run, s, a, d);
      }
    }
  }

  lemma RecordTakesCall(run: seq<Action>, s: State, a: Action, recorded: seq<Event>, calls: seq<nat>)
    returns (calls': seq<nat>)
    requires Enabled(s, a) && !IsOsCall(a) && InHand(run, s, a.tid) && RecordsOfCalls(run, s, recorded, calls)
    ensures RecordsOfCalls(run + [a], Do(s, a), recorded + [Pc(s, a.tid).e], calls')
  {
    hide LastOsCall, Step, Tracked, Refs;
    var run', s', c := run + [a], Do(s, a), LastOsCall(run, a.tid);
    calls' := calls + [c];
    assert c >= 0 && run[c].e == Pc(s, a.tid).e;
    DoneStep(run, s, a, c);
    hide Do, Enabled, Done;
    assert c !in calls;
    assert forall i :: 0 <= i < |calls'| ==> run'[calls'[i]] == run[calls'[i]];
    forall d: nat | d < |run'| && IsOsCall(run'[d]) ensures d in calls' <==> Done(run', s', d) {
      assert d < |run| && run'[d] == run[d];
      DoneStep(run, s, a, d);
    }
  }

  lemma CallsStep(run: seq<Action>, s: State, a: Action, recorded: seq<Event>, calls: seq<nat>)
    returns (calls': seq<nat>)
    requires Enabled(s, a) && InHand(run, s, a.tid) && RecordsOfCalls(run, s, recorded, calls)
    ensures var more := if IsOsCall(a) then [] else [Pc(s, a.tid).e];
      RecordsOfCalls(run + [a], Do(s, a), recorded + more, calls')
  {
    hide InHand, RecordsOfCalls, Do;
    if IsOsCall(a) {
      OsCallKeeps(run, s, a, recorded, calls);
      calls' := calls;
      assert recorded + [] == recorded;
    } else {
      calls' := RecordTakesCall(run, s, a, recorded, calls);
    }
  }

  lemma NoCalls()
    ensures RecordsOfCalls([], INIT, [], []) && forall t :: InHand([], INIT, t)
  {}

  /** In every run the records are those of the calls. */
  lemma {:induction false} RecordsAreTheCalls(run: seq<Action>, disciplined: bool) returns (calls: seq<nat>)
    requires Legal(run, disciplined)
    ensures RecordsOfCalls(run, After(run, disciplined), Recorded(run, disciplined), calls)
    ensures forall t :: InHand(run, After(run, disciplined), t)
    decreases |run|
  {
    hide Do, Enabled, InHand, RecordsOfCalls;
    if run == [] {
      calls := [];
      NoCalls();
    } else {
      var p, a := run[..|run| - 1], run[|run| - 1];
      calls := RecordsAreTheCalls(p, disciplined);
      assert InHand(p, After(p, disciplined), a.tid);
      calls := CallsStep(p, After(p, disciplined), a, Recorded(p, disciplined), calls);
      assert run == p + [a];
      forall t ensures InHand(run, After(run, disciplined), t) {
        InHandStep(p, After(p, disciplined), a, t);
      }
    }
  }

  /** The last thing recorded of address a is an accepted map. */
  ghost predicate LastRecordIsMap(evs: seq<Event>, a: Addr)
  {
    exists k: nat :: Latest(evs, a, k) && evs[k].MapEvent?
  }

  /** Whatever the interleaving: with no call in flight, everything live is mapped; and the
      live set is all that is mapped if and only if the last record made of each mapped
      address is a map's. */
  lemma LiveSetWhenQuiescent(run: seq<Action>)
    requires Legal(run, false) && Quiescent(After(run, false))
    ensures var s := After(run, false);
      && s.g.live.Keys <= s.refs.Keys
      && (s.g.live.Keys == s.refs.Keys <==> forall a :: a in s.refs ==> LastRecordIsMap(Recorded(run, false), a))
  {
    EveryRunInv(run, false);
    CountersReplayRecords(run, false);
    var s, evs := After(run, false), Recorded(run, false);
    assert UnmapsPending(s) == {};
    hide Run, Latest, After, Recorded, Legal;
    forall a: Addr ensures a in s.g.live <==> LastRecordIsMap(evs, a) {
      LiveIsLatestMap(evs, a);
    }
    assert forall a :: a in s.g.live.Keys ==> a in s.g.live;
    assert (forall a :: a in s.refs ==> a in s.g.live) <==> s.refs.Keys <= s.g.live.Keys;
  }

  // ---- disciplined runs ----------------------------------------------------

  /** live == mapped - maps + unmaps, element by element. */
  ghost predicate Accounted(mapped: set<Addr>, live: set<Addr>, maps: set<Addr>, unmaps: set<Addr>)
  {
    forall a :: a in live <==> (a in mapped && a !in maps) || a in unmaps
  }

  ghost predicate Exact(s: State)
  {
    && (forall a :: a in s.refs ==> s.refs[a] == 1)
    && (forall t, u :: Pc(s, t).UnmapDone? && Pc(s, u).UnmapDone? && t != u ==> Pc(s, t).e.addr != Pc(s, u).e.addr)
    && UnmapsPending(s) !! s.refs.Keys
    && Accounted(s.refs.Keys, s.g.live.Keys, MapsPending(s), UnmapsPending(s))
  }

  lemma OneMapper(s: State, t: Tid)
    requires Shape(s) && Exact(s) && Mapping(s, t)
    ensures Mappers(s, Pc(s, t).e.addr) == {t}
  {
    var m := Mappers(s, Pc(s, t).e.addr);
    MapperHasRef(s, t);
    assert |m| <= Refs(s, Pc(s, t).e.addr);
    assert t in m && |m - {t}| == 0;
    assert m == (m - {t}) + {t};
  }

  lemma MapPendingAt(s: State, a: Action, x: Addr)
    requires Enabled(s, a) && Shape(s) && Exact(s)
    ensures x in MapsPending(Do(s, a)) <==>
              (a.OsMap? && Tracked(a.e) && x == a.e.addr)
              || (x in MapsPending(s) && !(a.RecordMap? && Mapping(s, a.tid) && x == Pc(s, a.tid).e.addr))
  {
    if a.RecordMap? && Mapping(s, a.tid) {
      OneMapper(s, a.tid);
    }
    assert a.tid in Mappers(s, x) ==> Mapping(s, a.tid) && x == Pc(s, a.tid).e.addr;
    hide Mappers, MapsPending, Step, Accounted, Exact, Shape;
    PendingMappers(Do(s, a), x);
    PendingMappers(s, x);
    MappersStep(s, a, x);
  }

  /** Which maps are outstanding after one step. */
  lemma MapsPendingStep(s: State, a: Action)
    requires Enabled(s, a) && Shape(s) && Exact(s)
    ensures a.OsMap? ==> MapsPending(Do(s, a)) == MapsPending(s) + (if Tracked(a.e) then {a.e.addr} else {})
    ensures a.RecordMap? ==> MapsPending(Do(s, a))
                             == MapsPending(s) - if Tracked(Pc(s, a.tid).e) then {Pc(s, a.tid).e.addr} else {}
    ensures a.OsUnmap? || a.RecordUnmap? ==> MapsPending(Do(s, a)) == MapsPending(s)
  {
    hide MapsPending, Do, Exact, Shape;
    forall x ensures x in MapsPending(Do(s, a)) <==>
              (a.OsMap? && Tracked(a.e) && x == a.e.addr)
              || (x in MapsPending(s) && !(a.RecordMap? && Mapping(s, a.tid) && x == Pc(s, a.tid).e.addr)) {
      MapPendingAt(s, a, x);
    }
  }

  /** What is mapped and what is live after one disciplined step. */
  lemma KeysStep(s: State, a: Action)
    requires Shape(s) && Exact(s) && Enabled(s, a) && Disciplined(s, a)
    ensures var mapped, live, s' := s.refs.Keys, s.g.live.Keys, Do(s, a);
      match a
      case OsMap(_, e) =>
        && s'.g.live.Keys == live
        && (!Tracked(e) ==> s'.refs.Keys == mapped)
        && (Tracked(e) ==> s'.refs.Keys == mapped + {e.addr} && e.addr !in mapped && e.addr !in UnmapsPending(s))
      case RecordMap(t) =>
        && s'.refs.Keys == mapped
        && (!Tracked(Pc(s, t).e) ==> s'.g.live.Keys == live)
        && (Tracked(Pc(s, t).e) ==> s'.g.live.Keys == live + {Pc(s, t).e.addr} && Pc(s, t).e.addr in mapped)
      case OsUnmap(_, e) =>
        s'.refs.Keys == mapped - {e.addr} && s'.g.live.Keys == live && e.addr in mapped && e.addr !in MapsPending(s)
      case RecordUnmap(t) =>
        s'.refs.Keys == mapped && s'.g.live.Keys == live - {Pc(s, t).e.addr}
  {
    hide Step, MapsPending, UnmapsPending, Accounted;
    if a.RecordMap? || a.RecordUnmap? {
      LiveKeysStep(s.g, Pc(s, a.tid).e);
    }
    if a.RecordMap? && Mapping(s, a.tid) {
      MapperHasRef(s, a.tid);
    }
    if a.OsUnmap? {
      PendingMappers(s, a.e.addr);
    }
  }

  lemma OneUnmapStep(s: State, a: Action)
    requires Shape(s) && Exact(s) && Enabled(s, a) && Disciplined(s, a)
    ensures var s' := Do(s, a);
      forall t, u :: Pc(s', t).UnmapDone? && Pc(s', u).UnmapDone? && t != u ==> Pc(s', t).e.addr != Pc(s', u).e.addr
    ensures a.RecordUnmap? ==> Pc(s, a.tid).e.addr in UnmapsPending(s) - UnmapsPending(Do(s, a))
  {
    hide Step;
    var s' := Do(s, a);
    assert forall t :: t != a.tid ==> Pc(s', t) == Pc(s, t);
    assert forall t :: Pc(s, t).UnmapDone? ==> Pc(s, t).e.addr in UnmapsPending(s);
  }

  lemma AccountedMapped(mapped: set<Addr>, live: set<Addr>, maps: set<Addr>, unmaps: set<Addr>, x: Addr)
    requires Accounted(mapped, live, maps, unmaps) && x !in mapped && x !in unmaps
    ensures Accounted(mapped + {x}, live, maps + {x}, unmaps)
  {}

  lemma ExactSets(s: State)
    requires Exact(s)
    ensures UnmapsPending(s) !! s.refs.Keys && Accounted(s.refs.Keys, s.g.live.Keys, MapsPending(s), UnmapsPending(s))
  {}

  lemma MapAccounted(s: State, a: Action)
    requires Shape(s) && Exact(s) && Enabled(s, a) && Disciplined(s, a) && a.OsMap?
    ensures Accounted(Do(s, a).refs.Keys, Do(s, a).g.live.Keys, MapsPending(Do(s, a)), UnmapsPending(Do(s, a)))
  {
    ExactSets(s);
    hide Do, MapsPending, UnmapsPending, Accounted, Shape, Exact, Disciplined;
    KeysStep(s, a);
    MapsPendingStep(s, a);
    UnmapsPendingStep(s, a);
    var mapped, live, maps, unmaps := s.refs.Keys, s.g.live.Keys, MapsPending(s), UnmapsPending(s);
    assert maps + {} == maps;
    if Tracked(a.e) { AccountedMapped(mapped, live, maps, unmaps, a.e.addr); }
  }

  lemma AccountedMapRecorded(mapped: set<Addr>, live: set<Addr>, maps: set<Addr>, unmaps: set<Addr>, x: Addr)
    requires Accounted(mapped, live, maps, unmaps) && x in mapped
    ensures Accounted(mapped, live + {x}, maps - {x}, unmaps)
  {}

  lemma MapRecordAccounted(s: State, a: Action)
    requires Shape(s) && Exact(s) && Enabled(s, a) && Disciplined(s, a) && a.RecordMap?
    ensures Accounted(Do(s, a).refs.Keys, Do(s, a).g.live.Keys, MapsPending(Do(s, a)), UnmapsPending(Do(s, a)))
  {
    ExactSets(s);
    hide Do, MapsPending, UnmapsPending, Accounted, Shape, Exact, Disciplined;
    KeysStep(s, a);
    MapsPendingStep(s, a);
    UnmapsPendingStep(s, a);
    var mapped, live, maps, unmaps := s.refs.Keys, s.g.live.Keys, MapsPending(s), UnmapsPending(s);
    var e := Pc(s, a.tid).e;
    assert maps - {} == maps;
    if Tracked(e) { AccountedMapRecorded(mapped, live, maps, unmaps, e.addr); }
  }

  lemma AccountedUnmapped(mapped: set<Addr>, live: set<Addr>, maps: set<Addr>, unmaps: set<Addr>, x: Addr)
    requires Accounted(mapped, live, maps, unmaps) && x in mapped && x !in maps
    ensures Accounted(mapped - {x}, live, maps, unmaps + {x})
  {}

  lemma UnmapAccounted(s: State, a: Action)
    requires Shape(s) && Exact(s) && Enabled(s, a) && Disciplined(s, a) && a.OsUnmap?
    ensures Accounted(Do(s, a).refs.Keys, Do(s, a).g.live.Keys, MapsPending(Do(s, a)), UnmapsPending(Do(s, a)))
  {
    ExactSets(s);
    hide Do, MapsPending, UnmapsPending, Accounted, Shape, Exact, Disciplined;
    KeysStep(s, a);
    MapsPendingStep(s, a);
    UnmapsPendingStep(s, a);
    var mapped, live, maps, unmaps := s.refs.Keys, s.g.live.Keys, MapsPending(s), UnmapsPending(s);
    AccountedUnmapped(mapped, live, maps, unmaps, a.e.addr);
  }

  lemma AccountedUnmapRecorded(mapped: set<Addr>, live: set<Addr>, maps: set<Addr>, unmaps: set<Addr>,
                               x: Addr, unmaps': set<Addr>)
    requires Accounted(mapped, live, maps, unmaps) && x !in mapped && x !in unmaps' && unmaps - {x} <= unmaps' <= unmaps
    ensures Accounted(mapped, live - {x}, maps, unmaps')
  {}

  lemma UnmapRecordAccounted(s: State, a: Action)
    requires Shape(s) && Exact(s) && Enabled(s, a) && Disciplined(s, a) && a.RecordUnmap?
    requires Pc(s, a.tid).e.addr in UnmapsPending(s) && Pc(s, a.tid).e.addr !in UnmapsPending(Do(s, a))
    ensures Accounted(Do(s, a).refs.Keys, Do(s, a).g.live.Keys, MapsPending(Do(s, a)), UnmapsPending(Do(s, a)))
  {
    ExactSets(s);
    hide Do, MapsPending, UnmapsPending, Accounted, Shape, Exact, Disciplined;
    KeysStep(s, a);
    MapsPendingStep(s, a);
    UnmapsPendingStep(s, a);
    var mapped, live, maps, unmaps := s.refs.Keys, s.g.live.Keys, MapsPending(s), UnmapsPending(s);
    var x := Pc(s, a.tid).e.addr;
    assert x in unmaps && x !in mapped;
    AccountedUnmapRecorded(mapped, live, maps, unmaps, x, UnmapsPending(Do(s, a)));
  }

  lemma AccountedStep(s: State, a: Action)
    requires Shape(s) && Exact(s) && Enabled(s, a) && Disciplined(s, a)
    requires a.RecordUnmap? ==> Pc(s, a.tid).e.addr in UnmapsPending(s) - UnmapsPending(Do(s, a))
    ensures Accounted(Do(s, a).refs.Keys, Do(s, a).g.live.Keys, MapsPending(Do(s, a)), UnmapsPending(Do(s, a)))
  {
    hide Do, MapsPending, UnmapsPending, Accounted, Shape, Exact, Disciplined;
    match a
    case OsMap(_, _) => MapAccounted(s, a);
    case RecordMap(_) => MapRecordAccounted(s, a);
    case OsUnmap(_, _) => UnmapAccounted(s, a);
    case RecordUnmap(_) => UnmapRecordAccounted(s, a);
  }

  lemma ExactStep(s: State, a: Action)
    requires Inv(s) && Exact(s) && Enabled(s, a) && Disciplined(s, a)
    ensures Exact(Do(s, a))
  {
    UnmapsPendingStep(s, a);
    OneUnmapStep(s, a);
    AccountedStep(s, a);
    if a.RecordMap? && Mapping(s, a.tid) {
      MapperHasRef(s, a.tid);
    }
    hide Step, MapsPending, UnmapsPending, Mapping, Mappers, Accounted;
  }

  /** In every disciplined interleaving, at every moment: live set = mapped minus
      the maps not yet recorded, plus the unmaps not yet recorded. */
  lemma {:induction false} LiveSetExact(run: seq<Action>)
    requires Legal(run, true)
    ensures Exact(After(run, true))
    decreases |run|
  {
    if run != [] {
      LiveSetExact(run[..|run| - 1]);
      EveryRunInv(run[..|run| - 1], true);
      ExactStep(After(run[..|run| - 1], true), run[|run| - 1]);
    }
  }

  // ---- each condition is needed --------------------------------------------

  lemma Extend(run: seq<Action>, s: State, a: Action) returns (more: seq<Action>)
    requires Legal(run, false) && After(run, false) == s && Enabled(s, a)
    ensures more == run + [a] && Legal(more, false) && After(more, false) == Do(s, a)
  {
    more := run + [a];
    assert more[..|more| - 1] == run;
  }

  lemma NoMappers(s: State, a: Addr)
    requires forall t :: Pc(s, t).Idle?
    ensures Mappers(s, a) == {}
  {}

  const EXAMPLE_MAP := MapEvent("map", None, 4096, 1, 0, 1, None, 0)

  /** Thread 1 maps 4096, records it, and has the OS's answer to its unmap in hand. */
  lemma MappedAndUnmapped(ret: int) returns (run: seq<Action>)
    ensures Legal(run, false)
    ensures var s := After(run, false);
      && Pc(s, 1) == UnmapDone(UnmapEvent(4096, ret, 0)) && (forall t :: t != 1 ==> Pc(s, t).Idle?)
      && s.refs == if ret < 0 then map[4096 := 1] else map[]
    ensures forall i :: 0 <= i < |run| ==> run[i].tid == 1 && (run[i].OsUnmap? ==> run[i].e.ret == ret)
  {
    var u := UnmapEvent(4096, ret, 0);
    hide Step, Mappers, Recorded;
    var s1 := Do(INIT, OsMap(1, EXAMPLE_MAP));
    var s2 := Do(s1, RecordMap(1));
    NoMappers(s2, 4096);
    var r1 := Extend([], INIT, OsMap(1, EXAMPLE_MAP));
    var r2 := Extend(r1, s1, RecordMap(1));
    hide Legal, After;
    run := Extend(r2, s2, OsUnmap(1, u));
  }

  /** Two threads, unmaps that succeed, yet a region that is mapped ends up outside
      the live set: thread 1 unmaps 4096, thread 2 gets 4096 from the OS and records
      it, and only then thread 1 records its unmap. */
  lemma ReusedAddressIsLost() returns (run: seq<Action>)
    ensures Legal(run, false) && Quiescent(After(run, false))
    ensures forall i :: 0 <= i < |run| && run[i].OsUnmap? ==> run[i].e.ret >= 0
    ensures 4096 in After(run, false).refs && 4096 !in After(run, false).g.live
  {
    hide Step, Mappers, Recorded, Legal, After;
    var r3 := MappedAndUnmapped(0);
    var s3 := After(r3, false);
    var s4 := Do(s3, OsMap(2, EXAMPLE_MAP));
    var s5 := Do(s4, RecordMap(2));
    LiveKeysStep(s5.g, Pc(s5, 1).e);
    var r4 := Extend(r3, s3, OsMap(2, EXAMPLE_MAP));
    var r5 := Extend(r4, s4, RecordMap(2));
    assert forall t :: t != 1 && t != 2 ==> Pc(Do(s5, RecordUnmap(1)), t) == Pc(s3, t);
    run := Extend(r5, s5, RecordUnmap(1));
  }

  /** One thread, one failed unmap: the region stays mapped but leaves the live set. */
  lemma FailedUnmapIsLost() returns (run: seq<Action>)
    ensures Legal(run, false) && Quiescent(After(run, false))
    ensures forall i :: 0 <= i < |run| ==> run[i].tid == 1
    ensures 4096 in After(run, false).refs && 4096 !in After(run, false).g.live
  {
    hide Step, Mappers, Recorded, Legal, After;
    var r3 := MappedAndUnmapped(-1);
    var s3 := After(r3, false);
    LiveKeysStep(s3.g, Pc(s3, 1).e);
    assert forall t :: t != 1 ==> Pc(Do(s3, RecordUnmap(1)), t) == Pc(s3, t);
    run := Extend(r3, s3, RecordUnmap(1));
  }

  lemma MappedTwice() returns (run: seq<Action>)
    ensures Legal(run, false)
    ensures After(run, false).refs == map[4096 := 2] && forall t :: Pc(After(run, false), t).Idle?
    ensures forall i :: 0 <= i < |run| ==> run[i].tid == 1 && !run[i].OsUnmap?
  {
    hide Step, Mappers, Recorded;
    var s1 := Do(INIT, OsMap(1, EXAMPLE_MAP));
    var s2 := Do(s1, RecordMap(1));
    var s3 := Do(s2, OsMap(1, EXAMPLE_MAP));
    var r1 := Extend([], INIT, OsMap(1, EXAMPLE_MAP));
    hide Legal, After;
    var r2 := Extend(r1, s1, RecordMap(1));
    var r3 := Extend(r2, s2, OsMap(1, EXAMPLE_MAP));
    run := Extend(r3, s3, RecordMap(1));
  }

  /** One thread, every call successful and recorded at once, but an address mapped twice
      and unmapped once: it stays mapped and leaves the live set. */
  lemma SharedAddressIsLost() returns (run: seq<Action>)
    ensures Legal(run, false) && Quiescent(After(run, false))
    ensures forall i :: 0 <= i < |run| ==> run[i].tid == 1 && (run[i].OsUnmap? ==> run[i].e.ret >= 0)
    ensures 4096 in After(run, false).refs && 4096 !in After(run, false).g.live
  {
    hide Step, Recorded, Legal, After;
    var u := UnmapEvent(4096, 0, 0);
    var r4 := MappedTwice();
    var s4 := After(r4, false);
    NoMappers(s4, 4096);
    hide Mappers;
    var s5 := Do(s4, OsUnmap(1, u));
    LiveKeysStep(s5.g, u);
    assert forall t :: t != 1 ==> Pc(Do(s5, RecordUnmap(1)), t) == Pc(s4, t);
    var r5 := Extend(r4, s4, OsUnmap(1, u));
    run := Extend(r5, s5, RecordUnmap(1));
  }
}
