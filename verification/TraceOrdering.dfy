/** The interposed entry points of mem_trace (tools/mem_trace.c, lines 224-251 and
    359-439) called from any number of threads, in atomic steps: one on the real
    allocator, one or two on the table. `free`, `realloc` and `munmap` take the entry
    out before they give the address back; `mremap` does it the other way round. So a
    tracked address belongs to the allocation that owns it now, unless it is the
    source of an mremap that is still in flight. */
module TraceOrdering {
  import opened Wrappers

  type Addr = nat
  type Tid = nat
  type AllocId = nat

  datatype PC =
    | Idle
    | Recording(addr: Addr, id: AllocId)    // allocated, not yet returned to the caller
    | Releasing(addr: Addr)                 // free, munmap: entry deleted, real release to come
    | Resizing(addr: Addr)                  // realloc: entry deleted, real realloc to come
    | Moved(from: Addr, addr: Addr, id: AllocId)   // mremap: mapping moved, table untouched

  datatype State = State(
    heap: map<Addr, AllocId>,     // what is allocated, and by which allocation
    table: map<Addr, AllocId>,    // the tracked addresses, and which allocation recorded them
    pcs: map<Tid, PC>,
    next: AllocId,
    recorded: set<AllocId>)       // every allocation that was ever put in the table

  const INIT := State(map[], map[], map[], 0, {})

  datatype Action =
    | Allocate(tid: Tid, addr: Addr)               // malloc, calloc, memalign, mmap, ...: the real call
    | Record(tid: Tid, sampled: bool)              // table_put, or the sampler or a full shard skips it
    | Delete(tid: Tid, addr: Addr)                 // free, munmap: table_del
    | Release(tid: Tid, ok: bool)                  // the real free or munmap, which may fail
    | DeleteForResize(tid: Tid, addr: Addr)        // realloc: table_del
      // The real realloc: a new block, or NULL with the old one kept or freed.
    | Resize(tid: Tid, moved: Option<Addr>, freed: bool)
    | Move(tid: Tid, addr: Addr, to: Addr)         // mremap: the real call, in place or to a new address
    | DeleteSource(tid: Tid)                       // mremap: table_del of the old address

  function Pc(s: State, t: Tid): PC
  {
    if t in s.pcs then s.pcs[t] else Idle
  }

  /** The thread has the allocation at address a in hand between its steps. */
  predicate Busy(p: PC, a: Addr)
  {
    !p.Idle? && p.addr == a
  }

  ghost predicate Owned(s: State, a: Addr)
  {
    a in s.heap && forall t :: !Busy(Pc(s, t), a)
  }

  /** The allocator hands out free addresses only; a caller frees, resizes or moves an
      address only once, and only after the call that returned it. The old address of
      an mremap in flight is free to be handed out, and its new owner free to use it. */
  ghost predicate Enabled(s: State, a: Action)
  {
    match a
    case Allocate(t, addr) => Pc(s, t).Idle? && addr !in s.heap
    case Record(t, _) => Pc(s, t).Recording?
    case Delete(t, addr) => Pc(s, t).Idle? && Owned(s, addr)
    case Release(t, _) => Pc(s, t).Releasing?
    case DeleteForResize(t, addr) => Pc(s, t).Idle? && Owned(s, addr)
    case Resize(t, moved, _) =>
      Pc(s, t).Resizing? && (moved.Some? ==> moved.value !in s.heap || moved.value == Pc(s, t).addr)
    case Move(t, addr, to) => Pc(s, t).Idle? && Owned(s, addr) && (to !in s.heap || to == addr)
    case DeleteSource(t) => Pc(s, t).Moved?
  }

  function Do(s: State, a: Action): State
    requires Enabled(s, a)
  {
    match a
    case Allocate(t, addr) =>
      s.(heap := s.heap[addr := s.next], next := s.next + 1, pcs := s.pcs[t := Recording(addr, s.next)])
    case Record(t, sampled) =>
      var Recording(addr, id) := Pc(s, t);
      s.(table := if sampled then s.table[addr := id] else s.table, pcs := s.pcs[t := Idle],
         recorded := if sampled then s.recorded + {id} else s.recorded)
    case Delete(t, addr) =>
      s.(table := s.table - {addr}, pcs := s.pcs[t := Releasing(addr)])
    case Release(t, ok) =>
      s.(heap := if ok then s.heap - {Pc(s, t).addr} else s.heap, pcs := s.pcs[t := Idle])
    case DeleteForResize(t, addr) =>
      s.(table := s.table - {addr}, pcs := s.pcs[t := Resizing(addr)])
    case Resize(t, moved, freed) =>
      var from := Pc(s, t).addr;
      if moved.Some? then
        s.(heap := (s.heap - {from})[moved.value := s.next], next := s.next + 1,
           pcs := s.pcs[t := Recording(moved.value, s.next)])
      else
        s.(heap := if freed then s.heap - {from} else s.heap, pcs := s.pcs[t := Idle])
    case Move(t, addr, to) =>
      s.(heap := (s.heap - {addr})[to := s.next], next := s.next + 1, pcs := s.pcs[t := Moved(addr, to, s.next)])
    case DeleteSource(t) =>
      var Moved(from, addr, id) := Pc(s, t);
      s.(table := s.table - {from}, pcs := s.pcs[t := Recording(addr, id)])
  }

  ghost predicate Legal(run: seq<Action>)
    decreases |run|, 0
  {
    run == [] || (Legal(run[..|run| - 1]) && Enabled(After(run[..|run| - 1]), run[|run| - 1]))
  }

  ghost function After(run: seq<Action>): State
    requires Legal(run)
    decreases |run|, 1
  {
    if run == [] then INIT else Do(After(run[..|run| - 1]), run[|run| - 1])
  }

  // ---- what is tracked is what is owned ------------------------------------

  /** Address a is tracked by the allocation that owns it. */
  predicate Tracks(s: State, a: Addr)
  {
    a in s.table && a in s.heap && s.table[a] == s.heap[a]
  }

  /** Every tracked address is allocated, and its record is the present owner's. */
  predicate Faithful(s: State)
  {
    forall a :: a in s.table ==> Tracks(s, a)
  }

  /** Address a is the old address of an mremap whose table_del is still to come. */
  ghost predicate SourcePending(s: State, a: Addr)
  {
    exists t :: Pc(s, t).Moved? && Pc(s, t).from == a
  }

  /** What a thread has in hand is allocated, and no other thread has it. */
  ghost predicate Exclusive(s: State)
  {
    && (forall t, a :: Busy(Pc(s, t), a) ==> a in s.heap)
    && (forall t, u, a :: Busy(Pc(s, t), a) && Busy(Pc(s, u), a) ==> t == u)
    && (forall t :: Pc(s, t).Recording? || Pc(s, t).Moved? ==> s.heap[Pc(s, t).addr] == Pc(s, t).id)
  }

  ghost predicate Placed(s: State)
  {
    && (forall a :: a in s.table ==> Tracks(s, a) || SourcePending(s, a))
    && (forall t :: Pc(s, t).Releasing? || Pc(s, t).Resizing? ==> Pc(s, t).addr !in s.table)
    && (forall t :: Pc(s, t).Recording? || Pc(s, t).Moved? ==>
                      Pc(s, t).addr !in s.table || SourcePending(s, Pc(s, t).addr))
  }

  lemma PendingStep(s: State, a: Action)
    requires Enabled(s, a)
    ensures forall x :: SourcePending(s, x) && !(a.DeleteSource? && x == Pc(s, a.tid).from) ==>
                          SourcePending(Do(s, a), x)
    ensures a.Move? ==> SourcePending(Do(s, a), a.addr)
  {
    var s' := Do(s, a);
    assert forall t :: t != a.tid ==> Pc(s', t) == Pc(s, t);
    forall x | SourcePending(s, x) && !(a.DeleteSource? && x == Pc(s, a.tid).from) ensures SourcePending(s', x) {
      var t :| Pc(s, t).Moved? && Pc(s, t).from == x;
      assert Pc(s', t) == Pc(s, t);
    }
    if a.Move? {
      assert Pc(s', a.tid).Moved? && Pc(s', a.tid).from == a.addr;
    }
  }

  lemma ExclusiveStep(s: State, a: Action)
    requires Exclusive(s) && Enabled(s, a)
    ensures Exclusive(Do(s, a))
  {
    var s' := Do(s, a);
    assert forall t :: t != a.tid ==> Pc(s', t) == Pc(s, t);
    assert forall t :: !Pc(s, t).Idle? ==> Busy(Pc(s, t), Pc(s, t).addr);
  }

  lemma PlacedStep(s: State, a: Action)
    requires Exclusive(s) && Placed(s) && Enabled(s, a)
    ensures Placed(Do(s, a))
  {
    var s' := Do(s, a);
    PendingStep(s, a);
    assert forall t :: t != a.tid ==> Pc(s', t) == Pc(s, t);
    assert forall t :: !Pc(s, t).Idle? ==> Busy(Pc(s, t), Pc(s, t).addr);
    hide SourcePending;
  }

  lemma {:induction false} EveryRunInv(run: seq<Action>)
    requires Legal(run)
    ensures Exclusive(After(run)) && Placed(After(run))
  {
    if run != [] {
      EveryRunInv(run[..|run| - 1]);
      ExclusiveStep(After(run[..|run| - 1]), run[|run| - 1]);
      PlacedStep(After(run[..|run| - 1]), run[|run| - 1]);
    }
  }

  /** In every interleaving of malloc, calloc, memalign, realloc, free, mmap, munmap
      and mremap by any number of threads: a tracked address is allocated, and recorded
      by the allocation that owns it, except while it is the source of an mremap in
      flight. So the whole table is faithful exactly if the sources still tracked are,
      and always when no mremap is in flight. */
  lemma TrackedIsOwned(run: seq<Action>)
    requires Legal(run)
    ensures var s := After(run);
      && (forall a :: a in s.table && !SourcePending(s, a) ==> Tracks(s, a))
      && (Faithful(s) <==> forall a :: SourcePending(s, a) && a in s.table ==> Tracks(s, a))
      && ((forall t :: !Pc(s, t).Moved?) ==> Faithful(s))
  {
    EveryRunInv(run);
  }

  /** An allocation that is not sampled has no entry: it inherits an earlier owner's
      only from an mremap that has still to delete it. */
  lemma UnsampledHasNoEntry(run: seq<Action>, a: Action)
    requires Legal(run) && a.Record? && !a.sampled && Enabled(After(run), a)
    ensures var s, s' := After(run), Do(After(run), a);
      Pc(s, a.tid).addr in s'.table ==> SourcePending(s', Pc(s, a.tid).addr)
  {
    EveryRunInv(run);
    PendingStep(After(run), a);
  }

  // ---- what was recorded is still tracked ----------------------------------

  ghost predicate Leaving(s: State, a: Addr)
  {
    exists t :: (Pc(s, t).Releasing? || Pc(s, t).Resizing?) && Pc(s, t).addr == a
  }

  /** The allocations whose record a step loses for good: a munmap or realloc that
      fails after the entry was deleted, or an mremap that deletes the entry of its old
      address after another allocation was recorded there. */
  ghost function Forgets(s: State, a: Action): set<AllocId>
    requires Enabled(s, a)
  {
    if (a.Release? && !a.ok) || (a.Resize? && a.moved.None? && !a.freed) then
      if Pc(s, a.tid).addr in s.heap then {s.heap[Pc(s, a.tid).addr]} else {}
    else if a.DeleteSource? && Pc(s, a.tid).from in s.heap && s.heap[Pc(s, a.tid).from] in s.recorded then
      {s.heap[Pc(s, a.tid).from]}
    else {}
  }

  ghost function Forgotten(run: seq<Action>): set<AllocId>
    requires Legal(run)
  {
    if run == [] then {}
    else Forgotten(run[..|run| - 1]) + Forgets(After(run[..|run| - 1]), run[|run| - 1])
  }

  ghost predicate IdsFit(s: State, lost: set<AllocId>)
  {
    && (forall a :: a in s.heap ==> s.heap[a] < s.next)
    && (forall id :: id in s.recorded ==> id < s.next)
    && (forall id :: id in lost ==> id < s.next)
    && (forall a :: a in s.table ==> s.table[a] in s.recorded)
    && (forall a, b :: a in s.heap && b in s.heap && a != b ==> s.heap[a] != s.heap[b])
  }

  /** An allocation still to be recorded was never recorded nor forgotten. */
  ghost predicate Unrecorded(s: State, lost: set<AllocId>, t: Tid)
  {
    Pc(s, t).Recording? || Pc(s, t).Moved? ==> Pc(s, t).id !in s.recorded && Pc(s, t).id !in lost
  }

  /** What is in the table at address a, if its allocation is not on its way out. */
  ghost predicate Complete(s: State, lost: set<AllocId>, a: Addr)
  {
    a in s.heap && !Leaving(s, a) ==> (Tracks(s, a) <==> s.heap[a] in s.recorded && s.heap[a] !in lost)
  }

  lemma OthersInHand(s: State, t: Tid, u: Tid)
    requires Exclusive(s) && t != u && !Pc(s, t).Idle?
    ensures Pc(s, t).addr in s.heap
    ensures !Pc(s, u).Idle? ==> Pc(s, u).addr in s.heap && Pc(s, u).addr != Pc(s, t).addr
  {
    assert Busy(Pc(s, t), Pc(s, t).addr);
    assert !Pc(s, u).Idle? ==> Busy(Pc(s, u), Pc(s, u).addr);
  }

  lemma IdsFitStep(s: State, a: Action, lost: set<AllocId>)
    requires Exclusive(s) && IdsFit(s, lost) && Enabled(s, a)
    ensures IdsFit(Do(s, a), lost + Forgets(s, a))
  {
    if !Pc(s, a.tid).Idle? {
      assert Busy(Pc(s, a.tid), Pc(s, a.tid).addr);
      assert Pc(s, a.tid).addr in s.heap;
      assert a.Record? ==> s.heap[Pc(s, a.tid).addr] == Pc(s, a.tid).id;
    }
    hide Exclusive, Owned, Busy;
  }

  lemma UnrecordedStep(s: State, a: Action, lost: set<AllocId>, t: Tid)
    requires Exclusive(s) && IdsFit(s, lost) && Unrecorded(s, lost, t) && Enabled(s, a)
    ensures Unrecorded(Do(s, a), lost + Forgets(s, a), t)
  {
    if t != a.tid {
      assert Pc(Do(s, a), t) == Pc(s, t);
      if !Pc(s, t).Idle? {
        OthersInHand(s, t, a.tid);
      }
    }
    hide Owned, Busy;
  }

  lemma LeavingStep(s: State, a: Action, x: Addr)
    requires Enabled(s, a)
    ensures (a.Delete? || a.DeleteForResize?) && x == a.addr ==> Leaving(Do(s, a), x)
    ensures Leaving(s, x) && !((a.Release? || a.Resize?) && x == Pc(s, a.tid).addr) ==> Leaving(Do(s, a), x)
  {
    var s' := Do(s, a);
    if (a.Delete? || a.DeleteForResize?) && x == a.addr {
      assert Pc(s', a.tid).addr == x;
    } else if Leaving(s, x) && !((a.Release? || a.Resize?) && x == Pc(s, a.tid).addr) {
      var t :| (Pc(s, t).Releasing? || Pc(s, t).Resizing?) && Pc(s, t).addr == x;
      assert Pc(s', t) == Pc(s, t);
    }
  }

  lemma CompleteStep(s: State, a: Action, lost: set<AllocId>, x: Addr)
    requires Exclusive(s) && Placed(s) && IdsFit(s, lost) && Unrecorded(s, lost, a.tid)
    requires Complete(s, lost, x) && Enabled(s, a)
    ensures Complete(Do(s, a), lost + Forgets(s, a), x)
  {
    LeavingStep(s, a, x);
    if !Pc(s, a.tid).Idle? {
      assert Busy(Pc(s, a.tid), Pc(s, a.tid).addr);
      assert Pc(s, a.tid).addr in s.heap;
      assert a.Record? ==> s.heap[Pc(s, a.tid).addr] == Pc(s, a.tid).id;
      assert a.Release? || a.Resize? ==> Pc(s, a.tid).addr !in s.table;
    }
    hide Leaving, Owned, Placed, Exclusive, Busy;
  }

  lemma {:induction false} EveryRunComplete(run: seq<Action>)
    requires Legal(run)
    ensures IdsFit(After(run), Forgotten(run))
    ensures forall t :: Unrecorded(After(run), Forgotten(run), t)
    ensures forall a :: Complete(After(run), Forgotten(run), a)
  {
    if run != [] {
      var p := run[..|run| - 1];
      EveryRunComplete(p);
      EveryRunInv(p);
      var s, a, lost := After(p), run[|run| - 1], Forgotten(p);
      IdsFitStep(s, a, lost);
      hide IdsFit, Unrecorded, Complete, Exclusive, Placed, Do, Forgets;
      forall t ensures Unrecorded(After(run), Forgotten(run), t) {
        UnrecordedStep(s, a, lost, t);
      }
      forall x ensures Complete(After(run), Forgotten(run), x) {
        CompleteStep(s, a, lost, x);
      }
    }
  }

  /** In every interleaving, failing calls and mremap included: an allocation that is not
      on its way out is tracked by its own record if and only if it was recorded and no
      step lost the record - a failing call costs only its own allocation's, an mremap
      only that of the next owner of its old address. With no mremap in flight it is then
      exactly these addresses that are in the table. */
  lemma RecordedStaysTracked(run: seq<Action>, a: Addr)
    requires Legal(run) && a in After(run).heap && !Leaving(After(run), a)
    ensures var s := After(run);
      && (Tracks(s, a) <==> s.heap[a] in s.recorded && s.heap[a] !in Forgotten(run))
      && ((forall t :: !Pc(s, t).Moved?) ==>
            (a in s.table <==> s.heap[a] in s.recorded && s.heap[a] !in Forgotten(run)))
  {
    EveryRunComplete(run);
    EveryRunInv(run);
    assert Complete(After(run), Forgotten(run), a);
  }

  // ---- which calls were recorded -------------------------------------------

  predicate Allocates(a: Action)
  {
    a.Allocate? || a.Move? || (a.Resize? && a.moved.Some?)
  }

  /** Where an allocating step puts its allocation. */
  function NewAddr(a: Action): Addr
    requires Allocates(a)
  {
    match a
    case Allocate(_, addr) => addr
    case Move(_, _, to) => to
    case Resize(_, moved, _) => moved.value
  }

  /** How many allocations a run made; the next one gets this number. */
  function Allocations(run: seq<Action>): nat
  {
    if run == [] then 0 else Allocations(run[..|run| - 1]) + if Allocates(run[|run| - 1]) then 1 else 0
  }

  /** Whether the first Record step of step i's thread after it was sampled, if there was
      one. */
  function Decision(run: seq<Action>, i: nat): Option<bool>
    requires i < |run|
  {
    var n := |run| - 1;
    if n == i then None
    else if Decision(run[..n], i).Some? then Decision(run[..n], i)
    else if run[n].Record? && run[n].tid == run[i].tid then Some(run[n].sampled)
    else None
  }

  /** The thread has allocation id still to be recorded. */
  predicate ToRecord(s: State, t: Tid, id: AllocId)
  {
    (Pc(s, t).Recording? || Pc(s, t).Moved?) && Pc(s, t).id == id
  }

  /** Step i's allocation is recorded exactly if its Record step was sampled. */
  ghost predicate Decided(run: seq<Action>, s: State, i: nat)
    requires i < |run|
  {
    var id := Allocations(run[..i]);
    Allocates(run[i]) ==>
      && (forall t :: ToRecord(s, t, id) <==> t == run[i].tid && Decision(run, i).None?)
      && (id in s.recorded <==> Decision(run, i) == Some(true))
  }

  ghost predicate MadeAt(run: seq<Action>, i: nat, a: Addr, id: AllocId)
  {
    i < |run| && Allocates(run[i]) && NewAddr(run[i]) == a && Allocations(run[..i]) == id
  }

  ghost predicate Numbered(run: seq<Action>, s: State)
  {
    && s.next == Allocations(run)
    && (forall t, id: AllocId :: ToRecord(s, t, id) ==> id < s.next)
    && (forall id :: id in s.recorded ==> id < s.next)
    && (forall a :: a in s.heap ==> exists i: nat :: MadeAt(run, i, a, s.heap[a]))
  }

  lemma {:induction false} Earlier(run: seq<Action>, i: nat)
    requires i < |run| && Allocates(run[i])
    ensures Allocations(run[..i]) < Allocations(run)
  {
    var n := |run| - 1;
    if i < n {
      Earlier(run[..n], i);
      assert run[..n][..i] == run[..i];
    }
  }

  lemma MadeAtKept(run: seq<Action>, b: Action, i: nat, a: Addr, id: AllocId)
    requires MadeAt(run, i, a, id)
    ensures MadeAt(run + [b], i, a, id)
  {
    assert (run + [b])[..i] == run[..i];
  }

  lemma StepBooks(s: State, a: Action)
    requires Enabled(s, a)
    ensures var s' := Do(s, a);
      && s'.next == s.next + (if Allocates(a) then 1 else 0)
      && (forall x :: x in s'.heap && !(Allocates(a) && x == NewAddr(a)) ==> x in s.heap && s'.heap[x] == s.heap[x])
      && (Allocates(a) ==> NewAddr(a) in s'.heap && s'.heap[NewAddr(a)] == s.next)
      && (forall t, id: AllocId :: ToRecord(s', t, id) <==>
            (ToRecord(s, t, id) && !(a.Record? && t == a.tid)) || (Allocates(a) && t == a.tid && id == s.next))
      && s'.recorded == s.recorded + if a.Record? && a.sampled then {Pc(s, a.tid).id} else {}
  {
    var s' := Do(s, a);
    forall t, id: AllocId
      ensures ToRecord(s', t, id) <==>
        (ToRecord(s, t, id) && !(a.Record? && t == a.tid)) || (Allocates(a) && t == a.tid && id == s.next)
    {
      if t != a.tid { assert Pc(s', t) == Pc(s, t); }
    }
  }

  lemma NumberedStep(run: seq<Action>, s: State, a: Action)
    requires Numbered(run, s) && Enabled(s, a)
    ensures Numbered(run + [a], Do(s, a))
  {
    StepBooks(s, a);
    var run', s' := run + [a], Do(s, a);
    assert run'[..|run|] == run;
    hide Do, Enabled;
    if a.Record? {
      assert Pc(s, a.tid).Recording? ==> ToRecord(s, a.tid, Pc(s, a.tid).id);
    }
    forall x | x in s'.heap ensures exists i: nat :: MadeAt(run', i, x, s'.heap[x]) {
      if Allocates(a) && x == NewAddr(a) {
        assert MadeAt(run', |run|, x, s'.heap[x]);
      } else {
        var i: nat :| MadeAt(run, i, x, s.heap[x]);
        MadeAtKept(run, a, i, x, s.heap[x]);
      }
    }
  }

  lemma DecisionStep(run: seq<Action>, a: Action, i: nat)
    requires i < |run|
    ensures Decision(run + [a], i)
         == if Decision(run, i).Some? then Decision(run, i)
            else if a.Record? && a.tid == run[i].tid then Some(a.sampled) else None
  {
    assert (run + [a])[..|run|] == run;
  }

  lemma DecidedStep(run: seq<Action>, s: State, a: Action, i: nat)
    requires Numbered(run, s) && Enabled(s, a) && i < |run| && Decided(run, s, i)
    ensures Decided(run + [a], Do(s, a), i)
  {
    StepBooks(s, a);
    DecisionStep(run, a, i);
    var run', s' := run + [a], Do(s, a);
    assert run'[..i] == run[..i] && run'[i] == run[i];
    if Allocates(run[i]) {
      Earlier(run, i);
      var id := Allocations(run[..i]);
      if a.Record? {
        assert Pc(s, a.tid).Recording? && ToRecord(s, a.tid, Pc(s, a.tid).id);
        assert ToRecord(s, a.tid, id) <==> Pc(s, a.tid).id == id;
      }
      hide Do, Allocations, Allocates, Decision, ToRecord, Enabled;
      assert id in s'.recorded <==> Decision(run', i) == Some(true);
      assert forall t :: ToRecord(s', t, id) <==> t == run[i].tid && Decision(run', i).None?;
    }
  }

  lemma NewDecided(run: seq<Action>, s: State, a: Action)
    requires Numbered(run, s) && Enabled(s, a)
    ensures Decided(run + [a], Do(s, a), |run|)
  {
    StepBooks(s, a);
    assert (run + [a])[..|run|] == run;
    hide Do, Enabled;
  }

  lemma NothingNumbered()
    ensures Numbered([], INIT)
  {}

  lemma {:induction false} EveryRunDecided(run: seq<Action>)
    requires Legal(run)
    ensures Numbered(run, After(run)) && forall i :: 0 <= i < |run| ==> Decided(run, After(run), i)
  {
    hide Do, Enabled, Decided, Numbered;
    if run == [] {
      NothingNumbered();
    } else {
      var p, a := run[..|run| - 1], run[|run| - 1];
      EveryRunDecided(p);
      assert run == p + [a];
      NumberedStep(p, After(p), a);
      NewDecided(p, After(p), a);
      forall i | 0 <= i < |run| - 1 ensures Decided(run, After(run), i) {
        DecidedStep(p, After(p), a, i);
      }
    }
  }

  /** So, in terms of the calls: what is at an allocated address was put there by one step
      of the run, and the address is tracked by its own record, unless it is on its way out,
      if and only if the Record step of that call was sampled and no step lost the record. */
  lemma SampledStaysTracked(run: seq<Action>, a: Addr) returns (i: nat)
    requires Legal(run) && a in After(run).heap && !Leaving(After(run), a)
    ensures MadeAt(run, i, a, After(run).heap[a])
    ensures Tracks(After(run), a) <==> Decision(run, i) == Some(true) && After(run).heap[a] !in Forgotten(run)
  {
    EveryRunDecided(run);
    RecordedStaysTracked(run, a);
    var s := After(run);
    i :| MadeAt(run, i, a, s.heap[a]);
    assert Decided(run, s, i);
  }

  // ---- the cases outside ---------------------------------------------------

  lemma Extend(run: seq<Action>, s: State, a: Action) returns (more: seq<Action>)
    requires Legal(run) && After(run) == s && Enabled(s, a)
    ensures more == run + [a] && Legal(more) && After(more) == Do(s, a)
  {
    more := run + [a];
    assert more[..|more| - 1] == run;
  }

  /** mremap moves the mapping first and deletes the entry afterwards. In between, the
      old address can be handed out again: thread 2's mapping, not sampled, has thread
      1's record, until thread 1 goes on. */
  lemma MremapIsUnfaithful() returns (run: seq<Action>)
    ensures Legal(run) && Pc(After(run), 2).Idle?
    ensures 4096 in After(run).table && 4096 in After(run).heap && After(run).table[4096] != After(run).heap[4096]
  {
    var s1 := Do(INIT, Allocate(1, 4096));
    var s2 := Do(s1, Record(1, true));
    var s3 := Do(s2, Move(1, 4096, 8192));
    var s4 := Do(s3, Allocate(2, 4096));
    var r1 := Extend([], INIT, Allocate(1, 4096));
    var r2 := Extend(r1, s1, Record(1, true));
    var r3 := Extend(r2, s2, Move(1, 4096, 8192));
    var r4 := Extend(r3, s3, Allocate(2, 4096));
    run := Extend(r4, s4, Record(2, false));
  }

  lemma OwnedWhenIdle(s: State, a: Addr)
    requires a in s.heap && forall t :: Pc(s, t).Idle?
    ensures Owned(s, a)
  {}

  /** If thread 2's mapping is sampled, thread 1's late deletion loses its record. */
  lemma MremapForgetsTheNewOwner() returns (run: seq<Action>)
    ensures Legal(run) && Pc(After(run), 2).Idle? && !Leaving(After(run), 4096)
    ensures 4096 in After(run).heap && After(run).heap[4096] in After(run).recorded && 4096 !in After(run).table
  {
    hide Owned, Forgets;
    var s1 := Do(INIT, Allocate(1, 4096));
    var s2 := Do(s1, Record(1, false));
    assert Owned(s2, 4096) by { OwnedWhenIdle(s2, 4096); }
    var s3 := Do(s2, Move(1, 4096, 8192));
    var s4 := Do(s3, Allocate(2, 4096));
    var s5 := Do(s4, Record(2, true));
    var r1 := Extend([], INIT, Allocate(1, 4096));
    var r2 := Extend(r1, s1, Record(1, false));
    var r3 := Extend(r2, s2, Move(1, 4096, 8192));
    var r4 := Extend(r3, s3, Allocate(2, 4096));
    var r5 := Extend(r4, s4, Record(2, true));
    hide Legal, After;
    run := Extend(r5, s5, DeleteSource(1));
  }

  /** A realloc that fails keeps the block, but its record is gone. */
  lemma FailedReallocIsForgotten() returns (run: seq<Action>)
    ensures Legal(run) && forall t :: Pc(After(run), t).Idle?
    ensures 4096 in After(run).heap && After(run).heap[4096] in After(run).recorded && 4096 !in After(run).table
  {
    var s1 := Do(INIT, Allocate(1, 4096));
    var s2 := Do(s1, Record(1, true));
    var s3 := Do(s2, DeleteForResize(1, 4096));
    var r1 := Extend([], INIT, Allocate(1, 4096));
    var r2 := Extend(r1, s1, Record(1, true));
    var r3 := Extend(r2, s2, DeleteForResize(1, 4096));
    run := Extend(r3, s3, Resize(1, None, false));
  }
}
