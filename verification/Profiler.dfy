/** The control-plane profiler object (src/profiler/shm_profiler.c, lines 444-621):
    the global `g` with its live table, updated in place, against the accounting of
    module Accounting. Everything here runs with the lock held; module SpinLock
    deals with the lock. A clock reading is a parameter. */
module Profiler {
  import opened Wrappers
  import opened Arithmetic
  import opened LiveTable
  import opened Accounting

  lemma NothingListed(t: int)
    ensures UniqueKeys([]) && Lists([], Contents([]), t)
  {
    assert Contents([]).Keys == {};
  }

  class Recorder {
    const hash: Addr -> nat
    const canOpen: bool      // whether opening the output file succeeds
    var fdOpen: bool
    var table: Table?        // null until the first event
    var liveBytes: nat
    var peakCount: nat
    var peakBytes: nat
    var mapCalls: nat
    var mapFailures: nat
    var unmaps: nat
    var unmatched: nat
    var log: seq<Line>

    /** The objects besides `this`: the table and its slots, once there is a table. */
    ghost function Footprint(): set<object?>
      reads this, if table == null then {} else {table}
    {
      if table == null then {} else {table, table.slots}
    }

    ghost function Counters(live: map<Addr, Info>): Stats
      reads this
    {
      Stats(live, liveBytes, peakCount, peakBytes, mapCalls, mapFailures, unmaps, unmatched)
    }

    ghost predicate Valid()
      reads this, if table == null then {} else {table, table.slots}
    {
      if table == null then !fdOpen && Counters(map[]) == START else table.Valid()
    }

    ghost function State(): Stats
      requires Valid()
      reads this, if table == null then {} else {table, table.slots}
    {
      Counters(if table == null then map[] else table.Live())
    }

    constructor (hash: Addr -> nat, canOpen: bool)
      ensures Valid() && State() == START && log == [] && table == null
    {
      this.hash, this.canOpen, fdOpen, table := hash, canOpen, false, null;
      liveBytes, peakCount, peakBytes, mapCalls, mapFailures, unmaps, unmatched := 0, 0, 0, 0, 0, 0, 0;
      log := [];
    }

    method EnsureInit()
      requires Valid()
      modifies this`table, this`fdOpen
      ensures Valid() && table != null && State() == old(State())
      ensures old(table) != null ==> table == old(table) && fdOpen == old(fdOpen)
      ensures log == old(log)
      ensures old(table) == null ==> fdOpen == canOpen && fresh(table) && fresh(table.slots)
    {
      if table == null {
        table := new Table(hash);
        fdOpen := canOpen;
      }
    }

    /** The accepted map of shm_profiler_on_map: table, bytes and peaks. */
    method AddLive(addr: Addr, name: Option<string>, size: UInt32, t: int)
      requires Valid() && table != null
      modifies this`liveBytes, this`peakCount, this`peakBytes, table, table.slots
      ensures Valid() && (table.slots == old(table.slots) || fresh(table.slots))
      ensures State().live == old(State()).live[addr := Info(name, size, t)]
      ensures liveBytes == Wrap(old(liveBytes) + size)
      ensures peakCount == Max(old(peakCount), |State().live|) && peakBytes == Max(old(peakBytes), liveBytes)
    {
      hide Wrap, UniqueKeys, Chained, WellFormed, Contents, CountUsed, CountTombs, Table.Valid, Table.Live;
      table.Put(addr, name, size, t);
      table.CountIsLiveSize();
      liveBytes := Wrap(liveBytes + size);
      if table.count > peakCount {
        peakCount := table.count;
      }
      if liveBytes > peakBytes {
        peakBytes := liveBytes;
      }
    }

    method RecordMap(op: string, name: Option<string>, addr: Addr, size: UInt32, flags: int, ret: int,
                 pg: Option<string>, t: int)
      requires Valid() && table != null
      modifies this, table, table.slots
      ensures Valid() && table == old(table) && (table.slots == old(table.slots) || fresh(table.slots))
      ensures fdOpen == old(fdOpen)
      ensures State() == Step(old(State()), MapEvent(op, name, addr, size, flags, ret, pg, t))
      ensures log == old(log) + if fdOpen
                                then [LineOf(old(State()), MapEvent(op, name, addr, size, flags, ret, pg, t))]
                                else []
    {
      hide Wrap, UniqueKeys, Chained, WellFormed, Contents, CountUsed, CountTombs, Table.Valid, Table.Live;
      mapCalls := mapCalls + 1;
      if ret < 0 {
        mapFailures := mapFailures + 1;
      }
      if ret >= 0 && addr != 0 {
        AddLive(addr, name, size, t);
      }
      table.CountIsLiveSize();
      if fdOpen {
        log := log + [EventLine(MapEvent(op, name, addr, size, flags, ret, pg, t), None, table.count, liveBytes)];
      }
    }

    /** shm_profiler_on_map, from any state; the first call sets the table up. */
    method OnMap(op: string, name: Option<string>, addr: Addr, size: UInt32, flags: int, ret: int,
                 pg: Option<string>, t: int)
      requires Valid()
      modifies this, Footprint()
      ensures Valid() && fresh(Footprint() - old(Footprint()))
      ensures fdOpen == if old(table) == null then canOpen else old(fdOpen)
      ensures State() == Step(old(State()), MapEvent(op, name, addr, size, flags, ret, pg, t))
      ensures log == old(log) + if fdOpen
                                then [LineOf(old(State()), MapEvent(op, name, addr, size, flags, ret, pg, t))]
                                else []
    {
      hide Step, LineOf, Table.Valid;
      EnsureInit();
      RecordMap(op, name, addr, size, flags, ret, pg, t);
    }

    /** The matched unmap: the size goes off liveBytes, the entry out of the table. */
    method DropLive(i: nat)
      requires Valid() && table != null && i < table.slots.Length && table.slots[i].Used?
      modifies this`liveBytes, table, table.slots
      ensures Valid() && table.slots == old(table.slots)
      ensures State().live == old(State()).live - {old(table.slots[i].key)}
      ensures liveBytes == Wrap(old(liveBytes) - old(table.slots[i].info.size))
    {
      hide Wrap, UniqueKeys, Chained, WellFormed, Contents, CountUsed, CountTombs, Table.Live;
      liveBytes := Wrap(liveBytes - table.slots[i].info.size);
      table.Erase(i);
    }

    method RecordUnmap(addr: Addr, ret: int, t: int)
      requires Valid() && table != null
      modifies this, table, table.slots
      ensures Valid() && table == old(table) && table.slots == old(table.slots)
      ensures fdOpen == old(fdOpen)
      ensures State() == Step(old(State()), UnmapEvent(addr, ret, t))
      ensures log == old(log) + if fdOpen then [LineOf(old(State()), UnmapEvent(addr, ret, t))] else []
    {
      hide Wrap, UniqueKeys, Chained, WellFormed, Contents, CountUsed, CountTombs, Table.Valid, Table.Live;
      unmaps := unmaps + 1;
      var e := table.Find(addr);
      if fdOpen {
        var hit: Option<Hit> := None;
        if e.Some? {
          var info := table.slots[e.value].info;
          hit := Some(Hit(info.name, info.size, t - info.tMap));
          DropLive(e.value);
        } else {
          unmatched := unmatched + 1;
        }
        table.CountIsLiveSize();
        log := log + [EventLine(UnmapEvent(addr, ret, t), hit, table.count, liveBytes)];
      } else if e.Some? {
        DropLive(e.value);
      } else {
        unmatched := unmatched + 1;
      }
    }

    /** shm_profiler_on_unmap, from any state; ret is logged but decides nothing. */
    method OnUnmap(addr: Addr, ret: int, t: int)
      requires Valid()
      modifies this, Footprint()
      ensures Valid() && fresh(Footprint() - old(Footprint()))
      ensures fdOpen == if old(table) == null then canOpen else old(fdOpen)
      ensures State() == Step(old(State()), UnmapEvent(addr, ret, t))
      ensures log == old(log) + if fdOpen then [LineOf(old(State()), UnmapEvent(addr, ret, t))] else []
    {
      hide Step, LineOf, Table.Valid;
      EnsureInit();
      RecordUnmap(addr, ret, t);
    }

    /** profiler_atexit: one line for each live entry, then the summary, then the
        file is closed. */
    method AtExit(t: int) returns (ghost exitLines: seq<Line>)
      requires Valid()
      modifies this`fdOpen, this`log
      ensures Valid() && !fdOpen && State() == old(State())
      ensures !old(fdOpen) ==> log == old(log)
      ensures old(fdOpen) ==> log == old(log) + exitLines + [SummaryOf(State(), t)]
      ensures old(fdOpen) ==> Lists(exitLines, State().live, t)
      ensures old(fdOpen) ==>
                var m := log[|log| - 1];
                && m.SummaryLine? && m.t == t && m.peakCount == peakCount && m.peakBytes == peakBytes
                && m.mapCalls == mapCalls && m.mapFailures == mapFailures && m.unmaps == unmaps
                && m.unmatched == unmatched && m.stillLive == |State().live|
    {
      hide UniqueKeys, Chained, Contents, CountUsed, CountTombs, Lists;
      exitLines := [];
      if fdOpen {
        NothingListed(t);
        ghost var s := table.slots[..];
        for i := 0 to table.cap
          invariant table.slots[..] == s && log == old(log) + exitLines
          invariant UniqueKeys(s[..i]) && Lists(exitLines, Contents(s[..i]), t)
        {
          PrefixStep(s, i);
          if table.slots[i].Used? {
            var x := table.slots[i];
            log := log + [ExitLine(x.key, x.info.name, x.info.size, t - x.info.tMap, t)];
            ListsOneMore(exitLines, Contents(s[..i]), t, x.key, x.info);
            exitLines := exitLines + [ExitLineOf(x.key, x.info, t)];
          }
        }
        assert s[..table.cap] == s;
        table.CountIsLiveSize();
        log := log + [SummaryLine(t, peakCount, peakBytes, mapCalls, mapFailures, unmaps, unmatched, table.count)];
        fdOpen := false;
      }
    }
  }
}
