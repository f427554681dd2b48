/** The accounting that the control-plane profiler keeps on top of its live set
    (src/profiler/shm_profiler.c, lines 444-457 and 498-582), as a function of the
    events seen so far, and what holds of it over every run. `live_bytes` is a
    64-bit counter and wraps; sizes are 32-bit. */
module Accounting {
  import opened Wrappers
  import opened Arithmetic
  import opened LiveTable
  import opened MapSums

  const WORD := 0x1_0000_0000_0000_0000   // 2^64

  type UInt32 = n: nat | n < 0x1_0000_0000

  datatype Event =
    | MapEvent(op: string, name: Option<string>, addr: Addr, size: UInt32, flags: int, ret: int,
               pg: Option<string>, t: int)
    | UnmapEvent(addr: Addr, ret: int, t: int)

  datatype Stats = Stats(
    live: map<Addr, Info>, liveBytes: nat, peakCount: nat, peakBytes: nat,
    mapCalls: nat, mapFailures: nat, unmaps: nat, unmatched: nat)

  const START := Stats(map[], 0, 0, 0, 0, 0, 0, 0)

  /** The value of a 64-bit counter. */
  function Wrap(n: int): (r: nat)
    ensures r < WORD
  {
    n % WORD
  }

  lemma WrapAdd(n: int, d: int)
    ensures Wrap(Wrap(n) + d) == Wrap(n + d)
  {
    assert n + d == (n % WORD + d) + (n / WORD) * WORD;
  }

  lemma WrapSmall(n: nat)
    requires n < WORD
    ensures Wrap(n) == n
  {}

  /** A map call enters the live set when it returned no error and an address. */
  predicate Tracked(e: Event)
  {
    e.MapEvent? && e.ret >= 0 && e.addr != 0
  }

  /** One event. Re-mapping a live address replaces its entry but adds the new
      size to liveBytes without taking the old one off. */
  function Step(s: Stats, e: Event): Stats
  {
    match e
    case MapEvent(_, name, addr, size, _, ret, _, t) =>
      var s1 := s.(mapCalls := s.mapCalls + 1, mapFailures := s.mapFailures + if ret < 0 then 1 else 0);
      if !Tracked(e) then s1
      else
        var live := s.live[addr := Info(name, size, t)];
        var bytes := Wrap(s.liveBytes + size);
        s1.(live := live, liveBytes := bytes,
            peakCount := Max(s.peakCount, |live|), peakBytes := Max(s.peakBytes, bytes))
    case UnmapEvent(addr, _, _) =>
      var s1 := s.(unmaps := s.unmaps + 1);
      if addr in s.live then
        s1.(live := s.live - {addr}, liveBytes := Wrap(s.liveBytes - s.live[addr].size))
      else
        s1.(unmatched := s.unmatched + 1)
  }

  predicate InTimeOrder(evs: seq<Event>)
  {
    forall i, j :: 0 <= i < j < |evs| ==> evs[i].t <= evs[j].t
  }

  function Run(evs: seq<Event>): Stats
  {
    if evs == [] then START else Step(Run(evs[..|evs| - 1]), evs[|evs| - 1])
  }

  lemma RunUnfold(evs: seq<Event>)
    requires evs != []
    ensures Run(evs) == Step(Run(evs[..|evs| - 1]), evs[|evs| - 1])
  {}

  // ---- what is written to the log ------------------------------------------

  datatype Hit = Hit(name: Option<string>, size: nat, lifetime: int)

  datatype Line =
    | EventLine(e: Event, hit: Option<Hit>, liveCount: nat, liveBytes: nat)
    | ExitLine(addr: Addr, name: Option<string>, size: nat, age: int, t: int)
    | SummaryLine(t: int, peakCount: nat, peakBytes: nat, mapCalls: nat, mapFailures: nat,
                  unmaps: nat, unmatched: nat, stillLive: nat)

  predicate IsMatch(s: Stats, e: Event)
  {
    e.UnmapEvent? && e.addr in s.live
  }

  /** The JSONL line of event e, written after the update. */
  function LineOf(s: Stats, e: Event): (line: Line)
    ensures line.EventLine? && line.e == e
  {
    EventLine(
      e, if IsMatch(s, e) then Some(Hit(s.live[e.addr].name, s.live[e.addr].size, e.t - s.live[e.addr].tMap)) else None,
      |Step(s, e).live|, Step(s, e).liveBytes)
  }

  function SummaryOf(s: Stats, t: int): Line
  {
    SummaryLine(t, s.peakCount, s.peakBytes, s.mapCalls, s.mapFailures, s.unmaps, s.unmatched, |s.live|)
  }

  function LinesOf(evs: seq<Event>): (lines: seq<Line>)
    ensures |lines| == |evs|
  {
    if evs == [] then []
    else LinesOf(evs[..|evs| - 1]) + [LineOf(Run(evs[..|evs| - 1]), evs[|evs| - 1])]
  }

  function ExitLineOf(a: Addr, x: Info, t: int): Line
  {
    ExitLine(a, x.name, x.size, t - x.tMap, t)
  }

  /** `lines` lists the live map: one line an entry, no entry twice, none missing. */
  ghost predicate Lists(lines: seq<Line>, live: map<Addr, Info>, t: int)
  {
    && |lines| == |live|
    && (forall i :: 0 <= i < |lines| ==> lines[i].ExitLine? && lines[i].addr in live)
    && (forall i :: 0 <= i < |lines| ==> lines[i] == ExitLineOf(lines[i].addr, live[lines[i].addr], t))
    && (forall i, j :: 0 <= i < j < |lines| ==> lines[i].addr != lines[j].addr)
    && (forall a :: a in live ==> exists i :: 0 <= i < |lines| && lines[i].addr == a)
  }

  // ---- quantities the profiler does not store ------------------------------

  ghost function LiveSizes(live: map<Addr, Info>): nat
  {
    Sum(live, (x: Info) => x.size)
  }

  predicate IsRemap(s: Stats, e: Event)
  {
    Tracked(e) && e.addr in s.live
  }

  /** Bytes of entries replaced by a map of an address that was still live. */
  ghost function Overwritten(evs: seq<Event>): nat
  {
    if evs == [] then 0
    else
      var p, e := evs[..|evs| - 1], evs[|evs| - 1];
      Overwritten(p) + if IsRemap(Run(p), e) then Run(p).live[e.addr].size else 0
  }

  ghost function Remaps(evs: seq<Event>): nat
  {
    if evs == [] then 0
    else Remaps(evs[..|evs| - 1]) + if IsRemap(Run(evs[..|evs| - 1]), evs[|evs| - 1]) then 1 else 0
  }

  ghost function Matches(evs: seq<Event>): nat
  {
    if evs == [] then 0
    else Matches(evs[..|evs| - 1]) + if IsMatch(Run(evs[..|evs| - 1]), evs[|evs| - 1]) then 1 else 0
  }

  ghost function Accepted(evs: seq<Event>): nat
  {
    if evs == [] then 0 else Accepted(evs[..|evs| - 1]) + if Tracked(evs[|evs| - 1]) then 1 else 0
  }

  ghost function MappedBytes(evs: seq<Event>): nat
  {
    if evs == [] then 0
    else MappedBytes(evs[..|evs| - 1]) + if Tracked(evs[|evs| - 1]) then evs[|evs| - 1].size else 0
  }

  // ---- over every run ------------------------------------------------------

  lemma LiveBytesStep(s: Stats, e: Event, over: nat)
    requires s.liveBytes == Wrap(LiveSizes(s.live) + over)
    ensures var over' := over + if IsRemap(s, e) then s.live[e.addr].size else 0;
      && Step(s, e).liveBytes == Wrap(LiveSizes(Step(s, e).live) + over')
      && LiveSizes(Step(s, e).live) + over' <= LiveSizes(s.live) + over + if Tracked(e) then e.size else 0
  {
    hide Wrap, Sum;
    var weight := (x: Info) => x.size;
    if Tracked(e) {
      WrapAdd(LiveSizes(s.live) + over, e.size);
      SumAfterPut(s.live, weight, e.addr, Info(e.name, e.size, e.t));
    } else if IsMatch(s, e) {
      WrapAdd(LiveSizes(s.live) + over, 0 - s.live[e.addr].size);
      SumWithout(s.live, weight, e.addr);
    }
  }

  /** liveBytes is, modulo 2^64, the bytes still live plus the bytes that re-maps
      have replaced without an unmap; and neither exceeds what was mapped. */
  lemma {:induction false} LiveBytesConserved(evs: seq<Event>)
    ensures Run(evs).liveBytes == Wrap(LiveSizes(Run(evs).live) + Overwritten(evs))
    ensures LiveSizes(Run(evs).live) + Overwritten(evs) <= MappedBytes(evs)
  {
    if evs == [] {
      WrapSmall(0);
    } else {
      var p, e := evs[..|evs| - 1], evs[|evs| - 1];
      LiveBytesConserved(p);
      LiveBytesStep(Run(p), e, Overwritten(p));
    }
  }

  lemma {:induction false} MappedBytesBound(evs: seq<Event>)
    ensures MappedBytes(evs) <= |evs| * 0xFFFF_FFFF
  {
    if evs != [] {
      MappedBytesBound(evs[..|evs| - 1]);
    }
  }

  /** As long as fewer than 2^64 bytes were mapped in all - so for any run of at
      most 2^32 events - nothing wraps: liveBytes is exact, and the size taken off
      by a matched unmap never exceeds it. */
  lemma LiveBytesExact(evs: seq<Event>)
    requires MappedBytes(evs) < WORD || |evs| <= 0x1_0000_0000
    ensures Run(evs).liveBytes == LiveSizes(Run(evs).live) + Overwritten(evs) <= MappedBytes(evs) < WORD
    ensures forall a :: a in Run(evs).live ==> Run(evs).live[a].size <= Run(evs).liveBytes
  {
    hide Wrap;
    LiveBytesConserved(evs);
    MappedBytesBound(evs);
    WrapSmall(LiveSizes(Run(evs).live) + Overwritten(evs));
    forall a | a in Run(evs).live ensures Run(evs).live[a].size <= LiveSizes(Run(evs).live) {
      SumWithout(Run(evs).live, (x: Info) => x.size, a);
    }
  }

  lemma {:induction false} MappedBytesMonotone(evs: seq<Event>, k: nat)
    requires k <= |evs|
    ensures MappedBytes(evs[..k]) <= MappedBytes(evs)
  {
    if k < |evs| {
      MappedBytesMonotone(evs[..|evs| - 1], k);
      assert evs[..|evs| - 1][..k] == evs[..k];
    } else {
      assert evs[..k] == evs;
    }
  }

  lemma PeakCountStep(s: Stats, e: Event)
    requires |s.live| <= s.peakCount
    ensures Step(s, e).peakCount == Max(s.peakCount, |Step(s, e).live|)
  {
    if IsMatch(s, e) {
      SubsetSize((s.live - {e.addr}).Keys, s.live.Keys);
    }
  }

  lemma PeakCountOneMore(evs: seq<Event>)
    requires evs != []
    requires var p := evs[..|evs| - 1];
      && (forall k :: 0 <= k <= |p| ==> |Run(p[..k]).live| <= Run(p).peakCount)
      && (exists k :: 0 <= k <= |p| && |Run(p[..k]).live| == Run(p).peakCount)
    ensures forall k :: 0 <= k <= |evs| ==> |Run(evs[..k]).live| <= Run(evs).peakCount
    ensures exists k :: 0 <= k <= |evs| && |Run(evs[..k]).live| == Run(evs).peakCount
  {
    hide Run, Step;
    var n := |evs|;
    var p := evs[..n - 1];
    RunUnfold(evs);
    assert evs[..n] == evs && p[..n - 1] == p;
    PeakCountStep(Run(p), evs[n - 1]);
    forall k | 0 <= k <= n ensures |Run(evs[..k]).live| <= Run(evs).peakCount {
      if k < n { assert evs[..k] == p[..k]; }
    }
    var k :| 0 <= k <= n - 1 && |Run(p[..k]).live| == Run(p).peakCount;
    assert evs[..k] == p[..k];
    assert |Run(evs[..n]).live| == Run(evs).peakCount || |Run(evs[..k]).live| == Run(evs).peakCount;
  }

  /** peakCount is the largest number of live entries after any prefix. */
  lemma {:induction false} PeakCountIsMaximum(evs: seq<Event>)
    ensures forall k :: 0 <= k <= |evs| ==> |Run(evs[..k]).live| <= Run(evs).peakCount
    ensures exists k :: 0 <= k <= |evs| && |Run(evs[..k]).live| == Run(evs).peakCount
  {
    if evs == [] {
      assert |Run(evs[..0]).live| == 0;
    } else {
      PeakCountIsMaximum(evs[..|evs| - 1]);
      PeakCountOneMore(evs);
    }
  }

  lemma PeakBytesStep(s: Stats, e: Event)
    requires s.liveBytes <= s.peakBytes && s.liveBytes < WORD
    requires forall a :: a in s.live ==> s.live[a].size <= s.liveBytes
    ensures Step(s, e).peakBytes == Max(s.peakBytes, Step(s, e).liveBytes)
  {
    if IsMatch(s, e) {
      WrapSmall(s.liveBytes - s.live[e.addr].size);
    }
  }

  lemma PeakBytesOneMore(evs: seq<Event>)
    requires evs != [] && MappedBytes(evs[..|evs| - 1]) < WORD
    requires var p := evs[..|evs| - 1];
      && (forall k :: 0 <= k <= |p| ==> Run(p[..k]).liveBytes <= Run(p).peakBytes)
      && (exists k :: 0 <= k <= |p| && Run(p[..k]).liveBytes == Run(p).peakBytes)
    ensures forall k :: 0 <= k <= |evs| ==> Run(evs[..k]).liveBytes <= Run(evs).peakBytes
    ensures exists k :: 0 <= k <= |evs| && Run(evs[..k]).liveBytes == Run(evs).peakBytes
  {
    hide Run, Step, Wrap, MappedBytes, LiveSizes, Overwritten;
    var n := |evs|;
    var p := evs[..n - 1];
    RunUnfold(evs);
    LiveBytesExact(p);
    assert evs[..n] == evs && p[..n - 1] == p;
    PeakBytesStep(Run(p), evs[n - 1]);
    forall k | 0 <= k <= n ensures Run(evs[..k]).liveBytes <= Run(evs).peakBytes {
      if k < n { assert evs[..k] == p[..k]; }
    }
    var k :| 0 <= k <= n - 1 && Run(p[..k]).liveBytes == Run(p).peakBytes;
    assert evs[..k] == p[..k];
    assert Run(evs[..n]).liveBytes == Run(evs).peakBytes || Run(evs[..k]).liveBytes == Run(evs).peakBytes;
  }

  /** peakBytes is the largest value of liveBytes after any prefix. */
  lemma {:induction false} PeakBytesIsMaximum(evs: seq<Event>)
    requires MappedBytes(evs) < WORD
    ensures forall k :: 0 <= k <= |evs| ==> Run(evs[..k]).liveBytes <= Run(evs).peakBytes
    ensures exists k :: 0 <= k <= |evs| && Run(evs[..k]).liveBytes == Run(evs).peakBytes
  {
    if evs == [] {
      assert Run(evs[..0]).liveBytes == 0;
    } else {
      var n := |evs|;
      var p := evs[..n - 1];
      MappedBytesMonotone(evs, n - 1);
      PeakBytesIsMaximum(p);
      PeakBytesOneMore(evs);
    }
  }

  lemma SizeAfterPut<K, V>(m: map<K, V>, k: K, v: V)
    ensures |m[k := v]| == |m| + if k in m then 0 else 1
  {
    assert m[k := v].Keys == m.Keys + {k};
  }

  /** Every accepted map is still live, was unmapped, or was replaced; every unmap
      matched or was counted as unmatched. */
  lemma {:induction false} EveryMapAccountedFor(evs: seq<Event>)
    ensures Accepted(evs) == Matches(evs) + Remaps(evs) + |Run(evs).live|
    ensures Run(evs).unmaps == Matches(evs) + Run(evs).unmatched
    ensures Run(evs).mapCalls + Run(evs).unmaps == |evs|
  {
    if evs != [] {
      var p, e := evs[..|evs| - 1], evs[|evs| - 1];
      EveryMapAccountedFor(p);
      var live: map<Addr, Info> := Run(p).live;
      if Tracked(e) {
        SizeAfterPut(live, e.addr, Info(e.name, e.size, e.t));
      } else if IsMatch(Run(p), e) {
        SizeAfterPut(live - {e.addr}, e.addr, live[e.addr]);
        assert (live - {e.addr})[e.addr := live[e.addr]] == live;
      }
    }
  }

  /** The call counters count the calls. */
  lemma {:induction false} CountersCountCalls(evs: seq<Event>)
    ensures Run(evs).mapCalls == Count(evs, (e: Event) => e.MapEvent?)
    ensures Run(evs).mapFailures == Count(evs, (e: Event) => e.MapEvent? && e.ret < 0)
    ensures Run(evs).unmaps == Count(evs, (e: Event) => e.UnmapEvent?)
  {
    if evs != [] {
      CountersCountCalls(evs[..|evs| - 1]);
    }
  }

  /** Event e decides whether address a is live from then on. */
  predicate Touches(e: Event, a: Addr)
  {
    (Tracked(e) || e.UnmapEvent?) && e.addr == a
  }

  /** Event k is the last one to touch address a. */
  ghost predicate Latest(evs: seq<Event>, a: Addr, k: nat)
  {
    k < |evs| && Touches(evs[k], a) && forall j :: k < j < |evs| ==> !Touches(evs[j], a)
  }

  lemma SameLatest(evs: seq<Event>, a: Addr, k: nat)
    requires evs != [] && !Touches(evs[|evs| - 1], a)
    ensures Latest(evs, a, k) <==> Latest(evs[..|evs| - 1], a, k)
  {
    hide Touches;
    assert forall j :: 0 <= j < |evs| - 1 ==> evs[..|evs| - 1][j] == evs[j];
  }

  lemma LiveStep(s: Stats, e: Event, a: Addr)
    ensures Touches(e, a) && e.MapEvent? ==> a in Step(s, e).live && Step(s, e).live[a] == Info(e.name, e.size, e.t)
    ensures Touches(e, a) && e.UnmapEvent? ==> a !in Step(s, e).live
    ensures !Touches(e, a) ==> (a in Step(s, e).live <==> a in s.live)
    ensures !Touches(e, a) && a in s.live ==> Step(s, e).live[a] == s.live[a]
  {
    hide Wrap, Max;
  }

  /** An address is live exactly if the last event to touch it was an accepted map,
      and its entry holds that event's name, size and time. */
  lemma {:induction false} LiveIsLatestMap(evs: seq<Event>, a: Addr)
    ensures a in Run(evs).live <==> exists k: nat :: Latest(evs, a, k) && evs[k].MapEvent?
    ensures forall k: nat :: Latest(evs, a, k) && evs[k].MapEvent? ==>
              a in Run(evs).live && Run(evs).live[a] == Info(evs[k].name, evs[k].size, evs[k].t)
  {
    if evs != [] {
      var n := |evs| - 1;
      var p, e := evs[..n], evs[n];
      LiveIsLatestMap(p, a);
      RunUnfold(evs);
      LiveStep(Run(p), e, a);
      hide Run, Step;
      if Touches(e, a) {
        assert Latest(evs, a, n);
        assert forall k: nat :: Latest(evs, a, k) ==> k == n;
      } else {
        forall k: nat ensures Latest(evs, a, k) <==> Latest(p, a, k) {
          SameLatest(evs, a, k);
        }
        assert forall k: nat :: Latest(p, a, k) ==> p[k] == evs[k];
      }
    }
  }

  /** What the line of event e, after the events before it, says of the entry it took out:
      nothing unless e is an unmap and a map was the last event to touch its address;
      otherwise that map's name and size, and the time since. */
  ghost predicate IsHit(hit: Option<Hit>, evs: seq<Event>, e: Event)
  {
    && (hit.Some? <==> e.UnmapEvent? && exists k: nat :: Latest(evs, e.addr, k) && evs[k].MapEvent?)
    && (forall k: nat :: hit.Some? && Latest(evs, e.addr, k) ==>
          && hit.value.name == evs[k].name && hit.value.size == evs[k].size
          && hit.value.lifetime == e.t - evs[k].t)
  }

  lemma LatestIsUnique(evs: seq<Event>, a: Addr, j: nat, k: nat)
    requires Latest(evs, a, j) && Latest(evs, a, k)
    ensures j == k
  {
    hide Touches;
  }

  lemma HitIsLatestMap(evs: seq<Event>, e: Event)
    ensures IsHit(LineOf(Run(evs), e).hit, evs, e)
  {
    LiveIsLatestMap(evs, e.addr);
    hide Run, Step, Touches;
    forall j: nat, k: nat | Latest(evs, e.addr, j) && Latest(evs, e.addr, k) ensures j == k {
      LatestIsUnique(evs, e.addr, j, k);
    }
  }

  /** What the exit handler's lines say: there is one for each address that a map was the
      last event to touch, with that map's name and size and the time since. */
  ghost predicate ListsLatestMaps(lines: seq<Line>, evs: seq<Event>, t: int)
  {
    && (forall i :: 0 <= i < |lines| ==> lines[i].ExitLine? && lines[i].t == t)
    && (forall i, j :: 0 <= i < j < |lines| ==> lines[i].addr != lines[j].addr)
    && (forall a: Addr, k: nat :: Latest(evs, a, k) && evs[k].MapEvent? ==>
          exists i :: 0 <= i < |lines| && lines[i].addr == a)
    && (forall i :: 0 <= i < |lines| ==>
          exists k: nat :: Latest(evs, lines[i].addr, k) && evs[k].MapEvent?
            && lines[i].name == evs[k].name && lines[i].size == evs[k].size && lines[i].age == t - evs[k].t)
  }

  lemma ExitLinesAreLatestMaps(evs: seq<Event>, lines: seq<Line>, t: int)
    requires Lists(lines, Run(evs).live, t)
    ensures ListsLatestMaps(lines, evs, t)
  {
    hide Run, Touches;
    forall a: Addr, k: nat | Latest(evs, a, k) && evs[k].MapEvent?
      ensures exists i :: 0 <= i < |lines| && lines[i].addr == a
    {
      LiveIsLatestMap(evs, a);
    }
    forall i | 0 <= i < |lines|
      ensures exists k: nat :: Latest(evs, lines[i].addr, k) && evs[k].MapEvent?
                && lines[i].name == evs[k].name && lines[i].size == evs[k].size && lines[i].age == t - evs[k].t
    {
      LiveIsLatestMap(evs, lines[i].addr);
    }
  }

  /** What the summary after a run of events says, field by field. */
  ghost predicate Summarizes(m: Line, evs: seq<Event>, t: int)
  {
    && m.SummaryLine? && m.t == t
    && (forall k :: 0 <= k <= |evs| ==> |Run(evs[..k]).live| <= m.peakCount)
    && (exists k :: 0 <= k <= |evs| && |Run(evs[..k]).live| == m.peakCount)
    && (MappedBytes(evs) < WORD ==>
          && (forall k :: 0 <= k <= |evs| ==> Run(evs[..k]).liveBytes <= m.peakBytes)
          && (exists k :: 0 <= k <= |evs| && Run(evs[..k]).liveBytes == m.peakBytes))
    && m.mapCalls == Count(evs, (e: Event) => e.MapEvent?)
    && m.mapFailures == Count(evs, (e: Event) => e.MapEvent? && e.ret < 0)
    && m.unmaps == Count(evs, (e: Event) => e.UnmapEvent?)
    && m.unmatched == m.unmaps - Matches(evs)
    && m.stillLive == |Run(evs).live|
  }

  lemma SummaryIsExact(evs: seq<Event>, t: int)
    ensures Summarizes(SummaryOf(Run(evs), t), evs, t)
  {
    PeakCountIsMaximum(evs);
    if MappedBytes(evs) < WORD {
      PeakBytesIsMaximum(evs);
    }
    CountersCountCalls(evs);
    EveryMapAccountedFor(evs);
    hide Run, Step, Matches, MappedBytes, Count;
  }

  lemma ListsOneMore(lines: seq<Line>, live: map<Addr, Info>, t: int, a: Addr, x: Info)
    requires Lists(lines, live, t) && a !in live
    ensures Lists(lines + [ExitLineOf(a, x, t)], live[a := x], t)
  {
    var more, live' := lines + [ExitLineOf(a, x, t)], live[a := x];
    SizeAfterPut(live, a, x);
    forall b | b in live' ensures exists i :: 0 <= i < |more| && more[i].addr == b {
      if b == a {
        assert more[|lines|].addr == b;
      } else {
        var i :| 0 <= i < |lines| && lines[i].addr == b;
        assert more[i].addr == b;
      }
    }
  }

  /** NULL never enters the live set, so an unmap of NULL is always unmatched. */
  lemma {:induction false} NullNeverLive(evs: seq<Event>)
    ensures 0 !in Run(evs).live
  {
    if evs != [] {
      NullNeverLive(evs[..|evs| - 1]);
    }
  }
}
