/** The offline replay of the event log (tools/analyze_profile.py, lines 127-131 and
    235-293): group the records by pid, sort each group by time, replay it. */
module Correlate {
  import opened Wrappers
  import opened Arithmetic
  import opened MapSums
  import opened Sorting
  import opened LogUnwrap

  type Pid = Option<string>

  /** A decoded record; an absent key is None. */
  datatype Rec = Rec(event: Option<string>, pid: Pid, ts: Option<int>, addr: Option<string>,
                     ret: Option<int>, size: Option<nat>, name: Option<string>, flags: Option<int>)

  datatype Live = Live(size: nat, ts: Option<int>, name: Option<string>, flags: Option<int>)
  datatype Lifetime = Lifetime(size: nat, ns: int, flags: Option<int>)
  datatype Unfreed = Unfreed(name: Option<string>, size: nat, age: int, flags: Option<int>)

  predicate IsMap(r: Rec)
  {
    r.event == Some("map") || r.event == Some("map_on_pg")
  }

  predicate IsUnmap(r: Rec)
  {
    r.event == Some("unmap")
  }

  predicate Relevant(r: Rec)
  {
    IsMap(r) || IsUnmap(r)
  }

  /** _map_ok: an absent ret counts as success. */
  predicate MapOk(r: Rec)
  {
    r.ret.None? || r.ret.value >= 0
  }

  predicate Accepted(r: Rec)
  {
    IsMap(r) && MapOk(r) && AddrIsReal(r.addr)
  }

  function SizeOf(r: Rec): nat
  {
    if r.size.Some? then r.size.value else 0
  }

  function TimeKey(r: Rec): int
  {
    if r.ts.Some? then r.ts.value else 0
  }

  // ---- the replay of one process -------------------------------------------

  datatype Replay = Replay(live: map<string, Live>, curBytes: int, peakCount: int, peakBytes: int,
                           matched: nat, unmatched: nat, lifetimes: seq<Lifetime>, lastTs: Option<int>)

  const NOTHING := Replay(map[], 0, 0, 0, 0, 0, [], None)

  function Step(s: Replay, r: Rec): Replay
  {
    var s1 := s.(lastTs := if r.ts.Some? then r.ts else s.lastTs);
    if Accepted(r) then
      var a := r.addr.value;
      var live := s.live[a := Live(SizeOf(r), r.ts, r.name, r.flags)];
      var bytes := s.curBytes - (if a in s.live then s.live[a].size else 0) + SizeOf(r);
      s1.(live := live, curBytes := bytes, peakCount := Max(s.peakCount, |live|), peakBytes := Max(s.peakBytes, bytes))
    else if IsUnmap(r) then
      if r.addr.Some? && r.addr.value in s.live then
        var e := s.live[r.addr.value];
        s1.(live := s.live - {r.addr.value}, curBytes := s.curBytes - e.size, matched := s.matched + 1,
            lifetimes := if r.ts.Some? && e.ts.Some?
                         then s.lifetimes + [Lifetime(e.size, r.ts.value - e.ts.value, e.flags)]
                         else s.lifetimes)
      else s1.(unmatched := s.unmatched + 1)
    else s1
  }

  lemma StepCases(s: Replay, r: Rec)
    ensures Accepted(r) ==>
              var bytes := s.curBytes - (if r.addr.value in s.live then s.live[r.addr.value].size else 0) + SizeOf(r);
              var live := s.live[r.addr.value := Live(SizeOf(r), r.ts, r.name, r.flags)];
              Step(s, r) == Replay(live, bytes, Max(s.peakCount, |live|), Max(s.peakBytes, bytes),
                                   s.matched, s.unmatched, s.lifetimes, if r.ts.Some? then r.ts else s.lastTs)
    ensures IsUnmap(r) && r.addr.Some? && r.addr.value in s.live ==>
              var e := s.live[r.addr.value];
              var more := if r.ts.Some? && e.ts.Some? then [Lifetime(e.size, r.ts.value - e.ts.value, e.flags)] else [];
              Step(s, r) == Replay(s.live - {r.addr.value}, s.curBytes - e.size, s.peakCount, s.peakBytes,
                                   s.matched + 1, s.unmatched, s.lifetimes + more,
                                   if r.ts.Some? then r.ts else s.lastTs)
    ensures IsUnmap(r) && !(r.addr.Some? && r.addr.value in s.live) ==>
              Step(s, r) == Replay(s.live, s.curBytes, s.peakCount, s.peakBytes, s.matched, s.unmatched + 1,
                                   s.lifetimes, if r.ts.Some? then r.ts else s.lastTs)
    ensures !Accepted(r) && !IsUnmap(r) ==>
              Step(s, r) == Replay(s.live, s.curBytes, s.peakCount, s.peakBytes, s.matched, s.unmatched,
                                   s.lifetimes, if r.ts.Some? then r.ts else s.lastTs)
  {
    hide AddrIsReal;
  }

  function ReplayAll(evs: seq<Rec>): Replay
  {
    if evs == [] then NOTHING else Step(ReplayAll(evs[..|evs| - 1]), evs[|evs| - 1])
  }

  function AsUnfreed(e: Live, lastTs: Option<int>): Unfreed
  {
    Unfreed(e.name, e.size, if lastTs.Some? && e.ts.Some? then lastTs.value - e.ts.value else 0, e.flags)
  }

  ghost function UnfreedOf(s: Replay): multiset<Unfreed>
  {
    Bag(s.live, (e: Live) => AsUnfreed(e, s.lastTs))
  }

  ghost function Overwrites(evs: seq<Rec>): nat
  {
    if evs == [] then 0
    else
      var p, r := evs[..|evs| - 1], evs[|evs| - 1];
      Overwrites(p) + if Accepted(r) && r.addr.value in ReplayAll(p).live then 1 else 0
  }

  ghost function LiveBytes(live: map<string, Live>): nat
  {
    Sum(live, (e: Live) => e.size)
  }

  lemma BooksStep(s: Replay, r: Rec)
    requires s.curBytes == LiveBytes(s.live)
    ensures Step(s, r).curBytes == LiveBytes(Step(s, r).live)
    ensures var over := if Accepted(r) && r.addr.value in s.live then 1 else 0;
      (if Accepted(r) then 1 else 0) + s.matched + |s.live| == Step(s, r).matched + over + |Step(s, r).live|
  {
    var weight := (e: Live) => e.size;
    hide Sum, AddrIsReal;
    if Accepted(r) {
      var e := Live(SizeOf(r), r.ts, r.name, r.flags);
      SumAfterPut(s.live, weight, r.addr.value, e);
      assert s.live[r.addr.value := e].Keys == s.live.Keys + {r.addr.value};
    } else if IsUnmap(r) && r.addr.Some? && r.addr.value in s.live {
      SumWithout(s.live, weight, r.addr.value);
      assert (s.live - {r.addr.value}).Keys == s.live.Keys - {r.addr.value};
    }
  }

  lemma {:induction false} BagSize<V(!new), R(!new)>(m: map<string, V>, f: V -> R)
    ensures |Bag(m, f)| == |m|
    decreases |m|
  {
    if m != map[] {
      var k := Pick(m);
      BagWithout(m, f, k);
      BagSize(m - {k}, f);
      assert (m - {k}).Keys == m.Keys - {k};
    }
  }

  lemma UnmapsStep(s: Replay, r: Rec)
    ensures Step(s, r).matched + Step(s, r).unmatched == s.matched + s.unmatched + if IsUnmap(r) then 1 else 0
  {
    hide AddrIsReal, Step;
    StepCases(s, r);
  }

  /** At every step cur_bytes is the sum of the live sizes, every accepted map was matched,
      overwritten or never freed, and every unmap was matched or not. */
  lemma {:induction false} ReplayBooks(evs: seq<Rec>)
    ensures ReplayAll(evs).curBytes == LiveBytes(ReplayAll(evs).live)
    ensures Count(evs, (r: Rec) => Accepted(r)) == ReplayAll(evs).matched + Overwrites(evs) + |ReplayAll(evs).live|
    ensures Count(evs, (r: Rec) => IsUnmap(r)) == ReplayAll(evs).matched + ReplayAll(evs).unmatched
    ensures |UnfreedOf(ReplayAll(evs))| == |ReplayAll(evs).live|
  {
    if evs != [] {
      ReplayBooks(evs[..|evs| - 1]);
      BooksStep(ReplayAll(evs[..|evs| - 1]), evs[|evs| - 1]);
      UnmapsStep(ReplayAll(evs[..|evs| - 1]), evs[|evs| - 1]);
      hide Step, LiveBytes, AddrIsReal, UnfreedOf;
    }
    BagSize(ReplayAll(evs).live, (e: Live) => AsUnfreed(e, ReplayAll(evs).lastTs));
  }

  lemma PeakStep(s: Replay, r: Rec)
    ensures s.curBytes <= s.peakBytes ==> Step(s, r).peakBytes == Max(s.peakBytes, Step(s, r).curBytes)
    ensures |s.live| <= s.peakCount ==> Step(s, r).peakCount == Max(s.peakCount, |Step(s, r).live|)
  {
    hide AddrIsReal, Step;
    StepCases(s, r);
    if IsUnmap(r) && r.addr.Some? && r.addr.value in s.live {
      assert (s.live - {r.addr.value}).Keys == s.live.Keys - {r.addr.value};
    }
  }

  lemma ReplayNone()
    ensures ReplayAll([]) == NOTHING
  {}

  lemma ReplayUnfold(evs: seq<Rec>, i: nat)
    requires i < |evs|
    ensures ReplayAll(evs[..i + 1]) == Step(ReplayAll(evs[..i]), evs[i])
  {
    assert evs[..i + 1][..i] == evs[..i];
  }

  /** peak_bytes is the largest cur_bytes after any prefix. */
  lemma {:induction false} PeakBytesIsMaximum(evs: seq<Rec>)
    ensures forall k :: 0 <= k <= |evs| ==> ReplayAll(evs[..k]).curBytes <= ReplayAll(evs).peakBytes
    ensures exists k :: 0 <= k <= |evs| && ReplayAll(evs[..k]).curBytes == ReplayAll(evs).peakBytes
  {
    hide ReplayAll, Step;
    var n := |evs| - 1;
    assert evs[..n + 1] == evs;
    if evs == [] {
      ReplayNone();
      assert ReplayAll(evs[..0]).curBytes == 0;
    } else {
      var p := evs[..n];
      PeakBytesIsMaximum(p);
      assert p[..n] == p;
      ReplayUnfold(evs, n);
      PeakStep(ReplayAll(p), evs[n]);
      assert forall k :: 0 <= k <= n ==> evs[..k] == p[..k];
      var i :| 0 <= i <= n && ReplayAll(p[..i]).curBytes == ReplayAll(p).peakBytes;
      assert ReplayAll(evs[..i]).curBytes == ReplayAll(evs).peakBytes
          || ReplayAll(evs[..n + 1]).curBytes == ReplayAll(evs).peakBytes;
    }
  }

  /** peak_count is the largest number of live entries after any prefix. */
  lemma {:induction false} PeakCountIsMaximum(evs: seq<Rec>)
    ensures forall k :: 0 <= k <= |evs| ==> |ReplayAll(evs[..k]).live| <= ReplayAll(evs).peakCount
    ensures exists k :: 0 <= k <= |evs| && |ReplayAll(evs[..k]).live| == ReplayAll(evs).peakCount
  {
    hide ReplayAll, Step;
    var n := |evs| - 1;
    assert evs[..n + 1] == evs;
    if evs == [] {
      ReplayNone();
      assert |ReplayAll(evs[..0]).live| == 0;
    } else {
      var p := evs[..n];
      PeakCountIsMaximum(p);
      assert p[..n] == p;
      ReplayUnfold(evs, n);
      PeakStep(ReplayAll(p), evs[n]);
      assert forall k :: 0 <= k <= n ==> evs[..k] == p[..k];
      var i :| 0 <= i <= n && |ReplayAll(p[..i]).live| == ReplayAll(p).peakCount;
      assert |ReplayAll(evs[..i]).live| == ReplayAll(evs).peakCount
          || |ReplayAll(evs[..n + 1]).live| == ReplayAll(evs).peakCount;
    }
  }

  // ---- which records the entries are ---------------------------------------

  /** Record r decides whether address a is live from then on. */
  predicate Touches(r: Rec, a: string)
  {
    (Accepted(r) || IsUnmap(r)) && r.addr == Some(a)
  }

  /** Record k is the last one to touch address a. */
  ghost predicate Latest(evs: seq<Rec>, a: string, k: nat)
  {
    k < |evs| && Touches(evs[k], a) && forall j :: k < j < |evs| ==> !Touches(evs[j], a)
  }

  lemma TouchStep(s: Replay, r: Rec, a: string)
    ensures Touches(r, a) && IsMap(r) ==>
              a in Step(s, r).live && Step(s, r).live[a] == Live(SizeOf(r), r.ts, r.name, r.flags)
    ensures Touches(r, a) && IsUnmap(r) ==> a !in Step(s, r).live
    ensures !Touches(r, a) ==> (a in Step(s, r).live <==> a in s.live)
    ensures !Touches(r, a) && a in s.live ==> Step(s, r).live[a] == s.live[a]
  {
    hide AddrIsReal, Step;
    StepCases(s, r);
  }

  lemma SameLatest(evs: seq<Rec>, a: string, k: nat)
    requires evs != [] && !Touches(evs[|evs| - 1], a)
    ensures Latest(evs, a, k) <==> Latest(evs[..|evs| - 1], a, k)
  {
    hide Touches;
    assert forall j :: 0 <= j < |evs| - 1 ==> evs[..|evs| - 1][j] == evs[j];
  }

  lemma MapOrUnmap(r: Rec, a: string)
    requires Touches(r, a)
    ensures IsMap(r) <==> !IsUnmap(r)
  {
    hide AddrIsReal;
  }

  /** An address is live exactly if the last record to touch it was an accepted map, and
      its entry holds that record's size, time, name and flags. */
  lemma {:induction false} LiveIsLatestMap(evs: seq<Rec>, a: string)
    ensures a in ReplayAll(evs).live <==> exists k: nat :: Latest(evs, a, k) && IsMap(evs[k])
    ensures forall k: nat :: Latest(evs, a, k) && IsMap(evs[k]) ==>
              a in ReplayAll(evs).live
              && ReplayAll(evs).live[a] == Live(SizeOf(evs[k]), evs[k].ts, evs[k].name, evs[k].flags)
  {
    if evs == [] {
      ReplayNone();
    } else {
      var n := |evs| - 1;
      var p, r := evs[..n], evs[n];
      LiveIsLatestMap(p, a);
      assert ReplayAll(evs) == Step(ReplayAll(p), r);
      TouchStep(ReplayAll(p), r, a);
      hide ReplayAll, Step, Touches, IsMap, IsUnmap, AddrIsReal;
      if Touches(r, a) {
        assert Latest(evs, a, n);
        assert forall k: nat :: Latest(evs, a, k) ==> k == n;
        MapOrUnmap(r, a);
      } else {
        forall k: nat ensures Latest(evs, a, k) <==> Latest(p, a, k) {
          SameLatest(evs, a, k);
        }
        assert forall k: nat :: Latest(p, a, k) ==> p[k] == evs[k];
      }
    }
  }

  lemma UnmapCases(s: Replay, r: Rec)
    ensures var s' := Step(s, r);
      && (IsUnmap(r) && r.addr.Some? && r.addr.value in s.live ==>
            var e := s.live[r.addr.value];
            && s'.matched == s.matched + 1 && s'.unmatched == s.unmatched
            && s'.lifetimes == s.lifetimes
               + if r.ts.Some? && e.ts.Some? then [Lifetime(e.size, r.ts.value - e.ts.value, e.flags)] else [])
      && (IsUnmap(r) && (r.addr.None? || r.addr.value !in s.live) ==>
            s'.matched == s.matched && s'.unmatched == s.unmatched + 1 && s'.lifetimes == s.lifetimes)
      && (!IsUnmap(r) ==>
            s'.matched == s.matched && s'.unmatched == s.unmatched && s'.lifetimes == s.lifetimes)
  {
    StepCases(s, r);
    hide Step, AddrIsReal, Max;
  }

  /** What an unmap does after the records before it: if a map at k was the last one to
      touch its address, it is matched, and the lifetime is that of the record at k;
      otherwise it is counted as unmatched. No other record changes these. */
  lemma UnmapTakesLatestMap(evs: seq<Rec>, r: Rec)
    ensures var s, s' := ReplayAll(evs), ReplayAll(evs + [r]);
      && (forall a, k: nat :: IsUnmap(r) && r.addr == Some(a) && Latest(evs, a, k) && IsMap(evs[k]) ==>
            && s'.matched == s.matched + 1 && s'.unmatched == s.unmatched
            && s'.lifetimes == s.lifetimes
               + if r.ts.Some? && evs[k].ts.Some?
                 then [Lifetime(SizeOf(evs[k]), r.ts.value - evs[k].ts.value, evs[k].flags)] else [])
      && (IsUnmap(r) && !(exists a, k: nat :: r.addr == Some(a) && Latest(evs, a, k) && IsMap(evs[k])) ==>
            s'.matched == s.matched && s'.unmatched == s.unmatched + 1 && s'.lifetimes == s.lifetimes)
      && (!IsUnmap(r) ==>
            s'.matched == s.matched && s'.unmatched == s.unmatched && s'.lifetimes == s.lifetimes)
  {
    hide ReplayAll, Step, Latest, IsMap, AddrIsReal, Max;
    ReplayUnfold(evs + [r], |evs|);
    assert (evs + [r])[..|evs|] == evs && (evs + [r])[..|evs| + 1] == evs + [r];
    UnmapCases(ReplayAll(evs), r);
    if r.addr.Some? {
      LiveIsLatestMap(evs, r.addr.value);
    }
  }

  /** The last time that a record has. */
  function LastTime(evs: seq<Rec>): Option<int>
  {
    if evs == [] then None
    else if evs[|evs| - 1].ts.Some? then evs[|evs| - 1].ts
    else LastTime(evs[..|evs| - 1])
  }

  lemma {:induction false} LastTimeIs(evs: seq<Rec>)
    ensures ReplayAll(evs).lastTs == LastTime(evs)
  {
    if evs != [] {
      LastTimeIs(evs[..|evs| - 1]);
      hide AddrIsReal;
    }
  }

  /** Record k is a map that is the last to touch its address. */
  ghost predicate IsLeft(evs: seq<Rec>, k: nat)
    requires k < |evs|
  {
    IsMap(evs[k]) && evs[k].addr.Some? && Latest(evs, evs[k].addr.value, k)
  }

  /** The maps among the first n records that are never freed: each with its name, size
      and flags, and its age at the last time there is. */
  ghost function NeverFreed(evs: seq<Rec>, n: nat): multiset<Unfreed>
    requires n <= |evs|
  {
    if n == 0 then multiset{}
    else
      var r, last := evs[n - 1], LastTime(evs);
      NeverFreed(evs, n - 1)
      + if IsLeft(evs, n - 1)
        then multiset{Unfreed(r.name, SizeOf(r),
                              if last.Some? && r.ts.Some? then last.value - r.ts.value else 0, r.flags)}
        else multiset{}
  }

  /** The entries of m are those of the records before n that are left over. */
  ghost predicate EntriesOf(m: map<string, Live>, evs: seq<Rec>, n: nat)
    requires n <= |evs|
  {
    && (forall a :: a in m ==> exists k :: 0 <= k < n && IsLeft(evs, k) && evs[k].addr == Some(a))
    && (forall k :: 0 <= k < n && IsLeft(evs, k) ==>
          evs[k].addr.value in m
          && m[evs[k].addr.value] == Live(SizeOf(evs[k]), evs[k].ts, evs[k].name, evs[k].flags))
  }

  lemma OneEntryLess(m: map<string, Live>, evs: seq<Rec>, n: nat)
    requires n < |evs| && EntriesOf(m, evs, n + 1)
    ensures EntriesOf(if IsLeft(evs, n) then m - {evs[n].addr.value} else m, evs, n)
  {
    hide Touches;
    if IsLeft(evs, n) {
      var a := evs[n].addr.value;
      forall k | 0 <= k < n && IsLeft(evs, k) ensures evs[k].addr.value != a {
        assert Touches(evs[n], a);
      }
    }
  }

  lemma EntryAt(m: map<string, Live>, evs: seq<Rec>, n: nat)
    requires n < |evs| && EntriesOf(m, evs, n + 1) && IsLeft(evs, n)
    ensures var r := evs[n];
      r.addr.Some? && r.addr.value in m && m[r.addr.value] == Live(SizeOf(r), r.ts, r.name, r.flags)
  {
    hide Latest, IsMap, SizeOf;
  }

  lemma NeverFreedUnfold(evs: seq<Rec>, n: nat)
    requires n < |evs|
    ensures var r := evs[n];
      NeverFreed(evs, n + 1)
      == NeverFreed(evs, n)
         + if IsLeft(evs, n) then multiset{AsUnfreed(Live(SizeOf(r), r.ts, r.name, r.flags), LastTime(evs))}
           else multiset{}
  {
    hide IsLeft, LastTime, SizeOf;
  }

  lemma NothingLeft(m: map<string, Live>, evs: seq<Rec>)
    requires EntriesOf(m, evs, 0)
    ensures NeverFreed(evs, 0) == multiset{} == Bag(m, (e: Live) => AsUnfreed(e, LastTime(evs)))
  {
    assert m == map[];
  }

  lemma OneEntryTakenOut(m: map<string, Live>, evs: seq<Rec>, a: string)
    requires a in m
    ensures Bag(m, (e: Live) => AsUnfreed(e, LastTime(evs)))
         == multiset{AsUnfreed(m[a], LastTime(evs))} + Bag(m - {a}, (e: Live) => AsUnfreed(e, LastTime(evs)))
  {
    hide Bag, LastTime, AsUnfreed;
    BagWithout(m, (e: Live) => AsUnfreed(e, LastTime(evs)), a);
  }

  lemma {:induction false} BagOfEntries(m: map<string, Live>, evs: seq<Rec>, n: nat)
    requires n <= |evs| && EntriesOf(m, evs, n)
    ensures Bag(m, (e: Live) => AsUnfreed(e, LastTime(evs))) == NeverFreed(evs, n)
  {
    hide LastTime, IsLeft, EntriesOf, NeverFreed, AsUnfreed, Bag;
    if n == 0 {
      NothingLeft(m, evs);
    } else {
      OneEntryLess(m, evs, n - 1);
      NeverFreedUnfold(evs, n - 1);
      if IsLeft(evs, n - 1) {
        EntryAt(m, evs, n - 1);
        var a := evs[n - 1].addr.value;
        OneEntryTakenOut(m, evs, a);
        BagOfEntries(m - {a}, evs, n - 1);
      } else {
        BagOfEntries(m, evs, n - 1);
      }
    }
  }

  /** What the replay of one process reports as never freed. */
  lemma UnfreedAreLatestMaps(evs: seq<Rec>)
    ensures UnfreedOf(ReplayAll(evs)) == NeverFreed(evs, |evs|)
  {
    LastTimeIs(evs);
    var m := ReplayAll(evs).live;
    forall a ensures a in m <==> exists k: nat :: Latest(evs, a, k) && IsMap(evs[k])
      ensures forall k: nat :: Latest(evs, a, k) && IsMap(evs[k]) ==>
                a in m && m[a] == Live(SizeOf(evs[k]), evs[k].ts, evs[k].name, evs[k].flags)
    {
      LiveIsLatestMap(evs, a);
    }
    hide ReplayAll, LastTime, AddrIsReal, NeverFreed, IsMap;
    assert EntriesOf(m, evs, |evs|);
    BagOfEntries(m, evs, |evs|);
  }

  // ---- all processes -------------------------------------------------------

  /** The pids, in the order in which they first occur. */
  function Pids(records: seq<Rec>): (pids: seq<Pid>)
  {
    if records == [] then []
    else
      var before, r := Pids(records[..|records| - 1]), records[|records| - 1];
      if Relevant(r) && r.pid !in before then before + [r.pid] else before
  }

  function Group(records: seq<Rec>, p: Pid): seq<Rec>
  {
    if records == [] then []
    else
      var r := records[|records| - 1];
      Group(records[..|records| - 1], p) + if Relevant(r) && r.pid == p then [r] else []
  }

  function PidReplay(records: seq<Rec>, p: Pid): Replay
  {
    ReplayAll(SortBy(Group(records, p), TimeKey))
  }

  /** What is reported, without the order of the two lists. */
  datatype Totals = Totals(lifetimes: multiset<Lifetime>, unfreed: multiset<Unfreed>,
                           peakCount: int, peakBytes: int, matched: nat, unmatched: nat)

  function Merge(a: Totals, b: Totals): Totals
  {
    Totals(a.lifetimes + b.lifetimes, a.unfreed + b.unfreed,
           Max(a.peakCount, b.peakCount), Max(a.peakBytes, b.peakBytes),
           a.matched + b.matched, a.unmatched + b.unmatched)
  }

  ghost function TotalsOf(s: Replay): Totals
  {
    Totals(multiset(s.lifetimes), UnfreedOf(s), s.peakCount, s.peakBytes, s.matched, s.unmatched)
  }

  ghost function TotalsOver(records: seq<Rec>, pids: seq<Pid>): Totals
  {
    if pids == [] then Totals(multiset{}, multiset{}, 0, 0, 0, 0)
    else Merge(TotalsOver(records, pids[..|pids| - 1]), TotalsOf(PidReplay(records, pids[|pids| - 1])))
  }

  ghost function Report(records: seq<Rec>): Totals
  {
    TotalsOver(records, Pids(records))
  }

  function LifetimesOver(records: seq<Rec>, pids: seq<Pid>): seq<Lifetime>
  {
    if pids == [] then []
    else LifetimesOver(records, pids[..|pids| - 1]) + PidReplay(records, pids[|pids| - 1]).lifetimes
  }

  // ---- the analyser's loops ------------------------------------------------

  method GroupByPid(records: seq<Rec>) returns (byPid: map<Pid, seq<Rec>>, order: seq<Pid>)
    ensures order == Pids(records) && byPid.Keys == set p | p in order
    ensures forall p :: p in order ==> byPid[p] == Group(records, p)
  {
    byPid, order := map[], [];
    for i := 0 to |records|
      invariant order == Pids(records[..i])
      invariant forall p :: p in byPid <==> p in order
      invariant forall p :: byPid.Keys >= {p} ==> byPid[p] == Group(records[..i], p)
      invariant forall p :: p !in byPid ==> Group(records[..i], p) == []
    {
      var r := records[i];
      assert records[..i + 1][..i] == records[..i];
      if Relevant(r) {
        if r.pid !in byPid {
          order := order + [r.pid];
        }
        byPid := byPid[r.pid := (if r.pid in byPid then byPid[r.pid] else []) + [r]];
      }
    }
    assert records[..|records|] == records;
  }

  /** The loop over one process's events, its local variables returned together. The
      peaks are this process's own; the caller takes the maximum. */
  method ReplayPid(evs: seq<Rec>) returns (s: Replay)
    ensures s == ReplayAll(evs)
  {
    hide AddrIsReal, ReplayAll, Step, Max;
    ReplayNone();
    var live: map<string, Live>, curBytes: int, lastTs: Option<int> := map[], 0, None;
    var peakCount: int, peakBytes: int, matched: nat, unmatched: nat := 0, 0, 0, 0;
    var lifetimes: seq<Lifetime> := [];
    for i := 0 to |evs|
      invariant Replay(live, curBytes, peakCount, peakBytes, matched, unmatched, lifetimes, lastTs)
                == ReplayAll(evs[..i])
    {
      var r := evs[i];
      ReplayUnfold(evs, i);
      StepCases(ReplayAll(evs[..i]), r);
      if r.ts.Some? {
        lastTs := r.ts;
      }
      if IsMap(r) {
        if !MapOk(r) || !AddrIsReal(r.addr) {
          continue;
        }
        var a := r.addr.value;
        if a in live {
          curBytes := curBytes - live[a].size;
        }
        live := live[a := Live(SizeOf(r), r.ts, r.name, r.flags)];
        curBytes := curBytes + SizeOf(r);
        peakCount := Max(peakCount, |live|);
        peakBytes := Max(peakBytes, curBytes);
      } else if IsUnmap(r) {
        if r.addr.Some? && r.addr.value in live {
          var e := live[r.addr.value];
          live := live - {r.addr.value};
          curBytes := curBytes - e.size;
          matched := matched + 1;
          if r.ts.Some? && e.ts.Some? {
            lifetimes := lifetimes + [Lifetime(e.size, r.ts.value - e.ts.value, e.flags)];
          }
        } else {
          unmatched := unmatched + 1;
        }
      }
    }
    assert evs[..|evs|] == evs;
    s := Replay(live, curBytes, peakCount, peakBytes, matched, unmatched, lifetimes, lastTs);
  }

  /** The loop over what is still live, in some order. */
  method ListUnfreed(s: Replay) returns (left: seq<Unfreed>)
    ensures multiset(left) == UnfreedOf(s)
  {
    var f := (e: Live) => AsUnfreed(e, s.lastTs);
    var rest := s.live;
    left := [];
    while rest != map[]
      invariant multiset(left) + Bag(rest, f) == Bag(s.live, f)
      decreases |rest|
    {
      var k :| k in rest;
      BagWithout(rest, f, k);
      left := left + [f(rest[k])];
      assert (rest - {k}).Keys == rest.Keys - {k};
      rest := rest - {k};
    }
    assert UnfreedOf(s) == Bag(s.live, f);
  }

  method Correlate(records: seq<Rec>)
    returns (lifetimes: seq<Lifetime>, neverFreed: seq<Unfreed>, peakCount: int, peakBytes: int,
             matched: nat, unmatched: nat)
    ensures lifetimes == LifetimesOver(records, Pids(records))
    ensures Totals(multiset(lifetimes), multiset(neverFreed), peakCount, peakBytes, matched, unmatched)
            == Report(records)
  {
    hide Pids, Group, ReplayAll, SortBy, UnfreedOf;
    var byPid, order := GroupByPid(records);
    lifetimes, neverFreed, peakCount, peakBytes, matched, unmatched := [], [], 0, 0, 0, 0;
    for i := 0 to |order|
      invariant lifetimes == LifetimesOver(records, order[..i])
      invariant Totals(multiset(lifetimes), multiset(neverFreed), peakCount, peakBytes, matched, unmatched)
             == TotalsOver(records, order[..i])
    {
      assert order[..i + 1][..i] == order[..i];
      var evs := SortBy(byPid[order[i]], TimeKey);
      var s := ReplayPid(evs);
      var left := ListUnfreed(s);
      lifetimes, neverFreed := lifetimes + s.lifetimes, neverFreed + left;
      peakCount, peakBytes := Max(peakCount, s.peakCount), Max(peakBytes, s.peakBytes);
      matched, unmatched := matched + s.matched, unmatched + s.unmatched;
    }
    assert order[..|order|] == order;
  }

  // ---- what the report says ------------------------------------------------

  lemma {:induction false} PidsAre(records: seq<Rec>)
    ensures forall p :: p in Pids(records)
              <==> exists i :: 0 <= i < |records| && Relevant(records[i]) && records[i].pid == p
    ensures forall i, j :: 0 <= i < j < |Pids(records)| ==> Pids(records)[i] != Pids(records)[j]
  {
    if records != [] {
      var n := |records| - 1;
      PidsAre(records[..n]);
      forall p | p in Pids(records)
        ensures exists i :: 0 <= i < |records| && Relevant(records[i]) && records[i].pid == p
      {
        if p in Pids(records[..n]) {
          var i :| 0 <= i < n && Relevant(records[..n][i]) && records[..n][i].pid == p;
          assert records[i].pid == p;
        } else {
          assert records[n].pid == p;
        }
      }
      forall i | 0 <= i < |records| && Relevant(records[i]) ensures records[i].pid in Pids(records) {
        if i < n { assert records[..n][i] == records[i]; }
      }
    }
  }

  lemma CountOneMore(records: seq<Rec>, count: Rec -> bool, p: Pid)
    requires records != [] && (forall r :: count(r) ==> Relevant(r))
    ensures var n := |records| - 1;
      Count(Group(records, p), count)
      == Count(Group(records[..n], p), count) + if count(records[n]) && records[n].pid == p then 1 else 0
  {
    hide Relevant;
    var n := |records| - 1;
    var before, r := Group(records[..n], p), records[n];
    if Relevant(r) && r.pid == p {
      assert (before + [r])[..|before|] == before;
    } else {
      assert before + [] == before;
    }
  }

  lemma {:induction false} NoCounts(ps: seq<Pid>, count: Rec -> bool)
    ensures Total(ps, (p: Pid) => Count(Group([], p), count)) == 0
  {
    if ps != [] {
      NoCounts(ps[..|ps| - 1], count);
    }
  }

  /** Counted process by process, no record is missed and none counted twice. */
  lemma {:induction false} GroupsCount(records: seq<Rec>, ps: seq<Pid>, count: Rec -> bool)
    requires forall r :: count(r) ==> Relevant(r)
    requires forall i, j :: 0 <= i < j < |ps| ==> ps[i] != ps[j]
    requires forall i :: 0 <= i < |records| && Relevant(records[i]) ==> records[i].pid in ps
    ensures Total(ps, (p: Pid) => Count(Group(records, p), count)) == Count(records, count)
  {
    hide Group, Relevant;
    if records == [] {
      NoCounts(ps, count);
    } else {
      var n := |records| - 1;
      GroupsCount(records[..n], ps, count);
      var f, g := (p: Pid) => Count(Group(records[..n], p), count), (p: Pid) => Count(Group(records, p), count);
      forall p ensures g(p) == f(p) + if count(records[n]) && records[n].pid == p then 1 else 0 {
        CountOneMore(records, count, p);
      }
      TotalChanges(ps, f, g, records[n].pid, if count(records[n]) then 1 else 0);
    }
  }

  /** Entries of process p that a re-map replaced. */
  ghost function OverwritesOf(records: seq<Rec>, p: Pid): nat
  {
    Overwrites(SortBy(Group(records, p), TimeKey))
  }

  lemma PidBooks(records: seq<Rec>, p: Pid)
    ensures var s := PidReplay(records, p);
      && Count(Group(records, p), (r: Rec) => IsUnmap(r)) == s.matched + s.unmatched
      && Count(Group(records, p), (r: Rec) => Accepted(r)) == s.matched + OverwritesOf(records, p) + |UnfreedOf(s)|
  {
    hide ReplayAll, SortBy, Group, Overwrites, UnfreedOf, AddrIsReal;
    ReplayBooks(SortBy(Group(records, p), TimeKey));
    SortKeepsCount(Group(records, p), TimeKey, (r: Rec) => IsUnmap(r));
    SortKeepsCount(Group(records, p), TimeKey, (r: Rec) => Accepted(r));
  }

  lemma {:induction false} TotalsAdd(records: seq<Rec>, ps: seq<Pid>)
    ensures var t := TotalsOver(records, ps);
      && t.matched + t.unmatched == Total(ps, (p: Pid) => Count(Group(records, p), (r: Rec) => IsUnmap(r)))
      && Total(ps, (p: Pid) => Count(Group(records, p), (r: Rec) => Accepted(r)))
         == t.matched + Total(ps, (p: Pid) => OverwritesOf(records, p)) + |t.unfreed|
  {
    if ps != [] {
      var n := |ps| - 1;
      TotalsAdd(records, ps[..n]);
      PidBooks(records, ps[n]);
      hide PidReplay, Group, OverwritesOf, UnfreedOf, Count;
    }
  }

  /** The books of the whole report, over any records of any processes: every unmap record
      is matched or unmatched, and every accepted map is matched, replaced or never freed. */
  lemma ReportBooks(records: seq<Rec>)
    ensures var t := Report(records);
      && Count(records, (r: Rec) => IsUnmap(r)) == t.matched + t.unmatched
      && Count(records, (r: Rec) => Accepted(r))
         == t.matched + Total(Pids(records), (p: Pid) => OverwritesOf(records, p)) + |t.unfreed|
  {
    PidsAre(records);
    TotalsAdd(records, Pids(records));
    GroupsCount(records, Pids(records), (r: Rec) => IsUnmap(r));
    GroupsCount(records, Pids(records), (r: Rec) => Accepted(r));
    hide Pids, TotalsOver, Group, OverwritesOf, Count, Total;
  }

  lemma PeaksNotNegative(records: seq<Rec>, p: Pid)
    ensures PidReplay(records, p).peakCount >= 0 && PidReplay(records, p).peakBytes >= 0
  {
    var evs := SortBy(Group(records, p), TimeKey);
    PeakCountIsMaximum(evs);
    PeakBytesIsMaximum(evs);
    ReplayNone();
    assert evs[..0] == [];
    hide ReplayAll, SortBy, Group;
  }

  /** m is the largest value of f over ps, and 0 if there is none. */
  ghost predicate IsLargest(m: int, ps: seq<Pid>, f: Pid -> int)
  {
    && (forall p :: p in ps ==> f(p) <= m)
    && (if ps == [] then m == 0 else exists p :: p in ps && f(p) == m)
  }

  lemma LargestOfMore(m: int, ps: seq<Pid>, f: Pid -> int)
    requires ps != [] && IsLargest(m, ps[..|ps| - 1], f) && f(ps[|ps| - 1]) >= 0
    ensures IsLargest(Max(m, f(ps[|ps| - 1])), ps, f)
  {
    var n := |ps| - 1;
    assert ps == ps[..n] + [ps[n]] && ps[n] in ps;
    assert forall p :: p in ps <==> p in ps[..n] || p == ps[n];
  }

  lemma {:induction false} PeaksOver(records: seq<Rec>, ps: seq<Pid>)
    ensures IsLargest(TotalsOver(records, ps).peakCount, ps, (p: Pid) => PidReplay(records, p).peakCount)
    ensures IsLargest(TotalsOver(records, ps).peakBytes, ps, (p: Pid) => PidReplay(records, p).peakBytes)
  {
    if ps != [] {
      var n := |ps| - 1;
      PeaksOver(records, ps[..n]);
      PeaksNotNegative(records, ps[n]);
      var t := TotalsOver(records, ps[..n]);
      LargestOfMore(t.peakCount, ps, (p: Pid) => PidReplay(records, p).peakCount);
      LargestOfMore(t.peakBytes, ps, (p: Pid) => PidReplay(records, p).peakBytes);
      hide PidReplay, UnfreedOf, IsLargest;
    }
  }

  /** Each reported peak is the largest of the processes' own peaks. */
  lemma ReportPeaks(records: seq<Rec>)
    ensures IsLargest(Report(records).peakCount, Pids(records), (p: Pid) => PidReplay(records, p).peakCount)
    ensures IsLargest(Report(records).peakBytes, Pids(records), (p: Pid) => PidReplay(records, p).peakBytes)
  {
    PeaksOver(records, Pids(records));
    hide Pids, PidReplay, TotalsOver, IsLargest;
  }

  lemma {:induction false} ListsOver(records: seq<Rec>, ps: seq<Pid>, x: Lifetime, u: Unfreed)
    ensures TotalsOver(records, ps).lifetimes[x]
         == Total(ps, (p: Pid) => multiset(PidReplay(records, p).lifetimes)[x])
    ensures TotalsOver(records, ps).unfreed[u]
         == Total(ps, (p: Pid) => var evs := SortBy(Group(records, p), TimeKey); NeverFreed(evs, |evs|)[u])
  {
    if ps != [] {
      var n := |ps| - 1;
      ListsOver(records, ps[..n], x, u);
      UnfreedAreLatestMaps(SortBy(Group(records, ps[n]), TimeKey));
      hide ReplayAll, SortBy, Group, UnfreedOf, NeverFreed;
    }
  }

  /** The two lists are those of all processes: every lifetime and every map that is never
      freed is reported as often as it occurs. */
  lemma ReportLists(records: seq<Rec>, x: Lifetime, u: Unfreed)
    ensures Report(records).lifetimes[x]
         == Total(Pids(records), (p: Pid) => multiset(PidReplay(records, p).lifetimes)[x])
    ensures Report(records).unfreed[u]
         == Total(Pids(records), (p: Pid) =>
                    var evs := SortBy(Group(records, p), TimeKey); NeverFreed(evs, |evs|)[u])
  {
    ListsOver(records, Pids(records), x, u);
    hide Pids, TotalsOver, PidReplay, NeverFreed, Total;
  }

  // ---- independence of the order -------------------------------------------

  lemma {:induction false} GroupElements(records: seq<Rec>, p: Pid, r: Rec)
    ensures multiset(Group(records, p))[r] == if Relevant(r) && r.pid == p then multiset(records)[r] else 0
  {
    if records != [] {
      var n := |records| - 1;
      GroupElements(records[..n], p, r);
      SplitLast(records);
    }
  }

  lemma {:induction false} CountInDistinct<T>(s: seq<T>, x: T)
    requires forall i, j :: 0 <= i < j < |s| ==> s[i] != s[j]
    ensures multiset(s)[x] == if x in s then 1 else 0
  {
    if s != [] {
      var n := |s| - 1;
      CountInDistinct(s[..n], x);
      SplitLast(s);
      if x in s && x != s[n] {
        var i :| 0 <= i < |s| && s[i] == x;
        assert s[..n][i] == x;
      }
    }
  }

  /** Each process's records of one time come in the same order in both. */
  ghost predicate SameOrderPerPid(a: seq<Rec>, b: seq<Rec>)
  {
    forall p :: SameByKey(Group(a, p), Group(b, p), TimeKey)
  }

  lemma PidsHaveRecords(records: seq<Rec>, p: Pid)
    ensures p in Pids(records) <==> Group(records, p) != []
  {
    PidsAre(records);
    if p in Pids(records) {
      var i :| 0 <= i < |records| && Relevant(records[i]) && records[i].pid == p;
      GroupElements(records, p, records[i]);
      assert records[i] in multiset(records);
    }
    if Group(records, p) != [] {
      var r := Group(records, p)[0];
      GroupElements(records, p, r);
      assert r in multiset(Group(records, p));
      assert r in multiset(records);
      assert r in records;
    }
  }

  lemma SameElements(a: seq<Rec>, b: seq<Rec>)
    requires SameByKey(a, b, TimeKey)
    ensures a == [] <==> b == []
  {
    hide SortBy;
    SortsAlikeIff(a, b, TimeKey);
    SortOrders(a, TimeKey);
    SortOrders(b, TimeKey);
    assert |multiset(a)| == |a| && |multiset(b)| == |b|;
  }

  lemma PidsAgree(a: seq<Rec>, b: seq<Rec>)
    requires SameOrderPerPid(a, b)
    ensures multiset(Pids(a)) == multiset(Pids(b))
  {
    PidsAre(a);
    PidsAre(b);
    hide Pids, Group, SortBy;
    forall p ensures multiset(Pids(a))[p] == multiset(Pids(b))[p] {
      CountInDistinct(Pids(a), p);
      CountInDistinct(Pids(b), p);
      PidsHaveRecords(a, p);
      PidsHaveRecords(b, p);
      assert SameByKey(Group(a, p), Group(b, p), TimeKey);
      SameElements(Group(a, p), Group(b, p));
    }
  }

  lemma PidReplaysAgree(a: seq<Rec>, b: seq<Rec>)
    requires SameOrderPerPid(a, b)
    ensures forall p :: PidReplay(a, p) == PidReplay(b, p)
  {
    hide Group, SortBy;
    forall p ensures PidReplay(a, p) == PidReplay(b, p) {
      assert SameByKey(Group(a, p), Group(b, p), TimeKey);
      SortsAlikeIff(Group(a, p), Group(b, p), TimeKey);
    }
  }

  lemma {:induction false} SameReplaysSameTotals(a: seq<Rec>, b: seq<Rec>, pids: seq<Pid>)
    requires forall p :: PidReplay(a, p) == PidReplay(b, p)
    ensures TotalsOver(a, pids) == TotalsOver(b, pids)
  {
    if pids != [] {
      SameReplaysSameTotals(a, b, pids[..|pids| - 1]);
    }
  }

  lemma MergeSwaps(a: Totals, b: Totals, c: Totals)
    ensures Merge(Merge(a, b), c) == Merge(Merge(a, c), b)
  {
    assert a.lifetimes + b.lifetimes + c.lifetimes == a.lifetimes + c.lifetimes + b.lifetimes;
    assert a.unfreed + b.unfreed + c.unfreed == a.unfreed + c.unfreed + b.unfreed;
  }

  /** Whichever pid is taken last, the totals are the same. */
  lemma {:induction false} TakeOut(records: seq<Rec>, ps: seq<Pid>, i: nat)
    requires i < |ps|
    ensures TotalsOver(records, ps)
            == Merge(TotalsOver(records, ps[..i] + ps[i + 1..]), TotalsOf(PidReplay(records, ps[i])))
  {
    hide PidReplay, TotalsOf, Merge;
    var n := |ps| - 1;
    if i == n {
      assert ps[..i] + ps[i + 1..] == ps[..n];
    } else {
      TakeOut(records, ps[..n], i);
      var rest := ps[..i] + ps[i + 1..];
      assert rest[..|rest| - 1] == ps[..n][..i] + ps[..n][i + 1..];
      MergeSwaps(TotalsOver(records, rest[..|rest| - 1]), TotalsOf(PidReplay(records, ps[i])),
                 TotalsOf(PidReplay(records, ps[n])));
    }
  }

  lemma RestAgrees<T>(ps: seq<T>, qs: seq<T>, i: nat)
    requires ps != [] && i < |qs| && qs[i] == ps[|ps| - 1] && multiset(ps) == multiset(qs)
    ensures multiset(qs[..i] + qs[i + 1..]) == multiset(ps[..|ps| - 1])
  {
    var rest := qs[..i] + qs[i + 1..];
    assert qs == qs[..i] + [qs[i]] + qs[i + 1..];
    SplitLast(ps);
    assert multiset(qs) == multiset(rest) + multiset{qs[i]};
    forall x ensures multiset(rest)[x] == multiset(ps[..|ps| - 1])[x] {
      assert multiset(qs)[x] == multiset(ps)[x];
    }
  }

  lemma {:induction false} PidOrderIrrelevant(records: seq<Rec>, ps: seq<Pid>, qs: seq<Pid>)
    requires multiset(ps) == multiset(qs)
    ensures TotalsOver(records, ps) == TotalsOver(records, qs)
  {
    if ps == [] {
      assert |multiset(qs)| == 0;
    } else {
      var n := |ps| - 1;
      assert ps[n] in multiset(qs);
      var i :| 0 <= i < |qs| && qs[i] == ps[n];
      var rest := qs[..i] + qs[i + 1..];
      RestAgrees(ps, qs, i);
      PidOrderIrrelevant(records, ps[..n], rest);
      TakeOut(records, qs, i);
      hide PidReplay, TotalsOf, Merge;
    }
  }

  /** The report depends only on the order of each process's records of one time: however
      the processes' streams are interleaved, and however records of different times are
      ordered, it has the same peaks and counts and, as multisets, the same lifetimes and
      the same never-freed entries. */
  lemma ReportIgnoresInterleaving(a: seq<Rec>, b: seq<Rec>)
    requires SameOrderPerPid(a, b)
    ensures Report(a) == Report(b)
  {
    PidReplaysAgree(a, b);
    PidsAgree(a, b);
    hide PidReplay, Pids;
    SameReplaysSameTotals(a, b, Pids(a));
    PidOrderIrrelevant(b, Pids(a), Pids(b));
  }

  ghost predicate TimesDistinctPerPid(records: seq<Rec>)
  {
    forall p :: DistinctKeys(Group(records, p), TimeKey)
  }

  /** With distinct times within each pid it depends on nothing but which records there
      are. */
  lemma ReportIgnoresOrder(a: seq<Rec>, b: seq<Rec>)
    requires multiset(a) == multiset(b) && TimesDistinctPerPid(a)
    ensures Report(a) == Report(b)
  {
    hide Report, Group, SortBy, SameByKey;
    forall p ensures SameByKey(Group(a, p), Group(b, p), TimeKey) {
      forall r ensures multiset(Group(a, p))[r] == multiset(Group(b, p))[r] {
        GroupElements(a, p, r);
        GroupElements(b, p, r);
      }
      assert multiset(Group(a, p)) == multiset(Group(b, p));
      assert DistinctKeys(Group(a, p), TimeKey);
      SortKeepsDistinct(Group(a, p), TimeKey);
      SortDependsOnElements(Group(a, p), Group(b, p), TimeKey);
      SortsAlikeIff(Group(a, p), Group(b, p), TimeKey);
    }
    ReportIgnoresInterleaving(a, b);
  }

  lemma MapThenUnmap(m: Rec, u: Rec)
    requires Accepted(m) && IsUnmap(u) && u.addr == m.addr
    ensures Step(Step(NOTHING, m), u).matched == 1 && Step(Step(NOTHING, u), m).matched == 0
  {
    hide AddrIsReal, Max, Step;
    StepCases(NOTHING, m);
    StepCases(NOTHING, u);
    StepCases(Step(NOTHING, m), u);
    StepCases(Step(NOTHING, u), m);
  }

  /** The report of records of one process. */
  lemma OnePid(records: seq<Rec>, p: Pid)
    requires Pids(records) == [p]
    ensures Report(records) == Merge(Totals(multiset{}, multiset{}, 0, 0, 0, 0), TotalsOf(PidReplay(records, p)))
  {
    hide Pids, PidReplay, TotalsOf, Merge;
    assert [p][..0] == [];
    assert TotalsOver(records, []) == Totals(multiset{}, multiset{}, 0, 0, 0, 0);
  }

  lemma PairGroup(x: Rec, y: Rec)
    requires Relevant(x) && Relevant(y) && x.pid == y.pid
    ensures Group([x, y], x.pid) == [x, y] && Pids([x, y]) == [x.pid]
  {
    hide Relevant;
    var s := [x, y];
    assert s[..1] == [x] && s[..1][..0] == [];
    assert Group(s[..1], x.pid) == [x] && Pids(s[..1]) == [x.pid];
  }

  /** The report of two records of one process at one time. */
  lemma PairReport(x: Rec, y: Rec)
    requires Relevant(x) && Relevant(y) && x.pid == y.pid && TimeKey(x) <= TimeKey(y)
    ensures Report([x, y]).matched == Step(Step(NOTHING, x), y).matched
  {
    hide Step, Relevant, TimeKey, ReplayAll, SortBy, Group, Pids, UnfreedOf, Report;
    var s := [x, y];
    PairGroup(x, y);
    OnePid(s, x.pid);
    SortKeepsOrdered(s, TimeKey);
    ReplayUnfold(s, 1);
    ReplayUnfold(s, 0);
    ReplayNone();
    assert s[..0] == [] && s[..2] == s;
  }

  /** The order at one time matters: an accepted map and an unmap of the same address at
      the same time are replayed in file order, and only one order matches them. */
  lemma EqualTimesDependOnOrder(m: Rec, u: Rec)
    requires Accepted(m) && IsUnmap(u) && u.addr == m.addr && u.pid == m.pid && TimeKey(u) == TimeKey(m)
    ensures multiset([m, u]) == multiset([u, m]) && Report([m, u]).matched == 1 && Report([u, m]).matched == 0
  {
    assert [m, u] == [m] + [u] && [u, m] == [u] + [m];
    MapThenUnmap(m, u);
    PairReport(m, u);
    PairReport(u, m);
  }
}
