/** The control-plane profiler's online accounting (src/profiler/shm_profiler.c,
    lines 498-582) against the analyser's replay of the log it wrote
    (tools/analyze_profile.py, lines 235-293): where they agree, and the one place
    where they do not. */
module Agreement {
  import opened Wrappers
  import opened Arithmetic
  import opened LiveTable
  import opened EventText
  import opened JsonReader
  import opened LogUnwrap
  import opened MapSums
  import opened Sorting
  import A = Accounting
  import C = Correlate

  /** An address in the log: printf's %p on the control plane, b_hex on the data plane. */
  function AddrText(dp: bool, a: Addr): string
  {
    if a == 0 && !dp then "(nil)" else Ptr(a)
  }

  lemma NilIsNotReal()
    ensures !AddrIsReal(Some("(nil)"))
  {
    var s := "(nil)";
    assert s[1..] == "nil)" && s[1..][1..] == "il)" && s[1..][1..][1..] == "l)" && s[1..][1..][1..][1..] == ")";
    NoStrip(s);
    LowerHead(s);
    LowerHead("nil)");
    LowerHead("il)");
    LowerHead("l)");
    LowerHead(")");
    LowerEmpty();
    assert ")"[1..] == "";
    hide Lower, StripLeft, StripRight;
    assert Lower("il)") == ['i'] + (['l'] + [')']);
    assert Lower(s) == ['('] + (['n'] + Lower("il)"));
    assert Lower(s) == s;
  }

  lemma AddrTextReal(dp: bool, a: Addr)
    ensures AddrIsReal(Some(AddrText(dp, a))) <==> a != 0
  {
    if a == 0 && !dp {
      NilIsNotReal();
    } else {
      PrintedAddrIsReal(a);
    }
  }

  lemma PtrIsNotNil(a: Addr)
    ensures Ptr(a) != "(nil)"
  {
    assert Ptr(a)[0] == '0';
  }

  lemma AddrTextInjective(dp: bool, a: Addr, b: Addr)
    requires AddrText(dp, a) == Ptr(b) && b != 0
    ensures a == b
  {
    PtrIsNotNil(b);
    if AddrText(dp, a) == Ptr(a) {
      PtrInjective(a, b);
    }
  }

  function TextAt(r: Record, key: string): Option<string>
  {
    if key in r && r[key].Text? then Some(r[key].s) else None
  }

  function NumberAt(r: Record, key: string): Option<int>
  {
    if key in r && r[key].Number? then Some(r[key].n) else None
  }

  function PidAt(r: Record): C.Pid
  {
    if "pid" !in r then None
    else match r["pid"] case Text(s) => Some(s) case Number(n) => Some(Int(n)) case _ => None
  }

  /** A decoded record as the replay looks at it. */
  function FromRecord(r: Record): C.Rec
  {
    var size := NumberAt(r, "size");
    C.Rec(TextAt(r, "event"), PidAt(r), NumberAt(r, "ts_ns"), TextAt(r, "addr"), NumberAt(r, "ret"),
          if size.Some? && size.value >= 0 then Some(size.value) else None, TextAt(r, "shmname"), NumberAt(r, "flags"))
  }

  function FromRecords(rs: seq<Record>): (recs: seq<C.Rec>)
    ensures |recs| == |rs| && forall i :: 0 <= i < |rs| ==> recs[i] == FromRecord(rs[i])
  {
    seq(|rs|, i requires 0 <= i < |rs| => FromRecord(rs[i]))
  }

  lemma FromConcat(a: seq<Record>, b: seq<Record>)
    ensures FromRecords(a + b) == FromRecords(a) + FromRecords(b)
  {
    hide FromRecord;
  }

  lemma FromFew()
    ensures FromRecords([]) == [] && forall r: Record :: FromRecords([r]) == [FromRecord(r)]
  {
    hide FromRecord;
  }

  /** The record the analyser reads from the log line of event e, written in state s. On
      the control plane the line of a matched unmap also carries the entry taken out. */
  function RecOf(dp: bool, s: A.Stats, e: A.Event, pid: C.Pid): C.Rec
  {
    match e
    case MapEvent(op, name, addr, size, flags, ret, _, t) =>
      C.Rec(Some(op), pid, Some(t), Some(AddrText(dp, addr)), Some(ret), Some(size), Some(OrEmpty(name)), Some(flags))
    case UnmapEvent(addr, ret, t) =>
      var hit := if dp then None else A.LineOf(s, e).hit;
      C.Rec(Some("unmap"), pid, Some(t), Some(AddrText(dp, addr)), Some(ret),
            if hit.Some? then Some(hit.value.size) else None,
            if hit.Some? then Some(OrEmpty(hit.value.name)) else None, None)
  }

  function RecsOf(dp: bool, evs: seq<A.Event>, pid: C.Pid): (recs: seq<C.Rec>)
    ensures |recs| == |evs|
  {
    if evs == [] then []
    else
      var n := |evs| - 1;
      RecsOf(dp, evs[..n], pid) + [RecOf(dp, A.Run(evs[..n]), evs[n], pid)]
  }

  lemma {:induction false} RecsOfPrefix(dp: bool, evs: seq<A.Event>, pid: C.Pid, k: nat)
    requires k <= |evs|
    ensures RecsOf(dp, evs, pid)[..k] == RecsOf(dp, evs[..k], pid)
  {
    hide RecOf, A.Run;
    if k == |evs| {
      assert evs[..k] == evs;
    } else {
      var n := |evs| - 1;
      RecsOfPrefix(dp, evs[..n], pid, k);
      assert evs[..n][..k] == evs[..k];
      assert RecsOf(dp, evs, pid)[..k] == RecsOf(dp, evs[..n], pid)[..k];
    }
  }

  lemma {:induction false} RecsOfAt(dp: bool, evs: seq<A.Event>, pid: C.Pid, k: nat)
    requires k < |evs|
    ensures RecsOf(dp, evs, pid)[k] == RecOf(dp, A.Run(evs[..k]), evs[k], pid)
  {
    hide RecOf, A.Run;
    RecsOfPrefix(dp, evs, pid, k + 1);
    assert RecsOf(dp, evs, pid)[k] == RecsOf(dp, evs, pid)[..k + 1][k];
    assert evs[..k + 1][..k] == evs[..k];
  }

  /** The two wrappers pass "map" and "map_on_pg". */
  predicate FromWrapper(e: A.Event)
  {
    e.MapEvent? ==> e.op == "map" || e.op == "map_on_pg"
  }

  predicate FromWrappers(evs: seq<A.Event>)
  {
    forall i :: 0 <= i < |evs| ==> FromWrapper(evs[i])
  }

  /** The (size, lifetime) pairs the online side wrote, in order. */
  function OnlineLifetimes(evs: seq<A.Event>): seq<(nat, int)>
  {
    if evs == [] then []
    else
      var n := |evs| - 1;
      var hit := A.LineOf(A.Run(evs[..n]), evs[n]).hit;
      OnlineLifetimes(evs[..n]) + if hit.Some? then [(hit.value.size, hit.value.lifetime)] else []
  }

  function Pairs(ls: seq<C.Lifetime>): seq<(nat, int)>
  {
    if ls == [] then [] else Pairs(ls[..|ls| - 1]) + [(ls[|ls| - 1].size, ls[|ls| - 1].ns)]
  }

  lemma PairsAppend(ls: seq<C.Lifetime>, l: C.Lifetime)
    ensures Pairs(ls + [l]) == Pairs(ls) + [(l.size, l.ns)]
  {
    assert (ls + [l])[..|ls|] == ls;
  }

  // ---- the correspondence --------------------------------------------------

  predicate SameEntry(x: Info, y: C.Live)
  {
    y.size == x.size && y.ts == Some(x.tMap) && y.name == Some(OrEmpty(x.name))
  }

  /** The replay's dict is the live set, keyed by printed addresses. */
  ghost predicate SameLive(live: map<Addr, Info>, dict: map<string, C.Live>)
  {
    && |live| == |dict|
    && (forall a :: a in live ==> a != 0 && Ptr(a) in dict && SameEntry(live[a], dict[Ptr(a)]))
    && (forall k :: k in dict ==> exists a :: a in live && Ptr(a) == k)
  }

  lemma SameKey(live: map<Addr, Info>, dict: map<string, C.Live>, dp: bool, a: Addr)
    requires SameLive(live, dict)
    ensures a in live <==> AddrText(dp, a) in dict
    ensures a in live ==> AddrText(dp, a) == Ptr(a)
  {
    hide Ptr;
    if AddrText(dp, a) in dict {
      var b :| b in live && Ptr(b) == AddrText(dp, a);
      AddrTextInjective(dp, a, b);
    }
  }

  lemma SameLivePut(live: map<Addr, Info>, dict: map<string, C.Live>, a: Addr, x: Info, y: C.Live)
    requires SameLive(live, dict) && a != 0 && SameEntry(x, y)
    ensures SameLive(live[a := x], dict[Ptr(a) := y])
  {
    SameKey(live, dict, false, a);
    A.SizeAfterPut(live, a, x);
    A.SizeAfterPut(dict, Ptr(a), y);
    var live', dict' := live[a := x], dict[Ptr(a) := y];
    hide Ptr;
    forall b | b in live' ensures b != 0 && Ptr(b) in dict' && SameEntry(live'[b], dict'[Ptr(b)]) {
      if Ptr(b) == Ptr(a) {
        PtrInjective(a, b);
      }
    }
    forall k | k in dict' ensures exists b :: b in live' && Ptr(b) == k {
      if k == Ptr(a) {
        assert a in live';
      } else {
        var b :| b in live && Ptr(b) == k;
        assert b in live';
      }
    }
  }

  lemma SizeAfterDrop<K, V>(m: map<K, V>, k: K)
    requires k in m
    ensures |m - {k}| == |m| - 1
  {
    assert (m - {k}).Keys == m.Keys - {k};
  }

  lemma SameLiveDrop(live: map<Addr, Info>, dict: map<string, C.Live>, a: Addr)
    requires SameLive(live, dict) && a in live
    ensures SameLive(live - {a}, dict - {Ptr(a)})
  {
    var live': map<Addr, Info>, dict' := live - {a}, dict - {Ptr(a)};
    hide Ptr, SameEntry;
    SizeAfterDrop(live, a);
    SizeAfterDrop(dict, Ptr(a));
    forall b | b in live' ensures b != 0 && Ptr(b) in dict' && SameEntry(live'[b], dict'[Ptr(b)]) {
      if Ptr(b) == Ptr(a) {
        PtrInjective(a, b);
      }
    }
    forall k | k in dict' ensures exists b :: b in live' && Ptr(b) == k {
      var b :| b in live && Ptr(b) == k;
      assert b in live';
    }
  }

  ghost predicate Matching(s: A.Stats, r: C.Replay)
  {
    && SameLive(s.live, r.live)
    && r.curBytes == A.LiveSizes(s.live)
    && r.peakCount == s.peakCount
    && r.unmatched == s.unmatched && r.matched + s.unmatched == s.unmaps
  }

  lemma SameSize(live: map<Addr, Info>, dict: map<string, C.Live>)
    requires SameLive(live, dict)
    ensures |live| == |dict|
  {}

  lemma SameEntryAt(live: map<Addr, Info>, dict: map<string, C.Live>, dp: bool, a: Addr)
    requires SameLive(live, dict)
    ensures a in live <==> AddrText(dp, a) in dict
    ensures a in live ==> AddrText(dp, a) == Ptr(a) && SameEntry(live[a], dict[Ptr(a)])
  {
    hide Ptr;
    SameKey(live, dict, dp, a);
  }

  lemma MatchingMap(dp: bool, s: A.Stats, r: C.Replay, e: A.Event, pid: C.Pid)
    requires Matching(s, r) && e.MapEvent? && (e.op == "map" || e.op == "map_on_pg")
    ensures Matching(A.Step(s, e), C.Step(r, RecOf(dp, s, e, pid)))
    ensures C.Step(r, RecOf(dp, s, e, pid)).lifetimes == r.lifetimes
    ensures C.Step(r, RecOf(dp, s, e, pid)).peakBytes
         == if A.Tracked(e) then Max(r.peakBytes, A.LiveSizes(A.Step(s, e).live)) else r.peakBytes
  {
    var rec := RecOf(dp, s, e, pid);
    AddrTextReal(dp, e.addr);
    hide AddrIsReal, C.Step, Ptr, Sum, SameLive, A.Wrap;
    C.StepCases(r, rec);
    assert C.Accepted(rec) <==> A.Tracked(e);
    if A.Tracked(e) {
      var x, y := Info(e.name, e.size, e.t), C.Live(e.size, Some(e.t), Some(OrEmpty(e.name)), Some(e.flags));
      SameLivePut(s.live, r.live, e.addr, x, y);
      SameEntryAt(s.live, r.live, dp, e.addr);
      SumAfterPut(s.live, (z: Info) => z.size, e.addr, x);
      SameSize(s.live[e.addr := x], r.live[Ptr(e.addr) := y]);
    }
  }

  lemma MatchingUnmap(dp: bool, s: A.Stats, r: C.Replay, e: A.Event, pid: C.Pid)
    requires Matching(s, r) && e.UnmapEvent?
    ensures Matching(A.Step(s, e), C.Step(r, RecOf(dp, s, e, pid)))
    ensures C.Step(r, RecOf(dp, s, e, pid)).peakBytes == r.peakBytes
    ensures var hit := A.LineOf(s, e).hit;
      Pairs(C.Step(r, RecOf(dp, s, e, pid)).lifetimes)
      == Pairs(r.lifetimes) + if hit.Some? then [(hit.value.size, hit.value.lifetime)] else []
  {
    var rec := RecOf(dp, s, e, pid);
    hide AddrIsReal, C.Step, Ptr, Sum, SameLive, A.Wrap, Pairs;
    C.StepCases(r, rec);
    SameEntryAt(s.live, r.live, dp, e.addr);
    if e.addr in s.live {
      var y := r.live[Ptr(e.addr)];
      SameLiveDrop(s.live, r.live, e.addr);
      SumWithout(s.live, (z: Info) => z.size, e.addr);
      PairsAppend(r.lifetimes, C.Lifetime(y.size, e.t - y.ts.value, y.flags));
    } else {
      assert r.lifetimes + [] == r.lifetimes;
    }
  }

  // ---- the whole log -------------------------------------------------------

  lemma {:induction false} OverwrittenStep(evs: seq<A.Event>)
    requires evs != []
    ensures A.Overwritten(evs[..|evs| - 1]) <= A.Overwritten(evs)
  {}

  lemma RecsUnfold(dp: bool, evs: seq<A.Event>, pid: C.Pid)
    requires evs != []
    ensures var n := |evs| - 1;
      C.ReplayAll(RecsOf(dp, evs, pid))
      == C.Step(C.ReplayAll(RecsOf(dp, evs[..n], pid)), RecOf(dp, A.Run(evs[..n]), evs[n], pid))
  {
    var recs, n := RecsOf(dp, evs, pid), |evs| - 1;
    C.ReplayUnfold(recs, n);
    RecsOfPrefix(dp, evs, pid, n);
    assert recs[..n + 1] == recs;
    hide C.ReplayAll, C.Step, RecOf;
  }

  lemma UnmapNotTracked(e: A.Event)
    ensures e.UnmapEvent? ==> !A.Tracked(e)
  {}

  lemma PeakStep(s: A.Stats, e: A.Event)
    ensures A.Step(s, e).peakBytes
         == if A.Tracked(e) then Max(s.peakBytes, A.Step(s, e).liveBytes) else s.peakBytes
  {
    hide A.Wrap;
  }

  lemma StepAgrees(dp: bool, s: A.Stats, r: C.Replay, e: A.Event, pid: C.Pid, over: nat, over': nat)
    requires Matching(s, r) && FromWrapper(e)
    requires r.peakBytes <= s.peakBytes <= r.peakBytes + over && over <= over'
    requires A.Step(s, e).liveBytes == A.LiveSizes(A.Step(s, e).live) + over'
    ensures Matching(A.Step(s, e), C.Step(r, RecOf(dp, s, e, pid)))
    ensures var peak := C.Step(r, RecOf(dp, s, e, pid)).peakBytes;
      peak <= A.Step(s, e).peakBytes <= peak + over'
    ensures var hit := A.LineOf(s, e).hit;
      Pairs(C.Step(r, RecOf(dp, s, e, pid)).lifetimes)
      == Pairs(r.lifetimes) + if hit.Some? then [(hit.value.size, hit.value.lifetime)] else []
  {
    PeakStep(s, e);
    assert e.MapEvent? ==> A.LineOf(s, e).hit.None?;
    hide C.Step, A.Step, Matching, Pairs, A.LineOf, A.LiveSizes, A.Tracked;
    if e.MapEvent? {
      MatchingMap(dp, s, r, e, pid);
      assert Pairs(r.lifetimes) + [] == Pairs(r.lifetimes);
    } else {
      MatchingUnmap(dp, s, r, e, pid);
      UnmapNotTracked(e);
    }
  }

  lemma RunNone()
    ensures A.Run([]) == A.START && A.Overwritten([]) == 0 && OnlineLifetimes([]) == [] && Pairs([]) == []
  {}

  lemma EmptyLogAgrees(dp: bool, pid: C.Pid)
    ensures Matching(A.Run([]), C.ReplayAll(RecsOf(dp, [], pid)))
    ensures Pairs(C.ReplayAll(RecsOf(dp, [], pid)).lifetimes) == OnlineLifetimes([])
    ensures C.ReplayAll(RecsOf(dp, [], pid)).peakBytes == A.Run([]).peakBytes == A.Overwritten([]) == 0
  {
    assert RecsOf(dp, [], pid) == [];
    C.ReplayNone();
    RunNone();
    hide C.ReplayAll, A.Run, Ptr;
    assert A.LiveSizes(map[]) == 0;
    assert SameLive(map[], map[]);
  }

  lemma LifetimesStep(evs: seq<A.Event>)
    requires evs != []
    ensures var n := |evs| - 1;
      var hit := A.LineOf(A.Run(evs[..n]), evs[n]).hit;
      OnlineLifetimes(evs)
      == OnlineLifetimes(evs[..n]) + if hit.Some? then [(hit.value.size, hit.value.lifetime)] else []
    ensures evs[|evs| - 1].MapEvent? ==> OnlineLifetimes(evs) == OnlineLifetimes(evs[..|evs| - 1])
  {
    hide A.Run, A.Step;
  }

  /** Replaying the records in the order they were written keeps step with the online
      accounting; only the byte peak can be lower, by at most the bytes that re-maps
      replaced. */
  lemma {:induction false} ReplayKeepsStep(dp: bool, evs: seq<A.Event>, pid: C.Pid)
    requires FromWrappers(evs) && A.MappedBytes(evs) < A.WORD
    ensures Matching(A.Run(evs), C.ReplayAll(RecsOf(dp, evs, pid)))
    ensures Pairs(C.ReplayAll(RecsOf(dp, evs, pid)).lifetimes) == OnlineLifetimes(evs)
    ensures C.ReplayAll(RecsOf(dp, evs, pid)).peakBytes <= A.Run(evs).peakBytes
                <= C.ReplayAll(RecsOf(dp, evs, pid)).peakBytes + A.Overwritten(evs)
  {
    hide C.Step, A.Step, A.Run, C.ReplayAll, Matching, Pairs, OnlineLifetimes, A.Overwritten, A.MappedBytes, A.LineOf,
         RecOf, RecsOf, A.LiveSizes;
    if evs == [] {
      EmptyLogAgrees(dp, pid);
    } else {
      var n := |evs| - 1;
      var p, e := evs[..n], evs[n];
      A.MappedBytesMonotone(evs, n);
      OverwrittenStep(evs);
      LifetimesStep(evs);
      ReplayKeepsStep(dp, p, pid);
      A.RunUnfold(evs);
      RecsUnfold(dp, evs, pid);
      A.LiveBytesExact(evs);
      StepAgrees(dp, A.Run(p), C.ReplayAll(RecsOf(dp, p, pid)), e, pid, A.Overwritten(p), A.Overwritten(evs));
    }
  }

  lemma RecRelevant(dp: bool, s: A.Stats, e: A.Event, pid: C.Pid)
    requires FromWrapper(e)
    ensures C.Relevant(RecOf(dp, s, e, pid)) && RecOf(dp, s, e, pid).pid == pid
  {}

  lemma {:induction false} OneGroup(dp: bool, evs: seq<A.Event>, pid: C.Pid)
    requires FromWrappers(evs)
    ensures C.Group(RecsOf(dp, evs, pid), pid) == RecsOf(dp, evs, pid)
    ensures C.Pids(RecsOf(dp, evs, pid)) == if evs == [] then [] else [pid]
  {
    var recs := RecsOf(dp, evs, pid);
    if evs != [] {
      var n := |evs| - 1;
      OneGroup(dp, evs[..n], pid);
      RecsOfPrefix(dp, evs, pid, n);
      RecRelevant(dp, A.Run(evs[..n]), evs[n], pid);
      hide RecOf, RecsOf, C.Relevant;
      assert recs == recs[..n] + [recs[n]];
    }
  }

  /** At some moment the online byte count was at its peak and no re-map had replaced
      any bytes yet. */
  ghost predicate PeakWithoutRemaps(evs: seq<A.Event>)
  {
    exists k :: 0 <= k <= |evs| && A.Overwritten(evs[..k]) == 0 && A.Run(evs[..k]).liveBytes == A.Run(evs).peakBytes
  }

  /** After any prefix the replay's byte count is the online one less the bytes that
      re-maps replaced. */
  lemma BytesAfterPrefix(dp: bool, evs: seq<A.Event>, pid: C.Pid, k: nat)
    requires FromWrappers(evs) && A.MappedBytes(evs) < A.WORD && k <= |evs|
    ensures A.Run(evs[..k]).liveBytes == C.ReplayAll(RecsOf(dp, evs, pid)[..k]).curBytes + A.Overwritten(evs[..k])
  {
    hide C.ReplayAll, A.Run, A.Overwritten, A.MappedBytes, A.LiveSizes, RecsOf, Pairs, OnlineLifetimes, SameLive;
    A.MappedBytesMonotone(evs, k);
    RecsOfPrefix(dp, evs, pid, k);
    ReplayKeepsStep(dp, evs[..k], pid);
    A.LiveBytesExact(evs[..k]);
  }

  lemma PeaksEqualIff(dp: bool, evs: seq<A.Event>, pid: C.Pid)
    requires FromWrappers(evs) && A.MappedBytes(evs) < A.WORD
    ensures C.ReplayAll(RecsOf(dp, evs, pid)).peakBytes == A.Run(evs).peakBytes <==> PeakWithoutRemaps(evs)
  {
    hide C.ReplayAll, A.Run, A.Overwritten, A.MappedBytes, RecsOf, Matching, Pairs, OnlineLifetimes;
    var recs := RecsOf(dp, evs, pid);
    A.PeakBytesIsMaximum(evs);
    C.PeakBytesIsMaximum(recs);
    ReplayKeepsStep(dp, evs, pid);
    if C.ReplayAll(recs).peakBytes == A.Run(evs).peakBytes {
      var k :| 0 <= k <= |recs| && C.ReplayAll(recs[..k]).curBytes == C.ReplayAll(recs).peakBytes;
      BytesAfterPrefix(dp, evs, pid, k);
      assert A.Overwritten(evs[..k]) == 0;
    }
    if PeakWithoutRemaps(evs) {
      var k :| 0 <= k <= |evs| && A.Overwritten(evs[..k]) == 0 && A.Run(evs[..k]).liveBytes == A.Run(evs).peakBytes;
      BytesAfterPrefix(dp, evs, pid, k);
    }
  }

  lemma InOrder(dp: bool, evs: seq<A.Event>, pid: C.Pid)
    requires A.InTimeOrder(evs)
    ensures Ordered(RecsOf(dp, evs, pid), C.TimeKey)
  {
    forall i | 0 <= i < |evs| ensures C.TimeKey(RecsOf(dp, evs, pid)[i]) == evs[i].t {
      RecsOfAt(dp, evs, pid, i);
    }
  }

  /** The analyser's report on the records `recs` of one process and the online accounting
      of the events evs: the same matched and unmatched counts, sequence of (size,
      lifetime), peak live count, and entries still live at the end. The online byte
      peak is at least the replay's, and equal to it exactly if it was reached before a
      re-map replaced any bytes. */
  ghost predicate Agree(recs: seq<C.Rec>, evs: seq<A.Event>, pid: C.Pid)
  {
    var s, r := A.Run(evs), C.PidReplay(recs, pid);
    && C.Pids(recs) == [pid]
    && r.matched == A.Matches(evs) && r.unmatched == s.unmatched
    && Pairs(r.lifetimes) == OnlineLifetimes(evs)
    && r.peakCount == s.peakCount
    && SameLive(s.live, r.live)
    && r.peakBytes <= s.peakBytes <= r.peakBytes + A.Overwritten(evs)
    && (r.peakBytes == s.peakBytes <==> PeakWithoutRemaps(evs))
  }

  /** For any stream of events of one process in time order, whose log is read whole,
      the analyser's report agrees with the online accounting. */
  lemma OnlineAndReplayAgree(dp: bool, evs: seq<A.Event>, pid: C.Pid)
    requires FromWrappers(evs) && A.InTimeOrder(evs) && evs != [] && A.MappedBytes(evs) < A.WORD
    ensures Agree(RecsOf(dp, evs, pid), evs, pid)
  {
    hide C.ReplayAll, A.Run, C.Group, C.Pids, SortBy, A.Overwritten, A.Matches, A.MappedBytes, Pairs,
         OnlineLifetimes, SameLive, A.LiveSizes, RecsOf, Ordered, A.Accepted, PeakWithoutRemaps;
    OneGroup(dp, evs, pid);
    InOrder(dp, evs, pid);
    SortKeepsOrdered(RecsOf(dp, evs, pid), C.TimeKey);
    ReplayKeepsStep(dp, evs, pid);
    A.EveryMapAccountedFor(evs);
    PeaksEqualIff(dp, evs, pid);
  }

  lemma {:induction false} NothingOverwritten(evs: seq<A.Event>, k: nat)
    requires A.Remaps(evs) == 0 && k <= |evs|
    ensures A.Overwritten(evs[..k]) == 0
  {
    hide A.Run;
    if evs == [] {
      assert evs[..k] == [];
    } else {
      var n := |evs| - 1;
      NothingOverwritten(evs[..n], if k <= n then k else n);
      if k <= n {
        assert evs[..n][..k] == evs[..k];
      } else {
        assert evs[..k] == evs && evs[..n][..n] == evs[..n];
      }
    }
  }

  /** In particular they are equal if no live address was mapped again. */
  lemma {:induction false} NoRemapSamePeak(evs: seq<A.Event>)
    requires A.Remaps(evs) == 0 && A.MappedBytes(evs) < A.WORD
    ensures PeakWithoutRemaps(evs)
  {
    hide A.Run, A.MappedBytes;
    A.PeakBytesIsMaximum(evs);
    var k :| 0 <= k <= |evs| && A.Run(evs[..k]).liveBytes == A.Run(evs).peakBytes;
    NothingOverwritten(evs, k);
  }

  lemma OnlineTwice(m: A.Event)
    requires A.Tracked(m)
    ensures A.Step(A.Step(A.START, m), m).peakBytes == 2 * m.size
  {
    A.WrapSmall(m.size);
    A.WrapSmall(2 * m.size);
    hide A.Wrap;
    assert A.Step(A.START, m).liveBytes == m.size;
  }

  lemma ReplayTwice(x: C.Rec)
    requires C.Accepted(x)
    ensures C.Step(C.Step(C.NOTHING, x), x).peakBytes == C.SizeOf(x)
  {
    hide AddrIsReal, C.Step;
    C.StepCases(C.NOTHING, x);
    C.StepCases(C.Step(C.NOTHING, x), x);
  }

  /** The exception: mapping n > 0 bytes twice at one address, without an unmap,
      makes the online peak 2n and the replay's n. */
  lemma RemapRaisesOnlinePeak(dp: bool, m: A.Event, pid: C.Pid)
    requires A.Tracked(m) && m.op == "map" && m.size > 0
    ensures A.Run([m, m]).peakBytes == 2 * m.size
    ensures C.ReplayAll(RecsOf(dp, [m, m], pid)).peakBytes == m.size
  {
    var evs := [m, m];
    assert evs[..1] == [m] && evs[..1][..0] == [];
    var recs := RecsOf(dp, evs, pid);
    RecsOfAt(dp, evs, pid, 0);
    RecsOfAt(dp, evs, pid, 1);
    assert recs == [RecOf(dp, A.START, m, pid), RecOf(dp, A.START, m, pid)];
    assert A.Run(evs[..1]) == A.Step(A.START, m) && A.Run(evs) == A.Step(A.Step(A.START, m), m);
    C.ReplayUnfold(recs, 0);
    C.ReplayUnfold(recs, 1);
    C.ReplayNone();
    assert recs[..0] == [] && recs[..2] == recs;
    hide A.Run, C.ReplayAll;
    OnlineTwice(m);
    AddrTextReal(dp, m.addr);
    ReplayTwice(RecOf(dp, A.START, m, pid));
  }
}
