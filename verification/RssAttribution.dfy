/** RSS attribution of the mem_trace analyser (tools/analyze_mem_trace.py, lines
    198-225): each mapped region's resident bytes are split over the records that
    overlap it, in exact arithmetic. */
module RssAttribution {
  import opened Arithmetic
  import opened Sorting
  import opened MapSums

  type Stack = seq<string>

  datatype Rec = Rec(addr: int, size: nat, stack: Stack)
  datatype Vma = Vma(start: int, end: int, rss: real)

  const REACH: int := 0x4_0000_0000   // 2^34, how far below a region the scan looks

  function Overlap(r: Rec, v: Vma): int
  {
    Min(r.addr + r.size, v.end) - Max(r.addr, v.start)
  }

  // ---- which records a region meets ----------------------------------------

  datatype Hit = Hit(r: Rec, ov: int)

  predicate Before(r: Rec, v: Vma)
  {
    r.addr + r.size <= v.start
  }

  /** The scan gives up at this record. */
  predicate Stops(r: Rec, v: Vma)
  {
    Before(r, v) && r.addr < v.start - REACH
  }

  /** Every record that overlaps v, from the highest address down. */
  function Overlapping(recs: seq<Rec>, v: Vma): seq<Hit>
  {
    if recs == [] then []
    else
      var r := recs[|recs| - 1];
      (if Overlap(r, v) > 0 then [Hit(r, Overlap(r, v))] else []) + Overlapping(recs[..|recs| - 1], v)
  }

  /** What the descending scan with its early break finds among recs. */
  function Scan(recs: seq<Rec>, v: Vma): seq<Hit>
  {
    if recs == [] then []
    else
      var r := recs[|recs| - 1];
      if Stops(r, v) then []
      else (if Overlap(r, v) > 0 then [Hit(r, Overlap(r, v))] else []) + Scan(recs[..|recs| - 1], v)
  }

  /** bisect_right(starts, x): where the addresses above x begin. */
  function BisectRight(recs: seq<Rec>, x: int): (n: nat)
    ensures n <= |recs|
  {
    if recs == [] || recs[|recs| - 1].addr <= x then |recs| else BisectRight(recs[..|recs| - 1], x)
  }

  ghost predicate Ascending(recs: seq<Rec>)
  {
    Ordered(recs, (r: Rec) => r.addr)
  }

  /** A record that overlaps v lies below one at which the scan stops. */
  ghost predicate Hidden(recs: seq<Rec>, v: Vma)
  {
    exists i, j :: 0 <= i < j < |recs| && Overlap(recs[i], v) > 0 && Stops(recs[j], v)
  }

  lemma {:induction false} OverlappingEmpty(recs: seq<Rec>, v: Vma)
    ensures Overlapping(recs, v) == [] <==> forall i :: 0 <= i < |recs| ==> Overlap(recs[i], v) <= 0
  {
    if recs != [] {
      OverlappingEmpty(recs[..|recs| - 1], v);
      assert forall i :: 0 <= i < |recs| - 1 ==> recs[..|recs| - 1][i] == recs[i];
    }
  }

  lemma NoneHidden(v: Vma)
    ensures !Hidden([], v)
  {}

  lemma HiddenMeets(recs: seq<Rec>, v: Vma)
    ensures Hidden(recs, v) ==> exists i :: 0 <= i < |recs| && Overlap(recs[i], v) > 0
  {}

  lemma StopsMeetsNothing(r: Rec, v: Vma)
    ensures Stops(r, v) ==> Overlap(r, v) <= 0
  {}

  lemma HiddenStep(recs: seq<Rec>, v: Vma)
    requires recs != []
    ensures var n := |recs| - 1;
      Hidden(recs, v) <==>
        Hidden(recs[..n], v) || (Stops(recs[n], v) && exists i :: 0 <= i < n && Overlap(recs[..n][i], v) > 0)
  {
    hide Overlap, Stops;
    var n := |recs| - 1;
    var p := recs[..n];
    assert forall i :: 0 <= i < n ==> p[i] == recs[i];
    if Hidden(p, v) {
      var i, j :| 0 <= i < j < |p| && Overlap(p[i], v) > 0 && Stops(p[j], v);
      assert Overlap(recs[i], v) > 0 && Stops(recs[j], v);
    }
    if Hidden(recs, v) {
      var i, j :| 0 <= i < j < |recs| && Overlap(recs[i], v) > 0 && Stops(recs[j], v);
      assert Overlap(p[i], v) > 0;
      if j < n { assert Stops(p[j], v); }
    }
    if i :| 0 <= i < n && Overlap(p[i], v) > 0 {
      assert Overlap(recs[i], v) > 0;
    }
  }

  /** The scan finds exactly the overlapping records if and only if it does not stop
      above one of them. */
  lemma {:induction false} ScanCompleteIff(recs: seq<Rec>, v: Vma)
    ensures Scan(recs, v) == Overlapping(recs, v) <==> !Hidden(recs, v)
  {
    hide Overlap, Hidden;
    if recs == [] {
      assert !Hidden(recs, v) by { NoneHidden(v); }
    } else {
      var n := |recs| - 1;
      var p, r := recs[..n], recs[n];
      ScanCompleteIff(p, v);
      OverlappingEmpty(p, v);
      HiddenStep(recs, v);
      HiddenMeets(p, v);
      StopsMeetsNothing(r, v);
      if Overlap(r, v) > 0 {
        var h := [Hit(r, Overlap(r, v))];
        assert (h + Scan(p, v))[1..] == Scan(p, v) && (h + Overlapping(p, v))[1..] == Overlapping(p, v);
      } else {
        assert [] + Scan(p, v) == Scan(p, v) && [] + Overlapping(p, v) == Overlapping(p, v);
      }
    }
  }

  /** Records above the end of the region do not overlap it. */
  lemma {:induction false} NothingAbove(recs: seq<Rec>, v: Vma)
    requires Ascending(recs)
    ensures Overlapping(recs[..BisectRight(recs, v.end)], v) == Overlapping(recs, v)
    ensures forall i :: BisectRight(recs, v.end) <= i < |recs| ==> recs[i].addr > v.end
  {
    if recs == [] || recs[|recs| - 1].addr <= v.end {
      assert recs[..|recs|] == recs;
    } else {
      var p := recs[..|recs| - 1];
      NothingAbove(p, v);
      assert recs[..BisectRight(recs, v.end)] == p[..BisectRight(p, v.end)];
    }
  }

  /** The analyser's search finds exactly the records that overlap the region if and
      only if none of them lies below a record at which it stops. */
  lemma SearchCompleteIff(recs: seq<Rec>, v: Vma)
    requires Ascending(recs)
    ensures Scan(recs[..BisectRight(recs, v.end)], v) == Overlapping(recs, v) <==> !Hidden(recs, v)
  {
    NothingAbove(recs, v);
    var low := recs[..BisectRight(recs, v.end)];
    ScanCompleteIff(low, v);
    hide BisectRight, Scan, Overlapping;
    if Hidden(recs, v) {
      var i, j :| 0 <= i < j < |recs| && Overlap(recs[i], v) > 0 && Stops(recs[j], v);
      assert j < |low| && low[i] == recs[i] && low[j] == recs[j];
    }
    if Hidden(low, v) {
      var i, j :| 0 <= i < j < |low| && Overlap(low[i], v) > 0 && Stops(low[j], v);
      assert recs[i] == low[i] && recs[j] == low[j];
    }
  }

  predicate Apart(r: Rec, q: Rec)
  {
    Min(r.addr + r.size, q.addr + q.size) <= Max(r.addr, q.addr)
  }

  ghost predicate Disjoint(recs: seq<Rec>)
  {
    Pairwise(recs, Apart)
  }

  /** Records that the search never misses: none is larger than 2^34 bytes, or they are
      disjoint and none is empty. */
  ghost predicate Regular(recs: seq<Rec>)
  {
    || (forall r :: r in recs ==> r.size <= REACH)
    || (Disjoint(recs) && forall r :: r in recs ==> r.size > 0)
  }

  lemma SearchComplete(recs: seq<Rec>, v: Vma)
    requires Ascending(recs) && Regular(recs)
    ensures !Hidden(recs, v)
    ensures Scan(recs[..BisectRight(recs, v.end)], v) == Overlapping(recs, v)
  {
    forall i, j | 0 <= i < j < |recs| && Overlap(recs[i], v) > 0 ensures !Stops(recs[j], v) {
      assert recs[i] in recs && recs[j] in recs && recs[i].addr <= recs[j].addr;
    }
    SearchCompleteIff(recs, v);
  }

  /** With a larger record that another one lies in - the record of a mapping replaced in
      part, say - the search can miss it. */
  lemma LargeRecordMissed(s: Stack)
    ensures var recs := [Rec(0x1000, 2 * REACH, s), Rec(0x2000, 0x1000, s)];
      var v := Vma(REACH + 0x4000, REACH + 0x5000, 1.0);
      && Ascending(recs)
      && Overlapping(recs, v) == [Hit(recs[0], 0x1000)] && Scan(recs[..BisectRight(recs, v.end)], v) == []
  {
    var recs := [Rec(0x1000, 2 * REACH, s), Rec(0x2000, 0x1000, s)];
    var v := Vma(REACH + 0x4000, REACH + 0x5000, 1.0);
    assert recs[..2] == recs && recs[..1] == [recs[0]] && recs[..1][..0] == [];
    assert Overlapping(recs[..1], v) == [Hit(recs[0], 0x1000)] + Overlapping([], v);
  }

  // ---- splitting the resident bytes ----------------------------------------

  /** The part of rss that falls to `ov` bytes of a region of `len` bytes. */
  function Share(rss: real, ov: int, len: int): real
    requires len > 0
  {
    rss * (ov as real / len as real)
  }

  lemma ShareAdds(rss: real, a: int, b: int, len: int)
    requires len > 0
    ensures Share(rss, a + b, len) == Share(rss, a, len) + Share(rss, b, len)
    ensures Share(rss, len, len) == rss
    ensures Share(rss, 0, len) == 0.0
  {
    var x, y, l := a as real, b as real, len as real;
    assert (a + b) as real == x + y;
    assert (x + y) / l == x / l + y / l;
    assert rss * (x / l + y / l) == rss * (x / l) + rss * (y / l);
    assert l / l == 1.0;
  }

  function Covered(hits: seq<Hit>): int
  {
    if hits == [] then 0 else Covered(hits[..|hits| - 1]) + hits[|hits| - 1].ov
  }

  /** What the hits of one region give to a stack. */
  function ShareOf(hits: seq<Hit>, v: Vma, s: Stack): real
    requires v.start < v.end
  {
    if hits == [] then 0.0
    else ShareOf(hits[..|hits| - 1], v, s)
         + if hits[|hits| - 1].r.stack == s then Share(v.rss, hits[|hits| - 1].ov, v.end - v.start) else 0.0
  }

  predicate Skipped(v: Vma)
  {
    v.end <= v.start || v.rss == 0.0
  }

  /** What all regions give to a stack: the independent account of the result. */
  function Attributed(recs: seq<Rec>, vmas: seq<Vma>, s: Stack): real
  {
    if vmas == [] then 0.0
    else
      var v := vmas[|vmas| - 1];
      Attributed(recs, vmas[..|vmas| - 1], s)
      + if Skipped(v) then 0.0 else ShareOf(Scan(recs[..BisectRight(recs, v.end)], v), v, s)
  }

  function Unattributed(recs: seq<Rec>, vmas: seq<Vma>): real
  {
    if vmas == [] then 0.0
    else
      var v := vmas[|vmas| - 1];
      Unattributed(recs, vmas[..|vmas| - 1])
      + if Skipped(v) then 0.0
        else Share(v.rss, v.end - v.start - Covered(Scan(recs[..BisectRight(recs, v.end)], v)), v.end - v.start)
  }

  function TotalRss(vmas: seq<Vma>): real
  {
    if vmas == [] then 0.0 else TotalRss(vmas[..|vmas| - 1]) + vmas[|vmas| - 1].rss
  }

  /** RSS of regions without a positive length, which are counted in the total only. */
  function DegenerateRss(vmas: seq<Vma>): real
  {
    if vmas == [] then 0.0
    else DegenerateRss(vmas[..|vmas| - 1])
         + if vmas[|vmas| - 1].end <= vmas[|vmas| - 1].start then vmas[|vmas| - 1].rss else 0.0
  }

  ghost function SumReal(m: map<Stack, real>): real
    decreases |m|
  {
    if m == map[] then 0.0
    else
      var k := Pick(m);
      m[k] + SumReal(m - {k})
  }

  lemma {:induction false} SumRealWithout(m: map<Stack, real>, x: Stack)
    requires x in m
    ensures SumReal(m) == m[x] + SumReal(m - {x})
    decreases |m|
  {
    hide Pick;
    var k := Pick(m);
    if k != x {
      SumRealWithout(m - {k}, x);
      SumRealWithout(m - {x}, k);
      assert m - {k} - {x} == m - {x} - {k};
    }
  }

  function Get(m: map<Stack, real>, s: Stack): real
  {
    if s in m then m[s] else 0.0
  }

  lemma SumRealAfterAdd(m: map<Stack, real>, s: Stack, x: real)
    ensures SumReal(m[s := Get(m, s) + x]) == SumReal(m) + x
  {
    var m' := m[s := Get(m, s) + x];
    SumRealWithout(m', s);
    assert m' - {s} == m - {s};
    if s in m {
      SumRealWithout(m, s);
    } else {
      assert m - {s} == m;
    }
  }

  // ---- the analyser's function ---------------------------------------------

  lemma ScanStep(recs: seq<Rec>, i: nat, v: Vma)
    requires i < |recs|
    ensures Scan(recs[..i + 1], v)
         == if Stops(recs[i], v) then []
            else if Overlap(recs[i], v) > 0 then [Hit(recs[i], Overlap(recs[i], v))] + Scan(recs[..i], v)
            else Scan(recs[..i], v)
    ensures Before(recs[i], v) ==> Overlap(recs[i], v) <= 0
  {
    assert recs[..i + 1][..i] == recs[..i];
  }

  lemma ScanNothing(v: Vma)
    ensures Scan([], v) == []
  {}

  /** The inner while loop: from the bisection point down, with the early break. */
  method FindHits(recs: seq<Rec>, v: Vma) returns (hits: seq<Hit>, covered: int)
    ensures hits == Scan(recs[..BisectRight(recs, v.end)], v)
    ensures covered == Covered(hits)
  {
    var i := BisectRight(recs, v.end) - 1;
    hide Overlap, BisectRight, Scan;
    covered, hits := 0, [];
    ghost var whole := Scan(recs[..i + 1], v);
    while i >= 0
      invariant -1 <= i < |recs|
      invariant hits + Scan(recs[..i + 1], v) == whole
      invariant covered == Covered(hits)
      decreases i
    {
      var r := recs[i];
      ScanStep(recs, i, v);
      if Before(r, v) {
        if r.addr < v.start - REACH {
          break;
        }
        i := i - 1;
        continue;
      }
      var ov := Overlap(r, v);
      if ov > 0 {
        assert hits + ([Hit(r, ov)] + Scan(recs[..i], v)) == (hits + [Hit(r, ov)]) + Scan(recs[..i], v);
        assert (hits + [Hit(r, ov)])[..|hits|] == hits;
        hits := hits + [Hit(r, ov)];
        covered := covered + ov;
      }
      i := i - 1;
    }
    if i < 0 {
      ScanNothing(v);
      assert recs[..0] == [];
    }
  }

  lemma SumRealEmpty()
    ensures SumReal(map[]) == 0.0
  {}

  /** The loop over one region's hits. */
  method AddHits(g0: map<Stack, real>, hits: seq<Hit>, v: Vma) returns (g: map<Stack, real>)
    requires v.start < v.end
    ensures forall s :: Get(g, s) == Get(g0, s) + ShareOf(hits, v, s)
    ensures SumReal(g) == SumReal(g0) + Share(v.rss, Covered(hits), v.end - v.start)
  {
    hide Share, SumReal;
    var len := v.end - v.start;
    g := g0;
    ShareAdds(v.rss, 0, 0, len);
    for k := 0 to |hits|
      invariant forall s :: Get(g, s) == Get(g0, s) + ShareOf(hits[..k], v, s)
      invariant SumReal(g) == SumReal(g0) + Share(v.rss, Covered(hits[..k]), len)
    {
      assert hits[..k + 1][..k] == hits[..k];
      var st, x := hits[k].r.stack, Share(v.rss, hits[k].ov, len);
      SumRealAfterAdd(g, st, x);
      ShareAdds(v.rss, Covered(hits[..k]), hits[k].ov, len);
      g := g[st := Get(g, st) + x];
    }
    assert hits[..|hits|] == hits;
  }

  method AttributeRss(mRecs: seq<Rec>, vmas: seq<Vma>)
    returns (g: map<Stack, real>, unattributed: real, total: real)
    ensures var recs := SortBy(mRecs, (r: Rec) => r.addr);
      && (forall s :: Get(g, s) == Attributed(recs, vmas, s))
      && unattributed == Unattributed(recs, vmas)
    ensures total == TotalRss(vmas)
    ensures SumReal(g) + unattributed == total - DegenerateRss(vmas)
  {
    hide Scan, Overlap, BisectRight, Share, ShareOf, Covered, SumReal;
    var recs := SortBy(mRecs, (r: Rec) => r.addr);
    g, unattributed, total := map[], 0.0, 0.0;
    SumRealEmpty();
    for k := 0 to |vmas|
      invariant forall s :: Get(g, s) == Attributed(recs, vmas[..k], s)
      invariant unattributed == Unattributed(recs, vmas[..k])
      invariant total == TotalRss(vmas[..k])
      invariant SumReal(g) + unattributed == total - DegenerateRss(vmas[..k])
    {
      var v := vmas[k];
      assert vmas[..k + 1][..k] == vmas[..k];
      total := total + v.rss;
      if v.end - v.start <= 0 || v.rss == 0.0 {
        continue;
      }
      var hits, covered := FindHits(recs, v);
      g := AddHits(g, hits, v);
      unattributed := unattributed + Share(v.rss, v.end - v.start - covered, v.end - v.start);
      ShareAdds(v.rss, covered, v.end - v.start - covered, v.end - v.start);
    }
    assert vmas[..|vmas|] == vmas;
  }

  // ---- what the result means -----------------------------------------------

  /** What a stack deserves of one region: its records' overlaps, pro rata. */
  function FairShare(recs: seq<Rec>, v: Vma, s: Stack): real
    requires v.start < v.end
  {
    if recs == [] then 0.0
    else
      var r := recs[|recs| - 1];
      FairShare(recs[..|recs| - 1], v, s)
      + if r.stack == s then Share(v.rss, Max(0, Overlap(r, v)), v.end - v.start) else 0.0
  }

  function FairTotal(recs: seq<Rec>, vmas: seq<Vma>, s: Stack): real
  {
    if vmas == [] then 0.0
    else
      var v := vmas[|vmas| - 1];
      FairTotal(recs, vmas[..|vmas| - 1], s) + if v.end <= v.start then 0.0 else FairShare(recs, v, s)
  }

  lemma {:induction false} ShareOfHead(h: Hit, hits: seq<Hit>, v: Vma, s: Stack)
    requires v.start < v.end
    ensures ShareOf([h] + hits, v, s)
         == (if h.r.stack == s then Share(v.rss, h.ov, v.end - v.start) else 0.0) + ShareOf(hits, v, s)
  {
    hide Share;
    if hits != [] {
      var n := |hits| - 1;
      ShareOfHead(h, hits[..n], v, s);
      assert ([h] + hits)[..n + 1] == [h] + hits[..n];
    } else {
      assert [h] + hits == [h] && [h][..0] == [];
    }
  }

  lemma {:induction false} HitsAreFair(recs: seq<Rec>, v: Vma, s: Stack)
    requires v.start < v.end
    ensures ShareOf(Overlapping(recs, v), v, s) == FairShare(recs, v, s)
  {
    hide Share, Overlap;
    if recs != [] {
      var n := |recs| - 1;
      var r := recs[n];
      HitsAreFair(recs[..n], v, s);
      ShareAdds(v.rss, 0, 0, v.end - v.start);
      if Overlap(r, v) > 0 {
        ShareOfHead(Hit(r, Overlap(r, v)), Overlapping(recs[..n], v), v, s);
      } else {
        assert [] + Overlapping(recs[..n], v) == Overlapping(recs[..n], v);
      }
    }
  }

  lemma {:induction false} NoRssNoShare(recs: seq<Rec>, v: Vma, s: Stack)
    requires v.start < v.end && v.rss == 0.0
    ensures FairShare(recs, v, s) == 0.0
  {
    if recs != [] {
      NoRssNoShare(recs[..|recs| - 1], v, s);
    }
  }

  lemma FairShareAppend(recs: seq<Rec>, x: Rec, v: Vma, s: Stack)
    requires v.start < v.end
    ensures FairShare(recs + [x], v, s)
         == FairShare(recs, v, s) + if x.stack == s then Share(v.rss, Max(0, Overlap(x, v)), v.end - v.start) else 0.0
  {
    hide Share, Overlap;
    assert (recs + [x])[..|recs|] == recs;
  }

  lemma {:induction false} FairShareOfInsert(recs: seq<Rec>, x: Rec, key: Rec -> int, v: Vma, s: Stack)
    requires v.start < v.end
    ensures FairShare(Insert(recs, x, key), v, s) == FairShare(recs + [x], v, s)
  {
    hide Share, Overlap, FairShare;
    if recs != [] && key(recs[|recs| - 1]) > key(x) {
      var n := |recs| - 1;
      FairShareOfInsert(recs[..n], x, key, v, s);
      FairShareAppend(Insert(recs[..n], x, key), recs[n], v, s);
      FairShareAppend(recs[..n], x, v, s);
      FairShareAppend(recs[..n], recs[n], v, s);
      FairShareAppend(recs, x, v, s);
      assert recs == recs[..n] + [recs[n]];
    }
  }

  /** The order of the records does not matter to what is deserved. */
  lemma {:induction false} FairShareOfSorted(recs: seq<Rec>, key: Rec -> int, v: Vma, s: Stack)
    requires v.start < v.end
    ensures FairShare(SortBy(recs, key), v, s) == FairShare(recs, v, s)
  {
    hide Share, Overlap, Insert;
    if recs != [] {
      var n := |recs| - 1;
      FairShareOfSorted(recs[..n], key, v, s);
      FairShareOfInsert(SortBy(recs[..n], key), recs[n], key, v, s);
      FairShareAppend(SortBy(recs[..n], key), recs[n], v, s);
    }
  }

  lemma SortedRecs(mRecs: seq<Rec>)
    ensures var recs := SortBy(mRecs, (r: Rec) => r.addr);
      && Ascending(recs) && multiset(recs) == multiset(mRecs)
      && (forall r :: r in recs <==> r in mRecs)
      && (Disjoint(mRecs) ==> Disjoint(recs)) && (Regular(mRecs) ==> Regular(recs))
  {
    var key := (r: Rec) => r.addr;
    var recs := SortBy(mRecs, key);
    SortOrders(mRecs, key);
    forall r ensures r in recs <==> r in mRecs {
      assert r in recs <==> r in multiset(recs);
      assert r in mRecs <==> r in multiset(mRecs);
    }
    if Disjoint(mRecs) {
      SortKeepsPairwise(mRecs, key, Apart);
    }
  }

  lemma {:induction false} FairIfNoneHidden(mRecs: seq<Rec>, vmas: seq<Vma>, s: Stack)
    requires var recs := SortBy(mRecs, (r: Rec) => r.addr);
      forall k :: 0 <= k < |vmas| && !Skipped(vmas[k]) ==> !Hidden(recs, vmas[k])
    ensures Attributed(SortBy(mRecs, (r: Rec) => r.addr), vmas, s) == FairTotal(mRecs, vmas, s)
  {
    hide Hidden, SortBy, Scan, BisectRight, ShareOf, FairShare;
    if vmas != [] {
      var n := |vmas| - 1;
      var recs, v := SortBy(mRecs, (r: Rec) => r.addr), vmas[n];
      FairIfNoneHidden(mRecs, vmas[..n], s);
      SortedRecs(mRecs);
      if v.start < v.end {
        SearchCompleteIff(recs, v);
        HitsAreFair(recs, v, s);
        FairShareOfSorted(mRecs, (r: Rec) => r.addr, v, s);
        if v.rss == 0.0 {
          NoRssNoShare(mRecs, v, s);
        }
      }
    }
  }

  /** What AttributeRss gives a stack is exactly its pro rata share of every region, if
      the search misses no record of any region; so for all regular records, in whatever
      order they come. */
  lemma AttributionIsFair(mRecs: seq<Rec>, vmas: seq<Vma>, s: Stack)
    ensures var recs := SortBy(mRecs, (r: Rec) => r.addr);
      Regular(mRecs) || (forall k :: 0 <= k < |vmas| && !Skipped(vmas[k]) ==> !Hidden(recs, vmas[k]))
      ==> Attributed(recs, vmas, s) == FairTotal(mRecs, vmas, s)
  {
    var recs := SortBy(mRecs, (r: Rec) => r.addr);
    SortedRecs(mRecs);
    if Regular(mRecs) {
      forall k | 0 <= k < |vmas| ensures !Hidden(recs, vmas[k]) {
        SearchComplete(recs, vmas[k]);
      }
    }
    if forall k :: 0 <= k < |vmas| && !Skipped(vmas[k]) ==> !Hidden(recs, vmas[k]) {
      FairIfNoneHidden(mRecs, vmas, s);
    }
  }

  lemma {:induction false} ShareOfConcat(a: seq<Hit>, b: seq<Hit>, v: Vma, s: Stack)
    requires v.start < v.end
    ensures ShareOf(a + b, v, s) == ShareOf(a, v, s) + ShareOf(b, v, s)
  {
    hide Share;
    if b == [] {
      assert a + b == a;
    } else {
      var n := |b| - 1;
      ShareOfConcat(a, b[..n], v, s);
      assert (a + b)[..|a| + n] == a + b[..n];
    }
  }

  lemma SharePositive(rss: real, ov: int, len: int)
    requires rss > 0.0 && ov > 0 && len > 0
    ensures Share(rss, ov, len) > 0.0
  {
    assert ov as real / len as real > 0.0;
  }

  lemma {:induction false} ShareOfNonNegative(hits: seq<Hit>, v: Vma, s: Stack)
    requires v.start < v.end && v.rss > 0.0 && forall i :: 0 <= i < |hits| ==> hits[i].ov > 0
    ensures ShareOf(hits, v, s) >= 0.0
    ensures hits != [] && hits[0].r.stack == s ==> ShareOf(hits, v, s) > 0.0
  {
    if hits != [] {
      var n := |hits| - 1;
      ShareOfNonNegative(hits[..n], v, s);
      SharePositive(v.rss, hits[n].ov, v.end - v.start);
      hide Share;
    }
  }

  /** What the scan finds is the first part of what there is, down to where it stops. */
  lemma {:induction false} ScanIsPrefix(recs: seq<Rec>, v: Vma)
    ensures Scan(recs, v) <= Overlapping(recs, v)
    ensures forall i :: 0 <= i < |Overlapping(recs, v)| ==> Overlapping(recs, v)[i].ov > 0
  {
    hide Overlap;
    if recs != [] {
      ScanIsPrefix(recs[..|recs| - 1], v);
    }
  }

  /** A region with resident bytes is split fairly over all stacks if and only if no
      record that overlaps it lies below one at which the search stops. */
  lemma RegionIsFairIff(recs: seq<Rec>, v: Vma)
    requires Ascending(recs) && v.start < v.end && v.rss > 0.0
    ensures (forall s :: ShareOf(Scan(recs[..BisectRight(recs, v.end)], v), v, s) == FairShare(recs, v, s))
            <==> !Hidden(recs, v)
  {
    hide Hidden, ShareOf, FairShare, Overlap, Scan, Overlapping, BisectRight;
    var low := recs[..BisectRight(recs, v.end)];
    var found, all := Scan(low, v), Overlapping(recs, v);
    NothingAbove(recs, v);
    SearchCompleteIff(recs, v);
    ScanIsPrefix(low, v);
    forall s ensures ShareOf(all, v, s) == FairShare(recs, v, s) {
      HitsAreFair(recs, v, s);
    }
    if found != all {
      var rest := all[|found|..];
      assert all == found + rest;
      var s := rest[0].r.stack;
      ShareOfConcat(found, rest, v, s);
      ShareOfNonNegative(rest, v, s);
      assert ShareOf(found, v, s) != FairShare(recs, v, s);
    }
  }

  // ---- what is left over ---------------------------------------------------

  ghost function Interval(a: int, b: int): (s: set<int>)
    ensures forall x :: x in s <==> a <= x < b
    ensures |s| == Max(0, b - a)
    decreases b - a
  {
    if b <= a then {} else Interval(a, b - 1) + {b - 1}
  }

  /** The bytes of the region that the record covers. */
  ghost function Bytes(r: Rec, v: Vma): set<int>
  {
    Interval(Max(r.addr, v.start), Min(r.addr + r.size, v.end))
  }

  ghost function CoveredBytes(recs: seq<Rec>, v: Vma): set<int>
  {
    set x | x in Interval(v.start, v.end) && exists r :: r in recs && x in Bytes(r, v)
  }

  /** No byte of the region is covered by two records. */
  ghost predicate DisjointIn(recs: seq<Rec>, v: Vma)
  {
    Pairwise(recs, (r: Rec, q: Rec) => Bytes(r, v) !! Bytes(q, v))
  }

  lemma BytesSize(r: Rec, v: Vma)
    ensures |Bytes(r, v)| == Max(0, Overlap(r, v))
  {}

  lemma {:induction false} CoveredAfterHead(h: Hit, hits: seq<Hit>)
    ensures Covered([h] + hits) == h.ov + Covered(hits)
  {
    if hits != [] {
      var n := |hits| - 1;
      CoveredAfterHead(h, hits[..n]);
      assert ([h] + hits)[..n + 1] == [h] + hits[..n];
    } else {
      assert [h] + hits == [h] && [h][..0] == [];
    }
  }

  lemma UnionSize<T>(a: set<T>, b: set<T>)
    ensures |a + b| <= |a| + |b|
    ensures |a + b| == |a| + |b| <==> a !! b
  {
    assert a + b == a + (b - a);
    assert b == (b - a) + (b * a);
    if |a + b| == |a| + |b| {
      assert |b * a| == 0;
      assert a * b == b * a;
    }
  }

  lemma BytesInside(r: Rec, v: Vma)
    ensures Bytes(r, v) <= Interval(v.start, v.end)
  {}

  lemma InCovered(recs: seq<Rec>, v: Vma, x: int)
    ensures x in CoveredBytes(recs, v) <==> exists i :: 0 <= i < |recs| && x in Bytes(recs[i], v)
  {
    hide Bytes, Interval;
    if i :| 0 <= i < |recs| && x in Bytes(recs[i], v) {
      BytesInside(recs[i], v);
      assert recs[i] in recs;
    }
  }

  lemma CoveredOneMore(recs: seq<Rec>, v: Vma)
    requires recs != []
    ensures CoveredBytes(recs, v) == CoveredBytes(recs[..|recs| - 1], v) + Bytes(recs[|recs| - 1], v)
  {
    hide Bytes, CoveredBytes;
    var n := |recs| - 1;
    var p := recs[..n];
    forall x ensures x in CoveredBytes(recs, v) <==> x in CoveredBytes(p, v) || x in Bytes(recs[n], v) {
      InCovered(recs, v, x);
      InCovered(p, v, x);
      if i :| 0 <= i < |p| && x in Bytes(p[i], v) {
        assert x in Bytes(recs[i], v);
      }
      if i :| 0 <= i < n && x in Bytes(recs[i], v) {
        assert x in Bytes(p[i], v);
      }
    }
  }

  lemma DisjointInIs(recs: seq<Rec>, v: Vma)
    ensures DisjointIn(recs, v) <==> forall i, j :: 0 <= i < j < |recs| ==> Bytes(recs[i], v) !! Bytes(recs[j], v)
  {
    hide Bytes;
    var rel := (r: Rec, q: Rec) => Bytes(r, v) !! Bytes(q, v);
    assert forall i, j :: 0 <= i < j < |recs| ==> (rel(recs[i], recs[j]) <==> Bytes(recs[i], v) !! Bytes(recs[j], v));
  }

  lemma MissesCovered(recs: seq<Rec>, v: Vma, b: set<int>)
    ensures CoveredBytes(recs, v) !! b <==> forall i :: 0 <= i < |recs| ==> Bytes(recs[i], v) !! b
  {
    hide Bytes, CoveredBytes;
    forall x ensures x in CoveredBytes(recs, v) <==> exists i :: 0 <= i < |recs| && x in Bytes(recs[i], v) {
      InCovered(recs, v, x);
    }
    if CoveredBytes(recs, v) !! b {
      forall i | 0 <= i < |recs| ensures Bytes(recs[i], v) !! b {
        assert Bytes(recs[i], v) <= CoveredBytes(recs, v);
      }
    }
  }

  lemma DisjointOneMore(recs: seq<Rec>, v: Vma)
    requires recs != []
    ensures var n := |recs| - 1;
      DisjointIn(recs, v) <==> DisjointIn(recs[..n], v) && CoveredBytes(recs[..n], v) !! Bytes(recs[n], v)
  {
    hide Bytes, CoveredBytes, DisjointIn;
    var n := |recs| - 1;
    var p := recs[..n];
    DisjointInIs(recs, v);
    DisjointInIs(p, v);
    MissesCovered(p, v, Bytes(recs[n], v));
    assert forall i :: 0 <= i < n ==> p[i] == recs[i];
  }

  lemma NothingCovered(v: Vma)
    ensures CoveredBytes([], v) == {} && DisjointIn([], v) && Covered(Overlapping([], v)) == 0
  {}

  /** The overlaps add up to the covered bytes if and only if no byte is covered twice. */
  lemma {:induction false} OverlapsAreBytesIff(recs: seq<Rec>, v: Vma)
    ensures Covered(Overlapping(recs, v)) >= |CoveredBytes(recs, v)|
    ensures Covered(Overlapping(recs, v)) == |CoveredBytes(recs, v)| <==> DisjointIn(recs, v)
  {
    hide Overlap, Bytes, DisjointIn, CoveredBytes;
    if recs == [] {
      NothingCovered(v);
    } else {
      var n := |recs| - 1;
      var r, p := recs[n], recs[..n];
      OverlapsAreBytesIff(p, v);
      CoveredOneMore(recs, v);
      DisjointOneMore(recs, v);
      UnionSize(CoveredBytes(p, v), Bytes(r, v));
      BytesSize(r, v);
      CoveredAfterHead(Hit(r, Overlap(r, v)), Overlapping(p, v));
      assert [] + Overlapping(p, v) == Overlapping(p, v);
    }
  }

  ghost function UncoveredBytes(recs: seq<Rec>, v: Vma): set<int>
  {
    Interval(v.start, v.end) - CoveredBytes(recs, v)
  }

  lemma UncoveredSize(recs: seq<Rec>, v: Vma)
    requires v.start < v.end
    ensures |UncoveredBytes(recs, v)| == v.end - v.start - |CoveredBytes(recs, v)|
  {
    hide Bytes;
    var all := Interval(v.start, v.end);
    assert CoveredBytes(recs, v) <= all;
    assert |all - CoveredBytes(recs, v)| == |all| - |CoveredBytes(recs, v)|;
  }

  /** What a region leaves over, if no record is missed: at most the bytes that no record
      covers, and exactly those if and only if no byte is covered twice. */
  lemma RegionLeavesUncoveredIff(recs: seq<Rec>, v: Vma)
    requires Ascending(recs) && v.start < v.end && !Hidden(recs, v)
    ensures var left := v.end - v.start - Covered(Scan(recs[..BisectRight(recs, v.end)], v));
      && left <= |UncoveredBytes(recs, v)|
      && (left == |UncoveredBytes(recs, v)| <==> DisjointIn(recs, v))
  {
    hide Scan, Overlapping, BisectRight, Hidden, Covered, UncoveredBytes, CoveredBytes, DisjointIn;
    SearchCompleteIff(recs, v);
    OverlapsAreBytesIff(recs, v);
    UncoveredSize(recs, v);
  }

  /** The resident bytes of all regions that fall to bytes no record covers. */
  ghost function UncoveredRss(recs: seq<Rec>, vmas: seq<Vma>): real
  {
    if vmas == [] then 0.0
    else
      var v := vmas[|vmas| - 1];
      UncoveredRss(recs, vmas[..|vmas| - 1])
      + if Skipped(v) then 0.0 else Share(v.rss, |UncoveredBytes(recs, v)|, v.end - v.start)
  }

  lemma SortedCovers(mRecs: seq<Rec>, v: Vma)
    ensures var recs := SortBy(mRecs, (r: Rec) => r.addr);
      && UncoveredBytes(recs, v) == UncoveredBytes(mRecs, v)
      && (DisjointIn(mRecs, v) ==> DisjointIn(recs, v))
  {
    SortedRecs(mRecs);
    hide Bytes, SortBy;
    if DisjointIn(mRecs, v) {
      SortKeepsPairwise(mRecs, (r: Rec) => r.addr, (r: Rec, q: Rec) => Bytes(r, v) !! Bytes(q, v));
    }
  }

  lemma ApartInside(r: Rec, q: Rec, v: Vma)
    requires Apart(r, q)
    ensures Bytes(r, v) !! Bytes(q, v)
  {
    forall x | x in Bytes(r, v) ensures x !in Bytes(q, v) {
    }
  }

  lemma DisjointInside(recs: seq<Rec>, v: Vma)
    requires Disjoint(recs)
    ensures DisjointIn(recs, v)
  {
    hide Bytes, Apart;
    forall i, j | 0 <= i < j < |recs| ensures Bytes(recs[i], v) !! Bytes(recs[j], v) {
      ApartInside(recs[i], recs[j], v);
    }
  }

  /** What stays unattributed is exactly the share of the bytes that no record covers, if
      in every region the search misses nothing and no byte is covered twice. */
  lemma {:induction false} UnattributedIsUncovered(mRecs: seq<Rec>, vmas: seq<Vma>)
    requires forall k :: 0 <= k < |vmas| && !Skipped(vmas[k]) ==>
               !Hidden(SortBy(mRecs, (r: Rec) => r.addr), vmas[k]) && DisjointIn(mRecs, vmas[k])
    ensures Unattributed(SortBy(mRecs, (r: Rec) => r.addr), vmas) == UncoveredRss(mRecs, vmas)
  {
    hide Hidden, SortBy, Scan, BisectRight, DisjointIn, UncoveredBytes, Covered, Share;
    if vmas != [] {
      var n := |vmas| - 1;
      var recs, v := SortBy(mRecs, (r: Rec) => r.addr), vmas[n];
      UnattributedIsUncovered(mRecs, vmas[..n]);
      SortedRecs(mRecs);
      SortedCovers(mRecs, v);
      if !Skipped(v) {
        RegionLeavesUncoveredIff(recs, v);
      }
    }
  }

  lemma {:induction false} CoveredOfPrefix(hits: seq<Hit>, k: nat)
    requires k <= |hits| && forall i :: 0 <= i < |hits| ==> hits[i].ov > 0
    ensures Covered(hits[..k]) <= Covered(hits)
  {
    if k == |hits| {
      assert hits[..k] == hits;
    } else {
      CoveredOfPrefix(hits[..|hits| - 1], k);
      assert hits[..|hits| - 1][..k] == hits[..k];
    }
  }

  lemma ShareNonNegative(rss: real, ov: int, len: int)
    requires rss >= 0.0 && ov >= 0 && len > 0
    ensures Share(rss, ov, len) >= 0.0
  {
    assert ov as real / len as real >= 0.0;
  }

  lemma {:induction false} UnattributedNonNegative(recs: seq<Rec>, vmas: seq<Vma>)
    requires Ascending(recs) && Disjoint(recs)
    requires forall k :: 0 <= k < |vmas| ==> vmas[k].rss >= 0.0
    ensures Unattributed(recs, vmas) >= 0.0
  {
    hide Scan, Overlapping, Overlap, BisectRight, Share, Covered, Disjoint, DisjointIn, CoveredBytes, UncoveredBytes;
    if vmas != [] {
      var n := |vmas| - 1;
      var v := vmas[n];
      UnattributedNonNegative(recs, vmas[..n]);
      if !Skipped(v) {
        var low := recs[..BisectRight(recs, v.end)];
        NothingAbove(recs, v);
        ScanIsPrefix(low, v);
        CoveredOfPrefix(Overlapping(low, v), |Scan(low, v)|);
        assert Overlapping(low, v)[..|Scan(low, v)|] == Scan(low, v);
        DisjointInside(recs, v);
        OverlapsAreBytesIff(recs, v);
        UncoveredSize(recs, v);
        ShareNonNegative(v.rss, v.end - v.start - Covered(Scan(low, v)), v.end - v.start);
      }
    }
  }

  /** For disjoint records, in whatever order, nothing is attributed twice: what is left
      over is never negative, and if none is empty it is the uncovered share. */
  lemma DisjointRecordsLeaveTheRest(mRecs: seq<Rec>, vmas: seq<Vma>)
    requires Disjoint(mRecs)
    ensures (forall k :: 0 <= k < |vmas| ==> vmas[k].rss >= 0.0) ==>
              Unattributed(SortBy(mRecs, (r: Rec) => r.addr), vmas) >= 0.0
    ensures (forall r :: r in mRecs ==> r.size > 0)
            ==> Unattributed(SortBy(mRecs, (r: Rec) => r.addr), vmas) == UncoveredRss(mRecs, vmas)
  {
    hide Unattributed, UncoveredRss, Hidden, DisjointIn, Apart;
    SortedRecs(mRecs);
    var recs := SortBy(mRecs, (r: Rec) => r.addr);
    if forall k :: 0 <= k < |vmas| ==> vmas[k].rss >= 0.0 {
      UnattributedNonNegative(recs, vmas);
    }
    if forall r :: r in mRecs ==> r.size > 0 {
      forall k | 0 <= k < |vmas| ensures !Hidden(recs, vmas[k]) && DisjointIn(mRecs, vmas[k]) {
        SearchComplete(recs, vmas[k]);
        DisjointInside(mRecs, vmas[k]);
      }
      UnattributedIsUncovered(mRecs, vmas);
    }
  }

  /** Two records at different addresses that share bytes: those are attributed twice. */
  lemma OverlappingRecordsOvercount(s: Stack)
    ensures var recs := [Rec(0x1000, 0x2000, s), Rec(0x2000, 0x1000, s)];
      Ascending(recs) && Unattributed(recs, [Vma(0x1000, 0x3000, 1.0)]) < 0.0
  {
    var recs, v := [Rec(0x1000, 0x2000, s), Rec(0x2000, 0x1000, s)], Vma(0x1000, 0x3000, 1.0);
    assert recs[..2] == recs && recs[..1] == [recs[0]] && recs[..1][..0] == [] && [v][..0] == [];
    assert Scan(recs[..1], v) == [Hit(recs[0], 0x2000)] + Scan([], v);
    assert Scan(recs, v) == [Hit(recs[1], 0x1000)] + Scan(recs[..1], v);
    CoveredAfterHead(Hit(recs[1], 0x1000), Scan(recs[..1], v));
    CoveredAfterHead(Hit(recs[0], 0x2000), []);
    assert Covered(Scan(recs, v)) == 0x3000;
    assert Share(1.0, -0x1000, 0x2000) < 0.0;
    assert Unattributed(recs, [v]) == Unattributed(recs, []) + Share(1.0, 0x2000 - 0x3000, 0x2000);
  }
}
