/** resident_bytes of mem_trace (tools/mem_trace.c, lines 264-284): the resident
    bytes of a region, asked of the kernel in windows of at most 4096 pages. */
module Residency {
  import opened Wrappers
  import opened Arithmetic

  const WINDOW: nat := 4096

  /** The kernel's pages by page number. */
  datatype Kernel = Kernel(mapped: nat -> bool, resident: nat -> bool)

  /** mincore: fails when a page of the range is not mapped. */
  function Mincore(k: Kernel, first: nat, n: nat): (vec: Option<seq<bool>>)
    ensures vec.Some? ==> |vec.value| == n
  {
    if forall p :: first <= p < first + n ==> k.mapped(p)
    then Some(seq(n, i requires 0 <= i < n => k.resident(first + i)))
    else None
  }

  // ---- the count, page by page ---------------------------------------------

  function FirstPage(addr: nat, pg: nat): nat
    requires pg > 0
  {
    addr / pg
  }

  /** How many pages meet [addr, addr + size). */
  function PageCount(addr: nat, size: nat, pg: nat): nat
    requires pg > 0
  {
    (addr % pg + size + pg - 1) / pg
  }

  predicate Meets(p: nat, addr: nat, size: nat, pg: nat)
  {
    p * pg < addr + size && addr < (p + 1) * pg
  }

  /** Where the pages that are counted begin and end. */
  lemma PagesSpan(addr: nat, size: nat, pg: nat)
    requires pg > 0 && size > 0
    ensures var f, n := FirstPage(addr, pg), PageCount(addr, size, pg);
      n >= 1 && f * pg <= addr < (f + 1) * pg && (f + n - 1) * pg < addr + size <= (f + n) * pg
  {
    var f, r, n := addr / pg, addr % pg, PageCount(addr, size, pg);
    var x := r + size + pg - 1;
    assert addr == f * pg + r && x == n * pg + x % pg;
    assert (f + 1) * pg == f * pg + pg && (f + n) * pg == f * pg + n * pg;
    assert (f + n - 1) * pg == f * pg + n * pg - pg;
    assert n * pg > x - pg >= 0;
  }

  lemma PagesAreThoseThatMeet(p: nat, addr: nat, size: nat, pg: nat)
    requires pg > 0 && size > 0
    ensures Meets(p, addr, size, pg) <==> FirstPage(addr, pg) <= p < FirstPage(addr, pg) + PageCount(addr, size, pg)
  {
    var f, r, n := addr / pg, addr % pg, PageCount(addr, size, pg);
    PagesSpan(addr, size, pg);
    assert f == FirstPage(addr, pg);
    hide PageCount, FirstPage;
    if p < f {
      MulMono(pg, p + 1, f);
    } else if p < f + n {
      MulMono(pg, f + 1, p + 1);
      MulMono(pg, p, f + n - 1);
    } else {
      MulMono(pg, f + n, p);
    }
  }

  /** Page j of the region lies in a window whose pages are all mapped. */
  predicate InGoodWindow(k: Kernel, first: nat, n: nat, j: nat)
  {
    forall q :: 0 <= q < n && q / WINDOW == j / WINDOW ==> k.mapped(first + q)
  }

  /** The first m of the region's n pages that count, one at a time. */
  function Count(k: Kernel, first: nat, n: nat, m: nat): (c: nat)
    ensures c <= m
  {
    if m == 0 then 0
    else Count(k, first, n, m - 1) + if k.resident(first + m - 1) && InGoodWindow(k, first, n, m - 1) then 1 else 0
  }

  /** The pages counted: those of the region that are resident, in such a window. */
  ghost function CountedPages(k: Kernel, first: nat, n: nat, m: nat): set<nat>
  {
    set p | first <= p < first + m && k.resident(p) && InGoodWindow(k, first, n, p - first)
  }

  lemma OnePageMore(k: Kernel, first: nat, n: nat, m: nat)
    ensures var p, pages := first + m, CountedPages(k, first, n, m);
      && p !in pages
      && CountedPages(k, first, n, m + 1)
         == pages + if k.resident(p) && InGoodWindow(k, first, n, m) then {p} else {}
  {
    hide InGoodWindow;
    assert first + m - first == m;
    forall q ensures q in CountedPages(k, first, n, m + 1)
        <==> q in CountedPages(k, first, n, m)
             || (q == first + m && k.resident(q) && InGoodWindow(k, first, n, m)) {}
  }

  lemma {:induction false} CountIsPages(k: Kernel, first: nat, n: nat, m: nat)
    ensures Count(k, first, n, m) == |CountedPages(k, first, n, m)|
  {
    if m == 0 {
      assert CountedPages(k, first, n, 0) == {};
    } else {
      CountIsPages(k, first, n, m - 1);
      OnePageMore(k, first, n, m - 1);
      hide CountedPages, InGoodWindow;
    }
  }

  function Trues(vec: seq<bool>): (c: nat)
    ensures c <= |vec|
  {
    if vec == [] then 0 else Trues(vec[..|vec| - 1]) + if vec[|vec| - 1] then 1 else 0
  }

  lemma SameWindow(k: Kernel, first: nat, n: nat, from: nat, batch: nat, i: nat)
    requires from % WINDOW == 0 && from + batch <= n && i < batch
    requires batch == if n - from < WINDOW then n - from else WINDOW
    ensures InGoodWindow(k, first, n, from + i)
            <==> forall p :: first + from <= p < first + from + batch ==> k.mapped(p)
  {
    assert (from + i) / WINDOW == from / WINDOW;
    forall q | 0 <= q < n ensures q / WINDOW == (from + i) / WINDOW <==> from <= q < from + batch {}
    if InGoodWindow(k, first, n, from + i) {
      forall p | first + from <= p < first + from + batch ensures k.mapped(p) {
        assert (p - first) / WINDOW == (from + i) / WINDOW;
        assert k.mapped(first + (p - first));
      }
    }
  }

  /** One window counted at once is the window counted page by page. */
  lemma {:induction false} WindowCounts(k: Kernel, first: nat, n: nat, from: nat, batch: nat, m: nat)
    requires from % WINDOW == 0 && from + batch <= n && m <= batch
    requires batch == if n - from < WINDOW then n - from else WINDOW
    ensures var vec := Mincore(k, first + from, batch);
      Count(k, first, n, from + m) == Count(k, first, n, from) + if vec.Some? then Trues(vec.value[..m]) else 0
  {
    var vec := Mincore(k, first + from, batch);
    if m > 0 {
      WindowCounts(k, first, n, from, batch, m - 1);
      SameWindow(k, first, n, from, batch, m - 1);
      if vec.Some? {
        assert vec.value[..m][..m - 1] == vec.value[..m - 1];
      }
    }
  }

  lemma CountNone(k: Kernel, first: nat, n: nat)
    ensures Count(k, first, n, 0) == 0
  {}

  lemma WithinTwoPages(addr: nat, size: nat, pg: nat, c: nat)
    requires pg > 0 && c <= PageCount(addr, size, pg)
    ensures c * pg <= size + 2 * (pg - 1)
  {
    var x := addr % pg + size + pg - 1;
    assert x == PageCount(addr, size, pg) * pg + x % pg;
    MulMono(pg, c, PageCount(addr, size, pg));
  }

  /** The result is the page size times the number of the region's pages that are
      resident and in a window without unmapped pages; and it exceeds the region by less
      than two pages. */
  method ResidentBytes(addr: nat, size: nat, sysPage: int, k: Kernel) returns (bytes: nat)
    ensures var pg := if sysPage <= 0 then 4096 else sysPage;
      var n := PageCount(addr, size, pg);
      && bytes == (if addr == 0 || size == 0 then 0 else |CountedPages(k, FirstPage(addr, pg), n, n)| * pg)
      && bytes <= size + 2 * (pg - 1)
  {
    hide InGoodWindow, PageCount, FirstPage, Mincore, Count, CountedPages;
    if addr == 0 || size == 0 {
      return 0;
    }
    var pg: nat := if sysPage <= 0 then 4096 else sysPage;
    var first: nat := FirstPage(addr, pg);
    var cur := first;
    var npages: nat := PageCount(addr, size, pg);
    ghost var n: nat := npages;
    var resident: nat := 0;
    CountNone(k, first, n);
    while npages > 0
      invariant npages <= n && cur == first + (n - npages)
      invariant npages > 0 ==> (n - npages) % WINDOW == 0
      invariant resident == Count(k, first, n, n - npages)
    {
      var batch := if npages < WINDOW then npages else WINDOW;
      WindowCounts(k, first, n, n - npages, batch, batch);
      var vec := Mincore(k, cur, batch);
      if vec.Some? {
        assert vec.value[..batch] == vec.value;
        ghost var before := resident;
        for i := 0 to batch
          invariant resident == before + Trues(vec.value[..i])
        {
          assert vec.value[..i + 1][..i] == vec.value[..i];
          if vec.value[i] {
            resident := resident + 1;
          }
        }
      }
      cur := cur + batch;
      npages := npages - batch;
    }
    CountIsPages(k, first, n, n);
    bytes := resident * pg;
    WithinTwoPages(addr, size, pg, resident);
  }
}
