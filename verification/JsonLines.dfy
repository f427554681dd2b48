/** The control plane's log file end to end: each event as a line of JSON through a
    2048-byte buffer, the lines one after another in a file, and the file read back and
    replayed (src/profiler/shm_profiler.c, lines 272-331 and 492-582;
    tools/analyze_profile.py, lines 202-293). A line that is cut loses its line break,
    and takes the next line with it. */
module JsonLines {
  import opened Wrappers
  import opened Arithmetic
  import opened EventText
  import opened JsonScan
  import opened JsonReader
  import opened JsonShape
  import opened JsonDecode
  import opened JsonObjects
  import opened LogUnwrap
  import opened Agreement
  import opened Sorting
  import A = Accounting
  import C = Correlate

  const LINE_ROOM: nat := 2048

  // ---- one line ------------------------------------------------------------

  /** What goes into an event's line. */
  datatype Row = Row(e: A.Event, hit: Option<A.Hit>, liveCount: nat, liveBytes: nat, tid: nat)

  function HitMembers(hit: Option<A.Hit>): seq<Member>
  {
    match hit
    case None => [("matched", Flag(false))]
    case Some(h) =>
      [("matched", Flag(true)), ("shmname", Text(OrEmpty(h.name))), ("size", Number(h.size)),
       ("lifetime_ns", Number(h.lifetime))]
  }

  function EventMembers(row: Row): seq<Member>
  {
    match row.e
    case MapEvent(op, name, addr, size, flags, ret, pg, t) =>
      [("ts_ns", Number(t)), ("event", Text(op)), ("shmname", Text(OrEmpty(name))),
       ("addr", Text(AddrText(false, addr))),
       ("size", Number(size)), ("flags", Number(flags)), ("ret", Number(ret))]
      + if pg.Some? then [("pgname", Text(pg.value))] else []
    case UnmapEvent(addr, ret, t) =>
      [("ts_ns", Number(t)), ("event", Text("unmap")), ("addr", Text(AddrText(false, addr))), ("ret", Number(ret))]
      + HitMembers(row.hit)
  }

  function TailMembers(row: Row, pid: nat): seq<Member>
  {
    [("pid", Number(pid)), ("live_count", Number(row.liveCount)), ("live_bytes", Number(row.liveBytes)),
     ("tid", Text(Dec(row.tid)))]
  }

  function Members(row: Row, pid: nat): (ms: seq<Member>)
    ensures ms != []
  {
    EventMembers(row) + TailMembers(row, pid)
  }

  /** The line without its line break. */
  function Body(row: Row, pid: nat): string
  {
    ObjectText(Members(row, pid))
  }

  predicate Fits(row: Row, pid: nat)
  {
    |Body(row, pid)| < LINE_ROOM
  }

  /** What is written of a line: all of it, or its first 2048 characters. */
  function Written(row: Row, pid: nat): string
  {
    (Body(row, pid) + "\n")[..Min(|Body(row, pid)| + 1, LINE_ROOM)]
  }

  predicate CleanRow(row: Row)
  {
    match row.e
    case MapEvent(_, name, _, _, _, _, pg, _) => Clean(OrEmpty(name)) && Clean(OrEmpty(pg))
    case UnmapEvent(_, _, _) => row.hit.Some? ==> Clean(OrEmpty(row.hit.value.name))
  }

  predicate Has(r: Record, key: string, v: Value)
  {
    key in r && r[key] == v
  }

  /** What a record read from the row's line says, key by key. */
  ghost predicate HasFields(r: Record, row: Row, pid: nat)
  {
    && Has(r, "ts_ns", Number(row.e.t)) && Has(r, "addr", Text(AddrText(false, row.e.addr)))
    && Has(r, "ret", Number(row.e.ret)) && Has(r, "pid", Number(pid)) && Has(r, "tid", Text(Dec(row.tid)))
    && Has(r, "live_count", Number(row.liveCount)) && Has(r, "live_bytes", Number(row.liveBytes))
    && match row.e
       case MapEvent(op, name, _, size, flags, _, pg, _) =>
         && Has(r, "event", Text(op)) && Has(r, "shmname", Text(OrEmpty(name)))
         && Has(r, "size", Number(size)) && Has(r, "flags", Number(flags))
         && (if pg.Some? then Has(r, "pgname", Text(pg.value)) else "pgname" !in r)
         && "matched" !in r && "lifetime_ns" !in r
       case UnmapEvent(_, _, _) =>
         && Has(r, "event", Text("unmap")) && Has(r, "matched", Flag(row.hit.Some?))
         && "flags" !in r && "pgname" !in r
         && if row.hit.Some? then
              && Has(r, "shmname", Text(OrEmpty(row.hit.value.name))) && Has(r, "size", Number(row.hit.value.size))
              && Has(r, "lifetime_ns", Number(row.hit.value.lifetime))
            else "shmname" !in r && "size" !in r && "lifetime_ns" !in r
  }

  /** The record of a row. */
  function RecOfRow(row: Row, pid: nat): C.Rec
  {
    match row.e
    case MapEvent(op, name, addr, size, flags, ret, _, t) =>
      C.Rec(Some(op), Some(Int(pid)), Some(t), Some(AddrText(false, addr)), Some(ret), Some(size),
            Some(OrEmpty(name)), Some(flags))
    case UnmapEvent(addr, ret, t) =>
      C.Rec(Some("unmap"), Some(Int(pid)), Some(t), Some(AddrText(false, addr)), Some(ret),
            if row.hit.Some? then Some(row.hit.value.size) else None,
            if row.hit.Some? then Some(OrEmpty(row.hit.value.name)) else None, None)
  }

  // ---- a line read back ----------------------------------------------------

  lemma {:induction false} BuildLacks(ms: seq<Member>, acc: Record, k: string)
    requires forall i :: 0 <= i < |ms| ==> ms[i].0 != k
    ensures k in Build(ms, acc) <==> k in acc
    ensures k in acc ==> Build(ms, acc)[k] == acc[k]
  {
    if ms != [] {
      BuildLacks(ms[1..], acc[ms[0].0 := ms[0].1], k);
    }
  }

  lemma {:induction false} BuildHas(ms: seq<Member>, acc: Record, i: nat)
    requires i < |ms| && forall j :: i < j < |ms| ==> ms[j].0 != ms[i].0
    ensures ms[i].0 in Build(ms, acc) && Build(ms, acc)[ms[i].0] == ms[i].1
  {
    if i == 0 {
      BuildLacks(ms[1..], acc[ms[0].0 := ms[0].1], ms[0].0);
    } else {
      BuildHas(ms[1..], acc[ms[0].0 := ms[0].1], i - 1);
    }
  }

  lemma AddrTextSimple(a: nat)
    ensures Simple(AddrText(false, a)) && Clean(AddrText(false, a))
  {
    NumeralSimple(a, 16);
    SimpleEsc(AddrText(false, a));
  }

  lemma KeysConcat(a: seq<Member>, b: seq<Member>)
    requires SimpleKeys(a) && SimpleKeys(b)
    ensures SimpleKeys(a + b)
  {
    hide Simple;
  }

  lemma TailKeysSimple(row: Row, pid: nat)
    ensures SimpleKeys(TailMembers(row, pid))
  {
    hide Dec;
  }

  lemma HitKeysSimple(hit: Option<A.Hit>)
    ensures SimpleKeys(HitMembers(hit))
  {}

  lemma RowKeysSimple(row: Row, pid: nat)
    ensures SimpleKeys(Members(row, pid))
  {
    hide AddrText, TailMembers, HitMembers;
    TailKeysSimple(row, pid);
    HitKeysSimple(row.hit);
    KeysConcat(EventMembers(row), TailMembers(row, pid));
  }

  lemma CleanConcat(a: seq<Member>, b: seq<Member>)
    ensures CleanMembers(a + b) <==> CleanMembers(a) && CleanMembers(b)
  {
    hide CleanValue;
    assert forall i :: 0 <= i < |a| ==> (a + b)[i] == a[i];
    assert forall i :: 0 <= i < |b| ==> (a + b)[|a| + i] == b[i];
  }

  lemma TailClean(row: Row, pid: nat)
    ensures CleanMembers(TailMembers(row, pid))
  {
    NumeralSimple(row.tid, 10);
    SimpleEsc(Dec(row.tid));
    hide Dec, Clean;
  }

  lemma WordsClean()
    ensures Clean("map") && Clean("map_on_pg") && Clean("unmap") && Clean("")
  {}

  lemma RowClean(row: Row, pid: nat)
    requires FromWrapper(row.e)
    ensures CleanMembers(Members(row, pid)) <==> CleanRow(row)
  {
    hide AddrText, Clean, TailMembers;
    AddrTextSimple(row.e.addr);
    WordsClean();
    TailClean(row, pid);
    CleanConcat(EventMembers(row), TailMembers(row, pid));
    var ms := EventMembers(row);
    if row.e.MapEvent? {
      assert ms[2] == ("shmname", Text(OrEmpty(row.e.name)));
      assert row.e.pg.Some? ==> ms[7] == ("pgname", Text(row.e.pg.value));
    } else if row.hit.Some? {
      assert ms[5] == ("shmname", Text(OrEmpty(row.hit.value.name)));
    }
  }

  /** The record built from a row's members. */
  function RecordOf(row: Row, pid: nat): Record
  {
    Build(Members(row, pid), map[])
  }

  /** Every member with a key of its own is in the record. */
  lemma AllThere(ms: seq<Member>)
    requires forall i, j :: 0 <= i < j < |ms| ==> ms[i].0 != ms[j].0
    ensures forall i :: 0 <= i < |ms| ==> Has(Build(ms, map[]), ms[i].0, ms[i].1)
  {
    hide Build;
    forall i | 0 <= i < |ms| ensures Has(Build(ms, map[]), ms[i].0, ms[i].1) {
      BuildHas(ms, map[], i);
    }
  }

  lemma TailAt(row: Row, pid: nat)
    ensures var ms, n := Members(row, pid), |EventMembers(row)|;
      && |ms| == n + 4 && ms[..n] == EventMembers(row)
      && ms[n] == ("pid", Number(pid)) && ms[n + 1] == ("live_count", Number(row.liveCount))
      && ms[n + 2] == ("live_bytes", Number(row.liveBytes)) && ms[n + 3] == ("tid", Text(Dec(row.tid)))
  {
    hide EventMembers, Dec;
  }

  lemma KeysDiffer(row: Row, pid: nat)
    ensures var ms := Members(row, pid);
      forall i, j :: 0 <= i < j < |ms| ==> ms[i].0 != ms[j].0
  {
    hide AddrText, Dec, OrEmpty;
  }

  lemma MapMembers(row: Row, pid: nat)
    requires row.e.MapEvent?
    ensures HasFields(RecordOf(row, pid), row, pid)
  {
    hide AddrText, Dec, Build, OrEmpty;
    var ms := Members(row, pid);
    KeysDiffer(row, pid);
    AllThere(ms);
    TailAt(row, pid);
    assert ms[0].0 == "ts_ns" && ms[1].0 == "event" && ms[2].0 == "shmname" && ms[3].0 == "addr";
    assert ms[4].0 == "size" && ms[5].0 == "flags" && ms[6].0 == "ret";
    if row.e.pg.Some? {
      assert ms[7].0 == "pgname";
    } else {
      BuildLacks(ms, map[], "pgname");
    }
    BuildLacks(ms, map[], "matched");
    BuildLacks(ms, map[], "lifetime_ns");
  }

  lemma MatchedMembers(row: Row, pid: nat)
    requires row.e.UnmapEvent? && row.hit.Some?
    ensures HasFields(RecordOf(row, pid), row, pid)
  {
    hide AddrText, Dec, Build, OrEmpty;
    var ms := Members(row, pid);
    KeysDiffer(row, pid);
    AllThere(ms);
    TailAt(row, pid);
    assert ms[0].0 == "ts_ns" && ms[1].0 == "event" && ms[2].0 == "addr" && ms[3].0 == "ret" && ms[4].0 == "matched";
    assert ms[5].0 == "shmname" && ms[6].0 == "size" && ms[7].0 == "lifetime_ns";
    BuildLacks(ms, map[], "flags");
    BuildLacks(ms, map[], "pgname");
  }

  lemma UnmatchedMembers(row: Row, pid: nat)
    requires row.e.UnmapEvent? && row.hit.None?
    ensures HasFields(RecordOf(row, pid), row, pid)
  {
    hide AddrText, Dec, Build, OrEmpty;
    var ms := Members(row, pid);
    KeysDiffer(row, pid);
    AllThere(ms);
    TailAt(row, pid);
    assert ms[0].0 == "ts_ns" && ms[1].0 == "event" && ms[2].0 == "addr" && ms[3].0 == "ret" && ms[4].0 == "matched";
    BuildLacks(ms, map[], "flags");
    BuildLacks(ms, map[], "pgname");
    BuildLacks(ms, map[], "shmname");
    BuildLacks(ms, map[], "size");
    BuildLacks(ms, map[], "lifetime_ns");
  }

  lemma RowFields(row: Row, pid: nat)
    ensures HasFields(RecordOf(row, pid), row, pid)
  {
    hide RecordOf, HasFields;
    if row.e.MapEvent? {
      MapMembers(row, pid);
    } else if row.hit.Some? {
      MatchedMembers(row, pid);
    } else {
      UnmatchedMembers(row, pid);
    }
  }

  /** What the replay looks at. */
  lemma FieldsAreRec(r: Record, row: Row, pid: nat)
    requires HasFields(r, row, pid)
    ensures FromRecord(r) == RecOfRow(row, pid)
  {
    hide AddrText, Int, Dec, OrEmpty;
  }

  /** A whole line reads back if its names are clean, and as nothing otherwise; the record
      has each of the row's values under its key. */
  lemma BodyReadsBack(row: Row, pid: nat)
    requires FromWrapper(row.e)
    ensures Loads(Body(row, pid)) == if CleanRow(row) then Some(RecordOf(row, pid)) else None
    ensures HasFields(RecordOf(row, pid), row, pid) && FromRecord(RecordOf(row, pid)) == RecOfRow(row, pid)
  {
    RowKeysSimple(row, pid);
    RowClean(row, pid);
    RowFields(row, pid);
    FieldsAreRec(RecordOf(row, pid), row, pid);
    hide Members, Loads, ObjectText, Build, FromRecord, CleanMembers, CleanRow, SimpleKeys, RecOfRow, HasFields;
    ObjectRoundTrip(Members(row, pid));
  }

  // ---- the exit handler's lines --------------------------------------------

  /** The members of a live_at_exit line, and of the summary. */
  function ExitMembers(line: A.Line, pid: nat): (ms: seq<Member>)
    requires line.ExitLine?
  {
    [("ts_ns", Number(line.t)), ("event", Text("live_at_exit")), ("shmname", Text(OrEmpty(line.name))),
     ("addr", Text(AddrText(false, line.addr))), ("size", Number(line.size)), ("age_ns", Number(line.age)),
     ("pid", Number(pid))]
  }

  function SummaryMembers(line: A.Line, pid: nat): (ms: seq<Member>)
    requires line.SummaryLine?
  {
    [("ts_ns", Number(line.t)), ("event", Text("summary")), ("pid", Number(pid)),
     ("peak_live_count", Number(line.peakCount)), ("peak_live_bytes", Number(line.peakBytes)),
     ("total_maps", Number(line.mapCalls)), ("total_map_failures", Number(line.mapFailures)),
     ("total_unmaps", Number(line.unmaps)), ("unmatched_unmaps", Number(line.unmatched)),
     ("still_live_at_exit", Number(line.stillLive))]
  }

  function ClosingMembers(line: A.Line, pid: nat): (ms: seq<Member>)
    requires !line.EventLine?
    ensures ms != []
  {
    if line.ExitLine? then ExitMembers(line, pid) else SummaryMembers(line, pid)
  }

  /** What a record read from such a line says, key by key. */
  ghost predicate ClosingFields(r: Record, line: A.Line, pid: nat)
    requires !line.EventLine?
  {
    && Has(r, "ts_ns", Number(line.t)) && Has(r, "pid", Number(pid))
    && (line.ExitLine? ==>
          && Has(r, "event", Text("live_at_exit")) && Has(r, "shmname", Text(OrEmpty(line.name)))
          && Has(r, "addr", Text(AddrText(false, line.addr))) && Has(r, "size", Number(line.size))
          && Has(r, "age_ns", Number(line.age)))
    && (line.SummaryLine? ==>
          && Has(r, "event", Text("summary"))
          && Has(r, "peak_live_count", Number(line.peakCount)) && Has(r, "peak_live_bytes", Number(line.peakBytes))
          && Has(r, "total_maps", Number(line.mapCalls)) && Has(r, "total_map_failures", Number(line.mapFailures))
          && Has(r, "total_unmaps", Number(line.unmaps)) && Has(r, "unmatched_unmaps", Number(line.unmatched))
          && Has(r, "still_live_at_exit", Number(line.stillLive)))
  }

  lemma ExitThere(line: A.Line, pid: nat)
    requires line.ExitLine?
    ensures ClosingFields(Build(ExitMembers(line, pid), map[]), line, pid)
  {
    hide AddrText, OrEmpty, Build;
    var ms := ExitMembers(line, pid);
    AllThere(ms);
    assert ms[0].0 == "ts_ns" && ms[1].0 == "event" && ms[2].0 == "shmname" && ms[3].0 == "addr";
    assert ms[4].0 == "size" && ms[5].0 == "age_ns" && ms[6].0 == "pid";
  }

  lemma SummaryThere(line: A.Line, pid: nat)
    requires line.SummaryLine?
    ensures ClosingFields(Build(SummaryMembers(line, pid), map[]), line, pid)
  {
    hide Build;
    var ms := SummaryMembers(line, pid);
    AllThere(ms);
    assert ms[0].0 == "ts_ns" && ms[1].0 == "event" && ms[2].0 == "pid";
    assert ms[3].0 == "peak_live_count" && ms[4].0 == "peak_live_bytes" && ms[5].0 == "total_maps";
    assert ms[6].0 == "total_map_failures" && ms[7].0 == "total_unmaps" && ms[8].0 == "unmatched_unmaps";
    assert ms[9].0 == "still_live_at_exit";
  }

  lemma ExitKeysSimple(line: A.Line, pid: nat)
    requires line.ExitLine?
    ensures SimpleKeys(ExitMembers(line, pid))
  {
    hide AddrText, OrEmpty;
  }

  lemma SummaryWords()
    ensures Simple("ts_ns") && Simple("event") && Simple("pid")
    ensures Simple("peak_live_count") && Simple("peak_live_bytes") && Simple("total_maps")
  {}

  lemma MoreSummaryWords()
    ensures Simple("total_map_failures") && Simple("total_unmaps") && Simple("unmatched_unmaps")
    ensures Simple("still_live_at_exit")
  {}

  lemma SummaryKeysSimple(line: A.Line, pid: nat)
    requires line.SummaryLine?
    ensures SimpleKeys(SummaryMembers(line, pid))
  {
    hide Simple;
    SummaryWords();
    MoreSummaryWords();
  }

  lemma ExitClean(line: A.Line, pid: nat)
    requires line.ExitLine?
    ensures CleanMembers(ExitMembers(line, pid)) <==> Clean(OrEmpty(line.name))
  {
    AddrTextSimple(line.addr);
    assert Clean("live_at_exit");
    hide AddrText, OrEmpty, Clean;
    assert ExitMembers(line, pid)[2] == ("shmname", Text(OrEmpty(line.name)));
  }

  lemma SummaryClean(line: A.Line, pid: nat)
    requires line.SummaryLine?
    ensures CleanMembers(SummaryMembers(line, pid))
  {
    assert Clean("summary");
    hide Clean;
  }

  lemma ClosingIgnored(r: Record, line: A.Line, pid: nat)
    requires !line.EventLine? && ClosingFields(r, line, pid)
    ensures !C.Relevant(FromRecord(r))
  {
    hide AddrText, OrEmpty;
  }

  /** A whole live_at_exit line reads back if its name is clean, and a summary always does;
      the record has each value of the line under its key, and the replay ignores it. */
  lemma ClosingLineReadsBack(line: A.Line, pid: nat)
    requires !line.EventLine?
    ensures Loads(ObjectText(ClosingMembers(line, pid))).Some? <==> (line.ExitLine? ==> Clean(OrEmpty(line.name)))
    ensures var r := Loads(ObjectText(ClosingMembers(line, pid)));
      r.Some? ==> ClosingFields(r.value, line, pid) && !C.Relevant(FromRecord(r.value))
  {
    hide ExitMembers, SummaryMembers, Loads, ObjectText, Build, FromRecord, CleanMembers, Clean, SimpleKeys;
    hide ClosingFields;
    if line.ExitLine? {
      ExitKeysSimple(line, pid);
      ExitClean(line, pid);
      ExitThere(line, pid);
    } else {
      SummaryKeysSimple(line, pid);
      SummaryClean(line, pid);
      SummaryThere(line, pid);
    }
    ClosingIgnored(Build(ClosingMembers(line, pid), map[]), line, pid);
    ObjectRoundTrip(ClosingMembers(line, pid));
  }

  // ---- the file ------------------------------------------------------------

  /** The lines one after another, as they were written. */
  function FileText(rows: seq<Row>, pid: nat): string
  {
    if rows == [] then "" else FileText(rows[..|rows| - 1], pid) + Written(rows[|rows| - 1], pid)
  }

  /** The lines of a file; the last one may lack its line break. */
  function LinesOfText(text: string): seq<LogLine>
    decreases |text|
  {
    if text == "" then []
    else
      var i := Find(text, '\n');
      [LogLine(text[..i], None)] + if i == |text| then [] else LinesOfText(text[i + 1..])
  }

  /** Row n comes back: its names are clean, the line before it fits, and so does its own;
      or it is the last one and lost no more than its line break. */
  predicate Kept(rows: seq<Row>, pid: nat, n: nat)
    requires n < |rows|
  {
    && CleanRow(rows[n])
    && (n == 0 || Fits(rows[n - 1], pid))
    && (Fits(rows[n], pid) || (n == |rows| - 1 && |Body(rows[n], pid)| == LINE_ROOM))
  }

  /** The first n rows that come back. */
  function KeptRows(rows: seq<Row>, pid: nat, n: nat): seq<Row>
    requires n <= |rows|
  {
    if n == 0 then [] else KeptRows(rows, pid, n - 1) + if Kept(rows, pid, n - 1) then [rows[n - 1]] else []
  }

  function RecsOfRows(rows: seq<Row>, pid: nat): (recs: seq<C.Rec>)
    ensures |recs| == |rows| && forall i :: 0 <= i < |rows| ==> recs[i] == RecOfRow(rows[i], pid)
  {
    seq(|rows|, i requires 0 <= i < |rows| => RecOfRow(rows[i], pid))
  }

  function RecordsOf(rows: seq<Row>, pid: nat): (rs: seq<Record>)
    ensures |rs| == |rows| && forall i :: 0 <= i < |rows| ==> rs[i] == RecordOf(rows[i], pid)
  {
    seq(|rows|, i requires 0 <= i < |rows| => RecordOf(rows[i], pid))
  }

  function Pending(rows: seq<Row>, pid: nat): string
  {
    if rows == [] then ""
    else
      var n := |rows| - 1;
      if Fits(rows[n], pid) then "" else Pending(rows[..n], pid) + Body(rows[n], pid)[..LINE_ROOM]
  }

  /** The part of the file that ends in a line break, and the cut lines behind it. */
  function Ended(rows: seq<Row>, pid: nat): string
  {
    if rows == [] then ""
    else
      var n := |rows| - 1;
      if Fits(rows[n], pid) then Ended(rows[..n], pid) + (Pending(rows[..n], pid) + Body(rows[n], pid) + "\n")
      else Ended(rows[..n], pid)
  }

  lemma WrittenIs(row: Row, pid: nat)
    ensures Fits(row, pid) ==> Written(row, pid) == Body(row, pid) + "\n"
    ensures !Fits(row, pid) ==> |Body(row, pid)| >= LINE_ROOM && Written(row, pid) == Body(row, pid)[..LINE_ROOM]
  {
    hide Body;
  }

  lemma {:induction false} FileSplits(rows: seq<Row>, pid: nat)
    ensures FileText(rows, pid) == Ended(rows, pid) + Pending(rows, pid)
  {
    hide Body, Written, Fits;
    if rows == [] {
      assert Ended(rows, pid) == "" == Pending(rows, pid);
    } else {
      var n := |rows| - 1;
      FileSplits(rows[..n], pid);
      WrittenIs(rows[n], pid);
      var a, b := Ended(rows[..n], pid), Pending(rows[..n], pid);
      Assoc(a, b, Written(rows[n], pid));
      Assoc(b, Body(rows[n], pid), "\n");
    }
  }

  // ---- what a line looks like ----------------------------------------------

  lemma KeyOneLine(k: string)
    requires Simple(k)
    ensures '\n' !in Key(k)
  {}

  lemma ValueOneLine(v: Value)
    requires Printable(v)
    ensures '\n' !in ValueText(v)
  {
    match v
    case Text(s) =>
      EscIsOneLine(s);
      hide Esc;
    case Number(n) =>
      NumbersAreOneLine(0, 0, n);
      hide Int;
    case Flag(b) =>
  }

  lemma {:induction false} MembersOneLine(ms: seq<Member>)
    requires ms != [] && SimpleKeys(ms)
    ensures '\n' !in MembersText(ms)
  {
    hide ValueText, Simple;
    ValueOneLine(ms[0].1);
    KeyOneLine(ms[0].0);
    hide Key;
    if |ms| > 1 {
      MembersOneLine(ms[1..]);
    }
  }

  lemma TimeFirst(row: Row, pid: nat)
    ensures Members(row, pid)[0].0 == "ts_ns"
  {
    hide TailMembers, HitMembers, AddrText;
  }

  lemma TimeKeyText(more: string)
    ensures |Key("ts_ns") + more| >= 2 && (Key("ts_ns") + more)[..2] == "\"t"
  {}

  /** A line is one object, begins with its time, and has no line break inside. */
  lemma BodyShape(row: Row, pid: nat)
    ensures var p := Body(row, pid);
      OpenUntilLastBrace(p) && "{\"t" <= p && p[0] == '{' && p[|p| - 1] == '}' && '\n' !in p
  {
    var ms := Members(row, pid);
    RowKeysSimple(row, pid);
    TimeFirst(row, pid);
    hide Members, ValueText, Key, SimpleKeys, FeedAll, MembersTail;
    MembersOneLine(ms);
    ObjectOpen(ms);
    TimeKeyText(ValueText(ms[0].1) + MembersTail(ms));
    assert MembersText(ms)[..2] == "\"t";
    hide MembersText;
    assert MembersText(ms) == "\"t" + MembersText(ms)[2..];
    Assoc("{", "\"t", MembersText(ms)[2..]);
    assert "{" + "\"t" == "{\"t";
  }

  lemma FitsIs(row: Row, pid: nat)
    ensures Fits(row, pid) <==> |Body(row, pid)| < LINE_ROOM
  {}

  /** Text that nobody reads, now or with more behind it. */
  ghost predicate Doomed(p: string)
  {
    Hopeless(p) || StillOpen(p)
  }

  /** A line, or the first part of one, behind cut lines. */
  lemma LaterLine(pending: string, p: string, k: nat)
    requires OpenUntilLastBrace(p) && "{\"t" <= p && 3 <= k <= |p|
    requires Doomed(pending) || FeedAll(START, pending).Closed?
    ensures Doomed(pending + p[..k])
  {
    hide FeedAll;
    if Hopeless(pending) {
      HopelessMore(pending, p[..k]);
    } else if FeedAll(START, pending).Closed? {
      assert p[..k] == "{\"t" + p[3..k];
      assert NoStartHere(pending);
    } else {
      OpenThenMore(pending, p, k);
    }
  }

  lemma PendingGrows(pending: string, p: string)
    requires OpenUntilLastBrace(p) && "{\"t" <= p && '\n' !in p && |p| >= LINE_ROOM
    requires pending == "" || ("{\"t" <= pending && (Doomed(pending) || FeedAll(START, pending).Closed?))
    ensures var q := pending + p[..LINE_ROOM];
      && "{\"t" <= q
      && (pending == "" ==> q == p[..LINE_ROOM])
      && (pending != "" ==> Doomed(q))
      && (Doomed(q) || FeedAll(START, q).Closed?)
  {
    hide FeedAll;
    var c := p[..LINE_ROOM];
    assert "{\"t" <= c && p[0] == '{';
    if pending == "" {
      assert pending + c == c;
      if FeedAll(START, c).Scanning? {
        DepthInside(p, LINE_ROOM);
      }
    } else {
      LaterLine(pending, p, LINE_ROOM);
    }
  }

  /** The cut lines at the end, if there are any: they begin like a line. If only the last
      row was cut, they are its first part; if it had a cut line before it, nothing that
      begins like them is ever read. */
  lemma {:induction false} PendingShape(rows: seq<Row>, pid: nat)
    ensures var n, p := |rows| - 1, Pending(rows, pid);
      && '\n' !in p
      && (p == "" <==> rows == [] || Fits(rows[n], pid))
      && (p != "" ==> "{\"t" <= p)
      && (p != "" && (n == 0 || Fits(rows[n - 1], pid)) ==>
            |Body(rows[n], pid)| >= LINE_ROOM && p == Body(rows[n], pid)[..LINE_ROOM])
      && (p != "" ==> Doomed(p) || FeedAll(START, p).Closed?)
      && (p != "" && n > 0 && !Fits(rows[n - 1], pid) ==> Doomed(p))
  {
    hide Body, FeedAll, Doomed, Fits;
    if rows != [] {
      var n := |rows| - 1;
      PendingShape(rows[..n], pid);
      BodyShape(rows[n], pid);
      FitsIs(rows[n], pid);
      if !Fits(rows[n], pid) {
        PendingGrows(Pending(rows[..n], pid), Body(rows[n], pid));
        assert n > 0 ==> rows[..n][n - 1] == rows[n - 1];
      }
    }
  }

  // ---- lines read back -----------------------------------------------------

  lemma LineAsItIs(l: string, tag: string)
    requires l != "" && l[0] == '{' && l[|l| - 1] == '}'
    ensures ReadLine(LogLine(l, None), tag) == Loads(l)
  {
    NoStrip(l);
    hide StripLeft, StripRight, Loads;
  }

  lemma DoomedNotRead(p: string)
    requires Doomed(p)
    ensures Loads(p).None?
  {
    hide Hopeless, StillOpen, Loads;
    if Hopeless(p) {
      HopelessNotRead(p);
    } else {
      OpenNotRead(p, |p|);
      assert p[..|p|] == p;
    }
  }

  lemma NoLeadingSpace(p: string)
    requires "{\"t" <= p
    ensures StripLeft(p) == p && !IsSpace(p[0])
  {}

  lemma HopelessStripped(p: string)
    requires Hopeless(p)
    ensures Hopeless(StripRight(p))
  {
    hide NoStartHere, StripRight;
    var a, b :| p == a + ("{\"t" + b) && NoStartHere(a);
    assert p == (a + "{\"t") + b && (a + "{\"t")[|a| + 2] == 't';
    StripBehind(a + "{\"t", b);
    assert StripRight(p) == a + ("{\"t" + StripRight(b));
  }

  /** Stripped, it is not read either. */
  lemma DoomedLine(p: string, tag: string)
    requires Doomed(p) && "{\"t" <= p
    ensures ReadLine(LogLine(p, None), tag).None?
  {
    StripRightOf("", p);
    NoLeadingSpace(p);
    hide StripLeft, StripRight, Loads, Hopeless, StillOpen;
    var q := StripRight(p);
    if Hopeless(p) {
      HopelessStripped(p);
      HopelessNotRead(q);
    } else {
      OpenNotRead(p, |q|);
      assert p[..|q|] == q;
    }
  }

  /** One line, with the cut lines before it: lost if there are any. */
  lemma EndedLine(rows: seq<Row>, pid: nat, tag: string)
    requires rows != [] && FromWrapper(rows[|rows| - 1].e) && Fits(rows[|rows| - 1], pid)
    ensures var n := |rows| - 1;
      var r := ReadLine(LogLine(Pending(rows[..n], pid) + Body(rows[n], pid), None), tag);
      && '\n' !in Pending(rows[..n], pid) + Body(rows[n], pid)
      && r == if CleanRow(rows[n]) && (n == 0 || Fits(rows[n - 1], pid)) then Some(RecordOf(rows[n], pid)) else None
  {
    hide Body, Pending, Fits, CleanRow, Loads, ReadLine, RecordOf, HasFields, FromWrapper, Doomed, FeedAll;
    var n := |rows| - 1;
    PendingShape(rows[..n], pid);
    BodyShape(rows[n], pid);
    var pending, p := Pending(rows[..n], pid), Body(rows[n], pid);
    LineAsItIs(pending + p, tag);
    if pending == "" {
      assert pending + p == p;
      BodyReadsBack(rows[n], pid);
    } else {
      LaterLine(pending, p, |p|);
      assert p[..|p|] == p;
      DoomedNotRead(pending + p);
    }
  }

  lemma CutLine(p: string, k: nat, tag: string)
    requires OpenUntilLastBrace(p) && "{\"t" <= p && 3 <= k < |p|
    ensures ReadLine(LogLine(p[..k], None), tag).None?
  {
    assert "{\"t" <= p[..k];
    NoLeadingSpace(p[..k]);
    StripRightOf("", p[..k]);
    hide StripLeft, StripRight, Loads, OpenUntilLastBrace;
    var q := StripRight(p[..k]);
    assert q == p[..|q|];
    PrefixNotRead(p, |q|);
  }

  /** The cut lines at the end of the file: a record only if they are one line, whole but
      for its line break. */
  lemma PendingLine(rows: seq<Row>, pid: nat, tag: string)
    requires rows != [] && FromWrapper(rows[|rows| - 1].e) && !Fits(rows[|rows| - 1], pid)
    ensures var n := |rows| - 1;
      var r := ReadLine(LogLine(Pending(rows, pid), None), tag);
      r == if Kept(rows, pid, n) then Some(RecordOf(rows[n], pid)) else None
  {
    hide Body, Pending, Fits, CleanRow, Loads, ReadLine, RecordOf, HasFields, FromWrapper, Doomed, FeedAll;
    var n := |rows| - 1;
    PendingShape(rows, pid);
    BodyShape(rows[n], pid);
    FitsIs(rows[n], pid);
    var p := Body(rows[n], pid);
    if n > 0 && !Fits(rows[n - 1], pid) {
      DoomedLine(Pending(rows, pid), tag);
    } else if |p| == LINE_ROOM {
      assert p[..LINE_ROOM] == p;
      LineAsItIs(p, tag);
      BodyReadsBack(rows[n], pid);
    } else {
      CutLine(p, LINE_ROOM, tag);
    }
  }

  // ---- the file read back --------------------------------------------------

  lemma FindBreak(l: string, more: string)
    requires '\n' !in l
    ensures Find(l + ("\n" + more), '\n') == |l|
  {
    FindAfter(l, "\n" + more, '\n');
  }

  lemma FirstLine(l: string, more: string)
    requires '\n' !in l
    ensures LinesOfText(l + ("\n" + more)) == [LogLine(l, None)] + LinesOfText(more)
  {
    hide Find;
    FindBreak(l, more);
    var t := l + ("\n" + more);
    assert t[..|l|] == l && t[|l| + 1..] == more;
  }

  lemma {:induction false} NoBreak(l: string)
    requires '\n' !in l
    ensures Find(l, '\n') == |l|
  {
    if l != "" {
      assert l[0] in l;
      NoBreak(l[1..]);
    }
  }

  lemma OnlyLine(l: string)
    requires '\n' !in l
    ensures LinesOfText(l) == if l == "" then [] else [LogLine(l, None)]
  {
    NoBreak(l);
    hide Find;
    assert l[..|l|] == l;
  }

  lemma SplitFirst(text: string) returns (l: string, rest: string)
    requires text != "" && text[|text| - 1] == '\n'
    ensures '\n' !in l && text == l + ("\n" + rest) && (rest == "" || rest[|rest| - 1] == '\n')
  {
    hide Find;
    var i := Find(text, '\n');
    assert text[..|text|] == text && text[|text| - 1] in text;
    l, rest := text[..i], text[i + 1..];
    assert text == text[..i] + text[i..] && text[i..] == [text[i]] + rest && [text[i]] == "\n";
    assert rest != "" ==> rest[|rest| - 1] == text[|text| - 1];
  }

  /** Behind text that ends in a line break, more text gives its own lines. */
  lemma {:induction false} LinesAppend(text: string, more: string)
    requires text == "" || text[|text| - 1] == '\n'
    ensures LinesOfText(text + more) == LinesOfText(text) + LinesOfText(more)
    decreases |text|
  {
    hide LinesOfText;
    if text == "" {
      OnlyLine("");
      assert text + more == more;
    } else {
      var l, rest := SplitFirst(text);
      FirstLine(l, rest);
      FirstLine(l, rest + more);
      Assoc(l, "\n" + rest, more);
      Assoc("\n", rest, more);
      LinesAppend(rest, more);
    }
  }

  lemma ReadOneLine(lines: seq<LogLine>, l: LogLine, tag: string)
    ensures ReadLines(lines + [l], tag)
            == ReadLines(lines, tag) + match ReadLine(l, tag) case None => [] case Some(r) => [r]
  {
    hide ReadLine;
    assert (lines + [l])[..|lines|] == lines;
  }

  /** The rows that come back, not counting a last one that was cut. */
  function EndedRows(rows: seq<Row>, pid: nat): seq<Row>
  {
    if rows == [] then []
    else
      var n := |rows| - 1;
      EndedRows(rows[..n], pid)
      + if Fits(rows[n], pid) && CleanRow(rows[n]) && (n == 0 || Fits(rows[n - 1], pid)) then [rows[n]] else []
  }

  lemma NoLines(tag: string)
    ensures ReadLines([], tag) == []
  {}

  lemma LineSplits(before: string, l: string)
    requires '\n' !in l && (before == "" || before[|before| - 1] == '\n')
    ensures LinesOfText(before + (l + "\n")) == LinesOfText(before) + [LogLine(l, None)]
  {
    hide LinesOfText;
    LinesAppend(before, l + "\n");
    FirstLine(l, "");
    OnlyLine("");
    assert "\n" + "" == "\n" && [LogLine(l, None)] + [] == [LogLine(l, None)];
  }

  lemma {:induction false} EndedReads(rows: seq<Row>, pid: nat, tag: string)
    requires forall i :: 0 <= i < |rows| ==> FromWrapper(rows[i].e)
    ensures Ended(rows, pid) == "" || Ended(rows, pid)[|Ended(rows, pid)| - 1] == '\n'
    ensures ReadLines(LinesOfText(Ended(rows, pid)), tag) == RecordsOf(EndedRows(rows, pid), pid)
  {
    hide Body, Pending, Fits, ReadLine, RecordOf, FromWrapper, ReadLines, CleanRow, LinesOfText;
    if rows == [] {
      OnlyLine("");
      NoLines(tag);
    } else {
      var n := |rows| - 1;
      EndedReads(rows[..n], pid, tag);
      if Fits(rows[n], pid) {
        EndedLine(rows, pid, tag);
        var l := Pending(rows[..n], pid) + Body(rows[n], pid);
        var before := Ended(rows[..n], pid);
        LineSplits(before, l);
        ReadOneLine(LinesOfText(before), LogLine(l, None), tag);
        assert RecordsOf(EndedRows(rows, pid), pid)
            == RecordsOf(EndedRows(rows[..n], pid), pid)
               + match ReadLine(LogLine(l, None), tag) case None => [] case Some(r) => [r];
      }
    }
  }

  lemma {:induction false} KeptInside(rows: seq<Row>, pid: nat, k: nat)
    requires k <= |rows| && (k < |rows| || k == 0 || Fits(rows[k - 1], pid))
    ensures KeptRows(rows, pid, k) == EndedRows(rows[..k], pid)
  {
    hide Fits, CleanRow, Body;
    if k > 0 {
      var n := k - 1;
      KeptInside(rows, pid, n);
      assert rows[..k][..n] == rows[..n] && rows[..k][n] == rows[n];
      assert n > 0 ==> rows[..k][n - 1] == rows[n - 1];
      FitsIs(rows[n], pid);
    }
  }

  lemma {:induction false} KeptAtMost(rows: seq<Row>, pid: nat, k: nat)
    requires k <= |rows|
    ensures |KeptRows(rows, pid, k)| <= k
    ensures |KeptRows(rows, pid, k)| == k <==> forall i :: 0 <= i < k ==> Kept(rows, pid, i)
    ensures |KeptRows(rows, pid, k)| == k ==> KeptRows(rows, pid, k) == rows[..k]
  {
    hide Kept;
    if k > 0 {
      KeptAtMost(rows, pid, k - 1);
      assert rows[..k] == rows[..k - 1] + [rows[k - 1]];
    }
  }

  /** Its names are clean, and its line fits or is the last and lost only its line break. */
  predicate Whole(rows: seq<Row>, pid: nat, n: nat)
    requires n < |rows|
  {
    CleanRow(rows[n]) && (Fits(rows[n], pid) || (n == |rows| - 1 && |Body(rows[n], pid)| == LINE_ROOM))
  }

  lemma AllKeptIff(rows: seq<Row>, pid: nat)
    ensures (forall n :: 0 <= n < |rows| ==> Kept(rows, pid, n))
            <==> forall n :: 0 <= n < |rows| ==> Whole(rows, pid, n)
  {
    hide Fits, CleanRow, Body;
    if forall n :: 0 <= n < |rows| ==> Whole(rows, pid, n) {
      forall n | 0 <= n < |rows| ensures Kept(rows, pid, n) {
        assert Whole(rows, pid, n);
        if n > 0 { assert Whole(rows, pid, n - 1); }
      }
    }
    if forall n :: 0 <= n < |rows| ==> Kept(rows, pid, n) {
      forall n | 0 <= n < |rows| ensures Whole(rows, pid, n) {
        assert Kept(rows, pid, n);
      }
    }
  }

  lemma EndedOfCut(rows: seq<Row>, pid: nat)
    requires rows != [] && !Fits(rows[|rows| - 1], pid)
    ensures EndedRows(rows, pid) == EndedRows(rows[..|rows| - 1], pid)
  {
    hide Fits, CleanRow;
  }

  lemma FileReadsKept(rows: seq<Row>, pid: nat, tag: string)
    requires forall i :: 0 <= i < |rows| ==> FromWrapper(rows[i].e)
    ensures ReadLines(LinesOfText(FileText(rows, pid)), tag) == RecordsOf(KeptRows(rows, pid, |rows|), pid)
  {
    hide Body, Pending, Ended, Fits, ReadLine, RecordOf, FromWrapper, ReadLines, CleanRow;
    hide LinesOfText, Kept, EndedRows, Doomed, FeedAll;
    FileSplits(rows, pid);
    EndedReads(rows, pid, tag);
    PendingShape(rows, pid);
    if rows == [] || Fits(rows[|rows| - 1], pid) {
      KeptInside(rows, pid, |rows|);
      assert rows[..|rows|] == rows;
      assert Ended(rows, pid) + "" == Ended(rows, pid);
    } else {
      var n := |rows| - 1;
      KeptInside(rows, pid, n);
      EndedOfCut(rows, pid);
      PendingLine(rows, pid, tag);
      LinesAppend(Ended(rows, pid), Pending(rows, pid));
      OnlyLine(Pending(rows, pid));
      ReadOneLine(LinesOfText(Ended(rows, pid)), LogLine(Pending(rows, pid), None), tag);
    }
  }

  lemma RecordsAreRecs(rows: seq<Row>, pid: nat)
    ensures FromRecords(RecordsOf(rows, pid)) == RecsOfRows(rows, pid)
    ensures forall i :: 0 <= i < |rows| ==> HasFields(RecordsOf(rows, pid)[i], rows[i], pid)
  {
    hide RecordOf, HasFields, FromRecord, RecOfRow;
    forall i | 0 <= i < |rows|
      ensures HasFields(RecordOf(rows[i], pid), rows[i], pid)
      ensures FromRecord(RecordOf(rows[i], pid)) == RecOfRow(rows[i], pid)
    {
      RowFields(rows[i], pid);
      FieldsAreRec(RecordOf(rows[i], pid), rows[i], pid);
    }
  }

  /** Reading a file gives the records of exactly the rows that are kept, in order, with all
      their fields: clean, not behind a cut line, and not cut themselves but for the line
      break of the last one. So every row comes back if and only if every row is whole. */
  lemma FileReadsBack(rows: seq<Row>, pid: nat, tag: string)
    requires forall i :: 0 <= i < |rows| ==> FromWrapper(rows[i].e)
    ensures var kept, rs := KeptRows(rows, pid, |rows|), ReadLines(LinesOfText(FileText(rows, pid)), tag);
      && |rs| == |kept| && (forall i :: 0 <= i < |rs| ==> HasFields(rs[i], kept[i], pid))
      && FromRecords(rs) == RecsOfRows(kept, pid)
      && (|kept| == |rows| <==> forall n :: 0 <= n < |rows| ==> Whole(rows, pid, n))
  {
    hide RecsOfRows, FromRecords, ReadLines, LinesOfText, FileText, Kept, Whole, HasFields, RecordOf;
    FileReadsKept(rows, pid, tag);
    RecordsAreRecs(KeptRows(rows, pid, |rows|), pid);
    KeptAtMost(rows, pid, |rows|);
    AllKeptIff(rows, pid);
  }

  // ---- lines that are lost -------------------------------------------------

  /** A line ends with each row that fits, and with the last one. */
  predicate EndsLine(rows: seq<Row>, pid: nat, n: nat)
    requires n < |rows|
  {
    Fits(rows[n], pid) || n == |rows| - 1
  }

  /** How many lines end with one of the first n rows, and how many of them are lost: the
      row is not clean, or was cut, or stands behind a cut one. */
  function LinesUpTo(rows: seq<Row>, pid: nat, n: nat): nat
    requires n <= |rows|
  {
    if n == 0 then 0 else LinesUpTo(rows, pid, n - 1) + if EndsLine(rows, pid, n - 1) then 1 else 0
  }

  function LostUpTo(rows: seq<Row>, pid: nat, n: nat): nat
    requires n <= |rows|
  {
    if n == 0 then 0
    else LostUpTo(rows, pid, n - 1) + if EndsLine(rows, pid, n - 1) && !Kept(rows, pid, n - 1) then 1 else 0
  }

  lemma {:induction false} LostOrKept(rows: seq<Row>, pid: nat, n: nat)
    requires n <= |rows|
    ensures LostUpTo(rows, pid, n) + |KeptRows(rows, pid, n)| == LinesUpTo(rows, pid, n)
  {
    hide Fits, CleanRow, Body;
    if n > 0 { LostOrKept(rows, pid, n - 1); }
  }

  predicate BeginsObject(l: LogLine)
  {
    "{\"t" <= l.text
  }

  lemma StrippedBegins(l: LogLine)
    requires BeginsObject(l)
    ensures Strip(l.text) != "" && Strip(l.text)[0] == '{'
  {
    NoLeadingSpace(l.text);
    StripRightOf("", l.text);
    hide StripLeft, StripRight;
  }

  /** A line that begins with a brace is read or bad. */
  lemma {:induction false} BadOrRead(lines: seq<LogLine>, tag: string)
    requires forall i :: 0 <= i < |lines| ==> BeginsObject(lines[i])
    ensures BadLines(lines) + |ReadLines(lines, tag)| == |lines|
  {
    hide Strip, Loads, BeginsObject;
    if lines != [] {
      BadOrRead(lines[..|lines| - 1], tag);
      StrippedBegins(lines[|lines| - 1]);
    }
  }

  lemma FrontBegins(pending: string, p: string)
    requires "{\"t" <= p && (pending == "" || "{\"t" <= pending)
    ensures "{\"t" <= pending + p
  {
    if pending == "" { assert pending + p == p; }
  }

  lemma {:induction false} EndedLines(rows: seq<Row>, pid: nat, k: nat)
    requires k <= |rows| && (k < |rows| || k == 0 || Fits(rows[k - 1], pid))
    ensures var text := Ended(rows[..k], pid);
      && (text == "" || text[|text| - 1] == '\n')
      && |LinesOfText(text)| == LinesUpTo(rows, pid, k)
      && forall i :: 0 <= i < |LinesOfText(text)| ==> BeginsObject(LinesOfText(text)[i])
  {
    hide Body, Fits, LinesOfText, Pending;
    if k == 0 {
      OnlyLine("");
    } else {
      var n := k - 1;
      EndedLines(rows, pid, n);
      assert rows[..k][..n] == rows[..n] && rows[..k][n] == rows[n];
      if Fits(rows[n], pid) {
        PendingShape(rows[..n], pid);
        BodyShape(rows[n], pid);
        FrontBegins(Pending(rows[..n], pid), Body(rows[n], pid));
        LineSplits(Ended(rows[..n], pid), Pending(rows[..n], pid) + Body(rows[n], pid));
      }
    }
  }

  lemma CutEnds(rows: seq<Row>, pid: nat)
    requires rows != [] && !Fits(rows[|rows| - 1], pid)
    ensures Ended(rows, pid) == Ended(rows[..|rows| - 1], pid)
  {
    hide Fits, Body;
  }

  /** The file's lines, and that each begins like a record. */
  lemma FileLines(rows: seq<Row>, pid: nat)
    ensures var lines := LinesOfText(FileText(rows, pid));
      |lines| == LinesUpTo(rows, pid, |rows|) && forall i :: 0 <= i < |lines| ==> BeginsObject(lines[i])
  {
    hide Body, Fits, LinesOfText, Pending, Ended, FeedAll, Doomed;
    FileSplits(rows, pid);
    assert rows[..|rows|] == rows;
    if rows == [] || Fits(rows[|rows| - 1], pid) {
      PendingShape(rows, pid);
      EndedLines(rows, pid, |rows|);
      assert Ended(rows, pid) + "" == Ended(rows, pid);
    } else {
      var n := |rows| - 1;
      EndedLines(rows, pid, n);
      PendingShape(rows, pid);
      CutEnds(rows, pid);
      LinesAppend(Ended(rows, pid), Pending(rows, pid));
      OnlyLine(Pending(rows, pid));
    }
  }

  /** The analyser's count of bad lines, for a file of this plane: one for each line that
      ends with a row which does not come back. */
  lemma BadLinesAreLost(rows: seq<Row>, pid: nat)
    requires forall i :: 0 <= i < |rows| ==> FromWrapper(rows[i].e)
    ensures BadLines(LinesOfText(FileText(rows, pid))) == LostUpTo(rows, pid, |rows|)
  {
    FileLines(rows, pid);
    BadOrRead(LinesOfText(FileText(rows, pid)), "");
    FileReadsKept(rows, pid, "");
    LostOrKept(rows, pid, |rows|);
    hide LinesOfText, FileText, ReadLines, BadLines, LostUpTo, LinesUpTo, KeptRows, RecordOf, BeginsObject;
  }

  // ---- the report on the file ----------------------------------------------

  /** Two records that the replay does not tell apart: it looks at the name and the size
      of maps only. */
  predicate Alike(r: C.Rec, q: C.Rec)
  {
    && r.event == q.event && r.pid == q.pid && r.ts == q.ts && r.addr == q.addr && r.ret == q.ret
    && (C.IsMap(r) ==> r == q)
  }

  lemma AlikeStep(s: C.Replay, r: C.Rec, q: C.Rec)
    requires Alike(r, q)
    ensures C.Step(s, r) == C.Step(s, q)
  {
    C.StepCases(s, r);
    C.StepCases(s, q);
    hide C.Step, AddrIsReal;
  }

  lemma {:induction false} AlikeReplay(rs: seq<C.Rec>, qs: seq<C.Rec>)
    requires |rs| == |qs| && forall i :: 0 <= i < |rs| ==> Alike(rs[i], qs[i])
    ensures C.ReplayAll(rs) == C.ReplayAll(qs)
  {
    hide C.Step, Alike;
    if rs != [] {
      var n := |rs| - 1;
      AlikeReplay(rs[..n], qs[..n]);
      assert Alike(rs[n], qs[n]);
      AlikeStep(C.ReplayAll(rs[..n]), rs[n], qs[n]);
    }
  }

  lemma OneGroupMore(rs: seq<C.Rec>, p: C.Pid)
    requires rs != [] && C.Relevant(rs[|rs| - 1]) && rs[|rs| - 1].pid == p
    ensures C.Group(rs, p) == C.Group(rs[..|rs| - 1], p) + [rs[|rs| - 1]]
    ensures C.Pids(rs) == C.Pids(rs[..|rs| - 1]) + if p in C.Pids(rs[..|rs| - 1]) then [] else [p]
  {
    hide C.Relevant;
  }

  lemma NoGroup(p: C.Pid)
    ensures C.Group([], p) == [] && C.Pids([]) == []
  {}

  /** Records of one process are their own group. */
  lemma {:induction false} OneProcess(rs: seq<C.Rec>, p: C.Pid)
    requires rs != [] && forall i :: 0 <= i < |rs| ==> C.Relevant(rs[i]) && rs[i].pid == p
    ensures C.Group(rs, p) == rs && C.Pids(rs) == [p]
  {
    var n := |rs| - 1;
    hide C.Relevant, C.Group, C.Pids;
    OneGroupMore(rs, p);
    if n > 0 {
      OneProcess(rs[..n], p);
    } else {
      assert rs[..0] == [];
      NoGroup(p);
    }
    assert rs == rs[..n] + [rs[n]];
  }

  /** In time order they are also sorted. */
  lemma OneProcessReplay(rs: seq<C.Rec>, p: C.Pid)
    requires rs != [] && forall i :: 0 <= i < |rs| ==> C.Relevant(rs[i]) && rs[i].pid == p
    requires Ordered(rs, C.TimeKey)
    ensures C.PidReplay(rs, p) == C.ReplayAll(rs) && C.Pids(rs) == [p]
  {
    OneProcess(rs, p);
    SortKeepsOrdered(rs, C.TimeKey);
    hide C.Relevant, C.Group, C.Pids, C.ReplayAll, SortBy, Ordered;
  }

  lemma AlikeOrdered(rs: seq<C.Rec>, qs: seq<C.Rec>, p: C.Pid)
    requires |rs| == |qs| && forall i :: 0 <= i < |rs| ==> Alike(rs[i], qs[i])
    requires forall i :: 0 <= i < |rs| ==> C.Relevant(rs[i]) && rs[i].pid == p
    requires Ordered(rs, C.TimeKey)
    ensures Ordered(qs, C.TimeKey) && forall i :: 0 <= i < |qs| ==> C.Relevant(qs[i]) && qs[i].pid == p
  {
    hide AddrIsReal;
    forall i | 0 <= i < |qs| ensures C.Relevant(qs[i]) && qs[i].pid == p && C.TimeKey(qs[i]) == C.TimeKey(rs[i]) {
      assert Alike(rs[i], qs[i]);
    }
  }

  lemma SameReport(rs: seq<C.Rec>, qs: seq<C.Rec>, evs: seq<A.Event>, p: C.Pid)
    requires rs != [] && |rs| == |qs| && forall i :: 0 <= i < |rs| ==> Alike(rs[i], qs[i])
    requires forall i :: 0 <= i < |rs| ==> C.Relevant(rs[i]) && rs[i].pid == p
    requires Ordered(rs, C.TimeKey) && Agree(qs, evs, p)
    ensures Agree(rs, evs, p)
  {
    hide C.ReplayAll, C.PidReplay, C.Pids, SortBy, AddrIsReal;
    AlikeReplay(rs, qs);
    AlikeOrdered(rs, qs, p);
    OneProcessReplay(rs, p);
    OneProcessReplay(qs, p);
    hide Ordered, Alike, C.Relevant, A.Run, Pairs, OnlineLifetimes, SameLive, PeakWithoutRemaps;
    hide A.Matches, A.Overwritten;
  }

  function EventsOf(rows: seq<Row>): (evs: seq<A.Event>)
    ensures |evs| == |rows| && forall i :: 0 <= i < |rows| ==> evs[i] == rows[i].e
  {
    seq(|rows|, i requires 0 <= i < |rows| => rows[i].e)
  }

  lemma RowAlike(row: Row, s: A.Stats, pid: nat)
    requires FromWrapper(row.e)
    ensures Alike(RecOfRow(row, pid), RecOf(false, s, row.e, Some(Int(pid))))
    ensures var r := RecOfRow(row, pid);
      C.Relevant(r) && r.pid == Some(Int(pid)) && C.TimeKey(r) == row.e.t
  {
    hide AddrText, Int;
  }

  /** The report on any rows agrees with an accounting of their events. */
  lemma RowsAgree(rows: seq<Row>, pid: nat)
    requires rows != [] && forall i :: 0 <= i < |rows| ==> FromWrapper(rows[i].e)
    requires A.InTimeOrder(EventsOf(rows)) && A.MappedBytes(EventsOf(rows)) < A.WORD
    ensures Agree(RecsOfRows(rows, pid), EventsOf(rows), Some(Int(pid)))
  {
    hide RecOfRow, RecOf, FromWrapper, A.MappedBytes, Agree, Int, Alike, RecsOf, A.Run;
    var evs, p := EventsOf(rows), Some(Int(pid));
    var rs, qs := RecsOfRows(rows, pid), RecsOf(false, evs, p);
    OnlineAndReplayAgree(false, evs, p);
    forall i | 0 <= i < |rows|
      ensures Alike(rs[i], qs[i]) && C.Relevant(rs[i]) && rs[i].pid == p && C.TimeKey(rs[i]) == evs[i].t
    {
      RecsOfAt(false, evs, p, i);
      RowAlike(rows[i], A.Run(evs[..i]), pid);
    }
    hide C.Relevant, C.TimeKey;
    assert Ordered(rs, C.TimeKey);
    SameReport(rs, qs, evs, p);
  }

  /** The row that the profiler writes for event e, in state s. */
  function RowOf(s: A.Stats, e: A.Event, tid: nat): Row
  {
    var l := A.LineOf(s, e);
    Row(e, l.hit, l.liveCount, l.liveBytes, tid)
  }

  function RowsOf(evs: seq<A.Event>, tids: seq<nat>): (rows: seq<Row>)
    requires |tids| == |evs|
    ensures |rows| == |evs|
  {
    if evs == [] then []
    else
      var n := |evs| - 1;
      RowsOf(evs[..n], tids[..n]) + [RowOf(A.Run(evs[..n]), evs[n], tids[n])]
  }

  lemma {:induction false} RowsAreEvents(evs: seq<A.Event>, tids: seq<nat>)
    requires |tids| == |evs|
    ensures EventsOf(RowsOf(evs, tids)) == evs
  {
    hide A.Run, A.LineOf;
    if evs != [] {
      var n := |evs| - 1;
      RowsAreEvents(evs[..n], tids[..n]);
    }
  }

  lemma {:induction false} KeptAreRows(rows: seq<Row>, pid: nat, k: nat)
    requires k <= |rows| && forall i :: 0 <= i < |rows| ==> FromWrapper(rows[i].e)
    ensures forall i :: 0 <= i < |KeptRows(rows, pid, k)| ==> FromWrapper(KeptRows(rows, pid, k)[i].e)
  {
    hide Kept, FromWrapper;
    if k > 0 { KeptAreRows(rows, pid, k - 1); }
  }

  /** For any stream of events, written to its file by any threads: the report on the file
      agrees with an accounting of the events whose lines come back, which are all of them
      - so it agrees with the online accounting - if and only if every row is whole. */
  lemma FileAgrees(evs: seq<A.Event>, tids: seq<nat>, pid: nat, tag: string)
    requires |tids| == |evs| && FromWrappers(evs)
    requires var kept := EventsOf(KeptRows(RowsOf(evs, tids), pid, |evs|));
      kept != [] && A.InTimeOrder(kept) && A.MappedBytes(kept) < A.WORD
    ensures var rows := RowsOf(evs, tids);
      var kept := EventsOf(KeptRows(rows, pid, |evs|));
      && Agree(FromRecords(ReadLines(LinesOfText(FileText(rows, pid)), tag)), kept, Some(Int(pid)))
      && (kept == evs <==> forall n :: 0 <= n < |rows| ==> Whole(rows, pid, n))
  {
    hide RowsOf, Agree, FromRecords, ReadLines, LinesOfText, FileText, KeptRows, Whole, FromWrapper;
    hide A.MappedBytes, Int, RecsOfRows;
    var rows := RowsOf(evs, tids);
    RowsAreEvents(evs, tids);
    forall i | 0 <= i < |rows| ensures FromWrapper(rows[i].e) {
      assert EventsOf(rows)[i] == evs[i];
    }
    KeptAreRows(rows, pid, |rows|);
    FileReadsBack(rows, pid, tag);
    RowsAgree(KeptRows(rows, pid, |rows|), pid);
    KeptAtMost(rows, pid, |rows|);
    assert rows[..|rows|] == rows;
  }

  lemma RowAt(evs: seq<A.Event>, tids: seq<nat>, n: nat)
    requires |tids| == |evs| && n < |evs|
    ensures RowsOf(evs, tids)[n] == RowOf(A.Run(evs[..n]), evs[n], tids[n])
    decreases |evs|
  {
    hide A.Run, RowOf;
    var m := |evs| - 1;
    if n < m {
      RowAt(evs[..m], tids[..m], n);
      assert evs[..m][..n] == evs[..n];
    }
  }

  lemma {:induction false} KeptAt(rows: seq<Row>, pid: nat, n: nat, k: nat)
    requires n < k <= |rows| && Kept(rows, pid, n)
    ensures |KeptRows(rows, pid, n)| < |KeptRows(rows, pid, k)|
    ensures KeptRows(rows, pid, k)[|KeptRows(rows, pid, n)|] == rows[n]
  {
    hide Kept;
    if n + 1 < k {
      KeptAt(rows, pid, n, k - 1);
    }
  }

  /** What a record says of event n of a stream: its fields, the number of live entries and
      live_bytes after it, the thread, and the entry that it took out. */
  ghost predicate Tells(r: Record, evs: seq<A.Event>, n: nat, tid: nat, pid: nat)
    requires n < |evs|
  {
    var s := A.Run(evs[..n + 1]);
    exists hit :: A.IsHit(hit, evs[..n], evs[n]) && HasFields(r, Row(evs[n], hit, |s.live|, s.liveBytes, tid), pid)
  }

  lemma RowTells(r: Record, evs: seq<A.Event>, n: nat, tid: nat, pid: nat)
    requires n < |evs| && HasFields(r, RowOf(A.Run(evs[..n]), evs[n], tid), pid)
    ensures Tells(r, evs, n, tid, pid)
  {
    hide HasFields, A.IsHit;
    A.HitIsLatestMap(evs[..n], evs[n]);
    assert evs[..n + 1][..n] == evs[..n];
    A.RunUnfold(evs[..n + 1]);
    hide A.Run, A.Step;
  }

  /** The whole way of a line, from the event to the record that the analyser reads: each
      line that comes back has the event's fields and the counts of the run up to it. In a
      file that is whole it is the n-th record. */
  lemma FileTellsTheRun(evs: seq<A.Event>, tids: seq<nat>, pid: nat, tag: string, n: nat)
    requires |tids| == |evs| && FromWrappers(evs) && n < |evs| && Kept(RowsOf(evs, tids), pid, n)
    ensures var rows := RowsOf(evs, tids);
      var rs, i := ReadLines(LinesOfText(FileText(rows, pid)), tag), |KeptRows(rows, pid, n)|;
      && i < |rs| && Tells(rs[i], evs, n, tids[n], pid)
      && ((forall m :: 0 <= m < |rows| ==> Whole(rows, pid, m)) ==> i == n)
  {
    hide RowsOf, ReadLines, LinesOfText, FileText, KeptRows, Whole, Kept, FromWrapper, HasFields, Tells, RowOf;
    var rows := RowsOf(evs, tids);
    RowsAreEvents(evs, tids);
    forall i | 0 <= i < |rows| ensures FromWrapper(rows[i].e) {
      assert EventsOf(rows)[i] == evs[i];
    }
    FileReadsBack(rows, pid, tag);
    KeptAt(rows, pid, n, |rows|);
    RowAt(evs, tids, n);
    RowTells(ReadLines(LinesOfText(FileText(rows, pid)), tag)[|KeptRows(rows, pid, n)|], evs, n, tids[n], pid);
    AllKeptIff(rows, pid);
    KeptAtMost(rows, pid, n);
  }
}
