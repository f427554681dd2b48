/** The data plane end to end: an event printed through its buffer onto a line of the
    system's log, and what the analyser makes of such a log (src/profiler/
    shm_profiler.c, lines 161-205; tools/analyze_profile.py, lines 162-293). */
module DataPlaneLog {
  import opened Wrappers
  import opened EventText
  import opened JsonScan
  import opened JsonReader
  import opened JsonDecode
  import opened JsonShape
  import opened LogUnwrap
  import opened Agreement
  import A = Accounting
  import C = Correlate

  // ---- one event -----------------------------------------------------------

  function FullText(e: A.Event): string
  {
    match e
    case MapEvent(op, name, addr, size, flags, ret, pg, _) => MapText(op, name, addr, size, flags, ret, pg)
    case UnmapEvent(addr, ret, _) => UnmapText(addr, ret)
  }

  function Room(e: A.Event): nat
  {
    if e.MapEvent? then 512 else 128
  }

  /** What is handed to the log. */
  function LoggedText(e: A.Event): string
  {
    Printed(FullText(e), Room(e))
  }

  predicate IsCut(e: A.Event)
  {
    |FullText(e)| >= Room(e)
  }

  predicate CleanNames(e: A.Event)
  {
    e.MapEvent? ==> Clean(OrEmpty(e.name)) && Clean(OrEmpty(e.pg))
  }

  /** Its names have no control characters but \n, \r and \t, and it fits its buffer. */
  predicate Readable(e: A.Event)
  {
    CleanNames(e) && !IsCut(e)
  }

  /** The fields of an event. */
  function Fields(e: A.Event): Record
  {
    match e
    case MapEvent(op, name, addr, size, flags, ret, pg, _) => MapRecord(op, name, addr, size, flags, ret, pg)
    case UnmapEvent(addr, ret, _) => map["event" := Text("unmap"), "addr" := Text(Ptr(addr)), "ret" := Number(ret)]
  }

  lemma OpsAreSimple()
    ensures Simple("map") && Simple("map_on_pg")
  {}

  /** Every event is one object, open up to its last brace, and decodes to its fields if
      its names are clean. */
  lemma EventShape(e: A.Event)
    requires FromWrapper(e)
    ensures var p := FullText(e);
      && OpenUntilLastBrace(p) && |p| >= 2 && p[0] == '{' && p[|p| - 1] == '}'
      && Loads(p) == if CleanNames(e) then Some(Fields(e)) else None
  {
    hide FeedAll, Loads, MapText, UnmapText, MapRecord, Clean, Simple;
    if e.MapEvent? {
      OpsAreSimple();
      MapTextOpen(e.op, e.name, e.addr, e.size, e.flags, e.ret, e.pg);
      MapTextRegroups(e.op, e.name, e.addr, e.size, e.flags, e.ret, e.pg);
      MapRoundTrip(e.op, e.name, e.addr, e.size, e.flags, e.ret, e.pg);
    } else {
      UnmapTextOpen(e.addr, e.ret);
      UnmapTextRegroups(e.addr, e.ret);
      UnmapRoundTrip(e.addr, e.ret);
    }
  }

  /** Stamping adds a pid and a time to a record without them. */
  lemma FieldsKept(r: Record, stamp: Option<Stamp>)
    requires "pid" !in r && "ts_ns" !in r
    ensures var r' := Stamped(r, stamp);
      && PidAt(r') == (if stamp.Some? then Some(stamp.value.pid) else None)
      && NumberAt(r', "ts_ns") == (if stamp.Some? then Some(stamp.value.ts) else None)
      && (forall k :: k != "pid" && k != "ts_ns" ==> TextAt(r', k) == TextAt(r, k) && NumberAt(r', k) == NumberAt(r, k))
  {
    hide Int;
  }

  lemma NoPidNoTime(e: A.Event)
    ensures "pid" !in Fields(e) && "ts_ns" !in Fields(e)
  {
    hide Ptr;
  }

  lemma MapFields(e: A.Event)
    requires e.MapEvent?
    ensures var r := Fields(e);
      && TextAt(r, "event") == Some(e.op) && TextAt(r, "shmname") == Some(OrEmpty(e.name))
      && TextAt(r, "addr") == Some(Ptr(e.addr)) && NumberAt(r, "size") == Some(e.size)
      && NumberAt(r, "flags") == Some(e.flags) && NumberAt(r, "ret") == Some(e.ret)
  {
    hide Ptr;
  }

  lemma UnmapFields(e: A.Event)
    requires e.UnmapEvent?
    ensures var r := Fields(e);
      && TextAt(r, "event") == Some("unmap") && TextAt(r, "addr") == Some(Ptr(e.addr))
      && NumberAt(r, "ret") == Some(e.ret)
      && TextAt(r, "shmname") == None && NumberAt(r, "size") == None && NumberAt(r, "flags") == None
  {
    hide Ptr;
  }

  lemma DataPlaneAddr(a: nat)
    ensures AddrText(true, a) == Ptr(a)
  {}

  /** The record of an event, its pid and time as far as its line gives them. */
  function Rec(e: A.Event, stamp: Option<Stamp>): C.Rec
  {
    match stamp
    case None => RecOf(true, A.START, e, None).(ts := None)
    case Some(x) => RecOf(true, A.START, e, Some(x.pid))
  }

  /** The record of an event whose line says when it was and which process it is from. */
  lemma StampedFields(e: A.Event, stamp: Option<Stamp>)
    requires stamp.Some? ==> stamp.value.ts == e.t
    ensures FromRecord(Stamped(Fields(e), stamp)) == Rec(e, stamp)
  {
    hide Ptr, AddrText, TextAt, NumberAt, PidAt, Stamped, Fields, Int;
    DataPlaneAddr(e.addr);
    NoPidNoTime(e);
    FieldsKept(Fields(e), stamp);
    if e.MapEvent? {
      MapFields(e);
    } else {
      UnmapFields(e);
    }
  }

  // ---- one line ------------------------------------------------------------

  /** A line of the system's log: another module's, or one of ours, with the text before
      and behind the event. */
  datatype Entry = Foreign(line: string) | Ours(e: A.Event, prefix: string, suffix: string)

  function Shown(x: Entry, pid: string): LogLine
  {
    match x
    case Foreign(line) => LogLine(line, None)
    case Ours(e, prefix, suffix) => LogLine(prefix + LoggedText(e) + suffix, Some(Stamp(pid, e.t)))
  }

  /** Foreign lines do not carry the tag; ours do, their prefix has no brace, and only
      whole events have text behind them. */
  predicate WellPlaced(x: Entry, tag: string)
  {
    match x
    case Foreign(line) => tag != "" && !Contains(line, "[" + tag + "]")
    case Ours(e, prefix, suffix) =>
      && FromWrapper(e) && '{' !in prefix && (IsCut(e) ==> suffix == "")
      && (tag == "" || Contains(prefix + LoggedText(e) + suffix, "[" + tag + "]"))
  }

  /** The one record a foreign line can give: itself, if it is a JSON object. */
  function OwnRecord(line: string): Option<Record>
  {
    var s := Strip(line);
    if s != "" && s[0] == '{' then Loads(s) else None
  }

  /** What a line gives. Ours gives the event's record if it is readable; but where nothing
      stands before the event, the line is taken for pure JSON, so nothing may stand behind
      it either, and the record has no pid and no time. */
  function Expected(x: Entry, pid: string): Option<C.Rec>
  {
    match x
    case Foreign(line) => if OwnRecord(line).Some? then Some(FromRecord(OwnRecord(line).value)) else None
    case Ours(e, prefix, suffix) =>
      if !Readable(e) then None
      else if !Blank(prefix) then Some(Rec(e, Some(Stamp(pid, e.t))))
      else if Blank(suffix) then Some(Rec(e, None))
      else None
  }

  ghost function LineRec(line: LogLine, tag: string): Option<C.Rec>
  {
    match ReadLine(line, tag)
    case None => None
    case Some(r) => Some(FromRecord(r))
  }

  lemma TagEnds(tag: string)
    ensures var sub := "[" + tag + "]";
      sub != "" && !IsSpace(sub[0]) && !IsSpace(sub[|sub| - 1])
  {}

  /** A foreign line is ignored unless it is a JSON object. */
  lemma ForeignReads(line: string, tag: string)
    requires tag != "" && !Contains(line, "[" + tag + "]")
    ensures ReadLine(LogLine(line, None), tag) == OwnRecord(line)
  {
    TagEnds(tag);
    ContainsStripped(line, "[" + tag + "]");
    hide Contains, Loads, Strip, Find, End;
  }

  lemma NotBlankHead(c: char)
    ensures c == '{' || c == '}' ==> !IsSpace(c)
  {}

  lemma NothingStripped()
    ensures StripRight("") == ""
  {}

  /** One of our lines, stripped: the event, whole or cut, and what is left around it. */
  lemma StrippedLine(e: A.Event, prefix: string, suffix: string) returns (k: nat)
    requires FromWrapper(e) && (IsCut(e) ==> suffix == "")
    ensures 0 < k <= |FullText(e)| && (IsCut(e) <==> k < |FullText(e)|)
    ensures Strip(prefix + LoggedText(e) + suffix) == StripLeft(prefix) + (FullText(e)[..k] + StripRight(suffix))
    ensures StripLeft(prefix) == "" <==> Blank(prefix)
    ensures StripLeft(prefix) != "" ==> !IsSpace(StripLeft(prefix)[0])
    ensures '{' !in prefix ==> '{' !in StripLeft(prefix)
    ensures StripRight(suffix) == "" <==> Blank(suffix)
    ensures StripRight(suffix) != "" ==> !IsSpace(StripRight(suffix)[|StripRight(suffix)| - 1])
  {
    hide FullText, OpenUntilLastBrace, Blank, Strip, StripLeft, StripRight, CleanNames, Loads, Fields;
    EventShape(e);
    NotBlankHead('{');
    NotBlankHead('}');
    var p, t := FullText(e), LoggedText(e);
    assert prefix + t + suffix == prefix + (t + suffix) && t[0] == '{';
    StripAround(prefix, t + suffix);
    StripLeftOf(prefix, t);
    StripBehind(p, suffix);
    if IsCut(e) {
      assert t + suffix == t && p[..Room(e) - 1] == t;
      StripRightOf("", t);
      k := |StripRight(t)|;
      NothingStripped();
      assert StripRight(t) == p[..k] + "";
    } else {
      k := |p|;
      assert t == p == p[..k];
    }
  }

  /** Behind a prefix that is not blank, the event is unwrapped. */
  lemma PrefixedReads(e: A.Event, prefix: string, suffix: string, tag: string, stamp: Option<Stamp>)
    requires FromWrapper(e) && '{' !in prefix && !Blank(prefix) && (IsCut(e) ==> suffix == "")
    requires tag == "" || Contains(prefix + LoggedText(e) + suffix, "[" + tag + "]")
    ensures ReadLine(LogLine(prefix + LoggedText(e) + suffix, stamp), tag)
         == if Readable(e) then Some(Stamped(Fields(e), stamp)) else None
  {
    hide Contains, Loads, End, Find, FullText, OpenUntilLastBrace, CleanNames, Stamped, Blank, Extract, Fields;
    hide Strip, StripLeft, StripRight, LoggedText;
    EventShape(e);
    TagEnds(tag);
    ContainsStripped(prefix + LoggedText(e) + suffix, "[" + tag + "]");
    var k := StrippedLine(e, prefix, suffix);
    var a, p, b := StripLeft(prefix), FullText(e), StripRight(suffix);
    if IsCut(e) {
      NothingStripped();
      assert a + (p[..k] + "") == a + p[..k];
      TruncatedEventIsDropped(a, p, k, tag);
    } else {
      assert p[..k] == p && a + (p + b) == a + p + b;
      ExtractsTheEvent(a, p, b, tag);
    }
  }

  lemma {:induction false} JsonBlanksAreBlank(s: string)
    requires SkipBlanks(s) == ""
    ensures Blank(s)
  {
    if s != "" {
      JsonBlanksAreBlank(s[1..]);
      BlankTail(s);
    }
  }

  /** An event with more than blanks behind it is not read. */
  lemma NothingBehind(p: string, t: string)
    requires OpenUntilLastBrace(p) && t != "" && !IsSpace(t[|t| - 1])
    ensures Loads(p + t).None?
  {
    hide FeedAll, Loads, SkipBlanks;
    ClosesAtItsEnd(p, t);
    if Loads(p + t).Some? {
      ReaderAndScannerAgree(p + t, "");
      assert (p + t)[|p|..] == t;
      JsonBlanksAreBlank(t);
    }
  }

  /** With nothing before the event, the whole line is decoded. */
  lemma BareReads(e: A.Event, prefix: string, suffix: string, tag: string, stamp: Option<Stamp>)
    requires FromWrapper(e) && Blank(prefix) && (IsCut(e) ==> suffix == "")
    ensures ReadLine(LogLine(prefix + LoggedText(e) + suffix, stamp), tag)
         == if Readable(e) && Blank(suffix) then Some(Fields(e)) else None
  {
    hide Loads, FullText, OpenUntilLastBrace, CleanNames, Stamped, Blank, Extract, Fields, ReadRecord;
    hide Strip, StripLeft, StripRight, LoggedText;
    EventShape(e);
    var k := StrippedLine(e, prefix, suffix);
    var p, b := FullText(e), StripRight(suffix);
    assert "" + (p[..k] + b) == p[..k] + b;
    if IsCut(e) {
      NothingStripped();
      assert p[..k] + "" == p[..k];
      PrefixNotRead(p, k);
    } else {
      assert p[..k] == p;
      if b == "" {
        assert p + "" == p;
      } else {
        NothingBehind(p, b);
      }
    }
  }

  lemma NotStamped(r: Record)
    ensures Stamped(r, None) == r
  {}

  /** What every line of the log gives, exactly. */
  lemma LineReadsBack(x: Entry, pid: string, tag: string)
    requires WellPlaced(x, tag)
    ensures LineRec(Shown(x, pid), tag) == Expected(x, pid)
  {
    hide Contains, Loads, Blank, Readable, ReadLine, Strip, FromRecord, Fields, Stamped, Rec, LoggedText;
    match x
    case Foreign(line) =>
      ForeignReads(line, tag);
    case Ours(e, prefix, suffix) =>
      StampedFields(e, Some(Stamp(pid, e.t)));
      StampedFields(e, None);
      NotStamped(Fields(e));
      if Blank(prefix) {
        BareReads(e, prefix, suffix, tag, Some(Stamp(pid, e.t)));
      } else {
        PrefixedReads(e, prefix, suffix, tag, Some(Stamp(pid, e.t)));
      }
  }

  // ---- the whole log -------------------------------------------------------

  function LogOf(entries: seq<Entry>, pid: string): (lines: seq<LogLine>)
    ensures |lines| == |entries| && forall i :: 0 <= i < |entries| ==> lines[i] == Shown(entries[i], pid)
  {
    seq(|entries|, i requires 0 <= i < |entries| => Shown(entries[i], pid))
  }

  function ExpectedOf(entries: seq<Entry>, pid: string): seq<C.Rec>
  {
    if entries == [] then []
    else
      var n := |entries| - 1;
      ExpectedOf(entries[..n], pid) + match Expected(entries[n], pid) case None => [] case Some(r) => [r]
  }

  /** The event comes back with its process and its time. */
  predicate ComesBack(x: Entry)
  {
    x.Ours? && Readable(x.e) && !Blank(x.prefix)
  }

  function KeptEvents(entries: seq<Entry>): seq<A.Event>
  {
    if entries == [] then []
    else
      var n := |entries| - 1;
      KeptEvents(entries[..n]) + if ComesBack(entries[n]) then [entries[n].e] else []
  }

  function LoggedEvents(entries: seq<Entry>): seq<A.Event>
  {
    if entries == [] then []
    else
      var n := |entries| - 1;
      LoggedEvents(entries[..n]) + if entries[n].Ours? then [entries[n].e] else []
  }

  lemma ReadOneMore(entries: seq<Entry>, pid: string, tag: string)
    requires entries != []
    ensures var n := |entries| - 1;
      ReadLines(LogOf(entries, pid), tag)
      == ReadLines(LogOf(entries[..n], pid), tag)
         + match ReadLine(Shown(entries[n], pid), tag) case None => [] case Some(r) => [r]
  {
    hide ReadLine, Shown;
    assert LogOf(entries, pid)[..|entries| - 1] == LogOf(entries[..|entries| - 1], pid);
  }

  lemma EmptyLogReads(pid: string, tag: string)
    ensures ReadLines(LogOf([], pid), tag) == []
  {}

  /** Reading a whole log gives what each line gives, in order. */
  lemma {:induction false} LogReadsBack(entries: seq<Entry>, pid: string, tag: string)
    requires forall i :: 0 <= i < |entries| ==> WellPlaced(entries[i], tag)
    ensures FromRecords(ReadLines(LogOf(entries, pid), tag)) == ExpectedOf(entries, pid)
  {
    hide WellPlaced, ReadLine, Shown, LogOf, ReadLines, Expected, FromRecord, FromRecords;
    FromFew();
    if entries == [] {
      EmptyLogReads(pid, tag);
    } else {
      var n := |entries| - 1;
      LogReadsBack(entries[..n], pid, tag);
      ReadOneMore(entries, pid, tag);
      LineReadsBack(entries[n], pid, tag);
      var r := ReadLine(Shown(entries[n], pid), tag);
      FromConcat(ReadLines(LogOf(entries[..n], pid), tag), match r case None => [] case Some(x) => [x]);
    }
  }

  /** No event of ours stands alone on its line - the log's own macro writes a prefix -
      and no foreign line is a JSON object with a map or unmap event in it. */
  predicate Ordinary(x: Entry)
  {
    match x
    case Foreign(line) => OwnRecord(line).Some? ==> !C.Relevant(FromRecord(OwnRecord(line).value))
    case Ours(e, prefix, suffix) => Readable(e) && Blank(prefix) ==> !Blank(suffix)
  }

  lemma RecsOneMore(evs: seq<A.Event>, e: A.Event, pid: C.Pid)
    ensures RecsOf(true, evs + [e], pid) == RecsOf(true, evs, pid) + [RecOf(true, A.Run(evs), e, pid)]
  {
    hide RecOf, A.Run;
    assert (evs + [e])[..|evs|] == evs;
  }

  lemma AnyState(s: A.Stats, e: A.Event, pid: C.Pid)
    ensures RecOf(true, s, e, pid) == RecOf(true, A.START, e, pid)
  {
    hide AddrText;
  }

  lemma NoRecs(pid: C.Pid)
    ensures RecsOf(true, [], pid) == []
  {}

  lemma OursFromWrapper(x: Entry, tag: string)
    requires WellPlaced(x, tag) && x.Ours?
    ensures FromWrapper(x.e)
  {
    hide Contains, LoggedText;
  }

  lemma GroupMore(rs: seq<C.Rec>, r: C.Rec, p: C.Pid)
    ensures C.Relevant(r) && r.pid == p ==> C.Group(rs + [r], p) == C.Group(rs, p) + [r]
    ensures C.Relevant(r) && r.pid == p ==> C.Pids(rs + [r]) == C.Pids(rs) + if p in C.Pids(rs) then [] else [p]
    ensures !C.Relevant(r) ==> C.Group(rs + [r], p) == C.Group(rs, p) && C.Pids(rs + [r]) == C.Pids(rs)
  {
    hide C.Relevant;
    assert (rs + [r])[..|rs|] == rs;
  }

  /** What a line of an ordinary log gives: the event's record, or nothing the replay
      looks at. */
  lemma OrdinaryLine(x: Entry, pid: string, tag: string)
    requires Ordinary(x) && WellPlaced(x, tag)
    ensures ComesBack(x) ==>
              x.Ours? && FromWrapper(x.e) && Expected(x, pid) == Some(RecOf(true, A.START, x.e, Some(pid)))
    ensures !ComesBack(x) ==> Expected(x, pid).None? || !C.Relevant(Expected(x, pid).value)
  {
    hide Readable, RecOf, FromWrapper, Blank, OwnRecord, FromRecord, C.Relevant;
    if ComesBack(x) {
      OursFromWrapper(x, tag);
    }
    hide WellPlaced;
  }

  lemma {:induction false} OrdinaryLog(entries: seq<Entry>, pid: string, tag: string)
    requires forall i :: 0 <= i < |entries| ==> Ordinary(entries[i]) && WellPlaced(entries[i], tag)
    ensures var p, recs := Some(pid), RecsOf(true, KeptEvents(entries), Some(pid));
      C.Group(ExpectedOf(entries, pid), p) == C.Group(recs, p) && C.Pids(ExpectedOf(entries, pid)) == C.Pids(recs)
    ensures FromWrappers(KeptEvents(entries))
  {
    hide ComesBack, RecOf, A.Run, FromWrapper, RecsOf, Ordinary, WellPlaced, Expected, C.Group, C.Pids, C.Relevant;
    var p := Some(pid);
    if entries == [] {
      NoRecs(p);
    } else {
      var n := |entries| - 1;
      var evs, x, before := KeptEvents(entries[..n]), entries[n], ExpectedOf(entries[..n], pid);
      OrdinaryLog(entries[..n], pid, tag);
      assert Ordinary(x) && WellPlaced(x, tag);
      OrdinaryLine(x, pid, tag);
      if ComesBack(x) {
        RecsOneMore(evs, x.e, p);
        AnyState(A.Run(evs), x.e, p);
        RecRelevant(true, A.START, x.e, p);
        GroupMore(RecsOf(true, evs, p), RecOf(true, A.START, x.e, p), p);
        GroupMore(before, RecOf(true, A.START, x.e, p), p);
      } else {
        assert evs + [] == evs && before + [] == before;
        if Expected(x, pid).Some? {
          GroupMore(before, Expected(x, pid).value, p);
        }
      }
    }
  }

  lemma {:induction false} AllKeptIff(entries: seq<Entry>)
    ensures |KeptEvents(entries)| <= |LoggedEvents(entries)|
    ensures |KeptEvents(entries)| == |LoggedEvents(entries)| ==> KeptEvents(entries) == LoggedEvents(entries)
    ensures KeptEvents(entries) == LoggedEvents(entries) <==>
              forall i :: 0 <= i < |entries| && entries[i].Ours? ==> ComesBack(entries[i])
  {
    if entries != [] {
      var n := |entries| - 1;
      AllKeptIff(entries[..n]);
      assert ComesBack(entries[n]) ==> entries[n].Ours?;
      hide ComesBack;
      assert forall i :: 0 <= i < n ==> entries[..n][i] == entries[i];
    }
  }

  lemma SameGroupsAgree(rs: seq<C.Rec>, qs: seq<C.Rec>, evs: seq<A.Event>, p: C.Pid)
    requires C.Group(rs, p) == C.Group(qs, p) && C.Pids(rs) == C.Pids(qs) && Agree(qs, evs, p)
    ensures Agree(rs, evs, p)
  {
    hide C.Group, C.Pids, C.ReplayAll, A.Run, Pairs, OnlineLifetimes, SameLive, PeakWithoutRemaps, A.Matches;
    hide A.Overwritten;
  }

  /** The report on an ordinary log agrees with an online accounting of the events that
      come back; so with one of all that was logged if and only if every event does. */
  lemma LogAgrees(entries: seq<Entry>, pid: string, tag: string)
    requires forall i :: 0 <= i < |entries| ==> Ordinary(entries[i]) && WellPlaced(entries[i], tag)
    requires var evs := KeptEvents(entries); evs != [] && A.InTimeOrder(evs) && A.MappedBytes(evs) < A.WORD
    ensures Agree(FromRecords(ReadLines(LogOf(entries, pid), tag)), KeptEvents(entries), Some(pid))
    ensures KeptEvents(entries) == LoggedEvents(entries) <==>
              forall i :: 0 <= i < |entries| && entries[i].Ours? ==> ComesBack(entries[i])
  {
    hide WellPlaced, LogOf, ReadLines, RecsOf, Agree, ComesBack, FromRecords, Ordinary, ExpectedOf;
    LogReadsBack(entries, pid, tag);
    OrdinaryLog(entries, pid, tag);
    OnlineAndReplayAgree(true, KeptEvents(entries), Some(pid));
    SameGroupsAgree(ExpectedOf(entries, pid), RecsOf(true, KeptEvents(entries), Some(pid)), KeptEvents(entries),
                    Some(pid));
    AllKeptIff(entries);
  }

  /** In practice: an unmap event always is readable, and a map with a clean name of up to
      199 characters, pgname-free as all of this plane's. */
  lemma ShortCleanNamesAreReadable(e: A.Event)
    requires e.addr < 0x1_0000_0000_0000_0000 && Int32(e.ret)
    requires e.MapEvent? ==> e.op == "map" && e.pg.None? && Int32(e.flags)
    requires e.MapEvent? ==> |OrEmpty(e.name)| <= 199 && Clean(OrEmpty(e.name))
    ensures Readable(e)
  {
    if e.MapEvent? {
      MapCallFits(e.name, e.addr, e.size, e.flags, e.ret);
      EmptyIsClean();
    } else {
      UnmapFits(e.addr, e.ret);
    }
    hide MapText, UnmapText, Clean;
  }

  // ---- cut events with something behind them -------------------------------

  predicate NoControl(s: string)
  {
    forall c :: c in s ==> c >= ' '
  }

  lemma EscUnfold(s: string)
    requires s != []
    ensures Esc(s) == EscChar(s[0]) + Esc(s[1..])
  {
    hide EscChar;
  }

  lemma {:induction false} EscSplit(s: string, i: nat)
    requires i <= |s|
    ensures Esc(s) == Esc(s[..i]) + Esc(s[i..])
  {
    hide EscChar, Esc;
    if i == 0 {
      assert s[..0] == [] && s[0..] == s;
      EscEmpty(Esc(s));
    } else {
      EscSplit(s[1..], i - 1);
      EscUnfold(s);
      EscUnfold(s[..i]);
      assert s[..i][1..] == s[1..][..i - 1] && s[1..][i - 1..] == s[i..];
      Assoc(EscChar(s[0]), Esc(s[1..][..i - 1]), Esc(s[i..]));
    }
  }

  lemma {:induction false} FirstBad(s: string) returns (i: nat)
    requires !Clean(s)
    ensures i < |s| && Clean(s[..i]) && !CleanChar(s[i])
  {
    hide CleanChar;
    if CleanChar(s[0]) {
      CleanHead(s);
      i := FirstBad(s[1..]);
      i := i + 1;
      CleanHead(s[..i]);
      assert s[..i][1..] == s[1..][..i - 1];
    } else {
      i := 0;
    }
  }

  /** The first character of s that makes it unclean, and where it is printed. */
  lemma FirstUnclean(s: string) returns (i: nat)
    requires !Clean(s)
    ensures i < |s| && Clean(s[..i]) && |Esc(s[..i])| < |Esc(s)| && Esc(s[..i]) <= Esc(s) && Esc(s)[|Esc(s[..i])|] < ' '
  {
    i := FirstBad(s);
    EscSplit(s, i);
    assert Esc(s[i..])[0] < ' ' by { assert EscChar(s[i]) == [s[i]]; }
    hide Clean;
  }

  lemma EscCharNoControl(c: char)
    requires CleanChar(c)
    ensures NoControl(EscChar(c))
  {}

  lemma {:induction false} EscNoControl(s: string)
    requires Clean(s)
    ensures NoControl(Esc(s))
  {
    if s != [] {
      CleanHead(s);
      EscNoControl(s[1..]);
      EscCharNoControl(s[0]);
      hide EscChar, CleanChar;
    }
  }

  lemma SimpleNoControl(s: string)
    requires Simple(s)
    ensures NoControl(s)
  {}

  lemma FirstLiteralsNoControl()
    ensures NoControl(OpenEvent()) && NoControl(ThenName()) && NoControl(ThenAddr())
  {}

  lemma LiteralsNoControl()
    ensures NoControl(OpenEvent()) && NoControl(ThenName()) && NoControl(ThenAddr()) && NoControl(ThenSize())
    ensures NoControl(ThenFlags()) && NoControl(ThenRet()) && NoControl(ThenPg()) && NoControl("\"") && NoControl("}")
    ensures NoControl("")
  {
    FirstLiteralsNoControl();
    hide OpenEvent, ThenName, ThenAddr;
  }

  lemma NumbersNoControl(addr: nat, size: nat, v: int)
    ensures NoControl(Ptr(addr)) && NoControl(Dec(size)) && NoControl(Int(v))
  {
    NumeralSimple(addr, 16);
    NumeralSimple(size, 10);
    NumeralSimple(if v < 0 then -v else v, 10);
    hide Numeral;
  }

  // A map event around its name, and around its pgname.

  function NameFront(op: string): string
  {
    OpenEvent() + op + ThenName()
  }

  lemma NameFrontShape(op: string)
    requires Simple(op)
    ensures FeedAll(START, NameFront(op)) == INSIDE && NoControl(NameFront(op))
  {
    LiteralFeeds();
    PlainFeed(op);
    LiteralsNoControl();
    SimpleNoControl(op);
    hide FeedAll, OpenEvent, ThenName;
    FeedConcat(START, OpenEvent(), op);
    FeedConcat(START, OpenEvent() + op, ThenName());
  }

  function MapBack(addr: nat, size: nat, flags: int, ret: int, pg: Option<string>): string
  {
    var last := (if pg.Some? then ThenPg() + Esc(pg.value) + "\"" else "") + "}";
    ThenAddr() + (Ptr(addr) + (ThenSize() + (Dec(size)
    + (ThenFlags() + (Int(flags) + (ThenRet() + (Int(ret) + last)))))))
  }

  /** A map event around its name. */
  lemma AroundName(op: string, name: Option<string>, addr: nat, size: nat, flags: int, ret: int, pg: Option<string>)
    ensures MapText(op, name, addr, size, flags, ret, pg)
         == NameFront(op) + Esc(OrEmpty(name)) + MapBack(addr, size, flags, ret, pg)
  {
    hide OpenEvent, ThenName, ThenAddr, ThenSize, ThenFlags, ThenRet, ThenPg, Ptr, Dec, Int, Esc;
    var x := OpenEvent() + op + ThenName() + Esc(OrEmpty(name));
    var g := if pg.Some? then ThenPg() + Esc(pg.value) + "\"" else "";
    var h := Int(flags) + (ThenRet() + (Int(ret) + (g + "}")));
    var y := x + ThenAddr() + Ptr(addr) + ThenSize() + Dec(size) + ThenFlags();
    Assoc(y + Int(flags) + ThenRet() + Int(ret), g, "}");
    Assoc(y + Int(flags) + ThenRet(), Int(ret), g + "}");
    Assoc(y + Int(flags), ThenRet(), Int(ret) + (g + "}"));
    Assoc(y, Int(flags), ThenRet() + (Int(ret) + (g + "}")));
    Assoc(x + ThenAddr() + Ptr(addr) + ThenSize() + Dec(size), ThenFlags(), h);
    Assoc(x + ThenAddr() + Ptr(addr) + ThenSize(), Dec(size), ThenFlags() + h);
    Assoc(x + ThenAddr() + Ptr(addr), ThenSize(), Dec(size) + (ThenFlags() + h));
    Assoc(x + ThenAddr(), Ptr(addr), ThenSize() + (Dec(size) + (ThenFlags() + h)));
    Assoc(x, ThenAddr(), Ptr(addr) + (ThenSize() + (Dec(size) + (ThenFlags() + h))));
  }

  function PgFront(op: string, name: Option<string>, addr: nat, size: nat, flags: int, ret: int): string
  {
    MapHead(op, name, addr) + ThenSize() + Dec(size) + ThenFlags() + Int(flags) + ThenRet() + Int(ret) + ThenPg()
  }

  lemma PgFrontFeed(op: string, name: Option<string>, addr: nat, size: nat, flags: int, ret: int)
    requires Simple(op)
    ensures FeedAll(START, PgFront(op, name, addr, size, flags, ret)) == INSIDE
  {
    HeadFeed(op, name, addr);
    NumbersFeed(MapHead(op, name, addr), size, flags, ret);
    LiteralFeeds();
    hide FeedAll, MapHead, ThenSize, ThenFlags, ThenRet, ThenPg, Dec, Int;
    var g := MapHead(op, name, addr) + ThenSize() + Dec(size) + ThenFlags() + Int(flags) + ThenRet() + Int(ret);
    FeedConcat(START, g, ThenPg());
  }

  lemma HeadNoControl(op: string, name: Option<string>, addr: nat)
    requires Simple(op) && Clean(OrEmpty(name))
    ensures NoControl(MapHead(op, name, addr))
  {
    LiteralsNoControl();
    NumbersNoControl(addr, 0, 0);
    SimpleNoControl(op);
    EscNoControl(OrEmpty(name));
    hide OpenEvent, ThenName, ThenAddr, ThenSize, ThenFlags, ThenRet, ThenPg, Ptr, Dec, Int, Esc, Clean, Simple;
  }

  lemma PgFrontNoControl(op: string, name: Option<string>, addr: nat, size: nat, flags: int, ret: int)
    requires Simple(op) && Clean(OrEmpty(name))
    ensures NoControl(PgFront(op, name, addr, size, flags, ret))
  {
    HeadNoControl(op, name, addr);
    LiteralsNoControl();
    NumbersNoControl(addr, size, flags);
    NumbersNoControl(addr, size, ret);
    hide MapHead, OpenEvent, ThenName, ThenAddr, ThenSize, ThenFlags, ThenRet, ThenPg, Ptr, Dec, Int, Clean, Simple;
  }

  lemma AroundPg(op: string, name: Option<string>, addr: nat, size: nat, flags: int, ret: int, q: string)
    ensures MapText(op, name, addr, size, flags, ret, Some(q))
            == PgFront(op, name, addr, size, flags, ret) + Esc(q) + "\"}"
  {
    hide MapHead, ThenSize, ThenFlags, ThenRet, ThenPg, Dec, Int, Esc;
    var g := MapHead(op, name, addr) + ThenSize() + Dec(size) + ThenFlags() + Int(flags) + ThenRet() + Int(ret);
    Assoc(g, ThenPg() + Esc(q), "\"");
    Assoc(g, ThenPg(), Esc(q));
    Assoc(g + ThenPg() + Esc(q), "\"", "}");
    assert "\"" + "}" == "\"}";
  }

  lemma NamesNoControl(op: string, name: Option<string>, addr: nat, size: nat, flags: int, ret: int, pg: Option<string>)
    requires Simple(op) && Clean(OrEmpty(name)) && Clean(OrEmpty(pg))
    ensures NoControl(MapText(op, name, addr, size, flags, ret, pg))
  {
    LiteralsNoControl();
    NumbersNoControl(addr, size, flags);
    NumbersNoControl(addr, size, ret);
    SimpleNoControl(op);
    EscNoControl(OrEmpty(name));
    EscNoControl(OrEmpty(pg));
    hide Ptr, Dec, Int, Esc, OpenEvent, ThenName, ThenAddr, ThenSize, ThenFlags, ThenRet, ThenPg, Clean, Simple;
  }

  /** The first control character of a + Esc(s) + b, if a has none and s is not clean. */
  lemma FirstControl(a: string, s: string, b: string) returns (m: nat)
    requires FeedAll(START, a) == INSIDE && NoControl(a) && !Clean(s)
    ensures var p := a + Esc(s) + b;
      m < |p| && p[m] < ' ' && NoControl(p[..m]) && FeedAll(START, p[..m]) == INSIDE
  {
    var i := FirstUnclean(s);
    hide FeedAll, Esc, Clean;
    m := |a| + |Esc(s[..i])|;
    var p := a + Esc(s) + b;
    assert p[m] == Esc(s)[|Esc(s[..i])|];
    assert Esc(s)[..|Esc(s[..i])|] == Esc(s[..i]);
    assert p[..m] == a + Esc(s[..i]);
    EscFeed(s[..i]);
    EscNoControl(s[..i]);
    FeedConcat(START, a, Esc(s[..i]));
  }

  lemma FrontNoControl(p: string, k: nat)
    requires k <= |p| && NoControl(p)
    ensures NoControl(p[..k])
  {
    forall c | c in p[..k] ensures c in p {
      var i :| 0 <= i < k && p[..k][i] == c;
      assert p[i] == c;
    }
  }

  lemma ControlBehind(p: string, m: nat, k: nat)
    requires m < |p| && k <= |p| && NoControl(p[..m]) && !NoControl(p[..k])
    ensures m < k
  {
    if k <= m {
      assert p[..k] == p[..m][..k];
      FrontNoControl(p[..m], k);
    }
  }

  /** The first control character of a map event stands inside a string. */
  lemma ControlInString(op: string, name: Option<string>, addr: nat, size: nat, flags: int, ret: int,
                        pg: Option<string>, k: nat)
    returns (m: nat)
    requires var p := MapText(op, name, addr, size, flags, ret, pg); Simple(op) && k <= |p| && !NoControl(p[..k])
    ensures var p := MapText(op, name, addr, size, flags, ret, pg);
      m < k && p[m] < ' ' && FeedAll(START, p[..m]) == INSIDE
  {
    hide MapText, Clean, Esc, Simple, FeedAll, NameFront, PgFront, MapBack;
    var p := MapText(op, name, addr, size, flags, ret, pg);
    EmptyIsClean();
    if !Clean(OrEmpty(name)) {
      NameFrontShape(op);
      AroundName(op, name, addr, size, flags, ret, pg);
      m := FirstControl(NameFront(op), OrEmpty(name), MapBack(addr, size, flags, ret, pg));
      ControlBehind(p, m, k);
    } else if !Clean(OrEmpty(pg)) {
      PgFrontFeed(op, name, addr, size, flags, ret);
      PgFrontNoControl(op, name, addr, size, flags, ret);
      AroundPg(op, name, addr, size, flags, ret, pg.value);
      m := FirstControl(PgFront(op, name, addr, size, flags, ret), pg.value, "\"}");
      ControlBehind(p, m, k);
    } else {
      NamesNoControl(op, name, addr, size, flags, ret, pg);
      FrontNoControl(p, k);
    }
  }

  /** A cut event with anything behind it: if it is read, then from the text up to a
      closing brace behind the cut. */
  lemma CutReadsBeyond(p: string, k: nat, t: string, prefix: string, tag: string) returns (x: string)
    requires OpenUntilLastBrace(p) && p[0] == '{' && 0 < k <= |p| && '{' !in prefix
    requires ReadRecord(prefix + p[..k] + t, tag).Some?
    ensures Loads(p[..k] + x).Some?
  {
    hide Contains, Loads, FeedAll, Find;
    var rest := p[..k] + t;
    assert prefix + p[..k] + t == prefix + rest;
    FindAfter(prefix, rest, '{');
    assert (prefix + rest)[|prefix|..] == rest;
    var e := End(rest).value;
    if e < k {
      assert rest[..e] == p[..e];
      PrefixNeverCloses(p, e);
      ClosedSomewhere(p[..e]);
    }
    x := rest[k..e];
    assert rest[..e] == p[..k] + x;
  }

  lemma PrintableFront(p: string, m: nat, k: nat)
    requires m < k <= |p| && NoControl(p[..k])
    ensures p[m] >= ' '
  {
    assert p[..k][m] in p[..k];
  }

  /** Cutting a + Esc(s) + b before its first control character: the same front as with
      the clean front of s in its place. */
  lemma SameFront(a: string, s: string, b: string, c: string, k: nat) returns (t: string)
    requires !Clean(s) && k <= |a + Esc(s) + b| && NoControl((a + Esc(s) + b)[..k])
    ensures Clean(t) && k <= |a + Esc(t) + c| && (a + Esc(s) + b)[..k] == (a + Esc(t) + c)[..k]
  {
    var i := FirstUnclean(s);
    t := s[..i];
    hide Esc, Clean;
    var p, m := a + Esc(s) + b, |a| + |Esc(t)|;
    assert p[m] == Esc(s)[|Esc(t)|];
    if m < k {
      PrintableFront(p, m, k);
    }
    assert Esc(s)[..|Esc(t)|] == Esc(t);
    assert p[..m] == a + Esc(t) && (a + Esc(t) + c)[..m] == a + Esc(t);
    assert p[..k] == p[..m][..k] && (a + Esc(t) + c)[..k] == (a + Esc(t) + c)[..m][..k];
  }

  /** A clean event with the same front. */
  lemma CleanTwin(op: string, name: Option<string>, addr: nat, size: nat, flags: int, ret: int,
                  pg: Option<string>, k: nat)
    returns (n: Option<string>, g: Option<string>)
    requires var p := MapText(op, name, addr, size, flags, ret, pg); k <= |p| && NoControl(p[..k])
    ensures Clean(OrEmpty(n)) && Clean(OrEmpty(g))
    ensures var p, q := MapText(op, name, addr, size, flags, ret, pg), MapText(op, n, addr, size, flags, ret, g);
      k <= |q| && p[..k] == q[..k]
  {
    hide MapText, Clean, Esc, NameFront, PgFront, MapBack, NoControl;
    EmptyIsClean();
    n, g := name, pg;
    if !Clean(OrEmpty(name)) {
      AroundName(op, name, addr, size, flags, ret, pg);
      var t := SameFront(NameFront(op), OrEmpty(name), MapBack(addr, size, flags, ret, pg),
                         MapBack(addr, size, flags, ret, None), k);
      n, g := Some(t), None;
      AroundName(op, n, addr, size, flags, ret, g);
    } else if !Clean(OrEmpty(pg)) {
      AroundPg(op, name, addr, size, flags, ret, pg.value);
      var t := SameFront(PgFront(op, name, addr, size, flags, ret), pg.value, "\"}", "\"}", k);
      g := Some(t);
      AroundPg(op, name, addr, size, flags, ret, t);
    }
  }

  lemma TagInFront(prefix: string, more: string, sub: string)
    requires Contains(prefix, sub)
    ensures Contains(prefix + more, sub)
  {
    var i :| 0 <= i <= |prefix| && OccursAt(prefix, sub, i);
    assert (prefix + more)[i..] == prefix[i..] + more;
    assert OccursAt(prefix + more, sub, i);
  }

  lemma MapTextBegins(op: string, name: Option<string>, addr: nat, size: nat, flags: int, ret: int, pg: Option<string>)
    ensures var s := MapText(op, name, addr, size, flags, ret, pg); s != "" && s[0] == '{'
  {
    MapTextRegroups(op, name, addr, size, flags, ret, pg);
    hide MapText, Key, AddrPart, NumberPart, PgPart;
  }

  lemma ReadNoControl(p: string, m: nat, k: nat, x: string)
    requires m < k <= |p| && FeedAll(START, p[..m]) == INSIDE && Loads(p[..k] + x).Some?
    ensures p[m] >= ' '
  {
    hide FeedAll, Loads;
    var b := p[m..k] + x;
    assert p[..k] + x == p[..m] + b && b[0] == p[m];
    NeverRead(p[..m], b);
  }

  lemma CutReadIsClean(op: string, name: Option<string>, addr: nat, size: nat, flags: int, ret: int, pg: Option<string>,
                       k: nat, t: string, prefix: string, tag: string)
    requires Simple(op) && k <= |MapText(op, name, addr, size, flags, ret, pg)| && '{' !in prefix
    requires ReadRecord(prefix + MapText(op, name, addr, size, flags, ret, pg)[..k] + t, tag).Some?
    ensures NoControl(MapText(op, name, addr, size, flags, ret, pg)[..k])
  {
    assert Plain(op);
    hide Loads, MapText, Simple, NoControl, ReadRecord, OpenUntilLastBrace, FeedAll, Plain;
    var p := MapText(op, name, addr, size, flags, ret, pg);
    MapTextOpen(op, name, addr, size, flags, ret, pg);
    MapTextBegins(op, name, addr, size, flags, ret, pg);
    if !NoControl(p[..k]) {
      var m := ControlInString(op, name, addr, size, flags, ret, pg, k);
      var x := CutReadsBeyond(p, k, t, prefix, tag);
      ReadNoControl(p, m, k, x);
    }
  }

  lemma FrontAndRest(prefix: string, p: string, q: string, k: nat) returns (t: string)
    requires k <= |p| && k <= |q| && p[..k] == q[..k]
    ensures prefix + p[..k] + t == prefix + q
  {
    t := q[k..];
    assert q == q[..k] + t;
    assert prefix + p[..k] + t == prefix + (p[..k] + t);
  }

  lemma WholeIsRead(prefix: string, q: string, tag: string)
    requires '{' !in prefix && (tag == "" || Contains(prefix, "[" + tag + "]"))
    requires OpenUntilLastBrace(q) && q != "" && q[0] == '{'
    ensures ReadRecord(prefix + q, tag) == Loads(q)
  {
    hide Contains, Loads, OpenUntilLastBrace, Extract;
    if tag != "" {
      TagInFront(prefix, q, "[" + tag + "]");
    }
    assert prefix + q + "" == prefix + q;
    ExtractsTheEvent(prefix, q, "", tag);
  }

  lemma CleanEventIsRead(op: string, name: Option<string>, addr: nat, size: nat, flags: int, ret: int,
                         pg: Option<string>, prefix: string, tag: string)
    requires Simple(op) && Clean(OrEmpty(name)) && Clean(OrEmpty(pg))
    requires '{' !in prefix && (tag == "" || Contains(prefix, "[" + tag + "]"))
    ensures ReadRecord(prefix + MapText(op, name, addr, size, flags, ret, pg), tag).Some?
  {
    assert Plain(op);
    hide Loads, MapText, Clean, Simple, MapRecord, ReadRecord, OpenUntilLastBrace, Contains, Plain;
    MapTextOpen(op, name, addr, size, flags, ret, pg);
    MapTextBegins(op, name, addr, size, flags, ret, pg);
    MapRoundTrip(op, name, addr, size, flags, ret, pg);
    WholeIsRead(prefix, MapText(op, name, addr, size, flags, ret, pg), tag);
  }

  lemma CleanCutIsRead(op: string, name: Option<string>, addr: nat, size: nat, flags: int, ret: int, pg: Option<string>,
                       k: nat, prefix: string, tag: string)
    returns (t: string)
    requires Simple(op) && k <= |MapText(op, name, addr, size, flags, ret, pg)|
    requires '{' !in prefix && (tag == "" || Contains(prefix, "[" + tag + "]"))
    requires NoControl(MapText(op, name, addr, size, flags, ret, pg)[..k])
    ensures ReadRecord(prefix + MapText(op, name, addr, size, flags, ret, pg)[..k] + t, tag).Some?
  {
    hide MapText, Clean, Simple, NoControl, ReadRecord, Contains;
    var n, g := CleanTwin(op, name, addr, size, flags, ret, pg, k);
    CleanEventIsRead(op, n, addr, size, flags, ret, g, prefix, tag);
    t := FrontAndRest(prefix, MapText(op, name, addr, size, flags, ret, pg),
                      MapText(op, n, addr, size, flags, ret, g), k);
  }

  /** What is left of a map event on its tagged line is read as a record, with some text
      behind it, if and only if it has no control character in it. */
  lemma CutMapCanBeRead(op: string, name: Option<string>, addr: nat, size: nat, flags: int, ret: int,
                        pg: Option<string>, k: nat, prefix: string, tag: string)
    requires Simple(op) && k <= |MapText(op, name, addr, size, flags, ret, pg)|
    requires '{' !in prefix && (tag == "" || Contains(prefix, "[" + tag + "]"))
    ensures var p := MapText(op, name, addr, size, flags, ret, pg);
      (exists t :: ReadRecord(prefix + p[..k] + t, tag).Some?) <==> NoControl(p[..k])
  {
    hide MapText, Simple, NoControl, ReadRecord, Contains;
    var p := MapText(op, name, addr, size, flags, ret, pg);
    if t :| ReadRecord(prefix + p[..k] + t, tag).Some? {
      CutReadIsClean(op, name, addr, size, flags, ret, pg, k, t, prefix, tag);
    }
    if NoControl(p[..k]) {
      var t := CleanCutIsRead(op, name, addr, size, flags, ret, pg, k, prefix, tag);
    }
  }

  /** The front of a hexadecimal numeral is a numeral too. */
  lemma {:induction false} NumeralFront(v: nat, j: nat) returns (a: nat)
    requires 1 <= j < |Numeral(v, 16)|
    ensures Numeral(a, 16) == Numeral(v, 16)[..j] && 0 < a < v
  {
    a := Quot(v, 16);
    if j < |Numeral(a, 16)| {
      a := NumeralFront(a, j);
    }
  }

  lemma CutHeadReads(op: string, name: Option<string>, a: nat)
    requires Simple(op) && Clean(OrEmpty(name))
    ensures Loads(MapHead(op, name, a) + "\"}")
         == Some(map["event" := Text(op), "shmname" := Text(OrEmpty(name)), "addr" := Text(Ptr(a))])
  {
    AddrPartRegroups(op, name, a, "}");
    SimpleEsc(op);
    KeysAreSimple();
    ContinueEnds("", map["event" := Text(op)]["shmname" := Text(OrEmpty(name))]["addr" := Text(Ptr(a))]);
    hide Loads, ParseMembers, MapHead, Key, Ptr, Esc, Continue, AddrPart, Clean, Simple;
    assert "\"" + "}" == "\"}";
    assert Key("event") != [] && Key("event")[0] == '\"' by { KeyStart("event"); }
    var rest := AddrPart(OrEmpty(name), a, "}");
    LoadsMembers(Key("event") + ("\"" + (op + ("\"" + rest))));
    TextMember("event", op, rest, map[]);
    AddrPartReads(OrEmpty(name), a, "}", map["event" := Text(op)]);
  }

  lemma HeadFirst(op: string, name: Option<string>, addr: nat, size: nat, flags: int, ret: int, pg: Option<string>)
    ensures MapHead(op, name, addr) <= MapText(op, name, addr, size, flags, ret, pg)
  {
    hide MapHead, ThenSize, ThenFlags, ThenRet, ThenPg, Esc, Dec, Int;
  }

  lemma CutHeadIsAHead(e: A.Event) returns (a: nat)
    requires e.MapEvent? && |MapHead(e.op, e.name, 0)| <= 511 < |MapHead(e.op, e.name, e.addr)|
    ensures 0 < a < e.addr && LoggedText(e) == MapHead(e.op, e.name, a)
  {
    HeadFirst(e.op, e.name, e.addr, e.size, e.flags, e.ret, e.pg);
    hide Esc, OpenEvent, ThenName, ThenAddr, MapText;
    var h := OpenEvent() + e.op + ThenName() + Esc(OrEmpty(e.name)) + ThenAddr();
    assert Numeral(0, 16) == "0";
    hide Numeral;
    a := NumeralFront(e.addr, 511 - |h| - 2);
    assert LoggedText(e) == MapHead(e.op, e.name, e.addr)[..511];
    assert (h + ("0x" + Numeral(e.addr, 16)))[..511] == h + ("0x" + Numeral(e.addr, 16)[..511 - |h| - 2]);
  }

  lemma HeadBegins(op: string, name: Option<string>, a: nat)
    ensures MapHead(op, name, a) != "" && MapHead(op, name, a)[0] == '{'
  {
    assert OpenEvent()[0] == '{';
    hide OpenEvent, ThenName, ThenAddr, Esc, Ptr;
  }

  lemma HeadOpen(op: string, name: Option<string>, a: nat)
    requires Plain(op)
    ensures OpenUntilLastBrace(MapHead(op, name, a) + "\"}") && MapHead(op, name, a)[0] == '{'
  {
    HeadFeed(op, name, a);
    var h := MapHead(op, name, a);
    FeedConcat(START, h, "\"");
    FeedOne(INSIDE, '\"');
    hide FeedAll, MapHead;
    assert (h + "\"}")[..|h| + 1] == h + "\"" && (h + "\"}")[|h| + 1] == '}';
    HeadBegins(op, name, a);
  }

  lemma StripPrefixKeepsTag(prefix: string, sub: string)
    requires sub != "" && !IsSpace(sub[0]) && Contains(prefix, sub)
    ensures Contains(StripLeft(prefix), sub)
  {
    ContainsLeft(prefix, sub);
  }

  /** A line of nothing but a prefix and one object. */
  lemma TaggedLineReads(prefix: string, x: string, stamp: Option<Stamp>, tag: string)
    requires '{' !in prefix && !Blank(prefix) && (tag == "" || Contains(prefix, "[" + tag + "]"))
    requires OpenUntilLastBrace(x) && x != "" && x[0] == '{' && x[|x| - 1] == '}'
    ensures ReadLine(LogLine(prefix + x, stamp), tag)
         == match Loads(x) case None => None case Some(r) => Some(Stamped(r, stamp))
  {
    hide Contains, Loads, OpenUntilLastBrace, Blank, Stamped, ReadRecord;
    NotBlankHead('{');
    NotBlankHead('}');
    StripAround(prefix, x);
    StripLeftOf(prefix, x);
    NoStrip(x);
    if tag != "" {
      TagEnds(tag);
      StripPrefixKeepsTag(prefix, "[" + tag + "]");
    }
    hide Strip, StripLeft, StripRight;
    WholeIsRead(StripLeft(prefix), x, tag);
  }

  lemma CutRecordAccepted(op: string, name: string, a: nat, stamp: Stamp)
    requires (op == "map" || op == "map_on_pg") && a > 0
    ensures var fields: Record := map["event" := Text(op), "shmname" := Text(name), "addr" := Text(Ptr(a))];
      var r := FromRecord(Stamped(fields, Some(stamp)));
      && r == C.Rec(Some(op), Some(stamp.pid), Some(stamp.ts), Some(Ptr(a)), None, None, Some(name), None)
      && C.Accepted(r)
  {
    PrintedAddrIsReal(a);
    hide Ptr, AddrIsReal;
    var fields: Record := map["event" := Text(op), "shmname" := Text(name), "addr" := Text(Ptr(a))];
    FieldsKept(fields, Some(stamp));
    hide Stamped;
    assert TextAt(fields, "event") == Some(op) && TextAt(fields, "shmname") == Some(name);
  }

  /** Cut by its buffer inside the digits of the address, with a quote and a brace behind
      it, a map event on its tagged line is read with another address and without ret:
      the replay takes it for a successful map, of no bytes, at an address that was never
      mapped. */
  lemma CutAddressIsMisread(e: A.Event, prefix: string, stamp: Stamp, tag: string) returns (a: nat)
    requires e.MapEvent? && FromWrapper(e) && CleanNames(e)
    requires |MapHead(e.op, e.name, 0)| <= 511 < |MapHead(e.op, e.name, e.addr)|
    requires '{' !in prefix && !Blank(prefix) && (tag == "" || Contains(prefix, "[" + tag + "]"))
    ensures 0 < a < e.addr
    ensures var r := LineRec(LogLine(prefix + LoggedText(e) + "\"}", Some(stamp)), tag);
      && r == Some(C.Rec(Some(e.op), Some(stamp.pid), Some(stamp.ts), Some(Ptr(a)), None, None,
                         Some(OrEmpty(e.name)), None))
      && C.Accepted(r.value) && C.SizeOf(r.value) == 0
  {
    a := CutHeadIsAHead(e);
    OpsAreSimple();
    hide LoggedText, MapHead, Loads, Ptr, AddrIsReal, OpenUntilLastBrace, Contains, FromRecord;
    hide Stamped, Blank, ReadLine;
    CutHeadReads(e.op, e.name, a);
    HeadOpen(e.op, e.name, a);
    hide Clean, Simple, Plain;
    var x := LoggedText(e) + "\"}";
    assert prefix + LoggedText(e) + "\"}" == prefix + x;
    assert x[0] == '{' && x[|x| - 1] == '}';
    TaggedLineReads(prefix, x, Some(stamp), tag);
    CutRecordAccepted(e.op, OrEmpty(e.name), a, stamp);
  }
}
