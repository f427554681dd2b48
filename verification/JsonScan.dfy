/** The brace scanner that finds an event again inside a dirty log line
    (tools/analyze_profile.py, lines 134-159), and why it is the inverse of the
    emitter: whatever the names contain and whatever text surrounds the event. */
module JsonScan {
  import opened Wrappers
  import opened EventText

  /** depth, in_str and esc; or the object's closing brace has been read. */
  datatype Scanner = Scanning(depth: int, inStr: bool, esc: bool) | Closed

  const START := Scanning(0, false, false)

  function Feed(st: Scanner, c: char): Scanner
  {
    match st
    case Closed => Closed
    case Scanning(depth, inStr, esc) =>
      if inStr then
        if esc then Scanning(depth, true, false)
        else if c == '\\' then Scanning(depth, true, true)
        else Scanning(depth, c != '\"', false)
      else if c == '\"' then Scanning(depth, true, esc)
      else if c == '{' then Scanning(depth + 1, false, esc)
      else if c == '}' then
        if depth == 1 then Closed else Scanning(depth - 1, false, esc)
      else st
  }

  function FeedAll(st: Scanner, s: string): Scanner
  {
    if s == [] then st else Feed(FeedAll(st, s[..|s| - 1]), s[|s| - 1])
  }

  lemma {:induction false} FeedConcat(st: Scanner, a: string, b: string)
    ensures FeedAll(st, a + b) == FeedAll(FeedAll(st, a), b)
  {
    if b == [] {
      assert a + b == a;
    } else {
      var n := |b| - 1;
      FeedConcat(st, a, b[..n]);
      assert (a + b)[..|a| + n] == a + b[..n];
    }
  }

  lemma FeedOne(st: Scanner, c: char)
    ensures FeedAll(st, [c]) == Feed(st, c)
  {
    assert [c][..0] == [];
  }

  lemma FeedNone(st: Scanner)
    ensures FeedAll(st, "") == st
  {}

  lemma {:induction false} StaysClosed(s: string)
    ensures FeedAll(Closed, s) == Closed
  {
    if s != [] { StaysClosed(s[..|s| - 1]); }
  }

  ghost predicate ClosesAt(s: string, e: nat)
  {
    0 < e <= |s| && FeedAll(START, s[..e]) == Closed && FeedAll(START, s[..e - 1]) != Closed
  }

  /** Where the object at the start of s ends, if it does. */
  ghost function End(s: string): (end: Option<nat>)
    ensures end.Some? ==> ClosesAt(s, end.value)
    ensures end.None? ==> forall e :: !ClosesAt(s, e)
  {
    if e :| ClosesAt(s, e) then Some(e) else None
  }

  lemma StillClosed(s: string, e: nat, f: nat)
    requires e <= f <= |s| && FeedAll(START, s[..e]) == Closed
    ensures FeedAll(START, s[..f]) == Closed
  {
    FeedConcat(START, s[..e], s[e..f]);
    StaysClosed(s[e..f]);
    assert s[..e] + s[e..f] == s[..f];
  }

  /** No shorter and no longer text closes the object. */
  lemma EndIsUnique(s: string, e: nat)
    requires ClosesAt(s, e)
    ensures End(s) == Some(e)
  {
    hide FeedAll;
    var f := End(s).value;
    if e < f {
      StillClosed(s, e, f - 1);
    } else if f < e {
      StillClosed(s, f, e - 1);
    }
  }

  lemma {:induction false} NeverClosed(s: string, k: nat)
    requires k <= |s| && forall e :: !ClosesAt(s, e)
    ensures FeedAll(START, s[..k]) != Closed
  {
    if k > 0 {
      NeverClosed(s, k - 1);
      assert !ClosesAt(s, k);
    }
  }

  lemma {:induction false} ClosedSomewhere(s: string)
    ensures FeedAll(START, s) == Closed <==> End(s).Some?
  {
    hide FeedAll;
    if End(s).Some? {
      StillClosed(s, End(s).value, |s|);
      assert s[..|s|] == s;
    } else if FeedAll(START, s) == Closed {
      assert s[..|s|] == s;
      NeverClosed(s, |s|);
    }
  }

  lemma EndHere(s: string, start: nat, k: nat)
    requires start <= k < |s|
    requires FeedAll(START, s[start..k]) != Closed && FeedAll(START, s[start..k + 1]) == Closed
    ensures End(s[start..]) == Some(k + 1 - start)
  {
    hide FeedAll;
    var t := s[start..];
    assert t[..k - start] == s[start..k];
    assert t[..k + 1 - start] == s[start..k + 1];
    EndIsUnique(t, k + 1 - start);
  }

  /** _json_object_end: the index just past the brace that closes the object opened
      at `start`, or -1 if it is never closed. */
  method JsonObjectEnd(s: string, start: nat) returns (end: int)
    requires start <= |s|
    ensures end == match End(s[start..]) case None => -1 case Some(e) => start + e
  {
    var depth, inStr, esc := 0, false, false;
    for k := start to |s|
      invariant FeedAll(START, s[start..k]) == Scanning(depth, inStr, esc)
    {
      var c := s[k];
      assert s[start..k + 1][..k - start] == s[start..k];
      if inStr {
        if esc {
          esc := false;
        } else if c == '\\' {
          esc := true;
        } else if c == '\"' {
          inStr := false;
        }
      } else if c == '\"' {
        inStr := true;
      } else if c == '{' {
        depth := depth + 1;
      } else if c == '}' {
        depth := depth - 1;
        if depth == 0 {
          EndHere(s, start, k);
          return k + 1;
        }
      }
    }
    assert s[start..|s|] == s[start..];
    ClosedSomewhere(s[start..]);
    return -1;
  }

  // ---- what the emitter writes ---------------------------------------------

  /** Between the braces, outside any string. */
  const BETWEEN := Scanning(1, false, false)
  const INSIDE := Scanning(1, true, false)

  predicate Quiet(c: char)
  {
    c != '\"' && c != '{' && c != '}'
  }

  lemma {:induction false} QuietFeed(s: string)
    requires forall i :: 0 <= i < |s| ==> Quiet(s[i])
    ensures FeedAll(BETWEEN, s) == BETWEEN
  {
    if s != [] { QuietFeed(s[..|s| - 1]); }
  }

  /** Text without quotes and backslashes, inside a string. */
  predicate Plain(s: string)
  {
    forall i :: 0 <= i < |s| ==> s[i] != '\"' && s[i] != '\\'
  }

  lemma {:induction false} PlainFeed(s: string)
    requires Plain(s)
    ensures FeedAll(INSIDE, s) == INSIDE
  {
    if s != [] { PlainFeed(s[..|s| - 1]); }
  }

  lemma EscCharFeed(c: char)
    ensures FeedAll(INSIDE, EscChar(c)) == INSIDE
  {
    var e := EscChar(c);
    FeedOne(INSIDE, e[0]);
    if |e| == 2 {
      assert e == [e[0]] + [e[1]];
      FeedConcat(INSIDE, [e[0]], [e[1]]);
      FeedOne(Scanning(1, true, true), e[1]);
    }
  }

  /** Escaped text never leaves its string: quotes, backslashes and braces included. */
  lemma {:induction false} EscFeed(s: string)
    ensures FeedAll(INSIDE, Esc(s)) == INSIDE
  {
    if s != [] {
      EscFeed(s[1..]);
      EscCharFeed(s[0]);
      FeedConcat(INSIDE, EscChar(s[0]), Esc(s[1..]));
    }
  }

  lemma {:induction false} NumeralQuiet(v: nat, base: nat)
    requires 2 <= base <= 16
    ensures forall i :: 0 <= i < |Numeral(v, base)| ==> Quiet(Numeral(v, base)[i]) && Numeral(v, base)[i] != '\\'
  {
    if v >= base {
      NumeralQuiet(Quot(v, base), base);
    }
  }

  lemma IntFeed(v: int)
    ensures FeedAll(BETWEEN, Int(v)) == BETWEEN
  {
    NumeralQuiet(if v < 0 then -v else v, 10);
    QuietFeed(Int(v));
  }

  lemma DecFeed(v: nat)
    ensures FeedAll(BETWEEN, Dec(v)) == BETWEEN
  {
    NumeralQuiet(v, 10);
    QuietFeed(Dec(v));
  }

  lemma PtrFeed(v: nat)
    ensures FeedAll(INSIDE, Ptr(v)) == INSIDE
  {
    NumeralQuiet(v, 16);
    PlainFeed(Ptr(v));
  }

  /** A member's key and its colon. */
  function Key(k: string): string
  {
    "\"" + k + "\":"
  }

  /** The fixed parts of module EventText, cut at the keys. */
  lemma Literals()
    ensures OpenEvent() == "{" + Key("event") + "\""
    ensures OpenUnmap() == "{" + Key("event") + "\"" + "unmap" + ThenAddr()
    ensures ThenName() == "\"" + "," + Key("shmname") + "\""
    ensures ThenAddr() == "\"" + "," + Key("addr") + "\""
    ensures ThenSize() == "\"" + "," + Key("size")
    ensures ThenFlags() == "," + Key("flags")
    ensures ThenRet() == "," + Key("ret")
    ensures QuoteThenRet() == "\"" + "," + Key("ret")
    ensures ThenPg() == "," + Key("pgname") + "\""
  {}

  lemma KeyFeed(k: string)
    requires Plain(k)
    ensures FeedAll(BETWEEN, Key(k)) == BETWEEN
  {
    PlainFeed(k);
    FeedOne(BETWEEN, '\"');
    FeedConcat(BETWEEN, "\"", k);
    FeedOne(INSIDE, '\"');
    FeedOne(BETWEEN, ':');
    FeedConcat(INSIDE, "\"", ":");
    assert "\"" + ":" == "\":";
    FeedConcat(BETWEEN, "\"" + k, "\":");
  }

  /** A comma and the next key, outside strings. */
  lemma NextFeed(k: string)
    requires Plain(k)
    ensures FeedAll(BETWEEN, "," + Key(k)) == BETWEEN
    ensures FeedAll(INSIDE, "\"" + "," + Key(k)) == BETWEEN
    ensures FeedAll(BETWEEN, "," + Key(k) + "\"") == INSIDE
    ensures FeedAll(INSIDE, "\"" + "," + Key(k) + "\"") == INSIDE
  {
    hide FeedAll, Key;
    KeyFeed(k);
    FeedOne(BETWEEN, ',');
    FeedOne(BETWEEN, '\"');
    FeedOne(INSIDE, '\"');
    FeedConcat(BETWEEN, ",", Key(k));
    FeedConcat(BETWEEN, "," + Key(k), "\"");
    FeedConcat(INSIDE, "\"", ",");
    FeedConcat(INSIDE, "\"" + ",", Key(k));
    FeedConcat(INSIDE, "\"" + "," + Key(k), "\"");
  }

  lemma OpenFeed()
    ensures FeedAll(START, "{" + Key("event") + "\"") == INSIDE
  {
    hide FeedAll, Key;
    KeyFeed("event");
    FeedOne(START, '{');
    FeedOne(BETWEEN, '\"');
    FeedConcat(START, "{", Key("event"));
    FeedConcat(START, "{" + Key("event"), "\"");
  }

  /** The fixed parts open and close strings as the emitter intends. */
  lemma LiteralFeeds()
    ensures FeedAll(START, OpenEvent()) == INSIDE && FeedAll(START, OpenUnmap()) == INSIDE
    ensures FeedAll(INSIDE, ThenName()) == INSIDE && FeedAll(INSIDE, ThenAddr()) == INSIDE
    ensures FeedAll(INSIDE, ThenSize()) == BETWEEN && FeedAll(INSIDE, QuoteThenRet()) == BETWEEN
    ensures FeedAll(BETWEEN, ThenFlags()) == BETWEEN && FeedAll(BETWEEN, ThenRet()) == BETWEEN
    ensures FeedAll(BETWEEN, ThenPg()) == INSIDE
  {
    Literals();
    hide FeedAll, Key, OpenEvent, OpenUnmap, ThenName, ThenAddr, ThenSize, ThenFlags, ThenRet, QuoteThenRet, ThenPg;
    NextFeed("shmname");
    NextFeed("addr");
    NextFeed("size");
    NextFeed("flags");
    NextFeed("ret");
    NextFeed("pgname");
    OpenFeed();
    PlainFeed("unmap");
    FeedConcat(START, "{" + Key("event") + "\"", "unmap");
    FeedConcat(START, "{" + Key("event") + "\"" + "unmap", ThenAddr());
  }

  lemma HeadFeed(op: string, name: Option<string>, addr: nat)
    requires Plain(op)
    ensures FeedAll(START, MapHead(op, name, addr)) == INSIDE
  {
    LiteralFeeds();
    PlainFeed(op);
    EscFeed(OrEmpty(name));
    PtrFeed(addr);
    hide FeedAll, OpenEvent, ThenName, ThenAddr, Esc, Ptr, Plain;
    var a := OpenEvent();
    FeedConcat(START, a, op);
    FeedConcat(START, a + op, ThenName());
    FeedConcat(START, a + op + ThenName(), Esc(OrEmpty(name)));
    FeedConcat(START, a + op + ThenName() + Esc(OrEmpty(name)), ThenAddr());
    FeedConcat(START, a + op + ThenName() + Esc(OrEmpty(name)) + ThenAddr(), Ptr(addr));
  }

  lemma PgFeed(pg: Option<string>)
    ensures FeedAll(BETWEEN, if pg.Some? then ThenPg() + Esc(pg.value) + "\"" else "") == BETWEEN
  {
    if pg.Some? {
      LiteralFeeds();
      EscFeed(pg.value);
      FeedOne(INSIDE, '\"');
      hide FeedAll, ThenPg, Esc;
      FeedConcat(BETWEEN, ThenPg(), Esc(pg.value));
      FeedConcat(BETWEEN, ThenPg() + Esc(pg.value), "\"");
    }
  }

  /** Up to the last brace the object is open, and outside any string. */
  ghost predicate OpenUntilLastBrace(p: string)
  {
    p != [] && p[|p| - 1] == '}' && FeedAll(START, p[..|p| - 1]) == BETWEEN
  }

  lemma NumbersFeed(a: string, size: nat, flags: int, ret: int)
    requires FeedAll(START, a) == INSIDE
    ensures FeedAll(START, a + ThenSize() + Dec(size) + ThenFlags() + Int(flags) + ThenRet() + Int(ret)) == BETWEEN
  {
    LiteralFeeds();
    DecFeed(size);
    IntFeed(flags);
    IntFeed(ret);
    hide FeedAll, ThenSize, ThenFlags, ThenRet, Int, Dec;
    FeedConcat(START, a, ThenSize());
    FeedConcat(START, a + ThenSize(), Dec(size));
    FeedConcat(START, a + ThenSize() + Dec(size), ThenFlags());
    FeedConcat(START, a + ThenSize() + Dec(size) + ThenFlags(), Int(flags));
    FeedConcat(START, a + ThenSize() + Dec(size) + ThenFlags() + Int(flags), ThenRet());
    FeedConcat(START, a + ThenSize() + Dec(size) + ThenFlags() + Int(flags) + ThenRet(), Int(ret));
  }

  lemma MapTextOpen(op: string, name: Option<string>, addr: nat, size: nat, flags: int, ret: int, pg: Option<string>)
    requires Plain(op)
    ensures OpenUntilLastBrace(MapText(op, name, addr, size, flags, ret, pg))
  {
    HeadFeed(op, name, addr);
    NumbersFeed(MapHead(op, name, addr), size, flags, ret);
    PgFeed(pg);
    hide FeedAll, ThenSize, ThenFlags, ThenRet, ThenPg, Esc, Int, Dec, Plain, MapHead;
    var g := MapHead(op, name, addr) + ThenSize() + Dec(size) + ThenFlags() + Int(flags) + ThenRet() + Int(ret);
    var h := if pg.Some? then ThenPg() + Esc(pg.value) + "\"" else "";
    FeedConcat(START, g, h);
    assert (g + h + "}")[..|g + h|] == g + h;
  }

  lemma UnmapTextOpen(addr: nat, ret: int)
    ensures OpenUntilLastBrace(UnmapText(addr, ret))
  {
    LiteralFeeds();
    PtrFeed(addr);
    IntFeed(ret);
    hide FeedAll, OpenUnmap, QuoteThenRet, Int, Ptr;
    var a := OpenUnmap();
    FeedConcat(START, a, Ptr(addr));
    FeedConcat(START, a + Ptr(addr), QuoteThenRet());
    FeedConcat(START, a + Ptr(addr) + QuoteThenRet(), Int(ret));
    var g := a + Ptr(addr) + QuoteThenRet() + Int(ret);
    assert (g + "}")[..|g|] == g;
  }

  /** An event followed by any text at all closes exactly at its own end. */
  lemma ClosesAtItsEnd(p: string, suffix: string)
    requires OpenUntilLastBrace(p)
    ensures End(p + suffix) == Some(|p|)
  {
    assert (p + suffix)[..|p|] == p && (p + suffix)[..|p| - 1] == p[..|p| - 1];
    EndIsUnique(p + suffix, |p|);
  }

  /** No proper prefix of an event is accepted: an event cut short, with nothing
      behind it, is dropped and never misread. */
  lemma PrefixNeverCloses(p: string, k: nat)
    requires OpenUntilLastBrace(p) && k < |p|
    ensures End(p[..k]).None?
  {
    hide FeedAll;
    ClosedSomewhere(p[..k]);
    if FeedAll(START, p[..k]) == Closed {
      StillClosed(p, k, |p| - 1);
    }
  }

  /** Once its first brace is read, an event stays at depth 1 or more until it closes. */
  lemma {:induction false} DepthInside(p: string, k: nat)
    requires 0 < k <= |p| && p[0] == '{'
    ensures var st := FeedAll(START, p[..k]);
      st.Scanning? ==> st.depth >= 1 && (st.esc ==> st.inStr)
  {
    hide FeedAll;
    if k == 1 {
      assert p[..1] == ['{'];
      FeedOne(START, '{');
    } else {
      DepthInside(p, k - 1);
      assert p[..k] == p[..k - 1] + [p[k - 1]];
      FeedConcat(START, p[..k - 1], [p[k - 1]]);
      FeedOne(FeedAll(START, p[..k - 1]), p[k - 1]);
    }
  }

  function Braces(n: nat): string
  {
    if n == 0 then "" else "}" + Braces(n - 1)
  }

  lemma {:induction false} BracesClose(n: nat)
    requires n >= 1
    ensures FeedAll(Scanning(n, false, false), Braces(n)) == Closed && '{' !in Braces(n)
  {
    hide FeedAll;
    FeedOne(Scanning(n, false, false), '}');
    FeedConcat(Scanning(n, false, false), "}", Braces(n - 1));
    if n == 1 {
      FeedNone(Closed);
    } else {
      BracesClose(n - 1);
    }
  }

  /** What closes an object from inside: a character to be escaped, the quote of an
      open string, the braces that are missing. */
  function Closer(st: Scanner): string
    requires st.Scanning? && st.depth >= 0
  {
    (if st.esc then "n" else "") + (if st.inStr then "\"" else "") + Braces(st.depth)
  }

  lemma CloserCloses(st: Scanner)
    requires st.Scanning? && st.depth >= 1 && (st.esc ==> st.inStr)
    ensures FeedAll(st, Closer(st)) == Closed && '{' !in Closer(st)
  {
    hide FeedAll;
    BracesClose(st.depth);
    var a, b, c := if st.esc then "n" else "", if st.inStr then "\"" else "", Braces(st.depth);
    FeedConcat(st, a + b, c);
    FeedConcat(st, a, b);
    FeedOne(st, 'n');
    FeedOne(Scanning(st.depth, true, false), '\"');
    FeedNone(st);
    FeedNone(Scanning(st.depth, false, false));
  }

  /** Text without an opening brace closes nothing that is not open. */
  lemma {:induction false} NothingToClose(s: string)
    requires '{' !in s
    ensures FeedAll(START, s).Scanning? && FeedAll(START, s).depth <= 0
  {
    if s != [] {
      NothingToClose(s[..|s| - 1]);
    }
  }

  /** With foreign text behind it a cut event can be accepted by the scanner: some text
      without an opening brace closes it if and only if anything of the event is left. */
  lemma CutEventCanBeClosed(p: string, k: nat)
    requires OpenUntilLastBrace(p) && p[0] == '{' && k < |p|
    ensures (exists t :: '{' !in t && End(p[..k] + t).Some?) <==> k > 0
    ensures k > 0 ==> FeedAll(START, p[..k]).Scanning? && FeedAll(START, p[..k]).depth >= 1
    ensures k > 0 ==> End(p[..k] + Closer(FeedAll(START, p[..k]))).Some?
  {
    hide FeedAll, Closer;
    if k > 0 {
      DepthInside(p, k);
      PrefixNeverCloses(p, k);
      ClosedSomewhere(p[..k]);
      var st := FeedAll(START, p[..k]);
      CloserCloses(st);
      FeedConcat(START, p[..k], Closer(st));
      ClosedSomewhere(p[..k] + Closer(st));
    } else {
      forall t | '{' !in t ensures End(p[..k] + t).None? {
        assert p[..k] + t == t;
        NothingToClose(t);
        ClosedSomewhere(t);
      }
    }
  }
}
