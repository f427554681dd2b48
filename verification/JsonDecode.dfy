/** Reading an event back (tools/analyze_profile.py, lines 162-179): the round trip of
    every field through the emitter and the reader. */
module JsonDecode {
  import opened Wrappers
  import opened EventText
  import opened JsonReader
  import opened JsonScan

  // ---- strings read back ---------------------------------------------------

  predicate CleanChar(c: char)
  {
    c >= ' ' || c in ['\n', '\r', '\t']
  }

  /** Names the round trip works for: no control characters but the escaped three. */
  predicate Clean(s: string)
  {
    forall i :: 0 <= i < |s| ==> CleanChar(s[i])
  }

  lemma ParseEscChar(c: char, rest: string)
    ensures ParseString(EscChar(c) + rest) == if CleanChar(c) then Prepend(c, ParseString(rest)) else None
  {
    var e := EscChar(c);
    if |e| == 2 {
      assert (e + rest)[2..] == rest && (e + rest)[1] == e[1];
    } else {
      assert (e + rest)[1..] == rest;
    }
  }

  lemma EscEmpty(tail: string)
    ensures Esc("") + tail == tail
  {}

  lemma ParseQuote(rest: string)
    ensures ParseString("\"" + rest) == Some(("", rest))
  {
    assert ("\"" + rest)[1..] == rest;
  }

  lemma CleanHead(s: string)
    requires s != []
    ensures Clean(s) <==> CleanChar(s[0]) && Clean(s[1..])
  {
    if CleanChar(s[0]) && Clean(s[1..]) {
      forall i | 0 <= i < |s| ensures CleanChar(s[i]) {
        if i > 0 { assert s[i] == s[1..][i - 1]; }
      }
    }
  }

  lemma EscHead(s: string, tail: string)
    requires s != []
    ensures Esc(s) + tail == EscChar(s[0]) + (Esc(s[1..]) + tail)
  {
    hide EscChar;
  }

  /** Printing then reading a string gives it back if it is clean; otherwise the
      reader rejects it. */
  lemma {:induction false} ParseEsc(s: string, rest: string)
    ensures ParseString(Esc(s) + ("\"" + rest)) == if Clean(s) then Some((s, rest)) else None
  {
    hide ParseString, Esc, EscChar, CleanChar;
    var tail := "\"" + rest;
    if s == [] {
      EscEmpty(tail);
      ParseQuote(rest);
    } else {
      ParseEsc(s[1..], rest);
      CleanHead(s);
      EscHead(s, tail);
      ParseEscChar(s[0], Esc(s[1..]) + tail);
      assert [s[0]] + s[1..] == s;
    }
  }

  predicate Simple(s: string)
  {
    forall i :: 0 <= i < |s| ==> s[i] >= ' ' && s[i] != '\"' && s[i] != '\\'
  }

  lemma {:induction false} SimpleEsc(s: string)
    requires Simple(s)
    ensures Esc(s) == s && Clean(s)
  {
    if s != [] {
      SimpleEsc(s[1..]);
      assert EscChar(s[0]) == [s[0]];
    }
  }

  // ---- numbers read back ---------------------------------------------------

  /** What follows a number: no digit, fraction or exponent. */
  predicate EndsNumber(rest: string)
  {
    rest == [] || (!IsDigit(rest[0]) && rest[0] !in ['.', 'e', 'E'])
  }

  lemma {:induction false} DigitsOf(d: string, rest: string)
    requires (forall i :: 0 <= i < |d| ==> IsDigit(d[i])) && (rest == [] || !IsDigit(rest[0]))
    ensures Digits(d + rest) == d
  {
    if d == [] {
      assert d + rest == rest;
    } else {
      DigitsOf(d[1..], rest);
      assert (d + rest)[1..] == d[1..] + rest;
    }
  }

  lemma DigitChar(d: nat)
    requires d < 10
    ensures IsDigit(Digit(d)) && Digit(d) as int == 48 + d
  {}

  lemma {:induction false} DecReadBack(v: nat)
    ensures Dec(v) != [] && forall i :: 0 <= i < |Dec(v)| ==> IsDigit(Dec(v)[i])
    ensures DecValue(Dec(v)) == v
    ensures |Dec(v)| > 1 ==> Dec(v)[0] != '0'
    ensures v > 0 ==> Dec(v)[0] != '0'
  {
    if v >= 10 {
      DecReadBack(Quot(v, 10));
      QuotRem(v, 10);
      DigitChar(Rem(v, 10));
      var d := Dec(v);
      assert d[..|d| - 1] == Dec(Quot(v, 10));
      hide Quot, Rem, Digit;
    } else {
      DigitChar(v);
      assert Dec(v)[..0] == [];
    }
  }

  lemma NoMore(rest: string)
    requires EndsNumber(rest)
    ensures Inexact(rest) == 0
  {
    hide Digits;
    assert rest[0..] == rest;
  }

  lemma WholeDec(v: nat, rest: string)
    requires EndsNumber(rest)
    ensures Whole(Dec(v) + rest) == Dec(v) && (Dec(v) + rest)[|Dec(v)|..] == rest
  {
    DecReadBack(v);
    DigitsOf(Dec(v), rest);
    hide Dec, DecValue, Digits;
    assert (Dec(v) + rest)[0] == Dec(v)[0];
    if Dec(v)[0] == '0' {
      assert Dec(v) == Dec(v)[..1] == (Dec(v) + rest)[..1];
    }
  }

  /** A numeral, with or without a sign before it. */
  lemma NumeralReads(s: string, m: nat, d: string, v: nat)
    requires m <= 1 && m + |d| <= |s| && d != [] && (m == 1 <==> s[0] == '-')
    requires Whole(s[m..]) == d && Inexact(s[m + |d|..]) == 0 && DecValue(Whole(s[m..])) == v
    ensures ParseNumber(s) == Some((Number(if m == 1 then 0 - v else v), s[m + |d|..]))
  {
    hide DecValue, Whole, Inexact;
  }

  lemma ParseDec(v: nat, rest: string)
    requires EndsNumber(rest)
    ensures ParseNumber(Dec(v) + rest) == Some((Number(v), rest))
    ensures ParseNumber("-" + Dec(v) + rest) == Some((Number(0 - v), rest))
  {
    hide Dec, DecValue, Whole, ParseNumber, EndsNumber, Inexact;
    WholeDec(v, rest);
    NoMore(rest);
    DecReadBack(v);
    var d, t := Dec(v), Dec(v) + rest;
    assert IsDigit(d[0]) && t[0] == d[0] && t[0..] == t && t[0 + |d|..] == rest;
    NumeralReads(t, 0, d, v);
    assert "-" + d + rest == "-" + t && ("-" + t)[1..] == t && ("-" + t)[1 + |d|..] == rest;
    NumeralReads("-" + t, 1, d, v);
  }

  lemma ParseInt(v: int, rest: string)
    requires EndsNumber(rest)
    ensures ParseNumber(Int(v) + rest) == Some((Number(v), rest))
    ensures (Int(v) + rest)[0] == '-' || IsDigit((Int(v) + rest)[0])
    ensures |Int(v) + rest| > 1 && (Int(v) + rest)[0] == '-' ==> IsDigit((Int(v) + rest)[1])
  {
    DecReadBack(if v < 0 then -v else v);
    ParseDec(if v < 0 then -v else v, rest);
    hide Dec, ParseNumber, DecValue;
  }

  // ---- members read back ---------------------------------------------------

  lemma SkipNothing(s: string)
    requires s != [] ==> !IsBlank(s[0])
    ensures SkipBlanks(s) == s
  {}

  lemma MembersStart(s: string, key: string, more: string, acc: Record)
    requires s != [] && s[0] == '\"' && ParseString(s[1..]) == Some((key, ":" + more))
    requires more != [] ==> !IsBlank(more[0])
    ensures ParseMembers(s, acc)
         == match ParseValue(more) case None => None case Some((v, rest)) => Continue(rest, acc[key := v])
  {
    SkipNothing(":" + more);
    SkipNothing(more);
    hide ParseString, ParseValue, Continue, SkipBlanks;
    assert (":" + more)[1..] == more;
  }

  lemma KeyMember(k: string, more: string, acc: Record)
    requires Simple(k) && (more != [] ==> !IsBlank(more[0]))
    ensures ParseMembers(Key(k) + more, acc)
         == match ParseValue(more) case None => None case Some((v, rest)) => Continue(rest, acc[k := v])
  {
    hide ParseString, ParseValue, Esc, Simple, Clean, Continue, ParseMembers;
    SimpleEsc(k);
    ParseEsc(k, ":" + more);
    var s := Key(k) + more;
    assert s == "\"" + (Esc(k) + ("\"" + (":" + more)));
    assert s[1..] == Esc(k) + ("\"" + (":" + more));
    MembersStart(s, k, more, acc);
  }

  lemma TextValue(s: string)
    ensures ParseValue("\"" + s) == match ParseString(s) case None => None case Some((t, rest)) => Some((Text(t), rest))
  {
    assert ("\"" + s)[1..] == s;
    hide ParseString;
  }

  lemma TextMember(k: string, v: string, more: string, acc: Record)
    requires Simple(k)
    ensures ParseMembers(Key(k) + ("\"" + (Esc(v) + ("\"" + more))), acc)
         == if Clean(v) then Continue(more, acc[k := Text(v)]) else None
  {
    var s := Esc(v) + ("\"" + more);
    ParseEsc(v, more);
    TextValue(s);
    hide ParseString, ParseMembers, ParseValue, Esc, Key, Clean, Continue;
    KeyMember(k, "\"" + s, acc);
  }

  lemma NumberIsNext(s: string)
    requires s != [] && (IsDigit(s[0]) || s[0] == '-') && ParseLiteral(s).None?
    ensures ParseValue(s) == ParseNumber(s) && !IsBlank(s[0])
  {
    hide ParseLiteral, ParseNumber, ParseString, ParseObject, ParseArray;
  }

  lemma NoLiteral(s: string)
    requires s != [] && (IsDigit(s[0]) || (s[0] == '-' && (|s| > 1 ==> IsDigit(s[1]))))
    ensures ParseLiteral(s).None?
  {
    assert "true"[0] == 't' && "false"[0] == 'f' && "null"[0] == 'n' && "NaN"[0] == 'N' && "Infinity"[0] == 'I';
    assert "-Infinity"[1] == 'I';
  }

  lemma NumberValue(n: int, more: string)
    requires EndsNumber(more)
    ensures ParseValue(Int(n) + more) == Some((Number(n), more)) && !IsBlank((Int(n) + more)[0])
  {
    hide ParseNumber, ParseValue, Int, EndsNumber;
    ParseInt(n, more);
    var s := Int(n) + more;
    NoLiteral(s);
    NumberIsNext(s);
  }

  lemma NumberMember(k: string, n: int, more: string, acc: Record)
    requires Simple(k) && EndsNumber(more)
    ensures ParseMembers(Key(k) + (Int(n) + more), acc) == Continue(more, acc[k := Number(n)])
  {
    hide ParseValue, ParseMembers, Key, Continue;
    NumberValue(n, more);
    hide Int;
    KeyMember(k, Int(n) + more, acc);
  }

  lemma NextMember(more: string, acc: Record)
    requires more != [] ==> !IsBlank(more[0])
    ensures Continue("," + more, acc) == ParseMembers(more, acc)
    ensures EndsNumber("," + more)
  {
    SkipNothing("," + more);
    SkipNothing(more);
    hide ParseMembers, SkipBlanks;
    assert ("," + more)[1..] == more;
  }

  lemma NextKey(k: string, more: string, acc: Record)
    ensures Continue("," + (Key(k) + more), acc) == ParseMembers(Key(k) + more, acc)
    ensures EndsNumber("," + (Key(k) + more))
  {
    hide ParseMembers, Continue;
    NextMember(Key(k) + more, acc);
  }

  // ---- an event, from its last member back ---------------------------------

  function PgPart(pg: Option<string>): string
  {
    if pg.Some? then "," + (Key("pgname") + ("\"" + (Esc(pg.value) + ("\"" + "}")))) else "}"
  }

  function NumberPart(size: nat, flags: int, ret: int, more: string): string
  {
    "," + (Key("size") + (Int(size) + ("," + (Key("flags") + (Int(flags) + ("," + (Key("ret") + (Int(ret) + more))))))))
  }

  function AddrPart(name: string, addr: nat, more: string): string
  {
    "," + (Key("shmname") + ("\"" + (Esc(name) + ("\""
    + ("," + (Key("addr") + ("\"" + (Ptr(addr) + ("\"" + more)))))))))
  }

  lemma Assoc(a: string, b: string, c: string)
    ensures (a + b) + c == a + (b + c)
  {}

  lemma PgPartRegroups(a: string, pg: Option<string>)
    ensures a + (if pg.Some? then ThenPg() + Esc(pg.value) + "\"" else "") + "}" == a + PgPart(pg)
  {
    Literals();
    hide Key, ThenPg, Esc;
    if pg.Some? {
      var e := Esc(pg.value);
      Assoc("," + Key("pgname"), "\"", e);
      Assoc("," + Key("pgname"), "\"" + e, "\"" + "}");
      Assoc("\"", e, "\"" + "}");
      Assoc(",", Key("pgname"), "\"" + (e + ("\"" + "}")));
      Assoc(ThenPg() + e, "\"", "}");
      Assoc(a, ThenPg() + e + "\"", "}");
    } else {
      assert a + "" == a;
    }
  }

  lemma NumberPartRegroups(a: string, size: nat, flags: int, ret: int, more: string)
    ensures a + ThenSize() + Dec(size) + ThenFlags() + Int(flags) + ThenRet() + Int(ret) + more
         == a + ("\"" + NumberPart(size, flags, ret, more))
  {
    Literals();
    assert Int(size) == Dec(size);
    hide Key, ThenSize, ThenFlags, ThenRet, Int, Dec;
    var r := Int(ret) + more;
    Assoc(a + ThenSize() + Dec(size) + ThenFlags() + Int(flags) + ThenRet(), Int(ret), more);
    Assoc(a + ThenSize() + Dec(size) + ThenFlags() + Int(flags), ThenRet(), r);
    Assoc(",", Key("ret"), r);
    var f := Int(flags) + ("," + (Key("ret") + r));
    Assoc(a + ThenSize() + Dec(size) + ThenFlags(), Int(flags), "," + (Key("ret") + r));
    Assoc(a + ThenSize() + Dec(size), ThenFlags(), f);
    Assoc(",", Key("flags"), f);
    var z := Dec(size) + ("," + (Key("flags") + f));
    Assoc(a + ThenSize(), Dec(size), "," + (Key("flags") + f));
    Assoc(a, ThenSize(), z);
    Assoc("\"" + ",", Key("size"), z);
    Assoc("\"", ",", Key("size") + z);
  }

  lemma AddrPartRegroups(op: string, name: Option<string>, addr: nat, more: string)
    ensures MapHead(op, name, addr) + ("\"" + more)
         == "{" + (Key("event") + ("\"" + (op + ("\"" + AddrPart(OrEmpty(name), addr, more)))))
  {
    Literals();
    var n := Esc(OrEmpty(name));
    hide Key, OpenEvent, ThenName, ThenAddr, Esc, Ptr;
    var p := Ptr(addr) + ("\"" + more);
    var a := OpenEvent();
    Assoc(a + op + ThenName() + n + ThenAddr(), Ptr(addr), "\"" + more);
    Assoc(a + op + ThenName() + n, ThenAddr(), p);
    Assoc("\"" + "," + Key("addr"), "\"", p);
    Assoc("\"" + ",", Key("addr"), "\"" + p);
    Assoc("\"", ",", Key("addr") + ("\"" + p));
    var m := n + ("\"" + ("," + (Key("addr") + ("\"" + p))));
    Assoc(a + op + ThenName(), n, "\"" + ("," + (Key("addr") + ("\"" + p))));
    Assoc(a + op, ThenName(), m);
    Assoc("\"" + "," + Key("shmname"), "\"", m);
    Assoc("\"" + ",", Key("shmname"), "\"" + m);
    Assoc("\"", ",", Key("shmname") + ("\"" + m));
    var o := op + ("\"" + ("," + (Key("shmname") + ("\"" + m))));
    Assoc(a, op, "\"" + ("," + (Key("shmname") + ("\"" + m))));
    Assoc("{" + Key("event"), "\"", o);
    Assoc("{", Key("event"), "\"" + o);
  }

  lemma MapTextRegroups(op: string, name: Option<string>, addr: nat, size: nat, flags: int, ret: int,
                        pg: Option<string>)
    ensures MapText(op, name, addr, size, flags, ret, pg)
         == "{" + (Key("event") + ("\"" + (op + ("\"" +
              AddrPart(OrEmpty(name), addr, NumberPart(size, flags, ret, PgPart(pg)))))))
  {
    var a := MapHead(op, name, addr);
    PgPartRegroups(a + ThenSize() + Dec(size) + ThenFlags() + Int(flags) + ThenRet() + Int(ret), pg);
    NumberPartRegroups(a, size, flags, ret, PgPart(pg));
    AddrPartRegroups(op, name, addr, NumberPart(size, flags, ret, PgPart(pg)));
    hide MapHead, ThenSize, ThenFlags, ThenRet, ThenPg, Int, Dec, Key, Esc, PgPart, NumberPart, AddrPart;
  }

  // ---- the round trip ------------------------------------------------------

  /** The record an event stands for. */
  function MapRecord(op: string, name: Option<string>, addr: nat, size: nat, flags: int, ret: int,
                     pg: Option<string>): Record
  {
    var r: Record := map["event" := Text(op), "shmname" := Text(OrEmpty(name)), "addr" := Text(Ptr(addr)),
      "size" := Number(size), "flags" := Number(flags), "ret" := Number(ret)];
    if pg.Some? then r["pgname" := Text(pg.value)] else r
  }

  lemma ContinueEnds(rest: string, acc: Record)
    ensures Continue("}" + rest, acc) == Some((acc, rest))
  {
    SkipNothing("}" + rest);
    hide ParseMembers, SkipBlanks;
    assert ("}" + rest)[1..] == rest;
  }

  lemma PgPartReads(pg: Option<string>, acc: Record)
    ensures Continue(PgPart(pg), acc)
         == if pg.None? then Some((acc, ""))
            else if Clean(pg.value) then Some((acc["pgname" := Text(pg.value)], "")) else None
    ensures EndsNumber(PgPart(pg))
  {
    hide ParseMembers, Key, Esc, Clean, Continue;
    ContinueEnds("", acc);
    assert "}" + "" == "}";
    if pg.Some? {
      ContinueEnds("", acc["pgname" := Text(pg.value)]);
      NextKey("pgname", "\"" + (Esc(pg.value) + ("\"" + "}")), acc);
      TextMember("pgname", pg.value, "}", acc);
    }
  }

  lemma NumberPartReads(size: nat, flags: int, ret: int, more: string, acc: Record)
    requires EndsNumber(more)
    ensures Continue(NumberPart(size, flags, ret, more), acc)
         == Continue(more, acc["size" := Number(size)]["flags" := Number(flags)]["ret" := Number(ret)])
  {
    hide ParseMembers, Key, Int, Continue, EndsNumber;
    var r := Int(ret) + more;
    var f := Int(flags) + ("," + (Key("ret") + r));
    var z := Int(size) + ("," + (Key("flags") + f));
    NextKey("size", z, acc);
    NextKey("flags", f, acc["size" := Number(size)]);
    NumberMember("size", size, "," + (Key("flags") + f), acc);
    NextKey("ret", r, acc["size" := Number(size)]["flags" := Number(flags)]);
    NumberMember("flags", flags, "," + (Key("ret") + r), acc["size" := Number(size)]);
    NumberMember("ret", ret, more, acc["size" := Number(size)]["flags" := Number(flags)]);
  }

  lemma {:induction false} NumeralSimple(v: nat, base: nat)
    requires 2 <= base <= 16
    ensures Simple(Numeral(v, base))
  {
    if v >= base { NumeralSimple(Quot(v, base), base); }
  }

  lemma KeysAreSimple()
    ensures Simple("event") && Simple("shmname") && Simple("addr")
  {}

  lemma AddrPartReads(name: string, addr: nat, more: string, acc: Record)
    ensures Continue(AddrPart(name, addr, more), acc)
         == if Clean(name) then Continue(more, acc["shmname" := Text(name)]["addr" := Text(Ptr(addr))]) else None
  {
    NumeralSimple(addr, 16);
    SimpleEsc(Ptr(addr));
    KeysAreSimple();
    hide ParseMembers, Key, Esc, Ptr, Continue, Clean, Simple, EndsNumber;
    var p := Ptr(addr) + ("\"" + more);
    var m := Esc(name) + ("\"" + ("," + (Key("addr") + ("\"" + p))));
    NextKey("shmname", "\"" + m, acc);
    TextMember("shmname", name, "," + (Key("addr") + ("\"" + p)), acc);
    NextKey("addr", "\"" + p, acc["shmname" := Text(name)]);
    TextMember("addr", Ptr(addr), more, acc["shmname" := Text(name)]);
  }

  lemma RecordWithPg(op: string, name: Option<string>, addr: nat, size: nat, flags: int, ret: int, pg: Option<string>)
    ensures MapRecord(op, name, addr, size, flags, ret, pg)
         == if pg.None? then MapRecord(op, name, addr, size, flags, ret, None)
            else MapRecord(op, name, addr, size, flags, ret, None)["pgname" := Text(pg.value)]
  {}

  lemma RecordBuilt(op: string, name: Option<string>, addr: nat, size: nat, flags: int, ret: int)
    ensures var empty: Record := map[];
      empty["event" := Text(op)]["shmname" := Text(OrEmpty(name))]["addr" := Text(Ptr(addr))]
        ["size" := Number(size)]["flags" := Number(flags)]["ret" := Number(ret)]
      == MapRecord(op, name, addr, size, flags, ret, None)
  {}

  lemma EmptyIsClean()
    ensures Clean("")
  {}

  lemma LoadsMembers(members: string)
    requires members != [] && members[0] == '\"'
    ensures Loads("{" + members)
         == match ParseMembers(members, map[]) case None => None
            case Some((m, rest)) => if SkipBlanks(rest) == [] then Some(m) else None
  {
    SkipNothing(members);
    hide ParseMembers, SkipBlanks;
    assert ("{" + members)[1..] == members;
  }

  /** Decoding an event gives back every field - op, name (NULL as the empty name),
      address text, size, flags, ret, and pgname if there was one - if the names are
      clean, and is rejected otherwise. */
  lemma MapRoundTrip(op: string, name: Option<string>, addr: nat, size: nat, flags: int, ret: int, pg: Option<string>)
    requires Simple(op)
    ensures Loads(MapText(op, name, addr, size, flags, ret, pg))
         == if Clean(OrEmpty(name)) && Clean(OrEmpty(pg)) then Some(MapRecord(op, name, addr, size, flags, ret, pg))
            else None
  {
    MapTextRegroups(op, name, addr, size, flags, ret, pg);
    SimpleEsc(op);
    KeysAreSimple();
    EmptyIsClean();
    RecordBuilt(op, name, addr, size, flags, ret);
    var more := NumberPart(size, flags, ret, PgPart(pg));
    var rest := AddrPart(OrEmpty(name), addr, more);
    LoadsMembers(Key("event") + ("\"" + (op + ("\"" + rest))));
    hide Loads, ParseMembers, MapText, Key, Ptr, Int, Esc, Continue, NumberPart, AddrPart, PgPart, Clean, Simple;
    var acc0: Record := map[];
    TextMember("event", op, rest, acc0);
    var acc1 := acc0["event" := Text(op)];
    AddrPartReads(OrEmpty(name), addr, more, acc1);
    PgPartReads(pg, MapRecord(op, name, addr, size, flags, ret, None));
    NumberPartReads(size, flags, ret, PgPart(pg), acc1["shmname" := Text(OrEmpty(name))]["addr" := Text(Ptr(addr))]);
    hide MapRecord;
    RecordWithPg(op, name, addr, size, flags, ret, pg);
  }
}
