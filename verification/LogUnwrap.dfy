/** From a dirty log line back to the record and its address (tools/analyze_profile.py,
    lines 112-131 and 162-231). */
module LogUnwrap {
  import opened Wrappers
  import opened EventText
  import opened JsonScan
  import opened JsonReader
  import opened JsonDecode

  // ---- addresses -----------------------------------------------------------

  /** The value of a hexadecimal numeral, in upper or lower case. */
  function HexNumber(s: string): nat
    requires forall i :: 0 <= i < |s| ==> IsHex(s[i])
  {
    if s == [] then 0 else HexNumber(s[..|s| - 1]) * 16 + HexValue(s[|s| - 1])
  }

  lemma DigitHex(d: nat)
    requires d < 16
    ensures IsHex(Digit(d)) && HexValue(Digit(d)) == d
  {}

  lemma {:induction false} NumeralHex(v: nat)
    ensures forall i :: 0 <= i < |Numeral(v, 16)| ==> IsHex(Numeral(v, 16)[i])
    ensures HexNumber(Numeral(v, 16)) == v
  {
    hide Quot, Rem, Digit, HexValue, IsHex;
    var s := Numeral(v, 16);
    if v < 16 {
      DigitHex(v);
      assert s[..0] == [];
    } else {
      QuotRem(v, 16);
      NumeralHex(Quot(v, 16));
      DigitHex(Rem(v, 16));
      assert s[..|s| - 1] == Numeral(Quot(v, 16), 16);
    }
  }

  predicate IsSpace(c: char)
  {
    c == ' ' || 9 <= c as int <= 13 || 28 <= c as int <= 31
  }

  function StripLeft(s: string): string
  {
    if s != [] && IsSpace(s[0]) then StripLeft(s[1..]) else s
  }

  function StripRight(s: string): string
  {
    if s != [] && IsSpace(s[|s| - 1]) then StripRight(s[..|s| - 1]) else s
  }

  function LowerChar(c: char): char
  {
    if 65 <= c as int <= 90 then (c as int + 32) as char else c
  }

  function Lower(s: string): (t: string)
    ensures |t| == |s|
  {
    if s == [] then [] else [LowerChar(s[0])] + Lower(s[1..])
  }

  predicate NilText(a: string)
  {
    a == "" || a == "0" || a == "0x0" || a == "(nil)"
  }

  predicate AllZeros(digits: string)
  {
    forall i :: 0 <= i < |digits| ==> digits[i] == '0'
  }

  /** _addr_is_real, on ASCII text. */
  predicate AddrIsReal(addr: Option<string>): (isReal: bool)
    ensures isReal ==> addr.Some?
  {
    addr.Some? && addr.value != "" &&
    var a := Lower(StripRight(StripLeft(addr.value)));
    !NilText(a) && !AllZeros(if |a| >= 2 && a[..2] == "0x" then a[2..] else a)
  }

  lemma DigitPlain(d: nat)
    requires d < 16
    ensures LowerChar(Digit(d)) == Digit(d) && !IsSpace(Digit(d)) && (d > 0 ==> Digit(d) != '0')
  {}

  lemma LowerEmpty()
    ensures Lower("") == ""
  {}

  lemma {:induction false} LowerAppend(s: string, c: char)
    ensures Lower(s + [c]) == Lower(s) + [LowerChar(c)]
  {
    if s != [] {
      LowerAppend(s[1..], c);
      assert (s + [c])[1..] == s[1..] + [c];
    }
  }

  lemma {:induction false} NumeralPlain(v: nat, base: nat)
    requires 2 <= base <= 16
    ensures Lower(Numeral(v, base)) == Numeral(v, base)
    ensures !IsSpace(Numeral(v, base)[|Numeral(v, base)| - 1])
    ensures v > 0 ==> Numeral(v, base)[0] != '0'
  {
    hide Quot, Rem, Digit, LowerChar, IsSpace, Lower;
    if v >= base {
      NumeralPlain(Quot(v, base), base);
      DigitPlain(Rem(v, base));
      LowerAppend(Numeral(Quot(v, base), base), Digit(Rem(v, base)));
    } else {
      DigitPlain(v);
      LowerAppend([], Digit(v));
      LowerEmpty();
      assert [] + [Digit(v)] == [Digit(v)];
    }
  }

  /** An address reads back from its text, which is its shortest numeral in lower case. */
  lemma PtrReadsBack(v: nat)
    ensures |Ptr(v)| >= 3 && Ptr(v)[..2] == "0x" && (forall i :: 2 <= i < |Ptr(v)| ==> IsHex(Ptr(v)[i]))
    ensures HexNumber(Ptr(v)[2..]) == v
    ensures Lower(Ptr(v)[2..]) == Ptr(v)[2..] && (v > 0 ==> Ptr(v)[2] != '0')
    ensures v == 0 ==> Ptr(v) == "0x0"
  {
    NumeralHex(v);
    NumeralPlain(v, 16);
    assert Ptr(v)[2..] == Numeral(v, 16);
    hide HexNumber, Lower, IsHex;
  }

  /** So different pointers print differently, and the text can stand for the address. */
  lemma PtrInjective(v: nat, w: nat)
    requires Ptr(v) == Ptr(w)
    ensures v == w
  {
    PtrReadsBack(v);
    PtrReadsBack(w);
    hide Ptr, HexNumber;
  }

  lemma RealIf(p: string, n: string)
    requires Lower(StripRight(StripLeft(p))) == p && |p| >= 2 && p[..2] == "0x" && p[2..] == n
    requires NilText(p) <==> n == "0"
    requires n != "0" ==> !AllZeros(n)
    ensures AddrIsReal(Some(p)) <==> n != "0"
  {
    hide Lower, StripLeft, StripRight, NilText, AllZeros;
  }

  lemma LowerHead(s: string)
    requires s != []
    ensures Lower(s) == [LowerChar(s[0])] + Lower(s[1..])
  {}

  lemma LowerPointer(n: string)
    requires Lower(n) == n
    ensures Lower("0x" + n) == "0x" + n
  {
    hide Lower;
    var p := "0x" + n;
    assert p[0] == '0' && p[1] == 'x' && p[2..] == n;
    assert p[1..][0] == 'x' && p[1..][1..] == p[2..];
    LowerHead(p);
    LowerHead(p[1..]);
    assert Lower(p) == ['0'] + (['x'] + n);
  }

  lemma NoStrip(p: string)
    requires p != [] && !IsSpace(p[0]) && !IsSpace(p[|p| - 1])
    ensures StripLeft(p) == p && StripRight(p) == p
  {}

  lemma NothingToStrip(n: string)
    requires n != [] && Lower(n) == n && !IsSpace(n[|n| - 1])
    ensures Lower(StripRight(StripLeft("0x" + n))) == "0x" + n
  {
    hide StripLeft, StripRight, Lower;
    var p := "0x" + n;
    assert p[|p| - 1] == n[|n| - 1] && p[0] == '0';
    NoStrip(p);
    LowerPointer(n);
  }

  lemma NilOrReal(n: string)
    requires n != [] && (n == "0" || n[0] != '0')
    ensures NilText("0x" + n) <==> n == "0"
    ensures ("0x" + n)[..2] == "0x" && ("0x" + n)[2..] == n
    ensures n != "0" ==> !AllZeros(n)
  {
    var p := "0x" + n;
    assert p[2..] == n && p[0] == '0' && p[1] == 'x';
    assert |p| >= 3;
    if p == "0x0" { assert p[2..] == "0"; }
    if n == "0" { assert p == "0x0"; }
    if n != "0" { assert n[0] != '0'; }
  }

  /** The analyser takes the address text of an event for real exactly when the
      emitter printed a non-NULL pointer. */
  lemma PrintedAddrIsReal(v: nat)
    ensures AddrIsReal(Some(Ptr(v))) <==> v != 0
  {
    NumeralPlain(v, 16);
    var n := Numeral(v, 16);
    assert v == 0 ==> n == "0";
    assert v != 0 ==> n != "0";
    assert Ptr(v) == "0x" + n && Ptr(v) != "";
    NothingToStrip(n);
    hide Numeral, Lower, StripLeft, StripRight, Ptr;
    NilOrReal(n);
    RealIf(Ptr(v), n);
  }

  lemma {:induction false} ZeroIff(d: string)
    requires forall i :: 0 <= i < |d| ==> IsHex(d[i])
    ensures HexNumber(d) == 0 <==> AllZeros(d)
  {
    if d != "" {
      var n := |d| - 1;
      ZeroIff(d[..n]);
      assert AllZeros(d) <==> AllZeros(d[..n]) && d[n] == '0' by {
        if AllZeros(d[..n]) && d[n] == '0' {
          assert forall i :: 0 <= i < n ==> d[i] == d[..n][i];
        }
      }
    }
  }

  lemma LowerDigit(c: char)
    requires IsHex(c)
    ensures LowerChar(c) == '0' <==> c == '0'
    ensures LowerChar(c) != 'x' && LowerChar(c) != '(' && !IsSpace(c)
  {}

  lemma {:induction false} LowerDigits(d: string)
    requires forall i :: 0 <= i < |d| ==> IsHex(d[i])
    ensures AllZeros(Lower(d)) <==> AllZeros(d)
    ensures forall i :: 0 <= i < |d| ==> Lower(d)[i] == LowerChar(d[i])
  {
    hide IsHex, LowerChar;
    if d != "" {
      LowerDigits(d[1..]);
      LowerHead(d);
      LowerDigit(d[0]);
      forall i | 0 <= i < |d| ensures Lower(d)[i] == LowerChar(d[i]) {
        if i > 0 { assert d[i] == d[1..][i - 1]; }
      }
      forall i | 0 <= i < |d| ensures Lower(d)[i] == '0' <==> d[i] == '0' {
        LowerDigit(d[i]);
      }
    }
  }

  lemma LowerPrefixed(d: string)
    ensures Lower("0x" + d) == "0x" + Lower(d)
  {
    hide Lower;
    var p := "0x" + d;
    assert p[0] == '0' && p[1..][0] == 'x' && p[1..][1..] == d;
    LowerHead(p);
    LowerHead(p[1..]);
    assert ['0'] + (['x'] + Lower(d)) == "0x" + Lower(d);
  }

  lemma NilIsZeros(low: string)
    requires low != "" && low[0] != '(' && (|low| > 1 ==> low[1] != 'x')
    ensures (NilText(low) ==> AllZeros(low)) && (NilText("0x" + low) ==> AllZeros(low))
    ensures |low| >= 2 ==> low[..2] != "0x"
    ensures ("0x" + low)[..2] == "0x" && ("0x" + low)[2..] == low
  {
    var p := "0x" + low;
    assert p[..2] == "0x" && p[2..] == low && p[0] == '0' && p[1] == 'x';
    assert "(nil)"[0] == '(';
    if |low| >= 2 { assert low[..2][1] == low[1]; }
    if p == "0x0" { assert p[2..] == "0"; }
  }

  lemma HexNotStripped(d: string)
    requires d != "" && forall i :: 0 <= i < |d| ==> IsHex(d[i])
    ensures StripRight(StripLeft(d)) == d && StripRight(StripLeft("0x" + d)) == "0x" + d
  {
    var p := "0x" + d;
    LowerDigit(d[0]);
    LowerDigit(d[|d| - 1]);
    assert p[|p| - 1] == d[|d| - 1] && p[0] == '0' && !IsSpace('0');
    NoStrip(d);
    NoStrip(p);
  }

  lemma LowHead(d: string)
    requires d != "" && forall i :: 0 <= i < |d| ==> IsHex(d[i])
    ensures var low := Lower(d); low != "" && low[0] != '(' && (|low| > 1 ==> low[1] != 'x')
  {
    LowerDigits(d);
    LowerDigit(d[0]);
    if |d| > 1 { LowerDigit(d[1]); }
    hide Lower, LowerChar;
  }

  lemma RealAs(s: string, a: string)
    requires s != "" && Lower(StripRight(StripLeft(s))) == a
    ensures AddrIsReal(Some(s)) <==> !NilText(a) && !AllZeros(if |a| >= 2 && a[..2] == "0x" then a[2..] else a)
  {
    hide Lower, StripLeft, StripRight, NilText, AllZeros;
  }

  /** Which addresses the analyser takes for real, written as a hexadecimal number in upper
      or lower case, with or without 0x: all but zero. */
  lemma RealIffNotZero(d: string)
    requires d != "" && forall i :: 0 <= i < |d| ==> IsHex(d[i])
    ensures AddrIsReal(Some(d)) <==> HexNumber(d) != 0
    ensures AddrIsReal(Some("0x" + d)) <==> HexNumber(d) != 0
  {
    hide Lower, StripLeft, StripRight, HexNumber, IsHex, AllZeros, NilText, AddrIsReal;
    ZeroIff(d);
    LowerDigits(d);
    LowerPrefixed(d);
    HexNotStripped(d);
    LowHead(d);
    NilIsZeros(Lower(d));
    RealAs(d, Lower(d));
    RealAs("0x" + d, "0x" + Lower(d));
  }

  // ---- the unmap event -----------------------------------------------------

  lemma UnmapTextRegroups(addr: nat, ret: int)
    ensures UnmapText(addr, ret)
         == "{" + (Key("event") + ("\"" + ("unmap" + ("\"" + ("," + (Key("addr") + ("\"" + (Ptr(addr) + ("\"" +
              ("," + (Key("ret") + (Int(ret) + "}"))))))))))))
  {
    Literals();
    hide Key, OpenUnmap, QuoteThenRet, ThenAddr, Int, Ptr;
    var r := Int(ret) + "}";
    Assoc(OpenUnmap() + Ptr(addr) + QuoteThenRet(), Int(ret), "}");
    Assoc(OpenUnmap() + Ptr(addr), QuoteThenRet(), r);
    Assoc("\"" + ",", Key("ret"), r);
    Assoc("\"", ",", Key("ret") + r);
    var p := Ptr(addr) + ("\"" + ("," + (Key("ret") + r)));
    Assoc(OpenUnmap(), Ptr(addr), "\"" + ("," + (Key("ret") + r)));
    Assoc("{" + Key("event") + "\"" + "unmap", ThenAddr(), p);
    Assoc("\"" + "," + Key("addr"), "\"", p);
    Assoc("\"" + ",", Key("addr"), "\"" + p);
    Assoc("\"", ",", Key("addr") + ("\"" + p));
    var u := "\"" + ("," + (Key("addr") + ("\"" + p)));
    Assoc("{" + Key("event") + "\"", "unmap", u);
    Assoc("{" + Key("event"), "\"", "unmap" + u);
    Assoc("{", Key("event"), "\"" + ("unmap" + u));
  }

  lemma KeyStart(k: string)
    ensures Key(k) != [] && Key(k)[0] == '\"'
  {}

  lemma RetIsSimple()
    ensures Simple("ret") && Simple("unmap") && EndsNumber("}")
  {}

  lemma UnmapRecord(addr: nat, ret: int)
    ensures var empty: Record := map[];
      empty["event" := Text("unmap")]["addr" := Text(Ptr(addr))]["ret" := Number(ret)]
      == map["event" := Text("unmap"), "addr" := Text(Ptr(addr)), "ret" := Number(ret)]
  {}

  /** An unmap event always decodes to its three fields. */
  lemma UnmapRoundTrip(addr: nat, ret: int)
    ensures Loads(UnmapText(addr, ret))
         == Some(map["event" := Text("unmap"), "addr" := Text(Ptr(addr)), "ret" := Number(ret)])
  {
    UnmapTextRegroups(addr, ret);
    NumeralSimple(addr, 16);
    RetIsSimple();
    KeysAreSimple();
    assert Simple(Ptr(addr));
    SimpleEsc(Ptr(addr));
    SimpleEsc("unmap");
    hide Loads, ParseMembers, UnmapText, Key, Ptr, Int, Esc, Continue, Clean, Simple, EndsNumber;
    assert Key("event") != [] && Key("event")[0] == '\"' by { KeyStart("event"); }
    var r := "," + (Key("ret") + (Int(ret) + "}"));
    var a := "," + (Key("addr") + ("\"" + (Ptr(addr) + ("\"" + r))));
    LoadsMembers(Key("event") + ("\"" + ("unmap" + ("\"" + a))));
    var acc0: Record := map[];
    TextMember("event", "unmap", a, acc0);
    var acc1 := acc0["event" := Text("unmap")];
    NextKey("addr", "\"" + (Ptr(addr) + ("\"" + r)), acc1);
    TextMember("addr", Ptr(addr), r, acc1);
    var acc2 := acc1["addr" := Text(Ptr(addr))];
    NextKey("ret", Int(ret) + "}", acc2);
    NumberMember("ret", ret, "}", acc2);
    ContinueEnds("", acc2["ret" := Number(ret)]);
    assert "}" + "" == "}" && SkipBlanks("") == "";
    UnmapRecord(addr, ret);
  }

  // ---- one event, one line -------------------------------------------------

  predicate OneLine(s: string)
  {
    '\n' !in s && '\r' !in s
  }

  lemma {:induction false} EscIsOneLine(s: string)
    ensures OneLine(Esc(s))
  {
    if s != [] {
      EscIsOneLine(s[1..]);
      assert OneLine(EscChar(s[0]));
    }
  }

  lemma {:induction false} NumeralIsOneLine(v: nat, base: nat)
    requires 2 <= base <= 16
    ensures OneLine(Numeral(v, base))
  {
    if v >= base { NumeralIsOneLine(Quot(v, base), base); }
  }

  lemma LiteralsAreOneLine()
    ensures OneLine(OpenEvent()) && OneLine(ThenName()) && OneLine(ThenAddr()) && OneLine(ThenSize())
    ensures OneLine(ThenFlags()) && OneLine(ThenRet()) && OneLine(ThenPg())
    ensures OneLine("\"") && OneLine("}") && OneLine("")
  {}

  lemma NumbersAreOneLine(addr: nat, size: nat, v: int)
    ensures OneLine(Ptr(addr)) && OneLine(Dec(size)) && OneLine(Int(v))
  {
    NumeralIsOneLine(addr, 16);
    NumeralIsOneLine(size, 10);
    NumeralIsOneLine(if v < 0 then -v else v, 10);
    hide Numeral;
  }

  /** Whatever the names contain, an event has no line break in it. */
  lemma MapTextIsOneLine(op: string, name: Option<string>, addr: nat, size: nat, flags: int, ret: int,
                         pg: Option<string>)
    requires OneLine(op)
    ensures OneLine(MapText(op, name, addr, size, flags, ret, pg))
  {
    LiteralsAreOneLine();
    NumbersAreOneLine(addr, size, flags);
    NumbersAreOneLine(addr, size, ret);
    EscIsOneLine(OrEmpty(name));
    EscIsOneLine(OrEmpty(pg));
    hide Ptr, Dec, Int, Esc, OpenEvent, ThenName, ThenAddr, ThenSize, ThenFlags, ThenRet, ThenPg;
  }

  // ---- sub in s -----------------------------------------------------------

  predicate OccursAt(s: string, sub: string, i: nat)
    requires i <= |s|
  {
    sub <= s[i..]
  }

  /** `sub in s` */
  predicate Contains(s: string, sub: string)
  {
    exists i :: 0 <= i <= |s| && OccursAt(s, sub, i)
  }

  // ---- str.strip -----------------------------------------------------------

  function Strip(s: string): string
  {
    StripRight(StripLeft(s))
  }

  predicate Blank(s: string)
  {
    forall i :: 0 <= i < |s| ==> IsSpace(s[i])
  }

  lemma BlankTail(a: string)
    requires a != "" && IsSpace(a[0])
    ensures Blank(a) <==> Blank(a[1..])
  {
    hide IsSpace;
    if Blank(a[1..]) {
      forall i | 0 <= i < |a| ensures IsSpace(a[i]) {
        if i > 0 { assert a[i] == a[1..][i - 1]; }
      }
    }
  }

  lemma {:induction false} StripLeftOf(a: string, x: string)
    requires x != "" && !IsSpace(x[0])
    ensures StripLeft(a + x) == StripLeft(a) + x
    ensures StripLeft(a) == "" <==> Blank(a)
    ensures StripLeft(a) != "" ==> !IsSpace(StripLeft(a)[0])
    ensures forall c :: c in StripLeft(a) ==> c in a
  {
    if a == "" {
      assert a + x == x;
    } else if IsSpace(a[0]) {
      StripLeftOf(a[1..], x);
      assert (a + x)[1..] == a[1..] + x;
      assert Blank(a) <==> Blank(a[1..]) by { BlankTail(a); }
    }
  }

  lemma {:induction false} StripRightOf(a: string, x: string)
    requires x != "" && !IsSpace(x[0])
    ensures StripRight(a + x) == a + StripRight(x)
    ensures StripRight(x) != "" && StripRight(x) <= x && Blank(x[|StripRight(x)|..])
  {
    if IsSpace(x[|x| - 1]) {
      var y := x[..|x| - 1];
      StripRightOf(a, y);
      assert (a + x)[..|a + x| - 1] == a + y;
      var k := |StripRight(y)|;
      forall i | 0 <= i < |x[k..]| ensures IsSpace(x[k..][i]) {
        if i < |y| - k { assert x[k..][i] == y[k..][i]; }
      }
    }
  }

  /** Stripping a line around something that does not begin with white space. */
  lemma StripAround(a: string, x: string)
    requires x != "" && !IsSpace(x[0])
    ensures Strip(a + x) == StripLeft(a) + StripRight(x)
  {
    StripLeftOf(a, x);
    StripRightOf(StripLeft(a), x);
    hide StripLeft, StripRight;
  }

  /** Behind something that does not end with white space, only blanks are stripped. */
  lemma {:induction false} StripBehind(p: string, t: string)
    requires p != "" && !IsSpace(p[|p| - 1])
    ensures StripRight(p + t) == p + StripRight(t)
    ensures StripRight(t) == "" <==> Blank(t)
    ensures StripRight(t) != "" ==> !IsSpace(StripRight(t)[|StripRight(t)| - 1])
  {
    if t == "" {
      assert p + t == p;
    } else if IsSpace(t[|t| - 1]) {
      var u := t[..|t| - 1];
      StripBehind(p, u);
      assert (p + t)[..|p + t| - 1] == p + u;
      if Blank(u) {
        assert forall i :: 0 <= i < |t| - 1 ==> t[i] == u[i];
      }
      if Blank(t) {
        assert forall i :: 0 <= i < |u| ==> u[i] == t[i];
      }
    }
  }

  lemma {:induction false} ContainsLeft(s: string, sub: string)
    requires sub != "" && !IsSpace(sub[0])
    ensures Contains(StripLeft(s), sub) <==> Contains(s, sub)
  {
    if s != "" && IsSpace(s[0]) {
      ContainsLeft(s[1..], sub);
      if Contains(s, sub) {
        var i :| 0 <= i <= |s| && OccursAt(s, sub, i);
        assert s[i] == sub[0];
        assert s[1..][i - 1..] == s[i..] && OccursAt(s[1..], sub, i - 1);
      }
      if Contains(s[1..], sub) {
        var i :| 0 <= i <= |s[1..]| && OccursAt(s[1..], sub, i);
        assert s[i + 1..] == s[1..][i..] && OccursAt(s, sub, i + 1);
      }
    }
  }

  lemma {:induction false} ContainsRight(s: string, sub: string)
    requires sub != "" && !IsSpace(sub[|sub| - 1])
    ensures Contains(StripRight(s), sub) <==> Contains(s, sub)
  {
    if s != "" && IsSpace(s[|s| - 1]) {
      var u := s[..|s| - 1];
      ContainsRight(u, sub);
      if Contains(s, sub) {
        var i :| 0 <= i <= |s| && OccursAt(s, sub, i);
        assert s[i..][|sub| - 1] == sub[|sub| - 1];
        assert i + |sub| <= |u|;
        assert u[i..] == s[i..|s| - 1] && OccursAt(u, sub, i);
      }
      if Contains(u, sub) {
        var i :| 0 <= i <= |u| && OccursAt(u, sub, i);
        assert s[i..] == u[i..] + s[|s| - 1..] && OccursAt(s, sub, i);
      }
    }
  }

  /** A tag in its brackets survives stripping. */
  lemma ContainsStripped(s: string, sub: string)
    requires sub != "" && !IsSpace(sub[0]) && !IsSpace(sub[|sub| - 1])
    ensures Contains(Strip(s), sub) <==> Contains(s, sub)
  {
    hide Contains;
    ContainsLeft(s, sub);
    ContainsRight(StripLeft(s), sub);
  }

  // ---- unwrap_log ----------------------------------------------------------

  /** s.find(c), with |s| for not found. */
  function Find(s: string, c: char): (i: nat)
    ensures i <= |s| && c !in s[..i]
    ensures i < |s| ==> s[i] == c
  {
    if s == [] || s[0] == c then 0 else 1 + Find(s[1..], c)
  }

  /** The text unwrap_log decodes. */
  ghost function Extract(line: string, tag: string): Option<string>
  {
    var rest := line[Find(line, '{')..];
    if (tag != "" && !Contains(line, "[" + tag + "]")) || rest == [] then None
    else
      match End(rest)
      case None => None
      case Some(e) => Some(rest[..e])
  }

  /** What the analyser makes of a line. */
  ghost function ReadRecord(line: string, tag: string): Option<Record>
  {
    match Extract(line, tag)
    case None => None
    case Some(p) => Loads(p)
  }

  /** The payload part of unwrap_log: the record of the first object on a tagged line. */
  method UnwrapPayload(line: string, tag: string) returns (rec: Option<Record>)
    ensures rec == ReadRecord(line, tag)
  {
    hide Loads;
    if tag != "" && !Contains(line, "[" + tag + "]") {
      return None;
    }
    var i := Find(line, '{');
    if i == |line| {
      return None;
    }
    var end := JsonObjectEnd(line, i);
    if end < 0 {
      return None;
    }
    assert line[i..][..end - i] == line[i..end];
    return Loads(line[i..end]);
  }

  lemma {:induction false} FindAfter(prefix: string, s: string, c: char)
    requires c !in prefix && s != [] && s[0] == c
    ensures Find(prefix + s, c) == |prefix|
  {
    if prefix == [] {
      assert prefix + s == s;
    } else {
      FindAfter(prefix[1..], s, c);
      assert prefix[0] in prefix;
      assert (prefix + s)[1..] == prefix[1..] + s;
    }
  }

  /** Emitter and scanner are inverse: from any line that carries the tag, with any
      log prefix free of braces before the event and any text behind it, exactly the
      event's text is taken out. */
  lemma ExtractsTheEvent(prefix: string, p: string, suffix: string, tag: string)
    requires '{' !in prefix && OpenUntilLastBrace(p) && p[0] == '{'
    requires tag == "" || Contains(prefix + p + suffix, "[" + tag + "]")
    ensures Extract(prefix + p + suffix, tag) == Some(p)
  {
    assert p != [] && (p + suffix)[0] == '{';
    hide OpenUntilLastBrace, Find, Contains;
    assert prefix + p + suffix == prefix + (p + suffix);
    FindAfter(prefix, p + suffix, '{');
    assert (prefix + (p + suffix))[|prefix|..] == p + suffix;
    ClosesAtItsEnd(p, suffix);
    assert (p + suffix)[..|p|] == p;
  }

  /** A truncated event with nothing behind it gives no record. */
  lemma TruncatedEventIsDropped(prefix: string, p: string, k: nat, tag: string)
    requires '{' !in prefix && OpenUntilLastBrace(p) && p[0] == '{' && k < |p|
    ensures Extract(prefix + p[..k], tag).None?
  {
    if k > 0 {
      FindAfter(prefix, p[..k], '{');
      assert (prefix + p[..k])[|prefix|..] == p[..k];
      hide OpenUntilLastBrace, Find, Contains;
      PrefixNeverCloses(p, k);
    } else {
      assert prefix + p[..0] == prefix;
      assert Find(prefix, '{') == |prefix|;
    }
  }

  /** The whole way round for a map event: printed through its 512-byte buffer, embedded
      in a dirty line, extracted and decoded, every field comes back if the names are
      clean and the buffer did not cut the event; otherwise nothing does. (A cut event
      is taken to end its line; module DataPlaneLog says what can follow it.) */
  lemma MapSurvivesTheLog(prefix: string, suffix: string, tag: string, op: string, name: Option<string>, addr: nat,
                          size: nat, flags: int, ret: int, pg: Option<string>)
    requires var p := MapText(op, name, addr, size, flags, ret, pg);
      && Simple(op) && '{' !in prefix && (|p| > 511 ==> suffix == "")
      && (tag == "" || Contains(prefix + Printed(p, 512) + suffix, "[" + tag + "]"))
    ensures var p := MapText(op, name, addr, size, flags, ret, pg);
      ReadRecord(prefix + Printed(p, 512) + suffix, tag)
      == if Clean(OrEmpty(name)) && Clean(OrEmpty(pg)) && |p| <= 511
         then Some(MapRecord(op, name, addr, size, flags, ret, pg))
         else None
  {
    var p := MapText(op, name, addr, size, flags, ret, pg);
    MapTextOpen(op, name, addr, size, flags, ret, pg);
    assert p[0] == '{' by { MapTextRegroups(op, name, addr, size, flags, ret, pg); }
    hide MapText, Contains, Extract, Loads, MapRecord, Clean, OpenUntilLastBrace;
    if |p| <= 511 {
      assert Printed(p, 512) == p;
      ExtractsTheEvent(prefix, p, suffix, tag);
      MapRoundTrip(op, name, addr, size, flags, ret, pg);
    } else {
      assert prefix + Printed(p, 512) + suffix == prefix + p[..511];
      TruncatedEventIsDropped(prefix, p, 511, tag);
    }
  }

  // ---- load_records --------------------------------------------------------

  /** What the prefix of a log line says: who wrote it, and when. */
  datatype Stamp = Stamp(pid: string, ts: int)

  /** The fields that unwrap_log adds where the record has none of its own. */
  function Stamped(r: Record, stamp: Option<Stamp>): Record
  {
    match stamp
    case None => r
    case Some(x) =>
      var r1 := if "pid" in r then r else r["pid" := Text(x.pid)];
      if "ts_ns" in r1 then r1 else r1["ts_ns" := Number(x.ts)]
  }

  /** A record's own process and time stay; the line's are taken where it has none. */
  lemma StampFillsIn(r: Record, x: Stamp)
    ensures var r' := Stamped(r, Some(x));
      && r'.Keys == r.Keys + {"pid", "ts_ns"} && (forall k :: k in r ==> r'[k] == r[k])
      && ("pid" !in r ==> r'["pid"] == Text(x.pid)) && ("ts_ns" !in r ==> r'["ts_ns"] == Number(x.ts))
  {}

  /** A line of a file, and what the prefix expressions find in it. */
  datatype LogLine = LogLine(text: string, stamp: Option<Stamp>)

  /** One line: stripped, and decoded whole if it begins with a brace. */
  ghost function ReadLine(line: LogLine, tag: string): Option<Record>
  {
    var s := Strip(line.text);
    if s == "" then None
    else if s[0] == '{' then Loads(s)
    else
      match ReadRecord(s, tag)
      case None => None
      case Some(r) => Some(Stamped(r, line.stamp))
  }

  ghost function ReadLines(lines: seq<LogLine>, tag: string): seq<Record>
  {
    if lines == [] then []
    else
      var n := |lines| - 1;
      ReadLines(lines[..n], tag) + match ReadLine(lines[n], tag) case None => [] case Some(r) => [r]
  }

  /** How many lines begin like a record and are none. */
  function BadLines(lines: seq<LogLine>): nat
  {
    if lines == [] then 0
    else
      var s := Strip(lines[|lines| - 1].text);
      BadLines(lines[..|lines| - 1]) + if s != "" && s[0] == '{' && Loads(s).None? then 1 else 0
  }

  /** The loop of load_records over the lines of a file. */
  method LoadRecords(lines: seq<LogLine>, tag: string) returns (records: seq<Record>, bad: nat)
    ensures records == ReadLines(lines, tag) && bad == BadLines(lines)
  {
    hide Strip, Loads, Stamped, Extract;
    records, bad := [], 0;
    for k := 0 to |lines|
      invariant records == ReadLines(lines[..k], tag) && bad == BadLines(lines[..k])
    {
      assert lines[..k + 1][..k] == lines[..k];
      var line := Strip(lines[k].text);
      if line == "" {
        continue;
      }
      if line[0] == '{' {
        var rec := Loads(line);
        if rec.Some? {
          records := records + [rec.value];
        } else {
          bad := bad + 1;
        }
        continue;
      }
      var rec := UnwrapPayload(line, tag);
      if rec.Some? {
        records := records + [Stamped(rec.value, lines[k].stamp)];
      }
    }
    assert lines[..|lines|] == lines;
  }
}
