/** What every text that the reader accepts looks like, and that the brace scanner and
    the reader agree on where an object ends (tools/analyze_profile.py, lines 134-179). */
module JsonShape {
  import opened Wrappers
  import opened JsonReader
  import opened JsonScan

  // ---- where an object ends ------------------------------------------------

  /** What is left of s once the scanner has closed its object, if it does. */
  function Left(st: Scanner, s: string): Option<string>
    decreases |s|
  {
    if st.Closed? then Some(s) else if s == [] then None else Left(Feed(st, s[0]), s[1..])
  }

  function At(depth: int): Scanner
  {
    Scanning(depth, false, false)
  }

  function InString(depth: int): Scanner
  {
    Scanning(depth, true, false)
  }

  lemma {:induction false} LeftIsEnd(st: Scanner, s: string)
    requires st.Scanning?
    ensures FeedAll(st, s) == Closed <==> Left(st, s).Some?
    ensures Left(st, s).Some? ==>
              var k := |s| - |Left(st, s).value|;
              && 0 < k <= |s| && s[k..] == Left(st, s).value
              && FeedAll(st, s[..k]) == Closed && FeedAll(st, s[..k - 1]) != Closed
    decreases |s|
  {
    hide FeedAll;
    if s == [] {
      FeedNone(st);
    } else {
      var st', t := Feed(st, s[0]), s[1..];
      FeedOne(st, s[0]);
      FeedConcat(st, [s[0]], t);
      assert s == [s[0]] + t;
      if st'.Closed? {
        StaysClosed(t);
        FeedNone(st);
        assert s[..1] == [s[0]] && s[..0] == "";
      } else {
        LeftIsEnd(st', t);
        if Left(st', t).Some? {
          var k := |t| - |Left(st', t).value|;
          FeedConcat(st, [s[0]], t[..k]);
          FeedConcat(st, [s[0]], t[..k - 1]);
          assert s[..k + 1] == [s[0]] + t[..k] && s[..k] == [s[0]] + t[..k - 1];
        }
      }
    }
  }

  lemma LeftStep(st: Scanner, s: string)
    requires st.Scanning? && s != []
    ensures Left(st, s) == Left(Feed(st, s[0]), s[1..])
  {}

  lemma {:induction false} BlanksLeft(d: int, s: string)
    ensures Left(At(d), s) == Left(At(d), SkipBlanks(s))
    decreases |s|
  {
    if s != [] && IsBlank(s[0]) {
      BlanksLeft(d, s[1..]);
    }
  }

  lemma {:induction false} QuietLeft(d: int, s: string, rest: string)
    requires |rest| <= |s| && s[|s| - |rest|..] == rest
    requires forall i :: 0 <= i < |s| - |rest| ==> Quiet(s[i])
    ensures Left(At(d), s) == Left(At(d), rest)
    decreases |s|
  {
    if |rest| == |s| {
      assert s == rest;
    } else {
      assert Quiet(s[0]);
      assert s[1..][|s| - 1 - |rest|..] == rest;
      QuietLeft(d, s[1..], rest);
    }
  }

  lemma EscapeLeft(d: int, s: string)
    requires |s| >= 2 && s[0] == '\\'
    ensures Left(InString(d), s) == Left(InString(d), s[2..])
  {
    LeftStep(InString(d), s);
    LeftStep(Scanning(d, true, true), s[1..]);
    assert s[1..][1..] == s[2..];
  }

  lemma HexLeft(d: int, s: string)
    requires FourHex(s)
    ensures Left(InString(d), s) == Left(InString(d), s[4..])
  {
    LeftStep(InString(d), s);
    LeftStep(InString(d), s[1..]);
    LeftStep(InString(d), s[2..]);
    LeftStep(InString(d), s[3..]);
    assert s[1..][1..] == s[2..] && s[2..][1..] == s[3..] && s[3..][1..] == s[4..];
  }

  lemma {:induction false} StringLeft(d: int, s: string)
    requires ParseString(s).Some?
    ensures Left(InString(d), s) == Left(At(d), ParseString(s).value.1)
    decreases |s|
  {
    hide Unescape, HexChar, IsHex;
    if s[0] == '\"' {
      LeftStep(InString(d), s);
    } else if s[0] == '\\' {
      EscapeLeft(d, s);
      if s[1] == 'u' {
        HexLeft(d, s[2..]);
        assert s[2..][4..] == s[6..];
        StringLeft(d, s[6..]);
      } else {
        StringLeft(d, s[2..]);
      }
    } else {
      LeftStep(InString(d), s);
      StringLeft(d, s[1..]);
    }
  }

  predicate QuietRun(s: string, n: nat)
  {
    n <= |s| && forall i :: 0 <= i < n ==> Quiet(s[i])
  }

  lemma WordQuiet(w: string, s: string)
    requires w <= s && forall i :: 0 <= i < |w| ==> Quiet(w[i])
    ensures QuietRun(s, |w|) && |s| - |s[|w|..]| == |w|
  {
    assert forall i :: 0 <= i < |w| ==> s[i] == w[i];
  }

  /** The word a literal is. */
  lemma LiteralWord(s: string) returns (w: string)
    requires ParseLiteral(s).Some?
    ensures w <= s && ParseLiteral(s).value.1 == s[|w|..]
    ensures w == "true" || w == "false" || w == "null" || w == "NaN" || w == "Infinity" || w == "-Infinity"
  {
    w := if "true" <= s then "true" else if "false" <= s then "false" else if "null" <= s then "null"
         else if "NaN" <= s then "NaN" else if "Infinity" <= s then "Infinity" else "-Infinity";
  }

  lemma WordsAreQuiet(w: string)
    requires w == "true" || w == "false" || w == "null" || w == "NaN" || w == "Infinity" || w == "-Infinity"
    ensures forall i :: 0 <= i < |w| ==> Quiet(w[i])
  {}

  lemma LiteralQuiet(s: string)
    requires ParseLiteral(s).Some?
    ensures var rest := ParseLiteral(s).value.1;
      |rest| <= |s| && s[|s| - |rest|..] == rest && forall i :: 0 <= i < |s| - |rest| ==> Quiet(s[i])
  {
    hide ParseLiteral, Quiet;
    var w := LiteralWord(s);
    WordsAreQuiet(w);
    WordQuiet(w, s);
  }

  lemma RunAppend(s: string, n: nat, k: nat)
    requires QuietRun(s, n) && QuietRun(s[n..], k)
    ensures QuietRun(s, n + k)
  {
    forall i | n <= i < n + k ensures Quiet(s[i]) {
      assert s[i] == s[n..][i - n];
    }
  }

  lemma RunIs(s: string, n: nat)
    ensures QuietRun(s, n) <==> n <= |s| && forall i :: 0 <= i < n ==> Quiet(s[i])
  {}

  lemma DigitsQuiet(s: string, n: nat)
    requires n <= |s| && forall i :: 0 <= i < n ==> IsDigit(s[i])
    ensures QuietRun(s, n)
  {}

  lemma WholeRun(s: string)
    ensures QuietRun(s, |Whole(s)|)
  {
    DigitsAreDigits(s);
    assert forall i :: 0 <= i < |Whole(s)| ==> s[i] == Whole(s)[i];
    hide Whole;
    DigitsQuiet(s, |Whole(s)|);
  }

  lemma DigitsRun(s: string)
    ensures QuietRun(s, |Digits(s)|)
  {
    DigitsAreDigits(s);
    hide Digits;
    assert forall i :: 0 <= i < |Digits(s)| ==> s[i] == Digits(s)[i];
    DigitsQuiet(s, |Digits(s)|);
  }

  lemma FractionRun(s: string)
    ensures QuietRun(s, Fraction(s))
  {
    if Fraction(s) > 0 {
      DigitsRun(s[1..]);
      assert QuietRun(s, 1);
      RunAppend(s, 1, |Digits(s[1..])|);
    }
  }

  lemma ExponentRun(s: string)
    ensures QuietRun(s, Exponent(s))
  {
    if Exponent(s) > 0 {
      var sign := if |s| > 1 && s[1] in ['+', '-'] then 2 else 1;
      DigitsRun(s[sign..]);
      assert QuietRun(s, sign);
      RunAppend(s, sign, |Digits(s[sign..])|);
    }
  }

  lemma InexactRun(s: string)
    ensures QuietRun(s, Inexact(s))
  {
    hide Fraction, Exponent, QuietRun;
    FractionRun(s);
    ExponentRun(s[Fraction(s)..]);
    RunAppend(s, Fraction(s), Exponent(s[Fraction(s)..]));
  }

  lemma NumberQuiet(s: string)
    requires ParseNumber(s).Some?
    ensures var rest := ParseNumber(s).value.1;
      |rest| <= |s| && s[|s| - |rest|..] == rest && forall i :: 0 <= i < |s| - |rest| ==> Quiet(s[i])
  {
    hide Whole, Inexact, DecValue, QuietRun;
    var m := if s[0] == '-' then 1 else 0;
    var n := m + |Whole(s[m..])|;
    var x := Inexact(s[n..]);
    assert ParseNumber(s).value.1 == s[n + x..];
    RunIs(s, m);
    WholeRun(s[m..]);
    RunAppend(s, m, |Whole(s[m..])|);
    InexactRun(s[n..]);
    RunAppend(s, n, x);
    RunIs(s, n + x);
  }

  /** A number or a literal: quiet characters only. */
  lemma PlainValueQuiet(s: string)
    requires ParseValue(s).Some? && s[0] !in ['\"', '{', '[']
    ensures var rest := ParseValue(s).value.1;
      |rest| <= |s| && s[|s| - |rest|..] == rest && forall i :: 0 <= i < |s| - |rest| ==> Quiet(s[i])
  {
    hide ParseObject, ParseArray, ParseString, ParseLiteral, ParseNumber, Quiet;
    if ParseLiteral(s).Some? {
      LiteralQuiet(s);
    } else {
      NumberQuiet(s);
    }
  }

  // The scanner passes over whatever the reader reads.

  lemma {:induction false} ValueLeft(d: int, s: string)
    requires d >= 1 && ParseValue(s).Some?
    ensures Left(At(d), s) == Left(At(d), ParseValue(s).value.1)
    decreases |s|, 0
  {
    hide ParseString, ParseObject, ParseArray, ParseLiteral, ParseNumber;
    if s[0] == '\"' {
      LeftStep(At(d), s);
      StringLeft(d, s[1..]);
    } else if s[0] == '{' {
      LeftStep(At(d), s);
      ObjectLeft(d + 1, s[1..]);
    } else if s[0] == '[' {
      LeftStep(At(d), s);
      ArrayLeft(d, s[1..]);
    } else {
      PlainValueQuiet(s);
      QuietLeft(d, s, ParseValue(s).value.1);
    }
  }

  /** What the closing brace of an object at depth d leaves. */
  function Out(d: int, rest: string): Option<string>
    requires d >= 1
  {
    if d == 1 then Some(rest) else Left(At(d - 1), rest)
  }

  lemma CloseLeft(d: int, s: string)
    requires d >= 1 && s != [] && s[0] == '}'
    ensures Left(At(d), s) == Out(d, s[1..])
  {
    LeftStep(At(d), s);
  }

  lemma {:induction false} ObjectLeft(d: int, s: string)
    requires d >= 1 && ParseObject(s).Some?
    ensures Left(At(d), s) == Out(d, ParseObject(s).value.1)
    decreases |s|, 3
  {
    hide ParseMembers, SkipBlanks, Left, Out;
    BlanksLeft(d, s);
    var t := SkipBlanks(s);
    if t != [] && t[0] == '}' {
      CloseLeft(d, t);
    } else {
      MembersLeft(d, t, map[]);
    }
  }

  lemma {:induction false} MembersLeft(d: int, s: string, acc: Record)
    requires d >= 1 && ParseMembers(s, acc).Some?
    ensures Left(At(d), s) == Out(d, ParseMembers(s, acc).value.1)
    decreases |s|, 2
  {
    hide ParseString, ParseValue, Continue, SkipBlanks, Left, Out;
    LeftStep(At(d), s);
    StringLeft(d, s[1..]);
    var (key, rest) := ParseString(s[1..]).value;
    BlanksLeft(d, rest);
    var colon := SkipBlanks(rest);
    LeftStep(At(d), colon);
    BlanksLeft(d, colon[1..]);
    var u := SkipBlanks(colon[1..]);
    ValueLeft(d, u);
    var (v, more) := ParseValue(u).value;
    ContinueLeft(d, more, acc[key := v]);
  }

  lemma {:induction false} ContinueLeft(d: int, s: string, acc: Record)
    requires d >= 1 && Continue(s, acc).Some?
    ensures Left(At(d), s) == Out(d, Continue(s, acc).value.1)
    decreases |s|, 3
  {
    hide ParseMembers, SkipBlanks, Left, Out;
    BlanksLeft(d, s);
    var t := SkipBlanks(s);
    if t[0] == '}' {
      CloseLeft(d, t);
    } else {
      LeftStep(At(d), t);
      BlanksLeft(d, t[1..]);
      MembersLeft(d, SkipBlanks(t[1..]), acc);
    }
  }

  lemma {:induction false} ArrayLeft(d: int, s: string)
    requires d >= 1 && ParseArray(s).Some?
    ensures Left(At(d), s) == Left(At(d), ParseArray(s).value.1)
    decreases |s|, 2
  {
    hide ParseElems, SkipBlanks, Left;
    BlanksLeft(d, s);
    var t := SkipBlanks(s);
    if t != [] && t[0] == ']' {
      LeftStep(At(d), t);
    } else {
      ElemsLeft(d, t, []);
    }
  }

  lemma {:induction false} ElemsLeft(d: int, s: string, acc: seq<Value>)
    requires d >= 1 && ParseElems(s, acc).Some?
    ensures Left(At(d), s) == Left(At(d), ParseElems(s, acc).value.1)
    decreases |s|, 1
  {
    hide ParseValue, SkipBlanks, Left;
    ValueLeft(d, s);
    var (v, more) := ParseValue(s).value;
    BlanksLeft(d, more);
    var t := SkipBlanks(more);
    LeftStep(At(d), t);
    if t[0] == ',' {
      BlanksLeft(d, t[1..]);
      ElemsLeft(d, SkipBlanks(t[1..]), acc + [v]);
    }
  }

  lemma LoadsCloses(s: string)
    requires Loads(s).Some?
    ensures End(s).Some? && SkipBlanks(s[End(s).value..]) == ""
  {
    hide FeedAll, ParseObject, SkipBlanks;
    var (m, rest) := ParseObject(s[1..]).value;
    ObjectLeft(1, s[1..]);
    LeftStep(START, s);
    LeftIsEnd(START, s);
    assert ClosesAt(s, |s| - |rest|);
    EndIsUnique(s, |s| - |rest|);
  }

  /** Where the reader reads an object, the scanner finds its end, whatever text follows;
      only blanks are behind it; and no shorter text would have been read. */
  lemma ReaderAndScannerAgree(s: string, t: string)
    requires Loads(s).Some?
    ensures End(s).Some? && End(s + t) == End(s) && SkipBlanks(s[End(s).value..]) == ""
    ensures forall k :: 0 <= k < End(s).value ==> Loads(s[..k]).None?
  {
    hide FeedAll;
    LoadsCloses(s);
    var e := End(s).value;
    assert (s + t)[..e] == s[..e] && (s + t)[..e - 1] == s[..e - 1];
    EndIsUnique(s + t, e);
    forall k | 0 <= k < e ensures Loads(s[..k]).None? {
      if Loads(s[..k]).Some? {
        LoadsCloses(s[..k]);
        var f := End(s[..k]).value;
        assert s[..k][..f] == s[..f] && s[..k][..f - 1] == s[..f - 1];
        EndIsUnique(s, f);
      }
    }
  }

  /** A cut object is not read. */
  lemma PrefixNotRead(p: string, k: nat)
    requires OpenUntilLastBrace(p) && k < |p|
    ensures Loads(p[..k]).None?
  {
    hide FeedAll, Loads;
    PrefixNeverCloses(p, k);
    if Loads(p[..k]).Some? {
      ReaderAndScannerAgree(p[..k], "");
    }
  }

  // ---- what stands inside --------------------------------------------------

  predicate EscapeOk(c: char)
  {
    c == 'u' || Unescape(c).Some?
  }

  predicate FollowsString(s: string)
  {
    s == [] || s[0] in [':', ',', '}', ']']
  }

  /** No raw control character stands in a string; a backslash is followed by a character
      that can be escaped, a string by a colon, a comma or a closing bracket. */
  predicate Tidy(inStr: bool, esc: bool, s: string)
    decreases |s|
  {
    if s == [] then true
    else if !inStr then Tidy(s[0] == '\"', false, s[1..])
    else if esc then EscapeOk(s[0]) && Tidy(true, false, s[1..])
    else if s[0] == '\"' then FollowsString(SkipBlanks(s[1..])) && Tidy(false, false, s[1..])
    else s[0] >= ' ' && Tidy(true, s[0] == '\\', s[1..])
  }

  lemma {:induction false} BlanksTidy(s: string)
    requires Tidy(false, false, SkipBlanks(s))
    ensures Tidy(false, false, s)
    decreases |s|
  {
    if s != [] && IsBlank(s[0]) {
      BlanksTidy(s[1..]);
    }
  }

  lemma {:induction false} QuietTidy(s: string, rest: string)
    requires |rest| <= |s| && s[|s| - |rest|..] == rest && Tidy(false, false, rest)
    requires forall i :: 0 <= i < |s| - |rest| ==> Quiet(s[i])
    ensures Tidy(false, false, s)
    decreases |s|
  {
    if |rest| == |s| {
      assert s == rest;
    } else {
      assert Quiet(s[0]);
      assert s[1..][|s| - 1 - |rest|..] == rest;
      QuietTidy(s[1..], rest);
    }
  }

  lemma TidyStep(inStr: bool, esc: bool, s: string)
    requires s != []
    ensures Tidy(inStr, esc, s) <==>
              if !inStr then Tidy(s[0] == '\"', false, s[1..])
              else if esc then EscapeOk(s[0]) && Tidy(true, false, s[1..])
              else if s[0] == '\"' then FollowsString(SkipBlanks(s[1..])) && Tidy(false, false, s[1..])
              else s[0] >= ' ' && Tidy(true, s[0] == '\\', s[1..])
  {
    hide EscapeOk, FollowsString, SkipBlanks;
  }

  lemma HexTidy(s: string)
    requires FourHex(s) && Tidy(true, false, s[4..])
    ensures Tidy(true, false, s)
  {
    hide Tidy;
    TidyStep(true, false, s);
    TidyStep(true, false, s[1..]);
    TidyStep(true, false, s[2..]);
    TidyStep(true, false, s[3..]);
    assert s[1..][1..] == s[2..] && s[2..][1..] == s[3..] && s[3..][1..] == s[4..];
  }

  lemma {:induction false} StringTidy(s: string)
    requires ParseString(s).Some?
    requires var rest := ParseString(s).value.1; FollowsString(SkipBlanks(rest)) && Tidy(false, false, rest)
    ensures Tidy(true, false, s)
    decreases |s|
  {
    hide Tidy, FollowsString, HexChar, IsHex, Unescape, SkipBlanks;
    TidyStep(true, false, s);
    if s[0] == '\"' {
    } else if s[0] == '\\' {
      TidyStep(true, true, s[1..]);
      assert s[1..][1..] == s[2..];
      if s[1] == 'u' {
        StringTidy(s[6..]);
        assert s[2..][4..] == s[6..];
        HexTidy(s[2..]);
      } else {
        StringTidy(s[2..]);
      }
    } else {
      StringTidy(s[1..]);
    }
  }

  lemma {:induction false} ValueTidy(s: string)
    requires ParseValue(s).Some?
    requires var rest := ParseValue(s).value.1; FollowsString(SkipBlanks(rest)) && Tidy(false, false, rest)
    ensures Tidy(false, false, s)
    decreases |s|, 0
  {
    hide ParseString, ParseObject, ParseArray, ParseLiteral, ParseNumber, Tidy, FollowsString, SkipBlanks;
    TidyStep(false, false, s);
    if s[0] == '\"' {
      StringTidy(s[1..]);
    } else if s[0] == '{' {
      ObjectTidy(s[1..]);
    } else if s[0] == '[' {
      ArrayTidy(s[1..]);
    } else {
      PlainValueQuiet(s);
      QuietTidy(s, ParseValue(s).value.1);
    }
  }

  lemma {:induction false} ObjectTidy(s: string)
    requires ParseObject(s).Some? && Tidy(false, false, ParseObject(s).value.1)
    ensures Tidy(false, false, s)
    decreases |s|, 3
  {
    hide ParseMembers, SkipBlanks, Tidy;
    var t := SkipBlanks(s);
    if t != [] && t[0] == '}' {
      TidyStep(false, false, t);
    } else {
      MembersTidy(t, map[]);
    }
    BlanksTidy(s);
  }

  lemma {:induction false} MembersTidy(s: string, acc: Record)
    requires ParseMembers(s, acc).Some? && Tidy(false, false, ParseMembers(s, acc).value.1)
    ensures Tidy(false, false, s)
    decreases |s|, 2
  {
    hide ParseString, ParseValue, Continue, SkipBlanks, Tidy;
    var (key, rest) := ParseString(s[1..]).value;
    var colon := SkipBlanks(rest);
    var u := SkipBlanks(colon[1..]);
    var (v, more) := ParseValue(u).value;
    ContinueTidy(more, acc[key := v]);
    ValueTidy(u);
    BlanksTidy(colon[1..]);
    TidyStep(false, false, colon);
    BlanksTidy(rest);
    StringTidy(s[1..]);
    TidyStep(false, false, s);
  }

  lemma {:induction false} ContinueTidy(s: string, acc: Record)
    requires Continue(s, acc).Some? && Tidy(false, false, Continue(s, acc).value.1)
    ensures Tidy(false, false, s) && FollowsString(SkipBlanks(s))
    decreases |s|, 3
  {
    hide ParseMembers, SkipBlanks, Tidy;
    var t := SkipBlanks(s);
    TidyStep(false, false, t);
    if t[0] == ',' {
      MembersTidy(SkipBlanks(t[1..]), acc);
      BlanksTidy(t[1..]);
    }
    BlanksTidy(s);
  }

  lemma {:induction false} ArrayTidy(s: string)
    requires ParseArray(s).Some? && Tidy(false, false, ParseArray(s).value.1)
    ensures Tidy(false, false, s)
    decreases |s|, 2
  {
    hide ParseElems, SkipBlanks, Tidy;
    var t := SkipBlanks(s);
    if t != [] && t[0] == ']' {
      TidyStep(false, false, t);
    } else {
      ElemsTidy(t, []);
    }
    BlanksTidy(s);
  }

  lemma {:induction false} ElemsTidy(s: string, acc: seq<Value>)
    requires ParseElems(s, acc).Some? && Tidy(false, false, ParseElems(s, acc).value.1)
    ensures Tidy(false, false, s)
    decreases |s|, 1
  {
    hide ParseValue, SkipBlanks, Tidy;
    var (v, more) := ParseValue(s).value;
    var t := SkipBlanks(more);
    TidyStep(false, false, t);
    if t[0] == ',' {
      ElemsTidy(SkipBlanks(t[1..]), acc + [v]);
      BlanksTidy(t[1..]);
    }
    BlanksTidy(more);
    ValueTidy(s);
  }

  lemma {:induction false} OnlyBlanksTidy(s: string)
    requires SkipBlanks(s) == ""
    ensures Tidy(false, false, s)
  {
    BlanksTidy(s);
  }

  lemma LoadsTidy(s: string)
    requires Loads(s).Some?
    ensures Tidy(false, false, s)
  {
    hide ParseObject, SkipBlanks, Tidy;
    OnlyBlanksTidy(ParseObject(s[1..]).value.1);
    ObjectTidy(s[1..]);
    TidyStep(false, false, s);
  }

  /** Where the scanner stands after a, the rest is tidy from there. */
  lemma {:induction false} TidyBehind(st: Scanner, a: string, b: string)
    requires st.Scanning? && Tidy(st.inStr, st.esc, a + b) && (st.esc ==> st.inStr) && FeedAll(st, a).Scanning?
    ensures var st' := FeedAll(st, a); Tidy(st'.inStr, st'.esc, b) && (st'.esc ==> st'.inStr)
    decreases |a|
  {
    hide FeedAll, Tidy;
    if a == [] {
      FeedNone(st);
      assert a + b == b;
    } else {
      assert (a + b)[1..] == a[1..] + b && a == [a[0]] + a[1..];
      FeedOne(st, a[0]);
      FeedConcat(st, [a[0]], a[1..]);
      if Feed(st, a[0]).Closed? {
        StaysClosed(a[1..]);
      }
      TidyStep(st.inStr, st.esc, a + b);
      TidyBehind(Feed(st, a[0]), a[1..], b);
    }
  }

  lemma LineStartUntidy(esc: bool, b: string)
    requires "{\"t" <= b
    ensures !Tidy(true, esc, b)
  {
    assert b[0] == '{' && b[1] == '\"' && b[2] == 't' && b[1..][0] == '\"' && b[1..][1..][0] == 't';
    hide Tidy;
    TidyStep(true, esc, b);
    TidyStep(true, false, b[1..]);
  }

  lemma ControlUntidy(esc: bool, b: string)
    requires b != [] && Tidy(true, esc, b)
    ensures b[0] >= ' '
  {
    hide SkipBlanks, FollowsString;
  }

  /** No text is read in which a raw control character stands inside a string, or in
      which a string is open where another line begins - an object whose first key starts
      with a letter t. */
  lemma NeverRead(a: string, b: string)
    requires Loads(a + b).Some? && FeedAll(START, a).Scanning? && FeedAll(START, a).inStr && b != []
    ensures b[0] >= ' '
    ensures !("{\"t" <= b)
  {
    hide FeedAll, Tidy, Loads;
    LoadsTidy(a + b);
    TidyBehind(START, a, b);
    var st := FeedAll(START, a);
    ControlUntidy(st.esc, b);
    if "{\"t" <= b {
      LineStartUntidy(st.esc, b);
    }
  }

  // ---- one object's text behind another's ----------------------------------

  ghost predicate NoStartHere(a: string)
  {
    match FeedAll(START, a)
    case Closed => true
    case Scanning(_, inStr, _) => inStr
  }

  /** Another line begins in s where it cannot: inside a string, or behind the object. */
  ghost predicate Hopeless(s: string)
  {
    exists a, b :: s == a + ("{\"t" + b) && NoStartHere(a)
  }

  lemma {:induction false} NotAllBlank(a: string, x: string)
    requires x != "" && !IsBlank(x[0])
    ensures SkipBlanks(a + x) != ""
  {
    if a == "" {
      assert a + x == x;
    } else {
      assert (a + x)[1..] == a[1..] + x;
      NotAllBlank(a[1..], x);
    }
  }

  lemma BehindTheEnd(a: string, x: string)
    requires End(a).Some? && x != "" && !IsBlank(x[0])
    ensures End(a + x).Some? && SkipBlanks((a + x)[End(a + x).value..]) != ""
  {
    hide FeedAll;
    var e := End(a).value;
    assert (a + x)[..e] == a[..e] && (a + x)[..e - 1] == a[..e - 1];
    EndIsUnique(a + x, e);
    assert (a + x)[e..] == a[e..] + x;
    NotAllBlank(a[e..], x);
  }

  /** Nothing of the kind is read. */
  lemma NotReadFrom(a: string, b: string)
    requires NoStartHere(a)
    ensures Loads(a + ("{\"t" + b)).None?
  {
    hide FeedAll, Loads, SkipBlanks;
    var x := "{\"t" + b;
    assert "{\"t" <= x;
    if Loads(a + x).Some? {
      if FeedAll(START, a).Closed? {
        ReaderAndScannerAgree(a + x, "");
        ClosedSomewhere(a);
        BehindTheEnd(a, x);
      } else {
        NeverRead(a, x);
      }
    }
  }

  /** An object that is still open: read by nobody. */
  ghost predicate StillOpen(s: string)
  {
    FeedAll(START, s).Scanning? && FeedAll(START, s).depth >= 1 && (FeedAll(START, s).esc ==> FeedAll(START, s).inStr)
  }

  lemma OpenNotRead(s: string, k: nat)
    requires StillOpen(s) && k <= |s|
    ensures Loads(s[..k]).None?
  {
    hide FeedAll, Loads;
    assert s[..|s|] == s;
    if Loads(s[..k]).Some? {
      ReaderAndScannerAgree(s[..k], "");
      ClosedSomewhere(s[..k]);
      StillClosed(s, k, |s|);
    }
  }

  /** Reading a text that begins with a brace from inside an object: as from the start,
      so much deeper. */
  lemma {:induction false} DepthShift(d: int, x: string)
    requires d >= 1 && (x == "" || x[0] == '{') && FeedAll(START, x).Scanning?
    ensures var st := FeedAll(START, x); FeedAll(At(d), x) == Scanning(d + st.depth, st.inStr, st.esc)
  {
    if x != "" {
      var n := |x| - 1;
      DepthShift(d, x[..n]);
      if n > 0 {
        DepthInside(x, n);
      }
    }
  }

  /** A whole object, or the first part of one, inside an object that is open. */
  lemma OpenInside(d: int, p: string, k: nat)
    requires d >= 1 && OpenUntilLastBrace(p) && p[0] == '{' && 0 < k <= |p|
    ensures var st := FeedAll(At(d), p[..k]); st.Scanning? && st.depth >= d && (st.esc ==> st.inStr)
  {
    var n := |p| - 1;
    if k <= n {
      hide FeedAll;
      if FeedAll(START, p[..k]).Closed? {
        StillClosed(p, k, n);
      }
      DepthInside(p, k);
      DepthShift(d, p[..k]);
    } else {
      assert p[..k] == p;
      assert p[0] == '{' ==> n > 0;
      DepthShift(d, p[..n]);
    }
  }

  /** Behind an object that is open, the start of another one leaves it open, or is
      hopeless. */
  lemma OpenThenMore(s: string, p: string, k: nat)
    requires StillOpen(s) && OpenUntilLastBrace(p) && "{\"t" <= p && 3 <= k <= |p|
    ensures StillOpen(s + p[..k]) || Hopeless(s + p[..k])
  {
    hide FeedAll;
    FeedConcat(START, s, p[..k]);
    var st := FeedAll(START, s);
    if st.inStr {
      assert p[..k] == "{\"t" + p[3..k];
      assert NoStartHere(s);
    } else {
      OpenInside(st.depth, p, k);
    }
  }

  /** What begins like a cut line stays unread, cut lines and blanks behind it or not. */
  lemma HopelessMore(s: string, x: string)
    requires Hopeless(s)
    ensures Hopeless(s + x)
  {
    hide NoStartHere;
    var a, b :| s == a + ("{\"t" + b) && NoStartHere(a);
    assert s + x == a + ("{\"t" + (b + x));
  }

  lemma HopelessNotRead(s: string)
    requires Hopeless(s)
    ensures Loads(s).None?
  {
    hide NoStartHere, Loads;
    var a, b :| s == a + ("{\"t" + b) && NoStartHere(a);
    NotReadFrom(a, b);
  }
}
