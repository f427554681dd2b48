/** The data-plane emitter (src/profiler/shm_profiler.c, lines 33-124 and 154-205):
    a bounded buffer on the stack, appended to by loops. It always holds exactly a
    prefix of what module EventText says the text would be. */
module EventBuffer {
  import opened Wrappers
  import opened Arithmetic
  import opened EventText

  lemma EscEmpty()
    ensures Esc("") == ""
  {}

  /** The characters of s, last first. */
  function Backwards(s: string): (r: string)
    ensures |r| == |s|
  {
    if s == [] then [] else Backwards(s[1..]) + [s[0]]
  }

  lemma {:induction false} BackwardsAppend(s: string, c: char)
    ensures Backwards(s + [c]) == [c] + Backwards(s)
  {
    if s == [] {
      assert ([c])[1..] == [];
    } else {
      BackwardsAppend(s[1..], c);
      assert (s + [c])[1..] == s[1..] + [c];
    }
  }

  lemma SmallQuot(v: nat, base: nat)
    requires v < base
    ensures v / base == 0 && v % base == v
  {}

  lemma NumeralStep(v: nat, base: nat)
    requires 2 <= base <= 16
    ensures v >= base ==> Numeral(v, base) == Numeral(Quot(v, base), base) + [Digit(Rem(v, base))]
    ensures v < base ==> Numeral(v, base) == [Digit(Rem(v, base))] && Quot(v, base) == 0
  {
    if v < base {
      assert v / base == 0 && v % base == v by { SmallQuot(v, base); }
    }
  }

  class Buf {
    const b: array<char>
    var len: nat
    ghost var ideal: string    // everything appended so far

    ghost predicate Valid()
      reads this, b
    {
      && b.Length > 0
      && len == Min(|ideal|, b.Length)
      && b[..len] == ideal[..len]
    }

    constructor (cap: nat)
      requires cap > 0
      ensures Valid() && ideal == "" && b.Length == cap && fresh(b)
    {
      b, len, ideal := new char[cap](_ => '\0'), 0, "";
    }

    /** b_raw: what does not fit is cut off, now and for ever. */
    method Raw(s: string)
      requires Valid()
      modifies this, b
      ensures Valid() && ideal == old(ideal) + s
    {
      var room := if len < b.Length then b.Length - len else 0;
      var n: nat := Min(|s|, room);
      for i := 0 to n
        invariant len == old(len) && ideal == old(ideal) && len + n <= b.Length
        invariant b[..len] == ideal[..len]
        invariant b[len..len + i] == s[..i]
      {
        b[len + i] := s[i];
        assert s[..i + 1] == s[..i] + [s[i]];
      }
      assert b[..len + n] == b[..len] + b[len..len + n];
      len := len + n;
      ideal := ideal + s;
    }

    method Ch(c: char)
      requires Valid()
      modifies this, b
      ensures Valid() && ideal == old(ideal) + [c]
    {
      Raw([c]);
    }

    method PutBackwards(t: array<char>, count: nat)
      requires Valid() && count <= t.Length && t != b
      modifies this, b
      ensures Valid() && ideal == old(ideal) + Backwards(old(t[..count]))
    {
      ghost var digits := t[..];
      var n := count;
      while n > 0
        invariant 0 <= n <= count && t[..] == digits
        invariant Valid() && ideal + Backwards(digits[..n]) == old(ideal) + Backwards(digits[..count])
      {
        n := n - 1;
        BackwardsAppend(digits[..n], digits[n]);
        assert digits[..n + 1] == digits[..n] + [digits[n]];
        Ch(t[n]);
      }
    }

    /** The two digit loops: digits go into a local array lowest first, and out again
        highest first; `room` places are never overrun. */
    method Numeric(value: nat, base: nat, room: nat)
      requires Valid() && 2 <= base <= 16 && |Numeral(value, base)| <= room
      modifies this, b
      ensures Valid() && ideal == old(ideal) + Numeral(value, base)
    {
      hide Quot, Rem, Digit;
      ghost var before := ideal;
      var t := new char[room](_ => '0');
      var n := 0;
      var v := value;
      if v == 0 {
        t[n] := Digit(0);
        n := n + 1;
      }
      while v > 0
        invariant n + (if v > 0 then |Numeral(v, base)| else 0) == |Numeral(value, base)|
        invariant Backwards(t[..n]) == Numeral(value, base)[(if v > 0 then |Numeral(v, base)| else 0)..]
        invariant v > 0 ==> Numeral(v, base) <= Numeral(value, base)
        invariant ideal == before && Valid()
        decreases v
      {
        NumeralStep(v, base);
        BackwardsAppend(t[..n], Digit(Rem(v, base)));
        t[n] := Digit(Rem(v, base));
        n := n + 1;
        assert t[..n] == t[..n - 1] + [t[n - 1]];
        v := Quot(v, base);
      }
      assert Backwards(t[..n]) == Numeral(value, base);
      PutBackwards(t, n);
    }

    /** b_u64: 20 digits are enough for any 64-bit value. */
    method U64(value: nat)
      requires Valid() && value < 0x1_0000_0000_0000_0000
      modifies this, b
      ensures Valid() && ideal == old(ideal) + Dec(value)
    {
      PowersOfTen();
      hide Pow;
      NumeralLength(value, 10, 20);
      Numeric(value, 10, 20);
    }

    /** b_i64: the negative branch negates v + 1, so the smallest value does not overflow. */
    method I64(v: int)
      requires Valid() && -0x8000_0000_0000_0000 <= v < 0x8000_0000_0000_0000
      modifies this, b
      ensures Valid() && ideal == old(ideal) + Int(v)
    {
      if v < 0 {
        Ch('-');
        var negated := -(v + 1);
        assert 0 <= negated < 0x8000_0000_0000_0000;
        U64(negated + 1);
        assert old(ideal) + ['-'] + Dec(-v) == old(ideal) + ("-" + Dec(-v));
      } else {
        U64(v);
      }
    }

    /** b_hex: a pointer has at most 16 hexadecimal digits. */
    method Hex(value: nat)
      requires Valid() && value < 0x1_0000_0000_0000_0000
      modifies this, b
      ensures Valid() && ideal == old(ideal) + Ptr(value)
    {
      PowersOfSixteen();
      hide Pow;
      Raw("0x");
      NumeralLength(value, 16, 16);
      Numeric(value, 16, 16);
      assert old(ideal) + "0x" + Numeral(value, 16) == old(ideal) + ("0x" + Numeral(value, 16));
    }

    /** b_json */
    method Json(s: Option<string>)
      requires Valid()
      modifies this, b
      ensures Valid() && ideal == old(ideal) + Esc(OrEmpty(s))
    {
      hide Buf.Valid, EscChar;
      EscEmpty();
      if s.Some? {
        var text := s.value;
        hide Esc;
        for i := 0 to |text|
          invariant Valid() && ideal == old(ideal) + Esc(text[..i])
        {
          EscAppend(text[..i], text[i]);
          assert text[..i + 1] == text[..i] + [text[i]];
          ghost var before := ideal;
          Raw(EscChar(text[i]));
          assert before + EscChar(text[i]) == old(ideal) + (Esc(text[..i]) + EscChar(text[i]));
        }
        assert text[..|text|] == text;
      }
    }

    method FillMapHead(op: string, name: Option<string>, addr: nat)
      requires Valid() && ideal == "" && addr < 0x1_0000_0000_0000_0000
      modifies this, b
      ensures Valid() && ideal == MapHead(op, name, addr)
    {
      hide Buf.Valid, Esc, Ptr, OpenEvent, ThenName, ThenAddr;
      assert "" + OpenEvent() == OpenEvent();
      Raw(OpenEvent());
      Raw(op);
      Raw(ThenName());
      Json(name);
      Raw(ThenAddr());
      Hex(addr);
    }

    /** The appends of shm_profiler_on_map. */
    method FillMap(op: string, name: Option<string>, addr: nat, size: nat, flags: int, ret: int, pg: Option<string>)
      requires Valid() && ideal == ""
      requires addr < 0x1_0000_0000_0000_0000 && size < 0x1_0000_0000 && Int32(flags) && Int32(ret)
      modifies this, b
      ensures Valid() && ideal == MapText(op, name, addr, size, flags, ret, pg)
    {
      hide Buf.Valid, Esc, Dec, Int, Ptr;
      hide OpenEvent, OpenUnmap, ThenName, ThenAddr, ThenSize, ThenFlags, ThenRet, QuoteThenRet, ThenPg;
      FillMapHead(op, name, addr);
      hide MapHead;
      Raw(ThenSize());
      U64(size);
      Raw(ThenFlags());
      I64(flags);
      Raw(ThenRet());
      I64(ret);
      ghost var head := ideal;
      if pg.Some? {
        Raw(ThenPg());
        Json(pg);
        Ch('\"');
        assert ideal == head + (ThenPg() + Esc(pg.value) + "\"");
      } else {
        assert head + "" == head;
      }
      Raw("}");
    }

    /** The appends of shm_profiler_on_unmap. */
    method FillUnmap(addr: nat, ret: int)
      requires Valid() && ideal == "" && addr < 0x1_0000_0000_0000_0000 && Int32(ret)
      modifies this, b
      ensures Valid() && ideal == UnmapText(addr, ret)
    {
      hide Buf.Valid, Int, Ptr, OpenEvent, OpenUnmap, ThenName, ThenAddr, ThenSize;
      hide ThenFlags, ThenRet, QuoteThenRet, ThenPg;
      assert "" + OpenUnmap() == OpenUnmap();
      Raw(OpenUnmap());
      Hex(addr);
      Raw(QuoteThenRet());
      I64(ret);
      Raw("}");
    }

    /** b_finish: what `%s` prints of the buffer is the longest prefix that leaves
        room for the NUL. */
    method Finish() returns (text: string)
      requires Valid() && '\0' !in ideal
      modifies b
      ensures text == Printed(ideal, b.Length)
      ensures |text| < b.Length && b[|text|] == '\0' && b[..|text|] == text
    {
      var i := if len < b.Length then len else b.Length - 1;
      ghost var shown := ideal[..i];
      assert b[..i] == shown;
      b[i] := '\0';
      var n := 0;
      while b[n] != '\0'
        invariant 0 <= n <= i && b[i] == '\0' && b[..i] == shown
        decreases i - n
      {
        n := n + 1;
      }
      assert n == i by {
        assert forall j :: 0 <= j < i ==> shown[j] in ideal;
        assert forall j :: 0 <= j < i ==> b[j] == shown[j];
      }
      text := b[..n];
    }
  }

  // ---- the two event functions ---------------------------------------------

  lemma {:induction false} NumeralHasNoNul(v: nat, base: nat)
    requires 2 <= base <= 16
    ensures '\0' !in Numeral(v, base)
  {
    if v >= base {
      NumeralHasNoNul(Quot(v, base), base);
    }
  }

  lemma {:induction false} EscHasNoNul(s: string)
    requires '\0' !in s
    ensures '\0' !in Esc(s)
  {
    if s != [] {
      EscHasNoNul(s[1..]);
      assert s[0] in s;
    }
  }

  lemma LiteralsHaveNoNul()
    ensures '\0' !in OpenEvent() && '\0' !in OpenUnmap() && '\0' !in ThenName() && '\0' !in ThenAddr()
    ensures '\0' !in ThenSize() && '\0' !in ThenFlags() && '\0' !in ThenRet() && '\0' !in QuoteThenRet()
    ensures '\0' !in ThenPg() && '\0' !in "\"" && '\0' !in "}" && '\0' !in ""
  {}

  lemma NumbersHaveNoNul(addr: nat, size: nat, v: int)
    ensures '\0' !in Ptr(addr) && '\0' !in Dec(size) && '\0' !in Int(v)
  {
    NumeralHasNoNul(addr, 16);
    NumeralHasNoNul(size, 10);
    NumeralHasNoNul(if v < 0 then -v else v, 10);
    hide Numeral;
  }

  lemma MapTextHasNoNul(op: CString, name: Option<CString>, addr: nat, size: nat, flags: int, ret: int,
                        pg: Option<CString>)
    ensures '\0' !in MapText(op, name, addr, size, flags, ret, pg)
  {
    LiteralsHaveNoNul();
    NumbersHaveNoNul(addr, size, flags);
    NumbersHaveNoNul(addr, size, ret);
    EscHasNoNul(OrEmpty(name));
    EscHasNoNul(OrEmpty(pg));
    hide Ptr, Dec, Int, Esc, OpenEvent, OpenUnmap, ThenName, ThenAddr, ThenSize;
    hide ThenFlags, ThenRet, QuoteThenRet, ThenPg;
  }

  lemma UnmapTextHasNoNul(addr: nat, ret: int)
    ensures '\0' !in UnmapText(addr, ret)
  {
    LiteralsHaveNoNul();
    NumbersHaveNoNul(addr, 0, ret);
    hide Ptr, Dec, Int, OpenEvent, OpenUnmap, ThenName, ThenAddr, ThenSize, ThenFlags, ThenRet, QuoteThenRet, ThenPg;
  }

  /** The backend: `lines` is what was handed to LOG_FILE_INFO, `inLog` the flag that
      turns a call made by the log itself into a no-op. */
  class DataPlane {
    var inLog: bool
    var lines: seq<string>

    constructor ()
      ensures !inLog && lines == []
    {
      inLog, lines := false, [];
    }

    method OnMap(op: Option<CString>, name: Option<CString>, addr: nat, size: nat, flags: int, ret: int,
                 pg: Option<CString>)
      requires addr < 0x1_0000_0000_0000_0000 && size < 0x1_0000_0000 && Int32(flags) && Int32(ret)
      modifies this
      ensures inLog == old(inLog)
      ensures var ideal := MapText(if op.Some? then op.value else "map", name, addr, size, flags, ret, pg);
        lines == old(lines) + if old(inLog) then [] else [Printed(ideal, 512)]
    {
      hide MapText;
      if inLog {
        return;
      }
      inLog := true;
      var what: CString := if op.Some? then op.value else "map";
      var b := new Buf(512);
      b.FillMap(what, name, addr, size, flags, ret, pg);
      MapTextHasNoNul(what, name, addr, size, flags, ret, pg);
      var text := b.Finish();
      lines := lines + [text];
      inLog := false;
    }

    method OnUnmap(addr: nat, ret: int)
      requires addr < 0x1_0000_0000_0000_0000 && Int32(ret)
      modifies this
      ensures inLog == old(inLog)
      ensures lines == old(lines) + if old(inLog) then [] else [UnmapText(addr, ret)]
    {
      if inLog {
        return;
      }
      inLog := true;
      var b := new Buf(128);
      b.FillUnmap(addr, ret);
      UnmapTextHasNoNul(addr, ret);
      UnmapFits(addr, ret);
      hide UnmapText;
      var text := b.Finish();
      assert text == UnmapText(addr, ret);
      lines := lines + [text];
      inLog := false;
    }
  }
}
