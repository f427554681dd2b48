/** The text of the data-plane events (src/profiler/shm_profiler.c, lines 67-123 and
    161-205) as it would be in a buffer without end, and how long it can get. */
module EventText {
  import opened Wrappers
  import opened Arithmetic

  // ---- numbers -------------------------------------------------------------

  function Digit(d: nat): (c: char)
    requires d < 16
  {
    "0123456789abcdef"[d]
  }

  function Quot(v: nat, base: nat): (q: nat)
    requires base >= 2
    ensures v > 0 ==> q < v
    ensures v >= base ==> q > 0
  {
    v / base
  }

  function Rem(v: nat, base: nat): (r: nat)
    requires base >= 2
    ensures r < base
  {
    v % base
  }

  lemma QuotRem(v: nat, base: nat)
    requires base >= 2
    ensures v == base * Quot(v, base) + Rem(v, base)
  {}

  /** v in base 10 or 16, without leading zeros. */
  function Numeral(v: nat, base: nat): (s: string)
    requires 2 <= base <= 16
    ensures s != []
  {
    if v < base then [Digit(v)] else Numeral(Quot(v, base), base) + [Digit(Rem(v, base))]
  }

  function Dec(v: nat): string
  {
    Numeral(v, 10)
  }

  function Int(v: int): string
  {
    if v < 0 then "-" + Dec(-v) else Dec(v)
  }

  function Ptr(v: nat): string
  {
    "0x" + Numeral(v, 16)
  }

  function Pow(base: nat, k: nat): nat
  {
    if k == 0 then 1 else base * Pow(base, k - 1)
  }

  lemma QuotAround(v: nat, base: nat, p: nat)
    requires base >= 2
    ensures v < base * p ==> Quot(v, base) < p
    ensures v >= base * p ==> Quot(v, base) >= p
  {
    QuotRem(v, base);
    if Quot(v, base) >= p {
      MulMono(base, p, Quot(v, base));
    } else {
      MulMono(base, Quot(v, base) + 1, p);
    }
  }

  lemma PowUnfold(base: nat, k: nat)
    requires k >= 1
    ensures Pow(base, k) == base * Pow(base, k - 1)
  {}

  lemma PowZero(base: nat)
    ensures Pow(base, 0) == 1
  {}

  /** A value below base^k has at most k digits. */
  lemma {:induction false} NumeralLength(v: nat, base: nat, k: nat)
    requires 2 <= base <= 16 && k >= 1 && v < Pow(base, k)
    ensures |Numeral(v, base)| <= k
  {
    hide Quot, Rem, Digit, Pow;
    PowUnfold(base, k);
    PowZero(base);
    if v >= base {
      assert k != 1;
      QuotAround(v, base, Pow(base, k - 1));
      NumeralLength(Quot(v, base), base, k - 1);
    }
  }

  lemma {:induction false} PowPositive(base: nat, k: nat)
    requires base >= 1
    ensures Pow(base, k) >= 1
  {
    if k > 0 { PowPositive(base, k - 1); }
  }

  /** A value of at least base^(k - 1) has at least k digits. */
  lemma {:induction false} NumeralAtLeast(v: nat, base: nat, k: nat)
    requires 2 <= base <= 16 && k >= 1 && v >= Pow(base, k - 1)
    ensures |Numeral(v, base)| >= k
  {
    hide Quot, Rem, Digit, Pow;
    if k > 1 {
      PowUnfold(base, k - 1);
      PowPositive(base, k - 2);
      MulMono(base, 1, Pow(base, k - 2));
      QuotAround(v, base, Pow(base, k - 2));
      NumeralAtLeast(Quot(v, base), base, k - 1);
    }
  }

  lemma PowersOfTen()
    ensures Pow(10, 9) == 1000000000 && Pow(10, 10) == 10000000000 && Pow(10, 20) == 100000000000000000000
  {
    assert Pow(10, 4) == 10000;
    assert Pow(10, 8) == 10000 * Pow(10, 4);
    assert Pow(10, 12) == 10000 * Pow(10, 8);
    assert Pow(10, 16) == 10000 * Pow(10, 12);
    assert Pow(10, 20) == 10000 * Pow(10, 16);
  }

  lemma PowersOfSixteen()
    ensures Pow(16, 15) == 0x1000_0000_0000_0000 && Pow(16, 16) == 0x1_0000_0000_0000_0000
  {
    assert Pow(16, 4) == 0x1_0000;
    assert Pow(16, 8) == 0x1_0000 * Pow(16, 4);
    assert Pow(16, 12) == 0x1_0000 * Pow(16, 8);
    assert Pow(16, 16) == 0x1_0000 * Pow(16, 12);
  }

  // ---- strings -------------------------------------------------------------

  /** A C string holds no NUL. */
  type CString = s: string | '\0' !in s

  function EscChar(c: char): (s: string)
    ensures 1 <= |s| <= 2
  {
    match c
    case '\"' => "\\\""
    case '\\' => "\\\\"
    case '\n' => "\\n"
    case '\r' => "\\r"
    case '\t' => "\\t"
    case _ => [c]
  }

  function Esc(s: string): (r: string)
    ensures |s| <= |r| <= 2 * |s|
  {
    if s == [] then [] else EscChar(s[0]) + Esc(s[1..])
  }

  /** A NULL string is printed as the empty string. */
  function OrEmpty(s: Option<string>): string
  {
    match s
    case None => ""
    case Some(t) => t
  }

  lemma {:induction false} EscAppend(s: string, c: char)
    ensures Esc(s + [c]) == Esc(s) + EscChar(c)
  {
    hide EscChar;
    if s == [] {
      assert Esc([c]) == EscChar(c) + Esc([]);
    } else {
      EscAppend(s[1..], c);
      assert (s + [c])[1..] == s[1..] + [c];
      assert EscChar(s[0]) + (Esc(s[1..]) + EscChar(c)) == (EscChar(s[0]) + Esc(s[1..])) + EscChar(c);
    }
  }

  // ---- events --------------------------------------------------------------

  // The fixed parts, as the emitter has them.
  function OpenEvent(): string { "{\"event\":\"" }
  function OpenUnmap(): string { "{\"event\":\"unmap\",\"addr\":\"" }
  function ThenName(): string { "\",\"shmname\":\"" }
  function ThenAddr(): string { "\",\"addr\":\"" }
  function ThenSize(): string { "\",\"size\":" }
  function ThenFlags(): string { ",\"flags\":" }
  function ThenRet(): string { ",\"ret\":" }
  function QuoteThenRet(): string { "\",\"ret\":" }
  function ThenPg(): string { ",\"pgname\":\"" }

  function MapHead(op: string, name: Option<string>, addr: nat): string
  {
    OpenEvent() + op + ThenName() + Esc(OrEmpty(name)) + ThenAddr() + Ptr(addr)
  }

  function MapText(op: string, name: Option<string>, addr: nat, size: nat, flags: int, ret: int,
                   pg: Option<string>): string
  {
    MapHead(op, name, addr)
    + ThenSize() + Dec(size) + ThenFlags() + Int(flags) + ThenRet() + Int(ret)
    + (if pg.Some? then ThenPg() + Esc(pg.value) + "\"" else "") + "}"
  }

  function UnmapText(addr: nat, ret: int): string
  {
    OpenUnmap() + Ptr(addr) + QuoteThenRet() + Int(ret) + "}"
  }

  /** What is printed of a text through a buffer of cap characters, NUL included. */
  function Printed(text: string, cap: nat): string
    requires cap > 0
  {
    text[..Min(|text|, cap - 1)]
  }

  predicate Int32(v: int)
  {
    -0x8000_0000 <= v < 0x8000_0000
  }

  lemma FieldLengths(addr: nat, size: nat, v: int)
    requires addr < 0x1_0000_0000_0000_0000 && size < 0x1_0000_0000 && Int32(v)
    ensures |Ptr(addr)| <= 18 && |Dec(size)| <= 10 && |Int(v)| <= 11
  {
    PowersOfTen();
    PowersOfSixteen();
    hide Pow;
    NumeralLength(addr, 16, 16);
    NumeralLength(size, 10, 10);
    if v < 0 {
      NumeralLength(-v, 10, 10);
    } else {
      NumeralLength(v, 10, 10);
    }
  }

  /** How many characters of s take two. */
  function Escapes(s: string): nat
  {
    if s == [] then 0 else Escapes(s[1..]) + if s[0] in "\"\\\n\r\t" then 1 else 0
  }

  lemma {:induction false} EscLength(s: string)
    ensures |Esc(s)| == |s| + Escapes(s)
    ensures Escapes(s) <= |s|
  {
    if s != [] {
      EscLength(s[1..]);
    }
  }

  lemma MapLength(op: string, name: Option<string>, addr: nat, size: nat, flags: int, ret: int, pg: Option<string>)
    ensures |MapText(op, name, addr, size, flags, ret, pg)|
         == 59 + |op| + |Esc(OrEmpty(name))| + |Ptr(addr)| + |Dec(size)| + |Int(flags)| + |Int(ret)|
            + if pg.Some? then 12 + |Esc(pg.value)| else 0
  {
    hide Dec, Int, Ptr, Esc;
  }

  /** A map event is cut - it has more than the 511 characters that its buffer holds
      beside the NUL - exactly if its names, escapes and digits together exceed 452. */
  lemma MapCutIff(op: string, name: Option<string>, addr: nat, size: nat, flags: int, ret: int, pg: Option<string>)
    ensures |MapText(op, name, addr, size, flags, ret, pg)| > 511 <==>
              |op| + |OrEmpty(name)| + Escapes(OrEmpty(name)) + |Ptr(addr)| + |Dec(size)| + |Int(flags)| + |Int(ret)|
                + (if pg.Some? then 12 + |pg.value| + Escapes(pg.value) else 0) > 452
  {
    MapLength(op, name, addr, size, flags, ret, pg);
    EscLength(OrEmpty(name));
    EscLength(OrEmpty(pg));
    hide MapText, Ptr, Dec, Int, Esc, Escapes;
  }

  /** What the interface allows: a map event fits as long as its two names together are
      at most 190 characters, whatever has to be escaped. */
  lemma MapFits(op: string, name: Option<string>, addr: nat, size: nat, flags: int, ret: int, pg: Option<string>)
    requires addr < 0x1_0000_0000_0000_0000 && size < 0x1_0000_0000 && Int32(flags) && Int32(ret)
    requires |op| <= 9 && |OrEmpty(name)| + |OrEmpty(pg)| <= 190
    ensures |MapText(op, name, addr, size, flags, ret, pg)| <= 510
  {
    FieldLengths(addr, size, flags);
    FieldLengths(addr, size, ret);
    hide Dec, Int, Ptr, Esc;
  }

  /** The calls the data plane makes are all plain maps without a pgname; their events
      fit with names of up to 199 characters, whatever has to be escaped. */
  lemma MapCallFits(name: Option<string>, addr: nat, size: nat, flags: int, ret: int)
    requires addr < 0x1_0000_0000_0000_0000 && size < 0x1_0000_0000 && Int32(flags) && Int32(ret)
    requires |OrEmpty(name)| <= 199
    ensures |MapText("map", name, addr, size, flags, ret, None)| <= 511
  {
    FieldLengths(addr, size, flags);
    FieldLengths(addr, size, ret);
    MapLength("map", name, addr, size, flags, ret, None);
    hide MapText, Dec, Int, Ptr, Esc;
  }

  lemma LongestNumbers()
    ensures |Ptr(0xffff_ffff_ffff_ffff)| == 18 && |Dec(0xffff_ffff)| == 10 && |Int(-0x8000_0000)| == 11
  {
    PowersOfTen();
    PowersOfSixteen();
    hide Pow;
    FieldLengths(0xffff_ffff_ffff_ffff, 0xffff_ffff, -0x8000_0000);
    NumeralAtLeast(0xffff_ffff_ffff_ffff, 16, 16);
    NumeralAtLeast(0xffff_ffff, 10, 10);
    NumeralAtLeast(0x8000_0000, 10, 10);
    hide Numeral;
  }

  lemma {:induction false} AllEscaped(s: string)
    requires forall i :: 0 <= i < |s| ==> s[i] == '\"'
    ensures |Esc(s)| == 2 * |s|
  {
    if s != [] {
      AllEscaped(s[1..]);
      assert EscChar(s[0]) == "\\\"";
    }
  }

  /** 199 is the exact limit: 200 characters that all need escaping can be too many. */
  lemma MapCallMayNotFit(name: string)
    requires |name| == 200 && forall i :: 0 <= i < |name| ==> name[i] == '\"'
    ensures |MapText("map", Some(name), 0xffff_ffff_ffff_ffff, 0xffff_ffff, -0x8000_0000, -0x8000_0000, None)| == 512
  {
    hide MapText, Ptr, Dec, Int, Numeral;
    AllEscaped(name);
    LongestNumbers();
    MapLength("map", Some(name), 0xffff_ffff_ffff_ffff, 0xffff_ffff, -0x8000_0000, -0x8000_0000, None);
  }

  /** An unmap event always fits its 128-byte buffer. */
  lemma UnmapFits(addr: nat, ret: int)
    requires addr < 0x1_0000_0000_0000_0000 && Int32(ret)
    ensures |UnmapText(addr, ret)| <= 127
  {
    FieldLengths(addr, 0, ret);
    hide Int, Ptr;
  }
}
