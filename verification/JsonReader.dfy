/** json.loads, as the analyser calls it (tools/analyze_profile.py, lines 174-177 and
    219-224): on text that begins with a brace. The grammar is RFC 8259's, with the three
    extra literals that Python's reader takes. */
module JsonReader {
  import opened Wrappers

  /** A fraction, or one of the extra literals, keeps its text. */
  datatype Value =
    | Text(s: string)
    | Number(n: int)
    | Decimal(lexeme: string)
    | Flag(b: bool)
    | Null
    | Arr(elems: seq<Value>)
    | Obj(fields: map<string, Value>)

  type Record = map<string, Value>

  // ---- white space (section 2) ---------------------------------------------

  predicate IsBlank(c: char)
  {
    c in [' ', '\t', '\n', '\r']
  }

  function SkipBlanks(s: string): (r: string)
    ensures |r| <= |s|
    ensures r != [] ==> !IsBlank(r[0])
  {
    if s != [] && IsBlank(s[0]) then SkipBlanks(s[1..]) else s
  }

  // ---- strings (section 7) -------------------------------------------------

  /** The escapes of one character. */
  function Unescape(c: char): (r: Option<char>)
  {
    match c
    case '\"' => Some('\"')
    case '\\' => Some('\\')
    case '/' => Some('/')
    case 'b' => Some(8 as char)
    case 'f' => Some(12 as char)
    case 'n' => Some('\n')
    case 'r' => Some('\r')
    case 't' => Some('\t')
    case _ => None
  }

  predicate IsDigit(c: char)
  {
    48 <= c as int <= 57
  }

  predicate IsHex(c: char)
  {
    IsDigit(c) || 65 <= c as int <= 70 || 97 <= c as int <= 102
  }

  function HexValue(c: char): (v: nat)
    requires IsHex(c)
    ensures v < 16
  {
    if IsDigit(c) then c as int - 48 else if c as int <= 70 then c as int - 55 else c as int - 87
  }

  /** The four digits behind a backslash and a u. */
  predicate FourHex(s: string)
  {
    |s| >= 4 && IsHex(s[0]) && IsHex(s[1]) && IsHex(s[2]) && IsHex(s[3])
  }

  /** The character they stand for. A surrogate is no character of its own. */
  function HexChar(s: string): char
    requires FourHex(s)
  {
    var v := ((HexValue(s[0]) * 16 + HexValue(s[1])) * 16 + HexValue(s[2])) * 16 + HexValue(s[3]);
    if 0xD800 <= v < 0xE000 then '\U{FFFD}' else v as char
  }

  function Prepend(c: char, r: Option<(string, string)>): Option<(string, string)>
  {
    match r
    case None => None
    case Some((t, rest)) => Some(([c] + t, rest))
  }

  /** The string whose opening quote stood just before s, and what follows its
      closing quote. Control characters must be escaped. */
  function ParseString(s: string): (r: Option<(string, string)>)
    ensures r.Some? ==> |r.value.1| < |s|
  {
    if s == [] then None
    else if s[0] == '\"' then Some(("", s[1..]))
    else if s[0] == '\\' then
      if |s| == 1 then None
      else if s[1] == 'u' then
        if FourHex(s[2..]) then Prepend(HexChar(s[2..]), ParseString(s[6..])) else None
      else if Unescape(s[1]).Some? then Prepend(Unescape(s[1]).value, ParseString(s[2..]))
      else None
    else if s[0] < ' ' then None
    else Prepend(s[0], ParseString(s[1..]))
  }

  // ---- numbers (section 6) -------------------------------------------------

  /** The longest run of digits at the start of s. */
  function Digits(s: string): (d: string)
    ensures d <= s
  {
    if s != [] && IsDigit(s[0]) then [s[0]] + Digits(s[1..]) else []
  }

  lemma {:induction false} DigitsAreDigits(s: string)
    ensures forall i :: 0 <= i < |Digits(s)| ==> IsDigit(Digits(s)[i])
  {
    if s != [] && IsDigit(s[0]) { DigitsAreDigits(s[1..]); }
  }

  function DecValue(d: string): nat
    requires forall i :: 0 <= i < |d| ==> IsDigit(d[i])
  {
    if d == [] then 0
    else
      var last := d[|d| - 1];
      assert IsDigit(last);
      DecValue(d[..|d| - 1]) * 10 + (last as int - 48)
  }

  /** The digits before the point: a zero stands alone. */
  function Whole(s: string): (d: string)
    ensures d <= s
    ensures forall i :: 0 <= i < |d| ==> IsDigit(d[i])
  {
    DigitsAreDigits(s);
    if s != [] && s[0] == '0' then s[..1] else Digits(s)
  }

  /** How long the fraction at the start of s is: a point and at least one digit. */
  function Fraction(s: string): (n: nat)
    ensures n <= |s|
  {
    if s != [] && s[0] == '.' && Digits(s[1..]) != [] then 1 + |Digits(s[1..])| else 0
  }

  /** How long the exponent at the start of s is. */
  function Exponent(s: string): (n: nat)
    ensures n <= |s|
  {
    if s == [] || s[0] !in ['e', 'E'] then 0
    else
      var sign := if |s| > 1 && s[1] in ['+', '-'] then 2 else 1;
      if Digits(s[sign..]) != [] then sign + |Digits(s[sign..])| else 0
  }

  /** How long the fraction and the exponent are. */
  function Inexact(s: string): (n: nat)
    ensures n <= |s|
  {
    Fraction(s) + Exponent(s[Fraction(s)..])
  }

  function ParseNumber(s: string): (r: Option<(Value, string)>)
    ensures r.Some? ==> |r.value.1| < |s|
  {
    var m := if s != [] && s[0] == '-' then 1 else 0;
    var d := Whole(s[m..]);
    if d == [] then None
    else
      var n := m + |d|;
      var x := Inexact(s[n..]);
      if x > 0 then Some((Decimal(s[..n + x]), s[n + x..]))
      else Some((Number(if m == 1 then 0 - DecValue(d) else DecValue(d)), s[n..]))
  }

  // ---- literals (section 3), and what Python adds --------------------------

  function ParseLiteral(s: string): (r: Option<(Value, string)>)
    ensures r.Some? ==> |r.value.1| < |s|
  {
    if "true" <= s then Some((Flag(true), s[4..]))
    else if "false" <= s then Some((Flag(false), s[5..]))
    else if "null" <= s then Some((Null, s[4..]))
    else if "NaN" <= s then Some((Decimal("NaN"), s[3..]))
    else if "Infinity" <= s then Some((Decimal("Infinity"), s[8..]))
    else if "-Infinity" <= s then Some((Decimal("-Infinity"), s[9..]))
    else None
  }

  // ---- values, arrays and objects (sections 3 to 5) ------------------------

  /** The value at the start of s, and what follows it. */
  function ParseValue(s: string): (r: Option<(Value, string)>)
    ensures r.Some? ==> |r.value.1| < |s|
    decreases |s|, 0
  {
    if s == [] then None
    else if s[0] == '\"' then
      match ParseString(s[1..])
      case None => None
      case Some((t, rest)) => Some((Text(t), rest))
    else if s[0] == '{' then
      match ParseObject(s[1..])
      case None => None
      case Some((m, rest)) => Some((Obj(m), rest))
    else if s[0] == '[' then
      match ParseArray(s[1..])
      case None => None
      case Some((a, rest)) => Some((Arr(a), rest))
    else if ParseLiteral(s).Some? then ParseLiteral(s)
    else ParseNumber(s)
  }

  /** The object whose opening brace stood just before s. */
  function ParseObject(s: string): (r: Option<(Record, string)>)
    ensures r.Some? ==> |r.value.1| < |s|
    decreases |s|, 3
  {
    var t := SkipBlanks(s);
    if t != [] && t[0] == '}' then Some((map[], t[1..])) else ParseMembers(t, map[])
  }

  /** The members from the next key on; a repeated key takes the last value. */
  function ParseMembers(s: string, acc: Record): (r: Option<(Record, string)>)
    ensures r.Some? ==> |r.value.1| < |s|
    decreases |s|, 2
  {
    if s == [] || s[0] != '\"' then None
    else
      match ParseString(s[1..])
      case None => None
      case Some((key, rest)) =>
        var colon := SkipBlanks(rest);
        if colon == [] || colon[0] != ':' then None
        else
          match ParseValue(SkipBlanks(colon[1..]))
          case None => None
          case Some((v, more)) => Continue(more, acc[key := v])
  }

  /** What follows a member: the end, or a comma and the next one. */
  function Continue(s: string, acc: Record): (r: Option<(Record, string)>)
    ensures r.Some? ==> |r.value.1| < |s|
    decreases |s|, 3
  {
    var t := SkipBlanks(s);
    if t == [] then None
    else if t[0] == '}' then Some((acc, t[1..]))
    else if t[0] == ',' then ParseMembers(SkipBlanks(t[1..]), acc)
    else None
  }

  /** The array whose opening bracket stood just before s. */
  function ParseArray(s: string): (r: Option<(seq<Value>, string)>)
    ensures r.Some? ==> |r.value.1| < |s|
    decreases |s|, 2
  {
    var t := SkipBlanks(s);
    if t != [] && t[0] == ']' then Some(([], t[1..])) else ParseElems(t, [])
  }

  function ParseElems(s: string, acc: seq<Value>): (r: Option<(seq<Value>, string)>)
    ensures r.Some? ==> |r.value.1| < |s|
    decreases |s|, 1
  {
    match ParseValue(s)
    case None => None
    case Some((v, more)) =>
      var t := SkipBlanks(more);
      if t == [] then None
      else if t[0] == ']' then Some((acc + [v], t[1..]))
      else if t[0] == ',' then ParseElems(SkipBlanks(t[1..]), acc + [v])
      else None
  }

  /** json.loads on text that begins with a brace: one object, and blanks behind it. */
  function Loads(s: string): Option<Record>
  {
    if s == [] || s[0] != '{' then None
    else
      match ParseObject(s[1..])
      case None => None
      case Some((m, rest)) => if SkipBlanks(rest) == [] then Some(m) else None
  }
}
