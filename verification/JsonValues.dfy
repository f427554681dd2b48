/** The reader on what other programs may write (RFC 8259): any value, nested as deeply as
    one likes, with the same blanks between all of its tokens, is read back. */
module JsonValues {
  import opened Wrappers
  import opened EventText
  import opened JsonReader
  import opened JsonDecode
  import JsonObjects

  /** A value as it is written: members in order, keys perhaps repeated. */
  datatype Json =
    | JText(s: string)
    | JNumber(n: int)
    | JFlag(b: bool)
    | JNull
    | JArray(elems: seq<Json>)
    | JObject(members: seq<(string, Json)>)

  /** Every string in it, keys included, is clean. */
  predicate AllClean(j: Json)
  {
    match j
    case JText(s) => Clean(s)
    case JArray(elems) => forall i :: 0 <= i < |elems| ==> AllClean(elems[i])
    case JObject(members) => forall i :: 0 <= i < |members| ==> Clean(members[i].0) && AllClean(members[i].1)
    case _ => true
  }

  predicate Blanks(ws: string)
  {
    forall i :: 0 <= i < |ws| ==> IsBlank(ws[i])
  }

  // ---- the text ------------------------------------------------------------

  /** The text of j, and of its elements or members from the i-th on with what closes
      them. */
  function JsonText(j: Json, ws: string): string
    decreases j, 1, 0
  {
    match j
    case JText(s) => "\"" + (Esc(s) + "\"")
    case JNumber(n) => Int(n)
    case JFlag(b) => if b then "true" else "false"
    case JNull => "null"
    case JArray(elems) => "[" + (ws + ElemsText(j, 0, ws))
    case JObject(members) => "{" + (ws + MembersText(j, 0, ws))
  }

  function ElemsText(j: Json, i: nat, ws: string): string
    requires j.JArray? && i <= |j.elems|
    decreases j, 0, |j.elems| - i
  {
    if i == |j.elems| then "]"
    else
      JsonText(j.elems[i], ws)
      + (ws + if i + 1 == |j.elems| then "]" else "," + (ws + ElemsText(j, i + 1, ws)))
  }

  function MembersText(j: Json, i: nat, ws: string): string
    requires j.JObject? && i <= |j.members|
    decreases j, 0, |j.members| - i
  {
    if i == |j.members| then "}"
    else
      "\"" + (Esc(j.members[i].0) + ("\"" + (ws + (":" + (ws + (JsonText(j.members[i].1, ws)
      + (ws + if i + 1 == |j.members| then "}" else "," + (ws + MembersText(j, i + 1, ws)))))))))
  }

  // ---- the value -----------------------------------------------------------

  function ValueOf(j: Json): Value
    decreases j, 1, 0
  {
    match j
    case JText(s) => Text(s)
    case JNumber(n) => Number(n)
    case JFlag(b) => Flag(b)
    case JNull => Null
    case JArray(elems) => Arr(ElemsOf(j, 0))
    case JObject(members) => Obj(MembersOf(j, 0, map[]))
  }

  function ElemsOf(j: Json, i: nat): seq<Value>
    requires j.JArray? && i <= |j.elems|
    decreases j, 0, |j.elems| - i
  {
    if i == |j.elems| then [] else [ValueOf(j.elems[i])] + ElemsOf(j, i + 1)
  }

  /** The later of equal keys wins. */
  function MembersOf(j: Json, i: nat, acc: Record): Record
    requires j.JObject? && i <= |j.members|
    decreases j, 0, |j.members| - i
  {
    if i == |j.members| then acc else MembersOf(j, i + 1, acc[j.members[i].0 := ValueOf(j.members[i].1)])
  }

  // ---- read back -----------------------------------------------------------

  lemma {:induction false} SkipBlanksOver(ws: string, x: string)
    requires Blanks(ws) && (x != "" ==> !IsBlank(x[0]))
    ensures SkipBlanks(ws + x) == x
  {
    if ws == "" {
      assert ws + x == x;
    } else {
      SkipBlanksOver(ws[1..], x);
      assert (ws + x)[1..] == ws[1..] + x;
    }
  }

  /** A value begins with something that is neither blank nor a closing bracket. */
  lemma Begins(j: Json, ws: string)
    ensures JsonText(j, ws) != "" && !IsBlank(JsonText(j, ws)[0])
    ensures JsonText(j, ws)[0] != ']' && JsonText(j, ws)[0] != '}'
  {
    match j
    case JNumber(n) =>
      ParseInt(n, "");
      hide Int;
      assert Int(n) + "" == Int(n);
    case _ =>
  }

  /** What stands behind a value inside another ends a number. */
  lemma EndsAfter(ws: string, c: char, more: string)
    requires Blanks(ws) && c in [',', ']', '}']
    ensures EndsNumber(ws + ([c] + more))
  {
    if ws == "" {
      assert ws + ([c] + more) == [c] + more;
    }
  }

  lemma NullValue(more: string)
    ensures ParseValue("null" + more) == Some((Null, more))
  {
    var t := "null" + more;
    assert t[0] == 'n' && t[4..] == more && "null" <= t;
    assert "true"[0] == 't' && "false"[0] == 'f';
  }

  lemma StringValue(s: string, more: string)
    requires Clean(s)
    ensures ParseValue("\"" + (Esc(s) + "\"") + more) == Some((Text(s), more))
  {
    hide ParseString, Esc, Clean, ParseValue;
    assert "\"" + (Esc(s) + "\"") + more == "\"" + (Esc(s) + ("\"" + more));
    ParseEsc(s, more);
    TextValue(Esc(s) + ("\"" + more));
  }

  lemma ArrayValue(t: string)
    ensures ParseValue("[" + t) == match ParseArray(t) case None => None case Some((a, rest)) => Some((Arr(a), rest))
  {
    hide ParseArray;
    assert ("[" + t)[1..] == t;
  }

  lemma ObjectValue(t: string)
    ensures ParseValue("{" + t) == match ParseObject(t) case None => None case Some((m, rest)) => Some((Obj(m), rest))
  {
    hide ParseObject;
    assert ("{" + t)[1..] == t;
  }

  /** The part of an array behind its opening bracket and blanks. */
  lemma ArrayStarts(ws: string, t: string)
    requires Blanks(ws) && t != "" && !IsBlank(t[0])
    ensures ParseArray(ws + t) == if t[0] == ']' then Some(([], t[1..])) else ParseElems(t, [])
  {
    hide ParseElems, SkipBlanks, Blanks;
    SkipBlanksOver(ws, t);
  }

  lemma ObjectStarts(ws: string, t: string)
    requires Blanks(ws) && t != "" && !IsBlank(t[0])
    ensures ParseObject(ws + t) == if t[0] == '}' then Some((map[], t[1..])) else ParseMembers(t, map[])
  {
    hide ParseMembers, SkipBlanks, Blanks;
    SkipBlanksOver(ws, t);
  }

  /** What stands behind an element or a member: blanks and the closing bracket, or a comma
      and more blanks. */
  function Behind(ws: string, c: char, more: string): string
  {
    ws + ([c] + if c == ',' then ws + more else more)
  }

  lemma BehindSkips(ws: string, c: char, more: string)
    requires Blanks(ws) && !IsBlank(c) && (more != "" ==> !IsBlank(more[0]))
    ensures SkipBlanks(Behind(ws, c, more)) == [c] + if c == ',' then ws + more else more
    ensures SkipBlanks(ws + more) == more
  {
    SkipBlanksOver(ws, [c] + if c == ',' then ws + more else more);
    SkipBlanksOver(ws, more);
  }

  lemma BehindCloses(ws: string, c: char, more: string)
    requires Blanks(ws) && !IsBlank(c) && c != ','
    ensures SkipBlanks(Behind(ws, c, more)) == [c] + more
  {
    SkipBlanksOver(ws, [c] + more);
  }

  lemma LastElem(t: string, v: Value, ws: string, more: string, acc: seq<Value>)
    requires Blanks(ws) && ParseValue(t) == Some((v, Behind(ws, ']', more)))
    ensures ParseElems(t, acc) == Some((acc + [v], more))
  {
    BehindCloses(ws, ']', more);
    hide ParseValue, SkipBlanks, Blanks, Behind;
    assert ([']'] + more)[1..] == more;
  }

  lemma NextElem(t: string, v: Value, ws: string, more: string, acc: seq<Value>)
    requires Blanks(ws) && ParseValue(t) == Some((v, Behind(ws, ',', more))) && (more != "" ==> !IsBlank(more[0]))
    ensures ParseElems(t, acc) == ParseElems(more, acc + [v])
  {
    BehindSkips(ws, ',', more);
    hide ParseValue, SkipBlanks, Blanks, Behind;
    assert ([','] + (ws + more))[1..] == ws + more;
  }

  lemma MemberEnds(ws: string, more: string, acc: Record)
    requires Blanks(ws)
    ensures Continue(Behind(ws, '}', more), acc) == Some((acc, more))
  {
    BehindCloses(ws, '}', more);
    hide ParseMembers, SkipBlanks, Blanks, Behind;
    assert (['}'] + more)[1..] == more;
  }

  lemma MemberGoesOn(ws: string, more: string, acc: Record)
    requires Blanks(ws) && (more != "" ==> !IsBlank(more[0]))
    ensures Continue(Behind(ws, ',', more), acc) == ParseMembers(more, acc)
  {
    BehindSkips(ws, ',', more);
    hide ParseMembers, SkipBlanks, Blanks, Behind;
    assert ([','] + (ws + more))[1..] == ws + more;
  }

  /** A key, the colon, and the value behind it. */
  lemma MemberStarts(k: string, ws: string, more: string, acc: Record)
    requires Clean(k) && Blanks(ws) && more != "" && !IsBlank(more[0])
    ensures ParseMembers("\"" + (Esc(k) + ("\"" + (ws + (":" + (ws + more))))), acc)
         == match ParseValue(more) case None => None case Some((v, rest)) => Continue(rest, acc[k := v])
  {
    var colon := ":" + (ws + more);
    ParseEsc(k, ws + colon);
    SkipBlanksOver(ws, colon);
    SkipBlanksOver(ws, more);
    hide ParseString, ParseValue, Esc, Clean, Continue, SkipBlanks, Blanks;
    var s := "\"" + (Esc(k) + ("\"" + (ws + colon)));
    assert s[0] == '\"' && s[1..] == Esc(k) + ("\"" + (ws + colon));
    assert colon[0] == ':' && colon[1..] == ws + more;
  }

  lemma BehindEndsNumber(ws: string, c: char, more: string)
    requires Blanks(ws) && c in [',', ']', '}']
    ensures EndsNumber(Behind(ws, c, more))
  {
    EndsAfter(ws, c, if c == ',' then ws + more else more);
  }

  /** The text of the elements from the i-th on, the first one apart. */
  lemma ElemsSplit(j: Json, i: nat, ws: string, rest: string)
    requires j.JArray? && i < |j.elems|
    ensures var e := JsonText(j.elems[i], ws);
      ElemsText(j, i, ws) + rest
      == e + if i + 1 == |j.elems| then Behind(ws, ']', rest) else Behind(ws, ',', ElemsText(j, i + 1, ws) + rest)
  {
    hide JsonText;
  }

  lemma Parts(a: string, b: string, c: string, d: string, e: string, f: string, g: string, rest: string)
    ensures a + (b + (c + (d + (e + (f + g))))) + rest == a + (b + (c + (d + (e + (f + (g + rest))))))
  {
    Assoc(a, b + (c + (d + (e + (f + g)))), rest);
    Assoc(b, c + (d + (e + (f + g))), rest);
    Assoc(c, d + (e + (f + g)), rest);
    Assoc(d, e + (f + g), rest);
    Assoc(e, f + g, rest);
    Assoc(f, g, rest);
  }

  lemma MemberText(j: Json, i: nat, ws: string)
    requires j.JObject? && i < |j.members|
    ensures var tail := if i + 1 == |j.members| then "}" else "," + (ws + MembersText(j, i + 1, ws));
      MembersText(j, i, ws)
      == "\"" + (Esc(j.members[i].0)
                 + ("\"" + (ws + (":" + (ws + (JsonText(j.members[i].1, ws) + (ws + tail)))))))
  {
    hide JsonText, Esc;
  }

  lemma MembersSplit(j: Json, i: nat, ws: string, rest: string)
    requires j.JObject? && i < |j.members|
    ensures var behind := if i + 1 == |j.members| then Behind(ws, '}', rest)
                          else Behind(ws, ',', MembersText(j, i + 1, ws) + rest);
      MembersText(j, i, ws) + rest
      == "\"" + (Esc(j.members[i].0) + ("\"" + (ws + (":" + (ws + (JsonText(j.members[i].1, ws) + behind))))))
  {
    var last := i + 1 == |j.members|;
    var v, tail := JsonText(j.members[i].1, ws), if last then "}" else "," + (ws + MembersText(j, i + 1, ws));
    MemberText(j, i, ws);
    hide JsonText, Esc, MembersText;
    Parts("\"", Esc(j.members[i].0), "\"", ws, ":", ws, v + (ws + tail), rest);
    Assoc(v, ws + tail, rest);
    Assoc(ws, tail, rest);
    if !last {
      Assoc(",", ws + MembersText(j, i + 1, ws), rest);
      Assoc(ws, MembersText(j, i + 1, ws), rest);
    }
  }

  lemma MembersBegin(j: Json, i: nat, ws: string, rest: string)
    requires j.JObject? && i < |j.members|
    ensures var t := MembersText(j, i, ws) + rest; t != "" && t[0] == '\"' && !IsBlank(t[0])
  {
    hide JsonText, Esc;
  }

  lemma ElemsBegin(j: Json, i: nat, ws: string, rest: string)
    requires j.JArray? && i < |j.elems|
    ensures var t := ElemsText(j, i, ws) + rest; t != "" && !IsBlank(t[0]) && t[0] != ']'
  {
    Begins(j.elems[i], ws);
    hide JsonText;
  }

  lemma NoElems(j: Json, ws: string)
    requires j.JArray? && j.elems == []
    ensures ElemsText(j, 0, ws) == "]" && ElemsOf(j, 0) == []
  {}

  lemma NoMembers(j: Json, ws: string)
    requires j.JObject? && j.members == []
    ensures MembersText(j, 0, ws) == "}" && MembersOf(j, 0, map[]) == map[]
  {}

  lemma {:induction false} ElemsRead(j: Json, i: nat, ws: string, rest: string, acc: seq<Value>)
    requires j.JArray? && i < |j.elems| && Blanks(ws) && AllClean(j)
    ensures ParseElems(ElemsText(j, i, ws) + rest, acc) == Some((acc + ElemsOf(j, i), rest))
    decreases j, 0, |j.elems| - i
  {
    hide JsonText, ElemsText, ParseElems, ParseValue, Blanks, EndsNumber, Behind;
    var v := ValueOf(j.elems[i]);
    ElemsSplit(j, i, ws, rest);
    if i + 1 == |j.elems| {
      BehindEndsNumber(ws, ']', rest);
      ValueReads(j.elems[i], ws, Behind(ws, ']', rest));
      LastElem(ElemsText(j, i, ws) + rest, v, ws, rest, acc);
      assert acc + [v] == acc + ElemsOf(j, i);
    } else {
      var more := ElemsText(j, i + 1, ws) + rest;
      BehindEndsNumber(ws, ',', more);
      ValueReads(j.elems[i], ws, Behind(ws, ',', more));
      ElemsBegin(j, i + 1, ws, rest);
      NextElem(ElemsText(j, i, ws) + rest, v, ws, more, acc);
      ElemsRead(j, i + 1, ws, rest, acc + [v]);
      assert acc + [v] + ElemsOf(j, i + 1) == acc + ElemsOf(j, i);
    }
  }

  lemma {:induction false} MembersRead(j: Json, i: nat, ws: string, rest: string, acc: Record)
    requires j.JObject? && i < |j.members| && Blanks(ws) && AllClean(j)
    ensures ParseMembers(MembersText(j, i, ws) + rest, acc) == Some((MembersOf(j, i, acc), rest))
    decreases j, 0, |j.members| - i
  {
    hide JsonText, MembersText, ParseMembers, ParseValue, Continue, Blanks, EndsNumber, Behind, Clean, Esc;
    var (k, x) := j.members[i];
    var acc' := acc[k := ValueOf(x)];
    var more := if i + 1 == |j.members| then rest else MembersText(j, i + 1, ws) + rest;
    var behind := Behind(ws, if i + 1 == |j.members| then '}' else ',', more);
    MembersSplit(j, i, ws, rest);
    BehindEndsNumber(ws, if i + 1 == |j.members| then '}' else ',', more);
    ValueReads(x, ws, behind);
    Begins(x, ws);
    MemberStarts(k, ws, JsonText(x, ws) + behind, acc);
    if i + 1 == |j.members| {
      MemberEnds(ws, rest, acc');
    } else {
      MembersBegin(j, i + 1, ws, rest);
      MemberGoesOn(ws, more, acc');
      MembersRead(j, i + 1, ws, rest, acc');
    }
  }

  lemma {:induction false} ArrayReads(j: Json, ws: string, rest: string)
    requires j.JArray? && Blanks(ws) && AllClean(j)
    ensures ParseValue(JsonText(j, ws) + rest) == Some((ValueOf(j), rest))
    decreases j, 0, |j.elems| + 1
  {
    hide ParseValue, ParseArray, ParseElems, Blanks, ElemsText, AllClean;
    var t := ElemsText(j, 0, ws) + rest;
    assert JsonText(j, ws) + rest == "[" + (ws + t);
    ArrayValue(ws + t);
    if j.elems == [] {
      NoElems(j, ws);
      assert ("]" + rest)[1..] == rest;
      ArrayStarts(ws, t);
    } else {
      ElemsBegin(j, 0, ws, rest);
      ArrayStarts(ws, t);
      ElemsRead(j, 0, ws, rest, []);
      assert [] + ElemsOf(j, 0) == ElemsOf(j, 0);
    }
  }

  lemma {:induction false} MembersAllRead(j: Json, ws: string, rest: string)
    requires j.JObject? && Blanks(ws) && AllClean(j)
    ensures ParseValue(JsonText(j, ws) + rest) == Some((ValueOf(j), rest))
    decreases j, 0, |j.members| + 1
  {
    hide ParseValue, ParseObject, ParseMembers, Blanks, MembersText, AllClean;
    var t := MembersText(j, 0, ws) + rest;
    assert JsonText(j, ws) + rest == "{" + (ws + t);
    ObjectValue(ws + t);
    if j.members == [] {
      NoMembers(j, ws);
      assert ("}" + rest)[1..] == rest;
      ObjectStarts(ws, t);
    } else {
      MembersBegin(j, 0, ws, rest);
      ObjectStarts(ws, t);
      MembersRead(j, 0, ws, rest, map[]);
    }
  }

  /** Every value reads back, whatever follows it, if its strings are clean. */
  lemma {:induction false} ValueReads(j: Json, ws: string, rest: string)
    requires Blanks(ws) && AllClean(j) && EndsNumber(rest)
    ensures ParseValue(JsonText(j, ws) + rest) == Some((ValueOf(j), rest))
    decreases j, 1, 0
  {
    hide ParseValue, Blanks, EndsNumber, Esc, Int, Clean;
    match j
    case JText(s) => StringValue(s, rest);
    case JNumber(n) => NumberValue(n, rest);
    case JFlag(b) => JsonObjects.FlagValue(b, rest);
    case JNull => NullValue(rest);
    case JArray(_) => ArrayReads(j, ws, rest);
    case JObject(_) => MembersAllRead(j, ws, rest);
  }

  /** A line that is one object is read with all its members. */
  lemma ObjectReads(j: Json, ws: string)
    requires j.JObject? && Blanks(ws) && AllClean(j)
    ensures Loads(JsonText(j, ws)) == Some(MembersOf(j, 0, map[]))
  {
    hide ParseValue, ParseObject, AllClean, Blanks, ParseMembers, MembersText;
    ValueReads(j, ws, "");
    var t := ws + MembersText(j, 0, ws);
    assert JsonText(j, ws) + "" == JsonText(j, ws) == "{" + t && ("{" + t)[1..] == t;
    ObjectValue(t);
  }
}
