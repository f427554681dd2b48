/** Flat JSON objects of strings, integers and truth values as a list of members:
    printing them and reading them back (section 4 of RFC 8259). */
module JsonObjects {
  import opened Wrappers
  import opened EventText
  import opened JsonScan
  import opened JsonReader
  import opened JsonDecode

  predicate Printable(v: Value)
  {
    v.Text? || v.Number? || v.Flag?
  }

  type Member = m: (string, Value) | Printable(m.1) witness ("", Flag(true))

  // ---- the round trip ------------------------------------------------------

  function ValueText(v: Value): string
    requires Printable(v)
  {
    match v
    case Text(s) => "\"" + (Esc(s) + "\"")
    case Number(n) => Int(n)
    case Flag(b) => if b then "true" else "false"
  }

  /** The members, a comma between any two, and the closing brace. */
  function MembersText(ms: seq<Member>): string
    requires ms != []
    decreases |ms|, 1
  {
    Key(ms[0].0) + (ValueText(ms[0].1) + MembersTail(ms))
  }

  function MembersTail(ms: seq<Member>): string
    requires ms != []
    decreases |ms|, 0
  {
    if |ms| == 1 then "}" else "," + MembersText(ms[1..])
  }

  function ObjectText(ms: seq<Member>): string
    requires ms != []
  {
    "{" + MembersText(ms)
  }

  function Build(ms: seq<Member>, acc: Record): Record
  {
    if ms == [] then acc else Build(ms[1..], acc[ms[0].0 := ms[0].1])
  }

  predicate CleanValue(v: Value)
  {
    v.Text? ==> Clean(v.s)
  }

  predicate CleanMembers(ms: seq<Member>)
  {
    forall i :: 0 <= i < |ms| ==> CleanValue(ms[i].1)
  }

  predicate SimpleKeys(ms: seq<Member>)
  {
    forall i :: 0 <= i < |ms| ==> Simple(ms[i].0)
  }

  lemma FlagValue(b: bool, more: string)
    ensures ParseValue(ValueText(Flag(b)) + more) == Some((Flag(b), more))
    ensures !IsBlank((ValueText(Flag(b)) + more)[0])
  {
    var t := ValueText(Flag(b)) + more;
    assert t[0] == if b then 't' else 'f';
    if b {
      assert t[4..] == more && "true" <= t;
    } else {
      assert t[5..] == more && "false" <= t && "true"[0] == 't';
    }
  }

  lemma FlagMember(k: string, b: bool, more: string, acc: Record)
    requires Simple(k)
    ensures ParseMembers(Key(k) + (ValueText(Flag(b)) + more), acc) == Continue(more, acc[k := Flag(b)])
  {
    hide ParseMembers, ParseValue, Key, Continue;
    FlagValue(b, more);
    hide ValueText;
    KeyMember(k, ValueText(Flag(b)) + more, acc);
  }

  lemma OneMember(m: Member, more: string, acc: Record)
    requires Simple(m.0) && EndsNumber(more)
    ensures ParseMembers(Key(m.0) + (ValueText(m.1) + more), acc)
         == if CleanValue(m.1) then Continue(more, acc[m.0 := m.1]) else None
  {
    hide ParseMembers, Continue, Key, Esc, Int, Clean;
    match m.1
    case Text(s) =>
      Assoc("\"", Esc(s) + "\"", more);
      Assoc(Esc(s), "\"", more);
      TextMember(m.0, s, more, acc);
    case Number(n) =>
      NumberMember(m.0, n, more, acc);
    case Flag(b) =>
      FlagMember(m.0, b, more, acc);
  }

  lemma CleanFirst(ms: seq<Member>)
    requires ms != []
    ensures CleanMembers(ms) <==> CleanValue(ms[0].1) && CleanMembers(ms[1..])
  {
    hide CleanValue;
    if CleanValue(ms[0].1) && CleanMembers(ms[1..]) {
      forall i | 0 <= i < |ms| ensures CleanValue(ms[i].1) {
        if i > 0 { assert ms[i] == ms[1..][i - 1]; }
      }
    }
  }

  lemma {:induction false} MembersReadBack(ms: seq<Member>, acc: Record)
    requires ms != [] && SimpleKeys(ms)
    ensures ParseMembers(MembersText(ms), acc) == if CleanMembers(ms) then Some((Build(ms, acc), "")) else None
  {
    hide ParseMembers, Continue, Key, ValueText, CleanValue, Simple;
    var acc1 := acc[ms[0].0 := ms[0].1];
    if |ms| == 1 {
      assert ms[1..] == [] && "}" + "" == "}";
      ContinueEnds("", acc1);
      OneMember(ms[0], "}", acc);
    } else {
      MembersReadBack(ms[1..], acc1);
      NextKey(ms[1].0, ValueText(ms[1].1) + MembersTail(ms[1..]), acc1);
      OneMember(ms[0], "," + MembersText(ms[1..]), acc);
      assert CleanMembers(ms) <==> CleanValue(ms[0].1) && CleanMembers(ms[1..]) by { CleanFirst(ms); }
    }
  }

  /** Any flat object, printed and read, gives its members back, the later of equal keys
      winning, if and only if its strings are clean. */
  lemma ObjectRoundTrip(ms: seq<Member>)
    requires ms != [] && SimpleKeys(ms)
    ensures Loads(ObjectText(ms)) == if CleanMembers(ms) then Some(Build(ms, map[])) else None
  {
    MembersReadBack(ms, map[]);
    hide ParseMembers, ValueText, CleanMembers;
    assert Key(ms[0].0)[0] == '\"';
    LoadsMembers(MembersText(ms));
  }

  // ---- as the scanner sees it ----------------------------------------------

  lemma ValueFeed(v: Value)
    requires Printable(v)
    ensures FeedAll(BETWEEN, ValueText(v)) == BETWEEN
  {
    match v
    case Text(s) =>
      EscFeed(s);
      hide FeedAll, Esc;
      FeedOne(BETWEEN, '\"');
      FeedOne(INSIDE, '\"');
      FeedConcat(INSIDE, Esc(s), "\"");
      FeedConcat(BETWEEN, "\"", Esc(s) + "\"");
    case Number(n) =>
      IntFeed(n);
      hide FeedAll, Int;
    case Flag(b) =>
      QuietFeed(ValueText(Flag(b)));
      hide FeedAll;
  }

  lemma SimplePlain(k: string)
    requires Simple(k)
    ensures Plain(k)
  {}

  /** The members, without the closing brace, stay between the braces. */
  lemma {:induction false} MembersOpen(ms: seq<Member>)
    requires ms != [] && SimpleKeys(ms)
    ensures var t := MembersText(ms); t != "" && t[|t| - 1] == '}' && FeedAll(BETWEEN, t[..|t| - 1]) == BETWEEN
  {
    hide FeedAll, Key, ValueText;
    var t, h := MembersText(ms), Key(ms[0].0) + ValueText(ms[0].1);
    SimplePlain(ms[0].0);
    KeyFeed(ms[0].0);
    ValueFeed(ms[0].1);
    FeedConcat(BETWEEN, Key(ms[0].0), ValueText(ms[0].1));
    Assoc(Key(ms[0].0), ValueText(ms[0].1), MembersTail(ms));
    if |ms| == 1 {
      assert t == h + "}" && t[..|t| - 1] == h;
    } else {
      var u := MembersText(ms[1..]);
      MembersOpen(ms[1..]);
      assert t == h + ("," + u) && t[..|t| - 1] == h + ("," + u[..|u| - 1]);
      FeedOne(BETWEEN, ',');
      FeedConcat(BETWEEN, ",", u[..|u| - 1]);
      FeedConcat(BETWEEN, h, "," + u[..|u| - 1]);
    }
  }

  /** An object's text is open up to its last brace. */
  lemma ObjectOpen(ms: seq<Member>)
    requires ms != [] && SimpleKeys(ms)
    ensures OpenUntilLastBrace(ObjectText(ms)) && ObjectText(ms)[0] == '{'
  {
    hide FeedAll, MembersText;
    MembersOpen(ms);
    var t := MembersText(ms);
    FeedOne(START, '{');
    FeedConcat(START, "{", t[..|t| - 1]);
    assert ObjectText(ms)[..|ObjectText(ms)| - 1] == "{" + t[..|t| - 1];
  }
}
