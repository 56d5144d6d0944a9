/**
  The layout of formatted texts in its own terms: a scan that knows of JSON only the brackets
  around the current place, and where the line breaks, tabs and spaces of cJSON_Print go. It
  turns the text of a tree, in either format, into its formatted text.
 */
module Layout {
  import opened Bytes
  import opened JsonTree
  import opened NumberText
  import opened StringText
  import opened Escaping
  import opened PrintedText
  import opened MinifySyntax
  import opened Documents
  import opened RoundTrip
  import NumberSyntax
  import StringSyntax

  /** As many tabs as there are brackets around the line. */
  function TabStops(depth: nat): Bytes {
    seq(depth, i => TAB)
  }

  /** At the start of a line, the first token comes behind tabs. */
  function Margin(lineStart: bool, depth: nat): Bytes {
    if lineStart then TabStops(depth) else []
  }

  /**
    `braces` says of the brackets around the place, outermost first, which are braces. Members
    stand on lines of their own, a colon is followed by a tab, elements are separated by a comma
    and a space, and whitespace between the tokens of the text is dropped.
   */
  function Laid(s: Bytes, braces: seq<bool>, lineStart: bool): Bytes
    decreases |s|
  {
    var depth := |braces|;
    if s == [] then []
    else if s[0] <= 32 then Laid(s[1..], braces, lineStart)
    else if s[0] == QUOTE then
      match ClosingQuote(s[1..])
      case None => s
      case Some(k) => Margin(lineStart, depth) + (s[..k + 2] + Laid(s[k + 2..], braces, false))
    else if s[0] == LEFT_BRACE then [LEFT_BRACE, NEWLINE] + Laid(s[1..], braces + [true], true)
    else if s[0] == LEFT_BRACKET then [LEFT_BRACKET] + Laid(s[1..], braces + [false], false)
    else if s[0] == RIGHT_BRACE && depth > 0 then
      (if lineStart then [] else [NEWLINE])
      + (TabStops(depth - 1) + ([RIGHT_BRACE] + Laid(s[1..], braces[..depth - 1], false)))
    else if s[0] == RIGHT_BRACKET && depth > 0 then [RIGHT_BRACKET] + Laid(s[1..], braces[..depth - 1], false)
    else if s[0] == COMMA && depth > 0 && braces[depth - 1] then [COMMA, NEWLINE] + Laid(s[1..], braces, true)
    else if s[0] == COMMA then [COMMA, SPACE] + Laid(s[1..], braces, false)
    else if s[0] == COLON then [COLON, TAB] + Laid(s[1..], braces, false)
    else [s[0]] + Laid(s[1..], braces, false)
  }

  // ----- tokens

  lemma {:induction false} GapLaid(g: Gap, rest: Bytes, braces: seq<bool>, lineStart: bool)
    requires ValidGap(g, JSON)
    ensures Laid(PutGap(g, rest), braces, lineStart) == Laid(rest, braces, lineStart)
  {
    if g.Gap? {
      GapLaid(g.more, rest, braces, lineStart);
      assert PutGap(g, rest)[1..] == PutGap(g.more, rest);
    }
  }

  /** Bytes of words and numbers. */
  predicate AllOfWords(t: Bytes) {
    forall i :: 0 <= i < |t| ==> IsNumberByte(t[i]) || 97 <= t[i] <= 122
  }

  lemma {:induction false} WordLaid(t: Bytes, rest: Bytes, braces: seq<bool>)
    requires AllOfWords(t)
    ensures Laid(t + rest, braces, false) == t + Laid(rest, braces, false)
  {
    if t == [] {
      assert t + rest == rest && t + Laid(rest, braces, false) == Laid(rest, braces, false);
    } else {
      WordLaid(t[1..], rest, braces);
      assert (t + rest)[1..] == t[1..] + rest;
      assert t == [t[0]] + t[1..];
      Associative([t[0]], t[1..], Laid(rest, braces, false));
    }
  }

  lemma StringLaid(body: Bytes, rest: Bytes, braces: seq<bool>, lineStart: bool)
    requires InStep(body)
    ensures Laid(PutString(body, rest), braces, lineStart)
         == Margin(lineStart, |braces|) + PutString(body, Laid(rest, braces, false))
  {
    hide InStep, ClosingQuote, Margin;
    var s := PutString(body, rest);
    assert s[1..] == body + [QUOTE] + rest && s[|body| + 2..] == rest;
    assert s[..|body| + 2] == [QUOTE] + body + [QUOTE];
    StringSyntax.BodyClosed(body, rest);
  }

  lemma OpenLaid(named: bool, rest: Bytes, braces: seq<bool>)
    ensures named ==>
      Laid([LEFT_BRACE] + rest, braces, false) == [LEFT_BRACE, NEWLINE] + Laid(rest, braces + [true], true)
    ensures !named ==>
      Laid([LEFT_BRACKET] + rest, braces, false) == [LEFT_BRACKET] + Laid(rest, braces + [false], false)
  {
    assert ([LEFT_BRACE] + rest)[1..] == rest && ([LEFT_BRACKET] + rest)[1..] == rest;
  }

  lemma CloseLaid(rest: Bytes, braces: seq<bool>, lineStart: bool)
    ensures Laid([RIGHT_BRACE] + rest, braces + [true], lineStart)
         == (if lineStart then [] else [NEWLINE]) + (TabStops(|braces|) + ([RIGHT_BRACE] + Laid(rest, braces, false)))
    ensures Laid([RIGHT_BRACKET] + rest, braces + [false], false) == [RIGHT_BRACKET] + Laid(rest, braces, false)
  {
    assert ([RIGHT_BRACE] + rest)[1..] == rest && ([RIGHT_BRACKET] + rest)[1..] == rest;
    assert (braces + [true])[..|braces|] == braces && (braces + [false])[..|braces|] == braces;
  }

  lemma CommaLaid(rest: Bytes, braces: seq<bool>)
    ensures Laid([COMMA] + rest, braces + [true], false) == [COMMA, NEWLINE] + Laid(rest, braces + [true], true)
    ensures Laid([COMMA] + rest, braces + [false], false) == [COMMA, SPACE] + Laid(rest, braces + [false], false)
  {
    assert ([COMMA] + rest)[1..] == rest;
  }

  lemma ColonLaid(rest: Bytes, braces: seq<bool>)
    ensures Laid([COLON] + rest, braces, false) == [COLON, TAB] + Laid(rest, braces, false)
  {
    assert ([COLON] + rest)[1..] == rest;
  }

  // ----- gaps of formatted texts

  lemma StopsPut(n: nat, rest: Bytes)
    ensures PutGap(TabGap(n), rest) == TabStops(n) + rest
    ensures PutGap(LineGap(true, n), rest) == [NEWLINE] + (TabStops(n) + rest)
  {
    TabsPut(n, rest);
    assert Tabs(n) == TabStops(n);
  }

  lemma SpacePut(c: byte, rest: Bytes)
    ensures PutGap(OneGap(true, c), rest) == [c] + rest && PutGap(NoGap, rest) == rest
  {
    OnePut(true, c, rest);
  }

  // ----- documents

  lemma {:induction false} ValueLaid(j: Json, fmt: bool, depth: nat, braces: seq<bool>, rest: Bytes)
    ensures Laid(Put(DocOf(j, fmt, depth), rest), braces, false)
         == Put(DocOf(j, true, |braces|), Laid(rest, braces, false))
    decreases j, 0
  {
    hide Laid, PutGap, ItemEntries, MemberEntries, PutEntries, LineGap, Escape, InStep;
    hide AllOfWords, WordText, IntText, DecimalOf, NumberSyntax.Text, Margin, ValidString;
    match j
    case Number(value) =>
      DecimalText(value.Floor);
      IntTextOfWords(value.Floor);
      WordLaid(IntText(value.Floor), rest, braces);
    case String(text) =>
      EscapeInStep(text);
      StringLaid(Escape(text), rest, braces, false);
      NoMargin(|braces|, PutString(Escape(text), Laid(rest, braces, false)));
    case Array(items) => ArrayLaid(items, fmt, depth, braces, rest);
    case Object(members) => ObjectLaid(members, fmt, depth, braces, rest);
    case _ =>
      LettersOfWords(j);
      WordLaid(WordText(j), rest, braces);
  }

  lemma LettersOfWords(j: Json)
    ensures AllOfWords(WordText(j))
  {
  }

  lemma NoMargin(depth: nat, s: Bytes)
    ensures Margin(false, depth) + s == s
  {
  }

  lemma EscapeInStep(text: Bytes)
    ensures InStep(Escape(text))
  {
    EscapeValid(text);
  }

  lemma IntTextOfWords(n: int)
    ensures AllOfWords(IntText(n))
  {
    hide NatText;
  }

  lemma {:induction false} ArrayLaid(items: Items, fmt: bool, depth: nat, braces: seq<bool>, rest: Bytes)
    ensures Laid(Put(DocOf(Array(items), fmt, depth), rest), braces, false)
         == Put(DocOf(Array(items), true, |braces|), Laid(rest, braces, false))
    decreases items, 2
  {
    hide Laid, PutGap, ItemEntries, PutEntries;
    var s := PutEntries(ItemEntries(items, fmt, depth + 1), [RIGHT_BRACKET] + rest);
    NoGapPut(s);
    OpenLaid(false, s, braces);
    ItemsLaid(items, fmt, depth + 1, braces, [RIGHT_BRACKET] + rest);
    CloseLaid(rest, braces, false);
    NoGapPut(PutEntries(ItemEntries(items, true, |braces| + 1), [RIGHT_BRACKET] + Laid(rest, braces, false)));
  }

  lemma {:induction false} ItemsLaid(items: Items, fmt: bool, depth: nat, braces: seq<bool>, rest: Bytes)
    ensures Laid(PutEntries(ItemEntries(items, fmt, depth), rest), braces + [false], false)
         == PutEntries(ItemEntries(items, true, |braces| + 1), Laid(rest, braces + [false], false))
    decreases items, 1
  {
    hide Laid, PutGap, DocOf, Put, OneGap;
    match items
    case NoItems =>
    case Item(head, tail) =>
      var next, laid := rest, Laid(rest, braces + [false], false);
      if tail.Item? {
        var more := PutEntries(ItemEntries(tail, fmt, depth), rest);
        var gap := OneGap(fmt, SPACE);
        next := [COMMA] + PutGap(gap, more);
        ItemsLaid(tail, fmt, depth, braces, rest);
        GapsValid(fmt, 0, JSON);
        GapLaid(gap, more, braces + [false], false);
        CommaLaid(PutGap(gap, more), braces);
        var laidMore := PutEntries(ItemEntries(tail, true, |braces| + 1), laid);
        SpacePut(SPACE, laidMore);
        laid := [COMMA] + PutGap(OneGap(true, SPACE), laidMore);
        assert laid == [COMMA, SPACE] + laidMore;
      }
      NoGapPut(next);
      NoGapPut(laid);
      ValueLaid(head, fmt, depth, braces + [false], next);
  }

  lemma {:induction false} ObjectLaid(members: Members, fmt: bool, depth: nat, braces: seq<bool>, rest: Bytes)
    ensures Laid(Put(DocOf(Object(members), fmt, depth), rest), braces, false)
         == Put(DocOf(Object(members), true, |braces|), Laid(rest, braces, false))
    decreases members, 2
  {
    hide Laid, PutGap, LineGap, MemberEntries, PutEntries, TabStops;
    var n, close := |braces|, [RIGHT_BRACE] + rest;
    var open := LineGap(fmt, if members.NoMembers? then depth else depth + 1);
    var s := PutEntries(MemberEntries(members, fmt, depth), close);
    var laid := PutEntries(MemberEntries(members, true, n), [RIGHT_BRACE] + Laid(rest, braces, false));
    GapsValid(fmt, if members.NoMembers? then depth else depth + 1, JSON);
    OpenLaid(true, PutGap(open, s), braces);
    GapLaid(open, s, braces + [true], true);
    if members.NoMembers? {
      NoMembersLaid(fmt, depth, n, close);
      NoMembersLaid(true, n, n, [RIGHT_BRACE] + Laid(rest, braces, false));
      CloseLaid(rest, braces, true);
      StopsPut(n, laid);
      Broken(TabStops(n) + laid);
    } else {
      MembersLaid(members, fmt, depth, braces, rest);
      StopsPut(n + 1, laid);
      Broken(TabStops(n + 1) + laid);
    }
  }

  lemma NoMembersLaid(fmt: bool, depth: nat, n: nat, rest: Bytes)
    ensures PutEntries(MemberEntries(NoMembers, fmt, depth), rest) == rest
    ensures [] + (TabStops(n) + rest) == TabStops(n) + rest
  {
  }

  lemma Broken(s: Bytes)
    ensures [LEFT_BRACE, NEWLINE] + s == [LEFT_BRACE] + ([NEWLINE] + s)
    ensures [COMMA, NEWLINE] + s == [COMMA] + ([NEWLINE] + s)
  {
  }

  /** Members from the start of the first one's line to the closing brace. */
  lemma {:induction false} MembersLaid(members: Members, fmt: bool, depth: nat, braces: seq<bool>, rest: Bytes)
    requires members.Member?
    ensures Laid(PutEntries(MemberEntries(members, fmt, depth), [RIGHT_BRACE] + rest), braces + [true], true)
         == TabStops(|braces| + 1)
            + PutEntries(MemberEntries(members, true, |braces|), [RIGHT_BRACE] + Laid(rest, braces, false))
    decreases members, 1
  {
    hide Laid, PutGap, DocOf, Put, OneGap, LineGap, PutKey, TabStops;
    var Member(key, value, others) := members;
    var n, inner := |braces|, braces + [true];
    var close, laidClose := [RIGHT_BRACE] + rest, [RIGHT_BRACE] + Laid(rest, braces, false);
    var next, laid;
    if others.NoMembers? {
      next := PutGap(LineGap(fmt, depth), close);
      laid := PutGap(LineGap(true, n), laidClose);
      GapsValid(fmt, depth, JSON);
      GapLaid(LineGap(fmt, depth), close, inner, false);
      CloseLaid(rest, braces, false);
      StopsPut(n, laidClose);
    } else {
      var more, gap := PutEntries(MemberEntries(others, fmt, depth), close), LineGap(fmt, depth + 1);
      var laidMore := PutEntries(MemberEntries(others, true, n), laidClose);
      var comma, laidComma := [COMMA] + PutGap(gap, more), [COMMA] + PutGap(LineGap(true, n + 1), laidMore);
      next, laid := PutGap(NoGap, comma), PutGap(NoGap, laidComma);
      NoGapPut(comma);
      NoGapPut(laidComma);
      MembersLaid(others, fmt, depth, braces, rest);
      GapsValid(fmt, depth + 1, JSON);
      GapLaid(gap, more, inner, true);
      CommaLaid(PutGap(gap, more), braces);
      StopsPut(n + 1, laidMore);
      Broken(TabStops(n + 1) + laidMore);
    }
    assert Laid(next, inner, false) == laid;
    ValueLaid(value, fmt, depth + 1, inner, next);
    KeyLaid(key, fmt, braces, Put(DocOf(value, fmt, depth + 1), next));
  }

  /** A key at the start of its line, and its colon. */
  lemma KeyLaid(key: Bytes, fmt: bool, braces: seq<bool>, rest: Bytes)
    ensures var inner := braces + [true];
            Laid(PutKey(Key(Escape(key), key, NoGap, OneGap(fmt, TAB)), rest), inner, true)
            == TabStops(|braces| + 1)
               + PutKey(Key(Escape(key), key, NoGap, OneGap(true, TAB)), Laid(rest, inner, false))
  {
    hide Laid, PutGap, OneGap, PutString, Escape, InStep, TabStops;
    var inner := braces + [true];
    var colon := [COLON] + PutGap(OneGap(fmt, TAB), rest);
    var laidColon := [COLON] + PutGap(OneGap(true, TAB), Laid(rest, inner, false));
    EscapeInStep(key);
    NoGapPut(colon);
    NoGapPut(laidColon);
    StringLaid(Escape(key), colon, inner, true);
    ColonLaid(PutGap(OneGap(fmt, TAB), rest), inner);
    GapsValid(fmt, 0, JSON);
    GapLaid(OneGap(fmt, TAB), rest, inner, false);
    SpacePut(TAB, Laid(rest, inner, false));
    assert laidColon == [COLON, TAB] + Laid(rest, inner, false);
  }

  /** The text of a tree, compact or formatted, is laid out as its formatted text, inside any brackets. */
  lemma TextLaid(j: Json, fmt: bool, depth: nat, braces: seq<bool>, rest: Bytes)
    ensures Laid(Render(j, fmt, depth) + rest, braces, false) == Render(j, true, |braces|) + Laid(rest, braces, false)
  {
    hide Laid, Render, Put, DocOf;
    RenderPut(j, fmt, depth, rest);
    ValueLaid(j, fmt, depth, braces, rest);
    RenderPut(j, true, |braces|, Laid(rest, braces, false));
  }

  /** What cJSON_Print leaves is the layout of what cJSON_PrintUnformatted leaves. */
  lemma FormattedLayout(j: Json, fmt: bool)
    ensures Laid(Render(j, fmt, 0), [], false) == Render(j, true, 0)
  {
    hide Render;
    TextLaid(j, fmt, 0, [], []);
    assert Render(j, fmt, 0) + [] == Render(j, fmt, 0) && Render(j, true, 0) + [] == Render(j, true, 0);
  }
}
