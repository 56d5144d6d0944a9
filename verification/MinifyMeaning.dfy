/**
  What minifying does to documents. Spaces and comments between the tokens go, everything else
  stays; so the minified text is the same document with smaller gaps, and means the same.
 */
module MinifyMeaning {
  import opened Bytes
  import opened JsonTree
  import opened NumberText
  import opened StringText
  import opened PrintedText
  import opened Grammar
  import opened Minify
  import opened MinifySyntax
  import opened Documents
  import opened RoundTrip
  import StringSyntax
  import NumberSyntax

  // ----- the document that is left

  /** What is left of a gap: whitespace that only the parser takes for such. */
  function StripGap(g: Gap): Gap {
    match g
    case NoGap => NoGap
    case Gap(piece, more) => if piece.Other? then Gap(piece, StripGap(more)) else StripGap(more)
  }

  function Strip(doc: Doc): Doc {
    match doc
    case List(named, open, entries) => List(named, StripGap(open), StripEntries(entries))
    case _ => doc
  }

  function StripEntries(entries: Entries): Entries {
    match entries
    case NoEntries => NoEntries
    case Entry(key, value, behind, ahead, more) =>
      Entry(StripKey(key), Strip(value), StripGap(behind), StripGap(ahead), StripEntries(more))
  }

  function StripKey(key: Key): Key {
    match key
    case NoKey => NoKey
    case Key(body, bytes, behind, ahead) => Key(body, bytes, StripGap(behind), StripGap(ahead))
  }

  lemma {:induction false} StripGapValid(g: Gap, dialect: Dialect)
    requires ValidGap(g, dialect)
    ensures ValidGap(StripGap(g), dialect.(comments := false))
  {
    if g.Gap? {
      StripGapValid(g.more, dialect);
    }
  }

  /** It has no comments any more, and it means the same. */
  lemma {:induction false} StripMeansSame(doc: Doc, dialect: Dialect)
    requires ValidDoc(doc, dialect)
    ensures ValidDoc(Strip(doc), dialect.(comments := false)) && Tree(Strip(doc)) == Tree(doc)
    decreases doc, 0
  {
    hide ValidString;
    if doc.List? {
      StripGapValid(doc.open, dialect);
      StripEntriesMeanSame(doc.entries, doc.named, dialect);
    }
  }

  lemma {:induction false} StripEntriesMeanSame(entries: Entries, named: bool, dialect: Dialect)
    requires ValidEntries(entries, named, dialect)
    ensures ValidEntries(StripEntries(entries), named, dialect.(comments := false))
    ensures ItemsOf(StripEntries(entries)) == ItemsOf(entries)
    ensures MembersOf(StripEntries(entries)) == MembersOf(entries)
    decreases entries, 1
  {
    hide ValidDoc, Tree, Strip, ValidString, ValidGap;
    match entries
    case NoEntries =>
    case Entry(key, value, behind, ahead, more) =>
      StripMeansSame(value, dialect);
      StripGapValid(behind, dialect);
      StripGapValid(ahead, dialect);
      if key.Key? {
        StripGapValid(key.behind, dialect);
        StripGapValid(key.ahead, dialect);
      }
      StripEntriesMeanSame(more, named, dialect);
  }

  // ----- its text

  /** A byte that is copied on its own, whatever follows. */
  predicate Plain(c: byte) {
    c !in SPACES && c != QUOTE && c != SLASH
  }

  predicate AllPlain(t: Bytes) {
    forall i :: 0 <= i < |t| ==> Plain(t[i])
  }

  lemma {:induction false} PlainCopied(t: Bytes, rest: Bytes)
    requires AllPlain(t)
    ensures Minified(t + rest) == Behind(t, Minified(rest))
  {
    hide Minified;
    if t == [] {
      assert t + rest == rest;
      BehindNothing(rest);
    } else {
      PlainCopied(t[1..], rest);
      PieceMinified(Other(t[0]), t[1..] + rest);
      assert t == [t[0]] + t[1..] && t + rest == [t[0]] + (t[1..] + rest);
      BehindBoth([t[0]], t[1..], Minified(rest));
    }
  }

  lemma {:induction false} GapMinified(g: Gap, dialect: Dialect, rest: Bytes)
    requires ValidGap(g, dialect)
    ensures var m := Minified(rest);
            Minified(PutGap(g, rest)) == if m.None? then None else Some(PutGap(StripGap(g), m.value))
  {
    hide Minified;
    match g
    case NoGap =>
    case Gap(piece, more) =>
      GapMinified(more, dialect, rest);
      PieceMinified(piece, PutGap(more, rest));
      if Minified(rest).Some? {
        var m := PutGap(StripGap(more), Minified(rest).value);
        assert [] + m == m;
      }
  }

  lemma StringMinified(body: Bytes, rest: Bytes)
    requires InStep(body)
    ensures var m := Minified(rest);
            Minified(PutString(body, rest)) == if m.None? then None else Some(PutString(body, m.value))
  {
    hide Minified;
    PieceMinified(Quoted(body), rest);
  }

  lemma TokenMinified(c: byte, rest: Bytes)
    requires Plain(c)
    ensures var m := Minified(rest);
            Minified([c] + rest) == if m.None? then None else Some([c] + m.value)
  {
    hide Minified;
    PlainCopied([c], rest);
  }

  lemma NumberMinified(d: NumberSyntax.Decimal, rest: Bytes)
    requires NumberSyntax.Valid(d)
    ensures var m := Minified(rest);
            Minified(NumberSyntax.Text(d) + rest) == if m.None? then None else Some(NumberSyntax.Text(d) + m.value)
  {
    hide Minified, NumberSyntax.Text, NumberSyntax.Valid;
    NumberSyntax.DecimalBytes(d);
    forall i | 0 <= i < |NumberSyntax.Text(d)| ensures Plain(NumberSyntax.Text(d)[i]) {
      assert IsNumberByte(NumberSyntax.Text(d)[i]);
    }
    PlainCopied(NumberSyntax.Text(d), rest);
  }

  /** Minifying a document in front of any text leaves the stripped document in front of what is left of the text. */
  lemma {:induction false} DocMinified(doc: Doc, dialect: Dialect, rest: Bytes)
    requires ValidDoc(doc, dialect)
    ensures var m := Minified(rest);
            Minified(Put(doc, rest)) == if m.None? then None else Some(Put(Strip(doc), m.value))
    decreases doc, 0
  {
    hide Minified, PutEntries, StripEntries, ValidEntries, PutGap, StripGap, InStep, StringSyntax.Spelled;
    match doc
    case Word(value) => PlainCopied(WordText(value), rest);
    case Num(decimal) => NumberMinified(decimal, rest);
    case Str(body, _) => StringMinified(body, rest);
    case List(named, open, entries) =>
      var start, end := if named then LEFT_BRACE else LEFT_BRACKET, if named then RIGHT_BRACE else RIGHT_BRACKET;
      TokenMinified(end, rest);
      EntriesMinified(entries, named, dialect, [end] + rest);
      GapMinified(open, dialect, PutEntries(entries, [end] + rest));
      TokenMinified(start, PutGap(open, PutEntries(entries, [end] + rest)));
  }

  lemma {:induction false} EntriesMinified(entries: Entries, named: bool, dialect: Dialect, rest: Bytes)
    requires ValidEntries(entries, named, dialect)
    ensures var m := Minified(rest);
            Minified(PutEntries(entries, rest))
            == if m.None? then None else Some(PutEntries(StripEntries(entries), m.value))
    decreases entries, 1
  {
    hide Minified, Put, Strip, ValidDoc, PutGap, StripGap, ValidGap, PutKey, ValidKey, StripKey;
    match entries
    case NoEntries =>
    case Entry(key, value, behind, ahead, more) =>
      var next := rest;
      if more.Entry? {
        var others := PutEntries(more, rest);
        EntriesMinified(more, named, dialect, rest);
        GapMinified(ahead, dialect, others);
        TokenMinified(COMMA, PutGap(ahead, others));
        next := [COMMA] + PutGap(ahead, others);
      }
      GapMinified(behind, dialect, next);
      DocMinified(value, dialect, PutGap(behind, next));
      KeyMinified(key, named, dialect, Put(value, PutGap(behind, next)));
  }

  lemma KeyMinified(key: Key, named: bool, dialect: Dialect, rest: Bytes)
    requires ValidKey(key, named, dialect)
    ensures var m := Minified(rest);
            Minified(PutKey(key, rest)) == if m.None? then None else Some(PutKey(StripKey(key), m.value))
  {
    hide Minified, PutGap, StripGap, ValidGap, PutString, InStep;
    if key.Key? {
      var colon := [COLON] + PutGap(key.ahead, rest);
      GapMinified(key.ahead, dialect, rest);
      TokenMinified(COLON, PutGap(key.ahead, rest));
      GapMinified(key.behind, dialect, colon);
      StringMinified(key.body, PutGap(key.behind, colon));
    }
  }

  /** The same for a whole text, whose end may be another comment. */
  lemma TextMinified(bom: bool, before: Gap, doc: Doc, behind: Gap, end: Bytes, dialect: Dialect)
    requires ValidGap(before, dialect) && ValidDoc(doc, dialect) && ValidGap(behind, dialect)
    requires Minified(end) == Some([])
    ensures Minified(DocText(bom, before, doc, behind, end))
         == Some(DocText(bom, StripGap(before), Strip(doc), StripGap(behind), []))
  {
    hide Minified, Put, PutGap, Strip, StripGap, ValidDoc, ValidGap;
    GapMinified(behind, dialect, end);
    DocMinified(doc, dialect, PutGap(behind, end));
    GapMinified(before, dialect, Put(doc, PutGap(behind, end)));
    PlainCopied(if bom then BOM else [], PutGap(before, Put(doc, PutGap(behind, end))));
  }

  /**
    Comments between the tokens of a document, and one at its end, vanish: the minified text is
    accepted and means what the document means, although the parser knows no comments.
   */
  lemma CommentsVanish(bom: bool, before: Gap, doc: Doc, behind: Gap, end: Bytes)
    requires var d := Dialect(true, false); ValidGap(before, d) && ValidDoc(doc, d) && ValidGap(behind, d)
    requires Minified(end) == Some([])
    ensures var m := Minified(DocText(bom, before, doc, behind, end));
            m.Some? && ParseText(m.value, true) == Expected(Nesting(Tree(doc)) <= NESTING_LIMIT, Tree(doc), [])
  {
    hide Minified, ParseText, DocText, Strip, StripGap, ValidDoc, ValidGap, Tree;
    var d := Dialect(true, false);
    TextMinified(bom, before, doc, behind, end, d);
    StripGapValid(before, d);
    StripGapValid(behind, d);
    StripMeansSame(doc, d);
    DocAccepted(bom, StripGap(before), Strip(doc), StripGap(behind));
  }

  /**
    Minify keeps the meaning of every text cJSON_ParseWithOpts accepts with
    require_null_terminated: its strings are closed, and its minified form gives the same tree.
   */
  lemma MinifyKeepsMeaning(text: Bytes)
    requires ParseText(text, true).Read?
    ensures Minified(text).Some? && ParseText(Minified(text).value, true) == ParseText(text, true)
  {
    hide Minified, DocText, ParseValue, Strip, StripGap, ValidDoc, ValidGap, Tree;
    var bom, before, doc, behind := AcceptedDoc(text);
    NothingMinified();
    TextMinified(bom, before, doc, behind, [], JSON);
    StripGapValid(before, JSON);
    StripGapValid(behind, JSON);
    StripMeansSame(doc, JSON);
    DocAccepted(bom, StripGap(before), Strip(doc), StripGap(behind));
    ParsedTextBounded(text, true);
  }

  // ----- formatted texts

  lemma {:induction false} TabsStripped(n: nat)
    ensures StripGap(TabGap(n)) == NoGap
  {
    if n > 0 {
      TabsStripped(n - 1);
    }
  }

  lemma GapsStripped(fmt: bool, n: nat)
    ensures StripGap(LineGap(fmt, n)) == StripGap(NoGap) == NoGap
    ensures StripGap(OneGap(fmt, SPACE)) == StripGap(OneGap(fmt, TAB)) == NoGap
  {
    TabsStripped(n);
  }

  /** Without its gaps, the printed document is the one that is printed unformatted. */
  lemma {:induction false} DocStripped(j: Json, fmt: bool, depth: nat, other: nat)
    ensures Strip(DocOf(j, fmt, depth)) == DocOf(j, false, other)
    decreases j, 0
  {
    hide StripEntries, StripGap, ItemEntries, MemberEntries, DecimalOf;
    match j
    case Array(items) =>
      GapsStripped(fmt, depth);
      ItemsStripped(items, fmt, depth + 1, other + 1);
    case Object(members) =>
      GapsStripped(fmt, if members.NoMembers? then depth else depth + 1);
      MembersStripped(members, fmt, depth, other);
    case _ =>
  }

  lemma {:induction false} ItemsStripped(items: Items, fmt: bool, depth: nat, other: nat)
    ensures StripEntries(ItemEntries(items, fmt, depth)) == ItemEntries(items, false, other)
    decreases items, 1
  {
    hide Strip, StripGap, DocOf, OneGap;
    match items
    case NoItems =>
    case Item(head, tail) =>
      GapsStripped(fmt && tail.Item?, depth);
      GapsStripped(false, depth);
      NoOneGap(SPACE);
      DocStripped(head, fmt, depth, other);
      ItemsStripped(tail, fmt, depth, other);
  }

  lemma NoOneGap(c: byte)
    ensures OneGap(false, c) == NoGap
  {
  }

  lemma {:induction false} MembersStripped(members: Members, fmt: bool, depth: nat, other: nat)
    ensures StripEntries(MemberEntries(members, fmt, depth)) == MemberEntries(members, false, other)
    decreases members, 1
  {
    hide Strip, StripGap, DocOf, OneGap;
    match members
    case NoMembers =>
    case Member(_, value, rest) =>
      GapsStripped(fmt, depth);
      GapsStripped(fmt, depth + 1);
      NoOneGap(TAB);
      DocStripped(value, fmt, depth + 1, other + 1);
      MembersStripped(rest, fmt, depth, other);
  }

  /** Minifying the printed text of a value leaves its unformatted text, in front of any text. */
  lemma ValueBecomes(j: Json, fmt: bool, depth: nat, other: nat, rest: Bytes)
    ensures var m := Minified(rest);
            Minified(Render(j, fmt, depth) + rest) == if m.None? then None else Some(Render(j, false, other) + m.value)
  {
    hide Minified, Render, Put, Strip, ValidDoc, DocOf;
    DocValid(j, fmt, depth, false);
    RenderPut(j, fmt, depth, rest);
    DocMinified(DocOf(j, fmt, depth), DialectOf(false), rest);
    DocStripped(j, fmt, depth, other);
    if Minified(rest).Some? {
      RenderPut(j, false, other, Minified(rest).value);
    }
  }

  /** Minify turns the formatted text of a tree into its unformatted text, and leaves that as it is. */
  lemma MinifyUnformats(j: Json, fmt: bool)
    ensures Minified(Render(j, fmt, 0)) == Some(Render(j, false, 0))
  {
    NothingMinified();
    ValueBecomes(j, fmt, 0, 0, []);
    assert Render(j, fmt, 0) + [] == Render(j, fmt, 0) && Render(j, false, 0) + [] == Render(j, false, 0);
  }
}
