/**
  Parsing what the printer writes: the text of a tree in either format is the text of a document,
  so it is read back as the same tree, exactly when the tree is not nested more deeply than the
  parser allows.
 */
module RoundTrip {
  import opened Bytes
  import opened JsonTree
  import opened NumberText
  import opened StringText
  import opened Escaping
  import opened PrintedText
  import opened Grammar
  import opened MinifySyntax
  import opened Documents
  import StringSyntax
  import NumberSyntax

  // ----- the document that is printed

  function TabGap(n: nat): Gap {
    if n == 0 then NoGap else Gap(Space(TAB), TabGap(n - 1))
  }

  /** The end of a line and the tabs of the next one. */
  function LineGap(fmt: bool, tabs: nat): Gap {
    if fmt then Gap(Space(NEWLINE), TabGap(tabs)) else NoGap
  }

  function OneGap(fmt: bool, c: byte): Gap {
    if fmt then Gap(Space(c), NoGap) else NoGap
  }

  function DecimalOf(n: int): NumberSyntax.Decimal {
    NumberSyntax.Decimal(if n < 0 then NumberSyntax.Negative else NumberSyntax.Unsigned,
                         NatText(if n < 0 then -n else n), false, [], NumberSyntax.NoScale)
  }

  function DocOf(j: Json, fmt: bool, depth: nat): Doc {
    match j
    case Number(value) => Num(DecimalOf(value.Floor))
    case String(text) => Str(Escape(text), text)
    case Array(items) => List(false, NoGap, ItemEntries(items, fmt, depth + 1))
    case Object(members) =>
      List(true, LineGap(fmt, if members.NoMembers? then depth else depth + 1), MemberEntries(members, fmt, depth))
    case _ => Word(j)
  }

  function ItemEntries(items: Items, fmt: bool, depth: nat): Entries {
    match items
    case NoItems => NoEntries
    case Item(head, tail) =>
      Entry(NoKey, DocOf(head, fmt, depth), NoGap, OneGap(fmt && tail.Item?, SPACE), ItemEntries(tail, fmt, depth))
  }

  /** The members of an object at `depth`; they are one deeper themselves. */
  function MemberEntries(members: Members, fmt: bool, depth: nat): Entries {
    match members
    case NoMembers => NoEntries
    case Member(key, value, rest) =>
      Entry(Key(Escape(key), key, NoGap, OneGap(fmt, TAB)), DocOf(value, fmt, depth + 1),
            if rest.Member? then NoGap else LineGap(fmt, depth),
            if rest.Member? then LineGap(fmt, depth + 1) else NoGap,
            MemberEntries(rest, fmt, depth))
  }

  // ----- its text

  lemma {:induction false} TabsPut(n: nat, rest: Bytes)
    ensures PutGap(TabGap(n), rest) == Tabs(n) + rest
  {
    if n == 0 {
      assert Tabs(0) + rest == rest;
    } else {
      TabsPut(n - 1, rest);
      assert Tabs(n) == [TAB] + Tabs(n - 1);
    }
  }

  function Indent(fmt: bool, n: nat): Bytes {
    if fmt then Tabs(n) else []
  }

  lemma LinePut(fmt: bool, n: nat, rest: Bytes)
    ensures PutGap(LineGap(fmt, n), rest) == (if fmt then [NEWLINE] else []) + (Indent(fmt, n) + rest)
  {
    TabsPut(n, rest);
    assert [] + ([] + rest) == rest;
  }

  lemma OnePut(fmt: bool, c: byte, rest: Bytes)
    ensures PutGap(OneGap(fmt, c), rest) == (if fmt then [c] else []) + rest
  {
    assert [] + rest == rest;
    if fmt {
      assert PutGap(OneGap(fmt, c), rest) == [c] + PutGap(NoGap, rest);
    }
  }

  lemma {:induction false} RenderPut(j: Json, fmt: bool, depth: nat, rest: Bytes)
    ensures Render(j, fmt, depth) + rest == Put(DocOf(j, fmt, depth), rest)
    decreases j, 0
  {
    hide RenderItems, RenderMembers, PutEntries, PutGap, ItemEntries, MemberEntries, LineGap;
    match j
    case Number(value) => DecimalText(value.Floor);
    case String(text) =>
    case Array(items) =>
      ItemsPut(items, fmt, depth + 1, [RIGHT_BRACKET] + rest);
      NoGapPut(PutEntries(ItemEntries(items, fmt, depth + 1), [RIGHT_BRACKET] + rest));
      Enclosed([LEFT_BRACKET], RenderItems(items, fmt, depth + 1), [RIGHT_BRACKET], rest);
    case Object(members) =>
      ObjectPut(members, fmt, depth, rest);
    case _ =>
  }

  lemma NoGapPut(rest: Bytes)
    ensures PutGap(NoGap, rest) == rest
  {
  }

  lemma Enclosed(a: Bytes, b: Bytes, c: Bytes, rest: Bytes)
    ensures a + b + c + rest == a + (b + (c + rest))
  {
  }

  lemma DecimalText(n: int)
    ensures NumberSyntax.Text(DecimalOf(n)) == IntText(n)
  {
    hide NatText;
    var d := DecimalOf(n);
    assert d.whole + ([] + []) == d.whole && d.whole + [] == d.whole && [] + d.whole == d.whole;
  }

  lemma {:induction false} ItemsPut(items: Items, fmt: bool, depth: nat, rest: Bytes)
    ensures RenderItems(items, fmt, depth) + rest == PutEntries(ItemEntries(items, fmt, depth), rest)
    decreases items, 1
  {
    hide Render, Put, PutGap, DocOf, OneGap;
    match items
    case NoItems => assert [] + rest == rest;
    case Item(head, tail) =>
      var text := Render(head, fmt, depth);
      if tail.NoItems? {
        RenderPut(head, fmt, depth, rest);
        NoGapPut(rest);
        assert text + [] == text;
      } else {
        var more := RenderItems(tail, fmt, depth);
        var next := ItemSeparator(fmt) + (more + rest);
        ItemsPut(tail, fmt, depth, rest);
        OnePut(fmt, SPACE, more + rest);
        NoGapPut(next);
        RenderPut(head, fmt, depth, next);
        assert next == [COMMA] + ((if fmt then [SPACE] else []) + (more + rest));
        assert (text + (ItemSeparator(fmt) + more)) + rest == text + next;
      }
  }

  lemma ObjectPut(members: Members, fmt: bool, depth: nat, rest: Bytes)
    ensures Render(Object(members), fmt, depth) + rest == Put(DocOf(Object(members), fmt, depth), rest)
    decreases members, 2
  {
    hide RenderMembers, PutEntries, PutGap, MemberEntries, LineGap, Tabs;
    var body, close := RenderMembers(members, fmt, depth + 1), [RIGHT_BRACE] + rest;
    var entries := MemberEntries(members, fmt, depth);
    var line: Bytes := if fmt then [NEWLINE] else [];
    assert Opening(fmt) == [LEFT_BRACE] + line;
    assert Closing(fmt, depth) + rest == Indent(fmt, depth) + close;
    Enclosed(Opening(fmt), body, Closing(fmt, depth), rest);
    if members.NoMembers? {
      NoMembersPut(fmt, depth, close);
      LinePut(fmt, depth, PutEntries(entries, close));
    } else {
      MembersPut(members, fmt, depth, close);
      LinePut(fmt, depth + 1, PutEntries(entries, close));
    }
    Associative([LEFT_BRACE], line, body + (Indent(fmt, depth) + close));
  }

  lemma NoMembersPut(fmt: bool, depth: nat, rest: Bytes)
    ensures RenderMembers(NoMembers, fmt, depth + 1) + (Indent(fmt, depth) + rest)
         == Indent(fmt, depth) + PutEntries(MemberEntries(NoMembers, fmt, depth), rest)
  {
  }

  /** The members with the tabs of the line behind them. */
  lemma {:induction false} MembersPut(members: Members, fmt: bool, depth: nat, rest: Bytes)
    requires members.Member?
    ensures RenderMembers(members, fmt, depth + 1) + (Indent(fmt, depth) + rest)
         == Indent(fmt, depth + 1) + PutEntries(MemberEntries(members, fmt, depth), rest)
    decreases members, 1
  {
    hide Render, Put, PutGap, PutKey, DocOf, OneGap, LineGap, Tabs, RenderString;
    var Member(key, value, others) := members;
    var text, end := Render(value, fmt, depth + 1), MemberEnd(others, fmt);
    var more := RenderMembers(others, fmt, depth + 1);
    var last := Indent(fmt, depth) + rest;
    var next := end + (more + last);
    if others.NoMembers? {
      LinePut(fmt, depth, rest);
      assert next == PutGap(LineGap(fmt, depth), rest);
    } else {
      MembersPut(others, fmt, depth, rest);
      LinePut(fmt, depth + 1, PutEntries(MemberEntries(others, fmt, depth), rest));
      NoGapPut(next);
      assert next == [COMMA] + PutGap(LineGap(fmt, depth + 1), PutEntries(MemberEntries(others, fmt, depth), rest));
    }
    RenderPut(value, fmt, depth + 1, next);
    KeyPut(key, fmt, text + next);
    InLine(Indent(fmt, depth + 1), RenderString(key), Colon(fmt), text, end, more, last);
  }

  lemma InLine(a: Bytes, b: Bytes, c: Bytes, d: Bytes, e: Bytes, f: Bytes, g: Bytes)
    ensures a + b + c + d + e + f + g == a + (b + (c + (d + (e + (f + g)))))
  {
  }

  lemma KeyPut(key: Bytes, fmt: bool, rest: Bytes)
    ensures RenderString(key) + (Colon(fmt) + rest) == PutKey(Key(Escape(key), key, NoGap, OneGap(fmt, TAB)), rest)
  {
    hide PutGap, OneGap, Escape;
    OnePut(fmt, TAB, rest);
    NoGapPut(Colon(fmt) + rest);
    assert [COLON] + PutGap(OneGap(fmt, TAB), rest) == Colon(fmt) + rest;
  }

  // ----- it is a document of the tree

  lemma {:induction false} TabsValid(n: nat, dialect: Dialect)
    ensures ValidGap(TabGap(n), dialect)
  {
    if n > 0 {
      TabsValid(n - 1, dialect);
    }
  }

  lemma GapsValid(fmt: bool, n: nat, dialect: Dialect)
    ensures ValidGap(NoGap, dialect) && ValidGap(LineGap(fmt, n), dialect)
    ensures ValidGap(OneGap(fmt, SPACE), dialect) && ValidGap(OneGap(fmt, TAB), dialect)
  {
    TabsValid(n, dialect);
  }

  lemma EscapeValid(text: Bytes)
    ensures ValidString(Escape(text), text)
  {
    hide Escape, ClosingQuote, Decode, InStep, StringSyntax.Spelled;
    var e := Escape(text);
    EscapeClosed(text, []);
    EscapeDecoded(text);
    BodyInStep(e + [QUOTE] + []);
    assert (e + [QUOTE] + [])[..|e|] == e;
    StringSyntax.DecodeExactly(e, text);
  }

  lemma DecimalValid(n: int)
    ensures NumberSyntax.Valid(DecimalOf(n)) && NumberSyntax.Value(DecimalOf(n)) == n as real
    ensures -1_000_000_000_000_000 < n < 1_000_000_000_000_000 ==> |NumberSyntax.Text(DecimalOf(n))| <= 63
  {
    hide NatText, NumberSyntax.Text, ParseNumber;
    NumberSyntax.IntTextIs(n);
    DecimalText(n);
    if -1_000_000_000_000_000 < n < 1_000_000_000_000_000 {
      NumberRoundTrip(n, []);
    }
  }

  /** The dialect of printed texts: only numbers that are no plain integers can be long. */
  function DialectOf(printable: bool): Dialect {
    Dialect(false, !printable)
  }

  lemma {:induction false} DocValid(j: Json, fmt: bool, depth: nat, printable: bool)
    requires printable ==> Printable(j)
    ensures ValidDoc(DocOf(j, fmt, depth), DialectOf(printable))
    ensures printable ==> Tree(DocOf(j, fmt, depth)) == j
    decreases j, 0
  {
    hide ValidString, PrintableItems, PrintableMembers, ItemEntries, MemberEntries, LineGap, DecimalOf;
    hide NumberSyntax.Valid, NumberSyntax.Text, NumberSyntax.Value, Escape;
    match j
    case Number(value) =>
      DecimalValid(value.Floor);
      DecimalFirst(value.Floor);
    case String(text) =>
      EscapeValid(text);
      if printable {
        CStringWhole(text);
      }
    case Array(items) =>
      GapsValid(fmt, depth, DialectOf(printable));
      ItemsValid(items, fmt, depth + 1, printable);
    case Object(members) =>
      GapsValid(fmt, if members.NoMembers? then depth else depth + 1, DialectOf(printable));
      MembersValid(members, fmt, depth, printable);
    case _ =>
  }

  lemma DecimalFirst(n: int)
    ensures DecimalOf(n).sign != NumberSyntax.Positive && DecimalOf(n).whole != []
  {
  }

  lemma {:induction false} ItemsValid(items: Items, fmt: bool, depth: nat, printable: bool)
    requires printable ==> PrintableItems(items)
    ensures ValidEntries(ItemEntries(items, fmt, depth), false, DialectOf(printable))
    ensures printable ==> ItemsOf(ItemEntries(items, fmt, depth)) == items
    decreases items, 1
  {
    hide ValidDoc, DocOf, Tree, Printable;
    match items
    case NoItems =>
    case Item(head, tail) =>
      GapsValid(fmt, depth, DialectOf(printable));
      DocValid(head, fmt, depth, printable);
      ItemsValid(tail, fmt, depth, printable);
  }

  lemma {:induction false} MembersValid(members: Members, fmt: bool, depth: nat, printable: bool)
    requires printable ==> PrintableMembers(members)
    ensures ValidEntries(MemberEntries(members, fmt, depth), true, DialectOf(printable))
    ensures printable ==> MembersOf(MemberEntries(members, fmt, depth)) == members
    decreases members, 1
  {
    hide ValidDoc, DocOf, Tree, Printable, LineGap, ValidString, Escape;
    match members
    case NoMembers =>
    case Member(key, value, rest) =>
      GapsValid(fmt, depth, DialectOf(printable));
      GapsValid(fmt, depth + 1, DialectOf(printable));
      EscapeValid(key);
      if printable {
        CStringWhole(key);
      }
      DocValid(value, fmt, depth + 1, printable);
      MembersValid(rest, fmt, depth, printable);
  }

  // ----- the round trip

  /** At every depth, in front of everything that does not go on with a number byte. */
  lemma ValueRoundTrip(j: Json, fmt: bool, indent: nat, rest: Bytes, depth: nat)
    requires Printable(j) && Delimited(rest) && depth <= NESTING_LIMIT
    ensures ParseValue(Render(j, fmt, indent) + rest, depth)
         == Expected(depth + Nesting(j) <= NESTING_LIMIT, j, rest)
  {
    DocValid(j, fmt, indent, true);
    RenderPut(j, fmt, indent, rest);
    DocRead(DocOf(j, fmt, indent), rest, depth);
  }

  /**
    Parse undoes print. The text of a printable tree, in either format, is accepted with
    require_null_terminated and gives the tree back if it nests no deeper than
    CJSON_NESTING_LIMIT; a deeper tree is printed all the same, but its text is rejected.
   */
  lemma ParseUndoesPrint(j: Json, fmt: bool, requireNullTerminated: bool)
    requires Printable(j)
    ensures ParseText(Render(j, fmt, 0), requireNullTerminated) == Expected(Nesting(j) <= NESTING_LIMIT, j, [])
  {
    hide Render, DocOf, Put, Tree, ParseValue, ValidDoc;
    var doc := DocOf(j, fmt, 0);
    DocValid(j, fmt, 0, true);
    RenderPut(j, fmt, 0, []);
    assert Render(j, fmt, 0) + [] == Render(j, fmt, 0);
    NoGapPut(Put(doc, []));
    DocStart(NoGap, doc, []);
    MarkSkipped(false, Put(doc, []));
    assert [] + Put(doc, []) == Put(doc, []);
    DocRead(doc, [], 0);
  }
}
