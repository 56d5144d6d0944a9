/**
  JSON documents in their own terms: values with the gaps between their tokens, how they are
  written and what they mean. `Put` writes a document in front of a text. The parser is shown to
  read exactly the documents whose gaps are whitespace, up to its nesting limit.
 */
module Documents {
  import opened Bytes
  import opened JsonTree
  import opened NumberText
  import opened StringText
  import opened PrintedText
  import opened Grammar
  import opened MinifySyntax
  import StringSyntax
  import NumberSyntax

  /** What stands between two tokens. */
  datatype Gap = NoGap | Gap(piece: Piece, more: Gap)

  datatype Key = NoKey | Key(body: Bytes, bytes: Bytes, behind: Gap, ahead: Gap)

  /** A string is given by what stands between its quotes and by the bytes that spells. */
  datatype Doc =
    | Word(value: Json)
    | Num(decimal: NumberSyntax.Decimal)
    | Str(body: Bytes, bytes: Bytes)
    | List(named: bool, open: Gap, entries: Entries)

  /** The elements of an array or the members of an object; `ahead` is the gap behind the comma. */
  datatype Entries = NoEntries | Entry(key: Key, value: Doc, behind: Gap, ahead: Gap, more: Entries)

  // ----- which documents there are

  /** cJSON_Minify also takes comments in the gaps, and numbers too long for the parser. */
  datatype Dialect = Dialect(comments: bool, longNumbers: bool)

  const JSON := Dialect(false, false)

  /** Whitespace is every byte up to the space; comments are no JSON, but cJSON_Minify removes them. */
  predicate ValidGap(g: Gap, dialect: Dialect) {
    match g
    case NoGap => true
    case Gap(piece, more) =>
      && ValidGap(more, dialect)
      && match piece
         case Space(c) => c in SPACES
         case Other(c) => c <= 32 && c !in SPACES
         case Line(comment) => dialect.comments && NEWLINE !in comment
         case Block(inside) => dialect.comments && ClosedOnce(inside)
         case _ => false
  }

  /** A literal as parse_string takes it. */
  ghost predicate ValidString(body: Bytes, bytes: Bytes) {
    InStep(body) && StringSyntax.Spelled(body, bytes)
  }

  /** A number as parse_value and parse_number take it: with a digit or a minus in front, and at most 63 bytes. */
  predicate ValidNumber(d: NumberSyntax.Decimal, dialect: Dialect) {
    && NumberSyntax.Valid(d) && (dialect.longNumbers || |NumberSyntax.Text(d)| <= 63)
    && d.sign != NumberSyntax.Positive && (d.sign == NumberSyntax.Unsigned ==> d.whole != [])
  }

  ghost predicate ValidDoc(doc: Doc, dialect: Dialect) {
    match doc
    case Word(value) => value == Null || value == False || value == True
    case Num(decimal) => ValidNumber(decimal, dialect)
    case Str(body, bytes) => ValidString(body, bytes)
    case List(named, open, entries) => ValidGap(open, dialect) && ValidEntries(entries, named, dialect)
  }

  ghost predicate ValidEntries(entries: Entries, named: bool, dialect: Dialect) {
    match entries
    case NoEntries => true
    case Entry(key, value, behind, ahead, more) =>
      && ValidKey(key, named, dialect) && ValidDoc(value, dialect) && ValidGap(behind, dialect)
      && ValidGap(ahead, dialect) && ValidEntries(more, named, dialect)
  }

  ghost predicate ValidKey(key: Key, named: bool, dialect: Dialect) {
    match key
    case NoKey => !named
    case Key(body, bytes, behind, ahead) =>
      named && ValidString(body, bytes) && ValidGap(behind, dialect) && ValidGap(ahead, dialect)
  }

  // ----- how they are written

  function PutGap(g: Gap, rest: Bytes): Bytes {
    match g
    case NoGap => rest
    case Gap(piece, more) => PieceText(piece) + PutGap(more, rest)
  }

  function PutString(body: Bytes, rest: Bytes): Bytes {
    [QUOTE] + body + [QUOTE] + rest
  }

  function WordText(value: Json): Bytes {
    Ascii(if value == Null then "null" else if value == False then "false" else "true")
  }

  /** The words the parser and the printer know. */
  lemma WordsSpelled()
    ensures NULL_TEXT == WordText(Null) && FALSE_TEXT == WordText(False) && TRUE_TEXT == WordText(True)
  {
  }

  function Put(doc: Doc, rest: Bytes): Bytes {
    match doc
    case Word(value) => WordText(value) + rest
    case Num(decimal) => NumberSyntax.Text(decimal) + rest
    case Str(body, _) => PutString(body, rest)
    case List(named, open, entries) =>
      [if named then LEFT_BRACE else LEFT_BRACKET]
      + PutGap(open, PutEntries(entries, [if named then RIGHT_BRACE else RIGHT_BRACKET] + rest))
  }

  function PutEntries(entries: Entries, rest: Bytes): Bytes {
    match entries
    case NoEntries => rest
    case Entry(key, value, behind, ahead, more) =>
      PutKey(key, Put(value, PutGap(behind,
        if more.NoEntries? then rest else [COMMA] + PutGap(ahead, PutEntries(more, rest)))))
  }

  function PutKey(key: Key, rest: Bytes): Bytes {
    match key
    case NoKey => rest
    case Key(body, _, behind, ahead) => PutString(body, PutGap(behind, [COLON] + PutGap(ahead, rest)))
  }

  // ----- what they mean

  function Tree(doc: Doc): Json {
    match doc
    case Word(value) => value
    case Num(decimal) => Number(NumberSyntax.Value(decimal))
    case Str(_, bytes) => String(CString(bytes))
    case List(named, _, entries) => if named then Object(MembersOf(entries)) else Array(ItemsOf(entries))
  }

  function ItemsOf(entries: Entries): Items {
    match entries
    case NoEntries => NoItems
    case Entry(_, value, _, _, more) => Item(Tree(value), ItemsOf(more))
  }

  function MembersOf(entries: Entries): Members {
    match entries
    case NoEntries => NoMembers
    case Entry(key, value, _, _, more) => Member(KeyOf(key), Tree(value), MembersOf(more))
  }

  function KeyOf(key: Key): Bytes {
    if key.NoKey? then [] else CString(key.bytes)
  }

  // ----- whitespace

  lemma {:induction false} GapSkipped(g: Gap, rest: Bytes)
    requires ValidGap(g, JSON)
    ensures SkipWs(PutGap(g, rest)) == SkipWs(rest)
    ensures g == NoGap || PutGap(g, rest)[0] <= 32
  {
    if g.Gap? {
      GapSkipped(g.more, rest);
      assert PutGap(g, rest)[1..] == PutGap(g.more, rest);
    }
  }

  /** Whatever the parser skips is a gap. */
  lemma {:induction false} GapIn(s: Bytes) returns (g: Gap)
    ensures ValidGap(g, JSON) && s == PutGap(g, SkipWs(s))
  {
    if s == [] || s[0] > 32 {
      g := NoGap;
    } else {
      var more := GapIn(s[1..]);
      g := Gap(if s[0] in SPACES then Space(s[0]) else Other(s[0]), more);
      assert s == [s[0]] + s[1..];
    }
  }

  // ----- the leaves

  lemma StringPut(body: Bytes, bytes: Bytes, rest: Bytes)
    requires ValidString(body, bytes)
    ensures ParseString(PutString(body, rest)) == Read(CString(bytes), rest)
  {
    hide StringSyntax.Spelled, ParseString, InStep;
    assert StringSyntax.LiteralOf(PutString(body, rest), body, rest);
    StringSyntax.ParseStringExactly(PutString(body, rest), CString(bytes), rest);
  }

  lemma StringIn(s: Bytes) returns (body: Bytes, bytes: Bytes)
    requires ParseString(s).Read?
    ensures ValidString(body, bytes) && CString(bytes) == ParseString(s).value
    ensures s == PutString(body, ParseString(s).rest)
  {
    hide StringSyntax.Spelled, ParseString, InStep;
    var r := ParseString(s);
    StringSyntax.ParseStringExactly(s, r.value, r.rest);
    body, bytes :|
      StringSyntax.LiteralOf(s, body, r.rest) && StringSyntax.Spelled(body, bytes) && r.value == CString(bytes);
  }

  /** No number byte comes next, so a number in front ends here. */
  predicate Delimited(rest: Bytes) {
    rest == [] || !IsNumberByte(rest[0])
  }

  function Expected<T>(fits: bool, value: T, rest: Bytes): Parsed<T> {
    if fits then Read(value, rest) else Failed
  }

  /** The first byte of a document tells the parser what it is. */
  lemma FirstByte(doc: Doc, rest: Bytes, dialect: Dialect)
    requires ValidDoc(doc, dialect)
    ensures Put(doc, rest) != []
    ensures var c := Put(doc, rest)[0];
            match doc
            case Word(_) => c == 110 || c == 102 || c == 116
            case Num(_) => c == MINUS || IsDigit(c)
            case Str(_, _) => c == QUOTE
            case List(named, _, _) => c == if named then LEFT_BRACE else LEFT_BRACKET
  {
    hide PutEntries, PutGap;
    if doc.Num? {
      NumberFirst(doc.decimal, dialect);
    }
  }

  lemma NumberFirst(d: NumberSyntax.Decimal, dialect: Dialect)
    requires ValidNumber(d, dialect)
    ensures NumberSyntax.Text(d) != [] && (NumberSyntax.Text(d)[0] == MINUS || IsDigit(NumberSyntax.Text(d)[0]))
  {
  }

  // ----- the parser reads documents

  lemma {:induction false} DocRead(doc: Doc, rest: Bytes, depth: nat)
    requires ValidDoc(doc, JSON) && Delimited(rest) && depth <= NESTING_LIMIT
    ensures ParseValue(Put(doc, rest), depth) == Expected(depth + Nesting(Tree(doc)) <= NESTING_LIMIT, Tree(doc), rest)
    decreases doc, 0
  {
    hide ParseArray, ParseObject, ParseString, ParseNumber, PutEntries, PutGap;
    hide ValidString, ValidNumber, ValidEntries;
    hide ItemsOf, MembersOf;
    FirstByte(doc, rest, JSON);
    match doc
    case Word(value) => WordRead(value, rest, depth);
    case Num(decimal) => NumberRead(decimal, rest);
    case Str(body, bytes) => StringPut(body, bytes, rest);
    case List(named, open, entries) =>
      if named {
        ObjectRead(open, entries, rest, depth);
      } else {
        ArrayRead(open, entries, rest, depth);
      }
  }

  lemma WordRead(value: Json, rest: Bytes, depth: nat)
    requires value == Null || value == False || value == True
    ensures ParseValue(WordText(value) + rest, depth) == Read(value, rest)
  {
    WordsSpelled();
    var s := WordText(value) + rest;
    assert s[|WordText(value)|..] == rest;
    assert s[0] == WordText(value)[0];
  }

  lemma NumberRead(d: NumberSyntax.Decimal, rest: Bytes)
    requires ValidNumber(d, JSON) && Delimited(rest)
    ensures ParseNumber(NumberSyntax.Text(d) + rest) == Read(NumberSyntax.Value(d), rest)
  {
    NumberSyntax.DecimalRead(d, rest);
  }

  /** What follows the opening bracket, without the gap. */
  lemma OpeningSkipped(bracket: byte, open: Gap, inside: Bytes)
    requires ValidGap(open, JSON) && inside != [] && inside[0] > 32
    ensures var s := [bracket] + PutGap(open, inside); Starts(s, bracket) && SkipWs(s[1..]) == inside
  {
    GapSkipped(open, inside);
    assert ([bracket] + PutGap(open, inside))[1..] == PutGap(open, inside);
  }

  /** The text behind a value: a gap and then a comma or a bracket. */
  lemma BehindValue(g: Gap, next: Bytes)
    requires ValidGap(g, JSON) && next != [] && next[0] > 32 && !IsNumberByte(next[0])
    ensures Delimited(PutGap(g, next)) && SkipWs(PutGap(g, next)) == next
  {
    GapSkipped(g, next);
  }

  lemma {:induction false} ArrayRead(open: Gap, entries: Entries, rest: Bytes, depth: nat)
    requires ValidGap(open, JSON) && ValidEntries(entries, false, JSON) && depth <= NESTING_LIMIT
    ensures var s := [LEFT_BRACKET] + PutGap(open, PutEntries(entries, [RIGHT_BRACKET] + rest));
            && Starts(s, LEFT_BRACKET)
            && ParseArray(s, depth)
               == Expected(depth + 1 + ItemsNesting(ItemsOf(entries)) <= NESTING_LIMIT, Array(ItemsOf(entries)), rest)
    decreases entries, 2
  {
    hide ParseItems, Put, ValidDoc, ValidString, PutGap;
    var inside := PutEntries(entries, [RIGHT_BRACKET] + rest);
    match entries
    case NoEntries =>
      assert inside[1..] == rest;
      OpeningSkipped(LEFT_BRACKET, open, inside);
    case Entry(_, value, behind, _, _) =>
      EntryFirst(entries, false, [RIGHT_BRACKET] + rest);
      OpeningSkipped(LEFT_BRACKET, open, inside);
      if depth < NESTING_LIMIT {
        ItemsRead(entries, rest, depth + 1);
      }
  }

  /** Entries start with a value or a key. */
  lemma EntryFirst(entries: Entries, named: bool, rest: Bytes)
    requires entries.Entry? && ValidEntries(entries, named, JSON)
    ensures var s := PutEntries(entries, rest);
            && s != [] && s[0] > 32 && s[0] != RIGHT_BRACKET && s[0] != RIGHT_BRACE && (named ==> s[0] == QUOTE)
  {
    hide Put, PutGap, ValidDoc, ValidString, ValidGap;
    var next := PutGap(entries.behind,
      if entries.more.NoEntries? then rest else [COMMA] + PutGap(entries.ahead, PutEntries(entries.more, rest)));
    FirstByte(entries.value, next, JSON);
  }

  lemma {:induction false} ItemsRead(entries: Entries, rest: Bytes, depth: nat)
    requires entries.Entry? && ValidEntries(entries, false, JSON) && depth <= NESTING_LIMIT
    ensures ParseItems(PutEntries(entries, [RIGHT_BRACKET] + rest), depth)
         == Expected(depth + ItemsNesting(ItemsOf(entries)) <= NESTING_LIMIT, ItemsOf(entries), rest)
    decreases entries, 1
  {
    hide ParseValue, Put, ValidDoc, ValidString, PutGap, ValidGap;
    var Entry(_, value, behind, ahead, more) := entries;
    var close := [RIGHT_BRACKET] + rest;
    if more.NoEntries? {
      BehindValue(behind, close);
      DocRead(value, PutGap(behind, close), depth);
      assert close[1..] == rest;
    } else {
      var next := [COMMA] + PutGap(ahead, PutEntries(more, close));
      EntryFirst(more, false, close);
      OpeningSkipped(COMMA, ahead, PutEntries(more, close));
      BehindValue(behind, next);
      DocRead(value, PutGap(behind, next), depth);
      ItemsRead(more, rest, depth);
    }
  }

  lemma {:induction false} ObjectRead(open: Gap, entries: Entries, rest: Bytes, depth: nat)
    requires ValidGap(open, JSON) && ValidEntries(entries, true, JSON) && depth <= NESTING_LIMIT
    ensures var s := [LEFT_BRACE] + PutGap(open, PutEntries(entries, [RIGHT_BRACE] + rest));
            && Starts(s, LEFT_BRACE)
            && ParseObject(s, depth)
               == Expected(depth + 1 + MembersNesting(MembersOf(entries)) <= NESTING_LIMIT,
                           Object(MembersOf(entries)), rest)
    decreases entries, 3
  {
    hide ParseMembers, Put, ValidDoc, ValidString, PutGap;
    var inside := PutEntries(entries, [RIGHT_BRACE] + rest);
    match entries
    case NoEntries =>
      assert inside[1..] == rest;
      OpeningSkipped(LEFT_BRACE, open, inside);
    case Entry(_, value, behind, _, _) =>
      EntryFirst(entries, true, [RIGHT_BRACE] + rest);
      OpeningSkipped(LEFT_BRACE, open, inside);
      if depth < NESTING_LIMIT {
        MembersRead(entries, rest, depth + 1);
      }
  }

  lemma {:induction false} MembersRead(entries: Entries, rest: Bytes, depth: nat)
    requires entries.Entry? && ValidEntries(entries, true, JSON) && depth <= NESTING_LIMIT
    ensures ParseMembers(PutEntries(entries, [RIGHT_BRACE] + rest), depth)
         == Expected(depth + MembersNesting(MembersOf(entries)) <= NESTING_LIMIT, MembersOf(entries), rest)
    decreases entries, 2
  {
    hide ParseMember, Put, ValidDoc, ValidString, PutGap, ValidGap, ValidKey, PutKey;
    var Entry(key, value, behind, ahead, more) := entries;
    var close := [RIGHT_BRACE] + rest;
    if more.NoEntries? {
      BehindValue(behind, close);
      MemberRead(key, value, PutGap(behind, close), depth);
      assert close[1..] == rest;
    } else {
      var next := [COMMA] + PutGap(ahead, PutEntries(more, close));
      EntryFirst(more, true, close);
      OpeningSkipped(COMMA, ahead, PutEntries(more, close));
      BehindValue(behind, next);
      MemberRead(key, value, PutGap(behind, next), depth);
      MembersRead(more, rest, depth);
    }
  }

  lemma {:induction false} MemberRead(key: Key, value: Doc, rest: Bytes, depth: nat)
    requires ValidKey(key, true, JSON) && ValidDoc(value, JSON) && Delimited(rest) && depth <= NESTING_LIMIT
    ensures ParseMember(PutKey(key, Put(value, rest)), depth)
         == Expected(depth + Nesting(Tree(value)) <= NESTING_LIMIT, (KeyOf(key), Tree(value)), rest)
    decreases value, 1
  {
    hide ParseValue, ParseString, Put, PutString, ValidDoc, ValidString, PutGap, ValidGap;
    var Key(body, bytes, behind, ahead) := key;
    var colon := [COLON] + PutGap(ahead, Put(value, rest));
    StringPut(body, bytes, PutGap(behind, colon));
    FirstByte(value, rest, JSON);
    OpeningSkipped(COLON, ahead, Put(value, rest));
    BehindValue(behind, colon);
    DocRead(value, rest, depth);
  }

  // ----- the parser reads nothing else

  /** Every value the parser reads is a document with whitespace in its gaps, and means what was read. */
  lemma {:induction false} DocIn(s: Bytes, depth: nat) returns (doc: Doc)
    requires ParseValue(s, depth).Read?
    ensures ValidDoc(doc, JSON) && s == Put(doc, ParseValue(s, depth).rest) && Tree(doc) == ParseValue(s, depth).value
    decreases |s|, 2
  {
    hide ParseArray, ParseObject, ParseString, ParseNumber, PutEntries, PutGap;
    hide ValidString, ValidNumber, ValidEntries;
    if NULL_TEXT <= s {
      doc := Word(Null);
    } else if FALSE_TEXT <= s {
      doc := Word(False);
    } else if TRUE_TEXT <= s {
      doc := Word(True);
    } else if s[0] == QUOTE {
      var body, bytes := StringIn(s);
      doc := Str(body, bytes);
    } else if s[0] == MINUS || IsDigit(s[0]) {
      doc := NumberIn(s);
    } else if s[0] == LEFT_BRACKET {
      doc := ArrayIn(s, depth);
    } else {
      doc := ObjectIn(s, depth);
    }
  }

  lemma NumberIn(s: Bytes) returns (doc: Doc)
    requires s != [] && (s[0] == MINUS || IsDigit(s[0])) && ParseNumber(s).Read?
    ensures ValidDoc(doc, JSON) && s == Put(doc, ParseNumber(s).rest) && Tree(doc) == Number(ParseNumber(s).value)
  {
    hide NumberSyntax.Value, ParseNumber;
    var d := NumberSyntax.ParseNumberReads(s);
    NumberSyntax.DecimalBytes(d);
    assert NumberSyntax.Text(d)[0] == s[0];
    doc := Num(d);
    TextFirst(d);
  }

  /** Only an unsigned number can start with a digit. */
  lemma TextFirst(d: NumberSyntax.Decimal)
    requires NumberSyntax.Valid(d) && NumberSyntax.Text(d) != []
    requires NumberSyntax.Text(d)[0] == MINUS || IsDigit(NumberSyntax.Text(d)[0])
    ensures d.sign != NumberSyntax.Positive && (d.sign == NumberSyntax.Unsigned ==> d.whole != [])
  {
  }

  lemma {:induction false} ArrayIn(s: Bytes, depth: nat) returns (doc: Doc)
    requires Starts(s, LEFT_BRACKET) && ParseArray(s, depth).Read?
    ensures ValidDoc(doc, JSON) && s == Put(doc, ParseArray(s, depth).rest) && Tree(doc) == ParseArray(s, depth).value
    decreases |s|, 1
  {
    hide ParseItems, ValidDoc, ValidEntries, PutGap, PutEntries, Put, Tree, ValidGap, SkipWs, ParseValue;
    var inside := SkipWs(s[1..]);
    var open := GapIn(s[1..]);
    var entries := NoEntries;
    if !Starts(inside, RIGHT_BRACKET) {
      entries := ItemsIn(inside, depth + 1);
    } else {
      assert inside == [RIGHT_BRACKET] + inside[1..];
      NothingPut(false, inside);
    }
    doc := List(false, open, entries);
    ListIs(false, open, entries);
    assert s == [LEFT_BRACKET] + s[1..];
  }

  lemma ListIs(named: bool, open: Gap, entries: Entries)
    ensures var doc := List(named, open, entries);
            && (ValidDoc(doc, JSON) <==> ValidGap(open, JSON) && ValidEntries(entries, named, JSON))
            && Tree(doc) == if named then Object(MembersOf(entries)) else Array(ItemsOf(entries))
    ensures forall rest {:trigger Put(List(named, open, entries), rest)} ::
      Put(List(named, open, entries), rest)
      == [if named then LEFT_BRACE else LEFT_BRACKET]
         + PutGap(open, PutEntries(entries, [if named then RIGHT_BRACE else RIGHT_BRACKET] + rest))
  {
  }

  lemma NothingPut(named: bool, rest: Bytes)
    ensures ValidEntries(NoEntries, named, JSON) && PutEntries(NoEntries, rest) == rest
  {
  }

  lemma {:induction false} ItemsIn(s: Bytes, depth: nat) returns (entries: Entries)
    requires ParseItems(s, depth).Read?
    ensures ValidEntries(entries, false, JSON) && ItemsOf(entries) == ParseItems(s, depth).value
    ensures s == PutEntries(entries, [RIGHT_BRACKET] + ParseItems(s, depth).rest)
    decreases |s|, 3
  {
    hide ParseValue, ValidDoc, PutGap, ValidGap, Put, Tree, SkipWs;
    var r := ParseValue(s, depth);
    var next := SkipWs(r.rest);
    var behind := GapIn(r.rest);
    var ahead, more := NoGap, NoEntries;
    if Starts(next, COMMA) {
      ahead := GapIn(next[1..]);
      more := ItemsIn(SkipWs(next[1..]), depth);
      assert next == [COMMA] + next[1..];
    } else {
      assert next == [RIGHT_BRACKET] + next[1..];
      EmptyGap();
    }
    var value := DocIn(s, depth);
    entries := Entry(NoKey, value, behind, ahead, more);
  }

  lemma EmptyGap()
    ensures ValidGap(NoGap, JSON)
  {
  }

  lemma {:induction false} ObjectIn(s: Bytes, depth: nat) returns (doc: Doc)
    requires Starts(s, LEFT_BRACE) && ParseObject(s, depth).Read?
    ensures ValidDoc(doc, JSON) && s == Put(doc, ParseObject(s, depth).rest) && Tree(doc) == ParseObject(s, depth).value
    decreases |s|, 1
  {
    hide ParseMembers, ValidDoc, ValidEntries, PutGap, PutEntries, Put, Tree, ValidGap, SkipWs, ParseValue;
    var inside := SkipWs(s[1..]);
    var open := GapIn(s[1..]);
    var entries := NoEntries;
    if !Starts(inside, RIGHT_BRACE) {
      entries := MembersIn(inside, depth + 1);
    } else {
      assert inside == [RIGHT_BRACE] + inside[1..];
      NothingPut(true, inside);
    }
    doc := List(true, open, entries);
    ListIs(true, open, entries);
    assert s == [LEFT_BRACE] + s[1..];
  }

  lemma {:induction false} MembersIn(s: Bytes, depth: nat) returns (entries: Entries)
    requires ParseMembers(s, depth).Read?
    ensures ValidEntries(entries, true, JSON) && MembersOf(entries) == ParseMembers(s, depth).value
    ensures s == PutEntries(entries, [RIGHT_BRACE] + ParseMembers(s, depth).rest)
    decreases |s|, 4
  {
    hide ParseMember, ValidDoc, PutGap, ValidGap, Put, PutKey, ValidKey, Tree, KeyOf, SkipWs;
    var r := ParseMember(s, depth);
    var next := SkipWs(r.rest);
    var behind := GapIn(r.rest);
    var ahead, more := NoGap, NoEntries;
    if Starts(next, COMMA) {
      ahead := GapIn(next[1..]);
      more := MembersIn(SkipWs(next[1..]), depth);
      assert next == [COMMA] + next[1..];
    } else {
      assert next == [RIGHT_BRACE] + next[1..];
      EmptyGap();
    }
    var key, value := MemberIn(s, depth);
    entries := Entry(key, value, behind, ahead, more);
  }

  lemma {:induction false} MemberIn(s: Bytes, depth: nat) returns (key: Key, value: Doc)
    requires ParseMember(s, depth).Read?
    ensures ValidKey(key, true, JSON) && ValidDoc(value, JSON)
    ensures (KeyOf(key), Tree(value)) == ParseMember(s, depth).value
    ensures s == PutKey(key, Put(value, ParseMember(s, depth).rest))
    decreases |s|, 3
  {
    hide ParseString, ParseValue, ValidDoc, PutGap, ValidGap, Put, PutString, ValidString, Tree, SkipWs;
    var colon := SkipWs(ParseString(s).rest);
    var body, bytes := StringIn(s);
    var behind := GapIn(ParseString(s).rest);
    var ahead := GapIn(colon[1..]);
    assert colon == [COLON] + colon[1..];
    value := DocIn(SkipWs(colon[1..]), depth);
    key := Key(body, bytes, behind, ahead);
  }

  // ----- whole texts

  /** The text of a document with a gap on both sides and perhaps a byte order mark. */
  function DocText(bom: bool, before: Gap, doc: Doc, behind: Gap, rest: Bytes): Bytes {
    (if bom then BOM else []) + PutGap(before, Put(doc, PutGap(behind, rest)))
  }

  lemma MarkSkipped(bom: bool, t: Bytes)
    requires t != [] && t[0] < 128
    ensures SkipBom((if bom then BOM else []) + t) == t
  {
    assert (BOM + t)[3..] == t;
    assert [] + t == t;
  }

  /** A text behind one byte order mark is read like the text alone, if there is any. */
  lemma MarkIgnored(t: Bytes, requireNullTerminated: bool)
    requires t != [] && !(BOM <= t)
    ensures ParseText(BOM + t, requireNullTerminated) == ParseText(t, requireNullTerminated)
  {
    hide ParseValue;
    assert (BOM + t)[3..] == t;
  }

  lemma DocStart(before: Gap, doc: Doc, rest: Bytes)
    requires ValidGap(before, JSON) && ValidDoc(doc, JSON)
    ensures var t := PutGap(before, Put(doc, rest)); t != [] && t[0] < 128 && SkipWs(t) == Put(doc, rest)
  {
    hide PutGap, Put, ValidDoc;
    FirstByte(doc, rest, JSON);
    GapSkipped(before, Put(doc, rest));
    if before == NoGap {
      EmptyGapPut(Put(doc, rest));
    }
  }

  lemma EmptyGapPut(rest: Bytes)
    ensures PutGap(NoGap, rest) == rest
  {
  }

  /** Every document is accepted and read as what it means, unless it nests too deep. */
  lemma DocAccepted(bom: bool, before: Gap, doc: Doc, behind: Gap)
    requires ValidGap(before, JSON) && ValidDoc(doc, JSON) && ValidGap(behind, JSON)
    ensures ParseText(DocText(bom, before, doc, behind, []), true)
         == Expected(Nesting(Tree(doc)) <= NESTING_LIMIT, Tree(doc), [])
  {
    hide PutGap, Put, ValidDoc, ValidGap, ParseValue, SkipBom;
    var rest := PutGap(behind, []);
    DocStart(before, doc, rest);
    MarkSkipped(bom, PutGap(before, Put(doc, rest)));
    GapSkipped(behind, []);
    if behind == NoGap {
      EmptyGapPut([]);
    }
    DocRead(doc, rest, 0);
  }

  /** And every accepted text is the text of a document. */
  lemma AcceptedDoc(text: Bytes) returns (bom: bool, before: Gap, doc: Doc, behind: Gap)
    requires ParseText(text, true).Read?
    ensures ValidGap(before, JSON) && ValidDoc(doc, JSON) && ValidGap(behind, JSON)
    ensures text == DocText(bom, before, doc, behind, []) && Tree(doc) == ParseText(text, true).value
  {
    hide PutGap, Put, ValidDoc, ValidGap, ParseValue;
    bom := SkipBom(text) != text;
    var t := SkipBom(text);
    var r := ParseValue(SkipWs(t), 0);
    before := GapIn(t);
    doc := DocIn(SkipWs(t), 0);
    behind := GapIn(r.rest);
    if bom {
      assert text == BOM + t;
    } else {
      assert text == [] + t;
    }
  }

  /**
    The language of cJSON_ParseWithOpts with require_null_terminated: exactly the documents within
    the nesting limit are accepted, each with the value it means.
   */
  lemma ParseTextExactly(text: Bytes, j: Json)
    ensures ParseText(text, true) == Read(j, []) <==>
      exists bom, before, doc, behind ::
        && ValidGap(before, JSON) && ValidDoc(doc, JSON) && ValidGap(behind, JSON)
        && text == DocText(bom, before, doc, behind, []) && j == Tree(doc) && Nesting(j) <= NESTING_LIMIT
  {
    hide ParseText, ValidDoc, ValidGap, DocText;
    if ParseText(text, true) == Read(j, []) {
      var bom, before, doc, behind := AcceptedDoc(text);
      ParsedTextBounded(text, true);
    }
    forall bom, before, doc, behind |
      && ValidGap(before, JSON) && ValidDoc(doc, JSON) && ValidGap(behind, JSON)
      && text == DocText(bom, before, doc, behind, []) && Nesting(Tree(doc)) <= NESTING_LIMIT
      ensures ParseText(text, true) == Read(Tree(doc), [])
    {
      DocAccepted(bom, before, doc, behind);
    }
  }

  /** Without require_null_terminated, a text that starts with a value is accepted up to its end. */
  lemma ParseTextPrefix(text: Bytes) returns (bom: bool, before: Gap, doc: Doc)
    requires ParseText(text, false).Read?
    ensures ValidGap(before, JSON) && ValidDoc(doc, JSON) && Tree(doc) == ParseText(text, false).value
    ensures text == DocText(bom, before, doc, NoGap, ParseText(text, false).rest)
  {
    hide Put, ValidDoc, ValidGap, ParseValue;
    bom := SkipBom(text) != text;
    var t := SkipBom(text);
    before := GapIn(t);
    doc := DocIn(SkipWs(t), 0);
    if bom {
      assert text == BOM + t;
    } else {
      assert text == [] + t;
    }
  }
}
