/**
  The texts cJSON accepts, as a pure recursive-descent parser on the bytes left to read.
  It has no buffer, no offset, no clamp and no step back; the nesting depth is an argument.
 */
module Grammar {
  import opened Bytes
  import opened JsonTree
  import opened NumberText
  import opened StringText
  import opened PrintedText

  /** Whitespace for the parser is every byte up to the space. */
  function SkipWs(s: Bytes): (r: Bytes)
    ensures |r| <= |s|
    ensures r != [] ==> r[0] > 32
  {
    if s != [] && s[0] <= 32 then SkipWs(s[1..]) else s
  }

  predicate Starts(s: Bytes, c: byte) {
    s != [] && s[0] == c
  }

  function ParseValue(s: Bytes, depth: nat): (r: Parsed<Json>)
    ensures r.Read? ==> |r.rest| < |s|
    decreases |s|, 4
  {
    if NULL_TEXT <= s then Read(Null, s[4..])
    else if FALSE_TEXT <= s then Read(False, s[5..])
    else if TRUE_TEXT <= s then Read(True, s[4..])
    else if s == [] then Failed
    else if s[0] == QUOTE then
      match ParseString(s)
      case Failed => Failed
      case Read(text, rest) => Read(String(text), rest)
    else if s[0] == MINUS || IsDigit(s[0]) then
      match ParseNumber(s)
      case Failed => Failed
      case Read(value, rest) => Read(Number(value), rest)
    else if s[0] == LEFT_BRACKET then ParseArray(s, depth)
    else if s[0] == LEFT_BRACE then ParseObject(s, depth)
    else Failed
  }

  function ParseArray(s: Bytes, depth: nat): (r: Parsed<Json>)
    requires Starts(s, LEFT_BRACKET)
    ensures r.Read? ==> |r.rest| < |s|
    decreases |s|, 3
  {
    var inside := SkipWs(s[1..]);
    if depth >= NESTING_LIMIT then Failed
    else if Starts(inside, RIGHT_BRACKET) then Read(Array(NoItems), inside[1..])
    else
      match ParseItems(inside, depth + 1)
      case Failed => Failed
      case Read(items, rest) => Read(Array(items), rest)
  }

  function ParseObject(s: Bytes, depth: nat): (r: Parsed<Json>)
    requires Starts(s, LEFT_BRACE)
    ensures r.Read? ==> |r.rest| < |s|
    decreases |s|, 3
  {
    var inside := SkipWs(s[1..]);
    if depth >= NESTING_LIMIT then Failed
    else if Starts(inside, RIGHT_BRACE) then Read(Object(NoMembers), inside[1..])
    else
      match ParseMembers(inside, depth + 1)
      case Failed => Failed
      case Read(members, rest) => Read(Object(members), rest)
  }

  /** One or more comma-separated values and the closing bracket. */
  function ParseItems(s: Bytes, depth: nat): (r: Parsed<Items>)
    ensures r.Read? ==> |r.rest| < |s|
    decreases |s|, 5
  {
    match ParseValue(s, depth)
    case Failed => Failed
    case Read(head, rest) =>
      var behind := SkipWs(rest);
      if Starts(behind, COMMA) then
        match ParseItems(SkipWs(behind[1..]), depth)
        case Failed => Failed
        case Read(tail, end) => Read(Item(head, tail), end)
      else if Starts(behind, RIGHT_BRACKET) then Read(Item(head, NoItems), behind[1..])
      else Failed
  }

  /** A key, a colon and a value. */
  function ParseMember(s: Bytes, depth: nat): (r: Parsed<(Bytes, Json)>)
    ensures r.Read? ==> |r.rest| < |s|
    decreases |s|, 5
  {
    match ParseString(s)
    case Failed => Failed
    case Read(key, rest) =>
      var behind := SkipWs(rest);
      if !Starts(behind, COLON) then Failed
      else
        match ParseValue(SkipWs(behind[1..]), depth)
        case Failed => Failed
        case Read(value, end) => Read((key, value), end)
  }

  /** One or more comma-separated members and the closing brace. */
  function ParseMembers(s: Bytes, depth: nat): (r: Parsed<Members>)
    ensures r.Read? ==> |r.rest| < |s|
    decreases |s|, 6
  {
    match ParseMember(s, depth)
    case Failed => Failed
    case Read(member, rest) =>
      var behind := SkipWs(rest);
      if Starts(behind, COMMA) then
        match ParseMembers(SkipWs(behind[1..]), depth)
        case Failed => Failed
        case Read(more, end) => Read(Member(member.0, member.1, more), end)
      else if Starts(behind, RIGHT_BRACE) then Read(Member(member.0, member.1, NoMembers), behind[1..])
      else Failed
  }

  const BOM: Bytes := [0xEF, 0xBB, 0xBF]

  /** The byte order mark is skipped only if something follows it. */
  function SkipBom(text: Bytes): Bytes {
    if BOM <= text && |text| > 3 then text[3..] else text
  }

  /** cJSON_ParseWithOpts: the tree and the text behind it. */
  function ParseText(text: Bytes, requireNullTerminated: bool): Parsed<Json> {
    match ParseValue(SkipWs(SkipBom(text)), 0)
    case Failed => Failed
    case Read(item, rest) =>
      if !requireNullTerminated then Read(item, rest)
      else if SkipWs(rest) == [] then Read(item, [])
      else Failed
  }

  // ----- what every parsed tree keeps

  /** Every string in the tree is a C string. */
  predicate CStrings(j: Json) {
    match j
    case String(text) => NUL !in text
    case Array(items) => ItemsCStrings(items)
    case Object(members) => MembersCStrings(members)
    case _ => true
  }

  predicate ItemsCStrings(items: Items) {
    match items
    case NoItems => true
    case Item(head, tail) => CStrings(head) && ItemsCStrings(tail)
  }

  predicate MembersCStrings(members: Members) {
    match members
    case NoMembers => true
    case Member(key, value, rest) => NUL !in key && CStrings(value) && MembersCStrings(rest)
  }

  /** A parsed value never nests deeper than the limit allows at its depth, and holds C strings only. */
  lemma {:induction false} ParsedValueBounded(s: Bytes, depth: nat)
    requires depth <= NESTING_LIMIT && ParseValue(s, depth).Read?
    ensures depth + Nesting(ParseValue(s, depth).value) <= NESTING_LIMIT
    ensures CStrings(ParseValue(s, depth).value)
    decreases |s|, 0
  {
    hide ParseString, ParseNumber, ParseItems, ParseMembers, SkipWs;
    if NULL_TEXT <= s || FALSE_TEXT <= s || TRUE_TEXT <= s {
    } else if s[0] == QUOTE || s[0] == MINUS || IsDigit(s[0]) {
    } else if s[0] == LEFT_BRACKET {
      var inside := SkipWs(s[1..]);
      if !Starts(inside, RIGHT_BRACKET) {
        ParsedItemsBounded(inside, depth + 1);
      }
    } else {
      var inside := SkipWs(s[1..]);
      if !Starts(inside, RIGHT_BRACE) {
        ParsedMembersBounded(inside, depth + 1);
      }
    }
  }

  lemma {:induction false} ParsedItemsBounded(s: Bytes, depth: nat)
    requires depth <= NESTING_LIMIT && ParseItems(s, depth).Read?
    ensures depth + ItemsNesting(ParseItems(s, depth).value) <= NESTING_LIMIT
    ensures ItemsCStrings(ParseItems(s, depth).value)
    decreases |s|, 1
  {
    ParsedValueBounded(s, depth);
    var behind := SkipWs(ParseValue(s, depth).rest);
    if Starts(behind, COMMA) {
      ParsedItemsBounded(SkipWs(behind[1..]), depth);
    }
  }

  lemma {:induction false} ParsedMembersBounded(s: Bytes, depth: nat)
    requires depth <= NESTING_LIMIT && ParseMembers(s, depth).Read?
    ensures depth + MembersNesting(ParseMembers(s, depth).value) <= NESTING_LIMIT
    ensures MembersCStrings(ParseMembers(s, depth).value)
    decreases |s|, 1
  {
    var colon := SkipWs(ParseString(s).rest);
    ParsedValueBounded(SkipWs(colon[1..]), depth);
    var behind := SkipWs(ParseMember(s, depth).rest);
    if Starts(behind, COMMA) {
      ParsedMembersBounded(SkipWs(behind[1..]), depth);
    }
  }

  /** No text makes the parser build a tree nested deeper than CJSON_NESTING_LIMIT. */
  lemma ParsedTextBounded(text: Bytes, requireNullTerminated: bool)
    requires ParseText(text, requireNullTerminated).Read?
    ensures Nesting(ParseText(text, requireNullTerminated).value) <= NESTING_LIMIT
    ensures CStrings(ParseText(text, requireNullTerminated).value)
  {
    ParsedValueBounded(SkipWs(SkipBom(text)), 0);
  }
}
