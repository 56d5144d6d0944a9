/**
  The text of a tree, in the two formats of the printer: compact, and with tabs and newlines.
  `depth` counts the arrays and objects around the value.
 */
module PrintedText {
  import opened Bytes
  import opened JsonTree
  import opened NumberText
  import opened Escaping

  const NULL_TEXT: Bytes := [110, 117, 108, 108]
  const FALSE_TEXT: Bytes := [102, 97, 108, 115, 101]
  const TRUE_TEXT: Bytes := [116, 114, 117, 101]

  function Tabs(n: nat): (t: Bytes)
    ensures |t| == n
  {
    seq(n, _ => TAB)
  }

  function Render(j: Json, fmt: bool, depth: nat): (t: Bytes)
    ensures t != []
  {
    match j
    case Null => NULL_TEXT
    case False => FALSE_TEXT
    case True => TRUE_TEXT
    case Number(value) => IntText(value.Floor)
    case String(text) => RenderString(text)
    case Array(items) => [LEFT_BRACKET] + RenderItems(items, fmt, depth + 1) + [RIGHT_BRACKET]
    case Object(members) =>
      Opening(fmt) + RenderMembers(members, fmt, depth + 1) + Closing(fmt, depth)
  }

  function Opening(fmt: bool): Bytes {
    if fmt then [LEFT_BRACE, NEWLINE] else [LEFT_BRACE]
  }

  function Closing(fmt: bool, depth: nat): Bytes {
    (if fmt then Tabs(depth) else []) + [RIGHT_BRACE]
  }

  function RenderItems(items: Items, fmt: bool, depth: nat): (t: Bytes)
    ensures items.Item? ==> t != []
  {
    match items
    case NoItems => []
    case Item(head, tail) => Render(head, fmt, depth) + ItemsBehind(tail, fmt, depth)
  }

  function ItemSeparator(fmt: bool): (s: Bytes)
    ensures s != []
  {
    if fmt then [COMMA, SPACE] else [COMMA]
  }

  /** The separator and the items behind it, if there are more items. */
  function ItemsBehind(items: Items, fmt: bool, depth: nat): Bytes {
    match items
    case NoItems => []
    case Item(head, tail) =>
      ItemSeparator(fmt) + (Render(head, fmt, depth) + ItemsBehind(tail, fmt, depth))
  }

  function RenderMembers(members: Members, fmt: bool, depth: nat): Bytes {
    match members
    case NoMembers => []
    case Member(key, value, rest) =>
      (if fmt then Tabs(depth) else []) + RenderString(key)
      + Colon(fmt)
      + Render(value, fmt, depth)
      + MemberEnd(rest, fmt)
      + RenderMembers(rest, fmt, depth)
  }

  function Colon(fmt: bool): Bytes {
    if fmt then [COLON, TAB] else [COLON]
  }

  function LineEnd(more: bool, fmt: bool): Bytes {
    (if more then [COMMA] else []) + (if fmt then [NEWLINE] else [])
  }

  function MemberEnd(rest: Members, fmt: bool): Bytes {
    LineEnd(rest.Member?, fmt)
  }

  // ----- no NUL is ever emitted

  lemma {:induction false} EscapeNulFree(s: Bytes)
    ensures NUL !in Escape(s)
  {
    if s != [] {
      EscapeNulFree(s[1..]);
    }
  }

  lemma {:induction false} RenderNulFree(j: Json, fmt: bool, depth: nat)
    ensures NUL !in Render(j, fmt, depth)
  {
    hide Escape, NatText, RenderItems, RenderMembers;
    match j
    case String(text) => EscapeNulFree(text);
    case Array(items) => RenderItemsNulFree(items, fmt, depth + 1);
    case Object(members) => RenderMembersNulFree(members, fmt, depth + 1);
    case _ =>
  }

  lemma {:induction false} RenderItemsNulFree(items: Items, fmt: bool, depth: nat)
    ensures NUL !in RenderItems(items, fmt, depth) && NUL !in ItemsBehind(items, fmt, depth)
  {
    hide Render;
    match items
    case NoItems =>
    case Item(head, tail) =>
      RenderNulFree(head, fmt, depth);
      RenderItemsNulFree(tail, fmt, depth);
  }

  lemma {:induction false} RenderMembersNulFree(members: Members, fmt: bool, depth: nat)
    ensures NUL !in RenderMembers(members, fmt, depth)
  {
    hide Render, Escape;
    match members
    case NoMembers =>
    case Member(key, value, rest) =>
      EscapeNulFree(key);
      RenderNulFree(value, fmt, depth);
      RenderMembersNulFree(rest, fmt, depth);
  }
}
