/**
  The value of a tree of cJSON nodes: what its type, valuestring, valuedouble, string,
  child and next fields spell out once the pointers are followed.
  A list of children is a chain, as the next pointers make it.
 */
module JsonTree {
  import opened Bytes

  datatype Json =
    | Null
    | False
    | True
    | Number(value: real)
    | String(text: Bytes)
    | Array(items: Items)
    | Object(members: Members)

  datatype Items = NoItems | Item(head: Json, tail: Items)

  datatype Members = NoMembers | Member(key: Bytes, value: Json, rest: Members)

  /** CJSON_NESTING_LIMIT */
  const NESTING_LIMIT: nat := 1000

  function Max(a: nat, b: nat): nat {
    if a < b then b else a
  }

  /** How many arrays and objects lie around the most deeply nested place of the value. */
  function Nesting(j: Json): nat {
    match j
    case Array(items) => 1 + ItemsNesting(items)
    case Object(members) => 1 + MembersNesting(members)
    case _ => 0
  }

  function ItemsNesting(items: Items): nat {
    match items
    case NoItems => 0
    case Item(head, tail) => Max(Nesting(head), ItemsNesting(tail))
  }

  function MembersNesting(members: Members): nat {
    match members
    case NoMembers => 0
    case Member(_, value, rest) => Max(Nesting(value), MembersNesting(rest))
  }

  /** An integer that %1.15g prints with plain decimal digits. */
  predicate PlainInteger(r: real) {
    r == r.Floor as real && -1_000_000_000_000_000 < r.Floor < 1_000_000_000_000_000
  }

  /** The trees whose text the model spells out: C strings and plain integers at the leaves. */
  predicate Printable(j: Json) {
    match j
    case Number(value) => PlainInteger(value)
    case String(text) => NUL !in text
    case Array(items) => PrintableItems(items)
    case Object(members) => PrintableMembers(members)
    case _ => true
  }

  predicate PrintableItems(items: Items) {
    match items
    case NoItems => true
    case Item(head, tail) => Printable(head) && PrintableItems(tail)
  }

  predicate PrintableMembers(members: Members) {
    match members
    case NoMembers => true
    case Member(key, value, rest) => NUL !in key && Printable(value) && PrintableMembers(rest)
  }
}
