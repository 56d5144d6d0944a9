/**
  cJSON nodes on the heap. A ghost `Tree` names the nodes that make up an item: the node itself
  and the trees of its children. `Formed` says that the pointers agree with it: the child pointer
  leads to the first child, next and prev are mutually inverse and end in NULL on both sides (the
  head's prev is NULL), and no node occurs twice. Child lists grow at the back, so the ghost list
  of children is built from the front to the back.
 */
module Nodes {
  import opened Bytes
  import opened JsonTree

  datatype Kind = Invalid | FalseKind | TrueKind | NullKind | NumberKind | StringKind | ArrayKind | ObjectKind

  class Node {
    var next: Node?
    var prev: Node?
    var child: Node?
    var kind: Kind
    var valuestring: Option<Bytes>
    var valuedouble: real
    var name: Option<Bytes>  // the C field "string", the key of an object member

    /** cJSON_New_Item: every field zero. */
    constructor ()
      ensures next == null && prev == null && child == null
      ensures kind == Invalid && valuestring == None && valuedouble == 0.0 && name == None
    {
      next, prev, child := null, null, null;
      kind, valuestring, valuedouble, name := Invalid, None, 0.0, None;
    }
  }

  datatype Tree = Tree(node: Node, kids: Kids)

  datatype Kids = NoKids | Kid(before: Kids, last: Tree)

  ghost function Footprint(t: Tree): set<Node> {
    {t.node} + Footprints(t.kids)
  }

  ghost function Footprints(ts: Kids): set<Node> {
    match ts
    case NoKids => {}
    case Kid(before, last) => Footprints(before) + Footprint(last)
  }

  ghost function First(ts: Kids): (n: Node?)
    ensures ts.Kid? <==> n != null
  {
    match ts
    case NoKids => null
    case Kid(before, last) => if before.NoKids? then last.node else First(before)
  }

  ghost function Last(ts: Kids): (n: Node?)
    ensures ts.Kid? ==> n != null && n in Footprints(ts)
  {
    match ts
    case NoKids => null
    case Kid(_, last) => last.node
  }

  ghost predicate Formed(t: Tree)
    reads Footprint(t)
    decreases t, 0
  {
    && t.node !in Footprints(t.kids)
    && t.node.child == First(t.kids)
    && KidsFormed(t.kids)
  }

  /** A well-formed child list. */
  ghost predicate KidsFormed(ts: Kids)
    reads Footprints(ts)
    decreases ts, 2
  {
    Chained(ts) && (ts.Kid? ==> Last(ts).next == null)
  }

  /** Well-formed but for the next pointer of the last node, which may lead on. */
  ghost predicate Chained(ts: Kids)
    reads Footprints(ts)
    decreases ts, 1
  {
    match ts
    case NoKids => true
    case Kid(before, last) =>
      && Chained(before) && Formed(last) && Footprints(before) !! Footprint(last)
      && last.node.prev == Last(before)
      && (before.Kid? ==> Last(before).next == last.node)
  }

  // ----- what the fields spell out

  /** All the fields a node carries besides its links, and those of its children. */
  datatype Content = Content(kind: Kind, valuestring: Option<Bytes>, valuedouble: real, name: Option<Bytes>,
                             kids: Contents)

  datatype Contents = NoContents | Contents(before: Contents, last: Content)

  ghost function ContentOf(t: Tree): Content
    reads Footprint(t)
    decreases t, 0
  {
    Content(t.node.kind, t.node.valuestring, t.node.valuedouble, t.node.name, ContentsOf(t.kids))
  }

  ghost function ContentsOf(ts: Kids): Contents
    reads Footprints(ts)
    decreases ts, 1
  {
    match ts
    case NoKids => NoContents
    case Kid(before, last) => Contents(ContentsOf(before), ContentOf(last))
  }

  /** Every node has a type and the fields its type calls for. */
  predicate Typed(c: Content) {
    && c.kind != Invalid
    && (c.kind == StringKind ==> c.valuestring.Some?)
    && (c.kind == ArrayKind ==> AllTyped(c.kids))
    && (c.kind == ObjectKind ==> AllTyped(c.kids) && AllNamed(c.kids))
  }

  predicate AllTyped(cs: Contents) {
    match cs
    case NoContents => true
    case Contents(before, last) => AllTyped(before) && Typed(last)
  }

  predicate AllNamed(cs: Contents) {
    match cs
    case NoContents => true
    case Contents(before, last) => AllNamed(before) && last.name.Some?
  }

  /** Every member of an object has a key. */
  predicate Keyed(c: Content) {
    (c.kind == ArrayKind || c.kind == ObjectKind ==> AllKeyed(c.kids)) && (c.kind == ObjectKind ==> AllNamed(c.kids))
  }

  predicate AllKeyed(cs: Contents) {
    match cs
    case NoContents => true
    case Contents(before, last) => AllKeyed(before) && Keyed(last)
  }

  /** The string behind a pointer; NULL counts as the empty one, as it does in print. */
  function TextOf(pointer: Option<Bytes>): Bytes {
    match pointer
    case None => []
    case Some(s) => s
  }

  /** The value a node stands for; one without a type counts as null. */
  function JsonOf(c: Content): Json {
    match c.kind
    case Invalid => Null
    case NullKind => Null
    case FalseKind => False
    case TrueKind => True
    case NumberKind => Number(c.valuedouble)
    case StringKind => String(TextOf(c.valuestring))
    case ArrayKind => Array(ItemsFrom(c.kids, NoItems))
    case ObjectKind => Object(MembersFrom(c.kids, NoMembers))
  }

  /** The values of the contents, followed by `more`. */
  function ItemsFrom(cs: Contents, more: Items): Items {
    match cs
    case NoContents => more
    case Contents(before, last) => ItemsFrom(before, Item(JsonOf(last), more))
  }

  function MembersFrom(cs: Contents, more: Members): Members {
    match cs
    case NoContents => more
    case Contents(before, last) => MembersFrom(before, Member(TextOf(last.name), JsonOf(last), more))
  }

  /** Every node that print reaches has a type. */
  predicate Sound(c: Content) {
    c.kind != Invalid && (c.kind == ArrayKind || c.kind == ObjectKind ==> AllSound(c.kids))
  }

  predicate AllSound(cs: Contents) {
    match cs
    case NoContents => true
    case Contents(before, last) => AllSound(before) && Sound(last)
  }

  lemma {:induction false} TypedIsSound(c: Content)
    requires Typed(c)
    ensures Sound(c)
  {
    if c.kind == ArrayKind || c.kind == ObjectKind {
      AllTypedIsSound(c.kids);
    }
  }

  lemma {:induction false} AllTypedIsSound(cs: Contents)
    requires AllTyped(cs)
    ensures AllSound(cs)
  {
    if cs.Contents? {
      AllTypedIsSound(cs.before);
      TypedIsSound(cs.last);
    }
  }

  // ----- walking a child list along the next pointers

  /** `done` is the front part of `ts`. */
  ghost predicate Front(done: Kids, ts: Kids) {
    done == ts || (ts.Kid? && Front(done, ts.before))
  }

  /** The child behind the front part `done`. */
  ghost function Following(done: Kids, ts: Kids): Tree
    requires Front(done, ts) && done != ts
  {
    if ts.before == done then ts.last else Following(done, ts.before)
  }

  /** Where the walk stands once `done` is behind it: NULL at the end. */
  ghost function Ahead(done: Kids, ts: Kids): Node?
    requires Front(done, ts)
  {
    if done == ts then null else Following(done, ts).node
  }

  ghost function Remaining(done: Kids, ts: Kids): nat {
    if done == ts || ts.NoKids? then 0 else 1 + Remaining(done, ts.before)
  }

  /** The child ahead is well formed, and its next pointer leads where the walk goes on. */
  lemma {:induction false} StepAlong(done: Kids, ts: Kids)
    requires Chained(ts) && Front(done, ts) && done != ts
    ensures var t := Following(done, ts);
            && Formed(t) && t.node in Footprints(ts) && Footprints(Kid(done, t)) <= Footprints(ts) && t < ts
            && Front(Kid(done, t), ts) && Chained(Kid(done, t))
            && Remaining(Kid(done, t), ts) < Remaining(done, ts)
            && t.node.next == if Kid(done, t) == ts then Last(ts).next else Ahead(Kid(done, t), ts)
  {
    if ts.before != done {
      StepAlong(done, ts.before);
    }
  }

  lemma {:induction false} WalkFromFirst(ts: Kids)
    ensures Front(NoKids, ts) && First(ts) == Ahead(NoKids, ts)
  {
    if ts.Kid? && ts.before.Kid? {
      WalkFromFirst(ts.before);
    }
  }
}
