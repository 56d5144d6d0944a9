/**
  Growing a child list at its back: suffix_object, add_item_to_array, and the deep copy.
 */
module NodeLists {
  import opened Bytes
  import opened Nodes

  /** The nodes of an existing list exist, so a new node is none of them. */
  lemma {:induction false} KidsAllocated(ts: Kids)
    ensures forall n :: n in Footprints(ts) ==> allocated(n)
  {
    match ts
    case NoKids =>
    case Kid(before, last) =>
      var node := last.node;
      KidsAllocated(before);
      KidsAllocated(last.kids);
      assert Footprint(last) == {node} + Footprints(last.kids);
      forall n | n in Footprints(ts) ensures allocated(n) {
        assert n == node || n in Footprints(last.kids) || n in Footprints(before);
      }
  }

  /** suffix_object, used with the last node of a well-formed list. */
  method SuffixObject(last: Node, item: Node, ghost ts: Kids, ghost t: Tree)
    requires KidsFormed(ts) && Formed(t) && Footprints(ts) !! Footprint(t)
    requires ts.Kid? && last == Last(ts) && item == t.node
    requires item.next == null && item.prev == null
    modifies last`next, item`prev
    ensures KidsFormed(Kid(ts, t))
    ensures ContentsOf(Kid(ts, t)) == old(ContentsOf(Kid(ts, t)))
  {
    ghost var tail := ts.last;
    assert Formed(tail) && KidsFormed(tail.kids) && Chained(ts.before) && KidsFormed(t.kids);
    last.next := item;
    item.prev := last;
    assert Chained(ts.before) && ContentsOf(ts.before) == old(ContentsOf(ts.before));
    assert KidsFormed(tail.kids) && ContentsOf(tail.kids) == old(ContentsOf(tail.kids));
    assert KidsFormed(t.kids) && ContentsOf(t.kids) == old(ContentsOf(t.kids));
    assert Formed(tail) && ContentOf(tail) == old(ContentOf(tail));
    assert Formed(t) && ContentOf(t) == old(ContentOf(t));
  }

  /** Linking a new node behind the list built so far: the step shared by the parser and the copier. */
  method Attach(last: Node?, item: Node, ghost ts: Kids, ghost t: Tree)
    requires KidsFormed(ts) && Formed(t) && Footprints(ts) !! Footprint(t)
    requires last == Last(ts) && item == t.node && item.next == null && item.prev == null
    modifies if last == null then {} else {last}, item`prev
    ensures KidsFormed(Kid(ts, t))
    ensures ContentsOf(Kid(ts, t)) == old(ContentsOf(Kid(ts, t)))
  {
    if last != null {
      SuffixObject(last, item, ts, t);
    }
  }

  /** `n` is linked behind the list, with its own content still to be settled. */
  ghost predicate LinkedBehind(ts: Kids, n: Node)
    reads Footprints(ts), n
  {
    && Chained(ts) && n !in Footprints(ts)
    && (ts.Kid? ==> Last(ts).next == n) && n.prev == Last(ts) && n.next == null
  }

  /** Allocating a new item and attaching it to the list, as the parser does before it reads the value. */
  method AttachNew(last: Node?, ghost ts: Kids) returns (item: Node)
    requires KidsFormed(ts) && last == Last(ts)
    modifies if last == null then {} else {last}
    ensures fresh(item) && LinkedBehind(ts, item) && item.child == null
    ensures ContentsOf(ts) == old(ContentsOf(ts))
  {
    KidsAllocated(ts);
    item := new Node();
    Attach(last, item, ts, Tree(item, NoKids));
  }

  /** cJSON_Duplicate. */
  method Duplicate(item: Node?, recurse: bool, ghost t: Tree) returns (copy: Node?, ghost u: Tree)
    requires item != null ==> item == t.node && Formed(t)
    ensures item == null <==> copy == null
    ensures copy != null ==>
      u.node == copy && Formed(u) && fresh(Footprint(u)) && copy.next == null && copy.prev == null
    ensures copy != null && recurse ==> ContentOf(u) == old(ContentOf(t))
    ensures copy != null && !recurse ==> ContentOf(u) == old(ContentOf(t)).(kids := NoContents)
    decreases t, 2
  {
    if item == null {
      return null, t;
    }
    KidsAllocated(t.kids);
    var newitem := new Node();
    newitem.kind := item.kind;
    newitem.valuedouble := item.valuedouble;
    newitem.valuestring := item.valuestring;
    newitem.name := item.name;
    ghost var kids := NoKids;
    if recurse {
      kids := DuplicateKids(newitem, item.child, t);
    }
    return newitem, Tree(newitem, kids);
  }

  /** The loop of cJSON_Duplicate over the children. */
  method DuplicateKids(newitem: Node, first: Node?, ghost t: Tree) returns (ghost kids: Kids)
    requires KidsFormed(t.kids) && first == First(t.kids)
    requires newitem !in Footprints(t.kids) && newitem.child == null
    modifies newitem`child
    ensures KidsFormed(kids) && fresh(Footprints(kids)) && newitem.child == First(kids)
    ensures ContentsOf(kids) == old(ContentsOf(t.kids))
    decreases t, 1
  {
    var child, next: Node? := first, null;
    kids := NoKids;
    KidsAllocated(t.kids);
    WalkFromFirst(t.kids);
    ghost var done := NoKids;
    while child != null
      invariant KidsFormed(t.kids) && ContentsOf(t.kids) == old(ContentsOf(t.kids))
      invariant Front(done, t.kids) && child == Ahead(done, t.kids)
      invariant KidsFormed(kids) && newitem.child == First(kids) && next == Last(kids)
      invariant fresh(Footprints(kids)) && newitem !in Footprints(kids)
      invariant ContentsOf(kids) == ContentsOf(done)
      decreases Remaining(done, t.kids)
    {
      StepAlong(done, t.kids);
      ghost var v;
      ghost var front := Kid(done, Following(done, t.kids));
      ghost var content := ContentsOf(front);
      next, v := DuplicateKid(newitem, next, child, kids, front.last);
      assert ContentsOf(front) == content;
      kids, done := Kid(kids, v), front;
      child := child.next;
    }
  }

  /** One turn of that loop: copy a child and link the copy behind the copies made so far. */
  method DuplicateKid(newitem: Node, last: Node?, child: Node, ghost kids: Kids, ghost t: Tree)
    returns (newchild: Node, ghost v: Tree)
    requires KidsFormed(kids) && last == Last(kids) && newitem.child == First(kids)
    requires Formed(t) && child == t.node && Footprints(kids) !! Footprint(t)
    requires newitem !in Footprints(kids) && newitem !in Footprint(t)
    modifies newitem`child, if last == null then {} else {last}
    ensures newchild == v.node && fresh(Footprint(v))
    ensures KidsFormed(Kid(kids, v)) && newitem.child == First(Kid(kids, v))
    ensures ContentsOf(Kid(kids, v)) == Contents(old(ContentsOf(kids)), old(ContentOf(t)))
    decreases t, 3
  {
    KidsAllocated(kids);
    newchild, v := Duplicate(child, true, t);
    Attach(last, newchild, kids, v);
    if last == null {
      newitem.child := newchild;
    }
  }
}
