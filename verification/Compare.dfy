/**
  cJSON_Compare and the look-up it uses, as they walk the nodes. The result is the relation of
  `Equality`, except that a node compared with itself is equal without looking.
 */
module Compare {
  import opened Bytes
  import opened JsonTree
  import opened Grammar
  import opened Nodes
  import opened NodeLists
  import opened Equality

  /** The byte a C pointer into the string sees at `i`. */
  function CharAt(s: Bytes, i: nat): byte
    requires i <= |s|
  {
    if i < |s| then s[i] else NUL
  }

  /** case_insensitive_strcmp for two strings that are not NULL: the sign is not used anywhere. */
  method CaseInsensitiveStrcmp(x: Bytes, y: Bytes) returns (difference: int)
    requires NUL !in x && NUL !in y
    ensures difference == 0 <==> Fold(x, false) == Fold(y, false)
  {
    var i := 0;
    while Lower(CharAt(x, i)) == Lower(CharAt(y, i))
      invariant i <= |x| && i <= |y|
      invariant forall k :: 0 <= k < i ==> Lower(x[k]) == Lower(y[k])
      decreases |x| - i
    {
      if CharAt(x, i) == NUL {
        assert i == |x| && i == |y|;
        return 0;
      }
      i := i + 1;
    }
    if |x| == |y| {
      assert Fold(x, false)[i] != Fold(y, false)[i];
    }
    return Lower(CharAt(x, i)) - Lower(CharAt(y, i));
  }

  method SameKey(x: Bytes, y: Bytes, caseSensitive: bool) returns (same: bool)
    requires NUL !in x && NUL !in y
    ensures same <==> Fold(x, caseSensitive) == Fold(y, caseSensitive)
  {
    if caseSensitive {
      return x == y;
    }
    var difference := CaseInsensitiveStrcmp(x, y);
    return difference == 0;
  }

  // ----- what a walk still has ahead

  /** The values from behind the front `done` to the end of a list with contents `cs`, and then `more`. */
  ghost function ItemsAhead(done: Kids, ts: Kids, cs: Contents, more: Items): Items {
    if done == ts || ts.NoKids? || cs.NoContents? then more
    else ItemsAhead(done, ts.before, cs.before, Item(JsonOf(cs.last), more))
  }

  ghost function MembersAhead(done: Kids, ts: Kids, cs: Contents, more: Members): Members {
    if done == ts || ts.NoKids? || cs.NoContents? then more
    else MembersAhead(done, ts.before, cs.before, Member(TextOf(cs.last.name), JsonOf(cs.last), more))
  }

  /** Whether what is ahead has types and strings, and keys if they are asked for. */
  ghost predicate GoodAhead(done: Kids, ts: Kids, cs: Contents, named: bool) {
    done == ts || ts.NoKids? || cs.NoContents?
    || (GoodAhead(done, ts.before, cs.before, named) && Typed(cs.last) && (named ==> cs.last.name.Some?))
  }

  predicate Good(cs: Contents, named: bool) {
    AllTyped(cs) && (named ==> AllNamed(cs))
  }

  lemma {:induction false} AllAhead(ts: Kids, items: Items, members: Members, named: bool)
    ensures ItemsAhead(NoKids, ts, ContentsOf(ts), items) == ItemsFrom(ContentsOf(ts), items)
    ensures MembersAhead(NoKids, ts, ContentsOf(ts), members) == MembersFrom(ContentsOf(ts), members)
    ensures GoodAhead(NoKids, ts, ContentsOf(ts), named) == Good(ContentsOf(ts), named)
  {
    hide JsonOf, Typed;
    if ts.Kid? {
      var last := ContentOf(ts.last);
      AllAhead(ts.before, Item(JsonOf(last), items), Member(TextOf(last.name), JsonOf(last), members), named);
    }
  }

  lemma EndAhead(ts: Kids, cs: Contents, named: bool)
    ensures ItemsAhead(ts, ts, cs, NoItems) == NoItems && MembersAhead(ts, ts, cs, NoMembers) == NoMembers
    ensures GoodAhead(ts, ts, cs, named)
  {
  }

  lemma {:induction false} NextAhead(done: Kids, ts: Kids, items: Items, members: Members, named: bool)
    requires Front(done, ts) && done != ts
    ensures var t := Following(done, ts); var front := Kid(done, t); var cs := ContentsOf(ts); var c := ContentOf(t);
            && ItemsAhead(done, ts, cs, items) == Item(JsonOf(c), ItemsAhead(front, ts, cs, items))
            && MembersAhead(done, ts, cs, members)
               == Member(TextOf(c.name), JsonOf(c), MembersAhead(front, ts, cs, members))
            && (GoodAhead(done, ts, cs, named) <==>
                  GoodAhead(front, ts, cs, named) && Typed(c) && (named ==> c.name.Some?))
            && (AllKeyed(cs) ==> Keyed(c)) && (AllTyped(cs) ==> Typed(c)) && (AllNamed(cs) ==> c.name.Some?)
  {
    hide JsonOf, Typed, Keyed;
    if done != ts.before {
      var last := ContentOf(ts.last);
      NextAhead(done, ts.before, Item(JsonOf(last), items), Member(TextOf(last.name), JsonOf(last), members), named);
    }
  }

  // ----- how much there is to compare

  ghost function Rank(t: Tree): nat {
    1 + Ranks(t.kids)
  }

  ghost function Ranks(ts: Kids): nat {
    match ts
    case NoKids => 0
    case Kid(before, last) => Ranks(before) + Rank(last)
  }

  lemma {:induction false} FollowingRank(done: Kids, ts: Kids)
    requires Front(done, ts) && done != ts
    ensures Rank(Following(done, ts)) <= Ranks(ts) && Footprint(Following(done, ts)) <= Footprints(ts)
  {
    if done != ts.before {
      FollowingRank(done, ts.before);
    }
  }

  // ----- the methods

  /** A node and its tree that stand for `j`. */
  ghost predicate Stands(t: Tree, j: Json)
    reads Footprint(t)
  {
    Formed(t) && j == JsonOf(ContentOf(t)) && CStrings(j)
  }

  /** A list of nodes that stands for `members`. */
  ghost predicate MemberList(ts: Kids, members: Members)
    reads Footprints(ts)
  {
    KidsFormed(ts) && members == MembersFrom(ContentsOf(ts), NoMembers) && MembersCStrings(members)
  }

  ghost predicate ItemList(ts: Kids, items: Items)
    reads Footprints(ts)
  {
    KidsFormed(ts) && items == ItemsFrom(ContentsOf(ts), NoItems) && ItemsCStrings(items)
  }

  ghost predicate Inside(t: Tree, ts: Kids) {
    Footprint(t) <= Footprints(ts) && Rank(t) <= Ranks(ts)
  }

  /** One step of a walk: what is known of the child ahead. */
  ghost predicate Stepped(done: Kids, ts: Kids, cs: Contents, named: bool)
    requires Front(done, ts) && done != ts
    reads Footprints(ts), Footprint(Following(done, ts))
  {
    var t := Following(done, ts);
    var front := Kid(done, t);
    var c := ContentOf(t);
    && Stands(t, JsonOf(c)) && Inside(t, ts)
    && Front(front, ts) && Remaining(front, ts) < Remaining(done, ts) && t.node.next == Ahead(front, ts)
    && (GoodAhead(done, ts, cs, named) <==> GoodAhead(front, ts, cs, named) && Typed(c) && (named ==> c.name.Some?))
    && (AllKeyed(cs) ==> Keyed(c)) && (AllTyped(cs) ==> Typed(c)) && (AllNamed(cs) ==> c.name.Some?)
  }

  lemma MemberStep(done: Kids, ts: Kids, members: Members)
    requires MemberList(ts, members) && Front(done, ts) && done != ts
    requires MembersCStrings(MembersAhead(done, ts, ContentsOf(ts), NoMembers))
    ensures var t := Following(done, ts); var cs := ContentsOf(ts); var c := ContentOf(t);
            && Stepped(done, ts, cs, true) && NUL !in TextOf(c.name)
            && MembersAhead(done, ts, cs, NoMembers)
               == Member(TextOf(c.name), JsonOf(c), MembersAhead(Kid(done, t), ts, cs, NoMembers))
            && MembersCStrings(MembersAhead(Kid(done, t), ts, cs, NoMembers))
  {
    hide Typed, Keyed, JsonOf;
    StepAlong(done, ts);
    FollowingRank(done, ts);
    NextAhead(done, ts, NoItems, NoMembers, true);
  }

  lemma ItemStep(done: Kids, ts: Kids, items: Items)
    requires ItemList(ts, items) && Front(done, ts) && done != ts
    requires ItemsCStrings(ItemsAhead(done, ts, ContentsOf(ts), NoItems))
    ensures var t := Following(done, ts); var cs := ContentsOf(ts); var c := ContentOf(t);
            && Stepped(done, ts, cs, false)
            && ItemsAhead(done, ts, cs, NoItems) == Item(JsonOf(c), ItemsAhead(Kid(done, t), ts, cs, NoItems))
            && ItemsCStrings(ItemsAhead(Kid(done, t), ts, cs, NoItems))
  {
    hide Typed, Keyed, JsonOf;
    StepAlong(done, ts);
    FollowingRank(done, ts);
    NextAhead(done, ts, NoItems, NoMembers, false);
  }

  lemma Apart(t: Tree, u: Tree)
    requires Footprint(t) !! Footprint(u)
    ensures t.node != u.node
  {
    assert t.node in Footprint(t) && u.node in Footprint(u);
  }

  /** No element is left exactly when the walk stands at NULL. */
  lemma ItemsLeft(done: Kids, ts: Kids)
    requires Front(done, ts)
    ensures Ahead(done, ts) == null <==> ItemsAhead(done, ts, ContentsOf(ts), NoItems) == NoItems
    ensures Ahead(done, ts) == null ==> GoodAhead(done, ts, ContentsOf(ts), false)
  {
    if done != ts {
      NextAhead(done, ts, NoItems, NoMembers, false);
    }
  }

  /** What get_object_item answers when all members have keys, and what is known of its answer anyway. */
  ghost predicate Answers(found: Option<Tree>, wanted: Option<Json>, ts: Kids)
    reads Footprints(ts), if found.Some? then Footprint(found.value) else {}
  {
    && (found.Some? ==> Stands(found.value, JsonOf(ContentOf(found.value))) && Inside(found.value, ts))
    && (found.Some? && AllKeyed(ContentsOf(ts)) ==> Keyed(ContentOf(found.value)))
    && (found.Some? && AllTyped(ContentsOf(ts)) ==> Typed(ContentOf(found.value)))
    && (AllNamed(ContentsOf(ts)) ==> wanted == if found.None? then None else Some(JsonOf(ContentOf(found.value))))
  }

  /** get_object_item: the first member whose key matches; strcmp does not accept a missing key. */
  method GetObjectItem(parent: Node?, name: Option<Bytes>, caseSensitive: bool, ghost ts: Kids, ghost members: Members)
    returns (item: Node?, ghost found: Option<Tree>)
    requires parent != null ==> parent.child == First(ts) && MemberList(ts, members)
    requires parent != null && caseSensitive ==> AllNamed(ContentsOf(ts))
    requires NUL !in TextOf(name)
    ensures parent == null || name == None ==> item == null
    ensures item == if found.None? then null else found.value.node
    ensures parent != null && name.Some? ==> Answers(found, Lookup(members, name.value, caseSensitive), ts)
  {
    hide Fold, MembersCStrings, CStrings, MembersAhead, JsonOf, Typed, Formed, Rank, Ranks, GoodAhead, Keyed, AllKeyed;
    hide AllTyped, AllNamed;
    if parent == null || name.None? {
      return null, None;
    }
    var current := parent.child;
    ghost var cs, done := ContentsOf(ts), NoKids;
    WalkFromFirst(ts);
    KidsAllocated(ts);
    AllAhead(ts, NoItems, NoMembers, true);
    EndAhead(ts, cs, true);
    while current != null
      invariant Front(done, ts) && current == Ahead(done, ts)
      invariant MembersCStrings(MembersAhead(done, ts, cs, NoMembers))
      invariant AllNamed(cs) ==> (
        Lookup(members, name.value, caseSensitive)
        == Lookup(MembersAhead(done, ts, cs, NoMembers), name.value, caseSensitive))
      decreases Remaining(done, ts)
    {
      MemberStep(done, ts, members);
      if current.name.Some? {
        var same := SameKey(name.value, current.name.value, caseSensitive);
        if same {
          return current, Some(Following(done, ts));
        }
      }
      done := Kid(done, Following(done, ts));
      current := current.next;
    }
    return null, None;
  }

  /**
    cJSON_Compare, of one tree with itself or of two trees that share no node. A node without a type,
    a missing string or a missing key makes the trees different; with case_sensitive keys must not
    be missing.
   */
  method Compare(a: Node?, b: Node?, caseSensitive: bool, ghost t: Tree, ghost u: Tree, ghost x: Json, ghost y: Json)
    returns (same: bool)
    requires a != null ==> a == t.node && Stands(t, x)
    requires b != null ==> b == u.node && Stands(u, y)
    requires a != null && b != null ==> t == u || Footprint(t) !! Footprint(u)
    requires a != null && b != null && caseSensitive ==> Keyed(ContentOf(t)) && Keyed(ContentOf(u))
    ensures same <==>
      && a != null && b != null
      && if a == b then a.kind != Invalid
         else Typed(ContentOf(t)) && Typed(ContentOf(u)) && Equal(x, y, caseSensitive)
    ensures same && a != b ==>
      a.kind == b.kind != Invalid && (a.kind == StringKind ==> a.valuestring == b.valuestring != None)
    decreases Rank(t) + Rank(u), 0
  {
    hide Fold, Lookup, AllFound, ItemsEqual, Ranks, AllTyped, AllNamed, AllKeyed;
    if a == null || b == null || a.kind != b.kind || a.kind == Invalid {
      return false;
    }
    if a == b {
      return true;
    }
    KidsAllocated(t.kids);
    KidsAllocated(u.kids);
    match a.kind
    case FalseKind => return true;
    case TrueKind => return true;
    case NullKind => return true;
    case NumberKind => return a.valuedouble == b.valuedouble;
    case StringKind =>
      if a.valuestring == None || b.valuestring == None {
        return false;
      }
      return a.valuestring.value == b.valuestring.value;
    case ArrayKind =>
      same := CompareItems(a.child, b.child, caseSensitive, t.kids, u.kids, x.items, y.items);
    case ObjectKind =>
      same := CompareMembers(a.child, b, caseSensitive, t.kids, u.kids, x.members, y.members);
      if same {
        same := CompareMembers(b.child, a, caseSensitive, u.kids, t.kids, y.members, x.members);
      }
  }

  /** The loop over two arrays. */
  method CompareItems(first: Node?, second: Node?, caseSensitive: bool,
                      ghost ts: Kids, ghost us: Kids, ghost x: Items, ghost y: Items)
    returns (same: bool)
    requires first == First(ts) && ItemList(ts, x) && second == First(us) && ItemList(us, y)
    requires Footprints(ts) !! Footprints(us)
    requires caseSensitive ==> AllKeyed(ContentsOf(ts)) && AllKeyed(ContentsOf(us))
    ensures same <==> AllTyped(ContentsOf(ts)) && AllTyped(ContentsOf(us)) && ItemsEqual(x, y, caseSensitive)
    decreases Ranks(ts) + Ranks(us), 1
  {
    hide ItemsCStrings, CStrings, ItemsAhead, JsonOf, Typed, Formed, Rank, Ranks, GoodAhead, Keyed, AllKeyed;
    hide AllTyped, AllNamed;
    var a, b := first, second;
    ghost var done, past := NoKids, NoKids;
    ghost var v, w := x, y;
    WalkFromFirst(ts);
    WalkFromFirst(us);
    AllAhead(ts, NoItems, NoMembers, false);
    AllAhead(us, NoItems, NoMembers, false);
    KidsAllocated(ts);
    KidsAllocated(us);
    while a != null && b != null
      invariant Front(done, ts) && a == Ahead(done, ts) && Front(past, us) && b == Ahead(past, us)
      invariant v == ItemsAhead(done, ts, ContentsOf(ts), NoItems) && ItemsCStrings(v)
      invariant w == ItemsAhead(past, us, ContentsOf(us), NoItems) && ItemsCStrings(w)
      invariant ItemsEqual(x, y, caseSensitive) == ItemsEqual(v, w, caseSensitive)
      invariant AllTyped(ContentsOf(ts)) == GoodAhead(done, ts, ContentsOf(ts), false)
      invariant AllTyped(ContentsOf(us)) == GoodAhead(past, us, ContentsOf(us), false)
      decreases Remaining(done, ts)
    {
      ItemStep(done, ts, x);
      ItemStep(past, us, y);
      Apart(Following(done, ts), Following(past, us));
      same := Compare(a, b, caseSensitive, Following(done, ts), Following(past, us), v.head, w.head);
      if !same {
        return false;
      }
      done, v := Kid(done, Following(done, ts)), v.tail;
      past, w := Kid(past, Following(past, us)), w.tail;
      a, b := a.next, b.next;
    }
    ItemsLeft(done, ts);
    ItemsLeft(past, us);
    if a != b {
      return false;
    }
    return true;
  }

  /**
    One of the loops over the members of an object: each is looked up in the other object. If the
    other object has types, strings and keys, the loop decides whether every member is found in it.
   */
  method CompareMembers(first: Node?, other: Node, caseSensitive: bool,
                        ghost ts: Kids, ghost us: Kids, ghost x: Members, ghost y: Members)
    returns (same: bool)
    requires first == First(ts) && MemberList(ts, x)
    requires other.child == First(us) && MemberList(us, y) && Footprints(ts) !! Footprints(us)
    requires caseSensitive ==> AllKeyed(ContentsOf(ts)) && AllKeyed(ContentsOf(us)) && AllNamed(ContentsOf(us))
    ensures same ==> Good(ContentsOf(ts), true)
    ensures Good(ContentsOf(us), true) ==> (same <==> Good(ContentsOf(ts), true) && AllFound(x, y, caseSensitive))
    decreases Ranks(ts) + Ranks(us), 2
  {
    hide Fold, Lookup, Equal, MembersCStrings, CStrings, MembersAhead, JsonOf, Typed, Formed, Rank, Ranks;
    hide GoodAhead, Keyed, AllKeyed, Good;
    var element := first;
    ghost var cs, done, good := ContentsOf(ts), NoKids, Good(ContentsOf(us), true);
    WalkFromFirst(ts);
    KidsAllocated(ts);
    KidsAllocated(us);
    AllAhead(ts, NoItems, NoMembers, true);
    EndAhead(ts, cs, true);
    while element != null
      invariant Front(done, ts) && element == Ahead(done, ts)
      invariant MembersCStrings(MembersAhead(done, ts, cs, NoMembers))
      invariant good ==> (
        AllFound(x, y, caseSensitive) == AllFound(MembersAhead(done, ts, cs, NoMembers), y, caseSensitive))
      invariant Good(cs, true) == GoodAhead(done, ts, cs, true)
      decreases Remaining(done, ts)
    {
      MemberStep(done, ts, x);
      ghost var t := Following(done, ts);
      same := CompareMember(element, other, caseSensitive, t, us, JsonOf(ContentOf(t)), y);
      if !same {
        return false;
      }
      done := Kid(done, t);
      element := element.next;
    }
    return true;
  }

  /** One turn of that loop: the look-up of a member, and the comparison with what is found. */
  method CompareMember(element: Node, other: Node, caseSensitive: bool,
                       ghost t: Tree, ghost us: Kids, ghost j: Json, ghost y: Members)
    returns (same: bool)
    requires element == t.node && Stands(t, j) && NUL !in TextOf(element.name)
    requires other.child == First(us) && MemberList(us, y) && Footprint(t) !! Footprints(us)
    requires caseSensitive ==> Keyed(ContentOf(t)) && AllKeyed(ContentsOf(us)) && AllNamed(ContentsOf(us))
    ensures same ==> element.name.Some? && Typed(ContentOf(t))
    ensures Good(ContentsOf(us), true) ==>
      (same <==> element.name.Some? && Typed(ContentOf(t))
                 && var wanted := Lookup(y, element.name.value, caseSensitive);
                    wanted.Some? && Equal(j, wanted.value, caseSensitive))
    decreases Rank(t) + Ranks(us), 1
  {
    hide Fold, Lookup, Equal, MembersCStrings, CStrings, JsonOf, Typed, Rank, Ranks;
    hide Keyed, AllKeyed, AllTyped, AllNamed;
    KidsAllocated(us);
    KidsAllocated(t.kids);
    var item, found := GetObjectItem(other, element.name, caseSensitive, us, y);
    if item == null {
      return false;
    }
    Apart(t, found.value);
    same := Compare(element, item, caseSensitive, t, found.value, j, JsonOf(ContentOf(found.value)));
  }
}
