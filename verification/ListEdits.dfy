/**
  Editing a child list: append, detach, insert and replace, as operations on the sequence of
  children. Only link fields change, so the contents of all nodes stay what they were.
 */
module ListEdits {
  import opened Bytes
  import opened Nodes
  import opened NodeLists

  ghost predicate Distinct(s: seq<Node>) {
    forall i, j :: 0 <= i < j < |s| ==> s[i] != s[j]
  }

  /** The nodes, in order, linked to each other both ways and to NULL at both ends. */
  ghost predicate Linked(s: seq<Node>)
    reads s
  {
    && Distinct(s)
    && (forall i :: 0 <= i < |s| ==> s[i].prev == At(s, i - 1) && s[i].next == At(s, i + 1))
  }

  /** The i-th node, NULL outside the list. */
  ghost function At(s: seq<Node>, i: int): (n: Node?)
    ensures n == null <==> !(0 <= i < |s|)
  {
    if 0 <= i < |s| then s[i] else null
  }

  /** The parent's children are the sequence `s`. */
  ghost predicate Children(parent: Node, s: seq<Node>)
    reads parent, s
  {
    Linked(s) && parent.child == At(s, 0)
  }

  /** An item that is in no list. */
  ghost predicate Alone(item: Node)
    reads item
  {
    item.next == null && item.prev == null
  }

  ghost function Only(n: Node?): set<Node> {
    if n == null then {} else {n}
  }

  /** get_array_item */
  method GetArrayItem(parent: Node?, index: nat, ghost s: seq<Node>) returns (item: Node?)
    requires parent != null ==> Children(parent, s)
    ensures item == if parent == null then null else At(s, index)
  {
    if parent == null {
      return null;
    }
    var child, left := parent.child, index;
    while child != null && left > 0
      invariant 0 <= left <= index && index - left <= |s| && child == At(s, index - left)
      decreases left
    {
      left := left - 1;
      child := child.next;
    }
    return child;
  }

  lemma AppendedParts(s: seq<Node>, item: Node)
    requires Distinct(s) && item !in s
    ensures Distinct(s + [item]) && At(s + [item], |s|) == item
    ensures forall i :: -1 <= i < |s| ==> At(s + [item], i) == At(s, i)
  {
  }

  /** suffix_object, for the last child of the sequence. */
  method LinkBehind(last: Node, item: Node, ghost s: seq<Node>)
    requires s != [] && Linked(s) && last == s[|s| - 1] && Alone(item) && item !in s
    modifies last`next, item`prev
    ensures Linked(s + [item])
  {
    AppendedParts(s, item);
    last.next := item;
    item.prev := last;
    ghost var n := s + [item];
    forall i | 0 <= i < |n| ensures n[i].prev == At(n, i - 1) && n[i].next == At(n, i + 1) {
      assert n[i] == if i == |s| then item else s[i];
    }
  }

  /** add_item_to_array */
  method AddItemToArray(parent: Node?, item: Node?, ghost s: seq<Node>) returns (ok: bool)
    requires parent != null ==> Children(parent, s)
    requires item != null ==> Alone(item) && item !in s
    modifies Only(parent)`child, s`next, Only(item)`prev
    ensures ok <==> parent != null && item != null
    ensures ok ==> Children(parent, s + [item])
    ensures !ok && parent != null ==> Children(parent, s)
  {
    if item == null || parent == null {
      return false;
    }
    var child := parent.child;
    if child == null {
      parent.child := item;
    } else {
      ghost var i := 0;
      while child.next != null
        invariant i < |s| && child == s[i] && Children(parent, s)
        decreases |s| - i
      {
        child := child.next;
        i := i + 1;
      }
      LinkBehind(child, item, s);
    }
    return true;
  }

  /** The list without the child at index `k`. */
  function Removed<T>(s: seq<T>, k: nat): seq<T>
    requires k < |s|
  {
    s[..k] + s[k + 1..]
  }

  lemma RemovedParts(s: seq<Node>, k: nat)
    requires k < |s| && Distinct(s)
    ensures Distinct(Removed(s, k)) && |Removed(s, k)| == |s| - 1 && s[k] !in Removed(s, k)
    ensures forall i :: -1 <= i < k ==> At(Removed(s, k), i) == At(s, i)
    ensures forall i :: k <= i ==> At(Removed(s, k), i) == At(s, i + 1)
  {
  }

  /** The part of cJSON_DetachItemViaPointer that closes the gap. */
  method Unlink(parent: Node, item: Node, ghost s: seq<Node>, ghost k: nat)
    requires Children(parent, s) && k < |s| && s[k] == item
    modifies parent`child, s`next, s`prev
    ensures Children(parent, Removed(s, k))
  {
    RemovedParts(s, k);
    assert item.prev == At(s, k - 1) && item.next == At(s, k + 1);
    if item.prev != null {
      item.prev.next := item.next;
    }
    if item.next != null {
      item.next.prev := item.prev;
    }
    if item == parent.child {
      parent.child := item.next;
    }
    ghost var n := Removed(s, k);
    forall i | 0 <= i < |n| ensures n[i].prev == At(n, i - 1) && n[i].next == At(n, i + 1) {
      assert n[i] == At(n, i) == if i < k then s[i] else s[i + 1];
    }
  }

  /** cJSON_DetachItemViaPointer, for the child at index `k`. */
  method DetachItemViaPointer(parent: Node?, item: Node?, ghost s: seq<Node>, ghost k: nat) returns (detached: Node?)
    requires parent != null ==> Children(parent, s) && (item != null ==> k < |s| && s[k] == item)
    modifies Only(parent)`child, s`next, s`prev
    ensures detached == if parent == null then null else item
    ensures detached != null ==> Children(parent, Removed(s, k)) && Alone(item)
    ensures parent != null && detached == null ==> Children(parent, s)
  {
    if parent == null || item == null {
      return null;
    }
    RemovedParts(s, k);
    Unlink(parent, item, s, k);
    item.prev := null;
    item.next := null;
    return item;
  }

  /** cJSON_DetachItemFromArray */
  method DetachItemFromArray(parent: Node?, which: int, ghost s: seq<Node>) returns (detached: Node?)
    requires parent != null ==> Children(parent, s)
    modifies Only(parent)`child, s`next, s`prev
    ensures detached == if parent == null then null else At(s, which)
    ensures detached != null ==> Children(parent, Removed(s, which)) && Alone(detached)
    ensures parent != null && detached == null ==> Children(parent, s)
  {
    hide Linked;
    if which < 0 {
      return null;
    }
    var item := GetArrayItem(parent, which, s);
    detached := DetachItemViaPointer(parent, item, s, which);
  }

  /** The list with `item` in front of the child at index `which`, or at the end if there is none. */
  function Inserted<T>(s: seq<T>, which: nat, item: T): seq<T> {
    if which < |s| then s[..which] + [item] + s[which..] else s + [item]
  }

  /** Detaching undoes inserting, which leaves the item at its index or at the end; and the other way round. */
  lemma DetachUndoesInsert<T>(s: seq<T>, k: nat, item: T)
    ensures var r := Inserted(s, k, item); var i := if k < |s| then k else |s|;
            i < |r| && r[i] == item && Removed(r, i) == s
    ensures k < |s| ==> Inserted(Removed(s, k), k, s[k]) == s
  {
  }

  lemma InsertedParts(s: seq<Node>, k: nat, item: Node)
    requires k < |s| && Distinct(s) && item !in s
    ensures Distinct(Inserted(s, k, item)) && |Inserted(s, k, item)| == |s| + 1
    ensures forall i :: -1 <= i < k ==> At(Inserted(s, k, item), i) == At(s, i)
    ensures At(Inserted(s, k, item), k) == item
    ensures forall i :: k < i ==> At(Inserted(s, k, item), i) == At(s, i - 1)
  {
  }

  /** cJSON_InsertItemInArray where there is a child at the index. */
  method InsertBefore(parent: Node, afterInserted: Node, newitem: Node, ghost s: seq<Node>, ghost k: nat)
    requires Children(parent, s) && k < |s| && s[k] == afterInserted && newitem !in s
    modifies parent`child, s`next, s`prev, newitem`next, newitem`prev
    ensures Children(parent, Inserted(s, k, newitem))
  {
    InsertedParts(s, k, newitem);
    newitem.next := afterInserted;
    newitem.prev := afterInserted.prev;
    afterInserted.prev := newitem;
    if afterInserted == parent.child {
      parent.child := newitem;
    } else {
      newitem.prev.next := newitem;
    }
    ghost var n := Inserted(s, k, newitem);
    forall i | 0 <= i < |n| ensures n[i].prev == At(n, i - 1) && n[i].next == At(n, i + 1) {
      assert n[i] == At(n, i);
    }
  }

  /** cJSON_InsertItemInArray; a NULL item is allowed only where it would be appended. */
  method InsertItemInArray(parent: Node?, which: int, newitem: Node?, ghost s: seq<Node>)
    requires parent != null ==> Children(parent, s)
    requires newitem != null ==> Alone(newitem) && newitem !in s
    requires newitem == null ==> parent == null || which < 0 || |s| <= which
    modifies Only(parent)`child, s`next, s`prev, Only(newitem)`next, Only(newitem)`prev
    ensures parent != null ==> Children(parent, if which < 0 || newitem == null then s else Inserted(s, which, newitem))
  {
    hide Linked;
    if which < 0 {
      return;
    }
    var afterInserted := GetArrayItem(parent, which, s);
    if afterInserted == null {
      var _ := AddItemToArray(parent, newitem, s);
    } else {
      InsertBefore(parent, afterInserted, newitem, s, which);
    }
  }

  lemma ReplacedParts(s: seq<Node>, k: nat, item: Node)
    requires k < |s| && Distinct(s) && item !in s
    ensures Distinct(s[k := item]) && At(s[k := item], k) == item && s[k] !in s[k := item]
    ensures forall i :: -1 <= i < k ==> At(s[k := item], i) == At(s, i)
    ensures forall i :: k < i ==> At(s[k := item], i) == At(s, i)
  {
  }

  /** The part of cJSON_ReplaceItemViaPointer that moves the links over. */
  method MoveLinks(parent: Node, item: Node, replacement: Node, ghost s: seq<Node>, ghost k: nat)
    requires Children(parent, s) && k < |s| && s[k] == item && replacement !in s
    modifies parent`child, s`next, s`prev, replacement`next, replacement`prev
    ensures Children(parent, s[k := replacement]) && item.next == old(item.next) && item.prev == old(item.prev)
  {
    ReplacedParts(s, k, replacement);
    assert item.prev == At(s, k - 1) && item.next == At(s, k + 1);
    replacement.next := item.next;
    replacement.prev := item.prev;
    if replacement.next != null {
      replacement.next.prev := replacement;
    }
    if replacement.prev != null {
      replacement.prev.next := replacement;
    }
    if parent.child == item {
      parent.child := replacement;
    }
    ghost var n := s[k := replacement];
    forall i | 0 <= i < |n| ensures n[i].prev == At(n, i - 1) && n[i].next == At(n, i + 1) {
      assert n[i] == if i == k then replacement else s[i];
    }
  }

  /** cJSON_ReplaceItemViaPointer, for the child at index `k`; the old item is left for deletion. */
  method ReplaceItemViaPointer(parent: Node?, item: Node?, replacement: Node?, ghost s: seq<Node>, ghost k: nat)
    returns (ok: bool)
    requires parent != null ==> Children(parent, s) && (item != null ==> k < |s| && s[k] == item)
    requires parent != null && replacement != null && replacement != item ==> replacement !in s
    modifies Only(parent)`child, s`next, s`prev, Only(replacement)`next, Only(replacement)`prev
    ensures ok <==> parent != null && item != null && replacement != null
    ensures ok ==> Children(parent, s[k := replacement]) && (replacement != item ==> Alone(item))
    ensures !ok && parent != null ==> Children(parent, s)
  {
    if parent == null || replacement == null || item == null {
      return false;
    }
    if replacement == item {
      assert s[k := replacement] == s;
      return true;
    }
    ReplacedParts(s, k, replacement);
    MoveLinks(parent, item, replacement, s, k);
    item.next := null;
    item.prev := null;
    return true;
  }

  /** cJSON_ReplaceItemInArray */
  method ReplaceItemInArray(parent: Node?, which: int, newitem: Node?, ghost s: seq<Node>)
    requires parent != null ==> Children(parent, s)
    requires newitem != null && newitem in s ==> newitem == At(s, which)
    modifies Only(parent)`child, s`next, s`prev, Only(newitem)`next, Only(newitem)`prev
    ensures parent != null ==>
      Children(parent, if 0 <= which < |s| && newitem != null then s[which := newitem] else s)
  {
    hide Linked;
    if which < 0 {
      return;
    }
    var item := GetArrayItem(parent, which, s);
    assert parent != null && item != null ==> s[which] == item;
    var _ := ReplaceItemViaPointer(parent, item, newitem, s, which);
  }

  /** cJSON_AddItemToObject: the item takes the name and goes to the end of the list. */
  method AddItemToObject(parent: Node?, name: Option<Bytes>, item: Node?, ghost s: seq<Node>) returns (ok: bool)
    requires parent != null ==> Children(parent, s)
    requires item != null ==> Alone(item) && item !in s
    modifies Only(parent)`child, s`next, Only(item)`prev, Only(item)`name
    ensures ok <==> parent != null && item != null && name.Some?
    ensures ok ==> Children(parent, s + [item]) && item.name == name
    ensures !ok && parent != null ==> Children(parent, s)
  {
    hide Linked;
    if parent == null || name.None? || item == null {
      return false;
    }
    item.name := name;
    ok := AddItemToArray(parent, item, s);
  }

  // ----- the lists of the parser and the copier are such sequences

  ghost function NodesOf(ts: Kids): seq<Node> {
    match ts
    case NoKids => []
    case Kid(before, last) => NodesOf(before) + [last.node]
  }

  /** Well-formed trees that share no node. */
  ghost predicate Apart(ts: Kids)
    reads Footprints(ts)
  {
    match ts
    case NoKids => true
    case Kid(before, last) => Apart(before) && Formed(last) && Footprints(before) !! Footprint(last)
  }

  /** Linked, but for the next pointer of the last node. */
  ghost predicate LinkedUp(s: seq<Node>)
    reads s
  {
    && (forall i :: 0 <= i < |s| ==> s[i].prev == At(s, i - 1))
    && (forall i :: 0 <= i < |s| - 1 ==> s[i].next == At(s, i + 1))
  }

  lemma LinkedUpSnoc(r: seq<Node>, n: Node)
    ensures LinkedUp(r + [n]) <==>
      LinkedUp(r) && n.prev == At(r, |r| - 1) && (r != [] ==> r[|r| - 1].next == n)
  {
    var s := r + [n];
    assert forall i :: 0 <= i < |r| ==> s[i] == r[i];
    assert At(s, |r|) == s[|r|] == n;
    if LinkedUp(s) {
      assert n.prev == At(s, |r| - 1);
      forall i | 0 <= i < |r| ensures r[i].prev == At(r, i - 1) {
        assert s[i].prev == At(s, i - 1);
      }
      forall i | 0 <= i < |r| ensures r[i].next == At(s, i + 1) {
        assert s[i].next == At(s, i + 1);
      }
    }
  }

  lemma {:induction false} ChainShape(ts: Kids)
    requires Apart(ts)
    ensures var s := NodesOf(ts);
            && (forall n :: n in s ==> n in Footprints(ts)) && Distinct(s)
            && First(ts) == At(s, 0) && Last(ts) == At(s, |s| - 1)
            && (Chained(ts) <==> LinkedUp(s))
  {
    hide LinkedUp;
    match ts
    case NoKids => EmptyLinked();
    case Kid(before, last) =>
      ChainShape(before);
      LinkedUpSnoc(NodesOf(before), last.node);
  }

  lemma EmptyLinked()
    ensures LinkedUp([])
  {
  }

  /**
    For well-formed trees side by side, the parser's notion of a child list and the sequence the
    edits work on are the same, so every edit can be applied to every parsed or copied list.
   */
  lemma ListShape(ts: Kids)
    requires Apart(ts)
    ensures KidsFormed(ts) <==> Linked(NodesOf(ts))
  {
    ChainShape(ts);
  }

  /** A parent with such children is a well-formed tree exactly if they are its children in that order. */
  lemma TreeShape(parent: Node, ts: Kids)
    requires Apart(ts) && parent !in Footprints(ts)
    ensures Formed(Tree(parent, ts)) <==> Children(parent, NodesOf(ts))
  {
    hide Linked, KidsFormed, Apart, Chained;
    ChainShape(ts);
    ListShape(ts);
  }

  /** The nodes below the children themselves. */
  ghost function Below(ts: Kids): set<Node> {
    match ts
    case NoKids => {}
    case Kid(before, last) => Below(before) + Footprints(last.kids)
  }

  /**
    What every edit leaves alone: the children may get new links, but their fields besides next
    and prev, and everything below them, are the same. So the trees stay well formed and apart,
    with the same contents, and `TreeShape` applies to the edited list.
   */
  twostate lemma ApartKept(ts: Kids)
    requires old(Apart(ts))
    requires forall n :: n in Below(ts) ==> old(allocated(n)) && unchanged(n)
    requires forall n :: n in NodesOf(ts) ==>
      old(allocated(n)) && unchanged(n`child, n`kind, n`valuestring, n`valuedouble, n`name)
    ensures Apart(ts) && ContentsOf(ts) == old(ContentsOf(ts))
  {
    match ts
    case NoKids =>
    case Kid(before, last) =>
      var node := last.node;
      assert Below(ts) == Below(before) + Footprints(last.kids) && NodesOf(ts) == NodesOf(before) + [node];
      assert node in NodesOf(ts) && Footprint(last) == {node} + Footprints(last.kids);
      assert forall n :: n in NodesOf(before) ==> n in NodesOf(ts);
      ApartKept(before);
      assert forall n :: n in Footprints(last.kids) ==> n in Below(ts);
      assert old(KidsFormed(last.kids));
      assert KidsFormed(last.kids) && ContentsOf(last.kids) == old(ContentsOf(last.kids));
  }
}
