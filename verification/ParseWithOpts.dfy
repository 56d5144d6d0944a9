/**
  cJSON_ParseWithOpts: a text becomes a tree of new nodes, or is rejected with a position.
 */
module ParseEntry {
  import opened Bytes
  import opened JsonTree
  import opened Grammar
  import opened Nodes
  import opened NodeLists
  import opened ParseBuffers

  /** skip_utf8_bom, at the start of the buffer. */
  method SkipUtf8Bom(buffer: ParseBuffer)
    requires buffer.Valid() && buffer.offset == 0
    modifies buffer`offset
    ensures buffer.Valid() && buffer.Rest() == SkipBom(old(buffer.Rest()))
  {
    var bom := buffer.LookingAt(BOM);
    if bom && 4 < |buffer.content| {
      buffer.offset := 3;
    }
  }

  /** The check for a NUL behind the value, which leaves the tree alone. */
  method AtEnd(buffer: ParseBuffer, root: Node, ghost kids: Kids) returns (b: bool)
    requires buffer.Valid() && Formed(Tree(root, kids))
    modifies buffer`offset
    ensures buffer.Valid() && buffer.Rest() == SkipWs(old(buffer.Rest()))
    ensures b <==> buffer.Rest() == []
    ensures Formed(Tree(root, kids)) && ContentOf(Tree(root, kids)) == old(ContentOf(Tree(root, kids)))
  {
    KidsAllocated(kids);
    buffer.SkipWhitespace();
    buffer.Peek();
    b := buffer.content[buffer.offset] == NUL;
  }

  /**
    A NULL text is rejected. Otherwise the tree stands for the value the grammar reads, all its
    nodes are new and well linked, and parseEnd is where the value (or the error) ends.
   */
  method ParseWithOpts(value: Option<Bytes>, requireNullTerminated: bool)
    returns (item: Node?, parseEnd: nat, ghost kids: Kids)
    requires value.Some? ==> NUL !in value.value
    ensures value == None ==> item == null
    ensures item != null ==>
      && fresh(item) && fresh(Footprints(kids)) && Formed(Tree(item, kids)) && item.next == null && item.prev == null
    ensures value.Some? ==>
      parseEnd <= |value.value|
      && match ParseText(value.value, requireNullTerminated)
         case Failed => item == null
         case Read(j, rest) =>
           && item != null && value.value[parseEnd..] == rest
           && Typed(ContentOf(Tree(item, kids))) && JsonOf(ContentOf(Tree(item, kids))) == j
  {
    hide Grammar.ParseValue, Grammar.SkipBom, Nodes.Typed, Nodes.JsonOf;
    hide Nodes.Chained, Nodes.KidsFormed, Nodes.Formed, Nodes.ContentOf;
    item, parseEnd, kids := null, 0, NoKids;
    if value.None? {
      return;
    }
    var buffer := new ParseBuffer(value.value);
    var root := new Node();
    SkipUtf8Bom(buffer);
    buffer.SkipWhitespace();
    var ok;
    ok, kids := buffer.ParseValue(root);
    if ok && requireNullTerminated {
      ok := AtEnd(buffer, root, kids);
    }
    if ok {
      item, parseEnd := root, buffer.offset;
    } else {
      parseEnd := if buffer.offset < |buffer.content| then buffer.offset else |buffer.content| - 1;
    }
  }
}
