/**
  The three ways to print a tree. All of them leave the text of `PrintedText` and a NUL; they
  differ in who owns the buffer and in how large it can become.
 */
module PrintEntry {
  import opened Bytes
  import opened JsonTree
  import opened PrintedText
  import opened Nodes
  import opened NodeLists
  import opened PrintBuffers

  /** An item to print: NULL, or the root of a well-formed tree that stands for `j`. */
  ghost predicate StandsFor(item: Node?, t: Tree, j: Json)
    reads Footprint(t)
  {
    item != null ==>
      item == t.node && Formed(t) && j == JsonOf(ContentOf(t)) && Printable(j)
  }

  /** The buffer starts with the text and a NUL. */
  ghost predicate Holds(buffer: array<byte>, text: Bytes)
    reads buffer
  {
    |text| < buffer.Length && buffer[..|text|] == text && buffer[|text|] == NUL
  }

  /** cJSON_PrintPreallocated: succeeds exactly when the text and two more bytes fit. */
  method PrintPreallocated(item: Node?, buf: array?<byte>, len: int, fmt: bool, ghost t: Tree, ghost j: Json)
    returns (ok: bool)
    requires StandsFor(item, t, j)
    requires buf != null && 0 <= len ==> len == buf.Length <= INT_MAX
    modifies if buf == null then {} else {buf}
    ensures ok <==> item != null && old(Sound(ContentOf(t))) && buf != null && |Render(j, fmt, 0)| + 2 <= len
    ensures ok ==> Holds(buf, Render(j, fmt, 0))
  {
    hide JsonTree.Printable, Nodes.Sound, PrintedText.Render, Nodes.JsonOf, Nodes.KidsFormed;
    if len < 0 || buf == null || item == null {
      return false;
    }
    KidsAllocated(t.kids);
    var p := new PrintBuffer(buf, true, fmt);
    ok := p.PrintValue(item, t, j);
  }

  /** cJSON_PrintBuffered: the starting size decides nothing but whether it is accepted. */
  method PrintBuffered(item: Node?, prebuffer: int, fmt: bool, ghost t: Tree, ghost j: Json)
    returns (printed: array?<byte>)
    requires StandsFor(item, t, j) && prebuffer <= INT_MAX
    ensures printed != null <==>
      item != null && old(Sound(ContentOf(t))) && 0 <= prebuffer && |Render(j, fmt, 0)| + 2 <= INT_MAX
    ensures printed != null ==> fresh(printed) && Holds(printed, Render(j, fmt, 0))
  {
    hide JsonTree.Printable, Nodes.Sound, PrintedText.Render, Nodes.JsonOf, Nodes.KidsFormed;
    if prebuffer < 0 || item == null {
      return null;
    }
    KidsAllocated(t.kids);
    var buffer := new byte[prebuffer];
    var p := new PrintBuffer(buffer, false, fmt);
    var ok := p.PrintValue(item, t, j);
    printed := if ok then p.buffer else null;
  }

  /** print, the common part of cJSON_Print and cJSON_PrintUnformatted: the result is cut to size. */
  method Print(item: Node?, fmt: bool, ghost t: Tree, ghost j: Json) returns (printed: array?<byte>)
    requires StandsFor(item, t, j)
    ensures printed != null <==> item != null && old(Sound(ContentOf(t))) && |Render(j, fmt, 0)| + 2 <= INT_MAX
    ensures printed != null ==> fresh(printed) && printed[..] == Render(j, fmt, 0) + [NUL]
  {
    hide JsonTree.Printable, Nodes.Sound, PrintedText.Render, Nodes.JsonOf, Nodes.KidsFormed;
    if item == null {
      return null;
    }
    KidsAllocated(t.kids);
    var buffer := new byte[256];
    var p := new PrintBuffer(buffer, false, fmt);
    var ok := p.PrintValue(item, t, j);
    if !ok {
      return null;
    }
    ghost var text := Render(j, fmt, 0);
    RenderNulFree(j, fmt, 0);
    p.UpdateOffset([], text);
    printed := CutToSize(p);
    assert [] + text == text;
  }

  /** The reallocation at the end of print: the text and its NUL. */
  method CutToSize(p: PrintBuffer) returns (printed: array<byte>)
    requires p.Ready() && p.offset < p.length && p.buffer[p.offset] == NUL
    ensures fresh(printed) && printed[..] == p.Emitted() + [NUL]
  {
    printed := new byte[p.offset + 1];
    forall i | 0 <= i < p.offset + 1 {
      printed[i] := p.buffer[i];
    }
  }
}
