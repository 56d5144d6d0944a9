/**
  The printer as the source runs it: text goes into a buffer that grows by reallocation or is
  fixed, and the position behind a printed value is found again with strlen. Every print method
  is proved to leave exactly the pure text of `PrintedText` behind what was there, and to fail
  exactly when that text and two more bytes do not fit.

  Allocation always succeeds here. Of the old contents, reallocation is only trusted with the bytes
  up to the one at the offset, which is what both ways of reallocating keep.
 */
module PrintBuffers {
  import opened Bytes
  import opened JsonTree
  import opened NumberText
  import opened Escaping
  import opened PrintedText
  import opened Nodes
  import opened NodeLists
  import opened ListText

  lemma EscapeEnds(s: Bytes)
    ensures Escape(s[..0]) == [] && Escape(s[..|s|]) == Escape(s)
  {
    assert s[..|s|] == s;
  }

  /** The text written in front of the i-th byte and behind it. */
  lemma EscapeGrows(s: Bytes, i: nat)
    requires i < |s|
    ensures Escape(s[..i + 1]) == Escape(s[..i]) + EscapeByte(s[i])
    ensures |Escape(s[..i + 1])| <= |Escape(s)|
  {
    assert s[..i + 1] == s[..i] + [s[i]] && s == s[..i + 1] + s[i + 1..];
    EscapeJoin(s[..i], [s[i]]);
    EscapeJoin(s[..i + 1], s[i + 1..]);
    assert [s[i]][1..] == [];
  }

  /** An escape is longer than what it stands for, so equal lengths mean equal texts. */
  lemma {:induction false} NothingEscaped(s: Bytes)
    ensures |Escape(s)| >= |s|
    ensures |Escape(s)| == |s| ==> Escape(s) == s
  {
    if s != [] {
      NothingEscaped(s[1..]);
      assert s == [s[0]] + s[1..];
    }
  }

  lemma KeyNulFree(s: Bytes)
    ensures NUL !in RenderString(s)
  {
    EscapeNulFree(s);
  }

  /** The first loop of print_string_ptr: how many bytes the escapes add. */
  method CountEscapes(s: Bytes) returns (escapes: nat)
    ensures |s| + escapes == |Escape(s)|
  {
    escapes := 0;
    var i := 0;
    while i < |s|
      invariant i <= |s| && i + escapes == |Escape(s[..i])|
    {
      EscapeGrows(s, i);
      if s[i] == QUOTE || s[i] == BACKSLASH || s[i] == BACKSPACE || s[i] == FORM_FEED
         || s[i] == NEWLINE || s[i] == RETURN || s[i] == TAB {
        escapes := escapes + 1;
      } else if s[i] < 32 {
        escapes := escapes + 5;
      }
      i := i + 1;
    }
    assert s[..i] == s;
  }

  class PrintBuffer {
    var buffer: array<byte>
    var length: nat
    var offset: nat
    var depth: nat
    const noalloc: bool
    const format: bool

    constructor (buffer: array<byte>, noalloc: bool, format: bool)
      requires buffer.Length <= INT_MAX
      ensures this.buffer == buffer && this.noalloc == noalloc && this.format == format
      ensures Ready() && offset == 0 && depth == 0 && Capacity() == if noalloc then buffer.Length else INT_MAX
    {
      this.buffer, length, offset, depth := buffer, buffer.Length, 0, 0;
      this.noalloc, this.format := noalloc, format;
    }

    ghost predicate Ready()
      reads this
    {
      length == buffer.Length <= INT_MAX && (offset < length || offset == 0)
    }

    /** The text in front of the offset. */
    ghost function Emitted(): Bytes
      reads this, buffer
      requires Ready()
    {
      buffer[..offset]
    }

    /** The longest the buffer can become. */
    ghost function Capacity(): nat
      reads this
    {
      if noalloc then length else INT_MAX
    }

    /** The buffer is still the one it was, or has been replaced by a larger new one. */
    twostate predicate Kept()
      reads this
    {
      (buffer == old(buffer) || fresh(buffer)) && (noalloc ==> buffer == old(buffer)) && Capacity() == old(Capacity())
    }

    /** ensure */
    method Ensure(needed: nat) returns (ok: bool)
      requires Ready()
      modifies this`buffer, this`length
      ensures Ready() && Kept() && Emitted() == old(Emitted())
      ensures ok <==> offset + needed + 1 <= Capacity()
      ensures ok ==> offset + needed + 1 <= length
    {
      if length > 0 && offset >= length {
        return false;
      }
      if needed > INT_MAX {
        return false;
      }
      var total := needed + offset + 1;
      if total <= length {
        return true;
      }
      if noalloc {
        return false;
      }
      var newsize;
      if total > INT_MAX / 2 {
        if total <= INT_MAX {
          newsize := INT_MAX;
        } else {
          return false;
        }
      } else {
        newsize := total * 2;
      }
      var newbuffer := new byte[newsize];
      forall i | 0 <= i < length && i <= offset {
        newbuffer[i] := buffer[i];
      }
      length := newsize;
      buffer := newbuffer;
      return true;
    }

    /** A few bytes written to consecutive places from `at` on. */
    method Put(at: nat, s: Bytes)
      requires Ready() && offset <= at && at + |s| <= length
      modifies buffer
      ensures buffer[..at + |s|] == old(buffer[..at]) + s
      ensures Emitted() == old(Emitted())
    {
      forall i | 0 <= i < |s| {
        buffer[at + i] := s[i];
      }
    }

    /** Reserving `needed` bytes for a piece of text, writing it and moving behind it. */
    method Piece(s: Bytes, needed: nat) returns (ok: bool)
      requires Ready() && |s| <= needed
      modifies this`buffer, this`length, this`offset, buffer
      ensures Ready() && Kept()
      ensures ok <==> |old(Emitted())| + needed + 1 <= Capacity()
      ensures ok ==> Emitted() == old(Emitted()) + s && |Emitted()| + needed - |s| < length
    {
      ok := Ensure(needed);
      if ok {
        Put(offset, s);
        offset := offset + |s|;
      }
    }

    /** A piece of text with a NUL behind it, which the next piece overwrites. */
    method Terminated(s: Bytes) returns (ok: bool)
      requires Ready()
      modifies this`buffer, this`length, this`offset, buffer
      ensures Ready() && Kept()
      ensures ok <==> |old(Emitted())| + |s| + 2 <= Capacity()
      ensures ok ==> Emitted() == old(Emitted()) + s
    {
      ok := Piece(s, |s| + 1);
      if ok {
        Put(offset, [NUL]);
      }
    }

    /** What a successful print leaves: the text behind `before`, and a NUL; the offset is somewhere in it. */
    ghost predicate Wrote(before: Bytes, text: Bytes)
      reads this, buffer
    {
      && Ready() && |before| + |text| < length
      && buffer[..|before| + |text|] == before + text && buffer[|before| + |text|] == NUL
      && |before| <= offset <= |before| + |text|
    }

    /** The last bytes of a text and the NUL behind it, from `at` on. */
    method Finish(at: nat, s: Bytes, ghost before: Bytes, ghost text: Bytes)
      requires Ready() && |before| <= offset <= at && at + |s| < length && buffer[..at] == before + text
      modifies buffer
      ensures Wrote(before, text + s)
    {
      Put(at, s + [NUL]);
      Associative(before, text, s);
      assert buffer[..at + |s|] == buffer[..at + |s| + 1][..at + |s|];
    }

    /** The start of an array or object: one level deeper. */
    method Open(s: Bytes, needed: nat) returns (ok: bool)
      requires Ready() && |s| <= needed
      modifies this`buffer, this`length, this`offset, this`depth, buffer
      ensures Ready() && Kept()
      ensures ok <==> |old(Emitted())| + needed + 1 <= Capacity()
      ensures ok ==> Emitted() == old(Emitted()) + s && depth == old(depth) + 1
    {
      ok := Piece(s, needed);
      if ok {
        depth := depth + 1;
      }
    }

    /** The end of an array or object: its last bytes and a NUL, for which `needed` bytes are reserved. */
    method End(s: Bytes, needed: nat, ghost before: Bytes, ghost text: Bytes) returns (ok: bool)
      requires Ready() && Emitted() == before + text && needed == |s| + 1 && depth > 0
      modifies this`buffer, this`length, this`depth, buffer
      ensures Ready() && Kept()
      ensures ok <==> |before| + |text| + |s| + 2 <= Capacity()
      ensures ok ==> Wrote(before, text + s) && depth == old(depth) - 1
    {
      ok := Ensure(needed);
      if ok {
        Finish(offset, s, before, text);
        depth := depth - 1;
      }
    }

    /** update_offset: the strlen finds the NUL behind the printed text. */
    method UpdateOffset(ghost before: Bytes, ghost text: Bytes)
      requires Wrote(before, text) && NUL !in text
      modifies this`offset
      ensures Ready() && Emitted() == before + text && offset < length && buffer[offset] == NUL
    {
      ghost var end := |before| + |text|;
      forall i | offset <= i < end ensures buffer[i] != NUL {
        assert buffer[i] == (before + text)[i] == text[i - |before|];
      }
      while buffer[offset] != NUL
        invariant |before| <= offset <= end
        decreases end - offset
      {
        offset := offset + 1;
      }
    }

    /** One turn of the copying loop of print_string_ptr; sprintf also writes a NUL behind its digits. */
    method WriteByte(at: nat, c: byte) returns (next: nat)
      requires Ready() && offset <= at && at + |EscapeByte(c)| + 2 <= length
      modifies buffer
      ensures next == at + |EscapeByte(c)| && buffer[..next] == old(buffer[..at]) + EscapeByte(c)
      ensures Emitted() == old(Emitted())
    {
      hide Escaping.UnicodeEscape;
      if c > 31 && c != QUOTE && c != BACKSLASH {
        Put(at, [c]);
        return at + 1;
      }
      match ShortEscape(c)
      case Some(letter) =>
        Put(at, [BACKSLASH, letter]);
        next := at + 2;
      case None =>
        Put(at, UnicodeEscape(c, false) + [NUL]);
        next := at + 6;
        assert buffer[..next] == buffer[..at + 7][..next];
    }

    /** The copying loop of print_string_ptr. */
    method WriteEscaped(s: Bytes)
      requires Ready() && offset + |Escape(s)| + 3 <= length
      modifies buffer
      ensures buffer[..offset + 1 + |Escape(s)|] == old(buffer[..offset + 1]) + Escape(s)
      ensures Emitted() == old(Emitted())
    {
      hide Escaping.Escape, Escaping.EscapeByte;
      var i, at := 0, offset + 1;
      ghost var start := buffer[..at];
      EscapeEnds(s);
      while i < |s|
        invariant i <= |s| && at == offset + 1 + |Escape(s[..i])| <= offset + 1 + |Escape(s)|
        invariant buffer[..at] == start + Escape(s[..i])
        invariant Emitted() == old(Emitted())
      {
        EscapeGrows(s, i);
        Associative(start, Escape(s[..i]), EscapeByte(s[i]));
        at := WriteByte(at, s[i]);
        i := i + 1;
      }
    }

    /** The memcpy of print_string_ptr, where nothing is to be escaped. */
    method WriteVerbatim(s: Bytes)
      requires Ready() && offset + |Escape(s)| + 3 <= length && |Escape(s)| == |s|
      modifies buffer
      ensures buffer[..offset + 1 + |Escape(s)|] == old(buffer[..offset + 1]) + Escape(s)
      ensures Emitted() == old(Emitted())
    {
      NothingEscaped(s);
      Put(offset + 1, s);
    }

    /** print_string_ptr; a NULL string is printed like the empty one. */
    method PrintString(input: Option<Bytes>) returns (ok: bool)
      requires Ready() && NUL !in TextOf(input)
      modifies this`buffer, this`length, buffer
      ensures Ready() && Kept()
      ensures ok <==> |old(Emitted())| + |RenderString(TextOf(input))| + 2 <= Capacity()
      ensures ok ==> Wrote(old(Emitted()), RenderString(TextOf(input)))
      ensures input == None ==> RenderString(TextOf(input)) == [QUOTE, QUOTE]
    {
      if input.None? {
        ok := Ensure(3);
        if ok {
          Finish(offset, [QUOTE, QUOTE], Emitted(), []);
        }
      } else {
        ok := PrintBytes(input.value);
      }
    }

    /** The part of print_string_ptr for a string that is not NULL. */
    method PrintBytes(s: Bytes) returns (ok: bool)
      requires Ready()
      modifies this`buffer, this`length, buffer
      ensures Ready() && Kept()
      ensures ok <==> |old(Emitted())| + |RenderString(s)| + 2 <= Capacity()
      ensures ok ==> Wrote(old(Emitted()), RenderString(s))
    {
      hide Escaping.Escape;
      var escapes := CountEscapes(s);
      var outputLength := |s| + escapes;
      ok := Ensure(outputLength + 3);
      if !ok {
        return;
      }
      ghost var before := Emitted();
      Put(offset, [QUOTE]);
      if escapes == 0 {
        WriteVerbatim(s);
      } else {
        WriteEscaped(s);
      }
      Associative(before, [QUOTE], Escape(s));
      Finish(offset + 1 + outputLength, [QUOTE], before, [QUOTE] + Escape(s));
    }

    /** print_number; the number fits the local buffer and has no decimal point to replace. */
    method PrintNumber(d: real) returns (ok: bool)
      requires Ready() && PlainInteger(d)
      modifies this`buffer, this`length, this`offset, buffer
      ensures Ready() && Kept()
      ensures ok <==> |old(Emitted())| + |IntText(d.Floor)| + 2 <= Capacity()
      ensures ok ==> Wrote(old(Emitted()), IntText(d.Floor))
    {
      hide NumberText.ParseNumber, NumberText.IntText;
      var number := IntText(d.Floor);
      NumberRoundTrip(d.Floor, []);
      assert |number| <= 25;
      ok := Ensure(|number| + 1);
      if ok {
        Finish(offset, number, Emitted(), []);
        assert [] + number == number;
        offset := offset + |number|;
      }
    }

    /** print_value for the values without parts. */
    method PrintWord(word: Bytes) returns (ok: bool)
      requires Ready()
      modifies this`buffer, this`length, buffer
      ensures Ready() && Kept()
      ensures ok <==> |old(Emitted())| + |word| + 2 <= Capacity()
      ensures ok ==> Wrote(old(Emitted()), word)
    {
      ok := Ensure(|word| + 1);
      if ok {
        Finish(offset, word, Emitted(), []);
        assert [] + word == word;
      }
    }

    /** print_value */
    method PrintValue(item: Node, ghost t: Tree, ghost j: Json) returns (ok: bool)
      requires Ready() && item == t.node && Formed(t)
      requires j == JsonOf(ContentOf(t)) && Printable(j)
      modifies this`buffer, this`length, this`offset, this`depth, buffer
      ensures Ready() && Kept()
      ensures ok <==> old(Sound(ContentOf(t))) && |old(Emitted())| + |Render(j, format, old(depth))| + 2 <= Capacity()
      ensures ok ==> depth == old(depth) && Wrote(old(Emitted()), Render(j, format, depth))
      decreases t, 3
    {
      hide Nodes.AllSound, Nodes.ItemsFrom, Nodes.MembersFrom, JsonTree.PrintableItems, JsonTree.PrintableMembers;
      hide PrintedText.RenderItems, PrintedText.RenderMembers, Nodes.KidsFormed;
      match item.kind
      case Invalid => ok := false;
      case NullKind => ok := PrintWord(NULL_TEXT);
      case FalseKind => ok := PrintWord(FALSE_TEXT);
      case TrueKind => ok := PrintWord(TRUE_TEXT);
      case NumberKind => ok := PrintNumber(item.valuedouble);
      case StringKind => ok := PrintString(item.valuestring);
      case ArrayKind => ok := PrintArray(item, t, j.items);
      case ObjectKind => ok := PrintObject(item, t, j.members);
    }

    /** print_array */
    method PrintArray(item: Node, ghost t: Tree, ghost items: Items) returns (ok: bool)
      requires Ready() && item == t.node && Formed(t)
      requires items == ItemsFrom(ContentsOf(t.kids), NoItems) && PrintableItems(items)
      modifies this`buffer, this`length, this`offset, this`depth, buffer
      ensures Ready() && Kept()
      ensures ok <==>
        && old(AllSound(ContentsOf(t.kids)))
        && |old(Emitted())| + |Render(Array(items), format, old(depth))| + 2 <= Capacity()
      ensures ok ==> depth == old(depth) && Wrote(old(Emitted()), Render(Array(items), format, depth))
      decreases t, 2
    {
      hide PrintedText.RenderItems, ListText.Elements, Nodes.ItemsFrom, Nodes.AllSound, Nodes.KidsFormed;
      hide Nodes.ContentsOf, JsonTree.PrintableItems;
      ghost var before := Emitted();
      ElementsPrintable(ContentsOf(t.kids), NoItems);
      KidsAllocated(t.kids);
      ok := Open([LEFT_BRACKET], 1);
      if !ok {
        return;
      }
      ok := PrintElements(item.child, t.kids, ContentsOf(t.kids), before + [LEFT_BRACKET]);
      if !ok {
        return;
      }
      ghost var body := RenderItems(items, format, depth);
      Associative(before, [LEFT_BRACKET], body);
      ok := End([RIGHT_BRACKET], 2, before, [LEFT_BRACKET] + body);
    }

    /** The loop of print_array. */
    method PrintElements(first: Node?, ghost ts: Kids, ghost cs: Contents, ghost before: Bytes) returns (ok: bool)
      requires Ready() && Emitted() == before && KidsFormed(ts) && first == First(ts)
      requires cs == ContentsOf(ts) && Elements(cs)
      modifies this`buffer, this`length, this`offset, this`depth, buffer
      ensures Ready() && Kept()
      ensures !ok ==>
        !AllSound(cs) || |before| + |RenderItems(ItemsFrom(cs, NoItems), format, old(depth))| + 2 > Capacity()
      ensures ok ==> AllSound(cs)
      ensures ok ==> depth == old(depth) && Emitted() == before + RenderItems(ItemsFrom(cs, NoItems), format, depth)
      decreases ts, 2
    {
      hide PrintedText.RenderItems, PrintedText.Render, Nodes.JsonOf, Nodes.Sound, JsonTree.Printable, Nodes.Formed;
      hide Nodes.ContentOf, Nodes.ContentsOf, Nodes.AllSound, Nodes.KidsFormed, Nodes.ItemsFrom;
      hide ListText.Elements, ListText.ElementsText, ListText.ItemText, Nodes.Footprints, Nodes.Footprint;
      hide Nodes.Front, Nodes.Following, Nodes.Remaining, Nodes.First, Nodes.Chained;
      var element := first;
      ghost var done := NoKids;
      KidsAllocated(ts);
      WalkFromFirst(ts);
      ElementsEnds(ts, format, depth);
      while element != null
        invariant Ready() && Kept() && depth == old(depth)
        invariant KidsFormed(ts) && ContentsOf(ts) == cs
        invariant Front(done, ts) && element == Ahead(done, ts)
        invariant AllSound(FrontContents(done, ts, cs))
        invariant Emitted() == before + ElementsText(done, ts, cs, format, depth)
        decreases Remaining(done, ts)
      {
        ElementStep(done, ts, cs, format, depth);
        ghost var t := Following(done, ts);
        ok := PrintElement(element, t, ContentOf(t), Emitted());
        if !ok {
          return;
        }
        done := Kid(done, t);
        element := element.next;
      }
      ok := true;
    }

    /** One turn of that loop: the element, and a separator if another one follows. */
    method PrintElement(element: Node, ghost t: Tree, ghost c: Content, ghost before: Bytes) returns (ok: bool)
      requires Ready() && Emitted() == before && element == t.node && Formed(t)
      requires c == ContentOf(t) && Printable(JsonOf(c))
      modifies this`buffer, this`length, this`offset, this`depth, buffer
      ensures Ready() && Kept()
      ensures ok <==>
        Sound(c) && |before| + |ItemText(JsonOf(c), element.next != null, format, old(depth))| + 2 <= Capacity()
      ensures ok ==>
        depth == old(depth) && Emitted() == before + ItemText(JsonOf(c), element.next != null, format, depth)
      decreases t, 4
    {
      hide PrintedText.Render, JsonTree.Printable, Nodes.JsonOf, Nodes.Sound, Nodes.Formed, Nodes.ContentOf;
      ghost var j := JsonOf(c);
      ok := PrintValue(element, t, j);
      if !ok {
        return;
      }
      RenderNulFree(j, format, depth);
      UpdateOffset(before, Render(j, format, depth));
      if element.next != null {
        ok := Terminated(ItemSeparator(format));
      }
    }

    /** print_object */
    method PrintObject(item: Node, ghost t: Tree, ghost members: Members) returns (ok: bool)
      requires Ready() && item == t.node && Formed(t)
      requires members == MembersFrom(ContentsOf(t.kids), NoMembers) && PrintableMembers(members)
      modifies this`buffer, this`length, this`offset, this`depth, buffer
      ensures Ready() && Kept()
      ensures ok <==>
        && old(AllSound(ContentsOf(t.kids)))
        && |old(Emitted())| + |Render(Object(members), format, old(depth))| + 2 <= Capacity()
      ensures ok ==> depth == old(depth) && Wrote(old(Emitted()), Render(Object(members), format, depth))
      decreases t, 2
    {
      hide PrintedText.RenderMembers, ListText.Entries, Nodes.MembersFrom, Nodes.AllSound;
      hide Nodes.KidsFormed, Nodes.ContentsOf, JsonTree.PrintableMembers, Ready, Wrote, Emitted, Capacity;
      ghost var before := Emitted();
      EntriesPrintable(ContentsOf(t.kids), NoMembers);
      KidsAllocated(t.kids);
      var opening := Opening(format);
      ok := Open(opening, |opening| + 1);
      if !ok {
        return;
      }
      ok := PrintMembers(item.child, t.kids, ContentsOf(t.kids), before + opening);
      if !ok {
        return;
      }
      ghost var body := RenderMembers(members, format, depth);
      Associative(before, opening, body);
      ok := End(Closing(format, depth - 1), if format then depth + 1 else 2, before, opening + body);
    }

    /** The loop of print_object. */
    method PrintMembers(first: Node?, ghost ts: Kids, ghost cs: Contents, ghost before: Bytes) returns (ok: bool)
      requires Ready() && Emitted() == before && KidsFormed(ts) && first == First(ts)
      requires cs == ContentsOf(ts) && Entries(cs)
      modifies this`buffer, this`length, this`offset, this`depth, buffer
      ensures Ready() && Kept()
      ensures !ok ==>
        !AllSound(cs) || |before| + |RenderMembers(MembersFrom(cs, NoMembers), format, old(depth))| + 2 > Capacity()
      ensures ok ==> AllSound(cs)
      ensures ok ==> depth == old(depth)
      ensures ok ==> Emitted() == before + RenderMembers(MembersFrom(cs, NoMembers), format, depth)
      decreases ts, 2
    {
      hide PrintedText.RenderMembers, PrintedText.Render, Nodes.JsonOf, Nodes.Sound, JsonTree.Printable, Nodes.Formed;
      hide Nodes.ContentOf, Nodes.ContentsOf, Nodes.AllSound, Nodes.KidsFormed, Nodes.MembersFrom;
      hide ListText.Entries, ListText.EntriesText, ListText.EntryText, ListText.Entry;
      hide Nodes.Footprints, Nodes.Footprint, Nodes.Front, Nodes.Following, Nodes.Remaining, Nodes.First, Nodes.Chained;
      var element := first;
      ghost var done := NoKids;
      KidsAllocated(ts);
      WalkFromFirst(ts);
      EntriesEnds(ts, format, depth);
      while element != null
        invariant Ready() && Kept() && depth == old(depth)
        invariant KidsFormed(ts) && ContentsOf(ts) == cs
        invariant Front(done, ts) && element == Ahead(done, ts)
        invariant AllSound(FrontContents(done, ts, cs))
        invariant Emitted() == before + EntriesText(done, ts, cs, format, depth)
        decreases Remaining(done, ts)
      {
        EntryStep(done, ts, cs, format, depth);
        ghost var t := Following(done, ts);
        ok := PrintMember(element, t, ContentOf(t), Emitted());
        if !ok {
          return;
        }
        done := Kid(done, t);
        element := element.next;
      }
      ok := true;
    }

    /** One turn of that loop: a member and the end of its line. */
    method PrintMember(element: Node, ghost t: Tree, ghost c: Content, ghost before: Bytes) returns (ok: bool)
      requires Ready() && Emitted() == before && element == t.node && Formed(t) && c == ContentOf(t) && Entry(c)
      modifies this`buffer, this`length, this`offset, this`depth, buffer
      ensures Ready() && Kept()
      ensures ok <==> Sound(c) && |before| + |EntryText(c, element.next != null, format, old(depth))| + 2 <= Capacity()
      ensures ok ==> depth == old(depth) && Emitted() == before + EntryText(c, element.next != null, format, depth)
      decreases t, 4
    {
      hide PrintedText.Render, JsonTree.Printable, Nodes.JsonOf, Nodes.Sound, ListText.KeyText, Nodes.KidsFormed;
      hide Nodes.ContentsOf;
      KidsAllocated(t.kids);
      ghost var key, value := KeyText(TextOf(c.name), format, depth), Render(JsonOf(c), format, depth);
      ok := PrintKey(element.name);
      if !ok {
        return;
      }
      ok := PrintValue(element, t, JsonOf(c));
      if !ok {
        return;
      }
      RenderNulFree(JsonOf(c), format, depth);
      UpdateOffset(before + key, value);
      Associative(before, key, value);
      Associative(before, key + value, LineEnd(element.next != null, format));
      ok := Terminated(LineEnd(element.next != null, format));
    }

    /** The key of a member, with the tabs in front and the colon behind it. */
    method PrintKey(name: Option<Bytes>) returns (ok: bool)
      requires Ready() && NUL !in TextOf(name)
      modifies this`buffer, this`length, this`offset, buffer
      ensures Ready() && Kept()
      ensures |old(Emitted())| + |KeyText(TextOf(name), format, depth)| + 2 <= Capacity() ==> ok
      ensures ok ==> Emitted() == old(Emitted()) + KeyText(TextOf(name), format, depth)
    {
      hide Escaping.RenderString, Nodes.TextOf;
      ghost var before := Emitted();
      ghost var tabs := if format then Tabs(depth) else [];
      if format {
        ok := Piece(Tabs(depth), depth);
        if !ok {
          return;
        }
      }
      ghost var key := RenderString(TextOf(name));
      ok := PrintString(name);
      if !ok {
        return;
      }
      KeyNulFree(TextOf(name));
      UpdateOffset(before + tabs, key);
      Associative(before, tabs, key);
      Associative(before, tabs + key, Colon(format));
      var colon := Colon(format);
      ok := Piece(colon, |colon|);
    }
  }
}
