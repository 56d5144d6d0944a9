/**
  The text of a child list as the printer produces it, child by child: each child printed so far
  followed by what separates it from the next one.
 */
module ListText {
  import opened Bytes
  import opened JsonTree
  import opened Escaping
  import opened PrintedText
  import opened Nodes

  /** An element with its separator, if another one follows. */
  function ItemText(j: Json, more: bool, fmt: bool, depth: nat): Bytes {
    Render(j, fmt, depth) + if more then ItemSeparator(fmt) else []
  }

  /** The elements of the list, each with a separator behind it. */
  function Separated(cs: Contents, fmt: bool, depth: nat): Bytes
  {
    match cs
    case NoContents => []
    case Contents(before, last) => Separated(before, fmt, depth) + ItemText(JsonOf(last), true, fmt, depth)
  }

  /** The key of a member with what stands around it. */
  function KeyText(key: Bytes, fmt: bool, depth: nat): Bytes {
    (if fmt then Tabs(depth) else []) + RenderString(key) + Colon(fmt)
  }

  /** A member with the end of its line. */
  function MemberText(key: Bytes, j: Json, more: bool, fmt: bool, depth: nat): Bytes {
    KeyText(key, fmt, depth) + Render(j, fmt, depth) + LineEnd(more, fmt)
  }

  /** The members of the list, each as one that has a successor. */
  function Lines(cs: Contents, fmt: bool, depth: nat): Bytes
  {
    match cs
    case NoContents => []
    case Contents(before, last) =>
      Lines(before, fmt, depth) + MemberText(TextOf(last.name), JsonOf(last), true, fmt, depth)
  }

  lemma Regroup(a: Bytes, b: Bytes, c: Bytes, d: Bytes)
    ensures a + (b + (c + d)) == (a + (b + c)) + d
  {
  }

  lemma {:induction false} SeparatedFront(cs: Contents, more: Items, fmt: bool, depth: nat)
    requires more.Item?
    ensures RenderItems(ItemsFrom(cs, more), fmt, depth) == Separated(cs, fmt, depth) + RenderItems(more, fmt, depth)
  {
    match cs
    case NoContents =>
      assert [] + RenderItems(more, fmt, depth) == RenderItems(more, fmt, depth);
    case Contents(before, last) =>
      SeparatedFront(before, Item(JsonOf(last), more), fmt, depth);
      Regroup(Separated(before, fmt, depth), Render(JsonOf(last), fmt, depth), ItemSeparator(fmt),
              RenderItems(more, fmt, depth));
  }

  /** The whole list is its front, separated, and the last element. */
  lemma LastItem(before: Contents, last: Content, fmt: bool, depth: nat)
    ensures RenderItems(ItemsFrom(Contents(before, last), NoItems), fmt, depth)
         == Separated(before, fmt, depth) + ItemText(JsonOf(last), false, fmt, depth)
  {
    SeparatedFront(before, Item(JsonOf(last), NoItems), fmt, depth);
  }

  lemma MemberIsText(key: Bytes, j: Json, rest: Members, fmt: bool, depth: nat)
    ensures RenderMembers(Member(key, j, rest), fmt, depth)
         == MemberText(key, j, rest.Member?, fmt, depth) + RenderMembers(rest, fmt, depth)
  {
  }

  lemma {:induction false} LinesFront(cs: Contents, more: Members, fmt: bool, depth: nat)
    requires more.Member?
    ensures RenderMembers(MembersFrom(cs, more), fmt, depth) == Lines(cs, fmt, depth) + RenderMembers(more, fmt, depth)
  {
    match cs
    case NoContents =>
      assert [] + RenderMembers(more, fmt, depth) == RenderMembers(more, fmt, depth);
    case Contents(before, last) =>
      var m := Member(TextOf(last.name), JsonOf(last), more);
      LinesFront(before, m, fmt, depth);
      MemberIsText(TextOf(last.name), JsonOf(last), more, fmt, depth);
      Associative(Lines(before, fmt, depth), MemberText(TextOf(last.name), JsonOf(last), true, fmt, depth),
                  RenderMembers(more, fmt, depth));
  }

  lemma LastMember(before: Contents, last: Content, fmt: bool, depth: nat)
    ensures RenderMembers(MembersFrom(Contents(before, last), NoMembers), fmt, depth)
         == Lines(before, fmt, depth) + MemberText(TextOf(last.name), JsonOf(last), false, fmt, depth)
  {
    LinesFront(before, Member(TextOf(last.name), JsonOf(last), NoMembers), fmt, depth);
    MemberIsText(TextOf(last.name), JsonOf(last), NoMembers, fmt, depth);
  }

  // ----- fronts of a list

  /** What printing asks of the children of an array. */
  predicate Elements(cs: Contents) {
    match cs
    case NoContents => true
    case Contents(before, last) => Elements(before) && Printable(JsonOf(last))
  }

  /** What printing asks of the children of an object. */
  predicate Entries(cs: Contents) {
    match cs
    case NoContents => true
    case Contents(before, last) =>
      Entries(before) && NUL !in TextOf(last.name) && Printable(JsonOf(last))
  }

  lemma {:induction false} ElementsPrintable(cs: Contents, more: Items)
    ensures PrintableItems(ItemsFrom(cs, more)) <==> Elements(cs) && PrintableItems(more)
  {
    match cs
    case NoContents =>
    case Contents(before, last) => ElementsPrintable(before, Item(JsonOf(last), more));
  }

  lemma {:induction false} EntriesPrintable(cs: Contents, more: Members)
    ensures PrintableMembers(MembersFrom(cs, more)) <==> Entries(cs) && PrintableMembers(more)
  {
    match cs
    case NoContents =>
    case Contents(before, last) => EntriesPrintable(before, Member(TextOf(last.name), JsonOf(last), more));
  }

  /** The next child of a walk through an array, and the text up to it. */
  lemma {:induction false} NextElement(done: Kids, ts: Kids, fmt: bool, depth: nat)
    requires Front(done, ts) && done != ts && Elements(ContentsOf(ts))
    ensures var t := Following(done, ts);
            && Elements(ContentsOf(Kid(done, t))) && Printable(JsonOf(ContentOf(t)))
            && |Separated(ContentsOf(done), fmt, depth)|
               + |ItemText(JsonOf(ContentOf(t)), Kid(done, t) != ts, fmt, depth)|
               + |ItemSeparator(fmt)| <= |Separated(ContentsOf(ts), fmt, depth)|
  {
    if done != ts.before {
      NextElement(done, ts.before, fmt, depth);
    }
  }

  /** The next child of a walk through an object, and the text up to it. */
  lemma {:induction false} NextEntry(done: Kids, ts: Kids, fmt: bool, depth: nat)
    requires Front(done, ts) && done != ts && Entries(ContentsOf(ts))
    ensures var t := Following(done, ts); var c := ContentOf(t);
            && Entries(ContentsOf(Kid(done, t))) && NUL !in TextOf(c.name) && Printable(JsonOf(c))
            && |Lines(ContentsOf(done), fmt, depth)|
               + |MemberText(TextOf(c.name), JsonOf(c), Kid(done, t) != ts, fmt, depth)|
               < |Lines(ContentsOf(ts), fmt, depth)|
  {
    if done != ts.before {
      NextEntry(done, ts.before, fmt, depth);
    }
  }

  /** How much longer the list is with a separator behind its last element. */
  lemma SeparatedLength(cs: Contents, fmt: bool, depth: nat)
    requires cs.Contents?
    ensures |Separated(cs, fmt, depth)| == |RenderItems(ItemsFrom(cs, NoItems), fmt, depth)| + |ItemSeparator(fmt)|
  {
    LastItem(cs.before, cs.last, fmt, depth);
  }

  lemma LinesLength(cs: Contents, fmt: bool, depth: nat)
    requires cs.Contents?
    ensures |Lines(cs, fmt, depth)| == |RenderMembers(MembersFrom(cs, NoMembers), fmt, depth)| + 1
  {
    LastMember(cs.before, cs.last, fmt, depth);
  }

  /** The contents of the front `done` of a list with contents `cs`. */
  ghost function FrontContents(done: Kids, ts: Kids, cs: Contents): (r: Contents)
    ensures AllSound(cs) ==> AllSound(r)
  {
    if done == ts || ts.NoKids? || cs.NoContents? then cs else FrontContents(done, ts.before, cs.before)
  }

  lemma {:induction false} FrontContentsOf(done: Kids, ts: Kids)
    requires Front(done, ts)
    ensures FrontContents(done, ts, ContentsOf(ts)) == ContentsOf(done)
  {
    if done != ts {
      FrontContentsOf(done, ts.before);
    }
  }

  /** The text of the elements a walk has passed: `done` is the front of `ts` behind it. */
  ghost function ElementsText(done: Kids, ts: Kids, cs: Contents, fmt: bool, depth: nat): Bytes
  {
    if done == ts then RenderItems(ItemsFrom(cs, NoItems), fmt, depth)
    else Separated(FrontContents(done, ts, cs), fmt, depth)
  }

  /** A child with a type keeps the front sound, and without it the list is not sound. */
  ghost predicate SoundStep(done: Kids, t: Tree, ts: Kids, cs: Contents)
    reads Footprint(t)
  {
    && (AllSound(FrontContents(Kid(done, t), ts, cs)) <==> AllSound(FrontContents(done, ts, cs)) && Sound(ContentOf(t)))
    && (AllSound(cs) ==> Sound(ContentOf(t)))
  }

  /** Both ends of a walk. */
  lemma ElementsEnds(ts: Kids, fmt: bool, depth: nat)
    ensures ElementsText(NoKids, ts, ContentsOf(ts), fmt, depth) == []
    ensures AllSound(FrontContents(NoKids, ts, ContentsOf(ts)))
    ensures ElementsText(ts, ts, ContentsOf(ts), fmt, depth)
         == RenderItems(ItemsFrom(ContentsOf(ts), NoItems), fmt, depth)
  {
    WalkFromFirst(ts);
    FrontContentsOf(NoKids, ts);
  }

  /** One step of a walk through a printable array: what is known of the child ahead, and its text. */
  lemma ElementStep(done: Kids, ts: Kids, cs: Contents, fmt: bool, depth: nat)
    requires KidsFormed(ts) && Front(done, ts) && done != ts && cs == ContentsOf(ts) && Elements(cs)
    ensures var t := Following(done, ts); var front := Kid(done, t);
            && t < ts && Formed(t) && Printable(JsonOf(ContentOf(t))) && SoundStep(done, t, ts, cs)
            && Footprint(t) <= Footprints(ts) && Front(front, ts) && Remaining(front, ts) < Remaining(done, ts)
            && t.node.next == Ahead(front, ts)
            && ElementsText(front, ts, cs, fmt, depth)
               == ElementsText(done, ts, cs, fmt, depth)
                  + ItemText(JsonOf(ContentOf(t)), t.node.next != null, fmt, depth)
            && |ElementsText(front, ts, cs, fmt, depth)| <= |RenderItems(ItemsFrom(cs, NoItems), fmt, depth)|
  {
    hide JsonTree.Printable, Nodes.JsonOf, Nodes.Sound, PrintedText.Render, PrintedText.RenderItems;
    StepAlong(done, ts);
    FrontContentsOf(done, ts);
    NextElement(done, ts, fmt, depth);
    SeparatedLength(cs, fmt, depth);
    var t := Following(done, ts);
    var front := Kid(done, t);
    FrontContentsOf(front, ts);
    assert ContentsOf(front) == Contents(ContentsOf(done), ContentOf(t));
    LastItem(ContentsOf(done), ContentOf(t), fmt, depth);
  }

  /** The text of the members a walk has passed. */
  ghost function EntriesText(done: Kids, ts: Kids, cs: Contents, fmt: bool, depth: nat): Bytes
  {
    if done == ts then RenderMembers(MembersFrom(cs, NoMembers), fmt, depth)
    else Lines(FrontContents(done, ts, cs), fmt, depth)
  }

  lemma EntriesEnds(ts: Kids, fmt: bool, depth: nat)
    ensures EntriesText(NoKids, ts, ContentsOf(ts), fmt, depth) == []
    ensures AllSound(FrontContents(NoKids, ts, ContentsOf(ts)))
    ensures EntriesText(ts, ts, ContentsOf(ts), fmt, depth)
         == RenderMembers(MembersFrom(ContentsOf(ts), NoMembers), fmt, depth)
  {
    WalkFromFirst(ts);
    FrontContentsOf(NoKids, ts);
  }

  /** What printing asks of an object member and the value it has. */
  ghost predicate Entry(c: Content) {
    Printable(JsonOf(c)) && NUL !in TextOf(c.name)
  }

  ghost function EntryText(c: Content, more: bool, fmt: bool, depth: nat): Bytes
    requires Entry(c)
  {
    MemberText(TextOf(c.name), JsonOf(c), more, fmt, depth)
  }

  /** One step of a walk through a printable object. */
  lemma EntryStep(done: Kids, ts: Kids, cs: Contents, fmt: bool, depth: nat)
    requires KidsFormed(ts) && Front(done, ts) && done != ts
    requires cs == ContentsOf(ts) && Entries(cs)
    ensures var t := Following(done, ts); var front := Kid(done, t);
            && t < ts && Formed(t) && Entry(ContentOf(t)) && SoundStep(done, t, ts, cs)
            && Footprint(t) <= Footprints(ts) && Front(front, ts) && Remaining(front, ts) < Remaining(done, ts)
            && t.node.next == Ahead(front, ts)
            && EntriesText(front, ts, cs, fmt, depth)
               == EntriesText(done, ts, cs, fmt, depth) + EntryText(ContentOf(t), t.node.next != null, fmt, depth)
            && |EntriesText(front, ts, cs, fmt, depth)| <= |RenderMembers(MembersFrom(cs, NoMembers), fmt, depth)|
  {
    hide JsonTree.Printable, Nodes.JsonOf, Nodes.Sound, PrintedText.Render, PrintedText.RenderMembers, MemberText;
    StepAlong(done, ts);
    FrontContentsOf(done, ts);
    NextEntry(done, ts, fmt, depth);
    LinesLength(cs, fmt, depth);
    var t := Following(done, ts);
    var front := Kid(done, t);
    FrontContentsOf(front, ts);
    assert ContentsOf(front) == Contents(ContentsOf(done), ContentOf(t));
    LastMember(ContentsOf(done), ContentOf(t), fmt, depth);
  }
}
