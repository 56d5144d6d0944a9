/**
  The parser as the source runs it: one buffer whose offset moves over the text and its
  terminating NUL, with step-backs and a clamp, filling in and linking nodes on the heap.
  Every method is proved to do what the pure parser of `Grammar` does on the bytes left to read.

  The text has no NUL of its own, and no method moves the offset past the terminating NUL. So the
  tests "can this index be accessed" that the source makes before it looks at the next byte never
  fail, and their failure branches are left out here.
 */
module ParseBuffers {
  import opened Bytes
  import opened JsonTree
  import opened NumberText
  import opened StringText
  import opened PrintedText
  import opened Grammar
  import opened Nodes
  import opened NodeLists

  class ParseBuffer {
    const content: Bytes
    var offset: int
    var depth: nat

    ghost function Text(): Bytes
      requires content != []
    {
      content[..|content| - 1]
    }

    ghost predicate Valid()
      reads this
    {
      && content != [] && content[|content| - 1] == NUL && NUL !in Text()
      && 0 <= offset < |content|
    }

    /** The bytes left to read. */
    ghost function Rest(): Bytes
      reads this
      requires Valid()
    {
      Text()[offset..]
    }

    constructor (text: Bytes)
      requires NUL !in text
      ensures Valid() && Rest() == text && Text() == text && offset == 0 && depth == 0
    {
      content := text + [NUL];
      offset, depth := 0, 0;
      new;
      assert content[..|content| - 1] == text;
    }

    /** The byte at the offset is the first byte left to read, and NUL at the end. */
    lemma Peek()
      requires Valid()
      ensures Rest() == [] <==> content[offset] == NUL
      ensures Rest() != [] ==> Rest()[0] == content[offset]
      ensures offset < |content| - 1 ==> Text()[offset + 1..] == Rest()[1..]
    {
      if offset < |content| - 1 {
        assert content[offset] == Text()[offset];
      }
    }

    lemma RestSlice(i: nat, n: nat)
      requires Valid() && offset + i + n < |content|
      ensures content[offset + i..offset + i + n] == Rest()[i..][..n]
    {
    }

    /** buffer_skip_whitespace */
    method SkipWhitespace()
      requires Valid()
      modifies this`offset
      ensures Valid() && Rest() == SkipWs(old(Rest()))
    {
      ghost var end := |content| - 1;
      while offset < |content| && content[offset] <= 32
        invariant old(offset) <= offset <= |content|
        invariant SkipWs(Text()[if offset <= end then offset else end..]) == SkipWs(old(Rest()))
      {
        if offset < end {
          Peek();
        }
        offset := offset + 1;
      }
      if offset == |content| {
        offset := offset - 1;
      } else {
        Peek();
      }
    }

    /** The copying loop of parse_number; the array leaves room for a NUL. */
    method CopyNumber(number_c_string: array<byte>) returns (i: nat)
      requires Valid() && number_c_string.Length == NUMBER_WINDOW + 1
      modifies number_c_string
      ensures number_c_string[..|Window(Rest(), NUMBER_WINDOW)|] == Window(Rest(), NUMBER_WINDOW)
      ensures i == |Window(Rest(), NUMBER_WINDOW)| <= NUMBER_WINDOW
    {
      ghost var w := Window(Rest(), NUMBER_WINDOW);
      i := 0;
      WindowGrows(Rest(), NUMBER_WINDOW, 0);
      Peek();
      while i < NUMBER_WINDOW && offset + i < |content| && IsNumberByte(content[offset + i])
        invariant i <= |w| && i <= NUMBER_WINDOW && number_c_string[..i] == w[..i]
        invariant i < |w| <==> i < NUMBER_WINDOW && offset + i < |content| && IsNumberByte(content[offset + i])
        invariant i < |w| ==> w[i] == content[offset + i]
      {
        number_c_string[i] := content[offset + i];
        i := i + 1;
        WindowGrows(Rest(), NUMBER_WINDOW, i);
        if offset + i < |content| - 1 {
          assert Rest()[i] == content[offset + i];
        }
      }
      number_c_string[i] := NUL;
    }

    /** parse_number */
    method ParseNumber(item: Node) returns (ok: bool)
      requires Valid()
      modifies this`offset, item`kind, item`valuedouble
      ensures Valid()
      ensures var p := NumberText.ParseNumber(old(Rest()));
              && (ok <==> p.Read?)
              && (ok ==> Rest() == p.rest && item.kind.NumberKind? && item.valuedouble == p.value)
    {
      hide Strtod, Window;
      var number_c_string := new byte[NUMBER_WINDOW + 1];
      var i := CopyNumber(number_c_string);
      var parsed := Strtod(number_c_string[..i]);
      match parsed {
        case NoNumeral =>
          return false;
        case Numeral(length, value) =>
          item.valuedouble := value;
          item.kind := NumberKind;
          offset := offset + length;
          return true;
      }
    }

    // ----- strings

    /** parse_hex4 on the four bytes at `at`. */
    method ParseHex4(at: nat) returns (h: nat)
      requires at + 4 <= |content|
      ensures h == Hex4(content[at..at + 4])
    {
      ghost var input := content[at..at + 4];
      h := 0;
      var i := 0;
      while i < 4
        invariant i <= 4 && AllHex(input[..i])
        invariant h == HexNumber(input[..i]) * (if i == 0 || i == 4 then 1 else 16)
      {
        var digit := HexValue(content[at + i]);
        assert content[at + i] == input[i];
        assert input[..i + 1][..i] == input[..i];
        if digit == None {
          return 0;
        }
        h := h + digit.value;
        if i < 3 {
          h := h * 16;
        }
        i := i + 1;
      }
      assert input[..4] == input;
    }

    /** utf16_literal_to_utf8: 0 for a bad literal, else the length of the literal. */
    method Utf16LiteralToUtf8(inputPointer: nat, inputEnd: nat, output: array<byte>, outputPointer: nat)
      returns (sequenceLength: nat, written: nat)
      requires inputPointer <= inputEnd <= |content|
      requires var u := Utf16Literal(content[inputPointer..inputEnd]);
               u.Literal? ==> outputPointer + |Utf8(u.codepoint)| <= output.Length
      modifies output
      ensures match Utf16Literal(content[inputPointer..inputEnd])
              case BadLiteral => sequenceLength == 0
              case Literal(codepoint, length) =>
                && sequenceLength == length && written == |Utf8(codepoint)|
                && outputPointer + written <= output.Length
                && output[..outputPointer + written] == old(output[..outputPointer]) + Utf8(codepoint)
    {
      ghost var b := content[inputPointer..inputEnd];
      written := 0;
      if inputEnd - inputPointer < 6 {
        return 0, 0;
      }
      var firstCode := ParseHex4(inputPointer + 2);
      Subrange(content, inputPointer, inputEnd, 2, 6);
      if 0xDC00 <= firstCode <= 0xDFFF {
        return 0, 0;
      }
      var codepoint := firstCode;
      if 0xD800 <= firstCode <= 0xDBFF {
        var second := inputPointer + 6;
        if inputEnd - second < 6 || content[second] != BACKSLASH || content[second + 1] != LOWER_U {
          return 0, 0;
        }
        var secondCode := ParseHex4(second + 2);
        Subrange(content, inputPointer, inputEnd, 8, 12);
        if secondCode < 0xDC00 || secondCode > 0xDFFF {
          return 0, 0;
        }
        codepoint := 0x10000 + (firstCode % 0x400) * 0x400 + secondCode % 0x400;
        sequenceLength := 12;
      } else {
        sequenceLength := 6;
      }
      written := WriteUtf8(codepoint, output, outputPointer);
    }

    /** The encoding loop of utf16_literal_to_utf8, last byte first. */
    static method WriteUtf8(codepoint: nat, output: array<byte>, outputPointer: nat) returns (length: nat)
      requires codepoint <= 0x10FFFF && outputPointer + |Utf8(codepoint)| <= output.Length
      modifies output
      ensures length == |Utf8(codepoint)|
      ensures output[..outputPointer + length] == old(output[..outputPointer]) + Utf8(codepoint)
    {
      length := if codepoint < 0x80 then 1 else if codepoint < 0x800 then 2 else if codepoint < 0x10000 then 3 else 4;
      var firstByteMark := FirstByteMark(length);
      Utf8Groups(codepoint);
      EncodeGroups(codepoint, firstByteMark, output, outputPointer, length);
    }

    /** The loop itself, for an encoding of the given length. */
    static method EncodeGroups(codepoint: nat, firstByteMark: byte,
                               output: array<byte>, outputPointer: nat, length: nat)
      requires codepoint <= 0x10FFFF && length == |Utf8(codepoint)| && outputPointer + length <= output.Length
      requires firstByteMark + DropSixBits(codepoint, length - 1) == Utf8(codepoint)[0]
      requires forall i :: 1 <= i < length ==>
        Utf8(codepoint)[i] == 0x80 + DropSixBits(codepoint, length - 1 - i) % 0x40
      modifies output
      ensures output[..outputPointer + length] == old(output[..outputPointer]) + Utf8(codepoint)
    {
      hide Utf8;
      ghost var u := Utf8(codepoint);
      var left := codepoint;
      var position := length - 1;
      while position > 0
        invariant 0 <= position < length && left == DropSixBits(codepoint, length - 1 - position)
        invariant forall k :: 0 <= k < outputPointer ==> output[k] == old(output[k])
        invariant forall i :: position < i < length ==> output[outputPointer + i] == u[i]
      {
        output[outputPointer + position] := 0x80 + left % 0x40;
        left := left / 0x40;
        position := position - 1;
      }
      output[outputPointer] := firstByteMark + left;
      assert forall i :: 0 <= i < length ==> output[outputPointer + i] == u[i];
    }

    /** One turn of the second pass of parse_string; the sequence length is 0 if it gives up. */
    method DecodeOne(inputPointer: nat, inputEnd: nat, output: array<byte>, outputPointer: nat)
      returns (sequenceLength: nat, written: nat)
      requires inputPointer < inputEnd < |content| && content[inputEnd] == QUOTE
      requires var step := DecodeStep(content[inputPointer..inputEnd]);
               step.Step? ==> outputPointer + |step.output| <= output.Length
      modifies output
      ensures match DecodeStep(content[inputPointer..inputEnd])
              case BadStep => sequenceLength == 0
              case Step(chunk, consumed) =>
                && sequenceLength == consumed && written == |chunk| && outputPointer + written <= output.Length
                && output[..outputPointer + written] == old(output[..outputPointer]) + chunk
    {
      ghost var b := content[inputPointer..inputEnd];
      assert b[0] == content[inputPointer];
      assert content[inputPointer + 1] == if |b| == 1 then QUOTE else b[1];
      sequenceLength, written := 2, 1;
      var e := content[inputPointer + 1];
      if content[inputPointer] != BACKSLASH {
        output[outputPointer] := content[inputPointer];
        sequenceLength := 1;
      } else if e == LOWER_B {
        output[outputPointer] := BACKSPACE;
      } else if e == LOWER_F {
        output[outputPointer] := FORM_FEED;
      } else if e == LOWER_N {
        output[outputPointer] := NEWLINE;
      } else if e == LOWER_R {
        output[outputPointer] := RETURN;
      } else if e == LOWER_T {
        output[outputPointer] := TAB;
      } else if e == QUOTE || e == BACKSLASH || e == SLASH {
        output[outputPointer] := e;
      } else if e == LOWER_U {
        sequenceLength, written := Utf16LiteralToUtf8(inputPointer, inputEnd, output, outputPointer);
      } else {
        sequenceLength := 0;
      }
    }

    /**
      The first pass of parse_string: the index of the closing quote and the number of bytes that
      only introduce an escape; None if the string does not end.
     */
    method FindStringEnd() returns (inputEnd: nat, skippedBytes: nat, found: bool)
      requires Valid() && content[offset] == QUOTE
      ensures found ==> inputEnd < |content| && content[inputEnd] == QUOTE
      ensures var s := Rest()[1..];
              && (found <==> ClosingQuote(s).Some?)
              && (found ==> inputEnd == offset + 1 + ClosingQuote(s).value
                            && skippedBytes + BodyTokens(s) == ClosingQuote(s).value)
    {
      hide ClosingQuote, BodyTokens;
      ghost var end := |content| - 1;
      Peek();
      inputEnd, skippedBytes := offset + 1, 0;
      ghost var s := Text()[inputEnd..];
      ghost var t := s;
      while inputEnd < |content| && content[inputEnd] != QUOTE
        invariant offset + 1 <= inputEnd <= |content|
        invariant inputEnd <= end ==>
          && t == Text()[inputEnd..]
          && ClosingQuote(s) == Shifted(ClosingQuote(t), inputEnd - offset - 1)
          && (ClosingQuote(t).Some? ==> skippedBytes + BodyTokens(s) == inputEnd - offset - 1 + BodyTokens(t))
        invariant inputEnd > end ==> ClosingQuote(s) == None
      {
        QuoteFirst(t);
        if t != [] {
          assert t[0] == content[inputEnd];
          PassToken(t);
          ghost var n := if t[0] == BACKSLASH && 2 <= |t| then 2 else 1;
          ShiftedTwice(ClosingQuote(t[n..]), n, inputEnd - offset - 1);
          t := t[n..];
        }
        if content[inputEnd] == BACKSLASH {
          skippedBytes := skippedBytes + 1;
          inputEnd := inputEnd + 1;
        }
        inputEnd := inputEnd + 1;
      }
      found := inputEnd < |content|;
      assert found ==> t[0] == QUOTE;
      QuoteFirst(t);
    }

    /**
      The second pass of parse_string over the body in front of the closing quote. Whatever the
      body is, and however the passes disagree about its escapes, one byte of room for each token
      the first pass counted is enough. The pass gives up in front of `inputEnd`, or reaches it.
     */
    method DecodeInto(start: nat, inputEnd: nat, output: array<byte>) returns (inputPointer: nat, outputPointer: nat)
      requires start <= inputEnd < |content| && content[inputEnd] == QUOTE
      requires InStep(content[start..inputEnd]) && Tokens(content[start..inputEnd]) <= output.Length
      modifies output
      ensures start <= inputPointer <= inputEnd + 1 && outputPointer <= Tokens(content[start..inputEnd])
      ensures match Decode(content[start..inputEnd])
              case None => inputPointer < inputEnd
              case Some(bytes) => inputEnd <= inputPointer && output[..outputPointer] == bytes
    {
      hide Decode, InStep, Tokens, DecodeStep;
      ghost var body, total := content[start..inputEnd], Tokens(content[start..inputEnd]);
      inputPointer, outputPointer := start, 0;
      ghost var b := body;
      ghost var decoded, left := Decode(body), Decode(b);
      NothingBefore(left);
      while inputPointer < inputEnd
        invariant start <= inputPointer <= inputEnd + 1
        invariant b == if inputPointer <= inputEnd then content[inputPointer..inputEnd] else []
        invariant outputPointer <= total && Fits(b, outputPointer, total)
        invariant left == Decode(b) && decoded == Behind(output[..outputPointer], left)
        decreases inputEnd + 1 - inputPointer
      {
        ghost var before, chunk := output[..outputPointer], [];
        var sequenceLength, written;
        sequenceLength, written, chunk := DecodeTurn(inputPointer, inputEnd, output, outputPointer, total);
        if sequenceLength == 0 {
          return;
        }
        AfterSlice(content, inputPointer, inputEnd, sequenceLength);
        b := After(b, sequenceLength);
        BehindBoth(before, chunk, Decode(b));
        left := Decode(b);
        inputPointer := inputPointer + sequenceLength;
        outputPointer := outputPointer + written;
      }
      assert output[..outputPointer] + [] == output[..outputPointer];
      NothingLeft();
    }

    lemma NothingLeft()
      ensures Decode([]) == Some([])
    {
    }

    /** What a turn does to the decoding of the whole body, and to the room that is left. */
    method DecodeTurn(inputPointer: nat, inputEnd: nat, output: array<byte>, outputPointer: nat, ghost total: nat)
      returns (sequenceLength: nat, written: nat, ghost chunk: Bytes)
      requires inputPointer < inputEnd < |content| && content[inputEnd] == QUOTE
      requires Fits(content[inputPointer..inputEnd], outputPointer, total) && total <= output.Length
      requires outputPointer <= total
      modifies output
      ensures var b := content[inputPointer..inputEnd];
              if sequenceLength == 0 then Decode(b) == None
              else
                && sequenceLength <= |b| + 1 && outputPointer + written <= total
                && Decode(b) == Behind(chunk, Decode(After(b, sequenceLength)))
                && Fits(After(b, sequenceLength), outputPointer + written, total)
                && output[..outputPointer + written] == old(output[..outputPointer]) + chunk
    {
      ghost var b := content[inputPointer..inputEnd];
      ghost var step := DecodeStep(b);
      chunk := [];
      if step.Step? {
        StepFits(b, outputPointer, total);
        chunk := step.output;
      }
      sequenceLength, written := DecodeOne(inputPointer, inputEnd, output, outputPointer);
    }

    lemma NothingBefore(left: Option<Bytes>)
      ensures Behind([], left) == left
    {
      assert left.Some? ==> [] + left.value == left.value;
    }

    /** parse_string; the C string it leaves in the item is what stands in front of the first NUL. */
    method ParseString(item: Node) returns (ok: bool)
      requires Valid()
      modifies this`offset, item`kind, item`valuestring
      ensures ok ==> Valid()
      ensures 0 <= offset <= |content|
      ensures var p := StringText.ParseString(old(Rest()));
              && (ok <==> p.Read?)
              && (ok ==> Rest() == p.rest && item.kind.StringKind? && item.valuestring == Some(p.value))
    {
      Peek();
      if content[offset] != QUOTE {
        offset := offset + 1;
        return false;
      }
      var inputEnd, skippedBytes, found := FirstPass();
      if !found {
        offset := offset + 1;
        return false;
      }
      var inputPointer, value := DecodeBody(inputEnd, skippedBytes);
      match value {
        case None =>
          offset := inputPointer;
          return false;
        case Some(text) =>
          item.kind := StringKind;
          item.valuestring := Some(text);
          offset := inputEnd + 1;
          return true;
      }
    }

    /** What the first pass settles about the body between the quotes. */
    method FirstPass() returns (inputEnd: nat, skippedBytes: nat, found: bool)
      requires Valid() && content[offset] == QUOTE
      ensures !found ==> StringText.ParseString(Rest()) == Failed
      ensures found ==>
        && offset < inputEnd < |content| - 1 && content[inputEnd] == QUOTE
        && var body := content[offset + 1..inputEnd];
        && InStep(body) && skippedBytes + Tokens(body) == |body|
        && match Decode(body)
           case None => StringText.ParseString(Rest()) == Failed
           case Some(bytes) => StringText.ParseString(Rest()) == Read(CString(bytes), Text()[inputEnd + 1..])
    {
      Peek();
      inputEnd, skippedBytes, found := FindStringEnd();
      if found {
        ghost var k := inputEnd - offset - 1;
        RestSlice(1, k);
        ParseStringParts(Rest(), k, content[offset + 1..inputEnd], Text()[inputEnd + 1..]);
      }
    }

    /** The output of parse_string: its allocation, the second pass, and the terminating NUL. */
    method DecodeBody(inputEnd: nat, skippedBytes: nat) returns (inputPointer: nat, value: Option<Bytes>)
      requires Valid() && offset < inputEnd < |content| && content[inputEnd] == QUOTE
      requires var body := content[offset + 1..inputEnd];
               InStep(body) && skippedBytes + Tokens(body) == |body|
      ensures inputPointer <= inputEnd + 1
      ensures match Decode(content[offset + 1..inputEnd])
              case None => value == None
              case Some(bytes) => value == Some(CString(bytes))
    {
      var allocationLength := inputEnd - offset - skippedBytes;
      var output := new byte[allocationLength + 1];
      var length;
      inputPointer, length := DecodeInto(offset + 1, inputEnd, output);
      if inputPointer < inputEnd {
        return inputPointer, None;
      }
      output[length] := NUL;
      value := Some(CString(output[..length]));
    }

    // ----- values

    /** can_read and strncmp against a word without NUL. */
    method LookingAt(word: Bytes) returns (b: bool)
      requires Valid() && NUL !in word
      ensures b <==> word <= Rest()
    {
      b := offset + |word| <= |content| && content[offset..offset + |word|] == word;
      assert offset + |word| == |content| ==> NUL in content[offset..];
      if word <= Rest() {
        assert content[offset..offset + |word|] == Rest()[..|word|];
      }
    }

    /** parse_value */
    method ParseValue(item: Node) returns (ok: bool, ghost kids: Kids)
      requires Valid() && item.child == null
      modifies this`offset, this`depth, item`kind, item`child, item`valuestring, item`valuedouble
      ensures ok ==> Valid()
      ensures 0 <= offset <= |content|
      ensures var p := Grammar.ParseValue(old(Rest()), old(depth));
              if ok then p.Read? && Rest() == p.rest && Built(item, kids, p.value) else p == Failed
      ensures ok ==> depth == old(depth) && fresh(Footprints(kids))
      decreases |content| - offset, 4
    {
      hide StringText.ParseString, NumberText.ParseNumber;
      kids := NoKids;
      Leaf(item);
      ok := ParseWord(item);
      if !ok {
        Peek();
        var c := content[offset];
        if c == QUOTE {
          ok := ParseString(item);
        } else if c == MINUS || IsDigit(c) {
          ok := ParseNumber(item);
        } else if c == LEFT_BRACKET {
          ok, kids := ParseArray(item);
        } else if c == LEFT_BRACE {
          ok, kids := ParseObject(item);
        }
      }
      if item.child == null {
        Leaf(item);
      }
    }

    lemma Leaf(item: Node)
      requires item.child == null
      ensures Formed(Tree(item, NoKids)) && Footprints(NoKids) == {}
    {
      assert Chained(NoKids);
    }

    /** The words null, false and true in parse_value. */
    method ParseWord(item: Node) returns (ok: bool)
      requires Valid()
      modifies this`offset, item`kind
      ensures Valid() && (!ok ==> offset == old(offset))
      ensures ok <==> NULL_TEXT <= old(Rest()) || FALSE_TEXT <= old(Rest()) || TRUE_TEXT <= old(Rest())
      ensures NULL_TEXT <= old(Rest()) ==> Rest() == old(Rest())[4..] && item.kind == NullKind
      ensures FALSE_TEXT <= old(Rest()) ==> Rest() == old(Rest())[5..] && item.kind == FalseKind
      ensures TRUE_TEXT <= old(Rest()) ==> Rest() == old(Rest())[4..] && item.kind == TrueKind
    {
      ok := LookingAt(NULL_TEXT);
      assert [NULL_TEXT[0], FALSE_TEXT[0], TRUE_TEXT[0]] == [110, 102, 116];
      if ok {
        assert Rest()[0] == NULL_TEXT[0];
        item.kind := NullKind;
        offset := offset + 4;
        return;
      }
      ok := LookingAt(FALSE_TEXT);
      if ok {
        assert Rest()[0] == FALSE_TEXT[0];
        item.kind := FalseKind;
        offset := offset + 5;
        return;
      }
      ok := LookingAt(TRUE_TEXT);
      if ok {
        item.kind := TrueKind;
        offset := offset + 4;
      }
    }

    /**
      Over an opening bracket and whitespace. If the closing bracket does not come next, the offset
      steps back to the byte in front of the first element or member.
     */
    method EnterList(close: byte) returns (closed: bool)
      requires Valid() && Rest() != [] && close != NUL
      modifies this`offset, this`depth
      ensures depth == old(depth) + 1 && old(offset) <= offset <= |content|
      ensures var inside := SkipWs(old(Rest())[1..]);
              && (closed <==> Starts(inside, close))
              && (if closed then Valid() && Rest() == inside else InFront() && NextRest() == inside)
    {
      depth := depth + 1;
      Peek();
      ghost var inside := SkipWs(Rest()[1..]);
      offset := offset + 1;
      SkipWhitespace();
      Peek();
      closed := content[offset] == close;
      if !closed {
        offset := offset - 1;
        assert NextRest() == inside;
      }
    }

    /** parse_array */
    method ParseArray(item: Node) returns (ok: bool, ghost kids: Kids)
      requires Valid() && item.child == null && Starts(Rest(), LEFT_BRACKET)
      modifies this`offset, this`depth, item`kind, item`child
      ensures ok ==> Valid()
      ensures 0 <= offset <= |content|
      ensures var p := Grammar.ParseArray(old(Rest()), old(depth));
              if ok then p.Read? && Rest() == p.rest && Built(item, kids, p.value) else p == Failed
      ensures ok ==> depth == old(depth) && fresh(Footprints(kids))
      decreases |content| - offset, 3
    {
      hide Grammar.ParseItems, Nodes.AllTyped, Nodes.ItemsFrom, Nodes.Footprints;
      hide Nodes.Chained, Nodes.KidsFormed, Nodes.Formed, Nodes.ContentOf, Nodes.ContentsOf;
      kids := NoKids;
      EmptyList();
      if depth >= NESTING_LIMIT {
        return false, NoKids;
      }
      var head: Node? := null;
      var closed := EnterList(RIGHT_BRACKET);
      if !closed {
        ok, head, kids := ParseElements();
        if !ok {
          return;
        }
        Peek();
        if content[offset] != RIGHT_BRACKET {
          return false, kids;
        }
      }
      Close(item, ArrayKind, head, kids);
      ok := true;
    }

    lemma EmptyList()
      ensures KidsFormed(NoKids) && First(NoKids) == null && Footprints(NoKids) == {}
      ensures ContentsOf(NoKids) == NoContents && AllTyped(NoContents) && AllNamed(NoContents)
      ensures ItemsFrom(NoContents, NoItems) == NoItems && MembersFrom(NoContents, NoMembers) == NoMembers
    {
    }

    /** Where parse_array and parse_object succeed: past the bracket, and the item takes over the list. */
    method Close(item: Node, kind: Kind, head: Node?, ghost kids: Kids)
      requires Valid() && Rest() != [] && depth > 0
      requires KidsFormed(kids) && head == First(kids) && item !in Footprints(kids)
      modifies this`offset, this`depth, item`kind, item`child
      ensures Valid() && Rest() == old(Rest())[1..] && depth == old(depth) - 1
      ensures Formed(Tree(item, kids)) && ContentsOf(kids) == old(ContentsOf(kids))
      ensures var c := ContentOf(Tree(item, kids)); c.kind == kind && c.kids == old(ContentsOf(kids))
    {
      Peek();
      depth := depth - 1;
      item.kind := kind;
      item.child := head;
      offset := offset + 1;
    }

    /** parse_object */
    method ParseObject(item: Node) returns (ok: bool, ghost kids: Kids)
      requires Valid() && item.child == null && Starts(Rest(), LEFT_BRACE)
      modifies this`offset, this`depth, item`kind, item`child
      ensures ok ==> Valid()
      ensures 0 <= offset <= |content|
      ensures var p := Grammar.ParseObject(old(Rest()), old(depth));
              if ok then p.Read? && Rest() == p.rest && Built(item, kids, p.value) else p == Failed
      ensures ok ==> depth == old(depth) && fresh(Footprints(kids))
      decreases |content| - offset, 3
    {
      hide Grammar.ParseMembers, Nodes.AllTyped, Nodes.AllNamed, Nodes.MembersFrom, Nodes.Footprints;
      hide Nodes.Chained, Nodes.KidsFormed, Nodes.Formed, Nodes.ContentOf, Nodes.ContentsOf;
      kids := NoKids;
      EmptyList();
      if depth >= NESTING_LIMIT {
        return false, NoKids;
      }
      var head: Node? := null;
      var closed := EnterList(RIGHT_BRACE);
      if !closed {
        ok, head, kids := ParseMembers();
        if !ok {
          return;
        }
        Peek();
        if content[offset] != RIGHT_BRACE {
          return false, kids;
        }
      }
      Close(item, ObjectKind, head, kids);
      ok := true;
    }

    /** The node and the children stand for this value. */
    ghost predicate Built(item: Node, kids: Kids, value: Json)
      reads Footprint(Tree(item, kids))
    {
      && Formed(Tree(item, kids))
      && Typed(ContentOf(Tree(item, kids))) && JsonOf(ContentOf(Tree(item, kids))) == value
    }

    /** Another byte stands behind the one at the offset. */
    ghost predicate InFront()
      reads this
    {
      && content != [] && content[|content| - 1] == NUL && NUL !in Text()
      && 0 <= offset < |content| - 1
    }

    /** The bytes left to read once the offset has moved on and over whitespace. */
    ghost function NextRest(): Bytes
      reads this
      requires InFront()
    {
      SkipWs(Text()[offset + 1..])
    }

    /** Over whitespace; is there a comma? */
    method AtComma() returns (more: bool)
      requires Valid()
      modifies this`offset
      ensures Valid() && Rest() == SkipWs(old(Rest())) && old(offset) <= offset
      ensures more <==> Starts(Rest(), COMMA)
      ensures more ==> InFront() && NextRest() == SkipWs(Rest()[1..])
    {
      SkipWhitespace();
      Peek();
      more := content[offset] == COMMA;
    }

    /** The loop of parse_array: elements and commas, up to the byte behind the last element. */
    method ParseElements() returns (ok: bool, head: Node?, ghost ts: Kids)
      requires InFront()
      modifies this`offset, this`depth
      ensures ok ==> Valid()
      ensures 0 <= offset <= |content|
      ensures ok ==> depth == old(depth) && head == First(ts) && KidsFormed(ts) && fresh(Footprints(ts))
      ensures var p := ParseItems(old(NextRest()), old(depth));
              if ok then AllTyped(ContentsOf(ts)) && p == ItemsClosed(ContentsOf(ts), Rest()) else p == Failed
      decreases |content| - offset, 2
    {
      hide Grammar.ParseValue, Grammar.ParseItems, Nodes.JsonOf, Nodes.Typed, Nodes.Formed, Nodes.ContentOf;
      hide ItemsRead, ItemsClosed, Nodes.AllTyped, Nodes.ItemsFrom, Starts;
      ok, head, ts := true, null, NoKids;
      var current: Node? := null;
      ghost var goal := ParseItems(NextRest(), depth);
      NothingRead(goal, Failed);
      var more := true;
      while more
        invariant old(offset) <= offset && depth == old(depth)
        invariant KidsFormed(ts) && fresh(Footprints(ts)) && head == First(ts) && current == Last(ts)
        invariant AllTyped(ContentsOf(ts))
        invariant more ==> InFront() && goal == ItemsRead(ContentsOf(ts), ParseItems(NextRest(), depth))
        invariant !more ==> Valid() && goal == ItemsClosed(ContentsOf(ts), Rest())
        decreases more, |content| - offset
      {
        ghost var t;
        ghost var s, before := NextRest(), ContentsOf(ts);
        ok, current, t := ParseElement(current, ts);
        if !ok {
          ItemsFail(before, s, old(depth));
          return;
        }
        if head == null {
          head := current;
        }
        ItemsStep(before, ContentOf(t), s, Rest(), depth);
        ts := Kid(ts, t);
        KidsAllocated(ts);
        more := AtComma();
      }
    }

    /** A new node behind the list, filled in from the next value. */
    method ParseElement(current: Node?, ghost ts: Kids) returns (ok: bool, newItem: Node, ghost t: Tree)
      requires InFront() && KidsFormed(ts) && current == Last(ts)
      modifies this`offset, this`depth, if current == null then {} else {current}
      ensures ok ==> Valid()
      ensures 0 <= offset <= |content|
      ensures ok ==> old(offset) < offset && depth == old(depth) && newItem == t.node
      ensures ok ==> KidsFormed(Kid(ts, t)) && fresh(Footprint(t)) && ContentsOf(ts) == old(ContentsOf(ts))
      ensures var p := Grammar.ParseValue(old(NextRest()), old(depth));
              if ok then Typed(ContentOf(t)) && p == Read(JsonOf(ContentOf(t)), Rest()) else p == Failed
      decreases |content| - offset, 1
    {
      hide Grammar.ParseValue;
      newItem := AttachNew(current, ts);
      KidsAllocated(ts);
      ok, t := ParseNext(newItem);
    }

    /** Over one byte and whitespace, and the value there into the node. */
    method ParseNext(item: Node) returns (ok: bool, ghost t: Tree)
      requires InFront() && item.child == null
      modifies this`offset, this`depth, item`kind, item`child, item`valuestring, item`valuedouble
      ensures ok ==> Valid()
      ensures 0 <= offset <= |content|
      ensures var p := Grammar.ParseValue(old(NextRest()), old(depth));
              if ok then Typed(ContentOf(t)) && p == Read(JsonOf(ContentOf(t)), Rest()) else p == Failed
      ensures ok ==> old(offset) < offset && depth == old(depth)
      ensures ok ==> item == t.node && Formed(t) && fresh(Footprints(t.kids))
      decreases |content| - offset, 0
    {
      hide Grammar.ParseValue;
      offset := offset + 1;
      SkipWhitespace();
      ghost var kids;
      ok, kids := ParseValue(item);
      t := Tree(item, kids);
    }

    /** The loop of parse_object: members and commas, up to the byte behind the last member. */
    method ParseMembers() returns (ok: bool, head: Node?, ghost ts: Kids)
      requires InFront()
      modifies this`offset, this`depth
      ensures ok ==> Valid()
      ensures 0 <= offset <= |content|
      ensures ok ==> depth == old(depth) && head == First(ts) && KidsFormed(ts) && fresh(Footprints(ts))
      ensures var p := Grammar.ParseMembers(old(NextRest()), old(depth));
              if ok then AllTyped(ContentsOf(ts)) && AllNamed(ContentsOf(ts))
                         && p == MembersClosed(ContentsOf(ts), Rest())
              else p == Failed
      decreases |content| - offset, 2
    {
      hide Grammar.ParseMember, Grammar.ParseMembers, Nodes.JsonOf, Nodes.Typed, Nodes.Formed, Nodes.ContentOf;
      hide MembersRead, MembersClosed, Nodes.AllTyped, Nodes.AllNamed, Nodes.MembersFrom, Starts;
      ok, head, ts := true, null, NoKids;
      var current: Node? := null;
      ghost var goal := Grammar.ParseMembers(NextRest(), depth);
      NothingRead(Failed, goal);
      var more := true;
      while more
        invariant old(offset) <= offset && depth == old(depth)
        invariant KidsFormed(ts) && fresh(Footprints(ts)) && head == First(ts) && current == Last(ts)
        invariant AllTyped(ContentsOf(ts)) && AllNamed(ContentsOf(ts))
        invariant more ==> InFront() && goal == MembersRead(ContentsOf(ts), Grammar.ParseMembers(NextRest(), depth))
        invariant !more ==> Valid() && goal == MembersClosed(ContentsOf(ts), Rest())
        decreases more, |content| - offset
      {
        ghost var t;
        ghost var s, before := NextRest(), ContentsOf(ts);
        ok, current, t := ParseMember(current, ts);
        if !ok {
          MembersFail(before, s, old(depth));
          return;
        }
        if head == null {
          head := current;
        }
        MembersStep(before, ContentOf(t), s, Rest(), depth);
        ts := Kid(ts, t);
        KidsAllocated(ts);
        more := AtComma();
      }
    }

    /** A new node behind the list, filled in from the next key and value. */
    method ParseMember(current: Node?, ghost ts: Kids) returns (ok: bool, newItem: Node, ghost t: Tree)
      requires InFront() && KidsFormed(ts) && current == Last(ts)
      modifies this`offset, this`depth, if current == null then {} else {current}
      ensures ok ==> Valid()
      ensures 0 <= offset <= |content|
      ensures ok ==> old(offset) < offset && depth == old(depth) && newItem == t.node
      ensures ok ==> KidsFormed(Kid(ts, t)) && fresh(Footprint(t)) && ContentsOf(ts) == old(ContentsOf(ts))
      ensures var p := Grammar.ParseMember(old(NextRest()), old(depth));
              if ok then Typed(ContentOf(t)) && ContentOf(t).name.Some?
                         && p == Read((ContentOf(t).name.value, JsonOf(ContentOf(t))), Rest())
              else p == Failed
      decreases |content| - offset, 1
    {
      hide Grammar.ParseValue, StringText.ParseString, Nodes.JsonOf, Nodes.Typed;
      newItem := AttachNew(current, ts);
      t := Tree(newItem, NoKids);
      KidsAllocated(ts);
      ok := ParseKey(newItem);
      if ok {
        ok, t := ParseNext(newItem);
      }
    }

    /** The key of a member and the colon behind it; the offset stays on the colon. */
    method ParseKey(item: Node) returns (ok: bool)
      requires InFront()
      modifies this`offset, item`kind, item`valuestring, item`name
      ensures ok ==> InFront() && old(offset) < offset
      ensures 0 <= offset <= |content|
      ensures match StringText.ParseString(old(NextRest()))
              case Failed => !ok
              case Read(key, rest) =>
                && (ok <==> Starts(SkipWs(rest), COLON))
                && (ok ==> item.name == Some(key) && NextRest() == SkipWs(SkipWs(rest)[1..]))
    {
      hide StringText.ParseString;
      offset := offset + 1;
      SkipWhitespace();
      ok := ParseString(item);
      if !ok {
        return;
      }
      SkipWhitespace();
      // the name was parsed as a value
      item.name := item.valuestring;
      item.valuestring := None;
      Peek();
      ok := content[offset] == COLON;
    }
  }

  /** Items already read, in front of those still to be parsed. */
  function ItemsRead(cs: Contents, p: Parsed<Items>): Parsed<Items>
    requires AllTyped(cs)
  {
    match p
    case Failed => Failed
    case Read(more, rest) => Read(ItemsFrom(cs, more), rest)
  }

  /** The items, if the closing bracket comes next. */
  function ItemsClosed(cs: Contents, s: Bytes): Parsed<Items>
    requires AllTyped(cs)
  {
    if Starts(s, RIGHT_BRACKET) then Read(ItemsFrom(cs, NoItems), s[1..]) else Failed
  }

  /** Members already read, in front of those still to be parsed. */
  function MembersRead(cs: Contents, p: Parsed<Members>): Parsed<Members>
    requires AllTyped(cs) && AllNamed(cs)
  {
    match p
    case Failed => Failed
    case Read(more, rest) => Read(MembersFrom(cs, more), rest)
  }

  /** The members, if the closing brace comes next. */
  function MembersClosed(cs: Contents, s: Bytes): Parsed<Members>
    requires AllTyped(cs) && AllNamed(cs)
  {
    if Starts(s, RIGHT_BRACE) then Read(MembersFrom(cs, NoMembers), s[1..]) else Failed
  }

  lemma NothingRead(p: Parsed<Items>, q: Parsed<Members>)
    ensures ContentsOf(NoKids) == NoContents && AllTyped(NoContents) && AllNamed(NoContents)
    ensures ItemsRead(NoContents, p) == p && MembersRead(NoContents, q) == q
  {
  }

  lemma ItemsFail(cs: Contents, s: Bytes, depth: nat)
    requires AllTyped(cs) && Grammar.ParseValue(s, depth) == Failed
    ensures ItemsRead(cs, ParseItems(s, depth)) == Failed
  {
  }

  lemma MembersFail(cs: Contents, s: Bytes, depth: nat)
    requires AllTyped(cs) && AllNamed(cs) && Grammar.ParseMember(s, depth) == Failed
    ensures MembersRead(cs, Grammar.ParseMembers(s, depth)) == Failed
  {
  }

  /** One more item read: what is left to parse depends on the comma behind it. */
  lemma ItemsStep(cs: Contents, c: Content, s: Bytes, rest: Bytes, depth: nat)
    requires AllTyped(cs) && Typed(c) && Grammar.ParseValue(s, depth) == Read(JsonOf(c), rest)
    ensures AllTyped(Contents(cs, c))
    ensures var behind := SkipWs(rest);
            ItemsRead(cs, ParseItems(s, depth)) ==
              if Starts(behind, COMMA) then ItemsRead(Contents(cs, c), ParseItems(SkipWs(behind[1..]), depth))
              else ItemsClosed(Contents(cs, c), behind)
  {
    hide Grammar.ParseValue, Nodes.JsonOf, Nodes.Typed;
  }

  lemma MembersStep(cs: Contents, c: Content, s: Bytes, rest: Bytes, depth: nat)
    requires AllTyped(cs) && AllNamed(cs) && Typed(c) && c.name.Some?
    requires Grammar.ParseMember(s, depth) == Read((c.name.value, JsonOf(c)), rest)
    ensures AllTyped(Contents(cs, c)) && AllNamed(Contents(cs, c))
    ensures var behind := SkipWs(rest);
            MembersRead(cs, Grammar.ParseMembers(s, depth)) ==
              if Starts(behind, COMMA)
              then MembersRead(Contents(cs, c), Grammar.ParseMembers(SkipWs(behind[1..]), depth))
              else MembersClosed(Contents(cs, c), behind)
  {
    hide Grammar.ParseMember, Nodes.JsonOf, Nodes.Typed;
  }

  lemma AfterSlice(s: Bytes, from: nat, to: nat, n: nat)
    requires from <= to <= |s|
    ensures After(s[from..to], n) == if from + n <= to then s[from + n..to] else []
  {
  }

  lemma ShiftedTwice(q: Option<nat>, m: nat, n: nat)
    ensures Shifted(Shifted(q, m), n) == Shifted(q, m + n)
  {
  }

  lemma Subrange(s: Bytes, from: nat, to: nat, i: nat, j: nat)
    requires from <= to <= |s| && i <= j <= to - from
    ensures s[from + i..from + j] == s[from..to][i..j]
  {
    assert forall k :: 0 <= k < j - i ==> s[from + i..from + j][k] == s[from..to][i..j][k];
  }

  /** The code point behind `n` turns of the encoding loop. */
  function DropSixBits(codepoint: nat, n: nat): nat {
    if n == 0 then codepoint else DropSixBits(codepoint, n - 1) / 0x40
  }

  function FirstByteMark(length: nat): nat {
    if length == 1 then 0 else if length == 2 then 0xC0 else if length == 3 then 0xE0 else 0xF0
  }

  /** Every byte of the UTF-8 encoding carries one group of bits. */
  lemma Utf8Groups(codepoint: nat)
    requires codepoint <= 0x10FFFF
    ensures var u := Utf8(codepoint);
            && u[0] == FirstByteMark(|u|) + DropSixBits(codepoint, |u| - 1)
            && forall i :: 1 <= i < |u| ==> u[i] == 0x80 + DropSixBits(codepoint, |u| - 1 - i) % 0x40
  {
    assert DropSixBits(codepoint, 0) == codepoint;
    assert DropSixBits(codepoint, 1) == codepoint / 0x40;
    assert DropSixBits(codepoint, 2) == codepoint / 0x1000;
    assert DropSixBits(codepoint, 3) == codepoint / 0x40000;
  }
}
