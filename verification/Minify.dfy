/**
  cJSON_Minify as a function on C strings, and the in-place loop that computes it.
  None stands for a text whose last string or block comment is not closed: there the loop reads
  past the terminating NUL.
 */
module Minify {
  import opened Bytes
  import opened StringText

  /** The characters cJSON_Minify drops; the parser's whitespace is every byte up to the space. */
  predicate Blank(c: byte) {
    c == SPACE || c == TAB || c == RETURN || c == NEWLINE
  }

  /** The text from the end of the line on. */
  function LineEnd(s: Bytes): (r: Bytes)
    ensures |r| <= |s|
    ensures r == [] || r[0] == NEWLINE
  {
    if s == [] || s[0] == NEWLINE then s else LineEnd(s[1..])
  }

  /** The text behind the next star and slash. */
  function CommentEnd(s: Bytes): (r: Option<Bytes>)
    ensures r.Some? ==> |r.value| + 2 <= |s|
  {
    if s == [] then None
    else if s[0] == STAR && 2 <= |s| && s[1] == SLASH then Some(s[2..])
    else CommentEnd(s[1..])
  }

  /** What is left of a text. The search for the end of a block comment starts at its first slash. */
  function Minified(s: Bytes): (r: Option<Bytes>)
    ensures r.Some? ==> |r.value| <= |s|
    decreases |s|
  {
    if s == [] then Some([])
    else if Blank(s[0]) then Minified(s[1..])
    else if s[0] == SLASH && 2 <= |s| && s[1] == SLASH then Minified(LineEnd(s[1..]))
    else if s[0] == SLASH && 2 <= |s| && s[1] == STAR then
      match CommentEnd(s[1..])
      case None => None
      case Some(rest) => Minified(rest)
    else if s[0] == QUOTE then
      match ClosingQuote(s[1..])
      case None => None
      case Some(k) => Behind(s[..k + 2], Minified(s[k + 2..]))
    else Behind([s[0]], Minified(s[1..]))
  }

  // ----- the loop

  /** At `read`, the buffer holds the C string `s`. */
  ghost predicate Holds(json: array<byte>, read: nat, s: Bytes)
    reads json
  {
    Found(json[..], read, s)
  }

  /** In the bytes of the buffer, `s` and a NUL are found from `read` on. */
  ghost predicate Found(text: Bytes, read: nat, s: Bytes) {
    read + |s| < |text| && text[read..read + |s|] == s && text[read + |s|] == NUL && NUL !in s
  }

  lemma HoldsFirst(json: array<byte>, read: nat, s: Bytes)
    requires Holds(json, read, s)
    ensures s == [] <==> json[read] == NUL
    ensures s != [] ==> json[read] == s[0] && Holds(json, read + 1, s[1..])
    ensures 2 <= |s| ==> json[read + 1] == s[1] && Holds(json, read + 2, s[2..])
    ensures |s| == 1 ==> json[read + 1] == NUL
  {
    if s != [] {
      assert json[read] == json[read..read + |s|][0];
      assert json[read + 1..read + |s|] == s[1..];
      if 2 <= |s| {
        assert json[read + 1] == json[read..read + |s|][1];
        assert json[read + 2..read + |s|] == s[2..];
      }
    }
  }

  /** Skipping a line comment; the newline stays. */
  method SkipLine(json: array<byte>, start: nat, ghost s: Bytes) returns (read: nat, ghost rest: Bytes)
    requires Holds(json, start, s)
    ensures rest == LineEnd(s) && Holds(json, read, rest) && start <= read
  {
    read, rest := start, s;
    HoldsFirst(json, read, rest);
    while json[read] != NUL && json[read] != NEWLINE
      invariant Holds(json, read, rest) && start <= read && LineEnd(s) == LineEnd(rest)
      decreases |rest|
    {
      HoldsFirst(json, read, rest);
      read, rest := read + 1, rest[1..];
    }
    HoldsFirst(json, read, rest);
  }

  /** Skipping a block comment. */
  method SkipComment(json: array<byte>, start: nat, ghost s: Bytes) returns (read: nat, ghost rest: Bytes)
    requires Holds(json, start, s) && CommentEnd(s).Some?
    ensures rest == CommentEnd(s).value && Holds(json, read, rest) && start <= read
  {
    read, rest := start, s;
    HoldsFirst(json, read, rest);
    while json[read] != NUL && !(json[read] == STAR && json[read + 1] == SLASH)
      invariant Holds(json, read, rest) && start <= read && CommentEnd(s) == CommentEnd(rest)
      decreases |rest|
    {
      HoldsFirst(json, read, rest);
      read, rest := read + 1, rest[1..];
    }
    HoldsFirst(json, read, rest);
    read, rest := read + 2, rest[2..];
  }

  /** Copying one byte down. */
  method CopyByte(json: array<byte>, into: nat, read: nat, ghost s: Bytes)
    requires Holds(json, read, s) && s != [] && into <= read
    modifies json
    ensures json[..into + 1] == old(json[..into]) + [s[0]] && Holds(json, read + 1, s[1..])
    ensures forall i :: into < i < json.Length ==> json[i] == old(json[i])
  {
    HoldsFirst(json, read, s);
    assert forall i :: 0 <= i < |s| - 1 ==> json[read + 1 + i] == s[1..][i];
    json[into] := json[read];
    assert json[read + 1..read + |s|] == s[1..];
  }

  /** Where the closing quote is, seen from the next character of a literal. */
  lemma CloseStep(s: Bytes)
    requires ClosingQuote(s).Some?
    ensures s != [] && (s[0] == QUOTE ==> ClosingQuote(s) == Some(0))
    ensures s[0] != QUOTE && s[0] != BACKSLASH ==> ClosingQuote(s) == Shifted(ClosingQuote(s[1..]), 1)
    ensures s[0] == BACKSLASH ==> 2 <= |s| && ClosingQuote(s) == Shifted(ClosingQuote(s[2..]), 2)
  {
  }

  lemma DropDrop(s: Bytes, i: nat, n: nat)
    requires i + n <= |s|
    ensures s[i..][n..] == s[i + n..]
  {
  }

  /** The quote that closes the literal stands at index `k`, as seen from index `p` inside it. */
  ghost predicate ClosesAt(s: Bytes, p: nat, k: nat) {
    p <= |s| && p <= k && ClosingQuote(s[p..]) == Some(k - p)
  }

  /** What stands at index `p` of a literal found in the buffer, and what that means for the next index. */
  lemma LiteralAt(text: Bytes, start: nat, s: Bytes, p: nat, k: nat)
    requires Found(text, start, s) && ClosesAt(s, p, k)
    ensures p < |s| && start + |s| < |text| && text[start + p] == s[p] && s[p] != NUL
    ensures s[p] == QUOTE ==> p == k
    ensures s[p] != QUOTE && s[p] != BACKSLASH ==> ClosesAt(s, p + 1, k)
    ensures s[p] == BACKSLASH ==> p + 1 < |s| && text[start + p + 1] == s[p + 1] && ClosesAt(s, p + 2, k)
  {
    hide ClosingQuote, Found;
    CloseStep(s[p..]);
    FoundAt(text, start, s, p);
    if s[p] == BACKSLASH {
      DropDrop(s, p, 2);
      FoundAt(text, start, s, p + 1);
    } else if s[p] != QUOTE {
      DropDrop(s, p, 1);
    }
  }

  /** One turn of the loop over a string literal: a plain byte, or a backslash and the byte behind it. */
  method CopyCharacter(json: array<byte>, into: nat, read: nat,
                       ghost text: Bytes, ghost start: nat, ghost s: Bytes, ghost k: nat)
    returns (n: nat)
    requires Found(text, start, s) && |text| == json.Length && start + 1 <= read && ClosesAt(s, read - start, k)
    requires into <= read < start + |s| && json[read] != QUOTE
    requires forall i :: into <= i < json.Length ==> json[i] == text[i]
    modifies json
    ensures 1 <= n && read + n < start + |s| && ClosesAt(s, read + n - start, k)
    ensures forall i :: into <= i < into + n ==> json[i] == s[i - into + (read - start)]
    ensures forall i :: 0 <= i < into || into + n <= i < json.Length ==> json[i] == old(json[i])
  {
    hide ClosesAt, Found;
    LiteralAt(text, start, s, read - start, k);
    n := 1;
    if json[read] == BACKSLASH {
      json[into] := json[read];
      n := 2;
    }
    json[into + n - 1] := json[read + n - 1];
    LiteralAt(text, start, s, read + n - start, k);
  }

  /** Copying a string literal with its quotes: `s` starts with the opening one. */
  method CopyString(json: array<byte>, from: nat, start: nat, ghost s: Bytes, ghost k: nat)
    returns (into: nat, read: nat)
    requires Holds(json, start, s) && s != [] && s[0] == QUOTE && ClosesAt(s, 1, k) && from <= start
    modifies json
    ensures into <= read < json.Length && read - start == into - from == k + 1
    ensures forall i :: from <= i < into ==> json[i] == s[i - from]
    ensures forall i :: 0 <= i < from || into <= i < json.Length ==> json[i] == old(json[i])
  {
    hide ClosesAt, Found;
    ghost var text := json[..];
    LiteralAt(text, start, s, 1, k);
    FoundAt(text, start, s, 0);
    json[from] := json[start];
    into, read := from + 1, start + 1;
    while json[read] != NUL && json[read] != QUOTE
      invariant from < into <= read < start + |s| && read - start == into - from && ClosesAt(s, read - start, k)
      invariant forall i :: from <= i < into ==> json[i] == s[i - from]
      invariant forall i :: 0 <= i < from || into <= i < json.Length ==> json[i] == text[i]
      decreases json.Length - read
    {
      var n := CopyCharacter(json, into, read, text, start, s, k);
      into, read := into + n, read + n;
    }
    LiteralAt(text, start, s, read - start, k);
    json[into] := json[read];
    into, read := into + 1, read + 1;
  }

  lemma FoundAt(text: Bytes, start: nat, s: Bytes, i: nat)
    requires Found(text, start, s) && i <= |s|
    ensures start + |s| < |text| && text[start + i] == if i < |s| then s[i] else NUL
    ensures i < |s| ==> s[i] != NUL
  {
    assert i < |s| ==> text[start + i] == text[start..start + |s|][i];
  }

  /** The same in terms of the texts written and left. */
  method MoveString(json: array<byte>, from: nat, start: nat, ghost s: Bytes)
    returns (into: nat, read: nat, ghost out: Bytes, ghost rest: Bytes)
    requires Holds(json, start, s) && s != [] && s[0] == QUOTE && ClosingQuote(s[1..]).Some? && from <= start
    modifies json
    ensures Holds(json, read, rest) && into <= read
    ensures out == s[..ClosingQuote(s[1..]).value + 2] && rest == s[ClosingQuote(s[1..]).value + 2..]
    ensures into == from + |out| && json[..into] == old(json[..from]) + out
    ensures forall i :: into <= i < json.Length ==> json[i] == old(json[i])
  {
    hide ClosingQuote, Found;
    ghost var k := ClosingQuote(s[1..]).value + 2;
    into, read := CopyString(json, from, start, s, k - 1);
    out, rest := s[..k], s[k..];
    Spliced(old(json[..]), json[..], from, into, s);
    assert json[..][..into] == json[..into] && old(json[..])[..from] == old(json[..from]);
    FoundRest(old(json[..]), json[..], start, s, k);
  }

  lemma Spliced(before: Bytes, after: Bytes, from: nat, into: nat, s: Bytes)
    requires from <= into <= |after| == |before| && into - from <= |s|
    requires forall i :: from <= i < into ==> after[i] == s[i - from]
    requires forall i :: 0 <= i < from ==> after[i] == before[i]
    ensures after[..into] == before[..from] + s[..into - from]
  {
  }

  lemma FoundRest(before: Bytes, after: Bytes, start: nat, s: Bytes, k: nat)
    requires Found(before, start, s) && k <= |s| && |before| == |after|
    requires forall i :: start + k <= i < |before| ==> after[i] == before[i]
    ensures Found(after, start + k, s[k..])
  {
    assert before[start + k..start + |s|] == before[start..start + |s|][k..];
  }

  /** What each branch of the loop writes and what it leaves to do. */
  lemma MinifiedTurn(s: Bytes)
    requires s != [] && Minified(s).Some?
    ensures Blank(s[0]) ==> Minified(s) == Behind([], Minified(s[1..]))
    ensures s[0] == SLASH && 2 <= |s| && s[1] == SLASH ==>
      |LineEnd(s)| < |s| && Minified(s) == Behind([], Minified(LineEnd(s)))
    ensures s[0] == SLASH && 2 <= |s| && s[1] == STAR ==>
      CommentEnd(s).Some? && Minified(s) == Behind([], Minified(CommentEnd(s).value))
    ensures s[0] == QUOTE ==>
      && ClosingQuote(s[1..]).Some?
      && Minified(s) == Behind(s[..ClosingQuote(s[1..]).value + 2], Minified(s[ClosingQuote(s[1..]).value + 2..]))
    ensures !Blank(s[0]) && s[0] != QUOTE && !(s[0] == SLASH && 2 <= |s| && (s[1] == SLASH || s[1] == STAR)) ==>
      Minified(s) == Behind([s[0]], Minified(s[1..]))
  {
    BehindNothing(s[1..]);
    BehindNothing(LineEnd(s));
    if CommentEnd(s).Some? {
      BehindNothing(CommentEnd(s).value);
    }
  }

  /** One turn of the loop of cJSON_Minify: `out` is written. */
  method Turn(json: array<byte>, from: nat, start: nat, ghost s: Bytes)
    returns (into: nat, read: nat, ghost out: Bytes, ghost rest: Bytes)
    requires Holds(json, start, s) && s != [] && Minified(s).Some? && from <= start
    modifies json
    ensures Holds(json, read, rest) && into <= read && |rest| < |s|
    ensures into == from + |out| && json[..into] == old(json[..from]) + out
    ensures Minified(rest).Some? && Minified(s) == Behind(out, Minified(rest))
    ensures forall i :: into <= i < json.Length ==> json[i] == old(json[i])
  {
    hide Minified, ClosingQuote, CommentEnd, LineEnd;
    HoldsFirst(json, start, s);
    MinifiedTurn(s);
    into, read, out, rest := from, start, [], s[1..];
    if Blank(json[start]) {
      read := start + 1;
    } else if json[start] == SLASH && json[start + 1] == SLASH {
      read, rest := SkipLine(json, start, s);
    } else if json[start] == SLASH && json[start + 1] == STAR {
      read, rest := SkipComment(json, start, s);
    } else if json[start] == QUOTE {
      into, read, out, rest := MoveString(json, from, start, s);
    } else {
      out := [s[0]];
      CopyByte(json, from, start, s);
      into, read := from + 1, start + 1;
    }
  }

  /** cJSON_Minify, on the C string at the start of the buffer. */
  method Minify(json: array?<byte>, ghost text: Bytes)
    requires json != null ==> Holds(json, 0, text) && Minified(text).Some?
    modifies if json == null then {} else {json}
    ensures json != null ==> Holds(json, 0, Minified(text).value)
    ensures json != null ==> forall i :: |Minified(text).value| < i < json.Length ==> json[i] == old(json[i])
  {
    hide Minified;
    if json == null {
      return;
    }
    var into: nat, read: nat := 0, 0;
    ghost var rest, done, out := text, [], [];
    BehindNothing(text);
    HoldsFirst(json, read, rest);
    while json[read] != NUL
      invariant into <= read && Holds(json, read, rest) && into == |done| && json[..into] == done
      invariant Minified(rest).Some? && Minified(text) == Behind(done, Minified(rest))
      invariant forall i :: into <= i < json.Length ==> json[i] == old(json[i])
      decreases |rest|
    {
      HoldsFirst(json, read, rest);
      into, read, out, rest := Turn(json, into, read, rest);
      BehindBoth(done, out, Minified(rest));
      done := done + out;
      HoldsFirst(json, read, rest);
    }
    BehindNothing(done);
    MinifiedNulFree(text);
    json[into] := NUL;
  }

  lemma BehindNothing(s: Bytes)
    ensures Minified(s) == Behind([], Minified(s)) && Behind(s, Minified([])) == Some(s)
  {
    assert s + [] == s;
    if Minified(s).Some? {
      assert [] + Minified(s).value == Minified(s).value;
    }
  }

  lemma {:induction false} LineEndNulFree(s: Bytes)
    requires NUL !in s
    ensures NUL !in LineEnd(s)
  {
    if s != [] {
      LineEndNulFree(s[1..]);
    }
  }

  lemma {:induction false} CommentEndNulFree(s: Bytes)
    requires NUL !in s && CommentEnd(s).Some?
    ensures NUL !in CommentEnd(s).value
  {
    if !(s[0] == STAR && 2 <= |s| && s[1] == SLASH) {
      CommentEndNulFree(s[1..]);
    }
  }

  lemma {:induction false} MinifiedNulFree(s: Bytes)
    requires NUL !in s && Minified(s).Some?
    ensures NUL !in Minified(s).value
    decreases |s|
  {
    if s == [] {
    } else if s[0] == SLASH && 2 <= |s| && s[1] == SLASH {
      LineEndNulFree(s[1..]);
      MinifiedNulFree(LineEnd(s[1..]));
    } else if s[0] == SLASH && 2 <= |s| && s[1] == STAR {
      CommentEndNulFree(s[1..]);
      MinifiedNulFree(CommentEnd(s[1..]).value);
    } else if s[0] == QUOTE {
      MinifiedNulFree(s[ClosingQuote(s[1..]).value + 2..]);
    } else {
      MinifiedNulFree(s[1..]);
    }
  }
}
