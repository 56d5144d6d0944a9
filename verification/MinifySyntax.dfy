/**
  What cJSON_Minify does to a text, in terms of the pieces the text is made of. `MinifiedExactly`
  says that the result is what the pieces keep, for the texts that can be cut into pieces and for
  no others.
 */
module MinifySyntax {
  import opened Bytes
  import opened StringText
  import opened StringSyntax
  import opened Minify

  /** A line comment takes its newline with it, or ends the text. A block comment starts and ends with a slash. */
  datatype Piece =
    | Space(c: byte)
    | Line(comment: Bytes)
    | LastLine(comment: Bytes)
    | Block(inside: Bytes)
    | Quoted(body: Bytes)
    | Other(c: byte)

  const SPACES: Bytes := [SPACE, TAB, RETURN, NEWLINE]

  /** The star and slash that end the comment are the first behind its first slash. */
  predicate ClosedOnce(inside: Bytes) {
    && (inside != [] ==> inside[0] == STAR)
    && forall i :: 0 < i < |inside| ==> inside[i - 1] != STAR || inside[i] != SLASH
  }

  predicate ValidPiece(p: Piece, rest: Bytes) {
    match p
    case Space(c) => c in SPACES
    case Line(comment) => NEWLINE !in comment
    case LastLine(comment) => NEWLINE !in comment && rest == []
    case Block(inside) => ClosedOnce(inside)
    case Quoted(body) => InStep(body)
    case Other(c) =>
      && c !in SPACES && c != QUOTE
      && (c == SLASH && rest != [] ==> rest[0] != SLASH && rest[0] != STAR)
  }

  function PieceText(p: Piece): (t: Bytes)
    ensures t != []
  {
    match p
    case Space(c) => [c]
    case Line(comment) => [SLASH, SLASH] + comment + [NEWLINE]
    case LastLine(comment) => [SLASH, SLASH] + comment
    case Block(inside) => [SLASH] + inside + [STAR, SLASH]
    case Quoted(body) => [QUOTE] + body + [QUOTE]
    case Other(c) => [c]
  }

  /** Spaces and comments go, the rest stays. */
  function Kept(p: Piece): Bytes {
    match p
    case Quoted(body) => [QUOTE] + body + [QUOTE]
    case Other(c) => [c]
    case _ => []
  }

  lemma {:induction false} LineEndAt(comment: Bytes, rest: Bytes)
    requires NEWLINE !in comment && (rest == [] || rest[0] == NEWLINE)
    ensures LineEnd(comment + rest) == rest
  {
    if comment == [] {
      assert comment + rest == rest;
    } else {
      assert (comment + rest)[1..] == comment[1..] + rest;
      LineEndAt(comment[1..], rest);
    }
  }

  lemma LineMinified(comment: Bytes, rest: Bytes)
    requires NEWLINE !in comment
    ensures Minified([SLASH, SLASH] + comment + [NEWLINE] + rest) == Minified(rest)
    ensures Minified([SLASH, SLASH] + comment) == Some([])
  {
    var s := [SLASH, SLASH] + comment + [NEWLINE] + rest;
    assert s[1..] == ([SLASH] + comment) + ([NEWLINE] + rest) && ([NEWLINE] + rest)[1..] == rest;
    LineEndAt([SLASH] + comment, [NEWLINE] + rest);
    var t := [SLASH, SLASH] + comment;
    assert t[1..] == ([SLASH] + comment) + [];
    LineEndAt([SLASH] + comment, []);
  }

  lemma {:induction false} CommentEndAt(inside: Bytes, rest: Bytes)
    requires forall i :: 0 < i < |inside| ==> inside[i - 1] != STAR || inside[i] != SLASH
    ensures CommentEnd(inside + [STAR, SLASH] + rest) == Some(rest)
  {
    var s := inside + [STAR, SLASH] + rest;
    if inside == [] {
      assert s[2..] == rest;
    } else {
      assert s[1..] == inside[1..] + [STAR, SLASH] + rest;
      CommentEndAt(inside[1..], rest);
    }
  }

  lemma BlockMinified(inside: Bytes, rest: Bytes)
    requires ClosedOnce(inside)
    ensures Minified([SLASH] + inside + [STAR, SLASH] + rest) == Minified(rest)
  {
    var s := [SLASH] + inside + [STAR, SLASH] + rest;
    assert s[1..] == inside + [STAR, SLASH] + rest;
    CommentEndAt(inside, rest);
  }

  lemma LiteralMinified(body: Bytes, rest: Bytes)
    requires InStep(body)
    ensures Minified([QUOTE] + body + [QUOTE] + rest) == Behind([QUOTE] + body + [QUOTE], Minified(rest))
  {
    var s := [QUOTE] + body + [QUOTE] + rest;
    assert s[1..] == body + [QUOTE] + rest;
    BodyClosed(body, rest);
    assert s[..|body| + 2] == [QUOTE] + body + [QUOTE] && s[|body| + 2..] == rest;
  }

  lemma ByteMinified(c: byte, rest: Bytes)
    requires c != QUOTE && (c == SLASH && rest != [] ==> rest[0] != SLASH && rest[0] != STAR)
    ensures Minified([c] + rest) == if c in SPACES then Minified(rest) else Behind([c], Minified(rest))
  {
    assert ([c] + rest)[1..] == rest;
  }

  /** One piece and what follows it. */
  lemma PieceMinified(p: Piece, rest: Bytes)
    requires ValidPiece(p, rest)
    ensures Minified(PieceText(p) + rest) == Behind(Kept(p), Minified(rest))
  {
    hide Minified, InStep, ClosedOnce;
    BehindNothing(rest);
    match p
    case Space(c) => ByteMinified(c, rest);
    case Line(comment) => LineMinified(comment, rest);
    case LastLine(comment) =>
      LineMinified(comment, rest);
      assert PieceText(p) + rest == PieceText(p);
      NothingMinified();
    case Block(inside) => BlockMinified(inside, rest);
    case Quoted(body) => LiteralMinified(body, rest);
    case Other(c) => ByteMinified(c, rest);
  }

  lemma NothingMinified()
    ensures Minified([]) == Some([])
  {
  }

  // ----- every text has its pieces

  lemma {:induction false} LineIn(s: Bytes) returns (comment: Bytes)
    ensures NEWLINE !in comment && s == comment + LineEnd(s)
  {
    if s == [] || s[0] == NEWLINE {
      assert LineEnd(s) == s;
      return [];
    }
    var more := LineIn(s[1..]);
    LineStep(s);
    comment := [s[0]] + more;
    Associative([s[0]], more, LineEnd(s));
    assert s == [s[0]] + s[1..];
  }

  lemma LineStep(s: Bytes)
    requires s != [] && s[0] != NEWLINE
    ensures LineEnd(s) == LineEnd(s[1..])
  {
  }

  lemma {:induction false} BlockIn(s: Bytes) returns (inside: Bytes)
    requires CommentEnd(s).Some?
    ensures forall i :: 0 < i < |inside| ==> inside[i - 1] != STAR || inside[i] != SLASH
    ensures s == inside + [STAR, SLASH] + CommentEnd(s).value && (inside != [] ==> inside[0] == s[0])
  {
    if s[0] == STAR && 2 <= |s| && s[1] == SLASH {
      inside := [];
    } else {
      var more := BlockIn(s[1..]);
      inside := [s[0]] + more;
      assert s == [s[0]] + s[1..];
      assert more != [] ==> more[0] == s[1];
    }
  }

  /** The first piece of a text. */
  lemma FirstPiece(s: Bytes) returns (p: Piece, rest: Bytes)
    requires s != [] && Minified(s).Some?
    ensures s == PieceText(p) + rest && ValidPiece(p, rest) && Minified(rest).Some?
  {
    rest := s[1..];
    if s[0] in SPACES {
      p := Space(s[0]);
    } else if s[0] == SLASH && 2 <= |s| && s[1] == SLASH {
      p, rest := LinePiece(s);
    } else if s[0] == SLASH && 2 <= |s| && s[1] == STAR {
      var inside := BlockIn(rest);
      p, rest := Block(inside), CommentEnd(rest).value;
      assert s == [SLASH] + s[1..];
    } else if s[0] == QUOTE {
      p, rest := LiteralPiece(s);
    } else {
      p := Other(s[0]);
    }
  }

  lemma LinePiece(s: Bytes) returns (p: Piece, rest: Bytes)
    requires 2 <= |s| && s[0] == SLASH && s[1] == SLASH && Minified(s).Some?
    ensures s == PieceText(p) + rest && ValidPiece(p, rest) && Minified(rest).Some?
  {
    var comment := LineIn(s[2..]);
    var end := LineEnd(s[2..]);
    assert s == [SLASH, SLASH] + s[2..] && s[1..][1..] == s[2..];
    if end == [] {
      p, rest := LastLine(comment), [];
    } else {
      p, rest := Line(comment), end[1..];
      assert end == [NEWLINE] + end[1..];
    }
  }

  lemma LiteralPiece(s: Bytes) returns (p: Piece, rest: Bytes)
    requires s != [] && s[0] == QUOTE && Minified(s).Some?
    ensures s == PieceText(p) + rest && ValidPiece(p, rest) && Minified(rest).Some?
  {
    var k := ClosingQuote(s[1..]).value;
    BodyInStep(s[1..]);
    p, rest := Quoted(s[1..][..k]), s[k + 2..];
    assert s == [QUOTE] + s[1..][..k] + [QUOTE] + rest;
  }

  // ----- the whole text

  /** The text is made of these pieces. */
  ghost predicate MadeOf(s: Bytes, ps: seq<Piece>) {
    if ps == [] then s == []
    else
      && PieceText(ps[0]) <= s && ValidPiece(ps[0], s[|PieceText(ps[0])|..])
      && MadeOf(s[|PieceText(ps[0])|..], ps[1..])
  }

  function AllKept(ps: seq<Piece>): Bytes {
    if ps == [] then [] else Kept(ps[0]) + AllKept(ps[1..])
  }

  lemma {:induction false} PiecesMinified(s: Bytes, ps: seq<Piece>)
    requires MadeOf(s, ps)
    ensures Minified(s) == Some(AllKept(ps))
  {
    if ps != [] {
      var rest := s[|PieceText(ps[0])|..];
      assert s == PieceText(ps[0]) + rest;
      PiecesMinified(rest, ps[1..]);
      PieceMinified(ps[0], rest);
    }
  }

  lemma {:induction false} PiecesOf(s: Bytes) returns (ps: seq<Piece>)
    requires Minified(s).Some?
    ensures MadeOf(s, ps)
    decreases |s|
  {
    hide Minified, ValidPiece, PieceText;
    if s == [] {
      ps := [];
    } else {
      var p, rest := FirstPiece(s);
      var more := PiecesOf(rest);
      ps := [p] + more;
      assert ps[1..] == more && (PieceText(p) + rest)[|PieceText(p)|..] == rest;
    }
  }

  /** Minifying leaves exactly what the pieces of the text keep; a text that has no pieces is not closed. */
  lemma MinifiedExactly(s: Bytes, m: Bytes)
    ensures Minified(s) == Some(m) <==> exists ps :: MadeOf(s, ps) && m == AllKept(ps)
  {
    hide Minified, MadeOf;
    if Minified(s) == Some(m) {
      var ps := PiecesOf(s);
      PiecesMinified(s, ps);
    }
    forall ps | MadeOf(s, ps) ensures Minified(s) == Some(AllKept(ps)) {
      PiecesMinified(s, ps);
    }
  }
}
