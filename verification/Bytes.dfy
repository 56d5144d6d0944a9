/**
  Bytes and C strings, the vocabulary shared by every text-handling module.
  A C string is modelled by the bytes in front of its terminating NUL.
 */
module Bytes {

  type byte = b: int | 0 <= b < 256

  type Bytes = seq<byte>

  datatype Option<+T> = None | Some(value: T)

  /** The outcome of reading a value off the front of a text, with the text behind it. */
  datatype Parsed<+T> = Failed | Read(value: T, rest: Bytes)

  const NUL: byte := 0
  const BACKSPACE: byte := 8
  const TAB: byte := 9
  const NEWLINE: byte := 10
  const FORM_FEED: byte := 12
  const RETURN: byte := 13
  const SPACE: byte := 32
  const QUOTE: byte := 34
  const STAR: byte := 42
  const PLUS: byte := 43
  const COMMA: byte := 44
  const MINUS: byte := 45
  const POINT: byte := 46
  const SLASH: byte := 47
  const DIGIT_0: byte := 48
  const DIGIT_9: byte := 57
  const COLON: byte := 58
  const UPPER_A: byte := 65
  const UPPER_E: byte := 69
  const UPPER_F: byte := 70
  const LEFT_BRACKET: byte := 91
  const BACKSLASH: byte := 92
  const RIGHT_BRACKET: byte := 93
  const LOWER_A: byte := 97
  const LOWER_B: byte := 98
  const LOWER_E: byte := 101
  const LOWER_F: byte := 102
  const LOWER_N: byte := 110
  const LOWER_R: byte := 114
  const LOWER_T: byte := 116
  const LOWER_U: byte := 117
  const LEFT_BRACE: byte := 123
  const RIGHT_BRACE: byte := 125

  /** The codes of a text of ASCII characters. */
  function Ascii(s: string): (b: Bytes)
    ensures |b| == |s|
  {
    seq(|s|, i requires 0 <= i < |s| => s[i] as int % 256)
  }

  /** The names stand for the characters they say. */
  lemma Characters()
    ensures [TAB, NEWLINE, RETURN, SPACE, QUOTE, STAR, PLUS, COMMA, MINUS, POINT, SLASH, DIGIT_0, DIGIT_9, COLON]
         == Ascii("\t\n\r \"*+,-./09:")
    ensures [UPPER_A, UPPER_E, UPPER_F, LEFT_BRACKET, BACKSLASH, RIGHT_BRACKET, LEFT_BRACE, RIGHT_BRACE]
         == Ascii("AEF[\\]{}")
    ensures [LOWER_A, LOWER_B, LOWER_E, LOWER_F, LOWER_N, LOWER_R, LOWER_T, LOWER_U] == Ascii("abefnrtu")
  {
  }

  /** INT_MAX, the largest size the printer accepts. */
  const INT_MAX: int := 0x7FFF_FFFF

  /** What a reader of the NUL-terminated buffer `s + [NUL]` sees as the string. */
  function CString(s: Bytes): (r: Bytes)
    ensures NUL !in r && r <= s
    ensures |r| < |s| ==> s[|r|] == NUL
  {
    if s == [] || s[0] == NUL then []
    else
      var rest := CString(s[1..]);
      [s[0]] + rest
  }

  lemma {:induction false} CStringWhole(s: Bytes)
    requires NUL !in s
    ensures CString(s) == s
  {
    if s != [] {
      CStringWhole(s[1..]);
    }
  }

  lemma Associative(a: Bytes, b: Bytes, c: Bytes)
    ensures a + (b + c) == (a + b) + c
  {
  }
}
