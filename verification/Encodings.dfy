/** Positions by characters: the encodings of scalar values in UTF-8 (section 3 of RFC 3629)
    and in UTF-16 (section 2.1 of RFC 2781), and what a text index says of an encoded text. */
module Encodings {
  import opened Coordinates
  import opened TextIndex

  type Scalar = s: int | 0 <= s < 0xD800 || 0xE000 <= s < 0x110000

  /** The bytes of a scalar value, six bits to each byte after the first. */
  ghost function Utf8(s: Scalar): (bytes: Text)
    ensures 1 <= |bytes| <= 4
  {
    if s < 0x80 then [s]
    else if s < 0x800 then [0xC0 + s / 0x40, 0x80 + s % 0x40]
    else if s < 0x1_0000 then [0xE0 + s / 0x1000, 0x80 + s / 0x40 % 0x40, 0x80 + s % 0x40]
    else [0xF0 + s / 0x4_0000, 0x80 + s / 0x1000 % 0x40, 0x80 + s / 0x40 % 0x40, 0x80 + s % 0x40]
  }

  /** The code units of a scalar value: itself, or a high and a low surrogate. */
  ghost function Utf16(s: Scalar): seq<nat> {
    if s < 0x1_0000 then [s] else [0xD800 + (s - 0x1_0000) / 0x400, 0xDC00 + (s - 0x1_0000) % 0x400]
  }

  /** The text holds the bytes of the scalar value from i on, before `end`. */
  ghost predicate Holds(text: Text, i: nat, end: nat, s: Scalar)
    requires end <= |text|
  {
    i + |Utf8(s)| <= end && text[i..i + |Utf8(s)|] == Utf8(s)
  }

  lemma HeldBytes(text: Text, i: nat, end: nat, s: Scalar)
    requires i < end <= |text| && Holds(text, i, end, s)
    ensures forall k :: 0 <= k < |Utf8(s)| ==> text[i + k] == Utf8(s)[k]
  {
    forall k | 0 <= k < |Utf8(s)| ensures text[i + k] == Utf8(s)[k] { assert text[i..i + |Utf8(s)|][k] == text[i + k]; }
  }

  /** Six bits at a time. */
  lemma Digits(s: nat)
    ensures s == s / 0x40 * 0x40 + s % 0x40
    ensures s / 0x1000 == s / 0x40 / 0x40 && s / 0x4_0000 == s / 0x1000 / 0x40
  {}

  /** The encoding of a scalar value is well formed, and its bits make up the value. */
  lemma WellEncoded(s: Scalar)
    ensures var b := Utf8(s);
            && |b| == LeadSize(b[0])
            && (|b| >= 2 ==> SecondByte(b[0], b[1])) && (|b| >= 3 ==> Continues(b[2])) && (|b| >= 4 ==> Continues(b[3]))
  {
    Digits(s);
    Digits(s / 0x40);
  }

  lemma EncodedBits(s: Scalar)
    ensures var b := Utf8(s);
            && (|b| == 1 ==> s == b[0])
            && (|b| == 2 ==> s == Bits(b[0], 0xC0) * 0x40 + Bits(b[1], 0x80))
            && (|b| == 3 ==> s == Bits(b[0], 0xE0) * 0x1000 + Bits(b[1], 0x80) * 0x40 + Bits(b[2], 0x80))
            && (|b| == 4 ==> s == Bits(b[0], 0xF0) * 0x4_0000 + Bits(b[1], 0x80) * 0x1000
                               + Bits(b[2], 0x80) * 0x40 + Bits(b[3], 0x80))
  {
    Digits(s);
    Digits(s / 0x40);
    Digits(s / 0x1000);
  }

  /** The scalar value that the encoding holds is what decoding yields, with its size. */
  lemma DecodesScalar(text: Text, i: nat, end: nat, s: Scalar)
    requires i < end <= |text| && Holds(text, i, end, s)
    ensures DecodeRune(text, i, end) == (s, |Utf8(s)|)
  {
    hide Utf8, LeadSize, SecondByte, Continues, Bits;
    HeldBytes(text, i, end, s);
    WellEncoded(s);
    EncodedBits(s);
    LeadSizes(text[i]);
    assert text[i] == Utf8(s)[0];
  }

  lemma LeadSizes(b: Byte)
    ensures LeadSize(b) <= 4
  {}

  lemma Digit(q: nat, d: nat)
    requires d < 0x40
    ensures (q * 0x40 + d) / 0x40 == q && (q * 0x40 + d) % 0x40 == d
  {}

  lemma TwoBytes(a: Byte, b: Byte)
    requires 0xC2 <= a <= 0xDF && Continues(b)
    ensures var r := Bits(a, 0xC0) * 0x40 + Bits(b, 0x80); 0x80 <= r < 0x800 && Utf8(r) == [a, b]
  {
    Digit(Bits(a, 0xC0), Bits(b, 0x80));
  }

  lemma ThreeBytes(a: Byte, b: Byte, c: Byte)
    requires 0xE0 <= a <= 0xEF && Continues(b) && SecondByte(a, b) && Continues(c)
    ensures var r := Bits(a, 0xE0) * 0x1000 + Bits(b, 0x80) * 0x40 + Bits(c, 0x80);
            0x800 <= r < 0x1_0000 && !(0xD800 <= r < 0xE000) && Utf8(r) == [a, b, c]
  {
    var high := Bits(a, 0xE0) * 0x40 + Bits(b, 0x80);
    Digit(Bits(a, 0xE0), Bits(b, 0x80));
    Digit(high, Bits(c, 0x80));
    Digits(high * 0x40 + Bits(c, 0x80));
  }

  lemma FourBytes(a: Byte, b: Byte, c: Byte, d: Byte)
    requires 0xF0 <= a <= 0xF4 && Continues(b) && SecondByte(a, b) && Continues(c) && Continues(d)
    ensures var r := Bits(a, 0xF0) * 0x4_0000 + Bits(b, 0x80) * 0x1000 + Bits(c, 0x80) * 0x40 + Bits(d, 0x80);
            0x1_0000 <= r < 0x11_0000 && Utf8(r) == [a, b, c, d]
  {
    var top := Bits(a, 0xF0) * 0x40 + Bits(b, 0x80);
    var high := top * 0x40 + Bits(c, 0x80);
    Digit(Bits(a, 0xF0), Bits(b, 0x80));
    Digit(top, Bits(c, 0x80));
    Digit(high, Bits(d, 0x80));
    Digits(high * 0x40 + Bits(d, 0x80));
  }

  /** What a well-formed rune decodes to is a scalar value, and its bytes are the encoding of it. */
  lemma WellFormedHolds(text: Text, i: nat, end: nat)
    requires i < end <= |text| && WellFormed(text, i, end)
    ensures var (r, n) := DecodeRune(text, i, end);
            0 <= r < 0x11_0000 && !(0xD800 <= r < 0xE000) && Holds(text, i, end, r) && n == |Utf8(r)|
  {
    var (r, n) := DecodeRune(text, i, end);
    if n == 2 {
      TwoBytes(text[i], text[i + 1]);
    } else if n == 3 {
      ThreeBytes(text[i], text[i + 1], text[i + 2]);
    } else if n == 4 {
      FourBytes(text[i], text[i + 1], text[i + 2], text[i + 3]);
    }
    hide Utf8, Bits;
    WrittenOut(text, i, n);
  }

  lemma WrittenOut(text: Text, i: nat, n: nat)
    requires i + n <= |text| && n <= 4
    ensures text[i..i + n] == if n == 0 then [] else if n == 1 then [text[i]] else if n == 2 then [text[i], text[i + 1]]
                              else if n == 3 then [text[i], text[i + 1], text[i + 2]]
                              else [text[i], text[i + 1], text[i + 2], text[i + 3]]
  {}

  /** Decoding at i: the scalar value whose encoding stands there, or one error rune. */
  lemma DecodeIff(text: Text, i: nat, end: nat, r: int, n: nat)
    requires i < end <= |text|
    ensures DecodeRune(text, i, end) == (r, n) <==>
            || (exists s: Scalar :: Holds(text, i, end, s) && r == s && n == |Utf8(s)|)
            || (r == 0xFFFD && n == 1 && forall s: Scalar :: !Holds(text, i, end, s))
  {
    if WellFormed(text, i, end) { WellFormedHolds(text, i, end); }
    forall s: Scalar | Holds(text, i, end, s) ensures DecodeRune(text, i, end) == (s, |Utf8(s)|) {
      DecodesScalar(text, i, end, s);
    }
    hide Utf8, Holds;
    if (forall s: Scalar :: !Holds(text, i, end, s)) { assert !WellFormed(text, i, end); }
  }

  /** A scalar value counts as many units as its encoding has, any other number none. */
  lemma UnitsOfScalar(r: int)
    ensures RuneLen(r) == if 0 <= r < 0xD800 || 0xE000 <= r < 0x11_0000 then |Utf16(r)| else -1
  {}

  // ----- Encoded characters -----

  /** The bytes of the first n characters. */
  ghost function Encoded(chars: seq<Scalar>, n: nat): Text
    requires n <= |chars|
  {
    if n == 0 then [] else Encoded(chars, n - 1) + Utf8(chars[n - 1])
  }

  /** The UTF-16 length of the characters from m up to n. */
  ghost function Length16(chars: seq<Scalar>, m: nat, n: nat): nat
    requires n <= |chars|
  {
    if n <= m then 0 else Length16(chars, m, n - 1) + |Utf16(chars[n - 1])|
  }

  ghost function Newlines(chars: seq<Scalar>, n: nat): nat
    requires n <= |chars|
  {
    if n == 0 then 0 else Newlines(chars, n - 1) + if chars[n - 1] == 0x0A then 1 else 0
  }

  lemma {:induction false} EncodedPrefix(chars: seq<Scalar>, m: nat, n: nat)
    requires m <= n <= |chars|
    ensures Encoded(chars, m) <= Encoded(chars, n)
    decreases n
  {
    hide Utf8;
    if m < n { EncodedPrefix(chars, m, n - 1); }
  }

  /** Each character stands after the bytes of those before it. */
  lemma CharacterHeld(chars: seq<Scalar>, k: nat, n: nat)
    requires k < n <= |chars|
    ensures var i := |Encoded(chars, k)|;
            && |Encoded(chars, k + 1)| == i + |Utf8(chars[k])| <= |Encoded(chars, n)|
            && Holds(Encoded(chars, n), i, i + |Utf8(chars[k])|, chars[k])
  {
    hide Utf8;
    EncodedPrefix(chars, k + 1, n);
    var text, i := Encoded(chars, n), |Encoded(chars, k)|;
    assert text[..i + |Utf8(chars[k])|] == Encoded(chars, k) + Utf8(chars[k]);
    assert text[i..i + |Utf8(chars[k])|] == text[..i + |Utf8(chars[k])|][i..];
  }

  lemma CharacterDecodes(chars: seq<Scalar>, k: nat)
    requires k < |chars|
    ensures var text, i := Encoded(chars, |chars|), |Encoded(chars, k)|;
            var end := i + |Utf8(chars[k])|;
            && |Encoded(chars, k + 1)| == end <= |text|
            && DecodeRune(text, i, end) == DecodeRune(text, i, |text|) == (chars[k], |Utf8(chars[k])|)
  {
    hide Utf8, Encoded, DecodeRune;
    CharacterHeld(chars, k, |chars|);
    var text, i := Encoded(chars, |chars|), |Encoded(chars, k)|;
    DecodesScalar(text, i, i + |Utf8(chars[k])|, chars[k]);
    DecodesScalar(text, i, |text|, chars[k]);
  }

  /** Decoding goes from character to character. */
  lemma {:induction false} CharactersChain(chars: seq<Scalar>, m: nat, n: nat)
    requires m <= n <= |chars|
    ensures var text := Encoded(chars, |chars|);
            && |Encoded(chars, m)| <= |Encoded(chars, n)| <= |text|
            && Chain(text, |Encoded(chars, m)|, |Encoded(chars, n)|)
    decreases n - m
  {
    hide Utf8, Encoded, DecodeRune;
    EncodedPrefix(chars, n, |chars|);
    EncodedPrefix(chars, m, n);
    if m < n {
      CharactersChain(chars, m + 1, n);
      CharacterDecodes(chars, m);
    }
  }

  lemma CharacterUnit(chars: seq<Scalar>, k: nat)
    requires k < |chars|
    ensures var text := Encoded(chars, |chars|);
            |Encoded(chars, k)| <= |Encoded(chars, k + 1)| <= |text| &&
            Units(text, |Encoded(chars, k)|, |Encoded(chars, k + 1)|) == |Utf16(chars[k])|
  {
    hide Utf8, Utf16, Encoded, DecodeRune, RuneLen;
    CharacterDecodes(chars, k);
    UnitsOfScalar(chars[k]);
  }

  lemma {:induction false} CharacterUnits(chars: seq<Scalar>, m: nat, n: nat)
    requires m <= n <= |chars|
    ensures |Encoded(chars, m)| <= |Encoded(chars, n)| <= |Encoded(chars, |chars|)|
    ensures Units(Encoded(chars, |chars|), |Encoded(chars, m)|, |Encoded(chars, n)|) == Length16(chars, m, n)
    decreases n
  {
    hide Utf8, Utf16, Encoded, DecodeRune, RuneLen, Chain;
    EncodedPrefix(chars, n, |chars|);
    EncodedPrefix(chars, m, n);
    if m < n {
      CharacterUnits(chars, m, n - 1);
      CharactersChain(chars, m, n - 1);
      CharactersChain(chars, n - 1, n);
      CharacterUnit(chars, n - 1);
      UnitsSplit(Encoded(chars, |chars|), |Encoded(chars, m)|, |Encoded(chars, n - 1)|, |Encoded(chars, n)|);
    }
  }

  lemma {:induction false} NoLineStarts(text: Text, a: nat, b: nat)
    requires a <= b <= |text| && NEWLINE !in text[a..b]
    ensures LineStarts(text, b) == LineStarts(text, a)
    decreases b
  {
    if a < b {
      assert text[a..b][b - 1 - a] == text[b - 1];
      assert text[a..b] == text[a..b - 1] + [text[b - 1]];
      NoLineStarts(text, a, b - 1);
    }
  }

  lemma NewlineBytes(s: Scalar)
    ensures s == 0x0A ==> Utf8(s) == [NEWLINE]
    ensures s != 0x0A ==> NEWLINE !in Utf8(s)
  {}

  /** A newline character adds a line start, any other none. */
  lemma LineStep(chars: seq<Scalar>, k: nat)
    requires k < |chars|
    ensures var text, i, end := Encoded(chars, |chars|), |Encoded(chars, k)|, |Encoded(chars, k + 1)|;
            i <= end <= |text| &&
            LineStarts(text, end) == LineStarts(text, i) + if chars[k] == 0x0A then [end] else []
  {
    hide Utf8, Encoded;
    var text, s, i := Encoded(chars, |chars|), chars[k], |Encoded(chars, k)|;
    CharacterHeld(chars, k, |chars|);
    NewlineBytes(s);
    if s == 0x0A {
      assert text[i..i + 1][0] == text[i];
    } else {
      NoLineStarts(text, i, |Encoded(chars, k + 1)|);
    }
  }

  lemma NoCharacters(chars: seq<Scalar>)
    ensures |Encoded(chars, 0)| == 0 && LineStarts(Encoded(chars, |chars|), 0) == [0]
  {}

  /** The first line starts at 0, every other after a newline character. */
  lemma {:induction false} CharacterLines(chars: seq<Scalar>, m: nat, n: nat)
    requires m <= n <= |chars| && (m == 0 || chars[m - 1] == 0x0A) && forall j :: m <= j < n ==> chars[j] != 0x0A
    ensures |Encoded(chars, n)| <= |Encoded(chars, |chars|)|
    ensures var starts := LineStarts(Encoded(chars, |chars|), |Encoded(chars, n)|);
            |starts| == Newlines(chars, n) + 1 && Last(starts) == |Encoded(chars, m)|
    decreases n
  {
    hide Utf8, Encoded, LineStarts;
    EncodedPrefix(chars, n, |chars|);
    if n > 0 {
      LineStep(chars, n - 1);
      if chars[n - 1] == 0x0A {
        var h := LastHead(chars, n - 1);
        CharacterLines(chars, h, n - 1);
      } else {
        CharacterLines(chars, m, n - 1);
      }
    } else {
      NoCharacters(chars);
    }
  }

  lemma {:induction false} LastHead(chars: seq<Scalar>, n: nat) returns (m: nat)
    requires n <= |chars|
    ensures m <= n && (m == 0 || chars[m - 1] == 0x0A) && forall j :: m <= j < n ==> chars[j] != 0x0A
  {
    if n == 0 || chars[n - 1] == 0x0A { m := n; } else { m := LastHead(chars, n - 1); }
  }

  /** In an encoded text the position of a character is its line, the number of newline
      characters before it, and the UTF-16 length of what precedes it on that line. */
  lemma PositionOfCharacter(chars: seq<Scalar>, m: nat, n: nat)
    requires m <= n <= |chars| && (m == 0 || chars[m - 1] == 0x0A) && forall j :: m <= j < n ==> chars[j] != 0x0A
    ensures Boundary(Encoded(chars, |chars|), |Encoded(chars, n)|)
    ensures PositionOf(Encoded(chars, |chars|), |Encoded(chars, n)|) ==
            Position(Newlines(chars, n), Length16(chars, m, n))
  {
    hide Utf8, Utf16, DecodeRune, LineStarts, Units, Length16, Newlines, Chain;
    CharactersChain(chars, 0, n);
    CharacterLines(chars, m, n);
    CharacterUnits(chars, m, n);
    NoCharacters(chars);
  }

  /** The boundaries of an encoded text are where its characters begin and end. */
  lemma BoundaryIff(chars: seq<Scalar>, b: nat)
    ensures Boundary(Encoded(chars, |chars|), b) <==> exists n: nat :: n <= |chars| && b == |Encoded(chars, n)|
  {
    if n: nat :| n <= |chars| && b == |Encoded(chars, n)| { CharactersChain(chars, 0, n); }
    if Boundary(Encoded(chars, |chars|), b) {
      var n := ChainStops(chars, 0, b);
    }
  }

  lemma {:induction false} ChainStops(chars: seq<Scalar>, m: nat, b: nat) returns (n: nat)
    requires m <= |chars| && b <= |Encoded(chars, |chars|)|
    requires Chain(Encoded(chars, |chars|), |Encoded(chars, m)|, b)
    ensures n <= |chars| && b == |Encoded(chars, n)|
    decreases |chars| - m
  {
    hide Utf8, Encoded, DecodeRune;
    if b == |Encoded(chars, m)| {
      n := m;
    } else {
      CharacterDecodes(chars, m);
      n := ChainStops(chars, m + 1, b);
    }
  }

  /** An offset outside the text counts as its nearest end. */
  lemma OutsideIsNearest(text: Text, offset: int)
    ensures offset <= 0 ==> PositionOf(text, offset) == Position(0, 0)
    ensures offset >= |text| ==> PositionOf(text, offset) == PositionOf(text, |text|)
    ensures 0 <= offset <= |text| ==> PositionOf(text, offset).line + 1 == |LineStarts(text, offset)|
  {}
}
