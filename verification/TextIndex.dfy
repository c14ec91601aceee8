/** UTF-8 byte offsets and UTF-16 positions of one text (section 3 of RFC 3629,
    section 2.1 of RFC 2781, "Position" of the Language Server Protocol 3.17). */
module TextIndex {
  import opened Coordinates

  type Byte = b: int | 0 <= b < 0x100

  type Text = seq<Byte>

  const NEWLINE: Byte := 0x0A
  const RUNE_ERROR := 0xFFFD

  // ----- Runes -----

  /** How many bytes a rune starting with this byte has; 0 if none can. */
  function LeadSize(b: Byte): nat {
    if b < 0x80 then 1
    else if 0xC2 <= b <= 0xDF then 2
    else if 0xE0 <= b <= 0xEF then 3
    else if 0xF0 <= b <= 0xF4 then 4
    else 0
  }

  predicate Continues(b: Byte) {
    0x80 <= b <= 0xBF
  }

  /** The second byte is narrowed after E0, ED, F0 and F4. */
  predicate SecondByte(lead: Byte, b: Byte) {
    && (if lead == 0xE0 then 0xA0 else if lead == 0xF0 then 0x90 else 0x80) <= b
    && b <= (if lead == 0xED then 0x9F else if lead == 0xF4 then 0x8F else 0xBF)
  }

  /** A well-formed rune of the given size at i, within the text up to `end`. */
  predicate WellFormed(text: Text, i: nat, end: nat)
    requires i < end <= |text|
  {
    var n := LeadSize(text[i]);
    && n > 0 && i + n <= end
    && (n >= 2 ==> SecondByte(text[i], text[i + 1]))
    && (n >= 3 ==> Continues(text[i + 2]))
    && (n >= 4 ==> Continues(text[i + 3]))
  }

  /** The bits of a byte below its marker. */
  function Bits(b: Byte, marker: int): int {
    b as int - marker
  }

  /** The rune at i and its size; an ill-formed byte is one error rune. */
  function DecodeRune(text: Text, i: nat, end: nat): (r: (int, nat))
    requires i < end <= |text|
    ensures 1 <= r.1 && i + r.1 <= end
  {
    if !WellFormed(text, i, end) then (RUNE_ERROR, 1)
    else
      match LeadSize(text[i])
      case 1 => (text[i], 1)
      case 2 => (Bits(text[i], 0xC0) * 0x40 + Bits(text[i + 1], 0x80), 2)
      case 3 => (Bits(text[i], 0xE0) * 0x1000 + Bits(text[i + 1], 0x80) * 0x40 + Bits(text[i + 2], 0x80), 3)
      case _ => (Bits(text[i], 0xF0) * 0x40000 + Bits(text[i + 1], 0x80) * 0x1000 + Bits(text[i + 2], 0x80) * 0x40 +
          Bits(text[i + 3], 0x80), 4)
  }

  /** UTF-16 code units of a rune; -1 if it has no encoding. */
  function RuneLen(r: int): int {
    if 0 <= r < 0xD800 || 0xE000 <= r < 0x10000 then 1
    else if 0x10000 <= r <= 0x10FFFF then 2
    else -1
  }

  /** Decoding yields scalar values only: one unit, or two for four bytes. */
  lemma DecodedUnits(text: Text, i: nat, end: nat)
    requires i < end <= |text|
    ensures var (r, size) := DecodeRune(text, i, end);
            RuneLen(r) == if size == 4 then 2 else 1
  {
  }

  // ----- Decode boundaries -----

  function Size(text: Text, i: nat): (n: nat)
    requires i < |text|
    ensures 1 <= n && i + n <= |text|
  {
    DecodeRune(text, i, |text|).1
  }

  /** Decoding from a arrives at b. */
  predicate Chain(text: Text, a: nat, b: nat)
    requires b <= |text|
    decreases b - a
  {
    a == b || (a < b && Chain(text, a + Size(text, a), b))
  }

  predicate Boundary(text: Text, b: nat) {
    b <= |text| && Chain(text, 0, b)
  }

  /** Between boundaries, cutting the text off further right changes no rune. */
  lemma DecodeLocal(text: Text, i: nat, end: nat)
    requires i < end <= |text| && i + Size(text, i) <= end
    ensures DecodeRune(text, i, end) == DecodeRune(text, i, |text|)
  {
  }

  /** A newline is never inside a rune. */
  lemma NewlineEndsRune(text: Text, i: nat, p: nat)
    requires i <= p < |text| && text[p] == NEWLINE
    ensures i < p ==> i + Size(text, i) <= p
  {
  }

  lemma {:induction false} ChainSplit(text: Text, a: nat, b: nat, c: nat)
    requires b <= c <= |text| && Chain(text, a, b) && Chain(text, a, c)
    ensures Chain(text, b, c)
    decreases c - a
  {
    if a < b { ChainSplit(text, a + Size(text, a), b, c); }
  }

  lemma {:induction false} ChainJoin(text: Text, a: nat, b: nat, c: nat)
    requires a <= b <= c <= |text| && Chain(text, a, b) && Chain(text, b, c)
    ensures Chain(text, a, c)
    decreases b - a
  {
    if a < b {
      ChainForward(text, a + Size(text, a), b);
      ChainJoin(text, a + Size(text, a), b, c);
    }
  }

  lemma ChainForward(text: Text, a: nat, b: nat)
    requires b <= |text| && Chain(text, a, b)
    ensures a <= b
  {
  }

  lemma {:induction false} NewlineOnChain(text: Text, a: nat, p: nat)
    requires a <= p < |text| && text[p] == NEWLINE
    ensures Chain(text, a, p) && Chain(text, a, p + 1)
    decreases p - a
  {
    if a < p {
      NewlineEndsRune(text, a, p);
      NewlineOnChain(text, a + Size(text, a), p);
    }
  }

  // ----- UTF-16 units -----

  /** The UTF-16 length of the text from a up to b, decoded on its own. */
  function Units(text: Text, a: nat, b: nat): (n: nat)
    requires a <= b <= |text|
    decreases b - a
  {
    if a == b then 0
    else
      DecodedUnits(text, a, b);
      var (r, size) := DecodeRune(text, a, b);
      RuneLen(r) + Units(text, a + size, b)
  }

  lemma {:induction false} UnitsPositive(text: Text, a: nat, b: nat)
    requires a <= b <= |text|
    ensures a < b ==> Units(text, a, b) > 0
  {
    if a < b { DecodedUnits(text, a, b); }
  }

  lemma {:induction false} UnitsSplit(text: Text, a: nat, b: nat, c: nat)
    requires a <= b <= c <= |text| && Chain(text, a, b) && Chain(text, b, c)
    ensures Units(text, a, c) == Units(text, a, b) + Units(text, b, c)
    decreases b - a
  {
    hide DecodeRune, RuneLen;
    if a < b {
      ChainForward(text, a + Size(text, a), b);
      DecodeLocal(text, a, b);
      DecodeLocal(text, a, c);
      UnitsSplit(text, a + Size(text, a), b, c);
    }
  }

  // ----- Lines -----

  /** The line starts at or before offset n. */
  function LineStarts(text: Text, n: nat): (starts: seq<nat>)
    requires n <= |text|
    ensures |starts| > 0
  {
    if n == 0 then [0]
    else LineStarts(text, n - 1) + (if text[n - 1] == NEWLINE then [n] else [])
  }

  function Last(s: seq<nat>): nat
    requires s != []
  {
    s[|s| - 1]
  }

  lemma {:induction false} LineStartsBounds(text: Text, n: nat)
    requires n <= |text|
    ensures var starts := LineStarts(text, n);
            && (forall i, j :: 0 <= i < j < |starts| ==> starts[i] < starts[j])
            && (forall i :: 0 <= i < |starts| ==> starts[i] <= n)
            && starts[0] == 0
            && (forall i :: 0 < i < |starts| ==> starts[i] > 0 && text[starts[i] - 1] == NEWLINE)
            && (forall p :: Last(starts) <= p < n ==> text[p] != NEWLINE)
  {
    if n > 0 { LineStartsBounds(text, n - 1); }
  }

  /** The line starts of a longer stretch only add later ones. */
  lemma {:induction false} LineStartsPrefix(text: Text, m: nat, n: nat)
    requires m <= n <= |text|
    ensures LineStarts(text, m) <= LineStarts(text, n)
    ensures forall i :: |LineStarts(text, m)| <= i < |LineStarts(text, n)| ==> LineStarts(text, n)[i] > m
  {
    if m < n {
      LineStartsPrefix(text, m, n - 1);
    }
  }

  /** A boundary is reached by decoding from the start of its line. */
  lemma LineStartChain(text: Text, b: nat)
    requires Boundary(text, b)
    ensures var start := Last(LineStarts(text, b)); start <= b && Chain(text, 0, start) && Chain(text, start, b)
  {
    LineStartsBounds(text, b);
    var start := Last(LineStarts(text, b));
    if start > 0 { NewlineOnChain(text, 0, start - 1); }
    ChainSplit(text, 0, start, b);
  }

  // ----- The conversions -----

  function Clamp(text: Text, offset: int): nat {
    if offset < 0 then 0 else if offset > |text| then |text| else offset
  }

  /** The position of a byte offset: its line, and the units from the line start. */
  function PositionOf(text: Text, offset: int): Position {
    var b := Clamp(text, offset);
    LineStartsBounds(text, b);
    var starts := LineStarts(text, b);
    Position(|starts| - 1, Units(text, Last(starts), b))
  }

  /** Where a line ends: before its newline, or at the end of the text. */
  function LineEnd(text: Text, line: nat): (end: nat)
    requires line < |LineStarts(text, |text|)|
    ensures LineStarts(text, |text|)[line] <= end <= |text|
  {
    LineStartsBounds(text, |text|);
    var starts := LineStarts(text, |text|);
    if line + 1 < |starts| then starts[line + 1] - 1 else |text|
  }

  /** Scanning a line for the offset that is `target` units further on. */
  function ScanUnits(text: Text, offset: nat, end: nat, target: int): (r: (nat, bool))
    requires offset <= end <= |text|
    decreases end - offset
  {
    if offset == end then (end, target == 0)
    else if target == 0 then (offset, true)
    else
      DecodedUnits(text, offset, end);
      var (r, size) := DecodeRune(text, offset, end);
      if RuneLen(r) > target then (offset, false) else ScanUnits(text, offset + size, end, target - RuneLen(r))
  }

  function ByteOffsetOf(text: Text, pos: Position): (nat, bool) {
    var starts := LineStarts(text, |text|);
    if pos.line >= |starts| then (|text|, false)
    else ScanUnits(text, starts[pos.line], LineEnd(text, pos.line), pos.character)
  }

  method NewTextIndex(text: Text) returns (lineStarts: seq<nat>)
    ensures lineStarts == LineStarts(text, |text|)
  {
    lineStarts := [0];
    for i := 0 to |text|
      invariant lineStarts == LineStarts(text, i)
    {
      if text[i] == NEWLINE {
        lineStarts := lineStarts + [i + 1];
      }
    }
  }

  /** The library's binary search for the first line start beyond the offset. */
  method Search(lineStarts: seq<nat>, offset: nat) returns (r: nat)
    requires forall i, j :: 0 <= i < j < |lineStarts| ==> lineStarts[i] < lineStarts[j]
    ensures r <= |lineStarts|
    ensures forall i :: 0 <= i < |lineStarts| ==> (lineStarts[i] > offset <==> i >= r)
  {
    var i, j := 0, |lineStarts|;
    while i < j
      invariant 0 <= i <= j <= |lineStarts|
      invariant forall k :: 0 <= k < i ==> lineStarts[k] <= offset
      invariant forall k :: j <= k < |lineStarts| ==> lineStarts[k] > offset
    {
      var h := (i + j) / 2;
      if lineStarts[h] <= offset {
        i := h + 1;
      } else {
        j := h;
      }
    }
    return i;
  }

  method Utf16Length(text: Text, a: nat, b: nat) returns (length: int)
    requires a <= b <= |text|
    ensures length == Units(text, a, b)
  {
    length := 0;
    var i := a;
    while i < b
      invariant a <= i <= b && length + Units(text, i, b) == Units(text, a, b)
    {
      var (r, size) := DecodeRune(text, i, b);
      length := length + RuneLen(r);
      i := i + size;
    }
  }

  method PositionAt(text: Text, lineStarts: seq<nat>, byteOffset: int) returns (pos: Position)
    requires lineStarts == LineStarts(text, |text|)
    ensures pos == PositionOf(text, byteOffset)
  {
    var b := Clamp(text, byteOffset);
    LineStartsBounds(text, |text|);
    LineStartsBounds(text, b);
    LineStartsPrefix(text, b, |text|);
    var next := Search(lineStarts, b);
    var n := |LineStarts(text, b)|;
    assert lineStarts[n - 1] == LineStarts(text, b)[n - 1] <= b;
    assert n < |lineStarts| ==> lineStarts[n] > b;
    var lineStart := lineStarts[next - 1];
    var units := Utf16Length(text, lineStart, b);
    pos := Position(next - 1, units);
  }

  method ByteOffset(text: Text, lineStarts: seq<nat>, pos: Position) returns (offset: nat, ok: bool)
    requires lineStarts == LineStarts(text, |text|)
    ensures (offset, ok) == ByteOffsetOf(text, pos)
  {
    if pos.line >= |lineStarts| {
      return |text|, false;
    }
    var end := LineEnd(text, pos.line);
    var target := pos.character;
    var units := 0;
    offset := lineStarts[pos.line];
    while offset < end
      invariant offset <= end && units <= target
      invariant ScanUnits(text, offset, end, target - units) == ByteOffsetOf(text, pos)
      decreases end - offset
    {
      if units == target {
        return offset, true;
      }
      DecodedUnits(text, offset, end);
      var (r, size) := DecodeRune(text, offset, end);
      if units + RuneLen(r) > target {
        return offset, false;
      }
      units := units + RuneLen(r);
      offset := offset + size;
    }
    return end, units == target;
  }

  // ----- Order -----

  /** Positions of decode boundaries are ordered as the boundaries are. */
  lemma PositionOrder(text: Text, b: nat, c: nat)
    requires Boundary(text, b) && Boundary(text, c) && b < c
    ensures Before(PositionOf(text, b), PositionOf(text, c))
  {
    LineStartsPrefix(text, b, c);
    LineStartsBounds(text, b);
    LineStartsBounds(text, c);
    if |LineStarts(text, b)| == |LineStarts(text, c)| {
      LineStartChain(text, b);
      LineStartChain(text, c);
      var start := Last(LineStarts(text, b));
      ChainSplit(text, start, b, c);
      UnitsSplit(text, start, b, c);
      UnitsPositive(text, b, c);
    }
  }

  lemma PositionOrderIff(text: Text, b: nat, c: nat)
    requires Boundary(text, b) && Boundary(text, c)
    ensures Before(PositionOf(text, b), PositionOf(text, c)) <==> b < c
    ensures AtOrBefore(PositionOf(text, b), PositionOf(text, c)) <==> b <= c
    ensures PositionOf(text, b) == PositionOf(text, c) <==> b == c
  {
    if b < c { PositionOrder(text, b, c); }
    if c < b { PositionOrder(text, c, b); }
  }

  function RangeOf(text: Text, start: int, end: int): Range {
    Range(PositionOf(text, start), PositionOf(text, end))
  }

  /** Containment, overlap and membership of converted ranges are those of the
      byte intervals. */
  lemma RangesAreIntervals(text: Text, a: nat, b: nat, c: nat, d: nat)
    requires Boundary(text, a) && Boundary(text, b) && Boundary(text, c) && Boundary(text, d)
    ensures RangeContains(RangeOf(text, a, b), RangeOf(text, c, d)) <==> a <= c && d <= b
    ensures RangesOverlap(RangeOf(text, a, b), RangeOf(text, c, d)) <==> a < d && c < b
    ensures RangeIncludesPosition(RangeOf(text, a, b), PositionOf(text, c)) <==> a <= c <= b
    ensures RangeOf(text, a, b) == RangeOf(text, c, d) <==> a == c && b == d
  {
    PositionOrderIff(text, a, c);
    PositionOrderIff(text, d, b);
    PositionOrderIff(text, a, d);
    PositionOrderIff(text, c, b);
  }

  // ----- Round trips -----

  /** Cutting the text off at a newline or at its end splits no rune. */
  predicate SafeEnd(text: Text, end: nat) {
    end <= |text| && (end == |text| || text[end] == NEWLINE)
  }

  lemma LineEndSafe(text: Text, line: nat)
    requires line < |LineStarts(text, |text|)|
    ensures SafeEnd(text, LineEnd(text, line))
  {
    LineStartsBounds(text, |text|);
  }

  lemma SafeDecode(text: Text, i: nat, end: nat)
    requires i < end && SafeEnd(text, end)
    ensures i + Size(text, i) <= end && DecodeRune(text, i, end) == DecodeRune(text, i, |text|)
  {
    if end < |text| { NewlineEndsRune(text, i, end); }
    DecodeLocal(text, i, end);
  }

  lemma {:induction false} ScanFinds(text: Text, offset: nat, b: nat, end: nat)
    requires b <= end && SafeEnd(text, end) && Chain(text, offset, b)
    ensures offset <= b && ScanUnits(text, offset, end, Units(text, offset, b)) == (b, true)
    decreases b - offset
  {
    if offset < b {
      SafeDecode(text, offset, end);
      ChainForward(text, offset + Size(text, offset), b);
      DecodeLocal(text, offset, b);
      DecodedUnits(text, offset, end);
      ScanFinds(text, offset + Size(text, offset), b, end);
    }
  }

  lemma {:induction false} ScanSound(text: Text, offset: nat, end: nat, target: nat)
    requires offset <= end && SafeEnd(text, end)
    ensures var (o, ok) := ScanUnits(text, offset, end, target);
            && offset <= o <= end && Chain(text, offset, o)
            && (ok ==> Units(text, offset, o) == target)
            && (!ok ==> Units(text, offset, o) < target
                        && (o < end ==> Units(text, offset, o) + RuneLen(DecodeRune(text, o, |text|).0) > target))
    decreases end - offset
  {
    hide DecodeRune, RuneLen;
    if offset < end && target > 0 {
      SafeDecode(text, offset, end);
      DecodedUnits(text, offset, end);
      var (r, size) := DecodeRune(text, offset, end);
      if RuneLen(r) <= target {
        ScanSound(text, offset + size, end, target - RuneLen(r));
        var o := ScanUnits(text, offset, end, target).0;
        DecodeLocal(text, offset, o);
      }
    }
  }

  /** The line of an offset is the one whose bounds hold it. */
  lemma LineOf(text: Text, line: nat, o: nat)
    requires line < |LineStarts(text, |text|)| && LineStarts(text, |text|)[line] <= o <= LineEnd(text, line)
    ensures |LineStarts(text, o)| == line + 1 && Last(LineStarts(text, o)) == LineStarts(text, |text|)[line]
  {
    LineStartsBounds(text, |text|);
    LineStartsBounds(text, o);
    LineStartsPrefix(text, o, |text|);
    var starts, n := LineStarts(text, |text|), |LineStarts(text, o)|;
    assert forall k :: 0 <= k < n ==> starts[k] == LineStarts(text, o)[k];
    assert forall k :: 0 <= k < |starts| ==> (starts[k] <= o <==> k < n);
  }

  /** Every decode boundary comes back from its position. */
  lemma PositionRoundTrip(text: Text, b: nat)
    requires Boundary(text, b)
    ensures ByteOffsetOf(text, PositionOf(text, b)) == (b, true)
  {
    var line := |LineStarts(text, b)| - 1;
    LineStartsBounds(text, b);
    LineStartsBounds(text, |text|);
    LineStartsPrefix(text, b, |text|);
    assert LineStarts(text, |text|)[line] == Last(LineStarts(text, b));
    assert b <= LineEnd(text, line);
    LineEndSafe(text, line);
    LineStartChain(text, b);
    ScanFinds(text, Last(LineStarts(text, b)), b, LineEnd(text, line));
  }

  /** Every position that is accepted comes back from its offset, which is a
      decode boundary. */
  lemma OffsetRoundTrip(text: Text, pos: Position)
    requires ByteOffsetOf(text, pos).1
    ensures Boundary(text, ByteOffsetOf(text, pos).0) && PositionOf(text, ByteOffsetOf(text, pos).0) == pos
  {
    var start, end := LineStarts(text, |text|)[pos.line], LineEnd(text, pos.line);
    LineEndSafe(text, pos.line);
    ScanSound(text, start, end, pos.character);
    var o := ByteOffsetOf(text, pos).0;
    LineOf(text, pos.line, o);
    LineStartsBounds(text, |text|);
    if start > 0 { NewlineOnChain(text, 0, start - 1); }
    ChainJoin(text, 0, start, o);
  }

  /** A position is accepted exactly when it is the position of a decode boundary. */
  lemma AcceptedIff(text: Text, pos: Position)
    ensures ByteOffsetOf(text, pos).1 <==> exists b: nat :: Boundary(text, b) && PositionOf(text, b) == pos
  {
    if ByteOffsetOf(text, pos).1 { OffsetRoundTrip(text, pos); }
    if b: nat :| Boundary(text, b) && PositionOf(text, b) == pos { PositionRoundTrip(text, b); }
  }

  /** A rejected position on an existing line yields the last decode boundary
      before it: the start of the surrogate pair it splits, or the line's end. */
  lemma RejectedOffset(text: Text, pos: Position, b: nat)
    requires !ByteOffsetOf(text, pos).1 && pos.line < |LineStarts(text, |text|)|
    ensures var o := ByteOffsetOf(text, pos).0;
            && Boundary(text, o) && Before(PositionOf(text, o), pos)
            && (Boundary(text, b) && o < b ==> Before(pos, PositionOf(text, b)))
  {
    hide DecodeRune, LineStarts, ScanUnits, Units, Chain;
    var start, end := LineStarts(text, |text|)[pos.line], LineEnd(text, pos.line);
    LineEndSafe(text, pos.line);
    ScanSound(text, start, end, pos.character);
    var o := ByteOffsetOf(text, pos).0;
    LineOf(text, pos.line, o);
    LineStartsBounds(text, |text|);
    if start > 0 { NewlineOnChain(text, 0, start - 1); }
    ChainJoin(text, 0, start, o);
    if Boundary(text, b) && o < b {
      BeyondRejected(text, pos, b, start, end, o);
    }
  }

  lemma BeyondRejected(text: Text, pos: Position, b: nat, start: nat, end: nat, o: nat)
    requires pos.line < |LineStarts(text, |text|)| && start == LineStarts(text, |text|)[pos.line] &&
             end == LineEnd(text, pos.line)
    requires start <= o <= end && Chain(text, start, o) && Boundary(text, o) && Boundary(text, b) && o < b
    requires o < end ==> Units(text, start, o) + RuneLen(DecodeRune(text, o, |text|).0) > pos.character
    ensures Before(pos, PositionOf(text, b))
  {
    hide DecodeRune, LineStarts, Chain;
    LineStartsBounds(text, |text|);
    LineStartsBounds(text, b);
    LineStartsPrefix(text, b, |text|);
    if b <= end {
      LineOf(text, pos.line, b);
      ChainSplit(text, 0, o, b);
      UnitsSplit(text, start, o, b);
      ChainForward(text, o + Size(text, o), b);
      DecodeLocal(text, o, b);
    } else {
      LineStartsPrefix(text, end, b);
      LineOf(text, pos.line, end);
      assert pos.line + 1 < |LineStarts(text, |text|)|;
      assert LineStarts(text, |text|)[pos.line + 1] <= b;
    }
  }

  // ----- Single-line ranges -----

  /** The range on its line, unless the interval is malformed or the positions
      are on different lines or out of order. */
  function SingleLineOf(text: Text, start: int, end: int): Option<(nat, nat, nat)> {
    var r := RangeOf(text, start, end);
    if start < 0 || end < start || end > |text| || r.start.line != r.end.line || r.start.character > r.end.character
       then None
    else Some((r.start.line, r.start.character, r.end.character - r.start.character))
  }

  method SingleLineUTF16Range(text: Text, lineStarts: seq<nat>, start: int, end: int)
    returns (line: nat, character: nat, length: nat, ok: bool)
    requires lineStarts == LineStarts(text, |text|)
    ensures SingleLineOf(text, start, end) == if ok then Some((line, character, length)) else None
  {
    if start < 0 || end < start || end > |text| {
      return 0, 0, 0, false;
    }
    var from := PositionAt(text, lineStarts, start);
    var to := PositionAt(text, lineStarts, end);
    if from.line != to.line || ComparePosition(from, to) > 0 {
      return 0, 0, 0, false;
    }
    return from.line, from.character, to.character - from.character, true;
  }

  /** Between decode boundaries a single-line range exists exactly when the bytes
      hold no newline, and its length is the UTF-16 length of the bytes. */
  lemma SingleLineIff(text: Text, start: nat, end: nat)
    requires Boundary(text, start) && Boundary(text, end) && start <= end
    ensures SingleLineOf(text, start, end) ==
            if NEWLINE in text[start..end] then None
            else Some((PositionOf(text, start).line, PositionOf(text, start).character, Units(text, start, end)))
  {
    hide DecodeRune, Units, Chain, LineStarts, WellFormed;
    LineStartsPrefix(text, start, end);
    LineStartsBounds(text, start);
    LineStartsBounds(text, end);
    var before, after := LineStarts(text, start), LineStarts(text, end);
    if |before| == |after| {
      assert forall p :: start <= p < end ==> text[p] != NEWLINE;
      LineStartChain(text, start);
      LineStartChain(text, end);
      ChainSplit(text, Last(before), start, end);
      UnitsSplit(text, Last(before), start, end);
    } else {
      var p := after[|before|] - 1;
      assert text[p] == NEWLINE && text[start..end][p - start] == NEWLINE;
    }
  }
}
