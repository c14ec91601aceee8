/** The integer encoding of semantic tokens (Language Server Protocol 3.17,
    "Semantic Tokens", "Integer Encoding for Tokens"), in 32-bit arithmetic. */
module SemanticTokens {
  import opened Coordinates
  import opened Sorting

  const WORD := 0x1_0000_0000

  type U32 = x: int | 0 <= x < WORD

  /** Unsigned 32-bit wrap-around. */
  function Wrap(x: int): U32 {
    x % WORD
  }

  lemma WrapDifference(a: U32, b: U32)
    ensures Wrap(a + Wrap(b - a)) == b
    ensures Wrap(b - a) == 0 <==> a == b
  {
    if b < a { assert (b - a) % WORD == b - a + WORD; }
  }

  lemma WrapWord(a: U32)
    ensures Wrap(a) == a
  {}

  // ----- Decoding -----

  datatype Token = Token(line: U32, character: U32, length: U32, kind: U32, modifiers: U32)

  /** The cursor after one group of five numbers. */
  function Advance(line: U32, character: U32, deltaLine: U32, deltaCharacter: U32): (U32, U32) {
    (Wrap(line + deltaLine), if deltaLine == 0 then Wrap(character + deltaCharacter) else deltaCharacter)
  }

  /** The tokens that a client reads from the data; a trailing incomplete group
      is ignored. */
  function Decode(data: seq<U32>, line: U32, character: U32): seq<Token> {
    if |data| < 5 then []
    else
      var (l, c) := Advance(line, character, data[0], data[1]);
      [Token(l, c, data[2], data[3], data[4])] + Decode(data[5..], l, c)
  }

  function LastLine(tokens: seq<Token>): U32 {
    if tokens == [] then 0 else tokens[|tokens| - 1].line
  }

  function LastCharacter(tokens: seq<Token>): U32 {
    if tokens == [] then 0 else tokens[|tokens| - 1].character
  }

  function Delta(fromLine: U32, fromCharacter: U32, line: U32, character: U32): seq<U32> {
    [Wrap(line - fromLine), if line == fromLine then Wrap(character - fromCharacter) else character]
  }

  /** The group that puts a token after a cursor. */
  function Group(line: U32, character: U32, t: Token): seq<U32> {
    Delta(line, character, t.line, t.character) + [t.length, t.kind, t.modifiers]
  }

  lemma {:induction false} DecodeAppend(data: seq<U32>, line: U32, character: U32, more: seq<U32>)
    requires |data| % 5 == 0
    ensures var tokens := Decode(data, line, character);
            Decode(data + more, line, character) ==
            tokens + Decode(more, if tokens == [] then line else LastLine(tokens), if tokens == [] then character
                else LastCharacter(tokens))
  {
    if data == [] {
      assert data + more == more;
    } else {
      var (l, c) := Advance(line, character, data[0], data[1]);
      assert (data + more)[5..] == data[5..] + more;
      DecodeAppend(data[5..], l, c, more);
    }
  }

  lemma DecodeGroup(line: U32, character: U32, t: Token)
    ensures Decode(Group(line, character, t), line, character) == [t]
  {
    WrapDifference(line, t.line);
    WrapDifference(character, t.character);
    var g := Group(line, character, t);
    assert Decode(g[5..], t.line, t.character) == [];
  }

  /** Decoding determines the data: no two complete encodings read the same. */
  lemma {:induction false} DecodeInjective(x: seq<U32>, y: seq<U32>, line: U32, character: U32)
    requires |x| % 5 == 0 && |y| % 5 == 0 && Decode(x, line, character) == Decode(y, line, character)
    ensures x == y
  {
    var s, t := Decode(x, line, character), Decode(y, line, character);
    if x != [] && y != [] {
      assert s[0] == t[0];
      WrapSum(line, x[0], y[0]);
      WrapSum(character, x[1], y[1]);
      assert s[1..] == Decode(x[5..], s[0].line, s[0].character) && t[1..] == Decode(y[5..], t[0].line, t[0].character);
      DecodeInjective(x[5..], y[5..], s[0].line, s[0].character);
      assert x == x[..5] + x[5..] && y == y[..5] + y[5..];
    }
  }

  lemma WrapSum(a: U32, x: U32, y: U32)
    ensures Wrap(a + x) == Wrap(a + y) ==> x == y
  {
    assert Wrap(a + x) == if a + x < WORD then a + x else a + x - WORD;
    assert Wrap(a + y) == if a + y < WORD then a + y else a + y - WORD;
  }

  // ----- Filtering by range -----

  function TokenRange(t: Token): Range {
    Range(Position(t.line, t.character), Position(t.line, Wrap(t.character + t.length)))
  }

  function Overlapping(tokens: seq<Token>, target: Range): seq<Token> {
    if tokens == [] then []
    else (if RangesOverlap(target, TokenRange(tokens[0])) then [tokens[0]] else []) + Overlapping(tokens[1..], target)
  }

  /** The data is a complete encoding of the tokens. */
  ghost predicate Encodes(data: seq<U32>, tokens: seq<Token>) {
    |data| % 5 == 0 && Decode(data, 0, 0) == tokens
  }

  /** A group appended after the last token adds one token. */
  lemma EncodesPush(data: seq<U32>, tokens: seq<Token>, t: Token)
    requires Encodes(data, tokens)
    ensures Encodes(data + Group(LastLine(tokens), LastCharacter(tokens), t), tokens + [t])
    ensures LastLine(tokens + [t]) == t.line && LastCharacter(tokens + [t]) == t.character
  {
    DecodeAppend(data, 0, 0, Group(LastLine(tokens), LastCharacter(tokens), t));
    DecodeGroup(LastLine(tokens), LastCharacter(tokens), t);
  }

  lemma Regroup(out: seq<Token>, t: Token, rest: seq<Token>)
    ensures out + ([t] + rest) == (out + [t]) + rest
  {}

  ghost function TokenAt(data: seq<U32>, i: nat, line: U32, character: U32): Token
    requires i + 4 < |data|
  {
    var (l, c) := Advance(line, character, data[i], data[i + 1]);
    Token(l, c, data[i + 2], data[i + 3], data[i + 4])
  }

  /** What filtering keeps of the data from index i on. */
  ghost function Kept(data: seq<U32>, i: nat, line: U32, character: U32, target: Range): seq<Token>
    requires i <= |data|
  {
    Overlapping(Decode(data[i..], line, character), target)
  }

  lemma KeptStep(data: seq<U32>, i: nat, line: U32, character: U32, target: Range)
    requires i + 4 < |data|
    ensures var t := TokenAt(data, i, line, character);
            var rest := Kept(data, i + 5, t.line, t.character, target);
            Kept(data, i, line, character, target) == if RangesOverlap(target, TokenRange(t)) then [t] + rest else rest
  {
    var t := TokenAt(data, i, line, character);
    assert data[i..][5..] == data[i + 5..];
    assert Decode(data[i..], line, character) == [t] + Decode(data[i + 5..], t.line, t.character);
    assert ([t] + Decode(data[i + 5..], t.line, t.character))[1..] == Decode(data[i + 5..], t.line, t.character);
  }

  lemma KeptEnds(data: seq<U32>, target: Range)
    ensures Kept(data, 0, 0, 0, target) == Overlapping(Decode(data, 0, 0), target)
    ensures Encodes([], []) && LastLine([]) == 0 && LastCharacter([]) == 0 && Decode([], 0, 0) == []
  {
    assert data[0..] == data;
  }

  lemma KeptNothing(data: seq<U32>, i: nat, line: U32, character: U32, target: Range)
    requires i <= |data| <= i + 4
    ensures Kept(data, i, line, character, target) == []
  {
    assert Decode(data[i..], line, character) == [];
  }

  lemma EncodesDecode(data: seq<U32>, tokens: seq<Token>)
    requires Encodes(data, tokens)
    ensures |data| % 5 == 0 && Decode(data, 0, 0) == tokens
  {}

  method Moved(line: U32, character: U32, deltaLine: U32, deltaCharacter: U32) returns (l: U32, c: U32)
    ensures (l, c) == Advance(line, character, deltaLine, deltaCharacter)
  {
    l, c := Wrap(line + deltaLine), character;
    if deltaLine == 0 {
      c := Wrap(c + deltaCharacter);
    } else {
      c := deltaCharacter;
    }
  }

  method Deltas(resultLine: U32, resultCharacter: U32, line: U32, character: U32) returns (deltas: seq<U32>)
    ensures deltas == Delta(resultLine, resultCharacter, line, character)
  {
    var resultDeltaLine := Wrap(line - resultLine);
    var resultDeltaCharacter := character;
    if resultDeltaLine == 0 {
      resultDeltaCharacter := Wrap(character - resultCharacter);
    }
    WrapDifference(resultLine, line);
    deltas := [resultDeltaLine, resultDeltaCharacter];
  }

  /** One more token at the end of an encoding. */
  method Push(data: seq<U32>, ghost out: seq<Token>, line: U32, character: U32, t: Token) returns (more: seq<U32>)
    requires Encodes(data, out) && line == LastLine(out) && character == LastCharacter(out)
    ensures Encodes(more, out + [t]) && LastLine(out + [t]) == t.line && LastCharacter(out + [t]) == t.character
  {
    hide Encodes, LastLine, LastCharacter, Delta;
    var deltas := Deltas(line, character, t.line, t.character);
    EncodesPush(data, out, t);
    more := data + (deltas + [t.length, t.kind, t.modifiers]);
  }

  /** Filtering decodes, drops the tokens outside the range and re-encodes the
      rest: a client that decodes the result sees exactly the overlapping tokens,
      in order, whatever the numbers and however they wrap around. */
  method FilterSemanticTokens(tokens: Option<seq<U32>>, target: Range) returns (result: seq<U32>)
    ensures |result| % 5 == 0
    ensures Decode(result, 0, 0) == if tokens.None? then [] else Overlapping(Decode(tokens.value, 0, 0), target)
  {
    result := [];
    if tokens.None? {
      return;
    }
    var data := tokens.value;
    KeptEnds(data, target);
    hide Encodes, Kept, RangesOverlap, Wrap, Decode, Overlapping, LastLine, LastCharacter, Delta, Advance;
    ghost var out: seq<Token> := [];
    ghost var total := Kept(data, 0, 0, 0, target);
    var line: U32, character: U32 := 0, 0;
    var resultLine: U32, resultCharacter: U32 := 0, 0;
    var i := 0;
    while i + 4 < |data|
      invariant 0 <= i <= |data|
      invariant Encodes(result, out) && resultLine == LastLine(out) && resultCharacter == LastCharacter(out)
      invariant out + Kept(data, i, line, character, target) == total
    {
      KeptStep(data, i, line, character, target);
      line, character := Moved(line, character, data[i], data[i + 1]);
      var t := Token(line, character, data[i + 2], data[i + 3], data[i + 4]);
      ghost var rest := Kept(data, i + 5, line, character, target);
      if RangesOverlap(target, TokenRange(t)) {
        Regroup(out, t, rest);
        result := Push(result, out, resultLine, resultCharacter, t);
        out := out + [t];
        resultLine, resultCharacter := line, character;
      }
      assert out + rest == total;
      i := i + 5;
    }
    KeptNothing(data, i, line, character, target);
    EncodesDecode(result, out);
  }

  // ----- Encoding the full document -----

  datatype SemanticToken = SemanticToken(line: U32, col: U32, length: U32, valid: bool, tokenType: string,
                                         modifiers: seq<string>)

  function CompareTokens(a: SemanticToken, b: SemanticToken): int {
    ComparePosition(Position(a.line, a.col), Position(b.line, b.col))
  }

  function Power(n: nat): nat {
    if n == 0 then 1 else 2 * Power(n - 1)
  }

  /** Bit b of a word. */
  predicate HasBit(word: nat, b: nat) {
    if b == 0 then word % 2 == 1 else HasBit(word / 2, b - 1)
  }

  /** Bitwise or of words of n bits. */
  function OrBits(n: nat, v: nat, w: nat): (r: nat)
    requires v < Power(n) && w < Power(n)
    ensures r < Power(n)
  {
    if n == 0 then 0 else 2 * OrBits(n - 1, v / 2, w / 2) + if v % 2 == 1 || w % 2 == 1 then 1 else 0
  }

  lemma {:induction false} OrBitsHas(n: nat, v: nat, w: nat, b: nat)
    requires v < Power(n) && w < Power(n)
    ensures HasBit(OrBits(n, v, w), b) <==> HasBit(v, b) || HasBit(w, b)
  {
    if n == 0 {
      NoBit(b);
    } else if b > 0 {
      OrBitsHas(n - 1, v / 2, w / 2, b - 1);
    }
  }

  lemma {:induction false} NoBit(b: nat)
    ensures !HasBit(0, b)
  {
    if b > 0 { NoBit(b - 1); }
  }

  lemma WordBits()
    ensures Power(32) == WORD
  {
    assert Power(8) == 0x100 && Power(16) == 0x1_0000 && Power(24) == 0x100_0000;
  }

  function Or(v: U32, w: U32): U32 {
    WordBits();
    OrBits(32, v, w)
  }

  /** The union of the bits of the known modifiers. */
  function ModifierBits(modifiers: seq<string>, modifierMap: map<string, U32>): U32 {
    if modifiers == [] then 0
    else
      var last := modifiers[|modifiers| - 1];
      Or(ModifierBits(modifiers[..|modifiers| - 1], modifierMap), if last in modifierMap then modifierMap[last] else 0)
  }

  ghost predicate SetBySome(modifiers: seq<string>, modifierMap: map<string, U32>, b: nat) {
    exists m :: m in modifiers && m in modifierMap && HasBit(modifierMap[m], b)
  }

  lemma OrHas(v: U32, w: U32, b: nat)
    ensures HasBit(Or(v, w), b) <==> HasBit(v, b) || HasBit(w, b)
  {
    WordBits();
    OrBitsHas(32, v, w, b);
  }

  /** A bit is set exactly when some known modifier sets it; order and repetition do not matter. */
  lemma {:induction false} ModifierBitsIff(modifiers: seq<string>, modifierMap: map<string, U32>, b: nat)
    ensures HasBit(ModifierBits(modifiers, modifierMap), b) <==> SetBySome(modifiers, modifierMap, b)
  {
    hide HasBit, Or;
    NoBit(b);
    if modifiers != [] {
      var init, last := modifiers[..|modifiers| - 1], modifiers[|modifiers| - 1];
      ModifierBitsIff(init, modifierMap, b);
      OrHas(ModifierBits(init, modifierMap), if last in modifierMap then modifierMap[last] else 0, b);
      assert modifiers == init + [last];
    }
  }

  /** What a client should read: the valid tokens of a known type. */
  function Visible(tokens: seq<SemanticToken>, typeMap: map<string, U32>, modifierMap: map<string, U32>): seq<Token> {
    if tokens == [] then []
    else
      var t := tokens[|tokens| - 1];
      Visible(tokens[..|tokens| - 1], typeMap, modifierMap) +
      if t.valid && t.tokenType in typeMap
      then [Token(t.line, t.col, t.length, typeMap[t.tokenType], ModifierBits(t.modifiers, modifierMap))] else []
  }

  lemma VisibleStep(tokens: seq<SemanticToken>, i: nat, typeMap: map<string, U32>, modifierMap: map<string, U32>)
    requires i < |tokens|
    ensures var t := tokens[i];
            var before := Visible(tokens[..i], typeMap, modifierMap);
            Visible(tokens[..i + 1], typeMap, modifierMap) ==
            if t.valid && t.tokenType in typeMap
            then before + [Token(t.line, t.col, t.length, typeMap[t.tokenType], ModifierBits(t.modifiers, modifierMap))]
              else before
  {
    assert tokens[..i + 1][..i] == tokens[..i];
  }

  method SignedDeltas(line: U32, column: U32, t: SemanticToken) returns (deltas: seq<U32>)
    ensures deltas == Delta(line, column, t.line, t.col)
  {
    var deltaLine, deltaChar;
    if t.line == line {
      deltaLine, deltaChar := 0, t.col - column;
    } else {
      deltaLine, deltaChar := t.line - line, t.col;
    }
    WrapWord(t.col);
    deltas := [Wrap(deltaLine), Wrap(deltaChar)];
  }

  ghost predicate ReadsAs(data: seq<U32>, tokens: seq<SemanticToken>, sorted: seq<SemanticToken>,
                          typeMap: map<string, U32>, modifierMap: map<string, U32>) {
    && multiset(sorted) == multiset(tokens) && SortedBy(sorted, CompareTokens)
    && Decode(data, 0, 0) == Visible(sorted, typeMap, modifierMap)
  }

  /** The encoder: a client that decodes the data reads the valid tokens of known
      types, sorted by position. */
  method EncodeSemanticTokens(tokens: seq<SemanticToken>, typeMap: map<string, U32>, modifierMap: map<string, U32>)
    returns (data: seq<U32>)
    ensures |data| % 5 == 0 && exists sorted :: ReadsAs(data, tokens, sorted, typeMap, modifierMap)
  {
    var ordered := SortFunc(tokens, CompareTokens);
    assert Visible(ordered[..0], typeMap, modifierMap) == [];
    assert ordered[..|ordered|] == ordered;
    assert Encodes([], []) && LastLine([]) == 0 && LastCharacter([]) == 0;
    hide Encodes, Wrap, ModifierBits, Decode, SortedBy, Visible, LastLine, LastCharacter, Delta;
    data := [];
    var line: U32, column: U32 := 0, 0;
    ghost var out: seq<Token> := [];
    for i := 0 to |ordered|
      invariant Encodes(data, out) && line == LastLine(out) && column == LastCharacter(out)
      invariant out == Visible(ordered[..i], typeMap, modifierMap)
    {
      VisibleStep(ordered, i, typeMap, modifierMap);
      var t := ordered[i];
      if t.valid && t.tokenType in typeMap {
        var deltas := SignedDeltas(line, column, t);
        var bits := Modifiers(t.modifiers, modifierMap);
        ghost var token := Token(t.line, t.col, t.length, typeMap[t.tokenType], bits);
        EncodesPush(data, out, token);
        data := data + (deltas + [t.length, typeMap[t.tokenType], bits]);
        out := out + [token];
        line, column := t.line, t.col;
      }
    }
    EncodesDecode(data, out);
    assert ReadsAs(data, tokens, ordered, typeMap, modifierMap);
  }

  method Modifiers(modifiers: seq<string>, modifierMap: map<string, U32>) returns (bits: U32)
    ensures bits == ModifierBits(modifiers, modifierMap)
    ensures forall b: nat :: HasBit(bits, b) <==> SetBySome(modifiers, modifierMap, b)
  {
    hide HasBit, SetBySome, Or;
    bits := 0;
    for i := 0 to |modifiers|
      invariant bits == ModifierBits(modifiers[..i], modifierMap)
    {
      assert modifiers[..i + 1][..i] == modifiers[..i];
      bits := Or(bits, if modifiers[i] in modifierMap then modifierMap[modifiers[i]] else 0);
    }
    assert modifiers[..|modifiers|] == modifiers;
    forall b: nat ensures HasBit(bits, b) <==> SetBySome(modifiers, modifierMap, b) {
      ModifierBitsIff(modifiers, modifierMap, b);
    }
  }

  // ----- Decoding and filtering, in numbers -----

  /** The sum of two 32-bit numbers in 32 bits. */
  ghost function Sum32(a: int, b: int): int {
    if a + b < 0x1_0000_0000 then a + b else a + b - 0x1_0000_0000
  }

  /** Token k is the k-th group of five, moved on from the token before it: the line by the
      first number, the character by the second unless the line moves, both as 32-bit sums. */
  ghost predicate GroupIs(data: seq<U32>, tokens: seq<Token>, k: nat, line: U32, character: U32)
    requires k < |tokens| && 5 * k + 4 < |data|
  {
    var (l, c) := if k == 0 then (line, character) else (tokens[k - 1].line, tokens[k - 1].character);
    var (t, dl, dc) := (tokens[k], data[5 * k], data[5 * k + 1]);
    && t.line == Sum32(l, dl) && t.character == (if dl != 0 then dc else Sum32(c, dc))
    && t.length == data[5 * k + 2] && t.kind == data[5 * k + 3] && t.modifiers == data[5 * k + 4]
  }

  /** There is a token for every complete group of five. */
  lemma {:induction false} DecodedGroups(data: seq<U32>, line: U32, character: U32)
    ensures |Decode(data, line, character)| == |data| / 5
    ensures forall k: nat :: k < |data| / 5 ==> GroupIs(data, Decode(data, line, character), k, line, character)
  {
    if |data| >= 5 {
      var (l, c) := Advance(line, character, data[0], data[1]);
      var rest, tokens := data[5..], Decode(data, line, character);
      DecodedGroups(rest, l, c);
      assert tokens == [Token(l, c, data[2], data[3], data[4])] + Decode(rest, l, c);
      forall k: nat | k < |data| / 5 ensures GroupIs(data, tokens, k, line, character) {
        if k > 0 { LaterGroup(data, line, character, k); }
      }
    }
  }

  lemma LaterGroup(data: seq<U32>, line: U32, character: U32, k: nat)
    requires 0 < k < |data| / 5
    requires var (l, c) := Advance(line, character, data[0], data[1]);
             && |Decode(data[5..], l, c)| == |data[5..]| / 5
             && GroupIs(data[5..], Decode(data[5..], l, c), k - 1, l, c)
    ensures |Decode(data, line, character)| == |data| / 5
    ensures GroupIs(data, Decode(data, line, character), k, line, character)
  {
    var (l, c) := Advance(line, character, data[0], data[1]);
    var rest, tokens := Decode(data[5..], l, c), Decode(data, line, character);
    assert tokens == [Token(l, c, data[2], data[3], data[4])] + rest;
    assert tokens[k] == rest[k - 1] && tokens[k - 1] == if k == 1 then tokens[0] else rest[k - 2];
    assert forall i :: 0 <= i < |data[5..]| ==> data[5..][i] == data[i + 5];
  }

  /** The token, which ends at the 32-bit sum of its start and its length on the same line,
      starts before the range ends and ends after it starts. */
  ghost predicate Crosses(t: Token, target: Range) {
    var end := Sum32(t.character, t.length);
    && (t.line < target.end.line || (t.line == target.end.line && t.character < target.end.character))
    && (target.start.line < t.line || (target.start.line == t.line && target.start.character < end))
  }

  lemma OverlapIsCrossing(t: Token, target: Range)
    ensures RangesOverlap(target, TokenRange(t)) <==> Crosses(t, target)
  {}

  lemma {:induction false} FilteredParts(tokens: seq<Token>, more: seq<Token>, target: Range)
    ensures Overlapping(tokens + more, target) == Overlapping(tokens, target) + Overlapping(more, target)
  {
    hide RangesOverlap, TokenRange;
    if tokens == [] {
      assert tokens + more == more;
    } else {
      FilteredParts(tokens[1..], more, target);
      assert (tokens + more)[1..] == tokens[1..] + more;
    }
  }

  lemma FilteredOne(t: Token, target: Range)
    ensures Overlapping([t], target) == if Crosses(t, target) then [t] else []
  {
    OverlapIsCrossing(t, target);
    hide Crosses, RangesOverlap, TokenRange;
    assert Overlapping([t][1..], target) == [];
  }

  /** Filtering keeps exactly the tokens that cross the range, in their order: one token
      stays if it does, and a list is filtered part by part. */
  lemma KeepsCrossing(tokens: seq<Token>, more: seq<Token>, target: Range, t: Token)
    ensures Overlapping([t], target) == if Crosses(t, target) then [t] else []
    ensures Overlapping(tokens + more, target) == Overlapping(tokens, target) + Overlapping(more, target)
    ensures t in Overlapping(tokens, target) <==> t in tokens && Crosses(t, target)
  {
    hide Overlapping, Crosses;
    FilteredOne(t, target);
    FilteredParts(tokens, more, target);
    FilteredMember(tokens, target, t);
  }

  lemma {:induction false} FilteredMember(tokens: seq<Token>, target: Range, t: Token)
    ensures t in Overlapping(tokens, target) <==> t in tokens && Crosses(t, target)
  {
    if tokens != [] {
      var init, last := tokens[..|tokens| - 1], tokens[|tokens| - 1];
      hide Overlapping, Crosses;
      FilteredMember(init, target, t);
      FilteredParts(init, [last], target);
      FilteredOne(last, target);
      assert tokens == init + [last];
    }
  }

  /** The token a client should read for this one: of a known type, with the bits that the
      known modifiers set. */
  ghost predicate ReadAs(t: SemanticToken, seen: Token, typeMap: map<string, U32>, modifierMap: map<string, U32>) {
    && t.valid && t.tokenType in typeMap && seen.kind == typeMap[t.tokenType]
    && seen.line == t.line && seen.character == t.col && seen.length == t.length
    && forall b: nat :: HasBit(seen.modifiers, b) <==> SetBySome(t.modifiers, modifierMap, b)
  }

  /** Encoding keeps, in order, exactly the valid tokens of a known type: one token is read
      as itself or not at all, and a list is read part by part. */
  lemma {:induction false} VisibleByToken(tokens: seq<SemanticToken>, more: seq<SemanticToken>, t: SemanticToken,
                                          typeMap: map<string, U32>, modifierMap: map<string, U32>)
    ensures Visible(tokens + more, typeMap, modifierMap) ==
            Visible(tokens, typeMap, modifierMap) + Visible(more, typeMap, modifierMap)
    ensures var seen := Visible([t], typeMap, modifierMap);
            if t.valid && t.tokenType in typeMap then |seen| == 1 && ReadAs(t, seen[0], typeMap, modifierMap)
            else seen == []
    decreases |more|
  {
    hide HasBit, SetBySome, ModifierBits;
    assert Visible([t][..0], typeMap, modifierMap) == [];
    forall b: nat
      ensures HasBit(ModifierBits(t.modifiers, modifierMap), b) <==> SetBySome(t.modifiers, modifierMap, b)
    {
      ModifierBitsIff(t.modifiers, modifierMap, b);
    }
    if more == [] {
      assert tokens + more == tokens;
    } else {
      assert (tokens + more)[..|tokens + more| - 1] == tokens + more[..|more| - 1];
      VisibleByToken(tokens, more[..|more| - 1], t, typeMap, modifierMap);
    }
  }
}
