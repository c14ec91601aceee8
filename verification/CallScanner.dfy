/** The call around the cursor in a statement that does not parse: a scan of the
    tokens with a stack of open parentheses. */
module CallScanner {
  import opened Coordinates
  import opened Syntax

  datatype TokenKind = Open | Close | Comma | OtherToken

  /** A token, or the error the lexer stops at. */
  datatype Token = Token(kind: TokenKind, raw: string, pos: Position) | LexError

  predicate Stops(t: Token, cursor: Position) {
    t.LexError? || AtOrBefore(cursor, t.pos)
  }

  /** The tokens before the cursor and before any error. */
  function Scanned(tokens: seq<Token>, cursor: Position): seq<Token> {
    if tokens == [] || Stops(tokens[0], cursor) then [] else [tokens[0]] + Scanned(tokens[1..], cursor)
  }

  predicate Proper(s: seq<Token>) {
    forall i :: 0 <= i < |s| ==> s[i].Token?
  }

  // ----- The meaning of "inside" -----

  function Weight(t: Token): int {
    if t.Token? && t.kind == Open then 1 else if t.Token? && t.kind == Close then -1 else 0
  }

  /** How deep n lies inside the parenthesis at o: open minus close ones between. */
  function Depth(s: seq<Token>, o: nat, n: nat): int
    requires o < n <= |s|
    decreases n
  {
    if n == o + 1 then 0 else Depth(s, o, n - 1) + Weight(s[n - 1])
  }

  /** The parenthesis at o is not closed before n. */
  ghost predicate Unmatched(s: seq<Token>, o: nat, n: nat)
    requires n <= |s|
  {
    o < n && s[o].Token? && s[o].kind == Open && forall k: nat :: o < k <= n ==> Depth(s, o, k) >= 0
  }

  /** The commas directly inside the parenthesis at o, up to n. */
  function DirectCommas(s: seq<Token>, o: nat, n: nat): nat
    requires o < n <= |s|
    decreases n
  {
    if n == o + 1 then 0
    else
      DirectCommas(s, o, n - 1) +
      if s[n - 1].Token? && s[n - 1].kind == Comma && Depth(s, o, n - 1) == 0 then 1 else 0
  }

  function TrimLeft(s: string): string {
    if s != [] && s[0] == '`' then TrimLeft(s[1..]) else s
  }

  function TrimRight(s: string): string {
    if s != [] && s[|s| - 1] == '`' then TrimRight(s[..|s| - 1]) else s
  }

  /** A token as a function name: without back quotes, in upper case. */
  function Name(raw: string): string {
    Fold(TrimRight(TrimLeft(raw)))
  }

  /** The token before the parenthesis at o, if there is one. */
  function NameBefore(s: seq<Token>, o: nat): string
    requires o < |s|
  {
    if o > 0 && s[o - 1].Token? then Name(s[o - 1].raw) else []
  }

  ghost predicate LastUnmatched(s: seq<Token>, o: nat) {
    Unmatched(s, o, |s|) && forall o' :: o < o' < |s| ==> !Unmatched(s, o', |s|)
  }

  // ----- The stack of frames -----

  datatype Frame = Frame(name: string, activeParameter: nat)

  /** The frames stand for the parentheses at `opens`: all those still open, each
      as deep as there are frames above it. */
  ghost predicate Stacked(s: seq<Token>, n: nat, frames: seq<Frame>, opens: seq<nat>) {
    && n <= |s| && |frames| == |opens|
    && (forall j :: 0 <= j < |opens| ==> Stands(s, n, frames[j], opens[j], |opens| - 1 - j))
    && (forall i, j :: 0 <= i < j < |opens| ==> opens[i] < opens[j])
    && (forall o :: 0 <= o < n && Unmatched(s, o, n) ==> o in opens)
  }

  ghost predicate Stands(s: seq<Token>, n: nat, f: Frame, o: nat, above: int)
    requires n <= |s|
  {
    && Unmatched(s, o, n) && Depth(s, o, n) == above
    && f.name == NameBefore(s, o) && f.activeParameter == DirectCommas(s, o, n)
  }

  lemma UnmatchedShrinks(s: seq<Token>, o: nat, n: nat)
    requires o < n < |s| && Unmatched(s, o, n + 1)
    ensures Unmatched(s, o, n)
  {}

  lemma UnmatchedGrows(s: seq<Token>, o: nat, n: nat)
    requires n < |s| && Unmatched(s, o, n)
    ensures Unmatched(s, o, n + 1) <==> Depth(s, o, n) + Weight(s[n]) >= 0
  {
    assert Depth(s, o, n + 1) == Depth(s, o, n) + Weight(s[n]);
  }

  /** How one token changes the frame of a parenthesis. */
  lemma FrameStep(s: seq<Token>, n: nat, f: Frame, o: nat, above: nat)
    requires n < |s| && s[n].Token? && Stands(s, n, f, o, above)
    ensures s[n].kind == OtherToken ==> Stands(s, n + 1, f, o, above)
    ensures s[n].kind == Open ==> Stands(s, n + 1, f, o, above + 1)
    ensures s[n].kind == Comma ==>
              Stands(s, n + 1, if above == 0 then Frame(f.name, f.activeParameter + 1) else f, o, above)
    ensures s[n].kind == Close ==> if above > 0 then Stands(s, n + 1, f, o, above - 1) else !Unmatched(s, o, n + 1)
  {
    UnmatchedGrows(s, o, n);
    assert Depth(s, o, n + 1) == Depth(s, o, n) + Weight(s[n]);
  }

  lemma NewFrame(s: seq<Token>, n: nat)
    requires n < |s| && s[n].Token? && s[n].kind == Open
    ensures Stands(s, n + 1, Frame(NameBefore(s, n), 0), n, 0)
  {
    assert Depth(s, n, n + 1) == 0;
  }

  function Push(t: Token, frames: seq<Frame>, name: string): seq<Frame>
    requires t.Token?
  {
    var top := |frames| - 1;
    match t.kind
    case Open => frames + [Frame(name, 0)]
    case Comma => if frames == [] then frames
      else frames[top := Frame(frames[top].name, frames[top].activeParameter + 1)]
    case Close => if frames == [] then frames else frames[..top]
    case OtherToken => frames
  }

  function PushOpen(t: Token, n: nat, opens: seq<nat>): seq<nat>
    requires t.Token?
  {
    match t.kind
    case Open => opens + [n]
    case Close => if opens == [] then opens else opens[..|opens| - 1]
    case Comma => opens
    case OtherToken => opens
  }

  lemma FramesStep(s: seq<Token>, n: nat, frames: seq<Frame>, opens: seq<nat>, j: nat)
    requires n < |s| && Proper(s) && Stacked(s, n, frames, opens)
    requires j < |PushOpen(s[n], n, opens)|
    ensures Stands(s, n + 1, Push(s[n], frames, NameBefore(s, n))[j], PushOpen(s[n], n, opens)[j],
              |PushOpen(s[n], n, opens)| - 1 - j)
  {
    hide Stands;
    if j < |opens| {
      FrameStep(s, n, frames[j], opens[j], |opens| - 1 - j);
    } else {
      NewFrame(s, n);
    }
  }

  lemma StandsOpen(s: seq<Token>, n: nat, f: Frame, o: nat, above: int)
    requires n <= |s| && Stands(s, n, f, o, above)
    ensures o < n && Unmatched(s, o, n) && f == Frame(NameBefore(s, o), DirectCommas(s, o, n))
  {}

  /** A parenthesis that is still open keeps its frame. */
  lemma StillStacked(s: seq<Token>, n: nat, frames: seq<Frame>, opens: seq<nat>, o: nat)
    requires n < |s| && Proper(s) && Stacked(s, n, frames, opens)
    requires o <= n && Unmatched(s, o, n + 1)
    ensures o in PushOpen(s[n], n, opens)
  {
    hide Stands;
    if o < n {
      UnmatchedShrinks(s, o, n);
      hide Unmatched;
      var j :| 0 <= j < |opens| && opens[j] == o;
      FrameStep(s, n, frames[j], opens[j], |opens| - 1 - j);
      assert j < |PushOpen(s[n], n, opens)| && PushOpen(s[n], n, opens)[j] == o;
    } else {
      assert opens + [n] == PushOpen(s[n], n, opens);
    }
  }

  lemma StackStep(s: seq<Token>, n: nat, frames: seq<Frame>, opens: seq<nat>)
    requires n < |s| && Proper(s) && Stacked(s, n, frames, opens)
    ensures Stacked(s, n + 1, Push(s[n], frames, NameBefore(s, n)), PushOpen(s[n], n, opens))
  {
    hide Stands, Unmatched;
    var frames', opens' := Push(s[n], frames, NameBefore(s, n)), PushOpen(s[n], n, opens);
    forall j | 0 <= j < |opens'| ensures Stands(s, n + 1, frames'[j], opens'[j], |opens'| - 1 - j) {
      FramesStep(s, n, frames, opens, j);
    }
    forall o | 0 <= o < n + 1 && Unmatched(s, o, n + 1) ensures o in opens' {
      StillStacked(s, n, frames, opens, o);
    }
    forall i, j | 0 <= i < j < |opens'| ensures opens'[i] < opens'[j] {
      StandsOpen(s, n, frames[i], opens[i], |opens| - 1 - i);
    }
  }

  /** The top frame is the last unmatched parenthesis. */
  lemma TopIsLast(s: seq<Token>, frames: seq<Frame>, opens: seq<nat>)
    requires Stacked(s, |s|, frames, opens)
    ensures frames == [] ==> forall o :: 0 <= o < |s| ==> !Unmatched(s, o, |s|)
    ensures frames != [] ==>
              var (f, o) := (frames[|frames| - 1], opens[|frames| - 1]);
              o < |s| && LastUnmatched(s, o) && f == Frame(NameBefore(s, o), DirectCommas(s, o, |s|))
  {
    hide Stands, Unmatched;
    if frames != [] {
      var top := |frames| - 1;
      StandsOpen(s, |s|, frames[top], opens[top], |opens| - 1 - top);
      assert forall o :: o in opens ==> o <= opens[top];
    }
  }

  lemma TopAnswers(s: seq<Token>, frames: seq<Frame>, opens: seq<nat>, c: Call)
    requires Stacked(s, |s|, frames, opens)
    ensures IsActiveCall(s, c) <==>
            frames != [] && c.name != [] && c == Call(frames[|frames| - 1].name, frames[|frames| - 1].activeParameter)
  {
    TopIsLast(s, frames, opens);
    if IsActiveCall(s, c) {
      var o: nat :| o < |s| && LastUnmatched(s, o) && c == Call(NameBefore(s, o), DirectCommas(s, o, |s|));
      if frames != [] { LastUnmatchedOnce(s, o, opens[|frames| - 1]); }
    }
  }

  lemma {:induction false} ScannedIs(tokens: seq<Token>, cursor: Position)
    ensures var n := |Scanned(tokens, cursor)|;
            && n <= |tokens| && (forall i :: 0 <= i < n ==>
                   Scanned(tokens, cursor)[i] == tokens[i] && !Stops(tokens[i], cursor))
            && (n < |tokens| ==> Stops(tokens[n], cursor))
  {
    if tokens != [] && !Stops(tokens[0], cursor) { ScannedIs(tokens[1..], cursor); }
  }

  datatype Call = Call(name: string, activeParameter: nat)

  /** The call whose parenthesis is the last one open, if a name precedes it. */
  ghost predicate IsActiveCall(s: seq<Token>, c: Call) {
    c.name != [] && exists o: nat ::
      o < |s| && LastUnmatched(s, o) && c == Call(NameBefore(s, o), DirectCommas(s, o, |s|))
  }

  lemma LastUnmatchedOnce(s: seq<Token>, o: nat, o': nat)
    requires o < |s| && o' < |s| && LastUnmatched(s, o) && LastUnmatched(s, o')
    ensures o == o'
  {}

  ghost predicate Precedes(s: seq<Token>, i: nat, previous: string) {
    i <= |s| && (i > 0 ==> s[i - 1].Token?) && previous == if i > 0 then s[i - 1].raw else []
  }

  lemma NameIs(s: seq<Token>, i: nat, previous: string)
    requires i < |s| && Precedes(s, i, previous)
    ensures NameBefore(s, i) == Name(previous)
  {
    assert TrimRight(TrimLeft([])) == [];
  }

  method Pushed(token: Token, frames: seq<Frame>, previous: string) returns (r: seq<Frame>)
    requires token.Token?
    ensures r == Push(token, frames, Name(previous))
  {
    r := frames;
    match token.kind {
      case Open =>
        r := r + [Frame(Name(previous), 0)];
      case Comma =>
        if |r| > 0 {
          var top := |r| - 1;
          r := r[top := Frame(r[top].name, r[top].activeParameter + 1)];
        }
      case Close =>
        if |r| > 0 {
          r := r[..|r| - 1];
        }
      case OtherToken =>
    }
  }

  /** The scan answers with the token before the last parenthesis that is still
      open at the cursor, and the number of commas directly inside it. */
  method ActiveIncompleteFunctionCall(tokens: seq<Token>, cursor: Position) returns (call: Option<Call>)
    ensures forall c :: call == Some(c) <==> IsActiveCall(Scanned(tokens, cursor), c)
  {
    ghost var s := Scanned(tokens, cursor);
    ScannedIs(tokens, cursor);
    assert Proper(s);
    var frames: seq<Frame> := [];
    ghost var opens: seq<nat> := [];
    var previous: string := [];
    var i := 0;
    assert Stacked(s, 0, frames, opens);
    hide Stacked, IsActiveCall, Scanned, Push, PushOpen, Name, NameBefore, Stops;
    while i < |tokens| && !Stops(tokens[i], cursor)
      invariant 0 <= i <= |s| && Stacked(s, i, frames, opens) && Precedes(s, i, previous)
    {
      NameIs(s, i, previous);
      StackStep(s, i, frames, opens);
      opens := PushOpen(tokens[i], i, opens);
      frames := Pushed(tokens[i], frames, previous);
      previous := tokens[i].raw;
      i := i + 1;
    }
    call := TopCall(s, frames, opens);
  }

  method TopCall(ghost s: seq<Token>, frames: seq<Frame>, ghost opens: seq<nat>) returns (call: Option<Call>)
    requires Stacked(s, |s|, frames, opens)
    ensures forall c :: call == Some(c) <==> IsActiveCall(s, c)
  {
    forall c ensures IsActiveCall(s, c) <==>
                     frames != [] && c.name != [] &&
                       c == Call(frames[|frames| - 1].name, frames[|frames| - 1].activeParameter) {
      TopAnswers(s, frames, opens, c);
    }
    hide Stacked, IsActiveCall;
    if |frames| == 0 || frames[|frames| - 1].name == [] {
      return None;
    }
    var frame := frames[|frames| - 1];
    return Some(Call(frame.name, frame.activeParameter));
  }

  // ----- The scanned tokens and the name, letter by letter -----

  /** A token that ends the scan: an error, or one that starts at the cursor or after it. */
  ghost predicate EndsScan(t: Token, cursor: Position) {
    match t
    case LexError => true
    case Token(_, _, pos) => cursor.line < pos.line || (cursor.line == pos.line && cursor.character <= pos.character)
  }

  /** The scan takes the first n tokens, and ends there or at the first that ends it. */
  lemma ScanEnds(tokens: seq<Token>, cursor: Position) returns (n: nat)
    ensures n <= |tokens| && Scanned(tokens, cursor) == tokens[..n]
    ensures forall i :: 0 <= i < n ==> !EndsScan(tokens[i], cursor)
    ensures n < |tokens| ==> EndsScan(tokens[n], cursor)
  {
    ScannedIs(tokens, cursor);
    n := |Scanned(tokens, cursor)|;
    assert forall i :: 0 <= i < |tokens| ==> (EndsScan(tokens[i], cursor) <==> Stops(tokens[i], cursor));
  }

  /** The letters of a token between its outer back quotes, if there are any. */
  ghost predicate Unquoted(raw: string, a: nat, b: nat) {
    && a <= b <= |raw| && (forall i :: 0 <= i < a ==> raw[i] == '`') && (forall i :: b <= i < |raw| ==> raw[i] == '`')
    && (a < b ==> raw[a] != '`' && raw[b - 1] != '`')
  }

  ghost predicate UpperCase(c: char, upper: char) {
    if 'a' <= c <= 'z' then upper as int + 32 == c as int else upper == c
  }

  lemma {:induction false} LeftTrimmed(s: string) returns (a: nat)
    ensures a <= |s| && TrimLeft(s) == s[a..] && (forall i :: 0 <= i < a ==> s[i] == '`') && (a < |s| ==> s[a] != '`')
  {
    a := 0;
    if s != [] && s[0] == '`' {
      var n := LeftTrimmed(s[1..]);
      a := n + 1;
      assert forall i :: 0 < i < a ==> s[i] == s[1..][i - 1];
    }
  }

  lemma {:induction false} RightTrimmed(s: string) returns (b: nat)
    ensures b <= |s| && TrimRight(s) == s[..b] && (forall i :: b <= i < |s| ==> s[i] == '`')
    ensures b > 0 ==> s[b - 1] != '`'
  {
    b := |s|;
    if s != [] && s[|s| - 1] == '`' {
      b := RightTrimmed(s[..|s| - 1]);
      assert s[..|s| - 1][..b] == s[..b];
    }
  }

  /** The name of a token is what stands between its back quotes, in upper case. */
  lemma NameBetweenQuotes(raw: string) returns (a: nat, b: nat)
    ensures Unquoted(raw, a, b) && |Name(raw)| == b - a
    ensures forall i :: 0 <= i < b - a ==> UpperCase(raw[a + i], Name(raw)[i])
  {
    a := LeftTrimmed(raw);
    var left := raw[a..];
    var n := RightTrimmed(left);
    b := a + n;
    hide TrimLeft, TrimRight;
    assert forall i :: b <= i < |raw| ==> raw[i] == left[i - a];
    assert left[..n] == raw[a..b];
  }
}
