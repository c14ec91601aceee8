/** Positions and ranges of the Language Server Protocol, and the comparisons
    the handlers make on them. */
module Coordinates {
  datatype Option<+T> = None | Some(value: T)

  datatype Position = Position(line: nat, character: nat)

  datatype Range = Range(start: Position, end: Position)

  /** Negative, zero or positive: lines first, then characters. */
  function ComparePosition(a: Position, b: Position): (c: int)
    ensures c == 0 <==> a == b
  {
    if a.line != b.line then (if a.line < b.line then -1 else 1)
    else if a.character != b.character then (if a.character < b.character then -1 else 1)
    else 0
  }

  predicate Before(a: Position, b: Position) {
    ComparePosition(a, b) < 0
  }

  predicate AtOrBefore(a: Position, b: Position) {
    ComparePosition(a, b) <= 0
  }

  predicate RangeContains(outer: Range, inner: Range) {
    AtOrBefore(outer.start, inner.start) && AtOrBefore(inner.end, outer.end)
  }

  predicate RangeIncludesPosition(r: Range, pos: Position) {
    AtOrBefore(r.start, pos) && AtOrBefore(pos, r.end)
  }

  predicate RangesOverlap(a: Range, b: Range) {
    Before(a.start, b.end) && Before(b.start, a.end)
  }
}
