/** Where identifiers stand in a tree, and that in a text each stands by itself. */
module Texts {
  import opened Coordinates
  import opened Syntax
  import opened Editing
  import opened SelectWalk

  /** What an identifier is at its node. */
  datatype Role = CteName | Table | AsAlias | Offset | Part(index: nat) | Star | Result | Single

  datatype Slot = Slot(at: Address, role: Role)

  function Held(kind: Kind, role: Role): Option<Ident> {
    match role
    case CteName => if kind.Cte? then Some(kind.cteName) else None
    case Table => if kind.TableName? then Some(kind.table) else None
    case AsAlias => if kind.TableName? || kind.PathTable? || kind.SubQueryTable? || kind.Unnest? then kind.alias
      else None
    case Offset => if kind.PathTable? || kind.Unnest? then kind.offset else None
    case Part(i) => if kind.Path? && i < |kind.idents| then Some(kind.idents[i]) else None
    case Star => if kind.DotStar? then kind.qualifier else None
    case Result => if kind.Item? then kind.result else None
    case Single => if kind.Lone? then Some(kind.ident) else None
  }

  function IdentAt(root: Node, s: Slot): Option<Ident> {
    if NodeAt(root, s.at).Some? then Held(NodeAt(root, s.at).value.kind, s.role) else None
  }

  lemma EditHeld(kind: Kind, role: Role, edits: set<Range>, newName: string)
    ensures Held(EditKind(kind, edits, newName), role) == EditOptional(Held(kind, role), edits, newName)
  {
    match role
    case CteName =>
    case Table =>
    case AsAlias =>
    case Offset =>
    case Part(i) =>
    case Star =>
    case Result =>
    case Single =>
  }

  lemma EditIdentAt(root: Node, s: Slot, edits: set<Range>, newName: string)
    ensures IdentAt(Edit(root, edits, newName), s) == EditOptional(IdentAt(root, s), edits, newName)
  {
    EditNodeAt(root, s.at, edits, newName);
    if NodeAt(root, s.at).Some? {
      var n := NodeAt(root, s.at).value;
      assert Edit(n, edits, newName).kind == EditKind(n.kind, edits, newName);
      hide Edit, NodeAt, EditKind, Held;
      EditHeld(n.kind, s.role, edits, newName);
    }
  }

  /** An item of a SELECT list without an alias is named by a name of its own expression. */
  predicate Implicit(root: Node, s: Slot) {
    s.role.Result? && NodeAt(root, s.at).Some? && NodeAt(root, s.at).value.kind.Item? &&
    !NodeAt(root, s.at).value.kind.explicit
  }

  predicate InExpression(s: Slot) {
    s.role.Part? || s.role.Single?
  }

  /** No query lies between a place and one below it, either included. */
  ghost predicate NoQuery(root: Node, here: Address, a: Address) {
    here <= a && forall c :: here <= c <= a ==> !IsQuery(root, c) && !IsSelect(root, c)
  }

  /** The item has its name from a place in its own expression. */
  ghost predicate NamedBy(root: Node, s: Slot, t: Slot) {
    Implicit(root, s) && InExpression(t) && IdentAt(root, s) == IdentAt(root, t) && NoQuery(root, s.at, t.at)
  }

  /** The two places hold one and the same identifier. */
  ghost predicate SameName(root: Node, s: Slot, t: Slot) {
    s == t || NamedBy(root, s, t) || NamedBy(root, t, s)
  }

  /** Every identifier lies in one piece of text, and no other one reaches to where it begins. */
  ghost predicate OneText(root: Node) {
    && (forall s | IdentAt(root, s).Some? ::
          Before(IdentAt(root, s).value.range.start, IdentAt(root, s).value.range.end))
    && forall s, t | IdentAt(root, s).Some? && IdentAt(root, t).Some? ::
         RangeIncludesPosition(IdentAt(root, s).value.range, IdentAt(root, t).value.range.start) ==>
           SameName(root, s, t)
  }

  lemma OwnStart(r: Range)
    requires Before(r.start, r.end)
    ensures RangeIncludesPosition(r, r.start)
  {}

  /** Identifiers of one range are one identifier. */
  lemma SameRange(root: Node, s: Slot, t: Slot)
    requires OneText(root) && IdentAt(root, s).Some? && IdentAt(root, t).Some?
    requires IdentAt(root, s).value.range.start == IdentAt(root, t).value.range.start
    ensures SameName(root, s, t)
  {
    hide IdentAt, SameName;
    OwnStart(IdentAt(root, s).value.range);
  }

  /** Two ranges that do not reach to each other's start end apart. */
  lemma EndsApart(r: Range, q: Range)
    requires Before(r.start, r.end) && Before(q.start, q.end)
    requires !RangeIncludesPosition(r, q.start) && !RangeIncludesPosition(q, r.start)
    ensures r.end != q.end
  {}

  /** A path of several names is longer than its head. */
  lemma PathIsLonger(root: Node, a: Address, idents: seq<Ident>)
    requires OneText(root) && NodeAt(root, a).Some? && NodeAt(root, a).value.kind == Path(idents) && |idents| >= 2
    ensures PathRange(idents) != idents[0].range
  {
    var s, t := Slot(a, Part(0)), Slot(a, Part(|idents| - 1));
    assert IdentAt(root, s) == Some(idents[0]) && IdentAt(root, t) == Some(idents[|idents| - 1]);
    assert !SameName(root, s, t);
    hide IdentAt, SameName;
    EndsApart(idents[0].range, idents[|idents| - 1].range);
  }
}
