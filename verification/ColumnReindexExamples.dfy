/** A document in which renaming a column of a derived table passes the test and lets a
    path fall to a table alias, or leaves the use of a SELECT alias behind. */
module ColumnReindexExamples {
  import opened Coordinates
  import opened Syntax
  import opened Editing
  import opened QueryShapes
  import opened Texts
  import opened SelectWalk
  import opened SelectIndexes
  import opened FromSlots
  import opened SparedBinders
  import opened ColumnSources
  import opened ColumnNames
  import opened ColumnMembers
  import opened ColumnEdits
  import opened ColumnReindex
  import opened ColumnSelects
  import opened SelectEditsReindex
  import Selects = SelectAliases
  import SelectAliasEdits
  import Uses = SelectAliasRename
  import Documents = SelectAliasDocument
  import Joints = SelectAliasReindex
  import Ctes = CteBindings
  import Tables = AliasBindings
  import Aliases = AliasRename
  import Columns = ColumnBindings
  import Rename = ColumnRename

  function Spot(i: nat): Range {
    Range(Position(i, 0), Position(i, 1))
  }

  function Name(name: string, i: nat): Ident {
    Ident(name, Spot(i))
  }

  // ----- The document -----

  /** SELECT STRUCT(1 AS x) AS t FROM B AS u GROUP BY t.x */
  function Inner(): Node {
    Node(Select(Spot(20), 1), [
        Node(Item(Some(Name("t", 5)), true), []),
        Node(TableName(Name("B", 6), Some(Name("u", 7))), []),
        Node(Clause, [Node(Path([Name("t", 8), Name("x", 9)]), [])])])
  }

  /** SELECT a.t FROM (...) AS a */
  function Outer(): Node {
    Node(Select(Spot(21), 1), [
        Node(Item(Some(Name("t", 3)), false), [Node(Path([Name("a", 2), Name("t", 3)]), [])]),
        Node(SubQueryTable(Some(Name("a", 4))), [Inner()])])
  }

  /** SELECT 1 AS x */
  function First(): Node {
    Node(Select(Spot(22), 1), [Node(Item(Some(Name("x", 1)), true), [])])
  }

  /** WITH B AS (SELECT 1 AS x) SELECT a.t FROM (...) AS a ORDER BY t */
  function Whole(): Node {
    Node(Query, [
        Node(Cte(Name("B", 0), Spot(23)), [First()]),
        Outer(),
        Node(Clause, [Node(Lone(Name("t", 10)), [])])])
  }

  function Statements(): seq<Node> {
    [Whole()]
  }

  function Root(): Node {
    Ctes.Document(Statements())
  }

  /** What stands at each place. */
  function InnerKind(a: Address): Option<Kind> {
    if a == [] then Some(Inner().kind)
    else if a == [0] then Some(Item(Some(Name("t", 5)), true))
    else if a == [1] then Some(TableName(Name("B", 6), Some(Name("u", 7))))
    else if a == [2] then Some(Clause)
    else if a == [2, 0] then Some(Path([Name("t", 8), Name("x", 9)]))
    else None
  }

  function OuterKind(a: Address): Option<Kind> {
    if a == [] then Some(Outer().kind)
    else if a == [0] then Some(Item(Some(Name("t", 3)), false))
    else if a == [0, 0] then Some(Path([Name("a", 2), Name("t", 3)]))
    else if a == [1] then Some(SubQueryTable(Some(Name("a", 4))))
    else if [1, 0] <= a then InnerKind(a[2..])
    else None
  }

  function KindAt(a: Address): Option<Kind> {
    if a == [] then Some(Other)
    else if a == [0] then Some(Query)
    else if a == [0, 0] then Some(Cte(Name("B", 0), Spot(23)))
    else if a == [0, 0, 0] then Some(Select(Spot(22), 1))
    else if a == [0, 0, 0, 0] then Some(Item(Some(Name("x", 1)), true))
    else if [0, 1] <= a then OuterKind(a[2..])
    else if a == [0, 2] then Some(Clause)
    else if a == [0, 2, 0] then Some(Lone(Name("t", 10)))
    else None
  }

  function KindOf(n: Option<Node>): Option<Kind> {
    if n.Some? then Some(n.value.kind) else None
  }

  lemma InnerTree(a: Address)
    ensures KindOf(NodeAt(Inner(), a)) == InnerKind(a)
  {
    var n := Inner();
    Unfold(n, a);
    if a != [] && a[0] < 3 {
      var b := a[1..];
      assert a == [a[0]] + b;
      Unfold(Kids(n)[a[0]], b);
      if a[0] == 2 && b != [] && b[0] == 0 {
        Unfold(Kids(Kids(n)[2])[0], b[1..]);
        assert b == [b[0]] + b[1..];
      }
    }
  }

  lemma OuterTree(a: Address)
    ensures KindOf(NodeAt(Outer(), a)) == OuterKind(a)
  {
    var n := Outer();
    Unfold(n, a);
    if a != [] && a[0] < 2 {
      var b := a[1..];
      assert a == [a[0]] + b;
      Unfold(Kids(n)[a[0]], b);
      if b != [] && b[0] == 0 {
        var c := b[1..];
        assert b == [b[0]] + c;
        if a[0] == 0 {
          Unfold(Kids(Kids(n)[0])[0], c);
        } else {
          assert a == [1, 0] + c && a[2..] == c;
          InnerTree(c);
        }
      }
    }
  }

  lemma Tree(a: Address)
    ensures KindOf(NodeAt(Root(), a)) == KindAt(a)
  {
    var n := Whole();
    Unfold(Root(), a);
    if a != [] && a[0] == 0 {
      var b := a[1..];
      assert a == [0] + b;
      Unfold(n, b);
      if b != [] && b[0] < 3 {
        var c := b[1..];
        assert b == [b[0]] + c && a == [0, b[0]] + c && a[2..] == c;
        if b[0] == 0 {
          FirstTree(c);
        } else if b[0] == 1 {
          OuterTree(c);
        } else {
          Unfold(Kids(n)[2], c);
          if c != [] && c[0] == 0 {
            Unfold(Kids(Kids(n)[2])[0], c[1..]);
            assert c == [0] + c[1..];
          }
        }
      }
    }
  }

  lemma FirstTree(c: Address)
    ensures KindOf(NodeAt(Kids(Whole())[0], c)) ==
            if c == [] then Some(Cte(Name("B", 0), Spot(23)))
            else if c == [0] then Some(Select(Spot(22), 1))
            else if c == [0, 0] then Some(Item(Some(Name("x", 1)), true))
            else None
  {
    var n := Kids(Whole())[0];
    Unfold(n, c);
    if c != [] && c[0] == 0 {
      var d := c[1..];
      assert c == [0] + d;
      Unfold(Kids(n)[0], d);
      if d != [] && d[0] == 0 {
        Unfold(Kids(Kids(n)[0])[0], d[1..]);
        assert d == [0] + d[1..];
      }
    }
  }

  // ----- Its names -----

  function HeldAt(kind: Option<Kind>, role: Role): Option<Ident> {
    if kind.Some? then Held(kind.value, role) else None
  }

  /** The kinds at all places, place by place. */
  lemma Kinds()
    ensures KindAt([0, 1]) == Some(Select(Spot(21), 1)) && KindAt([0, 1, 1, 0]) == Some(Select(Spot(20), 1))
    ensures KindAt([0, 1, 0]) == Some(Item(Some(Name("t", 3)), false))
    ensures KindAt([0, 1, 0, 0]) == Some(Path([Name("a", 2), Name("t", 3)]))
    ensures KindAt([0, 1, 1]) == Some(SubQueryTable(Some(Name("a", 4))))
    ensures KindAt([0, 1, 1, 0, 0]) == Some(Item(Some(Name("t", 5)), true))
    ensures KindAt([0, 1, 1, 0, 1]) == Some(TableName(Name("B", 6), Some(Name("u", 7))))
    ensures KindAt([0, 1, 1, 0, 2]) == Some(Clause)
    ensures KindAt([0, 1, 1, 0, 2, 0]) == Some(Path([Name("t", 8), Name("x", 9)]))
  {
    assert [0, 1][2..] == [] && [0, 1, 0][2..] == [0] && [0, 1, 0, 0][2..] == [0, 0] && [0, 1, 1][2..] == [1];
    assert [0, 1, 1, 0][2..] == [1, 0] && [0, 1, 1, 0, 0][2..] == [1, 0, 0] && [0, 1, 1, 0, 1][2..] == [1, 0, 1];
    assert [0, 1, 1, 0, 2][2..] == [1, 0, 2] && [0, 1, 1, 0, 2, 0][2..] == [1, 0, 2, 0];
    assert [1, 0][2..] == [] && [1, 0, 0][2..] == [0] && [1, 0, 1][2..] == [1] && [1, 0, 2][2..] == [2] &&
      [1, 0, 2, 0][2..] == [2, 0];
  }

  /** There are no other places. */
  lemma Places(a: Address)
    requires KindAt(a).Some? && [0, 1] <= a
    ensures a == [0, 1] || a == [0, 1, 0] || a == [0, 1, 0, 0] || a == [0, 1, 1] || a == [0, 1, 1, 0] ||
            a == [0, 1, 1, 0, 0] ||
            a == [0, 1, 1, 0, 1] || a == [0, 1, 1, 0, 2] || a == [0, 1, 1, 0, 2, 0]
  {
    var b := a[2..];
    assert a == [0, 1] + b;
    if [1, 0] <= b { assert b == [1, 0] + b[2..]; }
  }

  lemma Idents(s: Slot)
    ensures IdentAt(Root(), s) == HeldAt(KindAt(s.at), s.role)
  {
    Tree(s.at);
    hide Root, NodeAt, KindAt, Held;
  }

  /** The places of the numbered names. The item of the outer list shares the third. */
  predicate InnerAt(a: Address, role: Role, i: int) {
    || (i == 5 && a == [0] && role == Result)
    || (i == 6 && a == [1] && role == Role.Table) || (i == 7 && a == [1] && role == AsAlias)
    || (i == 8 && a == [2, 0] && role == Part(0)) || (i == 9 && a == [2, 0] && role == Part(1))
  }

  predicate OuterAt(a: Address, role: Role, i: int) {
    || (i == 2 && a == [0, 0] && role == Part(0)) || (i == 3 && a == [0, 0] && role == Part(1))
    || (i == 3 && a == [0] && role == Result)
    || (i == 4 && a == [1] && role == AsAlias)
    || ([1, 0] <= a && InnerAt(a[2..], role, i))
  }

  predicate NumberAt(a: Address, role: Role, i: int) {
    || (i == 0 && a == [0, 0] && role == CteName)
    || (i == 1 && a == [0, 0, 0, 0] && role == Result)
    || (i == 10 && a == [0, 2, 0] && role == Single)
    || ([0, 1] <= a && OuterAt(a[2..], role, i))
  }

  lemma InnerNumbers(a: Address, role: Role)
    requires HeldAt(InnerKind(a), role).Some?
    ensures var r := HeldAt(InnerKind(a), role).value.range; InnerAt(a, role, r.start.line) && r == Spot(r.start.line)
  {}

  lemma OuterNumbers(a: Address, role: Role)
    requires HeldAt(OuterKind(a), role).Some?
    ensures var r := HeldAt(OuterKind(a), role).value.range; OuterAt(a, role, r.start.line) && r == Spot(r.start.line)
  {
    if [1, 0] <= a {
      assert a[0] == 1 && a[1] == 0;
      InnerNumbers(a[2..], role);
    }
    hide InnerAt, InnerKind;
  }

  lemma Numbers(s: Slot)
    requires IdentAt(Root(), s).Some?
    ensures var r := IdentAt(Root(), s).value.range;
            0 <= r.start.line <= 10 && NumberAt(s.at, s.role, r.start.line) && r == Spot(r.start.line)
  {
    Idents(s);
    hide Root, IdentAt;
    if [0, 1] <= s.at {
      assert s.at[0] == 0 && s.at[1] == 1;
      OuterNumbers(s.at[2..], s.role);
    }
    hide OuterKind;
  }

  lemma OneInner(a: Address, x: Role, c: Address, y: Role, i: int)
    requires InnerAt(a, x, i) && InnerAt(c, y, i)
    ensures a == c && x == y
  {}

  /** A number has one place, but for the third. */
  lemma OneOuter(a: Address, x: Role, c: Address, y: Role, i: int)
    requires OuterAt(a, x, i) && OuterAt(c, y, i)
    ensures i != 3 ==> a == c && x == y
    ensures i == 3 ==> (a == [0] && x == Result) || (a == [0, 0] && x == Part(1))
  {
    if [1, 0] <= a && [1, 0] <= c {
      assert a[1] == 0 && a[0] == 1 && c[1] == 0 && c[0] == 1;
      OneInner(a[2..], x, c[2..], y, i);
      assert a == [1, 0] + a[2..] && c == [1, 0] + c[2..];
    }
  }

  lemma OnePlace(a: Address, x: Role, c: Address, y: Role, i: int)
    requires NumberAt(a, x, i) && NumberAt(c, y, i)
    ensures i != 3 ==> a == c && x == y
    ensures i == 3 ==> (a == [0, 1, 0] && x == Result) || (a == [0, 1, 0, 0] && x == Part(1))
  {
    hide OuterAt;
    if [0, 1] <= a {
      assert a[0] == 0 && a[1] == 1 && a == [0, 1] + a[2..];
      OuterRange(a[2..], x, i);
      OneOuter(a[2..], x, a[2..], x, i);
    }
    if [0, 1] <= c {
      assert c[0] == 0 && c[1] == 1 && c == [0, 1] + c[2..];
      OuterRange(c[2..], y, i);
    }
    if [0, 1] <= a && [0, 1] <= c { OneOuter(a[2..], x, c[2..], y, i); }
  }

  lemma OuterRange(a: Address, role: Role, i: int)
    requires OuterAt(a, role, i)
    ensures 2 <= i <= 9
  {}

  // ----- It is one text -----

  lemma KindHere(a: Address)
    ensures KindAt(a).Some? <==> NodeAt(Root(), a).Some?
    ensures KindAt(a).Some? ==> NodeAt(Root(), a).value.kind == KindAt(a).value
    ensures IsQuery(Root(), a) <==> KindAt(a) == Some(Query)
    ensures IsSelect(Root(), a) <==> KindAt(a).Some? && KindAt(a).value.Select?
  {
    Tree(a);
    hide Root, NodeAt, KindAt;
  }

  /** The SELECTs and the one query. */
  lemma Queries(a: Address)
    ensures IsSelect(Root(), a) <==> a == [0, 0, 0] || a == [0, 1] || a == [0, 1, 1, 0]
    ensures IsQuery(Root(), a) <==> a == [0]
  {
    KindHere(a);
    hide Root, NodeAt;
    Kinds();
    if [0, 1] <= a {
      assert a[0] == 0 && a[1] == 1 && a == [0, 1] + a[2..];
      if [1, 0] <= a[2..] { assert a[2..] == [1, 0] + a[2..][2..]; }
    }
  }

  lemma BetweenItem()
    ensures NoQuery(Root(), [0, 1, 0], [0, 1, 0, 0])
  {
    hide Root, NodeAt, IsQuery, IsSelect;
    forall c | [0, 1, 0] <= c <= [0, 1, 0, 0] ensures !IsQuery(Root(), c) && !IsSelect(Root(), c) {
      assert |c| >= 3 && c[1] == 1 && c[2] == 0;
      Queries(c);
      assert c != [0, 1, 1, 0];
    }
  }

  lemma ItemNames()
    ensures IdentAt(Root(), Slot([0, 1, 0], Result)) == Some(Name("t", 3))
    ensures IdentAt(Root(), Slot([0, 1, 0, 0], Part(1))) == Some(Name("t", 3))
    ensures Implicit(Root(), Slot([0, 1, 0], Result))
  {
    hide Root, NodeAt, KindAt, IdentAt;
    Kinds();
    Idents(Slot([0, 1, 0], Result));
    Idents(Slot([0, 1, 0, 0], Part(1)));
    KindHere([0, 1, 0]);
  }

  lemma ItemIsNamed()
    ensures NamedBy(Root(), Slot([0, 1, 0], Result), Slot([0, 1, 0, 0], Part(1)))
  {
    ItemNames();
    BetweenItem();
    hide Root, IdentAt, NoQuery, Implicit;
  }

  lemma SpotsApart(i: int, j: int)
    requires i >= 0 && j >= 0
    ensures RangeIncludesPosition(Spot(i), Spot(j).start) ==> i == j
    ensures Before(Spot(i).start, Spot(i).end)
  {}

  lemma ExampleText()
    ensures OneText(Root())
  {
    hide Root, IdentAt, NumberAt, RangeIncludesPosition, Before, Spot;
    forall s | IdentAt(Root(), s).Some?
      ensures Before(IdentAt(Root(), s).value.range.start, IdentAt(Root(), s).value.range.end)
    {
      Numbers(s);
      SpotsApart(IdentAt(Root(), s).value.range.start.line, 0);
    }
    forall s, t | IdentAt(Root(), s).Some? && IdentAt(Root(), t).Some? &&
        RangeIncludesPosition(IdentAt(Root(), s).value.range, IdentAt(Root(), t).value.range.start)
      ensures SameName(Root(), s, t)
    {
      TwoNames(s, t);
    }
  }

  lemma TwoNames(s: Slot, t: Slot)
    requires IdentAt(Root(), s).Some? && IdentAt(Root(), t).Some?
    requires RangeIncludesPosition(IdentAt(Root(), s).value.range, IdentAt(Root(), t).value.range.start)
    ensures SameName(Root(), s, t)
  {
    hide Root, IdentAt, NumberAt, RangeIncludesPosition, Spot, NamedBy;
    Numbers(s);
    Numbers(t);
    var i, j := IdentAt(Root(), s).value.range.start.line, IdentAt(Root(), t).value.range.start.line;
    SpotsApart(i, j);
    OnePlace(s.at, s.role, t.at, t.role, i);
    OnePlace(t.at, t.role, t.at, t.role, i);
    ItemIsNamed();
  }

  lemma ExampleParsed()
    ensures Parsed(Root())
  {
    ExampleText();
    hide Root, OneText, UsesAt, Entries;
    forall e | e in Entries(Root()) ensures Documents.LongPaths(UsesAt(Root(), e)) {
      EntriesAre(Root(), e);
      UsesOfEntry(Root(), e);
      hide IsEntry, PlacesAt, ClausePlaces, InClause;
      forall k: nat | k < |UsesAt(Root(), e)| && UsesAt(Root(), e)[k].Headed?
        ensures |UsesAt(Root(), e)[k].idents| >= 2
      {
        assert IsUse(Root(), UsesAt(Root(), e)[k], PlacesAt(Root(), e)[k]);
        PathsAreLong(PlacesAt(Root(), e)[k]);
      }
    }
  }

  lemma PathsAreLong(a: Address)
    requires NodeAt(Root(), a).Some? && NodeAt(Root(), a).value.kind.Path?
    ensures |NodeAt(Root(), a).value.kind.idents| == 2
  {
    KindHere(a);
    hide Root, NodeAt;
    if [0, 1] <= a {
      assert a[0] == 0 && a[1] == 1;
      var b := a[2..];
      if [1, 0] <= b { assert b[0] == 1 && b[1] == 0; }
    }
  }

  // ----- What its names mean -----

  lemma Nodes()
    ensures NodeAt(Root(), [0]) == Some(Whole()) && NodeAt(Root(), [0, 0, 0]) == Some(First())
    ensures NodeAt(Root(), [0, 1]) == Some(Outer()) && NodeAt(Root(), [0, 1, 1, 0]) == Some(Inner())
  {
    var root := Root();
    NodeAtChild(root, [], 0);
    assert [] + [0] == [0];
    NodeAtChild(root, [0], 0);
    assert [0] + [0] == [0, 0];
    NodeAtChild(root, [0, 0], 0);
    assert [0, 0] + [0] == [0, 0, 0];
    NodeAtChild(root, [0], 1);
    assert [0] + [1] == [0, 1];
    NodeAtChild(root, [0, 1], 1);
    assert [0, 1] + [1] == [0, 1, 1];
    NodeAtChild(root, [0, 1, 1], 0);
    assert [0, 1, 1] + [0] == [0, 1, 1, 0];
  }

  /** The aliases of each FROM clause. */
  lemma Froms(ctes: seq<Ctes.CteSite>)
    ensures Tables.SelectAliases(Outer(), ctes) == [Tables.Alias(Name("a", 4), Tables.FromQuery(Inner()))]
    ensures |Tables.SelectAliases(Inner(), ctes)| == 1 && Tables.SelectAliases(Inner(), ctes)[0].name == Name("u", 7)
    ensures Tables.SelectAliases(First(), ctes) == []
    ensures Tables.SelectSourceRanges(Outer()) == {} && Tables.SelectSourceRanges(Inner()) == {}
  {}

  lemma OneAlias(aliases: seq<Tables.Alias>, p: Address, key: string)
    requires |aliases| == 1
    ensures Tables.Local(aliases, p, key) == if Tables.Key(aliases[0]) == key then Tables.Bound(Tables.AliasDecl(p, 0))
            else Tables.Unbound
  {}

  /** The aliases of each FROM clause, by their keys. */
  lemma Locals(ctes: seq<Ctes.CteSite>, p: Address, key: string)
    ensures Tables.LocalAt(Root(), ctes, p, key) ==
            if p == [0, 1] && key == "A" then Tables.Bound(Tables.AliasDecl(p, 0))
            else if p == [0, 1, 1, 0] && key == "U" then Tables.Bound(Tables.AliasDecl(p, 0))
            else Tables.Unbound
  {
    Nodes();
    Queries(p);
    Keys();
    Froms(ctes);
    hide Root, NodeAt, Inner, Outer, First, Tables.SelectAliases, Tables.Local, Fold;
    if IsSelect(Root(), p) {
      if p != [0, 0, 0] { OneAlias(Tables.Siblings(Root(), ctes, Tables.AliasDecl(p, 0)), p, key); }
    } else {
      NoSelect(p, ctes);
    }
    assert Tables.Local([], p, key) == Tables.Unbound by { NoAlias(p, key); }
  }

  lemma NoAlias(p: Address, key: string)
    ensures Tables.Local([], p, key) == Tables.Unbound
  {}

  lemma NoSelect(p: Address, ctes: seq<Ctes.CteSite>)
    requires !IsSelect(Root(), p)
    ensures Tables.Siblings(Root(), ctes, Tables.AliasDecl(p, 0)) == []
  {}

  lemma Keys()
    ensures Fold("a") == "A" && Fold("u") == "U" && Fold("t") == "T" && Fold("y") == "Y"
    ensures "A" != "U" && "A" != "T" && "U" != "T" && "Y" != "A" && "Y" != "U" && "Y" != "T"
  {
    assert "A"[0] != "U"[0] && "A"[0] != "T"[0] && "U"[0] != "T"[0] && "Y"[0] != "A"[0] && "Y"[0] != "U"[0] &&
      "Y"[0] != "T"[0];
  }

  // ----- The two paths -----

  /** The path t.x of the inner query, and the path a.t of the outer one. */
  function Grouped(): Address {
    [0, 1, 1, 0, 2, 0]
  }

  function Chosen(): Address {
    [0, 1, 0, 0]
  }

  /** The two paths, where they stand. */
  lemma PathNodes()
    ensures NodeAt(Root(), Grouped()) == Some(Node(Path([Name("t", 8), Name("x", 9)]), []))
    ensures NodeAt(Root(), Chosen()) == Some(Node(Path([Name("a", 2), Name("t", 3)]), []))
  {
    Nodes();
    hide NodeAt;
    Child([0, 1, 1, 0], Inner(), 2);
    Child([0, 1, 1, 0] + [2], Kids(Inner())[2], 0);
    Child([0, 1], Outer(), 0);
    Child([0, 1] + [0], Kids(Outer())[0], 0);
    hide Root;
    assert [0, 1, 1, 0] + [2] + [0] == Grouped() && [0, 1] + [0] + [0] == Chosen();
  }

  lemma Child(a: Address, n: Node, k: nat)
    requires NodeAt(Root(), a) == Some(n) && k < |Kids(n)|
    ensures NodeAt(Root(), a + [k]) == Some(Kids(n)[k])
  {
    NodeAtChild(Root(), a, k);
  }

  lemma SourcesUp(root: Node, p: Address, k: nat)
    ensures Tables.SourcesAround(root, p + [k]) ==
            if IsSelect(root, p) then Tables.SelectSourceRanges(NodeAt(root, p).value)
               else Tables.SourcesAround(root, p)
  {
    var a := p + [k];
    assert a[..|a| - 1] == p;
    hide NodeAt, Tables.SelectSourceRanges;
  }

  /** Neither path lies in a SELECT whose FROM clause holds a path. */
  lemma NoSources()
    ensures Tables.SourcesAround(Root(), Grouped()) == {} && Tables.SourcesAround(Root(), Chosen()) == {}
  {
    Nodes();
    Froms([]);
    hide Root, NodeAt, Tables.SourcesAround, Tables.SelectSourceRanges, IsSelect, Inner, Outer;
    Queries([0, 1, 1, 0]);
    Queries([0, 1, 1, 0] + [2]);
    Queries([0, 1]);
    Queries([0, 1] + [0]);
    assert ([0, 1] + [0])[1] == 1 && [0, 1] + [0] != [0, 0, 0];
    assert !IsSelect(Root(), [0, 1] + [0]) && !IsSelect(Root(), [0, 1, 1, 0] + [2]);
    SourcesUp(Root(), [0, 1, 1, 0], 2);
    SourcesUp(Root(), [0, 1, 1, 0] + [2], 0);
    SourcesUp(Root(), [0, 1], 0);
    SourcesUp(Root(), [0, 1] + [0], 0);
    assert [0, 1, 1, 0] + [2] + [0] == Grouped() && [0, 1] + [0] + [0] == Chosen();
  }

  lemma Paths(a: Address)
    ensures Tables.Qualifier(Root(), a) ==
            if a == Grouped() then Some(Name("t", 8)) else if a == Chosen() then Some(Name("a", 2)) else None
  {
    PathNodes();
    NoSources();
    hide Root, NodeAt, Tables.SourcesAround, Grouped, Chosen;
    if a != Grouped() && a != Chosen() { NoPath(a); }
  }

  lemma NoPath(a: Address)
    requires a != Grouped() && a != Chosen()
    ensures Tables.Qualifier(Root(), a).None?
  {
    KindHere(a);
    Kinds();
    if KindAt(a).Some? && [0, 1] <= a { Places(a); }
    hide Root, NodeAt, Tables.SourcesAround, InnerKind, OuterKind;
  }

  lemma Up(ctes: seq<Ctes.CteSite>, p: Address, k: nat, key: string)
    ensures Tables.ResolveAlias(Root(), p + [k], key, ctes) ==
            if Tables.LocalAt(Root(), ctes, p, key).Unbound? then Tables.ResolveAlias(Root(), p, key, ctes)
            else Tables.LocalAt(Root(), ctes, p, key)
  {
    Tables.StepOut(Root(), ctes, p + [k], key);
    assert (p + [k])[..|p + [k]| - 1] == p;
  }

  lemma OuterMeaning(ctes: seq<Ctes.CteSite>, key: string)
    ensures Tables.ResolveAlias(Root(), [0, 1], key, ctes).Unbound?
    ensures Tables.ResolveAlias(Root(), [0, 1] + [0] + [0], key, ctes) == Tables.LocalAt(Root(), ctes, [0, 1], key)
  {
    hide Root, Tables.LocalAt, Tables.ResolveAlias;
    Up(ctes, [0, 1] + [0], 0, key);
    Up(ctes, [0, 1], 0, key);
    Up(ctes, [0], 1, key);
    Up(ctes, [], 0, key);
    Tables.StepOut(Root(), ctes, [], key);
    Locals(ctes, [0, 1] + [0], key);
    Locals(ctes, [0], key);
    Locals(ctes, [], key);
    assert [0] + [1] == [0, 1] && [] + [0] == [0];
  }

  lemma InnerMeaning(ctes: seq<Ctes.CteSite>, key: string)
    requires key != "A"
    ensures Tables.ResolveAlias(Root(), [0, 1, 1, 0] + [2] + [0], key, ctes) ==
            Tables.LocalAt(Root(), ctes, [0, 1, 1, 0], key)
  {
    OuterMeaning(ctes, key);
    hide Root, Tables.LocalAt, Tables.ResolveAlias;
    Up(ctes, [0, 1, 1, 0] + [2], 0, key);
    Up(ctes, [0, 1, 1, 0], 2, key);
    Up(ctes, [0, 1, 1], 0, key);
    Up(ctes, [0, 1], 1, key);
    Locals(ctes, [0, 1, 1, 0] + [2], key);
    Locals(ctes, [0, 1, 1], key);
    Locals(ctes, [0, 1], key);
    assert [0, 1] + [1] == [0, 1, 1] && [0, 1, 1] + [0] == [0, 1, 1, 0];
  }

  lemma Meanings(ctes: seq<Ctes.CteSite>)
    ensures Tables.ResolveAlias(Root(), Grouped(), "T", ctes).Unbound? &&
            Tables.ResolveAlias(Root(), Grouped(), "Y", ctes).Unbound?
    ensures Tables.ResolveAlias(Root(), Grouped(), "U", ctes) == Tables.Bound(Tables.AliasDecl([0, 1, 1, 0], 0))
    ensures Tables.ResolveAlias(Root(), Chosen(), "A", ctes) == Tables.Bound(Tables.AliasDecl([0, 1], 0))
  {
    Keys();
    hide Root, Tables.LocalAt, Tables.ResolveAlias, Fold;
    InnerMeaning(ctes, "T");
    InnerMeaning(ctes, "Y");
    InnerMeaning(ctes, "U");
    OuterMeaning(ctes, "A");
    Locals(ctes, [0, 1, 1, 0], "T");
    Locals(ctes, [0, 1, 1, 0], "Y");
    Locals(ctes, [0, 1, 1, 0], "U");
    Locals(ctes, [0, 1], "A");
    assert [0, 1, 1, 0] + [2] + [0] == Grouped() && [0, 1] + [0] + [0] == Chosen();
  }

  // ----- The two SELECTs with uses -----

  function InnerEntry(): Indexed {
    Indexed([0, 1, 1, 0], None)
  }

  function OuterEntry(): Indexed {
    Indexed([0, 1], Some([0]))
  }

  lemma ListedAt(a: Address, e: Indexed)
    requires NodeAt(Root(), a).Some? && e in At(Root(), a)
    ensures e in Entries(Root())
  {
    PreorderIsWhole(Root());
    hide Root, Preorder, At, NodeAt;
    assert e in In(Root())(a);
    AlongMembers(Preorder(Root(), []), In(Root()), e);
  }

  lemma Listed()
    ensures InnerEntry() in Entries(Root()) && OuterEntry() in Entries(Root())
  {
    Nodes();
    assert Ctes.CteCount(Whole()) == 1;
    assert [0] + [1] == [0, 1] && [0, 1, 1, 0][..3] == [0, 1, 1];
    hide Root, NodeAt, Whole;
    Queries([0]);
    Queries([0, 1]);
    Queries([0, 1, 1]);
    Queries([0, 1, 1, 0]);
    assert At(Root(), [0]) == [OuterEntry()];
    assert At(Root(), [0, 1, 1, 0]) == [InnerEntry()];
    ListedAt([0], OuterEntry());
    ListedAt([0, 1, 1, 0], InnerEntry());
  }

  lemma OneClause(root: Node, c: Address, n: Node, use: Selects.Use)
    requires NodeAt(root, c) == Some(n) && Selects.UsesOf(n) == [use] && Standing(n, c) == [c + [0]]
    ensures Selects.UsesIn(NodesAt(root, [c])) == [use] && StandingIn(root, [c]) == [c + [0]]
  {
    hide NodeAt, Selects.UsesOf, Standing;
    assert [c][..0] == [] && NodesAt(root, []) == [] && StandingIn(root, []) == [];
    assert NodesAt(root, [c]) == [n];
    assert [n][..0] == [] && Selects.UsesIn([]) == [];
  }

  lemma InnerPlaces()
    ensures AliasesAt(Root(), InnerEntry()) == [Selects.Alias(Name("t", 5), true)]
    ensures ClausePlaces(Root(), InnerEntry()) == [[0, 1, 1, 0, 2]]
    ensures NodeAt(Root(), [0, 1, 1, 0, 2]) == Some(Kids(Inner())[2])
  {
    var here: Address := [0, 1, 1, 0];
    hide Root, NodeAt, ClauseKids, Selects.Aliases;
    Nodes();
    Child(here, Inner(), 2);
    InnerClauses(here);
    assert here + [2] == [0, 1, 1, 0, 2];
  }

  lemma InnerUses()
    ensures AliasesAt(Root(), InnerEntry()) == [Selects.Alias(Name("t", 5), true)]
    ensures UsesAt(Root(), InnerEntry()) == [Selects.Headed([Name("t", 8), Name("x", 9)])]
    ensures PlacesAt(Root(), InnerEntry()) == [Grouped()]
  {
    var c: Address, clause := [0, 1, 1, 0, 2], Kids(Inner())[2];
    hide Root, NodeAt, AliasesAt, ClausePlaces, Selects.UsesIn, NodesAt, StandingIn, Selects.UsesOf, Standing;
    InnerPlaces();
    OnlyUse(clause, c);
    OneClause(Root(), c, clause, Selects.Headed([Name("t", 8), Name("x", 9)]));
    assert c + [0] == Grouped();
  }

  lemma InnerClauses(here: Address)
    ensures ClauseKids(Inner(), here, 0) == [here + [2]]
    ensures Selects.Aliases(Kids(Inner())) == [Selects.Alias(Name("t", 5), true)]
  {
    var kids := Kids(Inner());
    LastIsClause(Inner(), here);
    assert kids[..2][..1] == kids[..1] && kids[..1][..0] == [] && Selects.Aliases([]) == [];
    assert Selects.Aliases(kids[..1]) == [Selects.Alias(Name("t", 5), true)];
    assert Selects.Aliases(kids[..2]) == [Selects.Alias(Name("t", 5), true)];
  }

  lemma OnlyUse(clause: Node, c: Address)
    requires clause.kind.Clause? && |Kids(clause)| == 1
    ensures Kids(clause)[0].kind.Path? ==> Selects.UsesOf(clause) == [Selects.Headed(Kids(clause)[0].kind.idents)]
    ensures Kids(clause)[0].kind.Lone? ==> Selects.UsesOf(clause) == [Selects.Bare(Kids(clause)[0].kind.ident)]
    ensures Kids(clause)[0].kind.Path? || Kids(clause)[0].kind.Lone? ==> Standing(clause, c) == [c + [0]]
  {
    UsesOfKind(clause, c);
    UsesOfKind(Kids(clause)[0], c + [0]);
    UsesFromStep(clause, c, 0);
    UsesFromStep(clause, c, 1);
    if Kids(clause)[0].kind.Lone? {
      assert Selects.UsesOf(Kids(clause)[0]) == [Selects.Bare(Kids(clause)[0].kind.ident)];
    }
    hide Standing, Selects.UsesFrom, StandingFrom;
  }

  lemma OuterUses()
    ensures AliasesAt(Root(), OuterEntry()) == [Selects.Alias(Name("t", 3), false)]
    ensures UsesAt(Root(), OuterEntry()) == [Selects.Bare(Name("t", 10))]
    ensures PlacesAt(Root(), OuterEntry()) == [[0, 2, 0]]
  {
    hide Root, NodeAt, ClauseKids, Selects.UsesIn, NodesAt, StandingIn, Selects.Aliases, Selects.UsesOf, Standing;
    Nodes();
    Child([0], Whole(), 2);
    OuterClauses();
    var clause := Kids(Whole())[2];
    OnlyUse(clause, [0] + [2]);
    assert ClausePlaces(Root(), OuterEntry()) == [[0] + [2]];
    OneClause(Root(), [0] + [2], clause, Selects.Bare(Name("t", 10)));
    assert [0] + [2] + [0] == [0, 2, 0];
  }

  lemma OuterClauses()
    ensures ClauseKids(Whole(), [0], 0) == [[0] + [2]] && ClauseKids(Outer(), [0, 1], 0) == []
    ensures Selects.Aliases(Kids(Outer())) == [Selects.Alias(Name("t", 3), false)]
  {
    LastIsClause(Whole(), [0]);
    NoClause(Outer(), [0, 1]);
    var kids := Kids(Outer());
    assert kids[..1][..0] == [] && Selects.Aliases([]) == [];
    assert Selects.Aliases(kids[..1]) == [Selects.Alias(Name("t", 3), false)];
  }

  lemma LastIsClause(n: Node, here: Address)
    requires |Kids(n)| == 3 && !Kids(n)[0].kind.Clause? && !Kids(n)[1].kind.Clause? && Kids(n)[2].kind.Clause?
    ensures ClauseKids(n, here, 0) == [here + [2]]
  {
    assert ClauseKids(n, here, 3) == [] && ClauseKids(n, here, 2) == [here + [2]] &&
      ClauseKids(n, here, 1) == [here + [2]];
  }

  lemma NoClause(n: Node, here: Address)
    requires |Kids(n)| == 2 && !Kids(n)[0].kind.Clause? && !Kids(n)[1].kind.Clause?
    ensures ClauseKids(n, here, 0) == []
  {
    assert ClauseKids(n, here, 2) == [] && ClauseKids(n, here, 1) == [];
  }

  // ----- The column t of a -----

  ghost function Extracted(x: Indexes): Columns.Document {
    DocumentOf(Root(), x)
  }

  /** A binding of a column named t. */
  ghost predicate OfT(x: Indexes, p: Columns.Place, b: Columns.ColumnBinding) {
    && FromBinders(Statements(), x) && b.name == "t"
    && Columns.Stands(Extracted(x), b, p)
  }

  /** The item of a binding, explicit or not. */
  lemma ItemOf(x: Indexes, p: Columns.Place, b: Columns.ColumnBinding)
    requires OfT(x, p, b)
    ensures var place := QueryPlace(Root(), x.ctes.sites, p.owner);
            && place.Some? && NodeAt(Root(), place.value).Some? && place.value != []
            && HoldsOwner(Root(), p.owner, place.value[..|place.value| - 1])
            && Rename.ItemsOf(SourcesOf(Root(), x), p.owner) == ListOf(NodeAt(Root(), place.value).value)
    ensures Rename.ItemAt(SourcesOf(Root(), x), p) == Some(Column("t", b.declarationRange, b.explicit))
    ensures ItemStandsAt(Root(), Column("t", b.declarationRange, b.explicit), ItemPlace(Statements(), x, p))
    ensures var a := ItemPlace(Statements(), x, p);
            a != [] && QueryPlace(Root(), x.ctes.sites, p.owner).value == a[..|a| - 1]
  {
    var d := Extracted(x);
    DocumentFromItems(Root(), x);
    Rename.OwnsIff(d, SourcesOf(Root(), x), p);
    hide DocumentOf, SourcesOf, Ctes.IsIndexOf, Tables.IsIndexOf, IsJointIndex, Columns.ListsConsumers, Rename.ItemAt,
      Whole, HoldsOwner,
      ListOf, NodeAt, ItemStandsAt, QueryPlace;
    assert Rename.ItemAt(SourcesOf(Root(), x), p).Some?;
    ItemStands(Statements(), x, p);
    ItemsExist(SourcesOf(Root(), x), p);
    OwnerList(Statements(), x, p.owner);
  }

  lemma ItemsExist(s: Rename.Sources, p: Columns.Place)
    requires Rename.ItemAt(s, p).Some?
    ensures Rename.ItemsOf(s, p.owner).Some?
  {}

  /** Where an item named t stands in a query of a CTE or a subquery. */
  lemma OnlyItem(column: Column, a: Address, owner: Columns.Owner)
    requires ItemStandsAt(Root(), column, a) && column.name == "t" && |a| >= 2 &&
             HoldsOwner(Root(), owner, a[..|a| - 1][..|a| - 2])
    ensures a == [0, 1, 1, 0, 0] && column == Column("t", Spot(5), true) && owner.OfAlias?
  {
    KindHere(a);
    KindHere(a[..|a| - 1][..|a| - 2]);
    Kinds();
    if KindAt(a).Some? && [0, 1] <= a { Places(a); }
    assert [0, 1, 0][..2][..1] == [0] && [0, 1, 1, 0, 0][..4][..3] == [0, 1, 1];
    hide Root, NodeAt, InnerKind, OuterKind;
  }

  lemma TheColumn(x: Indexes, p: Columns.Place, b: Columns.ColumnBinding)
    requires OfT(x, p, b)
    ensures b.declarationRange == Spot(5) && b.explicit && p.owner.OfAlias?
    ensures QueryPlace(Root(), x.ctes.sites, p.owner) == Some([0, 1, 1, 0])
    ensures Rename.ItemsOf(SourcesOf(Root(), x), p.owner) == Some([Some(Column("t", Spot(5), true))]) && p.column == 0
  {
    hide Root, SourcesOf, QueryPlace, ItemStandsAt, HoldsOwner, ListOf, OfT, Inner, ItemPlace, NodeAt;
    ItemOf(x, p, b);
    Nodes();
    InnerList();
    var a := ItemPlace(Statements(), x, p);
    assert a[..|a| - 1][..|a| - 2] == QueryPlace(Root(), x.ctes.sites, p.owner).value[..|a| - 2];
    OnlyItem(Column("t", b.declarationRange, b.explicit), a, p.owner);
    assert a[..4] == [0, 1, 1, 0];
  }

  lemma InnerList()
    ensures ListOf(Inner()) == Some([Some(Column("t", Spot(5), true))])
  {
    var kids := Kids(Inner());
    assert kids[..2][..1] == kids[..1] && kids[..1][..0] == [] && ItemColumns([]) == [];
    assert ItemColumns(kids[..1]) == [Some(Column("t", Spot(5), true))];
    assert ItemColumns(kids[..2]) == [Some(Column("t", Spot(5), true))];
  }

  /** Every new name passes the test. */
  lemma Passes(x: Indexes, p: Columns.Place, b: Columns.ColumnBinding, newName: string)
    requires OfT(x, p, b)
    ensures Renames(Statements(), x, p, b)
    ensures Columns.Owns(Extracted(x), p.owner)
    ensures Rename.NameIsFree(Columns.ColumnsOf(Extracted(x), p.owner), p.column, newName)
  {
    TheColumn(x, p, b);
    ExampleParsed();
    DocumentFromItems(Root(), x);
    Rename.OwnsIff(Extracted(x), SourcesOf(Root(), x), p);
    hide DocumentOf, SourcesOf, Ctes.IsIndexOf, Tables.IsIndexOf, IsJointIndex, Parsed, Whole, Columns.Owns,
      Columns.ColumnsOf,
      Rename.FromItems, Columns.ListsConsumers;
  }

  // ----- Its members and its own references -----

  /** GROUP BY t.x is a use of the alias t. */
  lemma GroupedRefers(ctes: seq<Ctes.CteSite>)
    ensures ReferenceStands(Root(), ctes, Spot(8), InnerEntry(), 0) && RefersTo(Root(), InnerEntry(), 0, 0, Spot(5))
  {
    var root, e := Root(), InnerEntry();
    hide Root, Entries, AliasesAt, UsesAt, PlacesAt, IsEntry, Tables.Qualifier, Tables.ResolveAlias, Fold, InnerEntry,
      Grouped;
    Listed();
    EntriesAre(root, e);
    InnerUses();
    Paths(Grouped());
    Meanings(ctes);
    Keys();
    assert Selects.Key(AliasesAt(root, e)[0]) == "T";
  }

  /** So it refers to the column. */
  lemma OwnPath(x: Indexes, p: Columns.Place, b: Columns.ColumnBinding)
    requires OfT(x, p, b)
    ensures Spot(8) in Own(Extracted(x), b)
  {
    var root := Root();
    hide Root, Own, DocumentOf, Parsed, Entries, ReferenceStands, RefersTo, OfT, Statements, InnerEntry, SourcesOf,
      QueryPlace, FromBinders;
    RootIs();
    OfTMeans(x, p, b);
    TheColumn(x, p, b);
    ExampleParsed();
    Listed();
    GroupedRefers(x.ctes.sites);
    assert IsOwnUse(root, x.ctes.sites, Spot(8), InnerEntry(), 0, 0, Spot(5));
    OwnIff(Statements(), x, b, Spot(8));
  }

  lemma RootIs()
    ensures Root() == Ctes.Document(Statements())
  {}

  /** The one member of the document is that of a.t. */
  lemma OnlyMember(ctes: seq<Ctes.CteSite>, site: Tables.MemberSite, a: Address)
    requires MemberStandsAt(Root(), ctes, site, a)
    ensures a == Chosen() && site.name == "t" && site.range == Spot(3)
    ensures site.binding < |Tables.Decls(Root(), ctes)| &&
            Tables.Decls(Root(), ctes)[site.binding].decl == Tables.AliasDecl([0, 1], 0)
  {
    Paths(a);
    PathNodes();
    Meanings(ctes);
    Keys();
    hide Root, NodeAt, Tables.Qualifier, Tables.ResolveAlias, Tables.Decls, Fold, Grouped, Chosen;
  }

  lemma OwnerDecl(x: Indexes, p: Columns.Place, b: Columns.ColumnBinding, c: nat)
    requires OfT(x, p, b) && c < |Tables.Decls(Root(), x.ctes.sites)|
    requires Tables.Decls(Root(), x.ctes.sites)[c].decl == Tables.AliasDecl([0, 1], 0)
    ensures p.owner == Columns.OfAlias(c)
  {
    TheColumn(x, p, b);
    OwnerSlot(Statements(), x, p.owner);
    Tables.DeclarationIsSibling(Root(), x.ctes.sites, c);
    Tables.DeclsInOrder(Root(), x.ctes.sites);
    SlotOfA();
    hide Root, Tables.Decls, DeclSlot, SourcesOf, Ctes.IsIndexOf, Tables.IsIndexOf, IsJointIndex, Extracted,
      Columns.Stands, Tables.Siblings;
    var decls := Tables.Decls(Root(), x.ctes.sites);
    var d := decls[p.owner.alias].decl;
    Tables.DeclarationIsSibling(Root(), x.ctes.sites, p.owner.alias);
    SameParent(DeclSlot(Root(), d).at, [0, 1, 1]);
    DeclSlotsApart(Root(), x.ctes.sites, d, Tables.AliasDecl([0, 1], 0));
  }

  lemma SameParent(a: Address, c: Address)
    requires a + [0] == c + [0]
    ensures a == c
  {
    assert a == (a + [0])[..|a|] && c == (c + [0])[..|c|];
  }

  lemma SlotOfA()
    ensures DeclSlot(Root(), Tables.AliasDecl([0, 1], 0)) == Slot([0, 1, 1], AsAlias)
    ensures [0, 1, 1, 0] == [0, 1, 1] + [0]
  {
    Nodes();
    assert [0, 1] + [1] == [0, 1, 1];
    hide Root, NodeAt;
    assert SelectSlots(Root(), [0, 1]) == [Slot([0, 1, 1], AsAlias)];
  }

  /** Every member uses the column, so every member is safe. */
  lemma MembersUseIt(x: Indexes, p: Columns.Place, b: Columns.ColumnBinding, m: nat)
    requires OfT(x, p, b) && m < |Extracted(x).members|
    ensures Columns.ClaimedBy(Extracted(x), m, p)
    ensures Extracted(x).members[m].range == Spot(3)
  {
    var d := Extracted(x);
    MemberSiteIs(Root(), x);
    hide Root, DocumentOf, Tables.Decls, MemberStandsAt, Ctes.IsIndexOf, Tables.IsIndexOf, IsJointIndex, OfT;
    assert FromBinders(Statements(), x) by { OfTMeans(x, p, b); }
    var a := MemberStands(Root(), x.ctes.sites, x.tables, m) by { RootIs(); }
    OnlyMember(x.ctes.sites, x.tables.memberSites[m], a);
    OwnerDecl(x, p, b, x.tables.memberSites[m].binding);
    ClaimsT(x, p, b, m);
  }

  lemma OfTMeans(x: Indexes, p: Columns.Place, b: Columns.ColumnBinding)
    requires OfT(x, p, b)
    ensures FromBinders(Statements(), x)
  {}

  lemma ClaimsT(x: Indexes, p: Columns.Place, b: Columns.ColumnBinding, m: nat)
    requires OfT(x, p, b) && m < |Extracted(x).members|
    requires p.owner == Columns.OfAlias(Extracted(x).members[m].alias)
    requires Extracted(x).members[m].name == "t"
    ensures Columns.ClaimedBy(Extracted(x), m, p)
  {
    hide Extracted, FromBinders, Columns.ListsConsumers;
  }

  lemma MembersAreSafe(x: Indexes, p: Columns.Place, b: Columns.ColumnBinding, newName: string)
    requires OfT(x, p, b)
    ensures Rename.AllSafe(Extracted(x), SourcesOf(Root(), x), p, newName)
  {
    var d, s := Extracted(x), SourcesOf(Root(), x);
    Passes(x, p, b, newName);
    hide OfT, Extracted, SourcesOf, Root, Columns.ClaimedBy, Columns.Owns, Columns.ColumnsOf, Renames,
      Rename.NameIsFree, Statements;
    forall m: nat | m < |d.members| ensures Rename.Safe(d, s, p, newName, m) {
      MembersUseIt(x, p, b, m);
      ClaimedIsSafe(d, s, p, newName, m);
    }
  }

  lemma ClaimedIsSafe(d: Columns.Document, s: Rename.Sources, p: Columns.Place, newName: string, m: nat)
    requires m < |d.members| && Columns.ClaimedBy(d, m, p)
    ensures Rename.Safe(d, s, p, newName, m)
  {
    forall owner: Columns.Owner ensures !Rename.Shifted(d, s, p, newName, m, owner) {
      if Rename.Eligible(d, owner) && Columns.LooksInto(d, m, owner) { Rename.LooksOnce(d, m, p.owner, owner); }
    }
    hide Rename.Shifted;
  }

  // ----- The two failures -----

  /** The test lets the column t of a be renamed to u, and every member is safe; but
      GROUP BY t.x, a reference of the column, then is a path of the table alias u, and the
      document extracted again has a member that it did not have. */
  lemma PassedTestCanFall(x: Indexes, x': Indexes, p: Columns.Place, b: Columns.ColumnBinding)
    requires OfT(x, p, b)
    requires FromBinders(EditAll(Statements(), Rename.EditsOf(b), "u"), x')
    ensures Renames(Statements(), x, p, b)
    ensures Columns.Owns(Extracted(x), p.owner) &&
            Rename.NameIsFree(Columns.ColumnsOf(Extracted(x), p.owner), p.column, "u")
    ensures Rename.AllSafe(Extracted(x), SourcesOf(Root(), x), p, "u")
    ensures Falls(Root(), x.ctes.sites, Own(Extracted(x), b), "u", Grouped())
    ensures !Rename.SameMembers(Extracted(x),
               DocumentOf(Edit(Root(), Rename.EditsOf(b), "u"), x'))
  {
    Passes(x, p, b, "u");
    MembersAreSafe(x, p, b, "u");
    OwnPath(x, p, b);
    Paths(Grouped());
    Meanings(x.ctes.sites);
    Keys();
    EditDocument(Statements(), Rename.EditsOf(b), "u");
    hide Root, Own, DocumentOf, Ctes.IsIndexOf, Tables.IsIndexOf, IsJointIndex, OfT, Tables.Qualifier,
      Tables.ResolveAlias, Fold, Edit,
      EditAll, Rename.EditsOf, Renames, Rename.NameIsFree, Rename.AllSafe, Rename.SameMembers, Columns.Owns,
        Columns.ColumnsOf, Grouped;
    RootIs();
    hide Statements, Ctes.Document;
    WithFalls(Statements(), x, x', p, b, "u", Grouped());
  }

  lemma NothingFalls(ctes: seq<Ctes.CteSite>, own: seq<Range>, a: Address)
    ensures !Falls(Root(), ctes, own, "y", a)
  {
    Paths(a);
    Meanings(ctes);
    Keys();
    OuterMeaning(ctes, "Y");
    Locals(ctes, [0, 1], "Y");
    assert [0, 1] + [0] + [0] == Chosen();
    hide Root, Tables.Qualifier, Tables.ResolveAlias, Tables.LocalAt, Fold, Grouped, Chosen;
  }

  /** The item a.t of the outer list is edited. */
  lemma OuterEdited(x: Indexes, p: Columns.Place, b: Columns.ColumnBinding)
    requires OfT(x, p, b)
    ensures Spot(3) in Rename.EditsOf(b)
  {
    var root, d := Root(), Extracted(x);
    Paths(Chosen());
    PathNodes();
    Meanings(x.ctes.sites);
    Keys();
    MemberSiteIs(Root(), x);
    RootIs();
    hide Root, Tables.Qualifier, Tables.ResolveAlias, Fold, Chosen, Statements, Ctes.IsIndexOf, Tables.IsIndexOf,
      IsJointIndex, NodeAt,
      DocumentOf, Columns.Stands, MemberStandsAt, Rename.EditsOf, Own, Columns.ClaimedBy;
    var m := MemberIsRecorded(root, x.ctes.sites, x.tables, Chosen());
    MembersUseIt(x, p, b, m);
    EditIs(d, b, p, Spot(3));
    assert EditsMember(d, p, Spot(3));
  }

  /** The test lets the column t of a be renamed to y, and every member stays where it
      was; but the item a.t changes its name with it, and ORDER BY t is left behind. */
  lemma PassedTestCanLeaveBehind(x: Indexes, x': Indexes, p: Columns.Place, b: Columns.ColumnBinding)
    requires OfT(x, p, b)
    requires FromBinders(EditAll(Statements(), Rename.EditsOf(b), "y"), x')
    ensures Renames(Statements(), x, p, b)
    ensures Columns.Owns(Extracted(x), p.owner) &&
            Rename.NameIsFree(Columns.ColumnsOf(Extracted(x), p.owner), p.column, "y")
    ensures Rename.AllSafe(Extracted(x), SourcesOf(Root(), x), p, "y")
    ensures forall a :: !Falls(Root(), x.ctes.sites, Own(Extracted(x), b), "y", a)
    ensures !SameButNames(x.selects, x'.selects)
  {
    Passes(x, p, b, "y");
    MembersAreSafe(x, p, b, "y");
    forall a ensures !Falls(Root(), x.ctes.sites, Own(Extracted(x), b), "y", a) {
      NothingFalls(x.ctes.sites, Own(Extracted(x), b), a);
    }
    hide Own, DocumentOf, Ctes.IsIndexOf, Tables.IsIndexOf, IsJointIndex, Fold, EditAll, Rename.EditsOf, Renames,
      Rename.NameIsFree, Rename.AllSafe, Columns.Owns, Columns.ColumnsOf, Falls, SameButNames, EntryStays, Entries;
    LeftBehind(x, p, b);
    Listed();
    hide Root, Statements;
    RootIs();
    SelectTheorem(Statements(), x, x', p, b, "y");
  }

  /** ORDER BY t is no reference of the column and is not edited. */
  lemma NotEditedUse(x: Indexes, p: Columns.Place, b: Columns.ColumnBinding)
    requires OfT(x, p, b)
    ensures Spot(10) !in Rename.EditsOf(b)
  {
    var root, e := Root(), OuterEntry();
    hide Root, OfT, Renames, Rename.EditsOf, AliasesAt, UsesAt, PlacesAt, Entries, SourcesOf, DocumentOf, OuterEntry,
      QueryPlace,
      Rename.NameIsFree, Columns.Owns, Columns.ColumnsOf, ReferenceStands, Statements, Selects.Unique;
    RootIs();
    Passes(x, p, b, "y");
    TheColumn(x, p, b);
    OuterUses();
    Listed();
    if Spot(10) in Rename.EditsOf(b) {
      var i := EditedUse(Statements(), x, p, b, e, 0);
      assert false;
    }
  }

  lemma LeftBehind(x: Indexes, p: Columns.Place, b: Columns.ColumnBinding)
    requires OfT(x, p, b)
    ensures !EntryStays(Root(), x.ctes.sites, OuterEntry(), Rename.EditsOf(b), Fold(b.name), "y")
  {
    var root, e, edits := Root(), OuterEntry(), Rename.EditsOf(b);
    hide Root, FromBinders, Rename.EditsOf, AliasesAt, UsesAt, PlacesAt, Fold, OuterEntry, Extracted, Columns.Stands,
      Statements;
    OuterEdited(x, p, b);
    NotEditedUse(x, p, b);
    OuterUses();
    Keys();
    assert SelectAliasEdits.Edited(AliasesAt(root, e), edits, 0);
    assert !SelectAliasEdits.NameStays(AliasesAt(root, e), edits, "T", "Y", "T");
    assert !UseStays(root, x.ctes.sites, AliasesAt(root, e), edits, "T", "y", UsesAt(root, e)[0], PlacesAt(root, e)[0]);
  }
}
