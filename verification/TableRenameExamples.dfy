/** Two documents in which a table T can be renamed to N beside a common table
    expression N: one where that changes a meaning, and one where it does not. */
module TableRenameExamples {
  import opened Coordinates
  import opened Syntax
  import opened Editing
  import opened WorkspaceScan
  import opened CteBindings
  import opened TableRename
  import Refactor
  import TableRefactor
  import Relations

  function Spot(i: nat): Range {
    Range(Position(i, 0), Position(i, 1))
  }

  function Use(): Node {
    Node(Select(Spot(9), 0), [Node(TableName(Ident("T", Spot(2)), None), [])])
  }

  function With(body: Node, select: Node): Node {
    Node(Query, [Node(Cte(Ident("N", Spot(1)), Spot(8)), [Node(Query, [body])]), select])
  }

  /** CREATE TABLE T, and a query. */
  function Trees(query: Node): seq<Node> {
    [Node(Other, []), query]
  }

  function CreateT(): seq<TableRefactor.Statement> {
    [[TableRefactor.Named(TableRefactor.Creates(false), TableRefactor.Name("T", true, true, Spot(0)))], []]
  }

  /** WITH N AS (SELECT 1) SELECT * FROM T */
  function Beside(): Node {
    With(Node(Select(Spot(7), 0), []), Use())
  }

  /** WITH N AS (SELECT * FROM T) SELECT 1 */
  function Around(): Node {
    With(Use(), Node(Select(Spot(7), 0), []))
  }

  /** In both, the table name is the only relation and N the only CTE. */
  ghost predicate OnlyT(query: Node, use: Address) {
    forall a :: NodeAt(Document(Trees(query)), a).Some? ==> OnlyTAt(query, use, a)
  }

  ghost predicate OnlyTAt(query: Node, use: Address, a: Address)
    requires NodeAt(Document(Trees(query)), a).Some?
  {
    var n := NodeAt(Document(Trees(query)), a).value;
    && (n.kind.TableName? <==> a == use)
    && (n.kind.TableName? ==> n.kind.table == Ident("T", Spot(2)))
    && !n.kind.PathTable?
    && (n.kind.Cte? ==> n.kind.cteName == Ident("N", Spot(1)))
    && (a != [1] ==> CteCount(n) == 0) && (a == [1] ==> CteCount(n) == 1)
  }

  /** The places of a SELECT over T: the SELECT and the table name. */
  lemma UsePlaces(a: Address)
    ensures NodeAt(Use(), a).Some? ==>
              if a == [] then NodeAt(Use(), a).value.kind.Select? && CteCount(NodeAt(Use(), a).value) == 0
              else a == [0] && NodeAt(Use(), a) == Some(Node(TableName(Ident("T", Spot(2)), None), []))
  {
    Unfold(Use(), a);
    if a != [] && NodeAt(Use(), a).Some? { Unfold(Kids(Use())[a[0]], a[1..]); }
  }

  lemma WithPlaces(body: Node, select: Node, a: Address)
    requires NodeAt(Document(Trees(With(body, select))), a).Some?
    ensures var root := Document(Trees(With(body, select)));
            || a == [] || (a == [0] && NodeAt(root, a) == Some(Node(Other, [])))
            || (a == [1] && NodeAt(root, a) == Some(With(body, select)))
            || (a == [1, 0] && NodeAt(root, a) == Some(Kids(With(body, select))[0]))
            || (a == [1, 0, 0] && NodeAt(root, a) == Some(Node(Query, [body])))
            || (|a| >= 4 && a[..4] == [1, 0, 0, 0] && NodeAt(root, a) == NodeAt(body, a[4..]))
            || (|a| >= 2 && a[..2] == [1, 1] && NodeAt(root, a) == NodeAt(select, a[2..]))
  {
    var root := Document(Trees(With(body, select)));
    Unfold(root, a);
    if a != [] {
      var b := a[1..];
      Unfold(Kids(root)[a[0]], b);
      if a[0] == 1 && b != [] {
        var c := b[1..];
        assert c == a[2..];
        Unfold(Kids(With(body, select))[b[0]], c);
        if b[0] == 0 && c != [] {
          var d := c[1..];
          assert d == a[3..];
          Unfold(Node(Query, [body]), d);
          if d != [] { assert d[1..] == a[4..]; }
        }
      }
    }
  }

  lemma BesideIsSmall()
    ensures OnlyT(Beside(), [1, 1, 0])
  {
    forall a | NodeAt(Document(Trees(Beside())), a).Some? ensures OnlyTAt(Beside(), [1, 1, 0], a) {
      WithPlaces(Node(Select(Spot(7), 0), []), Use(), a);
      if |a| >= 2 && a[..2] == [1, 1] {
        UsePlaces(a[2..]);
        assert a == [1, 1] + a[2..];
      }
      if |a| >= 4 && a[..4] == [1, 0, 0, 0] { Unfold(Node(Select(Spot(7), 0), []), a[4..]); }
      hide NodeAt;
    }
  }

  lemma AroundIsSmall()
    ensures OnlyT(Around(), [1, 0, 0, 0, 0])
  {
    forall a | NodeAt(Document(Trees(Around())), a).Some? ensures OnlyTAt(Around(), [1, 0, 0, 0, 0], a) {
      WithPlaces(Use(), Node(Select(Spot(7), 0), []), a);
      if |a| >= 2 && a[..2] == [1, 1] { Unfold(Node(Select(Spot(7), 0), []), a[2..]); }
      if |a| >= 4 && a[..4] == [1, 0, 0, 0] {
        UsePlaces(a[4..]);
        assert a == [1, 0, 0, 0] + a[4..];
      }
      hide NodeAt;
    }
  }

  function Plain(): Ident -> bool {
    (i: Ident) => true
  }

  function TName(range: Range): TableRefactor.Name {
    TableRefactor.Name("T", true, true, range)
  }

  ghost function Example(query: Node): seq<TableRefactor.Statement> {
    Statements(CreateT(), Trees(query), Plain())
  }

  lemma ExampleOccurrences(query: Node, use: Address, p: TableRefactor.Place)
    requires OnlyT(query, use) && TableRefactor.IsPlace(Example(query), p)
    ensures var o := Example(query)[p.statement][p.occurrence];
            || (p == TableRefactor.Place(0, 0) &&
                   o == TableRefactor.Named(TableRefactor.Creates(false), TName(Spot(0))))
            || (p.statement == 1 && (o == TableRefactor.Named(TableRefactor.Queries, TName(Spot(2))) ||
                   o == TableRefactor.DeclaresCte("N")))
  {
    var i, j := p.statement, p.occurrence;
    var ddl, tree := CreateT()[i], Trees(query)[i];
    var o := Example(query)[i][j];
    if j >= |ddl| {
      assert o in QueryOccurrences(tree, Plain());
      OccurrenceOrigin(tree, Plain(), o);
      hide QueryOccurrences;
      var b :| NodeAt(tree, b).Some? && o in TableVisitor(Plain())(NodeAt(tree, b).value);
      Unfold(Document(Trees(query)), [i] + b);
      assert ([i] + b)[1..] == b;
      assert OnlyTAt(query, use, [i] + b);
      if i == 0 { Unfold(tree, b); }
    }
  }

  lemma ExampleIsFirst(query: Node)
    ensures TableRefactor.IsPlace(Example(query), TableRefactor.Place(0, 0))
    ensures Example(query)[0][0] == TableRefactor.Named(TableRefactor.Creates(false), TName(Spot(0)))
  {}

  lemma UpperCase()
    ensures Fold("T") == "T" && Fold("N") == "N" && "T" != "N"
  {
    assert "T"[0] != "N"[0];
  }

  lemma ExampleHasNoT(query: Node, use: Address, i: nat)
    requires OnlyT(query, use) && i < |Example(query)|
    ensures !TableRefactor.HasCte(Example(query)[i], "T")
  {
    UpperCase();
    forall j | 0 <= j < |Example(query)[i]|
      ensures !(Example(query)[i][j].DeclaresCte? && EqualFold(Example(query)[i][j].cte, "T"))
    {
      ExampleOccurrences(query, use, TableRefactor.Place(i, j));
    }
  }

  /** What the two documents have at each place. */
  lemma ExamplePlace(query: Node, use: Address, p: TableRefactor.Place)
    requires OnlyT(query, use) && TableRefactor.IsPlace(Example(query), p)
    ensures var document := Example(query);
            var o := document[p.statement][p.occurrence];
            && TableRefactor.IsSafe(o, "T", TableRefactor.HasCte(document[p.statement], "T"))
            && !TableRefactor.DeclaresAt(o, "N")
            && (TableRefactor.DeclaresAt(o, "T") <==> p == TableRefactor.Place(0, 0))
  {
    hide Example, TableRefactor.HasCte, Fold;
    UpperCase();
    ExampleIsFirst(query);
    ExampleOccurrences(query, use, p);
    ExampleHasNoT(query, use, p.statement);
  }

  lemma ExampleSafe(query: Node, use: Address)
    requires OnlyT(query, use)
    ensures TableRefactor.Collect(Example(query), "T").safe && !TableRefactor.DeclaresRelation(Example(query), "N")
  {
    hide Example, TableRefactor.HasCte, TableRefactor.IsSafe, TableRefactor.DeclaresAt, TableRefactor.Collect, OnlyT;
    var document := Example(query);
    forall p | TableRefactor.IsPlace(document, p)
      ensures TableRefactor.IsSafe(document[p.statement][p.occurrence], "T",
                TableRefactor.HasCte(document[p.statement], "T"))
    {
      ExamplePlace(query, use, p);
    }
    TableRefactor.DocumentSafe(document, "T");
    forall i, j | 0 <= i < |document| && 0 <= j < |document[i]| ensures !TableRefactor.DeclaresAt(document[i][j], "N") {
      ExamplePlace(query, use, TableRefactor.Place(i, j));
    }
  }

  lemma ExampleCreatedOnce(query: Node, use: Address)
    requires OnlyT(query, use)
    ensures TableRefactor.OnlyCreatedAt(map["p" := Example(query)], "T", "p", TableRefactor.Place(0, 0))
  {
    hide Example, OnlyT, Fold;
    var document, ws := Example(query), map["p" := Example(query)];
    ExampleIsFirst(query);
    forall w, p ensures TableRefactor.CreatedAt(ws, "T", w, p) <==> w == "p" && p == TableRefactor.Place(0, 0) {
      if w == "p" && TableRefactor.IsPlace(document, p) { ExamplePlace(query, use, p); }
    }
  }

  /** The handler renames T in both: there is a plan, and N is declared nowhere. */
  lemma ExamplePlanned(query: Node, use: Address)
    requires OnlyT(query, use)
    ensures TableRefactor.Plannable(map["p" := Example(query)], {}, "T")
    ensures TableRefactor.Collect(Example(query), "T").safe && !TableRefactor.DeclaresRelation(Example(query), "N")
  {
    hide Example, OnlyT, TableRefactor.Collect, TableRefactor.DeclaresRelation, TableRefactor.OnlyCreatedAt,
      TableRefactor.IsSafe;
    var document, ws := Example(query), map["p" := Example(query)];
    ExampleSafe(query, use);
    ExampleCreatedOnce(query, use);
    TableRefactor.DocumentSafe(document, "T");
    assert forall w :: TableRefactor.HasSite(ws, "T", w) ==> w == "p";
    assert Refactor.IsLongestRoot({}, "p", "");
  }

  lemma ExampleReferences(query: Node, use: Address)
    requires OnlyT(query, use)
    ensures var root := Document(Trees(query));
            && (forall a | Relations.RelationAt(root, a).Some? ::
                   a == use && Relations.RelationAt(root, a).value.range == Spot(2))
            && (forall a, i: nat | NodeAt(root, a).Some? && i < CteCount(NodeAt(root, a).value) ::
                   CteRange(root, a, i) == Spot(1))
  {
    var root := Document(Trees(query));
    forall a | Relations.RelationAt(root, a).Some?
      ensures a == use && Relations.RelationAt(root, a).value.range == Spot(2)
    {
      assert OnlyTAt(query, use, a);
    }
    forall a, i: nat | NodeAt(root, a).Some? && i < CteCount(NodeAt(root, a).value)
      ensures CteRange(root, a, i) == Spot(1)
    {
      assert OnlyTAt(query, use, a);
      NodeAtChild(root, a, i);
      assert OnlyTAt(query, use, a + [i]);
    }
  }

  lemma ExampleEdits(query: Node, use: Address)
    requires OnlyT(query, use)
    ensures RewritesUses(Document(Trees(query)), "T", RangesOf(TableRefactor.Collect(Example(query), "T").sites))
  {
    hide OnlyT, Document, CteRange, RewritesUses, TableRefactor.Collect, Relations.RelationAt, NodeAt;
    ExampleSafe(query, use);
    ExampleReferences(query, use);
    TableEditsRewriteUses(CreateT(), Trees(query), Plain(), "T");
  }

  /** One step outwards of the rule. */
  lemma ResolveStep(root: Node, p: Address, k: nat, key: string)
    requires NodeAt(root, p).Some?
    ensures CteCount(NodeAt(root, p).value) == 0 ==> Resolve(root, p + [k], key) == Resolve(root, p, key)
  {
    assert (p + [k])[..|p|] == p;
  }

  lemma BesideResolves(key: string)
    ensures var root := Document(Trees(Beside()));
            Resolve(root, [1, 1, 0], key) == if key == "N" then Some([1, 0]) else None
  {
    var root := Document(Trees(Beside()));
    UpperCase();
    assert NodeAt(root, []) == Some(root) && CteCount(root) == 0;
    Unfold(root, [1]);
    Unfold(Beside(), []);
    assert NodeAt(root, [1]) == Some(Beside());
    Unfold(root, [1, 1]);
    assert [1, 1][1..] == [1];
    Unfold(Beside(), [1]);
    assert NodeAt(root, [1, 1]) == Some(Use());
    ResolveStep(root, [1, 1], 0, key);
    assert [1, 1] + [0] == [1, 1, 0];
    assert CteCount(Beside()) == 1;
    ResolveChild(root, Beside(), [1], 1, key);
    assert [1] + [1] == [1, 1] && [1] + [0] == [1, 0];
    ResolveStep(root, [], 1, key);
    assert [] + [1] == [1];
    assert LastNamed(Beside(), 0, key).None?;
    assert Kids(Beside())[0].kind.cteName.name == "N";
  }

  /** WITH N AS (SELECT 1) SELECT * FROM T: the rename of T to N is planned, no
      relation N is declared, and the table reference becomes one to the CTE. */
  lemma PlannedRenameCanCapture()
    ensures var root, use := Document(Trees(Beside())), [1, 1, 0];
            var edits := RangesOf(TableRefactor.Collect(Example(Beside()), "T").sites);
            && TableRefactor.Plannable(map["p" := Example(Beside())], {}, "T")
            && !TableRefactor.DeclaresRelation(Example(Beside()), "N")
            && Names(root, use, "T") && CteOf(Edit(root, edits, "N"), use) == Some([1, 0])
  {
    var root, use: Address := Document(Trees(Beside())), [1, 1, 0];
    var edits := RangesOf(TableRefactor.Collect(Example(Beside()), "T").sites);
    BesideIsSmall();
    UpperCase();
    ExamplePlanned(Beside(), use);
    ExampleEdits(Beside(), use);
    BesideResolves("T");
    BesideResolves("N");
    BesideUse();
    EditedMeaning(root, "T", "N", edits, use);
  }

  // ----- The same of a view -----

  /** The names that a view rename meets in the DDL: CREATE VIEW T. */
  lemma ViewDdlIsSafe()
    ensures TableRefactor.Collect(CreateT(), "T").safe && TableRefactor.Collect(CreateT(), "T").declarations == 1
    ensures !TableRefactor.DeclaresRelation(CreateT(), "N")
  {
    UpperCase();
    ViewDdlPlaces();
    TableRefactor.DocumentSafe(CreateT(), "T");
    TableRefactor.CollectedSites(CreateT(), "T");
    TableRefactor.PlacesAre(CreateT(), "T", TableRefactor.Declares("T"));
    hide TableRefactor.Places, TableRefactor.Collect, Fold, CreateT, TableRefactor.IsSafe;
    var places, place := TableRefactor.Places(CreateT(), "T", TableRefactor.Declares("T")), TableRefactor.Place(0, 0);
    assert forall p :: p in places <==> p == place;
    TableRefactor.OnePlace(places);
    assert place in places && |places| == 1;
  }

  lemma ViewDdlPlaces()
    ensures forall p: TableRefactor.Place :: TableRefactor.IsPlace(CreateT(), p) <==> p == TableRefactor.Place(0, 0)
    ensures TableRefactor.Declares("T")(CreateT()[0][0], TableRefactor.HasCte(CreateT()[0], "T"))
    ensures TableRefactor.IsSafe(CreateT()[0][0], "T", TableRefactor.HasCte(CreateT()[0], "T"))
    ensures !TableRefactor.DeclaresRelation(CreateT(), "N")
  {
    UpperCase();
    hide Fold;
    assert EqualFold("T", "T") && !EqualFold("T", "N");
  }

  lemma ViewIsSafe(query: Node, use: Address, index: CteIndex)
    requires OnlyT(query, use)
    ensures ViewCollected(CreateT(), index, Trees(query), "T", Plain()).safe
  {
    var root, pick := Document(Trees(query)), Relations.ViewMarks(index.sites, "T", Plain());
    ViewDdlIsSafe();
    Relations.PickedMembers(root, Preorder(root, []), pick, Relations.Unsafe);
    PreorderIsWhole(root);
    hide Preorder, Relations.PickedAt, TableRefactor.Collect, Fold;
    if a :| a in Preorder(root, []) && Relations.PicksAt(root, a, pick, Relations.Unsafe) {
      assert false;
    }
  }

  /** CREATE VIEW T; WITH N AS (SELECT 1) SELECT * FROM T: the sites of the view are
      safe and it is created once, no relation N is declared, and the reference to the
      view becomes one to the CTE. */
  lemma PlannedViewRenameCanCapture(index: CteIndex)
    requires IsIndexOf(index, Trees(Beside()))
    ensures var root, use := Document(Trees(Beside())), [1, 1, 0];
            var c := ViewCollected(CreateT(), index, Trees(Beside()), "T", Plain());
            && c.safe && c.declarations == 1 && !TableRefactor.DeclaresRelation(CreateT(), "N")
            && Names(root, use, "T") && CteOf(Edit(root, RangesOf(c.sites), "N"), use) == Some([1, 0])
  {
    hide OnlyT, Document, CteRange, RewritesUses, TableRefactor.Collect, Relations.RelationAt, NodeAt, IsIndexOf;
    var root, use: Address := Document(Trees(Beside())), [1, 1, 0];
    var c := ViewCollected(CreateT(), index, Trees(Beside()), "T", Plain());
    BesideIsSmall();
    UpperCase();
    ViewDdlIsSafe();
    ViewIsSafe(Beside(), use, index);
    ExampleReferences(Beside(), use);
    ViewEditsRewriteUses(CreateT(), index, Trees(Beside()), "T", Plain());
    BesideResolves("T");
    BesideResolves("N");
    BesideUse();
    EditedMeaning(root, "T", "N", RangesOf(c.sites), use);
  }

  lemma BesideUse()
    ensures ReferenceAt(Document(Trees(Beside())), [1, 1, 0]) == Some(Ident("T", Spot(2)))
  {
    var root := Document(Trees(Beside()));
    Unfold(root, [1, 1, 0]);
    assert [1, 1, 0][1..] == [1, 0] && [1, 0][1..] == [0] && [0][1..] == [];
    Unfold(Beside(), [1, 0]);
    Unfold(Use(), [0]);
    Unfold(Kids(Use())[0], []);
  }

  /** WITH N AS (SELECT * FROM T) SELECT 1: the collector's flag is lost, and yet no
      reference changes its meaning, as a CTE is not in scope in its own body. */
  lemma OverlapCanBeHarmless()
    ensures var root := Document(Trees(Around()));
            var edits := RangesOf(TableRefactor.Collect(Example(Around()), "T").sites);
            && TableRefactor.Overlaps(Example(Around())[1], "T", "N")
            && !TableRefactor.Collect(TableRefactor.RenameDocument(Example(Around()), "T", "N"), "N").safe
            && forall a :: Keeps(root, "T", "N", edits, a)
  {
    hide OnlyT, Keeps, Captured, Joins, RewritesUses, TableRefactor.Overlaps, TableRefactor.Collect,
      TableRefactor.Plannable, Example, Document;
    var root, use: Address := Document(Trees(Around())), [1, 0, 0, 0, 0];
    var edits := RangesOf(TableRefactor.Collect(Example(Around()), "T").sites);
    AroundIsSmall();
    UpperCase();
    ExampleSafe(Around(), use);
    ExampleEdits(Around(), use);
    AroundOverlaps();
    assert Example(Around())[1] in Example(Around()) by { AroundHasQuery(); }
    TableRefactor.RenameIsSafeIff(Example(Around()), "T", "N");
    RenamePreservesIff(root, "T", "N", edits);
    forall a ensures !Captured(root, "T", "N", a) && !Joins(root, "T", "N", a) { AroundUnaffected(a); }
  }

  lemma AroundHasQuery()
    ensures |Example(Around())| == 2
  {}

  lemma AroundUnaffected(a: Address)
    ensures !Captured(Document(Trees(Around())), "T", "N", a) && !Joins(Document(Trees(Around())), "T", "N", a)
  {
    hide Resolve, Document;
    UpperCase();
    AroundIsSmall();
    AroundResolves("N");
    if ReferenceAt(Document(Trees(Around())), a).Some? { assert OnlyTAt(Around(), [1, 0, 0, 0, 0], a); }
  }

  lemma AroundResolves(key: string)
    ensures Resolve(Document(Trees(Around())), [1, 0, 0, 0, 0], key).None?
  {
    var root := Document(Trees(Around()));
    AroundPlaces();
    assert NodeAt(root, []) == Some(root) && CteCount(root) == 0;
    ResolveStep(root, [1, 0, 0, 0], 0, key);
    assert [1, 0, 0, 0] + [0] == [1, 0, 0, 0, 0];
    ResolveStep(root, [1, 0, 0], 0, key);
    assert [1, 0, 0] + [0] == [1, 0, 0, 0];
    ResolveStep(root, [1, 0], 0, key);
    assert [1, 0] + [0] == [1, 0, 0];
    ResolveChild(root, Around(), [1], 0, key);
    assert [1] + [0] == [1, 0];
    assert LastNamed(Around(), 0, key).None?;
    ResolveStep(root, [], 1, key);
    assert [] + [1] == [1];
  }

  lemma AroundPlaces()
    ensures var root := Document(Trees(Around()));
            && NodeAt(root, [1]) == Some(Around()) && NodeAt(root, [1, 0]) == Some(Kids(Around())[0])
            && NodeAt(root, [1, 0, 0]) == Some(Node(Query, [Use()])) && NodeAt(root, [1, 0, 0, 0]) == Some(Use())
            && NodeAt(root, [1, 0, 0, 0, 0]) == Some(Kids(Use())[0])
  {
    var root := Document(Trees(Around()));
    NodeAtChild(root, [], 1);
    assert [] + [1] == [1];
    NodeAtChild(root, [1], 0);
    assert [1] + [0] == [1, 0];
    NodeAtChild(root, [1, 0], 0);
    assert [1, 0] + [0] == [1, 0, 0];
    NodeAtChild(root, [1, 0, 0], 0);
    assert [1, 0, 0] + [0] == [1, 0, 0, 0];
    NodeAtChild(root, [1, 0, 0, 0], 0);
    assert [1, 0, 0, 0] + [0] == [1, 0, 0, 0, 0];
  }

  lemma AroundOverlaps()
    ensures TableRefactor.Overlaps(Example(Around())[1], "T", "N")
  {
    var s := Example(Around())[1];
    UpperCase();
    AroundOccurrences();
    hide Example, Fold;
    var i :| 0 <= i < |s| && s[i] == TableRefactor.DeclaresCte("N");
    assert EqualFold(s[i].cte, "N");
    var j :| 0 <= j < |s| && s[j] == TableRefactor.Named(TableRefactor.Queries, TName(Spot(2)));
    assert TableRefactor.Matches(s[j].name, "T");
  }

  lemma AroundOccurrences()
    ensures TableRefactor.DeclaresCte("N") in Example(Around())[1]
    ensures TableRefactor.Named(TableRefactor.Queries, TName(Spot(2))) in Example(Around())[1]
  {
    AroundNodes();
    hide NodeAt, QueryOccurrences, Around;
    OccurrenceOrigin(Around(), Plain(), TableRefactor.DeclaresCte("N"));
    OccurrenceOrigin(Around(), Plain(), TableRefactor.Named(TableRefactor.Queries, TName(Spot(2))));
    assert Example(Around())[1] == [] + QueryOccurrences(Around(), Plain());
  }

  lemma AroundNodes()
    ensures exists a :: NodeAt(Around(), a).Some? &&
                        TableRefactor.DeclaresCte("N") in TableVisitor(Plain())(NodeAt(Around(), a).value)
    ensures exists a :: NodeAt(Around(), a).Some? &&
                        TableRefactor.Named(TableRefactor.Queries,
                            TName(Spot(2))) in TableVisitor(Plain())(NodeAt(Around(), a).value)
  {
    AroundPlaces();
    var cte: Address, use: Address := [1, 0], [1, 0, 0, 0, 0];
    assert cte[1..] == [0] && use[1..] == [0, 0, 0, 0];
    StatementPlace(Trees(Around()), cte);
    StatementPlace(Trees(Around()), use);
    hide NodeAt;
    assert NodeAt(Around(), [0]).Some? && NodeAt(Around(), [0, 0, 0, 0]).Some?;
  }
}
