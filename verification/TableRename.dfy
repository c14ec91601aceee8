/** What a rename of a table or a view means for the queries of a document: which
    references still name it, and which fall to a common table expression. */
module TableRename {
  import opened Coordinates
  import opened Syntax
  import opened Editing
  import opened WorkspaceScan
  import opened CteBindings
  import Refactor
  import TableRefactor
  import Relations

  // ----- What a reference means -----

  /** The CTE that the reference at a place denotes, if any. */
  function CteOf(root: Node, a: Address): Option<Address> {
    var name := ReferenceAt(root, a);
    if name.None? then None else Resolve(root, a, Fold(name.value.name))
  }

  /** The reference at a place names the relation itself, not a CTE. */
  predicate Names(root: Node, a: Address, relation: string) {
    && ReferenceAt(root, a).Some? && EqualFold(ReferenceAt(root, a).value.name, relation)
    && CteOf(root, a).None?
  }

  // ----- Editing references -----

  /** No declared CTE name is edited. */
  ghost predicate KeepsCteNames(n: Node, edits: set<Range>) {
    forall i :: 0 <= i < CteCount(n) ==> Kids(n)[i].kind.cteName.range !in edits
  }

  ghost predicate KeepsAllCteNames(root: Node, edits: set<Range>) {
    forall a :: NodeAt(root, a).Some? ==> KeepsCteNames(NodeAt(root, a).value, edits)
  }

  lemma {:induction false} EditLeadingCtes(kids: seq<Node>, edited: seq<Node>, edits: set<Range>, newName: string)
    requires |kids| == |edited| && forall i :: 0 <= i < |kids| ==> edited[i] == Edit(kids[i], edits, newName)
    ensures LeadingCtes(edited) == LeadingCtes(kids)
  {
    if kids != [] { EditLeadingCtes(kids[1..], edited[1..], edits, newName); }
  }

  lemma EditCteCount(n: Node, edits: set<Range>, newName: string)
    ensures CteCount(Edit(n, edits, newName)) == CteCount(n)
  {
    EditKids(n, edits, newName);
    EditLeadingCtes(Kids(n), Kids(Edit(n, edits, newName)), edits, newName);
  }

  lemma {:induction false} EditLastNamed(n: Node, m: nat, key: string, edits: set<Range>, newName: string)
    requires m <= CteCount(n) && KeepsCteNames(n, edits)
    ensures m <= CteCount(Edit(n, edits, newName))
    ensures LastNamed(Edit(n, edits, newName), m, key) == LastNamed(n, m, key)
  {
    EditCteCount(n, edits, newName);
    EditKids(n, edits, newName);
    if m > 0 {
      EditLastNamed(n, m - 1, key, edits, newName);
      assert Kids(Edit(n, edits, newName))[m - 1] == Edit(Kids(n)[m - 1], edits, newName);
    }
  }

  /** Names that declare no CTE can change without changing what any name denotes. */
  lemma {:induction false} EditResolve(root: Node, a: Address, key: string, edits: set<Range>, newName: string)
    requires KeepsAllCteNames(root, edits)
    ensures Resolve(Edit(root, edits, newName), a, key) == Resolve(root, a, key)
    decreases |a|
  {
    if a != [] {
      var p, k := a[..|a| - 1], a[|a| - 1];
      EditNodeAt(root, p, edits, newName);
      EditResolve(root, p, key, edits, newName);
      if NodeAt(root, p).Some? {
        var n := NodeAt(root, p).value;
        EditCteCount(n, edits, newName);
        EditLastNamed(n, Visible(n, k), key, edits, newName);
      }
    }
  }

  lemma EditReferenceOf(n: Node, edits: set<Range>, newName: string)
    ensures Reference(Edit(n, edits, newName)) == EditOptional(Reference(n), edits, newName)
  {
    hide Edit, Dotted;
    EditKids(n, edits, newName);
    EditedKind(n, edits, newName);
    if n.kind.PathTable? && Kids(n) != [] { EditedKind(Kids(n)[0], edits, newName); }
  }

  lemma EditedKind(n: Node, edits: set<Range>, newName: string)
    ensures Edit(n, edits, newName).kind == EditKind(n.kind, edits, newName)
  {}

  lemma EditReference(root: Node, a: Address, edits: set<Range>, newName: string)
    ensures ReferenceAt(Edit(root, edits, newName), a) == EditOptional(ReferenceAt(root, a), edits, newName)
  {
    hide Edit, NodeAt, Reference;
    EditNodeAt(root, a, edits, newName);
    if NodeAt(root, a).Some? { EditReferenceOf(NodeAt(root, a).value, edits, newName); }
  }

  // ----- The rename theorem -----

  /** The edits rewrite exactly the references that name the relation. */
  ghost predicate RewritesUses(root: Node, relation: string, edits: set<Range>) {
    && KeepsAllCteNames(root, edits)
    && forall a :: ReferenceAt(root, a).Some? ==>
         (ReferenceAt(root, a).value.range in edits <==> Names(root, a, relation))
  }

  /** The rename keeps the meaning of the reference at a place: what denoted a CTE
      denotes the same one, what named the relation still does, and nothing else
      starts to. */
  ghost predicate Keeps(root: Node, relation: string, newName: string, edits: set<Range>, a: Address) {
    var edited := Edit(root, edits, newName);
    && CteOf(edited, a) == CteOf(root, a)
    && (Names(edited, a, newName) <==> Names(root, a, relation))
  }

  /** A use of the relation at whose place the new name denotes a CTE. */
  ghost predicate Captured(root: Node, relation: string, newName: string, a: Address) {
    Names(root, a, relation) && Resolve(root, a, Fold(newName)).Some?
  }

  /** A reference that was spelled like the new name before, and named no CTE. */
  ghost predicate Joins(root: Node, relation: string, newName: string, a: Address) {
    Names(root, a, newName) && !EqualFold(newName, relation)
  }

  /** Place by place: an edited use still names the relation exactly when no CTE of
      the new name is in scope there; every other reference denotes what it did. */
  lemma EditedMeaning(root: Node, relation: string, newName: string, edits: set<Range>, a: Address)
    requires RewritesUses(root, relation, edits)
    ensures var edited := Edit(root, edits, newName);
            && (Names(root, a, relation) ==> CteOf(edited, a) == Resolve(root, a, Fold(newName)))
            && (!Names(root, a, relation) ==>
                   ReferenceAt(edited, a) == ReferenceAt(root, a) && CteOf(edited, a) == CteOf(root, a))
  {
    EditReference(root, a, edits, newName);
    if ReferenceAt(root, a).Some? {
      EditResolve(root, a, Fold(ReferenceAt(root, a).value.name), edits, newName);
      EditResolve(root, a, Fold(newName), edits, newName);
    }
  }

  /** The rename of a relation keeps the meaning of every reference of the document
      if and only if none of its uses is captured by a CTE of the new name and no
      other reference already carried that name. */
  lemma RenamePreservesIff(root: Node, relation: string, newName: string, edits: set<Range>)
    requires RewritesUses(root, relation, edits)
    ensures forall a :: Keeps(root, relation, newName, edits, a) <==>
                        !Captured(root, relation, newName, a) && !Joins(root, relation, newName, a)
  {
    forall a ensures Keeps(root, relation, newName, edits, a) <==>
                     !Captured(root, relation, newName, a) && !Joins(root, relation, newName, a) {
      EditedMeaning(root, relation, newName, edits, a);
      EditReference(root, a, edits, newName);
      hide Resolve, Edit, ReferenceAt;
    }
  }

  // ----- Names in the text -----

  /** Relations and declared CTE names have ranges of their own, as in any parsed text. */
  ghost predicate NamesApart(root: Node) {
    && Relations.DistinctRanges(root)
    && forall a, p, i: nat ::
         Relations.RelationAt(root, a).Some? && NodeAt(root, p).Some? && i < CteCount(NodeAt(root, p).value) ==>
         CteRange(root, p, i) != Relations.RelationAt(root, a).value.range
  }

  function CteRange(root: Node, p: Address, i: nat): Range
    requires NodeAt(root, p).Some? && i < CteCount(NodeAt(root, p).value)
  {
    Kids(NodeAt(root, p).value)[i].kind.cteName.range
  }

  /** The range stands for no relation and no CTE name of the queries. */
  ghost predicate Outside(root: Node, range: Range) {
    && (forall a :: Relations.RelationAt(root, a).Some? ==> Relations.RelationAt(root, a).value.range != range)
    && forall p, i: nat :: NodeAt(root, p).Some? && i < CteCount(NodeAt(root, p).value) ==>
         CteRange(root, p, i) != range
  }

  function RangesOf(sites: seq<Refactor.Site>): set<Range> {
    set s | s in sites :: s.range
  }

  /** Each edit is that of a relation in a query, or lies outside the queries. */
  ghost predicate EditsRelations(root: Node, edits: set<Range>) {
    forall range :: range in edits ==> Outside(root, range) || IsRelationRange(root, range)
  }

  ghost predicate IsRelationRange(root: Node, range: Range) {
    exists a :: Relations.RelationAt(root, a).Some? && Relations.RelationAt(root, a).value.range == range
  }

  lemma EditsKeepCteNames(root: Node, edits: set<Range>)
    requires NamesApart(root) && EditsRelations(root, edits)
    ensures KeepsAllCteNames(root, edits)
  {
    forall p, i: nat | NodeAt(root, p).Some? && i < CteCount(NodeAt(root, p).value)
      ensures CteRange(root, p, i) !in edits
    {
      assert !IsRelationRange(root, CteRange(root, p, i));
    }
    forall a | NodeAt(root, a).Some? ensures KeepsCteNames(NodeAt(root, a).value, edits) {
      forall i | 0 <= i < CteCount(NodeAt(root, a).value)
        ensures Kids(NodeAt(root, a).value)[i].kind.cteName.range !in edits
      {
        assert CteRange(root, a, i) !in edits;
      }
    }
  }

  /** A reference by a single identifier is a table name or a path table. */
  lemma ReferenceKinds(root: Node, a: Address)
    requires ReferenceAt(root, a).Some?
    ensures NodeAt(root, a).value.kind.TableName? || NodeAt(root, a).value.kind.PathTable?
    ensures Relations.RelationAt(root, a) ==
            Some(Relations.Relation(ReferenceAt(root, a).value.name, ReferenceAt(root, a).value.range))
  {
    Relations.SingleNameAgrees(root, a);
  }

  // ----- Views -----

  /** What a view rename collects in a document. */
  ghost function ViewCollected(
      ddl: seq<TableRefactor.Statement>, index: CteIndex, statements: seq<Node>, view: string,
      plain: Ident -> bool): Refactor.Collected {
    Relations.WithQueries(TableRefactor.Collect(ddl, view),
      Relations.PickedAt(Document(statements), Preorder(Document(statements), []),
          Relations.ViewMarks(index.sites, view, plain)))
  }

  /** The names in the DDL lie outside the queries. */
  ghost predicate DdlOutside(root: Node, ddl: seq<TableRefactor.Statement>) {
    forall i, j :: 0 <= i < |ddl| && 0 <= j < |ddl[i]| && ddl[i][j].Named? ==> Outside(root, ddl[i][j].name.range)
  }

  lemma DdlSitesOutside(root: Node, ddl: seq<TableRefactor.Statement>, relation: string, site: Refactor.Site)
    requires DdlOutside(root, ddl) && site in TableRefactor.Collect(ddl, relation).sites
    ensures Outside(root, site.range)
  {
    TableRefactor.SiteIsOccurrence(ddl, relation, site);
    hide Outside;
  }

  /** A path table of that name cannot be told from an implicit UNNEST. */
  lemma PathTableIsUnsafe(sites: seq<CteSite>, view: string, plain: Ident -> bool, n: Node)
    requires n.kind.PathTable? && Reference(n).Some? && EqualFold(Reference(n).value.name, view)
    ensures Relations.Unsafe in Relations.ViewMarks(sites, view, plain)(n)
  {
    assert Relations.Mentions(Kids(n)[0].kind.idents, view);
  }

  lemma SafeUseIsTableName(
      ddl: seq<TableRefactor.Statement>, index: CteIndex, statements: seq<Node>, view: string, plain: Ident -> bool,
      a: Address)
    requires ViewCollected(ddl, index, statements, view, plain).safe && Names(Document(statements), a, view)
    ensures NodeAt(Document(statements), a).value.kind.TableName?
  {
    var root := Document(statements);
    var pick := Relations.ViewMarks(index.sites, view, plain);
    Relations.PickedMembers(root, Preorder(root, []), pick, Relations.Unsafe);
    PreorderIsWhole(root);
    ReferenceKinds(root, a);
    hide TableRefactor.Collect, Preorder, Relations.PickedAt, Resolve, Fold;
    assert !Relations.PicksAt(root, a, pick, Relations.Unsafe);
    hide Relations.ViewMarks;
    if NodeAt(root, a).value.kind.PathTable? {
      PathTableIsUnsafe(index.sites, view, plain, NodeAt(root, a).value);
    }
  }

  /** The edits of a view rename rewrite exactly the references that name the view. */
  lemma ViewEditsRewriteUses(
      ddl: seq<TableRefactor.Statement>, index: CteIndex, statements: seq<Node>, view: string, plain: Ident -> bool)
    requires IsIndexOf(index, statements) && NamesApart(Document(statements)) && DdlOutside(Document(statements), ddl)
    requires ViewCollected(ddl, index, statements, view, plain).safe
    ensures RewritesUses(Document(statements), view, RangesOf(ViewCollected(ddl, index, statements, view, plain).sites))
  {
    var root, c := Document(statements), ViewCollected(ddl, index, statements, view, plain);
    var edits := RangesOf(c.sites);
    forall site ensures site in c.sites <==>
        site in TableRefactor.Collect(ddl, view).sites || exists a ::
          Relations.QueriesViewAt(root, a, view, site.name, site.range) {
      Relations.ViewRefactorSites(ddl, index, statements, view, plain, site);
    }
    hide ViewCollected, TableRefactor.Collect, IsIndexOf;
    forall range | range in edits ensures Outside(root, range) || IsRelationRange(root, range) {
      var site :| site in c.sites && site.range == range;
      if site in TableRefactor.Collect(ddl, view).sites {
        DdlSitesOutside(root, ddl, view, site);
      } else {
        var a :| Relations.QueriesViewAt(root, a, view, site.name, site.range);
      }
    }
    EditsKeepCteNames(root, edits);
    forall a | ReferenceAt(root, a).Some? ensures ReferenceAt(root, a).value.range in edits <==> Names(root, a, view) {
      ViewUseIsEdited(ddl, index, statements, view, plain, a);
    }
  }

  lemma ViewUseIsEdited(
      ddl: seq<TableRefactor.Statement>, index: CteIndex, statements: seq<Node>, view: string, plain: Ident -> bool,
      a: Address)
    requires IsIndexOf(index, statements) && NamesApart(Document(statements)) && DdlOutside(Document(statements), ddl)
    requires ViewCollected(ddl, index, statements, view, plain).safe && ReferenceAt(Document(statements), a).Some?
    ensures var edits := RangesOf(ViewCollected(ddl, index, statements, view, plain).sites);
            ReferenceAt(Document(statements), a).value.range in edits <==> Names(Document(statements), a, view)
  {
    hide ViewCollected, Document, ReferenceAt, Names, NamesApart, DdlOutside, IsIndexOf;
    var edits := RangesOf(ViewCollected(ddl, index, statements, view, plain).sites);
    if ReferenceAt(Document(statements), a).value.range in edits {
      EditedViewUseNames(ddl, index, statements, view, plain, a);
    }
    if Names(Document(statements), a, view) { ViewNameIsEdited(ddl, index, statements, view, plain, a); }
  }

  lemma EditedViewUseNames(
      ddl: seq<TableRefactor.Statement>, index: CteIndex, statements: seq<Node>, view: string, plain: Ident -> bool,
      a: Address)
    requires IsIndexOf(index, statements) && NamesApart(Document(statements)) && DdlOutside(Document(statements), ddl)
    requires ViewCollected(ddl, index, statements, view, plain).safe && ReferenceAt(Document(statements), a).Some?
    requires var edits := RangesOf(ViewCollected(ddl, index, statements, view, plain).sites);
             ReferenceAt(Document(statements), a).value.range in edits
    ensures Names(Document(statements), a, view)
  {
    hide TableRefactor.Collect, Relations.PickedAt, ReferenceAt, IsIndexOf, NamesApart, DdlOutside,
      Relations.QueriesViewAt, Names, Preorder;
    var root, c := Document(statements), ViewCollected(ddl, index, statements, view, plain);
    var site :| site in c.sites && site.range == ReferenceAt(root, a).value.range;
    ApartIsDistinct(root);
    Relations.ViewRefactorSites(ddl, index, statements, view, plain, site);
    NotInDdl(root, ddl, view, site, a);
    var b :| Relations.QueriesViewAt(root, b, view, site.name, site.range);
    ViewUseNames(root, a, b, view, site);
  }

  lemma NotInDdl(root: Node, ddl: seq<TableRefactor.Statement>, view: string, site: Refactor.Site, a: Address)
    requires DdlOutside(root, ddl) && ReferenceAt(root, a).Some? && ReferenceAt(root, a).value.range == site.range
    ensures site !in TableRefactor.Collect(ddl, view).sites
  {
    hide TableRefactor.Collect, DdlOutside, ReferenceAt;
    ReferenceKinds(root, a);
    if site in TableRefactor.Collect(ddl, view).sites { DdlSitesOutside(root, ddl, view, site); }
  }

  lemma ApartIsDistinct(root: Node)
    requires NamesApart(root)
    ensures Relations.DistinctRanges(root)
  {}

  /** A use of the view is the reference of its range. */
  lemma ViewUseNames(root: Node, a: Address, b: Address, view: string, site: Refactor.Site)
    requires Relations.DistinctRanges(root) && Relations.QueriesViewAt(root, b, view, site.name, site.range)
    requires ReferenceAt(root, a).Some? && ReferenceAt(root, a).value.range == site.range
    ensures Names(root, a, view)
  {
    hide Fold, Resolve;
    ReferenceKinds(root, a);
    assert a == b;
  }

  lemma ViewNameIsEdited(
      ddl: seq<TableRefactor.Statement>, index: CteIndex, statements: seq<Node>, view: string, plain: Ident -> bool,
      a: Address)
    requires IsIndexOf(index, statements) && NamesApart(Document(statements)) && DdlOutside(Document(statements), ddl)
    requires ViewCollected(ddl, index, statements, view, plain).safe && ReferenceAt(Document(statements), a).Some?
    requires Names(Document(statements), a, view)
    ensures var edits := RangesOf(ViewCollected(ddl, index, statements, view, plain).sites);
            ReferenceAt(Document(statements), a).value.range in edits
  {
    var root := Document(statements);
    var name := ReferenceAt(root, a).value;
    ReferenceKinds(root, a);
    SafeUseIsTableName(ddl, index, statements, view, plain, a);
    var site := Refactor.Site(name.name, name.range);
    assert Relations.QueriesViewAt(root, a, view, site.name, site.range);
    Relations.ViewRefactorSites(ddl, index, statements, view, plain, site);
  }

  /** The rename of a view, with the edits of its plan, keeps the meaning of a
      reference exactly when the reference is not a use that a CTE of the new name
      captures, and did not carry the new name already. */
  lemma ViewRenameTheorem(
      ddl: seq<TableRefactor.Statement>, index: CteIndex, statements: seq<Node>, view: string, newName: string,
      plain: Ident -> bool)
    requires IsIndexOf(index, statements) && NamesApart(Document(statements)) && DdlOutside(Document(statements), ddl)
    requires ViewCollected(ddl, index, statements, view, plain).safe
    ensures var root, edits := Document(statements), RangesOf(ViewCollected(ddl, index, statements, view, plain).sites);
            forall a :: Keeps(root, view, newName, edits, a) <==>
                !Captured(root, view, newName, a) && !Joins(root, view, newName, a)
  {
    ViewEditsRewriteUses(ddl, index, statements, view, plain);
    RenamePreservesIff(Document(statements), view, newName,
        RangesOf(ViewCollected(ddl, index, statements, view, plain).sites));
  }

  // ----- Tables -----

  /** What a table rename sees of a query, node by node. */
  function TableVisitor(plain: Ident -> bool): Node -> seq<TableRefactor.Occurrence> {
    (n: Node) =>
      match n.kind
      case TableName(table, _) =>
        [TableRefactor.Named(TableRefactor.Queries, TableRefactor.Name(table.name, true, plain(table), table.range))]
      case PathTable(_, _) =>
        if Kids(n) != [] && Kids(n)[0].kind.Path? then [TableRefactor.Mentions(Parts(Kids(n)[0].kind.idents))] else []
      case Cte(name, _) => [TableRefactor.DeclaresCte(name.name)]
      case _ => []
  }

  function Parts(idents: seq<Ident>): seq<string> {
    seq(|idents|, i requires 0 <= i < |idents| => idents[i].name)
  }

  ghost function QueryOccurrences(tree: Node, plain: Ident -> bool): seq<TableRefactor.Occurrence> {
    Relations.PickedAt(tree, Preorder(tree, []), TableVisitor(plain))
  }

  /** The statements of a document: the names in the DDL of each, then its queries. */
  ghost function Statements(ddl: seq<TableRefactor.Statement>, trees: seq<Node>,
                            plain: Ident -> bool): (s: seq<TableRefactor.Statement>)
    requires |ddl| == |trees|
    ensures |s| == |trees|
  {
    seq(|trees|, i requires 0 <= i < |trees| => ddl[i] + QueryOccurrences(trees[i], plain))
  }

  method StatementOccurrences(ddl: TableRefactor.Statement, tree: Node, plain: Ident -> bool)
    returns (s: TableRefactor.Statement)
    ensures s == ddl + QueryOccurrences(tree, plain)
  {
    s := Relations.Inspect(tree, [], tree, TableVisitor(plain), ddl);
  }

  lemma OccurrenceOrigin(tree: Node, plain: Ident -> bool, o: TableRefactor.Occurrence)
    ensures o in QueryOccurrences(tree, plain) <==>
            exists a :: NodeAt(tree, a).Some? && o in TableVisitor(plain)(NodeAt(tree, a).value)
  {
    Relations.PickedMembers(tree, Preorder(tree, []), TableVisitor(plain), o);
    PreorderIsWhole(tree);
    hide TableVisitor, Preorder, Relations.PickedAt;
    if a :| a in Preorder(tree, []) && Relations.PicksAt(tree, a, TableVisitor(plain), o) {
      assert NodeAt(tree, a).Some? && o in TableVisitor(plain)(NodeAt(tree, a).value);
    }
    if a :| NodeAt(tree, a).Some? && o in TableVisitor(plain)(NodeAt(tree, a).value) {
      assert a in Preorder(tree, []) && Relations.PicksAt(tree, a, TableVisitor(plain), o);
    }
  }

  /** A statement of a document, and a place in it. */
  lemma StatementPlace(trees: seq<Node>, a: Address)
    requires a != [] && NodeAt(Document(trees), a).Some?
    ensures a[0] < |trees| && NodeAt(trees[a[0]], a[1..]) == NodeAt(Document(trees), a)
  {}

  /** What the rule finds is a declaration of the name in the same statement. */
  lemma {:induction false} ResolvedIsDeclared(trees: seq<Node>, a: Address, key: string)
    requires Resolve(Document(trees), a, key).Some?
    ensures var d := Resolve(Document(trees), a, key).value;
            && a != [] && d != [] && d[0] == a[0] && NodeAt(Document(trees), d).Some?
            && NodeAt(Document(trees), d).value.kind.Cte? &&
                 Fold(NodeAt(Document(trees), d).value.kind.cteName.name) == key
    decreases |a|
  {
    var root := Document(trees);
    var p, k := a[..|a| - 1], a[|a| - 1];
    var n := NodeAt(root, p).value;
    var last := LastNamed(n, Visible(n, k), key);
    if last.Some? {
      NodeAtChild(root, p, last.value);
    } else {
      ResolvedIsDeclared(trees, p, key);
    }
  }

  lemma NoCteNoCapture(
      ddl: seq<TableRefactor.Statement>, trees: seq<Node>, plain: Ident -> bool, a: Address, name: string)
    requires |ddl| == |trees| && Resolve(Document(trees), a, Fold(name)).Some?
    ensures a != [] && a[0] < |trees| && TableRefactor.HasCte(Statements(ddl, trees, plain)[a[0]], name)
  {
    ResolvedIsDeclared(trees, a, Fold(name));
    var d := Resolve(Document(trees), a, Fold(name)).value;
    StatementPlace(trees, d);
    var declared := NodeAt(trees[d[0]], d[1..]).value.kind.cteName.name;
    var o := TableRefactor.DeclaresCte(declared);
    hide Resolve, QueryOccurrences;
    OccurrenceOrigin(trees[d[0]], plain, o);
    var s := Statements(ddl, trees, plain)[d[0]];
    assert o in s;
    var i :| 0 <= i < |s| && s[i] == o;
    assert EqualFold(s[i].cte, name);
  }

  /** The statement and the occurrence of a site. */
  lemma SiteOccurrence(document: seq<TableRefactor.Statement>, table: string, site: Refactor.Site)
    returns (i: nat, j: nat)
    requires site in TableRefactor.Collect(document, table).sites
    ensures i < |document| && j < |document[i]| && document[i][j].Named? && document[i][j].name.range == site.range
    ensures TableRefactor.IsSite(document[i][j], table, TableRefactor.HasCte(document[i], table))
  {
    TableRefactor.SiteIsOccurrence(document, table, site);
    var p :| TableRefactor.Passes(document, table, TableRefactor.Rewrites(table), p) &&
      TableRefactor.SiteAt(document, p) == site;
    i, j := p.statement, p.occurrence;
  }

  /** A rewritten occurrence lies in the DDL or is a use of the table in a query. */
  lemma SiteOrigin(
      ddl: seq<TableRefactor.Statement>, trees: seq<Node>, plain: Ident -> bool, table: string, site: Refactor.Site)
    requires |ddl| == |trees| && site in TableRefactor.Collect(Statements(ddl, trees, plain), table).sites
    requires DdlOutside(Document(trees), ddl)
    ensures Outside(Document(trees), site.range) ||
            exists a :: Names(Document(trees), a, table) && ReferenceAt(Document(trees), a).value.range == site.range
  {
    hide Outside, QueryOccurrences, Names, ReferenceAt, Document, TableRefactor.Collect, TableRefactor.HasCte,
      TableRefactor.IsSite;
    var i, j := SiteOccurrence(Statements(ddl, trees, plain), table, site);
    var o := Statements(ddl, trees, plain)[i][j];
    if j < |ddl[i]| {
      assert o == ddl[i][j];
    } else {
      assert o in QueryOccurrences(trees[i], plain);
      var a := QuerySiteOrigin(ddl, trees, plain, table, i, o);
    }
  }

  lemma QuerySiteOrigin(
      ddl: seq<TableRefactor.Statement>, trees: seq<Node>, plain: Ident -> bool, table: string, i: nat,
      o: TableRefactor.Occurrence)
    returns (a: Address)
    requires |ddl| == |trees| && i < |trees| && o in QueryOccurrences(trees[i], plain) && o.Named?
    requires TableRefactor.IsSite(o, table, TableRefactor.HasCte(Statements(ddl, trees, plain)[i], table))
    ensures Names(Document(trees), a, table) && ReferenceAt(Document(trees), a).value.range == o.name.range
  {
    OccurrenceOrigin(trees[i], plain, o);
    hide Names, QueryOccurrences, Statements, ReferenceAt, TableVisitor, TableRefactor.HasCte, TableRefactor.IsSite;
    var b :| NodeAt(trees[i], b).Some? && o in TableVisitor(plain)(NodeAt(trees[i], b).value);
    QuerySiteNames(ddl, trees, plain, table, i, b, o);
    a := [i] + b;
  }

  lemma QuerySiteNames(
      ddl: seq<TableRefactor.Statement>, trees: seq<Node>, plain: Ident -> bool, table: string, i: nat, b: Address,
      o: TableRefactor.Occurrence)
    requires |ddl| == |trees| && i < |trees| && NodeAt(trees[i], b).Some? &&
             o in TableVisitor(plain)(NodeAt(trees[i], b).value)
    requires TableRefactor.IsSite(o, table, TableRefactor.HasCte(Statements(ddl, trees, plain)[i], table)) && o.Named?
    ensures Names(Document(trees), [i] + b, table) && ReferenceAt(Document(trees), [i] + b).value.range == o.name.range
  {
    hide Statements, TableRefactor.HasCte, Resolve;
    var root, a := Document(trees), [i] + b;
    StatementChild(trees, i, b);
    VisitedReference(NodeAt(trees[i], b).value, plain, o);
    if CteOf(root, a).Some? {
      var name := ReferenceAt(root, a).value.name;
      NoCteNoCapture(ddl, trees, plain, a, name);
      SameHasCte(Statements(ddl, trees, plain)[i], name, table);
      assert false;
    }
  }

  lemma StatementChild(trees: seq<Node>, i: nat, b: Address)
    requires i < |trees|
    ensures NodeAt(Document(trees), [i] + b) == NodeAt(trees[i], b) && ([i] + b)[0] == i
  {
    assert ([i] + b)[1..] == b;
  }

  /** The occurrence in a query that can be rewritten is a table name. */
  lemma VisitedReference(n: Node, plain: Ident -> bool, o: TableRefactor.Occurrence)
    requires o in TableVisitor(plain)(n) && o.Named?
    ensures Reference(n) == Some(Ident(o.name.text, o.name.range)) && o.role.Queries? && o.name.simple
  {}

  lemma SameHasCte(s: TableRefactor.Statement, name: string, other: string)
    requires EqualFold(name, other)
    ensures TableRefactor.HasCte(s, name) <==> TableRefactor.HasCte(s, other)
  {}

  /** In a safe document every use of the table in a query is rewritten. */
  lemma UseIsRewritten(ddl: seq<TableRefactor.Statement>, trees: seq<Node>, plain: Ident -> bool, table: string,
                       a: Address)
    returns (j: nat)
    requires |ddl| == |trees| && TableRefactor.Collect(Statements(ddl, trees, plain), table).safe &&
             Names(Document(trees), a, table)
    ensures a != [] && a[0] < |trees| && j < |Statements(ddl, trees, plain)[a[0]]|
    ensures var s := Statements(ddl, trees, plain)[a[0]];
            && s[j].Named? && s[j].role.Queries? && TableRefactor.Matches(s[j].name, table)
            && TableRefactor.IsSite(s[j], table, TableRefactor.HasCte(s, table))
            && s[j].name.range == ReferenceAt(Document(trees), a).value.range
  {
    hide QueryOccurrences, Resolve, TableVisitor, TableRefactor.IsSite, TableRefactor.IsSafe, TableRefactor.HasCte,
      TableRefactor.Collect;
    var o := UseIsVisited(trees, plain, table, a);
    var document := Statements(ddl, trees, plain);
    var s := document[a[0]];
    OccurrenceOrigin(trees[a[0]], plain, o);
    assert o in s;
    j :| 0 <= j < |s| && s[j] == o;
    TableRefactor.DocumentSafe(document, table);
    assert TableRefactor.IsPlace(document, TableRefactor.Place(a[0], j));
    UseIsNamed(NodeAt(Document(trees), a).value, plain, table, TableRefactor.HasCte(s, table));
  }

  lemma UseIsVisited(trees: seq<Node>, plain: Ident -> bool, table: string, a: Address)
    returns (o: TableRefactor.Occurrence)
    requires Names(Document(trees), a, table)
    ensures a != [] && a[0] < |trees| && NodeAt(trees[a[0]], a[1..]) == NodeAt(Document(trees), a)
    ensures var n := NodeAt(Document(trees), a).value;
            TableVisitor(plain)(n) == [o] && Reference(n) == ReferenceAt(Document(trees), a) &&
              EqualFold(Reference(n).value.name, table)
  {
    hide Resolve, Fold;
    ReferenceKinds(Document(trees), a);
    StatementPlace(trees, a);
    o := TableVisitor(plain)(NodeAt(Document(trees), a).value)[0];
  }

  lemma UseIsSite(ddl: seq<TableRefactor.Statement>, trees: seq<Node>, plain: Ident -> bool, table: string, a: Address)
    requires |ddl| == |trees| && TableRefactor.Collect(Statements(ddl, trees, plain), table).safe &&
             Names(Document(trees), a, table)
    ensures ReferenceAt(Document(trees),
              a).value.range in RangesOf(TableRefactor.Collect(Statements(ddl, trees, plain), table).sites)
  {
    var j := UseIsRewritten(ddl, trees, plain, table, a);
    var document, p := Statements(ddl, trees, plain), TableRefactor.Place(a[0], j);
    hide Statements, TableRefactor.Collect, TableRefactor.IsSite, TableRefactor.HasCte, Names, ReferenceAt;
    assert TableRefactor.Passes(document, table, TableRefactor.Rewrites(table), p);
    TableRefactor.SiteIsOccurrence(document, table, TableRefactor.SiteAt(document, p));
  }

  lemma UseIsNamed(n: Node, plain: Ident -> bool, table: string, hasCte: bool)
    requires Reference(n).Some? && EqualFold(Reference(n).value.name, table)
    requires TableVisitor(plain)(n) != [] && TableRefactor.IsSafe(TableVisitor(plain)(n)[0], table, hasCte)
    ensures var o := TableVisitor(plain)(n)[0];
            && o.Named? && o.role.Queries? && TableRefactor.IsSite(o, table, hasCte)
            && TableRefactor.Matches(o.name, table) && o.name.range == Reference(n).value.range
  {
    if n.kind.PathTable? { PathTableBlocks(n, plain, table, hasCte); }
  }

  lemma PathTableBlocks(n: Node, plain: Ident -> bool, table: string, hasCte: bool)
    requires n.kind.PathTable? && Reference(n).Some? && EqualFold(Reference(n).value.name, table)
    ensures TableVisitor(plain)(n) != [] && !TableRefactor.IsSafe(TableVisitor(plain)(n)[0], table, hasCte)
  {
    assert EqualFold(Parts(Kids(n)[0].kind.idents)[0], table);
  }

  /** The edits of a table rename rewrite exactly the references that name the table. */
  lemma TableEditsRewriteUses(ddl: seq<TableRefactor.Statement>, trees: seq<Node>, plain: Ident -> bool, table: string)
    requires |ddl| == |trees| && NamesApart(Document(trees)) && DdlOutside(Document(trees), ddl)
    requires TableRefactor.Collect(Statements(ddl, trees, plain), table).safe
    ensures RewritesUses(Document(trees), table,
              RangesOf(TableRefactor.Collect(Statements(ddl, trees, plain), table).sites))
  {
    var root, sites := Document(trees), TableRefactor.Collect(Statements(ddl, trees, plain), table).sites;
    var edits := RangesOf(sites);
    hide TableRefactor.Collect, Statements;
    forall range | range in edits ensures Outside(root, range) || IsRelationRange(root, range) {
      var site :| site in sites && site.range == range;
      SiteOrigin(ddl, trees, plain, table, site);
      if !Outside(root, range) {
        var a :| Names(root, a, table) && ReferenceAt(root, a).value.range == range;
        ReferenceKinds(root, a);
      }
    }
    EditsKeepCteNames(root, edits);
    forall a | ReferenceAt(root, a).Some? ensures ReferenceAt(root, a).value.range in edits <==> Names(root, a, table) {
      ReferenceKinds(root, a);
      if ReferenceAt(root, a).value.range in edits {
        var site :| site in sites && site.range == ReferenceAt(root, a).value.range;
        SiteOrigin(ddl, trees, plain, table, site);
        var b :| Names(root, b, table) && ReferenceAt(root, b).value.range == site.range;
        ReferenceKinds(root, b);
        assert b == a;
      }
      if Names(root, a, table) { UseIsSite(ddl, trees, plain, table, a); }
    }
  }

  /** The rename of a table, with the edits of its plan, keeps the meaning of a
      reference exactly when the reference is not a use that a CTE of the new name
      captures, and did not carry the new name already. */
  lemma TableRenameTheorem(ddl: seq<TableRefactor.Statement>, trees: seq<Node>, plain: Ident -> bool, table: string,
                           newName: string)
    requires |ddl| == |trees| && NamesApart(Document(trees)) && DdlOutside(Document(trees), ddl)
    requires TableRefactor.Collect(Statements(ddl, trees, plain), table).safe
    ensures var root, edits := Document(trees),
            RangesOf(TableRefactor.Collect(Statements(ddl, trees, plain), table).sites);
            forall a :: Keeps(root, table, newName, edits, a) <==>
                !Captured(root, table, newName, a) && !Joins(root, table, newName, a)
  {
    TableEditsRewriteUses(ddl, trees, plain, table);
    RenamePreservesIff(Document(trees), table, newName,
        RangesOf(TableRefactor.Collect(Statements(ddl, trees, plain), table).sites));
  }

  /** The collector's flag errs only on the safe side: where a use is captured, its
      statement queries the table and has a CTE of the new name. */
  lemma CapturedOverlaps(
      ddl: seq<TableRefactor.Statement>, trees: seq<Node>, plain: Ident -> bool, table: string, newName: string,
      a: Address)
    requires |ddl| == |trees| && TableRefactor.Collect(Statements(ddl, trees, plain), table).safe
    requires Captured(Document(trees), table, newName, a)
    ensures a != [] && a[0] < |trees| && TableRefactor.Overlaps(Statements(ddl, trees, plain)[a[0]], table, newName)
  {
    hide Statements, TableRefactor.Collect, TableRefactor.IsSite, TableRefactor.HasCte, ReferenceAt, Resolve;
    NoCteNoCapture(ddl, trees, plain, a, newName);
    var j := UseIsRewritten(ddl, trees, plain, table, a);
    assert Statements(ddl, trees, plain)[a[0]][j].Named?;
  }
}
