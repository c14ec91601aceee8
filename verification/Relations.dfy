/** References to tables and views: the names in FROM clauses that no common
    table expression owns. */
module Relations {
  import opened Coordinates
  import opened Syntax
  import CteBindings
  import opened Refactor
  import TableRefactor

  datatype Relation = Relation(name: string, range: Range)

  /** The relation that a node names, qualified or not. */
  function RelationOf(n: Node): Option<Relation> {
    match n.kind
    case TableName(table, _) => Some(Relation(table.name, table.range))
    case PathTable(_, _) =>
      if Kids(n) != [] && Kids(n)[0].kind.Path?
      then Some(Relation(Dotted(Kids(n)[0].kind.idents), PathRange(Kids(n)[0].kind.idents))) else None
    case _ => None
  }

  function RelationAt(root: Node, a: Address): Option<Relation> {
    if NodeAt(root, a).Some? then RelationOf(NodeAt(root, a).value) else None
  }

  /** A single identifier names the same thing for the CTE binder. */
  lemma SingleNameAgrees(root: Node, a: Address)
    ensures CteBindings.ReferenceAt(root, a).Some? ==>
              RelationAt(root, a) == Some(Relation(CteBindings.ReferenceAt(root, a).value.name,
                  CteBindings.ReferenceAt(root, a).value.range))
  {
    var ident := CteBindings.ReferenceAt(root, a);
    if ident.Some? { assert ident.value.range == Range(ident.value.range.start, ident.value.range.end); }
  }

  // ----- The walk -----

  /** What the visitor of nodes yields at an address. */
  ghost function PickIn<T>(root: Node, pick: Node -> seq<T>): Address -> seq<T> {
    (a: Address) => if NodeAt(root, a).Some? then pick(NodeAt(root, a).value) else []
  }

  ghost function PickedAt<T>(root: Node, places: seq<Address>, pick: Node -> seq<T>): seq<T> {
    Along(places, PickIn(root, pick))
  }

  lemma PickedMembers<T>(root: Node, places: seq<Address>, pick: Node -> seq<T>, x: T)
    ensures x in PickedAt(root, places, pick) <==> exists a :: a in places && PicksAt(root, a, pick, x)
  {
    AlongMembers(places, PickIn(root, pick), x);
    forall a ensures x in PickIn(root, pick)(a) <==> PicksAt(root, a, pick, x) {}
  }

  ghost predicate PicksAt<T>(root: Node, a: Address, pick: Node -> seq<T>, x: T) {
    NodeAt(root, a).Some? && x in pick(NodeAt(root, a).value)
  }

  lemma AlongAfter<T>(was: seq<T>, done: seq<Address>, more: seq<Address>, visit: Address -> seq<T>)
    ensures was + Along(done + more, visit) == was + Along(done, visit) + Along(more, visit)
  {
    AlongAppend(done, more, visit);
    hide Along;
    assert was + (Along(done, visit) + Along(more, visit)) == was + Along(done, visit) + Along(more, visit);
  }

  /** The walk over a tree, node before children. */
  method Inspect<T>(ghost root: Node, ghost here: Address, n: Node, pick: Node -> seq<T>, was: seq<T>)
    returns (result: seq<T>)
    requires NodeAt(root, here) == Some(n)
    ensures result == was + PickedAt(root, Preorder(n, here), pick)
    decreases n
  {
    ghost var visit := PickIn(root, pick);
    result := was + pick(n);
    assert visit(here) == pick(n);
    hide Kids, Along, PickIn, Walked, Preorder, NodeAt;
    AlongOne(here, visit);
    WalkedFirst(n, here);
    ghost var done := [here];
    for k := 0 to |Kids(n)|
      invariant Walked(n, here, k, done) && result == was + Along(done, visit)
    {
      NodeAtChild(root, here, k);
      WalkedStep(n, here, k, done);
      AlongAfter(was, done, Preorder(Kids(n)[k], here + [k]), visit);
      result := Inspect(root, here + [k], Kids(n)[k], pick, result);
      done := done + Preorder(Kids(n)[k], here + [k]);
    }
    WalkedLast(n, here, done);
  }

  // ----- References -----

  predicate Selected(n: Node, sites: seq<CteBindings.CteSite>, target: string) {
    var r := RelationOf(n);
    r.Some? && Fold(r.value.name) == Fold(target) && !CteBindings.BindsReference(sites, r.value.range)
  }

  function Reported(sites: seq<CteBindings.CteSite>, target: string): Node -> seq<Range> {
    (n: Node) => if Selected(n, sites, target) then [RelationOf(n).value.range] else []
  }

  method RelationReferenceLocations(statements: seq<Node>, index: CteBindings.CteIndex, target: string)
    returns (result: seq<Range>)
    ensures var root := CteBindings.Document(statements);
            result == PickedAt(root, Preorder(root, []), Reported(index.sites, target))
  {
    var root := CteBindings.Document(statements);
    result := Inspect(root, [], root, Reported(index.sites, target), []);
  }

  // ----- Views in queries -----

  datatype Mark = Listed(name: string, range: Range) | Unsafe

  /** A view rename in a query: quoted uses and path tables are not understood,
      uses that a CTE owns are left alone. `plain` tells unquoted identifiers. */
  function ViewMarks(sites: seq<CteBindings.CteSite>, target: string, plain: Ident -> bool): Node -> seq<Mark> {
    (n: Node) =>
      if n.kind.TableName? && Fold(n.kind.table.name) == Fold(target) then
        if !plain(n.kind.table) then [Unsafe]
        else if CteBindings.BindsReference(sites, n.kind.table.range) then []
        else [Listed(n.kind.table.name, n.kind.table.range)]
      else if n.kind.PathTable? && Kids(n) != [] && Kids(n)[0].kind.Path? && Mentions(Kids(n)[0].kind.idents, target)
        then [Unsafe]
      else []
  }

  predicate Mentions(idents: seq<Ident>, target: string) {
    exists i :: 0 <= i < |idents| && Fold(idents[i].name) == Fold(target)
  }

  method CollectViewMarks(statements: seq<Node>, index: CteBindings.CteIndex, target: string, plain: Ident -> bool)
    returns (marks: seq<Mark>)
    ensures var root := CteBindings.Document(statements);
            marks == PickedAt(root, Preorder(root, []), ViewMarks(index.sites, target, plain))
  {
    var root := CteBindings.Document(statements);
    marks := Inspect(root, [], root, ViewMarks(index.sites, target, plain), []);
  }

  // ----- What is selected -----

  /** Relations have ranges of their own, as they do in any parsed text. */
  ghost predicate DistinctRanges(root: Node) {
    forall a, b | RelationAt(root, a).Some? && RelationAt(root, b).Some? ::
      RelationAt(root, a).value.range == RelationAt(root, b).value.range ==> a == b
  }

  lemma DistinctRangesOfNames(root: Node)
    requires DistinctRanges(root)
    ensures CteBindings.DistinctReferenceRanges(root)
  {
    forall a, b | CteBindings.ReferenceAt(root, a).Some? && CteBindings.ReferenceAt(root, b).Some?
      ensures CteBindings.ReferenceAt(root, a).value.range == CteBindings.ReferenceAt(root, b).value.range ==> a == b
    {
      SingleNameAgrees(root, a);
      SingleNameAgrees(root, b);
    }
  }

  /** No enclosing WITH clause gives the name at this place a meaning. */
  predicate NotACte(root: Node, a: Address) {
    var name := CteBindings.ReferenceAt(root, a);
    name.Some? ==> CteBindings.Resolve(root, a, Fold(name.value.name)).None?
  }

  /** A qualified name has no reference site in the CTE index. */
  lemma QualifiedIsUnbound(index: CteBindings.CteIndex, statements: seq<Node>, a: Address)
    requires CteBindings.IsIndexOf(index, statements) && DistinctRanges(CteBindings.Document(statements))
    requires RelationAt(CteBindings.Document(statements), a).Some? &&
             CteBindings.ReferenceAt(CteBindings.Document(statements), a).None?
    ensures !CteBindings.BindsReference(index.sites, RelationAt(CteBindings.Document(statements), a).value.range)
  {
    var root := CteBindings.Document(statements);
    var range := RelationAt(root, a).value.range;
    if CteBindings.BindsReference(index.sites, range) {
      var b := CteBindings.BindingForReference(index.sites, range).value;
      var at := CteBindings.SiteOrigin(index, statements, b, range);
      SingleNameAgrees(root, at);
      assert false;
    }
  }

  /** The walk lists a relation exactly when it has the name that is looked for and
      the lexical rule finds no CTE for it. */
  lemma SelectedIffNotACte(
      index: CteBindings.CteIndex, statements: seq<Node>, target: string, a: Address)
    requires CteBindings.IsIndexOf(index, statements) && DistinctRanges(CteBindings.Document(statements))
    requires NodeAt(CteBindings.Document(statements), a).Some?
    ensures var root := CteBindings.Document(statements);
            var relation := RelationAt(root, a);
            Selected(NodeAt(root, a).value, index.sites, target) <==>
            relation.Some? && Fold(relation.value.name) == Fold(target) && NotACte(root, a)
  {
    var root := CteBindings.Document(statements);
    DistinctRangesOfNames(root);
    if CteBindings.ReferenceAt(root, a).Some? {
      SingleNameAgrees(root, a);
      CteBindings.LookupIsLexical(index, statements, a);
    } else if RelationAt(root, a).Some? {
      QualifiedIsUnbound(index, statements, a);
    }
  }

  /** The references of a document: just the ranges of the relations of that name
      that no CTE owns, wherever they stand. */
  lemma ReferencesAreLexical(
      index: CteBindings.CteIndex, statements: seq<Node>, target: string, range: Range)
    requires CteBindings.IsIndexOf(index, statements) && DistinctRanges(CteBindings.Document(statements))
    ensures var root := CteBindings.Document(statements);
            range in PickedAt(root, Preorder(root, []), Reported(index.sites, target)) <==>
            exists a :: RefersAt(root, a, target, range)
  {
    var root := CteBindings.Document(statements);
    var pick := Reported(index.sites, target);
    PickedMembers(root, Preorder(root, []), pick, range);
    PreorderIsWhole(root);
    hide Selected, DistinctRanges, CteBindings.IsIndexOf;
    if a :| a in Preorder(root, []) && PicksAt(root, a, pick, range) {
      SelectedIffNotACte(index, statements, target, a);
      assert RefersAt(root, a, target, range);
    }
    if a :| RefersAt(root, a, target, range) {
      SelectedIffNotACte(index, statements, target, a);
      assert a in Preorder(root, []) && PicksAt(root, a, pick, range);
    }
  }

  ghost predicate RefersAt(root: Node, a: Address, target: string, range: Range) {
    var relation := RelationAt(root, a);
    relation.Some? && Fold(relation.value.name) == Fold(target) && relation.value.range == range && NotACte(root, a)
  }

  ghost predicate QueriesViewAt(root: Node, a: Address, target: string, name: string, range: Range) {
    && NodeAt(root, a).Some? && NodeAt(root, a).value.kind.TableName? && NodeAt(root, a).value.kind.table.name == name
    && RefersAt(root, a, target, range)
  }

  /** In a safe document the view sites are the references by table name that no
      CTE owns; the quoted ones make it unsafe, even where a CTE owns them. */
  lemma ViewSitesAreLexical(
      index: CteBindings.CteIndex, statements: seq<Node>, target: string, plain: Ident -> bool,
      name: string, range: Range)
    requires CteBindings.IsIndexOf(index, statements) && DistinctRanges(CteBindings.Document(statements))
    requires var root := CteBindings.Document(statements);
             Unsafe !in PickedAt(root, Preorder(root, []), ViewMarks(index.sites, target, plain))
    ensures var root := CteBindings.Document(statements);
            Listed(name, range) in PickedAt(root, Preorder(root, []), ViewMarks(index.sites, target, plain)) <==>
            exists a :: QueriesViewAt(root, a, target, name, range)
  {
    var root := CteBindings.Document(statements);
    var pick := ViewMarks(index.sites, target, plain);
    PickedMembers(root, Preorder(root, []), pick, Listed(name, range));
    PickedMembers(root, Preorder(root, []), pick, Unsafe);
    PreorderIsWhole(root);
    hide DistinctRanges, CteBindings.IsIndexOf, CteBindings.BindsReference, NotACte;
    if a :| a in Preorder(root, []) && PicksAt(root, a, pick, Listed(name, range)) {
      SelectedIffNotACte(index, statements, target, a);
      assert QueriesViewAt(root, a, target, name, range);
    }
    if a :| QueriesViewAt(root, a, target, name, range) {
      SelectedIffNotACte(index, statements, target, a);
      assert a in Preorder(root, []) && !PicksAt(root, a, pick, Unsafe);
      assert PicksAt(root, a, pick, Listed(name, range));
    }
  }

  // ----- The view refactor -----

  /** What a document contributes to a view rename: the names in its DDL, counted
      like those of a table, and the references in its queries. */
  function WithQueries(ddl: Collected, marks: seq<Mark>): Collected {
    Collected(ddl.sites + ListedSites(marks), ddl.declarations, ddl.safe && Unsafe !in marks)
  }

  function ListedSites(marks: seq<Mark>): seq<Site> {
    if marks == [] then []
    else
      var last := |marks| - 1;
      ListedSites(marks[..last]) + if marks[last].Listed? then [Site(marks[last].name, marks[last].range)] else []
  }

  lemma {:induction false} ListedSitesAre(marks: seq<Mark>, site: Site)
    ensures site in ListedSites(marks) <==> Listed(site.name, site.range) in marks
  {
    if marks != [] {
      var last := |marks| - 1;
      ListedSitesAre(marks[..last], site);
      assert marks == marks[..last] + [marks[last]];
    }
  }

  method CollectViewRefactorSites(
      ddl: seq<TableRefactor.Statement>, statements: seq<Node>, index: CteBindings.CteIndex, target: string,
      plain: Ident -> bool)
    returns (c: Collected)
    ensures var root := CteBindings.Document(statements);
            c == WithQueries(TableRefactor.Collect(ddl, target),
                PickedAt(root, Preorder(root, []), ViewMarks(index.sites, target, plain)))
  {
    var names := TableRefactor.CollectTableRefactorSites(ddl, target);
    hide TableRefactor.Collect, PickedAt;
    var marks := CollectViewMarks(statements, index, target, plain);
    var sites, safe := SplitMarks(marks);
    c := Collected(names.sites + sites, names.declarations, names.safe && safe);
  }

  method SplitMarks(marks: seq<Mark>) returns (sites: seq<Site>, safe: bool)
    ensures sites == ListedSites(marks) && (safe <==> Unsafe !in marks)
  {
    sites, safe := [], true;
    assert marks[..|marks|] == marks;
    for i := 0 to |marks|
      invariant sites == ListedSites(marks[..i]) && (safe <==> Unsafe !in marks[..i])
    {
      assert marks[..i + 1][..i] == marks[..i] && marks[..i + 1] == marks[..i] + [marks[i]];
      if marks[i].Unsafe? {
        safe := false;
      } else {
        sites := sites + [Site(marks[i].name, marks[i].range)];
      }
    }
  }

  /** In a safe document, a site of a view rename is a name in the DDL or a
      reference by table name that no CTE owns; nothing else, and none missing. */
  lemma ViewRefactorSites(
      ddl: seq<TableRefactor.Statement>, index: CteBindings.CteIndex, statements: seq<Node>,
      target: string, plain: Ident -> bool, site: Site)
    requires CteBindings.IsIndexOf(index, statements) && DistinctRanges(CteBindings.Document(statements))
    ensures var root := CteBindings.Document(statements);
            var names := TableRefactor.Collect(ddl, target);
            var c := WithQueries(names, PickedAt(root, Preorder(root, []), ViewMarks(index.sites, target, plain)));
            c.safe ==> (site in c.sites <==>
                        site in names.sites || exists a :: QueriesViewAt(root, a, target, site.name, site.range))
  {
    var root := CteBindings.Document(statements);
    var marks := PickedAt(root, Preorder(root, []), ViewMarks(index.sites, target, plain));
    ListedSitesAre(marks, site);
    if Unsafe !in marks {
      ViewSitesAreLexical(index, statements, target, plain, site.name, site.range);
    }
  }
}
