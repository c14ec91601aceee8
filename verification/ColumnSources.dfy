/** The document that column bindings are made from, as the CTE and alias binders
    leave it. */
module ColumnSources {
  import opened Coordinates
  import opened Syntax
  import opened Sorting
  import opened WorkspaceScan
  import opened QueryShapes
  import Ctes = CteBindings
  import Aliases = AliasBindings
  import Columns = ColumnBindings
  import Rename = ColumnRename
  import Selects = SelectAliases
  import opened SelectIndexes
  import Diagnostics

  // ----- Assembling the indexes -----

  /** What the three binders extract from a document. */
  datatype Indexes = Indexes(ctes: Ctes.CteIndex, tables: Aliases.AliasIndex, selects: Selects.SelectIndex)

  /** An alias with what it stands for. */
  ghost function AliasOf(b: Aliases.AliasBinding): Columns.Alias {
    var unknown := Shape(false, []);
    match b.source
    case NoSource => Columns.Alias(b.name, b.declarationRange, b.ambiguous, None, unknown, "")
    case FromTable(name) => Columns.Alias(b.name, b.declarationRange, b.ambiguous, None, unknown, name)
    case FromCte(c) => Columns.Alias(b.name, b.declarationRange, b.ambiguous, Some(c), unknown, "")
    case FromQuery(query) => Columns.Alias(b.name, b.declarationRange, b.ambiguous, None, ShapeOfQuery(query), "")
  }

  /** The place of the b-th CTE of a document, in the order of the bindings. */
  ghost function CtePlace(root: Node, b: nat): Option<Address> {
    var decls := Ctes.Declarations(Ctes.Expected(root, root, []));
    if b < |decls| && decls[b].Declared? then Some(decls[b].at) else None
  }

  /** The query of the b-th CTE. */
  ghost function CteQuery(root: Node, b: nat): Node {
    if CtePlace(root, b).Some? then QueryAt(root, CtePlace(root, b).value) else Node(Other, [])
  }

  function QueryAt(root: Node, a: Address): Node {
    if NodeAt(root, a).Some? && Kids(NodeAt(root, a).value) != [] then Kids(NodeAt(root, a).value)[0]
       else Node(Other, [])
  }

  /** The document of the three indexes, with the shapes of its CTEs and its subqueries. */
  ghost function DocumentOf(root: Node, x: Indexes): (d: Columns.Document) {
    Columns.Document(
      seq(|x.ctes.bindings|, i requires 0 <= i < |x.ctes.bindings| =>
        Columns.Cte(x.ctes.bindings[i].name, x.ctes.bindings[i].declarationRange, ShapeOfQuery(CteQuery(root, i)))),
      seq(|x.tables.bindings|, i requires 0 <= i < |x.tables.bindings| => AliasOf(x.tables.bindings[i])),
      seq(|x.tables.memberSites|, i requires 0 <= i < |x.tables.memberSites| => MemberOf(x.tables.memberSites[i])),
      seq(|x.selects.bindings|, i requires 0 <= i < |x.selects.bindings| =>
        Columns.SelectAlias(x.selects.bindings[i].declarationRange, x.selects.bindings[i].referenceRanges)))
  }

  function MemberOf(site: Aliases.MemberSite): Columns.Member {
    Columns.Member(site.binding, site.name, site.range)
  }

  // ----- What the binders guarantee -----

  /** An alias of a CTE comes from a reference site of the CTE index. */
  lemma {:induction false} CteSourcesAreSites(table: Node, ctes: seq<Ctes.CteSite>, alias: Aliases.Alias)
    requires alias in Aliases.FromAliases(table, ctes) && alias.source.FromCte?
    ensures exists range :: Ctes.CteSite(alias.source.binding, range, false) in ctes
  {
    match table.kind
    case ParenTable => CteSourcesAreSites(Kids(table)[0], ctes, alias);
    case Join =>
      if |Kids(table)| > 0 && alias in Aliases.FromAliases(Kids(table)[0], ctes) {
        CteSourcesAreSites(Kids(table)[0], ctes, alias);
      } else {
        CteSourcesAreSites(Kids(table)[1], ctes, alias);
      }
    case TableName(name, _) => var found := Ctes.BindingForReference(ctes, name.range);
    case PathTable(_, _) => var found := Ctes.BindingForReference(ctes, PathRange(Aliases.SourcePath(table)));
    case _ =>
  }

  /** A site of the CTE index has a binding. */
  lemma SiteHasBinding(ctes: Ctes.CteIndex, statements: seq<Node>, site: Ctes.CteSite)
    requires Ctes.IsIndexOf(ctes, statements) && site in ctes.sites
    ensures site.binding < |ctes.bindings|
  {
    var walked: seq<Ctes.CteSite> :| Ctes.IsSorted(ctes, statements, walked);
    PermutationMembers(ctes.sites, walked);
    var i :| 0 <= i < |walked| && walked[i] == site;
    var root := Ctes.Document(statements);
    var log := Ctes.Expected(root, root, []);
    assert Ctes.SiteIs(walked[i], Ctes.Declarations(log), log[i]);
  }

  lemma AliasCteExists(ctes: Ctes.CteIndex, aliases: Aliases.AliasIndex, statements: seq<Node>, a: nat)
    requires Ctes.IsIndexOf(ctes, statements) && Aliases.IsIndexOf(aliases, Ctes.Document(statements), ctes.sites)
    requires a < |aliases.bindings| && aliases.bindings[a].source.FromCte?
    ensures aliases.bindings[a].source.binding < |ctes.bindings|
  {
    var root := Ctes.Document(statements);
    hide Ctes.IsIndexOf, Aliases.ByRule, Aliases.Expected, Aliases.FromAliases;
    var walked: Aliases.AliasIndex :|
      Aliases.IsSorted(aliases, walked) &&
        Aliases.Represents(walked, root, ctes.sites, Aliases.Expected(root, ctes.sites));
    var decls := Aliases.Decls(root, ctes.sites);
    assert Aliases.BindingIs(walked.bindings[a], decls, a,
        Aliases.ReferenceRanges(Aliases.Expected(root, ctes.sites), decls[a].decl));
    Aliases.DeclarationIsSibling(root, ctes.sites, a);
    var alias := decls[a].alias;
    assert alias in Aliases.Siblings(root, ctes.sites, decls[a].decl);
    SelectCteExists(ctes, statements, decls[a].decl, alias);
  }

  lemma SelectCteExists(ctes: Ctes.CteIndex, statements: seq<Node>, decl: Aliases.AliasDecl, alias: Aliases.Alias)
    requires Ctes.IsIndexOf(ctes, statements)
    requires alias in Aliases.Siblings(Ctes.Document(statements), ctes.sites, decl) && alias.source.FromCte?
    ensures alias.source.binding < |ctes.bindings|
  {
    var select := NodeAt(Ctes.Document(statements), decl.select).value;
    CteSourcesAreSites(Kids(select)[select.kind.source], ctes.sites, alias);
    var range :| Ctes.CteSite(alias.source.binding, range, false) in ctes.sites;
    SiteHasBinding(ctes, statements, Ctes.CteSite(alias.source.binding, range, false));
  }

  /** A member site belongs to an alias that is not ambiguous: ambiguous ones collect
      no reference. */
  lemma MemberAliasUnambiguous(ctes: seq<Ctes.CteSite>, aliases: Aliases.AliasIndex, root: Node, m: nat)
    requires Aliases.IsIndexOf(aliases, root, ctes) && m < |aliases.memberSites|
    ensures aliases.memberSites[m].binding < |aliases.bindings| &&
            !aliases.bindings[aliases.memberSites[m].binding].ambiguous
  {
    var log := Aliases.Expected(root, ctes);
    hide Aliases.Expected, Aliases.ByRule, Aliases.SitesAre, Aliases.ScopesAre;
    var walked: Aliases.AliasIndex :| Aliases.IsSorted(aliases, walked) && Aliases.Represents(walked, root, ctes, log);
    PermutationMembers(aliases.memberSites, walked.memberSites);
    assert aliases.memberSites[m] in walked.memberSites;
    var i :| 0 <= i < |walked.memberSites| && walked.memberSites[i] == aliases.memberSites[m];
    var decls, e := Aliases.Decls(root, ctes), Aliases.Keep(log, Aliases.Members)[i];
    assert Aliases.MemberIs(walked.memberSites[i], decls, e);
    Aliases.KeepMembers(log, Aliases.Members, e);
    var b := walked.memberSites[i].binding;
    Aliases.CollectedReferences(walked, root, ctes, b);
    assert Aliases.BindingIs(walked.bindings[b], decls, b, Aliases.ReferenceRanges(log, decls[b].decl));
    Aliases.ReferencesAreRecorded(log, e.decl, e.range);
    assert e == Aliases.Referred(e.at, e.decl, e.range, e.member);
    assert e.range in walked.bindings[b].referenceRanges;
  }

  /** The document of indexes that follow the lexical rules is bound. */
  lemma DocumentIsBound(statements: seq<Node>, x: Indexes)
    requires FromBinders(statements, x)
    ensures Columns.Bound(DocumentOf(Ctes.Document(statements), x))
  {
    var d := DocumentOf(Ctes.Document(statements), x);
    hide Ctes.IsIndexOf, Aliases.IsIndexOf, CteQuery, IsJointIndex;
    forall a | 0 <= a < |d.aliases|
      ensures d.aliases[a].ambiguous == x.tables.bindings[a].ambiguous
      ensures d.aliases[a].sourceCte.Some? ==> d.aliases[a].sourceCte.value < |d.ctes|
      ensures d.aliases[a].shape.known ==> d.aliases[a].sourceTableName == ""
    {
      AliasIs(x.tables.bindings[a]);
      if x.tables.bindings[a].source.FromCte? { AliasCteExists(x.ctes, x.tables, statements, a); }
    }
    hide AliasOf;
    forall m | 0 <= m < |d.members|
      ensures d.members[m].alias < |d.aliases| && !d.aliases[d.members[m].alias].ambiguous
    {
      MemberAliasUnambiguous(x.ctes.sites, x.tables, Ctes.Document(statements), m);
    }
  }

  lemma AliasIs(b: Aliases.AliasBinding)
    ensures var a := AliasOf(b);
            && a.ambiguous == b.ambiguous && (a.shape.known ==> a.sourceTableName == "")
            && a.sourceCte == if b.source.FromCte? then Some(b.source.binding) else None
  {}

  /** Extracted shapes have no two columns of one name. */
  lemma DocumentShapesApart(root: Node, x: Indexes)
    ensures Columns.ShapesApart(DocumentOf(root, x))
  {
    var d := DocumentOf(root, x);
    hide ColumnsApart, ShapeOfQuery, CteQuery;
    forall c | 0 <= c < |d.ctes| && d.ctes[c].shape.known ensures ColumnsApart(d.ctes[c].shape.columns) {
      ShapeApart(CteQuery(root, c));
    }
    forall a | 0 <= a < |d.aliases| && d.aliases[a].shape.known ensures ColumnsApart(d.aliases[a].shape.columns) {
      var source := x.tables.bindings[a].source;
      assert source.FromQuery?;
      ShapeApart(source.query);
    }
  }

  // ----- The SELECT lists behind the shapes -----

  ghost function AliasList(b: Aliases.AliasBinding): Items {
    if b.source.FromQuery? then ListOf(b.source.query) else None
  }

  ghost function SourcesOf(root: Node, x: Indexes): Rename.Sources {
    Rename.Sources(
      seq(|x.ctes.bindings|, i requires 0 <= i < |x.ctes.bindings| => ListOf(CteQuery(root, i))),
      seq(|x.tables.bindings|, i requires 0 <= i < |x.tables.bindings| => AliasList(x.tables.bindings[i])))
  }

  /** Every shape of the document is that of the SELECT list of its query. */
  lemma DocumentFromItems(root: Node, x: Indexes)
    ensures Rename.FromItems(DocumentOf(root, x), SourcesOf(root, x))
  {
    hide ListOf, ShapeFrom, CteQuery, ShapeOfQuery;
    forall a | 0 <= a < |x.tables.bindings|
      ensures ShapeFrom(AliasList(x.tables.bindings[a]), AliasOf(x.tables.bindings[a]).shape)
    {
      AliasFromList(x.tables.bindings[a]);
    }
  }

  lemma AliasFromList(b: Aliases.AliasBinding)
    ensures ShapeFrom(AliasList(b), AliasOf(b).shape)
  {}

  // ----- The laws of the column indexes, from the binders -----

  /** The inputs are what the binders deliver. */
  ghost predicate FromBinders(statements: seq<Node>, x: Indexes) {
    && Ctes.IsIndexOf(x.ctes, statements) && Aliases.IsIndexOf(x.tables, Ctes.Document(statements), x.ctes.sites)
    && IsJointIndex(x.selects, Ctes.Document(statements), x.tables.sites)
  }

  /** Each qualified member of a document is a reference of at most one column binding,
      in the CTE and the derived index together; and one whose source is a CTE or
      derived table of known shape is reported as an unknown column, outside ambiguous
      paths, exactly when it is a reference of none. */
  lemma MembersAreClaimedOrReported(
      statements: seq<Node>, x: Indexes, pc: seq<Columns.Place>, ofCtes: Columns.ColumnIndex, pd: seq<Columns.Place>,
      derived: Columns.ColumnIndex, path: Path, m: nat)
    requires FromBinders(statements, x)
    requires var d := DocumentOf(Ctes.Document(statements), x);
             && Columns.MembersApart(d) && m < |d.members|
             && Columns.IsColumnIndex(d, false, pc, ofCtes) && Columns.IsColumnIndex(d, true, pd, derived)
    ensures var d := DocumentOf(Ctes.Document(statements), x);
            var r := d.members[m].range;
            && Columns.Bound(d)
            && (forall i: nat, j: nat | Columns.ColumnSite(i, r, false) in ofCtes.sites ::
                  Columns.ColumnSite(j, r, false) in ofCtes.sites ==> i == j)
            && (forall i: nat, j: nat | Columns.ColumnSite(i, r, false) in derived.sites ::
                  Columns.ColumnSite(j, r, false) in derived.sites ==> i == j)
            && !(Columns.Recorded(ofCtes, d, m) && Columns.Recorded(derived, d, m))
            && (Columns.KnownLocally(d, m) ==>
                  (Diagnostics.LocalDiagnostic(path, Columns.Seen(d, m, false)).Some? <==>
                   !Columns.Recorded(ofCtes, d, m) && !Columns.Recorded(derived, d, m)))
  {
    var d := DocumentOf(Ctes.Document(statements), x);
    DocumentIsBound(statements, x);
    DocumentShapesApart(Ctes.Document(statements), x);
    hide FromBinders, DocumentOf, Columns.IsColumnIndex, Columns.MembersApart, Columns.ShapesApart, Columns.Seen;
    var r := d.members[m].range;
    forall i: nat, j: nat | Columns.ColumnSite(i, r, false) in ofCtes.sites &&
        Columns.ColumnSite(j, r, false) in ofCtes.sites
      ensures i == j
    {
      Columns.RecordedOnce(d, false, pc, ofCtes, false, pc, ofCtes, m, i, j);
    }
    forall i: nat, j: nat | Columns.ColumnSite(i, r, false) in derived.sites &&
        Columns.ColumnSite(j, r, false) in derived.sites
      ensures i == j
    {
      Columns.RecordedOnce(d, true, pd, derived, true, pd, derived, m, i, j);
    }
    if Columns.Recorded(ofCtes, d, m) && Columns.Recorded(derived, d, m) {
      var i: nat :| Columns.ColumnSite(i, r, false) in ofCtes.sites;
      var j: nat :| Columns.ColumnSite(j, r, false) in derived.sites;
      Columns.RecordedOnce(d, false, pc, ofCtes, true, pd, derived, m, i, j);
    }
    if Columns.KnownLocally(d, m) {
      Columns.ReportedIffUnrecorded(d, path, m, pc, ofCtes, pd, derived);
    }
  }
}
