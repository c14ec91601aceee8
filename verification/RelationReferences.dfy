/** References to tables and views by the kinds of the nodes: what a rename or a search for a
    relation finds in the queries of a document. */
module RelationReferences {
  import opened Coordinates
  import opened Syntax
  import opened Refactor
  import opened Relations
  import opened PathsAndNames
  import CteBindings
  import CteReferences
  import AliasReferences
  import TableRefactor

  /** The node names a relation in this range: a table by its name, or by a path whose names
      are joined by dots. */
  ghost predicate Writes(n: Node, name: string, r: Range) {
    || (n.kind.TableName? && n.kind.table.name == name && n.kind.table.range == r)
    || (n.kind.PathTable? && Kids(n) != [] && Kids(n)[0].kind.Path?
        && name == Dotted(Kids(n)[0].kind.idents) && AliasReferences.Spans(Kids(n)[0].kind.idents, r))
  }

  ghost predicate WritesAt(root: Node, a: Address, name: string, r: Range) {
    NodeAt(root, a).Some? && Writes(NodeAt(root, a).value, name, r)
  }

  /** No CTE collects a reference of that range. */
  ghost predicate Free(sites: seq<CteBindings.CteSite>, r: Range) {
    forall b :: CteBindings.CteSite(b, r, false) !in sites
  }

  lemma WritesIff(n: Node, name: string, r: Range)
    ensures Writes(n, name, r) <==> RelationOf(n) == Some(Relation(name, r))
  {
    if n.kind.PathTable? && Kids(n) != [] && Kids(n)[0].kind.Path? {
      AliasReferences.SpansOnce(Kids(n)[0].kind.idents, r);
    }
    hide AliasReferences.Spans, Dotted, PathRange;
  }

  lemma SelectedIff(n: Node, sites: seq<CteBindings.CteSite>, target: string, r: Range)
    ensures r in Reported(sites, target)(n) <==>
            exists name :: Writes(n, name, r) && SameButCase(name, target) && Free(sites, r)
  {
    hide Writes, SameButCase;
    forall name ensures Writes(n, name, r) <==> RelationOf(n) == Some(Relation(name, r)) { WritesIff(n, name, r); }
    if RelationOf(n).Some? { FoldIff(RelationOf(n).value.name, target); }
    if r in Reported(sites, target)(n) {
      assert Writes(n, RelationOf(n).value.name, r);
    }
  }

  /** The references to a relation: the ranges where its name is written, but for the case of
      the letters, and no CTE collects a reference. */
  lemma ReportedIff(root: Node, sites: seq<CteBindings.CteSite>, target: string, r: Range)
    ensures r in PickedAt(root, Preorder(root, []), Reported(sites, target)) <==>
            exists a, name :: WritesAt(root, a, name, r) && SameButCase(name, target) && Free(sites, r)
  {
    hide SameButCase, Free, Writes;
    var pick := Reported(sites, target);
    PickedMembers(root, Preorder(root, []), pick, r);
    PreorderIsWhole(root);
    hide Reported;
    if a :| a in Preorder(root, []) && PicksAt(root, a, pick, r) {
      SelectedIff(NodeAt(root, a).value, sites, target, r);
      var name :| Writes(NodeAt(root, a).value, name, r) && SameButCase(name, target) && Free(sites, r);
      assert WritesAt(root, a, name, r);
    }
    if a, name :| WritesAt(root, a, name, r) && SameButCase(name, target) && Free(sites, r) {
      SelectedIff(NodeAt(root, a).value, sites, target, r);
      assert PicksAt(root, a, pick, r);
    }
  }

  /** Some CTE is what the node names. */
  ghost predicate NamesCte(root: Node, a: Address) {
    exists i, decl :: CteReferences.RefersTo(root, a, i, decl)
  }

  lemma NotACteIff(root: Node, a: Address)
    requires NodeAt(root, a).Some?
    ensures NotACte(root, a) <==> !NamesCte(root, a)
  {
    hide CteReferences.RefersTo, CteBindings.Resolve, CteBindings.Reference;
    var name := CteBindings.ReferenceAt(root, a);
    forall i, decl ensures CteReferences.RefersTo(root, a, i, decl) <==>
                           name == Some(i) && CteBindings.Resolve(root, a, Fold(i.name)) == Some(decl) {
      CteReferences.ReferenceIff(root, a, i, decl);
    }
    if name.Some? && CteBindings.Resolve(root, a, Fold(name.value.name)).Some? {
      assert CteReferences.RefersTo(root, a, name.value, CteBindings.Resolve(root, a, Fold(name.value.name)).value);
    }
  }

  /** In a parsed document these are the places of that name where it denotes no CTE. */
  lemma ReferencesIff(index: CteBindings.CteIndex, statements: seq<Node>, target: string, r: Range)
    requires CteBindings.IsIndexOf(index, statements) && DistinctRanges(CteBindings.Document(statements))
    ensures var root := CteBindings.Document(statements);
            r in PickedAt(root, Preorder(root, []), Reported(index.sites, target)) <==>
            exists a, name :: WritesAt(root, a, name, r) && SameButCase(name, target) && !NamesCte(root, a)
  {
    hide PickedAt, Reported, SameButCase, NotACte, NamesCte, Writes, DistinctRanges, CteBindings.IsIndexOf;
    var root := CteBindings.Document(statements);
    ReferencesAreLexical(index, statements, target, r);
    if a :| RefersAt(root, a, target, r) {
      var name := RelationAt(root, a).value.name;
      WritesIff(NodeAt(root, a).value, name, r);
      FoldIff(name, target);
      NotACteIff(root, a);
      assert WritesAt(root, a, name, r);
    }
    if a, name :| WritesAt(root, a, name, r) && SameButCase(name, target) && !NamesCte(root, a) {
      WritesIff(NodeAt(root, a).value, name, r);
      FoldIff(name, target);
      NotACteIff(root, a);
      assert RefersAt(root, a, target, r);
    }
  }

  // ----- Views -----

  /** A query uses the view there: an unquoted table name outside the reach of a CTE. */
  ghost predicate UsesView(root: Node, sites: seq<CteBindings.CteSite>, target: string,
                           plain: Ident -> bool, a: Address, site: Site) {
    && NodeAt(root, a).Some? && NodeAt(root, a).value.kind.TableName?
    && var i := NodeAt(root, a).value.kind.table;
       SameButCase(i.name, target) && plain(i) && Free(sites, i.range) && site.name == i.name && site.range == i.range
  }

  /** A rename of the view does not understand the node: its name is quoted, or part of a path. */
  ghost predicate Obscure(root: Node, target: string, plain: Ident -> bool, a: Address) {
    && NodeAt(root, a).Some?
    && var n := NodeAt(root, a).value;
       || (n.kind.TableName? && SameButCase(n.kind.table.name, target) && !plain(n.kind.table))
       || (n.kind.PathTable? && Kids(n) != [] && Kids(n)[0].kind.Path? && IsPartOf(Kids(n)[0].kind.idents, target))
  }

  ghost predicate IsPartOf(idents: seq<Ident>, target: string) {
    exists i :: 0 <= i < |idents| && SameButCase(idents[i].name, target)
  }

  lemma PartIff(idents: seq<Ident>, target: string)
    ensures Mentions(idents, target) <==> IsPartOf(idents, target)
  {
    forall i | 0 <= i < |idents| ensures Fold(idents[i].name) == Fold(target) <==> SameButCase(idents[i].name, target) {
      FoldIff(idents[i].name, target);
    }
    hide Fold, SameButCase;
  }

  lemma MarkIff(root: Node, sites: seq<CteBindings.CteSite>, target: string,
                plain: Ident -> bool, a: Address, site: Site)
    ensures var pick := ViewMarks(sites, target, plain);
            && (PicksAt(root, a, pick, Listed(site.name, site.range)) <==>
                   UsesView(root, sites, target, plain, a, site))
            && (PicksAt(root, a, pick, Unsafe) <==> Obscure(root, target, plain, a))
  {
    hide SameButCase, Fold, Mentions, IsPartOf;
    if NodeAt(root, a).Some? {
      var n := NodeAt(root, a).value;
      if n.kind.TableName? { FoldIff(n.kind.table.name, target); }
      if n.kind.PathTable? && Kids(n) != [] && Kids(n)[0].kind.Path? { PartIff(Kids(n)[0].kind.idents, target); }
    }
  }

  /** A view rename: the names in its DDL with the uses in queries, and no obscure node. */
  lemma ViewCollectedIff(root: Node, ddl: seq<TableRefactor.Statement>, sites: seq<CteBindings.CteSite>, target: string,
                         plain: Ident -> bool, site: Site)
    ensures var names := TableRefactor.Collect(ddl, target);
            var c := WithQueries(names, PickedAt(root, Preorder(root, []), ViewMarks(sites, target, plain)));
            && (site in c.sites <==> site in names.sites || exists a :: UsesView(root, sites, target, plain, a, site))
            && (c.safe <==> names.safe && forall a :: !Obscure(root, target, plain, a))
            && c.declarations == names.declarations
  {
    hide TableRefactor.Collect, UsesView, Obscure, NodeAt, PicksAt;
    var pick := ViewMarks(sites, target, plain);
    var marks := PickedAt(root, Preorder(root, []), pick);
    ListedSitesAre(marks, site);
    PickedMembers(root, Preorder(root, []), pick, Listed(site.name, site.range));
    PickedMembers(root, Preorder(root, []), pick, Unsafe);
    PreorderIsWhole(root);
    forall a
      ensures PicksAt(root, a, pick, Listed(site.name, site.range)) <==> UsesView(root, sites, target, plain, a, site)
      ensures PicksAt(root, a, pick, Unsafe) <==> Obscure(root, target, plain, a)
      ensures PicksAt(root, a, pick, Unsafe) || PicksAt(root, a, pick, Listed(site.name, site.range)) ==>
              NodeAt(root, a).Some?
    {
      MarkIff(root, sites, target, plain, a, site);
      PickedNode(root, a, pick);
    }
    hide ViewMarks, PickedAt;
  }

  lemma PickedNode(root: Node, a: Address, pick: Node -> seq<Mark>)
    ensures forall m :: PicksAt(root, a, pick, m) ==> NodeAt(root, a).Some?
  {}
}
