/** Edits that touch no name the binders bind by: what the CTE binder and the alias
    binder find in the edited tree. */
module SparedBinders {
  import opened Coordinates
  import opened Syntax
  import opened Sorting
  import opened Editing
  import opened Texts
  import opened SelectWalk
  import opened TextNames
  import opened FromSlots
  import Ctes = CteBindings
  import Tables = AliasBindings
  import Rename = AliasRename
  import Reindex = AliasReindex
  import Flags = AliasReindexFlags
  import TableRename

  // ----- Common table expressions -----

  /** No name of a CTE and no table reference is edited. */
  ghost predicate SparesCtes(root: Node, edits: set<Range>) {
    && TableRename.KeepsAllCteNames(root, edits)
    && forall a :: Ctes.ReferenceAt(root, a).Some? ==> Ctes.ReferenceAt(root, a).value.range !in edits
  }

  lemma SparedReference(root: Node, n: Node, here: Address, edits: set<Range>, newName: string)
    requires NodeAt(root, here) == Some(n) && SparesCtes(root, edits)
    ensures Ctes.ReferenceEvents(Edit(root, edits, newName), Edit(n, edits, newName), here) ==
            Ctes.ReferenceEvents(root, n, here)
  {
    hide Edit, Ctes.Resolve, NodeAt, Ctes.Reference;
    TableRename.EditReferenceOf(n, edits, newName);
    NamedReference(root, n, here);
    if Ctes.Reference(n).Some? {
      var name := Ctes.Reference(n).value;
      assert Ctes.ReferenceAt(root, here) == Some(name);
      TableRename.EditResolve(root, here, Fold(name.name), edits, newName);
    }
  }

  lemma NamedReference(root: Node, n: Node, here: Address)
    requires NodeAt(root, here) == Some(n)
    ensures Ctes.ReferenceAt(root, here) == Ctes.Reference(n)
  {}

  lemma SparedDeclaration(root: Node, n: Node, here: Address, k: nat, edits: set<Range>, newName: string)
    requires NodeAt(root, here) == Some(n) && SparesCtes(root, edits)
    ensures Ctes.DeclarationEvents(Edit(n, edits, newName), here, k) == Ctes.DeclarationEvents(n, here, k)
  {
    TableRename.EditCteCount(n, edits, newName);
    EditKids(n, edits, newName);
    if k < Ctes.CteCount(n) { TableRename.EditedKind(Kids(n)[k], edits, newName); }
    hide Edit, NodeAt;
  }

  lemma {:induction false} SparedRecord(root: Node, n: Node, here: Address, edits: set<Range>, newName: string)
    requires NodeAt(root, here) == Some(n) && SparesCtes(root, edits)
    ensures Ctes.Expected(Edit(root, edits, newName), Edit(n, edits, newName), here) == Ctes.Expected(root, n, here)
    decreases n, |Kids(n)| + 1
  {
    hide Edit, NodeAt, Ctes.ReferenceEvents, SparesCtes;
    SparedReference(root, n, here, edits, newName);
    EditKids(n, edits, newName);
    SparedRecordFrom(root, n, here, 0, edits, newName);
  }

  lemma {:induction false} SparedRecordFrom(root: Node, n: Node, here: Address, k: nat, edits: set<Range>,
                                            newName: string)
    requires NodeAt(root, here) == Some(n) && SparesCtes(root, edits)
    requires k <= |Kids(n)| && |Kids(Edit(n, edits, newName))| == |Kids(n)|
    ensures Ctes.ExpectedFrom(Edit(root, edits, newName), Edit(n, edits, newName), here, k) ==
            Ctes.ExpectedFrom(root, n, here, k)
    decreases n, |Kids(n)| - k
  {
    hide Edit, NodeAt, Ctes.Expected, Ctes.DeclarationEvents, SparesCtes;
    EditKids(n, edits, newName);
    if k < |Kids(n)| {
      NodeAtChild(root, here, k);
      SparedRecord(root, Kids(n)[k], here + [k], edits, newName);
      SparedDeclaration(root, n, here, k, edits, newName);
      SparedRecordFrom(root, n, here, k + 1, edits, newName);
    }
  }

  /** The statements of the edited document. */
  function EditAll(statements: seq<Node>, edits: set<Range>, newName: string): seq<Node> {
    seq(|statements|, i requires 0 <= i < |statements| => Edit(statements[i], edits, newName))
  }

  lemma EditDocument(statements: seq<Node>, edits: set<Range>, newName: string)
    ensures Ctes.Document(EditAll(statements, edits, newName)) == Edit(Ctes.Document(statements), edits, newName)
  {}

  ghost function Record(root: Node): seq<Ctes.Event> {
    Ctes.Expected(root, root, [])
  }

  /** The sites of a record are determined by it. */
  lemma SitesDetermined(log: seq<Ctes.Event>, x: seq<Ctes.CteSite>, y: seq<Ctes.CteSite>)
    requires Ctes.DistinctPlaces(log)
    requires Ctes.SitesAre(x, Ctes.Declarations(log), log) && Ctes.SitesAre(y, Ctes.Declarations(log), log)
    ensures x == y
  {
    DeclarationsDistinct(log);
    var decls := Ctes.Declarations(log);
    hide Ctes.Declarations;
    forall i | 0 <= i < |log| ensures x[i] == y[i] {
      assert Ctes.SiteIs(x[i], decls, log[i]) && Ctes.SiteIs(y[i], decls, log[i]);
      assert decls[x[i].binding].at == decls[y[i].binding].at;
    }
  }

  lemma {:induction false} DeclarationsDistinct(log: seq<Ctes.Event>)
    requires Ctes.DistinctPlaces(log)
    ensures Ctes.DistinctPlaces(Ctes.Declarations(log))
    ensures forall e :: e in Ctes.Declarations(log) ==> e in log && e.Declared?
  {
    if log != [] {
      var init, e := log[..|log| - 1], log[|log| - 1];
      DeclarationsDistinct(init);
      assert forall d :: d in init ==> d in log;
      assert Ctes.Declarations(log) == Ctes.Declarations(init) + if e.Declared? then [e] else [];
      forall d | d in Ctes.Declarations(init) ensures d.at != e.at {
        var i :| 0 <= i < |init| && init[i] == d;
        assert log[i] == d;
      }
    }
  }

  /** The reference sites of one range are of one binding. */
  lemma OneSite(index: Ctes.CteIndex, statements: seq<Node>, range: Range, b: nat, c: nat)
    requires Ctes.IsIndexOf(index, statements) && Ctes.DistinctReferenceRanges(Ctes.Document(statements))
    requires Ctes.CteSite(b, range, false) in index.sites && Ctes.CteSite(c, range, false) in index.sites
    ensures b == c
  {
    var root := Ctes.Document(statements);
    var log := Record(root);
    var walked: seq<Ctes.CteSite> :| Ctes.IsSorted(index, statements, walked);
    PermutationMembers(index.sites, walked);
    Ctes.RecordIsLexical(root);
    var i :| 0 <= i < |walked| && walked[i] == Ctes.CteSite(b, range, false);
    var j :| 0 <= j < |walked| && walked[j] == Ctes.CteSite(c, range, false);
    assert Ctes.SiteIs(walked[i], Ctes.Declarations(log), log[i]) &&
      Ctes.SiteIs(walked[j], Ctes.Declarations(log), log[j]);
    assert log[i] in log && log[j] in log && Ctes.ByRule(root, log[i]) && Ctes.ByRule(root, log[j]);
    assert log[i].at == log[j].at;
    assert i == j;
  }

  /** The CTE index of the edited document. */
  ghost predicate SameCtes(ctes: Ctes.CteIndex, ctes': Ctes.CteIndex) {
    && ctes'.bindings == ctes.bindings
    && forall range :: Ctes.BindingForReference(ctes'.sites, range) == Ctes.BindingForReference(ctes.sites, range)
  }

  lemma CtesStay(statements: seq<Node>, ctes: Ctes.CteIndex, ctes': Ctes.CteIndex, edits: set<Range>, newName: string)
    requires Ctes.IsIndexOf(ctes, statements) && Ctes.IsIndexOf(ctes', EditAll(statements, edits, newName))
    requires SparesCtes(Ctes.Document(statements), edits) && Ctes.DistinctReferenceRanges(Ctes.Document(statements))
    ensures SameCtes(ctes, ctes')
    ensures Record(Edit(Ctes.Document(statements), edits, newName)) == Record(Ctes.Document(statements))
  {
    var root := Ctes.Document(statements);
    EditDocument(statements, edits, newName);
    SparedRecord(root, root, [], edits, newName);
    Ctes.RecordIsLexical(root);
    var log := Record(root);
    hide Edit, EditAll, Ctes.Expected, Ctes.DistinctReferenceRanges, SparesCtes, Ctes.SitesAre, Ctes.BindingsAre;
    var walked: seq<Ctes.CteSite> :| Ctes.IsSorted(ctes, statements, walked);
    var walked': seq<Ctes.CteSite> :| Ctes.IsSorted(ctes', EditAll(statements, edits, newName), walked');
    SitesDetermined(log, walked, walked');
    PermutationMembers(ctes.sites, walked);
    PermutationMembers(ctes'.sites, walked);
    BindingsDetermined(log, ctes.bindings, ctes'.bindings);
    forall range ensures Ctes.BindingForReference(ctes'.sites, range) == Ctes.BindingForReference(ctes.sites, range) {
      SameLookup(statements, ctes, ctes'.sites, range);
    }
  }

  lemma BindingsDetermined(log: seq<Ctes.Event>, x: seq<Ctes.CteBinding>, y: seq<Ctes.CteBinding>)
    requires Ctes.BindingsAre(x, Ctes.Declarations(log), log) && Ctes.BindingsAre(y, Ctes.Declarations(log), log)
    ensures x == y
  {
    var decls := Ctes.Declarations(log);
    hide Ctes.Declarations;
    forall i | 0 <= i < |x| ensures x[i] == y[i] {
      assert Ctes.BindingIs(x[i], decls[i], log) && Ctes.BindingIs(y[i], decls[i], log);
    }
  }

  lemma SameLookup(statements: seq<Node>, ctes: Ctes.CteIndex, sites: seq<Ctes.CteSite>, range: Range)
    requires Ctes.IsIndexOf(ctes, statements) && Ctes.DistinctReferenceRanges(Ctes.Document(statements))
    requires forall s :: s in sites <==> s in ctes.sites
    ensures Ctes.BindingForReference(sites, range) == Ctes.BindingForReference(ctes.sites, range)
  {
    var x, y := Ctes.BindingForReference(sites, range), Ctes.BindingForReference(ctes.sites, range);
    hide Ctes.IsIndexOf, Ctes.DistinctReferenceRanges;
    if x.Some? {
      assert Ctes.CteSite(x.value, range, false) in ctes.sites;
      if y.Some? { OneSite(ctes, statements, range, x.value, y.value); }
    }
    if y.Some? { assert Ctes.CteSite(y.value, range, false) in sites; }
  }

  // ----- What the aliases stand for -----

  /** No path that is a FROM source is edited. */
  ghost predicate SparesSources(root: Node, edits: set<Range>) {
    forall p, k: nat, r | IsSelect(root, p) && IsSource(root, p, k) && Reached(root, p + [k], r) &&
        NodeAt(root, r).Some? ::
      PathSpared(NodeAt(root, r).value, Tables.SelectSourceRanges(NodeAt(root, p).value), edits)
  }

  predicate IsSource(root: Node, p: Address, k: nat) {
    NodeAt(root, p).Some? && NodeAt(root, p).value.kind.Select? && NodeAt(root, p).value.kind.source == k
  }

  ghost predicate PathSpared(n: Node, sources: set<Range>, edits: set<Range>) {
    n.kind.PathTable? && PathRange(Tables.SourcePath(n)) in sources ==> forall i :: 0 <= i < |Tables.SourcePath(n)| ==>
      Tables.SourcePath(n)[i].range !in edits
  }

  /** The same source, with an edited query. */
  ghost predicate SourceAfter(x: Tables.Source, y: Tables.Source, edits: set<Range>, newName: string) {
    match x
    case NoSource => y == x
    case FromTable(_) => y == x
    case FromCte(_) => y == x
    case FromQuery(query) => y == Tables.FromQuery(Edit(query, edits, newName))
  }

  ghost predicate SourcesAfter(x: seq<Tables.Alias>, y: seq<Tables.Alias>, edits: set<Range>, newName: string) {
    |y| == |x| && forall i :: 0 <= i < |x| ==> SourceAfter(x[i].source, y[i].source, edits, newName)
  }

  ghost predicate SameLookups(ctes: seq<Ctes.CteSite>, ctes': seq<Ctes.CteSite>) {
    forall range :: Ctes.BindingForReference(ctes', range) == Ctes.BindingForReference(ctes, range)
  }

  lemma SparedPath(n: Node, sources: set<Range>, edits: set<Range>, newName: string)
    requires PathSpared(n, sources, edits) && n.kind.PathTable? && PathRange(Tables.SourcePath(n)) in sources
    ensures Tables.SourcePath(Edit(n, edits, newName)) == Tables.SourcePath(n)
  {
    EditKids(n, edits, newName);
    if Kids(n) != [] { TableRename.EditedKind(Kids(n)[0], edits, newName); }
    hide Edit;
    var path := Tables.SourcePath(n);
    assert EditIdents(path, edits, newName) == path;
  }

  /** Editing keeps the kind of a table. */
  lemma EditTableKind(n: Node, edits: set<Range>, newName: string)
    ensures var kind, kind' := n.kind, Edit(n, edits, newName).kind;
            && (Rename.HasAliases(kind') <==> Rename.HasAliases(kind)) && (kind'.ParenTable? <==> kind.ParenTable?)
            && (kind'.Join? <==> kind.Join?) && (kind'.SubQueryTable? <==> kind.SubQueryTable?)
            && (kind'.TableName? <==> kind.TableName?) && (kind'.PathTable? <==> kind.PathTable?)
            && (kind'.Unnest? <==> kind.Unnest?)
            && (kind.TableName? ==> kind'.table == EditIdent(kind.table, edits, newName))
            && (kind.TableName? || kind.PathTable? || kind.SubQueryTable? || kind.Unnest? ==>
                  (kind'.alias.Some? <==> kind.alias.Some?))
            && (kind.PathTable? || kind.Unnest? ==> (kind'.offset.Some? <==> kind.offset.Some?))
  {
    TableRename.EditedKind(n, edits, newName);
    hide Edit;
  }

  lemma OptionalAfter(name: Option<Ident>, x: Tables.Source, name': Option<Ident>, y: Tables.Source, edits: set<Range>,
                      newName: string)
    requires (name'.Some? <==> name.Some?) && SourceAfter(x, y, edits, newName)
    ensures SourcesAfter(Tables.Optional(name, x), Tables.Optional(name', y), edits, newName)
  {
    hide SourceAfter;
  }

  lemma AppendAfter(x: seq<Tables.Alias>, x': seq<Tables.Alias>, y: seq<Tables.Alias>, y': seq<Tables.Alias>,
                    edits: set<Range>, newName: string)
    requires SourcesAfter(x, x', edits, newName) && SourcesAfter(y, y', edits, newName)
    ensures SourcesAfter(x + y, x' + y', edits, newName)
  {
    hide SourceAfter;
  }

  lemma NoneAfter(edits: set<Range>, newName: string)
    ensures SourcesAfter([], [], edits, newName)
    ensures SourceAfter(Tables.NoSource, Tables.NoSource, edits, newName)
  {}

  /** What holds of the tables reached from a FROM source. */
  ghost predicate SparesFrom(root: Node, s: Address, sources: set<Range>, edits: set<Range>) {
    && (forall r :: Reached(root, s, r) && NodeAt(root, r).Some? ==> PathSpared(NodeAt(root, r).value, sources, edits))
    && forall a :: Ctes.ReferenceAt(root, a).Some? ==> Ctes.ReferenceAt(root, a).value.range !in edits
  }

  lemma {:induction false} SparedSources(root: Node, table: Node, s: Address, sources: set<Range>, here: Address,
                                         ctes: seq<Ctes.CteSite>, ctes': seq<Ctes.CteSite>, edits: set<Range>,
                                         newName: string)
    requires NodeAt(root, here) == Some(table) && Reached(root, s, here) && SameLookups(ctes, ctes')
    requires Tables.SourceRanges(table) <= sources && SparesFrom(root, s, sources, edits)
    ensures SourcesAfter(Tables.FromAliases(table, ctes), Tables.FromAliases(Edit(table, edits, newName), ctes'), edits,
              newName)
    decreases table, 1
  {
    hide Edit, NodeAt, SparesFrom, SourceAfter, SourcesAfter, Reached, SameLookups, Tables.FromAliases;
    var table' := Edit(table, edits, newName);
    EditKids(table, edits, newName);
    EditTableKind(table, edits, newName);
    Rename.FromByKind(table, ctes);
    Rename.FromByKind(table', ctes');
    NoneAfter(edits, newName);
    if table.kind.ParenTable? {
      if Kids(table) != [] { ChildSources(root, table, s, sources, here, 0, ctes, ctes', edits, newName); }
    } else if table.kind.Join? {
      if |Kids(table)| > 0 { ChildSources(root, table, s, sources, here, 0, ctes, ctes', edits, newName); }
      if |Kids(table)| > 1 { ChildSources(root, table, s, sources, here, 1, ctes, ctes', edits, newName); }
      AppendAfter(
        if |Kids(table)| > 0 then Tables.FromAliases(Kids(table)[0], ctes) else [],
        if |Kids(table)| > 0 then Tables.FromAliases(Kids(table')[0], ctes') else [],
        if |Kids(table)| > 1 then Tables.FromAliases(Kids(table)[1], ctes) else [],
        if |Kids(table)| > 1 then Tables.FromAliases(Kids(table')[1], ctes') else [], edits, newName);
    } else {
      OwnSources(root, table, s, sources, here, ctes, ctes', edits, newName);
    }
  }

  lemma ChildSources(root: Node, table: Node, s: Address, sources: set<Range>, here: Address, k: nat,
                     ctes: seq<Ctes.CteSite>, ctes': seq<Ctes.CteSite>, edits: set<Range>, newName: string)
    requires NodeAt(root, here) == Some(table) && Reached(root, s, here) && SameLookups(ctes, ctes')
    requires Tables.SourceRanges(table) <= sources && SparesFrom(root, s, sources, edits)
    requires k < |Kids(table)| && ((table.kind.ParenTable? && k == 0) || (table.kind.Join? && k < 2))
    ensures SourcesAfter(Tables.FromAliases(Kids(table)[k], ctes),
              Tables.FromAliases(Edit(Kids(table)[k], edits, newName), ctes'), edits, newName)
    decreases table, 0
  {
    assert Tables.SourceRanges(Kids(table)[k]) <= Tables.SourceRanges(table);
    NodeAtChild(root, here, k);
    ReachedChild(root, s, here, k);
    hide NodeAt, SparesFrom, Reached, SameLookups, Edit, Tables.FromAliases;
    SparedSources(root, Kids(table)[k], s, sources, here + [k], ctes, ctes', edits, newName);
  }

  lemma OwnSources(root: Node, table: Node, s: Address, sources: set<Range>, here: Address, ctes: seq<Ctes.CteSite>,
                   ctes': seq<Ctes.CteSite>, edits: set<Range>, newName: string)
    requires NodeAt(root, here) == Some(table) && Reached(root, s, here) && SameLookups(ctes, ctes')
    requires Tables.SourceRanges(table) <= sources && SparesFrom(root, s, sources, edits)
    requires !table.kind.ParenTable? && !table.kind.Join?
    ensures SourcesAfter(Tables.FromAliases(table, ctes), Tables.FromAliases(Edit(table, edits, newName), ctes'), edits,
              newName)
  {
    assert PathSpared(table, sources, edits);
    var table' := Edit(table, edits, newName);
    hide Edit, NodeAt, Reached, Tables.SourcePath, PathSpared, SourcesAfter, Tables.FromAliases, Tables.Optional,
      Dotted,
      PathRange;
    EditKids(table, edits, newName);
    EditTableKind(table, edits, newName);
    Rename.FromByKind(table, ctes);
    Rename.FromByKind(table', ctes');
    NoneAfter(edits, newName);
    if table.kind.TableName? {
      TableReference(root, here, table);
      SameNamedSource(table.kind.table.name, table.kind.table.range, ctes, ctes');
      var source := Tables.NamedSource(table.kind.table.name, table.kind.table.range, ctes);
      OptionalAfter(table.kind.alias, source, table'.kind.alias, source, edits, newName);
    } else if table.kind.PathTable? {
      SparedPath(table, sources, edits, newName);
      var path := Tables.SourcePath(table);
      SameNamedSource(Dotted(path), PathRange(path), ctes, ctes');
      var source := Tables.NamedSource(Dotted(path), PathRange(path), ctes);
      OptionalAfter(table.kind.alias, source, table'.kind.alias, source, edits, newName);
      OptionalAfter(table.kind.offset, Tables.NoSource, table'.kind.offset, Tables.NoSource, edits, newName);
      AppendAfter(Tables.Optional(table.kind.alias, source), Tables.Optional(table'.kind.alias, source),
        Tables.Optional(table.kind.offset, Tables.NoSource), Tables.Optional(table'.kind.offset, Tables.NoSource),
          edits, newName);
    } else if table.kind.SubQueryTable? {
      OptionalAfter(table.kind.alias, if Kids(table) != [] then Tables.FromQuery(Kids(table)[0]) else Tables.NoSource,
        table'.kind.alias, if Kids(table') != [] then Tables.FromQuery(Kids(table')[0])
          else Tables.NoSource, edits, newName);
    } else if table.kind.Unnest? {
      OptionalAfter(table.kind.alias, Tables.NoSource, table'.kind.alias, Tables.NoSource, edits, newName);
      OptionalAfter(table.kind.offset, Tables.NoSource, table'.kind.offset, Tables.NoSource, edits, newName);
      AppendAfter(Tables.Optional(table.kind.alias, Tables.NoSource),
          Tables.Optional(table'.kind.alias, Tables.NoSource),
        Tables.Optional(table.kind.offset, Tables.NoSource), Tables.Optional(table'.kind.offset, Tables.NoSource),
          edits, newName);
    }
  }

  lemma SameNamedSource(name: string, range: Range, ctes: seq<Ctes.CteSite>, ctes': seq<Ctes.CteSite>)
    requires SameLookups(ctes, ctes')
    ensures Tables.NamedSource(name, range, ctes') == Tables.NamedSource(name, range, ctes)
    ensures !Tables.NamedSource(name, range, ctes).FromQuery?
  {}

  lemma TableReference(root: Node, here: Address, table: Node)
    requires NodeAt(root, here) == Some(table) && table.kind.TableName?
    ensures Ctes.ReferenceAt(root, here) == Some(table.kind.table)
  {}

  lemma ReachedChild(root: Node, s: Address, here: Address, k: nat)
    requires Reached(root, s, here) && NodeAt(root, here).Some? && IsTableKind(NodeAt(root, here).value)
    ensures Reached(root, s, here + [k])
  {
    forall c | s <= c < here + [k] ensures NodeAt(root, c).Some? && IsTableKind(NodeAt(root, c).value) {
      if c != here { assert c < here; }
    }
  }

  lemma SparedSelect(root: Node, n: Node, p: Address, ctes: seq<Ctes.CteSite>, ctes': seq<Ctes.CteSite>,
                     edits: set<Range>, newName: string)
    requires NodeAt(root, p) == Some(n) && SparesCtes(root, edits) && SparesSources(root, edits) &&
             SameLookups(ctes, ctes')
    ensures SourcesAfter(Tables.SelectAliases(n, ctes), Tables.SelectAliases(Edit(n, edits, newName), ctes'), edits,
              newName)
  {
    EditKids(n, edits, newName);
    TableRename.EditedKind(n, edits, newName);
    if n.kind.Select? && n.kind.source < |Kids(n)| {
      var s := p + [n.kind.source];
      NodeAtChild(root, p, n.kind.source);
      ReachedSelf(root, s);
      assert IsSelect(root, p) && IsSource(root, p, n.kind.source);
      hide NodeAt, Edit, Tables.FromAliases, Reached, PathSpared, SameLookups;
      var sources := Tables.SelectSourceRanges(n);
      assert SparesFrom(root, s, sources, edits);
      SparedSources(root, Kids(n)[n.kind.source], s, sources, s, ctes, ctes', edits, newName);
    }
  }

  /** The aliases of a SELECT stand for the same things in the edited tree. */
  lemma SparedSiblings(root: Node, d: Tables.AliasDecl, ctes: seq<Ctes.CteSite>, ctes': seq<Ctes.CteSite>,
                       edits: set<Range>, newName: string)
    requires SparesCtes(root, edits) && SparesSources(root, edits) && SameLookups(ctes, ctes')
    ensures SourcesAfter(Tables.Siblings(root, ctes, d), Tables.Siblings(Edit(root, edits, newName), ctes', d), edits,
              newName)
  {
    hide NodeAt, Edit, Tables.SelectAliases, SparesCtes, SparesSources, SameLookups;
    EditNodeAt(root, d.select, edits, newName);
    if NodeAt(root, d.select).Some? {
      SparedSelect(root, NodeAt(root, d.select).value, d.select, ctes, ctes', edits, newName);
    }
  }

  // ----- The bindings of the alias index -----

  /** A binding of the edited document: the same but for its references and the query it stands for. */
  ghost predicate BindingAfter(b: Tables.AliasBinding, b': Tables.AliasBinding, edits: set<Range>, newName: string) {
    && b'.name == b.name && b'.declarationRange == b.declarationRange && b'.ambiguous == b.ambiguous
    && SourceAfter(b.source, b'.source, edits, newName)
  }

  /** No alias of a FROM clause is edited. */
  ghost predicate SparesAliases(root: Node, edits: set<Range>) {
    forall s: Slot | (s.role.AsAlias? || s.role.Offset?) && IdentAt(root, s).Some? ::
        IdentAt(root, s).value.range !in edits
  }

  ghost predicate DeclAfter(e: Tables.Event, e': Tables.Event, edits: set<Range>, newName: string) {
    && e.Declared? && e'.Declared? && e'.decl == e.decl && e'.alias.name == e.alias.name
    && SourceAfter(e.alias.source, e'.alias.source, edits, newName)
  }

  lemma DeclsAfter(root: Node, ctes: seq<Ctes.CteSite>, ctes': seq<Ctes.CteSite>, edits: set<Range>, newName: string,
                   c: nat)
    requires SparesCtes(root, edits) && SparesSources(root, edits) && SparesAliases(root, edits) &&
             SameLookups(ctes, ctes')
    requires c < |Tables.Decls(root, ctes)|
    ensures |Tables.Decls(Edit(root, edits, newName), ctes')| == |Tables.Decls(root, ctes)|
    ensures DeclAfter(Tables.Decls(root, ctes)[c], Tables.Decls(Edit(root, edits, newName), ctes')[c], edits, newName)
  {
    hide Edit, Tables.Decls, Tables.Siblings, SparesCtes, SparesSources, AliasAt, SelectSlots;
    var root' := Edit(root, edits, newName);
    Reindex.EditedDocumentDecls(root, ctes, ctes', edits, newName);
    var e, e' := Tables.Decls(root, ctes)[c], Tables.Decls(root', ctes')[c];
    Tables.DeclarationIsSibling(root, ctes, c);
    Tables.DeclarationIsSibling(root', ctes', c);
    SparedSiblings(root, e.decl, ctes, ctes', edits, newName);
    DeclStands(root, ctes, e.decl);
    SlotHolds(root, ctes, e.decl);
  }

  lemma SlotHolds(root: Node, ctes: seq<Ctes.CteSite>, d: Tables.AliasDecl)
    requires d.index < |Tables.Siblings(root, ctes, d)|
    ensures var s := DeclSlot(root, d);
            (s.role.AsAlias? || s.role.Offset?) &&
              IdentAt(root, s) == Some(Tables.Siblings(root, ctes, d)[d.index].name)
  {
    DeclStands(root, ctes, d);
    hide Tables.Siblings, SelectSlots, NodeAt, IdentAt;
  }

  lemma BindingsAfter(root: Node, tables: Tables.AliasIndex, tables': Tables.AliasIndex, ctes: seq<Ctes.CteSite>,
                      ctes': seq<Ctes.CteSite>, edits: set<Range>, newName: string)
    requires Tables.IsIndexOf(tables, root, ctes) && Tables.IsIndexOf(tables', Edit(root, edits, newName), ctes')
    requires SparesCtes(root, edits) && SparesSources(root, edits) && SparesAliases(root, edits) &&
             SameLookups(ctes, ctes')
    ensures |tables'.bindings| == |tables.bindings|
    ensures forall c :: 0 <= c < |tables.bindings| ==>
              BindingAfter(tables.bindings[c], tables'.bindings[c], edits, newName)
  {
    hide Edit, Tables.Decls, Tables.IsIndexOf, SparesCtes, SparesSources, SparesAliases, SameLookups, Tables.HasTwin,
      Tables.PointsToFirst, SourceAfter;
    var root' := Edit(root, edits, newName);
    Flags.IndexFlags(tables, root, ctes);
    Flags.IndexFlags(tables', root', ctes');
    IndexDecls(tables, root, ctes);
    IndexDecls(tables', root', ctes');
    Reindex.EditedDocumentDecls(root, ctes, ctes', edits, newName);
    forall c: nat | c < |tables.bindings|
      ensures DeclAfter(Tables.Decls(root, ctes)[c], Tables.Decls(root', ctes')[c], edits, newName)
    {
      DeclsAfter(root, ctes, ctes', edits, newName, c);
    }
    forall c: nat | c < |tables.bindings|
      ensures BindingAfter(tables.bindings[c], tables'.bindings[c], edits, newName)
    {
      SameTwins(Tables.Decls(root, ctes), Tables.Decls(root', ctes'), edits, newName, c);
    }
  }

  lemma SameTwins(decls: seq<Tables.Event>, decls': seq<Tables.Event>, edits: set<Range>, newName: string, c: nat)
    requires Tables.AllDeclared(decls) && Tables.AllDeclared(decls') && |decls'| == |decls| && c < |decls|
    requires forall e :: 0 <= e < |decls| ==> DeclAfter(decls[e], decls'[e], edits, newName)
    ensures Tables.HasTwin(decls', c) <==> Tables.HasTwin(decls, c)
  {
    hide SourceAfter, Fold;
    forall e: nat | e < |decls| ensures Tables.Twins(decls'[e], decls'[c]) <==> Tables.Twins(decls[e], decls[c]) {
      assert DeclAfter(decls[e], decls'[e], edits, newName) && DeclAfter(decls[c], decls'[c], edits, newName);
    }
  }

  /** What an index says of its declarations. */
  lemma IndexDecls(index: Tables.AliasIndex, root: Node, ctes: seq<Ctes.CteSite>)
    requires Tables.IsIndexOf(index, root, ctes)
    ensures |index.bindings| == |Tables.Decls(root, ctes)|
    ensures forall c :: 0 <= c < |index.bindings| ==>
              && index.bindings[c].name == Tables.Decls(root, ctes)[c].alias.name.name
              && index.bindings[c].declarationRange == Tables.Decls(root, ctes)[c].alias.name.range
              && index.bindings[c].source == Tables.Decls(root, ctes)[c].alias.source
  {
    hide Tables.Expected, Tables.SitesAre, Tables.MembersAre, Tables.ScopesAre, Tables.HasTwin, Tables.PointsToFirst;
    var walked: Tables.AliasIndex :|
      Tables.IsSorted(index, walked) && Tables.Represents(walked, root, ctes, Tables.Expected(root, ctes));
  }
}
