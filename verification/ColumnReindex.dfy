/** Renaming a column of a CTE or derived table in a document: the edits, the three
    binders and both column indexes again on the edited tree, and exactly when every
    qualified member is recorded where it was. */
module ColumnReindex {
  import opened Coordinates
  import opened Syntax
  import opened Sorting
  import opened Editing
  import opened QueryShapes
  import opened Texts
  import opened SelectWalk
  import opened SelectIndexes
  import opened SparedBinders
  import opened ColumnSources
  import opened ColumnNames
  import opened ColumnMembers
  import opened ColumnEdits
  import opened MemberReindex
  import Selects = SelectAliases
  import Uses = SelectAliasRename
  import Documents = SelectAliasDocument
  import Joints = SelectAliasReindex
  import Ctes = CteBindings
  import Tables = AliasBindings
  import Aliases = AliasRename
  import Columns = ColumnBindings
  import Rename = ColumnRename

  // ----- The edited document is one text too -----

  lemma EditNoQuery(root: Node, here: Address, a: Address, edits: set<Range>, newName: string)
    ensures NoQuery(Edit(root, edits, newName), here, a) <==> NoQuery(root, here, a)
  {
    hide IsQuery, IsSelect, Edit;
    forall c
      ensures IsQuery(Edit(root, edits, newName), c) <==> IsQuery(root, c)
      ensures IsSelect(Edit(root, edits, newName), c) <==> IsSelect(root, c)
    {
      Joints.EditKinds(root, c, edits, newName);
    }
  }

  lemma EditImplicit(root: Node, s: Slot, edits: set<Range>, newName: string)
    ensures Implicit(Edit(root, edits, newName), s) <==> Implicit(root, s)
  {
    EditNodeAt(root, s.at, edits, newName);
    if NodeAt(root, s.at).Some? { Joints.EditedKindIs(NodeAt(root, s.at).value, edits, newName); }
    hide Edit, NodeAt;
  }

  lemma EditNamedBy(root: Node, s: Slot, t: Slot, edits: set<Range>, newName: string)
    requires NamedBy(root, s, t)
    ensures NamedBy(Edit(root, edits, newName), s, t)
  {
    hide Edit, IdentAt, NoQuery, Implicit;
    EditIdentAt(root, s, edits, newName);
    EditIdentAt(root, t, edits, newName);
    EditNoQuery(root, s.at, t.at, edits, newName);
    EditImplicit(root, s, edits, newName);
  }

  lemma EditOneText(root: Node, edits: set<Range>, newName: string)
    requires OneText(root)
    ensures OneText(Edit(root, edits, newName))
  {
    hide Edit, IdentAt, NamedBy, RangeIncludesPosition, Before;
    var root' := Edit(root, edits, newName);
    forall s ensures IdentAt(root', s) ==
        EditOptional(IdentAt(root, s), edits, newName) { EditIdentAt(root, s, edits, newName); }
    forall s, t | SameName(root, s, t) ensures SameName(root', s, t) {
      if NamedBy(root, s, t) { EditNamedBy(root, s, t, edits, newName); }
      if NamedBy(root, t, s) { EditNamedBy(root, t, s, edits, newName); }
    }
    hide SameName;
  }

  lemma EditParsed(root: Node, edits: set<Range>, newName: string)
    requires Parsed(root)
    ensures Parsed(Edit(root, edits, newName))
  {
    var root' := Edit(root, edits, newName);
    EditOneText(root, edits, newName);
    Joints.EditEntries(root, edits, newName);
    hide Edit, Entries, UsesAt, OneText;
    forall e | e in Entries(root') ensures Documents.LongPaths(UsesAt(root', e)) {
      Joints.EditUsesAt(root, e, edits, newName);
      EditLongPaths(UsesAt(root, e), edits, newName);
    }
  }

  lemma EditLongPaths(uses: seq<Selects.Use>, edits: set<Range>, newName: string)
    requires Documents.LongPaths(uses)
    ensures Documents.LongPaths(Uses.EditUses(uses, edits, newName))
  {}

  // ----- The SELECT lists of the edited document -----

  lemma {:induction false} EditItemColumns(kids: seq<Node>, edited: seq<Node>, edits: set<Range>, newName: string)
    requires |edited| == |kids|
    requires forall k :: 0 <= k < |kids| ==> edited[k].kind == EditKind(kids[k].kind, edits, newName)
    ensures |ItemColumns(edited)| == |ItemColumns(kids)|
    ensures forall j :: 0 <= j < |ItemColumns(kids)| ==>
              ItemColumns(edited)[j] == Rename.EditColumn(ItemColumns(kids)[j], edits, newName)
  {
    if kids != [] {
      var last := |kids| - 1;
      EditItemColumns(kids[..last], edited[..last], edits, newName);
      EditItemColumn(kids[last], edited[last], edits, newName);
      hide ItemColumn, Rename.EditColumn, EditKind;
    }
  }

  lemma EditItemColumn(n: Node, n': Node, edits: set<Range>, newName: string)
    requires n'.kind == EditKind(n.kind, edits, newName)
    ensures |ItemColumn(n')| == |ItemColumn(n)|
    ensures forall j :: 0 <= j < |ItemColumn(n)| ==>
            ItemColumn(n')[j] == Rename.EditColumn(ItemColumn(n)[j], edits, newName)
  {}

  lemma EditList(query: Node, edits: set<Range>, newName: string)
    ensures ListOf(Edit(query, edits, newName)) == Rename.EditItems(ListOf(query), edits, newName)
  {
    Joints.EditedKindIs(query, edits, newName);
    EditKids(query, edits, newName);
    var kids, edited := Kids(query), Kids(Edit(query, edits, newName));
    forall k | 0 <= k < |kids| ensures edited[k].kind == EditKind(kids[k].kind, edits, newName) {
      Joints.EditedKindIs(kids[k], edits, newName);
    }
    hide Edit, ItemColumns, Rename.EditColumn, Kids;
    EditItemColumns(kids, edited, edits, newName);
    EditedItems(ItemColumns(kids), ItemColumns(edited), edits, newName);
    NoList(edits, newName);
    hide Rename.EditItems;
  }

  lemma EditedItems(x: seq<Option<Column>>, y: seq<Option<Column>>, edits: set<Range>, newName: string)
    requires |y| == |x| && forall j :: 0 <= j < |x| ==> y[j] == Rename.EditColumn(x[j], edits, newName)
    ensures Rename.EditItems(Some(x), edits, newName) == Some(y)
  {
    assert Rename.EditItems(Some(x), edits, newName).value == y;
  }

  lemma EditQueryAt(root: Node, a: Address, edits: set<Range>, newName: string)
    ensures QueryAt(Edit(root, edits, newName), a) == Edit(QueryAt(root, a), edits, newName)
  {
    assert Edit(Node(Other, []), edits, newName) == Node(Other, []);
    hide Edit, NodeAt, Kids;
    EditNodeAt(root, a, edits, newName);
    if NodeAt(root, a).Some? { EditKids(NodeAt(root, a).value, edits, newName); }
  }

  lemma NoList(edits: set<Range>, newName: string)
    ensures ListOf(Node(Other, [])) == None && Rename.EditItems(None, edits, newName) == None
  {}

  lemma EditCteQuery(root: Node, c: nat, edits: set<Range>, newName: string)
    requires Record(Edit(root, edits, newName)) == Record(root)
    ensures ListOf(CteQuery(Edit(root, edits, newName), c)) ==
            Rename.EditItems(ListOf(CteQuery(root, c)), edits, newName)
  {
    hide Edit, Rename.EditItems, ListOf, QueryAt, Ctes.Declarations, Ctes.Expected;
    NoList(edits, newName);
    if CtePlace(root, c).Some? {
      EditQueryAt(root, CtePlace(root, c).value, edits, newName);
      EditList(QueryAt(root, CtePlace(root, c).value), edits, newName);
    }
  }

  lemma EditAliasList(b: Tables.AliasBinding, b': Tables.AliasBinding, edits: set<Range>, newName: string)
    requires BindingAfter(b, b', edits, newName)
    ensures AliasList(b') == Rename.EditItems(AliasList(b), edits, newName)
    ensures AliasOf(b') == AliasOf(b).(shape := AliasOf(b').shape)
  {
    hide Edit, ListOf, Rename.EditItems, ShapeOfQuery;
    NoList(edits, newName);
    if b.source.FromQuery? { EditList(b.source.query, edits, newName); }
  }

  /** What the binders find in the edited document, but for its members. */
  ghost predicate BindersAgree(x: Indexes, x': Indexes, edits: set<Range>, newName: string) {
    && SameCtes(x.ctes, x'.ctes) && |x'.tables.bindings| == |x.tables.bindings|
    && forall c :: 0 <= c < |x.tables.bindings| ==>
         BindingAfter(x.tables.bindings[c], x'.tables.bindings[c], edits, newName)
  }

  lemma SourcesAfterEdit(root: Node, x: Indexes, x': Indexes, edits: set<Range>, newName: string)
    requires BindersAgree(x, x', edits, newName)
    requires Record(Edit(root, edits, newName)) == Record(root)
    ensures SourcesOf(Edit(root, edits, newName), x') == Rename.EditSources(SourcesOf(root, x), edits, newName)
  {
    hide Edit, AliasList, CteQuery, Record, Rename.EditItems, ListOf, BindingAfter;
    var s, s' := SourcesOf(root, x), SourcesOf(Edit(root, edits, newName), x');
    forall c | 0 <= c < |s.ctes| ensures s'.ctes[c] == Rename.EditItems(s.ctes[c], edits, newName) {
      EditCteQuery(root, c, edits, newName);
    }
    forall a | 0 <= a < |s.aliases| ensures s'.aliases[a] == Rename.EditItems(s.aliases[a], edits, newName) {
      EditAliasList(x.tables.bindings[a], x'.tables.bindings[a], edits, newName);
    }
  }

  // ----- The edited document with the members in their old order -----

  /** The document after, its members listed as before. */
  ghost function Aligned(d: Columns.Document, d': Columns.Document, edits: set<Range>,
                         newName: string): Columns.Document {
    d'.(members := seq(|d.members|, m requires 0 <= m < |d.members| => Rename.EditMember(d.members[m], edits, newName)))
  }

  lemma AlignedIsEdited(root: Node, x: Indexes, x': Indexes, edits: set<Range>, newName: string)
    requires BindersAgree(x, x', edits, newName)
    requires Record(Edit(root, edits, newName)) == Record(root)
    ensures var d, d' := DocumentOf(root, x), DocumentOf(Edit(root, edits, newName), x');
            Rename.IsEdited(d, SourcesOf(root, x), Aligned(d, d', edits, newName), edits, newName)
  {
    hide Edit, AliasOf, CteQuery, Record, Rename.EditSources, Rename.EditMember, ShapeOfQuery, SourcesOf,
      Rename.FromItems,
      BindingAfter;
    var root' := Edit(root, edits, newName);
    var d, d' := DocumentOf(root, x), DocumentOf(root', x');
    SourcesAfterEdit(root, x, x', edits, newName);
    DocumentFromItems(root', x');
    forall a | 0 <= a < |d.aliases| ensures d'.aliases[a] == d.aliases[a].(shape := d'.aliases[a].shape) {
      EditAliasList(x.tables.bindings[a], x'.tables.bindings[a], edits, newName);
    }
    SameFromItems(d', Aligned(d, d', edits, newName), SourcesOf(root', x'));
  }

  lemma SameFromItems(d: Columns.Document, e: Columns.Document, s: Rename.Sources)
    requires Rename.FromItems(d, s) && e.ctes == d.ctes && e.aliases == d.aliases
    ensures Rename.FromItems(e, s)
  {}

  // ----- Members that come or stay -----

  /** The path is headed by a reference of the column inside its own query, and stands
      where the new name denotes a table alias. */
  ghost predicate Falls(root: Node, ctes: seq<Ctes.CteSite>, own: seq<Range>, newName: string, a: Address) {
    && Tables.Qualifier(root, a).Some? && Tables.Qualifier(root, a).value.range in own
    && Tables.ResolveAlias(root, a, Fold(newName), ctes).Bound?
  }

  lemma MemberSiteIs(root: Node, x: Indexes)
    ensures var d := DocumentOf(root, x);
            && |d.members| == |x.tables.memberSites|
            && forall m :: 0 <= m < |d.members| ==> d.members[m] == MemberOf(x.tables.memberSites[m])
  {
    hide AliasOf, CteQuery;
  }

  /** Where no path falls, the members after are those before, edited. */
  lemma MembersAligned(root: Node, x: Indexes, x': Indexes, edits: set<Range>, newName: string, member: Columns.Member)
    requires Tables.IsIndexOf(x.tables, root, x.ctes.sites) &&
             Tables.IsIndexOf(x'.tables, Edit(root, edits, newName), x'.ctes.sites)
    requires Uses.SparesTables(root, x.ctes.sites, edits) && HeadsUnbound(root, x.ctes.sites, edits)
    requires forall a :: !Moves(root, x.ctes.sites, edits, newName, a)
    ensures var d, d' := DocumentOf(root, x), DocumentOf(Edit(root, edits, newName), x');
            member in d'.members <==> member in Aligned(d, d', edits, newName).members
  {
    hide Edit, Tables.IsIndexOf, Uses.SparesTables, HeadsUnbound, Moves, DocumentOf;
    var d, d' := DocumentOf(root, x), DocumentOf(Edit(root, edits, newName), x');
    MemberSiteIs(root, x);
    MemberSiteIs(Edit(root, edits, newName), x');
    var site := Tables.MemberSite(member.alias, member.name, member.range);
    assert MemberOf(site) == member;
    MembersAfter(x.tables, x'.tables, root, x.ctes.sites, x'.ctes.sites, edits, newName, site);
    forall m: nat | m < |d.members|
      ensures MemberOf(EditSite(x.tables.memberSites[m], edits, newName)) ==
              Rename.EditMember(d.members[m], edits, newName)
    {}
    var members := Aligned(d, d', edits, newName).members;
    if member in d'.members {
      var n :| 0 <= n < |d'.members| && d'.members[n] == member;
      assert x'.tables.memberSites[n] == site;
      var m: nat :| m < |x.tables.memberSites| && site == EditSite(x.tables.memberSites[m], edits, newName);
      assert members[m] == member;
    }
    if member in members {
      var m :| 0 <= m < |members| && members[m] == member;
      assert site == EditSite(x.tables.memberSites[m], edits, newName);
      var n :| 0 <= n < |x'.tables.memberSites| && x'.tables.memberSites[n] == site;
      assert d'.members[n] == member;
    }
  }

  /** A path that falls is a new member. */
  lemma FallsIsNew(root: Node, x: Indexes, x': Indexes, edits: set<Range>, newName: string, a: Address)
    requires OneText(root) && Uses.SparesTables(root, x.ctes.sites, edits) && HeadsUnbound(root, x.ctes.sites, edits)
    requires Tables.IsIndexOf(x.tables, root, x.ctes.sites) &&
             Tables.IsIndexOf(x'.tables, Edit(root, edits, newName), x'.ctes.sites)
    requires Moves(root, x.ctes.sites, edits, newName, a) && NodeAt(root, a).Some? &&
             Tables.MemberOf(NodeAt(root, a).value).Some?
    ensures !Rename.SameMembers(DocumentOf(root, x), DocumentOf(Edit(root, edits, newName), x'))
  {
    hide OneText, Edit, Tables.IsIndexOf, Uses.SparesTables, DocumentOf, Tables.Qualifier, Tables.ResolveAlias,
      MemberStandsAt,
      Tables.MemberOf, Aliases.Denotes, IdentAt, NodeAt;
    var root' := Edit(root, edits, newName);
    var d, d' := DocumentOf(root, x), DocumentOf(root', x');
    MemberSiteIs(root, x);
    MemberSiteIs(root', x');
    Uses.EditedDenotes(root, x.ctes.sites, x'.ctes.sites, a, edits, newName);
    EditMemberOf(root, a, edits, newName);
    var n := MemberIsRecorded(root', x'.ctes.sites, x'.tables, a);
    var r := Tables.MemberOf(NodeAt(root, a).value).value.range;
    MemberRange(root', x'.ctes.sites, x'.tables.memberSites[n], a);
    assert d'.members[n].range == r;
    assert Rename.IsMember(d', r);
    if Rename.IsMember(d, r) {
      var m: nat :| m < |d.members| && d.members[m].range == r;
      var c := MemberStands(root, x.ctes.sites, x.tables, m);
      MemberIdent(root, x.ctes.sites, x.tables.memberSites[m], c);
      SecondName(root, a);
      SameRange(root, Slot(c, Part(1)), Slot(a, Part(1)));
      Documents.HeadsApart(root, Slot(c, Part(1)), Slot(a, Part(1)));
      MemberRange(root, x.ctes.sites, x.tables.memberSites[m], c);
      assert false;
    }
  }

  lemma MemberRange(root: Node, ctes: seq<Ctes.CteSite>, site: Tables.MemberSite, a: Address)
    requires MemberStandsAt(root, ctes, site, a)
    ensures NodeAt(root, a).Some? && Tables.MemberOf(NodeAt(root, a).value) == Some(Ident(site.name, site.range))
    ensures Aliases.Denotes(root, ctes, a).Bound?
  {
    hide Tables.MemberOf, Aliases.Denotes, Tables.Decls;
  }

  lemma SecondName(root: Node, a: Address)
    requires NodeAt(root, a).Some? && Tables.MemberOf(NodeAt(root, a).value).Some?
    ensures IdentAt(root, Slot(a, Part(1))) == Tables.MemberOf(NodeAt(root, a).value)
  {}

  // ----- The theorem -----

  /** What the binders find after the rename, but for the members, and what the edits spare. */
  lemma RenamedBinders(statements: seq<Node>, x: Indexes, x': Indexes, p: Columns.Place, b: Columns.ColumnBinding,
                       newName: string)
    requires Renames(statements, x, p, b)
    requires Ctes.IsIndexOf(x'.ctes, EditAll(statements, Rename.EditsOf(b), newName))
    requires Tables.IsIndexOf(x'.tables, Edit(Ctes.Document(statements), Rename.EditsOf(b), newName), x'.ctes.sites)
    ensures var root, edits := Ctes.Document(statements), Rename.EditsOf(b);
            && BindersAgree(x, x', edits, newName)
            && Record(Edit(root, edits, newName)) == Record(root) && Uses.SparesTables(root, x.ctes.sites, edits)
  {
    var root, edits := Ctes.Document(statements), Rename.EditsOf(b);
    RenamesParsed(statements, x, p, b);
    RenameStands(statements, x, p, b);
    hide Renames, OneText, EditsStand, Edit, EditAll, Joints.ParsedClauses, Ctes.IsIndexOf, Tables.IsIndexOf,
      IsJointIndex,
      SparesCtes, SparesSources, SparesAliases, Uses.SparesTables, Rename.EditsOf, BindingAfter, Record, Columns.Stands,
        DocumentOf;
    SparesTheCtes(root, edits);
    SparesTheAliases(root, x.ctes.sites, edits);
    SparesTheSources(root, edits);
    CtesStay(statements, x.ctes, x'.ctes, edits, newName);
    BindingsAfter(root, x.tables, x'.tables, x.ctes.sites, x'.ctes.sites, edits, newName);
  }

  /** The edited qualifiers of the rename. */
  lemma RenamedHeads(statements: seq<Node>, x: Indexes, p: Columns.Place, b: Columns.ColumnBinding, newName: string)
    requires Renames(statements, x, p, b)
    ensures var root, edits := Ctes.Document(statements), Rename.EditsOf(b);
            var own := Own(DocumentOf(root, x), b);
            && HeadsUnbound(root, x.ctes.sites, edits)
            && forall a :: Falls(root, x.ctes.sites, own, newName, a) ==>
                 && Moves(root, x.ctes.sites, edits, newName, a)
                 && NodeAt(root, a).Some? && Tables.MemberOf(NodeAt(root, a).value).Some?
    ensures var root, edits := Ctes.Document(statements), Rename.EditsOf(b);
            var own := Own(DocumentOf(root, x), b);
            forall a :: Moves(root, x.ctes.sites, edits, newName, a) ==> Falls(root, x.ctes.sites, own, newName, a)
  {
    RenamesParsed(statements, x, p, b);
    hide Renames, Own, DocumentOf, Parsed, FromBinders, Tables.Qualifier, Tables.ResolveAlias, Aliases.Denotes,
      Columns.Stands,
      Rename.EditsOf, Tables.MemberOf, NodeAt;
    var root, edits := Ctes.Document(statements), Rename.EditsOf(b);
    var own := Own(DocumentOf(root, x), b);
    forall a | Tables.Qualifier(root, a).Some?
      ensures Tables.Qualifier(root, a).value.range in edits <==> Tables.Qualifier(root, a).value.range in own
      ensures Tables.Qualifier(root, a).value.range in own ==>
                !Aliases.Denotes(root, x.ctes.sites, a).Bound? && NodeAt(root, a).Some? &&
                  Tables.MemberOf(NodeAt(root, a).value).Some?
    {
      EditedQualifier(statements, x, p, b, a);
      if Tables.Qualifier(root, a).value.range in own { OwnIsNoTable(statements, x, b, a); }
    }
  }

  /** Where no path falls, the document after has the members before, edited. */
  lemma WithoutFalls(statements: seq<Node>, x: Indexes, x': Indexes, p: Columns.Place, b: Columns.ColumnBinding,
                     newName: string)
    requires Renames(statements, x, p, b)
    requires Ctes.IsIndexOf(x'.ctes, EditAll(statements, Rename.EditsOf(b), newName))
    requires Tables.IsIndexOf(x'.tables, Edit(Ctes.Document(statements), Rename.EditsOf(b), newName), x'.ctes.sites)
    requires var root := Ctes.Document(statements);
             forall a :: !Falls(root, x.ctes.sites, Own(DocumentOf(root, x), b), newName, a)
    ensures var root, edits := Ctes.Document(statements), Rename.EditsOf(b);
            var d, d' := DocumentOf(root, x), DocumentOf(Edit(root, edits, newName), x');
            && Rename.IsEdited(d, SourcesOf(root, x), Aligned(d, d', edits, newName), edits, newName)
            && Rename.Reordered(Aligned(d, d', edits, newName), d')
  {
    var root, edits := Ctes.Document(statements), Rename.EditsOf(b);
    RenamesParsed(statements, x, p, b);
    hide Renames, Parsed, Edit, EditAll, Ctes.IsIndexOf, Tables.IsIndexOf, IsJointIndex, DocumentOf, SourcesOf,
      Rename.EditsOf, Record,
      Columns.Stands, BindersAgree, HeadsUnbound, Uses.SparesTables, Moves, Falls, Own, Rename.IsEdited, Aligned,
        Rename.Reordered;
    RenamedBinders(statements, x, x', p, b, newName);
    RenamedHeads(statements, x, p, b, newName);
    AlignedIsEdited(root, x, x', edits, newName);
    AlignedIsReordered(root, x, x', edits, newName);
  }

  lemma AlignedIsReordered(root: Node, x: Indexes, x': Indexes, edits: set<Range>, newName: string)
    requires Tables.IsIndexOf(x.tables, root, x.ctes.sites) &&
             Tables.IsIndexOf(x'.tables, Edit(root, edits, newName), x'.ctes.sites)
    requires Uses.SparesTables(root, x.ctes.sites, edits) && HeadsUnbound(root, x.ctes.sites, edits)
    requires forall a :: !Moves(root, x.ctes.sites, edits, newName, a)
    ensures var d, d' := DocumentOf(root, x), DocumentOf(Edit(root, edits, newName), x');
            Rename.Reordered(Aligned(d, d', edits, newName), d')
  {
    hide Edit, Tables.IsIndexOf, DocumentOf, HeadsUnbound, Uses.SparesTables, Moves;
    var d, d' := DocumentOf(root, x), DocumentOf(Edit(root, edits, newName), x');
    forall member ensures member in d'.members <==> member in Aligned(d, d', edits, newName).members {
      MembersAligned(root, x, x', edits, newName, member);
    }
  }

  /** A path that falls makes a new member. */
  lemma WithFalls(statements: seq<Node>, x: Indexes, x': Indexes, p: Columns.Place, b: Columns.ColumnBinding,
                  newName: string, a: Address)
    requires Renames(statements, x, p, b)
    requires Ctes.IsIndexOf(x'.ctes, EditAll(statements, Rename.EditsOf(b), newName))
    requires Tables.IsIndexOf(x'.tables, Edit(Ctes.Document(statements), Rename.EditsOf(b), newName), x'.ctes.sites)
    requires var root := Ctes.Document(statements);
             Falls(root, x.ctes.sites, Own(DocumentOf(root, x), b), newName, a)
    ensures var root, edits := Ctes.Document(statements), Rename.EditsOf(b);
            !Rename.SameMembers(DocumentOf(root, x),
                DocumentOf(Edit(root, edits, newName), x'))
  {
    var root, edits := Ctes.Document(statements), Rename.EditsOf(b);
    RenamesParsed(statements, x, p, b);
    RenamedBinders(statements, x, x', p, b, newName);
    RenamedHeads(statements, x, p, b, newName);
    hide Renames, OneText, Joints.ParsedClauses, Edit, EditAll, Ctes.IsIndexOf, Tables.IsIndexOf, IsJointIndex,
      DocumentOf,
      Rename.EditsOf, Record, Columns.Stands, BindersAgree, HeadsUnbound, Uses.SparesTables, Moves, Falls, Own,
        Rename.SameMembers;
    FallsIsNew(root, x, x', edits, newName, a);
  }

  /** What the layer below asks for, without the trees. */
  lemma RenamedApart(statements: seq<Node>, x: Indexes, p: Columns.Place, b: Columns.ColumnBinding)
    requires Renames(statements, x, p, b)
    ensures var d, s := DocumentOf(Ctes.Document(statements), x), SourcesOf(Ctes.Document(statements), x);
            && Rename.FromItems(d, s) && Rename.RangesApart(d, s, p) && Columns.Stands(d, b, p)
  {
    var root := Ctes.Document(statements);
    RenamesParsed(statements, x, p, b);
    RenamedItem(statements, x, p, b);
    DocumentFromItems(root, x);
    hide Renames, DocumentOf, SourcesOf, Columns.Stands, Rename.FromItems, Rename.RangesApart, ItemStandsAt, Parsed,
      Rename.ItemAt,
      FromBinders;
    DocumentApart(statements, x, p);
  }

  lemma RenamedMembersApart(statements: seq<Node>, x': Indexes, edits: set<Range>, newName: string)
    requires Parsed(Ctes.Document(statements)) && FromBinders(EditAll(statements, edits, newName), x')
    ensures Ctes.IsIndexOf(x'.ctes, EditAll(statements, edits, newName))
    ensures Tables.IsIndexOf(x'.tables, Edit(Ctes.Document(statements), edits, newName), x'.ctes.sites)
    ensures Columns.MembersApart(DocumentOf(Edit(Ctes.Document(statements), edits, newName), x'))
  {
    EditDocument(statements, edits, newName);
    EditParsed(Ctes.Document(statements), edits, newName);
    hide Parsed, EditAll, Edit, Ctes.IsIndexOf, Tables.IsIndexOf, IsJointIndex, DocumentOf, Columns.MembersApart;
    DocumentMembersApart(EditAll(statements, edits, newName), x');
  }

  /** The rename theorem. Where the test finds no other column of the new name, the two
      column indexes of the edited document have the members they had, each recorded under
      the columns it was recorded under, if and only if, in the document before,
      - no member of the query that names no column is spelled like the new name, and none
        looks through another query that passes the column on without an alias, for a name
        that comes or goes there, and
      - at no path that is a reference of the column inside its own query the new name
        denotes a table alias. */
  lemma RenameTheorem(
      statements: seq<Node>, x: Indexes, x': Indexes, p: Columns.Place, b: Columns.ColumnBinding, newName: string,
      pc: seq<Columns.Place>, ofCtes: Columns.ColumnIndex, pd: seq<Columns.Place>, derived: Columns.ColumnIndex,
      pc': seq<Columns.Place>, ofCtes': Columns.ColumnIndex, pd': seq<Columns.Place>, derived': Columns.ColumnIndex)
    requires Renames(statements, x, p, b)
    requires var d := DocumentOf(Ctes.Document(statements), x);
             && Columns.IsColumnIndex(d, false, pc, ofCtes) && Columns.IsColumnIndex(d, true, pd, derived)
             && Rename.NameIsFree(Columns.ColumnsOf(d, p.owner), p.column, newName)
    requires var statements' := EditAll(statements, Rename.EditsOf(b), newName);
             var d' := DocumentOf(Ctes.Document(statements'), x');
             && FromBinders(statements', x')
             && Columns.IsColumnIndex(d', false, pc', ofCtes') && Columns.IsColumnIndex(d', true, pd', derived')
    ensures var root := Ctes.Document(statements);
            var d := DocumentOf(root, x);
            var d' := DocumentOf(Ctes.Document(EditAll(statements, Rename.EditsOf(b), newName)), x');
            Rename.SameMembers(d, d') && Rename.SameRecordsOfMembers(d, pc, ofCtes, pd, derived, pc', ofCtes', pd',
                derived') <==>
            Rename.AllSafe(d, SourcesOf(root, x), p, newName) &&
            forall a :: !Falls(root, x.ctes.sites, Own(d, b), newName, a)
  {
    var root, edits := Ctes.Document(statements), Rename.EditsOf(b);
    var d, s := DocumentOf(root, x), SourcesOf(root, x);
    var d' := DocumentOf(Edit(root, edits, newName), x');
    RenamesParsed(statements, x, p, b);
    RenamedApart(statements, x, p, b);
    EditDocument(statements, edits, newName);
    hide Renames, Parsed, DocumentOf, SourcesOf, EditAll, Edit, Rename.EditsOf, Columns.IsColumnIndex,
      Rename.NameIsFree,
      Columns.MembersApart, FromBinders, Columns.Stands, Rename.FromItems, Rename.RangesApart, Falls, Rename.AllSafe,
      Rename.SameMembers, Rename.SameRecordsOfMembers, Own, Columns.ColumnsOf, Rename.IsEdited, Aligned,
        Rename.Reordered, Columns.Owns;
    RenamedMembersApart(statements, x', edits, newName);
    if a :| Falls(root, x.ctes.sites, Own(d, b), newName, a) {
      WithFalls(statements, x, x', p, b, newName, a);
    } else {
      WithoutFalls(statements, x, x', p, b, newName);
      Rename.ReindexTheorem(d, s, Aligned(d, d', edits, newName), d', p, b, newName, pc, ofCtes, pd, derived, pc',
          ofCtes', pd', derived');
    }
  }
}
