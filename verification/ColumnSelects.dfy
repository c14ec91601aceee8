/** Renaming a column of a CTE or derived table renames the alias of its item, and those
    of the items without an alias that pass the column on: exactly when the uses of SELECT
    aliases mean what they meant. */
module ColumnSelects {
  import opened Coordinates
  import opened Syntax
  import opened Editing
  import opened QueryShapes
  import opened Texts
  import opened SelectWalk
  import opened SelectIndexes
  import opened SparedBinders
  import opened ColumnSources
  import opened ColumnNames
  import opened ColumnMembers
  import opened ColumnEdits
  import opened SelectAliasEdits
  import opened SelectEditsReindex
  import ColumnReindex
  import WorkspaceScan
  import Selects = SelectAliases
  import Uses = SelectAliasRename
  import Documents = SelectAliasDocument
  import Joints = SelectAliasReindex
  import Ctes = CteBindings
  import Tables = AliasBindings
  import Aliases = AliasRename
  import Columns = ColumnBindings
  import Rename = ColumnRename

  // ----- The items of a SELECT as its aliases -----

  ghost predicate AllNamed(items: seq<Option<Column>>) {
    forall j :: 0 <= j < |items| ==> items[j].Some?
  }

  function ColumnOf(alias: Selects.Alias): Column {
    Column(alias.ident.name, alias.ident.range, alias.explicit)
  }

  /** Where every item has a name, the aliases are the columns. */
  lemma {:induction false} AliasesAreItems(kids: seq<Node>)
    requires AllNamed(ItemColumns(kids))
    ensures |Selects.Aliases(kids)| == |ItemColumns(kids)|
    ensures forall j :: 0 <= j < |ItemColumns(kids)| ==>
            ItemColumns(kids)[j] == Some(ColumnOf(Selects.Aliases(kids)[j]))
  {
    if kids != [] {
      var last := |kids| - 1;
      var items := ItemColumns(kids[..last]);
      assert forall j :: 0 <= j < |items| ==> ItemColumns(kids)[j] == items[j];
      AliasesAreItems(kids[..last]);
      OneAlias(kids, last);
      hide ItemColumn, Selects.ItemAlias;
    }
  }

  lemma OneAlias(kids: seq<Node>, last: nat)
    requires last == |kids| - 1 && AllNamed(ItemColumns(kids))
    ensures |Selects.ItemAlias(kids[last])| == |ItemColumn(kids[last])|
    ensures forall j :: 0 <= j < |ItemColumn(kids[last])| ==>
              ItemColumn(kids[last])[j] == Some(ColumnOf(Selects.ItemAlias(kids[last])[j]))
  {
    var items, own := ItemColumns(kids[..last]), ItemColumn(kids[last]);
    assert ItemColumns(kids) == items + own;
    hide ItemColumns, ItemColumn;
    forall j | 0 <= j < |own| ensures own[j].Some? { assert ItemColumns(kids)[|items| + j] == own[j]; }
    NamedItem(kids[last]);
  }

  lemma NamedItem(n: Node)
    requires AllNamed(ItemColumn(n))
    ensures |Selects.ItemAlias(n)| == |ItemColumn(n)|
    ensures forall j :: 0 <= j < |ItemColumn(n)| ==> ItemColumn(n)[j] == Some(ColumnOf(Selects.ItemAlias(n)[j]))
  {
    if n.kind.Item? { assert ItemColumn(n)[0].Some?; }
  }

  // ----- Edited aliases -----

  lemma AliasItem(root: Node, e: Indexed, i: nat) returns (a: Address)
    requires IsEntry(root, e) && i < |AliasesAt(root, e)|
    ensures ItemStandsAt(root, ColumnOf(AliasesAt(root, e)[i]), a) && a[..|a| - 1] == e.select
    ensures i < |Documents.ItemsAt(root, e)| && a == Documents.ItemsAt(root, e)[i]
  {
    Documents.ItemsOfEntry(root, e);
    hide AliasesAt;
    a := Documents.ItemsAt(root, e)[i];
    hide Documents.ItemsAt;
    assert Documents.AliasStands(root, e, AliasesAt(root, e)[i], a);
    assert a[..|a| - 1] == e.select;
  }

  /** Items of one range are one item. */
  lemma SameItem(root: Node, x: Column, a: Address, y: Column, b: Address)
    requires OneText(root) && ItemStandsAt(root, x, a) && ItemStandsAt(root, y, b) &&
             x.declarationRange == y.declarationRange
    ensures a == b && x == y
  {
    ItemIdentAt(root, a, x);
    ItemIdentAt(root, b, y);
    hide IdentAt;
    SameRange(root, Slot(a, Result), Slot(b, Result));
    Documents.ItemsApart(root, Slot(a, Result), Slot(b, Result));
  }

  lemma ClaimedName(d: Columns.Document, m: nat, p: Columns.Place, b: Columns.ColumnBinding)
    requires Columns.Stands(d, b, p) && m < |d.members| && Columns.ClaimedBy(d, m, p)
    ensures Fold(d.members[m].name) == Fold(b.name)
  {
    hide Fold, Columns.LooksInto, Columns.ListsConsumers, Columns.ReferencesAre;
  }

  /** An edited item of any SELECT list bears the name of the column. */
  lemma EditedItem(statements: seq<Node>, x: Indexes, p: Columns.Place, b: Columns.ColumnBinding, column: Column,
                   a: Address)
    requires Renames(statements, x, p, b)
    requires ItemStandsAt(Ctes.Document(statements), column, a) && column.declarationRange in Rename.EditsOf(b)
    ensures Fold(column.name) == Fold(b.name)
  {
    var root := Ctes.Document(statements);
    var d := DocumentOf(root, x);
    var r := column.declarationRange;
    RenamesParsed(statements, x, p, b);
    hide Renames, OneText, Joints.ParsedClauses, CteQuery, AliasOf, Tables.IsIndexOf, Ctes.IsIndexOf, IsJointIndex,
      Columns.Stands,
      Rename.EditsOf, Own, Columns.ClaimedBy, ItemStandsAt, MemberStandsAt, ReferenceStands, RefersTo, Fold, Entries,
        SourcesOf, Rename.ItemAt;
    EditIs(d, b, p, r);
    if r == b.declarationRange {
      RenamedItem(statements, x, p, b);
      SameItem(root, column, a, Rename.ItemAt(SourcesOf(root, x), p).value, ItemPlace(statements, x, p));
    } else if r in Own(d, b) {
      var e, k, i := OwnStands(statements, x, b, r);
      ItemIsNoReference(root, x.ctes.sites, a, column, r, e, k);
      assert false;
    } else {
      var m: nat :| m < |d.members| && d.members[m].range == r && Columns.ClaimedBy(d, m, p);
      var c := MemberStands(root, x.ctes.sites, x.tables, m);
      ItemIsMember(root, x.ctes.sites, a, column, x.tables.memberSites[m], c);
      ClaimedName(d, m, p, b);
    }
  }

  lemma EditedAliases(statements: seq<Node>, x: Indexes, p: Columns.Place, b: Columns.ColumnBinding, e: Indexed)
    requires Renames(statements, x, p, b) && IsEntry(Ctes.Document(statements), e)
    ensures OneName(AliasesAt(Ctes.Document(statements), e), Rename.EditsOf(b), Fold(b.name))
  {
    hide Renames, Rename.EditsOf, AliasesAt, Fold, IsEntry, ItemStandsAt;
    var root := Ctes.Document(statements);
    forall i: nat | Edited(AliasesAt(root, e), Rename.EditsOf(b), i)
      ensures Selects.Key(AliasesAt(root, e)[i]) == Fold(b.name)
    {
      var a := AliasItem(root, e, i);
      EditedItem(statements, x, p, b, ColumnOf(AliasesAt(root, e)[i]), a);
    }
  }

  // ----- The own references of a column -----

  lemma PartBinding(root: Node, tables: seq<Tables.AliasSite>, e: Indexed, part: Selects.SelectIndex, i: nat)
    requires PartIs(part, root, e, tables) && i < |part.bindings|
    ensures i < |AliasesAt(root, e)| && part.bindings[i].declarationRange == AliasesAt(root, e)[i].ident.range
  {
    hide AliasesAt, UsesAt, Selects.AllEvents, Selects.ReferencesTo, Selects.Duplicate;
    var log := Selects.AllEvents(AliasesAt(root, e), tables, UsesAt(root, e));
    assert Selects.BindingIs(part.bindings[i], AliasesAt(root, e), i, log);
  }

  lemma PartDeclares(root: Node, tables: seq<Tables.AliasSite>, parts: seq<Selects.SelectIndex>, j: nat)
    returns (f: nat, i: nat)
    requires PartsAre(parts, root, Entries(root), tables) && j < |Joint(parts).bindings|
    ensures f < |parts| && i < |parts[f].bindings| && j == Joints.Offset(parts, f) + i
    ensures i < |AliasesAt(root, Entries(root)[f])|
    ensures AliasesAt(root, Entries(root)[f])[i].ident.range == Joint(parts).bindings[j].declarationRange
  {
    hide Joint, Entries, AliasesAt, PartIs, Joints.Offset;
    f, i := Joints.PartOf(parts, j);
    JointBinding(parts, f, i);
    PartBinding(root, tables, Entries(root)[f], parts[f], i);
  }

  /** SELECT aliases are declared at ranges of their own. */
  lemma DeclarationsApart(root: Node, tables: seq<Tables.AliasSite>, selects: Selects.SelectIndex, x: nat, y: nat)
    requires OneText(root) && IsJointIndex(selects, root, tables) && x < |selects.bindings| && y < |selects.bindings|
    requires selects.bindings[x].declarationRange == selects.bindings[y].declarationRange
    ensures x == y
  {
    hide Joint, Entries, AliasesAt, PartIs, Documents.ItemsAt, Joints.Offset, OneText, ItemStandsAt, IsEntry;
    var parts: seq<Selects.SelectIndex> :| PartsAre(parts, root, Entries(root), tables) && selects == Joint(parts);
    var f, i := PartDeclares(root, tables, parts, x);
    var g, j := PartDeclares(root, tables, parts, y);
    SameAlias(root, f, i, g, j);
  }

  /** Aliases of one range are one alias. */
  lemma SameAlias(root: Node, f: nat, i: nat, g: nat, j: nat)
    requires OneText(root) && f < |Entries(root)| && g < |Entries(root)|
    requires i < |AliasesAt(root, Entries(root)[f])| && j < |AliasesAt(root, Entries(root)[g])|
    requires AliasesAt(root, Entries(root)[f])[i].ident.range == AliasesAt(root, Entries(root)[g])[j].ident.range
    ensures f == g && i == j
  {
    hide Entries, AliasesAt, Documents.ItemsAt, OneText, ItemStandsAt, IsEntry;
    var d, e := Entries(root)[f], Entries(root)[g];
    EntriesAre(root, d);
    EntriesAre(root, e);
    var a := AliasItem(root, d, i);
    var c := AliasItem(root, e, j);
    SameItem(root, ColumnOf(AliasesAt(root, d)[i]), a, ColumnOf(AliasesAt(root, e)[j]), c);
    if f != g { Joints.EntriesApart(root, f, g); }
    Documents.ItemsOfEntry(root, d);
  }

  lemma {:induction false} OwnReferencesAt(selectAliases: seq<Columns.SelectAlias>, declaration: Range, j: nat)
    requires j < |selectAliases| && selectAliases[j].declarationRange == declaration
    requires forall k :: 0 <= k < |selectAliases| && selectAliases[k].declarationRange == declaration ==> k == j
    ensures Columns.OwnReferences(selectAliases, declaration) == selectAliases[j].referenceRanges
  {
    if selectAliases[0].declarationRange != declaration { OwnReferencesAt(selectAliases[1..], declaration, j - 1); }
  }

  /** The binding of an alias, among those of the joint index. */
  lemma BindingOfAlias(root: Node, ctes: seq<Ctes.CteSite>, tables: Tables.AliasIndex, selects: Selects.SelectIndex,
                       e: Indexed, k: nat, i: nat, r: Range, declaration: Range) returns (j: nat)
    requires Parsed(root) && Tables.IsIndexOf(tables, root, ctes) && IsJointIndex(selects, root, tables.sites)
    requires e in Entries(root) && ReferenceStands(root, ctes, r, e, k) && RefersTo(root, e, k, i, declaration)
    ensures j < |selects.bindings| && selects.bindings[j].declarationRange == declaration &&
            r in selects.bindings[j].referenceRanges
  {
    hide Joint, Entries, AliasesAt, UsesAt, PlacesAt, Documents.ItemsAt, Joints.Offset, OneText, IsEntry,
      Tables.IsIndexOf, Selects.AllEvents,
      Selects.EventsOf, Uses.Alone, Selects.Unique, Fold, Selects.ReferencesTo, Selects.Duplicate;
    var parts: seq<Selects.SelectIndex> :| PartsAre(parts, root, Entries(root), tables.sites) &&
      selects == Joint(parts);
    var f :| 0 <= f < |parts| && Entries(root)[f] == e;
    var aliases, uses := AliasesAt(root, e), UsesAt(root, e);
    var log := Selects.AllEvents(aliases, tables.sites, uses);
    assert PartIs(parts[f], root, e, tables.sites);
    assert Selects.BindingIs(parts[f].bindings[i], aliases, i, log);
    Documents.UseIsAlone(root, ctes, e, k);
    Uses.OwnedIff(tables, root, ctes, uses[k], PlacesAt(root, e)[k]);
    Uses.ReferenceIsHead(aliases, tables.sites, uses[k], i, r);
    Uses.EventsMembers(aliases, tables.sites, uses, Selects.Refers(i, r));
    Uses.ReferenceMembers(log, i, r);
    JointBinding(parts, f, i);
    j := Joints.Offset(parts, f) + i;
  }

  /** A use of the alias declared at that range, and no path of a table alias. */
  ghost predicate IsOwnUse(root: Node, ctes: seq<Ctes.CteSite>, r: Range, e: Indexed, k: nat, i: nat,
                           declaration: Range) {
    e in Entries(root) && ReferenceStands(root, ctes, r, e, k) && RefersTo(root, e, k, i, declaration)
  }

  /** The references of a column inside its own query are the uses of its SELECT alias
      that are no paths of a table alias. */
  lemma OwnIff(statements: seq<Node>, x: Indexes, b: Columns.ColumnBinding, r: Range)
    requires FromBinders(statements, x) && Parsed(Ctes.Document(statements))
    ensures var root := Ctes.Document(statements);
            r in Own(DocumentOf(root, x), b) <==>
            exists e, k: nat, i: nat :: IsOwnUse(root, x.ctes.sites, r, e, k, i, b.declarationRange)
  {
    var root := Ctes.Document(statements);
    hide Entries, ReferenceStands, RefersTo, Tables.IsIndexOf, Ctes.IsIndexOf, IsJointIndex, CteQuery, AliasOf, OneText,
      Joints.ParsedClauses;
    var d := DocumentOf(root, x);
    if r in Own(d, b) {
      var e, k, i := OwnStands(statements, x, b, r);
      assert IsOwnUse(root, x.ctes.sites, r, e, k, i, b.declarationRange);
    }
    if e, k: nat, i: nat :| IsOwnUse(root, x.ctes.sites, r, e, k, i, b.declarationRange) {
      var j := BindingOfAlias(root, x.ctes.sites, x.tables, x.selects, e, k, i, r, b.declarationRange);
      forall n: nat | n < |x.selects.bindings| && x.selects.bindings[n].declarationRange == b.declarationRange
        ensures n == j
      {
        DeclarationsApart(root, x.tables.sites, x.selects, n, j);
      }
      OwnReferencesAt(d.selectAliases, b.declarationRange, j);
    }
  }

  // ----- The SELECT of the column -----

  /** The SELECT list that holds the item of the column. */
  ghost predicate IsOwn(root: Node, e: Indexed, i: nat, b: Columns.ColumnBinding) {
    i < |AliasesAt(root, e)| && AliasesAt(root, e)[i].ident.range == b.declarationRange
  }

  /** That SELECT is the query of the column's owner. */
  lemma OwnSelect(statements: seq<Node>, x: Indexes, p: Columns.Place, b: Columns.ColumnBinding, e: Indexed, i: nat)
    requires Renames(statements, x, p, b)
    requires IsEntry(Ctes.Document(statements), e) && IsOwn(Ctes.Document(statements), e, i, b)
    ensures var root := Ctes.Document(statements);
            && NodeAt(root, e.select).Some? &&
                 Rename.ItemsOf(SourcesOf(root, x), p.owner) == ListOf(NodeAt(root, e.select).value)
  {
    var root := Ctes.Document(statements);
    RenamesParsed(statements, x, p, b);
    RenamedItem(statements, x, p, b);
    hide Renames, OneText, Joints.ParsedClauses, SourcesOf, Tables.IsIndexOf, Ctes.IsIndexOf, IsJointIndex,
      Columns.Stands, ItemStandsAt,
      QueryPlace, ItemPlace, AliasesAt, ListOf, HoldsOwner, IsEntry, ItemColumns;
    var a := AliasItem(root, e, i);
    SameItem(root, ColumnOf(AliasesAt(root, e)[i]), a, Rename.ItemAt(SourcesOf(root, x), p).value,
      ItemPlace(statements, x, p));
    ItemStands(statements, x, p);
    OwnerList(statements, x, p.owner);
  }

  lemma AliasesOfSelect(root: Node, e: Indexed)
    requires IsEntry(root, e)
    ensures NodeAt(root, e.select).Some? && AliasesAt(root, e) == Selects.Aliases(Kids(NodeAt(root, e.select).value))
    ensures ListOf(NodeAt(root, e.select).value) == Some(ItemColumns(Kids(NodeAt(root, e.select).value)))
  {}

  /** The aliases of that SELECT are the columns of the owner, and the column's is its own. */
  lemma OwnColumns(statements: seq<Node>, x: Indexes, p: Columns.Place, b: Columns.ColumnBinding, e: Indexed, i: nat)
    requires Renames(statements, x, p, b)
    requires IsEntry(Ctes.Document(statements), e) && IsOwn(Ctes.Document(statements), e, i, b)
    ensures var d := DocumentOf(Ctes.Document(statements), x);
            var aliases := AliasesAt(Ctes.Document(statements), e);
            && Columns.Owns(d, p.owner) && i == p.column && |aliases| == |Columns.ColumnsOf(d, p.owner)|
            && forall j :: 0 <= j < |aliases| ==> Columns.ColumnsOf(d, p.owner)[j] == ColumnOf(aliases[j])
  {
    var root := Ctes.Document(statements);
    var d, s := DocumentOf(root, x), SourcesOf(root, x);
    RenamesParsed(statements, x, p, b);
    Rename.StandsDeclares(d, b, p);
    OwnSelect(statements, x, p, b, e, i);
    AliasesOfSelect(root, e);
    ColumnReindex.RenamedApart(statements, x, p, b);
    hide Renames, Parsed, SourcesOf, FromBinders, Columns.Stands, AliasesAt, ListOf, IsEntry, ItemColumns, DocumentOf,
      Columns.Owns,
      Columns.ColumnsOf, Rename.FromItems, Rename.RangesApart, Kids, NodeAt;
    var items := ItemColumns(Kids(NodeAt(root, e.select).value));
    OwnerItems(d, s, p, items);
    AliasesAreItems(Kids(NodeAt(root, e.select).value));
    SamePlace(d, s, p, i);
  }

  lemma OwnerItems(d: Columns.Document, s: Rename.Sources, p: Columns.Place, items: seq<Option<Column>>)
    requires Rename.FromItems(d, s) && Columns.Owns(d, p.owner) && Rename.ItemsOf(s, p.owner) == Some(items)
    requires p.column < |Columns.ColumnsOf(d, p.owner)|
    ensures AllNamed(items) && |items| == |Columns.ColumnsOf(d, p.owner)|
    ensures forall j: nat :: j < |items| ==> items[j] == Some(Columns.ColumnsOf(d, p.owner)[j])
    ensures forall j: nat :: j < |items| ==> Rename.ItemAt(s, Columns.Place(p.owner, j)) == items[j]
  {
    hide Rename.FromItems, Columns.Owns, Columns.ColumnsOf, NamedApart;
    Rename.OwnsIff(d, s, p);
    forall j: nat | j < |items| ensures items[j] == Some(Columns.ColumnsOf(d, p.owner)[j]) {
      Rename.OwnsIff(d, s, Columns.Place(p.owner, j));
      assert Rename.ItemAt(s, Columns.Place(p.owner, j)) == items[j];
    }
  }

  lemma SamePlace(d: Columns.Document, s: Rename.Sources, p: Columns.Place, i: nat)
    requires Rename.RangesApart(d, s, p) && Rename.ItemAt(s, p).Some? &&
             Rename.ItemAt(s, Columns.Place(p.owner, i)).Some?
    requires Rename.ItemAt(s, Columns.Place(p.owner, i)).value.declarationRange ==
             Rename.ItemAt(s, p).value.declarationRange
    ensures i == p.column
  {
    hide Rename.ItemAt;
  }

  // ----- Edited uses -----

  lemma HeadIdent(root: Node, e: Indexed, k: nat)
    requires IsEntry(root, e) && k < |UsesAt(root, e)|
    ensures |PlacesAt(root, e)| == |UsesAt(root, e)|
    ensures IdentAt(root, Documents.HeadSlot(UsesAt(root, e)[k], PlacesAt(root, e)[k])) == Uses.Head(UsesAt(root, e)[k])
  {
    UsesOfEntry(root, e);
    hide UsesAt, PlacesAt, ClausePlaces, IdentAt, IsEntry;
    Documents.HeadStands(root, UsesAt(root, e)[k], PlacesAt(root, e)[k]);
  }

  /** Uses with one head range are one use. */
  lemma SameUse(root: Node, e: Indexed, k: nat, f: Indexed, l: nat)
    requires OneText(root) && e in Entries(root) && f in Entries(root) && k < |UsesAt(root, e)| && l < |UsesAt(root, f)|
    requires Uses.Head(UsesAt(root, e)[k]).Some? && Uses.Head(UsesAt(root, f)[l]).Some?
    requires Uses.Head(UsesAt(root, e)[k]).value.range == Uses.Head(UsesAt(root, f)[l]).value.range
    ensures e == f && k == l
  {
    EntriesAre(root, e);
    EntriesAre(root, f);
    HeadIdent(root, e, k);
    HeadIdent(root, f, l);
    hide UsesAt, PlacesAt, ClausePlaces, IdentAt, IsEntry, OneText, Entries;
    var s, t := Documents.HeadSlot(UsesAt(root, e)[k], PlacesAt(root, e)[k]),
      Documents.HeadSlot(UsesAt(root, f)[l], PlacesAt(root, f)[l]);
    SameRange(root, s, t);
    Documents.HeadsApart(root, s, t);
    PlacesOfEntries(root, e, f, PlacesAt(root, e)[k]);
    var i :| 0 <= i < |Entries(root)| && Entries(root)[i] == e;
    var j :| 0 <= j < |Entries(root)| && Entries(root)[j] == f;
    if i != j { Joints.EntriesApart(root, i, j); }
    UsesOfEntry(root, e);
  }

  lemma DeclarationIsNoHead(statements: seq<Node>, x: Indexes, p: Columns.Place, b: Columns.ColumnBinding, e: Indexed,
                            k: nat)
    requires Renames(statements, x, p, b) && IsEntry(Ctes.Document(statements), e)
    requires k < |UsesAt(Ctes.Document(statements), e)| && Uses.Head(UsesAt(Ctes.Document(statements), e)[k]).Some?
    ensures Uses.Head(UsesAt(Ctes.Document(statements), e)[k]).value.range != b.declarationRange
  {
    var root := Ctes.Document(statements);
    RenamesParsed(statements, x, p, b);
    RenamedItem(statements, x, p, b);
    HeadIdent(root, e, k);
    hide Renames, OneText, Joints.ParsedClauses, SourcesOf, IdentAt, ItemStandsAt, ItemPlace, Rename.ItemAt,
      FromBinders, UsesAt,
      PlacesAt, IsEntry;
    var t := Documents.HeadSlot(UsesAt(root, e)[k], PlacesAt(root, e)[k]);
    ExplicitApart(root, ItemPlace(statements, x, p), Rename.ItemAt(SourcesOf(root, x), p).value, t);
  }

  lemma MemberIsNoHead(root: Node, ctes: seq<Ctes.CteSite>, tables: Tables.AliasIndex, m: nat, e: Indexed, k: nat)
    requires OneText(root) && Tables.IsIndexOf(tables, root, ctes) && m < |tables.memberSites| && IsEntry(root, e)
    requires k < |UsesAt(root, e)| && Uses.Head(UsesAt(root, e)[k]).Some?
    ensures Uses.Head(UsesAt(root, e)[k]).value.range != tables.memberSites[m].range
  {
    HeadIdent(root, e, k);
    hide OneText, Tables.IsIndexOf, MemberStandsAt, IdentAt, UsesAt, PlacesAt, IsEntry;
    var c := MemberStands(root, ctes, tables, m);
    MemberIdent(root, ctes, tables.memberSites[m], c);
    var t := Documents.HeadSlot(UsesAt(root, e)[k], PlacesAt(root, e)[k]);
    if Uses.Head(UsesAt(root, e)[k]).value.range == tables.memberSites[m].range {
      SameRange(root, t, Slot(c, Part(1)));
      Documents.HeadsApart(root, t, Slot(c, Part(1)));
    }
  }

  /** An edited head is an own reference of the column. */
  lemma EditedHead(statements: seq<Node>, x: Indexes, p: Columns.Place, b: Columns.ColumnBinding, e: Indexed, k: nat)
    requires Renames(statements, x, p, b) && IsEntry(Ctes.Document(statements), e)
    requires k < |UsesAt(Ctes.Document(statements), e)| && Uses.Head(UsesAt(Ctes.Document(statements), e)[k]).Some?
    requires Uses.Head(UsesAt(Ctes.Document(statements), e)[k]).value.range in Rename.EditsOf(b)
    ensures Uses.Head(UsesAt(Ctes.Document(statements), e)[k]).value.range in
              Own(DocumentOf(Ctes.Document(statements), x), b)
  {
    var root := Ctes.Document(statements);
    var d := DocumentOf(root, x);
    var r := Uses.Head(UsesAt(root, e)[k]).value.range;
    DeclarationIsNoHead(statements, x, p, b, e, k);
    hide OneText, Joints.ParsedClauses, CteQuery, AliasOf, Tables.IsIndexOf, Ctes.IsIndexOf, IsJointIndex,
      Columns.Stands, Rename.EditsOf, Own, Columns.ClaimedBy, UsesAt, IsEntry;
    EditIs(d, b, p, r);
    if EditsMember(d, p, r) {
      var m: nat :| m < |d.members| && d.members[m].range == r && Columns.ClaimedBy(d, m, p);
      MemberIsNoHead(root, x.ctes.sites, x.tables, m, e, k);
    }
  }

  /** An edited use is one of the column's alias and no path of a table alias. */
  lemma EditedUse(statements: seq<Node>, x: Indexes, p: Columns.Place, b: Columns.ColumnBinding, e: Indexed,
                  k: nat) returns (i: nat)
    requires Renames(statements, x, p, b) && e in Entries(Ctes.Document(statements))
    requires k < |UsesAt(Ctes.Document(statements), e)| && Uses.Head(UsesAt(Ctes.Document(statements), e)[k]).Some?
    requires Uses.Head(UsesAt(Ctes.Document(statements), e)[k]).value.range in Rename.EditsOf(b)
    ensures ReferenceStands(Ctes.Document(statements), x.ctes.sites,
              Uses.Head(UsesAt(Ctes.Document(statements), e)[k]).value.range, e, k)
    ensures RefersTo(Ctes.Document(statements), e, k, i, b.declarationRange)
  {
    var root := Ctes.Document(statements);
    var r := Uses.Head(UsesAt(root, e)[k]).value.range;
    RenamesParsed(statements, x, p, b);
    EntriesAre(root, e);
    hide Renames, OneText, Joints.ParsedClauses, DocumentOf, FromBinders, Columns.Stands, Rename.EditsOf, Own, Entries,
      UsesAt, IsEntry;
    EditedHead(statements, x, p, b, e, k);
    var f, l, n := OwnStands(statements, x, b, r);
    SameUse(root, e, k, f, l);
    i := n;
  }

  /** In the SELECT of the column, only its own alias has the new name afterwards. */
  lemma OwnAlias(statements: seq<Node>, x: Indexes, p: Columns.Place, b: Columns.ColumnBinding, newName: string,
                 e: Indexed, i: nat)
    requires Renames(statements, x, p, b)
    requires var d := DocumentOf(Ctes.Document(statements), x);
             Rename.NameIsFree(Columns.ColumnsOf(d, p.owner), p.column, newName)
    requires IsEntry(Ctes.Document(statements), e) && IsOwn(Ctes.Document(statements), e, i, b)
    ensures Selects.Unique(Uses.EditAliases(AliasesAt(Ctes.Document(statements), e), Rename.EditsOf(b), newName),
              Fold(newName), i)
  {
    var root := Ctes.Document(statements);
    var d, aliases, edits := DocumentOf(root, x), AliasesAt(root, e), Rename.EditsOf(b);
    RenamesParsed(statements, x, p, b);
    OwnColumns(statements, x, p, b, e, i);
    EditedAliases(statements, x, p, b, e);
    DocumentShapesApart(root, x);
    OwnNames(d, b, p);
    assert b.declarationRange in edits;
    hide Renames, Parsed, FromBinders, Columns.Stands, AliasesAt, IsEntry, DocumentOf, Columns.Owns, Columns.ColumnsOf,
      Rename.EditsOf;
    UniqueAfter(Columns.ColumnsOf(d, p.owner), aliases, edits, b.name, newName, i);
  }

  lemma OwnNames(d: Columns.Document, b: Columns.ColumnBinding, p: Columns.Place)
    requires Columns.ShapesApart(d) && Columns.Stands(d, b, p)
    ensures ColumnsApart(Columns.ColumnsOf(d, p.owner)) && Columns.ColumnsOf(d, p.owner)[p.column].name == b.name
  {
    hide ColumnsApart;
  }

  lemma UniqueAfter(columns: seq<Column>, aliases: seq<Selects.Alias>, edits: set<Range>, name: string, newName: string,
                    i: nat)
    requires ColumnsApart(columns) && |aliases| == |columns| && i < |columns| && Rename.NameIsFree(columns, i, newName)
    requires forall j :: 0 <= j < |aliases| ==> columns[j] == ColumnOf(aliases[j])
    requires columns[i].name == name && aliases[i].ident.range in edits && OneName(aliases, edits, Fold(name))
    ensures Selects.Unique(Uses.EditAliases(aliases, edits, newName), Fold(newName), i)
  {
    var more := Uses.EditAliases(aliases, edits, newName);
    hide Uses.EditAliases, Fold;
    SameLength(aliases, edits, newName);
    forall j: nat | j < |aliases| ensures Selects.Key(more[j]) == Fold(newName) <==> j == i {
      KeyAfter(aliases, edits, newName, j);
      assert columns[j] == ColumnOf(aliases[j]) && Selects.Key(aliases[j]) == Fold(columns[j].name);
      if j != i {
        assert !WorkspaceScan.EqualFold(columns[j].name, newName);
        assert !WorkspaceScan.EqualFold(columns[j].name, columns[i].name);
      }
    }
  }

  lemma SameLength(aliases: seq<Selects.Alias>, edits: set<Range>, newName: string)
    ensures |Uses.EditAliases(aliases, edits, newName)| == |aliases|
  {}

  // ----- The theorem -----

  /** Every SELECT fits the edits of the rename. */
  lemma RenameFits(statements: seq<Node>, x: Indexes, p: Columns.Place, b: Columns.ColumnBinding, newName: string,
                   e: Indexed)
    requires Renames(statements, x, p, b)
    requires var d := DocumentOf(Ctes.Document(statements), x);
             Rename.NameIsFree(Columns.ColumnsOf(d, p.owner), p.column, newName)
    requires e in Entries(Ctes.Document(statements))
    ensures EntryFits(Ctes.Document(statements), x.ctes.sites, e, Rename.EditsOf(b), Fold(b.name), newName)
  {
    var root, edits := Ctes.Document(statements), Rename.EditsOf(b);
    var aliases, uses := AliasesAt(root, e), UsesAt(root, e);
    EntriesAre(root, e);
    Joints.UsesOfEntryCount(root, e);
    hide Renames, DocumentOf, AliasesAt, UsesAt, PlacesAt, IsEntry, Entries, Rename.EditsOf, Rename.NameIsFree,
      Columns.ColumnsOf,
      OneName, Uses.EditAliases, Selects.Unique, Fold, Uses.HeadedByTable;
    EditedAliases(statements, x, p, b, e);
    forall k: nat | k < |uses|
      ensures UseFits(root, x.ctes.sites, aliases, edits, newName, uses[k], PlacesAt(root, e)[k])
    {
      if Uses.Head(uses[k]).Some? && Uses.Head(uses[k]).value.range in edits {
        var i := EditedUse(statements, x, p, b, e, k);
        OwnAlias(statements, x, p, b, newName, e, i);
      }
    }
  }

  /** The rename of a column and the SELECT aliases. Where the test finds no other column
      of the new name, extracting the joint index again from the edited document gives the
      same aliases, references and ambiguous uses but for the names, if and only if, in the
      document before, every SELECT meets its condition. */
  lemma SelectTheorem(
      statements: seq<Node>, x: Indexes, x': Indexes, p: Columns.Place, b: Columns.ColumnBinding, newName: string)
    requires Renames(statements, x, p, b)
    requires var d := DocumentOf(Ctes.Document(statements), x);
             Rename.NameIsFree(Columns.ColumnsOf(d, p.owner), p.column, newName)
    requires FromBinders(EditAll(statements, Rename.EditsOf(b), newName), x')
    ensures var root := Ctes.Document(statements);
            SameButNames(x.selects, x'.selects) <==>
            forall e :: e in Entries(root) ==>
                EntryStays(root, x.ctes.sites, e, Rename.EditsOf(b), Fold(b.name), newName)
  {
    var root, edits := Ctes.Document(statements), Rename.EditsOf(b);
    RenamesParsed(statements, x, p, b);
    EditDocument(statements, edits, newName);
    hide Renames, DocumentOf, Entries, Rename.EditsOf, Rename.NameIsFree, Columns.ColumnsOf, Fold, Tables.IsIndexOf,
      Ctes.IsIndexOf,
      IsJointIndex, EntryFits, EntryStays, SameButNames, Edit, EditAll, OneText, Joints.ParsedClauses, Columns.Stands,
      Uses.SparesTables, ColumnReindex.BindersAgree, Record;
    ColumnReindex.RenamedBinders(statements, x, x', p, b, newName);
    forall e | e in Entries(root) ensures EntryFits(root, x.ctes.sites, e, edits, Fold(b.name), newName) {
      RenameFits(statements, x, p, b, newName, e);
    }
    JointStaysIff(root, x.ctes.sites, x'.ctes.sites, x.tables, x'.tables, x.selects, x'.selects, edits, Fold(b.name),
        newName);
  }
}
