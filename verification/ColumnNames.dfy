/** Where the names of columns, members and SELECT-alias references stand in the tree,
    and that they stand apart. */
module ColumnNames {
  import opened Coordinates
  import opened Syntax
  import opened Sorting
  import opened QueryShapes
  import opened Texts
  import opened SelectWalk
  import opened SelectIndexes
  import opened FromSlots
  import opened ColumnSources
  import Selects = SelectAliases
  import Uses = SelectAliasRename
  import Documents = SelectAliasDocument
  import Joints = SelectAliasReindex
  import TextNames
  import Ctes = CteBindings
  import Tables = AliasBindings
  import Aliases = AliasRename
  import Flags = AliasReindexFlags
  import Columns = ColumnBindings
  import Rename = ColumnRename
  import Binders = SparedBinders

  /** Identifiers of one text, and no single name taken for a path. */
  ghost predicate Parsed(root: Node) {
    OneText(root) && Joints.ParsedClauses(root)
  }

  // ----- Items of a SELECT list -----

  /** The child that is the j-th item of the list. */
  function ItemKid(kids: seq<Node>, j: nat): nat
    requires j < |ItemColumns(kids)|
  {
    var last := |kids| - 1;
    if j < |ItemColumns(kids[..last])| then ItemKid(kids[..last], j) else last
  }

  lemma {:induction false} ItemKidIs(kids: seq<Node>, j: nat)
    requires j < |ItemColumns(kids)|
    ensures ItemKid(kids, j) < |kids| && ItemColumn(kids[ItemKid(kids, j)]) == [ItemColumns(kids)[j]]
  {
    var last := |kids| - 1;
    if j < |ItemColumns(kids[..last])| { ItemKidIs(kids[..last], j); }
  }

  lemma {:induction false} ItemKidsApart(kids: seq<Node>, i: nat, j: nat)
    requires i < j < |ItemColumns(kids)|
    ensures ItemKid(kids, i) < ItemKid(kids, j)
  {
    var last := |kids| - 1;
    if j < |ItemColumns(kids[..last])| {
      ItemKidsApart(kids[..last], i, j);
    } else {
      ItemKidIs(kids[..last], i);
    }
  }

  /** The place of the query that an owner of columns stands for. */
  ghost function QueryPlace(root: Node, ctes: seq<Ctes.CteSite>, owner: Columns.Owner): Option<Address> {
    match owner
    case OfCte(c) => if CtePlace(root, c).Some? then Some(CtePlace(root, c).value + [0]) else None
    case OfAlias(a) =>
      if a < |Tables.Decls(root, ctes)| then Some(DeclSlot(root, Tables.Decls(root, ctes)[a].decl).at + [0]) else None
  }

  /** The node above a query of a CTE and of a derived table. */
  ghost predicate HoldsOwner(root: Node, owner: Columns.Owner, a: Address) {
    && NodeAt(root, a).Some? && Kids(NodeAt(root, a).value) != []
    && if owner.OfCte? then NodeAt(root, a).value.kind.Cte? else NodeAt(root, a).value.kind.SubQueryTable?
  }

  /** The list of an owner is that of the query at its place. */
  lemma OwnerList(statements: seq<Node>, x: Indexes, owner: Columns.Owner)
    requires Ctes.IsIndexOf(x.ctes, statements) && Tables.IsIndexOf(x.tables, Ctes.Document(statements), x.ctes.sites)
    requires Rename.ItemsOf(SourcesOf(Ctes.Document(statements), x), owner).Some?
    ensures var root := Ctes.Document(statements);
            var place := QueryPlace(root, x.ctes.sites, owner);
            && place.Some? && place.value != [] && HoldsOwner(root, owner, place.value[..|place.value| - 1])
            && NodeAt(root, place.value).Some?
            && Rename.ItemsOf(SourcesOf(root, x), owner) == ListOf(NodeAt(root, place.value).value)
  {
    var root := Ctes.Document(statements);
    hide Ctes.IsIndexOf, Tables.IsIndexOf, Tables.Decls, DeclSlot, ListOf, CteQuery, NodeAt, HoldsOwner, CtePlace;
    match owner
    case OfCte(c) => CteList(root, c);
    case OfAlias(a) =>
      Binders.IndexDecls(x.tables, root, x.ctes.sites);
      AliasListStands(root, x.ctes.sites, x.tables.bindings[a], a);
  }

  lemma CteList(root: Node, c: nat)
    requires ListOf(CteQuery(root, c)).Some?
    ensures CtePlace(root, c).Some?
    ensures var a := CtePlace(root, c).value;
            && HoldsOwner(root, Columns.OfCte(c), a) && (a + [0])[..|a + [0]| - 1] == a
            && NodeAt(root, a + [0]) == Some(CteQuery(root, c))
  {
    var a := CtePlace(root, c).value;
    CteDeclared(root, c);
    NodeAtChild(root, a, 0);
    assert (a + [0])[..|a + [0]| - 1] == a;
  }

  /** The c-th declaration of a CTE. */
  lemma CteDeclared(root: Node, c: nat)
    requires CtePlace(root, c).Some?
    ensures var a := CtePlace(root, c).value; NodeAt(root, a).Some? && NodeAt(root, a).value.kind.Cte?
    ensures forall e: nat :: CtePlace(root, e) == CtePlace(root, c) ==> e == c
  {
    var log := Ctes.Expected(root, root, []);
    Ctes.RecordIsLexical(root);
    Binders.DeclarationsDistinct(log);
    var e := Ctes.Declarations(log)[c];
    assert e in Ctes.Declarations(log) && Ctes.ByRule(root, e);
    DeclaredIsCte(root, e);
    hide Ctes.Expected, Ctes.Declarations, Ctes.ByRule;
    forall f: nat | CtePlace(root, f) == CtePlace(root, c) ensures f == c {}
  }

  lemma DeclaredIsCte(root: Node, e: Ctes.Event)
    requires e.Declared? && Ctes.ByRule(root, e)
    ensures NodeAt(root, e.at).Some? && NodeAt(root, e.at).value.kind.Cte?
  {
    var p := e.at[..|e.at| - 1];
    NodeAtChild(root, p, e.at[|e.at| - 1]);
    assert e.at == p + [e.at[|e.at| - 1]];
  }

  lemma AliasListStands(root: Node, ctes: seq<Ctes.CteSite>, b: Tables.AliasBinding, a: nat)
    requires a < |Tables.Decls(root, ctes)| && b.source == Tables.Decls(root, ctes)[a].alias.source &&
             b.source.FromQuery?
    ensures var s := DeclSlot(root, Tables.Decls(root, ctes)[a].decl);
            && s.role.AsAlias? && HoldsOwner(root, Columns.OfAlias(a), s.at) && (s.at + [0])[..|s.at + [0]| - 1] == s.at
            && NodeAt(root, s.at + [0]) == Some(b.source.query)
  {
    var d := Tables.Decls(root, ctes)[a].decl;
    Tables.DeclarationIsSibling(root, ctes, a);
    DeclStands(root, ctes, d);
    var s := DeclSlot(root, d);
    hide Tables.Decls, Tables.Siblings, SelectSlots;
    NodeAtChild(root, s.at, 0);
    assert (s.at + [0])[..|s.at + [0]| - 1] == s.at;
  }

  /** Owners have queries of their own. */
  lemma QueriesApart(root: Node, ctes: seq<Ctes.CteSite>, x: Columns.Owner, y: Columns.Owner)
    requires QueryPlace(root, ctes, x).Some? && QueryPlace(root, ctes, x) == QueryPlace(root, ctes, y)
    requires var a := QueryPlace(root, ctes, x).value;
             HoldsOwner(root, x, a[..|a| - 1]) && HoldsOwner(root, y, a[..|a| - 1])
    requires x.OfAlias? ==> DeclSlot(root, Tables.Decls(root, ctes)[x.alias].decl).role.AsAlias?
    requires y.OfAlias? ==> DeclSlot(root, Tables.Decls(root, ctes)[y.alias].decl).role.AsAlias?
    ensures x == y
  {
    hide Tables.Decls, Ctes.Expected, DeclSlot;
    var a := QueryPlace(root, ctes, x).value;
    match x {
      case OfCte(c) =>
        assert y.OfCte?;
        assert CtePlace(root, c).value == a[..|a| - 1] && CtePlace(root, y.cte).value == a[..|a| - 1];
        CteDeclared(root, c);
      case OfAlias(c) =>
        assert y.OfAlias?;
        var d, e := Tables.Decls(root, ctes)[c].decl, Tables.Decls(root, ctes)[y.alias].decl;
        assert DeclSlot(root, d).at == a[..|a| - 1] && DeclSlot(root, e).at == a[..|a| - 1];
        Tables.DeclarationIsSibling(root, ctes, c);
        Tables.DeclarationIsSibling(root, ctes, y.alias);
        DeclSlotsApart(root, ctes, d, e);
        Tables.DeclsInOrder(root, ctes);
    }
  }

  /** The place of an item. */
  ghost function ItemPlace(statements: seq<Node>, x: Indexes, q: Columns.Place): Address {
    var root := Ctes.Document(statements);
    var place := QueryPlace(root, x.ctes.sites, q.owner);
    if place.Some? && NodeAt(root, place.value).Some? && q.column < |ItemColumns(Kids(NodeAt(root, place.value).value))|
    then place.value + [ItemKid(Kids(NodeAt(root, place.value).value), q.column)]
    else []
  }

  ghost predicate ItemStandsAt(root: Node, column: Column, a: Address) {
    && NodeAt(root, a).Some?
    && NodeAt(root, a).value.kind == Item(Some(Ident(column.name, column.declarationRange)), column.explicit)
    && a != [] && IsSelect(root, a[..|a| - 1])
  }

  lemma ItemStands(statements: seq<Node>, x: Indexes, q: Columns.Place)
    requires Ctes.IsIndexOf(x.ctes, statements) && Tables.IsIndexOf(x.tables, Ctes.Document(statements), x.ctes.sites)
    requires Rename.ItemAt(SourcesOf(Ctes.Document(statements), x), q).Some?
    ensures var root := Ctes.Document(statements);
            ItemStandsAt(root, Rename.ItemAt(SourcesOf(root, x), q).value, ItemPlace(statements, x, q))
    ensures QueryPlace(Ctes.Document(statements), x.ctes.sites, q.owner).Some?
    ensures var place := QueryPlace(Ctes.Document(statements), x.ctes.sites, q.owner).value;
            var a := ItemPlace(statements, x, q);
            && place == a[..|a| - 1] && NodeAt(Ctes.Document(statements), place).Some?
            && q.column < |ItemColumns(Kids(NodeAt(Ctes.Document(statements), place).value))|
            && a == place + [ItemKid(Kids(NodeAt(Ctes.Document(statements), place).value), q.column)]
  {
    var root := Ctes.Document(statements);
    OwnerList(statements, x, q.owner);
    var place := QueryPlace(root, x.ctes.sites, q.owner).value;
    var kids := Kids(NodeAt(root, place).value);
    hide QueryPlace, SourcesOf, Ctes.IsIndexOf, Tables.IsIndexOf, HoldsOwner, ItemKid, ItemColumns;
    ItemKidIs(kids, q.column);
    NodeAtChild(root, place, ItemKid(kids, q.column));
    var a := place + [ItemKid(kids, q.column)];
    assert a[..|a| - 1] == place;
    OneItem(kids[ItemKid(kids, q.column)], Rename.ItemAt(SourcesOf(root, x), q));
  }

  lemma OneItem(n: Node, column: Option<Column>)
    requires ItemColumn(n) == [column] && column.Some?
    ensures n.kind == Item(Some(Ident(column.value.name, column.value.declarationRange)), column.value.explicit)
  {}

  /** Different columns stand at different places. */
  lemma ItemPlacesApart(statements: seq<Node>, x: Indexes, q: Columns.Place, r: Columns.Place)
    requires Ctes.IsIndexOf(x.ctes, statements) && Tables.IsIndexOf(x.tables, Ctes.Document(statements), x.ctes.sites)
    requires var s := SourcesOf(Ctes.Document(statements), x);
             Rename.ItemAt(s, q).Some? && Rename.ItemAt(s, r).Some?
    requires ItemPlace(statements, x, q) == ItemPlace(statements, x, r)
    ensures q == r
  {
    var root := Ctes.Document(statements);
    ItemStands(statements, x, q);
    ItemStands(statements, x, r);
    OwnerList(statements, x, q.owner);
    OwnerList(statements, x, r.owner);
    OwnerSlot(statements, x, q.owner);
    OwnerSlot(statements, x, r.owner);
    hide ItemPlace, QueryPlace, SourcesOf, Ctes.IsIndexOf, Tables.IsIndexOf, HoldsOwner, ItemKid, ItemColumns, DeclSlot,
      ItemStandsAt,
      Tables.Decls;
    QueriesApart(root, x.ctes.sites, q.owner, r.owner);
    var kids := Kids(NodeAt(root, QueryPlace(root, x.ctes.sites, q.owner).value).value);
    if q.column < r.column { ItemKidsApart(kids, q.column, r.column); }
    if r.column < q.column { ItemKidsApart(kids, r.column, q.column); }
  }

  lemma OwnerSlot(statements: seq<Node>, x: Indexes, owner: Columns.Owner)
    requires Ctes.IsIndexOf(x.ctes, statements) && Tables.IsIndexOf(x.tables, Ctes.Document(statements), x.ctes.sites)
    requires Rename.ItemsOf(SourcesOf(Ctes.Document(statements), x), owner).Some?
    ensures owner.OfAlias? ==>
              var decls := Tables.Decls(Ctes.Document(statements), x.ctes.sites);
              owner.alias < |decls| && DeclSlot(Ctes.Document(statements), decls[owner.alias].decl).role.AsAlias?
  {
    if owner.OfAlias? {
      var root := Ctes.Document(statements);
      Binders.IndexDecls(x.tables, root, x.ctes.sites);
      AliasListStands(root, x.ctes.sites, x.tables.bindings[owner.alias], owner.alias);
    }
  }
}
