/** Renaming a SELECT alias of a document: the edits, the joint index extracted again
    from the edited tree, and exactly when the two indexes say the same. */
module SelectAliasDocument {
  import opened Coordinates
  import opened Syntax
  import opened Editing
  import opened Texts
  import opened SelectAliases
  import opened SelectWalk
  import opened SelectIndexes
  import opened SelectAliasRename
  import opened TextNames
  import Ctes = CteBindings
  import Tables = AliasBindings
  import Rename = AliasRename
  import Reindex = AliasReindex

  // ----- Where the names of a SELECT stand -----

  /** The places of the items that have a name. */
  function ItemPlaces(kids: seq<Node>, here: Address): seq<Address> {
    if kids == [] then []
    else
      var last := |kids| - 1;
      ItemPlaces(kids[..last], here) + if ItemAlias(kids[last]) != [] then [here + [last]] else []
  }

  ghost predicate ItemsStand(root: Node, here: Address, m: nat, aliases: seq<Alias>, places: seq<Address>) {
    && |places| == |aliases|
    && (forall i :: 0 <= i < |places| ==> ItemStands(root, here, m, aliases[i], places[i]))
    && Distinct(places)
  }

  ghost predicate ItemStands(root: Node, here: Address, m: nat, alias: Alias, a: Address) {
    && |a| == |here| + 1 && here < a && a[|here|] < m
    && NodeAt(root, a).Some? && NodeAt(root, a).value.kind == Item(Some(alias.ident), alias.explicit)
  }

  lemma {:induction false} ItemsAreStanding(root: Node, n: Node, here: Address, m: nat)
    requires NodeAt(root, here) == Some(n) && m <= |Kids(n)|
    ensures ItemsStand(root, here, m, Aliases(Kids(n)[..m]), ItemPlaces(Kids(n)[..m], here))
  {
    if m > 0 {
      var kids := Kids(n)[..m];
      assert kids[..m - 1] == Kids(n)[..m - 1];
      ItemsAreStanding(root, n, here, m - 1);
      NodeAtChild(root, here, m - 1);
      var aliases, places := Aliases(kids[..m - 1]), ItemPlaces(kids[..m - 1], here);
      forall i | 0 <= i < |places|
        ensures ItemStands(root, here, m, aliases[i], places[i]) && places[i] != here + [m - 1]
      {
        assert ItemStands(root, here, m - 1, aliases[i], places[i]);
      }
      if ItemAlias(kids[m - 1]) != [] {
        assert ItemStands(root, here, m, ItemAlias(kids[m - 1])[0], here + [m - 1]);
        DistinctAppend(places, [here + [m - 1]]);
      }
    }
  }

  ghost function ItemsAt(root: Node, e: Indexed): seq<Address> {
    if NodeAt(root, e.select).Some? then ItemPlaces(Kids(NodeAt(root, e.select).value), e.select) else []
  }

  lemma ItemsOfEntry(root: Node, e: Indexed)
    requires IsEntry(root, e)
    ensures |ItemsAt(root, e)| == |AliasesAt(root, e)| && Distinct(ItemsAt(root, e))
    ensures forall i :: 0 <= i < |ItemsAt(root, e)| ==>
              AliasStands(root, e, AliasesAt(root, e)[i], ItemsAt(root, e)[i])
  {
    var n := NodeAt(root, e.select).value;
    var m := |Kids(n)|;
    assert Kids(n)[..m] == Kids(n);
    ItemsAreStanding(root, n, e.select, m);
    hide Aliases, ItemPlaces;
    forall i | 0 <= i < |ItemsAt(root, e)| ensures AliasStands(root, e, AliasesAt(root, e)[i], ItemsAt(root, e)[i]) {
      assert ItemStands(root, e.select, m, AliasesAt(root, e)[i], ItemsAt(root, e)[i]);
    }
  }

  /** The alias is that of the item at `a`, a child of the SELECT. */
  ghost predicate AliasStands(root: Node, e: Indexed, alias: Alias, a: Address) {
    && |a| == |e.select| + 1 && e.select < a
    && NodeAt(root, a).Some? && NodeAt(root, a).value.kind == Item(Some(alias.ident), alias.explicit)
  }

  /** The place of the name a use is recorded by. */
  function HeadSlot(use: Use, a: Address): Slot {
    Slot(a, if use.Bare? then Single else Part(0))
  }

  lemma HeadStands(root: Node, use: Use, a: Address)
    requires IsUse(root, use, a)
    ensures IdentAt(root, HeadSlot(use, a)) == Head(use)
  {}

  /** A place in a clause of some SELECT is not in the expression of an item. */
  lemma ItemNotAround(root: Node, e: Indexed, f: Indexed, it: Address, a: Address, alias: Alias)
    requires IsEntry(root, e) && IsEntry(root, f) && AliasStands(root, e, alias, it)
    requires a in PlacesAt(root, f)
    ensures !NoQuery(root, it, a)
  {
    UsesOfEntry(root, f);
    hide PlacesAt, UsesAt, ClausePlaces, BodyOf, InClause, NoQuery;
    var c :| c in ClausePlaces(root, f) && InClause(root, c, a);
    assert it[..|it| - 1] == e.select;
    ItemNotAbove(root, it, c, a);
  }

  lemma ItemNotAbove(root: Node, it: Address, c: Address, a: Address)
    requires InClause(root, c, a) && it != [] && IsSelect(root, it[..|it| - 1])
    requires NodeAt(root, it).Some? && NodeAt(root, it).value.kind.Item?
    ensures !NoQuery(root, it, a)
  {
    hide IsQuery, IsSelect;
    var owner, select := c[..|c| - 1], it[..|it| - 1];
    assert c <= a && owner <= a;
    if it <= a {
      assert select <= a;
      assert it == c || (it < c && it <= owner) || (c < it && c <= select) by { Comparable(it, c, a); }
      assert IsSelect(root, select) && (IsQuery(root, owner) || IsSelect(root, owner));
      NotTheClause(root, it, c);
    }
  }

  lemma Comparable(x: Address, y: Address, a: Address)
    requires x <= a && y <= a && x != [] && y != []
    ensures x == y || (x < y && x <= y[..|y| - 1]) || (y < x && y <= x[..|x| - 1])
  {
    assert x <= y || y <= x;
  }

  lemma NotTheClause(root: Node, it: Address, c: Address)
    requires NodeAt(root, it).Some? && NodeAt(root, it).value.kind.Item? && IsClause(root, c)
    ensures it != c
  {}

  /** Items and heads: no two of them are one identifier. */
  lemma ItemIsNoHead(root: Node, e: Indexed, f: Indexed, i: nat, k: nat)
    requires IsEntry(root, e) && IsEntry(root, f)
    requires i < |ItemsAt(root, e)| && k < |PlacesAt(root, f)|
    ensures k < |UsesAt(root, f)|
    ensures !SameName(root, Slot(ItemsAt(root, e)[i], Result), HeadSlot(UsesAt(root, f)[k], PlacesAt(root, f)[k]))
    ensures !SameName(root, HeadSlot(UsesAt(root, f)[k], PlacesAt(root, f)[k]), Slot(ItemsAt(root, e)[i], Result))
  {
    ItemsOfEntry(root, e);
    UsesOfEntry(root, f);
    hide ItemsAt, PlacesAt, UsesAt, AliasesAt;
    ItemNotAround(root, e, f, ItemsAt(root, e)[i], PlacesAt(root, f)[k], AliasesAt(root, e)[i]);
  }

  lemma ItemsApart(root: Node, s: Slot, t: Slot)
    requires SameName(root, s, t) && !InExpression(s) && !InExpression(t)
    ensures s == t
  {}

  lemma HeadsApart(root: Node, s: Slot, t: Slot)
    requires SameName(root, s, t) && InExpression(s) && InExpression(t)
    ensures s == t
  {}

  // ----- Names apart -----

  /** A single name is no path. */
  ghost predicate LongPaths(uses: seq<Use>) {
    forall k :: 0 <= k < |uses| && uses[k].Headed? ==> |uses[k].idents| >= 2
  }

  lemma RangesStart(use: Use, r: Range)
    requires r in RangesOf(use)
    ensures Head(use).Some? && r.start == Head(use).value.range.start
  {}

  lemma EntryRangesApart(root: Node, e: Indexed)
    requires OneText(root) && IsEntry(root, e) && LongPaths(UsesAt(root, e))
    ensures DistinctRanges(AliasesAt(root, e), UsesAt(root, e))
  {
    var aliases, uses, items, places := AliasesAt(root, e), UsesAt(root, e), ItemsAt(root, e), PlacesAt(root, e);
    ItemsOfEntry(root, e);
    UsesOfEntry(root, e);
    hide AliasesAt, UsesAt, ItemsAt, PlacesAt, ClausePlaces, OneText, IdentAt, IsEntry, RangesOf, SameName;
    forall i: nat | i < |aliases| ensures IdentAt(root, Slot(items[i], Result)) == Some(aliases[i].ident) {
      ItemIdent(root, e, aliases[i], items[i]);
    }
    forall k: nat | k < |uses| ensures IdentAt(root, HeadSlot(uses[k], places[k])) == Head(uses[k]) {
      HeadStands(root, uses[k], places[k]);
    }
    forall i: nat, j: nat | i < j < |aliases| ensures aliases[i].ident.range != aliases[j].ident.range {
      if aliases[i].ident.range == aliases[j].ident.range {
        SameRange(root, Slot(items[i], Result), Slot(items[j], Result));
        ItemsApart(root, Slot(items[i], Result), Slot(items[j], Result));
      }
    }
    forall i: nat, k: nat | i < |aliases| && k < |uses| ensures aliases[i].ident.range !in RangesOf(uses[k]) {
      if aliases[i].ident.range in RangesOf(uses[k]) {
        RangesStart(uses[k], aliases[i].ident.range);
        ItemIsNoHead(root, e, e, i, k);
        SameRange(root, Slot(items[i], Result), HeadSlot(uses[k], places[k]));
      }
    }
    forall k: nat, l: nat, r | k < l < |uses| && r in RangesOf(uses[k]) && r in RangesOf(uses[l]) ensures false {
      RangesStart(uses[k], r);
      RangesStart(uses[l], r);
      SameRange(root, HeadSlot(uses[k], places[k]), HeadSlot(uses[l], places[l]));
      HeadsApart(root, HeadSlot(uses[k], places[k]), HeadSlot(uses[l], places[l]));
    }
    forall k: nat | k < |uses| && uses[k].Headed? ensures PathRange(uses[k].idents) != uses[k].idents[0].range {
      PathIsLonger(root, places[k], uses[k].idents);
    }
  }

  lemma ItemIdent(root: Node, e: Indexed, alias: Alias, a: Address)
    requires AliasStands(root, e, alias, a)
    ensures IdentAt(root, Slot(a, Result)) == Some(alias.ident)
  {}

  /** Each path of a clause is alone at its place. */
  lemma UseIsAlone(root: Node, ctes: seq<Ctes.CteSite>, e: Indexed, k: nat)
    requires OneText(root) && IsEntry(root, e) && LongPaths(UsesAt(root, e)) && k < |UsesAt(root, e)|
    ensures k < |PlacesAt(root, e)| && Alone(root, ctes, UsesAt(root, e)[k], PlacesAt(root, e)[k])
  {
    UsesOfEntry(root, e);
    var use, a := UsesAt(root, e)[k], PlacesAt(root, e)[k];
    assert a in PlacesAt(root, e);
    var c :| c in ClausePlaces(root, e) && InClause(root, c, a);
    hide UsesAt, PlacesAt, ClausePlaces, DeclaredName, IsEntry;
    if use.Headed? { PathIsAlone(root, ctes, c, use, a); }
  }

  lemma PathIsAlone(root: Node, ctes: seq<Ctes.CteSite>, c: Address, use: Use, a: Address)
    requires OneText(root) && InClause(root, c, a) && IsUse(root, use, a) && use.Headed? && |use.idents| >= 2
    ensures Alone(root, ctes, use, a)
  {
    ClausePathIsNoSource(root, c, a, use.idents);
    PathQualifier(root, a, use.idents);
    HeadStands(root, use, a);
    var head, s := use.idents[0], HeadSlot(use, a);
    hide Tables.Qualifier, DeclaredName, InClause, IdentAt, PathRange, SameName;
    assert OneText(root) && Head(use) == Some(head);
    OwnStart(head.range);
    forall p, j: nat, name | DeclaredName(root, ctes, p, j, name)
      ensures !RangeIncludesPosition(name.range, head.range.start)
    {
      DeclaredStands(root, ctes, p, j, name);
      var t: Slot :| (t.role.AsAlias? || t.role.Offset?) && IdentAt(root, t) == Some(name);
      DifferentRoles(root, t, s);
    }
    forall b | Tables.Qualifier(root, b).Some? &&
        RangeIncludesPosition(Tables.Qualifier(root, b).value.range, head.range.start)
      ensures b == a
    {
      QualifierStands(root, b);
      DifferentRoles(root, Slot(b, Star), s);
      PartsApart(root, Slot(b, Part(0)), s);
    }
  }

  lemma PathQualifier(root: Node, a: Address, idents: seq<Ident>)
    requires NodeAt(root, a).Some? && NodeAt(root, a).value.kind == Path(idents) && |idents| >= 2
    requires PathRange(idents) !in Tables.SourcesAround(root, a)
    ensures Tables.Qualifier(root, a) == Some(idents[0])
  {
    hide Tables.SourcesAround;
  }

  /** A name outside expressions and SELECT lists is no name in an expression. */
  lemma DifferentRoles(root: Node, t: Slot, s: Slot)
    requires InExpression(s) && !InExpression(t) && !t.role.Result?
    ensures !SameName(root, t, s) && !SameName(root, s, t)
  {}

  lemma PartsApart(root: Node, t: Slot, s: Slot)
    requires InExpression(s) && InExpression(t)
    ensures SameName(root, t, s) ==> t == s
  {}

  /** The names that the alias rename of one SELECT is about stand apart. */
  lemma EntryNamesApart(root: Node, ctes: seq<Ctes.CteSite>, e: Indexed)
    requires OneText(root) && IsEntry(root, e) && LongPaths(UsesAt(root, e))
    ensures NamesApart(root, ctes, AliasesAt(root, e), UsesAt(root, e), PlacesAt(root, e))
  {
    var aliases, uses, items, places := AliasesAt(root, e), UsesAt(root, e), ItemsAt(root, e), PlacesAt(root, e);
    EntryRangesApart(root, e);
    ItemsOfEntry(root, e);
    UsesOfEntry(root, e);
    forall k: nat | k < |uses| ensures Alone(root, ctes, uses[k], places[k]) { UseIsAlone(root, ctes, e, k); }
    hide AliasesAt, UsesAt, ItemsAt, PlacesAt, ClausePlaces, OneText, IdentAt, IsEntry, DistinctRanges, DeclaredName,
      SameName,
      Alone;
    forall p, j: nat, name | DeclaredName(root, ctes, p, j, name)
      ensures forall m :: 0 <= m < |aliases| ==> name.range != aliases[m].ident.range
      ensures forall k :: 0 <= k < |uses| && Head(uses[k]).Some? ==> name.range != Head(uses[k]).value.range
    {
      DeclaredStands(root, ctes, p, j, name);
      var t: Slot :| (t.role.AsAlias? || t.role.Offset?) && IdentAt(root, t) == Some(name);
      forall m: nat | m < |aliases| ensures name.range != aliases[m].ident.range {
        ItemIdent(root, e, aliases[m], items[m]);
        NotTheItem(root, t, Slot(items[m], Result));
      }
      forall k: nat | k < |uses| && Head(uses[k]).Some? ensures name.range != Head(uses[k]).value.range {
        HeadStands(root, uses[k], places[k]);
        DifferentRoles(root, t, HeadSlot(uses[k], places[k]));
        NotTheHead(root, t, HeadSlot(uses[k], places[k]));
      }
    }
  }

  lemma NotTheItem(root: Node, t: Slot, s: Slot)
    requires OneText(root) && s.role.Result? && (t.role.AsAlias? || t.role.Offset?)
    requires IdentAt(root, s).Some? && IdentAt(root, t).Some?
    ensures IdentAt(root, s).value.range != IdentAt(root, t).value.range
  {
    if IdentAt(root, s).value.range == IdentAt(root, t).value.range {
      SameRange(root, s, t);
      ItemsApart(root, s, t);
    }
  }

  lemma NotTheHead(root: Node, t: Slot, s: Slot)
    requires OneText(root) && !SameName(root, s, t)
    requires IdentAt(root, s).Some? && IdentAt(root, t).Some?
    ensures IdentAt(root, s).value.range != IdentAt(root, t).value.range
  {
    if IdentAt(root, s).value.range == IdentAt(root, t).value.range { SameRange(root, s, t); }
  }
}
