/** Where the names that the alias binder looks at stand, and what follows from each
    standing in a place of its own. */
module TextNames {
  import opened Coordinates
  import opened Syntax
  import opened Editing
  import opened Texts
  import opened SelectAliases
  import opened SelectWalk
  import opened SelectIndexes
  import opened SelectAliasRename
  import Ctes = CteBindings
  import Tables = AliasBindings

  // ----- Aliases of FROM clauses -----

  /** The identifier names an alias or an offset in a FROM clause. */
  ghost predicate InFrom(root: Node, name: Ident) {
    exists s: Slot :: (s.role.AsAlias? || s.role.Offset?) && IdentAt(root, s) == Some(name)
  }

  lemma {:induction false} FromAliasStands(root: Node, table: Node, here: Address, ctes: seq<Ctes.CteSite>,
                                           alias: Tables.Alias)
    requires NodeAt(root, here) == Some(table) && alias in Tables.FromAliases(table, ctes)
    ensures InFrom(root, alias.name)
  {
    assert table.kind.ParenTable? || table.kind.Join? ||
      IdentAt(root, Slot(here, AsAlias)) == Some(alias.name) || IdentAt(root, Slot(here, Offset)) == Some(alias.name);
    if table.kind.ParenTable? {
      NodeAtChild(root, here, 0);
      FromAliasStands(root, Kids(table)[0], here + [0], ctes, alias);
    } else if table.kind.Join? {
      NodeAtChild(root, here, 0);
      NodeAtChild(root, here, 1);
      if |Kids(table)| > 0 && alias in Tables.FromAliases(Kids(table)[0], ctes) {
        FromAliasStands(root, Kids(table)[0], here + [0], ctes, alias);
      } else {
        FromAliasStands(root, Kids(table)[1], here + [1], ctes, alias);
      }
    }
  }

  lemma DeclaredStands(root: Node, ctes: seq<Ctes.CteSite>, p: Address, j: nat, name: Ident)
    requires DeclaredName(root, ctes, p, j, name)
    ensures InFrom(root, name)
  {
    var n := NodeAt(root, p).value;
    var alias := Tables.Siblings(root, ctes, Tables.AliasDecl(p, j))[j];
    NodeAtChild(root, p, n.kind.source);
    FromAliasStands(root, Kids(n)[n.kind.source], p + [n.kind.source], ctes, alias);
  }

  // ----- Qualifiers -----

  /** A qualifier is the first name of a path or the name of a star. */
  lemma QualifierStands(root: Node, b: Address)
    requires Tables.Qualifier(root, b).Some?
    ensures IdentAt(root, Slot(b, Part(0))) == Tables.Qualifier(root, b) ||
            IdentAt(root, Slot(b, Star)) == Tables.Qualifier(root, b)
  {
    hide Tables.SourcesAround;
  }

  // ----- Sources -----

  predicate IsTableKind(n: Node) {
    n.kind.PathTable? || n.kind.ParenTable? || n.kind.Join?
  }

  /** The path of a FROM source lies below nothing but tables. */
  ghost predicate SourceStands(root: Node, s: Address, b: Address, r: Range) {
    && s < b && NodeAt(root, b).Some? && NodeAt(root, b).value.kind.Path?
    && PathRange(NodeAt(root, b).value.kind.idents) == r
    && forall c :: s <= c < b ==> NodeAt(root, c).Some? && IsTableKind(NodeAt(root, c).value)
  }

  lemma SourceBelow(root: Node, here: Address, k: nat, b: Address, r: Range)
    requires SourceStands(root, here + [k], b, r) && NodeAt(root, here).Some? && IsTableKind(NodeAt(root, here).value)
    ensures SourceStands(root, here, b, r)
  {
    forall c | here <= c < b ensures NodeAt(root, c).Some? && IsTableKind(NodeAt(root, c).value) {
      if c != here { assert here + [k] <= c; }
    }
  }

  lemma {:induction false} SourceRangeStands(root: Node, table: Node, here: Address, r: Range) returns (b: Address)
    requires NodeAt(root, here) == Some(table) && r in Tables.SourceRanges(table) && r != PathRange([])
    ensures SourceStands(root, here, b, r)
  {
    b := here + [0];
    NodeAtChild(root, here, 0);
    match table.kind
    case PathTable(_, _) =>
      forall c | here <= c < b ensures NodeAt(root, c).Some? && IsTableKind(NodeAt(root, c).value) { assert c == here; }
    case ParenTable =>
      b := SourceRangeStands(root, Kids(table)[0], here + [0], r);
      SourceBelow(root, here, 0, b, r);
    case Join =>
      if |Kids(table)| > 0 && r in Tables.SourceRanges(Kids(table)[0]) {
        b := SourceRangeStands(root, Kids(table)[0], here + [0], r);
        SourceBelow(root, here, 0, b, r);
      } else {
        NodeAtChild(root, here, 1);
        b := SourceRangeStands(root, Kids(table)[1], here + [1], r);
        SourceBelow(root, here, 1, b, r);
      }
  }

  /** The sources around a place are those of the nearest SELECT. */
  ghost predicate NearestSelect(root: Node, p: Address, a: Address) {
    p < a && IsSelect(root, p) && forall c :: p < c < a ==> !IsSelect(root, c)
  }

  lemma {:induction false} SourcesOfNearest(root: Node, a: Address, r: Range) returns (p: Address)
    requires r in Tables.SourcesAround(root, a)
    ensures NearestSelect(root, p, a) && r in Tables.SelectSourceRanges(NodeAt(root, p).value)
    decreases |a|
  {
    var q := a[..|a| - 1];
    if IsSelect(root, q) {
      p := q;
    } else {
      p := SourcesOfNearest(root, q, r);
      forall c | p < c < a ensures !IsSelect(root, c) { if c != q { assert p < c < q; } }
    }
  }

  /** No path in a clause is a FROM source. */
  lemma ClausePathIsNoSource(root: Node, c: Address, a: Address, idents: seq<Ident>)
    requires OneText(root) && InClause(root, c, a) && NodeAt(root, a).Some? &&
             NodeAt(root, a).value.kind == Path(idents) && idents != []
    ensures PathRange(idents) !in Tables.SourcesAround(root, a)
  {
    var r := PathRange(idents);
    if r in Tables.SourcesAround(root, a) {
      var p := SourcesOfNearest(root, a, r);
      var n := NodeAt(root, p).value;
      var s := p + [n.kind.source];
      PathIsNonEmpty(root, a, idents);
      NodeAtChild(root, p, n.kind.source);
      var b := SourceRangeStands(root, Kids(n)[n.kind.source], s, r);
      SamePath(root, a, b, idents);
      NotBoth(root, c, a, p, s, r);
      assert false;
    }
  }

  lemma PathIsNonEmpty(root: Node, a: Address, idents: seq<Ident>)
    requires OneText(root) && NodeAt(root, a).Some? && NodeAt(root, a).value.kind == Path(idents) && idents != []
    ensures PathRange(idents) != PathRange([])
  {
    var last := |idents| - 1;
    assert IdentAt(root, Slot(a, Part(last))) == Some(idents[last]);
    assert Before(idents[last].range.start, idents[last].range.end);
  }

  lemma SamePath(root: Node, a: Address, b: Address, idents: seq<Ident>)
    requires OneText(root) && NodeAt(root, a).Some? && NodeAt(root, a).value.kind == Path(idents) && idents != []
    requires NodeAt(root, b).Some? && NodeAt(root, b).value.kind.Path?
    requires PathRange(NodeAt(root, b).value.kind.idents) == PathRange(idents)
    ensures a == b
  {
    PathIsNonEmpty(root, a, idents);
    var s, t := Slot(a, Part(0)), Slot(b, Part(0));
    assert IdentAt(root, s) == Some(idents[0]) && IdentAt(root, t) == Some(NodeAt(root, b).value.kind.idents[0]);
    SameRange(root, s, t);
  }

  /** A place below a clause is not reached from a FROM source by tables alone. */
  lemma NotBoth(root: Node, c: Address, a: Address, p: Address, s: Address, r: Range)
    requires InClause(root, c, a) && NearestSelect(root, p, a) && |s| == |p| + 1 && p < s
    ensures !SourceStands(root, s, a, r)
  {
    var owner := c[..|c| - 1];
    assert c <= p || p < c;
    assert p < c;
    assert p <= owner < a;
    assert owner != p && s <= a ==> s <= owner;
  }
}
