/** Renaming a table alias: the conflict test over the recorded scopes, the
    edits, and exactly when re-indexing the edited tree finds the same
    declarations. */
module AliasRename {
  import opened Coordinates
  import opened Syntax
  import opened Editing
  import opened AliasBindings
  import Ctes = CteBindings

  // ----- The conflict test -----

  /** Some scope in which the binding is visible binds the new name to another one. */
  ghost predicate Conflict(scope: AliasScope, b: nat, newName: string) {
    && (exists key :: key in scope.bindings && scope.bindings[key] == Some(b))
    && Fold(newName) in scope.bindings && scope.bindings[Fold(newName)].Some? &&
         scope.bindings[Fold(newName)] != Some(b)
  }

  /** Whether a scope map binds some name to b: its entries in any order. */
  method BindsTo(scope: Scope, b: nat) returns (visible: bool)
    ensures visible <==> exists key :: key in scope && scope[key] == Some(b)
  {
    var keys := scope.Keys;
    visible := false;
    while keys != {} && !visible
      invariant keys <= scope.Keys
      invariant visible ==> exists key :: key in scope && scope[key] == Some(b)
      invariant !visible ==> forall key :: key in scope && key !in keys ==> scope[key] != Some(b)
      decreases keys, !visible
    {
      var key :| key in keys;
      keys := keys - {key};
      visible := scope[key] == Some(b);
    }
  }

  method RenameConflicts(index: AliasIndex, b: nat, newName: string) returns (conflict: bool)
    ensures conflict <==> exists i :: 0 <= i < |index.scopes| && Conflict(index.scopes[i], b, newName)
  {
    var newKey := Fold(newName);
    for i := 0 to |index.scopes|
      invariant forall j :: 0 <= j < i ==> !Conflict(index.scopes[j], b, newName)
    {
      var scope := index.scopes[i].bindings;
      var visible := BindsTo(scope, b);
      if visible && newKey in scope && scope[newKey].Some? && scope[newKey] != Some(b) {
        return true;
      }
    }
    return false;
  }

  /** The same test in terms of the lexical rule. */
  ghost predicate Collides(root: Node, ctes: seq<Ctes.CteSite>, p: Address, d: AliasDecl, key: string, newKey: string) {
    && NodeAt(root, p).Some? && NodeAt(root, p).value.kind.Select?
    && Inside(root, p, key, ctes) == Bound(d)
    && Inside(root, p, newKey, ctes).Bound? && Inside(root, p, newKey, ctes) != Bound(d)
  }

  lemma ConflictIsCollision(index: AliasIndex, root: Node, ctes: seq<Ctes.CteSite>, b: nat, newName: string, p: Address,
                            key: string)
    requires Represents(index, root, ctes, Expected(root, ctes)) && b < |index.bindings| && b < |Decls(root, ctes)|
    requires Collides(root, ctes, p, Decls(root, ctes)[b].decl, key, Fold(newName))
    ensures exists i :: 0 <= i < |index.scopes| && Conflict(index.scopes[i], b, newName)
  {
    var decls := Decls(root, ctes);
    var log := Expected(root, ctes);
    var e := Opened(p, NodeAt(root, p).value.kind.range);
    RecordIsLexical(root, ctes, e);
    KeepMembers(log, Scopes, e);
    var i :| 0 <= i < |Keep(log, Scopes)| && Keep(log, Scopes)[i] == e;
    assert ScopeIs(index.scopes[i], root, ctes, decls, e);
    var scope := index.scopes[i].bindings;
    assert Meaning(scope, key, decls) == Bound(decls[b].decl);
    assert Meaning(scope, Fold(newName), decls) == Inside(root, p, Fold(newName), ctes);
    DeclarationsOf(root, ctes);
    assert key in scope && scope[key] == Some(b);
    assert Conflict(index.scopes[i], b, newName);
  }

  lemma CollisionIsConflict(index: AliasIndex, root: Node, ctes: seq<Ctes.CteSite>, b: nat, newName: string, i: nat)
    returns (p: Address, key: string)
    requires Represents(index, root, ctes, Expected(root, ctes)) && b < |index.bindings| && b < |Decls(root, ctes)|
    requires i < |index.scopes| && Conflict(index.scopes[i], b, newName)
    ensures Collides(root, ctes, p, Decls(root, ctes)[b].decl, key, Fold(newName))
  {
    var decls := Decls(root, ctes);
    var log := Expected(root, ctes);
    var e := Keep(log, Scopes)[i];
    assert ScopeIs(index.scopes[i], root, ctes, decls, e) && e in Keep(log, Scopes);
    KeepMembers(log, Scopes, e);
    RecordIsLexical(root, ctes, e);
    var scope := index.scopes[i].bindings;
    key :| key in scope && scope[key] == Some(b);
    p := e.at;
    assert Meaning(scope, key, decls) == Inside(root, p, key, ctes);
    assert Meaning(scope, Fold(newName), decls) == Inside(root, p, Fold(newName), ctes);
    DeclarationsOf(root, ctes);
  }

  // ----- The edited tree -----

  lemma EditPathRange(table: Node, edits: set<Range>, newName: string)
    ensures PathRange(SourcePath(Edit(table, edits, newName))) == PathRange(SourcePath(table))
  {
    EditKids(table, edits, newName);
  }

  lemma {:induction false} EditSourceRanges(table: Node, edits: set<Range>, newName: string)
    ensures SourceRanges(Edit(table, edits, newName)) == SourceRanges(table)
  {
    EditKids(table, edits, newName);
    match table.kind
    case PathTable(_, _) => EditPathRange(table, edits, newName);
    case ParenTable => if Kids(table) != [] { EditSourceRanges(Kids(table)[0], edits, newName); }
    case Join =>
      if |Kids(table)| > 0 { EditSourceRanges(Kids(table)[0], edits, newName); }
      if |Kids(table)| > 1 { EditSourceRanges(Kids(table)[1], edits, newName); }
    case _ =>
  }

  lemma {:induction false} EditSourcesAround(root: Node, a: Address, edits: set<Range>, newName: string)
    ensures SourcesAround(Edit(root, edits, newName), a) == SourcesAround(root, a)
    decreases |a|
  {
    if a != [] {
      var p := a[..|a| - 1];
      EditNodeAt(root, p, edits, newName);
      EditSourcesAround(root, p, edits, newName);
      if NodeAt(root, p).Some? {
        var n := NodeAt(root, p).value;
        EditKids(n, edits, newName);
        if n.kind.Select? && n.kind.source < |Kids(n)| {
          EditSourceRanges(Kids(n)[n.kind.source], edits, newName);
        }
      }
    }
  }

  lemma EditQualifier(root: Node, a: Address, edits: set<Range>, newName: string)
    ensures Qualifier(Edit(root, edits, newName), a) == EditOptional(Qualifier(root, a), edits, newName)
  {
    hide NodeAt, SourcesAround, Edit;
    EditNodeAt(root, a, edits, newName);
    EditSourcesAround(root, a, edits, newName);
    if NodeAt(root, a).Some? { EditQualifierOf(NodeAt(root, a).value, SourcesAround(root, a), edits, newName); }
  }

  lemma EditQualifierOf(n: Node, sources: set<Range>, edits: set<Range>, newName: string)
    ensures QualifierOf(Edit(n, edits, newName), sources) == EditOptional(QualifierOf(n, sources), edits, newName)
  {
    assert Edit(n, edits, newName).kind == EditKind(n.kind, edits, newName);
    hide Edit;
  }

  /** Editing renames aliases in place; what they stand for is looked up anew. */
  ghost predicate Renamed(before: seq<Alias>, after: seq<Alias>, edits: set<Range>, newName: string) {
    && |after| == |before|
    && forall i :: 0 <= i < |before| ==> after[i].name == EditIdent(before[i].name, edits, newName)
  }

  lemma FromByKind(table: Node, ctes: seq<Ctes.CteSite>)
    ensures table.kind.TableName? ==>
              FromAliases(table, ctes) ==
              Optional(table.kind.alias, NamedSource(table.kind.table.name, table.kind.table.range, ctes))
    ensures table.kind.PathTable? ==>
              var path := SourcePath(table);
              FromAliases(table, ctes) ==
              Optional(table.kind.alias, NamedSource(Dotted(path), PathRange(path), ctes)) +
              Optional(table.kind.offset, NoSource)
    ensures table.kind.SubQueryTable? ==>
              FromAliases(table, ctes) ==
              Optional(table.kind.alias, if Kids(table) != [] then FromQuery(Kids(table)[0])
                  else NoSource)
    ensures table.kind.Unnest? ==>
              FromAliases(table, ctes) ==
              Optional(table.kind.alias, NoSource) + Optional(table.kind.offset, NoSource)
    ensures table.kind.ParenTable? ==>
              FromAliases(table, ctes) == if Kids(table) != [] then FromAliases(Kids(table)[0], ctes)
                else []
    ensures table.kind.Join? ==>
              FromAliases(table, ctes) ==
              (if |Kids(table)| > 0 then FromAliases(Kids(table)[0], ctes) else []) +
              (if |Kids(table)| > 1 then FromAliases(Kids(table)[1], ctes) else [])
    ensures !HasAliases(table.kind) ==> FromAliases(table, ctes) == []
  {
    hide NamedSource, SourcePath, Dotted, PathRange;
  }

  predicate HasAliases(kind: Kind) {
    kind.TableName? || kind.PathTable? || kind.SubQueryTable? || kind.Unnest? || kind.ParenTable? || kind.Join?
  }

  lemma RenamedOptional(name: Option<Ident>, x: Source, y: Source, edits: set<Range>, newName: string)
    ensures Renamed(Optional(name, x), Optional(EditOptional(name, edits, newName), y), edits, newName)
  {}

  lemma RenamedAppend(x: seq<Alias>, x': seq<Alias>, y: seq<Alias>, y': seq<Alias>, edits: set<Range>, newName: string)
    requires Renamed(x, x', edits, newName) && Renamed(y, y', edits, newName)
    ensures Renamed(x + y, x' + y', edits, newName)
  {
    hide EditIdent;
  }

  lemma NoneRenamed(edits: set<Range>, newName: string)
    ensures Renamed([], [], edits, newName)
  {}

  lemma {:induction false} EditFromAliases(table: Node, ctes: seq<Ctes.CteSite>, edits: set<Range>, newName: string)
    ensures Renamed(FromAliases(table, ctes), FromAliases(Edit(table, edits, newName), ctes), edits, newName)
  {
    var table' := Edit(table, edits, newName);
    assert table'.kind == EditKind(table.kind, edits, newName);
    EditKids(table, edits, newName);
    FromByKind(table, ctes);
    FromByKind(table', ctes);
    NoneRenamed(edits, newName);
    if table.kind.ParenTable? {
      if Kids(table) != [] { EditFromAliases(Kids(table)[0], ctes, edits, newName); }
      hide FromAliases, Edit, Renamed;
    } else if table.kind.Join? {
      if |Kids(table)| > 0 { EditFromAliases(Kids(table)[0], ctes, edits, newName); }
      if |Kids(table)| > 1 { EditFromAliases(Kids(table)[1], ctes, edits, newName); }
      hide FromAliases, Edit, Renamed;
      RenamedAppend(
        if |Kids(table)| > 0 then FromAliases(Kids(table)[0], ctes) else [],
        if |Kids(table)| > 0 then FromAliases(Kids(table')[0], ctes) else [],
        if |Kids(table)| > 1 then FromAliases(Kids(table)[1], ctes) else [],
        if |Kids(table)| > 1 then FromAliases(Kids(table')[1], ctes) else [], edits, newName);
    } else {
      EditOwnAliases(table, ctes, edits, newName);
    }
  }

  lemma EditOwnAliases(table: Node, ctes: seq<Ctes.CteSite>, edits: set<Range>, newName: string)
    requires !table.kind.ParenTable? && !table.kind.Join?
    ensures Renamed(FromAliases(table, ctes), FromAliases(Edit(table, edits, newName), ctes), edits, newName)
  {
    var kind, table' := table.kind, Edit(table, edits, newName);
    assert table'.kind == EditKind(kind, edits, newName);
    hide Edit, FromAliases, Renamed, NamedSource, SourcePath, PathRange, Dotted, Optional;
    FromByKind(table, ctes);
    FromByKind(table', ctes);
    NoneRenamed(edits, newName);
    if kind.TableName? {
      RenamedOptional(kind.alias, NamedSource(kind.table.name, kind.table.range, ctes),
        NamedSource(table'.kind.table.name, table'.kind.table.range, ctes), edits, newName);
    } else if kind.PathTable? {
      var source, source' := NamedSource(Dotted(SourcePath(table)), PathRange(SourcePath(table)), ctes),
        NamedSource(Dotted(SourcePath(table')), PathRange(SourcePath(table')), ctes);
      TwoRenamed(kind.alias, kind.offset, source, source', edits, newName);
    } else if kind.SubQueryTable? {
      RenamedOptional(kind.alias, if Kids(table) != [] then FromQuery(Kids(table)[0]) else NoSource,
        if Kids(table') != [] then FromQuery(Kids(table')[0]) else NoSource, edits, newName);
    } else if kind.Unnest? {
      TwoRenamed(kind.alias, kind.offset, NoSource, NoSource, edits, newName);
    }
  }

  lemma TwoRenamed(alias: Option<Ident>, offset: Option<Ident>, x: Source, y: Source, edits: set<Range>,
                   newName: string)
    ensures var alias', offset' := EditOptional(alias, edits, newName), EditOptional(offset, edits, newName);
            Renamed(Optional(alias, x) + Optional(offset, NoSource),
              Optional(alias', y) + Optional(offset', NoSource), edits, newName)
  {
    RenamedOptional(alias, x, y, edits, newName);
    RenamedOptional(offset, NoSource, NoSource, edits, newName);
    RenamedAppend(Optional(alias, x), Optional(EditOptional(alias, edits, newName), y), Optional(offset, NoSource),
      Optional(EditOptional(offset, edits, newName), NoSource), edits, newName);
  }

  lemma EditSiblings(root: Node, ctes: seq<Ctes.CteSite>, d: AliasDecl, edits: set<Range>, newName: string)
    ensures Renamed(Siblings(root, ctes, d), Siblings(Edit(root, edits, newName), ctes, d), edits, newName)
  {
    hide NodeAt, SelectAliases;
    EditNodeAt(root, d.select, edits, newName);
    if NodeAt(root, d.select).Some? { EditSelectAliases(NodeAt(root, d.select).value, ctes, edits, newName); }
  }

  lemma EditSelectAliases(n: Node, ctes: seq<Ctes.CteSite>, edits: set<Range>, newName: string)
    ensures Renamed(SelectAliases(n, ctes), SelectAliases(Edit(n, edits, newName), ctes), edits, newName)
  {
    EditKids(n, edits, newName);
    hide FromAliases, Kids;
    assert n.kind.Select? <==> Edit(n, edits, newName).kind.Select?;
    if n.kind.Select? && n.kind.source < |Kids(n)| {
      assert Edit(n, edits, newName).kind == n.kind;
      EditFromAliases(Kids(n)[n.kind.source], ctes, edits, newName);
    }
  }

  // ----- What the edits change in one FROM clause -----

  lemma SameLocal(before: seq<Alias>, after: seq<Alias>, p: Address, key: string)
    requires |after| == |before|
    requires forall i :: 0 <= i < |before| ==> (Key(after[i]) == key <==> Key(before[i]) == key)
    ensures Local(after, p, key) == Local(before, p, key)
  {
    var first := FirstFrom(before, 0, key);
    assert FirstFrom(after, 0, key) == first;
    if first.Some? { assert FirstFrom(after, first.value + 1, key) == FirstFrom(before, first.value + 1, key); }
  }

  /** The alias a is renamed among its siblings: its old name is free, its new
      one is bound to it, or doubled if somebody else has it. */
  lemma RenamedLocal(before: seq<Alias>, after: seq<Alias>, p: Address, m: nat, newKey: string, key: string)
    requires |after| == |before| && m < |before| && newKey != Key(before[m]) && Key(after[m]) == newKey
    requires forall i :: 0 <= i < |before| && i != m ==> Key(after[i]) == Key(before[i])
    requires Local(before, p, Key(before[m])) == Bound(AliasDecl(p, m))
    ensures Local(after, p, key) ==
            if key == Key(before[m]) then Unbound
            else if key != newKey then Local(before, p, key)
            else if Local(before, p, newKey).Unbound? then Bound(AliasDecl(p, m))
            else Ambiguous
  {
    if key != Key(before[m]) && key != newKey {
      SameLocal(before, after, p, key);
    } else if key == Key(before[m]) {
      assert FirstFrom(before, 0, key) == Some(m);
    } else {
      var first := FirstFrom(after, 0, newKey);
      assert first.Some?;
    }
  }

  // ----- The renaming -----

  /** The handler renames only a binding that is not ambiguous, and edits its
      declaration and the references it has collected. */
  ghost predicate Renaming(root: Node, ctes: seq<Ctes.CteSite>, d: AliasDecl, edits: set<Range>) {
    && d.index < |Siblings(root, ctes, d)|
    && LocalAt(root, ctes, d.select, Key(Siblings(root, ctes, d)[d.index])) == Bound(d)
    && (forall p: Address, i: nat | i < |Siblings(root, ctes, AliasDecl(p, i))| ::
          Siblings(root, ctes, AliasDecl(p, i))[i].name.range in edits <==> AliasDecl(p, i) == d)
    && (forall a | Qualifier(root, a).Some? ::
          Qualifier(root, a).value.range in edits <==> Denotes(root, ctes, a) == Bound(d))
  }

  /** What the qualifier at a place denotes. */
  function Denotes(root: Node, ctes: seq<Ctes.CteSite>, a: Address): Lookup {
    if Qualifier(root, a).Some? then ResolveAlias(root, a, Fold(Qualifier(root, a).value.name), ctes) else Unbound
  }

  function OldKey(root: Node, ctes: seq<Ctes.CteSite>, d: AliasDecl): string
    requires d.index < |Siblings(root, ctes, d)|
  {
    Key(Siblings(root, ctes, d)[d.index])
  }

  lemma EditedLocal(root: Node, ctes: seq<Ctes.CteSite>, d: AliasDecl, edits: set<Range>, newName: string, p: Address,
                    key: string)
    requires Renaming(root, ctes, d, edits)
    ensures LocalAt(Edit(root, edits, newName), ctes, p, key) ==
            var was := LocalAt(root, ctes, p, key);
            if p != d.select || Fold(newName) == OldKey(root, ctes, d) then was
            else if key == OldKey(root, ctes, d) then Unbound
            else if key != Fold(newName) then was
            else if was.Unbound? then Bound(d)
            else Ambiguous
  {
    EditSiblings(root, ctes, AliasDecl(p, 0), edits, newName);
    var before, after := Siblings(root, ctes, AliasDecl(p, 0)),
      Siblings(Edit(root, edits, newName), ctes, AliasDecl(p, 0));
    forall i: nat | i < |before|
      ensures Key(after[i]) == if AliasDecl(p, i) == d then Fold(newName) else Key(before[i])
    {
      assert before == Siblings(root, ctes, AliasDecl(p, i));
      assert after[i].name == EditIdent(before[i].name, edits, newName);
    }
    if p != d.select || Fold(newName) == OldKey(root, ctes, d) {
      SameLocal(before, after, p, key);
    } else {
      RenamedLocal(before, after, p, d.index, Fold(newName), key);
    }
  }

  // ----- Lookups that reach the renamed SELECT -----

  /** The lookup of a key from `a` gets as far out as the SELECT at `s`. */
  predicate Reaches(root: Node, ctes: seq<Ctes.CteSite>, a: Address, s: Address, key: string) {
    a != [] && (a[..|a| - 1] == s ||
        (LocalAt(root, ctes, a[..|a| - 1], key).Unbound? && Reaches(root, ctes, a[..|a| - 1], s, key)))
  }

  lemma {:induction false} ReachesMeaning(root: Node, ctes: seq<Ctes.CteSite>, a: Address, s: Address, key: string)
    requires Reaches(root, ctes, a, s, key)
    ensures s < a && ResolveAlias(root, a, key, ctes) == Inside(root, s, key, ctes)
    decreases |a|
  {
    var p := a[..|a| - 1];
    if p != s {
      InsideByLocal(root, ctes, p, key);
      ReachesMeaning(root, ctes, p, s, key);
    }
  }

  /** A name bound to a declaration is looked up as far as its SELECT. */
  lemma {:induction false} BoundReaches(root: Node, ctes: seq<Ctes.CteSite>, a: Address, key: string, d: AliasDecl)
    requires ResolveAlias(root, a, key, ctes) == Bound(d)
    ensures Reaches(root, ctes, a, d.select, key) && LocalAt(root, ctes, d.select, key) == Bound(d)
    decreases |a|
  {
    var p := a[..|a| - 1];
    InsideByLocal(root, ctes, p, key);
    if LocalAt(root, ctes, p, key).Unbound? {
      BoundReaches(root, ctes, p, key, d);
    }
  }

  /** p is s or lies below it, and is a proper ancestor of a. */
  predicate OnPath(s: Address, p: Address, a: Address) {
    s <= p < a
  }

  lemma PathStep(s: Address, a: Address)
    requires s < a
    ensures forall p :: OnPath(s, p, a) <==> p == a[..|a| - 1] || OnPath(s, p, a[..|a| - 1])
  {
  }

  /** No SELECT from `s` down to the place `a` declares the key. */
  ghost predicate ClearPath(root: Node, ctes: seq<Ctes.CteSite>, s: Address, a: Address, key: string) {
    forall p :: OnPath(s, p, a) ==> LocalAt(root, ctes, p, key).Unbound?
  }

  lemma {:induction false} ClearReaches(root: Node, ctes: seq<Ctes.CteSite>, s: Address, a: Address, key: string)
    requires s < a
    ensures ClearPath(root, ctes, s, a, key) <==> Reaches(root, ctes, a, s, key) && LocalAt(root, ctes, s, key).Unbound?
    decreases |a|
  {
    var q := a[..|a| - 1];
    PathStep(s, a);
    if q != s {
      ClearReaches(root, ctes, s, q, key);
    }
  }

  /** On the way from a reference of d out to its SELECT, d is visible throughout. */
  lemma {:induction false} VisibleOnPath(root: Node, ctes: seq<Ctes.CteSite>, a: Address, key: string, d: AliasDecl,
                                         p: Address)
    requires ResolveAlias(root, a, key, ctes) == Bound(d) && OnPath(d.select, p, a)
    ensures Inside(root, p, key, ctes) == Bound(d)
    decreases |a|
  {
    var q := a[..|a| - 1];
    InsideByLocal(root, ctes, q, key);
    if p != q {
      if LocalAt(root, ctes, q, key).Unbound? {
        VisibleOnPath(root, ctes, q, key, d, p);
      } else {
        assert false;
      }
    }
  }

  /** Doubled declarations on the way, and no single one, leave a name ambiguous. */
  lemma {:induction false} DoubledBlocks(root: Node, ctes: seq<Ctes.CteSite>, s: Address, a: Address, key: string)
    requires s < a && !ClearPath(root, ctes, s, a, key)
    requires forall p :: OnPath(s, p, a) ==> !LocalAt(root, ctes, p, key).Bound?
    ensures ResolveAlias(root, a, key, ctes) == Ambiguous
    decreases |a|
  {
    var q := a[..|a| - 1];
    InsideByLocal(root, ctes, q, key);
    PathStep(s, a);
    if LocalAt(root, ctes, q, key).Unbound? {
      DoubledBlocks(root, ctes, s, q, key);
    }
  }

  /** A lookup that does not reach the renamed SELECT does not notice. */
  lemma {:induction false} Unaffected(root: Node, root': Node, ctes: seq<Ctes.CteSite>, a: Address, s: Address,
                                      key: string)
    requires forall p: Address :: p != s ==> LocalAt(root', ctes, p, key) == LocalAt(root, ctes, p, key)
    ensures Reaches(root', ctes, a, s, key) <==> Reaches(root, ctes, a, s, key)
    ensures !Reaches(root, ctes, a, s, key) ==> ResolveAlias(root', a, key, ctes) == ResolveAlias(root, a, key, ctes)
    decreases |a|
  {
    if a != [] {
      var p := a[..|a| - 1];
      InsideByLocal(root, ctes, p, key);
      InsideByLocal(root', ctes, p, key);
      if p != s { Unaffected(root, root', ctes, p, s, key); }
    }
  }

  // ----- Exactly when a rename keeps every meaning -----

  /** After the rename the qualifier at `a` denotes what it denoted before. */
  ghost predicate Keeps(root: Node, ctes: seq<Ctes.CteSite>, edits: set<Range>, newName: string, a: Address) {
    Denotes(Edit(root, edits, newName), ctes, a) == Denotes(root, ctes, a)
  }

  /** A reference to d sits inside a SELECT, at or below that of d, which
      declares the new name more than once. */
  ghost predicate Doubled(root: Node, ctes: seq<Ctes.CteSite>, d: AliasDecl, newKey: string, a: Address) {
    && Denotes(root, ctes, a) == Bound(d)
    && exists p :: OnPath(d.select, p, a) && LocalAt(root, ctes, p, newKey) == Ambiguous
  }

  /** A qualifier spelled like the new name, below the SELECT of d, is unresolved,
      and nothing from there up to that SELECT declares the name. */
  ghost predicate Captured(root: Node, ctes: seq<Ctes.CteSite>, d: AliasDecl, newKey: string, a: Address) {
    && Qualifier(root, a).Some? && Fold(Qualifier(root, a).value.name) == newKey
    && !Denotes(root, ctes, a).Bound? && d.select < a && ClearPath(root, ctes, d.select, a, newKey)
  }

  ghost predicate NoCollision(root: Node, ctes: seq<Ctes.CteSite>, d: AliasDecl, newKey: string) {
    forall p: Address, key: string :: !Collides(root, ctes, p, d, key, newKey)
  }

  lemma EditedDenotes(root: Node, ctes: seq<Ctes.CteSite>, d: AliasDecl, edits: set<Range>, newName: string, a: Address)
    requires Renaming(root, ctes, d, edits)
    ensures Denotes(Edit(root, edits, newName), ctes, a) ==
            if Qualifier(root, a).None? then Unbound
            else ResolveAlias(Edit(root, edits, newName), a,
                              if Denotes(root, ctes, a) == Bound(d) then Fold(newName)
                                 else Fold(Qualifier(root, a).value.name), ctes)
  {
    EditQualifier(root, a, edits, newName);
  }

  lemma InsideIsSelect(root: Node, ctes: seq<Ctes.CteSite>, p: Address, key: string)
    requires !LocalAt(root, ctes, p, key).Unbound?
    ensures NodeAt(root, p).Some? && NodeAt(root, p).value.kind.Select?
  {
  }

  lemma SameKeys(root: Node, ctes: seq<Ctes.CteSite>, d: AliasDecl, edits: set<Range>, newName: string, a: Address)
    requires Renaming(root, ctes, d, edits) && Fold(newName) == OldKey(root, ctes, d)
    ensures Keeps(root, ctes, edits, newName, a)
    ensures !Doubled(root, ctes, d, Fold(newName), a) && !Captured(root, ctes, d, Fold(newName), a)
  {
    var root' := Edit(root, edits, newName);
    EditedDenotes(root, ctes, d, edits, newName, a);
    if Qualifier(root, a).Some? {
      var key := Fold(Qualifier(root, a).value.name);
      forall p: Address ensures LocalAt(root', ctes, p, key) == LocalAt(root, ctes, p, key) {
        EditedLocal(root, ctes, d, edits, newName, p, key);
      }
      SameLookups(root, root', ctes, a, key);
      if Denotes(root, ctes, a) == Bound(d) { VisibleIsNotDoubled(root, ctes, a, key, d); }
    }
  }

  lemma VisibleIsNotDoubled(root: Node, ctes: seq<Ctes.CteSite>, a: Address, key: string, d: AliasDecl)
    requires ResolveAlias(root, a, key, ctes) == Bound(d)
    ensures LocalAt(root, ctes, d.select, key) == Bound(d)
    ensures forall p :: OnPath(d.select, p, a) ==> LocalAt(root, ctes, p, key) != Ambiguous
  {
    hide LocalAt, ResolveAlias;
    BoundReaches(root, ctes, a, key, d);
    forall p | OnPath(d.select, p, a) ensures LocalAt(root, ctes, p, key) != Ambiguous {
      VisibleOnPath(root, ctes, a, key, d, p);
      InsideByLocal(root, ctes, p, key);
    }
  }

  lemma {:induction false} SameLookups(root: Node, root': Node, ctes: seq<Ctes.CteSite>, a: Address, key: string)
    requires forall p: Address :: LocalAt(root', ctes, p, key) == LocalAt(root, ctes, p, key)
    ensures ResolveAlias(root', a, key, ctes) == ResolveAlias(root, a, key, ctes)
    decreases |a|
  {
    if a != [] {
      var p := a[..|a| - 1];
      InsideByLocal(root, ctes, p, key);
      InsideByLocal(root', ctes, p, key);
      SameLookups(root, root', ctes, p, key);
    }
  }

  /** Without a collision, nobody on the way from a reference out to d declares
      the new name singly. */
  lemma NoSingleOnPath(root: Node, ctes: seq<Ctes.CteSite>, d: AliasDecl, newKey: string, a: Address, key: string,
                       p: Address)
    requires d.index < |Siblings(root, ctes, d)| && newKey != OldKey(root, ctes, d)
    requires NoCollision(root, ctes, d, newKey) && ResolveAlias(root, a, key, ctes) == Bound(d) &&
             OnPath(d.select, p, a)
    ensures !LocalAt(root, ctes, p, newKey).Bound?
  {
    VisibleOnPath(root, ctes, a, key, d, p);
    InsideByLocal(root, ctes, p, newKey);
    if LocalAt(root, ctes, p, newKey).Bound? {
      InsideIsSelect(root, ctes, p, newKey);
      LocalNames(root, ctes, p, newKey, d);
      assert Collides(root, ctes, p, d, key, newKey);
      assert false;
    }
  }

  /** Looking the new name up from a place below the renamed SELECT. */
  lemma NewNameLookup(root: Node, ctes: seq<Ctes.CteSite>, d: AliasDecl, edits: set<Range>, newName: string, a: Address)
    requires Renaming(root, ctes, d, edits) && Fold(newName) != OldKey(root, ctes, d) && d.select < a
    requires forall p :: OnPath(d.select, p, a) ==> !LocalAt(root, ctes, p, Fold(newName)).Bound?
    ensures ResolveAlias(Edit(root, edits, newName), a, Fold(newName), ctes) ==
            if ClearPath(root, ctes, d.select, a, Fold(newName)) then Bound(d) else Ambiguous
  {
    var root', s, newKey := Edit(root, edits, newName), d.select, Fold(newName);
    hide Renaming, LocalAt, Edit, Inside;
    forall p: Address
      ensures LocalAt(root', ctes, p, newKey) ==
              if p != s then LocalAt(root, ctes, p, newKey)
              else if LocalAt(root, ctes, s, newKey).Unbound? then Bound(d) else Ambiguous
    {
      EditedLocal(root, ctes, d, edits, newName, p, newKey);
    }
    Unaffected(root, root', ctes, a, s, newKey);
    ClearReaches(root, ctes, s, a, newKey);
    if ClearPath(root, ctes, s, a, newKey) {
      ReachesMeaning(root', ctes, a, s, newKey);
      InsideByLocal(root', ctes, s, newKey);
    } else if LocalAt(root, ctes, s, newKey).Unbound? {
      DoubledBelow(root, ctes, s, a, newKey);
      Unaffected(root, root', ctes, a, s, newKey);
    } else {
      assert OnPath(s, s, a);
      DoubledBlocks(root', ctes, s, a, newKey);
    }
  }

  lemma DoubledBelow(root: Node, ctes: seq<Ctes.CteSite>, s: Address, a: Address, key: string)
    requires s < a && !ClearPath(root, ctes, s, a, key) && LocalAt(root, ctes, s, key).Unbound?
    requires forall p :: OnPath(s, p, a) ==> !LocalAt(root, ctes, p, key).Bound?
    ensures !Reaches(root, ctes, a, s, key) && ResolveAlias(root, a, key, ctes) == Ambiguous
  {
    ClearReaches(root, ctes, s, a, key);
    DoubledBlocks(root, ctes, s, a, key);
  }

  /** A reference to d survives exactly when no doubled declaration is on its way. */
  lemma ReferenceKeeps(root: Node, ctes: seq<Ctes.CteSite>, d: AliasDecl, edits: set<Range>, newName: string,
                       a: Address)
    requires Renaming(root, ctes, d, edits) && Fold(newName) != OldKey(root, ctes, d)
    requires NoCollision(root, ctes, d, Fold(newName)) && Denotes(root, ctes, a) == Bound(d)
    ensures Keeps(root, ctes, edits, newName, a) <==> !Doubled(root, ctes, d, Fold(newName), a)
  {
    var s, key, newKey := d.select, Fold(Qualifier(root, a).value.name), Fold(newName);
    EditedDenotes(root, ctes, d, edits, newName, a);
    BoundReaches(root, ctes, a, key, d);
    ReachesMeaning(root, ctes, a, s, key);
    forall p | OnPath(s, p, a) ensures !LocalAt(root, ctes, p, newKey).Bound? {
      NoSingleOnPath(root, ctes, d, newKey, a, key, p);
    }
    NewNameLookup(root, ctes, d, edits, newName, a);
  }

  /** The declaration that a SELECT binds a key to is its own and has that key. */
  lemma LocalNames(root: Node, ctes: seq<Ctes.CteSite>, p: Address, key: string, d: AliasDecl)
    requires d.index < |Siblings(root, ctes, d)|
    ensures LocalAt(root, ctes, p, key) == Bound(d) ==> p == d.select && key == OldKey(root, ctes, d)
  {
  }

  /** Any other qualifier survives exactly when the new name does not capture it. */
  lemma OtherKeeps(root: Node, ctes: seq<Ctes.CteSite>, d: AliasDecl, edits: set<Range>, newName: string, a: Address)
    requires Renaming(root, ctes, d, edits) && Fold(newName) != OldKey(root, ctes, d)
    requires NoCollision(root, ctes, d, Fold(newName)) && Denotes(root, ctes, a) != Bound(d) && Qualifier(root, a).Some?
    ensures Keeps(root, ctes, edits, newName, a) <==> !Captured(root, ctes, d, Fold(newName), a)
  {
    var root', s, key, newKey := Edit(root, edits, newName), d.select, Fold(Qualifier(root, a).value.name),
      Fold(newName);
    EditedDenotes(root, ctes, d, edits, newName, a);
    forall p: Address | p != s ensures LocalAt(root', ctes, p, key) == LocalAt(root, ctes, p, key) {
      EditedLocal(root, ctes, d, edits, newName, p, key);
    }
    EditedLocal(root, ctes, d, edits, newName, s, key);
    Unaffected(root, root', ctes, a, s, key);
    Unaffected(root, root', ctes, s, s, key);
    if s < a { ClearReaches(root, ctes, s, a, key); }
    if Reaches(root, ctes, a, s, key) {
      ReachesMeaning(root, ctes, a, s, key);
      ReachesMeaning(root', ctes, a, s, key);
      InsideByLocal(root, ctes, s, key);
      InsideByLocal(root', ctes, s, key);
      ReachesIsBelow(root, ctes, s, s, key);
      assert LocalAt(root, ctes, s, OldKey(root, ctes, d)) == Bound(d);
      InsideIsSelect(root, ctes, s, OldKey(root, ctes, d));
      InsideByLocal(root, ctes, s, OldKey(root, ctes, d));
      assert !Collides(root, ctes, s, d, OldKey(root, ctes, d), newKey);
    }
  }

  lemma ReachesIsBelow(root: Node, ctes: seq<Ctes.CteSite>, a: Address, s: Address, key: string)
    ensures Reaches(root, ctes, a, s, key) ==> s < a
  {
    if Reaches(root, ctes, a, s, key) { ReachesMeaning(root, ctes, a, s, key); }
  }

  /** The rename theorem. When the conflict test passes, renaming a table alias
      and re-indexing finds every qualifier of the document bound to the same
      declaration as before, if and only if no reference to the alias sits in a
      SELECT that doubles the new name and no unresolved qualifier of that name
      is left open to capture. */
  lemma RenamePreservesIff(root: Node, ctes: seq<Ctes.CteSite>, d: AliasDecl, edits: set<Range>, newName: string)
    requires Renaming(root, ctes, d, edits) && NoCollision(root, ctes, d, Fold(newName))
    ensures (forall a :: Keeps(root, ctes, edits, newName, a)) <==>
            (forall a :: !Doubled(root, ctes, d, Fold(newName), a) && !Captured(root, ctes, d, Fold(newName), a))
  {
    forall a
      ensures Keeps(root, ctes, edits, newName, a) <==>
              !Doubled(root, ctes, d, Fold(newName), a) && !Captured(root, ctes, d, Fold(newName), a)
    {
      if Fold(newName) == OldKey(root, ctes, d) {
        SameKeys(root, ctes, d, edits, newName, a);
      } else if Denotes(root, ctes, a) == Bound(d) {
        ReferenceKeeps(root, ctes, d, edits, newName, a);
      } else if Qualifier(root, a).Some? {
        OtherKeeps(root, ctes, d, edits, newName, a);
      } else {
        EditedDenotes(root, ctes, d, edits, newName, a);
      }
    }
  }

  // ----- From the index to the theorem -----

  datatype TextEdit = TextEdit(range: Range, newText: string)

  /** The edits of a rename: the declaration, then every collected reference. */
  function Edits(binding: AliasBinding, newName: string): seq<TextEdit> {
    var ranges := binding.referenceRanges;
    [TextEdit(binding.declarationRange, newName)] +
    seq(|ranges|, i requires 0 <= i < |ranges| => TextEdit(ranges[i], newName))
  }

  function EditedRanges(edits: seq<TextEdit>): set<Range> {
    set i | 0 <= i < |edits| :: edits[i].range
  }

  ghost predicate DistinctQualifiers(root: Node) {
    forall a, b | Qualifier(root, a).Some? && Qualifier(root, b).Some? ::
      Qualifier(root, a).value.range == Qualifier(root, b).value.range ==> a == b
  }

  /** Declared names and qualifiers have ranges of their own, as in any parsed text. */
  ghost predicate DistinctNameRanges(root: Node, ctes: seq<Ctes.CteSite>) {
    && (forall p: Address, i: nat, q: Address, j: nat |
          i < |Siblings(root, ctes, AliasDecl(p, i))| && j < |Siblings(root, ctes, AliasDecl(q, j))| ::
          Siblings(root, ctes, AliasDecl(p, i))[i].name.range == Siblings(root, ctes, AliasDecl(q, j))[j].name.range ==>
            p == q && i == j)
    && DistinctQualifiers(root)
    && (forall p: Address, i: nat, a | i < |Siblings(root, ctes, AliasDecl(p, i))| && Qualifier(root, a).Some? ::
          Siblings(root, ctes, AliasDecl(p, i))[i].name.range != Qualifier(root, a).value.range)
  }

  lemma EditedRangesAre(binding: AliasBinding, newName: string, r: Range)
    ensures r in EditedRanges(Edits(binding, newName)) <==>
            r == binding.declarationRange || r in binding.referenceRanges
  {
    var edits := Edits(binding, newName);
    assert edits[0].range == binding.declarationRange;
    if r in binding.referenceRanges {
      var i :| 0 <= i < |binding.referenceRanges| && binding.referenceRanges[i] == r;
      assert edits[i + 1].range == r;
    }
  }

  /** The edits touch the renamed declaration and the qualifiers bound to it,
      and no other name. */
  lemma EditsAreExact(index: AliasIndex, root: Node, ctes: seq<Ctes.CteSite>, b: nat, newName: string)
    requires Represents(index, root, ctes, Expected(root, ctes)) && b < |index.bindings| && !index.bindings[b].ambiguous
    requires DistinctNameRanges(root, ctes)
    ensures b < |Decls(root, ctes)|
    ensures Renaming(root, ctes, Decls(root, ctes)[b].decl, EditedRanges(Edits(index.bindings[b], newName)))
  {
    DuplicateLaw(index, root, ctes, b);
    CollectedReferences(index, root, ctes, b);
    hide Represents, Expected, Decls;
    var d, binding := Decls(root, ctes)[b].decl, index.bindings[b];
    var edits := EditedRanges(Edits(binding, newName));
    LocalIsCount(Siblings(root, ctes, d), d.select, d.index);
    assert Siblings(root, ctes, AliasDecl(d.select, 0)) == Siblings(root, ctes, d);
    forall p: Address, i: nat | i < |Siblings(root, ctes, AliasDecl(p, i))|
      ensures Siblings(root, ctes, AliasDecl(p, i))[i].name.range in edits <==> AliasDecl(p, i) == d
    {
      EditedRangesAre(binding, newName, Siblings(root, ctes, AliasDecl(p, i))[i].name.range);
      assert d == AliasDecl(d.select, d.index);
    }
    forall a | Qualifier(root, a).Some?
      ensures Qualifier(root, a).value.range in edits <==> Denotes(root, ctes, a) == Bound(d)
    {
      EditedRangesAre(binding, newName, Qualifier(root, a).value.range);
      assert d == AliasDecl(d.select, d.index);
      assert RefersTo(root, ctes, a, d, Qualifier(root, a).value.range) <==> Denotes(root, ctes, a) == Bound(d);
    }
  }

  /** A passed test rules out every collision, and the edits are exact. */
  lemma PassedTest(index: AliasIndex, root: Node, ctes: seq<Ctes.CteSite>, b: nat, newName: string)
    requires IsIndexOf(index, root, ctes) && b < |index.bindings| && !index.bindings[b].ambiguous
    requires DistinctNameRanges(root, ctes)
    requires !exists i :: 0 <= i < |index.scopes| && Conflict(index.scopes[i], b, newName)
    ensures b < |Decls(root, ctes)| && NoCollision(root, ctes, Decls(root, ctes)[b].decl, Fold(newName))
    ensures Renaming(root, ctes, Decls(root, ctes)[b].decl, EditedRanges(Edits(index.bindings[b], newName)))
  {
    hide Represents, Expected, Renaming, DistinctNameRanges;
    var walked: AliasIndex :| IsSorted(index, walked) && Represents(walked, root, ctes, Expected(root, ctes));
    EditsAreExact(walked, root, ctes, b, newName);
    var d := Decls(root, ctes)[b].decl;
    forall p: Address, key: string ensures !Collides(root, ctes, p, d, key, Fold(newName)) {
      if Collides(root, ctes, p, d, key, Fold(newName)) {
        ConflictIsCollision(walked, root, ctes, b, newName, p, key);
      }
    }
  }

  /** The rename theorem for the index of a document: if the conflict test passes,
      the edits keep the meaning of every qualifier exactly when none is doubled
      and none is captured. */
  lemma RenameTheorem(index: AliasIndex, root: Node, ctes: seq<Ctes.CteSite>, b: nat, newName: string)
    requires IsIndexOf(index, root, ctes) && b < |index.bindings| && !index.bindings[b].ambiguous
    requires DistinctNameRanges(root, ctes)
    requires !exists i :: 0 <= i < |index.scopes| && Conflict(index.scopes[i], b, newName)
    ensures b < |Decls(root, ctes)|
    ensures var d, edits := Decls(root, ctes)[b].decl, EditedRanges(Edits(index.bindings[b], newName));
            (forall a :: Keeps(root, ctes, edits, newName, a)) <==>
            (forall a :: !Doubled(root, ctes, d, Fold(newName), a) && !Captured(root, ctes, d, Fold(newName), a))
  {
    PassedTest(index, root, ctes, b, newName);
    RenamePreservesIff(root, ctes, Decls(root, ctes)[b].decl, EditedRanges(Edits(index.bindings[b], newName)), newName);
  }
}
