/** What the alias index holds, by the kinds of the nodes: which names of a FROM clause are
    declared and what they stand for, and which identifiers refer to them. */
module AliasReferences {
  import opened Coordinates
  import opened Syntax
  import opened Sorting
  import opened SelectWalk
  import opened AliasBindings
  import Flags = AliasReindexFlags
  import Rename = AliasRename
  import SparedBinders
  import TextNames
  import Ctes = CteBindings

  // ----- FROM clauses -----

  /** A parenthesis leads to its table, a join to both sides. */
  ghost predicate Step(n: Node, k: nat) {
    (n.kind.ParenTable? && k == 0) || (n.kind.Join? && k < 2)
  }

  /** The place is reached from a FROM source through parentheses and joins alone. */
  ghost predicate Leads(root: Node, here: Address, t: Address) {
    && here <= t && NodeAt(root, t).Some?
    && forall c :: here <= c < t ==> NodeAt(root, c).Some? && Step(NodeAt(root, c).value, t[|c|])
  }

  /** A table of the FROM clause of the SELECT at `p`. */
  ghost predicate TableOf(root: Node, p: Address, t: Address) {
    && IsSelect(root, p) && Leads(root, p + [NodeAt(root, p).value.kind.source], t)
  }

  lemma LeadsSelf(root: Node, here: Address)
    requires NodeAt(root, here).Some?
    ensures Leads(root, here, here)
  {}

  lemma LeadsBelow(root: Node, here: Address, k: nat, t: Address)
    requires Leads(root, here + [k], t) && NodeAt(root, here).Some? && Step(NodeAt(root, here).value, k)
    ensures Leads(root, here, t)
  {
    forall c | here <= c < t ensures NodeAt(root, c).Some? && Step(NodeAt(root, c).value, t[|c|]) {
      if c == here { assert t[|here|] == k; } else { assert here + [k] <= c; }
    }
  }

  /** A longer way goes through a child. */
  lemma LeadsThrough(root: Node, here: Address, t: Address) returns (k: nat)
    requires Leads(root, here, t) && t != here
    ensures NodeAt(root, here).Some? && Step(NodeAt(root, here).value, k) && Leads(root, here + [k], t)
    ensures k < |Kids(NodeAt(root, here).value)| && NodeAt(root, here + [k]) == Some(Kids(NodeAt(root, here).value)[k])
  {
    k := t[|here|];
    assert here <= here < t;
    assert here + [k] == t[..|here| + 1] && t == (here + [k]) + t[|here| + 1..];
    NodeAtPrefix(root, here + [k], t[|here| + 1..]);
    NodeAtChild(root, here, k);
  }

  // ----- What a table declares -----

  /** The range from the first identifier of a path to its last. */
  ghost predicate Spans(idents: seq<Ident>, r: Range) {
    if idents == [] then r == Range(Position(0, 0), Position(0, 0))
    else r.start == idents[0].range.start && r.end == idents[|idents| - 1].range.end
  }

  /** The path that a table is written as, if it is. */
  ghost predicate WrittenAs(n: Node, idents: seq<Ident>) {
    n.kind.PathTable? && if Kids(n) != [] && Kids(n)[0].kind.Path? then idents == Kids(n)[0].kind.idents
      else idents == []
  }

  /** A name written in a FROM clause stands for the CTE that the CTE binder found at its
      range, or else for the table of that name. */
  ghost predicate StandsFor(ctes: seq<Ctes.CteSite>, name: string, r: Range, source: Source) {
    var found := Ctes.BindingForReference(ctes, r);
    source == if found.Some? then FromCte(found.value) else FromTable(name)
  }

  /** The node declares the alias, with what it stands for. */
  ghost predicate Declares(n: Node, ctes: seq<Ctes.CteSite>, alias: Alias) {
    var name := Some(alias.name);
    || (n.kind.TableName? && n.kind.alias == name &&
           StandsFor(ctes, n.kind.table.name, n.kind.table.range, alias.source))
    || (n.kind.PathTable? && n.kind.alias == name &&
          exists idents, r :: WrittenAs(n, idents) && Spans(idents, r) &&
            StandsFor(ctes, Dotted(idents), r, alias.source))
    || (n.kind.SubQueryTable? && n.kind.alias == name &&
          alias.source == if Kids(n) != [] then FromQuery(Kids(n)[0]) else NoSource)
    || (n.kind.Unnest? && n.kind.alias == name && alias.source == NoSource)
    || ((n.kind.PathTable? || n.kind.Unnest?) && n.kind.offset == name && alias.source == NoSource)
  }

  ghost predicate DeclaresAt(root: Node, t: Address, ctes: seq<Ctes.CteSite>, alias: Alias) {
    NodeAt(root, t).Some? && Declares(NodeAt(root, t).value, ctes, alias)
  }

  lemma SpansOnce(idents: seq<Ident>, r: Range)
    ensures Spans(idents, r) <==> r == PathRange(idents)
  {}

  lemma WrittenOnce(n: Node, idents: seq<Ident>)
    requires n.kind.PathTable?
    ensures WrittenAs(n, idents) <==> idents == SourcePath(n)
  {}

  lemma OwnAliases(n: Node, ctes: seq<Ctes.CteSite>, alias: Alias)
    requires !n.kind.ParenTable? && !n.kind.Join?
    ensures alias in FromAliases(n, ctes) <==> Declares(n, ctes, alias)
  {
    if n.kind.PathTable? {
      var path := SourcePath(n);
      WrittenOnce(n, path);
      SpansOnce(path, PathRange(path));
      forall idents, r | WrittenAs(n, idents) && Spans(idents, r) ensures idents == path && r == PathRange(path) {
        WrittenOnce(n, idents);
        SpansOnce(idents, r);
      }
      hide WrittenAs, Spans, SourcePath, PathRange, Dotted;
    }
  }

  lemma {:induction false} AliasesByKind(root: Node, table: Node, here: Address, ctes: seq<Ctes.CteSite>, alias: Alias)
    requires NodeAt(root, here) == Some(table)
    ensures alias in FromAliases(table, ctes) <==>
            exists t :: Leads(root, here, t) && DeclaresAt(root, t, ctes, alias)
    decreases table
  {
    hide NodeAt, Leads, Declares;
    if table.kind.ParenTable? || table.kind.Join? {
      DeclaresNothing(table, ctes, alias);
      forall k: nat | k < |Kids(table)| && Step(table, k)
        ensures alias in FromAliases(Kids(table)[k], ctes) <==>
                exists t :: Leads(root, here + [k], t) && DeclaresAt(root, t, ctes, alias)
      {
        NodeAtChild(root, here, k);
        AliasesByKind(root, Kids(table)[k], here + [k], ctes, alias);
      }
      AliasesOfKids(table, ctes, alias);
      if alias in FromAliases(table, ctes) {
        var k: nat :| k < |Kids(table)| && Step(table, k) && alias in FromAliases(Kids(table)[k], ctes);
        var t :| Leads(root, here + [k], t) && DeclaresAt(root, t, ctes, alias);
        LeadsBelow(root, here, k, t);
      }
      if t :| Leads(root, here, t) && DeclaresAt(root, t, ctes, alias) {
        var k := LeadsThrough(root, here, t);
      }
    } else {
      OwnAliases(table, ctes, alias);
      LeadsSelf(root, here);
      if t :| Leads(root, here, t) && t != here { var k := LeadsThrough(root, here, t); }
    }
  }

  lemma DeclaresNothing(n: Node, ctes: seq<Ctes.CteSite>, alias: Alias)
    requires n.kind.ParenTable? || n.kind.Join?
    ensures !Declares(n, ctes, alias)
  {}

  lemma AliasesOfKids(n: Node, ctes: seq<Ctes.CteSite>, alias: Alias)
    requires n.kind.ParenTable? || n.kind.Join?
    ensures alias in FromAliases(n, ctes) <==>
            exists k: nat :: k < |Kids(n)| && Step(n, k) && alias in FromAliases(Kids(n)[k], ctes)
  {
    Rename.FromByKind(n, ctes);
    hide FromAliases;
    if n.kind.Join? && |Kids(n)| > 1 && alias in FromAliases(Kids(n)[1], ctes) { assert Step(n, 1); }
    if |Kids(n)| > 0 && alias in FromAliases(Kids(n)[0], ctes) { assert Step(n, 0); }
  }

  ghost predicate IsBinding(index: AliasIndex, b: nat, alias: Alias) {
    && b < |index.bindings| && index.bindings[b].name == alias.name.name
    && index.bindings[b].declarationRange == alias.name.range && index.bindings[b].source == alias.source
  }

  /** Every alias of a FROM clause is a binding with what it stands for, and there are no
      other bindings. */
  lemma DeclaredIff(index: AliasIndex, root: Node, ctes: seq<Ctes.CteSite>, alias: Alias)
    requires IsIndexOf(index, root, ctes)
    ensures (exists b: nat :: IsBinding(index, b, alias)) <==>
            exists p, t :: TableOf(root, p, t) && DeclaresAt(root, t, ctes, alias)
  {
    SparedBinders.IndexDecls(index, root, ctes);
    hide IsIndexOf, Declares, Leads, NodeAt, Decls, FromAliases, Siblings;
    if b: nat :| IsBinding(index, b, alias) {
      DeclarationIsSibling(root, ctes, b);
      var d := Decls(root, ctes)[b].decl;
      assert Decls(root, ctes)[b].alias == alias;
      FromOfSelect(root, ctes, d, alias);
    }
    if p, t :| TableOf(root, p, t) && DeclaresAt(root, t, ctes, alias) {
      SourceExists(root, p, t);
      FromOfSelect(root, ctes, AliasDecl(p, 0), alias);
      var i :| 0 <= i < |Siblings(root, ctes, AliasDecl(p, 0))| && Siblings(root, ctes, AliasDecl(p, 0))[i] == alias;
      SameSiblings(root, ctes, AliasDecl(p, 0), i);
      var c := SiblingIsDeclared(root, ctes, p, i);
      assert IsBinding(index, c, alias);
    }
  }

  lemma SourceExists(root: Node, p: Address, t: Address)
    requires TableOf(root, p, t)
    ensures NodeAt(root, p).Some? && NodeAt(root, p).value.kind.source < |Kids(NodeAt(root, p).value)|
  {
    var s := p + [NodeAt(root, p).value.kind.source];
    assert t == s + t[|s|..];
    NodeAtPrefix(root, s, t[|s|..]);
    NodeAtChild(root, p, NodeAt(root, p).value.kind.source);
  }

  lemma FromOfSelect(root: Node, ctes: seq<Ctes.CteSite>, d: AliasDecl, alias: Alias)
    ensures alias in Siblings(root, ctes, d) <==>
            exists t :: TableOf(root, d.select, t) && DeclaresAt(root, t, ctes, alias)
  {
    hide Declares, FromAliases, Leads;
    if IsSelect(root, d.select) {
      var n := NodeAt(root, d.select).value;
      if n.kind.source < |Kids(n)| {
        NodeAtChild(root, d.select, n.kind.source);
        hide NodeAt;
        AliasesByKind(root, Kids(n)[n.kind.source], d.select + [n.kind.source], ctes, alias);
      } else {
        hide NodeAt;
        if t :| TableOf(root, d.select, t) { SourceExists(root, d.select, t); }
      }
    }
  }

  // ----- What refers to an alias -----

  /** Some FROM clause path of the SELECT at `p` is written in that range. */
  ghost predicate HasPath(root: Node, p: Address, r: Range) {
    exists t :: TableOf(root, p, t) && WrittenAt(root, t, r)
  }

  ghost predicate WrittenAt(root: Node, t: Address, r: Range) {
    NodeAt(root, t).Some? && exists idents :: WrittenAs(NodeAt(root, t).value, idents) && Spans(idents, r)
  }

  /** The identifier qualifies something at the place: the name before `.*`, or the head of
      a path of two names or more that is no FROM path of the nearest SELECT. */
  ghost predicate Qualifies(root: Node, a: Address, i: Ident) {
    && NodeAt(root, a).Some?
    && match NodeAt(root, a).value.kind
       case DotStar(qualifier) => qualifier == Some(i)
       case Path(idents) =>
         && |idents| >= 2 && idents[0] == i
         && !exists p, r :: TextNames.NearestSelect(root, p, a) && Spans(idents, r) && HasPath(root, p, r)
       case _ => false
  }

  lemma {:induction false} PathsOfSource(root: Node, table: Node, here: Address, r: Range)
    requires NodeAt(root, here) == Some(table)
    ensures r in SourceRanges(table) <==> exists t :: Leads(root, here, t) && WrittenAt(root, t, r)
    decreases table
  {
    hide NodeAt, Leads, WrittenAt;
    if table.kind.ParenTable? || table.kind.Join? {
      WrittenNowhere(root, here, table, r);
      forall k: nat | k < |Kids(table)| && Step(table, k)
        ensures r in SourceRanges(Kids(table)[k]) <==> exists t :: Leads(root, here + [k], t) && WrittenAt(root, t, r)
      {
        NodeAtChild(root, here, k);
        PathsOfSource(root, Kids(table)[k], here + [k], r);
      }
      RangesOfKids(table, r);
      if r in SourceRanges(table) {
        var k: nat :| k < |Kids(table)| && Step(table, k) && r in SourceRanges(Kids(table)[k]);
        var t :| Leads(root, here + [k], t) && WrittenAt(root, t, r);
        LeadsBelow(root, here, k, t);
      }
      if t :| Leads(root, here, t) && WrittenAt(root, t, r) { var k := LeadsThrough(root, here, t); }
    } else {
      OwnPath(root, here, table, r);
      LeadsSelf(root, here);
      if t :| Leads(root, here, t) && t != here { var k := LeadsThrough(root, here, t); }
    }
  }

  lemma WrittenNowhere(root: Node, here: Address, n: Node, r: Range)
    requires NodeAt(root, here) == Some(n) && (n.kind.ParenTable? || n.kind.Join?)
    ensures !WrittenAt(root, here, r)
  {}

  lemma OwnPath(root: Node, here: Address, n: Node, r: Range)
    requires NodeAt(root, here) == Some(n) && !n.kind.ParenTable? && !n.kind.Join?
    ensures r in SourceRanges(n) <==> WrittenAt(root, here, r)
  {
    if n.kind.PathTable? {
      WrittenOnce(n, SourcePath(n));
      SpansOnce(SourcePath(n), r);
      forall idents | WrittenAs(n, idents) ensures idents == SourcePath(n) { WrittenOnce(n, idents); }
      hide WrittenAs, Spans, SourcePath, PathRange;
    }
  }

  lemma RangesOfKids(n: Node, r: Range)
    requires n.kind.ParenTable? || n.kind.Join?
    ensures r in SourceRanges(n) <==> exists k: nat :: k < |Kids(n)| && Step(n, k) && r in SourceRanges(Kids(n)[k])
  {
    if n.kind.Join? && |Kids(n)| > 1 && r in SourceRanges(Kids(n)[1]) { assert Step(n, 1); }
    if |Kids(n)| > 0 && r in SourceRanges(Kids(n)[0]) { assert Step(n, 0); }
  }

  lemma PathsOfSelect(root: Node, p: Address, r: Range)
    requires IsSelect(root, p)
    ensures r in SelectSourceRanges(NodeAt(root, p).value) <==> HasPath(root, p, r)
  {
    var n := NodeAt(root, p).value;
    NodeAtChild(root, p, n.kind.source);
    hide NodeAt, Leads, WrittenAt;
    if n.kind.source < |Kids(n)| {
      PathsOfSource(root, Kids(n)[n.kind.source], p + [n.kind.source], r);
      if t :| Leads(root, p + [n.kind.source], t) && WrittenAt(root, t, r) { assert TableOf(root, p, t); }
    } else {
      if t :| TableOf(root, p, t) { SourceExists(root, p, t); }
    }
  }

  lemma {:induction false} PathsAround(root: Node, a: Address, r: Range)
    ensures r in SourcesAround(root, a) <==> exists p :: TextNames.NearestSelect(root, p, a) && HasPath(root, p, r)
    decreases |a|
  {
    hide HasPath, SelectSourceRanges;
    if a != [] {
      var q := a[..|a| - 1];
      if IsSelect(root, q) {
        PathsOfSelect(root, q, r);
        assert TextNames.NearestSelect(root, q, a);
        forall p | TextNames.NearestSelect(root, p, a) ensures p == q { assert p <= q; }
      } else {
        PathsAround(root, q, r);
        forall p ensures TextNames.NearestSelect(root, p, a) <==> TextNames.NearestSelect(root, p, q) {
          NearestOut(root, p, a);
        }
      }
    }
  }

  lemma NearestOut(root: Node, p: Address, a: Address)
    requires a != [] && !IsSelect(root, a[..|a| - 1])
    ensures TextNames.NearestSelect(root, p, a) <==> TextNames.NearestSelect(root, p, a[..|a| - 1])
  {
    var q := a[..|a| - 1];
    if TextNames.NearestSelect(root, p, a) { assert p <= q && p != q; }
    if TextNames.NearestSelect(root, p, q) {
      forall c | p < c < a ensures !IsSelect(root, c) { assert c == q || c < q; }
    }
  }

  /** Which nodes carry a qualifier. */
  lemma QualifierIff(root: Node, a: Address, i: Ident)
    ensures Qualifier(root, a) == Some(i) <==> Qualifies(root, a, i)
  {
    hide HasPath, SourcesAround;
    if NodeAt(root, a).Some? && NodeAt(root, a).value.kind.Path? {
      var idents := NodeAt(root, a).value.kind.idents;
      PathsAround(root, a, PathRange(idents));
      forall r ensures Spans(idents, r) <==> r == PathRange(idents) { SpansOnce(idents, r); }
    }
  }

  /** The identifier at the place is bound to the declaration by the lexical rule. */
  ghost predicate BoundTo(root: Node, ctes: seq<Ctes.CteSite>, a: Address, i: Ident, decl: AliasDecl) {
    Qualifies(root, a, i) && ResolveAlias(root, a, Fold(i.name), ctes) == Bound(decl)
  }

  lemma SitesByEntries(sites: seq<AliasSite>, decls: seq<Event>, entries: seq<Event>, b: nat, r: Range)
    requires SitesAre(sites, decls, entries) && InOrder(decls) && b < |decls|
    ensures AliasSite(b, r, false) in sites <==> exists a, member :: Referred(a, decls[b].decl, r, member) in entries
    ensures AliasSite(b, r, true) in sites <==> exists e :: e in entries && e == decls[b] && r == e.alias.name.range
  {
    if AliasSite(b, r, false) in sites {
      var i :| 0 <= i < |sites| && sites[i] == AliasSite(b, r, false);
      assert SiteIs(sites[i], decls, entries[i]) && entries[i] in entries;
      assert entries[i] == Referred(entries[i].at, decls[b].decl, r, entries[i].member);
    }
    if a, member :| Referred(a, decls[b].decl, r, member) in entries {
      var i :| 0 <= i < |entries| && entries[i] == Referred(a, decls[b].decl, r, member);
      assert SiteIs(sites[i], decls, entries[i]) && sites[i] == AliasSite(b, r, false);
    }
    if AliasSite(b, r, true) in sites {
      var i :| 0 <= i < |sites| && sites[i] == AliasSite(b, r, true);
      assert SiteIs(sites[i], decls, entries[i]) && entries[i] in entries;
    }
    if decls[b] in entries && r == decls[b].alias.name.range {
      var i :| 0 <= i < |entries| && entries[i] == decls[b];
      assert SiteIs(sites[i], decls, entries[i]) && sites[i] == AliasSite(b, r, true);
    }
  }

  /** The sites of an index are the declarations and the references of its bindings. */
  lemma SitesOfBinding(index: AliasIndex, root: Node, ctes: seq<Ctes.CteSite>, b: nat, r: Range)
    requires Represents(index, root, ctes, Expected(root, ctes)) && b < |index.bindings|
    ensures AliasSite(b, r, false) in index.sites <==> r in index.bindings[b].referenceRanges
    ensures AliasSite(b, r, true) in index.sites <==> r == index.bindings[b].declarationRange
  {
    var log, decls := Expected(root, ctes), Decls(root, ctes);
    var entries := Keep(log, Sites);
    DeclsInOrder(root, ctes);
    assert BindingIs(index.bindings[b], decls, b, ReferenceRanges(log, decls[b].decl));
    assert SitesAre(index.sites, decls, entries);
    hide Represents, Expected, HasTwin, PointsToFirst, BindingsAre, SitesAre;
    ReferencesAreRecorded(log, decls[b].decl, r);
    SitesByEntries(index.sites, decls, entries, b, r);
    forall e ensures e in entries <==> e in log && !e.Opened? { KeepMembers(log, Sites, e); }
    KeepMembers(log, Declarations, decls[b]);
  }

  /** A range is a reference of a binding, and at a reference site of it, exactly when an
      identifier of that range qualifies something and is bound to its declaration. */
  lemma ReferredIff(index: AliasIndex, root: Node, ctes: seq<Ctes.CteSite>, b: nat, r: Range)
    requires IsIndexOf(index, root, ctes) && b < |index.bindings|
    ensures b < |Decls(root, ctes)|
    ensures r in index.bindings[b].referenceRanges <==>
            exists a, i: Ident :: i.range == r && BoundTo(root, ctes, a, i, Decls(root, ctes)[b].decl)
    ensures AliasSite(b, r, false) in index.sites <==> r in index.bindings[b].referenceRanges
    ensures AliasSite(b, r, true) in index.sites <==> r == index.bindings[b].declarationRange
  {
    var walked: AliasIndex :| IsSorted(index, walked) && Represents(walked, root, ctes, Expected(root, ctes));
    CollectedReferences(walked, root, ctes, b);
    PermutationMembers(index.sites, walked.sites);
    SitesOfBinding(walked, root, ctes, b, r);
    hide Represents, IsIndexOf, Expected, Qualifier, ResolveAlias, Fold, Qualifies, Decls;
    var decl := Decls(root, ctes)[b].decl;
    forall a, i: Ident ensures Qualifier(root, a) == Some(i) <==> Qualifies(root, a, i) { QualifierIff(root, a, i); }
    if r in index.bindings[b].referenceRanges {
      var a :| RefersTo(root, ctes, a, decl, r);
      assert BoundTo(root, ctes, a, Qualifier(root, a).value, decl);
    }
    if a, i: Ident :| i.range == r && BoundTo(root, ctes, a, i, decl) {
      assert Qualifier(root, a) == Some(i);
      assert RefersTo(root, ctes, a, decl, r);
    }
  }

  /** The place holds a path whose head is bound to the declaration and whose second name is the member. */
  ghost predicate MemberAt(root: Node, ctes: seq<Ctes.CteSite>, a: Address, idents: seq<Ident>, member: Ident,
                           decl: AliasDecl) {
    && NodeAt(root, a).Some? && NodeAt(root, a).value.kind == Path(idents)
    && |idents| >= 2 && idents[1] == member && BoundTo(root, ctes, a, idents[0], decl)
  }

  /** A member site is the second name of a path whose head is bound, under its binding. */
  lemma MemberIff(index: AliasIndex, root: Node, ctes: seq<Ctes.CteSite>, b: nat, member: Ident)
    requires IsIndexOf(index, root, ctes) && b < |Decls(root, ctes)|
    ensures MemberSite(b, member.name, member.range) in index.memberSites <==>
            exists a, idents :: MemberAt(root, ctes, a, idents, member, Decls(root, ctes)[b].decl)
  {
    hide IsIndexOf, Expected, Decls, NodeAt, MemberAt;
    SiteOfMember(index, root, ctes, b, member);
    var decl := Decls(root, ctes)[b].decl;
    if a, range :| Referred(a, decl, range, Some(member)) in Expected(root, ctes) {
      RecordedMember(root, ctes, a, decl, range, member);
      assert MemberAt(root, ctes, a, NodeAt(root, a).value.kind.idents, member, decl);
    }
    if a, idents: seq<Ident> :| MemberAt(root, ctes, a, idents, member, decl) {
      MemberRecorded(root, ctes, a, idents, member, decl);
      assert Referred(a, decl, idents[0].range, Some(member)) in Expected(root, ctes);
    }
  }

  lemma SiteOfMember(index: AliasIndex, root: Node, ctes: seq<Ctes.CteSite>, b: nat, member: Ident)
    requires IsIndexOf(index, root, ctes) && b < |Decls(root, ctes)|
    ensures MemberSite(b, member.name, member.range) in index.memberSites <==>
            exists a, range :: Referred(a, Decls(root, ctes)[b].decl, range, Some(member)) in Expected(root, ctes)
  {
    hide IsIndexOf, Expected, Decls, NodeAt, Keep, MembersAre;
    var members := Flags.IndexMembers(index, root, ctes);
    PermutationMembers(index.memberSites, members);
    DeclsInOrder(root, ctes);
    var log, entries := Expected(root, ctes), Keep(Expected(root, ctes), Members);
    MembersByEntries(members, Decls(root, ctes), entries, b, member);
    forall e ensures e in entries <==> e in log && e.Referred? && e.member.Some? { KeepMembers(log, Members, e); }
  }

  lemma MembersByEntries(members: seq<MemberSite>, decls: seq<Event>, entries: seq<Event>, b: nat, member: Ident)
    requires MembersAre(members, decls, entries) && InOrder(decls) && b < |decls|
    ensures MemberSite(b, member.name, member.range) in members <==>
            exists a, range :: Referred(a, decls[b].decl, range, Some(member)) in entries
  {
    var site := MemberSite(b, member.name, member.range);
    if site in members {
      var i :| 0 <= i < |members| && members[i] == site;
      assert MemberIs(members[i], decls, entries[i]) && entries[i] in entries;
      assert entries[i] == Referred(entries[i].at, decls[b].decl, entries[i].range, Some(member));
    }
    if a, range :| Referred(a, decls[b].decl, range, Some(member)) in entries {
      var i :| 0 <= i < |entries| && entries[i] == Referred(a, decls[b].decl, range, Some(member));
      assert MemberIs(members[i], decls, entries[i]) && members[i] == site;
    }
  }

  lemma RecordedMember(root: Node, ctes: seq<Ctes.CteSite>, a: Address, decl: AliasDecl, range: Range, member: Ident)
    requires Referred(a, decl, range, Some(member)) in Expected(root, ctes)
    ensures NodeAt(root, a).Some? && NodeAt(root, a).value.kind.Path?
    ensures MemberAt(root, ctes, a, NodeAt(root, a).value.kind.idents, member, decl)
  {
    RecordIsLexical(root, ctes, Referred(a, decl, range, Some(member)));
    hide Expected, ResolveAlias, Fold, NodeAt;
    HeadOf(root, a);
    QualifierIff(root, a, Qualifier(root, a).value);
    hide Qualifies, Qualifier;
  }

  lemma MemberRecorded(root: Node, ctes: seq<Ctes.CteSite>, a: Address, idents: seq<Ident>, member: Ident,
                       decl: AliasDecl)
    requires MemberAt(root, ctes, a, idents, member, decl)
    ensures |idents| >= 2 && Referred(a, decl, idents[0].range, Some(member)) in Expected(root, ctes)
  {
    RecordIsLexical(root, ctes, Referred(a, decl, idents[0].range, Some(member)));
    hide Expected, ResolveAlias, Fold, NodeAt;
    QualifierIff(root, a, idents[0]);
    hide Qualifies, Qualifier;
  }

  lemma HeadOf(root: Node, a: Address)
    requires Qualifier(root, a).Some? && NodeAt(root, a).Some? && MemberOf(NodeAt(root, a).value).Some?
    ensures var n := NodeAt(root, a).value;
            n.kind.Path? && |n.kind.idents| >= 2 && Qualifier(root, a) == Some(n.kind.idents[0]) &&
              MemberOf(n) == Some(n.kind.idents[1])
  {
    hide SourcesAround;
  }
}
