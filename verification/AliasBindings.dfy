/** The table-alias binder: scope maps cloned at each SELECT, binding records
    flagged and extended in place, proved equal to the lexical rule. */
module AliasBindings {
  import opened Coordinates
  import opened Syntax
  import opened Sorting
  import Ctes = CteBindings

  // ----- The lexical rule -----

  /** The index-th alias that the FROM clause of the SELECT at `select` declares. */
  datatype AliasDecl = AliasDecl(select: Address, index: nat)

  datatype Source = NoSource | FromTable(name: string) | FromCte(binding: nat) | FromQuery(query: Node)

  datatype Alias = Alias(name: Ident, source: Source)

  function SourcePath(table: Node): seq<Ident> {
    if Kids(table) != [] && Kids(table)[0].kind.Path? then Kids(table)[0].kind.idents else []
  }

  /** What an alias of a named table stands for: a CTE if the CTE binder found one. */
  function NamedSource(name: string, range: Range, ctes: seq<Ctes.CteSite>): Source {
    match Ctes.BindingForReference(ctes, range)
    case Some(b) => FromCte(b)
    case None => FromTable(name)
  }

  function Optional(name: Option<Ident>, source: Source): seq<Alias> {
    if name.Some? then [Alias(name.value, source)] else []
  }

  /** The aliases declared by a FROM source, left to right. */
  function FromAliases(table: Node, ctes: seq<Ctes.CteSite>): seq<Alias> {
    match table.kind
    case TableName(name, alias) => Optional(alias, NamedSource(name.name, name.range, ctes))
    case PathTable(alias, offset) =>
      Optional(alias, NamedSource(Dotted(SourcePath(table)), PathRange(SourcePath(table)), ctes)) +
        Optional(offset, NoSource)
    case SubQueryTable(alias) => Optional(alias, if Kids(table) != [] then FromQuery(Kids(table)[0]) else NoSource)
    case Unnest(alias, offset) => Optional(alias, NoSource) + Optional(offset, NoSource)
    case ParenTable => if Kids(table) != [] then FromAliases(Kids(table)[0], ctes) else []
    case Join =>
      (if |Kids(table)| > 0 then FromAliases(Kids(table)[0], ctes) else []) +
      (if |Kids(table)| > 1 then FromAliases(Kids(table)[1], ctes) else [])
    case _ => []
  }

  function SelectAliases(select: Node, ctes: seq<Ctes.CteSite>): seq<Alias> {
    if select.kind.Select? && select.kind.source < |Kids(select)|
    then FromAliases(Kids(select)[select.kind.source], ctes) else []
  }

  function Key(a: Alias): string {
    Fold(a.name.name)
  }

  datatype Lookup = Unbound | Ambiguous | Bound(decl: AliasDecl)

  /** The first of the aliases from position i on that carries the key. */
  function FirstFrom(aliases: seq<Alias>, i: nat, key: string): (r: Option<nat>)
    requires i <= |aliases|
    ensures r.Some? ==> i <= r.value < |aliases| && Key(aliases[r.value]) == key
    ensures forall j :: i <= j < (if r.Some? then r.value else |aliases|) ==> Key(aliases[j]) != key
    decreases |aliases| - i
  {
    if i == |aliases| then None
    else if Key(aliases[i]) == key then Some(i)
    else FirstFrom(aliases, i + 1, key)
  }

  /** One alias with the key is bound, two or more are ambiguous. */
  function Local(aliases: seq<Alias>, select: Address, key: string): Lookup {
    match FirstFrom(aliases, 0, key)
    case None => Unbound
    case Some(i) => if FirstFrom(aliases, i + 1, key).None? then Bound(AliasDecl(select, i)) else Ambiguous
  }

  /** The lexical rule: what a name means just inside the node at `a`. A SELECT
      that declares the key, even ambiguously, hides every outer declaration. */
  function Inside(root: Node, a: Address, key: string, ctes: seq<Ctes.CteSite>): Lookup
    decreases |a|, 1
  {
    var n := NodeAt(root, a);
    var local := if n.Some? then Local(SelectAliases(n.value, ctes), a, key) else Unbound;
    if local.Unbound? then ResolveAlias(root, a, key, ctes) else local
  }

  function ResolveAlias(root: Node, a: Address, key: string, ctes: seq<Ctes.CteSite>): Lookup
    decreases |a|, 0
  {
    if a == [] then Unbound else Inside(root, a[..|a| - 1], key, ctes)
  }

  // ----- What a walk must record -----

  /** The ranges of the paths that a FROM source consists of. */
  function SourceRanges(table: Node): set<Range> {
    match table.kind
    case PathTable(_, _) => {PathRange(SourcePath(table))}
    case ParenTable => if Kids(table) != [] then SourceRanges(Kids(table)[0]) else {}
    case Join =>
      (if |Kids(table)| > 0 then SourceRanges(Kids(table)[0]) else {}) +
      (if |Kids(table)| > 1 then SourceRanges(Kids(table)[1]) else {})
    case _ => {}
  }

  function SelectSourceRanges(select: Node): set<Range> {
    if select.kind.Select? && select.kind.source < |Kids(select)|
    then SourceRanges(Kids(select)[select.kind.source]) else {}
  }

  /** The source paths of the nearest SELECT around the place `a`. */
  function SourcesAround(root: Node, a: Address): set<Range> {
    if a == [] then {}
    else
      var p := a[..|a| - 1];
      if NodeAt(root, p).Some? && NodeAt(root, p).value.kind.Select? then SelectSourceRanges(NodeAt(root, p).value)
      else SourcesAround(root, p)
  }

  /** The identifier of a node that is looked up as an alias: the first part of
      a path that is not a FROM source, or the qualifier of `x.*`. */
  function QualifierOf(n: Node, sources: set<Range>): Option<Ident> {
    match n.kind
    case Path(idents) => if |idents| >= 2 && PathRange(idents) !in sources then Some(idents[0]) else None
    case DotStar(qualifier) => qualifier
    case _ => None
  }

  function MemberOf(n: Node): Option<Ident> {
    if n.kind.Path? && |n.kind.idents| >= 2 then Some(n.kind.idents[1]) else None
  }

  function Qualifier(root: Node, a: Address): Option<Ident> {
    if NodeAt(root, a).Some? then QualifierOf(NodeAt(root, a).value, SourcesAround(root, a)) else None
  }

  datatype Event =
    | Declared(decl: AliasDecl, alias: Alias)
    | Opened(at: Address, range: Range)
    | Referred(at: Address, decl: AliasDecl, range: Range, member: Option<Ident>)

  function DeclarationEvents(select: Address, aliases: seq<Alias>): (es: seq<Event>)
    ensures |es| == |aliases|
    ensures forall i :: 0 <= i < |es| ==> es[i] == Declared(AliasDecl(select, i), aliases[i])
  {
    seq(|aliases|, i requires 0 <= i < |aliases| => Declared(AliasDecl(select, i), aliases[i]))
  }

  /** The record of one node, by the lexical rule. */
  function OwnEvents(root: Node, a: Address, ctes: seq<Ctes.CteSite>): seq<Event> {
    var n := NodeAt(root, a);
    if n.None? then []
    else if n.value.kind.Select? then
      DeclarationEvents(a, SelectAliases(n.value, ctes)) + [Opened(a, n.value.kind.range)]
    else
      var q := Qualifier(root, a);
      if q.None? then []
      else match ResolveAlias(root, a, Fold(q.value.name), ctes)
        case Bound(decl) => [Referred(a, decl, q.value.range, MemberOf(n.value))]
        case _ => []
  }

  /** The record of a list of places, in order. */
  function Record(root: Node, places: seq<Address>, ctes: seq<Ctes.CteSite>): seq<Event> {
    if places == [] then [] else OwnEvents(root, places[0], ctes) + Record(root, places[1..], ctes)
  }

  /** The record of a document. */
  function Expected(root: Node, ctes: seq<Ctes.CteSite>): seq<Event> {
    Record(root, Preorder(root, []), ctes)
  }

  lemma {:induction false} RecordAppend(root: Node, x: seq<Address>, y: seq<Address>, ctes: seq<Ctes.CteSite>)
    ensures Record(root, x + y, ctes) == Record(root, x, ctes) + Record(root, y, ctes)
  {
    if x == [] {
      assert x + y == y;
    } else {
      assert (x + y)[1..] == x[1..] + y;
      RecordAppend(root, x[1..], y, ctes);
    }
  }

  lemma {:induction false} RecordMembers(root: Node, places: seq<Address>, ctes: seq<Ctes.CteSite>, e: Event)
    ensures e in Record(root, places, ctes) <==> exists a :: a in places && e in OwnEvents(root, a, ctes)
  {
    if places != [] { RecordMembers(root, places[1..], ctes, e); }
  }

  /** What the lexical rule says of one entry. */
  ghost predicate ByRule(root: Node, ctes: seq<Ctes.CteSite>, e: Event) {
    match e
    case Referred(a, decl, range, member) =>
      && Qualifier(root, a).Some? && Qualifier(root, a).value.range == range
      && member == MemberOf(NodeAt(root, a).value)
      && ResolveAlias(root, a, Fold(Qualifier(root, a).value.name), ctes) == Bound(decl)
    case Declared(decl, alias) =>
      && NodeAt(root, decl.select).Some?
      && decl.index < |SelectAliases(NodeAt(root, decl.select).value, ctes)|
      && alias == SelectAliases(NodeAt(root, decl.select).value, ctes)[decl.index]
    case Opened(a, range) =>
      NodeAt(root, a).Some? && NodeAt(root, a).value.kind.Select? && NodeAt(root, a).value.kind.range == range
  }

  function PlaceOf(e: Event): Address {
    match e
    case Referred(a, _, _, _) => a
    case Declared(decl, _) => decl.select
    case Opened(a, _) => a
  }

  lemma OwnEventsByRule(root: Node, a: Address, ctes: seq<Ctes.CteSite>, e: Event)
    ensures e in OwnEvents(root, a, ctes) <==> a == PlaceOf(e) && ByRule(root, ctes, e)
  {
    if NodeAt(root, a).Some? && NodeAt(root, a).value.kind.Select? {
      var own := DeclarationEvents(a, SelectAliases(NodeAt(root, a).value, ctes));
      if a == PlaceOf(e) && ByRule(root, ctes, e) && e.Declared? { assert own[e.decl.index] == e; }
    }
  }

  /** The record of a document holds a reference from `a` to a declaration
      exactly when `a` carries a qualifier that the lexical rule binds to it. */
  lemma RecordIsLexical(root: Node, ctes: seq<Ctes.CteSite>, e: Event)
    ensures e in Expected(root, ctes) <==> ByRule(root, ctes, e)
  {
    RecordMembers(root, Preorder(root, []), ctes, e);
    PreorderIsWhole(root);
    forall a ensures e in OwnEvents(root, a, ctes) <==> a == PlaceOf(e) && ByRule(root, ctes, e) {
      OwnEventsByRule(root, a, ctes, e);
    }
  }

  // ----- The index and what it must say -----

  /** `duplicateOf` and `binding` are positions in the list of bindings. */
  datatype AliasBinding = AliasBinding(
    name: string, declarationRange: Range, source: Source, referenceRanges: seq<Range>,
    ambiguous: bool, duplicateOf: Option<nat>)

  datatype AliasSite = AliasSite(binding: nat, range: Range, declaration: bool)

  datatype MemberSite = MemberSite(binding: nat, name: string, range: Range)

  /** In a scope map a name is absent, bound, or blocked (`None`). */
  type Scope = map<string, Option<nat>>

  datatype AliasScope = AliasScope(range: Range, bindings: Scope)

  datatype AliasIndex = AliasIndex(
    bindings: seq<AliasBinding>, sites: seq<AliasSite>, memberSites: seq<MemberSite>, scopes: seq<AliasScope>)

  datatype Part = Declarations | Sites | Members | Scopes

  predicate Belongs(e: Event, part: Part) {
    match part
    case Declarations => e.Declared?
    case Sites => !e.Opened?
    case Members => e.Referred? && e.member.Some?
    case Scopes => e.Opened?
  }

  /** The entries of one sort, in order. */
  function Keep(log: seq<Event>, part: Part): (kept: seq<Event>)
    ensures forall i :: 0 <= i < |kept| ==> Belongs(kept[i], part)
  {
    if log == [] then []
    else Keep(log[..|log| - 1], part) + (if Belongs(log[|log| - 1], part) then [log[|log| - 1]] else [])
  }

  lemma {:induction false} KeepMembers(log: seq<Event>, part: Part, e: Event)
    ensures e in Keep(log, part) <==> e in log && Belongs(e, part)
  {
    if log != [] { KeepMembers(log[..|log| - 1], part, e); }
  }

  lemma KeepAppend(log: seq<Event>, e: Event, part: Part)
    ensures Keep(log + [e], part) == Keep(log, part) + (if Belongs(e, part) then [e] else [])
  {
    assert (log + [e])[..|log|] == log;
  }

  ghost function ReferenceRanges(log: seq<Event>, decl: AliasDecl): seq<Range> {
    if log == [] then []
    else
      var e := log[|log| - 1];
      ReferenceRanges(log[..|log| - 1], decl) + (if e.Referred? && e.decl == decl then [e.range] else [])
  }

  lemma ReferenceRangesAppend(log: seq<Event>, e: Event, decl: AliasDecl)
    ensures ReferenceRanges(log + [e], decl) ==
            ReferenceRanges(log, decl) + (if e.Referred? && e.decl == decl then [e.range] else [])
  {
    assert (log + [e])[..|log|] == log;
  }

  /** Two declarations of the same name in the same FROM clause. */
  predicate Twins(d: Event, e: Event)
    requires d.Declared? && e.Declared?
  {
    d.decl.select == e.decl.select && Key(d.alias) == Key(e.alias)
  }

  ghost predicate AllDeclared(decls: seq<Event>) {
    forall i :: 0 <= i < |decls| ==> decls[i].Declared?
  }

  ghost predicate HasTwin(decls: seq<Event>, b: nat)
    requires AllDeclared(decls) && b < |decls|
  {
    exists c :: 0 <= c < |decls| && c != b && Twins(decls[c], decls[b])
  }

  /** `duplicateOf` is the first declaration of the name, if that is another one. */
  ghost predicate PointsToFirst(decls: seq<Event>, b: nat, duplicateOf: Option<nat>)
    requires AllDeclared(decls) && b < |decls|
  {
    && (duplicateOf.Some? ==> duplicateOf.value < b && Twins(decls[duplicateOf.value], decls[b]))
    && forall c :: 0 <= c < (if duplicateOf.Some? then duplicateOf.value else b) ==> !Twins(decls[c], decls[b])
  }

  ghost predicate BindingIs(binding: AliasBinding, decls: seq<Event>, b: nat, ranges: seq<Range>)
    requires AllDeclared(decls) && b < |decls|
  {
    && binding.name == decls[b].alias.name.name && binding.declarationRange == decls[b].alias.name.range
    && binding.source == decls[b].alias.source
    && binding.referenceRanges == ranges
    && (binding.ambiguous <==> HasTwin(decls, b))
    && PointsToFirst(decls, b, binding.duplicateOf)
  }

  ghost predicate BindingsAre(bindings: seq<AliasBinding>, decls: seq<Event>, log: seq<Event>) {
    && AllDeclared(decls) && |bindings| == |decls|
    && forall b :: 0 <= b < |bindings| ==> BindingIs(bindings[b], decls, b, ReferenceRanges(log, decls[b].decl))
  }

  ghost predicate SiteIs(site: AliasSite, decls: seq<Event>, e: Event) {
    && site.binding < |decls| && decls[site.binding].Declared?
    && match e
       case Declared(_, alias) => site.declaration && site.range == alias.name.range && decls[site.binding] == e
       case Referred(_, decl, range, _) => !site.declaration && site.range == range && decls[site.binding].decl == decl
       case Opened(_, _) => false
  }

  ghost predicate SitesAre(sites: seq<AliasSite>, decls: seq<Event>, entries: seq<Event>) {
    && |sites| == |entries|
    && forall i :: 0 <= i < |sites| ==> SiteIs(sites[i], decls, entries[i])
  }

  ghost predicate MemberIs(site: MemberSite, decls: seq<Event>, e: Event) {
    && site.binding < |decls| && decls[site.binding].Declared?
    && e.Referred? && e.member.Some? && decls[site.binding].decl == e.decl
    && site.name == e.member.value.name && site.range == e.member.value.range
  }

  ghost predicate MembersAre(sites: seq<MemberSite>, decls: seq<Event>, entries: seq<Event>) {
    && |sites| == |entries|
    && forall i :: 0 <= i < |sites| ==> MemberIs(sites[i], decls, entries[i])
  }

  /** What a scope map makes of a key. */
  function Meaning(scope: Scope, key: string, decls: seq<Event>): Lookup {
    if key !in scope then Unbound
    else match scope[key]
      case None => Ambiguous
      case Some(b) => if b < |decls| && decls[b].Declared? then Bound(decls[b].decl) else Unbound
  }

  ghost predicate InRange(scope: Scope, decls: seq<Event>) {
    forall key :: key in scope && scope[key].Some? ==> scope[key].value < |decls| && decls[scope[key].value].Declared?
  }

  ghost predicate ScopeIs(scope: AliasScope, root: Node, ctes: seq<Ctes.CteSite>, decls: seq<Event>, e: Event) {
    && e.Opened? && scope.range == e.range && InRange(scope.bindings, decls)
    && forall key :: Meaning(scope.bindings, key, decls) == Inside(root, e.at, key, ctes)
  }

  ghost predicate ScopesAre(scopes: seq<AliasScope>, root: Node, ctes: seq<Ctes.CteSite>, decls: seq<Event>,
                            entries: seq<Event>) {
    && |scopes| == |entries|
    && forall i :: 0 <= i < |scopes| ==> ScopeIs(scopes[i], root, ctes, decls, entries[i])
  }

  /** The index says exactly what the record says. */
  ghost predicate Represents(index: AliasIndex, root: Node, ctes: seq<Ctes.CteSite>, log: seq<Event>) {
    match index
    case AliasIndex(bindings, sites, memberSites, scopes) =>
      var decls := Keep(log, Declarations);
      && BindingsAre(bindings, decls, log)
      && SitesAre(sites, decls, Keep(log, Sites))
      && MembersAre(memberSites, decls, Keep(log, Members))
      && ScopesAre(scopes, root, ctes, decls, Keep(log, Scopes))
  }

  ghost predicate DistinctDecls(decls: seq<Event>) {
    && AllDeclared(decls)
    && forall i, j :: 0 <= i < j < |decls| ==> decls[i].decl != decls[j].decl
  }

  ghost predicate Knows(decls: seq<Event>, decl: AliasDecl) {
    exists d :: d in decls && d.Declared? && d.decl == decl
  }

  /** Declarations have identities of their own, and references only go to them. */
  ghost predicate Consistent(log: seq<Event>) {
    && DistinctDecls(Keep(log, Declarations))
    && forall e :: e in log && e.Referred? ==> Knows(Keep(log, Declarations), e.decl)
  }

  lemma ConsistentAppend(log: seq<Event>, e: Event)
    requires Consistent(log)
    requires e.Declared? ==> !Knows(Keep(log, Declarations), e.decl)
    requires e.Referred? ==> Knows(Keep(log, Declarations), e.decl)
    ensures Consistent(log + [e])
  {
    KeepAppend(log, e, Declarations);
    var decls, decls' := Keep(log, Declarations), Keep(log + [e], Declarations);
    forall i, j | 0 <= i < j < |decls'| ensures decls'[i].decl != decls'[j].decl {
      if j == |decls| { assert decls[i] in decls; }
    }
    forall f | f in log + [e] && f.Referred? ensures Knows(decls', f.decl) {
      var d :| d in decls && d.Declared? && d.decl == f.decl;
      assert d in decls';
    }
  }

  lemma {:induction false} NoReferencesYet(log: seq<Event>, decl: AliasDecl)
    requires forall e :: e in log && e.Referred? ==> e.decl != decl
    ensures ReferenceRanges(log, decl) == []
  {
    if log != [] { NoReferencesYet(log[..|log| - 1], decl); }
  }

  // ----- One more entry keeps the index faithful -----

  lemma TwinsGrow(decls: seq<Event>, e: Event, first: Option<nat>, b: nat)
    requires AllDeclared(decls) && AllDeclared(decls + [e]) && b < |decls|
    requires PointsToFirst(decls + [e], |decls|, first)
    ensures HasTwin(decls + [e], b) <==> HasTwin(decls, b) || first == Some(b)
  {
    var decls' := decls + [e];
    if HasTwin(decls, b) {
      var c :| 0 <= c < |decls| && c != b && Twins(decls[c], decls[b]);
      assert Twins(decls'[c], decls'[b]);
    }
    assert decls'[|decls|] == e && decls'[b] == decls[b] && decls'[b].Declared? && e.Declared?;
    assert Twins(decls'[b], e) ==> first.Some?;
    if first.Some? {
      assert decls'[first.value] == decls[first.value] && decls[first.value].Declared?;
      assert Twins(decls'[first.value], e);
    }
  }

  lemma PointsToFirstGrows(decls: seq<Event>, e: Event, b: nat, duplicateOf: Option<nat>)
    requires AllDeclared(decls + [e]) && AllDeclared(decls) && b < |decls| && PointsToFirst(decls, b, duplicateOf)
    ensures PointsToFirst(decls + [e], b, duplicateOf)
  {
    var decls' := decls + [e];
    forall c | 0 <= c < (if duplicateOf.Some? then duplicateOf.value else b) ensures !Twins(decls'[c], decls'[b]) {
      assert !Twins(decls[c], decls[b]);
    }
  }

  function WithDeclaration(bindings: seq<AliasBinding>, alias: Alias, first: Option<nat>): seq<AliasBinding> {
    (if first.Some? && first.value < |bindings| then bindings[first.value := bindings[first.value].(ambiguous := true)]
        else bindings)
    + [AliasBinding(alias.name.name, alias.name.range, alias.source, [], first.Some?, first)]
  }

  lemma BindingsDeclare(bindings: seq<AliasBinding>, decls: seq<Event>, log: seq<Event>, e: Event, first: Option<nat>)
    requires BindingsAre(bindings, decls, log) && e.Declared?
    requires forall f :: f in log && f.Referred? ==> f.decl != e.decl
    requires PointsToFirst(decls + [e], |decls|, first)
    ensures BindingsAre(WithDeclaration(bindings, e.alias, first), decls + [e], log + [e])
  {
    var decls' := decls + [e];
    var bindings' := WithDeclaration(bindings, e.alias, first);
    forall b | 0 <= b < |bindings'|
      ensures BindingIs(bindings'[b], decls', b, ReferenceRanges(log + [e], decls'[b].decl))
    {
      ReferenceRangesAppend(log, e, decls'[b].decl);
      if b < |bindings| {
        assert BindingIs(bindings[b], decls, b, ReferenceRanges(log, decls[b].decl));
        TwinsGrow(decls, e, first, b);
        PointsToFirstGrows(decls, e, b, bindings[b].duplicateOf);
      } else {
        NoReferencesYet(log, e.decl);
        if first.Some? { assert Twins(decls'[first.value], decls'[b]); }
      }
    }
  }

  lemma ViewsGrow(index: AliasIndex, root: Node, ctes: seq<Ctes.CteSite>, log: seq<Event>, decls: seq<Event>,
                  more: seq<Event>)
    requires SitesAre(index.sites, decls, Keep(log, Sites))
    requires MembersAre(index.memberSites, decls, Keep(log, Members))
    requires ScopesAre(index.scopes, root, ctes, decls, Keep(log, Scopes))
    ensures SitesAre(index.sites, decls + more, Keep(log, Sites))
    ensures MembersAre(index.memberSites, decls + more, Keep(log, Members))
    ensures ScopesAre(index.scopes, root, ctes, decls + more, Keep(log, Scopes))
  {
    forall i | 0 <= i < |index.sites| ensures SiteIs(index.sites[i], decls + more, Keep(log, Sites)[i]) {
      assert SiteIs(index.sites[i], decls, Keep(log, Sites)[i]);
    }
    forall i | 0 <= i < |index.memberSites|
      ensures MemberIs(index.memberSites[i], decls + more, Keep(log, Members)[i])
    {
      assert MemberIs(index.memberSites[i], decls, Keep(log, Members)[i]);
    }
    forall i | 0 <= i < |index.scopes|
      ensures ScopeIs(index.scopes[i], root, ctes, decls + more, Keep(log, Scopes)[i])
    {
      assert ScopeIs(index.scopes[i], root, ctes, decls, Keep(log, Scopes)[i]);
      MeaningStable(index.scopes[i].bindings, decls, more);
    }
  }

  lemma MeaningStable(scope: Scope, decls: seq<Event>, more: seq<Event>)
    requires InRange(scope, decls)
    ensures InRange(scope, decls + more)
    ensures forall key :: Meaning(scope, key, decls + more) == Meaning(scope, key, decls)
  {
  }

  lemma AppendDeclared(index: AliasIndex, root: Node, ctes: seq<Ctes.CteSite>, log: seq<Event>, e: Event,
                       first: Option<nat>)
    requires Represents(index, root, ctes, log) && Consistent(log)
    requires e.Declared? && !Knows(Keep(log, Declarations), e.decl)
    requires PointsToFirst(Keep(log, Declarations) + [e], |Keep(log, Declarations)|, first)
    ensures Represents(index.(bindings := WithDeclaration(index.bindings, e.alias, first),
                              sites := index.sites + [AliasSite(|index.bindings|, e.alias.name.range, true)]), root,
                                ctes, log + [e])
    ensures Consistent(log + [e]) && Keep(log + [e], Declarations) == Keep(log, Declarations) + [e]
  {
    var decls := Keep(log, Declarations);
    ConsistentAppend(log, e);
    KeepAppend(log, e, Declarations);
    KeepAppend(log, e, Sites);
    KeepAppend(log, e, Members);
    KeepAppend(log, e, Scopes);
    BindingsDeclare(index.bindings, decls, log, e, first);
    ViewsGrow(index, root, ctes, log, decls, [e]);
    SitesExtend(index.sites, decls + [e], Keep(log, Sites), AliasSite(|index.bindings|, e.alias.name.range, true), e);
  }

  lemma SitesExtend(sites: seq<AliasSite>, decls: seq<Event>, entries: seq<Event>, site: AliasSite, e: Event)
    requires SitesAre(sites, decls, entries) && SiteIs(site, decls, e)
    ensures SitesAre(sites + [site], decls, entries + [e])
  {
  }

  lemma BindingsRefer(bindings: seq<AliasBinding>, decls: seq<Event>, log: seq<Event>, e: Event, b: nat)
    requires BindingsAre(bindings, decls, log) && DistinctDecls(decls)
    requires e.Referred? && b < |bindings| && decls[b].decl == e.decl
    ensures BindingsAre(bindings[b := bindings[b].(referenceRanges := bindings[b].referenceRanges + [e.range])], decls,
              log + [e])
  {
    var bindings' := bindings[b := bindings[b].(referenceRanges := bindings[b].referenceRanges + [e.range])];
    forall c | 0 <= c < |bindings|
      ensures BindingIs(bindings'[c], decls, c, ReferenceRanges(log + [e], decls[c].decl))
    {
      ReferenceRangesAppend(log, e, decls[c].decl);
      assert BindingIs(bindings[c], decls, c, ReferenceRanges(log, decls[c].decl));
      assert c != b ==> decls[c].decl != decls[b].decl;
    }
  }

  function MemberSites(b: nat, member: Option<Ident>): seq<MemberSite> {
    if member.Some? then [MemberSite(b, member.value.name, member.value.range)] else []
  }

  function WithReference(index: AliasIndex, b: nat, range: Range, member: Option<Ident>): AliasIndex
    requires b < |index.bindings|
  {
    AliasIndex(index.bindings[b := index.bindings[b].(referenceRanges := index.bindings[b].referenceRanges + [range])],
               index.sites + [AliasSite(b, range, false)], index.memberSites + MemberSites(b, member), index.scopes)
  }

  lemma AppendReferred(index: AliasIndex, root: Node, ctes: seq<Ctes.CteSite>, log: seq<Event>, e: Event, b: nat)
    requires Represents(index, root, ctes, log) && Consistent(log)
    requires e.Referred? && b < |index.bindings| && Keep(log, Declarations)[b].decl == e.decl
    ensures Represents(WithReference(index, b, e.range, e.member), root, ctes, log + [e])
    ensures Consistent(log + [e]) && Keep(log + [e], Declarations) == Keep(log, Declarations)
  {
    var decls := Keep(log, Declarations);
    assert |decls| == |index.bindings| && decls[b] in decls && Knows(decls, e.decl) && DistinctDecls(decls);
    hide BindingsAre, MembersAre, ScopesAre, Consistent, DistinctDecls, Knows;
    ConsistentAppend(log, e);
    KeepAppend(log, e, Declarations);
    KeepAppend(log, e, Sites);
    KeepAppend(log, e, Members);
    KeepAppend(log, e, Scopes);
    assert decls + [] == decls && Keep(log, Scopes) + [] == Keep(log, Scopes);
    BindingsRefer(index.bindings, decls, log, e, b);
    SitesExtend(index.sites, decls, Keep(log, Sites), AliasSite(b, e.range, false), e);
    MembersExtend(index.memberSites, decls, Keep(log, Members), b, e);
  }

  lemma MembersExtend(sites: seq<MemberSite>, decls: seq<Event>, entries: seq<Event>, b: nat, e: Event)
    requires MembersAre(sites, decls, entries) && e.Referred?
    requires b < |decls| && decls[b].Declared? && decls[b].decl == e.decl
    ensures MembersAre(sites + MemberSites(b, e.member), decls, entries + if Belongs(e, Members) then [e] else [])
  {
  }

  lemma ScopesExtend(scopes: seq<AliasScope>, root: Node, ctes: seq<Ctes.CteSite>, decls: seq<Event>,
                     entries: seq<Event>, scope: AliasScope, e: Event)
    requires ScopesAre(scopes, root, ctes, decls, entries) && ScopeIs(scope, root, ctes, decls, e)
    ensures ScopesAre(scopes + [scope], root, ctes, decls, entries + [e])
  {
    forall i | 0 <= i < |scopes| + 1 ensures ScopeIs((scopes + [scope])[i], root, ctes, decls, (entries + [e])[i]) {
      if i < |scopes| { assert ScopeIs(scopes[i], root, ctes, decls, entries[i]); }
    }
  }

  lemma BindingsKeep(bindings: seq<AliasBinding>, decls: seq<Event>, log: seq<Event>, e: Event)
    requires BindingsAre(bindings, decls, log) && e.Opened?
    ensures BindingsAre(bindings, decls, log + [e])
  {
    forall b | 0 <= b < |decls| ensures BindingIs(bindings[b], decls, b, ReferenceRanges(log + [e], decls[b].decl)) {
      ReferenceRangesAppend(log, e, decls[b].decl);
      assert BindingIs(bindings[b], decls, b, ReferenceRanges(log, decls[b].decl));
    }
  }

  lemma AppendOpened(index: AliasIndex, root: Node, ctes: seq<Ctes.CteSite>, log: seq<Event>, e: Event,
                     scope: AliasScope)
    requires Represents(index, root, ctes, log) && Consistent(log)
    requires e.Opened? && ScopeIs(scope, root, ctes, Keep(log, Declarations), e)
    ensures Represents(index.(scopes := index.scopes + [scope]), root, ctes, log + [e])
    ensures Consistent(log + [e]) && Keep(log + [e], Declarations) == Keep(log, Declarations)
  {
    ConsistentAppend(log, e);
    KeepAppend(log, e, Declarations);
    KeepAppend(log, e, Sites);
    KeepAppend(log, e, Members);
    KeepAppend(log, e, Scopes);
    hide BindingsAre, SitesAre, MembersAre, ScopesAre, Consistent;
    assert Keep(log, Declarations) + [] == Keep(log, Declarations);
    assert Keep(log, Sites) + [] == Keep(log, Sites) && Keep(log, Members) + [] == Keep(log, Members);
    BindingsKeep(index.bindings, Keep(log, Declarations), log, e);
    ScopesExtend(index.scopes, root, ctes, Keep(log, Declarations), Keep(log, Scopes), scope, e);
  }

  // ----- Collecting the aliases of one FROM clause -----

  lemma {:induction false} FirstAppend(aliases: seq<Alias>, x: Alias, i: nat, key: string)
    requires i <= |aliases|
    ensures FirstFrom(aliases + [x], i, key) ==
            if FirstFrom(aliases, i, key).Some? then FirstFrom(aliases, i, key)
            else if Key(x) == key then Some(|aliases|) else None
    decreases |aliases| - i
  {
    if i < |aliases| {
      assert (aliases + [x])[i] == aliases[i];
      FirstAppend(aliases, x, i + 1, key);
    } else {
      assert FirstFrom(aliases + [x], |aliases| + 1, key).None?;
    }
  }

  lemma LocalAppend(aliases: seq<Alias>, x: Alias, select: Address, key: string)
    ensures Local(aliases + [x], select, key) ==
            if Key(x) != key then Local(aliases, select, key)
            else if FirstFrom(aliases, 0, key).None? then Bound(AliasDecl(select, |aliases|))
            else Ambiguous
  {
    FirstAppend(aliases, x, 0, key);
    match FirstFrom(aliases, 0, key)
    case Some(i) => FirstAppend(aliases, x, i + 1, key);
    case None => assert FirstFrom(aliases + [x], |aliases| + 1, key).None?;
  }

  /** The local map holds the first alias of every name; positions count from `base`. */
  ghost predicate LocalIs(local: map<string, nat>, base: nat, aliases: seq<Alias>) {
    forall key ::
      && (key in local <==> FirstFrom(aliases, 0, key).Some?)
      && (key in local ==> local[key] == base + FirstFrom(aliases, 0, key).value)
  }

  /** What a key means once the given aliases of the SELECT are declared. */
  function SoFar(root: Node, select: Address, aliases: seq<Alias>, key: string, ctes: seq<Ctes.CteSite>): Lookup {
    var local := Local(aliases, select, key);
    if local.Unbound? then ResolveAlias(root, select, key, ctes) else local
  }

  ghost predicate ScopeSoFar(scope: Scope, root: Node, select: Address, aliases: seq<Alias>, ctes: seq<Ctes.CteSite>,
                             decls: seq<Event>) {
    && InRange(scope, decls)
    && forall key :: Meaning(scope, key, decls) == SoFar(root, select, aliases, key, ctes)
  }

  ghost predicate Fresh(decls: seq<Event>, select: Address) {
    forall i :: 0 <= i < |decls| ==> decls[i].Declared? && decls[i].decl.select != select
  }

  /** The state of a FROM clause half collected; `before` is the record at its start. */
  ghost predicate Collecting(root: Node, select: Address, ctes: seq<Ctes.CteSite>, before: seq<Event>,
                             aliases: seq<Alias>,
                             scope: Scope, local: map<string, nat>, log: seq<Event>) {
    var earlier := Keep(before, Declarations);
    && log == before + DeclarationEvents(select, aliases)
    && Fresh(earlier, select) && Keep(log, Declarations) == earlier + DeclarationEvents(select, aliases)
    && LocalIs(local, |earlier|, aliases)
    && ScopeSoFar(scope, root, select, aliases, ctes, Keep(log, Declarations))
  }

  lemma CollectFirst(select: Address, earlier: seq<Event>, aliases: seq<Alias>, local: map<string, nat>, alias: Alias,
                     first: Option<nat>)
    requires Fresh(earlier, select) && LocalIs(local, |earlier|, aliases)
    requires first == if Key(alias) in local then Some(local[Key(alias)]) else None
    ensures var decls := earlier + DeclarationEvents(select, aliases);
            var e := Declared(AliasDecl(select, |aliases|), alias);
            AllDeclared(decls + [e]) && PointsToFirst(decls + [e], |decls|, first) && !Knows(decls, e.decl)
            && decls + [e] == earlier + DeclarationEvents(select, aliases + [alias])
  {
    var own := DeclarationEvents(select, aliases);
    var e := Declared(AliasDecl(select, |aliases|), alias);
    var all := earlier + own + [e];
    assert DeclarationEvents(select, aliases + [alias]) == own + [e];
    forall c | 0 <= c < |earlier + own|
      ensures Twins(all[c], e) <==> c >= |earlier| && Key(aliases[c - |earlier|]) == Key(alias)
    {
      assert all[c] == if c < |earlier| then earlier[c] else own[c - |earlier|];
    }
  }

  lemma CollectScope(root: Node, select: Address, ctes: seq<Ctes.CteSite>, aliases: seq<Alias>, alias: Alias,
                     scope: Scope, decls: seq<Event>, e: Event, again: bool)
    requires ScopeSoFar(scope, root, select, aliases, ctes, decls)
    requires e == Declared(AliasDecl(select, |aliases|), alias) && (again <==> FirstFrom(aliases, 0, Key(alias)).Some?)
    ensures ScopeSoFar(scope[Key(alias) := if again then None else Some(|decls|)], root, select, aliases + [alias],
              ctes, decls + [e])
  {
    hide Fold, ResolveAlias, FirstFrom;
    MeaningStable(scope, decls, [e]);
    var scope' := scope[Key(alias) := if again then None else Some(|decls|)];
    forall key ensures Meaning(scope', key, decls + [e]) == SoFar(root, select, aliases + [alias], key, ctes) {
      LocalAppend(aliases, alias, select, key);
      assert key != Key(alias) ==> Meaning(scope', key, decls + [e]) == Meaning(scope, key, decls + [e]);
    }
  }

  lemma CollectLocal(base: nat, aliases: seq<Alias>, local: map<string, nat>, alias: Alias)
    requires LocalIs(local, base, aliases)
    ensures LocalIs(if Key(alias) in local then local
              else local[Key(alias) := base + |aliases|], base, aliases + [alias])
  {
    forall key: string
      ensures FirstFrom(aliases + [alias], 0, key) ==
              if FirstFrom(aliases, 0, key).Some? then FirstFrom(aliases, 0, key)
              else if Key(alias) == key then Some(|aliases|) else None
    {
      FirstAppend(aliases, alias, 0, key);
    }
  }

  /** One more alias: its binding, its site and its scope entry. */
  lemma CollectStep(index: AliasIndex, root: Node, select: Address, ctes: seq<Ctes.CteSite>, before: seq<Event>,
                    aliases: seq<Alias>,
                    alias: Alias, scope: Scope, local: map<string, nat>, log: seq<Event>, first: Option<nat>)
    requires Represents(index, root, ctes, log) && Consistent(log)
    requires Collecting(root, select, ctes, before, aliases, scope, local, log)
    requires first == if Key(alias) in local then Some(local[Key(alias)]) else None
    ensures first.Some? ==> first.value < |index.bindings|
    ensures var n, log' := |index.bindings|, log + [Declared(AliasDecl(select, |aliases|), alias)];
            && Represents(index.(bindings := WithDeclaration(index.bindings, alias, first),
                                 sites := index.sites + [AliasSite(n, alias.name.range, true)]), root, ctes, log')
            && Consistent(log')
    ensures Collecting(root, select, ctes, before, aliases + [alias],
                       scope[Key(alias) := if first.Some? then None else Some(|index.bindings|)],
                       if first.Some? then local else local[Key(alias) := |index.bindings|],
                       log + [Declared(AliasDecl(select, |aliases|), alias)])
  {
    hide Represents, Consistent, Collecting, WithDeclaration, Fold;
    CollectDeclares(index, root, select, ctes, before, aliases, alias, scope, local, log, first);
    CollectExtends(index, root, select, ctes, before, aliases, alias, scope, local, log, first);
  }

  lemma CollectDeclares(index: AliasIndex, root: Node, select: Address, ctes: seq<Ctes.CteSite>, before: seq<Event>,
                        aliases: seq<Alias>,
                        alias: Alias, scope: Scope, local: map<string, nat>, log: seq<Event>, first: Option<nat>)
    requires Represents(index, root, ctes, log) && Consistent(log)
    requires Collecting(root, select, ctes, before, aliases, scope, local, log)
    requires first == if Key(alias) in local then Some(local[Key(alias)]) else None
    ensures first.Some? ==> first.value < |index.bindings|
    ensures var n, log' := |index.bindings|, log + [Declared(AliasDecl(select, |aliases|), alias)];
            && Represents(index.(bindings := WithDeclaration(index.bindings, alias, first),
                                 sites := index.sites + [AliasSite(n, alias.name.range, true)]), root, ctes, log')
            && Consistent(log')
  {
    var e := Declared(AliasDecl(select, |aliases|), alias);
    hide Represents, Consistent, ScopeSoFar, LocalIs, Fresh, Keep, Fold, AllDeclared, Collecting, PointsToFirst;
    CollectingSays(index, root, select, ctes, before, aliases, scope, local, log);
    CollectFirst(select, Keep(before, Declarations), aliases, local, alias, first);
    FirstInRange(Keep(log, Declarations), e, first);
    AppendDeclared(index, root, ctes, log, e, first);
  }

  lemma CollectExtends(index: AliasIndex, root: Node, select: Address, ctes: seq<Ctes.CteSite>, before: seq<Event>,
                       aliases: seq<Alias>,
                       alias: Alias, scope: Scope, local: map<string, nat>, log: seq<Event>, first: Option<nat>)
    requires Represents(index, root, ctes, log) && Consistent(log)
    requires Collecting(root, select, ctes, before, aliases, scope, local, log)
    requires first == if Key(alias) in local then Some(local[Key(alias)]) else None
    ensures Collecting(root, select, ctes, before, aliases + [alias],
                       scope[Key(alias) := if first.Some? then None else Some(|index.bindings|)],
                       if first.Some? then local else local[Key(alias) := |index.bindings|],
                       log + [Declared(AliasDecl(select, |aliases|), alias)])
  {
    var e := Declared(AliasDecl(select, |aliases|), alias);
    var earlier, decls := Keep(before, Declarations), Keep(log, Declarations);
    hide Represents, Consistent, ScopeSoFar, LocalIs, Fresh, Keep, Key, AllDeclared, Collecting;
    CollectingSays(index, root, select, ctes, before, aliases, scope, local, log);
    FirstKnown(|earlier|, aliases, local, alias);
    CollectScope(root, select, ctes, aliases, alias, scope, decls, e, first.Some?);
    CollectLocal(|earlier|, aliases, local, alias);
    KeepAppend(log, e, Declarations);
    assert DeclarationEvents(select, aliases + [alias]) == DeclarationEvents(select, aliases) + [e];
    CollectingAgain(root, select, ctes, before, aliases + [alias],
        scope[Key(alias) := if first.Some? then None else Some(|decls|)],
      if first.Some? then local else local[Key(alias) := |decls|], log + [e]);
  }

  lemma FirstKnown(base: nat, aliases: seq<Alias>, local: map<string, nat>, alias: Alias)
    requires LocalIs(local, base, aliases)
    ensures Key(alias) in local <==> FirstFrom(aliases, 0, Key(alias)).Some?
  {}

  lemma CollectingSays(index: AliasIndex, root: Node, select: Address, ctes: seq<Ctes.CteSite>, before: seq<Event>,
                       aliases: seq<Alias>, scope: Scope, local: map<string, nat>, log: seq<Event>)
    requires Represents(index, root, ctes, log) && Collecting(root, select, ctes, before, aliases, scope, local, log)
    ensures var earlier, decls := Keep(before, Declarations), Keep(log, Declarations);
            && |index.bindings| == |decls| && AllDeclared(decls)
            && Fresh(earlier, select) && LocalIs(local, |earlier|, aliases)
            && ScopeSoFar(scope, root, select, aliases, ctes, decls)
            && decls == earlier + DeclarationEvents(select, aliases) &&
                 log == before + DeclarationEvents(select, aliases)
  {
    hide Keep, Fold, SitesAre, MembersAre, ScopesAre, BindingIs, Fresh, LocalIs, ScopeSoFar;
  }

  lemma FirstInRange(decls: seq<Event>, e: Event, first: Option<nat>)
    requires AllDeclared(decls + [e]) && PointsToFirst(decls + [e], |decls|, first)
    ensures first.Some? ==> first.value < |decls|
  {}

  lemma CollectingAgain(root: Node, select: Address, ctes: seq<Ctes.CteSite>, before: seq<Event>, aliases: seq<Alias>,
                        scope: Scope, local: map<string, nat>, log: seq<Event>)
    requires log == before + DeclarationEvents(select, aliases)
    requires Fresh(Keep(before, Declarations), select) &&
             Keep(log, Declarations) == Keep(before, Declarations) + DeclarationEvents(select, aliases)
    requires LocalIs(local, |Keep(before, Declarations)|, aliases)
    requires ScopeSoFar(scope, root, select, aliases, ctes, Keep(log, Declarations))
    ensures Collecting(root, select, ctes, before, aliases, scope, local, log)
  {}

  // ----- Walking below a node -----

  /** The FROM paths that a walk just inside the node at `a` must skip. */
  function SourcesInside(root: Node, a: Address): set<Range> {
    if NodeAt(root, a).Some? && NodeAt(root, a).value.kind.Select? then SelectSourceRanges(NodeAt(root, a).value)
    else SourcesAround(root, a)
  }

  lemma InsideIsChild(root: Node, a: Address, k: nat, key: string, ctes: seq<Ctes.CteSite>)
    ensures ResolveAlias(root, a + [k], key, ctes) == Inside(root, a, key, ctes)
    ensures SourcesAround(root, a + [k]) == SourcesInside(root, a)
  {
    assert (a + [k])[..|a|] == a;
  }

  lemma InsideOther(root: Node, a: Address, n: Node, key: string, ctes: seq<Ctes.CteSite>)
    requires NodeAt(root, a) == Some(n) && !n.kind.Select?
    ensures Inside(root, a, key, ctes) == ResolveAlias(root, a, key, ctes)
    ensures SourcesInside(root, a) == SourcesAround(root, a)
  {
  }

  /** The scope map for a walk just inside the node at `a`. */
  ghost predicate ScopeInside(root: Node, ctes: seq<Ctes.CteSite>, a: Address, scope: Scope, log: seq<Event>) {
    && InRange(scope, Keep(log, Declarations))
    && forall key :: Meaning(scope, key, Keep(log, Declarations)) == Inside(root, a, key, ctes)
  }

  /** The scope collected for a SELECT is recorded and governs what is inside. */
  lemma OpenStep(index: AliasIndex, root: Node, ctes: seq<Ctes.CteSite>, here: Address, before: seq<Event>,
                 select: Node,
                 scope: Scope, local: map<string, nat>, log: seq<Event>)
    requires Represents(index, root, ctes, log) && Consistent(log)
    requires NodeAt(root, here) == Some(select) && select.kind.Select?
    requires Collecting(root, here, ctes, before, SelectAliases(select, ctes), scope, local, log)
    ensures var e := Opened(here, select.kind.range);
            var index' := index.(scopes := index.scopes + [AliasScope(select.kind.range, scope)]);
            && Represents(index', root, ctes, log + [e]) && Consistent(log + [e])
            && log + [e] == before + OwnEvents(root, here, ctes)
            && ScopeInside(root, ctes, here, scope, log + [e])
  {
    var e := Opened(here, select.kind.range);
    hide Represents, Consistent, BindingsAre, LocalIs, Fresh, Keep, Fold;
    CollectedScope(root, here, ctes, select, scope, Keep(log, Declarations));
    AppendOpened(index, root, ctes, log, e, AliasScope(select.kind.range, scope));
  }

  lemma CollectedScope(root: Node, here: Address, ctes: seq<Ctes.CteSite>, select: Node, scope: Scope,
                       decls: seq<Event>)
    requires NodeAt(root, here) == Some(select)
    requires ScopeSoFar(scope, root, here, SelectAliases(select, ctes), ctes, decls)
    ensures InRange(scope, decls) && forall key :: Meaning(scope, key, decls) == Inside(root, here, key, ctes)
  {
    hide SelectAliases, Fold, Local;
  }

  /** The scope map for the node at `a` itself. */
  ghost predicate ScopeAt(root: Node, ctes: seq<Ctes.CteSite>, a: Address, scope: Scope, log: seq<Event>) {
    && InRange(scope, Keep(log, Declarations))
    && forall key :: Meaning(scope, key, Keep(log, Declarations)) == ResolveAlias(root, a, key, ctes)
  }

  /** No SELECT among the places has declared anything yet. */
  ghost predicate NotYet(log: seq<Event>, places: seq<Address>) {
    forall e :: e in log && e.Declared? ==> e.decl.select !in places
  }

  lemma {:induction false} KeepConcat(x: seq<Event>, y: seq<Event>, part: Part)
    ensures Keep(x + y, part) == Keep(x, part) + Keep(y, part)
  {
    if y == [] {
      assert x + y == x;
    } else {
      assert (x + y)[..|x + y| - 1] == x + y[..|y| - 1];
      KeepConcat(x, y[..|y| - 1], part);
    }
  }

  lemma ScopeStable(root: Node, ctes: seq<Ctes.CteSite>, a: Address, scope: Scope, log: seq<Event>, more: seq<Event>)
    requires ScopeInside(root, ctes, a, scope, log)
    ensures ScopeInside(root, ctes, a, scope, log + more)
  {
    KeepConcat(log, more, Declarations);
    MeaningStable(scope, Keep(log, Declarations), Keep(more, Declarations));
  }

  lemma ScopeForChild(root: Node, ctes: seq<Ctes.CteSite>, a: Address, k: nat, scope: Scope, log: seq<Event>)
    requires ScopeInside(root, ctes, a, scope, log)
    ensures ScopeAt(root, ctes, a + [k], scope, log)
  {
    forall key: string ensures ResolveAlias(root, a + [k], key, ctes) == Inside(root, a, key, ctes) {
      InsideIsChild(root, a, k, key, ctes);
    }
  }

  lemma ScopeOfOther(root: Node, ctes: seq<Ctes.CteSite>, a: Address, n: Node, scope: Scope, log: seq<Event>)
    requires ScopeAt(root, ctes, a, scope, log) && NodeAt(root, a) == Some(n) && !n.kind.Select?
    ensures ScopeInside(root, ctes, a, scope, log)
  {
    forall key: string ensures ResolveAlias(root, a, key, ctes) == Inside(root, a, key, ctes) {
      InsideOther(root, a, n, key, ctes);
    }
  }

  lemma NotYetAfter(root: Node, ctes: seq<Ctes.CteSite>, log: seq<Event>, x: seq<Address>, y: seq<Address>)
    requires NotYet(log, x + y) && Distinct(x + y)
    ensures NotYet(log, x) && NotYet(log + Record(root, x, ctes), y)
  {
    forall e | e in log + Record(root, x, ctes) && e.Declared? ensures e.decl.select !in y {
      if e in log {
        assert e.decl.select !in x + y;
      } else {
        RecordMembers(root, x, ctes, e);
        var a :| a in x && e in OwnEvents(root, a, ctes);
        OwnEventsByRule(root, a, ctes, e);
        DistinctSplit(x, y);
      }
    }
  }

  /** What one step of a walk over children needs and leaves. */
  lemma ChildStep(root: Node, ctes: seq<Ctes.CteSite>, a: Address, n: Node, k: nat, scope: Scope, log: seq<Event>,
                  total: seq<Event>)
    requires NodeAt(root, a) == Some(n) && k < |Kids(n)| && ScopeInside(root, ctes, a, scope, log)
    requires NotYet(log, PreorderFrom(n, a, k)) && log + Record(root, PreorderFrom(n, a, k), ctes) == total
    ensures NodeAt(root, a + [k]) == Some(Kids(n)[k]) && ScopeAt(root, ctes, a + [k], scope, log)
    ensures NotYet(log, Preorder(Kids(n)[k], a + [k]))
    ensures var next := log + Record(root, Preorder(Kids(n)[k], a + [k]), ctes);
            && ScopeInside(root, ctes, a, scope, next) && NotYet(next, PreorderFrom(n, a, k + 1))
            && next + Record(root, PreorderFrom(n, a, k + 1), ctes) == total
  {
    hide ScopeInside, ScopeAt, NotYet, Record;
    var x, y := Preorder(Kids(n)[k], a + [k]), PreorderFrom(n, a, k + 1);
    assert log + (Record(root, x, ctes) + Record(root, y, ctes)) == log + Record(root, x, ctes) + Record(root, y, ctes);
    NodeAtChild(root, a, k);
    ScopeForChild(root, ctes, a, k, scope, log);
    ScopeStable(root, ctes, a, scope, log, Record(root, x, ctes));
    PreorderFromDistinct(root, n, a, k);
    NotYetAfter(root, ctes, log, x, y);
    RecordAppend(root, x, y, ctes);
  }

  lemma PlaceStep(root: Node, ctes: seq<Ctes.CteSite>, a: Address, n: Node, log: seq<Event>)
    requires NodeAt(root, a) == Some(n) && NotYet(log, Preorder(n, a))
    ensures NotYet(log + OwnEvents(root, a, ctes), PreorderFrom(n, a, 0))
    ensures Fresh(Keep(log, Declarations), a)
    ensures log + Record(root, Preorder(n, a), ctes) == log + OwnEvents(root, a, ctes) +
            Record(root, PreorderFrom(n, a, 0), ctes)
  {
    assert Preorder(n, a) == [a] + PreorderFrom(n, a, 0);
    assert Record(root, [a], ctes) == OwnEvents(root, a, ctes) + Record(root, [a][1..], ctes) ==
      OwnEvents(root, a, ctes);
    hide Record, OwnEvents, Preorder, PreorderFrom, NodeAt, NotYet, Keep, Fresh;
    PreorderDistinct(root, n, a);
    NotYetAfter(root, ctes, log, [a], PreorderFrom(n, a, 0));
    RecordAppend(root, [a], PreorderFrom(n, a, 0), ctes);
    assert log + (OwnEvents(root, a, ctes) + Record(root, PreorderFrom(n, a, 0), ctes))
        == log + OwnEvents(root, a, ctes) + Record(root, PreorderFrom(n, a, 0), ctes);
    FreshIfNotYet(log, a, Preorder(n, a));
  }

  lemma FreshIfNotYet(log: seq<Event>, a: Address, places: seq<Address>)
    requires NotYet(log, places) && a in places
    ensures Fresh(Keep(log, Declarations), a)
  {
    var decls := Keep(log, Declarations);
    forall i | 0 <= i < |decls| ensures decls[i].Declared? && decls[i].decl.select != a {
      KeepMembers(log, Declarations, decls[i]);
    }
  }

  lemma StartCollecting(root: Node, ctes: seq<Ctes.CteSite>, a: Address, scope: Scope, log: seq<Event>)
    requires ScopeAt(root, ctes, a, scope, log) && Fresh(Keep(log, Declarations), a)
    ensures Collecting(root, a, ctes, log, [], scope, map[], log)
  {
    assert DeclarationEvents(a, []) == [];
  }

  class AliasIndexer {
    var index: AliasIndex
    ghost var log: seq<Event>
    ghost const root: Node
    const ctes: seq<Ctes.CteSite>

    ghost predicate Valid()
      reads this
    {
      Represents(index, root, ctes, log) && Consistent(log)
    }

    constructor (ghost root: Node, ctes: seq<Ctes.CteSite>)
      ensures Valid() && log == [] && index == AliasIndex([], [], [], []) && this.root == root && this.ctes == ctes
    {
      this.root := root;
      this.ctes := ctes;
      log := [];
      index := AliasIndex([], [], [], []);
    }

    /** Declares one alias; a name already taken in this FROM clause blocks the
        scope and flags both bindings. */
    method AddTableAlias(ghost select: Address, ghost before: seq<Event>, ghost aliases: seq<Alias>, alias: Alias,
                         scope: Scope, local: map<string, nat>)
      returns (scope': Scope, local': map<string, nat>)
      requires Valid() && Collecting(root, select, ctes, before, aliases, scope, local, log)
      modifies this
      ensures Valid() && Collecting(root, select, ctes, before, aliases + [alias], scope', local', log)
    {
      hide Represents, Consistent, Collecting;
      var key, n := Key(alias), |index.bindings|;
      var first := if key in local then Some(local[key]) else None;
      CollectStep(index, root, select, ctes, before, aliases, alias, scope, local, log, first);
      var bindings := index.bindings;
      if first.Some? {
        bindings := bindings[first.value := bindings[first.value].(ambiguous := true)];
      }
      bindings := bindings + [AliasBinding(alias.name.name, alias.name.range, alias.source, [], first.Some?, first)];
      index := index.(bindings := bindings, sites := index.sites + [AliasSite(n, alias.name.range, true)]);
      log := log + [Declared(AliasDecl(select, |aliases|), alias)];
      scope' := scope[key := if first.Some? then None else Some(n)];
      local' := if first.Some? then local else local[key := n];
    }

    method AddOptionalAlias(ghost select: Address, ghost before: seq<Event>, ghost aliases: seq<Alias>,
                            name: Option<Ident>, source: Source, scope: Scope, local: map<string, nat>)
      returns (scope': Scope, local': map<string, nat>)
      requires Valid() && Collecting(root, select, ctes, before, aliases, scope, local, log)
      modifies this
      ensures Valid() && Collecting(root, select, ctes, before, aliases + Optional(name, source), scope', local', log)
    {
      if name.Some? {
        scope', local' := AddTableAlias(select, before, aliases, Alias(name.value, source), scope, local);
      } else {
        assert aliases + Optional(name, source) == aliases;
        scope', local' := scope, local;
      }
    }

    /** Collects the aliases of a FROM source and the ranges of its paths. */
    method CollectTableAliases(ghost select: Address, ghost before: seq<Event>, ghost aliases: seq<Alias>, table: Node,
                               scope: Scope, local: map<string, nat>, sourcePaths: set<Range>)
      returns (scope': Scope, local': map<string, nat>, sourcePaths': set<Range>)
      requires Valid() && Collecting(root, select, ctes, before, aliases, scope, local, log)
      modifies this
      ensures Valid() && Collecting(root, select, ctes, before, aliases + FromAliases(table, ctes), scope', local', log)
      ensures sourcePaths' == sourcePaths + SourceRanges(table)
      decreases table
    {
      hide Represents, Consistent, Collecting, NamedSource;
      scope', local', sourcePaths' := scope, local, sourcePaths;
      match table.kind
      case TableName(name, alias) =>
        scope', local' := AddOptionalAlias(select, before, aliases, alias, NamedSource(name.name, name.range, ctes),
            scope, local);
      case PathTable(alias, offset) =>
        var path := SourcePath(table);
        var source := NamedSource(Dotted(path), PathRange(path), ctes);
        sourcePaths' := sourcePaths + {PathRange(path)};
        scope', local' := AddOptionalAlias(select, before, aliases, alias, source, scope, local);
        scope', local' := AddOptionalAlias(select, before, aliases + Optional(alias, source), offset, NoSource, scope',
            local');
        assert aliases + Optional(alias, source) + Optional(offset, NoSource) == aliases + FromAliases(table, ctes);
      case SubQueryTable(alias) =>
        scope', local' := AddOptionalAlias(select, before, aliases, alias, if Kids(table) != []
            then FromQuery(Kids(table)[0]) else NoSource, scope, local);
      case Unnest(alias, offset) =>
        scope', local' := AddOptionalAlias(select, before, aliases, alias, NoSource, scope, local);
        scope', local' := AddOptionalAlias(select, before, aliases + Optional(alias, NoSource), offset, NoSource,
            scope', local');
        assert aliases + Optional(alias, NoSource) + Optional(offset, NoSource) == aliases + FromAliases(table, ctes);
      case ParenTable =>
        if Kids(table) != [] {
          scope', local', sourcePaths' := CollectTableAliases(select, before, aliases, Kids(table)[0], scope, local,
              sourcePaths);
        } else {
          assert aliases + [] == aliases;
        }
      case Join =>
        scope', local', sourcePaths' := CollectJoin(select, before, aliases, table, scope, local, sourcePaths);
      case _ =>
        assert aliases + [] == aliases;
    }

    method CollectJoin(ghost select: Address, ghost before: seq<Event>, ghost aliases: seq<Alias>, table: Node,
                       scope: Scope, local: map<string, nat>, sourcePaths: set<Range>)
      returns (scope': Scope, local': map<string, nat>, sourcePaths': set<Range>)
      requires table.kind.Join? && Valid() && Collecting(root, select, ctes, before, aliases, scope, local, log)
      modifies this
      ensures Valid() && Collecting(root, select, ctes, before, aliases + FromAliases(table, ctes), scope', local', log)
      ensures sourcePaths' == sourcePaths + SourceRanges(table)
      decreases table, 0
    {
      hide Represents, Consistent, Collecting, NamedSource;
      scope', local', sourcePaths' := scope, local, sourcePaths;
      ghost var sofar := aliases;
      assert aliases + [] == aliases;
      if |Kids(table)| > 0 {
        scope', local', sourcePaths' := CollectTableAliases(select, before, aliases, Kids(table)[0], scope, local,
            sourcePaths);
        sofar := aliases + FromAliases(Kids(table)[0], ctes);
      }
      if |Kids(table)| > 1 {
        scope', local', sourcePaths' := CollectTableAliases(select, before, sofar, Kids(table)[1], scope', local',
            sourcePaths');
        sofar := sofar + FromAliases(Kids(table)[1], ctes);
      }
      assert sofar == aliases + FromAliases(table, ctes);
    }

    /** Records the qualifier of one node, if its name is bound. */
    method AddAliasReference(ghost here: Address, node: Node, scope: Scope, sourcePaths: set<Range>)
      requires Valid() && NodeAt(root, here) == Some(node) && !node.kind.Select?
      requires ScopeAt(root, ctes, here, scope, log) && sourcePaths == SourcesAround(root, here)
      modifies this
      ensures Valid() && log == old(log) + OwnEvents(root, here, ctes)
    {
      var q := QualifierOf(node, sourcePaths);
      if q.Some? {
        var key := Fold(q.value.name);
        assert Meaning(scope, key, Keep(log, Declarations)) == ResolveAlias(root, here, key, ctes);
        if key in scope && scope[key].Some? {
          RecordReference(here, scope[key].value, q.value.range, MemberOf(node));
        }
      }
    }

    method RecordReference(ghost here: Address, b: nat, range: Range, member: Option<Ident>)
      requires Valid() && b < |index.bindings| && b < |Keep(log, Declarations)|
      modifies this
      ensures Valid() && log == old(log) + [Referred(here, old(Keep(log, Declarations)[b].decl), range, member)]
    {
      ghost var e := Referred(here, Keep(log, Declarations)[b].decl, range, member);
      AppendReferred(index, root, ctes, log, e, b);
      var bindings := index.bindings[b := index.bindings[b].(referenceRanges := index.bindings[b].referenceRanges +
          [range])];
      var memberSites := index.memberSites;
      if member.Some? {
        memberSites := memberSites + [MemberSite(b, member.value.name, member.value.range)];
      }
      index := AliasIndex(bindings, index.sites + [AliasSite(b, range, false)], memberSites, index.scopes);
      log := log + [e];
    }

    method OpenScope(ghost here: Address, ghost before: seq<Event>, select: Node, scope: Scope,
                     ghost local: map<string, nat>)
      requires Valid() && NodeAt(root, here) == Some(select) && select.kind.Select?
      requires Collecting(root, here, ctes, before, SelectAliases(select, ctes), scope, local, log)
      modifies this
      ensures Valid() && log == before + OwnEvents(root, here, ctes)
      ensures ScopeInside(root, ctes, here, scope, log)
    {
      ghost var e := Opened(here, select.kind.range);
      hide Represents, Consistent, Collecting, ScopeInside;
      OpenStep(index, root, ctes, here, before, select, scope, local, log);
      index := index.(scopes := index.scopes + [AliasScope(select.kind.range, scope)]);
      log := log + [e];
    }

    /** A node under a scope map it never changes; a nested SELECT clones it. */
    method IndexAliasNode(ghost here: Address, node: Node, scope: Scope, sourcePaths: set<Range>)
      requires Valid() && NodeAt(root, here) == Some(node) && ScopeAt(root, ctes, here, scope, log)
      requires NotYet(log, Preorder(node, here)) && sourcePaths == SourcesAround(root, here)
      modifies this
      ensures Valid() && log == old(log) + Record(root, Preorder(node, here), ctes)
      decreases node, 2
    {
      hide Represents, Consistent, ScopeAt, ScopeInside, NotYet;
      PlaceStep(root, ctes, here, node, log);
      if node.kind.Select? {
        IndexSelectAliases(here, node, scope);
      } else {
        ScopeOfOther(root, ctes, here, node, scope, log);
        ScopeStable(root, ctes, here, scope, log, OwnEvents(root, here, ctes));
        AddAliasReference(here, node, scope, sourcePaths);
        InsideOther(root, here, node, "", ctes);
        IndexInside(here, node, scope, sourcePaths);
      }
    }

    /** The statements of a document, each under an empty scope. */
    method IndexDocument(document: Node)
      requires Valid() && log == [] && document == root
      modifies this
      ensures Valid() && log == Expected(root, ctes)
    {
      assert ScopeAt(root, ctes, [], map[], log);
      hide Represents, Consistent, ScopeAt;
      IndexAliasNode([], document, map[], {});
    }

    /** One SELECT: its FROM aliases come first, then everything inside it is
        walked under its scope, which no longer changes. */
    method IndexSelectAliases(ghost here: Address, select: Node, outerScope: Scope)
      requires Valid() && NodeAt(root, here) == Some(select) && select.kind.Select?
      requires ScopeAt(root, ctes, here, outerScope, log) && NotYet(log, Preorder(select, here))
      modifies this
      ensures Valid() && log == old(log) + Record(root, Preorder(select, here), ctes)
      decreases select, 1
    {
      hide Represents, Consistent, Collecting, ScopeAt, ScopeInside, NotYet, Fresh;
      var scope: Scope, local: map<string, nat>, sourcePaths: set<Range> := outerScope, map[], {};
      ghost var before := log;
      PlaceStep(root, ctes, here, select, log);
      StartCollecting(root, ctes, here, scope, log);
      if select.kind.source < |Kids(select)| {
        scope, local, sourcePaths := CollectTableAliases(here, before, [], Kids(select)[select.kind.source], scope,
            local, sourcePaths);
        assert [] + SelectAliases(select, ctes) == SelectAliases(select, ctes);
      }
      OpenScope(here, before, select, scope, local);
      IndexInside(here, select, scope, sourcePaths);
    }

    method IndexInside(ghost here: Address, node: Node, scope: Scope, sourcePaths: set<Range>)
      requires Valid() && NodeAt(root, here) == Some(node) && ScopeInside(root, ctes, here, scope, log)
      requires NotYet(log, PreorderFrom(node, here, 0)) && sourcePaths == SourcesInside(root, here)
      modifies this
      ensures Valid() && log == old(log) + Record(root, PreorderFrom(node, here, 0), ctes)
      decreases node, 0
    {
      hide Represents, Consistent, ScopeAt, ScopeInside, NotYet;
      ghost var total := log + Record(root, PreorderFrom(node, here, 0), ctes);
      for k := 0 to |Kids(node)|
        invariant Valid() && ScopeInside(root, ctes, here, scope, log) && NotYet(log, PreorderFrom(node, here, k))
        invariant log + Record(root, PreorderFrom(node, here, k), ctes) == total
      {
        ChildStep(root, ctes, here, node, k, scope, log, total);
        InsideIsChild(root, here, k, "", ctes);
        IndexAliasNode(here + [k], Kids(node)[k], scope, sourcePaths);
      }
    }
  }

  // ----- The index of a document -----

  function CompareSites(a: AliasSite, b: AliasSite): int {
    ComparePosition(a.range.start, b.range.start)
  }

  function CompareMembers(a: MemberSite, b: MemberSite): int {
    ComparePosition(a.range.start, b.range.start)
  }

  /** An index says what the lexical rule says of the document; its sites are sorted. */
  ghost predicate IsIndexOf(index: AliasIndex, root: Node, ctes: seq<Ctes.CteSite>) {
    exists walked: AliasIndex :: IsSorted(index, walked) && Represents(walked, root, ctes, Expected(root, ctes))
  }

  ghost predicate IsSorted(index: AliasIndex, walked: AliasIndex) {
    && index.bindings == walked.bindings && index.scopes == walked.scopes
    && multiset(index.sites) == multiset(walked.sites) && SortedBy(index.sites, CompareSites)
    && multiset(index.memberSites) == multiset(walked.memberSites) && SortedBy(index.memberSites, CompareMembers)
  }

  method ExtractAliasIndex(statements: seq<Node>, ctes: Ctes.CteIndex) returns (index: AliasIndex)
    ensures IsIndexOf(index, Ctes.Document(statements), ctes.sites)
  {
    var root := Ctes.Document(statements);
    var indexer := new AliasIndexer(root, ctes.sites);
    indexer.IndexDocument(root);
    ghost var walked := indexer.index;
    hide Represents;
    var sites := SortFunc(indexer.index.sites, CompareSites);
    var members := SortFunc(indexer.index.memberSites, CompareMembers);
    index := AliasIndex(indexer.index.bindings, sites, members, indexer.index.scopes);
  }

  // ----- The site at a position -----

  ghost predicate Covered(sites: seq<AliasSite>, pos: Position) {
    exists i :: 0 <= i < |sites| && RangeIncludesPosition(sites[i].range, pos)
  }

  method SiteAtPosition(sites: seq<AliasSite>, pos: Position) returns (site: Option<AliasSite>)
    ensures site.Some? <==> Covered(sites, pos)
    ensures site.Some? ==> exists i ::
            0 <= i < |sites| && sites[i] == site.value && RangeIncludesPosition(sites[i].range, pos)
                                    && forall j :: 0 <= j < i ==> !RangeIncludesPosition(sites[j].range, pos)
  {
    for i := 0 to |sites|
      invariant forall j :: 0 <= j < i ==> !RangeIncludesPosition(sites[j].range, pos)
    {
      if RangeIncludesPosition(sites[i].range, pos) {
        return Some(sites[i]);
      }
    }
    return None;
  }

  /** The name that an entry of the record stands for. */
  function NameRange(e: Event): Range {
    match e
    case Declared(_, alias) => alias.name.range
    case Referred(_, _, range, _) => range
    case Opened(_, range) => range
  }

  ghost predicate Names(root: Node, ctes: seq<Ctes.CteSite>, e: Event, pos: Position) {
    ByRule(root, ctes, e) && !e.Opened? && RangeIncludesPosition(NameRange(e), pos)
  }

  /** A position is at a site of the index exactly when it is in the name of a
      declared alias or in a qualifier that the rule binds to one. */
  lemma CoveredIff(index: AliasIndex, root: Node, ctes: seq<Ctes.CteSite>, pos: Position)
    requires IsIndexOf(index, root, ctes)
    ensures Covered(index.sites, pos) <==> exists e :: Names(root, ctes, e, pos)
  {
    hide Expected, BindingsAre, MembersAre, ScopesAre, ByRule, Keep, RangeIncludesPosition;
    var walked: AliasIndex :| IsSorted(index, walked) && Represents(walked, root, ctes, Expected(root, ctes));
    var entries := Keep(Expected(root, ctes), Sites);
    SameSites(index.sites, walked.sites, pos);
    if Covered(walked.sites, pos) {
      var i :| 0 <= i < |walked.sites| && RangeIncludesPosition(walked.sites[i].range, pos);
      SiteEntry(root, ctes, entries[i]);
      assert SiteIs(walked.sites[i], Keep(Expected(root, ctes), Declarations), entries[i]);
      assert Names(root, ctes, entries[i], pos);
    }
    if e :| Names(root, ctes, e, pos) {
      SiteEntry(root, ctes, e);
      var i :| 0 <= i < |entries| && entries[i] == e;
      assert SiteIs(walked.sites[i], Keep(Expected(root, ctes), Declarations), entries[i]);
    }
  }

  lemma SiteEntry(root: Node, ctes: seq<Ctes.CteSite>, e: Event)
    ensures e in Keep(Expected(root, ctes), Sites) <==> ByRule(root, ctes, e) && !e.Opened?
  {
    hide Expected, Keep, ByRule;
    KeepMembers(Expected(root, ctes), Sites, e);
    RecordIsLexical(root, ctes, e);
  }

  lemma SameSites(sites: seq<AliasSite>, others: seq<AliasSite>, pos: Position)
    requires multiset(sites) == multiset(others)
    ensures Covered(sites, pos) <==> Covered(others, pos)
  {
    hide RangeIncludesPosition;
    assert forall s :: s in sites <==> s in multiset(sites);
    assert forall s :: s in others <==> s in multiset(others);
    if i :| 0 <= i < |sites| && RangeIncludesPosition(sites[i].range, pos) { assert sites[i] in others; }
    if i :| 0 <= i < |others| && RangeIncludesPosition(others[i].range, pos) { assert others[i] in sites; }
  }

  // ----- The duplicate law -----

  /** A reference is recorded for a declaration only where the rule binds to it. */
  lemma {:induction false} ReferencesAreRecorded(log: seq<Event>, decl: AliasDecl, range: Range)
    ensures range in ReferenceRanges(log, decl) <==>
            exists a, member :: Referred(a, decl, range, member) in log
  {
    if log != [] {
      var init, e := log[..|log| - 1], log[|log| - 1];
      ReferencesAreRecorded(init, decl, range);
      assert log == init + [e];
      if range in ReferenceRanges(init, decl) {
        var a, member :| Referred(a, decl, range, member) in init;
        assert Referred(a, decl, range, member) in log;
      } else if e.Referred? && e.decl == decl && e.range == range {
        assert Referred(e.at, decl, range, e.member) in log;
      }
    }
  }

  /** The aliases declared beside a declaration, itself included. */
  function Siblings(root: Node, ctes: seq<Ctes.CteSite>, decl: AliasDecl): seq<Alias> {
    if NodeAt(root, decl.select).Some? then SelectAliases(NodeAt(root, decl.select).value, ctes) else []
  }

  /** What the FROM clause of the node at `p` alone makes of a key. */
  function LocalAt(root: Node, ctes: seq<Ctes.CteSite>, p: Address, key: string): Lookup {
    Local(Siblings(root, ctes, AliasDecl(p, 0)), p, key)
  }

  /** The SELECT at `s` is the innermost around the place `a` that declares the key at all. */
  ghost predicate Nearest(root: Node, ctes: seq<Ctes.CteSite>, a: Address, s: Address, key: string) {
    && s < a && !LocalAt(root, ctes, s, key).Unbound?
    && forall p :: s < p < a ==> LocalAt(root, ctes, p, key).Unbound?
  }

  /** Nothing around a place declares the key. */
  ghost predicate NoneDeclares(root: Node, ctes: seq<Ctes.CteSite>, a: Address, key: string) {
    forall p :: p < a ==> LocalAt(root, ctes, p, key).Unbound?
  }

  lemma {:induction false} NearestExists(root: Node, ctes: seq<Ctes.CteSite>, a: Address, key: string)
    returns (s: Address)
    ensures if ResolveAlias(root, a, key, ctes).Unbound? then NoneDeclares(root, ctes, a, key)
            else Nearest(root, ctes, a, s, key) && ResolveAlias(root, a, key, ctes) == LocalAt(root, ctes, s, key)
    decreases |a|
  {
    hide LocalAt, ResolveAlias;
    s := [];
    StepOut(root, ctes, a, key);
    if a != [] {
      var q := a[..|a| - 1];
      s := NearestExists(root, ctes, q, key);
      if LocalAt(root, ctes, q, key).Unbound? {
        forall p | p < a && p != q && LocalAt(root, ctes, p, key) != Unbound ensures p < q {}
      } else {
        s := q;
      }
    }
  }

  lemma InsideByLocal(root: Node, ctes: seq<Ctes.CteSite>, p: Address, key: string)
    ensures Inside(root, p, key, ctes) ==
            if LocalAt(root, ctes, p, key).Unbound? then ResolveAlias(root, p, key, ctes)
               else LocalAt(root, ctes, p, key)
  {}

  lemma StepOut(root: Node, ctes: seq<Ctes.CteSite>, a: Address, key: string)
    ensures a == [] ==> ResolveAlias(root, a, key, ctes).Unbound?
    ensures a != [] ==>
              var q := a[..|a| - 1];
              ResolveAlias(root, a, key, ctes) ==
              if LocalAt(root, ctes, q, key).Unbound? then ResolveAlias(root, q, key, ctes)
                 else LocalAt(root, ctes, q, key)
  {
    if a != [] { InsideByLocal(root, ctes, a[..|a| - 1], key); }
  }

  /** A name means what the innermost SELECT that declares it makes of it: one
      alias, or an ambiguity that hides every outer declaration. It means nothing
      exactly where no SELECT around it declares it. */
  lemma NearestDecides(root: Node, ctes: seq<Ctes.CteSite>, a: Address, key: string, l: Lookup)
    ensures ResolveAlias(root, a, key, ctes) == l && !l.Unbound? <==>
            exists s :: Nearest(root, ctes, a, s, key) && LocalAt(root, ctes, s, key) == l
    ensures ResolveAlias(root, a, key, ctes).Unbound? <==> NoneDeclares(root, ctes, a, key)
  {
    var n := NearestExists(root, ctes, a, key);
    hide LocalAt, ResolveAlias;
    forall s | Nearest(root, ctes, a, s, key) && Nearest(root, ctes, a, n, key) ensures s == n {
      assert s <= n || n <= s;
    }
  }

  /** The rule binds only to a name declared once, by the nearest SELECT that declares it. */
  lemma BoundIsLocal(root: Node, a: Address, key: string, ctes: seq<Ctes.CteSite>)
    ensures ResolveAlias(root, a, key, ctes).Bound? ==>
            var decl := ResolveAlias(root, a, key, ctes).decl;
            && Nearest(root, ctes, a, decl.select, key) && NodeAt(root, decl.select).Some?
            && Local(SelectAliases(NodeAt(root, decl.select).value, ctes), decl.select, key) == Bound(decl)
  {
    var s := NearestExists(root, ctes, a, key);
  }

  lemma LocalIsCount(aliases: seq<Alias>, select: Address, i: nat)
    requires i < |aliases|
    ensures Local(aliases, select, Key(aliases[i])) != Unbound
    ensures Local(aliases, select, Key(aliases[i])) == Ambiguous <==>
            exists j :: 0 <= j < |aliases| && j != i && Key(aliases[j]) == Key(aliases[i])
    ensures Local(aliases, select, Key(aliases[i])).Bound? ==>
            Local(aliases, select, Key(aliases[i])) == Bound(AliasDecl(select, i))
  {
    var first := FirstFrom(aliases, 0, Key(aliases[i]));
    assert first.Some? && first.value <= i;
    var second := FirstFrom(aliases, first.value + 1, Key(aliases[i]));
    if second.Some? {
      assert Key(aliases[first.value]) == Key(aliases[second.value]) == Key(aliases[i]);
    }
  }

  /** Declarations of one SELECT are listed in the order of its FROM clause. */
  ghost predicate InOrder(decls: seq<Event>) {
    && AllDeclared(decls)
    && forall i, j :: 0 <= i < j < |decls| && decls[i].decl.select == decls[j].decl.select ==>
         decls[i].decl.index < decls[j].decl.index
  }

  lemma {:induction false} KeepAll(es: seq<Event>)
    requires AllDeclared(es)
    ensures Keep(es, Declarations) == es
  {
    if es != [] { KeepAll(es[..|es| - 1]); }
  }

  lemma OwnDeclarations(root: Node, a: Address, ctes: seq<Ctes.CteSite>)
    ensures var n := NodeAt(root, a);
            Keep(OwnEvents(root, a, ctes), Declarations) ==
            if n.Some? then DeclarationEvents(a, SelectAliases(n.value, ctes)) else []
  {
    var n := NodeAt(root, a);
    if n.Some? {
      var own := DeclarationEvents(a, SelectAliases(n.value, ctes));
      KeepAll(own);
      if n.value.kind.Select? {
        KeepAppend(own, Opened(a, n.value.kind.range), Declarations);
      } else if OwnEvents(root, a, ctes) != [] {
        KeepAppend([], OwnEvents(root, a, ctes)[0], Declarations);
        assert [] + [OwnEvents(root, a, ctes)[0]] == OwnEvents(root, a, ctes);
      }
    }
  }

  lemma {:induction false} RecordInOrder(root: Node, places: seq<Address>, ctes: seq<Ctes.CteSite>)
    requires Distinct(places)
    ensures InOrder(Keep(Record(root, places, ctes), Declarations))
  {
    if places != [] {
      var own, rest := OwnEvents(root, places[0], ctes), Record(root, places[1..], ctes);
      RecordInOrder(root, places[1..], ctes);
      KeepConcat(own, rest, Declarations);
      OwnDeclarations(root, places[0], ctes);
      var decls := Keep(rest, Declarations);
      forall i | 0 <= i < |decls| ensures decls[i].decl.select != places[0] {
        assert decls[i] in decls;
        KeepMembers(rest, Declarations, decls[i]);
        RecordMembers(root, places[1..], ctes, decls[i]);
        var a :| a in places[1..] && decls[i] in OwnEvents(root, a, ctes);
        OwnEventsByRule(root, a, ctes, decls[i]);
      }
    }
  }

  lemma DeclarationsOf(root: Node, ctes: seq<Ctes.CteSite>)
    ensures InOrder(Keep(Expected(root, ctes), Declarations))
    ensures forall e :: e in Keep(Expected(root, ctes), Declarations) <==> e.Declared? && ByRule(root, ctes, e)
  {
    PreorderIsWhole(root);
    RecordInOrder(root, Preorder(root, []), ctes);
    forall e ensures e in Keep(Expected(root, ctes), Declarations) <==> e.Declared? && ByRule(root, ctes, e) {
      KeepMembers(Expected(root, ctes), Declarations, e);
      RecordIsLexical(root, ctes, e);
    }
  }

  /** The declarations of a document, in the order of the bindings. */
  ghost function Decls(root: Node, ctes: seq<Ctes.CteSite>): (decls: seq<Event>)
    ensures AllDeclared(decls)
  {
    Keep(Expected(root, ctes), Declarations)
  }

  ghost predicate RefersTo(root: Node, ctes: seq<Ctes.CteSite>, a: Address, decl: AliasDecl, range: Range) {
    && Qualifier(root, a).Some? && Qualifier(root, a).value.range == range
    && ResolveAlias(root, a, Fold(Qualifier(root, a).value.name), ctes) == Bound(decl)
  }

  ghost predicate HasNamesake(aliases: seq<Alias>, i: nat)
    requires i < |aliases|
  {
    exists j :: 0 <= j < |aliases| && j != i && Key(aliases[j]) == Key(aliases[i])
  }

  lemma DeclarationIsSibling(root: Node, ctes: seq<Ctes.CteSite>, b: nat)
    requires b < |Decls(root, ctes)|
    ensures var e := Decls(root, ctes)[b];
            e.decl.index < |Siblings(root, ctes, e.decl)| && Siblings(root, ctes, e.decl)[e.decl.index] == e.alias
  {
    DeclarationsOf(root, ctes);
    assert Decls(root, ctes)[b] in Decls(root, ctes);
  }

  lemma SiblingIsDeclared(root: Node, ctes: seq<Ctes.CteSite>, select: Address, i: nat) returns (c: nat)
    requires i < |Siblings(root, ctes, AliasDecl(select, i))|
    ensures c < |Decls(root, ctes)|
    ensures Decls(root, ctes)[c] == Declared(AliasDecl(select, i), Siblings(root, ctes, AliasDecl(select, i))[i])
  {
    DeclarationsOf(root, ctes);
    var e := Declared(AliasDecl(select, i), Siblings(root, ctes, AliasDecl(select, i))[i]);
    assert ByRule(root, ctes, e);
    c :| 0 <= c < |Decls(root, ctes)| && Decls(root, ctes)[c] == e;
  }

  lemma TwinsAreNamesakes(root: Node, ctes: seq<Ctes.CteSite>, b: nat)
    requires b < |Decls(root, ctes)|
    requires Decls(root, ctes)[b].decl.index < |Siblings(root, ctes, Decls(root, ctes)[b].decl)|
    ensures HasTwin(Decls(root, ctes), b) <==>
            HasNamesake(Siblings(root, ctes, Decls(root, ctes)[b].decl), Decls(root, ctes)[b].decl.index)
  {
    var decls := Decls(root, ctes);
    var AliasDecl(select, i) := decls[b].decl;
    var aliases := Siblings(root, ctes, decls[b].decl);
    DeclarationsOf(root, ctes);
    DeclarationIsSibling(root, ctes, b);
    if HasTwin(decls, b) {
      var c :| 0 <= c < |decls| && c != b && Twins(decls[c], decls[b]);
      DeclarationIsSibling(root, ctes, c);
      assert Key(aliases[decls[c].decl.index]) == Key(aliases[i]);
    }
    if HasNamesake(aliases, i) {
      var j :| 0 <= j < |aliases| && j != i && Key(aliases[j]) == Key(aliases[i]);
      var c := SiblingIsDeclared(root, ctes, select, j);
      assert Twins(decls[c], decls[b]);
    }
  }

  /** The first twin is the first of its name in the FROM clause. */
  lemma FirstTwin(decls: seq<Event>, b: nat, duplicateOf: Option<nat>, c: nat, first: nat, target: nat)
    requires InOrder(decls) && b < |decls| && c < |decls| && PointsToFirst(decls, b, duplicateOf) &&
             Twins(decls[c], decls[b])
    requires target == if duplicateOf.Some? then duplicateOf.value else b
    requires decls[c].decl.index == first <= decls[target].decl.index
    ensures decls[target].decl.index == first
  {
    hide Fold;
    assert target == b || Twins(decls[target], decls[b]);
    assert target <= c;
  }

  lemma FirstIsFirst(root: Node, ctes: seq<Ctes.CteSite>, b: nat, duplicateOf: Option<nat>)
    requires b < |Decls(root, ctes)| && PointsToFirst(Decls(root, ctes), b, duplicateOf)
    ensures var decls := Decls(root, ctes);
            var first := FirstFrom(Siblings(root, ctes, decls[b].decl), 0, Key(decls[b].alias));
            first == Some(if duplicateOf.Some? then decls[duplicateOf.value].decl.index else decls[b].decl.index)
  {
    hide Expected, SelectAliases, Siblings, ByRule, Fold, NodeAt, Keep;
    var decls := Decls(root, ctes);
    var decl, key := decls[b].decl, Key(decls[b].alias);
    DeclsInOrder(root, ctes);
    DeclarationIsSibling(root, ctes, b);
    var aliases := Siblings(root, ctes, decl);
    var first := FirstFrom(aliases, 0, key).value;
    SameSiblings(root, ctes, decl, first);
    var c := SiblingIsDeclared(root, ctes, decl.select, first);
    var target := if duplicateOf.Some? then duplicateOf.value else b;
    DeclarationIsSibling(root, ctes, target);
    SameSiblings(root, ctes, decl, decls[target].decl.index);
    FirstTwin(decls, b, duplicateOf, c, first, target);
  }

  lemma SameSiblings(root: Node, ctes: seq<Ctes.CteSite>, decl: AliasDecl, i: nat)
    ensures Siblings(root, ctes, AliasDecl(decl.select, i)) == Siblings(root, ctes, decl)
  {}

  lemma DeclsInOrder(root: Node, ctes: seq<Ctes.CteSite>)
    ensures InOrder(Decls(root, ctes))
  {
    DeclarationsOf(root, ctes);
  }

  /** The duplicate law. A table alias is flagged ambiguous exactly when another
      alias of the same FROM clause has the same name; every one but the first
      points to the first. */
  lemma DuplicateLaw(index: AliasIndex, root: Node, ctes: seq<Ctes.CteSite>, b: nat)
    requires Represents(index, root, ctes, Expected(root, ctes)) && b < |index.bindings|
    ensures |Decls(root, ctes)| == |index.bindings|
    ensures var decl := Decls(root, ctes)[b].decl;
            var aliases := Siblings(root, ctes, decl);
            && decl.index < |aliases| && aliases[decl.index].name ==
                 Ident(index.bindings[b].name, index.bindings[b].declarationRange)
            && (index.bindings[b].ambiguous <==> HasNamesake(aliases, decl.index))
            && FirstFrom(aliases, 0, Key(aliases[decl.index])) ==
               Some(match index.bindings[b].duplicateOf
                    case None => decl.index
                    case Some(c) => if c < b then Decls(root, ctes)[c].decl.index else |aliases|)
  {
    var decls := Decls(root, ctes);
    assert BindingIs(index.bindings[b], decls, b, ReferenceRanges(Expected(root, ctes), decls[b].decl));
    hide Represents, Expected, BindingsAre;
    DeclarationIsSibling(root, ctes, b);
    TwinsAreNamesakes(root, ctes, b);
    FirstIsFirst(root, ctes, b, index.bindings[b].duplicateOf);
  }

  /** A binding collects the range of exactly those qualifiers that the lexical
      rule binds to it; an ambiguous one collects none. */
  lemma CollectedReferences(index: AliasIndex, root: Node, ctes: seq<Ctes.CteSite>, b: nat)
    requires Represents(index, root, ctes, Expected(root, ctes)) && b < |index.bindings| && b < |Decls(root, ctes)|
    ensures forall range :: range in index.bindings[b].referenceRanges <==>
            exists a :: RefersTo(root, ctes, a, Decls(root, ctes)[b].decl, range)
    ensures index.bindings[b].ambiguous ==> index.bindings[b].referenceRanges == []
  {
    var decl := Decls(root, ctes)[b].decl;
    assert BindingIs(index.bindings[b], Decls(root, ctes), b, ReferenceRanges(Expected(root, ctes), decl));
    RecordedReferences(root, ctes, decl);
    if index.bindings[b].ambiguous && index.bindings[b].referenceRanges != [] {
      hide Represents, Expected;
      assert index.bindings[b].referenceRanges[0] in index.bindings[b].referenceRanges;
      var a :| RefersTo(root, ctes, a, decl, index.bindings[b].referenceRanges[0]);
      BoundIsLocal(root, a, Fold(Qualifier(root, a).value.name), ctes);
      DeclarationIsSibling(root, ctes, b);
      TwinsAreNamesakes(root, ctes, b);
      LocalIsCount(Siblings(root, ctes, decl), decl.select, decl.index);
      assert false;
    }
  }

  lemma RecordedReferences(root: Node, ctes: seq<Ctes.CteSite>, decl: AliasDecl)
    ensures forall range :: range in ReferenceRanges(Expected(root, ctes), decl) <==>
            exists a :: RefersTo(root, ctes, a, decl, range)
  {
    forall range
      ensures range in ReferenceRanges(Expected(root, ctes), decl) <==> exists a :: RefersTo(root, ctes, a, decl, range)
    {
      ReferencesAreRecorded(Expected(root, ctes), decl, range);
      forall a, member
        ensures Referred(a, decl, range, member) in Expected(root, ctes) ==> RefersTo(root, ctes, a, decl, range)
      {
        RecordIsLexical(root, ctes, Referred(a, decl, range, member));
      }
      forall a | RefersTo(root, ctes, a, decl, range)
        ensures Referred(a, decl, range, MemberOf(NodeAt(root, a).value)) in Expected(root, ctes)
      {
        RecordIsLexical(root, ctes, Referred(a, decl, range, MemberOf(NodeAt(root, a).value)));
      }
    }
  }
}
