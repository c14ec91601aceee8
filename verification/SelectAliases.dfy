/** The aliases of a SELECT list: which names are ambiguous, what GROUP BY, HAVING
    and ORDER BY refer to, and when an alias can be renamed. */
module SelectAliases {
  import opened Coordinates
  import opened Syntax
  import Tables = AliasBindings

  datatype Alias = Alias(ident: Ident, explicit: bool)

  /** The items of a SELECT that have a name, in order. */
  function Aliases(kids: seq<Node>): seq<Alias> {
    if kids == [] then [] else Aliases(kids[..|kids| - 1]) + ItemAlias(kids[|kids| - 1])
  }

  function ItemAlias(n: Node): seq<Alias> {
    if n.kind.Item? && n.kind.result.Some? then [Alias(n.kind.result.value, n.kind.explicit)] else []
  }

  function Key(a: Alias): string {
    Fold(a.ident.name)
  }

  // ----- What a name means -----

  ghost predicate Has(aliases: seq<Alias>, key: string) {
    exists i :: 0 <= i < |aliases| && Key(aliases[i]) == key
  }

  ghost predicate Unique(aliases: seq<Alias>, key: string, i: nat) {
    i < |aliases| && Key(aliases[i]) == key && forall j :: 0 <= j < |aliases| && Key(aliases[j]) == key ==> j == i
  }

  /** Another alias of the same list has the same name but for case. */
  ghost predicate Duplicate(aliases: seq<Alias>, i: nat) {
    i < |aliases| && exists j :: 0 <= j < |aliases| && j != i && Key(aliases[j]) == Key(aliases[i])
  }

  datatype Event = Refers(alias: nat, range: Range) | Ambiguous(range: Range)

  /** What a name refers to: the one alias that carries it, several, or none. */
  ghost function ByName(aliases: seq<Alias>, ident: Ident): seq<Event> {
    var key := Fold(ident.name);
    if !Has(aliases, key) then []
    else if exists i: nat :: Unique(aliases, key, i) then
      var i: nat :| Unique(aliases, key, i);
      [Refers(i, ident.range)]
    else [Ambiguous(ident.range)]
  }

  /** A name in a clause: alone, or at the head of a path. */
  datatype Use = Bare(ident: Ident) | Headed(idents: seq<Ident>)

  /** The uses in a clause in walking order; nested queries are not entered. */
  function UsesOf(n: Node): seq<Use>
    decreases n, |Kids(n)| + 1
  {
    match n.kind
    case Lone(ident) => [Bare(ident)]
    case Path(idents) => [Headed(idents)]
    case Query | Select(_, _) => []
    case _ => UsesFrom(n, 0)
  }

  function UsesFrom(n: Node, k: nat): seq<Use>
    requires k <= |Kids(n)|
    decreases n, |Kids(n)| - k
  {
    if k == |Kids(n)| then [] else UsesOf(Kids(n)[k]) + UsesFrom(n, k + 1)
  }

  /** The uses in a list of clauses. */
  function UsesIn(clauses: seq<Node>): seq<Use> {
    if clauses == [] then [] else UsesIn(clauses[..|clauses| - 1]) + UsesOf(clauses[|clauses| - 1])
  }

  /** A path headed by a table alias is not a reference to a SELECT alias. */
  ghost function EventsOf(aliases: seq<Alias>, tables: seq<Tables.AliasSite>, use: Use): seq<Event> {
    match use
    case Bare(ident) => ByName(aliases, ident)
    case Headed(idents) =>
      if idents == [] then []
      else if Tables.Covered(tables, idents[0].range.start) then [Ambiguous(PathRange(idents))]
      else ByName(aliases, idents[0])
  }

  ghost function AllEvents(aliases: seq<Alias>, tables: seq<Tables.AliasSite>, uses: seq<Use>): seq<Event> {
    if uses == [] then []
    else AllEvents(aliases, tables, uses[..|uses| - 1]) + EventsOf(aliases, tables, uses[|uses| - 1])
  }

  lemma {:induction false} AllEventsAppend(aliases: seq<Alias>, tables: seq<Tables.AliasSite>, x: seq<Use>, y: seq<Use>)
    ensures AllEvents(aliases, tables, x + y) == AllEvents(aliases, tables, x) + AllEvents(aliases, tables, y)
  {
    hide EventsOf;
    if y == [] {
      assert x + y == x;
    } else {
      assert (x + y)[..|x + y| - 1] == x + y[..|y| - 1];
      AllEventsAppend(aliases, tables, x, y[..|y| - 1]);
    }
  }

  lemma UniqueOnce(aliases: seq<Alias>, key: string, i: nat, j: nat)
    requires Unique(aliases, key, i) && Unique(aliases, key, j)
    ensures i == j
  {}

  // ----- The scope map -----

  datatype Binding = Binding(name: string, declarationRange: Range, referenceRanges: seq<Range>, ambiguous: bool,
                             explicit: bool)

  datatype Site = Site(binding: nat, range: Range, declaration: bool)

  /** The scope: a name of one alias, or of several. */
  type Scope = map<string, Option<nat>>

  function Lookup(scope: Scope, key: string): Option<Option<nat>> {
    if key in scope then Some(scope[key]) else None
  }

  ghost predicate ScopeIs(scope: Scope, aliases: seq<Alias>) {
    forall key :: EntryIs(scope, aliases, key)
  }

  ghost predicate EntryIs(scope: Scope, aliases: seq<Alias>, key: string) {
    && (key in scope <==> Has(aliases, key))
    && (key in scope && scope[key].Some? ==> Unique(aliases, key, scope[key].value))
    && (key in scope && scope[key].None? ==> forall i: nat :: !Unique(aliases, key, i))
  }

  lemma ScopeGrows(scope: Scope, aliases: seq<Alias>, a: Alias)
    requires ScopeIs(scope, aliases)
    ensures var key := Key(a);
            ScopeIs(scope[key := if key in scope then None else Some(|aliases|)], aliases + [a])
  {
    var more, key := aliases + [a], Key(a);
    var scope' := scope[key := if key in scope then None else Some(|aliases|)];
    forall k ensures EntryIs(scope', more, k) {
      assert EntryIs(scope, aliases, k);
      EntryGrows(scope, aliases, a, k);
    }
  }

  lemma EntryGrows(scope: Scope, aliases: seq<Alias>, a: Alias, k: string)
    requires EntryIs(scope, aliases, k)
    ensures EntryIs(scope[Key(a) := if Key(a) in scope then None else Some(|aliases|)], aliases + [a], k)
  {
    var more := aliases + [a];
    hide Fold;
    assert more[|aliases|] == a && forall i :: 0 <= i < |aliases| ==> more[i] == aliases[i];
    if k == Key(a) {
      assert Key(more[|aliases|]) == k;
      if k in scope {
        var j :| 0 <= j < |aliases| && Key(aliases[j]) == k;
        assert Key(more[j]) == k;
        forall i: nat ensures !Unique(more, k, i) {}
      }
    } else {
      assert Has(aliases, k) <==> Has(more, k) by {
        if Has(aliases, k) {
          var j :| 0 <= j < |aliases| && Key(aliases[j]) == k;
          assert Key(more[j]) == k;
        }
      }
      forall i: nat ensures Unique(more, k, i) <==> Unique(aliases, k, i) {}
    }
  }

  /** A new alias makes those of its name ambiguous, itself included. */
  lemma DuplicateGrows(aliases: seq<Alias>, a: Alias, i: nat)
    requires i <= |aliases|
    ensures i < |aliases| ==> (Duplicate(aliases + [a], i) <==> Duplicate(aliases, i) || Key(aliases[i]) == Key(a))
    ensures Duplicate(aliases + [a], |aliases|) <==> Has(aliases, Key(a))
  {
    var more := aliases + [a];
    hide Fold;
    assert more[|aliases|] == a && forall k :: 0 <= k < |aliases| ==> more[k] == aliases[k];
    if i < |aliases| {
      if Key(aliases[i]) == Key(a) { assert Key(more[|aliases|]) == Key(more[i]); }
      if Duplicate(aliases, i) {
        var j :| 0 <= j < |aliases| && j != i && Key(aliases[j]) == Key(aliases[i]);
        assert Key(more[j]) == Key(more[i]);
      }
    }
    if Has(aliases, Key(a)) {
      var j :| 0 <= j < |aliases| && Key(aliases[j]) == Key(a);
      assert Key(more[j]) == Key(more[|aliases|]);
    }
  }

  // ----- What the walk records -----

  function ReferencesTo(log: seq<Event>, i: nat): seq<Range> {
    if log == [] then []
    else
      var last := |log| - 1;
      ReferencesTo(log[..last], i) + if log[last].Refers? && log[last].alias == i then [log[last].range] else []
  }

  function ReferenceSites(log: seq<Event>): seq<Site> {
    if log == [] then []
    else
      var last := |log| - 1;
      ReferenceSites(log[..last]) + if log[last].Refers? then [Site(log[last].alias, log[last].range, false)] else []
  }

  function AmbiguousRanges(log: seq<Event>): seq<Range> {
    if log == [] then []
    else
      var last := |log| - 1;
      AmbiguousRanges(log[..last]) + if log[last].Ambiguous? then [log[last].range] else []
  }

  function DeclarationSites(aliases: seq<Alias>): seq<Site> {
    seq(|aliases|, i requires 0 <= i < |aliases| => Site(i, aliases[i].ident.range, true))
  }

  ghost predicate BindingIs(b: Binding, aliases: seq<Alias>, i: nat, log: seq<Event>)
    requires i < |aliases|
  {
    && b.name == aliases[i].ident.name && b.declarationRange == aliases[i].ident.range &&
         b.explicit == aliases[i].explicit
    && (b.ambiguous <==> Duplicate(aliases, i)) && b.referenceRanges == ReferencesTo(log, i)
  }

  ghost predicate BindingsAre(bindings: seq<Binding>, aliases: seq<Alias>, log: seq<Event>) {
    |bindings| == |aliases| && forall i :: 0 <= i < |aliases| ==> BindingIs(bindings[i], aliases, i, log)
  }

  datatype SelectIndex = SelectIndex(bindings: seq<Binding>, sites: seq<Site>, ambiguousPaths: seq<Range>)

  /** The index of one SELECT: its aliases with their ambiguity, and each use in
      its clauses recorded as the list says. */
  ghost predicate IsIndexOf(index: SelectIndex, aliases: seq<Alias>, log: seq<Event>) {
    && BindingsAre(index.bindings, aliases, log)
    && index.sites == DeclarationSites(aliases) + ReferenceSites(log)
    && index.ambiguousPaths == AmbiguousRanges(log)
  }

  lemma BindingsGrow(bindings: seq<Binding>, aliases: seq<Alias>, a: Alias, scope: Scope, bindings': seq<Binding>)
    requires BindingsAre(bindings, aliases, []) && ScopeIs(scope, aliases) && |bindings'| == |aliases| + 1
    requires bindings'[|aliases|] == Binding(a.ident.name, a.ident.range, [], Key(a) in scope, a.explicit)
    requires forall i :: 0 <= i < |aliases| ==>
               bindings'[i] == bindings[i].(ambiguous := bindings[i].ambiguous ||
                   Lookup(scope, Key(a)) == Some(Some(i)))
    ensures BindingsAre(bindings', aliases + [a], [])
  {
    var more := aliases + [a];
    assert EntryIs(scope, aliases, Key(a));
    forall i | 0 <= i < |more| ensures BindingIs(bindings'[i], more, i, []) {
      DuplicateGrows(aliases, a, i);
      if i < |aliases| {
        assert BindingIs(bindings[i], aliases, i, []);
        BearerIsMarked(scope, aliases, a, i);
      }
    }
  }

  /** A duplicate name is marked on the alias in the scope; further ones of that
      name were marked before. */
  lemma BearerIsMarked(scope: Scope, aliases: seq<Alias>, a: Alias, i: nat)
    requires ScopeIs(scope, aliases) && i < |aliases|
    ensures Key(aliases[i]) == Key(a) ==> Key(a) in scope && (scope[Key(a)] == Some(i) || Duplicate(aliases, i))
    ensures Key(a) in scope && scope[Key(a)] == Some(i) ==> Key(aliases[i]) == Key(a)
  {
    assert EntryIs(scope, aliases, Key(a));
    if Key(aliases[i]) == Key(a) && scope[Key(a)] != Some(i) && !Duplicate(aliases, i) {
      assert Unique(aliases, Key(a), i);
      if scope[Key(a)].Some? { UniqueOnce(aliases, Key(a), i, scope[Key(a)].value); }
    }
  }

  lemma ByNameIs(scope: Scope, aliases: seq<Alias>, ident: Ident)
    requires ScopeIs(scope, aliases)
    ensures var entry := Lookup(scope, Fold(ident.name));
            && (entry.None? ==> ByName(aliases, ident) == [])
            && (entry == Some(None) ==> ByName(aliases, ident) == [Ambiguous(ident.range)])
            && (entry.Some? && entry.value.Some? ==>
                  entry.value.value < |aliases| && !Duplicate(aliases, entry.value.value) &&
                  ByName(aliases, ident) == [Refers(entry.value.value, ident.range)])
  {
    var key := Fold(ident.name);
    hide Fold;
    assert EntryIs(scope, aliases, key);
    if key in scope && scope[key].Some? {
      var i: nat :| Unique(aliases, key, i) && ByName(aliases, ident) == [Refers(i, ident.range)];
      UniqueOnce(aliases, key, i, scope[key].value);
    }
  }

  lemma ReferenceRecorded(bindings: seq<Binding>, aliases: seq<Alias>, log: seq<Event>, e: Event)
    requires BindingsAre(bindings, aliases, log) && (e.Refers? ==> e.alias < |aliases|)
    ensures e.Ambiguous? ==> BindingsAre(bindings, aliases, log + [e])
    ensures e.Refers? ==>
              var b := bindings[e.alias];
              BindingsAre(bindings[e.alias := b.(referenceRanges := b.referenceRanges + [e.range])], aliases, log + [e])
  {
    assert (log + [e])[..|log|] == log;
    forall i | 0 <= i < |aliases|
      ensures BindingIs(bindings[i].(referenceRanges := ReferencesTo(log + [e], i)), aliases, i, log + [e])
      ensures ReferencesTo(log + [e], i) == bindings[i].referenceRanges + if e.Refers? && e.alias == i then [e.range]
              else []
    {
      assert BindingIs(bindings[i], aliases, i, log);
    }
    hide ReferencesTo, Duplicate;
    if e.Ambiguous? {
      forall i | 0 <= i < |aliases| ensures BindingIs(bindings[i], aliases, i, log + [e]) {
        assert bindings[i].(referenceRanges := ReferencesTo(log + [e], i)) == bindings[i];
      }
    }
  }

  lemma EventRecorded(log: seq<Event>, e: Event)
    ensures ReferenceSites(log + [e]) == ReferenceSites(log) + if e.Refers? then [Site(e.alias, e.range, false)] else []
    ensures AmbiguousRanges(log + [e]) == AmbiguousRanges(log) + if e.Ambiguous? then [e.range] else []
  {
    assert (log + [e])[..|log|] == log;
  }

  /** The walk over one SELECT. */
  class SelectAliasIndexer {
    var scope: Scope
    var bindings: seq<Binding>
    var sites: seq<Site>
    var ambiguousPaths: seq<Range>
    ghost var aliases: seq<Alias>
    ghost var log: seq<Event>

    ghost predicate Valid()
      reads this
    {
      ScopeIs(scope, aliases) && IsIndexOf(SelectIndex(bindings, sites, ambiguousPaths), aliases, log)
    }

    constructor ()
      ensures Valid() && aliases == [] && log == []
    {
      scope, bindings, sites, ambiguousPaths := map[], [], [], [];
      aliases, log := [], [];
    }

    method AddAlias(a: Alias)
      requires Valid() && log == []
      modifies this
      ensures Valid() && log == [] && aliases == old(aliases) + [a]
    {
      hide Duplicate;
      var key := Fold(a.ident.name);
      ScopeGrows(scope, aliases, a);
      ghost var was := bindings;
      var binding := Binding(a.ident.name, a.ident.range, [], false, a.explicit);
      if key in scope {
        binding := binding.(ambiguous := true);
        if scope[key].Some? {
          var previous := scope[key].value;
          assert EntryIs(scope, aliases, key);
          bindings := bindings[previous := bindings[previous].(ambiguous := true)];
        }
      }
      bindings := bindings + [binding];
      BindingsGrow(was, aliases, a, scope, bindings);
      assert DeclarationSites(aliases + [a]) == DeclarationSites(aliases) + [Site(|aliases|, a.ident.range, true)];
      sites := sites + [Site(|bindings| - 1, a.ident.range, true)];
      scope := scope[key := if key in scope then None else Some(|bindings| - 1)];
      aliases := aliases + [a];
    }

    method AddAmbiguous(range: Range)
      requires Valid()
      modifies this`ambiguousPaths, this`log
      ensures Valid() && log == old(log) + [Ambiguous(range)]
    {
      ReferenceRecorded(bindings, aliases, log, Ambiguous(range));
      EventRecorded(log, Ambiguous(range));
      ambiguousPaths := ambiguousPaths + [range];
      log := log + [Ambiguous(range)];
    }

    method AddReference(b: nat, range: Range)
      requires Valid() && b < |aliases|
      modifies this`bindings, this`sites, this`log
      ensures Valid() && log == old(log) + [Refers(b, range)]
    {
      ReferenceRecorded(bindings, aliases, log, Refers(b, range));
      EventRecorded(log, Refers(b, range));
      bindings := bindings[b := bindings[b].(referenceRanges := bindings[b].referenceRanges + [range])];
      sites := sites + [Site(b, range, false)];
      log := log + [Refers(b, range)];
    }

    method AddSelectAliasReference(ident: Ident)
      requires Valid()
      modifies this`bindings, this`sites, this`ambiguousPaths, this`log
      ensures Valid() && log == old(log) + ByName(aliases, ident)
    {
      ByNameIs(scope, aliases, ident);
      var key := Fold(ident.name);
      hide ByName, IsIndexOf, Fold, ScopeIs;
      if key !in scope {
        return;
      }
      if scope[key].None? || bindings[scope[key].value].ambiguous {
        AddAmbiguous(ident.range);
        return;
      }
      AddReference(scope[key].value, ident.range);
    }

    method AddSelectAliasReferences(root: Node, tables: seq<Tables.AliasSite>)
      requires Valid()
      modifies this`bindings, this`sites, this`ambiguousPaths, this`log
      ensures Valid() && log == old(log) + AllEvents(aliases, tables, UsesOf(root))
      decreases root, |Kids(root)| + 1
    {
      hide AllEvents, EventsOf, UsesFrom, Valid;
      UsesByKind(aliases, tables, root);
      match root.kind
      case Query | Select(_, _) =>
      case Lone(ident) => AddUse(Bare(ident), tables);
      case Path(idents) => AddUse(Headed(idents), tables);
      case _ => AddPartReferences(root, 0, tables);
    }

    method AddUse(use: Use, tables: seq<Tables.AliasSite>)
      requires Valid()
      modifies this`bindings, this`sites, this`ambiguousPaths, this`log
      ensures Valid() && log == old(log) + EventsOf(aliases, tables, use)
    {
      hide Valid, ByName, Tables.Covered;
      match use
      case Bare(ident) => AddSelectAliasReference(ident);
      case Headed(idents) =>
        if |idents| > 0 {
          var table := Tables.SiteAtPosition(tables, idents[0].range.start);
          if table.Some? {
            AddAmbiguous(PathRange(idents));
          } else {
            AddSelectAliasReference(idents[0]);
          }
        }
    }

    method AddPartReferences(root: Node, k: nat, tables: seq<Tables.AliasSite>)
      requires Valid() && k <= |Kids(root)|
      modifies this`bindings, this`sites, this`ambiguousPaths, this`log
      ensures Valid() && log == old(log) + AllEvents(aliases, tables, UsesFrom(root, k))
      decreases root, |Kids(root)| - k
    {
      hide AllEvents, UsesOf, UsesFrom, Valid;
      UsesStep(aliases, tables, root, k);
      if k < |Kids(root)| {
        AddSelectAliasReferences(Kids(root)[k], tables);
        AddPartReferences(root, k + 1, tables);
      }
    }
  }

  lemma NoUses(aliases: seq<Alias>, tables: seq<Tables.AliasSite>)
    ensures AllEvents(aliases, tables, []) == []
  {}

  lemma UsesByKind(aliases: seq<Alias>, tables: seq<Tables.AliasSite>, n: Node)
    ensures AllEvents(aliases, tables, UsesOf(n)) ==
            if n.kind.Query? || n.kind.Select? then []
            else if n.kind.Lone? then EventsOf(aliases, tables, Bare(n.kind.ident))
            else if n.kind.Path? then EventsOf(aliases, tables, Headed(n.kind.idents))
            else AllEvents(aliases, tables, UsesFrom(n, 0))
  {
    hide AllEvents, EventsOf, UsesFrom;
    NoUses(aliases, tables);
    if n.kind.Lone? { OneUse(aliases, tables, Bare(n.kind.ident)); }
    if n.kind.Path? { OneUse(aliases, tables, Headed(n.kind.idents)); }
  }

  lemma UsesStep(aliases: seq<Alias>, tables: seq<Tables.AliasSite>, n: Node, k: nat)
    requires k <= |Kids(n)|
    ensures AllEvents(aliases, tables, UsesFrom(n, k)) ==
            if k == |Kids(n)| then []
            else AllEvents(aliases, tables, UsesOf(Kids(n)[k])) + AllEvents(aliases, tables, UsesFrom(n, k + 1))
  {
    if k < |Kids(n)| { AllEventsAppend(aliases, tables, UsesOf(Kids(n)[k]), UsesFrom(n, k + 1)); }
  }

  lemma AliasesStep(kids: seq<Node>, i: nat)
    requires i < |kids|
    ensures Aliases(kids[..i + 1]) == Aliases(kids[..i]) + ItemAlias(kids[i])
  {
    assert kids[..i + 1][..i] == kids[..i];
  }

  lemma ClausesStep(aliases: seq<Alias>, tables: seq<Tables.AliasSite>, clauses: seq<Node>, i: nat)
    requires i < |clauses|
    ensures AllEvents(aliases, tables, UsesIn(clauses[..i + 1])) ==
            AllEvents(aliases, tables, UsesIn(clauses[..i])) + AllEvents(aliases, tables, UsesOf(clauses[i]))
  {
    assert clauses[..i + 1][..i] == clauses[..i];
    AllEventsAppend(aliases, tables, UsesIn(clauses[..i]), UsesOf(clauses[i]));
  }

  lemma OneUse(aliases: seq<Alias>, tables: seq<Tables.AliasSite>, use: Use)
    ensures AllEvents(aliases, tables, [use]) == EventsOf(aliases, tables, use)
  {
    assert AllEvents(aliases, tables, [use][..0]) == [];
  }

  /** The index of one SELECT; the clauses are GROUP BY, HAVING and the ORDER BY
      of its query, as far as present. */
  method IndexSelectResultAliases(select: Node, clauses: seq<Node>, tables: seq<Tables.AliasSite>)
    returns (index: SelectIndex)
    ensures var aliases := Aliases(Kids(select));
            IsIndexOf(index, aliases, AllEvents(aliases, tables, UsesIn(clauses)))
  {
    var indexer := new SelectAliasIndexer();
    var kids := Kids(select);
    assert Aliases(kids[..0]) == [] && kids[..|kids|] == kids;
    hide Aliases, AllEvents, UsesIn, ScopeIs, IsIndexOf;
    for i := 0 to |kids|
      invariant fresh(indexer) && indexer.Valid() && indexer.log == [] && indexer.aliases == Aliases(kids[..i])
    {
      AliasesStep(kids, i);
      if kids[i].kind.Item? && kids[i].kind.result.Some? {
        indexer.AddAlias(Alias(kids[i].kind.result.value, kids[i].kind.explicit));
      }
    }
    NoClauses(indexer.aliases, tables, clauses);
    for i := 0 to |clauses|
      invariant fresh(indexer) && indexer.Valid() && indexer.aliases == Aliases(kids)
      invariant indexer.log == AllEvents(indexer.aliases, tables, UsesIn(clauses[..i]))
    {
      ClausesStep(indexer.aliases, tables, clauses, i);
      indexer.AddSelectAliasReferences(clauses[i], tables);
    }
    assert clauses[..|clauses|] == clauses;
    index := SelectIndex(indexer.bindings, indexer.sites, indexer.ambiguousPaths);
  }

  lemma NoClauses(aliases: seq<Alias>, tables: seq<Tables.AliasSite>, clauses: seq<Node>)
    ensures AllEvents(aliases, tables, UsesIn(clauses[..0])) == []
  {}

  // ----- Laws -----

  /** An ambiguous alias collects no reference. */
  lemma {:induction false} AmbiguousCollectsNothing(aliases: seq<Alias>, tables: seq<Tables.AliasSite>, uses: seq<Use>,
      i: nat)
    requires Duplicate(aliases, i)
    ensures ReferencesTo(AllEvents(aliases, tables, uses), i) == []
  {
    if uses != [] {
      var last := |uses| - 1;
      AmbiguousCollectsNothing(aliases, tables, uses[..last], i);
      var before, more := AllEvents(aliases, tables, uses[..last]), EventsOf(aliases, tables, uses[last]);
      EventsAvoidDuplicates(aliases, tables, uses[last], i);
      hide EventsOf;
      if more == [] {
        assert before + more == before;
      } else {
        assert more == [more[0]] && (before + more)[..|before|] == before;
      }
    }
  }

  lemma EventsAvoidDuplicates(aliases: seq<Alias>, tables: seq<Tables.AliasSite>, use: Use, i: nat)
    requires Duplicate(aliases, i)
    ensures var e := EventsOf(aliases, tables, use); |e| <= 1 && (e != [] && e[0].Refers? ==> e[0].alias != i)
  {}

  // ----- Renaming -----

  /** The test made before a rename. */
  predicate Conflicts(scope: Scope, alias: nat, newName: string) {
    Fold(newName) in scope && scope[Fold(newName)] != Some(alias)
  }

  /** For an alias that is not ambiguous the test finds exactly another alias of
      the new name. */
  lemma ConflictIsCollision(scope: Scope, aliases: seq<Alias>, i: nat, newName: string)
    requires ScopeIs(scope, aliases) && i < |aliases| && !Duplicate(aliases, i)
    ensures Conflicts(scope, i, newName) <==>
            exists j :: 0 <= j < |aliases| && j != i && Key(aliases[j]) == Fold(newName)
  {
    var key := Fold(newName);
    assert EntryIs(scope, aliases, key);
    assert Unique(aliases, Key(aliases[i]), i);
    hide Fold;
    if Conflicts(scope, i, newName) {
      if scope[key].Some? {
        assert scope[key].value != i;
      } else {
        assert !Unique(aliases, key, i);
      }
    }
    if j :| 0 <= j < |aliases| && j != i && Key(aliases[j]) == key {
      assert Has(aliases, key);
    }
  }
}
