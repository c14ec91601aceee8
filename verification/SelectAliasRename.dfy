/** Renaming an alias of a SELECT list: exactly when the index of the edited
    SELECT says what the index said before. */
module SelectAliasRename {
  import opened Coordinates
  import opened Syntax
  import opened Editing
  import opened SelectAliases
  import Tables = AliasBindings
  import Rename = AliasRename
  import Reindex = AliasReindex
  import Ctes = CteBindings

  // ----- One name -----

  function Renamed(ident: Ident, newName: string): Ident {
    ident.(name := newName)
  }

  function RenameAlias(aliases: seq<Alias>, i: nat, newName: string): seq<Alias>
    requires i < |aliases|
  {
    aliases[i := aliases[i].(ident := Renamed(aliases[i].ident, newName))]
  }

  /** The edits replace the declaration and the recorded references. */
  ghost function RenameUse(aliases: seq<Alias>, i: nat, newName: string, ident: Ident): Ident {
    if Unique(aliases, Fold(ident.name), i) then Renamed(ident, newName) else ident
  }

  /** A name that means nothing before a rename is captured by it when it is the
      new name; all other names keep their meaning, and only they. */
  lemma RenameKeepsMeaning(aliases: seq<Alias>, i: nat, newName: string, ident: Ident)
    requires i < |aliases| && !Duplicate(aliases, i)
    requires forall j :: 0 <= j < |aliases| && j != i ==> Key(aliases[j]) != Fold(newName)
    ensures ByName(RenameAlias(aliases, i, newName), RenameUse(aliases, i, newName, ident)) ==
            ByName(aliases, ident) <==>
            Has(aliases, Fold(ident.name)) || Fold(ident.name) != Fold(newName)
  {
    var more, use := RenameAlias(aliases, i, newName), RenameUse(aliases, i, newName, ident);
    var key, key' := Fold(ident.name), Fold(use.name);
    assert Key(more[i]) == Fold(newName);
    hide Fold;
    forall j: nat
      ensures Unique(more, key', j) <==>
              (Unique(aliases, key, j) || (j == i && !Has(aliases, key) && key == Fold(newName)))
    {
      RenameKeepsUnique(aliases, i, newName, ident, j);
    }
    RenameKeepsHas(aliases, i, newName, ident);
    if j: nat :| Unique(aliases, key, j) {
      SameReference(aliases, more, ident, use, j);
    } else if !Has(aliases, key) && key == Fold(newName) {
      assert Unique(more, key', i);
    }
  }

  lemma SameReference(aliases: seq<Alias>, more: seq<Alias>, ident: Ident, use: Ident, j: nat)
    requires Unique(aliases, Fold(ident.name), j) && Unique(more, Fold(use.name), j) && ident.range == use.range
    ensures ByName(more, use) == ByName(aliases, ident)
  {
    hide Fold;
    var k: nat :| Unique(aliases, Fold(ident.name), k) && ByName(aliases, ident) == [Refers(k, ident.range)];
    var l: nat :| Unique(more, Fold(use.name), l) && ByName(more, use) == [Refers(l, use.range)];
    UniqueOnce(aliases, Fold(ident.name), j, k);
    UniqueOnce(more, Fold(use.name), j, l);
  }

  lemma RenameKeepsUnique(aliases: seq<Alias>, i: nat, newName: string, ident: Ident, j: nat)
    requires i < |aliases| && !Duplicate(aliases, i)
    requires forall k :: 0 <= k < |aliases| && k != i ==> Key(aliases[k]) != Fold(newName)
    ensures var more, use := RenameAlias(aliases, i, newName), RenameUse(aliases, i, newName, ident);
            Unique(more, Fold(use.name), j) <==>
            Unique(aliases, Fold(ident.name), j) ||
              (j == i && !Has(aliases, Fold(ident.name)) && Fold(ident.name) == Fold(newName))
  {
    var more, use := RenameAlias(aliases, i, newName), RenameUse(aliases, i, newName, ident);
    hide Fold;
    assert forall k :: 0 <= k < |aliases| && k != i ==> more[k] == aliases[k];
    assert Key(more[i]) == Fold(newName);
  }

  lemma RenameKeepsHas(aliases: seq<Alias>, i: nat, newName: string, ident: Ident)
    requires i < |aliases| && !Duplicate(aliases, i)
    requires forall k :: 0 <= k < |aliases| && k != i ==> Key(aliases[k]) != Fold(newName)
    ensures var more, use := RenameAlias(aliases, i, newName), RenameUse(aliases, i, newName, ident);
            Has(more, Fold(use.name)) <==> Has(aliases, Fold(ident.name)) || Fold(ident.name) == Fold(newName)
  {
    var more, use := RenameAlias(aliases, i, newName), RenameUse(aliases, i, newName, ident);
    hide Fold;
    assert forall k :: 0 <= k < |aliases| && k != i ==> more[k] == aliases[k];
    assert Key(more[i]) == Fold(newName);
  }

  // ----- The edits of the handler -----

  function EditAliases(aliases: seq<Alias>, edits: set<Range>, newName: string): seq<Alias> {
    seq(|aliases|, i requires 0 <= i < |aliases| => Alias(EditIdent(aliases[i].ident, edits, newName),
        aliases[i].explicit))
  }

  function EditUse(use: Use, edits: set<Range>, newName: string): Use {
    match use
    case Bare(ident) => Bare(EditIdent(ident, edits, newName))
    case Headed(idents) => Headed(EditIdents(idents, edits, newName))
  }

  function EditUses(uses: seq<Use>, edits: set<Range>, newName: string): seq<Use> {
    seq(|uses|, k requires 0 <= k < |uses| => EditUse(uses[k], edits, newName))
  }

  /** The edited ranges: the declaration and the collected references. */
  function EditsOf(b: Binding): set<Range> {
    {b.declarationRange} + set k | 0 <= k < |b.referenceRanges| :: b.referenceRanges[k]
  }

  function Head(use: Use): Option<Ident> {
    match use
    case Bare(ident) => Some(ident)
    case Headed(idents) => if idents == [] then None else Some(idents[0])
  }

  /** The ranges under which a use can be recorded: its head and, of a path, the whole. */
  function RangesOf(use: Use): set<Range> {
    match use
    case Bare(ident) => {ident.range}
    case Headed(idents) => if idents == [] then {} else {idents[0].range, PathRange(idents)}
  }

  /** Names have ranges of their own, as in any parsed text; a path is longer than its head. */
  ghost predicate DistinctRanges(aliases: seq<Alias>, uses: seq<Use>) {
    && (forall i, j :: 0 <= i < j < |aliases| ==> aliases[i].ident.range != aliases[j].ident.range)
    && (forall i, k :: 0 <= i < |aliases| && 0 <= k < |uses| ==> aliases[i].ident.range !in RangesOf(uses[k]))
    && (forall k, l :: 0 <= k < l < |uses| ==> RangesOf(uses[k]) !! RangesOf(uses[l]))
    && (forall k :: 0 <= k < |uses| && uses[k].Headed? && uses[k].idents != [] ==>
          PathRange(uses[k].idents) != uses[k].idents[0].range)
  }

  // ----- What is recorded, by use -----

  lemma {:induction false} EventsMembers(aliases: seq<Alias>, tables: seq<Tables.AliasSite>, uses: seq<Use>, e: Event)
    ensures e in AllEvents(aliases, tables, uses) <==>
            exists k :: 0 <= k < |uses| && e in EventsOf(aliases, tables, uses[k])
  {
    hide EventsOf;
    if uses != [] {
      var last := |uses| - 1;
      EventsMembers(aliases, tables, uses[..last], e);
      if e in AllEvents(aliases, tables, uses[..last]) {
        var k :| 0 <= k < last && e in EventsOf(aliases, tables, uses[..last][k]);
        assert uses[..last][k] == uses[k];
      }
      if k :| 0 <= k < last && e in EventsOf(aliases, tables, uses[k]) {
        assert uses[..last][k] == uses[k];
      }
    }
  }

  /** A use is recorded at most once, and under one of its own ranges. */
  lemma EventsShape(aliases: seq<Alias>, tables: seq<Tables.AliasSite>, use: Use)
    ensures var es := EventsOf(aliases, tables, use); |es| <= 1 && forall e :: e in es ==> e.range in RangesOf(use)
  {}

  /** What is recorded of a use is told by its ranges. */
  lemma OwnEvent(aliases: seq<Alias>, more: seq<Alias>, tables: seq<Tables.AliasSite>, uses: seq<Use>, k: nat, e: Event)
    requires DistinctRanges(aliases, uses) && k < |uses| && e.range in RangesOf(uses[k])
    ensures e in AllEvents(more, tables, uses) <==> e in EventsOf(more, tables, uses[k])
  {
    hide EventsOf, AllEvents, RangesOf;
    EventsMembers(more, tables, uses, e);
    if l :| 0 <= l < |uses| && e in EventsOf(more, tables, uses[l]) {
      EventsShape(more, tables, uses[l]);
    }
  }

  lemma {:induction false} ReferenceMembers(log: seq<Event>, i: nat, r: Range)
    ensures r in ReferencesTo(log, i) <==> Refers(i, r) in log
    ensures Site(i, r, false) in ReferenceSites(log) <==> Refers(i, r) in log
    ensures r in AmbiguousRanges(log) <==> Ambiguous(r) in log
  {
    if log != [] {
      ReferenceMembers(log[..|log| - 1], i, r);
      assert log == log[..|log| - 1] + [log[|log| - 1]];
    }
  }

  /** A use is edited exactly when it is recorded as a reference to the alias. */
  lemma EditedIff(index: SelectIndex, aliases: seq<Alias>, tables: seq<Tables.AliasSite>, uses: seq<Use>, i: nat,
                  k: nat)
    requires IsIndexOf(index, aliases, AllEvents(aliases, tables, uses)) && i < |aliases| && k < |uses|
    requires DistinctRanges(aliases, uses) && Head(uses[k]).Some?
    ensures Head(uses[k]).value.range in EditsOf(index.bindings[i]) <==>
            Refers(i, Head(uses[k]).value.range) in EventsOf(aliases, tables, uses[k])
  {
    var r, log := Head(uses[k]).value.range, AllEvents(aliases, tables, uses);
    hide EventsOf, AllEvents;
    assert r in RangesOf(uses[k]);
    assert BindingIs(index.bindings[i], aliases, i, log);
    ReferenceMembers(log, i, r);
    OwnEvent(aliases, aliases, tables, uses, k, Refers(i, r));
  }

  /** The edits rename the one alias among the aliases. */
  lemma EditedAliases(index: SelectIndex, aliases: seq<Alias>, tables: seq<Tables.AliasSite>, uses: seq<Use>, i: nat,
                      newName: string)
    requires IsIndexOf(index, aliases, AllEvents(aliases, tables, uses)) && i < |aliases| &&
             DistinctRanges(aliases, uses)
    ensures EditAliases(aliases, EditsOf(index.bindings[i]), newName) == RenameAlias(aliases, i, newName)
  {
    var log := AllEvents(aliases, tables, uses);
    hide AllEvents, EventsOf, RangesOf, ReferencesTo, Duplicate;
    assert BindingIs(index.bindings[i], aliases, i, log);
    forall j: nat | j < |aliases| ensures aliases[j].ident.range in EditsOf(index.bindings[i]) <==> j == i {
      if aliases[j].ident.range in index.bindings[i].referenceRanges {
        NotAReference(aliases, tables, uses, i, j);
      }
    }
  }

  lemma NotAReference(aliases: seq<Alias>, tables: seq<Tables.AliasSite>, uses: seq<Use>, i: nat, j: nat)
    requires DistinctRanges(aliases, uses) && j < |aliases|
    ensures aliases[j].ident.range !in ReferencesTo(AllEvents(aliases, tables, uses), i)
  {
    var r := aliases[j].ident.range;
    hide AllEvents, EventsOf, RangesOf, ReferencesTo;
    ReferenceMembers(AllEvents(aliases, tables, uses), i, r);
    EventsMembers(aliases, tables, uses, Refers(i, r));
    if k :| 0 <= k < |uses| && Refers(i, r) in EventsOf(aliases, tables, uses[k]) {
      EventsShape(aliases, tables, uses[k]);
      assert false;
    }
  }

  // ----- One use -----

  ghost predicate Owned(tables: seq<Tables.AliasSite>, use: Use) {
    use.Headed? && use.idents != [] && Tables.Covered(tables, use.idents[0].range.start)
  }

  /** The use is no path of a table alias, meant nothing, and is spelled like the new name. */
  ghost predicate Captured(aliases: seq<Alias>, owned: bool, use: Use, newName: string) {
    && Head(use).Some? && !owned
    && !Has(aliases, Fold(Head(use).value.name)) && Fold(Head(use).value.name) == Fold(newName)
  }

  /** In terms of the table aliases found before and after: the use is not captured,
      and is headed by a table alias exactly if it was. */
  ghost predicate Kept(aliases: seq<Alias>, tables: seq<Tables.AliasSite>, tables': seq<Tables.AliasSite>, use: Use,
                       newName: string) {
    !Captured(aliases, Owned(tables, use), use, newName) && (Owned(tables', use) <==> Owned(tables, use))
  }

  /** What is recorded of a use, by its head. */
  lemma EventsByHead(aliases: seq<Alias>, tables: seq<Tables.AliasSite>, use: Use)
    ensures EventsOf(aliases, tables, use) ==
            if Head(use).None? then []
            else if Owned(tables, use) then [Ambiguous(PathRange(use.idents))]
            else ByName(aliases, Head(use).value)
  {}

  lemma EditedHead(use: Use, edits: set<Range>, newName: string)
    ensures Head(EditUse(use, edits, newName)) == EditOptional(Head(use), edits, newName)
    ensures EditUse(use, edits, newName).Headed? <==> use.Headed?
    ensures use.Headed? ==> PathRange(EditUse(use, edits, newName).idents) == PathRange(use.idents)
    ensures RangesOf(EditUse(use, edits, newName)) == RangesOf(use)
    ensures forall tables :: Owned(tables, EditUse(use, edits, newName)) <==> Owned(tables, use)
  {}

  lemma ByNameRange(aliases: seq<Alias>, ident: Ident)
    ensures forall e :: e in ByName(aliases, ident) ==> e.range == ident.range
    ensures forall i: nat, r :: Refers(i, r) in ByName(aliases, ident) <==>
            Unique(aliases, Fold(ident.name), i) && r == ident.range
  {
    hide Fold;
    forall i: nat, r
      ensures Refers(i, r) in ByName(aliases, ident) <==> Unique(aliases, Fold(ident.name), i) && r == ident.range
    {
      if Unique(aliases, Fold(ident.name), i) {
        var j: nat :| Unique(aliases, Fold(ident.name), j) && ByName(aliases, ident) == [Refers(j, ident.range)];
        UniqueOnce(aliases, Fold(ident.name), i, j);
      }
    }
  }

  lemma UseIsKept(aliases: seq<Alias>, tables: seq<Tables.AliasSite>, tables': seq<Tables.AliasSite>, use: Use, i: nat,
                  edits: set<Range>, newName: string)
    requires i < |aliases| && !Duplicate(aliases, i)
    requires forall j :: 0 <= j < |aliases| && j != i ==> Key(aliases[j]) != Fold(newName)
    requires Head(use).Some? ==>
               (Head(use).value.range in edits <==> Refers(i, Head(use).value.range) in EventsOf(aliases, tables, use))
    requires use.Headed? && use.idents != [] ==> PathRange(use.idents) != use.idents[0].range
    ensures EventsOf(RenameAlias(aliases, i, newName), tables', EditUse(use, edits, newName)) ==
            EventsOf(aliases, tables, use) <==>
            Kept(aliases, tables, tables', use, newName)
  {
    hide EventsOf, ByName, Fold, Duplicate, Has, Tables.Covered, EditUse, Unique, PathRange;
    var more, use' := RenameAlias(aliases, i, newName), EditUse(use, edits, newName);
    EventsByHead(aliases, tables, use);
    EventsByHead(more, tables', use');
    EditedHead(use, edits, newName);
    if Head(use).Some? {
      var ident, ident' := Head(use).value, Head(use').value;
      ByNameRange(aliases, ident);
      ByNameRange(more, ident');
      if !Owned(tables, use) {
        assert ident' == RenameUse(aliases, i, newName, ident);
        RenameKeepsMeaning(aliases, i, newName, ident);
      }
    }
  }

  // ----- The whole SELECT -----

  lemma {:induction false} SameEvents(aliases: seq<Alias>, more: seq<Alias>, tables: seq<Tables.AliasSite>,
                                      tables': seq<Tables.AliasSite>,
                                      uses: seq<Use>, uses': seq<Use>)
    requires |uses'| == |uses|
    requires forall k :: 0 <= k < |uses| ==> EventsOf(more, tables', uses'[k]) == EventsOf(aliases, tables, uses[k])
    ensures AllEvents(more, tables', uses') == AllEvents(aliases, tables, uses)
  {
    hide EventsOf;
    if uses != [] {
      SameEvents(aliases, more, tables, tables', uses[..|uses| - 1], uses'[..|uses| - 1]);
    }
  }

  /** The two indexes say the same, but for the new name. */
  ghost predicate SameIndex(index: SelectIndex, index': SelectIndex, i: nat, newName: string) {
    && |index'.bindings| == |index.bindings|
    && (forall j :: 0 <= j < |index.bindings| ==>
          index'.bindings[j] == index.bindings[j].(name := if j == i then newName else index.bindings[j].name))
    && index'.sites == index.sites && index'.ambiguousPaths == index.ambiguousPaths
  }

  lemma SameLogSameIndex(index: SelectIndex, index': SelectIndex, aliases: seq<Alias>, log: seq<Event>, i: nat,
                         newName: string)
    requires IsIndexOf(index, aliases, log) && i < |aliases| && !Duplicate(aliases, i)
    requires forall j :: 0 <= j < |aliases| && j != i ==> Key(aliases[j]) != Fold(newName)
    requires IsIndexOf(index', RenameAlias(aliases, i, newName), log)
    ensures SameIndex(index, index', i, newName)
  {
    var more := RenameAlias(aliases, i, newName);
    assert DeclarationSites(more) == DeclarationSites(aliases);
    hide Fold, ReferencesTo, DeclarationSites;
    assert Key(more[i]) == Fold(newName);
    forall j | 0 <= j < |aliases| ensures Duplicate(more, j) <==> Duplicate(aliases, j) {
      assert forall k :: 0 <= k < |aliases| && k != i ==> Key(more[k]) == Key(aliases[k]);
    }
    forall j | 0 <= j < |aliases|
      ensures index'.bindings[j] == index.bindings[j].(name := if j == i then newName else index.bindings[j].name)
    {
      assert BindingIs(index.bindings[j], aliases, j, log) && BindingIs(index'.bindings[j], more, j, log);
    }
  }

  lemma SameIndexSameEntries(index: SelectIndex, index': SelectIndex, aliases: seq<Alias>, more: seq<Alias>,
                             log: seq<Event>, log': seq<Event>,
                             e: Event)
    requires IsIndexOf(index, aliases, log) && IsIndexOf(index', more, log')
    requires index'.sites == index.sites && index'.ambiguousPaths == index.ambiguousPaths && |more| == |aliases|
    ensures e in log <==> e in log'
  {
    assert |DeclarationSites(more)| == |DeclarationSites(aliases)|;
    assert ReferenceSites(log) == index.sites[|DeclarationSites(aliases)|..];
    assert ReferenceSites(log') == index'.sites[|DeclarationSites(more)|..];
    hide BindingsAre;
    match e {
      case Refers(i, r) => ReferenceMembers(log, i, r); ReferenceMembers(log', i, r);
      case Ambiguous(r) => ReferenceMembers(log, 0, r); ReferenceMembers(log', 0, r);
    }
  }

  lemma SingleEvent(es: seq<Event>, more: seq<Event>)
    requires |es| <= 1 && |more| <= 1 && forall e :: e in es <==> e in more
    ensures es == more
  {
    if es != [] { assert es[0] in more; }
    if more != [] { assert more[0] in es; }
  }

  /** The same entries everywhere mean the same entry for each use. */
  lemma SameEntriesSameUse(aliases: seq<Alias>, more: seq<Alias>, tables: seq<Tables.AliasSite>,
                           tables': seq<Tables.AliasSite>,
                           uses: seq<Use>, edits: set<Range>, newName: string, k: nat)
    requires DistinctRanges(aliases, uses) && k < |uses|
    requires forall e :: e in AllEvents(aliases, tables, uses) <==>
             e in AllEvents(more, tables', EditUses(uses, edits, newName))
    ensures EventsOf(more, tables', EditUse(uses[k], edits, newName)) == EventsOf(aliases, tables, uses[k])
  {
    var uses' := EditUses(uses, edits, newName);
    hide EventsOf, AllEvents, RangesOf, EditUse;
    forall l | 0 <= l < |uses| ensures RangesOf(uses'[l]) == RangesOf(uses[l]) { EditedHead(uses[l], edits, newName); }
    var es, es' := EventsOf(aliases, tables, uses[k]), EventsOf(more, tables', uses'[k]);
    EventsShape(aliases, tables, uses[k]);
    EventsShape(more, tables', uses'[k]);
    EditedDistinct(aliases, uses, edits, newName);
    forall e ensures e in es <==> e in es' {
      if e.range in RangesOf(uses[k]) {
        OwnEvent(aliases, aliases, tables, uses, k, e);
        OwnEvent(aliases, more, tables', uses', k, e);
      }
    }
    SingleEvent(es, es');
  }

  lemma EditedDistinct(aliases: seq<Alias>, uses: seq<Use>, edits: set<Range>, newName: string)
    requires DistinctRanges(aliases, uses)
    ensures DistinctRanges(aliases, EditUses(uses, edits, newName))
  {
    var uses' := EditUses(uses, edits, newName);
    forall k | 0 <= k < |uses|
      ensures RangesOf(uses'[k]) == RangesOf(uses[k])
      ensures Head(uses'[k]) == EditOptional(Head(uses[k]), edits, newName)
      ensures uses[k].Headed? ==> PathRange(uses'[k].idents) == PathRange(uses[k].idents)
    {
      EditedHead(uses[k], edits, newName);
    }
    hide RangesOf, PathRange;
  }

  /** The index stays the same exactly when every use is kept. */
  lemma SameIndexIff(index: SelectIndex, index': SelectIndex, aliases: seq<Alias>, tables: seq<Tables.AliasSite>,
                     tables': seq<Tables.AliasSite>, uses: seq<Use>, scope: Scope, i: nat, newName: string)
    requires IsIndexOf(index, aliases, AllEvents(aliases, tables, uses)) && DistinctRanges(aliases, uses)
    requires i < |index.bindings| && !index.bindings[i].ambiguous && ScopeIs(scope, aliases) &&
             !Conflicts(scope, i, newName)
    requires var edits := EditsOf(index.bindings[i]);
             IsIndexOf(index', EditAliases(aliases, edits, newName),
                       AllEvents(EditAliases(aliases, edits, newName), tables', EditUses(uses, edits, newName)))
    ensures SameIndex(index, index', i, newName) <==>
            forall k :: 0 <= k < |uses| ==> Kept(aliases, tables, tables', uses[k], newName)
  {
    hide EventsOf, AllEvents, ScopeIs, EditUse, Kept, DeclarationSites, ReferenceSites, AmbiguousRanges, Conflicts,
      EditsOf;
    assert BindingIs(index.bindings[i], aliases, i, AllEvents(aliases, tables, uses));
    hide BindingsAre, Duplicate;
    var edits, more := EditsOf(index.bindings[i]), RenameAlias(aliases, i, newName);
    var uses' := EditUses(uses, edits, newName);
    EditedAliases(index, aliases, tables, uses, i, newName);
    ConflictIsCollision(scope, aliases, i, newName);
    forall k | 0 <= k < |uses|
      ensures EventsOf(more, tables', uses'[k]) == EventsOf(aliases, tables, uses[k]) <==>
              Kept(aliases, tables, tables', uses[k], newName)
    {
      if Head(uses[k]).Some? { EditedIff(index, aliases, tables, uses, i, k); }
      UseIsKept(aliases, tables, tables', uses[k], i, edits, newName);
    }
    var log, log' := AllEvents(aliases, tables, uses), AllEvents(more, tables', uses');
    if forall k :: 0 <= k < |uses| ==> Kept(aliases, tables, tables', uses[k], newName) {
      SameEvents(aliases, more, tables, tables', uses, uses');
      SameLogSameIndex(index, index', aliases, log, i, newName);
    }
    if SameIndex(index, index', i, newName) {
      forall e ensures e in log <==> e in log' { SameIndexSameEntries(index, index', aliases, more, log, log', e); }
      forall k | 0 <= k < |uses| ensures Kept(aliases, tables, tables', uses[k], newName) {
        SameEntriesSameUse(aliases, more, tables, tables', uses, edits, newName, k);
      }
    }
  }

  // ----- Paths that a table alias heads -----

  /** The name of an alias declared in a FROM clause. */
  ghost predicate DeclaredName(root: Node, ctes: seq<Ctes.CteSite>, p: Address, j: nat, name: Ident) {
    && j < |Tables.Siblings(root, ctes, Tables.AliasDecl(p, j))|
    && Tables.Siblings(root, ctes, Tables.AliasDecl(p, j))[j].name == name
  }

  /** The use is a path at that place of the tree, and no FROM source. */
  ghost predicate StandsAt(root: Node, use: Use, a: Address) {
    use.Headed? ==> Tables.Qualifier(root, a) == if |use.idents| >= 2 then Some(use.idents[0]) else None
  }

  /** No other name of the tree reaches to where the path begins. */
  ghost predicate Alone(root: Node, ctes: seq<Ctes.CteSite>, use: Use, a: Address) {
    && StandsAt(root, use, a)
    && (Head(use).Some? && use.Headed? ==>
          var pos := Head(use).value.range.start;
          && RangeIncludesPosition(Head(use).value.range, pos)
          && (forall p, j, name | DeclaredName(root, ctes, p, j, name) :: !RangeIncludesPosition(name.range, pos))
          && forall b | Tables.Qualifier(root, b).Some? ::
               RangeIncludesPosition(Tables.Qualifier(root, b).value.range, pos) ==> b == a)
  }

  /** A path is headed by a table alias exactly when its first name denotes one. */
  ghost predicate HeadedByTable(root: Node, ctes: seq<Ctes.CteSite>, use: Use, a: Address) {
    use.Headed? && use.idents != [] && Rename.Denotes(root, ctes, a).Bound?
  }

  lemma OwnedIff(tables: Tables.AliasIndex, root: Node, ctes: seq<Ctes.CteSite>, use: Use, a: Address)
    requires Tables.IsIndexOf(tables, root, ctes) && Alone(root, ctes, use, a)
    ensures Owned(tables.sites, use) <==> HeadedByTable(root, ctes, use, a)
  {
    hide Tables.IsIndexOf, Tables.ResolveAlias, Tables.Qualifier, RangeIncludesPosition, Tables.SelectAliases;
    if use.Headed? && use.idents != [] {
      var pos := use.idents[0].range.start;
      Tables.CoveredIff(tables, root, ctes, pos);
      if e :| Tables.Names(root, ctes, e, pos) {
        assert e.Declared? ==> DeclaredName(root, ctes, e.decl.select, e.decl.index, e.alias.name);
        assert e.at == a;
      }
      if Rename.Denotes(root, ctes, a).Bound? {
        QualifierHasNode(root, a);
        var n := NodeAt(root, a).value;
        var e := Tables.Referred(a, Rename.Denotes(root, ctes, a).decl, use.idents[0].range, Tables.MemberOf(n));
        assert Tables.Names(root, ctes, e, pos);
      }
    }
  }

  lemma QualifierHasNode(root: Node, a: Address)
    requires Tables.Qualifier(root, a).Some?
    ensures NodeAt(root, a).Some?
  {}

  // ----- The tree after the edit -----

  /** The edits change no name declared in a FROM clause. */
  ghost predicate SparesTables(root: Node, ctes: seq<Ctes.CteSite>, edits: set<Range>) {
    forall p, j, name | DeclaredName(root, ctes, p, j, name) :: name.range !in edits
  }

  lemma SparedDeclarations(root: Node, ctes: seq<Ctes.CteSite>, ctes': seq<Ctes.CteSite>, edits: set<Range>,
                           newName: string, p: Address, j: nat, name: Ident)
    requires SparesTables(root, ctes, edits)
    ensures DeclaredName(Edit(root, edits, newName), ctes', p, j, name) <==> DeclaredName(root, ctes, p, j, name)
  {
    var root', d := Edit(root, edits, newName), Tables.AliasDecl(p, j);
    hide Tables.Siblings, Edit;
    Rename.EditSiblings(root, ctes, d, edits, newName);
    Reindex.SiblingsAlone(root', ctes, ctes', d);
    var before := Tables.Siblings(root, ctes, d);
    if j < |before| { assert DeclaredName(root, ctes, p, j, before[j].name); }
  }

  lemma SparedLocal(root: Node, ctes: seq<Ctes.CteSite>, edits: set<Range>, newName: string, p: Address, key: string)
    requires SparesTables(root, ctes, edits)
    ensures Tables.LocalAt(Edit(root, edits, newName), ctes, p, key) == Tables.LocalAt(root, ctes, p, key)
  {
    var root' := Edit(root, edits, newName);
    hide Edit, Tables.Siblings, Fold;
    Rename.EditSiblings(root, ctes, Tables.AliasDecl(p, 0), edits, newName);
    var before, after := Tables.Siblings(root, ctes, Tables.AliasDecl(p, 0)),
      Tables.Siblings(root', ctes, Tables.AliasDecl(p, 0));
    forall j: nat | j < |before| ensures after[j].name == before[j].name {
      SameSelect(root, ctes, p, j);
      assert DeclaredName(root, ctes, p, j, before[j].name);
    }
    Rename.SameLocal(before, after, p, key);
  }

  lemma SameSelect(root: Node, ctes: seq<Ctes.CteSite>, p: Address, j: nat)
    ensures Tables.Siblings(root, ctes, Tables.AliasDecl(p, j)) == Tables.Siblings(root, ctes, Tables.AliasDecl(p, 0))
  {}

  /** What a qualifier denotes after the edit. */
  lemma EditedDenotes(root: Node, ctes: seq<Ctes.CteSite>, ctes': seq<Ctes.CteSite>, a: Address, edits: set<Range>,
                      newName: string)
    requires SparesTables(root, ctes, edits) && Tables.Qualifier(root, a).Some?
    ensures Rename.Denotes(Edit(root, edits, newName), ctes', a) ==
            if Tables.Qualifier(root, a).value.range in edits then Tables.ResolveAlias(root, a, Fold(newName), ctes)
            else Rename.Denotes(root, ctes, a)
  {
    var root' := Edit(root, edits, newName);
    hide Edit, Tables.Qualifier, Tables.ResolveAlias, Fold, Tables.LocalAt, SparesTables;
    Rename.EditQualifier(root, a, edits, newName);
    Reindex.DenotesAlone(root', ctes, ctes', a);
    var key := Fold(EditIdent(Tables.Qualifier(root, a).value, edits, newName).name);
    forall p: Address ensures Tables.LocalAt(root', ctes, p, key) == Tables.LocalAt(root, ctes, p, key) {
      SparedLocal(root, ctes, edits, newName, p, key);
    }
    Rename.SameLookups(root, root', ctes, a, key);
  }

  /** What the first name of a path denotes after the edit. */
  lemma EditedHeadDenotes(root: Node, ctes: seq<Ctes.CteSite>, ctes': seq<Ctes.CteSite>, use: Use, a: Address,
                          edits: set<Range>, newName: string)
    requires SparesTables(root, ctes, edits) && StandsAt(root, use, a) && use.Headed? && |use.idents| >= 2
    ensures Rename.Denotes(Edit(root, edits, newName), ctes', a) ==
            if use.idents[0].range in edits then Tables.ResolveAlias(root, a, Fold(newName), ctes)
            else Rename.Denotes(root, ctes, a)
  {
    hide Edit, Tables.Qualifier, Tables.ResolveAlias, SparesTables, Rename.Denotes;
    EditedDenotes(root, ctes, ctes', a, edits, newName);
  }

  lemma EditedAlone(root: Node, ctes: seq<Ctes.CteSite>, ctes': seq<Ctes.CteSite>, use: Use, a: Address,
                    edits: set<Range>, newName: string)
    requires SparesTables(root, ctes, edits) && Alone(root, ctes, use, a)
    ensures Alone(Edit(root, edits, newName), ctes', EditUse(use, edits, newName), a)
  {
    var root' := Edit(root, edits, newName);
    EditedHead(use, edits, newName);
    hide Edit, Tables.Qualifier, RangeIncludesPosition, DeclaredName;
    forall b ensures Tables.Qualifier(root', b) == EditOptional(Tables.Qualifier(root, b), edits, newName) {
      Rename.EditQualifier(root, b, edits, newName);
    }
    forall p, j: nat, name ensures DeclaredName(root', ctes', p, j, name) <==> DeclaredName(root, ctes, p, j, name) {
      SparedDeclarations(root, ctes, ctes', edits, newName, p, j, name);
    }
  }

  // ----- The rename theorem -----

  /** A path that refers to the alias i, where the new name denotes a table alias. */
  ghost predicate Falls(root: Node, ctes: seq<Ctes.CteSite>, aliases: seq<Alias>, i: nat, use: Use, a: Address,
                        newName: string) {
    && use.Headed? && use.idents != [] && !HeadedByTable(root, ctes, use, a)
    && Unique(aliases, Fold(use.idents[0].name), i) && Tables.ResolveAlias(root, a, Fold(newName), ctes).Bound?
  }

  /** What must hold of a use before the rename for it to be safe. */
  ghost predicate Safe(root: Node, ctes: seq<Ctes.CteSite>, aliases: seq<Alias>, i: nat, use: Use, a: Address,
                       newName: string) {
    && !Captured(aliases, HeadedByTable(root, ctes, use, a), use, newName)
    && !Falls(root, ctes, aliases, i, use, a, newName)
  }

  /** Names have ranges of their own, as in any parsed text: no name of the SELECT
      list and no use is an alias of a FROM clause, and each path is alone at its place. */
  ghost predicate NamesApart(root: Node, ctes: seq<Ctes.CteSite>, aliases: seq<Alias>, uses: seq<Use>,
                             places: seq<Address>) {
    && DistinctRanges(aliases, uses) && |places| == |uses|
    && (forall k :: 0 <= k < |uses| ==> Alone(root, ctes, uses[k], places[k]))
    && forall p, j, name | DeclaredName(root, ctes, p, j, name) ::
         && (forall m :: 0 <= m < |aliases| ==> name.range != aliases[m].ident.range)
         && forall k :: 0 <= k < |uses| && Head(uses[k]).Some? ==> name.range != Head(uses[k]).value.range
  }

  /** The edits of a SELECT alias spare the table aliases. */
  lemma EditsSpareTables(root: Node, ctes: seq<Ctes.CteSite>, index: SelectIndex, aliases: seq<Alias>,
                         tables: seq<Tables.AliasSite>, uses: seq<Use>, places: seq<Address>, i: nat)
    requires NamesApart(root, ctes, aliases, uses, places)
    requires IsIndexOf(index, aliases, AllEvents(aliases, tables, uses)) && i < |aliases|
    ensures SparesTables(root, ctes, EditsOf(index.bindings[i]))
  {
    var log := AllEvents(aliases, tables, uses);
    assert BindingIs(index.bindings[i], aliases, i, log);
    hide AllEvents, EventsOf, DeclaredName, ReferencesTo, Duplicate, Alone;
    forall p, j: nat, name | DeclaredName(root, ctes, p, j, name) ensures name.range !in EditsOf(index.bindings[i]) {
      ReferenceMembers(log, i, name.range);
      EventsMembers(aliases, tables, uses, Refers(i, name.range));
      if k :| 0 <= k < |uses| && Refers(i, name.range) in EventsOf(aliases, tables, uses[k]) {
        ReferenceIsHead(aliases, tables, uses[k], i, name.range);
      }
    }
  }

  lemma ReferenceIsHead(aliases: seq<Alias>, tables: seq<Tables.AliasSite>, use: Use, i: nat, r: Range)
    ensures Refers(i, r) in EventsOf(aliases, tables, use) <==>
            Head(use).Some? && r == Head(use).value.range && !Owned(tables, use) &&
            Unique(aliases, Fold(Head(use).value.name), i)
  {
    hide Fold, Tables.Covered, Unique, PathRange;
    EventsByHead(aliases, tables, use);
    if Head(use).Some? { ByNameRange(aliases, Head(use).value); }
  }

  /** One use: it is kept exactly when it is safe. */
  lemma KeptIffSafe(root: Node, ctes: seq<Ctes.CteSite>, ctes': seq<Ctes.CteSite>, tables: Tables.AliasIndex,
                    tables': Tables.AliasIndex, aliases: seq<Alias>, i: nat, use: Use, a: Address, edits: set<Range>,
                    newName: string)
    requires Tables.IsIndexOf(tables, root, ctes) && Tables.IsIndexOf(tables', Edit(root, edits, newName), ctes')
    requires SparesTables(root, ctes, edits) && Alone(root, ctes, use, a)
    requires use.Headed? && use.idents != [] ==> PathRange(use.idents) != use.idents[0].range
    requires Head(use).Some? ==>
               (Head(use).value.range in edits <==>
                Refers(i, Head(use).value.range) in EventsOf(aliases, tables.sites, use))
    ensures Kept(aliases, tables.sites, tables'.sites, use, newName) <==>
            Safe(root, ctes, aliases, i, use, a, newName)
  {
    hide Tables.IsIndexOf, Alone, SparesTables, Unique, EventsOf, Fold, Edit, Rename.Denotes, Tables.ResolveAlias, Has,
      Tables.Covered;
    OwnedIff(tables, root, ctes, use, a);
    EditedAlone(root, ctes, ctes', use, a, edits, newName);
    OwnedIff(tables', Edit(root, edits, newName), ctes', EditUse(use, edits, newName), a);
    EditedHead(use, edits, newName);
    if use.Headed? && use.idents != [] {
      ReferenceIsHead(aliases, tables.sites, use, i, use.idents[0].range);
      LongPath(use);
      AloneStands(root, ctes, use, a);
      EditedHeadDenotes(root, ctes, ctes', use, a, edits, newName);
    }
  }

  lemma LongPath(use: Use)
    requires use.Headed? && use.idents != [] && PathRange(use.idents) != use.idents[0].range
    ensures |use.idents| >= 2
  {}

  lemma AloneStands(root: Node, ctes: seq<Ctes.CteSite>, use: Use, a: Address)
    requires Alone(root, ctes, use, a)
    ensures StandsAt(root, use, a)
  {}

  /** The rename theorem. Where the test finds no conflict, extracting the table
      aliases and the SELECT aliases again from the edited document gives the same
      bindings, references and ambiguities, if and only if, in the document before,
      no use that means nothing is spelled like the new name, and at no path that
      refers to the alias the new name denotes a table alias. */
  lemma RenameTheorem(
      root: Node, ctes: seq<Ctes.CteSite>, ctes': seq<Ctes.CteSite>, tables: Tables.AliasIndex,
      tables': Tables.AliasIndex, index: SelectIndex, index': SelectIndex, aliases: seq<Alias>, uses: seq<Use>,
      places: seq<Address>, scope: Scope, i: nat, newName: string)
    requires Tables.IsIndexOf(tables, root, ctes) && NamesApart(root, ctes, aliases, uses, places)
    requires IsIndexOf(index, aliases, AllEvents(aliases, tables.sites, uses))
    requires i < |index.bindings| && !index.bindings[i].ambiguous
    requires ScopeIs(scope, aliases) && !Conflicts(scope, i, newName)
    requires var edits := EditsOf(index.bindings[i]);
             && Tables.IsIndexOf(tables', Edit(root, edits, newName), ctes')
             && IsIndexOf(index', EditAliases(aliases, edits, newName),
                  AllEvents(EditAliases(aliases, edits, newName), tables'.sites, EditUses(uses, edits, newName)))
    ensures SameIndex(index, index', i, newName) <==>
            forall k :: 0 <= k < |uses| ==> Safe(root, ctes, aliases, i, uses[k], places[k], newName)
  {
    hide Tables.IsIndexOf, IsIndexOf, Alone, SparesTables, EventsOf, AllEvents, Edit, Kept, Safe, DeclaredName, ScopeIs,
      Conflicts, EditsOf, EditAliases, EditUses;
    var edits := EditsOf(index.bindings[i]);
    IndexLength(index, aliases, AllEvents(aliases, tables.sites, uses));
    SameIndexIff(index, index', aliases, tables.sites, tables'.sites, uses, scope, i, newName);
    EditsSpareTables(root, ctes, index, aliases, tables.sites, uses, places, i);
    forall k | 0 <= k < |uses|
      ensures Kept(aliases, tables.sites, tables'.sites, uses[k], newName) <==>
              Safe(root, ctes, aliases, i, uses[k], places[k], newName)
    {
      if Head(uses[k]).Some? { EditedIff(index, aliases, tables.sites, uses, i, k); }
      KeptIffSafe(root, ctes, ctes', tables, tables', aliases, i, uses[k], places[k], edits, newName);
    }
  }

  lemma IndexLength(index: SelectIndex, aliases: seq<Alias>, log: seq<Event>)
    requires IsIndexOf(index, aliases, log)
    ensures |index.bindings| == |aliases|
  {}
}
