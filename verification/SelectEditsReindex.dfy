/** The joint SELECT-alias index extracted again after edits that rename several aliases:
    exactly when it says the same, but for the names. */
module SelectEditsReindex {
  import opened Coordinates
  import opened Syntax
  import opened Editing
  import opened Texts
  import opened SelectAliases
  import opened SelectWalk
  import opened SelectIndexes
  import opened SelectAliasRename
  import opened SelectAliasDocument
  import opened SelectAliasReindex
  import opened SelectAliasEdits
  import Ctes = CteBindings
  import Tables = AliasBindings
  import Rename = AliasRename

  // ----- One use -----

  /** What must hold of a use before the edit for it to be recorded as before: if it is
      edited, the new name denotes no table alias there; if not, and it is no path of a
      table alias, its name keeps its meaning. */
  ghost predicate UseStays(root: Node, ctes: seq<Ctes.CteSite>, aliases: seq<Alias>, edits: set<Range>, was: string,
                           newName: string, use: Use, a: Address) {
    Head(use).Some? ==>
      var head, next := Head(use).value, Fold(newName);
      if head.range in edits then !(use.Headed? && Tables.ResolveAlias(root, a, next, ctes).Bound?)
      else HeadedByTable(root, ctes, use, a) || NameStays(aliases, edits, was, next, Fold(head.name))
  }

  /** An edited use refers to one alias, which alone has the new name afterwards. */
  ghost predicate UseFits(root: Node, ctes: seq<Ctes.CteSite>, aliases: seq<Alias>, edits: set<Range>, newName: string,
                          use: Use, a: Address) {
    Head(use).Some? && Head(use).value.range in edits ==>
      && !HeadedByTable(root, ctes, use, a)
      && exists i: nat :: Unique(aliases, Fold(Head(use).value.name), i) &&
           Unique(EditAliases(aliases, edits, newName), Fold(newName), i)
  }

  lemma OneReference(aliases: seq<Alias>, ident: Ident, i: nat)
    requires Unique(aliases, Fold(ident.name), i)
    ensures ByName(aliases, ident) == [Refers(i, ident.range)]
  {
    hide Fold;
    var j: nat :| Unique(aliases, Fold(ident.name), j) && ByName(aliases, ident) == [Refers(j, ident.range)];
    UniqueOnce(aliases, Fold(ident.name), i, j);
  }

  /** Which uses are paths of a table alias after the edit. */
  lemma HeadedAfter(root: Node, ctes: seq<Ctes.CteSite>, ctes': seq<Ctes.CteSite>, tables: Tables.AliasIndex,
                    tables': Tables.AliasIndex, use: Use, a: Address, edits: set<Range>, newName: string)
    requires Tables.IsIndexOf(tables, root, ctes) && Tables.IsIndexOf(tables', Edit(root, edits, newName), ctes')
    requires SparesTables(root, ctes, edits) && Alone(root, ctes, use, a) && (use.Headed? ==> |use.idents| >= 2)
    ensures Owned(tables.sites, use) <==> HeadedByTable(root, ctes, use, a)
    ensures Owned(tables'.sites, EditUse(use, edits, newName)) <==>
            use.Headed? && if use.idents[0].range in edits then Tables.ResolveAlias(root, a, Fold(newName), ctes).Bound?
                           else HeadedByTable(root, ctes, use, a)
  {
    hide Tables.IsIndexOf, Alone, SparesTables, Edit, Rename.Denotes, Tables.ResolveAlias, Tables.Covered, Fold;
    OwnedIff(tables, root, ctes, use, a);
    EditedAlone(root, ctes, ctes', use, a, edits, newName);
    OwnedIff(tables', Edit(root, edits, newName), ctes', EditUse(use, edits, newName), a);
    if use.Headed? {
      AloneStands(root, ctes, use, a);
      EditedHeadDenotes(root, ctes, ctes', use, a, edits, newName);
    }
  }

  /** A use is recorded as before under exactly that condition. */
  lemma UseStaysIff(root: Node, ctes: seq<Ctes.CteSite>, ctes': seq<Ctes.CteSite>, tables: Tables.AliasIndex,
                    tables': Tables.AliasIndex, aliases: seq<Alias>, was: string, use: Use, a: Address,
                    edits: set<Range>, newName: string)
    requires Tables.IsIndexOf(tables, root, ctes) && Tables.IsIndexOf(tables', Edit(root, edits, newName), ctes')
    requires SparesTables(root, ctes, edits) && Alone(root, ctes, use, a) && (use.Headed? ==> |use.idents| >= 2)
    requires OneName(aliases, edits, was) && UseFits(root, ctes, aliases, edits, newName, use, a)
    ensures EventsOf(EditAliases(aliases, edits, newName), tables'.sites, EditUse(use, edits, newName)) ==
            EventsOf(aliases, tables.sites, use) <==>
            UseStays(root, ctes, aliases, edits, was, newName, use, a)
  {
    hide Tables.IsIndexOf, Alone, SparesTables, EventsOf, Edit, Tables.ResolveAlias, Owned, Fold, ByName, Unique,
      EditAliases,
      OneName, NameStays, HeadedByTable;
    var y, use' := EditAliases(aliases, edits, newName), EditUse(use, edits, newName);
    HeadedAfter(root, ctes, ctes', tables, tables', use, a, edits, newName);
    HeadedIsPath(root, ctes, use, a);
    EventsByHead(aliases, tables.sites, use);
    EventsByHead(y, tables'.sites, use');
    EditedHead(use, edits, newName);
    if Head(use).Some? {
      var ident := Head(use).value;
      if ident.range in edits {
        var i: nat :| Unique(aliases, Fold(ident.name), i) && Unique(y, Fold(newName), i);
        OneReference(aliases, ident, i);
        OneReference(y, Head(use').value, i);
      } else {
        MeaningStays(aliases, edits, was, newName, ident);
      }
    }
  }

  lemma HeadedIsPath(root: Node, ctes: seq<Ctes.CteSite>, use: Use, a: Address)
    ensures HeadedByTable(root, ctes, use, a) ==> use.Headed?
  {}

  // ----- One SELECT -----

  ghost predicate EntryFits(root: Node, ctes: seq<Ctes.CteSite>, e: Indexed, edits: set<Range>, was: string,
                            newName: string) {
    && OneName(AliasesAt(root, e), edits, was) && |PlacesAt(root, e)| == |UsesAt(root, e)|
    && forall k :: 0 <= k < |UsesAt(root, e)| ==>
         UseFits(root, ctes, AliasesAt(root, e), edits, newName, UsesAt(root, e)[k], PlacesAt(root, e)[k])
  }

  ghost predicate EntryStays(root: Node, ctes: seq<Ctes.CteSite>, e: Indexed, edits: set<Range>, was: string,
                             newName: string) {
    && FlagsStay(AliasesAt(root, e), edits, was, Fold(newName)) && |PlacesAt(root, e)| == |UsesAt(root, e)|
    && forall k :: 0 <= k < |UsesAt(root, e)| ==>
         UseStays(root, ctes, AliasesAt(root, e), edits, was, newName, UsesAt(root, e)[k], PlacesAt(root, e)[k])
  }

  /** The same bindings but for their names. */
  ghost predicate SameBindings(x: SelectIndex, y: SelectIndex) {
    && |y.bindings| == |x.bindings|
    && forall j :: 0 <= j < |x.bindings| ==> y.bindings[j] == x.bindings[j].(name := y.bindings[j].name)
  }

  ghost predicate SameAmbiguous(x: SelectIndex, y: SelectIndex, r: Range) {
    r in y.ambiguousPaths <==> r in x.ambiguousPaths
  }

  /** The same bindings, references and ambiguous paths, but for the names. */
  ghost predicate SameButNames(x: SelectIndex, y: SelectIndex) {
    SameBindings(x, y) && forall r :: SameAmbiguous(x, y, r)
  }

  lemma SameLog(x: SelectIndex, y: SelectIndex, aliases: seq<Alias>, edits: set<Range>, was: string, newName: string,
                log: seq<Event>)
    requires IsIndexOf(x, aliases, log) && IsIndexOf(y, EditAliases(aliases, edits, newName), log)
    requires OneName(aliases, edits, was) && FlagsStay(aliases, edits, was, Fold(newName))
    ensures SameBindings(x, y) && y.ambiguousPaths == x.ambiguousPaths
  {
    var more := EditAliases(aliases, edits, newName);
    FlagsStayIff(aliases, edits, was, newName);
    hide Fold, ReferencesTo, Duplicate, FlagsStay, OneName;
    forall j | 0 <= j < |x.bindings| ensures y.bindings[j] == x.bindings[j].(name := y.bindings[j].name) {
      assert BindingIs(x.bindings[j], aliases, j, log) && BindingIs(y.bindings[j], more, j, log);
    }
  }

  lemma SameFlags(x: SelectIndex, y: SelectIndex, aliases: seq<Alias>, edits: set<Range>, was: string, newName: string,
                  log: seq<Event>, log': seq<Event>)
    requires IsIndexOf(x, aliases, log) && IsIndexOf(y, EditAliases(aliases, edits, newName), log')
    requires OneName(aliases, edits, was) && SameBindings(x, y)
    ensures FlagsStay(aliases, edits, was, Fold(newName))
  {
    var more := EditAliases(aliases, edits, newName);
    FlagsStayIff(aliases, edits, was, newName);
    hide Fold, ReferencesTo, Duplicate, FlagsStay, OneName;
    forall j: nat | j < |aliases| ensures Duplicate(more, j) <==> Duplicate(aliases, j) {
      assert BindingIs(x.bindings[j], aliases, j, log) && BindingIs(y.bindings[j], more, j, log');
      assert y.bindings[j].ambiguous == x.bindings[j].ambiguous;
    }
  }

  /** What is recorded of one use, from the bindings and the ambiguous paths. */
  lemma SameEvent(x: SelectIndex, y: SelectIndex, aliases: seq<Alias>, more: seq<Alias>, tables: seq<Tables.AliasSite>,
                  tables': seq<Tables.AliasSite>, uses: seq<Use>, edits: set<Range>, newName: string, k: nat)
    requires DistinctRanges(aliases, uses) && k < |uses| && |more| == |aliases|
    requires IsIndexOf(x, aliases, AllEvents(aliases, tables, uses))
    requires IsIndexOf(y, more, AllEvents(more, tables', EditUses(uses, edits, newName)))
    requires SameBindings(x, y) && forall r :: r in RangesOf(uses[k]) ==> SameAmbiguous(x, y, r)
    ensures EventsOf(more, tables', EditUse(uses[k], edits, newName)) == EventsOf(aliases, tables, uses[k])
  {
    var uses' := EditUses(uses, edits, newName);
    var log, log' := AllEvents(aliases, tables, uses), AllEvents(more, tables', uses');
    hide EventsOf, AllEvents, RangesOf, EditUse, DistinctRanges, BindingsAre;
    EditedHead(uses[k], edits, newName);
    EditedDistinct(aliases, uses, edits, newName);
    var es, es' := EventsOf(aliases, tables, uses[k]), EventsOf(more, tables', uses'[k]);
    EventsShape(aliases, tables, uses[k]);
    EventsShape(more, tables', uses'[k]);
    EventInRange(aliases, tables, uses[k]);
    EventInRange(more, tables', uses'[k]);
    forall e ensures e in es <==> e in es' {
      if e.range in RangesOf(uses[k]) && (e.Refers? ==> e.alias < |aliases|) {
        OwnEvent(aliases, aliases, tables, uses, k, e);
        OwnEvent(aliases, more, tables', uses', k, e);
        SameEntry(x, y, aliases, more, log, log', e);
      }
    }
    SingleEvent(es, es');
  }

  lemma SameEntry(x: SelectIndex, y: SelectIndex, aliases: seq<Alias>, more: seq<Alias>, log: seq<Event>,
                  log': seq<Event>, e: Event)
    requires IsIndexOf(x, aliases, log) && IsIndexOf(y, more, log') && |more| == |aliases|
    requires SameBindings(x, y) && SameAmbiguous(x, y, e.range) && (e.Refers? ==> e.alias < |aliases|)
    ensures e in log <==> e in log'
  {
    match e {
      case Ambiguous(r) => ReferenceMembers(log, 0, r); ReferenceMembers(log', 0, r);
      case Refers(i, r) =>
        ReferenceMembers(log, i, r);
        ReferenceMembers(log', i, r);
        assert BindingIs(x.bindings[i], aliases, i, log) && BindingIs(y.bindings[i], more, i, log');
        assert y.bindings[i].referenceRanges == x.bindings[i].referenceRanges;
    }
  }

  lemma EventInRange(aliases: seq<Alias>, tables: seq<Tables.AliasSite>, use: Use)
    ensures forall e :: e in EventsOf(aliases, tables, use) && e.Refers? ==> e.alias < |aliases|
  {
    hide ByName, Fold, Tables.Covered, PathRange;
    EventsByHead(aliases, tables, use);
    if Head(use).Some? { ByNameRange(aliases, Head(use).value); }
    forall e | e in EventsOf(aliases, tables, use) && e.Refers? ensures e.alias < |aliases| {
      assert e == Refers(e.alias, e.range);
    }
  }

  /** What the two indexes of one SELECT are extracted from. */
  ghost predicate PartsOf(root: Node, ctes: seq<Ctes.CteSite>, ctes': seq<Ctes.CteSite>, tables: Tables.AliasIndex,
                          tables': Tables.AliasIndex, e: Indexed, part: SelectIndex, part': SelectIndex,
                          edits: set<Range>, was: string, newName: string) {
    && OneText(root) && IsEntry(root, e) && LongPaths(UsesAt(root, e)) && SparesTables(root, ctes, edits)
    && Tables.IsIndexOf(tables, root, ctes) && Tables.IsIndexOf(tables', Edit(root, edits, newName), ctes')
    && PartIs(part, root, e, tables.sites) && PartIs(part', Edit(root, edits, newName), e, tables'.sites)
    && EntryFits(root, ctes, e, edits, was, newName)
  }

  lemma PartsAreIndexes(root: Node, ctes: seq<Ctes.CteSite>, ctes': seq<Ctes.CteSite>, tables: Tables.AliasIndex,
                        tables': Tables.AliasIndex, e: Indexed, part: SelectIndex, part': SelectIndex,
                        edits: set<Range>, was: string, newName: string)
    requires PartsOf(root, ctes, ctes', tables, tables', e, part, part', edits, was, newName)
    ensures var aliases, uses := AliasesAt(root, e), UsesAt(root, e);
            var more, uses' := EditAliases(aliases, edits, newName), EditUses(uses, edits, newName);
            && IsIndexOf(part, aliases, AllEvents(aliases, tables.sites, uses))
            && IsIndexOf(part', more, AllEvents(more, tables'.sites, uses')) && |more| == |aliases|
            && |part.bindings| == |aliases| && |part'.bindings| == |aliases|
  {
    hide AliasesAt, UsesAt, AllEvents, Tables.IsIndexOf, Edit, OneText, IsEntry, SparesTables, EntryFits;
    EditAliasesAt(root, e, edits, newName);
    EditUsesAt(root, e, edits, newName);
  }

  /** Each use of the SELECT, recorded as before under its condition. */
  lemma EntryUse(root: Node, ctes: seq<Ctes.CteSite>, ctes': seq<Ctes.CteSite>, tables: Tables.AliasIndex,
                 tables': Tables.AliasIndex, e: Indexed, part: SelectIndex, part': SelectIndex, edits: set<Range>,
                 was: string, newName: string, k: nat)
    requires PartsOf(root, ctes, ctes', tables, tables', e, part, part', edits, was, newName) && k < |UsesAt(root, e)|
    ensures |PlacesAt(root, e)| == |UsesAt(root, e)|
    ensures var aliases, use := AliasesAt(root, e), UsesAt(root, e)[k];
            EventsOf(EditAliases(aliases, edits, newName), tables'.sites, EditUse(use, edits, newName)) ==
            EventsOf(aliases, tables.sites, use) <==>
            UseStays(root, ctes, aliases, edits, was, newName, use, PlacesAt(root, e)[k])
  {
    hide AliasesAt, UsesAt, PlacesAt, Tables.IsIndexOf, Edit, OneText, IsEntry, SparesTables, PartIs, UseFits, UseStays,
      EventsOf,
      EditAliases, EditUse, Alone, OneName;
    UseIsAlone(root, ctes, e, k);
    UseStaysIff(root, ctes, ctes', tables, tables', AliasesAt(root, e), was, UsesAt(root, e)[k], PlacesAt(root, e)[k],
        edits, newName);
  }

  /** One SELECT that stays. */
  lemma EntrySuffices(root: Node, ctes: seq<Ctes.CteSite>, ctes': seq<Ctes.CteSite>, tables: Tables.AliasIndex,
                      tables': Tables.AliasIndex, e: Indexed, part: SelectIndex, part': SelectIndex, edits: set<Range>,
                      was: string, newName: string)
    requires PartsOf(root, ctes, ctes', tables, tables', e, part, part', edits, was, newName)
    requires EntryStays(root, ctes, e, edits, was, newName)
    ensures SameBindings(part, part') && part'.ambiguousPaths == part.ambiguousPaths
  {
    PartsAreIndexes(root, ctes, ctes', tables, tables', e, part, part', edits, was, newName);
    hide AliasesAt, UsesAt, PlacesAt, Tables.IsIndexOf, Edit, OneText, IsEntry, SparesTables, PartIs, UseStays,
      EventsOf, FlagsStay,
      AllEvents, EditAliases, EditUse, OneName, IsIndexOf, SameBindings, UseFits;
    var aliases, uses := AliasesAt(root, e), UsesAt(root, e);
    var more, uses' := EditAliases(aliases, edits, newName), EditUses(uses, edits, newName);
    forall k | 0 <= k < |uses|
      ensures EventsOf(more, tables'.sites, uses'[k]) == EventsOf(aliases, tables.sites, uses[k])
    {
      EntryUse(root, ctes, ctes', tables, tables', e, part, part', edits, was, newName, k);
    }
    SameEvents(aliases, more, tables.sites, tables'.sites, uses, uses');
    SameLog(part, part', aliases, edits, was, newName, AllEvents(aliases, tables.sites, uses));
  }

  /** A SELECT with the same index stays. */
  lemma EntryNeeded(root: Node, ctes: seq<Ctes.CteSite>, ctes': seq<Ctes.CteSite>, tables: Tables.AliasIndex,
                    tables': Tables.AliasIndex, e: Indexed, part: SelectIndex, part': SelectIndex, edits: set<Range>,
                    was: string, newName: string)
    requires PartsOf(root, ctes, ctes', tables, tables', e, part, part', edits, was, newName)
    requires SameBindings(part, part')
    requires forall k: nat, r :: k < |UsesAt(root, e)| && r in RangesOf(UsesAt(root, e)[k]) ==>
             SameAmbiguous(part, part', r)
    ensures EntryStays(root, ctes, e, edits, was, newName)
  {
    PartsAreIndexes(root, ctes, ctes', tables, tables', e, part, part', edits, was, newName);
    var aliases, uses := AliasesAt(root, e), UsesAt(root, e);
    var more, uses' := EditAliases(aliases, edits, newName), EditUses(uses, edits, newName);
    hide AliasesAt, UsesAt, PlacesAt, Tables.IsIndexOf, Edit, OneText, IsEntry, SparesTables, PartIs, UseStays,
      EventsOf, FlagsStay,
      AllEvents, EditAliases, EditUse, OneName, IsIndexOf, SameBindings, UseFits, SameAmbiguous, RangesOf,
        DistinctRanges;
    EntryRangesApart(root, e);
    SameFlags(part, part', aliases, edits, was, newName, AllEvents(aliases, tables.sites, uses),
        AllEvents(more, tables'.sites, uses'));
    forall k | 0 <= k < |uses|
      ensures UseStays(root, ctes, aliases, edits, was, newName, uses[k], PlacesAt(root, e)[k])
    {
      EntryUse(root, ctes, ctes', tables, tables', e, part, part', edits, was, newName, k);
      SameEvent(part, part', aliases, more, tables.sites, tables'.sites, uses, edits, newName, k);
    }
  }

  // ----- The joint index -----

  /** Every ambiguous path of the joint index is one of a part. */
  lemma {:induction false} JointAmbiguous(parts: seq<SelectIndex>, r: Range)
    ensures r in Joint(parts).ambiguousPaths <==> exists f :: 0 <= f < |parts| && r in parts[f].ambiguousPaths
  {
    hide Shift;
    if parts != [] {
      var last := |parts| - 1;
      JointAmbiguous(parts[..last], r);
      assert forall f :: 0 <= f < last ==> parts[..last][f] == parts[f];
    }
  }

  lemma {:induction false} JointSame(parts: seq<SelectIndex>, parts': seq<SelectIndex>)
    requires |parts'| == |parts|
    requires forall f :: 0 <= f < |parts| ==>
             SameBindings(parts[f], parts'[f]) && parts'[f].ambiguousPaths == parts[f].ambiguousPaths
    ensures SameBindings(Joint(parts), Joint(parts')) && Joint(parts').ambiguousPaths == Joint(parts).ambiguousPaths
  {
    hide Shift;
    if parts != [] {
      var last := |parts| - 1;
      assert SameBindings(parts[last], parts'[last]);
      JointSame(parts[..last], parts'[..last]);
    }
  }

  lemma {:induction false} JointLengths(parts: seq<SelectIndex>, parts': seq<SelectIndex>)
    requires |parts'| == |parts| && forall f :: 0 <= f < |parts| ==> |parts'[f].bindings| == |parts[f].bindings|
    ensures |Joint(parts').bindings| == |Joint(parts).bindings|
  {
    hide Shift;
    if parts != [] { JointLengths(parts[..|parts| - 1], parts'[..|parts| - 1]); }
  }

  /** The bindings of a part are those of the joint index, at its place. */
  lemma PartSame(parts: seq<SelectIndex>, parts': seq<SelectIndex>, f: nat)
    requires |parts'| == |parts| && f < |parts|
    requires forall f :: 0 <= f < |parts| ==> |parts'[f].bindings| == |parts[f].bindings|
    requires SameBindings(Joint(parts), Joint(parts'))
    ensures SameBindings(parts[f], parts'[f])
  {
    hide Joint, Shift, SameIndex;
    JointLengths(parts[..f], parts'[..f]);
    forall i | 0 <= i < |parts[f].bindings|
      ensures parts'[f].bindings[i] == parts[f].bindings[i].(name := parts'[f].bindings[i].name)
    {
      JoinSame(parts, parts, f, i, "");
      JoinSame(parts', parts', f, i, "");
      assert Joint(parts').bindings[SelectAliasReindex.Offset(parts, f) + i] == parts'[f].bindings[i];
    }
  }

  /** An ambiguous path of a SELECT is a use of it. */
  lemma AmbiguousIsUse(index: SelectIndex, aliases: seq<Alias>, tables: seq<Tables.AliasSite>, uses: seq<Use>, r: Range)
    returns (k: nat)
    requires IsIndexOf(index, aliases, AllEvents(aliases, tables, uses)) && r in index.ambiguousPaths
    ensures k < |uses| && r in RangesOf(uses[k])
  {
    hide AllEvents, EventsOf, RangesOf, BindingsAre;
    ReferenceMembers(AllEvents(aliases, tables, uses), 0, r);
    EventsMembers(aliases, tables, uses, Event.Ambiguous(r));
    k :| 0 <= k < |uses| && Event.Ambiguous(r) in EventsOf(aliases, tables, uses[k]);
    EventsShape(aliases, tables, uses[k]);
  }

  /** Uses of different SELECTs have no range in common. */
  lemma RangesOfEntries(root: Node, e: Indexed, f: Indexed, k: nat, l: nat, r: Range)
    requires OneText(root) && IsEntry(root, e) && IsEntry(root, f) && f.select != e.select
    requires k < |UsesAt(root, e)| && l < |UsesAt(root, f)| && r in RangesOf(UsesAt(root, e)[k])
    ensures r !in RangesOf(UsesAt(root, f)[l])
  {
    UsesOfEntry(root, e);
    UsesOfEntry(root, f);
    var use, use', a, a' := UsesAt(root, e)[k], UsesAt(root, f)[l], PlacesAt(root, e)[k], PlacesAt(root, f)[l];
    hide UsesAt, PlacesAt, ClausePlaces, OneText, IdentAt, IsEntry, RangesOf;
    if r in RangesOf(use') {
      RangesStart(use, r);
      RangesStart(use', r);
      HeadStands(root, use, a);
      HeadStands(root, use', a');
      SameRange(root, HeadSlot(use, a), HeadSlot(use', a'));
      HeadsApart(root, HeadSlot(use, a), HeadSlot(use', a'));
      PlacesOfEntries(root, e, f, a);
      assert false;
    }
  }

  /** An ambiguous path of one SELECT is none of another. */
  lemma PartAmbiguous(root: Node, tables: seq<Tables.AliasSite>, entries: seq<Indexed>, parts: seq<SelectIndex>,
                      edits: set<Range>, newName: string, f: nat, k: nat, r: Range)
    requires OneText(root) && entries == Entries(root) && PartsAre(parts, Edit(root, edits, newName), entries, tables)
    requires f < |entries| && k < |UsesAt(root, entries[f])| && r in RangesOf(UsesAt(root, entries[f])[k])
    ensures r in Joint(parts).ambiguousPaths <==> r in parts[f].ambiguousPaths
  {
    var root' := Edit(root, edits, newName);
    hide UsesAt, AliasesAt, RangesOf, Edit, OneText, AllEvents, IsIndexOf, Joint, IsEntry, Entries, EditUse;
    JointAmbiguous(parts, r);
    if g: nat :| g < |parts| && r in parts[g].ambiguousPaths && g != f {
      var e, h := entries[f], entries[g];
      assert PartIs(parts[g], root', h, tables);
      var l := AmbiguousIsUse(parts[g], AliasesAt(root', h), tables, UsesAt(root', h), r);
      EditUsesAt(root, h, edits, newName);
      EditedHead(UsesAt(root, h)[l], edits, newName);
      EntriesAre(root, e);
      EntriesAre(root, h);
      EntriesApart(root, f, g);
      RangesOfEntries(root, e, h, k, l, r);
      assert false;
    }
  }

  lemma NothingEdited(root: Node)
    ensures Edit(root, {}, "") == root
  {
    EditNothing(root);
  }

  lemma {:induction false} EditNothing(n: Node)
    ensures Edit(n, {}, "") == n
  {
    KindUnedited(n.kind);
    forall i | 0 <= i < |n.children|
      ensures Edit(n.children[i], {}, "") == n.children[i] { EditNothing(n.children[i]); }
    hide EditKind;
    assert Edit(n, {}, "").children == n.children;
  }

  lemma KindUnedited(kind: Kind)
    ensures EditKind(kind, {}, "") == kind
  {
    if kind.Path? { assert EditIdents(kind.idents, {}, "") == kind.idents; }
  }

  // ----- The theorem -----

  /** Extracting the joint index again gives the same index but for the names, if and only
      if every SELECT meets its condition in the document before. */
  lemma JointStaysIff(root: Node, ctes: seq<Ctes.CteSite>, ctes': seq<Ctes.CteSite>, tables: Tables.AliasIndex,
                      tables': Tables.AliasIndex, index: SelectIndex, index': SelectIndex, edits: set<Range>,
                      was: string, newName: string)
    requires OneText(root) && ParsedClauses(root) && SparesTables(root, ctes, edits)
    requires Tables.IsIndexOf(tables, root, ctes) && Tables.IsIndexOf(tables', Edit(root, edits, newName), ctes')
    requires IsJointIndex(index, root, tables.sites) && IsJointIndex(index', Edit(root, edits, newName), tables'.sites)
    requires forall e :: e in Entries(root) ==> EntryFits(root, ctes, e, edits, was, newName)
    ensures SameButNames(index, index') <==> forall e :: e in Entries(root) ==>
            EntryStays(root, ctes, e, edits, was, newName)
  {
    hide UsesAt, AliasesAt, RangesOf, Edit, OneText, Joint, IsEntry, Entries, EntryFits, EntryStays, SparesTables,
      LongPaths,
      Tables.IsIndexOf, SameBindings, PartIs, SameAmbiguous;
    var entries := Entries(root);
    EditEntries(root, edits, newName);
    var parts: seq<SelectIndex> :| PartsAre(parts, root, entries, tables.sites) && index == Joint(parts);
    var parts': seq<SelectIndex> :| PartsAre(parts', Edit(root, edits, newName), entries, tables'.sites) &&
      index' == Joint(parts');
    forall f: nat | f < |entries|
      ensures PartsOf(root, ctes, ctes', tables, tables', entries[f], parts[f], parts'[f], edits, was, newName)
    {
      EntriesAre(root, entries[f]);
    }
    if forall e :: e in entries ==> EntryStays(root, ctes, e, edits, was, newName) {
      forall f: nat | f < |entries|
        ensures SameBindings(parts[f], parts'[f]) && parts'[f].ambiguousPaths == parts[f].ambiguousPaths
      {
        EntrySuffices(root, ctes, ctes', tables, tables', entries[f], parts[f], parts'[f], edits, was, newName);
      }
      JointSame(parts, parts');
      SamePathsAmbiguous(index, index');
    }
    if SameButNames(index, index') {
      forall e | e in entries ensures EntryStays(root, ctes, e, edits, was, newName) {
        var f :| 0 <= f < |entries| && entries[f] == e;
        SameIndexStays(root, ctes, ctes', tables, tables', parts, parts', edits, was, newName, f);
      }
    }
  }

  lemma SamePathsAmbiguous(x: SelectIndex, y: SelectIndex)
    requires y.ambiguousPaths == x.ambiguousPaths
    ensures forall r :: SameAmbiguous(x, y, r)
  {}

  lemma SameIndexStays(root: Node, ctes: seq<Ctes.CteSite>, ctes': seq<Ctes.CteSite>, tables: Tables.AliasIndex,
                       tables': Tables.AliasIndex, parts: seq<SelectIndex>, parts': seq<SelectIndex>, edits: set<Range>,
                       was: string, newName: string, f: nat)
    requires var entries := Entries(root);
             && PartsAre(parts, root, entries, tables.sites)
             && PartsAre(parts', Edit(root, edits, newName), entries, tables'.sites) && f < |entries|
             && forall g: nat :: g < |entries| ==>
                  PartsOf(root, ctes, ctes', tables, tables', entries[g], parts[g], parts'[g], edits, was, newName)
    requires SameButNames(Joint(parts), Joint(parts'))
    ensures EntryStays(root, ctes, Entries(root)[f], edits, was, newName)
  {
    hide UsesAt, AliasesAt, RangesOf, Edit, Joint, Entries, EntryStays, SameBindings, PartIs, PartsOf;
    var entries := Entries(root);
    forall g: nat | g < |entries| ensures |parts'[g].bindings| == |parts[g].bindings| {
      PartsAreIndexes(root, ctes, ctes', tables, tables', entries[g], parts[g], parts'[g], edits, was, newName);
      hide IsIndexOf, EditAliases, AllEvents;
    }
    PartSame(parts, parts', f);
    NothingEdited(root);
    forall k: nat, r | k < |UsesAt(root, entries[f])| && r in RangesOf(UsesAt(root, entries[f])[k])
      ensures SameAmbiguous(parts[f], parts'[f], r)
    {
      assert OneText(root) by { PartsText(root, ctes, ctes', tables, tables', entries[f], parts[f], parts'[f], edits,
          was, newName); }
      PartAmbiguous(root, tables.sites, entries, parts, {}, "", f, k, r);
      PartAmbiguous(root, tables'.sites, entries, parts', edits, newName, f, k, r);
      assert SameAmbiguous(Joint(parts), Joint(parts'), r);
    }
    EntryNeeded(root, ctes, ctes', tables, tables', entries[f], parts[f], parts'[f], edits, was, newName);
  }

  lemma PartsText(root: Node, ctes: seq<Ctes.CteSite>, ctes': seq<Ctes.CteSite>, tables: Tables.AliasIndex,
                  tables': Tables.AliasIndex, e: Indexed, part: SelectIndex, part': SelectIndex, edits: set<Range>,
                  was: string, newName: string)
    requires PartsOf(root, ctes, ctes', tables, tables', e, part, part', edits, was, newName)
    ensures OneText(root)
  {}
}
