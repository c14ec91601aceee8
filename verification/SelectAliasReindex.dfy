/** The joint SELECT-alias index extracted again after a rename: exactly when it says
    what the index before said. */
module SelectAliasReindex {
  import opened Coordinates
  import opened Syntax
  import opened Editing
  import opened Texts
  import opened SelectAliases
  import opened SelectWalk
  import opened SelectIndexes
  import opened SelectAliasRename
  import opened SelectAliasDocument
  import Ctes = CteBindings
  import Tables = AliasBindings
  import Rename = AliasRename

  // ----- The edited tree has the same SELECTs, clauses and uses -----

  lemma EditedKindIs(n: Node, edits: set<Range>, newName: string)
    ensures Edit(n, edits, newName).kind == EditKind(n.kind, edits, newName)
  {}

  lemma {:induction false} EditUsesOf(n: Node, here: Address, edits: set<Range>, newName: string)
    ensures UsesOf(Edit(n, edits, newName)) == EditUses(UsesOf(n), edits, newName)
    ensures Standing(Edit(n, edits, newName), here) == Standing(n, here)
    decreases n, |Kids(n)| + 1
  {
    hide Edit, UsesFrom, StandingFrom, UsesOf, Standing;
    EditedKindIs(n, edits, newName);
    EditKids(n, edits, newName);
    UsesByKind(n, here);
    UsesByKind(Edit(n, edits, newName), here);
    EditUsesFrom(n, here, 0, edits, newName);
  }

  lemma UsesByKind(n: Node, here: Address)
    ensures n.kind.Lone? ==> UsesOf(n) == [Bare(n.kind.ident)] && Standing(n, here) == [here]
    ensures n.kind.Path? ==> UsesOf(n) == [Headed(n.kind.idents)] && Standing(n, here) == [here]
    ensures n.kind.Query? || n.kind.Select? ==> UsesOf(n) == [] && Standing(n, here) == []
    ensures !n.kind.Lone? && !n.kind.Path? && !n.kind.Query? && !n.kind.Select? ==>
              UsesOf(n) == UsesFrom(n, 0) && Standing(n, here) == StandingFrom(n, here, 0)
  {
    hide UsesFrom, StandingFrom;
  }

  lemma {:induction false} EditUsesFrom(n: Node, here: Address, k: nat, edits: set<Range>, newName: string)
    requires k <= |Kids(n)| && |Kids(Edit(n, edits, newName))| == |Kids(n)|
    ensures UsesFrom(Edit(n, edits, newName), k) == EditUses(UsesFrom(n, k), edits, newName)
    ensures StandingFrom(Edit(n, edits, newName), here, k) == StandingFrom(n, here, k)
    decreases n, |Kids(n)| - k
  {
    hide Edit, UsesOf, Standing, UsesFrom, StandingFrom, EditUses;
    UsesFromStep(n, here, k);
    UsesFromStep(Edit(n, edits, newName), here, k);
    if k < |Kids(n)| {
      EditKids(n, edits, newName);
      EditUsesOf(Kids(n)[k], here + [k], edits, newName);
      EditUsesFrom(n, here, k + 1, edits, newName);
      EditUsesAppend(UsesOf(Kids(n)[k]), UsesFrom(n, k + 1), edits, newName);
    } else {
      EditNoUses(edits, newName);
    }
  }

  lemma EditUsesAppend(x: seq<Use>, y: seq<Use>, edits: set<Range>, newName: string)
    ensures EditUses(x + y, edits, newName) == EditUses(x, edits, newName) + EditUses(y, edits, newName)
  {
    hide EditUse;
  }

  lemma EditNoUses(edits: set<Range>, newName: string)
    ensures EditUses([], edits, newName) == []
  {}

  lemma EditKinds(root: Node, a: Address, edits: set<Range>, newName: string)
    ensures IsQuery(Edit(root, edits, newName), a) <==> IsQuery(root, a)
    ensures IsSelect(Edit(root, edits, newName), a) <==> IsSelect(root, a)
    ensures IsClause(Edit(root, edits, newName), a) <==> IsClause(root, a)
    ensures NodeAt(Edit(root, edits, newName), a).Some? <==> NodeAt(root, a).Some?
  {
    EditNodeAt(root, a, edits, newName);
    hide Edit, NodeAt;
    if NodeAt(root, a).Some? { EditedKindIs(NodeAt(root, a).value, edits, newName); }
  }

  lemma {:induction false} EditLeading(kids: seq<Node>, edited: seq<Node>)
    requires |edited| == |kids| && forall i :: 0 <= i < |kids| ==> (edited[i].kind.Cte? <==> kids[i].kind.Cte?)
    ensures Ctes.LeadingCtes(edited) == Ctes.LeadingCtes(kids)
  {
    if kids != [] { EditLeading(kids[1..], edited[1..]); }
  }

  lemma EditBody(root: Node, q: Address, edits: set<Range>, newName: string)
    requires NodeAt(root, q).Some?
    ensures NodeAt(Edit(root, edits, newName), q).Some?
    ensures BodyOf(Edit(root, edits, newName), q) == BodyOf(root, q)
  {
    EditNodeAt(root, q, edits, newName);
    var n := NodeAt(root, q).value;
    EditKids(n, edits, newName);
    EditedKindIs(n, edits, newName);
    forall i | 0 <= i < |Kids(n)| ensures Kids(Edit(n, edits, newName))[i].kind.Cte? <==> Kids(n)[i].kind.Cte? {
      EditedKindIs(Kids(n)[i], edits, newName);
    }
    hide Edit, NodeAt, Kids;
    EditLeading(Kids(n), Kids(Edit(n, edits, newName)));
  }

  lemma EditAt(root: Node, a: Address, edits: set<Range>, newName: string)
    ensures At(Edit(root, edits, newName), a) == At(root, a)
  {
    hide Edit, NodeAt, BodyOf, IsQuery, IsSelect;
    EditKinds(root, a, edits, newName);
    QueryExists(root, a);
    if IsQuery(root, a) {
      EditBody(root, a, edits, newName);
      EditKinds(root, BodyOf(root, a), edits, newName);
    }
    if a != [] {
      var q := a[..|a| - 1];
      EditKinds(root, q, edits, newName);
      QueryExists(root, q);
      if IsQuery(root, q) { EditBody(root, q, edits, newName); }
    }
  }

  lemma QueryExists(root: Node, a: Address)
    ensures IsQuery(root, a) ==> NodeAt(root, a).Some?
  {}

  lemma {:induction false} EditAlong(root: Node, places: seq<Address>, edits: set<Range>, newName: string)
    ensures Along(places, In(Edit(root, edits, newName))) == Along(places, In(root))
  {
    hide At, Edit;
    if places != [] {
      EditAt(root, places[0], edits, newName);
      EditAlong(root, places[1..], edits, newName);
    }
  }

  lemma EditEntries(root: Node, edits: set<Range>, newName: string)
    ensures Entries(Edit(root, edits, newName)) == Entries(root)
  {
    hide Along, Preorder, Edit;
    EditPreorder(root, [], edits, newName);
    EditAlong(root, Preorder(root, []), edits, newName);
  }

  lemma {:induction false} EditClauseKids(n: Node, here: Address, k: nat, edits: set<Range>, newName: string)
    requires k <= |Kids(n)| && |Kids(Edit(n, edits, newName))| == |Kids(n)|
    ensures ClauseKids(Edit(n, edits, newName), here, k) == ClauseKids(n, here, k)
    decreases |Kids(n)| - k
  {
    EditKids(n, edits, newName);
    if k < |Kids(n)| {
      EditedKindIs(Kids(n)[k], edits, newName);
      hide Edit;
      EditClauseKids(n, here, k + 1, edits, newName);
    }
  }

  lemma EditClausesAt(root: Node, a: Address, edits: set<Range>, newName: string)
    ensures ClausesAt(Edit(root, edits, newName), a) == ClausesAt(root, a)
  {
    hide Edit, NodeAt, ClauseKids;
    EditNodeAt(root, a, edits, newName);
    if NodeAt(root, a).Some? {
      EditKids(NodeAt(root, a).value, edits, newName);
      EditClauseKids(NodeAt(root, a).value, a, 0, edits, newName);
    }
  }

  lemma {:induction false} EditClauses(root: Node, clauses: seq<Address>, edits: set<Range>, newName: string)
    ensures UsesIn(NodesAt(Edit(root, edits, newName), clauses)) ==
            EditUses(UsesIn(NodesAt(root, clauses)), edits, newName)
    ensures StandingIn(Edit(root, edits, newName), clauses) == StandingIn(root, clauses)
  {
    hide Edit, NodeAt, UsesOf, Standing, EditUse;
    var root' := Edit(root, edits, newName);
    if clauses != [] {
      var init, c := clauses[..|clauses| - 1], clauses[|clauses| - 1];
      EditClauses(root, init, edits, newName);
      EditNodeAt(root, c, edits, newName);
      if NodeAt(root, c).Some? {
        LastClause(root, clauses);
        LastClause(root', clauses);
        EditUsesOf(NodeAt(root, c).value, c, edits, newName);
      } else {
        NoLastClause(root, clauses);
        NoLastClause(root', clauses);
      }
    } else {
      NoClausesAt(root);
      NoClausesAt(root');
    }
  }

  lemma NoLastClause(root: Node, clauses: seq<Address>)
    requires clauses != [] && NodeAt(root, clauses[|clauses| - 1]).None?
    ensures var init := clauses[..|clauses| - 1];
            UsesIn(NodesAt(root, clauses)) == UsesIn(NodesAt(root, init)) &&
              StandingIn(root, clauses) == StandingIn(root, init)
  {
    var init := clauses[..|clauses| - 1];
    assert NodesAt(root, init) + [] == NodesAt(root, init);
    assert StandingIn(root, init) + [] == StandingIn(root, init);
  }

  lemma NoClausesAt(root: Node)
    ensures UsesIn(NodesAt(root, [])) == [] && StandingIn(root, []) == []
  {}

  lemma EditUsesAt(root: Node, e: Indexed, edits: set<Range>, newName: string)
    ensures UsesAt(Edit(root, edits, newName), e) == EditUses(UsesAt(root, e), edits, newName)
    ensures PlacesAt(Edit(root, edits, newName), e) == PlacesAt(root, e)
  {
    hide Edit, ClausesAt, UsesIn, NodesAt, StandingIn, EditUse;
    EditClausesAt(root, e.select, edits, newName);
    if e.orderBy.Some? { EditClausesAt(root, e.orderBy.value, edits, newName); }
    EditClauses(root, ClausePlaces(root, e), edits, newName);
  }

  lemma {:induction false} EditAliasesOf(kids: seq<Node>, edited: seq<Node>, edits: set<Range>, newName: string)
    requires |edited| == |kids|
    requires forall k :: 0 <= k < |kids| ==> edited[k].kind == EditKind(kids[k].kind, edits, newName)
    ensures Aliases(edited) == EditAliases(Aliases(kids), edits, newName)
  {
    if kids != [] {
      EditAliasesOf(kids[..|kids| - 1], edited[..|kids| - 1], edits, newName);
      EditItemAlias(kids[|kids| - 1], edited[|kids| - 1], edits, newName);
      hide ItemAlias;
    }
  }

  lemma EditItemAlias(n: Node, n': Node, edits: set<Range>, newName: string)
    requires n'.kind == EditKind(n.kind, edits, newName)
    ensures ItemAlias(n') == EditAliases(ItemAlias(n), edits, newName)
  {}

  lemma EditAliasesAt(root: Node, e: Indexed, edits: set<Range>, newName: string)
    ensures AliasesAt(Edit(root, edits, newName), e) == EditAliases(AliasesAt(root, e), edits, newName)
  {
    EditNodeAt(root, e.select, edits, newName);
    hide NodeAt, Aliases;
    if NodeAt(root, e.select).Some? {
      var n := NodeAt(root, e.select).value;
      EditKids(n, edits, newName);
      forall k | 0 <= k < |Kids(n)|
        ensures Kids(Edit(n, edits, newName))[k].kind == EditKind(Kids(n)[k].kind, edits, newName)
      {
        EditedKindIs(Kids(n)[k], edits, newName);
      }
      hide Edit, Kids;
      EditAliasesOf(Kids(n), Kids(Edit(n, edits, newName)), edits, newName);
    }
  }

  // ----- The other SELECTs -----

  /** Each edited range is that of the i-th alias of the SELECT or of the head of one of its uses. */
  ghost predicate EditsOfEntry(root: Node, e: Indexed, i: nat, edits: set<Range>) {
    i < |AliasesAt(root, e)| &&
    forall r :: r in edits ==> r == AliasesAt(root, e)[i].ident.range || HeadsUse(UsesAt(root, e), r)
  }

  ghost predicate HeadsUse(uses: seq<Use>, r: Range) {
    exists k :: 0 <= k < |uses| && Head(uses[k]).Some? && r == Head(uses[k]).value.range
  }

  lemma EditsAreOfEntry(root: Node, e: Indexed, part: SelectIndex, tables: seq<Tables.AliasSite>, i: nat)
    requires PartIs(part, root, e, tables) && i < |part.bindings|
    ensures EditsOfEntry(root, e, i, EditsOf(part.bindings[i]))
  {
    var aliases, uses, b := AliasesAt(root, e), UsesAt(root, e), part.bindings[i];
    var log := AllEvents(aliases, tables, uses);
    assert BindingIs(b, aliases, i, log);
    hide AliasesAt, UsesAt, AllEvents, EventsOf, ReferencesTo, Duplicate;
    forall r | r in b.referenceRanges ensures HeadsUse(uses, r) {
      ReferenceMembers(log, i, r);
      EventsMembers(aliases, tables, uses, Refers(i, r));
      var k :| 0 <= k < |uses| && Refers(i, r) in EventsOf(aliases, tables, uses[k]);
      ReferenceIsHead(aliases, tables, uses[k], i, r);
    }
  }

  /** No name of another SELECT is edited. */
  lemma OthersAreSpared(root: Node, e: Indexed, i: nat, f: Indexed, edits: set<Range>)
    requires OneText(root) && IsEntry(root, e) && IsEntry(root, f) && f.select != e.select
    requires EditsOfEntry(root, e, i, edits)
    ensures forall m :: 0 <= m < |AliasesAt(root, f)| ==> AliasesAt(root, f)[m].ident.range !in edits
    ensures forall k :: 0 <= k < |UsesAt(root, f)| && Head(UsesAt(root, f)[k]).Some? ==>
              Head(UsesAt(root, f)[k]).value.range !in edits
  {
    ItemsOfEntry(root, e);
    ItemsOfEntry(root, f);
    UsesOfEntry(root, e);
    UsesOfEntry(root, f);
    var aliases, uses, items, places := AliasesAt(root, e), UsesAt(root, e), ItemsAt(root, e), PlacesAt(root, e);
    var aliases', uses', items', places' := AliasesAt(root, f), UsesAt(root, f), ItemsAt(root, f), PlacesAt(root, f);
    hide AliasesAt, UsesAt, ItemsAt, PlacesAt, ClausePlaces, OneText, IdentAt, IsEntry, SameName;
    forall k: nat | k < |uses| ensures IdentAt(root, HeadSlot(uses[k], places[k])) == Head(uses[k]) {
      HeadStands(root, uses[k], places[k]);
    }
    ItemIdent(root, e, aliases[i], items[i]);
    forall m: nat | m < |aliases'| ensures aliases'[m].ident.range !in edits {
      ItemIdent(root, f, aliases'[m], items'[m]);
      OtherItem(root, e, f, aliases[i], items[i], aliases'[m], items'[m]);
      forall k: nat | k < |uses| && Head(uses[k]).Some? ensures Head(uses[k]).value.range != aliases'[m].ident.range {
        ItemIsNoHead(root, f, e, m, k);
        NotTheHead(root, Slot(items'[m], Result), HeadSlot(uses[k], places[k]));
      }
    }
    forall l: nat | l < |uses'| && Head(uses'[l]).Some? ensures Head(uses'[l]).value.range !in edits {
      HeadStands(root, uses'[l], places'[l]);
      ItemIsNoHead(root, e, f, i, l);
      NotTheHead(root, Slot(items[i], Result), HeadSlot(uses'[l], places'[l]));
      forall k: nat | k < |uses| && Head(uses[k]).Some?
        ensures Head(uses[k]).value.range != Head(uses'[l]).value.range
      {
        OtherHead(root, e, f, uses[k], places[k], uses'[l], places'[l]);
      }
    }
  }

  lemma OtherItem(root: Node, e: Indexed, f: Indexed, alias: Alias, it: Address, alias': Alias, it': Address)
    requires OneText(root) && f.select != e.select && AliasStands(root, e, alias, it) &&
             AliasStands(root, f, alias', it')
    ensures alias.ident.range != alias'.ident.range
  {
    ItemIdent(root, e, alias, it);
    ItemIdent(root, f, alias', it');
    assert it[..|it| - 1] == e.select && it'[..|it'| - 1] == f.select;
    if alias.ident.range == alias'.ident.range {
      SameRange(root, Slot(it, Result), Slot(it', Result));
      ItemsApart(root, Slot(it, Result), Slot(it', Result));
    }
  }

  lemma OtherHead(root: Node, e: Indexed, f: Indexed, use: Use, a: Address, use': Use, a': Address)
    requires OneText(root) && IsEntry(root, e) && IsEntry(root, f) && f.select != e.select
    requires a in PlacesAt(root, e) && a' in PlacesAt(root, f) && IsUse(root, use, a) && IsUse(root, use', a')
    requires Head(use).Some? && Head(use').Some?
    ensures Head(use).value.range != Head(use').value.range
  {
    hide PlacesAt, OneText, IdentAt, IsEntry;
    HeadStands(root, use, a);
    HeadStands(root, use', a');
    if Head(use).value.range == Head(use').value.range {
      SameRange(root, HeadSlot(use, a), HeadSlot(use', a'));
      HeadsApart(root, HeadSlot(use, a), HeadSlot(use', a'));
      PlacesOfEntries(root, e, f, a);
    }
  }

  /** An index is determined by its aliases and what is recorded. */
  lemma IndexDetermined(x: SelectIndex, y: SelectIndex, aliases: seq<Alias>, log: seq<Event>)
    requires IsIndexOf(x, aliases, log) && IsIndexOf(y, aliases, log)
    ensures x == y
  {
    forall i | 0 <= i < |aliases| ensures x.bindings[i] == y.bindings[i] {
      assert BindingIs(x.bindings[i], aliases, i, log) && BindingIs(y.bindings[i], aliases, i, log);
    }
    hide BindingIs;
    assert x.bindings == y.bindings;
  }

  /** A use whose head is not edited is recorded as before. */
  lemma UneditedUse(root: Node, ctes: seq<Ctes.CteSite>, ctes': seq<Ctes.CteSite>, tables: Tables.AliasIndex,
                    tables': Tables.AliasIndex, aliases: seq<Alias>, use: Use, a: Address, edits: set<Range>,
                    newName: string)
    requires Tables.IsIndexOf(tables, root, ctes) && Tables.IsIndexOf(tables', Edit(root, edits, newName), ctes')
    requires SparesTables(root, ctes, edits) && Alone(root, ctes, use, a)
    requires use.Headed? ==> |use.idents| >= 2
    requires Head(use).Some? ==> Head(use).value.range !in edits
    ensures EventsOf(aliases, tables'.sites, EditUse(use, edits, newName)) == EventsOf(aliases, tables.sites, use)
  {
    hide Tables.IsIndexOf, Alone, SparesTables, EventsOf, ByName, Edit, Rename.Denotes, Tables.ResolveAlias,
      Tables.Covered;
    OwnedIff(tables, root, ctes, use, a);
    EditedAlone(root, ctes, ctes', use, a, edits, newName);
    OwnedIff(tables', Edit(root, edits, newName), ctes', EditUse(use, edits, newName), a);
    EditedHead(use, edits, newName);
    if use.Headed? {
      AloneStands(root, ctes, use, a);
      EditedHeadDenotes(root, ctes, ctes', use, a, edits, newName);
    }
    EventsByHead(aliases, tables.sites, use);
    EventsByHead(aliases, tables'.sites, EditUse(use, edits, newName));
  }

  /** The index of another SELECT stays as it is. */
  lemma OtherPartStays(root: Node, ctes: seq<Ctes.CteSite>, ctes': seq<Ctes.CteSite>, tables: Tables.AliasIndex,
                       tables': Tables.AliasIndex, e: Indexed, i: nat, f: Indexed, part: SelectIndex,
                       part': SelectIndex, edits: set<Range>, newName: string)
    requires OneText(root) && IsEntry(root, e) && IsEntry(root, f) && f.select != e.select && LongPaths(UsesAt(root, f))
    requires EditsOfEntry(root, e, i, edits) && SparesTables(root, ctes, edits)
    requires Tables.IsIndexOf(tables, root, ctes) && Tables.IsIndexOf(tables', Edit(root, edits, newName), ctes')
    requires PartIs(part, root, f, tables.sites) && PartIs(part', Edit(root, edits, newName), f, tables'.sites)
    ensures part' == part
  {
    OthersAreSpared(root, e, i, f, edits);
    EditAliasesAt(root, f, edits, newName);
    EditUsesAt(root, f, edits, newName);
    var aliases, uses := AliasesAt(root, f), UsesAt(root, f);
    hide AliasesAt, UsesAt, PlacesAt, OneText, IsEntry, Tables.IsIndexOf, SparesTables, EventsOf, AllEvents, Edit,
      EditUse,
      EditsOfEntry, Alone;
    assert EditAliases(aliases, edits, newName) == aliases;
    forall k | 0 <= k < |uses|
      ensures EventsOf(aliases, tables'.sites, EditUse(uses[k], edits, newName)) ==
              EventsOf(aliases, tables.sites, uses[k])
    {
      UseIsAlone(root, ctes, f, k);
      UneditedUse(root, ctes, ctes', tables, tables', aliases, uses[k], PlacesAt(root, f)[k], edits, newName);
    }
    SameEvents(aliases, aliases, tables.sites, tables'.sites, uses, EditUses(uses, edits, newName));
    IndexDetermined(part, part', aliases, AllEvents(aliases, tables.sites, uses));
  }

  // ----- Joining -----

  /** The number of bindings before a part. */
  function Offset(parts: seq<SelectIndex>, f: nat): nat
    requires f <= |parts|
  {
    |Joint(parts[..f]).bindings|
  }

  lemma SameShift(x: seq<Site>, y: seq<Site>, n: nat)
    requires Shift(x, n) == Shift(y, n)
    ensures x == y
  {
    assert |x| == |y|;
    forall i | 0 <= i < |x| ensures x[i] == y[i] { assert Shift(x, n)[i] == Shift(y, n)[i]; }
  }

  lemma AppendSameLast(x: SelectIndex, x': SelectIndex, part: SelectIndex, j: nat, newName: string)
    requires |x'.bindings| == |x.bindings| && j < |x.bindings|
    ensures SameIndex(Append(x, part), Append(x', part), j, newName) <==> SameIndex(x, x', j, newName)
  {
    var n, shifted := |x.bindings|, Shift(part.sites, |x.bindings|);
    hide Shift;
    var y, y' := Append(x, part), Append(x', part);
    if SameIndex(y, y', j, newName) {
      CancelLast(x.sites, x'.sites, shifted);
      CancelLast(x.ambiguousPaths, x'.ambiguousPaths, part.ambiguousPaths);
      forall k | 0 <= k < n
        ensures x'.bindings[k] == x.bindings[k].(name := if k == j then newName else x.bindings[k].name)
      {
        assert y.bindings[k] == x.bindings[k] && y'.bindings[k] == x'.bindings[k];
      }
    }
  }

  lemma CancelLast<T>(x: seq<T>, x': seq<T>, y: seq<T>)
    requires x + y == x' + y
    ensures x == x'
  {
    assert |x| == |x'|;
    assert x == (x + y)[..|x|] && x' == (x' + y)[..|x'|];
  }

  lemma CancelFirst<T>(x: seq<T>, y: seq<T>, y': seq<T>)
    requires x + y == x + y'
    ensures y == y'
  {
    assert y == (x + y)[|x|..] && y' == (x + y')[|x|..];
  }

  lemma AppendOtherLast(x: SelectIndex, part: SelectIndex, part': SelectIndex, i: nat, newName: string)
    requires |part'.bindings| == |part.bindings| && i < |part.bindings|
    ensures SameIndex(Append(x, part), Append(x, part'), |x.bindings| + i, newName) <==>
            SameIndex(part, part', i, newName)
  {
    var n := |x.bindings|;
    var y, y' := Append(x, part), Append(x, part');
    if SameIndex(y, y', n + i, newName) {
      CancelFirst(x.sites, Shift(part.sites, n), Shift(part'.sites, n));
      SameShift(part.sites, part'.sites, n);
      CancelFirst(x.ambiguousPaths, part.ambiguousPaths, part'.ambiguousPaths);
      hide Shift;
      forall k | 0 <= k < |part.bindings|
        ensures part'.bindings[k] == part.bindings[k].(name := if k == i then newName else part.bindings[k].name)
      {
        assert y.bindings[n + k] == part.bindings[k] && y'.bindings[n + k] == part'.bindings[k];
      }
    }
    hide Shift;
  }

  /** Where one part differs the joint indexes agree exactly when that part does. */
  lemma {:induction false} JoinSame(parts: seq<SelectIndex>, parts': seq<SelectIndex>, f: nat, i: nat, newName: string)
    requires |parts'| == |parts| && f < |parts| && forall g :: 0 <= g < |parts| && g != f ==> parts'[g] == parts[g]
    requires |parts'[f].bindings| == |parts[f].bindings| && i < |parts[f].bindings|
    ensures Offset(parts, f) + i < |Joint(parts).bindings| && |Joint(parts').bindings| == |Joint(parts).bindings|
    ensures Joint(parts).bindings[Offset(parts, f) + i] == parts[f].bindings[i]
    ensures SameIndex(Joint(parts), Joint(parts'), Offset(parts, f) + i, newName) <==>
            SameIndex(parts[f], parts'[f], i, newName)
  {
    hide SameIndex, Shift;
    var last := |parts| - 1;
    var init, init' := parts[..last], parts'[..last];
    if f == last {
      assert init == init' && parts[..f] == init;
      AppendOtherLast(Joint(init), parts[last], parts'[last], i, newName);
    } else {
      assert init[..f] == parts[..f];
      JoinSame(init, init', f, i, newName);
      AppendSameLast(Joint(init), Joint(init'), parts[last], Offset(parts, f) + i, newName);
    }
  }

  /** Every binding of the joint index is one of a part. */
  lemma {:induction false} PartOf(parts: seq<SelectIndex>, j: nat) returns (f: nat, i: nat)
    requires j < |Joint(parts).bindings|
    ensures f < |parts| && i < |parts[f].bindings| && j == Offset(parts, f) + i
  {
    hide Shift;
    var last := |parts| - 1;
    var init := parts[..last];
    if j < |Joint(init).bindings| {
      f, i := PartOf(init, j);
      assert init[..f] == parts[..f];
    } else {
      f, i := last, j - |Joint(init).bindings|;
    }
  }

  // ----- The theorem -----

  /** A single name is no path, in the clauses of any SELECT. */
  ghost predicate ParsedClauses(root: Node) {
    forall e :: e in Entries(root) ==> LongPaths(UsesAt(root, e))
  }

  /** The rename of a SELECT alias of a document, the i-th of the f-th SELECT. Where the
      test finds no conflict, extracting the table aliases and the SELECT aliases again
      from the edited tree gives the same joint index but for the new name, if and only
      if each use of that SELECT is safe in the document before. */
  lemma RenameTheorem(
      root: Node, ctes: seq<Ctes.CteSite>, ctes': seq<Ctes.CteSite>, tables: Tables.AliasIndex,
      tables': Tables.AliasIndex, parts: seq<SelectIndex>, index': SelectIndex, f: nat, scope: Scope, i: nat,
      newName: string)
    requires OneText(root) && ParsedClauses(root) && Tables.IsIndexOf(tables, root, ctes)
    requires PartsAre(parts, root, Entries(root), tables.sites) && f < |parts|
    requires i < |parts[f].bindings| && !parts[f].bindings[i].ambiguous
    requires ScopeIs(scope, AliasesAt(root, Entries(root)[f])) && !Conflicts(scope, i, newName)
    requires var edits := EditsOf(parts[f].bindings[i]);
             && Tables.IsIndexOf(tables', Edit(root, edits, newName), ctes')
             && IsJointIndex(index', Edit(root, edits, newName), tables'.sites)
    ensures var j := Offset(parts, f) + i;
            && j < |Joint(parts).bindings| && Joint(parts).bindings[j] == parts[f].bindings[i]
            && (SameIndex(Joint(parts), index', j, newName) <==>
                AllSafe(root, ctes, Entries(root)[f], i, newName))
  {
    hide OneText, Tables.IsIndexOf, PartIs, Edit, Joint, Entries, AliasesAt, UsesAt, PlacesAt, SameIndex, Safe, ScopeIs,
      Conflicts, LongPaths, EditsOf, IsEntry, Offset;
    var e, edits := Entries(root)[f], EditsOf(parts[f].bindings[i]);
    EditEntries(root, edits, newName);
    var parts' :| PartsAre(parts', Edit(root, edits, newName), Entries(root), tables'.sites) && index' == Joint(parts');
    EntriesAre(root, e);
    PartRename(root, ctes, ctes', tables, tables', e, parts[f], parts'[f], scope, i, newName);
    forall g | 0 <= g < |parts| && g != f ensures parts'[g] == parts[g] {
      EntriesAre(root, Entries(root)[g]);
      EntriesApart(root, f, g);
      EditsAreOfEntry(root, e, parts[f], tables.sites, i);
      OtherPartStays(root, ctes, ctes', tables, tables', e, i, Entries(root)[g], parts[g], parts'[g], edits, newName);
    }
    JoinSame(parts, parts', f, i, newName);
  }

  ghost predicate AllSafe(root: Node, ctes: seq<Ctes.CteSite>, e: Indexed, i: nat, newName: string) {
    |PlacesAt(root, e)| == |UsesAt(root, e)| &&
    forall k :: 0 <= k < |UsesAt(root, e)| ==>
      Safe(root, ctes, AliasesAt(root, e), i, UsesAt(root, e)[k], PlacesAt(root, e)[k], newName)
  }

  lemma EntriesApart(root: Node, f: nat, g: nat)
    requires f < |Entries(root)| && g < |Entries(root)| && f != g
    ensures Entries(root)[f].select != Entries(root)[g].select
  {
    PreorderIsWhole(root);
    AlongDistinct(root, Preorder(root, []));
    hide At, Preorder, Along;
    if f < g {
      assert Entries(root)[f].select != Entries(root)[g].select; }
        else { assert Entries(root)[g].select != Entries(root)[f].select;
    }
  }

  /** The part that holds the renamed alias. */
  lemma PartRename(
      root: Node, ctes: seq<Ctes.CteSite>, ctes': seq<Ctes.CteSite>, tables: Tables.AliasIndex,
      tables': Tables.AliasIndex, e: Indexed, part: SelectIndex, part': SelectIndex, scope: Scope, i: nat,
      newName: string)
    requires OneText(root) && IsEntry(root, e) && LongPaths(UsesAt(root, e)) && Tables.IsIndexOf(tables, root, ctes)
    requires PartIs(part, root, e, tables.sites) && i < |part.bindings| && !part.bindings[i].ambiguous
    requires ScopeIs(scope, AliasesAt(root, e)) && !Conflicts(scope, i, newName)
    requires Tables.IsIndexOf(tables', Edit(root, EditsOf(part.bindings[i]), newName), ctes')
    requires PartIs(part', Edit(root, EditsOf(part.bindings[i]), newName), e, tables'.sites)
    ensures |part'.bindings| == |part.bindings|
    ensures SameIndex(part, part', i, newName) <==> AllSafe(root, ctes, e, i, newName)
    ensures SparesTables(root, ctes, EditsOf(part.bindings[i]))
  {
    hide OneText, Tables.IsIndexOf, IsIndexOf, Edit, AliasesAt, UsesAt, PlacesAt, SameIndex, Safe, ScopeIs, Conflicts,
      LongPaths, EditsOf, IsEntry, AllEvents, SparesTables, EditAliases, EditUses, NamesApart;
    var edits, aliases, uses := EditsOf(part.bindings[i]), AliasesAt(root, e), UsesAt(root, e);
    EntryNamesApart(root, ctes, e);
    UsesOfEntryCount(root, e);
    EditAliasesAt(root, e, edits, newName);
    EditUsesAt(root, e, edits, newName);
    IndexLength(part, aliases, AllEvents(aliases, tables.sites, uses));
    IndexLength(part', EditAliases(aliases, edits, newName),
      AllEvents(EditAliases(aliases, edits, newName), tables'.sites, EditUses(uses, edits, newName)));
    EditAliasesLength(aliases, edits, newName);
    EditsSpareTables(root, ctes, part, aliases, tables.sites, uses, PlacesAt(root, e), i);
    SelectAliasRename.RenameTheorem(root, ctes, ctes', tables, tables', part, part', aliases, uses, PlacesAt(root, e),
        scope,
      i, newName);
  }

  lemma EditAliasesLength(aliases: seq<Alias>, edits: set<Range>, newName: string)
    ensures |EditAliases(aliases, edits, newName)| == |aliases|
  {}

  lemma UsesOfEntryCount(root: Node, e: Indexed)
    requires IsEntry(root, e)
    ensures |PlacesAt(root, e)| == |UsesAt(root, e)|
  {
    UsesOfEntry(root, e);
    hide PlacesAt, UsesAt;
  }
}
