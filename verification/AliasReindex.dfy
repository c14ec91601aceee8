/** Extracting the table aliases again after a rename: exactly when every binding
    has the references it had. */
module AliasReindex {
  import opened Coordinates
  import opened Syntax
  import opened Editing
  import opened AliasBindings
  import opened AliasRename
  import Ctes = CteBindings

  // ----- What an alias stands for does not decide what a name means -----

  lemma {:induction false} NamesAlone(table: Node, ctes: seq<Ctes.CteSite>, ctes': seq<Ctes.CteSite>)
    ensures Renamed(FromAliases(table, ctes), FromAliases(table, ctes'), {}, "")
  {
    match table.kind
    case ParenTable => if Kids(table) != [] { NamesAlone(Kids(table)[0], ctes, ctes'); }
    case Join =>
      if |Kids(table)| > 0 { NamesAlone(Kids(table)[0], ctes, ctes'); }
      if |Kids(table)| > 1 { NamesAlone(Kids(table)[1], ctes, ctes'); }
    case _ =>
  }

  lemma SiblingsAlone(root: Node, ctes: seq<Ctes.CteSite>, ctes': seq<Ctes.CteSite>, d: AliasDecl)
    ensures Renamed(Siblings(root, ctes, d), Siblings(root, ctes', d), {}, "")
  {
    hide FromAliases;
    if NodeAt(root, d.select).Some? {
      var n := NodeAt(root, d.select).value;
      if n.kind.Select? && n.kind.source < |Kids(n)| { NamesAlone(Kids(n)[n.kind.source], ctes, ctes'); }
    }
  }

  lemma LocalAlone(root: Node, ctes: seq<Ctes.CteSite>, ctes': seq<Ctes.CteSite>, p: Address, key: string)
    ensures LocalAt(root, ctes', p, key) == LocalAt(root, ctes, p, key)
  {
    hide Siblings;
    SiblingsAlone(root, ctes, ctes', AliasDecl(p, 0));
    SameLocal(Siblings(root, ctes, AliasDecl(p, 0)), Siblings(root, ctes', AliasDecl(p, 0)), p, key);
  }

  lemma {:induction false} ResolveAlone(root: Node, ctes: seq<Ctes.CteSite>, ctes': seq<Ctes.CteSite>, a: Address,
                                        key: string)
    ensures ResolveAlias(root, a, key, ctes') == ResolveAlias(root, a, key, ctes)
    decreases |a|
  {
    hide LocalAt, ResolveAlias;
    StepOut(root, ctes, a, key);
    StepOut(root, ctes', a, key);
    if a != [] {
      LocalAlone(root, ctes, ctes', a[..|a| - 1], key);
      ResolveAlone(root, ctes, ctes', a[..|a| - 1], key);
    }
  }

  lemma DenotesAlone(root: Node, ctes: seq<Ctes.CteSite>, ctes': seq<Ctes.CteSite>, a: Address)
    ensures Denotes(root, ctes', a) == Denotes(root, ctes, a)
  {
    hide ResolveAlias, Qualifier;
    if Qualifier(root, a).Some? { ResolveAlone(root, ctes, ctes', a, Fold(Qualifier(root, a).value.name)); }
  }

  // ----- Declarations after the rename -----

  /** The same declarations in the same order, their names edited. */
  ghost predicate EditedDecls(before: seq<Event>, after: seq<Event>, edits: set<Range>, newName: string) {
    && AllDeclared(before) && AllDeclared(after) && |after| == |before|
    && forall i :: 0 <= i < |before| ==>
         after[i].decl == before[i].decl && after[i].alias.name == EditIdent(before[i].alias.name, edits, newName)
  }

  lemma DeclaredAt(root: Node, ctes: seq<Ctes.CteSite>, a: Address)
    ensures Keep(OwnEvents(root, a, ctes), Declarations) == DeclarationEvents(a, Siblings(root, ctes, AliasDecl(a, 0)))
  {
    OwnDeclarations(root, a, ctes);
    hide OwnEvents, Keep, SelectAliases;
  }

  lemma EditedOwnDecls(root: Node, ctes: seq<Ctes.CteSite>, ctes': seq<Ctes.CteSite>, a: Address, edits: set<Range>,
                       newName: string)
    ensures EditedDecls(Keep(OwnEvents(root, a, ctes), Declarations),
                        Keep(OwnEvents(Edit(root, edits, newName), a, ctes'), Declarations), edits, newName)
  {
    hide OwnEvents, Keep, Edit, Siblings;
    var root', d := Edit(root, edits, newName), AliasDecl(a, 0);
    EditSiblings(root, ctes, d, edits, newName);
    SiblingsAlone(root', ctes, ctes', d);
    DeclaredAt(root, ctes, a);
    DeclaredAt(root', ctes', a);
  }

  lemma RecordDecls(root: Node, ctes: seq<Ctes.CteSite>, places: seq<Address>)
    ensures Keep(Record(root, places, ctes), Declarations) ==
            if places == [] then []
            else Keep(OwnEvents(root, places[0], ctes), Declarations) +
                 Keep(Record(root, places[1..], ctes), Declarations)
  {
    if places != [] { KeepConcat(OwnEvents(root, places[0], ctes), Record(root, places[1..], ctes), Declarations); }
  }

  lemma EditedConcat(before: seq<Event>, more: seq<Event>, after: seq<Event>, more': seq<Event>, edits: set<Range>,
                     newName: string)
    requires EditedDecls(before, after, edits, newName) && EditedDecls(more, more', edits, newName)
    ensures EditedDecls(before + more, after + more', edits, newName)
  {}

  lemma {:induction false} EditedRecordDecls(root: Node, ctes: seq<Ctes.CteSite>, ctes': seq<Ctes.CteSite>,
                                             places: seq<Address>,
                                             edits: set<Range>, newName: string)
    ensures EditedDecls(Keep(Record(root, places, ctes), Declarations),
                        Keep(Record(Edit(root, edits, newName), places, ctes'), Declarations), edits, newName)
  {
    hide Record, OwnEvents, Keep, Edit;
    var root' := Edit(root, edits, newName);
    RecordDecls(root, ctes, places);
    RecordDecls(root', ctes', places);
    if places != [] {
      EditedRecordDecls(root, ctes, ctes', places[1..], edits, newName);
      EditedOwnDecls(root, ctes, ctes', places[0], edits, newName);
      hide EditedDecls;
      EditedConcat(Keep(OwnEvents(root, places[0], ctes), Declarations),
          Keep(Record(root, places[1..], ctes), Declarations),
        Keep(OwnEvents(root', places[0], ctes'), Declarations), Keep(Record(root', places[1..], ctes'), Declarations),
          edits, newName);
    }
  }

  lemma EditedDocumentDecls(root: Node, ctes: seq<Ctes.CteSite>, ctes': seq<Ctes.CteSite>, edits: set<Range>,
                            newName: string)
    ensures EditedDecls(Decls(root, ctes), Decls(Edit(root, edits, newName), ctes'), edits, newName)
  {
    EditPreorder(root, [], edits, newName);
    EditedRecordDecls(root, ctes, ctes', Preorder(root, []), edits, newName);
  }

  // ----- References after the rename -----

  lemma {:induction false} RangesConcat(x: seq<Event>, y: seq<Event>, decl: AliasDecl)
    ensures ReferenceRanges(x + y, decl) == ReferenceRanges(x, decl) + ReferenceRanges(y, decl)
  {
    if y == [] {
      assert x + y == x;
    } else {
      assert (x + y)[..|x + y| - 1] == x + y[..|y| - 1];
      RangesConcat(x, y[..|y| - 1], decl);
    }
  }

  lemma {:induction false} NoReferences(log: seq<Event>, decl: AliasDecl)
    requires forall e :: e in log ==> !e.Referred?
    ensures ReferenceRanges(log, decl) == []
  {
    if log != [] { NoReferences(log[..|log| - 1], decl); }
  }

  /** What one place adds to the references of a declaration. */
  lemma OwnRanges(root: Node, ctes: seq<Ctes.CteSite>, a: Address, decl: AliasDecl)
    ensures ReferenceRanges(OwnEvents(root, a, ctes), decl) ==
            if Denotes(root, ctes, a) == Bound(decl) then [Qualifier(root, a).value.range] else []
  {
    hide ResolveAlias, SourcesAround, SelectAliases;
    var own := OwnEvents(root, a, ctes);
    if NodeAt(root, a).Some? && NodeAt(root, a).value.kind.Select? {
      NoReferences(own, decl);
    } else if own != [] {
      assert own == [own[0]] && own[..0] == [];
    }
  }

  lemma {:induction false} SameRecordRanges(root: Node, ctes: seq<Ctes.CteSite>, ctes': seq<Ctes.CteSite>,
                                            places: seq<Address>,
                                            edits: set<Range>, newName: string, decl: AliasDecl)
    requires forall a :: Keeps(root, ctes, edits, newName, a)
    ensures ReferenceRanges(Record(Edit(root, edits, newName), places, ctes'), decl) ==
            ReferenceRanges(Record(root, places, ctes), decl)
  {
    if places != [] {
      var root', a := Edit(root, edits, newName), places[0];
      SameRecordRanges(root, ctes, ctes', places[1..], edits, newName, decl);
      RangesConcat(OwnEvents(root, a, ctes), Record(root, places[1..], ctes), decl);
      RangesConcat(OwnEvents(root', a, ctes'), Record(root', places[1..], ctes'), decl);
      OwnRanges(root, ctes, a, decl);
      OwnRanges(root', ctes', a, decl);
      assert Keeps(root, ctes, edits, newName, a);
      DenotesAlone(root', ctes, ctes', a);
      EditQualifier(root, a, edits, newName);
      hide OwnEvents, Edit, Denotes, ReferenceRanges, Qualifier;
    }
  }

  /** The references of a declaration in a document. */
  ghost function RangesOf(root: Node, ctes: seq<Ctes.CteSite>, decl: AliasDecl): seq<Range> {
    ReferenceRanges(Expected(root, ctes), decl)
  }

  /** Every declaration has the same references in the edited document. */
  ghost predicate SameReferences(root: Node, ctes: seq<Ctes.CteSite>, ctes': seq<Ctes.CteSite>, edits: set<Range>,
                                 newName: string) {
    forall i :: 0 <= i < |Decls(root, ctes)| ==>
      var decl := Decls(root, ctes)[i].decl;
      RangesOf(Edit(root, edits, newName), ctes', decl) == RangesOf(root, ctes, decl)
  }

  lemma KeepsSameReferences(root: Node, ctes: seq<Ctes.CteSite>, ctes': seq<Ctes.CteSite>, edits: set<Range>,
                            newName: string)
    requires forall a :: Keeps(root, ctes, edits, newName, a)
    ensures SameReferences(root, ctes, ctes', edits, newName)
  {
    EditPreorder(root, [], edits, newName);
    hide Keeps, Edit, Preorder, ReferenceRanges, Record, Decls;
    forall i | 0 <= i < |Decls(root, ctes)|
      ensures RangesOf(Edit(root, edits, newName), ctes', Decls(root, ctes)[i].decl) ==
              RangesOf(root, ctes, Decls(root, ctes)[i].decl)
    {
      SameRecordRanges(root, ctes, ctes', Preorder(root, []), edits, newName, Decls(root, ctes)[i].decl);
    }
  }

  // ----- The same references mean the same bindings -----

  lemma EditedQualifiersDistinct(root: Node, edits: set<Range>, newName: string)
    requires DistinctQualifiers(root)
    ensures DistinctQualifiers(Edit(root, edits, newName))
  {
    hide Qualifier, Edit;
    forall a ensures Qualifier(Edit(root, edits, newName), a) == EditOptional(Qualifier(root, a), edits, newName) {
      EditQualifier(root, a, edits, newName);
    }
  }

  /** A qualifier denotes a declaration exactly when its range is among the references. */
  lemma DenotesByRange(root: Node, ctes: seq<Ctes.CteSite>, a: Address, decl: AliasDecl)
    requires DistinctQualifiers(root) && Qualifier(root, a).Some?
    ensures Denotes(root, ctes, a) == Bound(decl) <==> Qualifier(root, a).value.range in RangesOf(root, ctes, decl)
  {
    RecordedReferences(root, ctes, decl);
    hide Qualifier, ResolveAlias, ReferenceRanges, Expected;
    if Denotes(root, ctes, a) == Bound(decl) { assert RefersTo(root, ctes, a, decl, Qualifier(root, a).value.range); }
  }

  lemma SameReferencesKeepBound(root: Node, ctes: seq<Ctes.CteSite>, ctes': seq<Ctes.CteSite>, edits: set<Range>,
                                newName: string,
                                a: Address, i: nat)
    requires DistinctQualifiers(root) && SameReferences(root, ctes, ctes', edits, newName)
    requires Qualifier(root, a).Some? && i < |Decls(root, ctes)|
    ensures var decl := Decls(root, ctes)[i].decl;
            Denotes(Edit(root, edits, newName), ctes, a) == Bound(decl) <==> Denotes(root, ctes, a) == Bound(decl)
  {
    var root', decl := Edit(root, edits, newName), Decls(root, ctes)[i].decl;
    EditQualifier(root, a, edits, newName);
    EditedQualifiersDistinct(root, edits, newName);
    DenotesAlone(root', ctes, ctes', a);
    hide Qualifier, Denotes, Edit, DistinctQualifiers, RangesOf;
    DenotesByRange(root, ctes, a, decl);
    DenotesByRange(root', ctes', a, decl);
  }

  /** A captured qualifier is bound to the renamed alias. */
  lemma CapturedIsBound(root: Node, ctes: seq<Ctes.CteSite>, d: AliasDecl, edits: set<Range>, newName: string,
                        a: Address)
    requires Renaming(root, ctes, d, edits) && Fold(newName) != OldKey(root, ctes, d) &&
             Captured(root, ctes, d, Fold(newName), a)
    ensures Denotes(Edit(root, edits, newName), ctes, a) == Bound(d)
  {
    hide Renaming, LocalAt, Edit, ResolveAlias;
    EditedDenotes(root, ctes, d, edits, newName, a);
    NewNameLookup(root, ctes, d, edits, newName, a);
  }

  lemma ReindexIff(root: Node, ctes: seq<Ctes.CteSite>, ctes': seq<Ctes.CteSite>, d: AliasDecl, b: nat,
                   edits: set<Range>, newName: string)
    requires Renaming(root, ctes, d, edits) && NoCollision(root, ctes, d, Fold(newName)) && DistinctQualifiers(root)
    requires b < |Decls(root, ctes)| && Decls(root, ctes)[b].decl == d
    ensures SameReferences(root, ctes, ctes', edits, newName) <==>
            forall a :: !Doubled(root, ctes, d, Fold(newName), a) && !Captured(root, ctes, d, Fold(newName), a)
  {
    RenamePreservesIff(root, ctes, d, edits, newName);
    hide Renaming, NoCollision, SameReferences, DistinctQualifiers, Decls, Edit;
    if forall a :: Keeps(root, ctes, edits, newName, a) {
      KeepsSameReferences(root, ctes, ctes', edits, newName);
    }
    if SameReferences(root, ctes, ctes', edits, newName) {
      forall a ensures !Doubled(root, ctes, d, Fold(newName), a) && !Captured(root, ctes, d, Fold(newName), a) {
        NeitherHere(root, ctes, ctes', d, b, edits, newName, a);
      }
    }
  }

  lemma NeitherHere(root: Node, ctes: seq<Ctes.CteSite>, ctes': seq<Ctes.CteSite>, d: AliasDecl, b: nat,
                    edits: set<Range>, newName: string,
                    a: Address)
    requires Renaming(root, ctes, d, edits) && NoCollision(root, ctes, d, Fold(newName)) && DistinctQualifiers(root)
    requires b < |Decls(root, ctes)| && Decls(root, ctes)[b].decl == d
    requires SameReferences(root, ctes, ctes', edits, newName)
    ensures !Doubled(root, ctes, d, Fold(newName), a) && !Captured(root, ctes, d, Fold(newName), a)
  {
    hide Renaming, NoCollision, SameReferences, DistinctQualifiers, Decls, Edit, ResolveAlias, Qualifier, LocalAt,
      ClearPath;
    RenamingNames(root, ctes, d, edits);
    if Fold(newName) == OldKey(root, ctes, d) {
      SameKeys(root, ctes, d, edits, newName, a);
    } else if Qualifier(root, a).Some? {
      SameReferencesKeepBound(root, ctes, ctes', edits, newName, a, b);
      if Denotes(root, ctes, a) == Bound(d) {
        ReferenceKeeps(root, ctes, d, edits, newName, a);
      } else if Captured(root, ctes, d, Fold(newName), a) {
        CapturedIsBound(root, ctes, d, edits, newName, a);
      }
    }
  }

  lemma RenamingNames(root: Node, ctes: seq<Ctes.CteSite>, d: AliasDecl, edits: set<Range>)
    requires Renaming(root, ctes, d, edits)
    ensures d.index < |Siblings(root, ctes, d)|
  {}

  // ----- The two indexes -----

  /** The bindings of the two indexes agree one by one, but for the new name. */
  ghost predicate SameBindings(index: AliasIndex, index': AliasIndex, b: nat, newName: string) {
    && |index'.bindings| == |index.bindings|
    && forall c :: 0 <= c < |index.bindings| ==>
         && index'.bindings[c].name == (if c == b then newName else index.bindings[c].name)
         && index'.bindings[c].declarationRange == index.bindings[c].declarationRange
         && index'.bindings[c].referenceRanges == index.bindings[c].referenceRanges
  }

  lemma IndexBindings(index: AliasIndex, root: Node, ctes: seq<Ctes.CteSite>)
    requires IsIndexOf(index, root, ctes)
    ensures |index.bindings| == |Decls(root, ctes)|
    ensures forall c :: 0 <= c < |index.bindings| ==>
              && index.bindings[c].name == Decls(root, ctes)[c].alias.name.name
              && index.bindings[c].declarationRange == Decls(root, ctes)[c].alias.name.range
              && index.bindings[c].referenceRanges == RangesOf(root, ctes, Decls(root, ctes)[c].decl)
  {
    hide Expected, SitesAre, MembersAre, ScopesAre, HasTwin, PointsToFirst;
    var walked: AliasIndex :| IsSorted(index, walked) && Represents(walked, root, ctes, Expected(root, ctes));
  }

  /** The rename theorem on what is extracted: when the conflict test passes, the
      index of the edited document has, binding by binding, the references of the
      index before, if and only if no reference is doubled and none captured. */
  lemma ReindexTheorem(index: AliasIndex, index': AliasIndex, root: Node, ctes: seq<Ctes.CteSite>,
                       ctes': seq<Ctes.CteSite>,
                       b: nat, newName: string)
    requires IsIndexOf(index, root, ctes) && b < |index.bindings| && !index.bindings[b].ambiguous
    requires DistinctNameRanges(root, ctes)
    requires !exists i :: 0 <= i < |index.scopes| && Conflict(index.scopes[i], b, newName)
    requires IsIndexOf(index', Edit(root, EditedRanges(Edits(index.bindings[b], newName)), newName), ctes')
    ensures b < |Decls(root, ctes)|
    ensures var d := Decls(root, ctes)[b].decl;
            SameBindings(index, index', b, newName) <==>
            forall a :: !Doubled(root, ctes, d, Fold(newName), a) && !Captured(root, ctes, d, Fold(newName), a)
  {
    hide Represents, Renaming, DistinctQualifiers, Expected, Decls, RangesOf, Edit, IsIndexOf, Conflict, NoCollision;
    var edits := EditedRanges(Edits(index.bindings[b], newName));
    IndexBindings(index, root, ctes);
    IndexBindings(index', Edit(root, edits, newName), ctes');
    PassedTest(index, root, ctes, b, newName);
    var d := Decls(root, ctes)[b].decl;
    EditedDocumentDecls(root, ctes, ctes', edits, newName);
    NamesAreKept(root, ctes, ctes', d, b, edits, newName);
    ReindexIff(root, ctes, ctes', d, b, edits, newName);
    assert SameReferences(root, ctes, ctes', edits, newName) <==> SameBindings(index, index', b, newName);
  }

  /** Only the renamed declaration has a new name. */
  lemma NamesAreKept(root: Node, ctes: seq<Ctes.CteSite>, ctes': seq<Ctes.CteSite>, d: AliasDecl, b: nat,
                     edits: set<Range>, newName: string)
    requires Renaming(root, ctes, d, edits) && b < |Decls(root, ctes)| && Decls(root, ctes)[b].decl == d
    ensures forall c :: 0 <= c < |Decls(root, ctes)| ==>
              (Decls(root, ctes)[c].alias.name.range in edits <==> c == b)
  {
    DeclsInOrder(root, ctes);
    hide Decls;
    forall c: nat | c < |Decls(root, ctes)| ensures Decls(root, ctes)[c].alias.name.range in edits <==> c == b {
      DeclarationIsSibling(root, ctes, c);
      var e := Decls(root, ctes)[c].decl;
      SameSiblings(root, ctes, e, e.index);
      assert e == AliasDecl(e.select, e.index);
    }
  }
}
