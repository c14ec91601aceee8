/** Extracting the table aliases again after a rename: exactly when the duplicate
    flags stay too, and that the members do. */
module AliasReindexFlags {
  import opened Coordinates
  import opened Syntax
  import opened Editing
  import opened AliasBindings
  import opened AliasRename
  import opened AliasReindex
  import Ctes = CteBindings

  // ----- Duplicates after the rename -----

  /** Another alias of the renamed one's FROM clause bears the key. */
  ghost predicate OtherBears(decls: seq<Event>, b: nat, key: string)
    requires AllDeclared(decls) && b < |decls|
  {
    exists c :: 0 <= c < |decls| && c != b && decls[c].decl.select == decls[b].decl.select && Key(decls[c].alias) == key
  }

  /** Only the renamed declaration has another name. */
  ghost predicate OneRenamed(decls: seq<Event>, decls': seq<Event>, b: nat, newName: string) {
    && AllDeclared(decls) && AllDeclared(decls') && |decls'| == |decls| && b < |decls|
    && forall c :: 0 <= c < |decls| ==>
         && decls'[c].decl == decls[c].decl
         && decls'[c].alias.name.name == if c == b then newName else decls[c].alias.name.name
  }

  lemma TwinsAfter(decls: seq<Event>, decls': seq<Event>, b: nat, newName: string, c: nat, e: nat)
    requires OneRenamed(decls, decls', b, newName) && c < |decls| && e < |decls| && c != e
    requires !HasTwin(decls, b) && !OtherBears(decls, b, Fold(newName))
    ensures Twins(decls'[c], decls'[e]) <==> Twins(decls[c], decls[e])
  {
    hide Fold;
    if c == b { assert !Twins(decls[e], decls[b]); }
    if e == b { assert !Twins(decls[c], decls[b]); }
  }

  /** The flags that follow from the twins. */
  lemma FlagsAfter(decls: seq<Event>, decls': seq<Event>, b: nat, newName: string, c: nat, x: Option<nat>,
                   y: Option<nat>)
    requires OneRenamed(decls, decls', b, newName) && c < |decls|
    requires !HasTwin(decls, b) && !OtherBears(decls, b, Fold(newName))
    requires PointsToFirst(decls, c, x) && PointsToFirst(decls', c, y)
    ensures HasTwin(decls', c) <==> HasTwin(decls, c)
    ensures x == y
  {
    forall e: nat | e < |decls| && e != c ensures Twins(decls'[e], decls'[c]) <==> Twins(decls[e], decls[c]) {
      TwinsAfter(decls, decls', b, newName, e, c);
    }
    hide Twins, OneRenamed, OtherBears;
    SameLength(decls, decls', b, newName);
  }

  lemma SameLength(decls: seq<Event>, decls': seq<Event>, b: nat, newName: string)
    requires OneRenamed(decls, decls', b, newName)
    ensures |decls'| == |decls|
  {}

  /** A name that another alias bears is doubled by the rename. */
  lemma BorneIsDoubled(decls: seq<Event>, decls': seq<Event>, b: nat, newName: string)
    requires OneRenamed(decls, decls', b, newName) && OtherBears(decls, b, Fold(newName))
    ensures HasTwin(decls', b)
  {
    hide Fold;
    var c :| 0 <= c < |decls| && c != b && decls[c].decl.select == decls[b].decl.select &&
      Key(decls[c].alias) == Fold(newName);
    assert Twins(decls'[c], decls'[b]);
  }

  /** Without a collision, that is when the FROM clause makes the new name ambiguous. */
  lemma BorneIff(root: Node, ctes: seq<Ctes.CteSite>, d: AliasDecl, b: nat, edits: set<Range>, newName: string)
    requires Renaming(root, ctes, d, edits) && NoCollision(root, ctes, d, Fold(newName))
    requires b < |Decls(root, ctes)| && Decls(root, ctes)[b].decl == d
    ensures OtherBears(Decls(root, ctes), b, Fold(newName)) <==>
            LocalAt(root, ctes, d.select, Fold(newName)) == Ambiguous
  {
    var decls, aliases, key := Decls(root, ctes), Siblings(root, ctes, d), Fold(newName);
    DeclsInOrder(root, ctes);
    hide Decls, NodeAt, SelectAliases, Fold, Expected, Inside;
    SameSiblings(root, ctes, d, 0);
    RenamedIsBound(root, ctes, d, edits);
    NewNameIsFree(root, ctes, d, key);
    if OtherBears(decls, b, key) {
      var c :| 0 <= c < |decls| && c != b && decls[c].decl.select == d.select && Key(decls[c].alias) == key;
      DeclarationIsSibling(root, ctes, c);
      SameSiblings(root, ctes, d, decls[c].decl.index);
      assert decls[c].decl == AliasDecl(d.select, decls[c].decl.index);
      LocalIsCount(aliases, d.select, decls[c].decl.index);
    }
    if LocalAt(root, ctes, d.select, key) == Ambiguous {
      var i := OtherNamesake(aliases, d.select, key, d.index);
      SameSiblings(root, ctes, d, i);
      var c := SiblingIsDeclared(root, ctes, d.select, i);
      assert c != b;
    }
  }

  /** An ambiguous name has a bearer besides any given one. */
  lemma OtherNamesake(aliases: seq<Alias>, select: Address, key: string, m: nat) returns (i: nat)
    requires Local(aliases, select, key) == Ambiguous
    ensures i < |aliases| && i != m && Key(aliases[i]) == key
  {
    i := FirstFrom(aliases, 0, key).value;
    if i == m { i := FirstFrom(aliases, m + 1, key).value; }
  }

  /** Without a collision the FROM clause binds the new name to no other alias. */
  lemma NewNameIsFree(root: Node, ctes: seq<Ctes.CteSite>, d: AliasDecl, newKey: string)
    requires d.index < |Siblings(root, ctes, d)| && LocalAt(root, ctes, d.select, OldKey(root, ctes, d)) == Bound(d)
    requires NoCollision(root, ctes, d, newKey)
    ensures var l := LocalAt(root, ctes, d.select, newKey); l.Bound? ==> l == Bound(d)
  {
    var s, key := d.select, OldKey(root, ctes, d);
    InsideByLocal(root, ctes, s, key);
    InsideByLocal(root, ctes, s, newKey);
    InsideIsSelect(root, ctes, s, key);
    assert !Collides(root, ctes, s, d, key, newKey);
  }

  lemma RenamedIsBound(root: Node, ctes: seq<Ctes.CteSite>, d: AliasDecl, edits: set<Range>)
    requires Renaming(root, ctes, d, edits)
    ensures d.index < |Siblings(root, ctes, d)| && LocalAt(root, ctes, d.select, OldKey(root, ctes, d)) == Bound(d)
  {}

  // ----- The flags of the two indexes -----

  ghost predicate SameFlags(index: AliasIndex, index': AliasIndex) {
    && |index'.bindings| == |index.bindings|
    && forall c :: 0 <= c < |index.bindings| ==>
         && index'.bindings[c].ambiguous == index.bindings[c].ambiguous
         && index'.bindings[c].duplicateOf == index.bindings[c].duplicateOf
  }

  /** What the flags of an index say. */
  lemma IndexFlags(index: AliasIndex, root: Node, ctes: seq<Ctes.CteSite>)
    requires IsIndexOf(index, root, ctes)
    ensures |index.bindings| == |Decls(root, ctes)|
    ensures forall c :: 0 <= c < |index.bindings| ==>
              && (index.bindings[c].ambiguous <==> HasTwin(Decls(root, ctes), c))
              && PointsToFirst(Decls(root, ctes), c, index.bindings[c].duplicateOf)
  {
    hide Expected, SitesAre, MembersAre, ScopesAre, HasTwin, PointsToFirst;
    var walked: AliasIndex :| IsSorted(index, walked) && Represents(walked, root, ctes, Expected(root, ctes));
  }

  lemma FlagsStayIff(index: AliasIndex, index': AliasIndex, root: Node, ctes: seq<Ctes.CteSite>,
                     ctes': seq<Ctes.CteSite>, d: AliasDecl, b: nat, edits: set<Range>, newName: string)
    requires IsIndexOf(index, root, ctes) && IsIndexOf(index', Edit(root, edits, newName), ctes')
    requires Renaming(root, ctes, d, edits) && NoCollision(root, ctes, d, Fold(newName))
    requires b < |index.bindings| && !index.bindings[b].ambiguous
    requires b < |Decls(root, ctes)| && Decls(root, ctes)[b].decl == d
    ensures SameFlags(index, index') <==> LocalAt(root, ctes, d.select, Fold(newName)) != Ambiguous
  {
    hide IsIndexOf, Renaming, NoCollision, Decls, Edit, LocalAt, HasTwin, PointsToFirst, OtherBears;
    var decls, decls' := Decls(root, ctes), Decls(Edit(root, edits, newName), ctes');
    IndexFlags(index, root, ctes);
    IndexFlags(index', Edit(root, edits, newName), ctes');
    BorneIff(root, ctes, d, b, edits, newName);
    OneIsRenamed(root, ctes, ctes', d, b, edits, newName);
    if OtherBears(decls, b, Fold(newName)) {
      BorneIsDoubled(decls, decls', b, newName);
    } else {
      forall c: nat | c < |index.bindings|
        ensures index'.bindings[c].ambiguous == index.bindings[c].ambiguous
        ensures index'.bindings[c].duplicateOf == index.bindings[c].duplicateOf
      {
        FlagsAfter(decls, decls', b, newName, c, index.bindings[c].duplicateOf, index'.bindings[c].duplicateOf);
      }
    }
  }

  lemma OneIsRenamed(root: Node, ctes: seq<Ctes.CteSite>, ctes': seq<Ctes.CteSite>, d: AliasDecl, b: nat,
                     edits: set<Range>, newName: string)
    requires Renaming(root, ctes, d, edits) && b < |Decls(root, ctes)| && Decls(root, ctes)[b].decl == d
    ensures OneRenamed(Decls(root, ctes), Decls(Edit(root, edits, newName), ctes'), b, newName)
  {
    hide Renaming, Decls, Edit;
    EditedDocumentDecls(root, ctes, ctes', edits, newName);
    NamesAreKept(root, ctes, ctes', d, b, edits, newName);
  }

  // ----- Members -----

  /** No member of a qualified path is edited: members have ranges of their own. */
  ghost predicate SparesMembers(root: Node, edits: set<Range>) {
    forall a | NodeAt(root, a).Some? && MemberOf(NodeAt(root, a).value).Some? ::
      MemberOf(NodeAt(root, a).value).value.range !in edits
  }

  lemma SameMember(root: Node, a: Address, edits: set<Range>, newName: string)
    requires SparesMembers(root, edits) && NodeAt(root, a).Some?
    ensures NodeAt(Edit(root, edits, newName), a).Some?
    ensures MemberOf(NodeAt(Edit(root, edits, newName), a).value) == MemberOf(NodeAt(root, a).value)
    ensures NodeAt(Edit(root, edits, newName), a).value.kind.Select? <==> NodeAt(root, a).value.kind.Select?
  {
    EditNodeAt(root, a, edits, newName);
    var n := NodeAt(root, a).value;
    assert Edit(n, edits, newName).kind == EditKind(n.kind, edits, newName);
    hide Edit, NodeAt;
  }

  /** Where a meaning is kept, the same reference is recorded. */
  lemma SameOwnMembers(root: Node, ctes: seq<Ctes.CteSite>, ctes': seq<Ctes.CteSite>, a: Address, edits: set<Range>,
                       newName: string)
    requires Keeps(root, ctes, edits, newName, a) && SparesMembers(root, edits)
    ensures Keep(OwnEvents(Edit(root, edits, newName), a, ctes'), Members) == Keep(OwnEvents(root, a, ctes), Members)
  {
    var root' := Edit(root, edits, newName);
    EditNodeAt(root, a, edits, newName);
    EditQualifier(root, a, edits, newName);
    DenotesAlone(root', ctes, ctes', a);
    OwnMembers(root, ctes, a);
    OwnMembers(root', ctes', a);
    hide OwnEvents, Keep, Edit, Qualifier, Denotes, SparesMembers;
    if NodeAt(root, a).Some? { SameMember(root, a, edits, newName); }
  }

  /** What one place adds to the members. */
  lemma OwnMembers(root: Node, ctes: seq<Ctes.CteSite>, a: Address)
    ensures Keep(OwnEvents(root, a, ctes), Members) ==
            if Denotes(root, ctes, a).Bound? && MemberOf(NodeAt(root, a).value).Some?
            then [Referred(a, Denotes(root, ctes, a).decl, Qualifier(root, a).value.range,
                MemberOf(NodeAt(root, a).value))]
            else []
  {
    hide ResolveAlias, SourcesAround, SelectAliases, NodeAt;
    var own := OwnEvents(root, a, ctes);
    if NodeAt(root, a).Some? && NodeAt(root, a).value.kind.Select? {
      NoMembers(own);
    } else if own != [] {
      assert own == [] + [own[0]];
      KeepAppend([], own[0], Members);
    }
  }

  lemma {:induction false} NoMembers(log: seq<Event>)
    requires forall e :: e in log ==> !e.Referred?
    ensures Keep(log, Members) == []
  {
    if log != [] { NoMembers(log[..|log| - 1]); }
  }

  lemma {:induction false} SameRecordMembers(root: Node, ctes: seq<Ctes.CteSite>, ctes': seq<Ctes.CteSite>,
                                             places: seq<Address>, edits: set<Range>, newName: string)
    requires (forall a :: Keeps(root, ctes, edits, newName, a)) && SparesMembers(root, edits)
    ensures Keep(Record(Edit(root, edits, newName), places, ctes'), Members) ==
            Keep(Record(root, places, ctes), Members)
  {
    hide OwnEvents, Edit, Keeps, SparesMembers, Keep;
    if places != [] {
      var root' := Edit(root, edits, newName);
      SameRecordMembers(root, ctes, ctes', places[1..], edits, newName);
      KeepConcat(OwnEvents(root, places[0], ctes), Record(root, places[1..], ctes), Members);
      KeepConcat(OwnEvents(root', places[0], ctes'), Record(root', places[1..], ctes'), Members);
      SameOwnMembers(root, ctes, ctes', places[0], edits, newName);
    }
  }

  /** The entries determine the member sites. */
  lemma MembersDetermined(x: seq<MemberSite>, y: seq<MemberSite>, decls: seq<Event>, decls': seq<Event>,
                          entries: seq<Event>)
    requires InOrder(decls) && AllDeclared(decls') && |decls'| == |decls|
    requires forall c :: 0 <= c < |decls| ==> decls'[c].decl == decls[c].decl
    requires MembersAre(x, decls, entries) && MembersAre(y, decls', entries)
    ensures x == y
  {
    forall i | 0 <= i < |entries| ensures x[i] == y[i] {
      assert MemberIs(x[i], decls, entries[i]) && MemberIs(y[i], decls', entries[i]);
      assert decls[x[i].binding].decl == decls[y[i].binding].decl;
    }
  }

  lemma IndexMembers(index: AliasIndex, root: Node, ctes: seq<Ctes.CteSite>) returns (members: seq<MemberSite>)
    requires IsIndexOf(index, root, ctes)
    ensures multiset(index.memberSites) == multiset(members)
    ensures MembersAre(members, Decls(root, ctes), Keep(Expected(root, ctes), Members))
  {
    hide Expected, SitesAre, MembersAre, ScopesAre, BindingsAre;
    var walked: AliasIndex :| IsSorted(index, walked) && Represents(walked, root, ctes, Expected(root, ctes));
    members := walked.memberSites;
  }

  lemma MembersStay(index: AliasIndex, index': AliasIndex, root: Node, ctes: seq<Ctes.CteSite>,
                    ctes': seq<Ctes.CteSite>, edits: set<Range>, newName: string)
    requires IsIndexOf(index, root, ctes) && IsIndexOf(index', Edit(root, edits, newName), ctes')
    requires (forall a :: Keeps(root, ctes, edits, newName, a)) && SparesMembers(root, edits)
    ensures multiset(index'.memberSites) == multiset(index.memberSites)
  {
    hide IsIndexOf, Edit, Keeps, SparesMembers, Keep, MembersAre, Record, Preorder;
    var root' := Edit(root, edits, newName);
    var members := IndexMembers(index, root, ctes);
    var members' := IndexMembers(index', root', ctes');
    EditedDocumentDecls(root, ctes, ctes', edits, newName);
    DeclsInOrder(root, ctes);
    EditPreorder(root, [], edits, newName);
    SameRecordMembers(root, ctes, ctes', Preorder(root, []), edits, newName);
    MembersDetermined(members, members', Decls(root, ctes), Decls(root', ctes'), Keep(Expected(root, ctes), Members));
  }

  // ----- The theorem -----

  /** After a passed test the index of the edited document says the same of every
      binding, duplicate flags included, if and only if no reference is doubled, none is
      captured, and the renamed alias's own FROM clause does not bear the new name twice.
      Then the members are the same too. */
  lemma FlagsTheorem(index: AliasIndex, index': AliasIndex, root: Node, ctes: seq<Ctes.CteSite>,
                     ctes': seq<Ctes.CteSite>, b: nat, newName: string)
    requires IsIndexOf(index, root, ctes) && b < |index.bindings| && !index.bindings[b].ambiguous
    requires DistinctNameRanges(root, ctes)
    requires !exists i :: 0 <= i < |index.scopes| && Conflict(index.scopes[i], b, newName)
    requires IsIndexOf(index', Edit(root, EditedRanges(Edits(index.bindings[b], newName)), newName), ctes')
    requires SparesMembers(root, EditedRanges(Edits(index.bindings[b], newName)))
    ensures b < |Decls(root, ctes)|
    ensures var d := Decls(root, ctes)[b].decl;
            SameBindings(index, index', b, newName) && SameFlags(index, index') <==>
            (forall a :: !Doubled(root, ctes, d, Fold(newName), a) && !Captured(root, ctes, d, Fold(newName), a)) &&
            LocalAt(root, ctes, d.select, Fold(newName)) != Ambiguous
    ensures SameBindings(index, index', b, newName) ==> multiset(index'.memberSites) == multiset(index.memberSites)
  {
    hide Renaming, DistinctNameRanges, Decls, Edit, IsIndexOf, Conflict, NoCollision, SparesMembers, SameBindings,
      SameFlags, Doubled, Captured, LocalAt, Keeps, EditedRanges;
    var edits := EditedRanges(Edits(index.bindings[b], newName));
    PassedTest(index, root, ctes, b, newName);
    var d := Decls(root, ctes)[b].decl;
    ReindexTheorem(index, index', root, ctes, ctes', b, newName);
    FlagsStayIff(index, index', root, ctes, ctes', d, b, edits, newName);
    if SameBindings(index, index', b, newName) {
      RenamePreservesIff(root, ctes, d, edits, newName);
      MembersStay(index, index', root, ctes, ctes', edits, newName);
    }
  }
}
