/** The qualified members extracted again from an edited tree, where no edited qualifier
    denotes a table alias before or after. */
module MemberReindex {
  import opened Coordinates
  import opened Syntax
  import opened Sorting
  import opened Editing
  import opened AliasBindings
  import opened AliasRename
  import opened AliasReindex
  import opened AliasReindexFlags
  import Uses = SelectAliasRename
  import Ctes = CteBindings

  /** The qualifier at a place is edited, and the new name denotes a table alias there. */
  ghost predicate Moves(root: Node, ctes: seq<Ctes.CteSite>, edits: set<Range>, newName: string, a: Address) {
    && Qualifier(root, a).Some? && Qualifier(root, a).value.range in edits
    && ResolveAlias(root, a, Fold(newName), ctes).Bound?
  }

  /** No edited qualifier denotes a table alias. */
  ghost predicate HeadsUnbound(root: Node, ctes: seq<Ctes.CteSite>, edits: set<Range>) {
    forall a | Qualifier(root, a).Some? && Qualifier(root, a).value.range in edits :: !Denotes(root, ctes, a).Bound?
  }

  function EditEvent(e: Event, edits: set<Range>, newName: string): Event {
    if e.Referred? then e.(member := EditOptional(e.member, edits, newName)) else e
  }

  function EditEvents(log: seq<Event>, edits: set<Range>, newName: string): seq<Event> {
    seq(|log|, i requires 0 <= i < |log| => EditEvent(log[i], edits, newName))
  }

  lemma EditEventsConcat(x: seq<Event>, y: seq<Event>, edits: set<Range>, newName: string)
    ensures EditEvents(x + y, edits, newName) == EditEvents(x, edits, newName) + EditEvents(y, edits, newName)
  {}

  lemma EditMemberOf(root: Node, a: Address, edits: set<Range>, newName: string)
    requires NodeAt(root, a).Some?
    ensures NodeAt(Edit(root, edits, newName), a).Some?
    ensures MemberOf(NodeAt(Edit(root, edits, newName), a).value) ==
            EditOptional(MemberOf(NodeAt(root, a).value), edits, newName)
  {
    EditNodeAt(root, a, edits, newName);
    var n := NodeAt(root, a).value;
    assert Edit(n, edits, newName).kind == EditKind(n.kind, edits, newName);
    hide Edit, NodeAt;
  }

  lemma OwnMembersAfter(root: Node, ctes: seq<Ctes.CteSite>, ctes': seq<Ctes.CteSite>, a: Address, edits: set<Range>,
                        newName: string)
    requires Uses.SparesTables(root, ctes, edits) && HeadsUnbound(root, ctes, edits) &&
             !Moves(root, ctes, edits, newName, a)
    ensures Keep(OwnEvents(Edit(root, edits, newName), a, ctes'), Members) ==
            EditEvents(Keep(OwnEvents(root, a, ctes), Members), edits, newName)
  {
    var root' := Edit(root, edits, newName);
    OwnMembers(root, ctes, a);
    OwnMembers(root', ctes', a);
    EditQualifier(root, a, edits, newName);
    hide OwnEvents, Keep, Edit, Qualifier, Uses.SparesTables, MemberOf, NodeAt, ResolveAlias;
    if Qualifier(root, a).Some? {
      Uses.EditedDenotes(root, ctes, ctes', a, edits, newName);
      QualifiedNode(root, a);
      EditMemberOf(root, a, edits, newName);
    }
  }

  lemma QualifiedNode(root: Node, a: Address)
    requires Qualifier(root, a).Some?
    ensures NodeAt(root, a).Some?
  {}

  lemma {:induction false} RecordMembersAfter(root: Node, places: seq<Address>, ctes: seq<Ctes.CteSite>,
                                              ctes': seq<Ctes.CteSite>, edits: set<Range>, newName: string)
    requires Uses.SparesTables(root, ctes, edits) && HeadsUnbound(root, ctes, edits)
    requires forall a :: !Moves(root, ctes, edits, newName, a)
    ensures Keep(Record(Edit(root, edits, newName), places, ctes'), Members) ==
            EditEvents(Keep(Record(root, places, ctes), Members), edits, newName)
  {
    hide OwnEvents, Edit, Keep, Uses.SparesTables, HeadsUnbound, Moves;
    if places != [] {
      var root' := Edit(root, edits, newName);
      var own, rest := OwnEvents(root, places[0], ctes), Record(root, places[1..], ctes);
      RecordMembersAfter(root, places[1..], ctes, ctes', edits, newName);
      KeepConcat(own, rest, Members);
      KeepConcat(OwnEvents(root', places[0], ctes'), Record(root', places[1..], ctes'), Members);
      OwnMembersAfter(root, ctes, ctes', places[0], edits, newName);
      EditEventsConcat(Keep(own, Members), Keep(rest, Members), edits, newName);
    } else {
      NothingKept();
    }
  }

  lemma NothingKept()
    ensures Keep([], Members) == []
  {}

  // ----- Member sites -----

  function EditSite(site: MemberSite, edits: set<Range>, newName: string): MemberSite {
    if site.range in edits then site.(name := newName) else site
  }

  lemma SitesAfter(x: seq<MemberSite>, y: seq<MemberSite>, decls: seq<Event>, decls': seq<Event>, entries: seq<Event>,
                   edits: set<Range>, newName: string)
    requires InOrder(decls) && AllDeclared(decls') && |decls'| == |decls|
    requires forall c :: 0 <= c < |decls| ==> decls'[c].decl == decls[c].decl
    requires MembersAre(x, decls, entries) && MembersAre(y, decls', EditEvents(entries, edits, newName))
    ensures |y| == |x| && forall i :: 0 <= i < |x| ==> y[i] == EditSite(x[i], edits, newName)
  {
    forall i | 0 <= i < |entries| ensures y[i] == EditSite(x[i], edits, newName) {
      assert MemberIs(x[i], decls, entries[i]) && MemberIs(y[i], decls', EditEvent(entries[i], edits, newName));
      assert decls[x[i].binding].decl == decls[y[i].binding].decl;
    }
  }

  /** The members extracted again are the members before, edited. */
  lemma MembersAfter(tables: AliasIndex, tables': AliasIndex, root: Node, ctes: seq<Ctes.CteSite>,
                     ctes': seq<Ctes.CteSite>, edits: set<Range>, newName: string, site: MemberSite)
    requires IsIndexOf(tables, root, ctes) && IsIndexOf(tables', Edit(root, edits, newName), ctes')
    requires Uses.SparesTables(root, ctes, edits) && HeadsUnbound(root, ctes, edits)
    requires forall a :: !Moves(root, ctes, edits, newName, a)
    ensures |tables'.memberSites| == |tables.memberSites|
    ensures site in tables'.memberSites <==>
            exists m: nat :: m < |tables.memberSites| && site == EditSite(tables.memberSites[m], edits, newName)
  {
    hide IsIndexOf, Edit, Keep, MembersAre, Record, Preorder, Uses.SparesTables, HeadsUnbound, Moves, EditSite;
    var root' := Edit(root, edits, newName);
    var members := IndexMembers(tables, root, ctes);
    var members' := IndexMembers(tables', root', ctes');
    EditedDocumentDecls(root, ctes, ctes', edits, newName);
    DeclsInOrder(root, ctes);
    EditPreorder(root, [], edits, newName);
    RecordMembersAfter(root, Preorder(root, []), ctes, ctes', edits, newName);
    SitesAfter(members, members', Decls(root, ctes), Decls(root', ctes'), Keep(Expected(root, ctes), Members), edits,
        newName);
    PermutationMembers(tables.memberSites, members);
    PermutationMembers(tables'.memberSites, members');
    SameSize(tables.memberSites, members);
    SameSize(tables'.memberSites, members');
    hide Decls, Expected, EditEvents;
    if site in tables'.memberSites {
      var i :| 0 <= i < |members'| && members'[i] == site;
      assert members[i] in tables.memberSites;
      var m :| 0 <= m < |tables.memberSites| && tables.memberSites[m] == members[i];
    }
    if m: nat :| m < |tables.memberSites| && site == EditSite(tables.memberSites[m], edits, newName) {
      assert tables.memberSites[m] in members;
      var i :| 0 <= i < |members| && members[i] == tables.memberSites[m];
      assert members'[i] in members';
    }
  }

  lemma SameSize<T>(x: seq<T>, y: seq<T>)
    requires multiset(x) == multiset(y)
    ensures |x| == |y|
  {
    assert |multiset(x)| == |x| && |multiset(y)| == |y|;
  }
}
