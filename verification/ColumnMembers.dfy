/** Qualified members and the references of SELECT aliases, by their places in the tree. */
module ColumnMembers {
  import opened Coordinates
  import opened Syntax
  import opened Sorting
  import opened Texts
  import opened SelectWalk
  import opened SelectIndexes
  import opened ColumnSources
  import opened ColumnNames
  import opened QueryShapes
  import Selects = SelectAliases
  import Uses = SelectAliasRename
  import Documents = SelectAliasDocument
  import Joints = SelectAliasReindex
  import TextNames
  import Ctes = CteBindings
  import Tables = AliasBindings
  import Aliases = AliasRename
  import Flags = AliasReindexFlags
  import Columns = ColumnBindings
  import Rename = ColumnRename

  // ----- Members -----

  /** The site is the member of the path at `a`, whose qualifier is bound. */
  ghost predicate MemberStandsAt(root: Node, ctes: seq<Ctes.CteSite>, site: Tables.MemberSite, a: Address) {
    && NodeAt(root, a).Some? && Tables.MemberOf(NodeAt(root, a).value) == Some(Ident(site.name, site.range))
    && site.binding < |Tables.Decls(root, ctes)|
    && Aliases.Denotes(root, ctes, a) == Tables.Bound(Tables.Decls(root, ctes)[site.binding].decl)
  }

  lemma MemberStands(root: Node, ctes: seq<Ctes.CteSite>, tables: Tables.AliasIndex, m: nat) returns (a: Address)
    requires Tables.IsIndexOf(tables, root, ctes) && m < |tables.memberSites|
    ensures MemberStandsAt(root, ctes, tables.memberSites[m], a)
  {
    var members := Flags.IndexMembers(tables, root, ctes);
    PermutationMembers(tables.memberSites, members);
    assert tables.memberSites[m] in members;
    var i :| 0 <= i < |members| && members[i] == tables.memberSites[m];
    var e := Tables.Keep(Tables.Expected(root, ctes), Tables.Members)[i];
    a := EntryStands(root, ctes, members[i], e);
  }

  lemma EntryStands(root: Node, ctes: seq<Ctes.CteSite>, site: Tables.MemberSite, e: Tables.Event) returns (a: Address)
    requires Tables.MemberIs(site, Tables.Decls(root, ctes), e) &&
             e in Tables.Keep(Tables.Expected(root, ctes), Tables.Members)
    ensures a == e.at && MemberStandsAt(root, ctes, site, a)
  {
    a := e.at;
    Tables.KeepMembers(Tables.Expected(root, ctes), Tables.Members, e);
    Tables.RecordIsLexical(root, ctes, e);
    QualifierExists(root, a);
    hide Tables.Expected, Tables.Keep, Tables.Decls, Tables.Qualifier, Tables.ResolveAlias, NodeAt;
  }

  lemma QualifierExists(root: Node, a: Address)
    ensures Tables.Qualifier(root, a).Some? ==> NodeAt(root, a).Some?
  {}

  /** A bound path with a member is recorded. */
  lemma MemberIsRecorded(root: Node, ctes: seq<Ctes.CteSite>, tables: Tables.AliasIndex, a: Address) returns (m: nat)
    requires Tables.IsIndexOf(tables, root, ctes) && Aliases.Denotes(root, ctes, a).Bound? && NodeAt(root, a).Some?
    requires Tables.MemberOf(NodeAt(root, a).value).Some?
    ensures m < |tables.memberSites| && MemberStandsAt(root, ctes, tables.memberSites[m], a)
  {
    hide Tables.Expected, Tables.Keep, Tables.Decls, Tables.IsIndexOf, MemberStandsAt, Tables.Qualifier;
    var members := Flags.IndexMembers(tables, root, ctes);
    PermutationMembers(tables.memberSites, members);
    var entries := Tables.Keep(Tables.Expected(root, ctes), Tables.Members);
    var e := MemberEvent(root, ctes, a);
    var i :| 0 <= i < |entries| && entries[i] == e;
    assert Tables.MemberIs(members[i], Tables.Decls(root, ctes), e);
    var b := EntryStands(root, ctes, members[i], e);
    assert members[i] in tables.memberSites;
    m :| 0 <= m < |tables.memberSites| && tables.memberSites[m] == members[i];
  }

  lemma MemberEvent(root: Node, ctes: seq<Ctes.CteSite>, a: Address) returns (e: Tables.Event)
    requires Aliases.Denotes(root, ctes, a).Bound? && NodeAt(root, a).Some? &&
             Tables.MemberOf(NodeAt(root, a).value).Some?
    ensures e.Referred? && e in Tables.Keep(Tables.Expected(root, ctes), Tables.Members) && e.at == a
  {
    e := Tables.Referred(a, Aliases.Denotes(root, ctes, a).decl, Tables.Qualifier(root, a).value.range,
                         Tables.MemberOf(NodeAt(root, a).value));
    Tables.RecordIsLexical(root, ctes, e);
    Tables.KeepMembers(Tables.Expected(root, ctes), Tables.Members, e);
    hide Tables.Expected, Tables.Keep, Tables.Qualifier, Tables.ResolveAlias;
  }

  /** The member is the second name of a path. */
  lemma MemberIdent(root: Node, ctes: seq<Ctes.CteSite>, site: Tables.MemberSite, a: Address)
    requires MemberStandsAt(root, ctes, site, a)
    ensures IdentAt(root, Slot(a, Part(1))) == Some(Ident(site.name, site.range))
  {
    hide Tables.Decls, Aliases.Denotes;
  }

  /** Members of one range are one member. */
  lemma MemberPlacesApart(root: Node, ctes: seq<Ctes.CteSite>, x: Tables.MemberSite, a: Address, y: Tables.MemberSite,
                          b: Address)
    requires OneText(root) && MemberStandsAt(root, ctes, x, a) && MemberStandsAt(root, ctes, y, b) && x.range == y.range
    ensures a == b && x == y
  {
    MemberIdent(root, ctes, x, a);
    MemberIdent(root, ctes, y, b);
    SameRange(root, Slot(a, Part(1)), Slot(b, Part(1)));
    Documents.HeadsApart(root, Slot(a, Part(1)), Slot(b, Part(1)));
    Tables.DeclsInOrder(root, ctes);
    hide Tables.Decls, Aliases.Denotes, NodeAt;
  }

  // ----- Each member once -----

  lemma {:induction false} DistinctCount<T(!new)>(s: seq<T>, x: T)
    requires Distinct(s)
    ensures multiset(s)[x] <= 1
  {
    if s != [] {
      var init, last := s[..|s| - 1], s[|s| - 1];
      DistinctCount(init, x);
      assert s == init + [last];
      if x == last { assert x !in init; }
    }
  }

  lemma DistinctPermutation<T(!new)>(s: seq<T>, t: seq<T>)
    requires Distinct(t) && multiset(s) == multiset(t)
    ensures Distinct(s)
  {
    forall i, j | 0 <= i < j < |s| ensures s[i] != s[j] {
      if s[i] == s[j] { TwiceCounted(s, i, j); }
      DistinctCount(t, s[i]);
    }
  }

  lemma TwiceCounted<T>(s: seq<T>, i: nat, j: nat)
    requires i < j < |s| && s[i] == s[j]
    ensures multiset(s)[s[i]] >= 2
  {
    assert s == s[..j] + [s[j]] + s[j + 1..];
    assert s[i] == s[..j][i] && s[i] in multiset(s[..j]);
  }

  /** The events of members, place by place. */
  lemma {:induction false} MemberEventsDistinct(root: Node, places: seq<Address>, ctes: seq<Ctes.CteSite>)
    requires Distinct(places)
    ensures Distinct(Tables.Keep(Tables.Record(root, places, ctes), Tables.Members))
    ensures forall e :: e in Tables.Keep(Tables.Record(root, places, ctes), Tables.Members) ==>
            e.Referred? && e.at in places
  {
    hide Tables.OwnEvents, Tables.Keep;
    if places != [] {
      var own, rest := Tables.OwnEvents(root, places[0], ctes), Tables.Record(root, places[1..], ctes);
      MemberEventsDistinct(root, places[1..], ctes);
      Tables.KeepConcat(own, rest, Tables.Members);
      Flags.OwnMembers(root, ctes, places[0]);
      DistinctAppend(Tables.Keep(own, Tables.Members), Tables.Keep(rest, Tables.Members));
    } else {
      NoEvents();
    }
  }

  lemma NoEvents()
    ensures Tables.Keep([], Tables.Members) == []
  {}

  /** No two member sites have one range. */
  lemma MembersDistinct(root: Node, ctes: seq<Ctes.CteSite>, tables: Tables.AliasIndex)
    requires OneText(root) && Tables.IsIndexOf(tables, root, ctes)
    ensures forall m, n :: 0 <= m < n < |tables.memberSites| ==>
            tables.memberSites[m].range != tables.memberSites[n].range
  {
    var members := Flags.IndexMembers(tables, root, ctes);
    PreorderIsWhole(root);
    MemberEventsDistinct(root, Preorder(root, []), ctes);
    var entries := Tables.Keep(Tables.Expected(root, ctes), Tables.Members);
    assert Distinct(entries);
    hide Tables.IsIndexOf, OneText, Tables.Keep, Tables.Expected, Tables.Decls, MemberStandsAt, Tables.Record;
    forall i, j | 0 <= i < j < |members| ensures members[i] != members[j] {
      assert Tables.MemberIs(members[i], Tables.Decls(root, ctes), entries[i]);
      assert Tables.MemberIs(members[j], Tables.Decls(root, ctes), entries[j]);
      var a := EntryStands(root, ctes, members[i], entries[i]);
      var b := EntryStands(root, ctes, members[j], entries[j]);
      if members[i] == members[j] {
        MemberPlacesApart(root, ctes, members[i], a, members[j], b);
        SameEvent(root, ctes, entries[i], entries[j], members[i]);
      }
    }
    DistinctPermutation(tables.memberSites, members);
    forall m, n | 0 <= m < n < |tables.memberSites| ensures tables.memberSites[m].range != tables.memberSites[n].range {
      var a := MemberStands(root, ctes, tables, m);
      var b := MemberStands(root, ctes, tables, n);
      if tables.memberSites[m].range == tables.memberSites[n].range {
        MemberPlacesApart(root, ctes, tables.memberSites[m], a, tables.memberSites[n], b);
      }
    }
  }

  /** A place has one member event. */
  lemma SameEvent(root: Node, ctes: seq<Ctes.CteSite>, e: Tables.Event, f: Tables.Event, site: Tables.MemberSite)
    requires e in Tables.Keep(Tables.Expected(root, ctes), Tables.Members) &&
             f in Tables.Keep(Tables.Expected(root, ctes), Tables.Members)
    requires Tables.MemberIs(site, Tables.Decls(root, ctes), e) && Tables.MemberIs(site, Tables.Decls(root, ctes), f)
    requires e.at == f.at
    ensures e == f
  {
    Tables.KeepMembers(Tables.Expected(root, ctes), Tables.Members, e);
    Tables.KeepMembers(Tables.Expected(root, ctes), Tables.Members, f);
    Tables.RecordIsLexical(root, ctes, e);
    Tables.RecordIsLexical(root, ctes, f);
    hide Tables.Expected, Tables.Keep, Tables.Decls, Tables.Qualifier, Tables.ResolveAlias;
  }

  // ----- References of SELECT aliases -----

  /** The range is the first name of a use in a clause, and the use is no path of a table alias. */
  ghost predicate ReferenceStands(root: Node, ctes: seq<Ctes.CteSite>, r: Range, e: Indexed, k: nat) {
    && IsEntry(root, e) && k < |UsesAt(root, e)| && k < |PlacesAt(root, e)|
    && Uses.Head(UsesAt(root, e)[k]).Some? && r == Uses.Head(UsesAt(root, e)[k]).value.range
    && !Uses.HeadedByTable(root, ctes, UsesAt(root, e)[k], PlacesAt(root, e)[k])
  }

  lemma {:induction false} JointBinding(parts: seq<Selects.SelectIndex>, f: nat, i: nat)
    requires f < |parts| && i < |parts[f].bindings|
    ensures Joints.Offset(parts, f) + i < |Joint(parts).bindings|
    ensures Joint(parts).bindings[Joints.Offset(parts, f) + i] == parts[f].bindings[i]
  {
    Joints.JoinSame(parts, parts, f, i, "");
  }

  /** The use refers to one alias of its SELECT, declared at that range. */
  ghost predicate RefersTo(root: Node, e: Indexed, k: nat, i: nat, declaration: Range) {
    && i < |AliasesAt(root, e)| && AliasesAt(root, e)[i].ident.range == declaration
    && k < |UsesAt(root, e)| && Uses.Head(UsesAt(root, e)[k]).Some?
    && Selects.Unique(AliasesAt(root, e), Fold(Uses.Head(UsesAt(root, e)[k]).value.name), i)
  }

  lemma SelectReferenceStands(root: Node, ctes: seq<Ctes.CteSite>, tables: Tables.AliasIndex,
                              selects: Selects.SelectIndex, j: nat, r: Range) returns (e: Indexed, k: nat, i: nat)
    requires Parsed(root) && Tables.IsIndexOf(tables, root, ctes) && IsJointIndex(selects, root, tables.sites)
    requires j < |selects.bindings| && r in selects.bindings[j].referenceRanges
    ensures e in Entries(root) && ReferenceStands(root, ctes, r, e, k)
    ensures RefersTo(root, e, k, i, selects.bindings[j].declarationRange)
  {
    hide Tables.IsIndexOf, PartIs, Joint, Entries, Joints.Offset, RefersTo, ReferenceStands;
    var parts :| PartsAre(parts, root, Entries(root), tables.sites) && selects == Joint(parts);
    var f, n := Joints.PartOf(parts, j);
    JointBinding(parts, f, n);
    e := Entries(root)[f];
    i := n;
    EntriesAre(root, e);
    k := PartReference(root, ctes, tables, e, parts[f], i, r);
  }

  lemma PartReference(root: Node, ctes: seq<Ctes.CteSite>, tables: Tables.AliasIndex, e: Indexed,
                      part: Selects.SelectIndex, i: nat, r: Range) returns (k: nat)
    requires OneText(root) && Documents.LongPaths(UsesAt(root, e)) && IsEntry(root, e)
    requires Tables.IsIndexOf(tables, root, ctes) && PartIs(part, root, e, tables.sites)
    requires i < |part.bindings| && r in part.bindings[i].referenceRanges
    ensures ReferenceStands(root, ctes, r, e, k) && RefersTo(root, e, k, i, part.bindings[i].declarationRange)
  {
    var aliases, uses := AliasesAt(root, e), UsesAt(root, e);
    var log := Selects.AllEvents(aliases, tables.sites, uses);
    assert Selects.BindingIs(part.bindings[i], aliases, i, log);
    hide AliasesAt, UsesAt, PlacesAt, Tables.IsIndexOf, Selects.AllEvents, Selects.EventsOf, Uses.Alone, IsEntry,
      OneText,
      Selects.ReferencesTo, Selects.Duplicate, Selects.Unique, Fold;
    Uses.ReferenceMembers(log, i, r);
    Uses.EventsMembers(aliases, tables.sites, uses, Selects.Refers(i, r));
    k :| 0 <= k < |uses| && Selects.Refers(i, r) in Selects.EventsOf(aliases, tables.sites, uses[k]);
    Uses.ReferenceIsHead(aliases, tables.sites, uses[k], i, r);
    Documents.UseIsAlone(root, ctes, e, k);
    Uses.OwnedIff(tables, root, ctes, uses[k], PlacesAt(root, e)[k]);
  }

  /** Where such a reference stands. */
  lemma ReferenceSlot(root: Node, ctes: seq<Ctes.CteSite>, r: Range, e: Indexed, k: nat)
    requires ReferenceStands(root, ctes, r, e, k)
    ensures var s := Documents.HeadSlot(UsesAt(root, e)[k], PlacesAt(root, e)[k]);
            IdentAt(root, s).Some? && IdentAt(root, s).value.range == r && (s.role.Single? || s.role == Part(0))
  {
    UsesOfEntry(root, e);
    hide UsesAt, PlacesAt, ClausePlaces, IdentAt, IsEntry;
    Documents.HeadStands(root, UsesAt(root, e)[k], PlacesAt(root, e)[k]);
  }
}
