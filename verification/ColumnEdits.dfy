/** The edits of a column rename, by the places they stand at: what they may touch, and
    what they leave to the binders. */
module ColumnEdits {
  import opened Coordinates
  import opened Syntax
  import opened Editing
  import opened QueryShapes
  import opened Texts
  import opened SelectWalk
  import opened SelectIndexes
  import opened FromSlots
  import opened SparedBinders
  import opened ColumnSources
  import opened ColumnNames
  import opened ColumnMembers
  import Selects = SelectAliases
  import Uses = SelectAliasRename
  import Documents = SelectAliasDocument
  import Joints = SelectAliasReindex
  import TextNames
  import Ctes = CteBindings
  import Tables = AliasBindings
  import Aliases = AliasRename
  import Columns = ColumnBindings
  import Rename = ColumnRename
  import TableRename

  // ----- Ranges apart -----

  /** An explicit item is nobody else's name. */
  lemma ExplicitApart(root: Node, a: Address, column: Column, t: Slot)
    requires OneText(root) && ItemStandsAt(root, column, a) && column.explicit && IdentAt(root, t).Some? &&
             !t.role.Result?
    ensures IdentAt(root, t).value.range != column.declarationRange
  {
    ItemIdentAt(root, a, column);
    if IdentAt(root, t).value.range == column.declarationRange { SameRange(root, Slot(a, Result), t); }
  }

  lemma ItemIdentAt(root: Node, a: Address, column: Column)
    requires ItemStandsAt(root, column, a)
    ensures IdentAt(root, Slot(a, Result)) == Some(Ident(column.name, column.declarationRange))
  {}

  /** An item of the range of a member is that member. */
  lemma ItemIsMember(root: Node, ctes: seq<Ctes.CteSite>, a: Address, column: Column, site: Tables.MemberSite,
                     b: Address)
    requires OneText(root) && ItemStandsAt(root, column, a) && MemberStandsAt(root, ctes, site, b)
    requires column.declarationRange == site.range
    ensures column.name == site.name
  {
    ItemIdentAt(root, a, column);
    MemberIdent(root, ctes, site, b);
    SameRange(root, Slot(a, Result), Slot(b, Part(1)));
  }

  /** An item is no reference of a SELECT alias. */
  lemma ItemIsNoReference(root: Node, ctes: seq<Ctes.CteSite>, a: Address, column: Column, r: Range, e: Indexed, k: nat)
    requires OneText(root) && ItemStandsAt(root, column, a) && ReferenceStands(root, ctes, r, e, k)
    ensures column.declarationRange != r
  {
    ItemIdentAt(root, a, column);
    ReferenceSlot(root, ctes, r, e, k);
    hide UsesAt, PlacesAt, ClausePlaces, InClause, OneText, NoQuery, IdentAt, Uses.HeadedByTable;
    var s := Documents.HeadSlot(UsesAt(root, e)[k], PlacesAt(root, e)[k]);
    UsesOfEntry(root, e);
    assert PlacesAt(root, e)[k] in PlacesAt(root, e);
    var c :| c in ClausePlaces(root, e) && InClause(root, c, s.at);
    hide IsEntry;
    Documents.ItemNotAbove(root, a, c, s.at);
    if column.declarationRange == r { SameRange(root, Slot(a, Result), s); }
  }

  /** A member is no reference of a SELECT alias. */
  lemma MemberIsNoReference(root: Node, ctes: seq<Ctes.CteSite>, site: Tables.MemberSite, b: Address, r: Range,
                            e: Indexed, k: nat)
    requires OneText(root) && MemberStandsAt(root, ctes, site, b) && ReferenceStands(root, ctes, r, e, k)
    ensures site.range != r
  {
    MemberIdent(root, ctes, site, b);
    ReferenceSlot(root, ctes, r, e, k);
    var s := Documents.HeadSlot(UsesAt(root, e)[k], PlacesAt(root, e)[k]);
    if site.range == r {
      SameRange(root, Slot(b, Part(1)), s);
      Documents.HeadsApart(root, Slot(b, Part(1)), s);
    }
  }

  /** The ranges of a document extracted from one text stand apart. */
  lemma DocumentApart(statements: seq<Node>, x: Indexes, p: Columns.Place)
    requires FromBinders(statements, x) && Parsed(Ctes.Document(statements))
    requires var s := SourcesOf(Ctes.Document(statements), x);
             Rename.ItemAt(s, p).Some? && Rename.ItemAt(s, p).value.explicit
    ensures Rename.RangesApart(DocumentOf(Ctes.Document(statements), x),
              SourcesOf(Ctes.Document(statements), x), p)
  {
    var root := Ctes.Document(statements);
    var d, s := DocumentOf(root, x), SourcesOf(root, x);
    DocumentMembersApart(statements, x);
    hide SourcesOf, Columns.MembersApart, ItemPlace, ItemStandsAt, QueryPlace, OneText, Joints.ParsedClauses, CteQuery,
      AliasOf,
      Tables.IsIndexOf, Ctes.IsIndexOf, IsJointIndex, MemberStandsAt, ReferenceStands, ItemColumns;
    forall q, r | Rename.ItemAt(s, q).Some? && Rename.ItemAt(s, r).Some? &&
        Rename.ItemAt(s, q).value.declarationRange == Rename.ItemAt(s, r).value.declarationRange
      ensures q == r
    {
      ItemsOneRange(statements, x, q, r);
    }
    forall q, m: nat | Rename.ItemAt(s, q).Some? && m < |d.members|
      ensures Rename.ItemAt(s, q).value.declarationRange == d.members[m].range ==>
              Rename.ItemAt(s, q).value.name == d.members[m].name
      ensures q == p ==> Rename.ItemAt(s, q).value.declarationRange != d.members[m].range
    {
      ItemStands(statements, x, q);
      var b := MemberStands(root, x.ctes.sites, x.tables, m);
      if Rename.ItemAt(s, q).value.declarationRange == d.members[m].range {
        ItemIsMember(root, x.ctes.sites, ItemPlace(statements, x, q), Rename.ItemAt(s, q).value,
            x.tables.memberSites[m], b);
      }
      if q == p {
        MemberIdent(root, x.ctes.sites, x.tables.memberSites[m], b);
        ExplicitApart(root, ItemPlace(statements, x, q), Rename.ItemAt(s, q).value, Slot(b, Part(1)));
      }
    }
    forall q, a: nat | Rename.ItemAt(s, q).Some? && a < |d.selectAliases|
      ensures Rename.ItemAt(s, q).value.declarationRange !in d.selectAliases[a].referenceRanges
    {
      var r := Rename.ItemAt(s, q).value.declarationRange;
      ItemStands(statements, x, q);
      if r in x.selects.bindings[a].referenceRanges {
        var e, k, i := SelectReferenceStands(root, x.ctes.sites, x.tables, x.selects, a, r);
        ItemIsNoReference(root, x.ctes.sites, ItemPlace(statements, x, q), Rename.ItemAt(s, q).value, r, e, k);
      }
    }
  }

  lemma ItemsOneRange(statements: seq<Node>, x: Indexes, q: Columns.Place, r: Columns.Place)
    requires Ctes.IsIndexOf(x.ctes, statements) && Tables.IsIndexOf(x.tables, Ctes.Document(statements), x.ctes.sites)
    requires OneText(Ctes.Document(statements))
    requires var s := SourcesOf(Ctes.Document(statements), x);
             Rename.ItemAt(s, q).Some? && Rename.ItemAt(s, r).Some? &&
             Rename.ItemAt(s, q).value.declarationRange == Rename.ItemAt(s, r).value.declarationRange
    ensures q == r
  {
    var root := Ctes.Document(statements);
    var a, b := ItemPlace(statements, x, q), ItemPlace(statements, x, r);
    ItemStands(statements, x, q);
    ItemStands(statements, x, r);
    hide SourcesOf, ItemPlace, ItemStandsAt, QueryPlace, OneText, Tables.IsIndexOf, Ctes.IsIndexOf, ItemColumns;
    ItemIdentAt(root, a, Rename.ItemAt(SourcesOf(root, x), q).value);
    ItemIdentAt(root, b, Rename.ItemAt(SourcesOf(root, x), r).value);
    SameRange(root, Slot(a, Result), Slot(b, Result));
    Documents.ItemsApart(root, Slot(a, Result), Slot(b, Result));
    ItemPlacesApart(statements, x, q, r);
  }

  /** Members have ranges of their own, and none is a reference of a SELECT alias. */
  lemma DocumentMembersApart(statements: seq<Node>, x: Indexes)
    requires FromBinders(statements, x) && Parsed(Ctes.Document(statements))
    ensures Columns.MembersApart(DocumentOf(Ctes.Document(statements), x))
  {
    var root := Ctes.Document(statements);
    var d := DocumentOf(root, x);
    MembersDistinct(root, x.ctes.sites, x.tables);
    hide OneText, Joints.ParsedClauses, CteQuery, AliasOf, Tables.IsIndexOf, Ctes.IsIndexOf, IsJointIndex,
      MemberStandsAt,
      ReferenceStands;
    forall m: nat, a: nat | m < |d.members| && a < |d.selectAliases|
      ensures d.members[m].range !in d.selectAliases[a].referenceRanges
    {
      var b := MemberStands(root, x.ctes.sites, x.tables, m);
      if d.members[m].range in x.selects.bindings[a].referenceRanges {
        var e, k, i := SelectReferenceStands(root, x.ctes.sites, x.tables, x.selects, a, d.members[m].range);
        MemberIsNoReference(root, x.ctes.sites, x.tables.memberSites[m], b, d.members[m].range, e, k);
      }
    }
  }

  // ----- Where the edits stand -----

  /** The references of the column inside its own query. */
  function Own(d: Columns.Document, b: Columns.ColumnBinding): seq<Range> {
    Columns.OwnReferences(d.selectAliases, b.declarationRange)
  }

  lemma {:induction false} OwnOrigin(selectAliases: seq<Columns.SelectAlias>, declaration: Range, r: Range)
    returns (j: nat)
    requires r in Columns.OwnReferences(selectAliases, declaration)
    ensures j < |selectAliases| && r in selectAliases[j].referenceRanges &&
            selectAliases[j].declarationRange == declaration
  {
    if selectAliases[0].declarationRange == declaration {
      j := 0;
    } else {
      j := OwnOrigin(selectAliases[1..], declaration, r);
      j := j + 1;
    }
  }

  /** The range is that of a member that claims the column. */
  ghost predicate EditsMember(d: Columns.Document, p: Columns.Place, r: Range) {
    exists m: nat :: m < |d.members| && d.members[m].range == r && Columns.ClaimedBy(d, m, p)
  }

  lemma EditRanges(b: Columns.ColumnBinding, r: Range)
    ensures r in Rename.EditsOf(b) <==> r == b.declarationRange || r in b.referenceRanges
  {}

  /** An edited range is the declaration, an own reference or a member. */
  lemma EditIs(d: Columns.Document, b: Columns.ColumnBinding, p: Columns.Place, r: Range)
    requires Columns.Stands(d, b, p)
    ensures r in Rename.EditsOf(b) <==>
            r == b.declarationRange || r in Own(d, b) || EditsMember(d, p, r)
  {
    var column := Columns.ColumnsOf(d, p.owner)[p.column];
    var ms :| Columns.ListsConsumers(d, p.owner, column.name, ms) && Columns.ReferencesAre(d, b, column, ms);
    EditRanges(b, r);
    hide Rename.EditsOf, Columns.Claims, Columns.Owns, Columns.OwnReferences;
    if r in Columns.RangesOf(d, ms) {
      var i :| 0 <= i < |ms| && Columns.RangesOf(d, ms)[i] == r;
      assert ms[i] in ms;
      assert d.members[ms[i]].range == r && Columns.ClaimedBy(d, ms[i], p);
    }
    if m: nat :| m < |d.members| && d.members[m].range == r && Columns.ClaimedBy(d, m, p) {
      assert m in ms;
      var i :| 0 <= i < |ms| && ms[i] == m;
      assert Columns.RangesOf(d, ms)[i] == r;
      assert r in b.referenceRanges;
    }
  }

  /** A place where an edit may stand: an item, a name alone, or the first two names of a
      path that is no FROM source. */
  ghost predicate EditSlot(root: Node, t: Slot) {
    (t.role.Result? && !Implicit(root, t)) || t.role.Single? ||
      ((t.role == Part(0) || t.role == Part(1)) && Tables.Qualifier(root, t.at).Some?)
  }

  ghost predicate EditsStand(root: Node, edits: set<Range>) {
    forall r :: r in edits ==> exists t ::
        EditSlot(root, t) && IdentAt(root, t).Some? && IdentAt(root, t).value.range == r
  }

  lemma ReferenceEditSlot(root: Node, ctes: seq<Ctes.CteSite>, r: Range, e: Indexed, k: nat)
    requires Parsed(root) && e in Entries(root) && ReferenceStands(root, ctes, r, e, k)
    ensures var t := Documents.HeadSlot(UsesAt(root, e)[k], PlacesAt(root, e)[k]);
            EditSlot(root, t) && IdentAt(root, t).Some? && IdentAt(root, t).value.range == r
  {
    ReferenceSlot(root, ctes, r, e, k);
    hide UsesAt, PlacesAt, IsEntry, IdentAt, OneText, Tables.Qualifier, Entries, Uses.DeclaredName;
    Documents.UseIsAlone(root, ctes, e, k);
    Uses.AloneStands(root, ctes, UsesAt(root, e)[k], PlacesAt(root, e)[k]);
  }

  /** What the rename of an explicit column is about. */
  ghost predicate Renames(statements: seq<Node>, x: Indexes, p: Columns.Place, b: Columns.ColumnBinding) {
    && FromBinders(statements, x) && Parsed(Ctes.Document(statements))
    && Columns.Stands(DocumentOf(Ctes.Document(statements), x), b, p) && b.explicit
  }

  lemma RenamedItem(statements: seq<Node>, x: Indexes, p: Columns.Place, b: Columns.ColumnBinding)
    requires Renames(statements, x, p, b)
    ensures var s := SourcesOf(Ctes.Document(statements), x);
            && Rename.ItemAt(s, p) == Some(Column(b.name, b.declarationRange, true))
            && ItemStandsAt(Ctes.Document(statements), Rename.ItemAt(s, p).value, ItemPlace(statements, x, p))
  {
    var root := Ctes.Document(statements);
    var d := DocumentOf(root, x);
    DocumentFromItems(root, x);
    Rename.OwnsIff(d, SourcesOf(root, x), p);
    hide DocumentOf, SourcesOf, Ctes.IsIndexOf, Tables.IsIndexOf, IsJointIndex, OneText, Columns.ListsConsumers,
      Rename.ItemAt;
    assert Rename.ItemAt(SourcesOf(root, x), p).Some?;
    ItemStands(statements, x, p);
  }

  /** The own references of the column, where they stand: uses of the alias of its item. */
  lemma OwnStands(statements: seq<Node>, x: Indexes, b: Columns.ColumnBinding,
                  r: Range) returns (e: Indexed, k: nat, i: nat)
    requires FromBinders(statements, x) && Parsed(Ctes.Document(statements))
    requires r in Own(DocumentOf(Ctes.Document(statements), x), b)
    ensures ReferenceStands(Ctes.Document(statements), x.ctes.sites, r, e, k) && e in Entries(Ctes.Document(statements))
    ensures RefersTo(Ctes.Document(statements), e, k, i, b.declarationRange)
  {
    var root := Ctes.Document(statements);
    hide OneText, Joints.ParsedClauses, CteQuery, AliasOf, Tables.IsIndexOf, Ctes.IsIndexOf, IsJointIndex,
      ReferenceStands, Entries,
      RefersTo;
    var j := OwnOrigin(DocumentOf(root, x).selectAliases, b.declarationRange, r);
    e, k, i := SelectReferenceStands(root, x.ctes.sites, x.tables, x.selects, j, r);
  }

  /** Every edit of the rename stands at such a place. */
  lemma RenameStands(statements: seq<Node>, x: Indexes, p: Columns.Place, b: Columns.ColumnBinding)
    requires Renames(statements, x, p, b)
    ensures EditsStand(Ctes.Document(statements), Rename.EditsOf(b))
  {
    var root := Ctes.Document(statements);
    var d := DocumentOf(root, x);
    hide OneText, Joints.ParsedClauses, CteQuery, AliasOf, Tables.IsIndexOf, Ctes.IsIndexOf, IsJointIndex,
      MemberStandsAt,
      ReferenceStands, RefersTo, ItemStandsAt, Columns.Stands, SourcesOf, Rename.EditsOf, Own, Entries, EditSlot,
        Columns.ClaimedBy,
      IdentAt;
    forall r | r in Rename.EditsOf(b)
      ensures exists t :: EditSlot(root, t) && IdentAt(root, t).Some? && IdentAt(root, t).value.range == r
    {
      EditIs(d, b, p, r);
      if r == b.declarationRange {
        RenamedItem(statements, x, p, b);
        ItemEditSlot(root, ItemPlace(statements, x, p), Rename.ItemAt(SourcesOf(root, x), p).value);
      } else if r in Own(d, b) {
        var e, k, i := OwnStands(statements, x, b, r);
        ReferenceEditSlot(root, x.ctes.sites, r, e, k);
      } else {
        var m: nat :| m < |d.members| && d.members[m].range == r && Columns.ClaimedBy(d, m, p);
        var a := MemberStands(root, x.ctes.sites, x.tables, m);
        MemberEditSlot(root, x.ctes.sites, x.tables.memberSites[m], a);
      }
    }
  }

  lemma ItemEditSlot(root: Node, a: Address, column: Column)
    requires ItemStandsAt(root, column, a) && column.explicit
    ensures var t := Slot(a, Result);
            EditSlot(root, t) && IdentAt(root, t).Some? && IdentAt(root, t).value.range == column.declarationRange
  {}

  lemma MemberEditSlot(root: Node, ctes: seq<Ctes.CteSite>, site: Tables.MemberSite, a: Address)
    requires MemberStandsAt(root, ctes, site, a)
    ensures var t := Slot(a, Part(1));
            EditSlot(root, t) && IdentAt(root, t).Some? && IdentAt(root, t).value.range == site.range
  {
    MemberIdent(root, ctes, site, a);
    hide Tables.Qualifier, Tables.Decls, IdentAt, Tables.ResolveAlias;
  }

  // ----- What the edits spare -----

  /** A name at none of those places, and shared with none, is not edited. */
  lemma NotEdited(root: Node, edits: set<Range>, s: Slot)
    requires OneText(root) && EditsStand(root, edits) && IdentAt(root, s).Some? && !s.role.Result? && !EditSlot(root, s)
    ensures IdentAt(root, s).value.range !in edits
  {
    hide OneText, IdentAt, Tables.Qualifier;
    if IdentAt(root, s).value.range in edits {
      var t :| EditSlot(root, t) && IdentAt(root, t).Some? &&
        IdentAt(root, t).value.range == IdentAt(root, s).value.range;
      SameRange(root, s, t);
    }
  }

  /** The name of a source that is a single name. */
  lemma ReferenceIdent(root: Node, a: Address)
    requires Ctes.ReferenceAt(root, a).Some?
    ensures var s := if NodeAt(root, a).value.kind.TableName? then Slot(a, Table) else Slot(a + [0], Part(0));
            IdentAt(root, s) == Ctes.ReferenceAt(root, a) && !EditSlot(root, s)
  {
    NodeAtChild(root, a, 0);
    hide Tables.SourcesAround;
  }

  lemma SparesTheCtes(root: Node, edits: set<Range>)
    requires OneText(root) && EditsStand(root, edits)
    ensures SparesCtes(root, edits) && Ctes.DistinctReferenceRanges(root)
  {
    hide OneText, EditsStand, IdentAt, EditSlot;
    forall a | NodeAt(root, a).Some? ensures TableRename.KeepsCteNames(NodeAt(root, a).value, edits) {
      SparesCteNames(root, a, edits);
    }
    forall a | Ctes.ReferenceAt(root, a).Some? ensures Ctes.ReferenceAt(root, a).value.range !in edits {
      ReferenceIdent(root, a);
      NotEdited(root, edits, if NodeAt(root, a).value.kind.TableName? then Slot(a, Table) else Slot(a + [0], Part(0)));
    }
    forall a, b | Ctes.ReferenceAt(root, a).Some? && Ctes.ReferenceAt(root, b).Some? &&
        Ctes.ReferenceAt(root, a).value.range == Ctes.ReferenceAt(root, b).value.range
      ensures a == b
    {
      ReferenceIdent(root, a);
      ReferenceIdent(root, b);
      assert (a + [0])[..|a|] == a && (b + [0])[..|b|] == b;
      SameRange(root, if NodeAt(root, a).value.kind.TableName? then Slot(a, Table) else Slot(a + [0], Part(0)),
        if NodeAt(root, b).value.kind.TableName? then Slot(b, Table) else Slot(b + [0], Part(0)));
    }
  }

  lemma SparesCteNames(root: Node, a: Address, edits: set<Range>)
    requires OneText(root) && EditsStand(root, edits) && NodeAt(root, a).Some?
    ensures TableRename.KeepsCteNames(NodeAt(root, a).value, edits)
  {
    hide OneText, EditsStand;
    var n := NodeAt(root, a).value;
    forall i: nat | i < Ctes.CteCount(n) ensures Kids(n)[i].kind.cteName.range !in edits {
      NodeAtChild(root, a, i);
      NotEdited(root, edits, Slot(a + [i], CteName));
    }
  }

  lemma SparesTheAliases(root: Node, ctes: seq<Ctes.CteSite>, edits: set<Range>)
    requires OneText(root) && EditsStand(root, edits)
    ensures SparesAliases(root, edits) && Uses.SparesTables(root, ctes, edits)
  {
    hide OneText, EditsStand, IdentAt, Uses.DeclaredName;
    forall s: Slot | (s.role.AsAlias? || s.role.Offset?) && IdentAt(root, s).Some?
      ensures IdentAt(root, s).value.range !in edits
    {
      NotEdited(root, edits, s);
    }
    forall p, j: nat, name | Uses.DeclaredName(root, ctes, p, j, name) ensures name.range !in edits {
      TextNames.DeclaredStands(root, ctes, p, j, name);
    }
  }

  lemma SparesTheSources(root: Node, edits: set<Range>)
    requires OneText(root) && EditsStand(root, edits)
    ensures SparesSources(root, edits)
  {
    hide OneText, EditsStand, Reached, IsSource, PathSpared;
    forall p, k: nat, r | IsSelect(root, p) && IsSource(root, p, k) && Reached(root, p + [k], r) &&
        NodeAt(root, r).Some?
      ensures PathSpared(NodeAt(root, r).value, Tables.SelectSourceRanges(NodeAt(root, p).value), edits)
    {
      SparesPath(root, p, k, r, edits);
    }
  }

  lemma SparesPath(root: Node, p: Address, k: nat, r: Address, edits: set<Range>)
    requires OneText(root) && EditsStand(root, edits)
    requires IsSelect(root, p) && Reached(root, p + [k], r) && NodeAt(root, r).Some?
    ensures PathSpared(NodeAt(root, r).value, Tables.SelectSourceRanges(NodeAt(root, p).value), edits)
  {
    var n := NodeAt(root, r).value;
    var sources := Tables.SelectSourceRanges(NodeAt(root, p).value);
    if n.kind.PathTable? && PathRange(Tables.SourcePath(n)) in sources {
      var path := Tables.SourcePath(n);
      NodeAtChild(root, r, 0);
      SourcesBelow(root, p, k, r);
      hide OneText, EditsStand, Tables.SourcesAround, Tables.SelectSourceRanges, Reached;
      forall i: nat | i < |path| ensures path[i].range !in edits {
        var s := Slot(r + [0], Part(i));
        assert IdentAt(root, s) == Some(path[i]);
        assert Tables.Qualifier(root, r + [0]).None?;
        NotEdited(root, edits, s);
      }
    }
  }

  /** Below a FROM source reached by tables, the sources are those of its SELECT. */
  lemma SourcesBelow(root: Node, p: Address, k: nat, r: Address)
    requires IsSelect(root, p) && Reached(root, p + [k], r) && NodeAt(root, r).Some? &&
             NodeAt(root, r).value.kind.PathTable?
    ensures Tables.SourcesAround(root, r + [0]) == Tables.SelectSourceRanges(NodeAt(root, p).value)
  {
    forall c | p < c <= r ensures !IsSelect(root, c) {
      if c != r { assert p + [k] <= c < r; }
    }
    assert p < r;
    NearestSources(root, p, r + [0]);
  }

  lemma {:induction false} NearestSources(root: Node, p: Address, a: Address)
    requires p < a && IsSelect(root, p) && forall c :: p < c < a ==> !IsSelect(root, c)
    ensures Tables.SourcesAround(root, a) == Tables.SelectSourceRanges(NodeAt(root, p).value)
    decreases |a|
  {
    var q := a[..|a| - 1];
    if q != p {
      assert p < q;
      assert !IsSelect(root, q);
      NearestSources(root, p, q);
    }
  }

  // ----- Edited qualifiers -----

  lemma QualifierSlot(root: Node, a: Address) returns (s: Slot)
    requires Tables.Qualifier(root, a).Some?
    ensures s.at == a && (s.role == Part(0) || s.role == Star) && IdentAt(root, s) == Tables.Qualifier(root, a)
    ensures s.role == Part(0) ==> NodeAt(root, a).Some? && NodeAt(root, a).value.kind.Path?
  {
    TextNames.QualifierStands(root, a);
    s := if IdentAt(root, Slot(a, Part(0))) == Tables.Qualifier(root, a) then Slot(a, Part(0)) else Slot(a, Star);
  }

  lemma DeclarationIsNoQualifier(statements: seq<Node>, x: Indexes, p: Columns.Place, b: Columns.ColumnBinding,
                                 a: Address)
    requires Renames(statements, x, p, b)
    requires Tables.Qualifier(Ctes.Document(statements), a).Some?
    ensures Tables.Qualifier(Ctes.Document(statements), a).value.range != b.declarationRange
  {
    var root := Ctes.Document(statements);
    RenamedItem(statements, x, p, b);
    hide Renames, OneText, Joints.ParsedClauses, SourcesOf, IdentAt, Tables.Qualifier, ItemStandsAt, ItemPlace, NodeAt,
      Rename.ItemAt,
      FromBinders;
    var s := QualifierSlot(root, a);
    assert Parsed(root) by { RenamesParsed(statements, x, p, b); }
    ExplicitApart(root, ItemPlace(statements, x, p), Rename.ItemAt(SourcesOf(root, x), p).value, s);
  }

  lemma RenamesParsed(statements: seq<Node>, x: Indexes, p: Columns.Place, b: Columns.ColumnBinding)
    requires Renames(statements, x, p, b)
    ensures Parsed(Ctes.Document(statements)) && FromBinders(statements, x)
    ensures Columns.Stands(DocumentOf(Ctes.Document(statements), x), b, p) && b.explicit
  {}

  lemma MemberIsNoQualifier(root: Node, ctes: seq<Ctes.CteSite>, tables: Tables.AliasIndex, m: nat, a: Address)
    requires OneText(root) && Tables.IsIndexOf(tables, root, ctes) && m < |tables.memberSites|
    requires Tables.Qualifier(root, a).Some?
    ensures Tables.Qualifier(root, a).value.range != tables.memberSites[m].range
  {
    hide OneText, Tables.IsIndexOf, MemberStandsAt, IdentAt, Tables.Qualifier, NodeAt;
    var s := QualifierSlot(root, a);
    var c := MemberStands(root, ctes, tables, m);
    MemberIdent(root, ctes, tables.memberSites[m], c);
    if Tables.Qualifier(root, a).value.range == tables.memberSites[m].range { SameRange(root, s, Slot(c, Part(1))); }
  }

  lemma OwnIsNoTable(statements: seq<Node>, x: Indexes, b: Columns.ColumnBinding, a: Address)
    requires FromBinders(statements, x) && Parsed(Ctes.Document(statements))
    requires Tables.Qualifier(Ctes.Document(statements), a).Some?
    requires Tables.Qualifier(Ctes.Document(statements), a).value.range in
               Own(DocumentOf(Ctes.Document(statements), x), b)
    ensures var root := Ctes.Document(statements);
            && !Aliases.Denotes(root, x.ctes.sites, a).Bound?
            && NodeAt(root, a).Some? && Tables.MemberOf(NodeAt(root, a).value).Some?
  {
    hide Joints.ParsedClauses, FromBinders, IdentAt, Tables.Qualifier, NodeAt, Own, Entries, ReferenceStands, OneText,
      Aliases.Denotes, DocumentOf;
    var root := Ctes.Document(statements);
    var s := QualifierSlot(root, a);
    var r := Tables.Qualifier(root, a).value.range;
    var e, k, i := OwnStands(statements, x, b, r);
    OwnQualifier(root, x.ctes.sites, a, s, r, e, k);
  }

  /** A qualifier is edited exactly when it is an own reference of the column; then it denotes no table alias. */
  lemma EditedQualifier(statements: seq<Node>, x: Indexes, p: Columns.Place, b: Columns.ColumnBinding, a: Address)
    requires Renames(statements, x, p, b)
    requires Tables.Qualifier(Ctes.Document(statements), a).Some?
    ensures var root := Ctes.Document(statements);
            var r := Tables.Qualifier(root, a).value.range;
            r in Rename.EditsOf(b) <==> r in Own(DocumentOf(root, x), b)
  {
    var root := Ctes.Document(statements);
    var d := DocumentOf(root, x);
    var r := Tables.Qualifier(root, a).value.range;
    DeclarationIsNoQualifier(statements, x, p, b, a);
    hide OneText, Joints.ParsedClauses, CteQuery, AliasOf, Tables.IsIndexOf, Ctes.IsIndexOf, IsJointIndex,
      Columns.Stands,
      Rename.EditsOf, Own, Columns.ClaimedBy, Tables.Qualifier, NodeAt;
    EditIs(d, b, p, r);
    if EditsMember(d, p, r) {
      var m: nat :| m < |d.members| && d.members[m].range == r && Columns.ClaimedBy(d, m, p);
      MemberIsNoQualifier(root, x.ctes.sites, x.tables, m, a);
    }
  }

  lemma OwnQualifier(root: Node, ctes: seq<Ctes.CteSite>, a: Address, s: Slot, r: Range, e: Indexed, k: nat)
    requires OneText(root) && ReferenceStands(root, ctes, r, e, k) && Tables.Qualifier(root, a).Some?
    requires s.at == a && (s.role == Part(0) || s.role == Star) && IdentAt(root, s) == Tables.Qualifier(root, a)
    requires Tables.Qualifier(root, a).value.range == r
    ensures !Aliases.Denotes(root, ctes, a).Bound? && NodeAt(root, a).Some? &&
            Tables.MemberOf(NodeAt(root, a).value).Some?
  {
    ReferenceSlot(root, ctes, r, e, k);
    UsesOfEntry(root, e);
    var t := Documents.HeadSlot(UsesAt(root, e)[k], PlacesAt(root, e)[k]);
    assert IsUse(root, UsesAt(root, e)[k], PlacesAt(root, e)[k]);
    hide UsesAt, PlacesAt, ClausePlaces, IsEntry, OneText, IdentAt, Aliases.Denotes;
    SameRange(root, s, t);
    assert s == t;
    assert NodeAt(root, a).value.kind == Path(UsesAt(root, e)[k].idents);
  }
}
