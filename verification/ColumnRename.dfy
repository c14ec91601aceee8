/** Renaming a column of a CTE or derived table: exactly when every qualified member
    of the edited document refers to the column it referred to before. */
module ColumnRename {
  import opened Coordinates
  import opened Syntax
  import opened WorkspaceScan
  import opened QueryShapes
  import opened ColumnBindings

  // ----- The test -----

  /** The test before the rename: another column of the same query has the new name. */
  method RenameConflicts(columns: seq<Column>, k: nat, newName: string) returns (conflict: bool)
    requires k < |columns| && ColumnsApart(columns)
    ensures conflict <==> !NameIsFree(columns, k, newName)
  {
    var scope: map<string, nat> := map[];
    for j := 0 to |columns|
      invariant forall key :: key in scope ==> scope[key] < j && Fold(columns[scope[key]].name) == key
      invariant forall i :: 0 <= i < j ==> Fold(columns[i].name) in scope && scope[Fold(columns[i].name)] == i
    {
      scope := scope[Fold(columns[j].name) := j];
    }
    conflict := Fold(newName) in scope && scope[Fold(newName)] != k;
  }

  ghost predicate NameIsFree(columns: seq<Column>, k: nat, newName: string) {
    forall j :: 0 <= j < |columns| && j != k ==> !EqualFold(columns[j].name, newName)
  }

  // ----- Shapes with the SELECT lists they come from -----

  /** The queries of the CTEs and of the derived tables, in the order of the bindings. */
  datatype Sources = Sources(ctes: seq<Items>, aliases: seq<Items>)

  /** Every shape of the document is extracted from its query. */
  ghost predicate FromItems(d: Document, s: Sources) {
    && |s.ctes| == |d.ctes| && |s.aliases| == |d.aliases|
    && (forall c :: 0 <= c < |d.ctes| ==> ShapeFrom(s.ctes[c], d.ctes[c].shape))
    && forall a :: 0 <= a < |d.aliases| ==> ShapeFrom(s.aliases[a], d.aliases[a].shape)
  }

  function ItemsOf(s: Sources, owner: Owner): Items {
    match owner
    case OfCte(c) => if c < |s.ctes| then s.ctes[c] else None
    case OfAlias(a) => if a < |s.aliases| then s.aliases[a] else None
  }

  function ItemAt(s: Sources, p: Place): Option<Column> {
    var items := ItemsOf(s, p.owner);
    if items.Some? && p.column < |items.value| then items.value[p.column] else None
  }

  /** What an owner must be besides having a known shape. */
  predicate Eligible(d: Document, owner: Owner) {
    match owner
    case OfCte(c) => c < |d.ctes|
    case OfAlias(a) =>
      a < |d.aliases| && !d.aliases[a].ambiguous && d.aliases[a].sourceCte.None? && d.aliases[a].sourceTableName == ""
  }

  /** The columns of a query are known when its items have names of their own. */
  ghost predicate Known(s: Sources, owner: Owner) {
    ItemsOf(s, owner).Some? && NamedApart(ItemsOf(s, owner).value)
  }

  lemma OwnsIff(d: Document, s: Sources, p: Place)
    requires FromItems(d, s)
    ensures Owns(d, p.owner) <==> Eligible(d, p.owner) && Known(s, p.owner)
    ensures Owns(d, p.owner) && p.column < |ColumnsOf(d, p.owner)| ==>
              ItemAt(s, p) == Some(ColumnsOf(d, p.owner)[p.column])
    ensures Owns(d, p.owner) ==> |ColumnsOf(d, p.owner)| == |ItemsOf(s, p.owner).value|
  {
    hide NamedApart;
  }

  /** A member claims a column exactly when it looks into the query, the columns are
      known, and the names agree. */
  lemma ClaimedIff(d: Document, s: Sources, m: nat, p: Place)
    requires FromItems(d, s) && m < |d.members|
    ensures ClaimedBy(d, m, p) <==>
            Eligible(d, p.owner) && Known(s, p.owner) && LooksInto(d, m, p.owner) &&
            ItemAt(s, p).Some? && EqualFold(d.members[m].name, ItemAt(s, p).value.name)
  {
    OwnsIff(d, s, p);
    hide Owns, FromItems, Known, Eligible, LooksInto;
  }

  // ----- The edits -----

  function EditColumn(c: Option<Column>, edits: set<Range>, newName: string): Option<Column> {
    if c.Some? && c.value.declarationRange in edits then Some(c.value.(name := newName)) else c
  }

  function EditItems(items: Items, edits: set<Range>, newName: string): Items {
    if items.None? then None
    else Some(seq(|items.value|, j requires 0 <= j < |items.value| => EditColumn(items.value[j], edits, newName)))
  }

  function EditMember(m: Member, edits: set<Range>, newName: string): Member {
    if m.range in edits then m.(name := newName) else m
  }

  function EditSources(s: Sources, edits: set<Range>, newName: string): Sources {
    Sources(seq(|s.ctes|, c requires 0 <= c < |s.ctes| => EditItems(s.ctes[c], edits, newName)),
            seq(|s.aliases|, a requires 0 <= a < |s.aliases| => EditItems(s.aliases[a], edits, newName)))
  }

  /** The document extracted again: the same aliases and sources, edited names, and the
      shapes that the edited queries have. SELECT aliases may be any. */
  ghost predicate IsEdited(d: Document, s: Sources, d': Document, edits: set<Range>, newName: string) {
    && |d'.ctes| == |d.ctes| && |d'.aliases| == |d.aliases| && |d'.members| == |d.members|
    && (forall a :: 0 <= a < |d.aliases| ==> d'.aliases[a] == d.aliases[a].(shape := d'.aliases[a].shape))
    && (forall m :: 0 <= m < |d.members| ==> d'.members[m] == EditMember(d.members[m], edits, newName))
    && FromItems(d', EditSources(s, edits, newName))
  }

  /** The edits of the handler: the declaration and the references of the binding. */
  function EditsOf(b: ColumnBinding): set<Range> {
    {b.declarationRange} + set i | 0 <= i < |b.referenceRanges| :: b.referenceRanges[i]
  }

  /** Names have ranges of their own, as in any parsed text. A column that stands at a
      member is that member, an item without an alias; the renamed one has an alias. */
  ghost predicate RangesApart(d: Document, s: Sources, p: Place) {
    && MembersApart(d)
    && (forall q, r | ItemAt(s, q).Some? && ItemAt(s, r).Some? ::
          ItemAt(s, q).value.declarationRange == ItemAt(s, r).value.declarationRange ==> q == r)
    && (forall q, m | ItemAt(s, q).Some? && 0 <= m < |d.members| ::
          ItemAt(s, q).value.declarationRange == d.members[m].range ==> ItemAt(s, q).value.name == d.members[m].name)
    && (forall m :: 0 <= m < |d.members| && ItemAt(s, p).Some? ==>
          d.members[m].range != ItemAt(s, p).value.declarationRange)
    && forall q, a :: ItemAt(s, q).Some? && 0 <= a < |d.selectAliases| ==>
         ItemAt(s, q).value.declarationRange !in d.selectAliases[a].referenceRanges
  }

  /** The item is a member that refers to the renamed column, without an alias of its own:
      the rename changes its column too. */
  ghost predicate Carries(d: Document, s: Sources, p: Place, q: Place) {
    exists m :: 0 <= m < |d.members| && ClaimedBy(d, m, p) && ItemAt(s, q).Some? &&
      ItemAt(s, q).value.declarationRange == d.members[m].range
  }

  /** The edits change the members that claim the column, the column, and the items that
      carry it, and no other name. */
  ghost predicate Exact(d: Document, s: Sources, p: Place, edits: set<Range>) {
    && (forall m :: 0 <= m < |d.members| ==> (d.members[m].range in edits <==> ClaimedBy(d, m, p)))
    && forall q: Place :: ItemAt(s, q).Some? ==>
         (ItemAt(s, q).value.declarationRange in edits <==> q == p || Carries(d, s, p, q))
  }

  lemma EditsAreExact(d: Document, s: Sources, p: Place, b: ColumnBinding)
    requires FromItems(d, s) && RangesApart(d, s, p) && Stands(d, b, p)
    ensures Exact(d, s, p, EditsOf(b))
  {
    var edits := EditsOf(b);
    OwnsIff(d, s, p);
    hide Owns, FromItems, ClaimedBy, OwnReferences, ItemAt, Stands;
    StandsDeclares(d, b, p);
    forall m | 0 <= m < |d.members| ensures d.members[m].range in edits <==> ClaimedBy(d, m, p) {
      ReferencesMember(d, b, p, m);
    }
    forall q: Place | ItemAt(s, q).Some?
      ensures ItemAt(s, q).value.declarationRange in edits <==> q == p || Carries(d, s, p, q)
    {
      var r := ItemAt(s, q).value.declarationRange;
      if r in b.referenceRanges {
        var m := ReferenceIsMember(d, b, p, r);
        ReferencesMember(d, b, p, m);
      }
    }
  }

  lemma StandsDeclares(d: Document, b: ColumnBinding, p: Place)
    requires Stands(d, b, p)
    ensures Owns(d, p.owner) && p.column < |ColumnsOf(d, p.owner)|
    ensures b.declarationRange == ColumnsOf(d, p.owner)[p.column].declarationRange
  {}

  /** A reference that is no use of a SELECT alias is a member. */
  lemma ReferenceIsMember(d: Document, b: ColumnBinding, p: Place, r: Range) returns (m: nat)
    requires Stands(d, b, p) && r in b.referenceRanges
    requires forall a :: 0 <= a < |d.selectAliases| ==> r !in d.selectAliases[a].referenceRanges
    ensures m < |d.members| && d.members[m].range == r
  {
    var column := ColumnsOf(d, p.owner)[p.column];
    var ms :| ListsConsumers(d, p.owner, column.name, ms) && ReferencesAre(d, b, column, ms);
    if r in OwnReferences(d.selectAliases, column.declarationRange) {
      OwnReferencesOrigin(d.selectAliases, column.declarationRange, r);
    }
    hide Claims, Owns, OwnReferences;
    var i :| 0 <= i < |ms| && RangesOf(d, ms)[i] == r;
    assert ms[i] in ms;
    m := ms[i];
  }

  // ----- What the rename does to the members -----

  /** After the rename a member claims the columns it claimed before. */
  ghost predicate Keeps(d: Document, d': Document, m: nat)
    requires m < |d.members| && m < |d'.members|
  {
    forall q: Place :: ClaimedBy(d', m, q) <==> ClaimedBy(d, m, q)
  }

  ghost predicate KeepsIn(d: Document, d': Document, m: nat, owner: Owner)
    requires m < |d.members| && m < |d'.members|
  {
    forall q: Place :: q.owner == owner ==> (ClaimedBy(d', m, q) <==> ClaimedBy(d, m, q))
  }

  lemma KeepsByQuery(d: Document, d': Document, m: nat)
    requires m < |d.members| && m < |d'.members|
    ensures Keeps(d, d', m) <==> forall owner :: KeepsIn(d, d', m, owner)
  {
    hide ClaimedBy;
    if forall owner :: KeepsIn(d, d', m, owner) {
      forall q ensures ClaimedBy(d', m, q) <==> ClaimedBy(d, m, q) { assert KeepsIn(d, d', m, q.owner); }
    }
  }

  /** A member of the renamed query, not of the column, that is spelled like the new name. */
  ghost predicate Captured(d: Document, p: Place, newName: string, m: nat)
    requires m < |d.members|
  {
    LooksInto(d, m, p.owner) && !ClaimedBy(d, m, p) && EqualFold(d.members[m].name, newName)
  }

  /** The name of an item once those that carry the column have the new name. */
  ghost function NameAfter(d: Document, s: Sources, p: Place, q: Place, newName: string): string
    requires ItemAt(s, q).Some?
  {
    if Carries(d, s, p, q) then newName else ItemAt(s, q).value.name
  }

  /** The items of a query still have, or now have, names of their own. */
  ghost predicate ApartAfter(d: Document, s: Sources, p: Place, owner: Owner, newName: string) {
    && ItemsOf(s, owner).Some?
    && (forall j :: 0 <= j < |ItemsOf(s, owner).value| ==> ItemAt(s, Place(owner, j)).Some?)
    && forall i, j | 0 <= i < j < |ItemsOf(s, owner).value| ::
         ItemAt(s, Place(owner, i)).Some? && ItemAt(s, Place(owner, j)).Some? ==>
         !EqualFold(NameAfter(d, s, p, Place(owner, i), newName), NameAfter(d, s, p, Place(owner, j), newName))
  }

  /** Another query passes the column on, and the member looks there: for the old or the
      new name, for anything that becomes unknown, or for anything that becomes known. */
  ghost predicate Shifted(d: Document, s: Sources, p: Place, newName: string, m: nat, owner: Owner)
    requires m < |d.members|
  {
    && owner != p.owner && Eligible(d, owner) && LooksInto(d, m, owner)
    && ItemAt(s, p).Some? && !EqualFold(newName, ItemAt(s, p).value.name)
    && (exists q: Place :: q.owner == owner && Carries(d, s, p, q))
    && var name := d.members[m].name;
       if Known(s, owner) && ApartAfter(d, s, p, owner, newName) then
         EqualFold(name, ItemAt(s, p).value.name) || EqualFold(name, newName)
       else if Known(s, owner) then
         exists q: Place :: q.owner == owner && ItemAt(s, q).Some? && EqualFold(name, ItemAt(s, q).value.name)
       else
         && ApartAfter(d, s, p, owner, newName)
         && exists q: Place :: q.owner == owner && ItemAt(s, q).Some? && EqualFold(name, NameAfter(d, s, p, q, newName))
  }

  /** What a caller can check of a member before the rename. */
  ghost predicate Safe(d: Document, s: Sources, p: Place, newName: string, m: nat)
    requires m < |d.members|
  {
    !Captured(d, p, newName, m) && forall owner :: !Shifted(d, s, p, newName, m, owner)
  }

  // ----- Items after the edit -----

  lemma ItemAfter(s: Sources, edits: set<Range>, newName: string, q: Place)
    ensures ItemAt(EditSources(s, edits, newName), q) == EditColumn(ItemAt(s, q), edits, newName)
  {}

  lemma NameIsAfter(d: Document, s: Sources, p: Place, edits: set<Range>, newName: string, q: Place)
    requires Exact(d, s, p, edits) && q != p
    ensures ItemAt(EditSources(s, edits, newName), q).Some? <==> ItemAt(s, q).Some?
    ensures ItemAt(s, q).Some? ==>
              ItemAt(EditSources(s, edits, newName), q).value.name == NameAfter(d, s, p, q, newName)
  {
    ItemAfter(s, edits, newName, q);
    hide EditSources, ItemAt, Carries, ClaimedBy;
  }

  lemma ItemsLength(s: Sources, edits: set<Range>, newName: string, owner: Owner)
    ensures ItemsOf(EditSources(s, edits, newName), owner) == EditItems(ItemsOf(s, owner), edits, newName)
  {}

  /** Another query is known after the rename exactly when its names are apart then. */
  lemma KnownAfter(d: Document, s: Sources, p: Place, edits: set<Range>, newName: string, owner: Owner)
    requires Exact(d, s, p, edits) && owner != p.owner
    ensures Known(EditSources(s, edits, newName), owner) <==> ApartAfter(d, s, p, owner, newName)
  {
    var s' := EditSources(s, edits, newName);
    ItemsLength(s, edits, newName, owner);
    hide EditSources, Exact, Carries, Fold;
    if ItemsOf(s, owner).Some? {
      var items, items' := ItemsOf(s, owner).value, ItemsOf(s', owner).value;
      forall j: nat | j < |items|
        ensures ItemAt(s, Place(owner, j)) == items[j] && ItemAt(s', Place(owner, j)) == items'[j]
        ensures items'[j].Some? <==> items[j].Some?
        ensures items[j].Some? ==> items'[j].value.name == NameAfter(d, s, p, Place(owner, j), newName)
      {
        NameIsAfter(d, s, p, edits, newName, Place(owner, j));
      }
    }
  }

  /** Where nothing carries the column, nothing changes. */
  lemma UncarriedStays(d: Document, s: Sources, p: Place, newName: string, owner: Owner)
    requires forall q: Place :: q.owner == owner ==> !Carries(d, s, p, q)
    ensures ApartAfter(d, s, p, owner, newName) <==> Known(s, owner)
  {
    hide Carries, Fold;
    if ItemsOf(s, owner).Some? {
      var items := ItemsOf(s, owner).value;
      assert forall j: nat :: j < |items| ==> ItemAt(s, Place(owner, j)) == items[j];
    }
  }

  /** A carrier has the name of the renamed column. */
  lemma CarrierName(d: Document, s: Sources, p: Place, q: Place)
    requires FromItems(d, s) && RangesApart(d, s, p) && Carries(d, s, p, q)
    ensures ItemAt(s, q).Some? && ItemAt(s, p).Some? && q != p
    ensures EqualFold(ItemAt(s, q).value.name, ItemAt(s, p).value.name)
  {
    var m :| 0 <= m < |d.members| && ClaimedBy(d, m, p) && ItemAt(s, q).Some? &&
      ItemAt(s, q).value.declarationRange == d.members[m].range;
    ClaimedIff(d, s, m, p);
    hide ItemAt, ClaimedBy, FromItems, Fold;
  }

  /** Known names are apart. */
  lemma KnownApart(s: Sources, q: Place, r: Place)
    requires Known(s, q.owner) && q.owner == r.owner && ItemAt(s, q).Some? && ItemAt(s, r).Some?
    requires EqualFold(ItemAt(s, q).value.name, ItemAt(s, r).value.name)
    ensures q == r
  {
    hide Fold;
  }

  // ----- Another query than the renamed one -----

  lemma SameLooks(d: Document, s: Sources, d': Document, edits: set<Range>, newName: string, m: nat, owner: Owner)
    requires IsEdited(d, s, d', edits, newName) && m < |d.members|
    ensures m < |d'.members|
    ensures LooksInto(d', m, owner) <==> LooksInto(d, m, owner)
    ensures Eligible(d', owner) <==> Eligible(d, owner)
    ensures d'.members[m].name == if d.members[m].range in edits then newName else d.members[m].name
  {
    hide FromItems;
  }

  /** A member of another query: which of its columns it claims before and after. */
  lemma ClaimsElsewhere(d: Document, s: Sources, d': Document, p: Place, edits: set<Range>, newName: string, m: nat,
                        q: Place)
    requires FromItems(d, s) && IsEdited(d, s, d', edits, newName) && Exact(d, s, p, edits) && m < |d.members|
    requires q.owner != p.owner && !LooksInto(d, m, p.owner)
    ensures ClaimedBy(d', m, q) <==>
            Eligible(d, q.owner) && LooksInto(d, m, q.owner) && ApartAfter(d, s, p, q.owner, newName) &&
            ItemAt(s, q).Some? && EqualFold(d.members[m].name, NameAfter(d, s, p, q, newName))
  {
    hide FromItems, EditSources, ItemAt, Known, ApartAfter, Carries, Eligible, LooksInto, Fold;
    ClaimedIff(d, s, m, p);
    SameLooks(d, s, d', edits, newName, m, q.owner);
    ClaimedIff(d', EditSources(s, edits, newName), m, q);
    KnownAfter(d, s, p, edits, newName, q.owner);
    NameIsAfter(d, s, p, edits, newName, q);
    hide ClaimedBy;
  }

  /** The columns of one other query. */
  lemma OtherQuery(d: Document, s: Sources, d': Document, p: Place, edits: set<Range>, newName: string, m: nat,
                   owner: Owner)
    requires FromItems(d, s) && IsEdited(d, s, d', edits, newName) && Exact(d, s, p, edits) && m < |d.members|
    requires RangesApart(d, s, p) && owner != p.owner && LooksInto(d, m, owner) && !LooksInto(d, m, p.owner)
    requires ItemAt(s, p).Some? && !EqualFold(newName, ItemAt(s, p).value.name)
    ensures KeepsIn(d, d', m, owner) <==>
            !Shifted(d, s, p, newName, m, owner)
  {
    hide FromItems, IsEdited, Exact, Known, ApartAfter, RangesApart, ItemAt, ClaimedBy, LooksInto, Eligible, Carries,
      Fold;
    SameLooks(d, s, d', edits, newName, m, owner);
    forall q: Place | q.owner == owner
      ensures ClaimedBy(d', m, q) <==>
              Eligible(d, owner) && ApartAfter(d, s, p, owner, newName) &&
              ItemAt(s, q).Some? && EqualFold(d.members[m].name, NameAfter(d, s, p, q, newName))
      ensures ClaimedBy(d, m, q) <==>
              Eligible(d, owner) && Known(s, owner) &&
              ItemAt(s, q).Some? && EqualFold(d.members[m].name, ItemAt(s, q).value.name)
      ensures Carries(d, s, p, q) ==> ItemAt(s, q).Some? && EqualFold(ItemAt(s, q).value.name, ItemAt(s, p).value.name)
    {
      ClaimsElsewhere(d, s, d', p, edits, newName, m, q);
      ClaimedIff(d, s, m, q);
      if Carries(d, s, p, q) { CarrierName(d, s, p, q); }
    }
    if forall q: Place :: q.owner == owner ==> !Carries(d, s, p, q) {
      UncarriedStays(d, s, p, newName, owner);
    } else {
      var c: Place :| c.owner == owner && Carries(d, s, p, c);
      if Known(s, owner) && ApartAfter(d, s, p, owner, newName) {
        BothKnown(d, s, p, newName, m, c);
      }
    }
  }

  /** A query known before and after, with a carrier: only the old and the new name move. */
  lemma BothKnown(d: Document, s: Sources, p: Place, newName: string, m: nat, c: Place)
    requires FromItems(d, s) && RangesApart(d, s, p) && Carries(d, s, p, c) && m < |d.members| && ItemAt(s, p).Some?
    requires Known(s, c.owner) && ApartAfter(d, s, p, c.owner, newName)
    requires !EqualFold(newName, ItemAt(s, p).value.name)
    ensures var name := d.members[m].name;
            (forall q: Place :: q.owner == c.owner && ItemAt(s, q).Some? ==>
               (EqualFold(name, NameAfter(d, s, p, q, newName)) <==> EqualFold(name, ItemAt(s, q).value.name))) <==>
            !(EqualFold(name, ItemAt(s, p).value.name) || EqualFold(name, newName))
  {
    hide FromItems, RangesApart, ItemAt, Carries, Known, ApartAfter, Fold;
    CarrierName(d, s, p, c);
    assert NameAfter(d, s, p, c, newName) == newName;
    forall q: Place | q.owner == c.owner && ItemAt(s, q).Some? && q != c
      ensures NameAfter(d, s, p, q, newName) == ItemAt(s, q).value.name
    {
      if Carries(d, s, p, q) {
        CarrierName(d, s, p, q);
        KnownApart(s, q, c);
      }
    }
  }

  // ----- The renamed query -----

  /** The renamed column is the only edited item of its query. */
  lemma OwnItems(d: Document, s: Sources, p: Place, edits: set<Range>, newName: string, q: Place)
    requires FromItems(d, s) && RangesApart(d, s, p) && Exact(d, s, p, edits)
    requires ItemAt(s, p).Some? && Known(s, p.owner) && q.owner == p.owner
    ensures ItemAt(EditSources(s, edits, newName), q) ==
            if q == p then Some(ItemAt(s, p).value.(name := newName)) else ItemAt(s, q)
  {
    ItemAfter(s, edits, newName, q);
    hide FromItems, RangesApart, ItemAt, EditSources, Carries, Known;
    if q != p && Carries(d, s, p, q) {
      CarrierName(d, s, p, q);
      KnownApart(s, q, p);
    }
  }

  lemma OwnKnown(d: Document, s: Sources, p: Place, edits: set<Range>, newName: string)
    requires FromItems(d, s) && RangesApart(d, s, p) && Exact(d, s, p, edits)
    requires ItemAt(s, p).Some? && Known(s, p.owner)
    requires forall q: Place :: q.owner == p.owner && q != p && ItemAt(s, q).Some? ==>
             !EqualFold(ItemAt(s, q).value.name, newName)
    ensures Known(EditSources(s, edits, newName), p.owner)
  {
    var s' := EditSources(s, edits, newName);
    ItemsLength(s, edits, newName, p.owner);
    var items, items' := ItemsOf(s, p.owner).value, ItemsOf(s', p.owner).value;
    forall j: nat | j < |items|
      ensures items'[j] == if j == p.column then Some(items[j].value.(name := newName)) else items[j]
      ensures j != p.column ==> !EqualFold(items[j].value.name, newName)
    {
      OwnItems(d, s, p, edits, newName, Place(p.owner, j));
      assert ItemAt(s', Place(p.owner, j)) == items'[j] && ItemAt(s, Place(p.owner, j)) == items[j];
      assert Place(p.owner, p.column) == p;
    }
  }

  /** A member of the renamed query keeps its column exactly when it is not captured. */
  lemma OwnQuery(d: Document, s: Sources, d': Document, p: Place, edits: set<Range>, newName: string, m: nat)
    requires FromItems(d, s) && IsEdited(d, s, d', edits, newName) && Exact(d, s, p, edits) && m < |d.members|
    requires RangesApart(d, s, p) && LooksInto(d, m, p.owner) && Eligible(d, p.owner)
    requires ItemAt(s, p).Some? && Known(s, p.owner) && !EqualFold(newName, ItemAt(s, p).value.name)
    requires forall q: Place :: q.owner == p.owner && q != p && ItemAt(s, q).Some? ==>
             !EqualFold(ItemAt(s, q).value.name, newName)
    ensures KeepsIn(d, d', m, p.owner) <==>
            !Captured(d, p, newName, m)
  {
    hide FromItems, EditSources, RangesApart, ItemAt, Carries, Known, LooksInto, Eligible, ClaimedBy, Fold;
    var s' := EditSources(s, edits, newName);
    OwnKnown(d, s, p, edits, newName);
    SameLooks(d, s, d', edits, newName, m, p.owner);
    ClaimedIff(d, s, m, p);
    forall q: Place | q.owner == p.owner
      ensures ClaimedBy(d, m, q) <==> ItemAt(s, q).Some? && EqualFold(d.members[m].name, ItemAt(s, q).value.name)
      ensures ClaimedBy(d', m, q) <==> ItemAt(s', q).Some? && EqualFold(d'.members[m].name, ItemAt(s', q).value.name)
      ensures ItemAt(s', q) == if q == p then Some(ItemAt(s, p).value.(name := newName)) else ItemAt(s, q)
    {
      ClaimedIff(d, s, m, q);
      ClaimedIff(d', s', m, q);
      OwnItems(d, s, p, edits, newName, q);
      hide IsEdited;
    }
    if ClaimedBy(d, m, p) {
      forall q: Place | q.owner == p.owner && q != p && ClaimedBy(d, m, q) ensures false { KnownApart(s, q, p); }
    }
  }

  // ----- A new name that differs in case only -----

  lemma SameKeyKnown(d: Document, s: Sources, p: Place, edits: set<Range>, newName: string, owner: Owner)
    requires FromItems(d, s) && RangesApart(d, s, p) && Exact(d, s, p, edits)
    requires ItemAt(s, p).Some? && EqualFold(newName, ItemAt(s, p).value.name)
    ensures Known(EditSources(s, edits, newName), owner) <==> Known(s, owner)
  {
    var s' := EditSources(s, edits, newName);
    ItemsLength(s, edits, newName, owner);
    if ItemsOf(s, owner).Some? {
      var items, items' := ItemsOf(s, owner).value, ItemsOf(s', owner).value;
      hide FromItems, RangesApart, Exact, EditSources, Fold;
      forall j: nat | j < |items|
        ensures items'[j].Some? <==> items[j].Some?
        ensures items[j].Some? ==> EqualFold(items'[j].value.name, items[j].value.name)
      {
        SameKeyItem(d, s, p, edits, newName, Place(owner, j));
        assert ItemAt(s', Place(owner, j)) == items'[j] && ItemAt(s, Place(owner, j)) == items[j];
      }
    }
  }

  lemma SameKeyItem(d: Document, s: Sources, p: Place, edits: set<Range>, newName: string, q: Place)
    requires FromItems(d, s) && RangesApart(d, s, p) && Exact(d, s, p, edits)
    requires ItemAt(s, p).Some? && EqualFold(newName, ItemAt(s, p).value.name)
    ensures ItemAt(EditSources(s, edits, newName), q).Some? <==> ItemAt(s, q).Some?
    ensures ItemAt(s, q).Some? ==>
              EqualFold(ItemAt(EditSources(s, edits, newName), q).value.name, ItemAt(s, q).value.name)
  {
    ItemAfter(s, edits, newName, q);
    hide FromItems, RangesApart, ItemAt, EditSources, Carries, Fold;
    if Carries(d, s, p, q) { CarrierName(d, s, p, q); }
  }

  lemma SameKeyKeeps(d: Document, s: Sources, d': Document, p: Place, edits: set<Range>, newName: string, m: nat)
    requires FromItems(d, s) && IsEdited(d, s, d', edits, newName) && Exact(d, s, p, edits) && m < |d.members|
    requires RangesApart(d, s, p) && ItemAt(s, p).Some? && EqualFold(newName, ItemAt(s, p).value.name)
    ensures m < |d'.members| && Keeps(d, d', m)
  {
    hide FromItems, EditSources, RangesApart, ItemAt, Known, LooksInto, Eligible, ClaimedBy, Fold;
    SameLooks(d, s, d', edits, newName, m, p.owner);
    ClaimedIff(d, s, m, p);
    forall q: Place ensures ClaimedBy(d', m, q) <==> ClaimedBy(d, m, q) {
      ClaimedIff(d, s, m, q);
      ClaimedIff(d', EditSources(s, edits, newName), m, q);
      SameLooks(d, s, d', edits, newName, m, q.owner);
      SameKeyItem(d, s, p, edits, newName, q);
      SameKeyKnown(d, s, p, edits, newName, q.owner);
      hide IsEdited, Exact;
    }
  }

  // ----- The theorem -----

  /** A member looks into one query at most. */
  lemma LooksOnce(d: Document, m: nat, owner: Owner, other: Owner)
    requires m < |d.members| && LooksInto(d, m, owner) && LooksInto(d, m, other)
    requires Eligible(d, owner) && Eligible(d, other)
    ensures owner == other
  {}

  lemma MemberKeepsIff(d: Document, s: Sources, d': Document, p: Place, edits: set<Range>, newName: string, m: nat)
    requires FromItems(d, s) && IsEdited(d, s, d', edits, newName) && Exact(d, s, p, edits) && m < |d.members|
    requires RangesApart(d, s, p) && Eligible(d, p.owner) && ItemAt(s, p).Some? && Known(s, p.owner)
    requires forall q: Place :: q.owner == p.owner && q != p && ItemAt(s, q).Some? ==>
               !EqualFold(ItemAt(s, q).value.name, newName)
    ensures m < |d'.members|
    ensures Keeps(d, d', m) <==> Safe(d, s, p, newName, m)
  {
    hide FromItems, IsEdited, Exact, Known, RangesApart, ItemAt, ClaimedBy, LooksInto, Eligible, Fold, ApartAfter,
      Carries, KeepsIn;
    SameLooks(d, s, d', edits, newName, m, p.owner);
    if EqualFold(newName, ItemAt(s, p).value.name) {
      SameKeyKeeps(d, s, d', p, edits, newName, m);
      ClaimedIff(d, s, m, p);
      SameFold(newName, ItemAt(s, p).value.name, d.members[m].name);
    } else {
      forall owner: Owner
        ensures KeepsIn(d, d', m, owner) <==>
                !(owner == p.owner && Captured(d, p, newName, m)) && !Shifted(d, s, p, newName, m, owner)
      {
        OneQuery(d, s, d', p, edits, newName, m, owner);
      }
      KeepsByQuery(d, d', m);
      if KeepsIn(d, d', m, p.owner) { assert !Captured(d, p, newName, m); }
    }
  }

  lemma SameFold(a: string, b: string, name: string)
    requires EqualFold(a, b)
    ensures EqualFold(name, a) <==> EqualFold(name, b)
  {}

  lemma OneQuery(d: Document, s: Sources, d': Document, p: Place, edits: set<Range>, newName: string, m: nat,
                 owner: Owner)
    requires FromItems(d, s) && IsEdited(d, s, d', edits, newName) && Exact(d, s, p, edits) && m < |d.members|
    requires RangesApart(d, s, p) && Eligible(d, p.owner) && ItemAt(s, p).Some? && Known(s, p.owner)
    requires !EqualFold(newName, ItemAt(s, p).value.name)
    requires forall q: Place :: q.owner == p.owner && q != p && ItemAt(s, q).Some? ==>
               !EqualFold(ItemAt(s, q).value.name, newName)
    ensures m < |d'.members|
    ensures KeepsIn(d, d', m, owner) <==>
            !(owner == p.owner && Captured(d, p, newName, m)) && !Shifted(d, s, p, newName, m, owner)
  {
    hide FromItems, IsEdited, Exact, Known, RangesApart, ItemAt, ClaimedBy, LooksInto, Eligible, Fold, ApartAfter,
      Carries;
    SameLooks(d, s, d', edits, newName, m, owner);
    if !LooksInto(d, m, owner) || !Eligible(d, owner) {
      forall q: Place | q.owner == owner ensures !ClaimedBy(d', m, q) && !ClaimedBy(d, m, q) {
        ClaimedIff(d, s, m, q);
        ClaimedIff(d', EditSources(s, edits, newName), m, q) by { EditedFrom(d, s, d', edits, newName); }
      }
    } else if owner == p.owner {
      OwnQuery(d, s, d', p, edits, newName, m);
    } else {
      if LooksInto(d, m, p.owner) { LooksOnce(d, m, owner, p.owner); }
      OtherQuery(d, s, d', p, edits, newName, m, owner);
    }
  }

  lemma EditedFrom(d: Document, s: Sources, d': Document, edits: set<Range>, newName: string)
    requires IsEdited(d, s, d', edits, newName)
    ensures FromItems(d', EditSources(s, edits, newName))
  {}

  /** What a caller can check before the rename. */
  ghost predicate AllSafe(d: Document, s: Sources, p: Place, newName: string) {
    forall m :: 0 <= m < |d.members| ==> Safe(d, s, p, newName, m)
  }

  /** Where the test finds no other column of the new name and the document keeps its
      members, each refers to the column it referred to before, if and only if no member
      of the query that names no column is spelled like the new name, and no member looks
      through another query that passes the column on without an alias, for a name that
      comes or goes there. */
  lemma MembersKeepIff(d: Document, s: Sources, d': Document, p: Place, b: ColumnBinding, newName: string)
    requires FromItems(d, s) && RangesApart(d, s, p) && Stands(d, b, p)
    requires NameIsFree(ColumnsOf(d, p.owner), p.column, newName)
    requires IsEdited(d, s, d', EditsOf(b), newName)
    ensures |d'.members| == |d.members|
    ensures (forall m :: 0 <= m < |d.members| ==> Keeps(d, d', m)) <==>
            AllSafe(d, s, p, newName)
  {
    StandsDeclares(d, b, p);
    OwnsIff(d, s, p);
    hide FromItems, RangesApart, Stands, Owns, ItemAt, Keeps, Safe, Known, Fold, EditSources, EditsOf;
    EditsAreExact(d, s, p, b);
    forall q: Place | q.owner == p.owner && q != p && ItemAt(s, q).Some?
      ensures !EqualFold(ItemAt(s, q).value.name, newName)
    {
      OwnsIff(d, s, q);
      ItemInRange(s, q);
    }
    forall m | 0 <= m < |d.members| ensures Keeps(d, d', m) <==> Safe(d, s, p, newName, m) {
      MemberKeepsIff(d, s, d', p, EditsOf(b), newName, m);
    }
  }

  lemma ItemInRange(s: Sources, q: Place)
    requires ItemAt(s, q).Some?
    ensures ItemsOf(s, q.owner).Some? && q.column < |ItemsOf(s, q.owner).value|
  {}

  // ----- The indexes extracted before and after -----

  /** The index records the range as a reference of the column at q. */
  ghost predicate RecordedAt(index: ColumnIndex, places: seq<Place>, r: Range, q: Place) {
    exists b: nat :: b < |places| && places[b] == q && ColumnSite(b, r, false) in index.sites
  }

  lemma RecordedAtIff(d: Document, derived: bool, places: seq<Place>, index: ColumnIndex, m: nat, q: Place)
    requires IsColumnIndex(d, derived, places, index) && MembersApart(d) && m < |d.members|
    ensures RecordedAt(index, places, d.members[m].range, q) <==> q.owner.OfAlias? == derived && ClaimedBy(d, m, q)
  {
    AllPlaces(d, derived, index, places);
    hide ClaimedBy, IsColumnIndex, MembersApart;
    if b: nat :| b < |places| && places[b] == q && ColumnSite(b, d.members[m].range, false) in index.sites {
      RecordedIff(d, derived, places, index, m, b);
      assert places[b] in places;
    }
    if q.owner.OfAlias? == derived && ClaimedBy(d, m, q) {
      ClaimedIsPlace(d, derived, m, q);
      var b :| 0 <= b < |places| && places[b] == q;
      RecordedIff(d, derived, places, index, m, b);
    }
  }

  lemma ClaimedIsPlace(d: Document, derived: bool, m: nat, q: Place)
    requires m < |d.members| && q.owner.OfAlias? == derived && ClaimedBy(d, m, q)
    ensures IsPlace(d, derived, q)
  {}

  /** The two indexes record the range under the same columns. */
  ghost predicate SameRecords(
      pc: seq<Place>, ctes: ColumnIndex, pd: seq<Place>, derived: ColumnIndex,
      pc': seq<Place>, ctes': ColumnIndex, pd': seq<Place>, derived': ColumnIndex, r: Range) {
    forall q ::
      && (RecordedAt(ctes', pc', r, q) <==> RecordedAt(ctes, pc, r, q))
      && (RecordedAt(derived', pd', r, q) <==> RecordedAt(derived, pd, r, q))
  }

  /** The range is that of a member. */
  ghost predicate IsMember(d: Document, r: Range) {
    exists m: nat :: m < |d.members| && d.members[m].range == r
  }

  /** The same members, by their ranges. */
  ghost predicate SameMembers(d: Document, d': Document) {
    forall r :: IsMember(d', r) <==> IsMember(d, r)
  }

  /** Both column indexes record every member of the document under the columns it was recorded under. */
  ghost predicate SameRecordsOfMembers(
      d: Document, pc: seq<Place>, ctes: ColumnIndex, pd: seq<Place>, derived: ColumnIndex,
      pc': seq<Place>, ctes': ColumnIndex, pd': seq<Place>, derived': ColumnIndex) {
    forall r :: IsMember(d, r) ==> SameRecords(pc, ctes, pd, derived, pc', ctes', pd', derived', r)
  }

  /** The second document is the first one with its members in another order. */
  ghost predicate Reordered(e: Document, d': Document) {
    && e.ctes == d'.ctes && e.aliases == d'.aliases
    && forall member :: member in d'.members <==> member in e.members
  }

  /** What a member claims depends on the member alone. */
  lemma SameClaims(d: Document, m: nat, e: Document, n: nat, q: Place)
    requires m < |d.members| && n < |e.members| && e.members[n] == d.members[m]
    requires e.ctes == d.ctes && e.aliases == d.aliases
    ensures ClaimedBy(e, n, q) <==> ClaimedBy(d, m, q)
  {}

  /** The records of a member, by what it claims. */
  lemma SameRecordsIff(
      d: Document, e: Document, d': Document,
      pc: seq<Place>, ctes: ColumnIndex, pd: seq<Place>, derived: ColumnIndex,
      pc': seq<Place>, ctes': ColumnIndex, pd': seq<Place>, derived': ColumnIndex, m: nat, n: nat)
    requires MembersApart(d) && MembersApart(d') && Reordered(e, d')
    requires m < |d.members| && m < |e.members| && n < |d'.members| && d'.members[n] == e.members[m]
    requires e.members[m].range == d.members[m].range
    requires IsColumnIndex(d, false, pc, ctes) && IsColumnIndex(d, true, pd, derived)
    requires IsColumnIndex(d', false, pc', ctes') && IsColumnIndex(d', true, pd', derived')
    ensures SameRecords(pc, ctes, pd, derived, pc', ctes', pd', derived', d.members[m].range) <==> Keeps(d, e, m)
  {
    hide IsColumnIndex, ClaimedBy, MembersApart, RecordedAt;
    var r := d.members[m].range;
    forall q
      ensures RecordedAt(ctes, pc, r, q) <==> q.owner.OfCte? && ClaimedBy(d, m, q)
      ensures RecordedAt(derived, pd, r, q) <==> q.owner.OfAlias? && ClaimedBy(d, m, q)
      ensures RecordedAt(ctes', pc', r, q) <==> q.owner.OfCte? && ClaimedBy(e, m, q)
      ensures RecordedAt(derived', pd', r, q) <==> q.owner.OfAlias? && ClaimedBy(e, m, q)
    {
      RecordedAtIff(d, false, pc, ctes, m, q);
      RecordedAtIff(d, true, pd, derived, m, q);
      RecordedAtIff(d', false, pc', ctes', n, q);
      RecordedAtIff(d', true, pd', derived', n, q);
      SameClaims(d', n, e, m, q);
    }
    if !Keeps(d, e, m) { var q :| ClaimedBy(e, m, q) != ClaimedBy(d, m, q); }
  }

  /** The same on the two column indexes of each document: where the members are those
      before, edited, in any order, the indexes extracted after the rename record every
      member under the columns that recorded it before, under that condition and no other. */
  lemma ReindexTheorem(
      d: Document, s: Sources, e: Document, d': Document, p: Place, b: ColumnBinding, newName: string,
      pc: seq<Place>, ctes: ColumnIndex, pd: seq<Place>, derived: ColumnIndex,
      pc': seq<Place>, ctes': ColumnIndex, pd': seq<Place>, derived': ColumnIndex)
    requires FromItems(d, s) && RangesApart(d, s, p) && Stands(d, b, p)
    requires NameIsFree(ColumnsOf(d, p.owner), p.column, newName)
    requires IsEdited(d, s, e, EditsOf(b), newName) && Reordered(e, d') && MembersApart(d')
    requires IsColumnIndex(d, false, pc, ctes) && IsColumnIndex(d, true, pd, derived)
    requires IsColumnIndex(d', false, pc', ctes') && IsColumnIndex(d', true, pd', derived')
    ensures SameMembers(d, d')
    ensures SameRecordsOfMembers(d, pc, ctes, pd, derived, pc', ctes', pd', derived') <==> AllSafe(d, s, p, newName)
  {
    hide FromItems, RangesApart, Stands, NameIsFree, IsEdited, IsColumnIndex, Safe, ClaimedBy, MembersApart, AllSafe,
      SameRecords, Keeps, Owns, EditsOf;
    MembersKeepIff(d, s, e, p, b, newName);
    MembersKeepRanges(d, s, e, EditsOf(b), newName);
    ApartMembers(d, s, p);
    forall m: nat | m < |d.members|
      ensures SameRecords(pc, ctes, pd, derived, pc', ctes', pd', derived', d.members[m].range) <==> Keeps(d, e, m)
      ensures IsMember(d, d.members[m].range) && IsMember(d', d.members[m].range)
    {
      assert e.members[m] in d'.members;
      var n: nat :| n < |d'.members| && d'.members[n] == e.members[m];
      SameRecordsIff(d, e, d', pc, ctes, pd, derived, pc', ctes', pd', derived', m, n);
      assert d'.members[n].range == d.members[m].range;
    }
    forall n: nat | n < |d'.members| ensures IsMember(d, d'.members[n].range) {
      assert d'.members[n] in e.members;
      var m: nat :| m < |e.members| && e.members[m] == d'.members[n];
      assert d.members[m].range == d'.members[n].range;
    }
  }

  lemma ApartMembers(d: Document, s: Sources, p: Place)
    requires RangesApart(d, s, p)
    ensures MembersApart(d)
  {}

  lemma MembersKeepRanges(d: Document, s: Sources, d': Document, edits: set<Range>, newName: string)
    requires IsEdited(d, s, d', edits, newName)
    ensures |d'.members| == |d.members|
    ensures forall m :: 0 <= m < |d.members| ==> d'.members[m].range == d.members[m].range
  {}
}
