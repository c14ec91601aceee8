/** The columns of CTEs and derived tables as bindings of their own: where each
    is declared, and which qualified members refer to it. */
module ColumnBindings {
  import opened Coordinates
  import opened Syntax
  import opened Sorting
  import opened WorkspaceScan
  import opened QueryShapes
  import Diagnostics

  datatype Cte = Cte(name: string, declarationRange: Range, shape: Shape)

  /** What the alias binder knows of an alias; the CTE by its number. */
  datatype Alias = Alias(
    name: string, declarationRange: Range, ambiguous: bool,
    sourceCte: Option<nat>, shape: Shape, sourceTableName: string)

  datatype Member = Member(alias: nat, name: string, range: Range)

  datatype SelectAlias = SelectAlias(declarationRange: Range, referenceRanges: seq<Range>)

  /** The indexes of a document that column bindings are made from. */
  datatype Document = Document(ctes: seq<Cte>, aliases: seq<Alias>, members: seq<Member>,
                               selectAliases: seq<SelectAlias>)

  /** What the binders guarantee: members belong to aliases that are not ambiguous,
      sources exist, and an alias has one kind of source. */
  ghost predicate Bound(d: Document) {
    && (forall m :: 0 <= m < |d.members| ==>
           d.members[m].alias < |d.aliases| && !d.aliases[d.members[m].alias].ambiguous)
    && forall a :: 0 <= a < |d.aliases| ==>
         && (d.aliases[a].sourceCte.Some? ==> d.aliases[a].sourceCte.value < |d.ctes|)
         && (d.aliases[a].shape.known ==> d.aliases[a].sourceTableName == "")
  }

  /** Known shapes have no two columns of one name. */
  ghost predicate ShapesApart(d: Document) {
    && (forall c :: 0 <= c < |d.ctes| && d.ctes[c].shape.known ==> ColumnsApart(d.ctes[c].shape.columns))
    && forall a :: 0 <= a < |d.aliases| && d.aliases[a].shape.known ==> ColumnsApart(d.aliases[a].shape.columns)
  }

  /** Members have ranges of their own, and none is a use of a SELECT alias, as a
      member is the second part of a path. */
  ghost predicate MembersApart(d: Document) {
    && (forall m, n :: 0 <= m < n < |d.members| ==> d.members[m].range != d.members[n].range)
    && forall m, s :: 0 <= m < |d.members| && 0 <= s < |d.selectAliases| ==>
         d.members[m].range !in d.selectAliases[s].referenceRanges
  }

  // ----- What a column collects -----

  datatype Owner = OfCte(cte: nat) | OfAlias(alias: nat)

  /** The members that look into the owner's columns. */
  predicate LooksInto(d: Document, m: nat, owner: Owner)
    requires m < |d.members|
  {
    match owner
    case OfCte(c) => d.members[m].alias < |d.aliases| && d.aliases[d.members[m].alias].sourceCte == Some(c)
    case OfAlias(a) => d.members[m].alias == a
  }

  /** The member is a use of the owner's column of that name. */
  predicate Claims(d: Document, owner: Owner, name: string, m: nat)
    requires m < |d.members|
  {
    LooksInto(d, m, owner) && EqualFold(d.members[m].name, name)
  }

  function ConsumerRanges(d: Document, owner: Owner, name: string, n: nat): seq<Range>
    requires n <= |d.members|
  {
    if n == 0 then []
    else ConsumerRanges(d, owner, name, n - 1) + if Claims(d, owner, name, n - 1) then [d.members[n - 1].range] else []
  }

  /** References to the column inside its own query. */
  function OwnReferences(selectAliases: seq<SelectAlias>, declaration: Range): seq<Range> {
    if selectAliases == [] then []
    else if selectAliases[0].declarationRange == declaration then selectAliases[0].referenceRanges
    else OwnReferences(selectAliases[1..], declaration)
  }

  datatype ColumnBinding = ColumnBinding(name: string, declarationRange: Range, referenceRanges: seq<Range>,
                                         explicit: bool)

  function BindingOf(d: Document, owner: Owner, column: Column): ColumnBinding {
    ColumnBinding(column.name, column.declarationRange,
      OwnReferences(d.selectAliases, column.declarationRange) + ConsumerRanges(d, owner, column.name, |d.members|),
      column.explicit)
  }

  ghost function BindingsOf(d: Document, owner: Owner, columns: seq<Column>): seq<ColumnBinding> {
    seq(|columns|, i requires 0 <= i < |columns| => BindingOf(d, owner, columns[i]))
  }

  // ----- Which columns get a binding -----

  predicate IsDerived(a: Alias) {
    !a.ambiguous && a.shape.known && a.sourceCte.None? && a.sourceTableName == ""
  }

  /** An owner whose columns get bindings. */
  predicate Owns(d: Document, owner: Owner) {
    match owner
    case OfCte(c) => c < |d.ctes| && d.ctes[c].shape.known
    case OfAlias(a) => a < |d.aliases| && IsDerived(d.aliases[a])
  }

  function ColumnsOf(d: Document, owner: Owner): seq<Column>
    requires Owns(d, owner)
  {
    match owner
    case OfCte(c) => d.ctes[c].shape.columns
    case OfAlias(a) => d.aliases[a].shape.columns
  }

  /** A column of an owner. */
  datatype Place = Place(owner: Owner, column: nat)

  function Number(owner: Owner): nat {
    match owner
    case OfCte(c) => c
    case OfAlias(a) => a
  }

  function OwnerAt(derived: bool, n: nat): Owner {
    if derived then OfAlias(n) else OfCte(n)
  }

  predicate IsPlace(d: Document, derived: bool, p: Place) {
    Owns(d, p.owner) && p.owner.OfAlias? == derived && p.column < |ColumnsOf(d, p.owner)|
  }

  predicate Before(p: Place, q: Place) {
    Number(p.owner) < Number(q.owner) || (p.owner == q.owner && p.column < q.column)
  }

  /** Owner by owner, column by column. */
  ghost predicate InOrder(places: seq<Place>) {
    forall i, j :: 0 <= i < j < |places| ==> Before(places[i], places[j])
  }

  /** The list holds the columns of the first n owners of a kind, each once, in order. */
  ghost predicate ListsPlaces(d: Document, derived: bool, n: nat, places: seq<Place>) {
    InOrder(places) && forall p :: p in places <==> IsPlace(d, derived, p) && Number(p.owner) < n
  }

  function OwnPlaces(owner: Owner, k: nat): seq<Place> {
    seq(k, i requires 0 <= i => Place(owner, i))
  }

  lemma MoreOwners(d: Document, derived: bool, n: nat, places: seq<Place>)
    requires ListsPlaces(d, derived, n, places)
    ensures var owner := OwnerAt(derived, n);
            && (Owns(d, owner) ==> ListsPlaces(d, derived, n + 1, places + OwnPlaces(owner, |ColumnsOf(d, owner)|)))
            && (!Owns(d, owner) ==> ListsPlaces(d, derived, n + 1, places))
  {
    var owner := OwnerAt(derived, n);
    forall p | IsPlace(d, derived, p) && Number(p.owner) == n ensures p.owner == owner {}
    if Owns(d, owner) {
      var own := OwnPlaces(owner, |ColumnsOf(d, owner)|);
      forall p ensures p in own <==> p.owner == owner && p.column < |ColumnsOf(d, owner)| {
        if p.owner == owner && p.column < |own| { assert own[p.column] == p; }
      }
      forall i, j | 0 <= i < j < |places + own| ensures Before((places + own)[i], (places + own)[j]) {
        if i < |places| { assert places[i] in places; }
      }
    }
  }

  /** There is only one such list: the position of a column is determined. */
  lemma {:induction false} PlacesOnce(x: seq<Place>, y: seq<Place>)
    requires InOrder(x) && InOrder(y) && forall p :: p in x <==> p in y
    ensures x == y
  {
    assert x != [] ==> x[0] in x && x[0] in y;
    assert y != [] ==> y[0] in y && y[0] in x;
    if x != [] {
      var i :| 0 <= i < |y| && y[i] == x[0];
      var j :| 0 <= j < |x| && x[j] == y[0];
      assert x[0] == y[0];
      forall p ensures p in x[1..] <==> p in y[1..] {
        if p in x[1..] { assert p in x && p != x[0]; }
        if p in y[1..] { assert p in y && p != y[0]; }
      }
      PlacesOnce(x[1..], y[1..]);
      assert x == [x[0]] + x[1..] && y == [y[0]] + y[1..];
    }
  }

  lemma PlacesDistinct(places: seq<Place>)
    requires InOrder(places)
    ensures Distinct(places)
  {
    forall i, j | 0 <= i < j < |places| ensures places[i] != places[j] {
      assert Before(places[i], places[j]);
    }
  }

  // ----- What a binding must say -----

  ghost predicate Increasing(ms: seq<nat>) {
    forall i, j :: 0 <= i < j < |ms| ==> ms[i] < ms[j]
  }

  /** The members that an owner's column of that name claims, in order. */
  ghost predicate ListsConsumers(d: Document, owner: Owner, name: string, ms: seq<nat>) {
    Increasing(ms) && forall m: nat :: m in ms <==> m < |d.members| && Claims(d, owner, name, m)
  }

  function RangesOf(d: Document, ms: seq<nat>): seq<Range> {
    seq(|ms|, i requires 0 <= i < |ms| => RangeOf(d, ms[i]))
  }

  function RangeOf(d: Document, m: nat): Range {
    if m < |d.members| then d.members[m].range else Range(Position(0, 0), Position(0, 0))
  }

  /** The binding of a column: its references are those of its own SELECT alias, and
      then the ranges of exactly the members that claim it, each once. */
  ghost predicate Stands(d: Document, b: ColumnBinding, p: Place) {
    Owns(d, p.owner) && p.column < |ColumnsOf(d, p.owner)| &&
    var column := ColumnsOf(d, p.owner)[p.column];
    && b.name == column.name && b.declarationRange == column.declarationRange && b.explicit == column.explicit
    && exists ms :: ListsConsumers(d, p.owner, column.name, ms) && ReferencesAre(d, b, column, ms)
  }

  ghost predicate ReferencesAre(d: Document, b: ColumnBinding, column: Column, ms: seq<nat>) {
    b.referenceRanges == OwnReferences(d.selectAliases, column.declarationRange) + RangesOf(d, ms)
  }

  ghost function Consumers(d: Document, owner: Owner, name: string, n: nat): seq<nat>
    requires n <= |d.members|
  {
    if n == 0 then []
    else Consumers(d, owner, name, n - 1) + if Claims(d, owner, name, n - 1) then [n - 1] else []
  }

  lemma {:induction false} ConsumersMembers(d: Document, owner: Owner, name: string, n: nat, m: nat)
    requires n <= |d.members|
    ensures m in Consumers(d, owner, name, n) <==> m < n && Claims(d, owner, name, m)
  {
    hide Claims;
    if n > 0 { ConsumersMembers(d, owner, name, n - 1, m); }
  }

  lemma {:induction false} ConsumersIncrease(d: Document, owner: Owner, name: string, n: nat)
    requires n <= |d.members|
    ensures Increasing(Consumers(d, owner, name, n))
  {
    if n > 0 {
      var before, ms := Consumers(d, owner, name, n - 1), Consumers(d, owner, name, n);
      ConsumersIncrease(d, owner, name, n - 1);
      hide Claims;
      forall i, j | 0 <= i < j < |ms| ensures ms[i] < ms[j] {
        assert before[i] in before;
        ConsumersMembers(d, owner, name, n - 1, before[i]);
      }
    }
  }

  lemma {:induction false} ConsumersRanges(d: Document, owner: Owner, name: string, n: nat)
    requires n <= |d.members|
    ensures ConsumerRanges(d, owner, name, n) == RangesOf(d, Consumers(d, owner, name, n))
  {
    hide Claims;
    if n > 0 { ConsumersRanges(d, owner, name, n - 1); }
  }

  lemma BindingStands(d: Document, p: Place)
    requires Owns(d, p.owner) && p.column < |ColumnsOf(d, p.owner)|
    ensures Stands(d, BindingOf(d, p.owner, ColumnsOf(d, p.owner)[p.column]), p)
  {
    var column := ColumnsOf(d, p.owner)[p.column];
    ConsumersIncrease(d, p.owner, column.name, |d.members|);
    ConsumersRanges(d, p.owner, column.name, |d.members|);
    var ms := Consumers(d, p.owner, column.name, |d.members|);
    forall m: nat ensures m in ms <==> m < |d.members| && Claims(d, p.owner, column.name, m) {
      ConsumersMembers(d, p.owner, column.name, |d.members|, m);
    }
    assert ListsConsumers(d, p.owner, column.name, ms);
    assert ReferencesAre(d, BindingOf(d, p.owner, column), column, ms);
  }

  /** Binding by binding, the columns of the first n owners. */
  ghost predicate StandFor(d: Document, derived: bool, n: nat, bindings: seq<ColumnBinding>, places: seq<Place>) {
    && ListsPlaces(d, derived, n, places) && |bindings| == |places|
    && forall b :: 0 <= b < |bindings| ==> Stands(d, bindings[b], places[b])
  }

  lemma StandForMore(d: Document, derived: bool, n: nat, bindings: seq<ColumnBinding>, places: seq<Place>)
    requires StandFor(d, derived, n, bindings, places)
    ensures var owner := OwnerAt(derived, n);
            && (Owns(d, owner) ==>
                  StandFor(d, derived, n + 1, bindings + BindingsOf(d, owner, ColumnsOf(d, owner)),
                           places + OwnPlaces(owner, |ColumnsOf(d, owner)|)))
            && (!Owns(d, owner) ==> StandFor(d, derived, n + 1, bindings, places))
  {
    MoreOwners(d, derived, n, places);
    hide ListsPlaces, Stands, BindingOf, Owns;
    if Owns(d, OwnerAt(derived, n)) {
      OwnerStands(d, OwnerAt(derived, n));
      StandAppend(d, bindings, places, BindingsOf(d, OwnerAt(derived, n), ColumnsOf(d, OwnerAt(derived, n))),
        OwnPlaces(OwnerAt(derived, n), |ColumnsOf(d, OwnerAt(derived, n))|));
    }
  }

  lemma OwnerStands(d: Document, owner: Owner)
    requires Owns(d, owner)
    ensures |BindingsOf(d, owner, ColumnsOf(d, owner))| == |OwnPlaces(owner, |ColumnsOf(d, owner)|)|
    ensures forall k :: 0 <= k < |ColumnsOf(d, owner)| ==>
              Stands(d, BindingsOf(d, owner, ColumnsOf(d, owner))[k], OwnPlaces(owner, |ColumnsOf(d, owner)|)[k])
  {
    forall k | 0 <= k < |ColumnsOf(d, owner)|
      ensures Stands(d, BindingsOf(d, owner, ColumnsOf(d, owner))[k], OwnPlaces(owner, |ColumnsOf(d, owner)|)[k])
    {
      BindingStands(d, Place(owner, k));
    }
  }

  lemma StandAppend(d: Document, x: seq<ColumnBinding>, px: seq<Place>, y: seq<ColumnBinding>, py: seq<Place>)
    requires |x| == |px| && |y| == |py|
    requires forall b :: 0 <= b < |x| ==> Stands(d, x[b], px[b])
    requires forall b :: 0 <= b < |y| ==> Stands(d, y[b], py[b])
    ensures forall b :: 0 <= b < |x + y| ==> Stands(d, (x + y)[b], (px + py)[b])
  {
    hide Stands;
  }

  // ----- The loops -----

  datatype ColumnSite = ColumnSite(binding: nat, range: Range, declaration: bool)

  function CompareSites(a: ColumnSite, b: ColumnSite): int {
    ComparePosition(a.range.start, b.range.start)
  }

  ghost function SitesOfBinding(b: nat, binding: ColumnBinding): seq<ColumnSite> {
    [ColumnSite(b, binding.declarationRange, true)] + ReferenceSites(b, binding.referenceRanges)
  }

  ghost function ReferenceSites(b: nat, ranges: seq<Range>): seq<ColumnSite> {
    seq(|ranges|, i requires 0 <= i < |ranges| => ColumnSite(b, ranges[i], false))
  }

  ghost function SitesOf(bindings: seq<ColumnBinding>): seq<ColumnSite> {
    if bindings == [] then []
    else
      var last := |bindings| - 1;
      SitesOf(bindings[..last]) + SitesOfBinding(last, bindings[last])
  }

  function AddedTo(b: ColumnBinding, ranges: seq<Range>): ColumnBinding {
    b.(referenceRanges := b.referenceRanges + ranges)
  }

  lemma AddedTwice(b: ColumnBinding, x: seq<Range>, y: seq<Range>)
    ensures AddedTo(b, []) == b
    ensures AddedTo(AddedTo(b, x), y) == AddedTo(b, x + y)
  {
    assert b.referenceRanges + [] == b.referenceRanges;
    assert b.referenceRanges + x + y == b.referenceRanges + (x + y);
  }

  lemma SitesGrow(bindings: seq<ColumnBinding>, b: ColumnBinding, range: Range)
    ensures SitesOf(bindings + [AddedTo(b, [range])]) == SitesOf(bindings + [b]) +
            [ColumnSite(|bindings|, range, false)]
  {
    SitesLast(bindings, b);
    SitesLast(bindings, AddedTo(b, [range]));
    hide SitesOf, ReferenceSites;
    ReferenceSitesGrow(|bindings|, b.referenceRanges, range);
  }

  lemma ReferenceSitesGrow(b: nat, ranges: seq<Range>, range: Range)
    ensures ReferenceSites(b, ranges + [range]) == ReferenceSites(b, ranges) + [ColumnSite(b, range, false)]
  {}

  lemma SitesLast(bindings: seq<ColumnBinding>, b: ColumnBinding)
    ensures SitesOf(bindings + [b]) == SitesOf(bindings) + SitesOfBinding(|bindings|, b)
  {
    assert (bindings + [b])[..|bindings|] == bindings;
  }

  lemma SitesBegin(bindings: seq<ColumnBinding>, b: ColumnBinding)
    requires b.referenceRanges == []
    ensures SitesOf(bindings + [b]) == SitesOf(bindings) + [ColumnSite(|bindings|, b.declarationRange, true)]
  {
    SitesLast(bindings, b);
    assert SitesOfBinding(|bindings|, b) == [ColumnSite(|bindings|, b.declarationRange, true)];
  }

  /** The column bindings and sites as they are filled. */
  class ColumnIndexer {
    var bindings: seq<ColumnBinding>
    var sites: seq<ColumnSite>

    ghost predicate Valid()
      reads this
    {
      sites == SitesOf(bindings)
    }

    constructor ()
      ensures Valid() && bindings == []
    {
      bindings, sites := [], [];
    }

    method AddReference(range: Range)
      requires Valid() && bindings != []
      modifies this
      ensures Valid()
      ensures var last := |old(bindings)| - 1;
              bindings == old(bindings)[..last] + [AddedTo(old(bindings)[last], [range])]
    {
      var last := |bindings| - 1;
      SitesGrow(bindings[..last], bindings[last], range);
      assert bindings == bindings[..last] + [bindings[last]];
      bindings := bindings[..last] + [AddedTo(bindings[last], [range])];
      sites := sites + [ColumnSite(last, range, false)];
    }

    method AddReferences(ranges: seq<Range>)
      requires Valid() && bindings != []
      modifies this
      ensures Valid()
      ensures var last := |old(bindings)| - 1;
              bindings == old(bindings)[..last] + [AddedTo(old(bindings)[last], ranges)]
    {
      ghost var last := |bindings| - 1;
      AddedTwice(bindings[last], [], []);
      for i := 0 to |ranges|
        invariant Valid() && bindings == old(bindings)[..last] + [AddedTo(old(bindings)[last], ranges[..i])]
      {
        AddedTwice(old(bindings)[last], ranges[..i], [ranges[i]]);
        assert ranges[..i + 1] == ranges[..i] + [ranges[i]];
        AddReference(ranges[i]);
      }
      assert ranges[..|ranges|] == ranges;
    }

    method AddOwnReferences(selectAliases: seq<SelectAlias>, declaration: Range)
      requires Valid() && bindings != []
      modifies this
      ensures Valid()
      ensures var last := |old(bindings)| - 1;
              bindings == old(bindings)[..last] +
                [AddedTo(old(bindings)[last], OwnReferences(selectAliases, declaration))]
    {
      ghost var last := |bindings| - 1;
      var i := 0;
      AddedTwice(bindings[last], [], []);
      assert selectAliases[0..] == selectAliases;
      while i < |selectAliases|
        invariant 0 <= i <= |selectAliases| && Valid() && bindings == old(bindings)
        invariant OwnReferences(selectAliases[i..], declaration) == OwnReferences(selectAliases, declaration)
      {
        assert selectAliases[i..][1..] == selectAliases[i + 1..];
        if selectAliases[i].declarationRange == declaration {
          AddReferences(selectAliases[i].referenceRanges);
          return;
        }
        i := i + 1;
      }
    }

    method AddConsumers(d: Document, owner: Owner, name: string)
      requires Valid() && bindings != []
      modifies this
      ensures Valid()
      ensures var last := |old(bindings)| - 1;
              bindings == old(bindings)[..last] +
                [AddedTo(old(bindings)[last], ConsumerRanges(d, owner, name, |d.members|))]
    {
      ghost var last := |bindings| - 1;
      AddedTwice(bindings[last], [], []);
      for m := 0 to |d.members|
        invariant Valid()
        invariant bindings == old(bindings)[..last] + [AddedTo(old(bindings)[last], ConsumerRanges(d, owner, name, m))]
      {
        AddedTwice(old(bindings)[last], ConsumerRanges(d, owner, name, m), [d.members[m].range]);
        if Claims(d, owner, name, m) {
          AddReference(d.members[m].range);
        } else {
          assert ConsumerRanges(d, owner, name, m + 1) == ConsumerRanges(d, owner, name, m);
        }
      }
    }

    method Declare(column: Column)
      requires Valid()
      modifies this
      ensures Valid() && bindings == old(bindings) +
              [ColumnBinding(column.name, column.declarationRange, [], column.explicit)]
    {
      var binding := ColumnBinding(column.name, column.declarationRange, [], column.explicit);
      SitesBegin(bindings, binding);
      bindings := bindings + [binding];
      sites := sites + [ColumnSite(|bindings| - 1, column.declarationRange, true)];
    }

    method AddColumn(d: Document, owner: Owner, column: Column)
      requires Valid()
      modifies this
      ensures Valid() && bindings == old(bindings) + [BindingOf(d, owner, column)]
    {
      hide SitesOf, ConsumerRanges, OwnReferences;
      ghost var bare := ColumnBinding(column.name, column.declarationRange, [], column.explicit);
      ghost var own, consumers := OwnReferences(d.selectAliases, column.declarationRange),
        ConsumerRanges(d, owner, column.name, |d.members|);
      Declare(column);
      AddOwnReferences(d.selectAliases, column.declarationRange);
      AddConsumers(d, owner, column.name);
      AddedTwice(bare, own, consumers);
      assert [] + (own + consumers) == own + consumers;
      assert AddedTo(bare, own + consumers) == BindingOf(d, owner, column);
    }

    method AddColumns(d: Document, owner: Owner, columns: seq<Column>)
      requires Valid()
      modifies this
      ensures Valid() && bindings == old(bindings) + BindingsOf(d, owner, columns)
    {
      hide SitesOf, BindingOf;
      for i := 0 to |columns|
        invariant Valid() && bindings == old(bindings) + BindingsOf(d, owner, columns[..i])
      {
        AddColumn(d, owner, columns[i]);
        assert BindingsOf(d, owner, columns[..i + 1]) == BindingsOf(d, owner, columns[..i]) +
          [BindingOf(d, owner, columns[i])];
      }
      assert columns[..|columns|] == columns;
    }
  }

  // ----- The indexes -----

  datatype ColumnIndex = ColumnIndex(bindings: seq<ColumnBinding>, sites: seq<ColumnSite>)

  /** The index of the columns of one kind of owner: a binding for each column of each
      owner whose shape is known, in order; each stands for its column; and the sites
      are the declarations and references of the bindings, each once, sorted. */
  ghost predicate IsColumnIndex(
      d: Document, derived: bool, places: seq<Place>, index: ColumnIndex) {
    && InOrder(places) && (forall p :: p in places <==> IsPlace(d, derived, p))
    && |index.bindings| == |places| &&
         (forall b :: 0 <= b < |index.bindings| ==> Stands(d, index.bindings[b], places[b]))
    && multiset(index.sites) == multiset(SitesOf(index.bindings)) && SortedBy(index.sites, CompareSites)
  }

  /** The columns of one more owner, if its shape is known. */
  method AddOwner(indexer: ColumnIndexer, d: Document, derived: bool, n: nat, ghost places: seq<Place>)
    returns (ghost more: seq<Place>)
    requires indexer.Valid() && StandFor(d, derived, n, indexer.bindings, places)
    requires n < if derived then |d.aliases| else |d.ctes|
    modifies indexer
    ensures indexer.Valid() && StandFor(d, derived, n + 1, indexer.bindings, more)
  {
    hide StandFor, SitesOf, BindingsOf;
    StandForMore(d, derived, n, indexer.bindings, places);
    more := places;
    if Owns(d, OwnerAt(derived, n)) {
      more := places + OwnPlaces(OwnerAt(derived, n), |ColumnsOf(d, OwnerAt(derived, n))|);
      indexer.AddColumns(d, OwnerAt(derived, n), ColumnsOf(d, OwnerAt(derived, n)));
    }
  }

  /** The columns of the CTEs, in the order of their declarations. */
  method ExtractCTEColumnIndex(d: Document) returns (index: ColumnIndex)
    ensures exists places :: IsColumnIndex(d, false, places, index)
  {
    var indexer := new ColumnIndexer();
    ghost var places: seq<Place> := [];
    assert StandFor(d, false, 0, [], places);
    hide StandFor, SitesOf, IsColumnIndex, SortedBy;
    for c := 0 to |d.ctes|
      invariant fresh(indexer) && indexer.Valid() && StandFor(d, false, c, indexer.bindings, places)
    {
      places := AddOwner(indexer, d, false, c, places);
    }
    index := SortedIndex(indexer);
    AllPlaces(d, false, index, places);
  }

  /** The columns of the derived tables, in the order of their aliases. */
  method ExtractDerivedColumnIndex(d: Document) returns (index: ColumnIndex)
    ensures exists places :: IsColumnIndex(d, true, places, index)
  {
    var indexer := new ColumnIndexer();
    ghost var places: seq<Place> := [];
    assert StandFor(d, true, 0, [], places);
    hide StandFor, SitesOf, IsColumnIndex, SortedBy;
    for a := 0 to |d.aliases|
      invariant fresh(indexer) && indexer.Valid() && StandFor(d, true, a, indexer.bindings, places)
    {
      places := AddOwner(indexer, d, true, a, places);
    }
    index := SortedIndex(indexer);
    AllPlaces(d, true, index, places);
  }

  method SortedIndex(indexer: ColumnIndexer) returns (index: ColumnIndex)
    requires indexer.Valid()
    ensures index.bindings == indexer.bindings
    ensures multiset(index.sites) == multiset(SitesOf(index.bindings)) && SortedBy(index.sites, CompareSites)
  {
    var sites := SortFunc(indexer.sites, CompareSites);
    index := ColumnIndex(indexer.bindings, sites);
  }

  lemma AllPlaces(d: Document, derived: bool, index: ColumnIndex, places: seq<Place>)
    requires StandFor(d, derived, if derived then |d.aliases| else |d.ctes|, index.bindings, places)
    requires multiset(index.sites) == multiset(SitesOf(index.bindings)) && SortedBy(index.sites, CompareSites)
    ensures IsColumnIndex(d, derived, places, index)
  {
    hide Stands, SitesOf, SortedBy, InOrder;
  }

  // ----- What the indexes record -----

  /** The k-th column of the owner has the member among its uses. */
  ghost predicate ClaimedBy(d: Document, m: nat, p: Place)
    requires m < |d.members|
  {
    Owns(d, p.owner) && p.column < |ColumnsOf(d, p.owner)| &&
      Claims(d, p.owner, ColumnsOf(d, p.owner)[p.column].name, m)
  }

  lemma {:induction false} OwnReferencesOrigin(selectAliases: seq<SelectAlias>, declaration: Range, r: Range)
    requires r in OwnReferences(selectAliases, declaration)
    ensures exists s :: 0 <= s < |selectAliases| && r in selectAliases[s].referenceRanges
  {
    if selectAliases[0].declarationRange != declaration {
      OwnReferencesOrigin(selectAliases[1..], declaration, r);
      var s :| 0 <= s < |selectAliases[1..]| && r in selectAliases[1..][s].referenceRanges;
      assert r in selectAliases[s + 1].referenceRanges;
    }
  }

  /** A binding refers to a member exactly when its column claims it. */
  lemma ReferencesMember(d: Document, b: ColumnBinding, p: Place, m: nat)
    requires MembersApart(d) && m < |d.members| && Stands(d, b, p)
    ensures d.members[m].range in b.referenceRanges <==> ClaimedBy(d, m, p)
  {
    var column, r := ColumnsOf(d, p.owner)[p.column], d.members[m].range;
    var ms :| ListsConsumers(d, p.owner, column.name, ms) && ReferencesAre(d, b, column, ms);
    var own := OwnReferences(d.selectAliases, column.declarationRange);
    if r in own {
      OwnReferencesOrigin(d.selectAliases, column.declarationRange, r);
    }
    assert r !in own;
    hide Claims, Owns, OwnReferences;
    if r in RangesOf(d, ms) {
      var i :| 0 <= i < |ms| && RangesOf(d, ms)[i] == r;
      assert ms[i] in ms;
      assert ms[i] == m;
    }
    if m in ms {
      var i :| 0 <= i < |ms| && ms[i] == m;
      assert RangesOf(d, ms)[i] == r;
    }
  }

  lemma {:induction false} SitesAre(bindings: seq<ColumnBinding>, s: ColumnSite)
    ensures s in SitesOf(bindings) <==>
            s.binding < |bindings| &&
            if s.declaration then s.range == bindings[s.binding].declarationRange
               else s.range in bindings[s.binding].referenceRanges
  {
    if bindings != [] {
      var last := |bindings| - 1;
      SitesAre(bindings[..last], s);
      OwnSites(last, bindings[last], s);
      hide SitesOfBinding;
    }
  }

  lemma OwnSites(b: nat, binding: ColumnBinding, s: ColumnSite)
    ensures s in SitesOfBinding(b, binding) <==>
            s.binding == b && if s.declaration then s.range == binding.declarationRange
              else s.range in binding.referenceRanges
  {
    var refs := ReferenceSites(b, binding.referenceRanges);
    if s.binding == b && !s.declaration && s.range in binding.referenceRanges {
      var i :| 0 <= i < |binding.referenceRanges| && binding.referenceRanges[i] == s.range;
      assert refs[i] == s;
    }
  }

  /** In the returned index, the references of a binding contain a member exactly when
      the column that it stands for claims it, and so do its reference sites. */
  lemma RecordedIff(
      d: Document, derived: bool, places: seq<Place>, index: ColumnIndex, m: nat, b: nat)
    requires IsColumnIndex(d, derived, places, index) && MembersApart(d) && m < |d.members|
    ensures b < |places| ==> (d.members[m].range in index.bindings[b].referenceRanges <==> ClaimedBy(d, m, places[b]))
    ensures ColumnSite(b, d.members[m].range, false) in index.sites <==> b < |places| && ClaimedBy(d, m, places[b])
  {
    if b < |places| { ReferencesMember(d, index.bindings[b], places[b], m); }
    PermutationMembers(index.sites, SitesOf(index.bindings));
    SitesAre(index.bindings, ColumnSite(b, d.members[m].range, false));
  }

  /** Some binding of the index refers to the member. */
  ghost predicate Recorded(index: ColumnIndex, d: Document, m: nat)
    requires m < |d.members|
  {
    exists b: nat :: ColumnSite(b, d.members[m].range, false) in index.sites
  }

  lemma RecordedIsClaimed(
      d: Document, derived: bool, places: seq<Place>, index: ColumnIndex, m: nat)
    requires IsColumnIndex(d, derived, places, index) && MembersApart(d) && m < |d.members|
    ensures Recorded(index, d, m) <==> exists p :: IsPlace(d, derived, p) && ClaimedBy(d, m, p)
  {
    hide Stands, ClaimedBy, IsPlace, SitesOf;
    if Recorded(index, d, m) {
      var b: nat :| ColumnSite(b, d.members[m].range, false) in index.sites;
      RecordedIff(d, derived, places, index, m, b);
      assert places[b] in places;
    }
    if p :| IsPlace(d, derived, p) && ClaimedBy(d, m, p) {
      var b :| 0 <= b < |places| && places[b] == p;
      RecordedIff(d, derived, places, index, m, b);
    }
  }

  lemma SameClaim(d: Document, m: nat, p: Place, q: Place)
    requires Bound(d) && ShapesApart(d) && m < |d.members| && ClaimedBy(d, m, p) && ClaimedBy(d, m, q)
    ensures p == q
  {
    assert p.owner == q.owner;
    assert ColumnsApart(ColumnsOf(d, p.owner));
    assert EqualFold(ColumnsOf(d, p.owner)[p.column].name, ColumnsOf(d, q.owner)[q.column].name);
  }

  /** A member is a reference of at most one binding in both indexes together. */
  lemma RecordedOnce(
      d: Document, x: bool, px: seq<Place>, xs: ColumnIndex, y: bool, py: seq<Place>, ys: ColumnIndex, m: nat, i: nat,
      j: nat)
    requires IsColumnIndex(d, x, px, xs) && IsColumnIndex(d, y, py, ys)
    requires Bound(d) && ShapesApart(d) && MembersApart(d) && m < |d.members|
    requires ColumnSite(i, d.members[m].range, false) in xs.sites &&
             ColumnSite(j, d.members[m].range, false) in ys.sites
    ensures x == y && i == j
  {
    RecordedIff(d, x, px, xs, m, i);
    RecordedIff(d, y, py, ys, m, j);
    SameClaim(d, m, px[i], py[j]);
    hide Stands, ClaimedBy, SitesOf;
    assert px[i] in px && py[j] in py;
    assert x == y;
    PlacesOnce(px, py);
    PlacesDistinct(px);
  }

  // ----- Recorded, or reported -----

  function ShapeOf(shape: Shape): Diagnostics.Shape {
    Diagnostics.Shape(shape.known, Names(shape.columns))
  }

  /** The member as the diagnostics see it; `ambiguous`: inside an ambiguous path. */
  function Seen(d: Document, m: nat, ambiguous: bool): Diagnostics.Member
    requires Bound(d) && m < |d.members|
  {
    var a := d.aliases[d.members[m].alias];
    var cte :=
      if a.sourceCte.None? then None
      else
        var c := d.ctes[a.sourceCte.value];
        Some(Diagnostics.CteSource(c.name, c.declarationRange, ShapeOf(c.shape)));
    Diagnostics.Member(d.members[m].name, d.members[m].range,
      Diagnostics.Binding(a.name, a.declarationRange, cte, ShapeOf(a.shape), a.sourceTableName), ambiguous)
  }

  /** The source of the member is a CTE or derived table whose columns are known. */
  predicate KnownLocally(d: Document, m: nat)
    requires Bound(d) && m < |d.members|
  {
    var a := d.aliases[d.members[m].alias];
    if a.sourceCte.Some? then d.ctes[a.sourceCte.value].shape.known else a.shape.known
  }

  lemma HasColumnIs(columns: seq<Column>, name: string)
    ensures Diagnostics.HasColumn(Names(columns), name) <==>
            exists k: nat :: k < |columns| && EqualFold(columns[k].name, name)
  {
    if k: nat :| k < |columns| && EqualFold(columns[k].name, name) {
      assert EqualFold(Names(columns)[k], name);
    }
  }

  lemma ReportedIffUnclaimed(d: Document, path: Path, m: nat)
    requires Bound(d) && m < |d.members| && KnownLocally(d, m)
    ensures Diagnostics.LocalDiagnostic(path, Seen(d, m, false)).Some? <==> forall p :: !ClaimedBy(d, m, p)
    ensures !Diagnostics.Named(Seen(d, m, false))
  {
    var a := d.members[m].alias;
    var owner := if d.aliases[a].sourceCte.Some? then OfCte(d.aliases[a].sourceCte.value) else OfAlias(a);
    assert Owns(d, owner) && LooksInto(d, m, owner);
    var columns := ColumnsOf(d, owner);
    HasColumnIs(columns, d.members[m].name);
    if k: nat :| k < |columns| && EqualFold(columns[k].name, d.members[m].name) {
      assert ClaimedBy(d, m, Place(owner, k));
    }
    if p :| ClaimedBy(d, m, p) {
      assert p.owner == owner;
    }
  }

  /** Outside ambiguous paths, a member of a CTE or derived table with known columns is
      reported as an unknown column exactly when neither index has it as a reference. */
  lemma ReportedIffUnrecorded(
      d: Document, path: Path, m: nat, pc: seq<Place>, ctes: ColumnIndex, pd: seq<Place>, derived: ColumnIndex)
    requires IsColumnIndex(d, false, pc, ctes) && IsColumnIndex(d, true, pd, derived)
    requires Bound(d) && MembersApart(d) && m < |d.members| && KnownLocally(d, m)
    ensures Diagnostics.LocalDiagnostic(path, Seen(d, m, false)).Some? <==>
            !Recorded(ctes, d, m) && !Recorded(derived, d, m)
    ensures !Diagnostics.Named(Seen(d, m, false))
  {
    ReportedIffUnclaimed(d, path, m);
    RecordedIsClaimed(d, false, pc, ctes, m);
    RecordedIsClaimed(d, true, pd, derived, m);
    forall p | ClaimedBy(d, m, p) ensures IsPlace(d, p.owner.OfAlias?, p) {}
    hide ClaimedBy, IsPlace, Recorded, IsColumnIndex, Diagnostics.LocalDiagnostic, Seen;
  }
}
