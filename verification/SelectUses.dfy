/** What the joint SELECT-alias index answers for every name in a GROUP BY, HAVING or
    ORDER BY, by the places of the tree. */
module SelectUses {
  import opened Coordinates
  import opened Syntax
  import opened SelectAliases
  import opened SelectWalk
  import opened SelectIndexes
  import Uses = SelectAliasRename
  import Documents = SelectAliasDocument
  import Joints = SelectAliasReindex
  import CteBindings
  import Tables = AliasBindings

  // ----- Clauses -----

  /** The SELECT at `s` is the body of the query at `q`: its first child after the CTEs. */
  ghost predicate BodyIs(root: Node, q: Address, s: Address) {
    && IsQuery(root, q) && IsSelect(root, s) && |s| == |q| + 1 && q < s
    && forall k :: 0 <= k < s[|q|] ==> IsCte(root, q + [k])
  }

  predicate IsCte(root: Node, a: Address) {
    NodeAt(root, a).Some? && NodeAt(root, a).value.kind.Cte?
  }

  /** The clause hangs on the SELECT, or on the query whose body the SELECT is. */
  ghost predicate ClauseOf(root: Node, s: Address, c: Address) {
    && c != [] && NodeAt(root, c).Some? && NodeAt(root, c).value.kind.Clause?
    && (c[..|c| - 1] == s || BodyIs(root, c[..|c| - 1], s))
  }

  lemma {:induction false} LeadingIs(kids: seq<Node>, k: nat)
    requires k < |kids|
    ensures CteBindings.LeadingCtes(kids) == k <==> !kids[k].kind.Cte? && forall j :: 0 <= j < k ==> kids[j].kind.Cte?
  {
    if k > 0 {
      LeadingIs(kids[1..], k - 1);
      assert forall j :: 0 < j < k ==> kids[j] == kids[1..][j - 1];
      assert (forall j :: 0 <= j < k - 1 ==> kids[1..][j].kind.Cte?) ==> forall j :: 0 < j < k ==> kids[j].kind.Cte?;
      assert forall j :: 0 <= j < k - 1 ==> kids[1..][j] == kids[j + 1];
    }
  }

  lemma BodyIff(root: Node, q: Address, s: Address)
    ensures BodyIs(root, q, s) <==> IsQuery(root, q) && IsSelect(root, s) && s == BodyOf(root, q)
  {
    if IsQuery(root, q) && IsSelect(root, s) && |s| == |q| + 1 && q < s {
      var n, k := NodeAt(root, q).value, s[|q|];
      assert s == q + [k];
      NodeAtChild(root, q, k);
      LeadingIs(Kids(n), k);
      forall j | 0 <= j < k ensures IsCte(root, q + [j]) <==> Kids(n)[j].kind.Cte? { NodeAtChild(root, q, j); }
    }
  }

  /** Every clause of the SELECT is looked at, and no other. */
  lemma ClausesIff(root: Node, e: Indexed, c: Address)
    requires e in Entries(root)
    ensures c in ClausePlaces(root, e) <==> ClauseOf(root, e.select, c)
  {
    EntryQuery(root, e);
    ClausesAtAre(root, e.select);
    if e.orderBy.Some? { ClausesAtAre(root, e.orderBy.value); }
    hide ClausesAt, NodeAt, Entries, BodyOf, IsQuery, IsSelect;
    if c != [] {
      BodyIff(root, c[..|c| - 1], e.select);
      assert forall a: Address :: |c| == |a| + 1 && c[..|a|] == a <==> c[..|c| - 1] == a;
    }
  }

  lemma EntryQuery(root: Node, e: Indexed)
    requires e in Entries(root)
    ensures IsSelect(root, e.select)
    ensures forall q :: IsQuery(root, q) && e.select == BodyOf(root, q) <==> e.orderBy == Some(q)
  {
    AlongMembers(Preorder(root, []), In(root), e);
    var p :| p in Preorder(root, []) && e in At(root, p);
    OriginIs(root, p, e);
    forall q ensures IsQuery(root, q) && e.select == BodyOf(root, q) <==> e.orderBy == Some(q) {
      if IsQuery(root, q) && e.select == BodyOf(root, q) { assert e.select[..|e.select| - 1] == q; }
    }
  }

  // ----- Uses -----

  /** A name of a clause: an identifier alone or a path, below no other name and in no nested query. */
  ghost predicate NameIn(root: Node, c: Address, a: Address) {
    && c <= a && NodeAt(root, a).Some? && (NodeAt(root, a).value.kind.Lone? || NodeAt(root, a).value.kind.Path?)
    && forall b :: c <= b < a ==> Open(root, b)
  }

  /** The node is neither a name nor a query. */
  predicate Open(root: Node, b: Address) {
    && NodeAt(root, b).Some?
    && var kind := NodeAt(root, b).value.kind; !kind.Lone? && !kind.Path? && !kind.Query? && !kind.Select?
  }

  lemma NameThrough(root: Node, here: Address, a: Address) returns (k: nat)
    requires NameIn(root, here, a) && a != here
    ensures NodeAt(root, here).Some? && Open(root, here) && k < |Kids(NodeAt(root, here).value)|
    ensures NodeAt(root, here + [k]) == Some(Kids(NodeAt(root, here).value)[k]) && NameIn(root, here + [k], a) &&
            k == a[|here|]
  {
    k := a[|here|];
    assert here <= here < a && Open(root, here);
    assert a == (here + [k]) + a[|here| + 1..];
    NodeAtPrefix(root, here + [k], a[|here| + 1..]);
    NodeAtChild(root, here, k);
  }

  lemma NameBelow(root: Node, here: Address, k: nat, a: Address)
    requires NameIn(root, here + [k], a) && Open(root, here)
    ensures NameIn(root, here, a)
  {
    forall b | here <= b < a ensures Open(root, b) {
      if b != here { assert here + [k] <= b; }
    }
  }

  lemma {:induction false} StandingIff(root: Node, n: Node, here: Address, a: Address)
    requires NodeAt(root, here) == Some(n)
    ensures a in Standing(n, here) <==> NameIn(root, here, a)
    decreases n, |Kids(n)| + 1
  {
    hide NodeAt, StandingFrom;
    if Open(root, here) {
      UsesOfKind(n, here);
      hide Standing;
      StandingFromIff(root, n, here, 0, a);
      if NameIn(root, here, a) { var k := NameThrough(root, here, a); }
    } else {
      if NameIn(root, here, a) && a != here { var k := NameThrough(root, here, a); }
    }
  }

  lemma {:induction false} StandingFromIff(root: Node, n: Node, here: Address, k: nat, a: Address)
    requires NodeAt(root, here) == Some(n) && Open(root, here) && k <= |Kids(n)|
    ensures a in StandingFrom(n, here, k) <==> NameIn(root, here, a) && |a| > |here| && a[|here|] >= k
    decreases n, |Kids(n)| - k
  {
    hide NodeAt, Standing, StandingFrom, Open, NameIn;
    UsesFromStep(n, here, k);
    NameByChild(root, n, here, a);
    if k < |Kids(n)| {
      NodeAtChild(root, here, k);
      StandingIff(root, Kids(n)[k], here + [k], a);
      StandingFromIff(root, n, here, k + 1, a);
    }
  }

  /** A name below an open node is a name below one of its children. */
  lemma NameByChild(root: Node, n: Node, here: Address, a: Address)
    requires NodeAt(root, here) == Some(n) && Open(root, here)
    ensures NameIn(root, here, a) ==> |a| > |here| && a[|here|] < |Kids(n)|
    ensures forall k: nat :: NameIn(root, here + [k], a) ==> NameIn(root, here, a) && |a| > |here| && a[|here|] == k
    ensures forall k: nat :: NameIn(root, here, a) && |a| > |here| && a[|here|] == k ==> NameIn(root, here + [k], a)
  {
    if NameIn(root, here, a) {
      OpenIsNoName(root, here, a);
      var j := NameThrough(root, here, a);
    }
    forall k: nat | NameIn(root, here + [k], a) ensures NameIn(root, here, a) && |a| > |here| && a[|here|] == k {
      NameBelow(root, here, k, a);
    }
  }

  lemma OpenIsNoName(root: Node, here: Address, a: Address)
    requires Open(root, here) && NameIn(root, here, a)
    ensures a != here
  {}

  lemma {:induction false} StandingInIff(root: Node, clauses: seq<Address>, a: Address)
    requires forall c :: c in clauses ==> NodeAt(root, c).Some?
    ensures a in StandingIn(root, clauses) <==> exists c :: c in clauses && NameIn(root, c, a)
  {
    hide NodeAt, Standing, NameIn;
    if clauses != [] {
      var init, c := clauses[..|clauses| - 1], clauses[|clauses| - 1];
      assert clauses == init + [c];
      StandingInIff(root, init, a);
      StandingIff(root, NodeAt(root, c).value, c, a);
    }
  }

  /** A name of the clauses of the SELECT at `s`. */
  ghost predicate UseOf(root: Node, s: Address, a: Address) {
    exists c :: ClauseOf(root, s, c) && NameIn(root, c, a)
  }

  /** Every name of every clause of the SELECT is looked up, and no other. */
  lemma PlacesIff(root: Node, e: Indexed, a: Address)
    requires e in Entries(root)
    ensures a in PlacesAt(root, e) <==> UseOf(root, e.select, a)
  {
    hide ClausePlaces, Entries, NameIn, StandingIn;
    forall c ensures c in ClausePlaces(root, e) <==> ClauseOf(root, e.select, c) { ClausesIff(root, e, c); }
    forall c | c in ClausePlaces(root, e) ensures NodeAt(root, c).Some? { ClauseExists(root, e.select, c); }
    hide ClauseOf, NodeAt;
    StandingInIff(root, ClausePlaces(root, e), a);
  }

  lemma ClauseExists(root: Node, s: Address, c: Address)
    requires ClauseOf(root, s, c)
    ensures NodeAt(root, c).Some?
  {}

  // ----- Items -----

  /** An item of a SELECT list that has a name. */
  predicate NamedItem(root: Node, it: Address) {
    && it != [] && IsSelect(root, it[..|it| - 1])
    && NodeAt(root, it).Some? && NodeAt(root, it).value.kind.Item? && NodeAt(root, it).value.kind.result.Some?
  }

  function ItemKey(root: Node, it: Address): string
    requires NamedItem(root, it)
  {
    Fold(NodeAt(root, it).value.kind.result.value.name)
  }

  /** No other item of the list has the name. */
  ghost predicate Alone(root: Node, it: Address)
    requires NamedItem(root, it)
  {
    forall other | NamedItem(root, other) && other[..|other| - 1] == it[..|it| - 1] ::
      ItemKey(root, other) == ItemKey(root, it) ==> other == it
  }

  lemma {:induction false} ItemPlacesComplete(n: Node, here: Address, m: nat, k: nat)
    requires m <= |Kids(n)|
    ensures here + [k] in Documents.ItemPlaces(Kids(n)[..m], here) <==>
            k < m && Kids(n)[k].kind.Item? && Kids(n)[k].kind.result.Some?
  {
    if m > 0 {
      assert Kids(n)[..m][..m - 1] == Kids(n)[..m - 1];
      ItemPlacesComplete(n, here, m - 1, k);
      assert here + [k] == here + [m - 1] <==> k == m - 1 by {
        assert (here + [k])[|here|] == k && (here + [m - 1])[|here|] == m - 1;
      }
    }
  }

  /** The items of an entry, all of them. */
  lemma ItemsIff(root: Node, e: Indexed, it: Address)
    requires IsEntry(root, e)
    ensures it in Documents.ItemsAt(root, e) <==> NamedItem(root, it) && it[..|it| - 1] == e.select
  {
    var n := NodeAt(root, e.select).value;
    Documents.ItemsOfEntry(root, e);
    hide NodeAt;
    if it in Documents.ItemsAt(root, e) {
      var i :| 0 <= i < |Documents.ItemsAt(root, e)| && Documents.ItemsAt(root, e)[i] == it;
      assert Documents.AliasStands(root, e, AliasesAt(root, e)[i], it);
      assert it[..|it| - 1] == e.select;
    }
    if NamedItem(root, it) && it[..|it| - 1] == e.select {
      var k := it[|it| - 1];
      assert it == e.select + [k];
      NodeAtChild(root, e.select, k);
      ItemPlacesComplete(n, e.select, |Kids(n)|, k);
      assert Kids(n)[..|Kids(n)|] == Kids(n);
    }
  }

  /** The i-th alias of an entry is the name of its i-th item. */
  lemma AliasOfItem(root: Node, e: Indexed, i: nat)
    requires IsEntry(root, e) && i < |AliasesAt(root, e)|
    ensures |Documents.ItemsAt(root, e)| == |AliasesAt(root, e)|
    ensures var it, alias := Documents.ItemsAt(root, e)[i], AliasesAt(root, e)[i];
            && NamedItem(root, it) && it[..|it| - 1] == e.select && ItemKey(root, it) == Key(alias)
            && NodeAt(root, it).value.kind == Item(Some(alias.ident), alias.explicit)
  {
    Documents.ItemsOfEntry(root, e);
    ItemsIff(root, e, Documents.ItemsAt(root, e)[i]);
    hide NodeAt, AliasesAt, Documents.ItemsAt;
    assert Documents.AliasStands(root, e, AliasesAt(root, e)[i], Documents.ItemsAt(root, e)[i]);
  }

  lemma AloneIff(root: Node, e: Indexed, i: nat)
    requires IsEntry(root, e) && i < |AliasesAt(root, e)|
    ensures |Documents.ItemsAt(root, e)| == |AliasesAt(root, e)| && NamedItem(root, Documents.ItemsAt(root, e)[i])
    ensures Alone(root, Documents.ItemsAt(root, e)[i]) <==> Unique(AliasesAt(root, e), Key(AliasesAt(root, e)[i]), i)
  {
    var aliases, items := AliasesAt(root, e), Documents.ItemsAt(root, e);
    Documents.ItemsOfEntry(root, e);
    AliasOfItem(root, e, i);
    forall j: nat | j < |aliases|
      ensures NamedItem(root, items[j]) && items[j][..|items[j]| - 1] == e.select &&
              ItemKey(root, items[j]) == Key(aliases[j])
    {
      AliasOfItem(root, e, j);
    }
    hide NodeAt, AliasesAt, Documents.ItemsAt, NamedItem, ItemKey, Key;
    if Unique(aliases, Key(aliases[i]), i) {
      forall other | NamedItem(root, other) && other[..|other| - 1] == items[i][..|items[i]| - 1] &&
          ItemKey(root, other) == ItemKey(root, items[i])
        ensures other == items[i]
      {
        ItemsIff(root, e, other);
        var j :| 0 <= j < |items| && items[j] == other;
      }
    }
    if Alone(root, items[i]) {
      forall j: nat | j < |aliases| && Key(aliases[j]) == Key(aliases[i]) ensures j == i {
        assert items[j] == items[i];
      }
    }
  }

  // ----- What a name is recorded as -----

  /** The name that the place is looked up by. */
  ghost predicate HeadAt(root: Node, a: Address, head: Ident) {
    && NodeAt(root, a).Some?
    && match NodeAt(root, a).value.kind
       case Lone(ident) => ident == head
       case Path(idents) => idents != [] && idents[0] == head
       case _ => false
  }

  /** The place is a path that begins inside a site of the table aliases. */
  ghost predicate TablePath(root: Node, tables: seq<Tables.AliasSite>, a: Address) {
    && NodeAt(root, a).Some? && NodeAt(root, a).value.kind.Path? && NodeAt(root, a).value.kind.idents != []
    && exists i :: 0 <= i < |tables| &&
         RangeIncludesPosition(tables[i].range, NodeAt(root, a).value.kind.idents[0].range.start)
  }

  /** The name at `a` refers to the item: it is in a clause of the item's SELECT, is no path
      of a table alias, and names that item alone. */
  ghost predicate RefersAt(root: Node, tables: seq<Tables.AliasSite>, a: Address, it: Address, r: Range)
    requires NamedItem(root, it)
  {
    && UseOf(root, it[..|it| - 1], a) && !TablePath(root, tables, a) && Alone(root, it)
    && exists head :: HeadAt(root, a, head) && head.range == r && Fold(head.name) == ItemKey(root, it)
  }

  /** Two items of the list at `s` have the key. */
  ghost predicate Shared(root: Node, s: Address, key: string) {
    exists it, other :: NamedItem(root, it) && NamedItem(root, other) && it != other && it[..|it| - 1] == s &&
      other[..|other| - 1] == s && ItemKey(root, it) == key && ItemKey(root, other) == key
  }

  /** The range is that of a path of a table alias, or of a name that two items share. */
  ghost predicate AmbiguousAt(root: Node, tables: seq<Tables.AliasSite>, s: Address, a: Address, r: Range) {
    && UseOf(root, s, a) && NodeAt(root, a).Some?
    && if TablePath(root, tables, a) then
         var idents := NodeAt(root, a).value.kind.idents;
         r.start == idents[0].range.start && r.end == idents[|idents| - 1].range.end
       else exists head :: HeadAt(root, a, head) && head.range == r && Shared(root, s, Fold(head.name))
  }

  // ----- One SELECT -----

  /** The k-th use of an entry, where it stands. */
  lemma UseStands(root: Node, tables: seq<Tables.AliasSite>, e: Indexed, k: nat)
    requires e in Entries(root) && k < |UsesAt(root, e)|
    ensures |PlacesAt(root, e)| == |UsesAt(root, e)|
    ensures var use, a := UsesAt(root, e)[k], PlacesAt(root, e)[k];
            && IsUse(root, use, a) && UseOf(root, e.select, a)
            && (forall head :: HeadAt(root, a, head) <==> Uses.Head(use) == Some(head))
            && (TablePath(root, tables, a) <==> Uses.Owned(tables, use))
  {
    hide UsesAt, PlacesAt, ClausePlaces, NodeAt, UseOf, Entries, TablePath, Uses.Owned, HeadAt;
    EntriesAre(root, e);
    UsesOfEntry(root, e);
    PlacesIff(root, e, PlacesAt(root, e)[k]);
    NameOfUse(root, tables, UsesAt(root, e)[k], PlacesAt(root, e)[k]);
  }

  lemma NameOfUse(root: Node, tables: seq<Tables.AliasSite>, use: Use, a: Address)
    requires IsUse(root, use, a)
    ensures forall head :: HeadAt(root, a, head) <==> Uses.Head(use) == Some(head)
    ensures TablePath(root, tables, a) <==> Uses.Owned(tables, use)
  {
    hide NodeAt;
  }

  lemma UseOfPlace(root: Node, e: Indexed, a: Address) returns (k: nat)
    requires e in Entries(root) && UseOf(root, e.select, a)
    ensures k < |UsesAt(root, e)| && |PlacesAt(root, e)| == |UsesAt(root, e)| && PlacesAt(root, e)[k] == a
  {
    EntriesAre(root, e);
    UsesOfEntry(root, e);
    hide UsesAt, PlacesAt, ClausePlaces, NodeAt, UseOf, Entries;
    PlacesIff(root, e, a);
    k :| 0 <= k < |PlacesAt(root, e)| && PlacesAt(root, e)[k] == a;
  }

  lemma RefersIff(root: Node, tables: seq<Tables.AliasSite>, e: Indexed, i: nat, r: Range)
    requires e in Entries(root) && i < |AliasesAt(root, e)|
    ensures |Documents.ItemsAt(root, e)| == |AliasesAt(root, e)| && NamedItem(root, Documents.ItemsAt(root, e)[i])
    ensures Refers(i, r) in AllEvents(AliasesAt(root, e), tables, UsesAt(root, e)) <==>
            exists a :: RefersAt(root, tables, a, Documents.ItemsAt(root, e)[i], r)
  {
    var aliases, uses, places := AliasesAt(root, e), UsesAt(root, e), PlacesAt(root, e);
    EntriesAre(root, e);
    AliasOfItem(root, e, i);
    AloneIff(root, e, i);
    var it := Documents.ItemsAt(root, e)[i];
    hide AliasesAt, UsesAt, PlacesAt, NodeAt, UseOf, Entries, Documents.ItemsAt, NamedItem, Alone, ItemKey, HeadAt,
      TablePath, AllEvents,
      EventsOf, Fold, IsUse, IsEntry, Uses.Owned, Unique;
    Uses.EventsMembers(aliases, tables, uses, Refers(i, r));
    if k: nat :| k < |uses| && Refers(i, r) in EventsOf(aliases, tables, uses[k]) {
      UseStands(root, tables, e, k);
      Uses.ReferenceIsHead(aliases, tables, uses[k], i, r);
      UniqueKey(aliases, Fold(Uses.Head(uses[k]).value.name), i);
      assert RefersAt(root, tables, places[k], it, r);
    }
    if a :| RefersAt(root, tables, a, it, r) {
      var k := UseOfPlace(root, e, a);
      UseStands(root, tables, e, k);
      Uses.ReferenceIsHead(aliases, tables, uses[k], i, r);
      assert Refers(i, r) in EventsOf(aliases, tables, uses[k]);
    }
  }

  lemma UniqueKey(aliases: seq<Alias>, key: string, i: nat)
    requires Unique(aliases, key, i)
    ensures Key(aliases[i]) == key
  {}

  /** A name that several aliases bear, and none alone. */
  lemma SharedIff(root: Node, e: Indexed, key: string)
    requires IsEntry(root, e)
    ensures Shared(root, e.select, key) <==>
            Has(AliasesAt(root, e), key) && forall i: nat :: !Unique(AliasesAt(root, e), key, i)
  {
    var aliases, items := AliasesAt(root, e), Documents.ItemsAt(root, e);
    Documents.ItemsOfEntry(root, e);
    forall j: nat | j < |aliases|
      ensures NamedItem(root, items[j]) && items[j][..|items[j]| - 1] == e.select &&
              ItemKey(root, items[j]) == Key(aliases[j])
    {
      AliasOfItem(root, e, j);
    }
    hide NodeAt, AliasesAt, Documents.ItemsAt, NamedItem, ItemKey, Key;
    if Shared(root, e.select, key) {
      var it, other :| NamedItem(root, it) && NamedItem(root, other) && it != other && it[..|it| - 1] == e.select &&
        other[..|other| - 1] == e.select && ItemKey(root, it) == key && ItemKey(root, other) == key;
      ItemsIff(root, e, it);
      ItemsIff(root, e, other);
      var i :| 0 <= i < |items| && items[i] == it;
      var j :| 0 <= j < |items| && items[j] == other;
      assert Key(aliases[i]) == key && Key(aliases[j]) == key;
    }
    if Has(aliases, key) && forall i: nat :: !Unique(aliases, key, i) {
      var i: nat :| i < |aliases| && Key(aliases[i]) == key;
      assert !Unique(aliases, key, i);
      var j: nat :| j < |aliases| && Key(aliases[j]) == key && j != i;
      assert items[i] != items[j];
    }
  }

  lemma AmbiguousByName(aliases: seq<Alias>, ident: Ident, r: Range)
    ensures Event.Ambiguous(r) in ByName(aliases, ident) <==>
            r == ident.range && Has(aliases, Fold(ident.name)) && forall i: nat :: !Unique(aliases, Fold(ident.name), i)
  {
    hide Fold;
  }

  ghost predicate AmbiguousIn(root: Node, tables: seq<Tables.AliasSite>, s: Address, r: Range) {
    exists a :: AmbiguousAt(root, tables, s, a, r)
  }

  lemma AmbiguousUse(root: Node, tables: seq<Tables.AliasSite>, e: Indexed, k: nat, r: Range)
    requires e in Entries(root) && k < |UsesAt(root, e)|
    ensures |PlacesAt(root, e)| == |UsesAt(root, e)|
    ensures Event.Ambiguous(r) in EventsOf(AliasesAt(root, e), tables, UsesAt(root, e)[k]) <==>
            AmbiguousAt(root, tables, e.select, PlacesAt(root, e)[k], r)
  {
    var aliases, use := AliasesAt(root, e), UsesAt(root, e)[k];
    EntriesAre(root, e);
    UseStands(root, tables, e, k);
    hide AliasesAt, UsesAt, PlacesAt, UseOf, Entries, HeadAt, TablePath, EventsOf, Fold, IsEntry, Uses.Owned, Unique,
      Shared, Has, ByName;
    Uses.EventsByHead(aliases, tables, use);
    if Uses.Head(use).Some? {
      AmbiguousByName(aliases, Uses.Head(use).value, r);
      SharedIff(root, e, Fold(Uses.Head(use).value.name));
    }
    PathOfUse(root, use, PlacesAt(root, e)[k]);
    OwnedIsPath(tables, use);
    hide NodeAt, IsUse;
  }

  lemma PathOfUse(root: Node, use: Use, a: Address)
    requires IsUse(root, use, a)
    ensures NodeAt(root, a).Some? && (use.Headed? ==> NodeAt(root, a).value.kind == Path(use.idents))
  {}

  lemma OwnedIsPath(tables: seq<Tables.AliasSite>, use: Use)
    ensures Uses.Owned(tables, use) ==> use.Headed? && use.idents != []
  {}

  lemma AmbiguousIff(root: Node, tables: seq<Tables.AliasSite>, e: Indexed, r: Range)
    requires e in Entries(root)
    ensures Event.Ambiguous(r) in AllEvents(AliasesAt(root, e), tables, UsesAt(root, e)) <==>
            AmbiguousIn(root, tables, e.select, r)
  {
    var aliases, uses := AliasesAt(root, e), UsesAt(root, e);
    hide AliasesAt, UsesAt, PlacesAt, Entries, AllEvents, EventsOf, AmbiguousAt, NodeAt, UseOf;
    Uses.EventsMembers(aliases, tables, uses, Event.Ambiguous(r));
    if k: nat :| k < |uses| && Event.Ambiguous(r) in EventsOf(aliases, tables, uses[k]) {
      AmbiguousUse(root, tables, e, k, r);
    }
    if a :| AmbiguousAt(root, tables, e.select, a, r) {
      assert UseOf(root, e.select, a) by { AmbiguousStands(root, tables, e.select, a, r); }
      var k := UseOfPlace(root, e, a);
      AmbiguousUse(root, tables, e, k, r);
    }
  }

  lemma AmbiguousStands(root: Node, tables: seq<Tables.AliasSite>, s: Address, a: Address, r: Range)
    requires AmbiguousAt(root, tables, s, a, r)
    ensures UseOf(root, s, a)
  {}

  /** What a binding must answer for the item that declares it. */
  ghost predicate BindingAnswers(b: Binding, root: Node, tables: seq<Tables.AliasSite>, it: Address) {
    && NamedItem(root, it) && NodeAt(root, it).value.kind == Item(Some(Ident(b.name, b.declarationRange)), b.explicit)
    && (b.ambiguous <==> !Alone(root, it))
    && forall r :: r in b.referenceRanges <==> exists a :: RefersAt(root, tables, a, it, r)
  }

  lemma PartAnswers(root: Node, tables: seq<Tables.AliasSite>, e: Indexed, part: SelectIndex, i: nat)
    requires e in Entries(root) && PartIs(part, root, e, tables) && i < |part.bindings|
    ensures |Documents.ItemsAt(root, e)| == |part.bindings|
    ensures BindingAnswers(part.bindings[i], root, tables, Documents.ItemsAt(root, e)[i])
  {
    var aliases := AliasesAt(root, e);
    var log := AllEvents(aliases, tables, UsesAt(root, e));
    assert BindingIs(part.bindings[i], aliases, i, log);
    EntriesAre(root, e);
    AliasOfItem(root, e, i);
    AloneIff(root, e, i);
    hide AliasesAt, UsesAt, Entries, Documents.ItemsAt, AllEvents, NamedItem, Alone, RefersAt, NodeAt, ReferencesTo,
      IsEntry, Key;
    forall r
      ensures r in part.bindings[i].referenceRanges <==>
              exists a :: RefersAt(root, tables, a, Documents.ItemsAt(root, e)[i], r)
    {
      Uses.ReferenceMembers(log, i, r);
      RefersIff(root, tables, e, i, r);
    }
  }

  /** The sites of an index are the declarations and the references of its bindings. */
  ghost predicate SitesAnswer(index: SelectIndex, s: Site) {
    s in index.sites <==>
      && s.binding < |index.bindings|
      && if s.declaration then s.range == index.bindings[s.binding].declarationRange
         else s.range in index.bindings[s.binding].referenceRanges
  }

  lemma PartSites(root: Node, tables: seq<Tables.AliasSite>, e: Indexed, part: SelectIndex, s: Site)
    requires PartIs(part, root, e, tables)
    ensures SitesAnswer(part, s)
  {
    var aliases, uses := AliasesAt(root, e), UsesAt(root, e);
    var log := AllEvents(aliases, tables, uses);
    if s.binding < |aliases| { assert BindingIs(part.bindings[s.binding], aliases, s.binding, log); }
    hide AliasesAt, UsesAt, AllEvents, ReferencesTo, ReferenceSites, DeclarationSites, Duplicate, BindingsAre;
    Uses.ReferenceMembers(log, s.binding, s.range);
    DeclarationMembers(aliases, s);
    ReferencesOnly(log, s);
    if Refers(s.binding, s.range) in log { ReferenceInRange(aliases, tables, uses, s.binding, s.range); }
    IndexSize(part, aliases, log);
  }

  lemma IndexSize(part: SelectIndex, aliases: seq<Alias>, log: seq<Event>)
    requires IsIndexOf(part, aliases, log)
    ensures |part.bindings| == |aliases|
  {}

  lemma DeclarationMembers(aliases: seq<Alias>, s: Site)
    ensures s in DeclarationSites(aliases) <==>
            s.declaration && s.binding < |aliases| && s.range == aliases[s.binding].ident.range
  {
    if s.declaration && s.binding < |aliases| { assert DeclarationSites(aliases)[s.binding].declaration; }
  }

  lemma {:induction false} ReferencesOnly(log: seq<Event>, s: Site)
    ensures s in ReferenceSites(log) ==> !s.declaration
  {
    if log != [] { ReferencesOnly(log[..|log| - 1], s); }
  }

  lemma ReferenceInRange(aliases: seq<Alias>, tables: seq<Tables.AliasSite>, uses: seq<Use>, i: nat, r: Range)
    requires Refers(i, r) in AllEvents(aliases, tables, uses)
    ensures i < |aliases|
  {
    hide AllEvents, EventsOf, Fold;
    Uses.EventsMembers(aliases, tables, uses, Refers(i, r));
    var k: nat :| k < |uses| && Refers(i, r) in EventsOf(aliases, tables, uses[k]);
    Uses.ReferenceIsHead(aliases, tables, uses[k], i, r);
  }

  // ----- The whole document -----

  /** The items of some SELECTs, in order. */
  ghost function AllItems(root: Node, entries: seq<Indexed>): seq<Address> {
    if entries == [] then []
    else AllItems(root, entries[..|entries| - 1]) + Documents.ItemsAt(root, entries[|entries| - 1])
  }

  ghost predicate BindingsAnswer(index: SelectIndex, root: Node, tables: seq<Tables.AliasSite>, items: seq<Address>) {
    |items| == |index.bindings| && forall j :: 0 <= j < |items| ==>
      BindingAnswers(index.bindings[j], root, tables, items[j])
  }

  lemma {:induction false} JointAnswers(root: Node, tables: seq<Tables.AliasSite>, entries: seq<Indexed>,
                                        parts: seq<SelectIndex>)
    requires PartsAre(parts, root, entries, tables) && forall e :: e in entries ==> e in Entries(root)
    ensures BindingsAnswer(Joint(parts), root, tables, AllItems(root, entries))
    ensures forall s :: SitesAnswer(Joint(parts), s)
    ensures forall r :: r in Joint(parts).ambiguousPaths <==>
              exists f: nat :: f < |entries| && AmbiguousIn(root, tables, entries[f].select, r)
  {
    hide BindingsAnswer, SitesAnswer, PartIs, AmbiguousIn, Documents.ItemsAt, Entries, Append, Joint, AllItems;
    JointLast(root, entries, parts);
    if entries == [] {
      NothingAnswers(root, tables);
    } else {
      var last := |entries| - 1;
      var e, part := entries[last], parts[last];
      assert forall d :: d in entries[..last] ==> d in entries;
      JointAnswers(root, tables, entries[..last], parts[..last]);
      assert PartIs(part, root, e, tables);
      PartIsWhole(root, tables, e, part);
      AppendAnswers(root, tables, Joint(parts[..last]), part, AllItems(root, entries[..last]),
          Documents.ItemsAt(root, e));
      forall r ensures r in Joint(parts).ambiguousPaths <==>
          exists f: nat :: f < |entries| && AmbiguousIn(root, tables, entries[f].select, r)
      {
        AmbiguousGrows(root, tables, entries[..last], e, part.ambiguousPaths, Joint(parts[..last]).ambiguousPaths, r);
        assert entries[..last] + [e] == entries;
      }
    }
  }

  lemma NothingAnswers(root: Node, tables: seq<Tables.AliasSite>)
    ensures BindingsAnswer(SelectIndex([], [], []), root, tables, [])
    ensures forall s :: SitesAnswer(SelectIndex([], [], []), s)
  {}

  lemma JointLast(root: Node, entries: seq<Indexed>, parts: seq<SelectIndex>)
    requires |entries| == |parts|
    ensures entries == [] ==> Joint(parts) == SelectIndex([], [], []) && AllItems(root, entries) == []
    ensures entries != [] ==>
              var last := |entries| - 1;
              && Joint(parts) == Append(Joint(parts[..last]), parts[last])
              && Joint(parts).ambiguousPaths == Joint(parts[..last]).ambiguousPaths + parts[last].ambiguousPaths
              && AllItems(root, entries) == AllItems(root, entries[..last]) + Documents.ItemsAt(root, entries[last])
  {
    hide Shift, Documents.ItemsAt;
  }

  lemma PartIsWhole(root: Node, tables: seq<Tables.AliasSite>, e: Indexed, part: SelectIndex)
    requires e in Entries(root) && PartIs(part, root, e, tables)
    ensures BindingsAnswer(part, root, tables, Documents.ItemsAt(root, e)) && forall s :: SitesAnswer(part, s)
    ensures forall r :: r in part.ambiguousPaths <==> AmbiguousIn(root, tables, e.select, r)
  {
    var log := AllEvents(AliasesAt(root, e), tables, UsesAt(root, e));
    EntriesAre(root, e);
    Documents.ItemsOfEntry(root, e);
    IndexSize(part, AliasesAt(root, e), log);
    assert part.ambiguousPaths == AmbiguousRanges(log);
    hide BindingAnswers, SitesAnswer, PartIs, AmbiguousIn, Documents.ItemsAt, Entries, AllEvents, AliasesAt, UsesAt,
      AmbiguousRanges,
      IsEntry;
    forall i: nat | i < |part.bindings|
      ensures BindingAnswers(part.bindings[i], root, tables, Documents.ItemsAt(root, e)[i])
    {
      PartAnswers(root, tables, e, part, i);
    }
    forall s ensures SitesAnswer(part, s) { PartSites(root, tables, e, part, s); }
    forall r ensures r in part.ambiguousPaths <==> AmbiguousIn(root, tables, e.select, r) {
      Uses.ReferenceMembers(log, 0, r);
      AmbiguousIff(root, tables, e, r);
    }
  }

  lemma AppendAnswers(root: Node, tables: seq<Tables.AliasSite>, x: SelectIndex, part: SelectIndex, items: seq<Address>,
                      more: seq<Address>)
    requires BindingsAnswer(x, root, tables, items) && BindingsAnswer(part, root, tables, more)
    requires (forall s :: SitesAnswer(x, s)) && forall s :: SitesAnswer(part, s)
    ensures BindingsAnswer(Append(x, part), root, tables, items + more) && forall s :: SitesAnswer(Append(x, part), s)
  {
    hide BindingAnswers;
    var n := |x.bindings|;
    forall s ensures SitesAnswer(Append(x, part), s) {
      assert SitesAnswer(x, s);
      if s.binding >= n { assert SitesAnswer(part, s.(binding := s.binding - n)); }
      ShiftMembers(part.sites, n, s);
    }
  }

  lemma ShiftMembers(sites: seq<Site>, n: nat, s: Site)
    ensures s in Shift(sites, n) <==> s.binding >= n && s.(binding := s.binding - n) in sites
  {
    if s.binding >= n && s.(binding := s.binding - n) in sites {
      var i :| 0 <= i < |sites| && sites[i] == s.(binding := s.binding - n);
      assert Shift(sites, n)[i] == s;
    }
  }

  lemma AmbiguousGrows(root: Node, tables: seq<Tables.AliasSite>, init: seq<Indexed>, e: Indexed, own: seq<Range>,
                       before: seq<Range>, r: Range)
    requires r in own <==> AmbiguousIn(root, tables, e.select, r)
    requires r in before <==> exists f: nat :: f < |init| && AmbiguousIn(root, tables, init[f].select, r)
    ensures r in before + own <==>
            exists f: nat :: f < |init + [e]| && AmbiguousIn(root, tables, (init + [e])[f].select, r)
  {
    hide AmbiguousIn;
    var entries := init + [e];
    assert forall f: nat :: f < |init| ==> entries[f] == init[f];
    assert entries[|init|] == e;
    if r in own { assert AmbiguousIn(root, tables, entries[|init|].select, r); }
    if f: nat :| f < |init| && AmbiguousIn(root, tables, init[f].select, r) {
      assert AmbiguousIn(root, tables, entries[f].select, r);
    }
  }

  lemma {:induction false} AllItemsAre(root: Node, entries: seq<Indexed>)
    requires forall e :: e in entries ==> IsEntry(root, e)
    requires forall i, j :: 0 <= i < j < |entries| ==> entries[i].select != entries[j].select
    ensures Distinct(AllItems(root, entries))
    ensures forall it :: it in AllItems(root, entries) <==>
              NamedItem(root, it) && exists e :: e in entries && it[..|it| - 1] == e.select
  {
    hide Documents.ItemsAt, NamedItem, IsEntry;
    if entries != [] {
      var last := |entries| - 1;
      var e := entries[last];
      assert entries == entries[..last] + [e];
      AllItemsAre(root, entries[..last]);
      Documents.ItemsOfEntry(root, e);
      forall it
        ensures it in Documents.ItemsAt(root, e) <==> NamedItem(root, it) && ItemParent(it) == e.select && it != []
      {
        ItemsIff(root, e, it);
        ItemIsInside(root, it);
      }
      forall it | it in AllItems(root, entries[..last])
        ensures it !in Documents.ItemsAt(root, e) { ItemIsInside(root, it); }
      DistinctAppend(AllItems(root, entries[..last]), Documents.ItemsAt(root, e));
      forall it | NamedItem(root, it) ensures it != [] { ItemIsInside(root, it); }
    }
  }

  function ItemParent(it: Address): Address {
    if it == [] then [] else it[..|it| - 1]
  }

  lemma ItemIsInside(root: Node, it: Address)
    ensures NamedItem(root, it) ==> it != []
  {}

  /** Every item with a name has one binding, with its name, range and flag and with the
      references to it; the sites are those of the bindings; the ambiguous paths are the
      paths of table aliases and the names that items share. */
  ghost predicate Answers(index: SelectIndex, root: Node, tables: seq<Tables.AliasSite>, items: seq<Address>) {
    && Distinct(items) && (forall it :: it in items <==> NamedItem(root, it))
    && BindingsAnswer(index, root, tables, items)
    && (forall s :: SitesAnswer(index, s))
    && forall r :: r in index.ambiguousPaths <==> exists s :: IsSelect(root, s) && AmbiguousIn(root, tables, s, r)
  }

  /** The joint index of a document answers for every item and every name in a clause. */
  lemma JointByPlaces(statements: seq<Node>, index: SelectIndex, tables: seq<Tables.AliasSite>)
    requires IsJointIndex(index, CteBindings.Document(statements), tables)
    ensures exists items :: Answers(index, CteBindings.Document(statements), tables, items)
  {
    hide CteBindings.Document, Entries, IsEntry, AmbiguousIn, BindingsAnswer, SitesAnswer, PartsAre, Joint, NodeAt,
      AllItems, IsSelect,
      NamedItem, Distinct;
    var root := CteBindings.Document(statements);
    var entries := Entries(root);
    var parts: seq<SelectIndex> :| PartsAre(parts, root, entries, tables) && index == Joint(parts);
    EntriesOf(statements);
    JointAnswers(root, tables, entries, parts);
    ItemsOfEntries(root, entries);
    forall r ensures r in index.ambiguousPaths <==> exists s :: IsSelect(root, s) && AmbiguousIn(root, tables, s, r) {
      AmbiguousInEntries(root, tables, entries, r);
    }
    assert Answers(index, root, tables, AllItems(root, entries));
  }

  /** The entries are the SELECTs, each once. */
  lemma EntriesOf(statements: seq<Node>)
    ensures var entries := Entries(CteBindings.Document(statements));
            && (forall e :: e in entries ==> IsEntry(CteBindings.Document(statements), e))
            && (forall i, j :: 0 <= i < j < |entries| ==> entries[i].select != entries[j].select)
            && forall s: Address :: IsSelect(CteBindings.Document(statements), s) <==>
                 exists e :: e in entries && e.select == s
  {
    var root := CteBindings.Document(statements);
    var entries := Entries(root);
    EachSelectOnce(statements, entries, []);
    hide IsEntry;
    forall e | e in entries ensures IsEntry(root, e) { EntriesAre(root, e); }
    forall s: Address ensures IsSelect(root, s) <==> exists e :: e in entries && e.select == s {
      EachSelectOnce(statements, entries, s);
      hide Entries, IsSelect;
      if i :| 0 <= i < |entries| && entries[i].select == s { assert entries[i] in entries; }
      if e :| e in entries && e.select == s { var i :| 0 <= i < |entries| && entries[i] == e; }
    }
  }

  lemma ItemsOfEntries(root: Node, entries: seq<Indexed>)
    requires forall e :: e in entries ==> IsEntry(root, e)
    requires forall i, j :: 0 <= i < j < |entries| ==> entries[i].select != entries[j].select
    requires forall s: Address :: IsSelect(root, s) <==> exists e :: e in entries && e.select == s
    ensures Distinct(AllItems(root, entries))
    ensures forall it :: it in AllItems(root, entries) <==> NamedItem(root, it)
  {
    hide IsEntry, IsSelect, NamedItem, AllItems;
    AllItemsAre(root, entries);
    forall it ensures it in AllItems(root, entries) <==> NamedItem(root, it) { ItemParentIsSelect(root, it); }
  }

  lemma AmbiguousInEntries(root: Node, tables: seq<Tables.AliasSite>, entries: seq<Indexed>, r: Range)
    requires forall s: Address :: IsSelect(root, s) <==> exists e :: e in entries && e.select == s
    ensures (exists f: nat :: f < |entries| && AmbiguousIn(root, tables, entries[f].select, r)) <==>
            exists s :: IsSelect(root, s) && AmbiguousIn(root, tables, s, r)
  {
    hide IsSelect, AmbiguousIn;
    if f: nat :| f < |entries| && AmbiguousIn(root, tables, entries[f].select, r) { assert entries[f] in entries; }
    if s :| IsSelect(root, s) && AmbiguousIn(root, tables, s, r) {
      var e :| e in entries && e.select == s;
      var f :| 0 <= f < |entries| && entries[f] == e;
    }
  }

  lemma ItemParentIsSelect(root: Node, it: Address)
    ensures NamedItem(root, it) ==> it != [] && IsSelect(root, it[..|it| - 1])
  {}
}
