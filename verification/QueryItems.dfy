/** The shape of a query by the items of its SELECT list. */
module QueryItems {
  import opened Coordinates
  import opened Syntax
  import opened WorkspaceScan
  import opened QueryShapes
  import opened PathsAndNames

  /** The places of the items among the children of a SELECT, in order. */
  ghost predicate ListsItems(kids: seq<Node>, at: seq<nat>) {
    && (forall i, j :: 0 <= i < j < |at| ==> at[i] < at[j])
    && forall k: nat :: k in at <==> k < |kids| && kids[k].kind.Item?
  }

  /** Every item gives its column a name, and no two give the same but for its case. */
  ghost predicate AllNamedApart(kids: seq<Node>) {
    && (forall k :: 0 <= k < |kids| && kids[k].kind.Item? ==> kids[k].kind.result.Some?)
    && forall j, k :: 0 <= j < k < |kids| && Named(kids[j]) && Named(kids[k]) ==>
         !SameButCase(kids[j].kind.result.value.name, kids[k].kind.result.value.name)
  }

  ghost predicate Named(n: Node) {
    n.kind.Item? && n.kind.result.Some?
  }

  /** The column that the item gives. */
  ghost predicate IsColumn(c: Column, n: Node) {
    && Named(n) && c.name == n.kind.result.value.name && c.declarationRange == n.kind.result.value.range
    && (c.explicit <==> n.kind.explicit)
  }

  /** What the list holds for the item. */
  ghost predicate Gives(n: Node, item: Option<Column>) {
    n.kind.Item? && if item.Some? then IsColumn(item.value, n) else n.kind.result.None?
  }

  /** One more child is one more place if it is an item. */
  lemma PlacesStep(kids: seq<Node>, before: seq<nat>)
    requires kids != [] && ListsItems(kids[..|kids| - 1], before)
    ensures var last := |kids| - 1;
            ListsItems(kids, before + if kids[last].kind.Item? then [last] else [])
    ensures forall i :: 0 <= i < |before| ==> before[i] in before && before[i] < |kids| - 1
  {
    var last := |kids| - 1;
    var at := before + if kids[last].kind.Item? then [last] else [];
    forall i | 0 <= i < |before| ensures before[i] < last { assert before[i] in before; }
    forall k: nat ensures k in at <==> k < |kids| && kids[k].kind.Item? {
      assert k in at <==> k in before || (kids[last].kind.Item? && k == last);
      assert k < last ==> kids[k] == kids[..last][k];
    }
  }

  lemma OneItem(n: Node)
    ensures |ItemColumn(n)| == if n.kind.Item? then 1 else 0
    ensures n.kind.Item? ==> Gives(n, ItemColumn(n)[0])
  {}

  lemma {:induction false} ItemsGiven(kids: seq<Node>) returns (at: seq<nat>)
    ensures ListsItems(kids, at) && |at| == |ItemColumns(kids)|
    ensures forall i :: 0 <= i < |at| ==> at[i] in at && at[i] < |kids| && Gives(kids[at[i]], ItemColumns(kids)[i])
  {
    at := [];
    if kids != [] {
      var last := |kids| - 1;
      var before := ItemsGiven(kids[..last]);
      PlacesStep(kids, before);
      OneItem(kids[last]);
      hide ListsItems, Gives, ItemColumn;
      at := before + if kids[last].kind.Item? then [last] else [];
      forall i | 0 <= i < |at| ensures at[i] in at && at[i] < |kids| && Gives(kids[at[i]], ItemColumns(kids)[i]) {
        if i < |before| { assert at[i] == before[i] && kids[before[i]] == kids[..last][before[i]]; }
      }
    }
  }

  /** A query that is no plain SELECT has no known shape. That of a SELECT is known exactly when
      its items are named apart; its columns are then the items in order. */
  lemma ShapeByItems(query: Node) returns (at: seq<nat>)
    ensures !query.kind.Select? ==> ShapeOfQuery(query) == Shape(false, [])
    ensures query.kind.Select? ==> ListsItems(Kids(query), at)
    ensures query.kind.Select? ==> (ShapeOfQuery(query).known <==> AllNamedApart(Kids(query)))
    ensures ShapeOfQuery(query).known ==>
              && |ShapeOfQuery(query).columns| == |at|
              && forall i :: 0 <= i < |at| ==>
                   at[i] in at && IsColumn(ShapeOfQuery(query).columns[i], Kids(query)[at[i]])
    ensures !ShapeOfQuery(query).known ==> ShapeOfQuery(query).columns == []
  {
    at := [];
    if query.kind.Select? {
      var kids := Kids(query);
      at := ItemsGiven(kids);
      ApartIff(kids, at, ItemColumns(kids));
      hide NamedApart, AllNamedApart, Kids, ItemColumns, Gives, IsColumn;
      var items := ListOf(query).value;
      assert items == ItemColumns(kids);
      if ShapeOfQuery(query).known {
        forall i | 0 <= i < |at| ensures IsColumn(ShapeOfQuery(query).columns[i], kids[at[i]]) {
          assert items[i] == Some(ShapeOfQuery(query).columns[i]);
          GivesColumn(kids[at[i]], ShapeOfQuery(query).columns[i]);
        }
      }
    }
  }

  lemma GivesColumn(n: Node, c: Column)
    requires Gives(n, Some(c))
    ensures IsColumn(c, n)
  {}

  lemma Increases(at: seq<nat>, i: nat, l: nat)
    requires i < |at| && l < |at| && forall j, k :: 0 <= j < k < |at| ==> at[j] < at[k]
    ensures at[i] < at[l] ==> i < l
  {}

  lemma ApartIff(kids: seq<Node>, at: seq<nat>, items: seq<Option<Column>>)
    requires ListsItems(kids, at) && |at| == |items|
    requires forall i :: 0 <= i < |at| ==> at[i] in at && Gives(kids[at[i]], items[i])
    ensures NamedApart(items) <==> AllNamedApart(kids)
  {
    hide SameButCase, EqualFold;
    if NamedApart(items) {
      forall k | 0 <= k < |kids| && kids[k].kind.Item? ensures kids[k].kind.result.Some? {
        var i :| 0 <= i < |at| && at[i] == k;
        assert Gives(kids[at[i]], items[i]);
      }
      forall j, k | 0 <= j < k < |kids| && Named(kids[j]) && Named(kids[k])
        ensures !SameButCase(kids[j].kind.result.value.name, kids[k].kind.result.value.name)
      {
        var i :| 0 <= i < |at| && at[i] == j;
        var l :| 0 <= l < |at| && at[l] == k;
        assert Gives(kids[at[i]], items[i]) && Gives(kids[at[l]], items[l]);
        Increases(at, i, l);
        FoldIff(items[i].value.name, items[l].value.name);
      }
    }
    if AllNamedApart(kids) {
      forall i | 0 <= i < |items| ensures items[i].Some? { assert at[i] in at && Gives(kids[at[i]], items[i]); }
      forall i, l | 0 <= i < l < |items| ensures !EqualFold(items[i].value.name, items[l].value.name) {
        assert at[i] in at && at[l] in at && Gives(kids[at[i]], items[i]) && Gives(kids[at[l]], items[l]);
        FoldIff(items[i].value.name, items[l].value.name);
        assert Named(kids[at[i]]) && Named(kids[at[l]]);
      }
    }
  }
}
