/** What the search for a base column meets, counted by the places of tables, views and
    columns in the documents of a workspace. */
module TypeMatches {
  import opened Coordinates
  import opened Syntax
  import opened WorkspaceScan
  import opened QueryColumnTypes
  import opened PathsAndNames

  // ----- Counting -----

  /** The pairs of one number with the numbers of a set. */
  ghost function Pairs(i: nat, js: set<nat>): set<(nat, nat)> {
    set j | j in js :: (i, j)
  }

  lemma {:induction false} PairCount(i: nat, js: set<nat>)
    ensures |Pairs(i, js)| == |js|
  {
    if js == {} {
      assert Pairs(i, js) == {};
    } else {
      var k :| k in js;
      PairCount(i, js - {k});
      assert Pairs(i, js) == Pairs(i, js - {k}) + {(i, k)};
    }
  }

  lemma RowAdded(before: set<(nat, nat)>, after: set<(nat, nat)>, i: nat, js: set<nat>)
    requires after == before + Pairs(i, js) && before !! Pairs(i, js)
    ensures |after| == |before| + |js|
  {
    PairCount(i, js);
  }

  lemma SplitPairs(before: set<(nat, nat)>, after: set<(nat, nat)>, i: nat, js: set<nat>)
    requires forall k: nat, j: nat :: (k, j) in after <==> (k, j) in before || (k == i && j in js)
    ensures after == before + Pairs(i, js)
  {
    forall x ensures x in after <==> x in before + Pairs(i, js) { assert x == (x.0, x.1); }
  }

  // ----- Tables -----

  lemma {:induction false} ColumnRangesAppend(x: seq<BaseColumn>, y: seq<BaseColumn>, name: string)
    ensures ColumnRanges(x + y, name) == ColumnRanges(x, name) + ColumnRanges(y, name)
  {
    hide EqualFold;
    if x == [] {
      assert x + y == y;
    } else {
      assert (x + y)[1..] == x[1..] + y;
      var head := if EqualFold(x[0].name, name) then [x[0].typeRange] else [];
      assert ColumnRanges(x + y, name) == head + ColumnRanges(x[1..] + y, name) &&
        ColumnRanges(x, name) == head + ColumnRanges(x[1..], name);
      hide ColumnRanges;
      ColumnRangesAppend(x[1..], y, name);
    }
  }

  lemma {:induction false} TableColumnsAppend(x: seq<Table>, y: seq<Table>, table: Option<string>, name: string)
    ensures TableColumns(x + y, table, name) == TableColumns(x, table, name) + TableColumns(y, table, name)
  {
    hide EqualFold, ColumnRanges;
    if x == [] {
      assert x + y == y;
    } else {
      assert (x + y)[1..] == x[1..] + y;
      var head := if table.None? || EqualFold(x[0].name, table.value) then ColumnRanges(x[0].columns, name) else [];
      assert TableColumns(x + y, table, name) == head + TableColumns(x[1..] + y, table, name) &&
        TableColumns(x, table, name) == head + TableColumns(x[1..], table, name);
      hide TableColumns;
      TableColumnsAppend(x[1..], y, table, name);
    }
  }

  /** The columns of that name with that type. */
  predicate ColumnHit(columns: seq<BaseColumn>, name: string, r: Range, j: nat) {
    j < |columns| && EqualFold(columns[j].name, name) && columns[j].typeRange == r
  }

  ghost function ColumnHits(columns: seq<BaseColumn>, name: string, r: Range): set<nat> {
    set j: nat | j < |columns| && ColumnHit(columns, name, r, j)
  }

  lemma HitInRange(columns: seq<BaseColumn>, name: string, r: Range, j: nat)
    ensures ColumnHit(columns, name, r, j) ==> j < |columns|
  {}

  /** The table has that name, if one is given, and its j-th column is one of those. */
  predicate TableHit(tables: seq<Table>, table: Option<string>, name: string, r: Range, i: nat, j: nat) {
    i < |tables| && (table.Some? ==> EqualFold(tables[i].name, table.value)) && ColumnHit(tables[i].columns, name, r, j)
  }

  ghost function TableHits(tables: seq<Table>, table: Option<string>, name: string, r: Range): set<(nat, nat)> {
    set i: nat, j: nat | i < |tables| && j < |tables[i].columns| && TableHit(tables, table, name, r, i, j) :: (i, j)
  }

  lemma ColumnHitsStep(init: seq<BaseColumn>, last: BaseColumn, name: string, r: Range)
    ensures |ColumnHits(init + [last], name, r)| ==
            |ColumnHits(init, name, r)| + if EqualFold(last.name, name) && last.typeRange == r then 1 else 0
  {
    hide EqualFold;
    var hit := EqualFold(last.name, name) && last.typeRange == r;
    var before, after := ColumnHits(init, name, r), ColumnHits(init + [last], name, r);
    forall j: nat ensures j in after <==> j in before || (j == |init| && hit) {
      if j < |init| { assert (init + [last])[j] == init[j]; }
    }
    assert after == before + if hit then {|init|} else {};
  }

  lemma OneRange(last: BaseColumn, name: string)
    ensures ColumnRanges([last], name) == if EqualFold(last.name, name) then [last.typeRange] else []
  {
    hide EqualFold;
    assert ColumnRanges([last][1..], name) == [];
  }

  lemma {:induction false} ColumnCount(columns: seq<BaseColumn>, name: string, r: Range)
    ensures multiset(ColumnRanges(columns, name))[r] == |ColumnHits(columns, name, r)|
  {
    if columns == [] {
      assert ColumnHits(columns, name, r) == {};
    } else {
      var init, last := columns[..|columns| - 1], columns[|columns| - 1];
      assert columns == init + [last];
      hide EqualFold, ColumnRanges, ColumnHits;
      ColumnCount(init, name, r);
      ColumnRangesAppend(init, [last], name);
      OneRange(last, name);
      ColumnHitsStep(init, last, name, r);
    }
  }

  lemma OneTable(t: Table, table: Option<string>, name: string)
    ensures TableColumns([t], table, name) ==
            if table.Some? && !EqualFold(t.name, table.value) then [] else ColumnRanges(t.columns, name)
  {
    hide EqualFold, ColumnRanges;
    assert TableColumns([t][1..], table, name) == [];
  }

  lemma {:induction false} TableCount(tables: seq<Table>, table: Option<string>, name: string, r: Range)
    ensures multiset(TableColumns(tables, table, name))[r] == |TableHits(tables, table, name, r)|
  {
    if tables == [] {
      assert TableHits(tables, table, name, r) == {};
    } else {
      var init, t := tables[..|tables| - 1], tables[|tables| - 1];
      assert tables == init + [t];
      hide EqualFold, ColumnRanges, TableColumns, TableHits, ColumnHits;
      TableCount(init, table, name, r);
      TableColumnsAppend(init, [t], table, name);
      OneTable(t, table, name);
      ColumnCount(t.columns, name, r);
      var js := if table.Some? && !EqualFold(t.name, table.value) then {} else ColumnHits(t.columns, name, r);
      TableHitsStep(tables, init, t, table, name, r, js);
    }
  }

  lemma TableHitsStep(tables: seq<Table>, init: seq<Table>, t: Table, table: Option<string>, name: string, r: Range,
                      js: set<nat>)
    requires tables == init + [t]
    requires js == if table.Some? && !EqualFold(t.name, table.value) then {} else ColumnHits(t.columns, name, r)
    ensures |TableHits(tables, table, name, r)| == |TableHits(init, table, name, r)| + |js|
  {
    hide EqualFold, ColumnHit;
    var before, after := TableHits(init, table, name, r), TableHits(tables, table, name, r);
    forall i: nat, j: nat ensures (i, j) in after <==> (i, j) in before || (i == |init| && j in js) {
      if i < |init| { assert tables[i] == init[i]; } else { HitInRange(t.columns, name, r, j); }
    }
    SplitPairs(before, after, |init|, js);
    RowAdded(before, after, |init|, js);
  }

  /** How often a place in a document is found: as often as it has a column of that name
      and type, in a table of that name if one is given. */
  lemma TableMultiplicity(ws: Workspace, table: Option<string>, name: string, p: Path, r: Range)
    ensures TableMatches(ws, table, name)[(p, r)] == if p in ws then |TableHits(ws[p].tables, table, name, r)| else 0
  {
    hide TableColumns, TableHits;
    var found := (p: Path) => if p in ws then TableColumns(ws[p].tables, table, name) else [];
    assert TableMatches(ws, table, name) == Everywhere(ws.Keys, found);
    EverywhereCount(ws.Keys, found, (p, r));
    if p in ws { TableCount(ws[p].tables, table, name, r); }
  }

  // ----- Views -----

  lemma {:induction false} ColumnsNamedAppend(x: seq<Column>, y: seq<Column>, name: string)
    ensures ColumnsNamed(x + y, name) == ColumnsNamed(x, name) + ColumnsNamed(y, name)
  {
    hide EqualFold;
    if x == [] {
      assert x + y == y;
    } else {
      assert (x + y)[1..] == x[1..] + y;
      var head := if EqualFold(x[0].name, name) then [x[0]] else [];
      assert ColumnsNamed(x + y, name) == head + ColumnsNamed(x[1..] + y, name) &&
        ColumnsNamed(x, name) == head + ColumnsNamed(x[1..], name);
      hide ColumnsNamed;
      ColumnsNamedAppend(x[1..], y, name);
    }
  }

  lemma {:induction false} ViewColumnsAppend(x: seq<View>, y: seq<View>, view: string, name: string)
    ensures ViewColumns(x + y, view, name) == ViewColumns(x, view, name) + ViewColumns(y, view, name)
  {
    hide EqualFold, ColumnsNamed;
    if x == [] {
      assert x + y == y;
    } else {
      assert (x + y)[1..] == x[1..] + y;
      ViewColumnsFirst(x + y, view, name);
      ViewColumnsFirst(x, view, name);
      hide ViewColumns;
      ViewColumnsAppend(x[1..], y, view, name);
    }
  }

  lemma ViewColumnsFirst(views: seq<View>, view: string, name: string)
    requires views != []
    ensures ViewColumns(views, view, name) ==
            (if EqualFold(views[0].name, view) && views[0].shape.known then ColumnsNamed(views[0].shape.columns, name)
             else []) + ViewColumns(views[1..], view, name)
  {
    hide EqualFold, ColumnsNamed;
  }

  predicate ShapeHit(columns: seq<Column>, name: string, c: Column, j: nat) {
    j < |columns| && columns[j] == c && EqualFold(columns[j].name, name)
  }

  ghost function ShapeHits(columns: seq<Column>, name: string, c: Column): set<nat> {
    set j: nat | j < |columns| && ShapeHit(columns, name, c, j)
  }

  lemma ShapeInRange(columns: seq<Column>, name: string, c: Column, j: nat)
    ensures ShapeHit(columns, name, c, j) ==> j < |columns|
  {}

  /** The view has that name and a known shape, whose j-th column is that one and has that name. */
  predicate ViewHit(views: seq<View>, view: string, name: string, c: Column, i: nat, j: nat) {
    i < |views| && EqualFold(views[i].name, view) && views[i].shape.known &&
      ShapeHit(views[i].shape.columns, name, c, j)
  }

  ghost function ViewHits(views: seq<View>, view: string, name: string, c: Column): set<(nat, nat)> {
    set i: nat, j: nat | i < |views| && j < |views[i].shape.columns| && ViewHit(views, view, name, c, i, j) :: (i, j)
  }

  lemma ShapeHitsStep(init: seq<Column>, last: Column, name: string, c: Column)
    ensures |ShapeHits(init + [last], name, c)| ==
            |ShapeHits(init, name, c)| + if EqualFold(last.name, name) && last == c then 1 else 0
  {
    hide EqualFold;
    var hit := EqualFold(last.name, name) && last == c;
    var before, after := ShapeHits(init, name, c), ShapeHits(init + [last], name, c);
    forall j: nat ensures j in after <==> j in before || (j == |init| && hit) {
      if j < |init| { assert (init + [last])[j] == init[j]; }
    }
    assert after == before + if hit then {|init|} else {};
  }

  lemma OneColumn(last: Column, name: string)
    ensures ColumnsNamed([last], name) == if EqualFold(last.name, name) then [last] else []
  {
    hide EqualFold;
    assert ColumnsNamed([last][1..], name) == [];
  }

  lemma {:induction false} ShapeCount(columns: seq<Column>, name: string, c: Column)
    ensures multiset(ColumnsNamed(columns, name))[c] == |ShapeHits(columns, name, c)|
  {
    if columns == [] {
      assert ShapeHits(columns, name, c) == {};
    } else {
      var init, last := columns[..|columns| - 1], columns[|columns| - 1];
      assert columns == init + [last];
      hide EqualFold, ColumnsNamed, ShapeHits;
      ShapeCount(init, name, c);
      ColumnsNamedAppend(init, [last], name);
      OneColumn(last, name);
      ShapeHitsStep(init, last, name, c);
    }
  }

  lemma OneView(v: View, view: string, name: string)
    ensures ViewColumns([v], view, name) ==
            if EqualFold(v.name, view) && v.shape.known then ColumnsNamed(v.shape.columns, name) else []
  {
    hide EqualFold, ColumnsNamed;
    assert ViewColumns([v][1..], view, name) == [];
  }

  lemma {:induction false} ViewCount(views: seq<View>, view: string, name: string, c: Column)
    ensures multiset(ViewColumns(views, view, name))[c] == |ViewHits(views, view, name, c)|
  {
    if views == [] {
      assert ViewHits(views, view, name, c) == {};
    } else {
      var init, v := views[..|views| - 1], views[|views| - 1];
      assert views == init + [v];
      hide EqualFold, ColumnsNamed, ViewColumns, ViewHits, ShapeHits;
      ViewCount(init, view, name, c);
      ViewColumnsAppend(init, [v], view, name);
      OneView(v, view, name);
      ShapeCount(v.shape.columns, name, c);
      var js := if EqualFold(v.name, view) && v.shape.known then ShapeHits(v.shape.columns, name, c) else {};
      ViewHitsStep(views, init, v, view, name, c, js);
    }
  }

  lemma ViewHitsStep(views: seq<View>, init: seq<View>, v: View, view: string, name: string, c: Column, js: set<nat>)
    requires views == init + [v]
    requires js == if EqualFold(v.name, view) && v.shape.known then ShapeHits(v.shape.columns, name, c) else {}
    ensures |ViewHits(views, view, name, c)| == |ViewHits(init, view, name, c)| + |js|
  {
    hide EqualFold, ShapeHit;
    var before, after := ViewHits(init, view, name, c), ViewHits(views, view, name, c);
    forall i: nat, j: nat ensures (i, j) in after <==> (i, j) in before || (i == |init| && j in js) {
      if i < |init| { assert views[i] == init[i]; } else { ShapeInRange(v.shape.columns, name, c, j); }
    }
    SplitPairs(before, after, |init|, js);
    RowAdded(before, after, |init|, js);
  }

  /** The same for the columns of views of known shape. */
  lemma ViewMultiplicity(ws: Workspace, view: string, name: string, p: Path, c: Column)
    ensures ViewMatches(ws, view, name)[(p, c)] == if p in ws then |ViewHits(ws[p].views, view, name, c)| else 0
  {
    hide ViewColumns, ViewHits;
    var found := (p: Path) => if p in ws then ViewColumns(ws[p].views, view, name) else [];
    assert ViewMatches(ws, view, name) == Everywhere(ws.Keys, found);
    EverywhereCount(ws.Keys, found, (p, c));
    if p in ws { ViewCount(ws[p].views, view, name, c); }
  }

  // ----- The only match -----

  /** A column of that name, in a table of that name if one is given. */
  ghost predicate TablePlace(ws: Workspace, table: Option<string>, name: string, p: Path, i: nat, j: nat) {
    && p in ws && i < |ws[p].tables| && j < |ws[p].tables[i].columns|
    && (table.Some? ==> EqualFold(ws[p].tables[i].name, table.value))
    && EqualFold(ws[p].tables[i].columns[j].name, name)
  }

  /** A column of that name, in a view of that name and of known shape. */
  ghost predicate ViewPlace(ws: Workspace, view: string, name: string, p: Path, i: nat, j: nat) {
    && p in ws && i < |ws[p].views| && j < |ws[p].views[i].shape.columns| && ws[p].views[i].shape.known
    && EqualFold(ws[p].views[i].name, view) && EqualFold(ws[p].views[i].shape.columns[j].name, name)
  }

  /** The place at which the type is found is the only one in the workspace. */
  ghost predicate OnlyTable(ws: Workspace, table: Option<string>, name: string, p: Path, r: Range) {
    exists i: nat, j: nat :: TablePlace(ws, table, name, p, i, j) && ws[p].tables[i].columns[j].typeRange == r &&
      forall q, k: nat, l: nat :: TablePlace(ws, table, name, q, k, l) ==> q == p && k == i && l == j
  }

  ghost predicate OnlyView(ws: Workspace, view: string, name: string, p: Path, c: Column) {
    exists i: nat, j: nat :: ViewPlace(ws, view, name, p, i, j) && ws[p].views[i].shape.columns[j] == c &&
      forall q, k: nat, l: nat :: ViewPlace(ws, view, name, q, k, l) ==> q == p && k == i && l == j
  }

  ghost predicate NoTable(ws: Workspace, table: Option<string>, name: string) {
    forall p, i: nat, j: nat :: !TablePlace(ws, table, name, p, i, j)
  }

  ghost predicate NoView(ws: Workspace, view: string, name: string) {
    forall p, i: nat, j: nat :: !ViewPlace(ws, view, name, p, i, j)
  }

  lemma TableHitIsPlace(ws: Workspace, table: Option<string>, name: string, p: Path, r: Range, i: nat, j: nat)
    requires p in ws
    ensures (i, j) in TableHits(ws[p].tables, table, name, r) <==>
            TablePlace(ws, table, name, p, i, j) && ws[p].tables[i].columns[j].typeRange == r
  {
    hide EqualFold;
  }

  lemma ViewHitIsPlace(ws: Workspace, view: string, name: string, p: Path, c: Column, i: nat, j: nat)
    requires p in ws
    ensures (i, j) in ViewHits(ws[p].views, view, name, c) <==>
            ViewPlace(ws, view, name, p, i, j) && ws[p].views[i].shape.columns[j] == c
  {
    hide EqualFold;
  }

  /** The matches are one exactly when there is one place. */
  lemma OneTableMatch(ws: Workspace, table: Option<string>, name: string, p: Path, r: Range)
    ensures TableMatches(ws, table, name) == multiset{(p, r)} <==> OnlyTable(ws, table, name, p, r)
  {
    var m := TableMatches(ws, table, name);
    hide TableMatches, TablePlace, TableHits;
    forall q, t ensures m[(q, t)] == if q in ws then |TableHits(ws[q].tables, table, name, t)| else 0 {
      TableMultiplicity(ws, table, name, q, t);
    }
    forall q, k: nat, l: nat | TablePlace(ws, table, name, q, k, l)
      ensures InTables(ws, q, k, l) && (q, TypeAt(ws, q, k, l)) in m
    {
      PlaceIsMatch(ws, table, name, q, k, l);
    }
    if m == multiset{(p, r)} {
      assert m[(p, r)] == 1;
      var hits := TableHits(ws[p].tables, table, name, r);
      var x :| x in hits;
      TableHitIsPlace(ws, table, name, p, r, x.0, x.1);
      forall q, k: nat, l: nat | TablePlace(ws, table, name, q, k, l) ensures q == p && k == x.0 && l == x.1 {
        assert (q, TypeAt(ws, q, k, l)) in m;
        TableHitIsPlace(ws, table, name, p, r, k, l);
        SameElement(hits, x, (k, l));
      }
    }
    if OnlyTable(ws, table, name, p, r) {
      var i: nat, j: nat :| TablePlace(ws, table, name, p, i, j) && InTables(ws, p, i, j) && TypeAt(ws, p, i, j) == r &&
        forall q, k: nat, l: nat :: TablePlace(ws, table, name, q, k, l) ==> q == p && k == i && l == j;
      forall q, t ensures m[(q, t)] == if q == p && t == r then 1 else 0 {
        if q in ws { OnlyHit(ws, table, name, p, i, j, q, t); } else { PlaceInside(ws, table, name, p, i, j); }
      }
      forall x ensures m[x] == multiset{(p, r)}[x] { assert x == (x.0, x.1); }
    }
  }

  predicate InTables(ws: Workspace, p: Path, i: nat, j: nat) {
    p in ws && i < |ws[p].tables| && j < |ws[p].tables[i].columns|
  }

  function TypeAt(ws: Workspace, p: Path, i: nat, j: nat): Range
    requires InTables(ws, p, i, j)
  {
    ws[p].tables[i].columns[j].typeRange
  }

  lemma PlaceInside(ws: Workspace, table: Option<string>, name: string, p: Path, i: nat, j: nat)
    requires TablePlace(ws, table, name, p, i, j)
    ensures InTables(ws, p, i, j)
  {}

  lemma PlaceIsMatch(ws: Workspace, table: Option<string>, name: string, p: Path, i: nat, j: nat)
    requires TablePlace(ws, table, name, p, i, j)
    ensures InTables(ws, p, i, j) && (p, TypeAt(ws, p, i, j)) in TableMatches(ws, table, name)
  {
    PlaceInside(ws, table, name, p, i, j);
    TableHitIsPlace(ws, table, name, p, TypeAt(ws, p, i, j), i, j);
    TableMultiplicity(ws, table, name, p, TypeAt(ws, p, i, j));
    hide TableHits, TableMatches, TablePlace;
    var hits := TableHits(ws[p].tables, table, name, TypeAt(ws, p, i, j));
    assert (i, j) in hits;
    assert |hits| > 0;
  }

  lemma OnlyHit(ws: Workspace, table: Option<string>, name: string, p: Path, i: nat, j: nat, q: Path, t: Range)
    requires TablePlace(ws, table, name, p, i, j) && InTables(ws, p, i, j) && q in ws
    requires forall q, k: nat, l: nat :: TablePlace(ws, table, name, q, k, l) ==> q == p && k == i && l == j
    ensures |TableHits(ws[q].tables, table, name, t)| == if q == p && t == TypeAt(ws, p, i, j) then 1 else 0
  {
    var hits := TableHits(ws[q].tables, table, name, t);
    forall k: nat, l: nat ensures (k, l) in hits <==> q == p && t == TypeAt(ws, p, i, j) && k == i && l == j {
      TableHitIsPlace(ws, table, name, q, t, k, l);
    }
    hide TableHits, TablePlace;
    if q == p && t == TypeAt(ws, p, i, j) {
      forall x ensures x in hits <==> x == (i, j) { assert x == (x.0, x.1); }
      assert hits == {(i, j)};
    } else {
      forall x ensures x !in hits { assert x == (x.0, x.1); }
      assert hits == {};
    }
  }

  lemma NoTableMatch(ws: Workspace, table: Option<string>, name: string)
    ensures |TableMatches(ws, table, name)| == 0 <==> NoTable(ws, table, name)
  {
    var m := TableMatches(ws, table, name);
    hide TableMatches, TablePlace, TableHits;
    if p, i: nat, j: nat :| TablePlace(ws, table, name, p, i, j) {
      PlaceIsMatch(ws, table, name, p, i, j);
    }
    if |m| != 0 {
      var x :| x in m;
      TableMultiplicity(ws, table, name, x.0, x.1);
      assert x == (x.0, x.1);
      var h :| h in TableHits(ws[x.0].tables, table, name, x.1);
      TableHitIsPlace(ws, table, name, x.0, x.1, h.0, h.1);
      assert TablePlace(ws, table, name, x.0, h.0, h.1);
    }
  }

  predicate InViews(ws: Workspace, p: Path, i: nat, j: nat) {
    p in ws && i < |ws[p].views| && j < |ws[p].views[i].shape.columns|
  }

  function ColumnAt(ws: Workspace, p: Path, i: nat, j: nat): Column
    requires InViews(ws, p, i, j)
  {
    ws[p].views[i].shape.columns[j]
  }

  lemma ViewInside(ws: Workspace, view: string, name: string, p: Path, i: nat, j: nat)
    requires ViewPlace(ws, view, name, p, i, j)
    ensures InViews(ws, p, i, j)
  {}

  lemma ViewIsMatch(ws: Workspace, view: string, name: string, p: Path, i: nat, j: nat)
    requires ViewPlace(ws, view, name, p, i, j)
    ensures InViews(ws, p, i, j) && (p, ColumnAt(ws, p, i, j)) in ViewMatches(ws, view, name)
  {
    ViewInside(ws, view, name, p, i, j);
    ViewHitIsPlace(ws, view, name, p, ColumnAt(ws, p, i, j), i, j);
    ViewMultiplicity(ws, view, name, p, ColumnAt(ws, p, i, j));
    hide ViewHits, ViewMatches, ViewPlace;
    var hits := ViewHits(ws[p].views, view, name, ColumnAt(ws, p, i, j));
    assert (i, j) in hits;
    assert |hits| > 0;
  }

  lemma OnlyViewHit(ws: Workspace, view: string, name: string, p: Path, i: nat, j: nat, q: Path, c: Column)
    requires ViewPlace(ws, view, name, p, i, j) && InViews(ws, p, i, j) && q in ws
    requires forall q, k: nat, l: nat :: ViewPlace(ws, view, name, q, k, l) ==> q == p && k == i && l == j
    ensures |ViewHits(ws[q].views, view, name, c)| == if q == p && c == ColumnAt(ws, p, i, j) then 1 else 0
  {
    var hits := ViewHits(ws[q].views, view, name, c);
    forall k: nat, l: nat ensures (k, l) in hits <==> q == p && c == ColumnAt(ws, p, i, j) && k == i && l == j {
      ViewHitIsPlace(ws, view, name, q, c, k, l);
    }
    hide ViewHits, ViewPlace;
    if q == p && c == ColumnAt(ws, p, i, j) {
      forall x ensures x in hits <==> x == (i, j) { assert x == (x.0, x.1); }
      assert hits == {(i, j)};
    } else {
      forall x ensures x !in hits { assert x == (x.0, x.1); }
      assert hits == {};
    }
  }

  lemma OneViewMatch(ws: Workspace, view: string, name: string, p: Path, c: Column)
    ensures ViewMatches(ws, view, name) == multiset{(p, c)} <==> OnlyView(ws, view, name, p, c)
  {
    var m := ViewMatches(ws, view, name);
    hide ViewMatches, ViewPlace, ViewHits;
    forall q, t ensures m[(q, t)] == if q in ws then |ViewHits(ws[q].views, view, name, t)| else 0 {
      ViewMultiplicity(ws, view, name, q, t);
    }
    forall q, k: nat, l: nat | ViewPlace(ws, view, name, q, k, l)
      ensures InViews(ws, q, k, l) && (q, ColumnAt(ws, q, k, l)) in m
    {
      ViewIsMatch(ws, view, name, q, k, l);
    }
    if m == multiset{(p, c)} {
      assert m[(p, c)] == 1;
      var hits := ViewHits(ws[p].views, view, name, c);
      var x :| x in hits;
      ViewHitIsPlace(ws, view, name, p, c, x.0, x.1);
      forall q, k: nat, l: nat | ViewPlace(ws, view, name, q, k, l) ensures q == p && k == x.0 && l == x.1 {
        assert (q, ColumnAt(ws, q, k, l)) in m;
        ViewHitIsPlace(ws, view, name, p, c, k, l);
        SameElement(hits, x, (k, l));
      }
    }
    if OnlyView(ws, view, name, p, c) {
      var i: nat, j: nat :| ViewPlace(ws, view, name, p, i, j) && InViews(ws, p, i, j) && ColumnAt(ws, p, i, j) == c &&
        forall q, k: nat, l: nat :: ViewPlace(ws, view, name, q, k, l) ==> q == p && k == i && l == j;
      forall q, t ensures m[(q, t)] == if q == p && t == c then 1 else 0 {
        if q in ws { OnlyViewHit(ws, view, name, p, i, j, q, t); } else { ViewInside(ws, view, name, p, i, j); }
      }
      forall x ensures m[x] == multiset{(p, c)}[x] { assert x == (x.0, x.1); }
    }
  }

  lemma NoViewMatch(ws: Workspace, view: string, name: string)
    ensures |ViewMatches(ws, view, name)| == 0 <==> NoView(ws, view, name)
  {
    var m := ViewMatches(ws, view, name);
    hide ViewMatches, ViewPlace, ViewHits;
    if p, i: nat, j: nat :| ViewPlace(ws, view, name, p, i, j) {
      ViewIsMatch(ws, view, name, p, i, j);
    }
    if |m| != 0 {
      var x :| x in m;
      ViewMultiplicity(ws, view, name, x.0, x.1);
      assert x == (x.0, x.1);
      var h :| h in ViewHits(ws[x.0].views, view, name, x.1);
      ViewHitIsPlace(ws, view, name, x.0, x.1, h.0, h.1);
      assert ViewPlace(ws, view, name, x.0, h.0, h.1);
    }
  }

  // ----- What one link means -----

  /** The column is the first of its name in a shape that is known. */
  ghost predicate FirstIn(shape: Shape, name: string, c: Column) {
    shape.known && exists k: nat :: FirstAt(shape.columns, name, c, k)
  }

  ghost predicate FirstAt(columns: seq<Column>, name: string, c: Column, k: nat) {
    && k < |columns| && columns[k] == c && EqualFold(c.name, name)
    && forall l :: 0 <= l < k ==> !EqualFold(columns[l].name, name)
  }

  lemma FirstAtNext(columns: seq<Column>, name: string, c: Column, k: nat)
    requires columns != [] && !EqualFold(columns[0].name, name)
    ensures FirstAt(columns, name, c, k + 1) <==> FirstAt(columns[1..], name, c, k)
    ensures !FirstAt(columns, name, c, 0)
  {
    hide EqualFold;
    assert forall l :: 0 <= l < |columns[1..]| ==> columns[1..][l] == columns[l + 1];
    if FirstAt(columns[1..], name, c, k) {
      forall l | 0 <= l < k + 1 ensures !EqualFold(columns[l].name, name) {
        if l > 0 { assert columns[l] == columns[1..][l - 1]; }
      }
    }
  }

  lemma {:induction false} FirstNamedIs(columns: seq<Column>, name: string, c: Column)
    ensures FirstNamed(columns, name) == Some(c) <==> exists k: nat :: FirstAt(columns, name, c, k)
  {
    if columns != [] {
      FirstNamedIs(columns[1..], name, c);
      if EqualFold(columns[0].name, name) {
        if columns[0] == c { assert FirstAt(columns, name, c, 0); }
      } else {
        hide FirstAt, EqualFold;
        if k: nat :| FirstAt(columns, name, c, k) { FirstAtNext(columns, name, c, if k > 0 then k - 1 else 0); }
        if k: nat :| FirstAt(columns[1..], name, c, k) { FirstAtNext(columns, name, c, k); }
      }
    }
  }

  lemma ColumnNamedIs(shape: Shape, name: string, c: Column)
    ensures ColumnNamed(shape, name) == Some(c) <==> FirstIn(shape, name, c)
  {
    FirstNamedIs(shape.columns, name, c);
    hide FirstNamed, EqualFold, FirstAt;
  }

  /** The member is the first one that covers the position. */
  ghost predicate FirstCovering(members: seq<Member>, pos: Position, m: Member) {
    exists k: nat :: CoversAt(members, pos, m, k)
  }

  ghost predicate CoversAt(members: seq<Member>, pos: Position, m: Member, k: nat) {
    && k < |members| && members[k] == m && RangeIncludesPosition(m.range, pos)
    && forall l :: 0 <= l < k ==> !RangeIncludesPosition(members[l].range, pos)
  }

  lemma CoversNext(members: seq<Member>, pos: Position, m: Member, k: nat)
    requires members != [] && !RangeIncludesPosition(members[0].range, pos)
    ensures CoversAt(members, pos, m, k + 1) <==> CoversAt(members[1..], pos, m, k)
    ensures !CoversAt(members, pos, m, 0)
  {
    hide RangeIncludesPosition;
    assert forall l :: 0 <= l < |members[1..]| ==> members[1..][l] == members[l + 1];
    if CoversAt(members[1..], pos, m, k) {
      forall l | 0 <= l < k + 1 ensures !RangeIncludesPosition(members[l].range, pos) {
        if l > 0 { assert members[l] == members[1..][l - 1]; }
      }
    }
  }

  lemma {:induction false} MemberAtIs(members: seq<Member>, pos: Position, m: Member)
    ensures MemberAt(members, pos) == Some(m) <==> FirstCovering(members, pos, m)
  {
    if members != [] {
      MemberAtIs(members[1..], pos, m);
      if RangeIncludesPosition(members[0].range, pos) {
        if members[0] == m { assert CoversAt(members, pos, m, 0); }
      } else {
        hide CoversAt, RangeIncludesPosition;
        if k: nat :| CoversAt(members, pos, m, k) { CoversNext(members, pos, m, if k > 0 then k - 1 else 0); }
        if k: nat :| CoversAt(members[1..], pos, m, k) { CoversNext(members, pos, m, k); }
      }
    }
  }

  /** The query that an alias stands for, a CTE before a derived table; none for a plain name. */
  ghost predicate QueryOf(m: Member, shape: Shape) {
    if m.sourceCte.Some? then shape == m.sourceCte.value else m.source.known && shape == m.source
  }

  /** The alias stands for a table or view by name. */
  ghost predicate ByTable(m: Member) {
    m.sourceCte.None? && !m.source.known && m.sourceTableName != ""
  }

  /** A member answers with a base column exactly when its alias stands for a name, one
      table column of the workspace answers to it, and no view column does. */
  lemma MemberFinds(ws: Workspace, path: Path, m: Member, p: Path, r: Range)
    ensures MemberStep(ws, path, m) == Found(Location(p, r)) <==>
            ByTable(m) && OnlyTable(ws, Some(m.sourceTableName), m.name, p, r) && NoView(ws, m.sourceTableName, m.name)
  {
    var tables, views := TableMatches(ws, Some(m.sourceTableName), m.name), ViewMatches(ws, m.sourceTableName, m.name);
    hide TableMatches, ViewMatches, OnlyTable, NoView, ColumnNamed;
    OneTableMatch(ws, Some(m.sourceTableName), m.name, p, r);
    NoViewMatch(ws, m.sourceTableName, m.name);
    OneElement(tables, (p, r));
  }

  /** It leads on to a column of its query, the first of its name, or to the only view
      column where no table column answers. */
  lemma MemberFollows(ws: Workspace, path: Path, m: Member, f: Fact)
    ensures MemberStep(ws, path, m) == Follow(f) <==>
            || (f.path == path && exists shape :: QueryOf(m, shape) && FirstIn(shape, m.name, f.column))
            || (ByTable(m) && OnlyView(ws, m.sourceTableName, m.name, f.path, f.column) &&
                  NoTable(ws, Some(m.sourceTableName), m.name))
  {
    var tables, views := TableMatches(ws, Some(m.sourceTableName), m.name), ViewMatches(ws, m.sourceTableName, m.name);
    hide TableMatches, ViewMatches, OnlyView, NoTable, ColumnNamed, FirstIn;
    OneViewMatch(ws, m.sourceTableName, m.name, f.path, f.column);
    NoTableMatch(ws, Some(m.sourceTableName), m.name);
    OneElement(views, (f.path, f.column));
    ColumnNamedIs(m.source, m.name, f.column);
    if m.sourceCte.Some? { ColumnNamedIs(m.sourceCte.value, m.name, f.column); }
  }

  /** The member is the first of its document that covers the source of the column. */
  ghost predicate Covers(ws: Workspace, f: Fact, m: Member) {
    f.path in ws && FirstCovering(ws[f.path].members, f.column.sourceStart, m)
  }

  /** It leads there. */
  ghost predicate CoversAndLeads(ws: Workspace, f: Fact, m: Member, outcome: Outcome) {
    Covers(ws, f, m) && MemberStep(ws, f.path, m) == outcome
  }

  /** No member covers the source, and its name is that of one table column of the workspace. */
  ghost predicate LeadsByName(ws: Workspace, f: Fact, outcome: Outcome) {
    && (forall m :: !Covers(ws, f, m)) && outcome.Found?
    && OnlyTable(ws, None, f.column.sourceName, outcome.location.path, outcome.location.range)
  }

  lemma CoveredIs(ws: Workspace, f: Fact, m: Member)
    ensures MemberAt(Members(ws, f.path), f.column.sourceStart) == Some(m) <==> Covers(ws, f, m)
  {
    MemberAtIs(Members(ws, f.path), f.column.sourceStart, m);
    hide MemberAt, FirstCovering;
    if f.path !in ws { NoneCovers(f.column.sourceStart, m); }
  }

  lemma NoneCovers(pos: Position, m: Member)
    ensures !FirstCovering([], pos, m)
  {}

  /** A column of a query leads where the first member that covers its source leads; a
      source that no member covers answers with the only table column of its name. */
  lemma StepIs(ws: Workspace, f: Fact, outcome: Outcome)
    requires !outcome.Stop?
    ensures Step(ws, f) == outcome <==>
            f.column.sourceName != "" &&
              ((exists m :: CoversAndLeads(ws, f, m, outcome)) || LeadsByName(ws, f, outcome))
  {
    hide TableMatches, OnlyTable, MemberStep, MemberAt, Covers, Members;
    forall m ensures MemberAt(Members(ws, f.path), f.column.sourceStart) == Some(m) <==> Covers(ws, f, m) {
      CoveredIs(ws, f, m);
    }
    if outcome.Found? {
      var l := outcome.location;
      OneTableMatch(ws, None, f.column.sourceName, l.path, l.range);
      OneElement(TableMatches(ws, None, f.column.sourceName), (l.path, l.range));
    }
    var found := MemberAt(Members(ws, f.path), f.column.sourceStart);
    if found.Some? && Step(ws, f) == outcome { assert CoversAndLeads(ws, f, found.value, outcome); }
  }

  /** Two columns are taken for one by the visited set exactly when they stand in the same
      document, at the same place, under the same name but for case. */
  lemma KeyIff(f: Fact, g: Fact)
    ensures Key(f) == Key(g) <==>
            f.path == g.path && f.column.start == g.column.start && SameButCase(f.column.name, g.column.name)
  {
    FoldIff(f.column.name, g.column.name);
    hide SameButCase, Fold;
  }
}
