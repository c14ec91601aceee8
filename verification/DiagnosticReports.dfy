/** Which members are reported as unknown columns, by the tables, views and queries that
    their aliases stand for. */
module DiagnosticReports {
  import opened Coordinates
  import opened Syntax
  import opened Sorting
  import opened WorkspaceScan
  import opened Diagnostics

  // ----- Named sources -----

  /** The k-th table of a document has the name. */
  ghost predicate TableNamed(ws: Workspace, name: string, p: Path, k: nat) {
    p in ws && k < |ws[p].tables| && EqualFold(ws[p].tables[k].name, name)
  }

  ghost predicate ViewNamed(ws: Workspace, name: string, p: Path, k: nat) {
    p in ws && k < |ws[p].views| && EqualFold(ws[p].views[k].name, name)
  }

  ghost predicate SoleTable(ws: Workspace, name: string, p: Path, k: nat) {
    TableNamed(ws, name, p, k) && forall q, l: nat :: TableNamed(ws, name, q, l) ==> q == p && l == k
  }

  ghost predicate SoleView(ws: Workspace, name: string, p: Path, k: nat) {
    ViewNamed(ws, name, p, k) && forall q, l: nat :: ViewNamed(ws, name, q, l) ==> q == p && l == k
  }

  /** It is the only table of the name in the workspace, and no view has the name. */
  ghost predicate OneTable(ws: Workspace, name: string, p: Path, k: nat) {
    SoleTable(ws, name, p, k) && forall q, l: nat :: !ViewNamed(ws, name, q, l)
  }

  ghost predicate OneView(ws: Workspace, name: string, p: Path, k: nat) {
    SoleView(ws, name, p, k) && forall q, l: nat :: !TableNamed(ws, name, q, l)
  }

  ghost predicate TableLacks(t: Table, name: string) {
    forall k :: 0 <= k < |t.columns| ==> !EqualFold(t.columns[k].name, name)
  }

  ghost predicate Lacks(columns: seq<string>, name: string) {
    forall k :: 0 <= k < |columns| ==> !EqualFold(columns[k], name)
  }

  // ----- What is reported -----

  /** The report of an unknown column at a member, related to the declaration of its source. */
  ghost predicate IsReport(d: Diagnostic, m: Member, kind: SourceKind, source: string, uri: Path, declaration: Range) {
    && d.range == m.range && d.code == "unknown-column" && d.message == UnknownColumn(m.name, kind, source)
    && |d.related| == 1 && d.related[0].uri == uri && d.related[0].range == declaration
  }

  /** A member of the only table of a name that lacks the column. */
  ghost predicate ReportsTable(ws: Workspace, m: Member, d: Diagnostic, p: Path, k: nat) {
    && OneTable(ws, m.binding.sourceTableName, p, k) && TableLacks(ws[p].tables[k], m.name)
    && IsReport(d, m, TableKind, m.binding.sourceTableName, p, ws[p].tables[k].nameRange)
  }

  /** A member of the only view of a name, of known shape, that lacks the column. */
  ghost predicate ReportsView(ws: Workspace, m: Member, d: Diagnostic, p: Path, k: nat) {
    && OneView(ws, m.binding.sourceTableName, p, k)
    && ws[p].views[k].shape.known && Lacks(ws[p].views[k].shape.columns, m.name)
    && IsReport(d, m, ViewKind, m.binding.sourceTableName, p, ws[p].views[k].nameRange)
  }

  /** The diagnostic is the report of the member: outside ambiguous places, of its CTE or
      derived table if that is known, else of the one table or view of its name. */
  ghost predicate Reports(ws: Workspace, path: Path, m: Member, d: Diagnostic) {
    var b := m.binding;
    && !m.ambiguous
    && if b.sourceCte.Some? then
         var cte := b.sourceCte.value;
         cte.shape.known && Lacks(cte.shape.columns, m.name) &&
           IsReport(d, m, CteKind, cte.name, path, cte.declarationRange)
       else if b.source.known then
         Lacks(b.source.columns, m.name) && IsReport(d, m, DerivedTable, b.name, path, b.declarationRange)
       else
         b.sourceTableName != "" && exists p, k: nat :: ReportsTable(ws, m, d, p, k) || ReportsView(ws, m, d, p, k)
  }

  // ----- Counting the matches -----

  /** The positions of a table among those of the name. */
  ghost function TableSpots(tables: seq<Table>, name: string, t: Table): set<nat> {
    set k: nat | k < |tables| && tables[k] == t && EqualFold(tables[k].name, name)
  }

  lemma TablesNamedLast(init: seq<Table>, t: Table, name: string)
    ensures TablesNamed(init + [t], name) == TablesNamed(init, name) + if EqualFold(t.name, name) then [t] else []
    decreases |init|
  {
    hide EqualFold;
    if init == [] {
      assert init + [t] == [t] && [t][1..] == [];
      assert TablesNamed([t][1..], name) == [];
    } else {
      assert (init + [t])[1..] == init[1..] + [t];
      TablesNamedLast(init[1..], t, name);
      var head := if EqualFold(init[0].name, name) then [init[0]] else [];
      assert TablesNamed(init + [t], name) == head + TablesNamed(init[1..] + [t], name);
      assert TablesNamed(init, name) == head + TablesNamed(init[1..], name);
    }
  }

  lemma TableSpotsLast(init: seq<Table>, t: Table, name: string, x: Table)
    ensures |TableSpots(init + [t], name, x)| ==
            |TableSpots(init, name, x)| + if t == x && EqualFold(t.name, name) then 1 else 0
  {
    hide EqualFold;
    var before, after := TableSpots(init, name, x), TableSpots(init + [t], name, x);
    forall k: nat ensures k in after <==> k in before || (k == |init| && t == x && EqualFold(t.name, name)) {
      if k < |init| { assert (init + [t])[k] == init[k]; }
    }
    assert after == before + if t == x && EqualFold(t.name, name) then {|init|} else {};
  }

  lemma {:induction false} TableCount(tables: seq<Table>, name: string, x: Table)
    ensures multiset(TablesNamed(tables, name))[x] == |TableSpots(tables, name, x)|
  {
    if tables == [] {
      assert TableSpots(tables, name, x) == {};
    } else {
      var init, t := tables[..|tables| - 1], tables[|tables| - 1];
      assert tables == init + [t];
      hide EqualFold, TablesNamed, TableSpots;
      TableCount(init, name, x);
      TablesNamedLast(init, t, name);
      TableSpotsLast(init, t, name, x);
    }
  }

  lemma TableMultiplicity(ws: Workspace, name: string, p: Path, t: Table)
    ensures TableMatches(ws, name)[(p, t)] == if p in ws then |TableSpots(ws[p].tables, name, t)| else 0
  {
    hide TablesNamed, TableSpots;
    var found := (p: Path) => TablesAt(ws, name, p);
    assert TableMatches(ws, name) == Everywhere(ws.Keys, found);
    EverywhereCount(ws.Keys, found, (p, t));
    if p in ws { TableCount(ws[p].tables, name, t); }
  }

  lemma TableIsMatch(ws: Workspace, name: string, p: Path, k: nat)
    requires TableNamed(ws, name, p, k)
    ensures (p, ws[p].tables[k]) in TableMatches(ws, name)
  {
    var t := ws[p].tables[k];
    assert k in TableSpots(ws[p].tables, name, t);
    hide TableSpots, TableMatches;
    TableMultiplicity(ws, name, p, t);
    assert |TableSpots(ws[p].tables, name, t)| > 0;
  }

  /** The matches of a name are one table exactly when there is one such table. */
  lemma OneTableMatch(ws: Workspace, name: string, p: Path, t: Table)
    ensures TableMatches(ws, name) == multiset{(p, t)} <==>
            exists k: nat :: SoleTable(ws, name, p, k) && ws[p].tables[k] == t
  {
    var m := TableMatches(ws, name);
    hide TableMatches, EqualFold;
    forall q, u ensures m[(q, u)] == if q in ws then |TableSpots(ws[q].tables, name, u)| else 0 {
      TableMultiplicity(ws, name, q, u);
    }
    forall q, l: nat | TableNamed(ws, name, q, l) ensures (q, ws[q].tables[l]) in m { TableIsMatch(ws, name, q, l); }
    if m == multiset{(p, t)} {
      assert m[(p, t)] == 1;
      var k :| k in TableSpots(ws[p].tables, name, t);
      forall q, l: nat | TableNamed(ws, name, q, l) ensures q == p && l == k {
        assert (q, ws[q].tables[l]) in m;
        SameElement(TableSpots(ws[p].tables, name, t), k, l);
      }
      assert SoleTable(ws, name, p, k);
    }
    if k: nat :| SoleTable(ws, name, p, k) && ws[p].tables[k] == t {
      forall q, u ensures m[(q, u)] == if q == p && u == t then 1 else 0 {
        if q in ws { OnlySpot(ws, name, p, k, q, u); }
      }
      forall x ensures m[x] == multiset{(p, t)}[x] { assert x == (x.0, x.1); }
    }
  }

  lemma OnlySpot(ws: Workspace, name: string, p: Path, k: nat, q: Path, u: Table)
    requires SoleTable(ws, name, p, k) && q in ws
    ensures |TableSpots(ws[q].tables, name, u)| == if q == p && u == ws[p].tables[k] then 1 else 0
  {
    hide EqualFold;
    var spots := TableSpots(ws[q].tables, name, u);
    forall l: nat ensures l in spots <==> q == p && u == ws[p].tables[k] && l == k {
      if l in spots { assert TableNamed(ws, name, q, l); }
    }
    assert spots == if q == p && u == ws[p].tables[k] then {k} else {};
  }

  lemma NoTableMatch(ws: Workspace, name: string)
    ensures |TableMatches(ws, name)| == 0 <==> forall p, k: nat :: !TableNamed(ws, name, p, k)
  {
    var m := TableMatches(ws, name);
    hide TableMatches, EqualFold;
    if p, k: nat :| TableNamed(ws, name, p, k) { TableIsMatch(ws, name, p, k); }
    if |m| != 0 {
      var x :| x in m;
      assert x == (x.0, x.1);
      TableMultiplicity(ws, name, x.0, x.1);
      var k :| k in TableSpots(ws[x.0].tables, name, x.1);
      assert TableNamed(ws, name, x.0, k);
    }
  }

  /** The positions of a view among those of the name. */
  ghost function ViewSpots(views: seq<View>, name: string, t: View): set<nat> {
    set k: nat | k < |views| && views[k] == t && EqualFold(views[k].name, name)
  }

  lemma ViewsNamedLast(init: seq<View>, t: View, name: string)
    ensures ViewsNamed(init + [t], name) == ViewsNamed(init, name) + if EqualFold(t.name, name) then [t] else []
    decreases |init|
  {
    hide EqualFold;
    if init == [] {
      assert init + [t] == [t] && [t][1..] == [];
      assert ViewsNamed([t][1..], name) == [];
    } else {
      assert (init + [t])[1..] == init[1..] + [t];
      ViewsNamedLast(init[1..], t, name);
      var head := if EqualFold(init[0].name, name) then [init[0]] else [];
      assert ViewsNamed(init + [t], name) == head + ViewsNamed(init[1..] + [t], name);
      assert ViewsNamed(init, name) == head + ViewsNamed(init[1..], name);
    }
  }

  lemma ViewSpotsLast(init: seq<View>, t: View, name: string, x: View)
    ensures |ViewSpots(init + [t], name, x)| ==
            |ViewSpots(init, name, x)| + if t == x && EqualFold(t.name, name) then 1 else 0
  {
    hide EqualFold;
    var before, after := ViewSpots(init, name, x), ViewSpots(init + [t], name, x);
    forall k: nat ensures k in after <==> k in before || (k == |init| && t == x && EqualFold(t.name, name)) {
      if k < |init| { assert (init + [t])[k] == init[k]; }
    }
    assert after == before + if t == x && EqualFold(t.name, name) then {|init|} else {};
  }

  lemma {:induction false} ViewCount(views: seq<View>, name: string, x: View)
    ensures multiset(ViewsNamed(views, name))[x] == |ViewSpots(views, name, x)|
  {
    if views == [] {
      assert ViewSpots(views, name, x) == {};
    } else {
      var init, t := views[..|views| - 1], views[|views| - 1];
      assert views == init + [t];
      hide EqualFold, ViewsNamed, ViewSpots;
      ViewCount(init, name, x);
      ViewsNamedLast(init, t, name);
      ViewSpotsLast(init, t, name, x);
    }
  }

  lemma ViewMultiplicity(ws: Workspace, name: string, p: Path, t: View)
    ensures ViewMatches(ws, name)[(p, t)] == if p in ws then |ViewSpots(ws[p].views, name, t)| else 0
  {
    hide ViewsNamed, ViewSpots;
    var found := (p: Path) => ViewsAt(ws, name, p);
    assert ViewMatches(ws, name) == Everywhere(ws.Keys, found);
    EverywhereCount(ws.Keys, found, (p, t));
    if p in ws { ViewCount(ws[p].views, name, t); }
  }

  lemma ViewIsMatch(ws: Workspace, name: string, p: Path, k: nat)
    requires ViewNamed(ws, name, p, k)
    ensures (p, ws[p].views[k]) in ViewMatches(ws, name)
  {
    var t := ws[p].views[k];
    assert k in ViewSpots(ws[p].views, name, t);
    hide ViewSpots, ViewMatches;
    ViewMultiplicity(ws, name, p, t);
    assert |ViewSpots(ws[p].views, name, t)| > 0;
  }

  /** The matches of a name are one view exactly when there is one such view. */
  lemma OneViewMatch(ws: Workspace, name: string, p: Path, t: View)
    ensures ViewMatches(ws, name) == multiset{(p, t)} <==>
            exists k: nat :: SoleView(ws, name, p, k) && ws[p].views[k] == t
  {
    var m := ViewMatches(ws, name);
    hide ViewMatches, EqualFold;
    forall q, u ensures m[(q, u)] == if q in ws then |ViewSpots(ws[q].views, name, u)| else 0 {
      ViewMultiplicity(ws, name, q, u);
    }
    forall q, l: nat | ViewNamed(ws, name, q, l) ensures (q, ws[q].views[l]) in m { ViewIsMatch(ws, name, q, l); }
    if m == multiset{(p, t)} {
      assert m[(p, t)] == 1;
      var k :| k in ViewSpots(ws[p].views, name, t);
      forall q, l: nat | ViewNamed(ws, name, q, l) ensures q == p && l == k {
        assert (q, ws[q].views[l]) in m;
        SameElement(ViewSpots(ws[p].views, name, t), k, l);
      }
      assert SoleView(ws, name, p, k);
    }
    if k: nat :| SoleView(ws, name, p, k) && ws[p].views[k] == t {
      forall q, u ensures m[(q, u)] == if q == p && u == t then 1 else 0 {
        if q in ws { OnlyViewSpot(ws, name, p, k, q, u); }
      }
      forall x ensures m[x] == multiset{(p, t)}[x] { assert x == (x.0, x.1); }
    }
  }

  lemma OnlyViewSpot(ws: Workspace, name: string, p: Path, k: nat, q: Path, u: View)
    requires SoleView(ws, name, p, k) && q in ws
    ensures |ViewSpots(ws[q].views, name, u)| == if q == p && u == ws[p].views[k] then 1 else 0
  {
    hide EqualFold;
    var spots := ViewSpots(ws[q].views, name, u);
    forall l: nat ensures l in spots <==> q == p && u == ws[p].views[k] && l == k {
      if l in spots { assert ViewNamed(ws, name, q, l); }
    }
    assert spots == if q == p && u == ws[p].views[k] then {k} else {};
  }

  lemma NoViewMatch(ws: Workspace, name: string)
    ensures |ViewMatches(ws, name)| == 0 <==> forall p, k: nat :: !ViewNamed(ws, name, p, k)
  {
    var m := ViewMatches(ws, name);
    hide ViewMatches, EqualFold;
    if p, k: nat :| ViewNamed(ws, name, p, k) { ViewIsMatch(ws, name, p, k); }
    if |m| != 0 {
      var x :| x in m;
      assert x == (x.0, x.1);
      ViewMultiplicity(ws, name, x.0, x.1);
      var k :| k in ViewSpots(ws[x.0].views, name, x.1);
      assert ViewNamed(ws, name, x.0, k);
    }
  }

  // ----- The reports -----

  lemma HasColumnIff(columns: seq<string>, name: string)
    ensures HasColumn(columns, name) <==> !Lacks(columns, name)
  {}

  lemma TableHasIff(t: Table, name: string)
    ensures HasColumn(ColumnNames(t), name) <==> !TableLacks(t, name)
  {
    hide EqualFold;
    if k :| 0 <= k < |t.columns| && EqualFold(t.columns[k].name, name) { assert EqualFold(ColumnNames(t)[k], name); }
  }

  lemma ReportIs(d: Diagnostic, m: Member, kind: SourceKind, source: string, uri: Path, declaration: Range)
    ensures d == UnknownColumnDiagnostic(m, kind, source, uri, declaration) <==>
            IsReport(d, m, kind, source, uri, declaration)
  {
    if IsReport(d, m, kind, source, uri, declaration) { assert d.related == [Related(uri, declaration)]; }
  }

  lemma InTableIs(m: Member, p: Path, t: Table, d: Diagnostic)
    ensures InTable(m, p, t) == Some(d) <==>
            TableLacks(t, m.name) && IsReport(d, m, TableKind, m.binding.sourceTableName, p, t.nameRange)
  {
    TableHasIff(t, m.name);
    ReportIs(d, m, TableKind, m.binding.sourceTableName, p, t.nameRange);
    hide HasColumn, TableLacks, UnknownColumnDiagnostic, IsReport, ColumnNames;
  }

  lemma InViewIs(m: Member, p: Path, v: View, d: Diagnostic)
    ensures InView(m, p, v) == Some(d) <==>
            v.shape.known && Lacks(v.shape.columns, m.name) &&
            IsReport(d, m, ViewKind, m.binding.sourceTableName, p, v.nameRange)
  {
    HasColumnIff(v.shape.columns, m.name);
    ReportIs(d, m, ViewKind, m.binding.sourceTableName, p, v.nameRange);
    hide HasColumn, Lacks, UnknownColumnDiagnostic, IsReport;
  }

  /** What a member of a named source reports. */
  lemma NamedReports(ws: Workspace, m: Member, d: Diagnostic)
    ensures NamedDiagnostic(ws, m) == Some(d) <==>
            exists p, k: nat :: ReportsTable(ws, m, d, p, k) || ReportsView(ws, m, d, p, k)
  {
    var name := m.binding.sourceTableName;
    var tables, views := TableMatches(ws, name), ViewMatches(ws, name);
    hide TableMatches, ViewMatches, InTable, InView, EqualFold, TableLacks, Lacks, IsReport;
    NoTableMatch(ws, name);
    NoViewMatch(ws, name);
    forall p, t
      ensures |tables| == 1 && Only(tables) == (p, t) <==>
              exists k: nat :: SoleTable(ws, name, p, k) && ws[p].tables[k] == t
    {
      OneTableMatch(ws, name, p, t);
      OneElement(tables, (p, t));
    }
    forall p, v
      ensures |views| == 1 && Only(views) == (p, v) <==>
              exists k: nat :: SoleView(ws, name, p, k) && ws[p].views[k] == v
    {
      OneViewMatch(ws, name, p, v);
      OneElement(views, (p, v));
    }
    if NamedDiagnostic(ws, m) == Some(d) {
      if |tables| == 1 {
        var (p, t) := Only(tables);
        assert Only(tables) == (p, t);
        var k: nat :| SoleTable(ws, name, p, k) && ws[p].tables[k] == t;
        InTableIs(m, p, t, d);
        assert ReportsTable(ws, m, d, p, k);
      } else {
        var (p, v) := Only(views);
        assert Only(views) == (p, v);
        var k: nat :| SoleView(ws, name, p, k) && ws[p].views[k] == v;
        InViewIs(m, p, v, d);
        assert ReportsView(ws, m, d, p, k);
      }
    }
    if p, k: nat :| ReportsTable(ws, m, d, p, k) {
      InTableIs(m, p, ws[p].tables[k], d);
      OneTableMatch(ws, name, p, ws[p].tables[k]);
      OneElement(tables, (p, ws[p].tables[k]));
    }
    if p, k: nat :| ReportsView(ws, m, d, p, k) {
      InViewIs(m, p, ws[p].views[k], d);
      OneViewMatch(ws, name, p, ws[p].views[k]);
      OneElement(views, (p, ws[p].views[k]));
    }
  }

  lemma LocalReports(path: Path, m: Member, d: Diagnostic)
    requires m.binding.sourceCte.Some? || m.binding.source.known
    ensures LocalDiagnostic(path, m) == Some(d) <==>
            && !m.ambiguous
            && var b := m.binding;
               if b.sourceCte.Some? then
                 var cte := b.sourceCte.value;
                 && cte.shape.known && Lacks(cte.shape.columns, m.name)
                 && IsReport(d, m, CteKind, cte.name, path, cte.declarationRange)
               else Lacks(b.source.columns, m.name) && IsReport(d, m, DerivedTable, b.name, path, b.declarationRange)
  {
    var b := m.binding;
    if b.sourceCte.Some? {
      var cte := b.sourceCte.value;
      HasColumnIff(cte.shape.columns, m.name);
      ReportIs(d, m, CteKind, cte.name, path, cte.declarationRange);
    } else {
      HasColumnIff(b.source.columns, m.name);
      ReportIs(d, m, DerivedTable, b.name, path, b.declarationRange);
    }
    hide HasColumn, Lacks, UnknownColumnDiagnostic, IsReport;
  }

  lemma MemberReports(ws: Workspace, path: Path, m: Member, d: Diagnostic)
    ensures MemberDiagnostic(ws, path, m) == Some(d) <==> Reports(ws, path, m, d)
  {
    hide NamedDiagnostic, Lacks, IsReport, ReportsTable, ReportsView, HasColumn, UnknownColumnDiagnostic;
    NamedReports(ws, m, d);
    if m.binding.sourceCte.Some? || m.binding.source.known { LocalReports(path, m, d); }
  }

  /** The members that report a diagnostic. */
  ghost function Reporters(ws: Workspace, path: Path, members: seq<Member>, d: Diagnostic): set<nat> {
    set i: nat | i < |members| && Reports(ws, path, members[i], d)
  }

  lemma ReportersLast(ws: Workspace, path: Path, init: seq<Member>, m: Member, d: Diagnostic)
    ensures |Reporters(ws, path, init + [m], d)| == |Reporters(ws, path, init, d)| + if Reports(ws, path, m, d) then 1
            else 0
  {
    hide Reports;
    var before, after := Reporters(ws, path, init, d), Reporters(ws, path, init + [m], d);
    forall k: nat ensures k in after <==> k in before || (k == |init| && Reports(ws, path, m, d)) {
      if k < |init| { assert (init + [m])[k] == init[k]; }
    }
    assert after == before + if Reports(ws, path, m, d) then {|init|} else {};
  }

  lemma MembersLast(ws: Workspace, path: Path, init: seq<Member>, m: Member)
    ensures MemberDiagnostics(ws, path, init + [m]) ==
            MemberDiagnostics(ws, path, init) + Optional(MemberDiagnostic(ws, path, m))
  {
    hide MemberDiagnostic;
    assert (init + [m])[..|init|] == init;
  }

  lemma {:induction false} ReportersCount(ws: Workspace, path: Path, members: seq<Member>, d: Diagnostic)
    ensures multiset(MemberDiagnostics(ws, path, members))[d] == |Reporters(ws, path, members, d)|
  {
    hide MemberDiagnostic, Reports;
    if members == [] {
      assert Reporters(ws, path, members, d) == {};
    } else {
      var init, m := members[..|members| - 1], members[|members| - 1];
      assert members == init + [m];
      hide MemberDiagnostics, Reporters;
      ReportersCount(ws, path, init, d);
      MemberReports(ws, path, m, d);
      MembersLast(ws, path, init, m);
      ReportersLast(ws, path, init, m, d);
    }
  }

  /** What the request returns: the query errors and, for each member, its report, each as
      often as there are members that report it. */
  lemma ReturnedCount(ws: Workspace, snapshot: Snapshot, result: seq<Diagnostic>, d: Diagnostic)
    requires multiset(result) == multiset(snapshot.queryErrors + MemberDiagnostics(ws, snapshot.path, snapshot.members))
    ensures multiset(result)[d] ==
            multiset(snapshot.queryErrors)[d] + |Reporters(ws, snapshot.path, snapshot.members, d)|
  {
    hide MemberDiagnostics, Reporters;
    ReportersCount(ws, snapshot.path, snapshot.members, d);
  }

  /** The result holds the report of an unknown column at that range. */
  ghost predicate Flagged(result: seq<Diagnostic>, r: Range, kind: SourceKind) {
    exists d :: d in result && d.range == r && d.code == "unknown-column" && d.message.UnknownColumn? &&
      d.message.kind == kind
  }

  /** The member stands apart from the other members and from the errors of the queries. */
  ghost predicate StandsApart(snapshot: Snapshot, i: nat) {
    && i < |snapshot.members|
    && (forall j :: 0 <= j < |snapshot.members| && j != i ==> snapshot.members[j].range != snapshot.members[i].range)
    && forall d :: d in snapshot.queryErrors ==> d.range != snapshot.members[i].range || d.code != "unknown-column"
  }

  /** The member reports an unknown column of a source of that kind. */
  ghost predicate ReportsKind(ws: Workspace, path: Path, m: Member, d: Diagnostic, kind: SourceKind) {
    Reports(ws, path, m, d) && d.message.UnknownColumn? && d.message.kind == kind
  }

  lemma FlaggedIff(ws: Workspace, snapshot: Snapshot, result: seq<Diagnostic>, i: nat, kind: SourceKind)
    requires multiset(result) == multiset(snapshot.queryErrors + MemberDiagnostics(ws, snapshot.path, snapshot.members))
    requires StandsApart(snapshot, i)
    ensures Flagged(result, snapshot.members[i].range, kind) <==>
            exists d :: ReportsKind(ws, snapshot.path, snapshot.members[i], d, kind)
  {
    var m := snapshot.members[i];
    hide MemberDiagnostics;
    forall d
      ensures d in result <==> d in snapshot.queryErrors || exists j: nat ::
              j in Reporters(ws, snapshot.path, snapshot.members, d)
    {
      ReturnedCount(ws, snapshot, result, d);
      InMultiset(result, d);
      InMultiset(snapshot.queryErrors, d);
      SomeElement(Reporters(ws, snapshot.path, snapshot.members, d));
    }
    forall j: nat, d | j < |snapshot.members| && Reports(ws, snapshot.path, snapshot.members[j], d)
      ensures d.range == snapshot.members[j].range && d.code == "unknown-column"
    {
      ReportRange(ws, snapshot.path, snapshot.members[j], d);
    }
    hide Reports;
    if Flagged(result, m.range, kind) {
      var d :| d in result && d.range == m.range && d.code == "unknown-column" && d.message.UnknownColumn? &&
        d.message.kind == kind;
      var j: nat :| j in Reporters(ws, snapshot.path, snapshot.members, d);
      assert j == i && ReportsKind(ws, snapshot.path, m, d, kind);
    }
    if d :| ReportsKind(ws, snapshot.path, m, d, kind) {
      assert i in Reporters(ws, snapshot.path, snapshot.members, d);
      assert d in result;
    }
  }

  lemma InMultiset<X>(s: seq<X>, x: X)
    ensures x in s <==> multiset(s)[x] > 0
  {
    assert x in s <==> x in multiset(s);
  }

  lemma SomeElement(s: set<nat>)
    ensures |s| > 0 <==> exists x :: x in s
  {
    if |s| > 0 { var x :| x in s; }
  }

  lemma ReportRange(ws: Workspace, path: Path, m: Member, d: Diagnostic)
    requires Reports(ws, path, m, d)
    ensures d.range == m.range && d.code == "unknown-column"
  {
    hide TableNamed, ViewNamed, EqualFold;
  }

  /** A member that is not ambiguous and names one table and no view is flagged exactly
      when no column of the table has its name. */
  lemma TableMemberFlagged(ws: Workspace, snapshot: Snapshot, result: seq<Diagnostic>, i: nat, p: Path, k: nat)
    requires multiset(result) == multiset(snapshot.queryErrors + MemberDiagnostics(ws, snapshot.path, snapshot.members))
    requires StandsApart(snapshot, i) && ByName(snapshot.members[i])
    requires OneTable(ws, snapshot.members[i].binding.sourceTableName, p, k)
    ensures Flagged(result, snapshot.members[i].range, TableKind) <==>
            forall c :: c in ws[p].tables[k].columns ==> !EqualFold(c.name, snapshot.members[i].name)
    ensures !Flagged(result, snapshot.members[i].range, ViewKind)
  {
    hide MemberDiagnostics, EqualFold, Flagged, Reports, OneTable;
    FlaggedIff(ws, snapshot, result, i, TableKind);
    FlaggedIff(ws, snapshot, result, i, ViewKind);
    TableReports(ws, snapshot.path, snapshot.members[i], p, k);
  }

  /** What such a member reports. */
  lemma TableReports(ws: Workspace, path: Path, m: Member, p: Path, k: nat)
    requires ByName(m) && OneTable(ws, m.binding.sourceTableName, p, k)
    ensures (exists d :: ReportsKind(ws, path, m, d, TableKind)) <==>
            forall c :: c in ws[p].tables[k].columns ==> !EqualFold(c.name, m.name)
    ensures forall d :: !ReportsKind(ws, path, m, d, ViewKind)
  {
    hide EqualFold, ViewNamed;
    var t := ws[p].tables[k];
    forall d, kind ensures ReportsKind(ws, path, m, d, kind) <==> kind == TableKind && ReportsTable(ws, m, d, p, k) {
      OneTableReports(ws, path, m, d, p, k, kind);
    }
    assert TableLacks(t, m.name) <==> forall c :: c in t.columns ==> !EqualFold(c.name, m.name);
    if TableLacks(t, m.name) {
      var d := UnknownColumnDiagnostic(m, TableKind, m.binding.sourceTableName, p, t.nameRange);
      assert ReportsTable(ws, m, d, p, k);
      assert ReportsKind(ws, path, m, d, TableKind);
    }
  }

  lemma OneTableReports(ws: Workspace, path: Path, m: Member, d: Diagnostic, p: Path, k: nat, kind: SourceKind)
    requires ByName(m) && OneTable(ws, m.binding.sourceTableName, p, k)
    ensures ReportsKind(ws, path, m, d, kind) <==> kind == TableKind && ReportsTable(ws, m, d, p, k)
  {
    hide EqualFold, TableLacks, Lacks;
    if ReportsKind(ws, path, m, d, kind) {
      var q, l: nat :| ReportsTable(ws, m, d, q, l) || ReportsView(ws, m, d, q, l);
      assert TableNamed(ws, m.binding.sourceTableName, p, k) && SoleTable(ws, m.binding.sourceTableName, p, k);
    }
  }

  lemma OneViewReports(ws: Workspace, path: Path, m: Member, d: Diagnostic, p: Path, k: nat, kind: SourceKind)
    requires ByName(m) && OneView(ws, m.binding.sourceTableName, p, k)
    ensures ReportsKind(ws, path, m, d, kind) <==> kind == ViewKind && ReportsView(ws, m, d, p, k)
  {
    hide EqualFold, TableLacks, Lacks;
    if ReportsKind(ws, path, m, d, kind) {
      var q, l: nat :| ReportsTable(ws, m, d, q, l) || ReportsView(ws, m, d, q, l);
      assert ViewNamed(ws, m.binding.sourceTableName, p, k) && SoleView(ws, m.binding.sourceTableName, p, k);
    }
  }

  /** The same for a view. */
  lemma ViewReports(ws: Workspace, path: Path, m: Member, p: Path, k: nat)
    requires ByName(m) && OneView(ws, m.binding.sourceTableName, p, k)
    ensures (exists d :: ReportsKind(ws, path, m, d, ViewKind)) <==>
            ws[p].views[k].shape.known && forall c :: c in ws[p].views[k].shape.columns ==> !EqualFold(c, m.name)
    ensures forall d :: !ReportsKind(ws, path, m, d, TableKind)
  {
    hide EqualFold, TableNamed;
    var v := ws[p].views[k];
    forall d, kind ensures ReportsKind(ws, path, m, d, kind) <==> kind == ViewKind && ReportsView(ws, m, d, p, k) {
      OneViewReports(ws, path, m, d, p, k, kind);
    }
    assert Lacks(v.shape.columns, m.name) <==> forall c :: c in v.shape.columns ==> !EqualFold(c, m.name);
    if v.shape.known && Lacks(v.shape.columns, m.name) {
      var d := UnknownColumnDiagnostic(m, ViewKind, m.binding.sourceTableName, p, v.nameRange);
      assert ReportsView(ws, m, d, p, k);
      assert ReportsKind(ws, path, m, d, ViewKind);
    }
  }

  /** The alias of the member stands for a name, outside ambiguous places. */
  ghost predicate ByName(m: Member) {
    !m.ambiguous && m.binding.sourceCte.None? && !m.binding.source.known && m.binding.sourceTableName != ""
  }

  /** One that names one view and no table is flagged exactly when the columns of the view
      are known and none has its name. */
  lemma ViewMemberFlagged(ws: Workspace, snapshot: Snapshot, result: seq<Diagnostic>, i: nat, p: Path, k: nat)
    requires multiset(result) == multiset(snapshot.queryErrors + MemberDiagnostics(ws, snapshot.path, snapshot.members))
    requires StandsApart(snapshot, i) && ByName(snapshot.members[i])
    requires OneView(ws, snapshot.members[i].binding.sourceTableName, p, k)
    ensures Flagged(result, snapshot.members[i].range, ViewKind) <==>
            ws[p].views[k].shape.known &&
            forall c :: c in ws[p].views[k].shape.columns ==> !EqualFold(c, snapshot.members[i].name)
    ensures !Flagged(result, snapshot.members[i].range, TableKind)
  {
    hide MemberDiagnostics, EqualFold, Flagged, Reports, OneView;
    FlaggedIff(ws, snapshot, result, i, TableKind);
    FlaggedIff(ws, snapshot, result, i, ViewKind);
    ViewReports(ws, snapshot.path, snapshot.members[i], p, k);
  }

  /** One whose name fits no table and no view, or more than one of them, is not flagged. */
  lemma OtherMemberUnflagged(ws: Workspace, snapshot: Snapshot, result: seq<Diagnostic>, i: nat, kind: SourceKind)
    requires multiset(result) == multiset(snapshot.queryErrors + MemberDiagnostics(ws, snapshot.path, snapshot.members))
    requires StandsApart(snapshot, i) && ByName(snapshot.members[i])
    requires forall p, k: nat :: !OneTable(ws, snapshot.members[i].binding.sourceTableName, p, k) &&
               !OneView(ws, snapshot.members[i].binding.sourceTableName, p, k)
    ensures !Flagged(result, snapshot.members[i].range, kind)
  {
    hide MemberDiagnostics, OneTable, OneView;
    FlaggedIff(ws, snapshot, result, i, kind);
  }
}
