/** The search for the base column that gives a query column its type, through
    CTEs, derived tables and views, with a shared set of visited facts. */
module QueryColumnTypes {
  import opened Coordinates
  import opened Syntax
  import opened WorkspaceScan

  datatype Location = Location(path: Path, range: Range)

  /** A column of a query: its output name, where that name is selected, and the
      simple column it comes from (no name when there is none). */
  datatype Column = Column(name: string, start: Position, sourceName: string, sourceStart: Position)

  datatype Shape = Shape(known: bool, columns: seq<Column>)

  /** A qualified member `a.c`, with what its alias stands for. */
  datatype Member = Member(range: Range, name: string, sourceCte: Option<Shape>, source: Shape, sourceTableName: string)

  datatype BaseColumn = BaseColumn(name: string, typeRange: Range)

  datatype Table = Table(name: string, columns: seq<BaseColumn>)

  datatype View = View(name: string, shape: Shape)

  /** The facts and the alias index of one document. */
  datatype Document = Document(tables: seq<Table>, views: seq<View>, members: seq<Member>)

  type Workspace = map<Path, Document>

  // ----- Lookups -----

  /** The first column of that name; no shape, no column. */
  function ColumnNamed(shape: Shape, name: string): Option<Column> {
    if shape.known then FirstNamed(shape.columns, name) else None
  }

  function FirstNamed(columns: seq<Column>, name: string): (r: Option<Column>)
    ensures r.Some? ==> r.value in columns && EqualFold(r.value.name, name)
    ensures r.None? ==> forall c :: c in columns ==> !EqualFold(c.name, name)
  {
    if columns == [] then None
    else if EqualFold(columns[0].name, name) then Some(columns[0])
    else FirstNamed(columns[1..], name)
  }

  /** The first member whose range includes the position. */
  function MemberAt(members: seq<Member>, pos: Position): (r: Option<Member>)
    ensures r.Some? ==> r.value in members && RangeIncludesPosition(r.value.range, pos)
    ensures r.None? ==> forall m :: m in members ==> !RangeIncludesPosition(m.range, pos)
  {
    if members == [] then None
    else if RangeIncludesPosition(members[0].range, pos) then Some(members[0])
    else MemberAt(members[1..], pos)
  }

  function ColumnRanges(columns: seq<BaseColumn>, name: string): seq<Range> {
    if columns == [] then []
    else (if EqualFold(columns[0].name, name) then [columns[0].typeRange] else []) + ColumnRanges(columns[1..], name)
  }

  /** The columns of that name in the tables of that name, or in any table. */
  function TableColumns(tables: seq<Table>, tableName: Option<string>, name: string): seq<Range> {
    if tables == [] then []
    else
      (if tableName.None? || EqualFold(tables[0].name, tableName.value) then ColumnRanges(tables[0].columns, name)
          else []) +
      TableColumns(tables[1..], tableName, name)
  }

  function ColumnsNamed(columns: seq<Column>, name: string): seq<Column> {
    if columns == [] then []
    else (if EqualFold(columns[0].name, name) then [columns[0]] else []) + ColumnsNamed(columns[1..], name)
  }

  function ViewColumns(views: seq<View>, viewName: string, name: string): seq<Column> {
    if views == [] then []
    else
      (if EqualFold(views[0].name, viewName) && views[0].shape.known then ColumnsNamed(views[0].shape.columns, name)
          else []) +
      ViewColumns(views[1..], viewName, name)
  }

  lemma {:induction false} ColumnsNamedMembers(columns: seq<Column>, name: string, c: Column)
    requires c in ColumnsNamed(columns, name)
    ensures c in columns
  {
    if columns != [] && c in ColumnsNamed(columns[1..], name) { ColumnsNamedMembers(columns[1..], name, c); }
  }

  lemma {:induction false} ViewColumnsMembers(views: seq<View>, viewName: string, name: string, c: Column)
    requires c in ViewColumns(views, viewName, name)
    ensures exists v :: v in views && c in v.shape.columns
  {
    if c in ViewColumns(views[1..], viewName, name) {
      ViewColumnsMembers(views[1..], viewName, name, c);
    } else {
      ColumnsNamedMembers(views[0].shape.columns, name, c);
      assert views[0] in views;
    }
  }

  // ----- Matches over the whole workspace -----

  ghost function TableMatches(ws: Workspace, table: Option<string>, column: string): multiset<(Path, Range)> {
    Everywhere(ws.Keys, p => if p in ws then TableColumns(ws[p].tables, table, column) else [])
  }

  ghost function ViewMatches(ws: Workspace, view: string, column: string): multiset<(Path, Column)> {
    Everywhere(ws.Keys, p => if p in ws then ViewColumns(ws[p].views, view, column) else [])
  }

  // ----- The chain, without any guard -----

  /** A column fact of a document. */
  datatype Fact = Fact(path: Path, column: Column)

  datatype Outcome = Stop | Found(location: Location) | Follow(next: Fact)

  function Continue(path: Path, column: Option<Column>): Outcome {
    if column.None? then Stop else Follow(Fact(path, column.value))
  }

  ghost function MemberStep(ws: Workspace, path: Path, m: Member): Outcome {
    if m.sourceCte.Some? then Continue(path, ColumnNamed(m.sourceCte.value, m.name))
    else if m.source.known then Continue(path, ColumnNamed(m.source, m.name))
    else if m.sourceTableName == "" then Stop
    else
      var tables := TableMatches(ws, Some(m.sourceTableName), m.name);
      var views := ViewMatches(ws, m.sourceTableName, m.name);
      if |tables| + |views| != 1 then Stop
      else if |tables| == 1 then Found(Location(Only(tables).0, Only(tables).1))
      else Follow(Fact(Only(views).0, Only(views).1))
  }

  function Members(ws: Workspace, path: Path): seq<Member> {
    if path in ws then ws[path].members else []
  }

  /** One link: where a column comes from, deterministically. */
  ghost function Step(ws: Workspace, f: Fact): Outcome {
    if f.column.sourceName == "" then Stop
    else
      var member := MemberAt(Members(ws, f.path), f.column.sourceStart);
      if member.Some? then MemberStep(ws, f.path, member.value)
      else
        var definitions := TableMatches(ws, None, f.column.sourceName);
        if |definitions| != 1 then Stop else Found(Location(Only(definitions).0, Only(definitions).1))
  }

  /** After n links the chain reaches a base column. */
  ghost predicate Reaches(ws: Workspace, f: Fact, n: nat, location: Location)
    decreases n
  {
    var step := Step(ws, f);
    if n == 0 then step == Found(location) else step.Follow? && Reaches(ws, step.next, n - 1, location)
  }

  ghost predicate ReachesBase(ws: Workspace, f: Fact, location: Location) {
    exists n: nat :: Reaches(ws, f, n, location)
  }

  // ----- The guarded search -----

  /** The key under which a fact is remembered. */
  datatype Visit = Visit(path: Path, name: string, start: Position)

  function Key(f: Fact): Visit {
    Visit(f.path, Fold(f.column.name), f.column.start)
  }

  /** The first n links meet pairwise different keys, none of them visited. */
  ghost predicate Clear(ws: Workspace, f: Fact, n: nat, visited: set<Visit>)
    decreases n
  {
    && Key(f) !in visited
    && (n > 0 ==> Step(ws, f).Follow? && Clear(ws, Step(ws, f).next, n - 1, visited + {Key(f)}))
  }

  /** A base column reached by a chain that repeats no key. */
  ghost predicate ReachesClear(ws: Workspace, f: Fact, visited: set<Visit>, location: Location) {
    exists n: nat :: Reaches(ws, f, n, location) && Clear(ws, f, n, visited)
  }

  /** What remains of the search after one link. */
  ghost predicate After(ws: Workspace, step: Outcome, visited: set<Visit>, location: Location) {
    step == Found(location) || (step.Follow? && ReachesClear(ws, step.next, visited, location))
  }

  lemma ReachesClearStep(ws: Workspace, f: Fact, visited: set<Visit>, location: Location)
    ensures ReachesClear(ws, f, visited, location) <==>
            Key(f) !in visited && After(ws, Step(ws, f), visited + {Key(f)}, location)
  {
    if Key(f) !in visited {
      if Step(ws, f) == Found(location) {
        assert Reaches(ws, f, 0, location) && Clear(ws, f, 0, visited);
      } else if Step(ws, f).Follow? {
        var next, seen := Step(ws, f).next, visited + {Key(f)};
        if ReachesClear(ws, next, seen, location) {
          var n: nat :| Reaches(ws, next, n, location) && Clear(ws, next, n, seen);
          assert Reaches(ws, f, n + 1, location) && Clear(ws, f, n + 1, visited);
        }
        if ReachesClear(ws, f, visited, location) {
          var n: nat :| Reaches(ws, f, n, location) && Clear(ws, f, n, visited);
          assert Reaches(ws, next, n - 1, location) && Clear(ws, next, n - 1, seen);
        }
      }
    }
  }

  /** Every column fact that a link can lead to. */
  ghost predicate FactOf(ws: Workspace, f: Fact) {
    f.path in ws &&
    (|| (exists v :: v in ws[f.path].views && f.column in v.shape.columns)
     || (exists m :: m in ws[f.path].members &&
            (f.column in m.source.columns || (m.sourceCte.Some? && f.column in m.sourceCte.value.columns))))
  }

  lemma StepStaysInside(ws: Workspace, f: Fact)
    ensures Step(ws, f).Follow? ==> FactOf(ws, Step(ws, f).next)
  {
    var member := MemberAt(Members(ws, f.path), f.column.sourceStart);
    if f.column.sourceName != "" && member.Some? { MemberStepStaysInside(ws, f.path, member.value); }
  }

  lemma MemberStepStaysInside(ws: Workspace, path: Path, m: Member)
    requires m in Members(ws, path)
    ensures MemberStep(ws, path, m).Follow? ==> FactOf(ws, MemberStep(ws, path, m).next)
  {
    if m.sourceCte.None? && !m.source.known && MemberStep(ws, path, m).Follow? {
      var found := (p: Path) => if p in ws then ViewColumns(ws[p].views, m.sourceTableName, m.name) else [];
      var views := Everywhere(ws.Keys, found);
      assert views == ViewMatches(ws, m.sourceTableName, m.name);
      var view := Only(views);
      EverywhereSound(ws.Keys, found, view);
      ViewColumnsMembers(ws[view.0].views, m.sourceTableName, m.name, view.1);
    }
  }

  ghost function FactKeys(ws: Workspace): set<Visit> {
    (set p, v, c | p in ws && v in ws[p].views && c in v.shape.columns :: Key(Fact(p, c)))
    + (set p, m, c | p in ws && m in ws[p].members && c in m.source.columns :: Key(Fact(p, c)))
    + (set p, m, c | p in ws && m in ws[p].members && m.sourceCte.Some? && c in m.sourceCte.value.columns ::
        Key(Fact(p, c)))
  }

  lemma FactHasKey(ws: Workspace, f: Fact)
    requires FactOf(ws, f)
    ensures Key(f) in FactKeys(ws)
  {}

  /** One request: the workspace it reads and the visited set it fills. */
  class TypeSearch {
    const ws: Workspace
    var visited: set<Visit>
    ghost const universe: set<Visit>

    constructor (ws: Workspace, ghost start: set<Visit>)
      ensures this.ws == ws && visited == {} && universe == FactKeys(ws) + start
    {
      this.ws := ws;
      visited := {};
      universe := FactKeys(ws) + start;
    }

    ghost predicate Valid() {
      FactKeys(ws) <= universe
    }

    /** What remains to be visited bounds the search, whatever views or CTEs
        refer to each other. */
    ghost function Unvisited(): nat
      reads this
    {
      |universe - visited|
    }

    method AliasMemberTypeDefinition(path: Path, member: Member) returns (result: Option<Location>)
      requires Valid() && member in Members(ws, path)
      modifies this
      ensures old(visited) <= visited
      ensures forall location :: result == Some(location) <==>
              After(ws, MemberStep(ws, path, member), old(visited), location)
      decreases Unvisited(), 1
    {
      MemberStepStaysInside(ws, path, member);
      ghost var step := MemberStep(ws, path, member);
      if step.Follow? { FactHasKey(ws, step.next); }
      hide FactOf, ReachesClear, FactKeys;
      if member.sourceCte.Some? {
        var column := ColumnNamed(member.sourceCte.value, member.name);
        if column.None? {
          return None;
        }
        result := QueryColumnTypeDefinition(path, column.value);
        return;
      }
      if member.source.known {
        var column := ColumnNamed(member.source, member.name);
        if column.None? {
          return None;
        }
        result := QueryColumnTypeDefinition(path, column.value);
        return;
      }
      if member.sourceTableName == "" {
        return None;
      }
      var tables := TableColumnMatches(ws, Some(member.sourceTableName), member.name);
      var views := ViewColumnMatches(ws, member.sourceTableName, member.name);
      if |tables| + |views| != 1 {
        return None;
      }
      if |tables| == 1 {
        OnlyIs(tables, TableMatches(ws, Some(member.sourceTableName), member.name));
        return Some(Location(tables[0].0, tables[0].1));
      }
      OnlyIs(views, ViewMatches(ws, member.sourceTableName, member.name));
      result := QueryColumnTypeDefinition(views[0].0, views[0].1);
    }

    method QueryColumnTypeDefinition(path: Path, column: Column) returns (result: Option<Location>)
      requires Valid() && Key(Fact(path, column)) in universe
      modifies this
      ensures old(visited) <= visited
      ensures forall location :: result == Some(location) <==>
              ReachesClear(ws, Fact(path, column), old(visited), location)
      decreases Unvisited(), 0
    {
      ghost var fact := Fact(path, column);
      forall location ensures ReachesClear(ws, fact, visited, location) <==>
                              Key(fact) !in visited && After(ws, Step(ws, fact), visited + {Key(fact)}, location) {
        ReachesClearStep(ws, fact, visited, location);
      }
      hide ReachesClear, FactKeys;
      if column.sourceName == "" {
        return None;
      }
      var visit := Visit(path, Fold(column.name), column.start);
      if visit in visited {
        return None;
      }
      assert universe - (visited + {visit}) == universe - visited - {visit};
      visited := visited + {visit};
      var member := MemberAt(Members(ws, path), column.sourceStart);
      if member.Some? {
        result := AliasMemberTypeDefinition(path, member.value);
        return;
      }
      var matches := TableColumnMatches(ws, None, column.sourceName);
      if |matches| != 1 {
        return None;
      }
      OnlyIs(matches, TableMatches(ws, None, column.sourceName));
      return Some(Location(matches[0].0, matches[0].1));
    }
  }

  method TableColumnMatches(ws: Workspace, table: Option<string>, column: string) returns (matches: seq<(Path, Range)>)
    ensures multiset(matches) == TableMatches(ws, table, column)
  {
    matches := Gather(ws.Keys, p => if p in ws then TableColumns(ws[p].tables, table, column) else []);
  }

  method ViewColumnMatches(ws: Workspace, view: string, column: string) returns (matches: seq<(Path, Column)>)
    ensures multiset(matches) == ViewMatches(ws, view, column)
  {
    matches := Gather(ws.Keys, p => if p in ws then ViewColumns(ws[p].views, view, column) else []);
  }

  // ----- The guard cuts only cycles -----

  /** Two facts remembered under one key come from the same place. */
  ghost predicate KeysIdentify(ws: Workspace, start: Fact) {
    forall f, g :: (f == start || FactOf(ws, f)) && (g == start || FactOf(ws, g)) && Key(f) == Key(g) ==>
      f.column.sourceName == g.column.sourceName && f.column.sourceStart == g.column.sourceStart
  }

  lemma {:induction false} ReachesOnce(ws: Workspace, f: Fact, n: nat, location: Location, n': nat, location': Location)
    requires Reaches(ws, f, n, location) && Reaches(ws, f, n', location')
    ensures n == n' && location == location'
    decreases n
  {
    hide Step;
    if n > 0 && n' > 0 { ReachesOnce(ws, Step(ws, f).next, n - 1, location, n' - 1, location'); }
  }

  /** A fact with that key lies strictly earlier on the same chain. */
  ghost predicate MetBefore(ws: Workspace, start: Fact, v: Visit, n: nat, location: Location) {
    exists u, m: nat :: m > n && Key(u) == v && (u == start || FactOf(ws, u)) && Reaches(ws, u, m, location)
  }

  ghost predicate Behind(ws: Workspace, start: Fact, visited: set<Visit>, n: nat, location: Location) {
    forall v :: v in visited ==> MetBefore(ws, start, v, n, location)
  }

  lemma SameStep(ws: Workspace, f: Fact, g: Fact)
    requires Key(f) == Key(g)
    requires f.column.sourceName == g.column.sourceName && f.column.sourceStart == g.column.sourceStart
    ensures Step(ws, f) == Step(ws, g)
  {
    assert f.path == g.path;
  }

  lemma MetOnce(ws: Workspace, start: Fact, f: Fact, n: nat, location: Location)
    requires KeysIdentify(ws, start) && (f == start || FactOf(ws, f)) && Reaches(ws, f, n, location)
    ensures !MetBefore(ws, start, Key(f), n, location)
  {
    if MetBefore(ws, start, Key(f), n, location) {
      var u, m: nat :| m > n && Key(u) == Key(f) && (u == start || FactOf(ws, u)) && Reaches(ws, u, m, location);
      SameStep(ws, u, f);
      hide Step, FactOf;
      assert Reaches(ws, f, m, location);
      ReachesOnce(ws, f, n, location, m, location);
    }
  }

  lemma BehindStep(ws: Workspace, start: Fact, f: Fact, n: nat, visited: set<Visit>, location: Location)
    requires n > 0 && (f == start || FactOf(ws, f)) && Reaches(ws, f, n, location) &&
             Behind(ws, start, visited, n, location)
    ensures Behind(ws, start, visited + {Key(f)}, n - 1, location)
  {
    hide Step, FactOf, Reaches;
    forall v | v in visited + {Key(f)} ensures MetBefore(ws, start, v, n - 1, location) {
      if v in visited {
        var u, m: nat :| m > n && Key(u) == v && (u == start || FactOf(ws, u)) && Reaches(ws, u, m, location);
      }
    }
  }

  lemma {:induction false} ReachingIsClear(ws: Workspace, start: Fact, f: Fact, n: nat, visited: set<Visit>,
                                           location: Location)
    requires KeysIdentify(ws, start) && (f == start || FactOf(ws, f))
    requires Reaches(ws, f, n, location) && Behind(ws, start, visited, n, location)
    ensures Clear(ws, f, n, visited)
    decreases n
  {
    hide Step, KeysIdentify, FactOf;
    MetOnce(ws, start, f, n, location);
    if n > 0 {
      StepStaysInside(ws, f);
      BehindStep(ws, start, f, n, visited, location);
      ReachingIsClear(ws, start, Step(ws, f).next, n - 1, visited + {Key(f)}, location);
    }
  }

  /** The visited set stops no chain that would have reached a base column. */
  lemma GuardCutsOnlyCycles(ws: Workspace, start: Fact, location: Location)
    requires KeysIdentify(ws, start)
    ensures ReachesClear(ws, start, {}, location) <==> ReachesBase(ws, start, location)
  {
    hide Step, KeysIdentify;
    if ReachesBase(ws, start, location) {
      var n: nat :| Reaches(ws, start, n, location);
      assert Behind(ws, start, {}, n, location);
      hide Behind, FactOf;
      ReachingIsClear(ws, start, start, n, {}, location);
    }
  }

  /** The request from a query column, with a fresh visited set: it ends on every
      workspace, and finds a location exactly when the unguarded chain reaches a
      base column without meeting a key twice. */
  method TypeDefinition(ws: Workspace, path: Path, column: Column) returns (result: Option<Location>)
    ensures forall location :: result == Some(location) <==> ReachesClear(ws, Fact(path, column), {}, location)
    ensures KeysIdentify(ws, Fact(path, column)) ==>
              forall location :: result == Some(location) <==> ReachesBase(ws, Fact(path, column), location)
  {
    hide ReachesClear, ReachesBase, KeysIdentify;
    var search := new TypeSearch(ws, {Key(Fact(path, column))});
    result := search.QueryColumnTypeDefinition(path, column);
    if KeysIdentify(ws, Fact(path, column)) {
      forall location ensures result == Some(location) <==> ReachesBase(ws, Fact(path, column), location) {
        GuardCutsOnlyCycles(ws, Fact(path, column), location);
      }
    }
  }
}
