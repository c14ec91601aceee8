/** The diagnostics of a document against the schema of the workspace, and the
    result identifier under which a client caches them. */
module Diagnostics {
  import opened Coordinates
  import opened Syntax
  import opened Sorting
  import opened WorkspaceScan
  import QueryShapes

  // ----- Facts -----

  datatype SchemaColumn = SchemaColumn(name: string, columnType: string)

  datatype Table = Table(name: string, nameRange: Range, columns: seq<SchemaColumn>)

  /** The output columns of a query, where they are known. */
  datatype Shape = Shape(known: bool, columns: seq<string>)

  datatype View = View(name: string, nameRange: Range, shape: Shape)

  datatype Facts = Facts(tables: seq<Table>, views: seq<View>)

  type Workspace = map<Path, Facts>

  datatype CteSource = CteSource(name: string, declarationRange: Range, shape: Shape)

  /** What an alias stands for: a CTE, a derived table of known shape, or a name. */
  datatype Binding = Binding(
    name: string, declarationRange: Range, sourceCte: Option<CteSource>, source: Shape, sourceTableName: string)

  /** A qualified member; ambiguous when its place belongs to an ambiguous alias. */
  datatype Member = Member(name: string, range: Range, binding: Binding, ambiguous: bool)

  /** What the text of a document alone determines: the parse errors, the other
      diagnostics of its queries, and its qualified members. */
  datatype Snapshot = Snapshot(
    path: Path, text: string, parseErrors: seq<Diagnostic>, queryErrors: seq<Diagnostic>, members: seq<Member>)

  // ----- Diagnostics -----

  datatype SourceKind = CteKind | DerivedTable | TableKind | ViewKind

  /** Messages by their parts; the quoted parts can be read back from the text. */
  datatype Message = UnknownColumn(column: string, kind: SourceKind, source: string) | Other(text: string)

  datatype Related = Related(uri: Path, range: Range)

  datatype Diagnostic = Diagnostic(range: Range, code: string, message: Message, related: seq<Related>)

  function UnknownColumnDiagnostic(m: Member, kind: SourceKind, source: string, uri: Path,
                                   declaration: Range): Diagnostic {
    Diagnostic(m.range, "unknown-column", UnknownColumn(m.name, kind, source), [Related(uri, declaration)])
  }

  /** All but the ranges of the related information. */
  function Erase(d: Diagnostic): Diagnostic {
    d.(related := seq(|d.related|, i requires 0 <= i < |d.related| =>
      Related(d.related[i].uri, Range(Position(0, 0), Position(0, 0)))))
  }

  function EraseAll(s: seq<Diagnostic>): seq<Diagnostic> {
    seq(|s|, i requires 0 <= i < |s| => Erase(s[i]))
  }

  // ----- Lookups -----

  predicate HasColumn(columns: seq<string>, name: string) {
    exists i :: 0 <= i < |columns| && EqualFold(columns[i], name)
  }

  function ColumnNames(t: Table): seq<string> {
    seq(|t.columns|, i requires 0 <= i < |t.columns| => t.columns[i].name)
  }

  function TablesNamed(tables: seq<Table>, name: string): seq<Table> {
    if tables == [] then []
    else (if EqualFold(tables[0].name, name) then [tables[0]] else []) + TablesNamed(tables[1..], name)
  }

  function ViewsNamed(views: seq<View>, name: string): seq<View> {
    if views == [] then []
    else (if EqualFold(views[0].name, name) then [views[0]] else []) + ViewsNamed(views[1..], name)
  }

  function TablesAt(ws: Workspace, name: string, p: Path): seq<Table> {
    if p in ws then TablesNamed(ws[p].tables, name) else []
  }

  function ViewsAt(ws: Workspace, name: string, p: Path): seq<View> {
    if p in ws then ViewsNamed(ws[p].views, name) else []
  }

  ghost function TableMatches(ws: Workspace, name: string): multiset<(Path, Table)> {
    Everywhere(ws.Keys, p => TablesAt(ws, name, p))
  }

  ghost function ViewMatches(ws: Workspace, name: string): multiset<(Path, View)> {
    Everywhere(ws.Keys, p => ViewsAt(ws, name, p))
  }

  // ----- What one member reports -----

  function InTable(m: Member, uri: Path, table: Table): Option<Diagnostic> {
    if HasColumn(ColumnNames(table), m.name) then None
    else Some(UnknownColumnDiagnostic(m, TableKind, m.binding.sourceTableName, uri, table.nameRange))
  }

  function InView(m: Member, uri: Path, view: View): Option<Diagnostic> {
    if !view.shape.known || HasColumn(view.shape.columns, m.name) then None
    else Some(UnknownColumnDiagnostic(m, ViewKind, m.binding.sourceTableName, uri, view.nameRange))
  }

  ghost function NamedDiagnostic(ws: Workspace, m: Member): Option<Diagnostic> {
    var tables, views := TableMatches(ws, m.binding.sourceTableName), ViewMatches(ws, m.binding.sourceTableName);
    if |tables| + |views| != 1 then None
    else if |tables| == 1 then InTable(m, Only(tables).0, Only(tables).1)
    else InView(m, Only(views).0, Only(views).1)
  }

  predicate Named(m: Member) {
    !m.ambiguous && m.binding.sourceCte.None? && !m.binding.source.known && m.binding.sourceTableName != ""
  }

  function LocalDiagnostic(path: Path, m: Member): Option<Diagnostic> {
    var b := m.binding;
    if m.ambiguous then None
    else if b.sourceCte.Some? then
      var cte := b.sourceCte.value;
      if !cte.shape.known || HasColumn(cte.shape.columns, m.name) then None
      else Some(UnknownColumnDiagnostic(m, CteKind, cte.name, path, cte.declarationRange))
    else if b.source.known then
      if HasColumn(b.source.columns, m.name) then None
      else Some(UnknownColumnDiagnostic(m, DerivedTable, b.name, path, b.declarationRange))
    else None
  }

  ghost function MemberDiagnostic(ws: Workspace, path: Path, m: Member): Option<Diagnostic> {
    if Named(m) then NamedDiagnostic(ws, m) else LocalDiagnostic(path, m)
  }

  function Optional(d: Option<Diagnostic>): seq<Diagnostic> {
    if d.Some? then [d.value] else []
  }

  ghost function MemberDiagnostics(ws: Workspace, path: Path, members: seq<Member>): seq<Diagnostic> {
    if members == [] then []
    else
      var last := |members| - 1;
      MemberDiagnostics(ws, path, members[..last]) + Optional(MemberDiagnostic(ws, path, members[last]))
  }

  function CompareDiagnostics(a: Diagnostic, b: Diagnostic): int {
    if a.range.start != b.range.start then ComparePosition(a.range.start, b.range.start)
    else if a.range.end != b.range.end then ComparePosition(a.range.end, b.range.end)
    else CompareStrings(a.code, b.code)
  }

  lemma DiagnosticsOrdered()
    ensures TotalPreorder(CompareDiagnostics)
  {
    StringsOrdered();
  }

  // ----- The loops -----

  method TableFactMatches(ws: Workspace, name: string) returns (matches: seq<(Path, Table)>)
    ensures multiset(matches) == TableMatches(ws, name)
  {
    matches := Gather(ws.Keys, p => TablesAt(ws, name, p));
  }

  method ViewFactMatches(ws: Workspace, name: string) returns (matches: seq<(Path, View)>)
    ensures multiset(matches) == ViewMatches(ws, name)
  {
    matches := Gather(ws.Keys, p => ViewsAt(ws, name, p));
  }

  method NamedMember(ws: Workspace, m: Member) returns (d: Option<Diagnostic>)
    ensures d == NamedDiagnostic(ws, m)
  {
    var name := m.binding.sourceTableName;
    var tables := TableFactMatches(ws, name);
    var views := ViewFactMatches(ws, name);
    if |tables| + |views| != 1 {
      return None;
    }
    if |tables| == 1 {
      OnlyIs(tables, TableMatches(ws, name));
      var (uri, table) := tables[0];
      return InTable(m, uri, table);
    }
    OnlyIs(views, ViewMatches(ws, name));
    var (uri, view) := views[0];
    return InView(m, uri, view);
  }

  method OneMember(ws: Workspace, path: Path, m: Member) returns (d: Option<Diagnostic>)
    ensures d == MemberDiagnostic(ws, path, m)
  {
    d := LocalDiagnostic(path, m);
    if Named(m) {
      d := NamedMember(ws, m);
    }
  }

  lemma MemberDiagnosticsStep(ws: Workspace, path: Path, members: seq<Member>, i: nat)
    requires i < |members|
    ensures MemberDiagnostics(ws, path, members[..i + 1]) ==
            MemberDiagnostics(ws, path, members[..i]) + Optional(MemberDiagnostic(ws, path, members[i]))
  {
    assert members[..i + 1][..i] == members[..i];
  }

  method ReportMembers(ws: Workspace, path: Path, members: seq<Member>) returns (result: seq<Diagnostic>)
    ensures result == MemberDiagnostics(ws, path, members)
  {
    result := [];
    assert MemberDiagnostics(ws, path, members[..0]) == [] && members[..|members|] == members;
    hide MemberDiagnostics, MemberDiagnostic, Optional;
    for i := 0 to |members|
      invariant result == MemberDiagnostics(ws, path, members[..i])
    {
      MemberDiagnosticsStep(ws, path, members, i);
      var d := OneMember(ws, path, members[i]);
      result := result + Optional(d);
    }
  }

  method SemanticDiagnostics(ws: Workspace, snapshot: Snapshot) returns (result: seq<Diagnostic>)
    ensures SortedBy(result, CompareDiagnostics)
    ensures multiset(result) == multiset(snapshot.queryErrors + MemberDiagnostics(ws, snapshot.path, snapshot.members))
  {
    hide MemberDiagnostics, CompareDiagnostics;
    var reported := ReportMembers(ws, snapshot.path, snapshot.members);
    DiagnosticsOrdered();
    result := SortFunc(snapshot.queryErrors + reported, CompareDiagnostics);
  }

  // ----- The schema fingerprint -----

  datatype SchemaTable = SchemaTable(path: Path, isView: bool, name: string, columns: seq<SchemaColumn>)

  function TableEntry(p: Path, t: Table): SchemaTable {
    SchemaTable(p, false, t.name, t.columns)
  }

  /** A view of unknown shape is written like one without columns. */
  function ViewEntry(p: Path, v: View): SchemaTable {
    SchemaTable(p, true, v.name,
      if v.shape.known
      then seq(|v.shape.columns|, i requires 0 <= i < |v.shape.columns| => SchemaColumn(v.shape.columns[i], ""))
      else [])
  }

  function TableEntries(p: Path, tables: seq<Table>): seq<SchemaTable> {
    seq(|tables|, i requires 0 <= i < |tables| => TableEntry(p, tables[i]))
  }

  function ViewEntries(p: Path, views: seq<View>): seq<SchemaTable> {
    seq(|views|, i requires 0 <= i < |views| => ViewEntry(p, views[i]))
  }

  function EntriesAt(ws: Workspace, p: Path): seq<SchemaTable> {
    if p in ws then TableEntries(p, ws[p].tables) + ViewEntries(p, ws[p].views) else []
  }

  function SchemaOver(ws: Workspace, paths: seq<Path>): seq<SchemaTable> {
    if paths == [] then [] else SchemaOver(ws, paths[..|paths| - 1]) + EntriesAt(ws, paths[|paths| - 1])
  }

  ghost predicate Enumerates(paths: seq<Path>, ws: Workspace) {
    SortedBy(paths, CompareStrings) && Distinct(paths) && forall p :: p in paths <==> p in ws
  }

  ghost predicate IsSchema(schema: seq<SchemaTable>, ws: Workspace) {
    exists paths :: Enumerates(paths, ws) && schema == SchemaOver(ws, paths)
  }

  method SortedPaths(ws: Workspace) returns (paths: seq<Path>)
    ensures Enumerates(paths, ws)
  {
    paths := [];
    var rest := ws.Keys;
    while rest != {}
      invariant rest <= ws.Keys && (forall p :: p in paths <==> p in ws.Keys - rest)
      invariant Distinct(paths)
    {
      var p :| p in rest;
      DistinctAppend(paths, [p]);
      assert forall q :: q in paths + [p] <==> q in paths || q == p;
      paths := paths + [p];
      rest := rest - {p};
    }
    StringsOrdered();
    var sorted := SortFunc(paths, CompareStrings);
    PermutationMembers(sorted, paths);
    PermutationDistinct(sorted, paths);
    paths := sorted;
  }

  lemma PermutationDistinct(x: seq<Path>, y: seq<Path>)
    requires multiset(x) == multiset(y) && Distinct(y)
    ensures Distinct(x)
  {
    forall i, j | 0 <= i < j < |x| ensures x[i] != x[j] {
      if x[i] == x[j] {
        assert x == x[..i] + [x[i]] + x[i + 1..j] + [x[j]] + x[j + 1..];
        assert multiset(x)[x[i]] >= 2;
        DistinctOnce(y, x[i]);
      }
    }
  }

  lemma {:induction false} DistinctOnce(y: seq<Path>, p: Path)
    requires Distinct(y)
    ensures multiset(y)[p] <= 1
  {
    if y != [] {
      DistinctOnce(y[1..], p);
      assert y == [y[0]] + y[1..];
      if y[0] == p { assert p !in y[1..]; }
    }
  }

  method SchemaFingerprint(ws: Workspace) returns (schema: seq<SchemaTable>)
    ensures IsSchema(schema, ws)
  {
    var paths := SortedPaths(ws);
    schema := [];
    for i := 0 to |paths|
      invariant schema == SchemaOver(ws, paths[..i])
    {
      assert paths[..i + 1][..i] == paths[..i];
      assert paths[i] in paths;
      schema := schema + TableEntries(paths[i], ws[paths[i]].tables) + ViewEntries(paths[i], ws[paths[i]].views);
    }
    assert paths[..|paths|] == paths;
  }

  // ----- The fingerprint tells exactly the named columns -----

  function OfPath(schema: seq<SchemaTable>, p: Path): seq<SchemaTable> {
    if schema == [] then []
    else OfPath(schema[..|schema| - 1], p) + if schema[|schema| - 1].path == p then [schema[|schema| - 1]] else []
  }

  lemma {:induction false} OfPathAppend(x: seq<SchemaTable>, y: seq<SchemaTable>, p: Path)
    ensures OfPath(x + y, p) == OfPath(x, p) + OfPath(y, p)
  {
    if y == [] {
      assert x + y == x;
    } else {
      assert (x + y)[..|x + y| - 1] == x + y[..|y| - 1];
      OfPathAppend(x, y[..|y| - 1], p);
    }
  }

  lemma {:induction false} OfPathUniform(x: seq<SchemaTable>, q: Path, p: Path)
    requires forall e :: e in x ==> e.path == q
    ensures OfPath(x, p) == if p == q then x else []
  {
    if x != [] {
      OfPathUniform(x[..|x| - 1], q, p);
      assert x == x[..|x| - 1] + [x[|x| - 1]];
    }
  }

  lemma EntriesCarryPath(ws: Workspace, q: Path, p: Path)
    ensures OfPath(EntriesAt(ws, q), p) == if p == q then EntriesAt(ws, p) else []
  {
    hide OfPath;
    var entries := EntriesAt(ws, q);
    assert forall i :: 0 <= i < |entries| ==> entries[i].path == q;
    hide EntriesAt;
    OfPathUniform(entries, q, p);
  }

  /** The part of a schema that belongs to a path can be read back. */
  lemma {:induction false} SchemaOfPath(ws: Workspace, paths: seq<Path>, p: Path)
    requires Distinct(paths)
    ensures OfPath(SchemaOver(ws, paths), p) == if p in paths then EntriesAt(ws, p) else []
  {
    hide EntriesAt, OfPath;
    if paths == [] {
      EmptySchema(p);
    } else {
      var last := |paths| - 1;
      SchemaOfPath(ws, paths[..last], p);
      OfPathAppend(SchemaOver(ws, paths[..last]), EntriesAt(ws, paths[last]), p);
      EntriesCarryPath(ws, paths[last], p);
      assert p in paths <==> p in paths[..last] || p == paths[last];
      assert p == paths[last] ==> p !in paths[..last];
    }
  }

  lemma EmptySchema(p: Path)
    ensures OfPath([], p) == []
  {}

  ghost predicate SameEntries(ws: Workspace, ws': Workspace) {
    forall p :: EntriesAt(ws, p) == EntriesAt(ws', p)
  }

  /** The paths that contribute. */
  ghost function Contributing(ws: Workspace, paths: seq<Path>): seq<Path> {
    if paths == [] then []
    else
      var last := |paths| - 1;
      Contributing(ws, paths[..last]) + if EntriesAt(ws, paths[last]) == [] then [] else [paths[last]]
  }

  lemma {:induction false} ContributingSchema(ws: Workspace, paths: seq<Path>)
    ensures SchemaOver(ws, Contributing(ws, paths)) == SchemaOver(ws, paths)
  {
    if paths != [] {
      var last := |paths| - 1;
      ContributingSchema(ws, paths[..last]);
      var before := Contributing(ws, paths[..last]);
      hide EntriesAt;
      assert (before + [paths[last]])[..|before|] == before;
      if EntriesAt(ws, paths[last]) == [] {
        assert Contributing(ws, paths) == before;
      }
    }
  }

  lemma {:induction false} ContributingMembers(ws: Workspace, paths: seq<Path>, p: Path)
    ensures p in Contributing(ws, paths) <==> p in paths && EntriesAt(ws, p) != []
  {
    hide EntriesAt;
    if paths != [] {
      var last := |paths| - 1;
      assert paths == paths[..last] + [paths[last]];
      ContributingMembers(ws, paths[..last], p);
    }
  }

  lemma SortedAppend(s: seq<Path>, p: Path)
    requires SortedBy(s, CompareStrings) && Distinct(s)
    requires forall q :: q in s ==> q != p && CompareStrings(q, p) <= 0
    ensures SortedBy(s + [p], CompareStrings) && Distinct(s + [p])
  {
    DistinctAppend(s, [p]);
    forall i, j | 0 <= i < j < |s + [p]| ensures CompareStrings((s + [p])[i], (s + [p])[j]) <= 0 {
      hide CompareStrings;
      if j == |s| { assert s[i] in s; }
    }
  }

  lemma {:induction false} ContributingSorted(ws: Workspace, paths: seq<Path>)
    requires SortedBy(paths, CompareStrings) && Distinct(paths)
    ensures SortedBy(Contributing(ws, paths), CompareStrings) && Distinct(Contributing(ws, paths))
  {
    hide EntriesAt, CompareStrings;
    if paths != [] {
      var last := |paths| - 1;
      ContributingSorted(ws, paths[..last]);
      var before := Contributing(ws, paths[..last]);
      forall p | p in before ensures CompareStrings(p, paths[last]) <= 0 && p != paths[last] {
        ContributingMembers(ws, paths[..last], p);
        var i :| 0 <= i < last && paths[i] == p;
      }
      SortedAppend(before, paths[last]);
    }
  }

  lemma {:induction false} SameEntriesSameSchema(ws: Workspace, ws': Workspace, paths: seq<Path>)
    requires SameEntries(ws, ws')
    ensures SchemaOver(ws, paths) == SchemaOver(ws', paths)
  {
    hide EntriesAt;
    if paths != [] { SameEntriesSameSchema(ws, ws', paths[..|paths| - 1]); }
  }

  /** Two fingerprints are equal exactly when every document declares the same
      tables and views, by name and columns; nothing else is compared. */
  lemma FingerprintExact(ws: Workspace, ws': Workspace, schema: seq<SchemaTable>, schema': seq<SchemaTable>)
    requires IsSchema(schema, ws) && IsSchema(schema', ws')
    ensures schema == schema' <==> SameEntries(ws, ws')
  {
    var paths :| Enumerates(paths, ws) && schema == SchemaOver(ws, paths);
    var paths' :| Enumerates(paths', ws') && schema' == SchemaOver(ws', paths');
    if schema == schema' {
      forall p ensures EntriesAt(ws, p) == EntriesAt(ws', p) {
        SchemaOfPath(ws, paths, p);
        SchemaOfPath(ws', paths', p);
      }
    }
    if SameEntries(ws, ws') {
      SameEntriesSamePaths(ws, ws', paths, paths');
      ContributingSchema(ws, paths);
      ContributingSchema(ws', paths');
      SameEntriesSameSchema(ws, ws', Contributing(ws, paths));
    }
  }

  lemma SameEntriesSamePaths(ws: Workspace, ws': Workspace, paths: seq<Path>, paths': seq<Path>)
    requires SameEntries(ws, ws') && Enumerates(paths, ws) && Enumerates(paths', ws')
    ensures Contributing(ws, paths) == Contributing(ws', paths')
  {
    ContributingSorted(ws, paths);
    ContributingSorted(ws', paths');
    var x, y := Contributing(ws, paths), Contributing(ws', paths');
    hide CompareStrings, Contributing;
    forall p ensures p in x <==> p in y {
      ContributingMembers(ws, paths, p);
      ContributingMembers(ws', paths', p);
      assert EntriesAt(ws, p) == EntriesAt(ws', p);
    }
    SortedOnce(x, y);
  }

  // ----- Equal fingerprints, equal diagnostics -----

  lemma TablesFirst(p: Path, t: seq<Table>, v: seq<View>, t': seq<Table>, v': seq<View>)
    requires |t| < |t'|
    ensures TableEntries(p, t) + ViewEntries(p, v) != TableEntries(p, t') + ViewEntries(p, v')
  {
    var x, y := TableEntries(p, t) + ViewEntries(p, v), TableEntries(p, t') + ViewEntries(p, v');
    assert !y[|t|].isView;
    if |t| < |x| { assert x[|t|].isView; }
  }

  lemma EntriesSplit(p: Path, t: seq<Table>, v: seq<View>, t': seq<Table>, v': seq<View>)
    requires TableEntries(p, t) + ViewEntries(p, v) == TableEntries(p, t') + ViewEntries(p, v')
    ensures TableEntries(p, t) == TableEntries(p, t') && ViewEntries(p, v) == ViewEntries(p, v')
  {
    var x, y := TableEntries(p, t) + ViewEntries(p, v), TableEntries(p, t') + ViewEntries(p, v');
    if |t| < |t'| { TablesFirst(p, t, v, t', v'); }
    if |t'| < |t| { TablesFirst(p, t', v', t, v); }
    assert |t| == |t'|;
    assert TableEntries(p, t) == x[..|t|] && TableEntries(p, t') == y[..|t|];
    assert ViewEntries(p, v) == x[|t|..] && ViewEntries(p, v') == y[|t|..];
  }

  lemma TableEntriesCons(p: Path, t: Table, rest: seq<Table>)
    ensures TableEntries(p, [t] + rest) == [TableEntry(p, t)] + TableEntries(p, rest)
    ensures TableEntries(p, [] + rest) == TableEntries(p, rest)
  {
    assert [] + rest == rest;
  }

  lemma ViewEntriesCons(p: Path, v: View, rest: seq<View>)
    ensures ViewEntries(p, [v] + rest) == [ViewEntry(p, v)] + ViewEntries(p, rest)
    ensures ViewEntries(p, [] + rest) == ViewEntries(p, rest)
  {
    assert [] + rest == rest;
  }

  lemma {:induction false} TablesNamedAlike(p: Path, t: seq<Table>, t': seq<Table>, name: string)
    requires TableEntries(p, t) == TableEntries(p, t')
    ensures TableEntries(p, TablesNamed(t, name)) == TableEntries(p, TablesNamed(t', name))
  {
    assert |t| == |TableEntries(p, t)| == |t'|;
    if t != [] {
      assert TableEntries(p, t)[0] == TableEntry(p, t[0]) && TableEntries(p, t')[0] == TableEntry(p, t'[0]);
      assert TableEntries(p, t[1..]) == TableEntries(p, t)[1..] && TableEntries(p, t'[1..]) == TableEntries(p, t')[1..];
      TablesNamedAlike(p, t[1..], t'[1..], name);
      TableEntriesCons(p, t[0], TablesNamed(t[1..], name));
      TableEntriesCons(p, t'[0], TablesNamed(t'[1..], name));
    }
  }

  lemma {:induction false} ViewsNamedAlike(p: Path, v: seq<View>, v': seq<View>, name: string)
    requires ViewEntries(p, v) == ViewEntries(p, v')
    ensures ViewEntries(p, ViewsNamed(v, name)) == ViewEntries(p, ViewsNamed(v', name))
  {
    assert |v| == |ViewEntries(p, v)| == |v'|;
    if v != [] {
      assert ViewEntries(p, v)[0] == ViewEntry(p, v[0]) && ViewEntries(p, v')[0] == ViewEntry(p, v'[0]);
      assert ViewEntries(p, v[1..]) == ViewEntries(p, v)[1..] && ViewEntries(p, v'[1..]) == ViewEntries(p, v')[1..];
      ViewsNamedAlike(p, v[1..], v'[1..], name);
      ViewEntriesCons(p, v[0], ViewsNamed(v[1..], name));
      ViewEntriesCons(p, v'[0], ViewsNamed(v'[1..], name));
    }
  }

  lemma SameMatches(ws: Workspace, ws': Workspace, name: string, p: Path)
    requires EntriesAt(ws, p) == EntriesAt(ws', p)
    ensures TableEntries(p, TablesAt(ws, name, p)) == TableEntries(p, TablesAt(ws', name, p))
    ensures ViewEntries(p, ViewsAt(ws, name, p)) == ViewEntries(p, ViewsAt(ws', name, p))
  {
    var none := Facts([], []);
    var f, f' := if p in ws then ws[p] else none, if p in ws' then ws'[p] else none;
    EntriesSplit(p, f.tables, f.views, f'.tables, f'.views);
    TablesNamedAlike(p, f.tables, f'.tables, name);
    ViewsNamedAlike(p, f.views, f'.views, name);
  }

  /** The only matching table or view of two workspaces with equal fingerprints
      has the same place, the same name and the same columns. */
  lemma MatchesAgree(ws: Workspace, ws': Workspace, name: string)
    requires SameEntries(ws, ws')
    ensures |TableMatches(ws, name)| == |TableMatches(ws', name)| && |ViewMatches(ws, name)| == |ViewMatches(ws', name)|
    ensures |TableMatches(ws, name)| == 1 ==>
              var (t, t') := (Only(TableMatches(ws, name)), Only(TableMatches(ws', name)));
              t.0 == t'.0 && TableEntry(t.0, t.1) == TableEntry(t.0, t'.1)
    ensures |ViewMatches(ws, name)| == 1 ==>
              var (v, v') := (Only(ViewMatches(ws, name)), Only(ViewMatches(ws', name)));
              v.0 == v'.0 && ViewEntry(v.0, v.1) == ViewEntry(v.0, v'.1)
  {
    TablesAgree(ws, ws', name);
    ViewsAgree(ws, ws', name);
  }

  lemma TablesAgree(ws: Workspace, ws': Workspace, name: string)
    requires SameEntries(ws, ws')
    ensures |TableMatches(ws, name)| == |TableMatches(ws', name)|
    ensures |TableMatches(ws, name)| == 1 ==>
              var (t, t') := (Only(TableMatches(ws, name)), Only(TableMatches(ws', name)));
              t.0 == t'.0 && TableEntry(t.0, t.1) == TableEntry(t.0, t'.1)
  {
    var f, g := (p: Path) => TablesAt(ws, name, p), (p: Path) => TablesAt(ws', name, p);
    var all := ws.Keys + ws'.Keys;
    EverywhereWiden(ws.Keys, all, f);
    EverywhereWiden(ws'.Keys, all, g);
    assert TableMatches(ws, name) == Everywhere(all, f) && TableMatches(ws', name) == Everywhere(all, g);
    forall p | p in all ensures TableEntries(p, f(p)) == TableEntries(p, g(p)) && |f(p)| == |g(p)| {
      SameMatches(ws, ws', name, p);
      assert |f(p)| == |TableEntries(p, f(p))| && |g(p)| == |TableEntries(p, g(p))|;
    }
    EverywhereSize(all, f, g);
    if |TableMatches(ws, name)| == 1 {
      var p, i := OnlyAlike(all, f, g);
      assert TableEntries(p, f(p))[i] == TableEntry(p, f(p)[i]) && TableEntries(p, g(p))[i] == TableEntry(p, g(p)[i]);
    }
  }

  lemma ViewsAgree(ws: Workspace, ws': Workspace, name: string)
    requires SameEntries(ws, ws')
    ensures |ViewMatches(ws, name)| == |ViewMatches(ws', name)|
    ensures |ViewMatches(ws, name)| == 1 ==>
              var (v, v') := (Only(ViewMatches(ws, name)), Only(ViewMatches(ws', name)));
              v.0 == v'.0 && ViewEntry(v.0, v.1) == ViewEntry(v.0, v'.1)
  {
    var f, g := (p: Path) => ViewsAt(ws, name, p), (p: Path) => ViewsAt(ws', name, p);
    var all := ws.Keys + ws'.Keys;
    EverywhereWiden(ws.Keys, all, f);
    EverywhereWiden(ws'.Keys, all, g);
    assert ViewMatches(ws, name) == Everywhere(all, f) && ViewMatches(ws', name) == Everywhere(all, g);
    forall p | p in all ensures ViewEntries(p, f(p)) == ViewEntries(p, g(p)) && |f(p)| == |g(p)| {
      SameMatches(ws, ws', name, p);
      assert |f(p)| == |ViewEntries(p, f(p))| && |g(p)| == |ViewEntries(p, g(p))|;
    }
    EverywhereSize(all, f, g);
    if |ViewMatches(ws, name)| == 1 {
      var p, i := OnlyAlike(all, f, g);
      assert ViewEntries(p, f(p))[i] == ViewEntry(p, f(p)[i]) && ViewEntries(p, g(p))[i] == ViewEntry(p, g(p)[i]);
    }
  }

  function EraseOption(d: Option<Diagnostic>): Option<Diagnostic> {
    if d.Some? then Some(Erase(d.value)) else None
  }

  /** The alias names a single view, whose shape is known in one state only. */
  ghost predicate ShapeDiffers(ws: Workspace, ws': Workspace, m: Member) {
    var v, v' := ViewMatches(ws, m.binding.sourceTableName), ViewMatches(ws', m.binding.sourceTableName);
    && Named(m) && |TableMatches(ws, m.binding.sourceTableName)| == 0
    && |v| == 1 && |v'| == 1 && Only(v).1.shape.known != Only(v').1.shape.known
  }

  lemma SameColumnNames(p: Path, t: Table, t': Table)
    requires TableEntry(p, t) == TableEntry(p, t')
    ensures ColumnNames(t) == ColumnNames(t')
  {}

  /** A known shape is readable from the entry; an unknown one reads as empty. */
  lemma SameShapeColumns(p: Path, v: View, v': View)
    requires ViewEntry(p, v) == ViewEntry(p, v') && v.shape.known
    ensures v'.shape.known ==> v.shape.columns == v'.shape.columns
    ensures !v'.shape.known ==> v.shape.columns == []
  {
    var e, e' := ViewEntry(p, v).columns, ViewEntry(p, v').columns;
    assert |e| == |v.shape.columns|;
    if v'.shape.known {
      forall i | 0 <= i < |e| ensures v.shape.columns[i] == v'.shape.columns[i] {
        assert e[i].name == v.shape.columns[i] && e'[i].name == v'.shape.columns[i];
      }
    }
  }

  lemma ErasesDeclaration(m: Member, kind: SourceKind, source: string, uri: Path, r: Range, r': Range)
    ensures Erase(UnknownColumnDiagnostic(m, kind, source, uri, r)) ==
            Erase(UnknownColumnDiagnostic(m, kind, source, uri, r'))
  {
    var d, d' := UnknownColumnDiagnostic(m, kind, source, uri, r), UnknownColumnDiagnostic(m, kind, source, uri, r');
    assert Erase(d).related == Erase(d').related;
  }

  lemma InTableAgrees(m: Member, uri: Path, t: Table, t': Table)
    requires TableEntry(uri, t) == TableEntry(uri, t')
    ensures EraseOption(InTable(m, uri, t)) == EraseOption(InTable(m, uri, t'))
  {
    SameColumnNames(uri, t, t');
    ErasesDeclaration(m, TableKind, m.binding.sourceTableName, uri, t.nameRange, t'.nameRange);
  }

  lemma InViewAgrees(m: Member, uri: Path, v: View, v': View)
    requires ViewEntry(uri, v) == ViewEntry(uri, v')
    ensures EraseOption(InView(m, uri, v)) == EraseOption(InView(m, uri, v')) <==> v.shape.known == v'.shape.known
  {
    ErasesDeclaration(m, ViewKind, m.binding.sourceTableName, uri, v.nameRange, v'.nameRange);
    if v.shape.known { SameShapeColumns(uri, v, v'); }
    if v'.shape.known { SameShapeColumns(uri, v', v); }
  }

  lemma MemberAgrees(ws: Workspace, ws': Workspace, path: Path, m: Member)
    requires SameEntries(ws, ws')
    ensures EraseOption(MemberDiagnostic(ws, path, m)) == EraseOption(MemberDiagnostic(ws', path, m)) <==>
            !ShapeDiffers(ws, ws', m)
  {
    if Named(m) {
      var name := m.binding.sourceTableName;
      MatchesAgree(ws, ws', name);
      var tables, views := TableMatches(ws, name), ViewMatches(ws, name);
      var tables', views' := TableMatches(ws', name), ViewMatches(ws', name);
      hide TableMatches, ViewMatches, SameEntries, InTable, InView, TableEntry, ViewEntry, EraseOption;
      if |tables| == 1 {
        InTableAgrees(m, Only(tables).0, Only(tables).1, Only(tables').1);
      }
      if |views| == 1 {
        InViewAgrees(m, Only(views).0, Only(views).1, Only(views').1);
      }
    }
  }

  lemma {:induction false} MemberDiagnosticsHold(ws: Workspace, path: Path, members: seq<Member>, d: Diagnostic)
    ensures d in MemberDiagnostics(ws, path, members) <==>
            exists m :: m in members && MemberDiagnostic(ws, path, m) == Some(d)
  {
    hide MemberDiagnostic;
    if members != [] {
      var last := |members| - 1;
      assert members == members[..last] + [members[last]];
      MemberDiagnosticsHold(ws, path, members[..last], d);
    }
  }

  lemma EraseAllAppend(x: seq<Diagnostic>, y: seq<Diagnostic>)
    ensures EraseAll(x + y) == EraseAll(x) + EraseAll(y)
  {}

  lemma {:induction false} MembersAgree(ws: Workspace, ws': Workspace, path: Path, members: seq<Member>)
    requires SameEntries(ws, ws') && forall m :: m in members ==> !ShapeDiffers(ws, ws', m)
    ensures EraseAll(MemberDiagnostics(ws, path, members)) == EraseAll(MemberDiagnostics(ws', path, members))
  {
    hide MemberDiagnostic, ShapeDiffers, SameEntries, Erase;
    if members != [] {
      var last := |members| - 1;
      assert members == members[..last] + [members[last]];
      MembersAgree(ws, ws', path, members[..last]);
      MemberAgrees(ws, ws', path, members[last]);
      var d, d' := MemberDiagnostic(ws, path, members[last]), MemberDiagnostic(ws', path, members[last]);
      EraseAllAppend(MemberDiagnostics(ws, path, members[..last]), Optional(d));
      EraseAllAppend(MemberDiagnostics(ws', path, members[..last]), Optional(d'));
    }
  }

  lemma EraseAllMembers(s: seq<Diagnostic>, e: Diagnostic)
    ensures e in EraseAll(s) <==> exists d :: d in s && Erase(d) == e
  {
    hide Erase;
    if e in EraseAll(s) {
      var i :| 0 <= i < |s| && Erase(s[i]) == e;
      assert s[i] in s;
    }
    if d :| d in s && Erase(d) == e {
      var i :| 0 <= i < |s| && s[i] == d;
      assert EraseAll(s)[i] == e;
    }
  }

  /** A view that reports for one member reports for no member when its shape
      becomes unknown. */
  lemma UnknownShapeIsSilent(ws: Workspace, path: Path, m: Member, d: Diagnostic, m': Member, d': Diagnostic)
    requires MemberDiagnostic(ws, path, m) == Some(d) && Erase(d) == Erase(d')
    requires d'.message == UnknownColumn(m'.name, ViewKind, m'.binding.sourceTableName)
    ensures var views := ViewMatches(ws, m'.binding.sourceTableName);
            |views| == 1 && Only(views).1.shape.known
  {
    assert d.message == d'.message;
  }

  lemma DifferenceShows(
      ws: Workspace, ws': Workspace, path: Path, queries: seq<Diagnostic>, members: seq<Member>, m: Member)
    requires SameEntries(ws, ws') && m in members && ShapeDiffers(ws, ws', m)
    requires !Only(ViewMatches(ws, m.binding.sourceTableName)).1.shape.known
    requires forall q :: q in queries ==> q.code != "unknown-column"
    ensures multiset(EraseAll(queries + MemberDiagnostics(ws, path, members)))
         != multiset(EraseAll(queries + MemberDiagnostics(ws', path, members)))
  {
    MemberAgrees(ws, ws', path, m);
    MatchesAgree(ws, ws', m.binding.sourceTableName);
    var d' := MemberDiagnostic(ws', path, m).value;
    var all, all' := queries + MemberDiagnostics(ws, path, members), queries + MemberDiagnostics(ws', path, members);
    MemberDiagnosticsHold(ws', path, members, d');
    assert d' in all';
    EraseAllMembers(all', Erase(d'));
    assert d'.message == UnknownColumn(m.name, ViewKind, m.binding.sourceTableName);
    if Erase(d') in EraseAll(all) {
      EraseAllMembers(all, Erase(d'));
      var d :| d in all && Erase(d) == Erase(d');
      assert d.code == d'.code == "unknown-column";
      MemberDiagnosticsHold(ws, path, members, d);
      var n :| n in members && MemberDiagnostic(ws, path, n) == Some(d);
      UnknownShapeIsSilent(ws, path, n, d, m, d');
      assert false;
    }
    assert Erase(d') in multiset(EraseAll(all')) && Erase(d') !in multiset(EraseAll(all));
  }

  // ----- The result identifier -----

  /** The identifier before hashing: hashes and their encoding are injective. */
  datatype ResultId = ResultId(text: string, schema: seq<SchemaTable>)

  method DocumentDiagnosticState(ws: Workspace, snapshot: Snapshot) returns (diagnostics: seq<Diagnostic>, id: ResultId)
    ensures IsState(ws, snapshot, diagnostics, id)
  {
    diagnostics := SemanticDiagnostics(ws, snapshot);
    var schema := SchemaFingerprint(ws);
    MultisetAppend(snapshot.parseErrors, diagnostics,
        snapshot.queryErrors + MemberDiagnostics(ws, snapshot.path, snapshot.members));
    diagnostics := snapshot.parseErrors + diagnostics;
    id := ResultId(snapshot.text, schema);
  }

  lemma MultisetAppend(x: seq<Diagnostic>, y: seq<Diagnostic>, z: seq<Diagnostic>)
    requires multiset(y) == multiset(z)
    ensures multiset(x + y) == multiset(x + z)
  {}

  ghost predicate IsState(ws: Workspace, s: Snapshot, diagnostics: seq<Diagnostic>, id: ResultId) {
    && id.text == s.text && IsSchema(id.schema, ws)
    && multiset(diagnostics) == multiset(s.parseErrors + (s.queryErrors + MemberDiagnostics(ws, s.path, s.members)))
  }

  lemma Without(y: seq<Diagnostic>, j: nat)
    requires j < |y|
    ensures multiset(y) == multiset(y[..j] + y[j + 1..]) + multiset{y[j]}
  {
    assert y == y[..j] + [y[j]] + y[j + 1..];
  }

  lemma EraseAllWithout(y: seq<Diagnostic>, j: nat)
    requires j < |y|
    ensures multiset(EraseAll(y)) == multiset(EraseAll(y[..j] + y[j + 1..])) + multiset{Erase(y[j])}
  {
    hide Erase;
    Without(EraseAll(y), j);
    assert EraseAll(y)[..j] + EraseAll(y)[j + 1..] == EraseAll(y[..j] + y[j + 1..]);
  }

  lemma {:induction false} ErasePermutation(x: seq<Diagnostic>, y: seq<Diagnostic>)
    requires multiset(x) == multiset(y)
    ensures multiset(EraseAll(x)) == multiset(EraseAll(y))
    decreases |x|
  {
    hide EraseAll, Erase;
    PermutationMembers(x, y);
    if x == [] {
      assert x == y;
    } else {
      assert x[0] in y;
      var j :| 0 <= j < |y| && y[j] == x[0];
      var x', y' := x[..0] + x[0 + 1..], y[..j] + y[j + 1..];
      Without(x, 0);
      Without(y, j);
      Cancel(multiset(x'), multiset(y'), x[0]);
      ErasePermutation(x', y');
      EraseAllWithout(x, 0);
      EraseAllWithout(y, j);
    }
  }

  lemma Cancel(a: multiset<Diagnostic>, b: multiset<Diagnostic>, d: Diagnostic)
    requires a + multiset{d} == b + multiset{d}
    ensures a == b
  {
    assert a == a + multiset{d} - multiset{d} && b == b + multiset{d} - multiset{d};
  }

  /** The result identifier as a cache key, for one document in two states of the
      workspace. The identifiers agree exactly when the text and every declared
      table and view, by name and columns, agree. Then the diagnostics agree in
      range, code, message and related document, up to order, exactly when no
      member names a single view whose shape is known in one state only. */
  lemma EqualIdsEqualDiagnostics(
      analyze: string -> Snapshot, path: Path, text: string, text': string, ws: Workspace, ws': Workspace,
      diagnostics: seq<Diagnostic>, diagnostics': seq<Diagnostic>, id: ResultId, id': ResultId)
    requires forall t :: analyze(t).path == path && analyze(t).text == t
    requires forall t, q :: q in analyze(t).queryErrors || q in analyze(t).parseErrors ==> q.code != "unknown-column"
    requires IsState(ws, analyze(text), diagnostics, id) && IsState(ws', analyze(text'), diagnostics', id')
    ensures id == id' <==> text == text' && SameEntries(ws, ws')
    ensures id == id' ==>
              (multiset(EraseAll(diagnostics)) == multiset(EraseAll(diagnostics')) <==>
               forall m :: m in analyze(text).members ==> !ShapeDiffers(ws, ws', m))
  {
    FingerprintExact(ws, ws', id.schema, id'.schema);
    if id == id' {
      StatesAgree(ws, ws', analyze(text), diagnostics, diagnostics', id, id');
    }
  }

  lemma StatesAgree(
      ws: Workspace, ws': Workspace, s: Snapshot,
      diagnostics: seq<Diagnostic>, diagnostics': seq<Diagnostic>, id: ResultId, id': ResultId)
    requires forall q :: q in s.queryErrors || q in s.parseErrors ==> q.code != "unknown-column"
    requires SameEntries(ws, ws') && IsState(ws, s, diagnostics, id) && IsState(ws', s, diagnostics', id')
    ensures multiset(EraseAll(diagnostics)) == multiset(EraseAll(diagnostics')) <==>
            forall m :: m in s.members ==> !ShapeDiffers(ws, ws', m)
  {
    var own := s.parseErrors + s.queryErrors;
    var all, all' := MemberDiagnostics(ws, s.path, s.members), MemberDiagnostics(ws', s.path, s.members);
    hide SameEntries, ShapeDiffers, EraseAll, IsSchema, MemberDiagnostics;
    assert s.parseErrors + (s.queryErrors + all) == own + all;
    assert s.parseErrors + (s.queryErrors + all') == own + all';
    ErasePermutation(diagnostics, own + all);
    ErasePermutation(diagnostics', own + all');
    if forall m :: m in s.members ==> !ShapeDiffers(ws, ws', m) {
      MembersAgree(ws, ws', s.path, s.members);
      EraseAllAppend(own, all);
      EraseAllAppend(own, all');
    } else {
      var m :| m in s.members && ShapeDiffers(ws, ws', m);
      DifferenceShowsEitherWay(ws, ws', s.path, own, s.members, m);
    }
  }

  lemma DifferenceShowsEitherWay(
      ws: Workspace, ws': Workspace, path: Path, queries: seq<Diagnostic>, members: seq<Member>, m: Member)
    requires SameEntries(ws, ws') && m in members && ShapeDiffers(ws, ws', m)
    requires forall q :: q in queries ==> q.code != "unknown-column"
    ensures multiset(EraseAll(queries + MemberDiagnostics(ws, path, members)))
         != multiset(EraseAll(queries + MemberDiagnostics(ws', path, members)))
  {
    ShapeDiffersBothWays(ws, ws', m);
    if Only(ViewMatches(ws, m.binding.sourceTableName)).1.shape.known {
      DifferenceShows(ws', ws, path, queries, members, m);
    } else {
      DifferenceShows(ws, ws', path, queries, members, m);
    }
  }

  lemma ShapeDiffersBothWays(ws: Workspace, ws': Workspace, m: Member)
    requires SameEntries(ws, ws') && ShapeDiffers(ws, ws', m)
    ensures SameEntries(ws', ws) && ShapeDiffers(ws', ws, m)
  {
    MatchesAgree(ws, ws', m.binding.sourceTableName);
  }

  /** Known shapes have columns, as every SELECT list has an item. */
  ghost predicate KnownShapesHaveColumns(ws: Workspace) {
    forall p, v :: p in ws && v in ws[p].views && v.shape.known ==> v.shape.columns != []
  }

  lemma {:induction false} ViewsNamedMember(views: seq<View>, name: string, v: View)
    requires v in ViewsNamed(views, name)
    ensures v in views
  {
    if v in ViewsNamed(views[1..], name) { ViewsNamedMember(views[1..], name, v); }
  }

  lemma OnlyViewIsDeclared(ws: Workspace, name: string)
    requires |ViewMatches(ws, name)| == 1
    ensures var v := Only(ViewMatches(ws, name)); v.0 in ws && v.1 in ws[v.0].views
  {
    var v := Only(ViewMatches(ws, name));
    EverywhereSound(ws.Keys, p => ViewsAt(ws, name, p), v);
    ViewsNamedMember(ws[v.0].views, name, v.1);
  }

  /** Where known shapes have columns the cache key never lies. */
  lemma NonEmptyShapesNeverDiffer(ws: Workspace, ws': Workspace, m: Member)
    requires SameEntries(ws, ws') && KnownShapesHaveColumns(ws) && KnownShapesHaveColumns(ws')
    ensures !ShapeDiffers(ws, ws', m)
  {
    if ShapeDiffers(ws, ws', m) {
      var name := m.binding.sourceTableName;
      MatchesAgree(ws, ws', name);
      OnlyViewIsDeclared(ws, name);
      OnlyViewIsDeclared(ws', name);
      var v, v' := Only(ViewMatches(ws, name)), Only(ViewMatches(ws', name));
      if v.1.shape.known { SameShapeColumns(v.0, v.1, v'.1); } else { SameShapeColumns(v.0, v'.1, v.1); }
    }
  }

  /** The shape of a view's query: unknown, or what is extracted from its SELECT list,
      which has at least one item. */
  ghost predicate Parsed(shape: Shape) {
    shape == Shape(false, []) ||
    exists items, extracted :: FromItems(shape, items, extracted)
  }

  ghost predicate FromItems(shape: Shape, items: seq<Option<QueryShapes.Column>>, extracted: QueryShapes.Shape) {
    && items != [] && QueryShapes.IsShapeOf(items, extracted)
    && shape == Shape(extracted.known, QueryShapes.Names(extracted.columns))
  }

  ghost predicate ParsedViews(ws: Workspace) {
    forall p, v :: p in ws && v in ws[p].views ==> Parsed(v.shape)
  }

  lemma ParsedHaveColumns(ws: Workspace)
    requires ParsedViews(ws)
    ensures KnownShapesHaveColumns(ws)
  {
    forall p, v | p in ws && v in ws[p].views && v.shape.known ensures v.shape.columns != [] {
      var items, extracted :| FromItems(v.shape, items, extracted);
      QueryShapes.ExtractedHasColumns(items, extracted);
    }
  }

  /** The result identifier as a cache key for parsed workspaces: equal identifiers
      mean equal diagnostics in range, code, message and related document, up to order. */
  lemma ParsedIdsEqualDiagnostics(
      analyze: string -> Snapshot, path: Path, text: string, text': string, ws: Workspace, ws': Workspace,
      diagnostics: seq<Diagnostic>, diagnostics': seq<Diagnostic>, id: ResultId, id': ResultId)
    requires forall t :: analyze(t).path == path && analyze(t).text == t
    requires forall t, q :: q in analyze(t).queryErrors || q in analyze(t).parseErrors ==> q.code != "unknown-column"
    requires IsState(ws, analyze(text), diagnostics, id) && IsState(ws', analyze(text'), diagnostics', id')
    requires ParsedViews(ws) && ParsedViews(ws') && id == id'
    ensures multiset(EraseAll(diagnostics)) == multiset(EraseAll(diagnostics'))
  {
    hide IsState, SameEntries, ShapeDiffers, KnownShapesHaveColumns, ParsedViews;
    EqualIdsEqualDiagnostics(analyze, path, text, text', ws, ws', diagnostics, diagnostics', id, id');
    ParsedHaveColumns(ws);
    ParsedHaveColumns(ws');
    forall m | m in analyze(text).members ensures !ShapeDiffers(ws, ws', m) { NonEmptyShapesNeverDiffer(ws, ws', m); }
  }

  /** A member `V.c` of a view with no known column: the same fingerprint stands
      for a state that reports it and for one that does not. */
  lemma EmptyShapeLooksUnknown()
    ensures var origin := Range(Position(0, 0), Position(0, 0));
            var of := (shape: Shape) => map["p" := Facts([], [View("V", origin, shape)])];
            var ws, ws' := of(Shape(true, [])), of(Shape(false, []));
            var m := Member("c", origin, Binding("V", origin, None, Shape(false, []), "V"), false);
            SameEntries(ws, ws') && ShapeDiffers(ws, ws', m)
  {
    var origin := Range(Position(0, 0), Position(0, 0));
    var v, v' := View("V", origin, Shape(true, [])), View("V", origin, Shape(false, []));
    var ws, ws' := map["p" := Facts([], [v])], map["p" := Facts([], [v'])];
    SingleView(ws, v);
    SingleView(ws', v');
    assert ViewEntry("p", v) == ViewEntry("p", v');
    forall p ensures EntriesAt(ws, p) == EntriesAt(ws', p) {}
  }

  lemma SingleView(ws: Workspace, v: View)
    requires ws == map["p" := Facts([], [v])] && v.name == "V"
    ensures |TableMatches(ws, "V")| == 0 && |ViewMatches(ws, "V")| == 1 && Only(ViewMatches(ws, "V")) == ("p", v)
  {
    var t, f := (p: Path) => TablesAt(ws, "V", p), (p: Path) => ViewsAt(ws, "V", p);
    assert ws.Keys == {"p"};
    EverywhereSplit(ws.Keys, t, "p");
    EverywhereSplit(ws.Keys, f, "p");
    assert ws.Keys - {"p"} == {};
    assert ViewsNamed([v][1..], "V") == [];
    assert f("p") == [v] && t("p") == [];
    TaggedMember("p", [v], ("p", v));
    OnlyMember(ViewMatches(ws, "V"), ("p", v));
  }
}
