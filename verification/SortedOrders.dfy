/** In which order the results of the handlers stand, by lines and characters. */
module SortedOrders {
  import opened Coordinates
  import opened Sorting
  import Aliases = AliasBindings
  import Columns = ColumnBindings
  import Ctes = CteBindings
  import Symbols = CteSymbols
  import Diagnostics
  import Refactor
  import Tables = TableRefactor
  import Tokens = SemanticTokens
  import opened Syntax

  ghost predicate Starts(a: Position, b: Position) {
    a.line < b.line || (a.line == b.line && a.character <= b.character)
  }

  /** By starts, and by ends where the starts are equal. */
  ghost predicate Ascends(a: Range, b: Range) {
    Starts(a.start, b.start) && (a.start == b.start ==> Starts(a.end, b.end))
  }

  /** By starts, and the larger first where the starts are equal. */
  ghost predicate OuterFirst(a: Range, b: Range) {
    Starts(a.start, b.start) && (a.start == b.start ==> Starts(b.end, a.end))
  }

  /** The comparisons of positions and ranges, in numbers. */
  lemma InNumbers(a: Range, b: Range, p: Position, q: Position)
    ensures Before(p, q) <==> p.line < q.line || (p.line == q.line && p.character < q.character)
    ensures AtOrBefore(p, q) <==> Starts(p, q)
    ensures RangeContains(a, b) <==> Starts(a.start, b.start) && Starts(b.end, a.end)
    ensures RangeIncludesPosition(a, p) <==> Starts(a.start, p) && Starts(p, a.end)
    ensures RangesOverlap(a, b) <==> !Starts(b.end, a.start) && !Starts(a.end, b.start)
  {}

  lemma CteSitesAscend(index: Ctes.CteIndex, statements: seq<Node>, i: nat, j: nat)
    requires Ctes.IsIndexOf(index, statements) && i < j < |index.sites|
    ensures Starts(index.sites[i].range.start, index.sites[j].range.start)
  {
    hide Ctes.Represents;
    var walked :| Ctes.IsSorted(index, statements, walked);
  }

  lemma AliasSitesAscend(index: Aliases.AliasIndex, root: Node, ctes: seq<Ctes.CteSite>, i: nat, j: nat)
    requires Aliases.IsIndexOf(index, root, ctes) && i < j
    ensures j < |index.sites| ==> Starts(index.sites[i].range.start, index.sites[j].range.start)
    ensures j < |index.memberSites| ==> Starts(index.memberSites[i].range.start, index.memberSites[j].range.start)
  {
    hide Aliases.Represents;
    var walked :| Aliases.IsSorted(index, walked) &&
      Aliases.Represents(walked, root, ctes, Aliases.Expected(root, ctes));
  }

  lemma ColumnSitesAscend(d: Columns.Document, derived: bool, places: seq<Columns.Place>, index: Columns.ColumnIndex,
                          i: nat, j: nat)
    requires Columns.IsColumnIndex(d, derived, places, index) && i < j < |index.sites|
    ensures Starts(index.sites[i].range.start, index.sites[j].range.start)
  {
    hide Columns.Stands, Columns.SitesOf;
  }

  lemma OutlineOrder(symbols: seq<Symbols.Symbol>, index: seq<Symbols.Binding>, bindings: seq<Symbols.Binding>,
                     forest: Symbols.Forest, i: nat, j: nat)
    requires Symbols.Outlines(symbols, index, bindings, forest) && i < j < |bindings|
    ensures OuterFirst(bindings[i].range, bindings[j].range)
  {
    hide Symbols.RenderAll, Symbols.IsOutline;
  }

  lemma ChildrenAscend(s: Symbols.Symbol, bindings: seq<Symbols.Binding>, f: Symbols.Forest, n: nat, i: nat, j: nat)
    requires |f.children| == |bindings| && Symbols.Downward(f) && n < |bindings| && Symbols.Renders(s, bindings, f, n)
    requires i < j < |s.children|
    ensures Ascends(s.children[i].range, s.children[j].range)
  {
    hide Symbols.RenderAll, Symbols.Mix, Symbols.Fields;
  }

  lemma PlanAscends(plan: Refactor.Plan, docs: Refactor.Documents, p: string, i: nat, j: nat)
    requires Refactor.IsPlan(plan, docs) && p in plan && i < j < |plan[p]|
    ensures Ascends(plan[p][i].range, plan[p][j].range)
  {
    assert p in docs;
  }

  lemma CoveredAscend(sites: seq<Refactor.Site>, document: seq<Tables.Statement>, target: string, i: nat, j: nat)
    requires Tables.Covers(sites, document, target) && i < j < |sites|
    ensures Ascends(sites[i].range, sites[j].range)
  {
    hide Tables.Lists;
  }

  lemma TokensAscend(data: seq<Tokens.U32>, tokens: seq<Tokens.SemanticToken>, sorted: seq<Tokens.SemanticToken>,
                     typeMap: map<string, Tokens.U32>, modifierMap: map<string, Tokens.U32>, i: nat, j: nat)
    requires Tokens.ReadsAs(data, tokens, sorted, typeMap, modifierMap) && i < j < |sorted|
    ensures Starts(Position(sorted[i].line, sorted[i].col), Position(sorted[j].line, sorted[j].col))
  {
    hide Tokens.Decode, Tokens.Visible;
  }

  /** Both strings begin with the same k letters, and then the first ends or has the smaller letter. */
  ghost predicate Parts(a: string, b: string, k: nat) {
    k <= |a| && k <= |b| && a[..k] == b[..k] && (k == |a| || (k < |b| && a[k] < b[k]))
  }

  /** Letter by letter: the first difference decides, and a beginning comes first. */
  ghost predicate Alphabetic(a: string, b: string) {
    exists k: nat :: Parts(a, b, k)
  }

  lemma PartsLater(a: string, b: string, k: nat)
    requires a != [] && b != [] && a[0] == b[0]
    ensures !Parts(a, b, 0)
    ensures Parts(a, b, k + 1) <==> Parts(a[1..], b[1..], k)
  {
    if k < |a| && k < |b| {
      assert a[..k + 1] == [a[0]] + a[1..][..k] && b[..k + 1] == [b[0]] + b[1..][..k];
      assert a[..k + 1] == b[..k + 1] ==> a[1..][..k] == a[..k + 1][1..] == b[..k + 1][1..] == b[1..][..k];
    }
  }

  lemma PartsAtOnce(a: string, b: string, k: nat)
    requires a == [] || b == [] || a[0] != b[0]
    ensures Parts(a, b, k) <==> k == 0 && (a == [] || (b != [] && a[0] < b[0]))
  {
    if k > 0 && k <= |a| && k <= |b| { assert a[..k][0] == a[0] && b[..k][0] == b[0]; }
  }

  lemma {:induction false} StringsAlphabetic(a: string, b: string)
    ensures CompareStrings(a, b) <= 0 <==> Alphabetic(a, b)
  {
    if a != [] && b != [] && a[0] == b[0] {
      StringsAlphabetic(a[1..], b[1..]);
      hide Parts;
      if k: nat :| Parts(a, b, k) {
        PartsLater(a, b, if k > 0 then k - 1 else 0);
        assert k - 1 >= 0 && Parts(a[1..], b[1..], k - 1);
      }
      if k: nat :| Parts(a[1..], b[1..], k) { PartsLater(a, b, k); }
    } else {
      hide Parts;
      forall k: nat ensures Parts(a, b, k) <==> k == 0 && (a == [] || (b != [] && a[0] < b[0])) {
        PartsAtOnce(a, b, k);
      }
      assert a == [] || (b != [] && a[0] < b[0]) ==> Parts(a, b, 0);
    }
  }

  lemma DiagnosticsAscend(result: seq<Diagnostics.Diagnostic>, i: nat, j: nat)
    requires SortedBy(result, Diagnostics.CompareDiagnostics) && i < j < |result|
    ensures Ascends(result[i].range, result[j].range)
    ensures result[i].range == result[j].range ==> Alphabetic(result[i].code, result[j].code)
  {
    StringsAlphabetic(result[i].code, result[j].code);
    hide Alphabetic, CompareStrings;
    assert Diagnostics.CompareDiagnostics(result[i], result[j]) <= 0;
  }
}
