/** What the CTE index holds, by the kinds of the nodes: which nodes declare a CTE, which
    tables are written as one name, and the declaration that such a name denotes. */
module CteReferences {
  import opened Coordinates
  import opened Syntax
  import opened Sorting
  import opened CteBindings

  // ----- The nodes -----

  /** The c-th child of the query at q is one of the CTEs that it begins with. */
  ghost predicate BeginsWith(root: Node, q: Address, c: nat) {
    && NodeAt(root, q).Some? && NodeAt(root, q).value.kind.Query?
    && c < |Kids(NodeAt(root, q).value)| && forall j :: 0 <= j <= c ==> Kids(NodeAt(root, q).value)[j].kind.Cte?
  }

  /** The node declares a CTE of this name over that range. */
  ghost predicate DeclaredAt(root: Node, a: Address, name: Ident, whole: Range) {
    && a != [] && BeginsWith(root, a[..|a| - 1], a[|a| - 1])
    && Kids(NodeAt(root, a[..|a| - 1]).value)[a[|a| - 1]].kind == Cte(name, whole)
  }

  /** A table that is written as this one name. */
  ghost predicate Names(n: Node, i: Ident) {
    || (n.kind.TableName? && n.kind.table == i)
    || (n.kind.PathTable? && Kids(n) != [] && Kids(n)[0].kind == Path([i]))
  }

  lemma {:induction false} LeadingIff(kids: seq<Node>, c: nat)
    ensures c < LeadingCtes(kids) <==> c < |kids| && forall j :: 0 <= j <= c ==> kids[j].kind.Cte?
  {
    if kids != [] && kids[0].kind.Cte? && c > 0 {
      LeadingIff(kids[1..], c - 1);
      assert forall j :: 0 < j <= c && c < |kids| ==> kids[j] == kids[1..][j - 1];
      assert c < |kids| ==> forall j :: 0 <= j <= c - 1 ==> kids[1..][j] == kids[j + 1];
    }
  }

  lemma BeginsIff(root: Node, q: Address, c: nat)
    requires NodeAt(root, q).Some?
    ensures c < CteCount(NodeAt(root, q).value) <==> BeginsWith(root, q, c)
  {
    LeadingIff(Kids(NodeAt(root, q).value), c);
    hide LeadingCtes;
  }

  lemma NamesIff(n: Node, i: Ident)
    ensures Reference(n) == Some(i) <==> Names(n, i)
  {
    if n.kind.PathTable? && Kids(n) != [] && Kids(n)[0].kind.Path? {
      var idents := Kids(n)[0].kind.idents;
      if |idents| == 1 { assert idents == [idents[0]]; }
    }
  }

  // ----- The lexical rule -----

  /** The place sees the c-th CTE of the query at q, under this key: it lies below the query,
      and not in the CTE itself nor in an earlier one. */
  ghost predicate Sees(root: Node, a: Address, q: Address, c: nat, key: string) {
    && q < a && c < a[|q|] && BeginsWith(root, q, c)
    && Fold(Kids(NodeAt(root, q).value)[c].kind.cteName.name) == key
  }

  /** The last that it sees there, in the innermost query where it sees any. */
  ghost predicate SeesFirst(root: Node, a: Address, q: Address, c: nat, key: string) {
    && Sees(root, a, q, c, key)
    && (forall d: nat :: c < d ==> !Sees(root, a, q, d, key))
    && forall p: Address, d: nat :: q < p ==> !Sees(root, a, p, d, key)
  }

  /** A name at the place denotes that declaration, or nothing where the place sees none. */
  ghost predicate Denotes(root: Node, a: Address, key: string, decl: Option<Address>) {
    match decl
    case None => forall q: Address, c: nat :: !Sees(root, a, q, c, key)
    case Some(d) => d != [] && SeesFirst(root, a, d[..|d| - 1], d[|d| - 1], key)
  }

  lemma LastIff(root: Node, p: Address, k: nat, key: string) returns (found: Option<nat>)
    requires NodeAt(root, p).Some?
    ensures found == LastNamed(NodeAt(root, p).value, Visible(NodeAt(root, p).value, k), key)
    ensures found.Some? ==> Sees(root, p + [k], p, found.value, key)
    ensures forall d: nat :: Sees(root, p + [k], p, d, key) ==> found.Some? && d <= found.value
  {
    var n := NodeAt(root, p).value;
    found := LastNamed(n, Visible(n, k), key);
    forall d: nat ensures d < CteCount(n) <==> BeginsWith(root, p, d) { BeginsIff(root, p, d); }
    hide LastNamed, BeginsWith, CteCount;
  }

  lemma SeesOuter(root: Node, p: Address, k: nat, q: Address, c: nat, key: string)
    ensures Sees(root, p + [k], q, c, key) ==> q < p || q == p
    ensures Sees(root, p, q, c, key) ==> q < p
    ensures q < p ==> (Sees(root, p + [k], q, c, key) <==> Sees(root, p, q, c, key))
  {
    hide BeginsWith, Fold;
    if q < p + [k] { assert q == (p + [k])[..|q|] && (|q| == |p| ==> (p + [k])[..|p|] == p); }
    if q < p { assert (p + [k])[|q|] == p[|q|]; }
  }

  lemma {:induction false} ResolveMeets(root: Node, a: Address, key: string)
    requires NodeAt(root, a).Some?
    ensures Denotes(root, a, key, Resolve(root, a, key))
    decreases |a|
  {
    if a != [] {
      var p, k := a[..|a| - 1], a[|a| - 1];
      assert a == p + [k];
      NodeAtPrefix(root, p, [k]);
      ResolveMeets(root, p, key);
      OneFurther(root, p, k, key);
    }
  }

  lemma OneFurther(root: Node, p: Address, k: nat, key: string)
    requires NodeAt(root, p).Some? && Denotes(root, p, key, Resolve(root, p, key))
    ensures Denotes(root, p + [k], key, Resolve(root, p + [k], key))
  {
    hide NodeAt, LastNamed, Visible, Resolve, Fold, Sees, CteCount;
    ResolveChild(root, NodeAt(root, p).value, p, k, key);
    var found := LastIff(root, p, k, key);
    forall q: Address, c: nat
      ensures Sees(root, p + [k], q, c, key) ==> q < p || q == p
      ensures Sees(root, p, q, c, key) ==> q < p
      ensures q < p ==> (Sees(root, p + [k], q, c, key) <==> Sees(root, p, q, c, key))
    {
      SeesOuter(root, p, k, q, c, key);
    }
    if found.Some? {
      var d := p + [found.value];
      assert d[..|d| - 1] == p && SeesFirst(root, p + [k], p, found.value, key);
    } else if Resolve(root, p, key).Some? {
      var d := Resolve(root, p, key).value;
      assert SeesFirst(root, p + [k], d[..|d| - 1], d[|d| - 1], key);
    }
  }

  /** The rule, by places: a name denotes the last CTE that its place sees in the innermost
      query where it sees any, and nothing where it sees none. */
  lemma ResolveIff(root: Node, a: Address, key: string, decl: Option<Address>)
    requires NodeAt(root, a).Some?
    ensures Resolve(root, a, key) == decl <==> Denotes(root, a, key, decl)
  {
    hide Resolve, NodeAt, Denotes;
    ResolveMeets(root, a, key);
    if Denotes(root, a, key, decl) { DenotesOnce(root, a, key, decl, Resolve(root, a, key)); }
  }

  lemma DenotesOnce(root: Node, a: Address, key: string, x: Option<Address>, y: Option<Address>)
    requires Denotes(root, a, key, x) && Denotes(root, a, key, y)
    ensures x == y
  {
    hide Sees;
    if x.Some? && y.Some? {
      var d, e := x.value, y.value;
      var p, q := d[..|d| - 1], e[..|e| - 1];
      BothAbove(root, a, p, d[|d| - 1], q, e[|e| - 1], key);
      assert d == p + [d[|d| - 1]] && e == q + [e[|e| - 1]];
    }
  }

  lemma BothAbove(root: Node, a: Address, p: Address, c: nat, q: Address, d: nat, key: string)
    requires Sees(root, a, p, c, key) && Sees(root, a, q, d, key)
    ensures p < q || q < p || p == q
  {
    assert p == a[..|p|] && q == a[..|q|];
  }

  // ----- The index -----

  /** The name at the place denotes the CTE declared at `decl`. */
  ghost predicate RefersTo(root: Node, a: Address, i: Ident, decl: Address) {
    NodeAt(root, a).Some? && Names(NodeAt(root, a).value, i) && Denotes(root, a, Fold(i.name), Some(decl))
  }

  /** The places of the bindings: each declares its binding, and collects exactly the names
      that denote it. */
  ghost predicate Holds(index: CteIndex, root: Node, places: seq<Address>, b: nat)
    requires b < |index.bindings| == |places|
  {
    var binding := index.bindings[b];
    && DeclaredAt(root, places[b], Ident(binding.name, binding.declarationRange), binding.range)
    && (forall r :: r in binding.referenceRanges <==>
           exists a, i: Ident :: i.range == r && RefersTo(root, a, i, places[b]))
    && (forall r :: CteSite(b, r, false) in index.sites <==> r in binding.referenceRanges)
    && (forall r :: CteSite(b, r, true) in index.sites <==> r == binding.declarationRange)
  }

  lemma ReferenceIff(root: Node, a: Address, i: Ident, decl: Address)
    requires NodeAt(root, a).Some?
    ensures ReferenceAt(root, a) == Some(i) && Resolve(root, a, Fold(i.name)) == Some(decl) <==>
            RefersTo(root, a, i, decl)
  {
    hide Denotes, Names, Resolve, Reference;
    NamesIff(NodeAt(root, a).value, i);
    ResolveIff(root, a, Fold(i.name), Some(decl));
  }

  lemma DeclarationIff(root: Node, a: Address, name: Ident, whole: Range)
    ensures ByRule(root, Declared(a, name, whole)) <==> DeclaredAt(root, a, name, whole)
  {
    hide BeginsWith;
    if a != [] && NodeAt(root, a[..|a| - 1]).Some? { BeginsIff(root, a[..|a| - 1], a[|a| - 1]); }
    if a != [] && NodeAt(root, a[..|a| - 1]).None? { NoNodeBegins(root, a[..|a| - 1], a[|a| - 1]); }
  }

  lemma NoNodeBegins(root: Node, q: Address, c: nat)
    requires NodeAt(root, q).None?
    ensures !BeginsWith(root, q, c)
  {}

  lemma {:induction false} DeclarationsOf(log: seq<Event>, e: Event)
    ensures e in Declarations(log) <==> e in log && e.Declared?
  {
    if log != [] { DeclarationsOf(log[..|log| - 1], e); }
  }

  lemma {:induction false} RangesOf(log: seq<Event>, decl: Address, r: Range)
    ensures r in ReferenceRanges(log, decl) <==> exists a :: Referred(a, decl, r) in log
  {
    if log != [] { RangesOf(log[..|log| - 1], decl, r); }
  }

  lemma SitesOf(sites: seq<CteSite>, decls: seq<Event>, log: seq<Event>, b: nat, r: Range)
    requires SitesAre(sites, decls, log) && b < |decls| && DistinctPlaces(decls) && forall e :: e in decls ==>
             e.Declared? && e in log
    ensures CteSite(b, r, false) in sites <==> exists a :: Referred(a, decls[b].at, r) in log
    ensures CteSite(b, r, true) in sites <==> r == decls[b].name.range
  {
    if CteSite(b, r, false) in sites {
      var i :| 0 <= i < |sites| && sites[i] == CteSite(b, r, false);
      assert SiteIs(sites[i], decls, log[i]) && log[i] == Referred(log[i].at, decls[b].at, r);
    }
    if a :| Referred(a, decls[b].at, r) in log {
      var i :| 0 <= i < |log| && log[i] == Referred(a, decls[b].at, r);
      assert SiteIs(sites[i], decls, log[i]) && sites[i] == CteSite(b, r, false);
    }
    if CteSite(b, r, true) in sites {
      var i :| 0 <= i < |sites| && sites[i] == CteSite(b, r, true);
      assert SiteIs(sites[i], decls, log[i]);
    }
    assert decls[b] in decls;
    var i :| 0 <= i < |log| && log[i] == decls[b];
    assert SiteIs(sites[i], decls, log[i]) && sites[i].binding == b;
  }

  /** The index: a binding for each CTE that a query begins with, each once, which collects
      exactly the names that denote it; and its sites. */
  lemma IndexIff(index: CteIndex, statements: seq<Node>) returns (places: seq<Address>)
    requires IsIndexOf(index, statements)
    ensures |places| == |index.bindings| && Distinct(places)
    ensures forall a :: a in places <==> exists name, whole :: DeclaredAt(Document(statements), a, name, whole)
    ensures forall b :: 0 <= b < |places| ==> Holds(index, Document(statements), places, b)
  {
    hide Expected, Holds, DeclaredAt, ByRule, SitesAre, BindingIs;
    var root := Document(statements);
    var log := Expected(root, root, []);
    var walked: seq<CteSite> :| IsSorted(index, statements, walked);
    var decls := Declarations(log);
    RecordIsLexical(root);
    DistinctDeclarations(log);
    places := seq(|decls|, b requires 0 <= b < |decls| => decls[b].at);
    forall b | 0 <= b < |places| ensures Holds(index, root, places, b) {
      BindingHolds(index, statements, walked, places, b);
    }
    forall a ensures a in places <==> exists name, whole :: DeclaredAt(root, a, name, whole) {
      if a in places {
        var b :| 0 <= b < |decls| && decls[b].at == a;
        DeclarationIff(root, a, decls[b].name, decls[b].whole);
        assert decls[b] in decls && decls[b] == Declared(a, decls[b].name, decls[b].whole);
      }
      if name, whole :| DeclaredAt(root, a, name, whole) {
        DeclarationIff(root, a, name, whole);
        DeclarationsOf(log, Declared(a, name, whole));
        var b :| 0 <= b < |decls| && decls[b] == Declared(a, name, whole);
        assert places[b] == a;
      }
    }
  }

  lemma BindingHolds(index: CteIndex, statements: seq<Node>, walked: seq<CteSite>, places: seq<Address>, b: nat)
    requires IsSorted(index, statements, walked) && b < |index.bindings| == |places|
    requires var root := Document(statements);
             |places| == |Declarations(Expected(root, root, []))| &&
               places[b] == Declarations(Expected(root, root, []))[b].at
    ensures Holds(index, Document(statements), places, b)
  {
    hide Expected, DeclaredAt, SitesAre, ByRule, RefersTo;
    var root := Document(statements);
    var log := Expected(root, root, []);
    var decls, binding := Declarations(log), index.bindings[b];
    RecordIsLexical(root);
    DistinctDeclarations(log);
    PermutationMembers(index.sites, walked);
    assert BindingIs(binding, decls[b], log) && decls[b] in decls;
    DeclarationIff(root, places[b], decls[b].name, decls[b].whole);
    forall r
      ensures r in binding.referenceRanges <==> exists a, i: Ident :: i.range == r && RefersTo(root, a, i, places[b])
      ensures CteSite(b, r, false) in index.sites <==> r in binding.referenceRanges
      ensures CteSite(b, r, true) in index.sites <==> r == binding.declarationRange
    {
      RangesOf(log, places[b], r);
      SitesOf(walked, decls, log, b, r);
      ReferredIff(root, places[b], r);
    }
  }

  lemma ReferredIff(root: Node, decl: Address, r: Range)
    ensures (exists a :: Referred(a, decl, r) in Expected(root, root, [])) <==>
            exists a, i: Ident :: i.range == r && RefersTo(root, a, i, decl)
  {
    hide Expected, RefersTo, Resolve;
    RecordIsLexical(root);
    if a :| Referred(a, decl, r) in Expected(root, root, []) {
      assert ByRule(root, Referred(a, decl, r));
      ReferenceIff(root, a, ReferenceAt(root, a).value, decl);
    }
    if a, i: Ident :| i.range == r && RefersTo(root, a, i, decl) {
      RefersToNode(root, a, i, decl);
      ReferenceIff(root, a, i, decl);
      assert ByRule(root, Referred(a, decl, r));
    }
  }

  lemma RefersToNode(root: Node, a: Address, i: Ident, decl: Address)
    requires RefersTo(root, a, i, decl)
    ensures NodeAt(root, a).Some?
  {}
}
