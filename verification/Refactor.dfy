/** Workspace-wide renames of tables: which occurrences of the name a plan
    covers, and when there is a plan at all. */
module Refactor {
  import opened Coordinates
  import opened Syntax
  import opened Sorting
  import opened WorkspaceScan

  datatype Site = Site(name: string, range: Range)

  /** What one document contributes: its sites, how many of them declare the
      relation, and whether all uses of the name are understood. */
  datatype Collected = Collected(sites: seq<Site>, declarations: nat, safe: bool)

  function CompareSites(a: Site, b: Site): int {
    if a.range.start != b.range.start then ComparePosition(a.range.start, b.range.start)
    else ComparePosition(a.range.end, b.range.end)
  }

  // ----- Workspace roots -----

  /** The longest root that contains the path; none is the empty string. */
  ghost predicate IsLongestRoot(roots: set<string>, path: Path, best: string) {
    if best == "" then forall r :: r in roots ==> !Inside(r, path)
    else best in roots && Inside(best, path) && forall r :: r in roots && Inside(r, path) ==> |r| <= |best|
  }

  lemma LongestRootOnce(roots: set<string>, path: Path, a: string, b: string)
    requires IsLongestRoot(roots, path, a) && IsLongestRoot(roots, path, b)
    ensures a == b
  {
    if a != "" && b != "" {
      assert a == path[..|a|] && b == path[..|b|];
    }
  }

  method WorkspaceRootForPath(roots: set<string>, path: Path) returns (best: string)
    ensures IsLongestRoot(roots, path, best)
  {
    best := "";
    var rest := roots;
    while rest != {}
      invariant rest <= roots && IsLongestRoot(roots - rest, path, best)
    {
      var root :| root in rest;
      if Inside(root, path) && |root| > |best| {
        best := root;
      }
      rest := rest - {root};
    }
    assert roots - rest == roots;
  }

  /** The two paths belong to the same root, or both to none. */
  ghost predicate SameRoot(roots: set<string>, p: Path, q: Path) {
    exists r :: IsLongestRoot(roots, p, r) && IsLongestRoot(roots, q, r)
  }

  // ----- Plans -----

  type Plan = map<Path, seq<Site>>

  /** Just one path contributes, and it contributes one. */
  ghost predicate ExactlyOne(paths: set<Path>, count: Path -> nat) {
    exists p :: OnlyOneAt(paths, count, p)
  }

  ghost predicate OnlyOneAt(paths: set<Path>, count: Path -> nat, p: Path) {
    p in paths && count(p) == 1 && forall q :: q in paths && q != p ==> count(q) == 0
  }

  ghost function Sum(paths: set<Path>, count: Path -> nat): nat {
    if paths == {} then 0
    else
      var p :| p in paths;
      count(p) + Sum(paths - {p}, count)
  }

  lemma {:induction false} SumSplit(paths: set<Path>, count: Path -> nat, q: Path)
    requires q in paths
    ensures Sum(paths, count) == count(q) + Sum(paths - {q}, count)
  {
    var p :| p in paths && Sum(paths, count) == count(p) + Sum(paths - {p}, count);
    if p != q {
      SumSplit(paths - {p}, count, q);
      SumSplit(paths - {q}, count, p);
      assert paths - {p} - {q} == paths - {q} - {p};
    }
  }

  lemma {:induction false} SumNone(paths: set<Path>, count: Path -> nat)
    ensures Sum(paths, count) == 0 <==> forall p :: p in paths ==> count(p) == 0
  {
    if paths != {} {
      var p :| p in paths;
      SumSplit(paths, count, p);
      SumNone(paths - {p}, count);
    }
  }

  /** The order in which the documents are added up does not matter. */
  lemma SumOne(paths: set<Path>, count: Path -> nat)
    ensures Sum(paths, count) == 1 <==> ExactlyOne(paths, count)
  {
    if ExactlyOne(paths, count) {
      var p :| OnlyOneAt(paths, count, p);
      SumSplit(paths, count, p);
      SumNone(paths - {p}, count);
    }
    if Sum(paths, count) == 1 {
      SumNone(paths, count);
      var p :| p in paths && count(p) != 0;
      SumSplit(paths, count, p);
      SumNone(paths - {p}, count);
      assert OnlyOneAt(paths, count, p);
    }
  }

  type Documents = map<Path, Collected>

  predicate Contributes(docs: Documents, p: Path) {
    p in docs && docs[p].sites != []
  }

  ghost function Declared(docs: Documents): Path -> nat {
    p => if Contributes(docs, p) then docs[p].declarations else 0
  }

  ghost predicate CanPlan(docs: Documents, roots: set<string>) {
    && (forall p :: p in docs ==> docs[p].safe)
    && ExactlyOne(docs.Keys, Declared(docs))
    && forall p, q :: Contributes(docs, p) && Contributes(docs, q) ==> SameRoot(roots, p, q)
  }

  /** The plan lists every site of every document, and nothing else, in order. */
  ghost predicate IsPlan(plan: Plan, docs: Documents) {
    && (forall p :: p in plan <==> Contributes(docs, p))
    && forall p :: p in plan && p in docs ==>
         multiset(plan[p]) == multiset(docs[p].sites) && SortedBy(plan[p], CompareSites)
  }

  /** The loop over the documents, in whatever order, after those in `done`. */
  ghost predicate Gathered(docs: Documents, done: set<Path>, plan: Plan, declarations: nat, safe: bool) {
    && done <= docs.Keys
    && (safe <==> forall p :: p in done ==> docs[p].safe)
    && (forall p :: p in plan <==> Contributes(docs, p) && p in done)
    && (forall p :: p in plan ==> plan[p] == docs[p].sites)
    && declarations == Sum(done, Declared(docs))
  }

  /** The roots are those of the planned paths. */
  ghost predicate RootsOf(workspaceRoots: set<string>, roots: set<string>, plan: Plan) {
    && (forall p :: p in plan ==> RootIn(workspaceRoots, roots, p))
    && (forall r :: r in roots ==> OwnsOne(workspaceRoots, r, plan))
  }

  ghost predicate RootIn(workspaceRoots: set<string>, roots: set<string>, p: Path) {
    exists r :: r in roots && IsLongestRoot(workspaceRoots, p, r)
  }

  ghost predicate OwnsOne(workspaceRoots: set<string>, r: string, plan: Plan) {
    exists p :: p in plan && IsLongestRoot(workspaceRoots, p, r)
  }

  lemma GatherStep(docs: Documents, done: set<Path>, plan: Plan, declarations: nat, safe: bool, p: Path)
    requires Gathered(docs, done, plan, declarations, safe) && p in docs && p !in done
    ensures docs[p].sites == [] ==> Gathered(docs, done + {p}, plan, declarations, safe && docs[p].safe)
    ensures docs[p].sites != [] ==>
              Gathered(docs, done + {p}, plan[p := docs[p].sites], declarations + docs[p].declarations, safe &&
                  docs[p].safe)
  {
    SumSplit(done + {p}, Declared(docs), p);
    assert done + {p} - {p} == done;
    hide Sum;
  }

  lemma RootsStep(workspaceRoots: set<string>, roots: set<string>, plan: Plan, p: Path, sites: seq<Site>, r: string)
    requires RootsOf(workspaceRoots, roots, plan) && IsLongestRoot(workspaceRoots, p, r)
    ensures RootsOf(workspaceRoots, roots + {r}, plan[p := sites])
  {
    hide IsLongestRoot;
    var more := plan[p := sites];
    forall q | q in more ensures RootIn(workspaceRoots, roots + {r}, q) {
      if q != p { assert RootIn(workspaceRoots, roots, q); }
    }
    forall s | s in roots + {r} ensures OwnsOne(workspaceRoots, s, more) {
      if s in roots {
        assert OwnsOne(workspaceRoots, s, plan);
        var q :| q in plan && IsLongestRoot(workspaceRoots, q, s);
        assert q in more;
      } else {
        assert p in more && IsLongestRoot(workspaceRoots, p, r);
      }
    }
  }

  lemma OneRoot(roots: set<string>)
    ensures |roots| <= 1 <==> forall r, s :: r in roots && s in roots ==> r == s
  {
    if r :| r in roots {
      assert roots == {r} + (roots - {r});
      if s :| s in roots - {r} {
        assert {r, s} <= roots;
        assert roots == {r, s} + (roots - {r, s});
      }
    }
  }

  /** At most one root exactly when all paths share theirs. */
  lemma RootsAgree(workspaceRoots: set<string>, roots: set<string>, plan: Plan)
    requires RootsOf(workspaceRoots, roots, plan)
    ensures |roots| <= 1 <==> forall p, q :: p in plan && q in plan ==> SameRoot(workspaceRoots, p, q)
  {
    OneRoot(roots);
    if forall r, s :: r in roots && s in roots ==> r == s {
      forall p, q | p in plan && q in plan ensures SameRoot(workspaceRoots, p, q) {
        assert RootIn(workspaceRoots, roots, p) && RootIn(workspaceRoots, roots, q);
      }
    }
    if forall p, q :: p in plan && q in plan ==> SameRoot(workspaceRoots, p, q) {
      forall r, s | r in roots && s in roots ensures r == s {
        assert OwnsOne(workspaceRoots, r, plan) && OwnsOne(workspaceRoots, s, plan);
        var p :| p in plan && IsLongestRoot(workspaceRoots, p, r);
        var q :| q in plan && IsLongestRoot(workspaceRoots, q, s);
        assert SameRoot(workspaceRoots, p, q);
        var both :| IsLongestRoot(workspaceRoots, p, both) && IsLongestRoot(workspaceRoots, q, both);
        LongestRootOnce(workspaceRoots, p, r, both);
        LongestRootOnce(workspaceRoots, q, s, both);
      }
    }
  }

  lemma CanPlanIff(docs: Documents, workspaceRoots: set<string>, roots: set<string>, plan: Plan, declarations: nat,
                   safe: bool)
    requires Gathered(docs, docs.Keys, plan, declarations, safe) && RootsOf(workspaceRoots, roots, plan)
    ensures CanPlan(docs, workspaceRoots) <==> safe && declarations == 1 && |roots| <= 1
  {
    SumOne(docs.Keys, Declared(docs));
    RootsAgree(workspaceRoots, roots, plan);
  }

  /** The loop over the documents; a map is visited in any order. */
  method GatherDocuments(docs: Documents, workspaceRoots: set<string>)
    returns (sites: Plan, declarations: nat, roots: set<string>, safe: bool)
    ensures Gathered(docs, docs.Keys, sites, declarations, safe) && RootsOf(workspaceRoots, roots, sites)
  {
    sites, declarations, roots, safe := map[], 0, {}, true;
    var rest := docs.Keys;
    ghost var done: set<Path> := {};
    assert Gathered(docs, done, sites, declarations, safe) && RootsOf(workspaceRoots, roots, sites);
    hide Gathered, RootsOf, IsLongestRoot;
    while rest != {}
      invariant rest + done == docs.Keys && rest !! done
      invariant Gathered(docs, done, sites, declarations, safe) && RootsOf(workspaceRoots, roots, sites)
    {
      var path :| path in rest;
      GatherStep(docs, done, sites, declarations, safe, path);
      rest := rest - {path};
      done := done + {path};
      safe := safe && docs[path].safe;
      if docs[path].sites != [] {
        declarations := declarations + docs[path].declarations;
        var root := WorkspaceRootForPath(workspaceRoots, path);
        RootsStep(workspaceRoots, roots, sites, path, docs[path].sites, root);
        sites := sites[path := docs[path].sites];
        roots := roots + {root};
      }
    }
  }

  /** There is a plan exactly when all documents are safe, the relation is declared
      once, and everything lies under one workspace root; whatever the order in
      which the documents are visited, it then lists all sites, sorted. */
  method RefactorPlan(docs: Documents, workspaceRoots: set<string>) returns (plan: Option<Plan>)
    ensures plan.Some? <==> CanPlan(docs, workspaceRoots)
    ensures plan.Some? ==> IsPlan(plan.value, docs)
  {
    hide Gathered, RootsOf, CanPlan, IsPlan;
    var sites, declarations, roots, safe := GatherDocuments(docs, workspaceRoots);
    CanPlanIff(docs, workspaceRoots, roots, sites, declarations, safe);
    if !safe || declarations != 1 || |roots| > 1 {
      return None;
    }
    var sorted := SortPlan(docs, sites, declarations, safe);
    plan := Some(sorted);
  }

  method SortPlan(ghost docs: Documents, sites: Plan, ghost declarations: nat, ghost safe: bool) returns (plan: Plan)
    requires Gathered(docs, docs.Keys, sites, declarations, safe)
    ensures IsPlan(plan, docs)
  {
    plan := map[];
    var rest := sites.Keys;
    while rest != {}
      invariant rest <= sites.Keys && plan.Keys == sites.Keys - rest
      invariant forall p :: p in plan ==> multiset(plan[p]) == multiset(sites[p]) && SortedBy(plan[p], CompareSites)
    {
      hide SortedBy, CompareSites, Gathered;
      var path :| path in rest;
      var s := SortFunc(sites[path], CompareSites);
      plan := plan[path := s];
      rest := rest - {path};
    }
    assert plan.Keys == sites.Keys;
  }
}
