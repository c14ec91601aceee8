/** Renaming a table over the workspace: which occurrences of its name a plan
    covers, when there is a plan at all, and what the rename leaves behind. */
module TableRefactor {
  import opened Coordinates
  import opened Syntax
  import opened Sorting
  import opened WorkspaceScan
  import opened Refactor

  // ----- Table names in a document -----

  /** A name as it is written: qualified or not, quoted or not. */
  datatype Name = Name(text: string, simple: bool, unquoted: bool, range: Range)

  datatype Role =
    | Creates(synonyms: bool)   // CREATE TABLE
    | Uses                      // any other statement on the table
    | Queries                   // a table name in a query, which a CTE may own
    | Alters(identity: bool)    // ALTER TABLE; identity: it renames or aliases the table
    | Forbids                   // a view, a synonym or a new name

  /** Mentions: the parts of a path table, or the identifiers of unparsable text. */
  datatype Occurrence = Named(role: Role, name: Name) | Mentions(parts: seq<string>) | DeclaresCte(cte: string)

  type Statement = seq<Occurrence>

  predicate Matches(n: Name, target: string) {
    n.simple && EqualFold(n.text, target)
  }

  ghost predicate HasCte(s: Statement, target: string) {
    exists i :: 0 <= i < |s| && s[i].DeclaresCte? && EqualFold(s[i].cte, target)
  }

  ghost predicate MentionsName(parts: seq<string>, target: string) {
    exists i :: 0 <= i < |parts| && EqualFold(parts[i], target)
  }

  /** The occurrence is the name of the table and can be rewritten. */
  predicate IsSite(o: Occurrence, target: string, hasCte: bool) {
    o.Named? && Matches(o.name, target) && o.name.unquoted && !o.role.Forbids? && !(o.role.Queries? && hasCte)
  }

  /** The occurrence does not stand in the way of a rename. */
  ghost predicate IsSafe(o: Occurrence, target: string, hasCte: bool) {
    match o
    case Named(role, name) =>
      Matches(name, target) ==>
        && IsSite(o, target, hasCte)
        && !(role.Creates? && role.synonyms) && !(role.Alters? && role.identity)
    case Mentions(parts) => !MentionsName(parts, target)
    case DeclaresCte(_) => true
  }

  function SitesIn(s: Statement, target: string, hasCte: bool): seq<Site> {
    if s == [] then []
    else
      var last := |s| - 1;
      SitesIn(s[..last], target, hasCte) + SiteOf(s[last], target, hasCte)
  }

  function SiteOf(o: Occurrence, target: string, hasCte: bool): seq<Site> {
    if IsSite(o, target, hasCte) then [Site(o.name.text, o.name.range)] else []
  }

  function DeclarationsIn(s: Statement, target: string): nat {
    if s == [] then 0
    else
      var last := |s| - 1;
      DeclarationsIn(s[..last], target) + if IsSite(s[last], target, false) && s[last].role.Creates? then 1 else 0
  }

  ghost predicate SafeIn(s: Statement, target: string, hasCte: bool) {
    forall i :: 0 <= i < |s| ==> IsSafe(s[i], target, hasCte)
  }

  ghost function Collect(document: seq<Statement>, target: string): Collected {
    if document == [] then Collected([], 0, true)
    else
      var last := |document| - 1;
      var before, s := Collect(document[..last], target), document[last];
      Collected(
        before.sites + SitesIn(s, target, HasCte(s, target)),
        before.declarations + DeclarationsIn(s, target),
        before.safe && SafeIn(s, target, HasCte(s, target)))
  }

  // ----- The collector -----

  method FindCte(s: Statement, target: string) returns (hasTargetCte: bool)
    ensures hasTargetCte <==> HasCte(s, target)
  {
    hasTargetCte := false;
    for i := 0 to |s|
      invariant hasTargetCte <==> exists k :: 0 <= k < i && s[k].DeclaresCte? && EqualFold(s[k].cte, target)
    {
      if s[i].DeclaresCte? && EqualFold(s[i].cte, target) {
        hasTargetCte := true;
      }
    }
  }

  method MentionsTarget(parts: seq<string>, target: string) returns (found: bool)
    ensures found <==> MentionsName(parts, target)
  {
    for i := 0 to |parts|
      invariant forall k :: 0 <= k < i ==> !EqualFold(parts[k], target)
    {
      if EqualFold(parts[i], target) {
        return true;
      }
    }
    return false;
  }

  /** One occurrence, as the walk meets it. */
  method Visit(o: Occurrence, target: string, hasCte: bool, was: Collected) returns (c: Collected)
    ensures c.sites == was.sites + SiteOf(o, target, hasCte)
    ensures c.declarations == was.declarations + if IsSite(o, target, hasCte) && o.role.Creates? then 1 else 0
    ensures c.safe == (was.safe && IsSafe(o, target, hasCte))
  {
    c := was;
    match o
    case DeclaresCte(_) =>
    case Mentions(parts) =>
      var found := MentionsTarget(parts, target);
      if found {
        c := c.(safe := false);
      }
    case Named(role, name) =>
      if Matches(name, target) {
        if role.Forbids? || (role.Queries? && hasCte) || !name.unquoted {
          c := c.(safe := false);
        } else {
          c := c.(sites := c.sites + [Site(name.text, name.range)]);
          if role.Creates? {
            c := c.(declarations := c.declarations + 1);
          }
        }
        if (role.Creates? && role.synonyms) || (role.Alters? && role.identity) {
          c := c.(safe := false);
        }
      }
  }

  method CollectStatement(s: Statement, target: string, was: Collected) returns (c: Collected)
    ensures c == Collected(was.sites + SitesIn(s, target, HasCte(s, target)),
                           was.declarations + DeclarationsIn(s, target),
                           was.safe && SafeIn(s, target, HasCte(s, target)))
  {
    var hasTargetCte := FindCte(s, target);
    c := was;
    assert s[..|s|] == s;
    hide IsSite, SiteOf, IsSafe, HasCte;
    for i := 0 to |s|
      invariant c.sites == was.sites + SitesIn(s[..i], target, hasTargetCte)
      invariant c.declarations == was.declarations + DeclarationsIn(s[..i], target)
      invariant c.safe <==> was.safe && forall k :: 0 <= k < i ==> IsSafe(s[k], target, hasTargetCte)
    {
      assert s[..i + 1][..i] == s[..i];
      CreatesIgnoreCtes(s[i], target, hasTargetCte);
      c := Visit(s[i], target, hasTargetCte, c);
    }
  }

  lemma CreatesIgnoreCtes(o: Occurrence, target: string, hasCte: bool)
    ensures IsSite(o, target, false) && o.role.Creates? <==> IsSite(o, target, hasCte) && o.role.Creates?
  {}

  method CollectTableRefactorSites(document: seq<Statement>, target: string) returns (c: Collected)
    ensures c == Collect(document, target)
  {
    c := Collected([], 0, true);
    assert document[..|document|] == document;
    hide SitesIn, DeclarationsIn, SafeIn, HasCte;
    for i := 0 to |document|
      invariant c == Collect(document[..i], target)
    {
      assert document[..i + 1][..i] == document[..i];
      c := CollectStatement(document[i], target, c);
    }
  }

  // ----- Occurrence by occurrence -----

  /** An occurrence of a document by its statement and its place there. */
  datatype Place = Place(statement: nat, occurrence: nat)

  predicate IsPlace(document: seq<Statement>, p: Place) {
    p.statement < |document| && p.occurrence < |document[p.statement]|
  }

  type Test = (Occurrence, bool) -> bool

  /** The occurrence at a place passes, given whether its statement has a CTE of the name. */
  ghost predicate Passes(document: seq<Statement>, target: string, test: Test, p: Place) {
    IsPlace(document, p) && test(document[p.statement][p.occurrence], HasCte(document[p.statement], target))
  }

  ghost function PlacesIn(s: Statement, i: nat, hasCte: bool, test: Test): seq<Place> {
    if s == [] then []
    else
      var last := |s| - 1;
      PlacesIn(s[..last], i, hasCte, test) + if test(s[last], hasCte) then [Place(i, last)] else []
  }

  ghost function Places(document: seq<Statement>, target: string, test: Test): seq<Place> {
    if document == [] then []
    else
      var last := |document| - 1;
      Places(document[..last], target, test) + PlacesIn(document[last], last, HasCte(document[last], target), test)
  }

  /** The list holds every passing place once. */
  ghost predicate Lists(places: seq<Place>, document: seq<Statement>, target: string, test: Test) {
    Distinct(places) && forall p :: p in places <==> Passes(document, target, test, p)
  }

  lemma {:induction false} PlacesInAre(s: Statement, i: nat, hasCte: bool, test: Test)
    ensures Distinct(PlacesIn(s, i, hasCte, test))
    ensures forall p :: p in PlacesIn(s, i, hasCte, test) <==>
            p.statement == i && p.occurrence < |s| && test(s[p.occurrence], hasCte)
  {
    if s != [] {
      var last := |s| - 1;
      PlacesInAre(s[..last], i, hasCte, test);
      DistinctAppend(PlacesIn(s[..last], i, hasCte, test), if test(s[last], hasCte) then [Place(i, last)] else []);
    }
  }

  lemma {:induction false} PlacesAre(document: seq<Statement>, target: string, test: Test)
    ensures Lists(Places(document, target, test), document, target, test)
  {
    if document != [] {
      var last := |document| - 1;
      var before, more := Places(document[..last], target, test),
        PlacesIn(document[last], last, HasCte(document[last], target), test);
      PlacesAre(document[..last], target, test);
      PlacesInAre(document[last], last, HasCte(document[last], target), test);
      hide Places, PlacesIn, HasCte;
      DistinctAppend(before, more);
      forall p ensures p in before + more <==> Passes(document, target, test, p) {
        assert p in before <==> Passes(document[..last], target, test, p);
      }
      PlacesLast(document, target, test);
    }
  }

  lemma PlacesLast(document: seq<Statement>, target: string, test: Test)
    requires document != []
    ensures var last := |document| - 1;
            Places(document, target, test) ==
            Places(document[..last], target, test) +
              PlacesIn(document[last], last, HasCte(document[last], target), test)
  {}

  /** The occurrence is rewritten; it declares the table. */
  function Rewrites(target: string): Test {
    (o: Occurrence, hasCte: bool) => IsSite(o, target, hasCte)
  }

  function Declares(target: string): Test {
    (o: Occurrence, hasCte: bool) => IsSite(o, target, hasCte) && o.role.Creates?
  }

  function SiteAt(document: seq<Statement>, p: Place): Site {
    if IsPlace(document, p) && document[p.statement][p.occurrence].Named?
    then var name := document[p.statement][p.occurrence].name; Site(name.text, name.range)
    else Site("", Range(Position(0, 0), Position(0, 0)))
  }

  function SitesAt(document: seq<Statement>, places: seq<Place>): seq<Site> {
    seq(|places|, i requires 0 <= i < |places| => SiteAt(document, places[i]))
  }

  lemma SitesAtAppend(document: seq<Statement>, x: seq<Place>, y: seq<Place>)
    ensures SitesAt(document, x + y) == SitesAt(document, x) + SitesAt(document, y)
  {}

  /** Earlier statements have the same sites in a longer document. */
  lemma SitesAtPrefix(document: seq<Statement>, places: seq<Place>)
    requires document != [] && forall p :: p in places ==> IsPlace(document[..|document| - 1], p)
    ensures SitesAt(document, places) == SitesAt(document[..|document| - 1], places)
  {
    forall i | 0 <= i < |places| ensures SiteAt(document, places[i]) == SiteAt(document[..|document| - 1], places[i]) {
      assert places[i] in places;
    }
  }

  lemma {:induction false} StatementSites(document: seq<Statement>, i: nat, n: nat, target: string, hasCte: bool)
    requires i < |document| && n <= |document[i]|
    ensures SitesIn(document[i][..n], target, hasCte) ==
            SitesAt(document, PlacesIn(document[i][..n], i, hasCte, Rewrites(target)))
    ensures DeclarationsIn(document[i][..n], target) == |PlacesIn(document[i][..n], i, hasCte, Declares(target))|
  {
    if n > 0 {
      var s := document[i];
      assert s[..n][..n - 1] == s[..n - 1];
      StatementSites(document, i, n - 1, target, hasCte);
      var before := PlacesIn(s[..n - 1], i, hasCte, Rewrites(target));
      var own := if IsSite(s[n - 1], target, hasCte) then [Place(i, n - 1)] else [];
      SitesAtAppend(document, before, own);
      assert SiteOf(s[n - 1], target, hasCte) == SitesAt(document, own);
      CreatesIgnoreCtes(s[n - 1], target, hasCte);
    }
  }

  /** What the collector returns, by occurrence: the sites are those of the rewritten
      occurrences, each once, and the count is that of the declaring ones. */
  lemma {:induction false} CollectedSites(document: seq<Statement>, target: string)
    ensures Collect(document, target).sites == SitesAt(document, Places(document, target, Rewrites(target)))
    ensures Collect(document, target).declarations == |Places(document, target, Declares(target))|
  {
    if document != [] {
      var last := |document| - 1;
      var has := HasCte(document[last], target);
      CollectedSites(document[..last], target);
      assert document[last][..|document[last]|] == document[last];
      StatementSites(document, last, |document[last]|, target, has);
      PlacesAre(document[..last], target, Rewrites(target));
      hide HasCte, SitesIn, DeclarationsIn, PlacesIn;
      SitesAtPrefix(document, Places(document[..last], target, Rewrites(target)));
      SitesAtAppend(document, Places(document[..last], target, Rewrites(target)),
          PlacesIn(document[last], last, has, Rewrites(target)));
    }
  }

  /** A site of a document is the site of some rewritten occurrence. */
  lemma SiteIsOccurrence(document: seq<Statement>, target: string, site: Site)
    ensures site in Collect(document, target).sites <==>
            exists p :: Passes(document, target, Rewrites(target), p) && SiteAt(document, p) == site
  {
    CollectedSites(document, target);
    PlacesAre(document, target, Rewrites(target));
    var places := Places(document, target, Rewrites(target));
    hide Places, Passes, SiteAt, Collect;
    if site in SitesAt(document, places) {
      var i :| 0 <= i < |places| && SitesAt(document, places)[i] == site;
      assert places[i] in places;
    }
    if p :| Passes(document, target, Rewrites(target), p) && SiteAt(document, p) == site {
      var i :| 0 <= i < |places| && places[i] == p;
      assert SitesAt(document, places)[i] == site;
    }
  }

  // ----- The plan for a workspace of statements -----

  type Workspace = map<Path, seq<Statement>>

  /** Every use of the name in the workspace is understood. */
  ghost predicate AllSafe(ws: Workspace, target: string) {
    forall p: Path, q: Place :: p in ws && IsPlace(ws[p], q) ==>
      IsSafe(ws[p][q.statement][q.occurrence], target, HasCte(ws[p][q.statement], target))
  }

  /** The table is created there, under its simple unquoted name. */
  ghost predicate CreatedAt(ws: Workspace, target: string, p: Path, q: Place) {
    && p in ws && IsPlace(ws[p], q) && ws[p][q.statement][q.occurrence].Named?
    && var o := ws[p][q.statement][q.occurrence];
       o.role.Creates? && Matches(o.name, target) && o.name.unquoted
  }

  ghost predicate OnlyCreatedAt(ws: Workspace, target: string, p: Path, q: Place) {
    CreatedAt(ws, target, p, q) && forall p', q' :: CreatedAt(ws, target, p', q') ==> p' == p && q' == q
  }

  ghost predicate CreatedOnce(ws: Workspace, target: string) {
    exists p, q :: OnlyCreatedAt(ws, target, p, q)
  }

  /** Some occurrence of the document is rewritten. */
  ghost predicate HasSite(ws: Workspace, target: string, p: Path) {
    p in ws && exists q :: Passes(ws[p], target, Rewrites(target), q)
  }

  ghost predicate Plannable(ws: Workspace, roots: set<string>, target: string) {
    && AllSafe(ws, target) && CreatedOnce(ws, target)
    && forall p, q :: HasSite(ws, target, p) && HasSite(ws, target, q) ==> SameRoot(roots, p, q)
  }

  /** The edits of a document: the sites of its rewritten occurrences, each once,
      in the order of their ranges. */
  ghost predicate Covers(sites: seq<Site>, document: seq<Statement>, target: string) {
    && SortedBy(sites, CompareSites)
    && exists places :: Lists(places, document, target, Rewrites(target)) && SameSites(sites, document, places)
  }

  ghost predicate SameSites(sites: seq<Site>, document: seq<Statement>, places: seq<Place>) {
    multiset(sites) == multiset(SitesAt(document, places))
  }

  ghost function CollectAll(ws: Workspace, target: string): Documents {
    map p | p in ws :: Collect(ws[p], target)
  }

  lemma ContributesIsSite(ws: Workspace, target: string, p: Path)
    ensures Contributes(CollectAll(ws, target), p) <==> HasSite(ws, target, p)
  {
    if p in ws {
      var sites := Collect(ws[p], target).sites;
      if sites != [] {
        assert sites[0] in sites;
        SiteIsOccurrence(ws[p], target, sites[0]);
      }
      if q :| Passes(ws[p], target, Rewrites(target), q) {
        SiteIsOccurrence(ws[p], target, SiteAt(ws[p], q));
      }
    }
  }

  lemma SafeIsAll(ws: Workspace, target: string)
    ensures (forall p :: p in ws ==> Collect(ws[p], target).safe) <==> AllSafe(ws, target)
  {
    forall p | p in ws
      ensures Collect(ws[p], target).safe <==>
              forall q: Place :: IsPlace(ws[p], q) ==>
                  IsSafe(ws[p][q.statement][q.occurrence], target, HasCte(ws[p][q.statement], target))
    {
      DocumentSafe(ws[p], target);
    }
  }

  lemma DocumentSafe(document: seq<Statement>, target: string)
    ensures Collect(document, target).safe <==>
            forall q: Place :: IsPlace(document, q) ==>
              IsSafe(document[q.statement][q.occurrence], target, HasCte(document[q.statement], target))
  {
    CollectedSafe(document, target);
    hide IsSafe, HasCte, Collect;
    if forall q: Place :: IsPlace(document, q) ==>
         IsSafe(document[q.statement][q.occurrence], target, HasCte(document[q.statement], target)) {
      forall i | 0 <= i < |document| ensures SafeIn(document[i], target, HasCte(document[i], target)) {
        forall j | 0 <= j < |document[i]| ensures IsSafe(document[i][j], target, HasCte(document[i], target)) {
          assert IsPlace(document, Place(i, j));
        }
      }
    }
  }

  lemma CreatedIsDeclares(ws: Workspace, target: string, p: Path, q: Place)
    requires p in ws
    ensures CreatedAt(ws, target, p, q) <==> Passes(ws[p], target, Declares(target), q)
    ensures CreatedAt(ws, target, p, q) ==> Passes(ws[p], target, Rewrites(target), q)
  {}

  /** A list without repetition has one element exactly when it has a member and no other. */
  lemma OnePlace(places: seq<Place>)
    requires Distinct(places)
    ensures |places| == 0 <==> forall q :: q !in places
    ensures |places| == 1 <==> exists q :: q in places && forall q' :: q' in places ==> q' == q
  {
    if places != [] { assert places[0] in places; }
    if |places| > 1 { assert places[1] in places; }
  }

  /** The count of a document tells whether it creates the table never or once. */
  lemma CreationsCounted(ws: Workspace, target: string, p: Path)
    requires p in ws
    ensures var n := Declared(CollectAll(ws, target))(p);
            && (n == 0 <==> forall q :: !CreatedAt(ws, target, p, q))
            && (n == 1 <==> exists q :: CreatedAt(ws, target, p, q) && forall q' :: CreatedAt(ws, target, p, q') ==>
                   q' == q)
  {
    var places := Places(ws[p], target, Declares(target));
    CollectedSites(ws[p], target);
    PlacesAre(ws[p], target, Declares(target));
    ContributesIsSite(ws, target, p);
    OnePlace(places);
    forall q ensures q in places <==> CreatedAt(ws, target, p, q)
             ensures CreatedAt(ws, target, p, q) ==> HasSite(ws, target, p) {
      CreatedIsDeclares(ws, target, p, q);
    }
    hide Places, CreatedAt, Collect;
  }

  lemma CreatedOnceIff(ws: Workspace, target: string)
    ensures ExactlyOne(ws.Keys, Declared(CollectAll(ws, target))) <==> CreatedOnce(ws, target)
  {
    var count := Declared(CollectAll(ws, target));
    forall p | p in ws
      ensures count(p) == 0 <==> forall q :: !CreatedAt(ws, target, p, q)
      ensures count(p) == 1 <==> exists q :: CreatedAt(ws, target, p, q) && forall q' ::
              CreatedAt(ws, target, p, q') ==> q' == q
    {
      CreationsCounted(ws, target, p);
    }
    forall p, q | CreatedAt(ws, target, p, q) ensures p in ws {}
    hide Declared, CollectAll, CreatedAt;
    if ExactlyOne(ws.Keys, count) {
      var p :| OnlyOneAt(ws.Keys, count, p);
      var q :| CreatedAt(ws, target, p, q) && forall q' :: CreatedAt(ws, target, p, q') ==> q' == q;
      assert OnlyCreatedAt(ws, target, p, q);
    }
    if CreatedOnce(ws, target) {
      var p, q :| OnlyCreatedAt(ws, target, p, q);
      assert OnlyOneAt(ws.Keys, count, p);
    }
  }

  lemma PlannableIff(ws: Workspace, roots: set<string>, target: string)
    ensures CanPlan(CollectAll(ws, target), roots) <==> Plannable(ws, roots, target)
  {
    var docs := CollectAll(ws, target);
    assert docs.Keys == ws.Keys;
    SafeIsAll(ws, target);
    CreatedOnceIff(ws, target);
    forall p ensures Contributes(docs, p) <==> HasSite(ws, target, p) {
      ContributesIsSite(ws, target, p);
    }
    hide AllSafe, CreatedOnce, ExactlyOne, SameRoot, HasSite, Contributes, Declared, Collect;
  }

  lemma PlanCovers(ws: Workspace, target: string, plan: Plan, p: Path)
    requires IsPlan(plan, CollectAll(ws, target))
    ensures p in plan <==> HasSite(ws, target, p)
    ensures p in plan ==> p in ws && Covers(plan[p], ws[p], target)
  {
    ContributesIsSite(ws, target, p);
    if p in plan {
      CollectedSites(ws[p], target);
      PlacesAre(ws[p], target, Rewrites(target));
      assert SameSites(plan[p], ws[p], Places(ws[p], target, Rewrites(target)));
    }
  }

  /** The plan of a rename, from the statements of the workspace. There is one exactly
      when every use of the name is understood, the table is created exactly once and
      all documents with sites share their workspace root. Then it edits in each of
      those documents, and in no other, exactly the occurrences that can be rewritten,
      each once, in order. */
  method TableRefactorPlan(ws: Workspace, roots: set<string>, target: string) returns (plan: Option<Plan>)
    ensures plan.Some? <==> Plannable(ws, roots, target)
    ensures plan.Some? ==> forall p :: p in plan.value <==> HasSite(ws, target, p)
    ensures plan.Some? ==> forall p :: p in plan.value ==> p in ws && Covers(plan.value[p], ws[p], target)
  {
    var docs: Documents := map[];
    var rest := ws.Keys;
    while rest != {}
      invariant rest <= ws.Keys && docs.Keys == ws.Keys - rest
      invariant forall p :: p in docs ==> docs[p] == Collect(ws[p], target)
    {
      hide Collect;
      var path :| path in rest;
      var collected := CollectTableRefactorSites(ws[path], target);
      docs := docs[path := collected];
      rest := rest - {path};
    }
    hide Collect, CanPlan, IsPlan, Plannable, HasSite, Covers;
    assert docs == CollectAll(ws, target);
    plan := RefactorPlan(docs, roots);
    PlannableIff(ws, roots, target);
    if plan.Some? {
      forall p ensures p in plan.value <==> HasSite(ws, target, p)
               ensures p in plan.value ==> p in ws && Covers(plan.value[p], ws[p], target) {
        PlanCovers(ws, target, plan.value, p);
      }
    }
  }

  // ----- What a rename does -----

  /** The rewriting of one occurrence. */
  function Renamed(o: Occurrence, target: string, newName: string, hasCte: bool): Occurrence {
    if IsSite(o, target, hasCte) then o.(name := o.name.(text := newName)) else o
  }

  ghost function RenameStatement(s: Statement, target: string, newName: string): Statement {
    seq(|s|, i requires 0 <= i < |s| => Renamed(s[i], target, newName, HasCte(s, target)))
  }

  ghost function RenameDocument(document: seq<Statement>, target: string, newName: string): seq<Statement> {
    seq(|document|, i requires 0 <= i < |document| => RenameStatement(document[i], target, newName))
  }

  lemma RenameKeepsCtes(s: Statement, target: string, newName: string, other: string)
    ensures HasCte(RenameStatement(s, target, newName), other) <==> HasCte(s, other)
  {
    var r := RenameStatement(s, target, newName);
    forall i | 0 <= i < |s| ensures r[i].DeclaresCte? <==> s[i].DeclaresCte?
                            ensures s[i].DeclaresCte? ==> r[i] == s[i] {}
    if HasCte(s, other) {
      var i :| 0 <= i < |s| && s[i].DeclaresCte? && EqualFold(s[i].cte, other);
      assert r[i] == s[i];
    }
  }

  lemma {:induction false} CollectedSafe(document: seq<Statement>, target: string)
    ensures Collect(document, target).safe <==> forall i :: 0 <= i < |document| ==>
            SafeIn(document[i], target, HasCte(document[i], target))
  {
    hide SafeIn, HasCte;
    if document != [] { CollectedSafe(document[..|document| - 1], target); }
  }

  /** The name occurs, in whatever role or spelling. */
  ghost predicate Occurs(o: Occurrence, target: string) {
    match o
    case Named(_, name) => Matches(name, target)
    case Mentions(parts) => MentionsName(parts, target)
    case DeclaresCte(_) => false
  }

  ghost predicate OccursIn(s: Statement, target: string) {
    exists i :: 0 <= i < |s| && Occurs(s[i], target)
  }

  /** In a safe document the sites are all there is of the name: once they are
      rewritten, it occurs nowhere in any role. */
  lemma RenameLeavesNothing(document: seq<Statement>, target: string, newName: string, i: nat)
    requires Collect(document, target).safe && !EqualFold(newName, target) && i < |document|
    ensures !OccursIn(RenameDocument(document, target, newName)[i], target)
  {
    CollectedSafe(document, target);
    var s, has := document[i], HasCte(document[i], target);
    forall j | 0 <= j < |s| ensures !Occurs(RenameStatement(s, target, newName)[j], target) {
      assert IsSafe(s[j], target, has);
    }
  }

  /** The statement queries the table and has a CTE of the new name somewhere. */
  ghost predicate Overlaps(s: Statement, target: string, newName: string) {
    HasCte(s, newName) && exists i :: 0 <= i < |s| && s[i].Named? && s[i].role.Queries? && Matches(s[i].name, target)
  }

  lemma RenamedSafe(o: Occurrence, target: string, newName: string, hasCte: bool, hasNewCte: bool)
    requires IsSafe(o, target, hasCte) && !EqualFold(newName, target)
    ensures IsSafe(Renamed(o, target, newName, hasCte), newName, hasNewCte) <==>
            && IsSafe(o, newName, hasNewCte)
            && !(hasNewCte && o.Named? && o.role.Queries? && Matches(o.name, target))
  {}

  lemma RenamedStatementSafe(s: Statement, target: string, newName: string)
    requires SafeIn(s, target, HasCte(s, target)) && !EqualFold(newName, target)
    ensures var r := RenameStatement(s, target, newName);
            SafeIn(r, newName, HasCte(r, newName)) <==>
              SafeIn(s, newName, HasCte(s, newName)) && !Overlaps(s, target, newName)
  {
    var r := RenameStatement(s, target, newName);
    RenameKeepsCtes(s, target, newName, newName);
    var has, hasNew := HasCte(s, target), HasCte(s, newName);
    hide IsSafe, Renamed, HasCte;
    forall i | 0 <= i < |s|
      ensures IsSafe(r[i], newName, hasNew) <==>
              IsSafe(s[i], newName, hasNew) &&
                !(hasNew && s[i].Named? && s[i].role.Queries? && Matches(s[i].name, target))
    {
      assert IsSafe(s[i], target, has);
      assert r[i] == Renamed(s[i], target, newName, has);
      RenamedSafe(s[i], target, newName, has, hasNew);
    }
  }

  /** The flag of the collector, which looks at whole statements: after a rename the
      document is safe for the new name exactly when it was before and no statement
      that queries the table has a CTE of that name. */
  lemma RenameIsSafeIff(document: seq<Statement>, target: string, newName: string)
    requires Collect(document, target).safe && !EqualFold(newName, target)
    ensures Collect(RenameDocument(document, target, newName), newName).safe <==>
            && Collect(document, newName).safe
            && forall i :: 0 <= i < |document| ==> !Overlaps(document[i], target, newName)
  {
    var renamed := RenameDocument(document, target, newName);
    CollectedSafe(document, target);
    CollectedSafe(document, newName);
    CollectedSafe(renamed, newName);
    forall i | 0 <= i < |document|
      ensures SafeIn(renamed[i], newName, HasCte(renamed[i], newName)) <==>
              SafeIn(document[i], newName, HasCte(document[i], newName)) && !Overlaps(document[i], target, newName)
    {
      RenamedStatementSafe(document[i], target, newName);
    }
  }

  /** The test made before a rename: a table or view of the new name. */
  ghost predicate DeclaresRelation(document: seq<Statement>, name: string) {
    exists i, j :: 0 <= i < |document| && 0 <= j < |document[i]| && DeclaresAt(document[i][j], name)
  }

  ghost predicate DeclaresAt(o: Occurrence, name: string) {
    o.Named? && (o.role.Creates? || o.role.Forbids?) && Matches(o.name, name)
  }

  /** That test does not see CTEs: in `CREATE TABLE T ...` with a statement that
      queries T beside a CTE N, T may be renamed to N, and then not back. */
  lemma RenameCanLosePlan(at: Range)
    ensures var t := Name("T", true, true, at);
            var document := [[Named(Creates(false), t)], [DeclaresCte("N"), Named(Queries, t)]];
            && Collect(document, "T").safe && !DeclaresRelation(document, "N")
            && !Collect(RenameDocument(document, "T", "N"), "N").safe
  {
    var t := Name("T", true, true, at);
    var document := [[Named(Creates(false), t)], [DeclaresCte("N"), Named(Queries, t)]];
    assert Fold("T") == "T" && Fold("N") == "N";
    assert "T"[0] != "N"[0];
    assert !HasCte(document[0], "T") && !HasCte(document[1], "T");
    CollectedSafe(document, "T");
    assert document[1][0].DeclaresCte? && EqualFold(document[1][0].cte, "N");
    assert document[1][1].Named? && Matches(document[1][1].name, "T");
    assert Overlaps(document[1], "T", "N");
    RenameIsSafeIff(document, "T", "N");
  }

  // ----- A rename to a fresh name can be undone -----

  ghost predicate Fresh(document: seq<Statement>, name: string) {
    forall i :: 0 <= i < |document| ==> !OccursIn(document[i], name) && !HasCte(document[i], name)
  }

  /** The same places under another name. */
  function Retold(sites: seq<Site>, name: string): seq<Site> {
    seq(|sites|, i requires 0 <= i < |sites| => Site(name, sites[i].range))
  }

  lemma RetoldAppend(x: seq<Site>, y: seq<Site>, name: string)
    ensures Retold(x + y, name) == Retold(x, name) + Retold(y, name)
  {}

  lemma RenamedSite(o: Occurrence, target: string, newName: string, hasCte: bool)
    requires !Occurs(o, newName)
    ensures var r := Renamed(o, target, newName, hasCte);
            && (IsSite(r, newName, false) <==> IsSite(o, target, hasCte))
            && SiteOf(r, newName, false) == Retold(SiteOf(o, target, hasCte), newName)
            && (IsSite(o, target, hasCte) ==> r.role == o.role)
  {}

  lemma {:induction false} RenamedSites(s: Statement, r: Statement, target: string, newName: string, hasCte: bool)
    requires |s| == |r| && !OccursIn(s, newName)
    requires forall i :: 0 <= i < |s| ==> r[i] == Renamed(s[i], target, newName, hasCte)
    ensures SitesIn(r, newName, false) == Retold(SitesIn(s, target, hasCte), newName)
    ensures DeclarationsIn(r, newName) == DeclarationsIn(s, target)
  {
    hide IsSite, SiteOf, Renamed, Occurs;
    if s != [] {
      var last := |s| - 1;
      RenamedSites(s[..last], r[..last], target, newName, hasCte);
      RenamedSite(s[last], target, newName, hasCte);
      CreatesIgnoreCtes(s[last], target, hasCte);
      RetoldAppend(SitesIn(s[..last], target, hasCte), SiteOf(s[last], target, hasCte), newName);
    }
  }

  /** Renaming to a name that occurs nowhere keeps every site in its place, so a
      plan for the new name covers what the plan for the old one did. */
  lemma {:induction false} RenameToFresh(document: seq<Statement>, target: string, newName: string)
    requires Fresh(document, newName)
    ensures var was, now := Collect(document, target), Collect(RenameDocument(document, target, newName), newName);
            now.sites == Retold(was.sites, newName) && now.declarations == was.declarations
  {
    if document != [] {
      var last := |document| - 1;
      var s, r := document[last], RenameDocument(document, target, newName);
      assert r[..last] == RenameDocument(document[..last], target, newName);
      RenameToFresh(document[..last], target, newName);
      RenameKeepsCtes(s, target, newName, newName);
      RenamedSites(s, r[last], target, newName, HasCte(s, target));
      RetoldAppend(Collect(document[..last], target).sites, SitesIn(s, target, HasCte(s, target)), newName);
    }
  }

  lemma FreshIsSafe(document: seq<Statement>, target: string, newName: string)
    requires Fresh(document, newName) && Collect(document, target).safe && !EqualFold(newName, target)
    ensures Collect(RenameDocument(document, target, newName), newName).safe
  {
    RenameIsSafeIff(document, target, newName);
    CollectedSafe(document, newName);
    forall i | 0 <= i < |document| ensures SafeIn(document[i], newName, HasCte(document[i], newName)) {
      assert !OccursIn(document[i], newName);
    }
  }

  ghost function RenameAll(ws: Workspace, target: string, newName: string): Workspace {
    map p | p in ws :: RenameDocument(ws[p], target, newName)
  }

  /** Where a table can be renamed to a name that occurs nowhere, it can be
      renamed back: the plan for the new name exists and has the same places. */
  lemma RenameCanBeUndone(ws: Workspace, roots: set<string>, target: string, newName: string)
    requires CanPlan(CollectAll(ws, target), roots) && !EqualFold(newName, target)
    requires forall p :: p in ws ==> Fresh(ws[p], newName)
    ensures CanPlan(CollectAll(RenameAll(ws, target, newName), newName), roots)
    ensures forall p :: p in ws ==>
              Collect(RenameAll(ws, target, newName)[p], newName).sites == Retold(Collect(ws[p], target).sites, newName)
  {
    var was, now := CollectAll(ws, target), CollectAll(RenameAll(ws, target, newName), newName);
    hide Fresh, Collect, RenameDocument, SameRoot, ExactlyOne, Retold;
    forall p | p in ws
      ensures now[p].safe && now[p].declarations == was[p].declarations
      ensures now[p].sites == Retold(was[p].sites, newName) && (now[p].sites == [] <==> was[p].sites == [])
    {
      assert was[p].safe;
      RenameToFresh(ws[p], target, newName);
      FreshIsSafe(ws[p], target, newName);
      RetoldEmpty(was[p].sites, newName);
    }
    SameOne(was, now);
  }

  lemma RetoldEmpty(sites: seq<Site>, name: string)
    ensures Retold(sites, name) == [] <==> sites == []
  {
    assert |Retold(sites, name)| == |sites|;
  }

  lemma SameOne(was: Documents, now: Documents)
    requires was.Keys == now.Keys
    requires forall p :: p in was ==>
             now[p].declarations == was[p].declarations && (now[p].sites == [] <==> was[p].sites == [])
    ensures ExactlyOne(was.Keys, Declared(was)) ==> ExactlyOne(now.Keys, Declared(now))
  {
    if ExactlyOne(was.Keys, Declared(was)) {
      var p :| OnlyOneAt(was.Keys, Declared(was), p);
      assert OnlyOneAt(now.Keys, Declared(now), p);
    }
  }
}
