/** A table rename by the kinds of the statements: which names a plan rewrites, what stands in
    the way of one, and where the table is created. */
module TableOccurrences {
  import opened Syntax
  import opened WorkspaceScan
  import opened Refactor
  import opened TableRefactor
  import opened PathsAndNames

  /** The occurrence writes the table's name, unqualified, in any case of its letters. */
  ghost predicate WritesName(o: Occurrence, target: string) {
    o.Named? && o.name.simple && SameButCase(o.name.text, target)
  }

  /** A CTE of the statement has the table's name. */
  ghost predicate CteBears(s: Statement, target: string) {
    exists i :: 0 <= i < |s| && s[i].DeclaresCte? && SameButCase(s[i].cte, target)
  }

  ghost predicate Mentioned(parts: seq<string>, target: string) {
    exists i :: 0 <= i < |parts| && SameButCase(parts[i], target)
  }

  /** A plan rewrites the name: it stands unquoted where a table is created, altered or used,
      or in a query without a CTE of that name. */
  ghost predicate RewrittenAt(document: seq<Statement>, target: string, p: Place) {
    && IsPlace(document, p)
    && var o := document[p.statement][p.occurrence];
       && WritesName(o, target) && o.name.unquoted
       && match o.role
          case Creates(_) => true
          case Alters(_) => true
          case Uses => true
          case Queries => !CteBears(document[p.statement], target)
          case Forbids => false
  }

  /** It stands in the way of a plan: the name in text that is only scanned, quoted, on a view,
      a synonym or a new name, in a query with a CTE of that name, where the table is created
      with synonyms, or where its identity is altered. */
  ghost predicate InTheWayAt(document: seq<Statement>, target: string, p: Place) {
    && IsPlace(document, p)
    && var o := document[p.statement][p.occurrence];
       match o
       case DeclaresCte(_) => false
       case Mentions(parts) => Mentioned(parts, target)
       case Named(role, name) =>
         && WritesName(o, target)
         && (|| !name.unquoted
             || match role
                case Creates(synonyms) => synonyms
                case Alters(identity) => identity
                case Uses => false
                case Queries => CteBears(document[p.statement], target)
                case Forbids => true)
  }

  lemma MatchesIff(n: Name, target: string)
    ensures Matches(n, target) <==> n.simple && SameButCase(n.text, target)
  {
    FoldIff(n.text, target);
  }

  lemma CtesIff(s: Statement, target: string)
    ensures HasCte(s, target) <==> CteBears(s, target)
  {
    forall i | 0 <= i < |s| && s[i].DeclaresCte?
      ensures EqualFold(s[i].cte, target) <==> SameButCase(s[i].cte, target)
    {
      FoldIff(s[i].cte, target);
    }
    hide EqualFold, SameButCase;
  }

  lemma MentionsIff(parts: seq<string>, target: string)
    ensures MentionsName(parts, target) <==> Mentioned(parts, target)
  {
    forall i | 0 <= i < |parts| ensures EqualFold(parts[i], target) <==> SameButCase(parts[i], target) {
      FoldIff(parts[i], target);
    }
    hide EqualFold, SameButCase;
  }

  lemma ByKind(document: seq<Statement>, target: string, p: Place)
    ensures Passes(document, target, Rewrites(target), p) <==> RewrittenAt(document, target, p)
    ensures IsPlace(document, p) ==>
              var (o, has) := (document[p.statement][p.occurrence], HasCte(document[p.statement], target));
              IsSafe(o, target, has) <==> !InTheWayAt(document, target, p)
  {
    hide Matches, SameButCase, HasCte, CteBears, MentionsName, Mentioned;
    if IsPlace(document, p) {
      var o := document[p.statement][p.occurrence];
      CtesIff(document[p.statement], target);
      if o.Named? { MatchesIff(o.name, target); }
      if o.Mentions? { MentionsIff(o.parts, target); }
    }
  }

  ghost predicate WrittenOut(document: seq<Statement>, p: Place, site: Site) {
    && IsPlace(document, p) && document[p.statement][p.occurrence].Named?
    && var name := document[p.statement][p.occurrence].name; site.name == name.text && site.range == name.range
  }

  /** What the collector returns: the sites are the rewritten names as they are written, and
      the flag stays exactly when nothing is in the way. */
  lemma CollectedIff(document: seq<Statement>, target: string, site: Site)
    ensures site in Collect(document, target).sites <==>
            exists p :: RewrittenAt(document, target, p) && WrittenOut(document, p, site)
    ensures Collect(document, target).safe <==> forall p :: !InTheWayAt(document, target, p)
  {
    hide IsSafe, Collect, HasCte, Passes, RewrittenAt, InTheWayAt;
    SiteIsOccurrence(document, target, site);
    DocumentSafe(document, target);
    forall p
      ensures Passes(document, target, Rewrites(target), p) <==> RewrittenAt(document, target, p)
      ensures IsPlace(document, p) ==>
                var (o, has) := (document[p.statement][p.occurrence], HasCte(document[p.statement], target));
                IsSafe(o, target, has) <==> !InTheWayAt(document, target, p)
    {
      ByKind(document, target, p);
    }
    forall p ensures RewrittenAt(document, target, p) ==>
        IsPlace(document, p) && document[p.statement][p.occurrence].Named?
             ensures InTheWayAt(document, target, p) ==> IsPlace(document, p)
    {
      PlaceOf(document, target, p);
    }
  }

  lemma PlaceOf(document: seq<Statement>, target: string, p: Place)
    ensures RewrittenAt(document, target, p) ==> IsPlace(document, p) && document[p.statement][p.occurrence].Named?
    ensures InTheWayAt(document, target, p) ==> IsPlace(document, p)
  {
    hide CteBears, SameButCase, Mentioned;
  }

  // ----- The plan -----

  /** The table is created there. */
  ghost predicate MadeAt(ws: Workspace, target: string, p: Path, q: Place) {
    p in ws && RewrittenAt(ws[p], target, q) && ws[p][q.statement][q.occurrence].role.Creates?
  }

  ghost predicate Renamable(ws: Workspace, roots: set<string>, target: string) {
    && (forall p, q :: p in ws ==> !InTheWayAt(ws[p], target, q))
    && (exists p, q :: MadeOnlyAt(ws, target, p, q))
    && (forall p, q :: RewritesIn(ws, target, p) && RewritesIn(ws, target, q) ==> SameRoot(roots, p, q))
  }

  ghost predicate MadeOnlyAt(ws: Workspace, target: string, p: Path, q: Place) {
    MadeAt(ws, target, p, q) && forall p', q' :: MadeAt(ws, target, p', q') ==> p' == p && q' == q
  }

  ghost predicate RewritesIn(ws: Workspace, target: string, p: Path) {
    p in ws && exists q :: RewrittenAt(ws[p], target, q)
  }

  lemma MadeIff(ws: Workspace, target: string, p: Path, q: Place)
    ensures CreatedAt(ws, target, p, q) <==> MadeAt(ws, target, p, q)
  {
    hide SameButCase, HasCte, CteBears, EqualFold;
    if p in ws && IsPlace(ws[p], q) && ws[p][q.statement][q.occurrence].Named? {
      MatchesIff(ws[p][q.statement][q.occurrence].name, target);
    }
    hide Matches;
  }

  lemma SitesIff(ws: Workspace, target: string, p: Path)
    ensures HasSite(ws, target, p) <==> RewritesIn(ws, target, p)
  {
    hide Passes, RewrittenAt;
    if p in ws {
      forall q ensures Passes(ws[p], target, Rewrites(target), q) <==> RewrittenAt(ws[p], target, q) {
        ByKind(ws[p], target, q);
      }
    }
  }

  lemma SafeIff(ws: Workspace, target: string)
    ensures AllSafe(ws, target) <==> forall p, q :: p in ws ==> !InTheWayAt(ws[p], target, q)
  {
    hide IsSafe, HasCte, InTheWayAt;
    if AllSafe(ws, target) {
      forall p, q | p in ws ensures !InTheWayAt(ws[p], target, q) {
        ByKind(ws[p], target, q);
        PlaceOf(ws[p], target, q);
        assert IsPlace(ws[p], q) ==>
            IsSafe(ws[p][q.statement][q.occurrence], target, HasCte(ws[p][q.statement], target));
      }
    }
    if forall p, q :: p in ws ==> !InTheWayAt(ws[p], target, q) {
      forall p: Path, q: Place | p in ws && IsPlace(ws[p], q)
        ensures IsSafe(ws[p][q.statement][q.occurrence], target, HasCte(ws[p][q.statement], target))
      {
        ByKind(ws[p], target, q);
        assert !InTheWayAt(ws[p], target, q);
      }
    }
  }

  /** There is a plan exactly when nothing is in the way, the table is created at one place
      and all documents with a rewritten name lie under the same workspace root; and it has
      an entry for exactly those documents. */
  lemma PlanIff(ws: Workspace, roots: set<string>, target: string, p: Path)
    ensures Plannable(ws, roots, target) <==> Renamable(ws, roots, target)
    ensures HasSite(ws, target, p) <==> RewritesIn(ws, target, p)
  {
    hide AllSafe, InTheWayAt, CreatedAt, MadeAt, SameRoot, HasSite, RewritesIn;
    SafeIff(ws, target);
    forall p ensures HasSite(ws, target, p) <==> RewritesIn(ws, target, p) { SitesIff(ws, target, p); }
    forall p, q ensures CreatedAt(ws, target, p, q) <==> MadeAt(ws, target, p, q) { MadeIff(ws, target, p, q); }
    forall p, q ensures OnlyCreatedAt(ws, target, p, q) <==> MadeOnlyAt(ws, target, p, q) {}
    hide OnlyCreatedAt, MadeOnlyAt;
  }
}
