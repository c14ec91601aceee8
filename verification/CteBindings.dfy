/** The CTE binder: one walk over the statements with cloned scope maps and
    binding records updated in place, proved equal to the lexical rule. */
module CteBindings {
  import opened Coordinates
  import opened Syntax
  import opened Sorting

  // ----- The lexical rule -----

  /** The number of leading CTE declarations of a query. */
  function CteCount(query: Node): (n: nat)
    ensures n <= |Kids(query)|
  {
    if query.kind.Query? then LeadingCtes(Kids(query)) else 0
  }

  function LeadingCtes(kids: seq<Node>): (n: nat)
    ensures n <= |kids|
    ensures forall i :: 0 <= i < n ==> kids[i].kind.Cte?
  {
    if kids != [] && kids[0].kind.Cte? then 1 + LeadingCtes(kids[1..]) else 0
  }

  /** The last of the first n declarations of a query that carries the key. */
  function LastNamed(query: Node, n: nat, key: string): (r: Option<nat>)
    requires n <= CteCount(query)
    ensures r.Some? ==> r.value < n && Fold(Kids(query)[r.value].kind.cteName.name) == key
    ensures forall i :: (if r.Some? then r.value + 1 else 0) <= i < n ==> Fold(Kids(query)[i].kind.cteName.name) != key
  {
    if n == 0 then None
    else if Fold(Kids(query)[n - 1].kind.cteName.name) == key then Some(n - 1)
    else LastNamed(query, n - 1, key)
  }

  /** The declarations of a query that its k-th child sees: a CTE body sees the
      preceding ones, everything after the WITH list sees all of them. */
  function Visible(query: Node, k: nat): nat {
    if k < CteCount(query) then k else CteCount(query)
  }

  /** The lexical rule. The CTE that a name at address `a` denotes: look in the
      innermost enclosing query first, then outwards. */
  function Resolve(root: Node, a: Address, key: string): Option<Address> {
    if a == [] then None
    else
      var p, k := a[..|a| - 1], a[|a| - 1];
      var query := NodeAt(root, p);
      if query.None? then None
      else match LastNamed(query.value, Visible(query.value, k), key)
        case Some(i) => Some(p + [i])
        case None => Resolve(root, p, key)
  }

  /** A table reference that can name a CTE: exactly one identifier. */
  function Reference(n: Node): Option<Ident> {
    match n.kind
    case TableName(table, _) => Some(table)
    case PathTable(_, _) =>
      if Kids(n) != [] && Kids(n)[0].kind.Path? && |Kids(n)[0].kind.idents| == 1
      then Some(Kids(n)[0].kind.idents[0]) else None
    case _ => None
  }

  // ----- What a walk must record -----

  function ReferenceAt(root: Node, a: Address): Option<Ident> {
    if NodeAt(root, a).Some? then Reference(NodeAt(root, a).value) else None
  }

  datatype Event =
    | Declared(at: Address, name: Ident, whole: Range)
    | Referred(at: Address, decl: Address, range: Range)

  /** The event of one node, by the lexical rule. */
  function ReferenceEvents(root: Node, n: Node, here: Address): seq<Event> {
    var name := Reference(n);
    if name.None? then []
    else match Resolve(root, here, Fold(name.value.name))
      case Some(decl) => [Referred(here, decl, name.value.range)]
      case None => []
  }

  /** Everything to be recorded below n, in walking order; a declaration comes
      after its own body. */
  function Expected(root: Node, n: Node, here: Address): seq<Event>
    decreases n, |Kids(n)| + 1
  {
    ReferenceEvents(root, n, here) + ExpectedFrom(root, n, here, 0)
  }

  function ExpectedFrom(root: Node, n: Node, here: Address, k: nat): seq<Event>
    requires k <= |Kids(n)|
    decreases n, |Kids(n)| - k
  {
    if k == |Kids(n)| then []
    else Expected(root, Kids(n)[k], here + [k]) + DeclarationEvents(n, here, k) + ExpectedFrom(root, n, here, k + 1)
  }

  function DeclarationEvents(n: Node, here: Address, k: nat): seq<Event> {
    if k < CteCount(n) then [Declared(here + [k], Kids(n)[k].kind.cteName, Kids(n)[k].kind.cteRange)] else []
  }

  // ----- The traversal lists each occurrence exactly once -----

  /** The event that the lexical rule assigns to the node at an address. */
  ghost predicate ByRule(root: Node, e: Event) {
    match e
    case Referred(a, decl, range) =>
      && var name := ReferenceAt(root, a);
         name.Some? && range == name.value.range && Resolve(root, a, Fold(name.value.name)) == Some(decl)
    case Declared(a, name, whole) =>
      && a != []
      && var p, k := a[..|a| - 1], a[|a| - 1];
         && NodeAt(root, p).Some? && k < CteCount(NodeAt(root, p).value)
         && Kids(NodeAt(root, p).value)[k].kind == Cte(name, whole)
  }

  ghost predicate Below(here: Address, a: Address) {
    here <= a
  }

  lemma {:induction false} ExpectedSound(root: Node, n: Node, here: Address, e: Event)
    requires NodeAt(root, here) == Some(n) && e in Expected(root, n, here)
    ensures Below(here, e.at) && ByRule(root, e)
    ensures e.at == here ==> e.Referred? && Reference(n).Some?
    decreases n, |Kids(n)| + 1
  {
    if e !in ReferenceEvents(root, n, here) {
      ExpectedFromSound(root, n, here, 0, e);
    }
  }

  lemma DeclarationByRule(root: Node, n: Node, here: Address, k: nat, e: Event)
    requires NodeAt(root, here) == Some(n) && e in DeclarationEvents(n, here, k)
    ensures e.at == here + [k] && ByRule(root, e)
  {
    assert e.at[..|e.at| - 1] == here;
  }

  lemma RuledIsDeclaration(root: Node, n: Node, here: Address, k: nat, e: Event)
    requires NodeAt(root, here) == Some(n) && ByRule(root, e) && e.Declared? && e.at == here + [k]
    ensures e in DeclarationEvents(n, here, k)
  {
    assert e.at[..|e.at| - 1] == here;
  }

  lemma {:induction false} ExpectedFromSound(root: Node, n: Node, here: Address, k: nat, e: Event)
    requires NodeAt(root, here) == Some(n) && k <= |Kids(n)| && e in ExpectedFrom(root, n, here, k)
    ensures Below(here, e.at) && |here| < |e.at| && k <= e.at[|here|]
    ensures ByRule(root, e)
    decreases n, |Kids(n)| - k
  {
    hide Expected, ByRule, NodeAt, DeclarationEvents;
    NodeAtChild(root, here, k);
    if e in Expected(root, Kids(n)[k], here + [k]) {
      ExpectedSound(root, Kids(n)[k], here + [k], e);
    } else if e in DeclarationEvents(n, here, k) {
      DeclarationByRule(root, n, here, k, e);
    } else {
      ExpectedFromSound(root, n, here, k + 1, e);
    }
  }

  lemma {:induction false} ExpectedComplete(root: Node, n: Node, here: Address, e: Event)
    requires NodeAt(root, here) == Some(n) && ByRule(root, e) && Below(here, e.at)
    requires e.Referred? || |here| < |e.at|
    ensures e in Expected(root, n, here)
    decreases n, |Kids(n)| + 1
  {
    if e.at == here {
    } else {
      var k := e.at[|here|];
      var rest := e.at[|here|..];
      assert e.at == here + rest && rest[..1] == [k];
      if e.Referred? {
        NodeAtPrefix(root, here, rest);
      } else {
        var p := e.at[..|e.at| - 1];
        assert p == here + p[|here|..];
        NodeAtPrefix(root, here, p[|here|..]);
        if |p| > |here| { assert p[|here|..][0] == k; }
      }
      ExpectedFromComplete(root, n, here, 0, e);
    }
  }

  lemma {:induction false} ExpectedFromComplete(root: Node, n: Node, here: Address, k: nat, e: Event)
    requires NodeAt(root, here) == Some(n) && ByRule(root, e) && Below(here, e.at)
    requires |here| < |e.at| && k <= e.at[|here|] < |Kids(n)|
    ensures e in ExpectedFrom(root, n, here, k)
    decreases n, |Kids(n)| - k
  {
    hide Expected, ByRule, NodeAt;
    NodeAtChild(root, here, k);
    if k < e.at[|here|] {
      ExpectedFromComplete(root, n, here, k + 1, e);
    } else if e.Declared? && |e.at| == |here| + 1 {
      assert e.at == here + [k];
      RuledIsDeclaration(root, n, here, k, e);
    } else {
      assert here + [k] <= e.at;
      ExpectedComplete(root, Kids(n)[k], here + [k], e);
    }
  }

  ghost predicate DistinctPlaces(log: seq<Event>) {
    forall i, j :: 0 <= i < j < |log| ==> log[i].at != log[j].at
  }

  lemma {:induction false} DistinctPlacesAppend(x: seq<Event>, y: seq<Event>)
    requires DistinctPlaces(x) && DistinctPlaces(y)
    requires forall d, e :: d in x && e in y ==> d.at != e.at
    ensures DistinctPlaces(x + y)
  {
    forall i, j | 0 <= i < j < |x + y| ensures (x + y)[i].at != (x + y)[j].at {
      if i < |x| <= j { assert x[i] in x && y[j - |x|] in y; }
    }
  }

  lemma {:induction false} ExpectedDistinct(root: Node, n: Node, here: Address)
    requires NodeAt(root, here) == Some(n)
    ensures DistinctPlaces(Expected(root, n, here))
    decreases n, |Kids(n)| + 1
  {
    ExpectedFromDistinct(root, n, here, 0);
    forall d, e | d in ReferenceEvents(root, n, here) && e in ExpectedFrom(root, n, here, 0) ensures d.at != e.at {
      ExpectedFromSound(root, n, here, 0, e);
    }
    DistinctPlacesAppend(ReferenceEvents(root, n, here), ExpectedFrom(root, n, here, 0));
  }

  lemma {:induction false} ExpectedFromDistinct(root: Node, n: Node, here: Address, k: nat)
    requires NodeAt(root, here) == Some(n) && k <= |Kids(n)|
    ensures DistinctPlaces(ExpectedFrom(root, n, here, k))
    decreases n, |Kids(n)| - k
  {
    if k < |Kids(n)| {
      hide DistinctPlaces, ByRule, Expected, NodeAt, DeclarationEvents;
      NodeAtChild(root, here, k);
      var x, y, z := Expected(root, Kids(n)[k], here + [k]), DeclarationEvents(n, here, k),
        ExpectedFrom(root, n, here, k + 1);
      ExpectedDistinct(root, Kids(n)[k], here + [k]);
      ExpectedFromDistinct(root, n, here, k + 1);
      DeclarationDistinct(n, here, k);
      forall d, e | d in x && e in y ensures d.at != e.at {
        ExpectedAvoidsDeclaration(root, n, here, k, d, e);
      }
      DistinctPlacesAppend(x, y);
      forall d, e | d in x + y && e in z ensures d.at != e.at {
        ExpectedAvoidsLater(root, n, here, k, d, e);
      }
      DistinctPlacesAppend(x + y, z);
    }
  }

  lemma DeclarationDistinct(n: Node, here: Address, k: nat)
    ensures DistinctPlaces(DeclarationEvents(n, here, k))
  {}

  /** A declaration is recorded at its CTE, where no reference can be. */
  lemma ExpectedAvoidsDeclaration(root: Node, n: Node, here: Address, k: nat, d: Event, e: Event)
    requires k < |Kids(n)| && NodeAt(root, here + [k]) == Some(Kids(n)[k])
    requires d in Expected(root, Kids(n)[k], here + [k]) && e in DeclarationEvents(n, here, k)
    ensures d.at != e.at
  {
    hide Expected, NodeAt;
    ExpectedSound(root, Kids(n)[k], here + [k], d);
  }

  lemma ExpectedAvoidsLater(root: Node, n: Node, here: Address, k: nat, d: Event, e: Event)
    requires NodeAt(root, here) == Some(n) && k < |Kids(n)| && NodeAt(root, here + [k]) == Some(Kids(n)[k])
    requires d in Expected(root, Kids(n)[k], here + [k]) + DeclarationEvents(n, here, k)
    requires e in ExpectedFrom(root, n, here, k + 1)
    ensures d.at != e.at
  {
    hide Expected, ExpectedFrom, NodeAt, ByRule;
    if d in Expected(root, Kids(n)[k], here + [k]) { ExpectedSound(root, Kids(n)[k], here + [k], d); }
    ExpectedFromSound(root, n, here, k + 1, e);
    assert d.at[|here|] == k;
  }

  /** The record of a document: one entry for each declaration, one for each
      table reference that the lexical rule resolves, and nothing else. */
  lemma {:induction false} RecordIsLexical(root: Node)
    ensures forall e :: e in Expected(root, root, []) <==> ByRule(root, e)
    ensures DistinctPlaces(Expected(root, root, []))
  {
    forall e ensures e in Expected(root, root, []) <==> ByRule(root, e) {
      if e in Expected(root, root, []) { ExpectedSound(root, root, [], e); }
      if ByRule(root, e) { ExpectedComplete(root, root, [], e); }
    }
    ExpectedDistinct(root, root, []);
  }

  // ----- The binder -----

  datatype CteBinding = CteBinding(name: string, range: Range, declarationRange: Range, referenceRanges: seq<Range>)

  /** `binding` is a position in the list of bindings; it stands for the link. */
  datatype CteSite = CteSite(binding: nat, range: Range, declaration: bool)

  /** The declarations of a record, in order. */
  ghost function Declarations(log: seq<Event>): (decls: seq<Event>)
    ensures forall e :: e in decls ==> e.Declared? && e in log
  {
    if log == [] then []
    else Declarations(log[..|log| - 1]) + (if log[|log| - 1].Declared? then [log[|log| - 1]] else [])
  }

  /** The ranges that a record refers to a declaration from, in order. */
  ghost function ReferenceRanges(log: seq<Event>, decl: Address): seq<Range> {
    if log == [] then []
    else
      var e := log[|log| - 1];
      ReferenceRanges(log[..|log| - 1], decl) + (if e.Referred? && e.decl == decl then [e.range] else [])
  }

  ghost predicate BindingIs(b: CteBinding, decl: Event, log: seq<Event>) {
    && decl.Declared?
    && b.name == decl.name.name && b.range == decl.whole && b.declarationRange == decl.name.range
    && b.referenceRanges == ReferenceRanges(log, decl.at)
  }

  ghost predicate SiteIs(site: CteSite, decls: seq<Event>, e: Event) {
    && site.binding < |decls|
    && match e
       case Declared(_, name, _) => site.declaration && site.range == name.range && decls[site.binding] == e
       case Referred(_, decl, range) => !site.declaration && site.range == range && decls[site.binding].at == decl
  }

  ghost predicate BindingsAre(bindings: seq<CteBinding>, decls: seq<Event>, log: seq<Event>) {
    && |bindings| == |decls|
    && forall b :: 0 <= b < |bindings| ==> BindingIs(bindings[b], decls[b], log)
  }

  ghost predicate SitesAre(sites: seq<CteSite>, decls: seq<Event>, log: seq<Event>) {
    && |sites| == |log|
    && forall i :: 0 <= i < |sites| ==> SiteIs(sites[i], decls, log[i])
  }

  /** The bindings and sites say exactly what the record says. */
  ghost predicate Represents(bindings: seq<CteBinding>, sites: seq<CteSite>, log: seq<Event>) {
    BindingsAre(bindings, Declarations(log), log) && SitesAre(sites, Declarations(log), log)
  }

  /** A scope map holds, for every key, the CTE the lexical rule finds at `here`. */
  ghost predicate ScopeMatches(root: Node, here: Address, scope: map<string, nat>, decls: seq<Event>) {
    forall key :: EntryMatches(Resolve(root, here, key), scope, decls, key)
  }

  ghost predicate EntryMatches(found: Option<Address>, scope: map<string, nat>, decls: seq<Event>, key: string) {
    && (key in scope ==> scope[key] < |decls| && found == Some(decls[scope[key]].at))
    && (found.Some? ==> key in scope)
  }

  lemma {:induction false} NoReferencesYet(log: seq<Event>, decl: Address)
    requires forall e :: e in log && e.Referred? ==> e.decl != decl
    ensures ReferenceRanges(log, decl) == []
  {
    if log != [] { NoReferencesYet(log[..|log| - 1], decl); }
  }

  /** A name below a node denotes a CTE the node shows there, or what it denotes at the node. */
  lemma ResolveChild(root: Node, n: Node, here: Address, k: nat, key: string)
    requires NodeAt(root, here) == Some(n)
    ensures Resolve(root, here + [k], key) ==
            match LastNamed(n, Visible(n, k), key)
            case Some(i) => Some(here + [i])
            case None => Resolve(root, here, key)
  {
    assert (here + [k])[..|here|] == here;
  }

  lemma ResolvePastDeclaration(root: Node, n: Node, here: Address, k: nat, key: string)
    requires NodeAt(root, here) == Some(n) && k < CteCount(n)
    ensures Resolve(root, here + [k + 1], key) ==
            if key == Fold(Kids(n)[k].kind.cteName.name) then Some(here + [k]) else Resolve(root, here + [k], key)
  {
    hide Resolve, Fold, NodeAt;
    ResolveChild(root, n, here, k, key);
    ResolveChild(root, n, here, k + 1, key);
  }

  /** Passing a declaration brings it, and nothing else, into scope. */
  lemma ScopePastDeclaration(root: Node, n: Node, here: Address, k: nat, name: string, scope: map<string, nat>,
                             decls: seq<Event>, decls': seq<Event>)
    requires NodeAt(root, here) == Some(n) && k < CteCount(n) && name == Fold(Kids(n)[k].kind.cteName.name)
    requires ScopeMatches(root, here + [k], scope, decls) && decls <= decls'
    requires decls' != [] && decls'[|decls'| - 1].at == here + [k]
    ensures ScopeMatches(root, here + [k + 1], scope[name := |decls'| - 1], decls')
  {
    hide Fold, NodeAt, LastNamed, Resolve, CteCount;
    var next, scope' := here + [k + 1], scope[name := |decls'| - 1];
    forall key ensures EntryMatches(Resolve(root, next, key), scope', decls', key) {
      ResolvePastDeclaration(root, n, here, k, key);
      assert EntryMatches(Resolve(root, here + [k], key), scope, decls, key);
      EntryPastDeclaration(Resolve(root, here + [k], key), scope, decls, decls', name, key);
    }
  }

  lemma EntryPastDeclaration(
      found: Option<Address>, scope: map<string, nat>, decls: seq<Event>, decls': seq<Event>, name: string, key: string)
    requires EntryMatches(found, scope, decls, key) && decls <= decls' && decls' != []
    ensures EntryMatches(if key == name then Some(decls'[|decls'| - 1].at)
              else found, scope[name := |decls'| - 1], decls', key)
  {}

  lemma {:induction false} DistinctDeclarations(log: seq<Event>)
    requires DistinctPlaces(log)
    ensures DistinctPlaces(Declarations(log))
  {
    if log != [] {
      DistinctDeclarations(log[..|log| - 1]);
    }
  }

  lemma ExtendSites(sites: seq<CteSite>, decls: seq<Event>, more: seq<Event>, log: seq<Event>, site: CteSite, e: Event)
    requires SitesAre(sites, decls, log) && SiteIs(site, decls + more, e)
    ensures SitesAre(sites + [site], decls + more, log + [e])
  {
    forall i | 0 <= i < |sites| ensures SiteIs(sites[i], decls + more, log[i]) {
      assert SiteIs(sites[i], decls, log[i]);
    }
  }

  /** A new declaration appends a binding without references and its site. */
  lemma AppendDeclaration(bindings: seq<CteBinding>, sites: seq<CteSite>, log: seq<Event>, e: Event)
    requires Represents(bindings, sites, log) && e.Declared?
    requires forall e' :: e' in log && e'.Referred? ==> e'.decl != e.at
    ensures Represents(bindings + [CteBinding(e.name.name, e.whole, e.name.range, [])],
                       sites + [CteSite(|bindings|, e.name.range, true)], log + [e])
    ensures Declarations(log + [e]) == Declarations(log) + [e]
  {
    hide SitesAre;
    assert (log + [e])[..|log|] == log;
    NoReferencesYet(log, e.at);
    var decls := Declarations(log);
    forall b | 0 <= b < |bindings| ensures BindingIs(bindings[b], decls[b], log + [e]) {
      assert BindingIs(bindings[b], decls[b], log);
    }
    ExtendSites(sites, decls, [e], log, CteSite(|bindings|, e.name.range, true), e);
  }

  /** A resolved reference appends its range to the one binding it denotes, and a site. */
  lemma AppendReference(bindings: seq<CteBinding>, sites: seq<CteSite>, log: seq<Event>, e: Event, b: nat)
    requires Represents(bindings, sites, log) && DistinctPlaces(log)
    requires e.Referred? && b < |bindings| && Declarations(log)[b].at == e.decl
    ensures Represents(bindings[b := bindings[b].(referenceRanges := bindings[b].referenceRanges + [e.range])],
                       sites + [CteSite(b, e.range, false)], log + [e])
    ensures Declarations(log + [e]) == Declarations(log)
  {
    assert (log + [e])[..|log|] == log;
    var decls := Declarations(log);
    assert decls + [] == decls;
    ExtendReferences(bindings, decls, log, e, b);
    ExtendSites(sites, decls, [], log, CteSite(b, e.range, false), e);
  }

  lemma ExtendReferences(bindings: seq<CteBinding>, decls: seq<Event>, log: seq<Event>, e: Event, b: nat)
    requires BindingsAre(bindings, decls, log) && DistinctPlaces(log) && decls == Declarations(log)
    requires e.Referred? && b < |bindings| && decls[b].at == e.decl
    ensures BindingsAre(bindings[b := bindings[b].(referenceRanges := bindings[b].referenceRanges + [e.range])], decls,
              log + [e])
  {
    assert (log + [e])[..|log|] == log;
    DistinctDeclarations(log);
    var bindings' := bindings[b := bindings[b].(referenceRanges := bindings[b].referenceRanges + [e.range])];
    forall c | 0 <= c < |bindings| ensures BindingIs(bindings'[c], decls[c], log + [e]) {
      assert BindingIs(bindings[c], decls[c], log);
    }
  }

  /** Every recorded reference is to a recorded declaration. */
  ghost predicate Closed(log: seq<Event>) {
    forall e :: e in log && e.Referred? ==> exists d :: d in Declarations(log) && d.at == e.decl
  }

  lemma ClosedAppend(log: seq<Event>, e: Event)
    requires Closed(log) && (e.Referred? ==> exists d :: d in Declarations(log) && d.at == e.decl)
    ensures Closed(log + [e])
  {
    assert (log + [e])[..|log|] == log;
    forall e' | e' in log + [e] && e'.Referred? ensures exists d :: d in Declarations(log + [e]) && d.at == e'.decl {
      var d :| d in Declarations(log) && d.at == e'.decl;
      assert d in Declarations(log + [e]);
    }
  }

  lemma ScopeCarriesOver(root: Node, a: Address, a': Address, scope: map<string, nat>, decls: seq<Event>,
                         decls': seq<Event>)
    requires ScopeMatches(root, a, scope, decls) && decls <= decls'
    requires forall key :: Resolve(root, a', key) == Resolve(root, a, key)
    ensures ScopeMatches(root, a', scope, decls')
  {
    hide Resolve;
    forall key ensures EntryMatches(Resolve(root, a', key), scope, decls', key) {
      assert EntryMatches(Resolve(root, a, key), scope, decls, key);
    }
  }

  /** Which declarations a child sees, step by step. */
  lemma ResolveSteps(root: Node, n: Node, here: Address, k: nat)
    requires NodeAt(root, here) == Some(n)
    ensures k == 0 || CteCount(n) == 0 ==> forall key :: Resolve(root, here + [k], key) == Resolve(root, here, key)
    ensures k >= CteCount(n) ==> forall key :: Resolve(root, here + [k + 1], key) == Resolve(root, here + [k], key)
  {
    hide Resolve, NodeAt, CteCount;
    forall key: string
      ensures k == 0 || CteCount(n) == 0 ==> Resolve(root, here + [k], key) == Resolve(root, here, key)
      ensures k >= CteCount(n) ==> Resolve(root, here + [k + 1], key) == Resolve(root, here + [k], key)
    {
      ResolveStep(root, n, here, k, key);
    }
  }

  lemma ResolveStep(root: Node, n: Node, here: Address, k: nat, key: string)
    requires NodeAt(root, here) == Some(n)
    ensures k == 0 || CteCount(n) == 0 ==> Resolve(root, here + [k], key) == Resolve(root, here, key)
    ensures k >= CteCount(n) ==> Resolve(root, here + [k + 1], key) == Resolve(root, here + [k], key)
  {
    hide Resolve, NodeAt, CteCount, Fold;
    ResolveChild(root, n, here, k, key);
    ResolveChild(root, n, here, k + 1, key);
  }

  lemma DistinctPrefix(x: seq<Event>, y: seq<Event>)
    requires x <= y && DistinctPlaces(y)
    ensures DistinctPlaces(x)
  {
  }

  /** What is left to record after child k, when `total` is all there will be. */
  lemma Advance(root: Node, n: Node, here: Address, k: nat, log: seq<Event>, total: seq<Event>)
    requires k < |Kids(n)| && log + ExpectedFrom(root, n, here, k) == total && DistinctPlaces(total)
    ensures var next := log + Expected(root, Kids(n)[k], here + [k]) + DeclarationEvents(n, here, k);
            next + ExpectedFrom(root, n, here, k + 1) == total && DistinctPlaces(next)
    ensures DistinctPlaces(log + Expected(root, Kids(n)[k], here + [k]))
  {
    var x, y, z := Expected(root, Kids(n)[k], here + [k]), DeclarationEvents(n, here, k),
      ExpectedFrom(root, n, here, k + 1);
    assert ExpectedFrom(root, n, here, k) == x + y + z;
    hide Expected, ExpectedFrom, DeclarationEvents, DistinctPlaces;
    assert log + (x + y + z) == log + x + y + z;
    DistinctPrefix(log + x + y, total);
    DistinctPrefix(log + x, total);
  }

  /** What is left of the record when the first k children have been walked. */
  ghost predicate Remains(root: Node, n: Node, here: Address, k: nat, log: seq<Event>, total: seq<Event>) {
    k <= |Kids(n)| && log + ExpectedFrom(root, n, here, k) == total && DistinctPlaces(total)
  }

  lemma NextRemains(root: Node, n: Node, here: Address, k: nat, log: seq<Event>, total: seq<Event>)
    requires k < |Kids(n)| && Remains(root, n, here, k, log, total)
    ensures var next := log + Expected(root, Kids(n)[k], here + [k]) + DeclarationEvents(n, here, k);
            Remains(root, n, here, k + 1, next, total) && DistinctPlaces(next)
    ensures DistinctPlaces(log + Expected(root, Kids(n)[k], here + [k]))
  {
    hide Expected, ExpectedFrom, DeclarationEvents, DistinctPlaces;
    Advance(root, n, here, k, log, total);
  }

  lemma NothingRemains(root: Node, n: Node, here: Address, log: seq<Event>, total: seq<Event>)
    requires Remains(root, n, here, |Kids(n)|, log, total)
    ensures log == total
  {}

  lemma Begin(root: Node, n: Node, here: Address, log: seq<Event>)
    ensures log + ReferenceEvents(root, n, here) + ExpectedFrom(root, n, here, 0) == log + Expected(root, n, here)
    ensures n.kind.Query? ==> log + ExpectedFrom(root, n, here, 0) == log + Expected(root, n, here)
  {
    assert Expected(root, n, here) == ReferenceEvents(root, n, here) + ExpectedFrom(root, n, here, 0);
    assert n.kind.Query? ==> ReferenceEvents(root, n, here) == [];
    hide Expected, ExpectedFrom, ReferenceEvents;
    Regroup(log, ReferenceEvents(root, n, here), ExpectedFrom(root, n, here, 0));
  }

  lemma Regroup(x: seq<Event>, y: seq<Event>, z: seq<Event>)
    ensures x + (y + z) == x + y + z && x + ([] + z) == x + z && x + [] == x
  {
    assert [] + z == z;
  }

  lemma FromEnds(root: Node, n: Node, here: Address)
    ensures ExpectedFrom(root, n, here, |Kids(n)|) == []
  {}

  lemma RootExpected(root: Node)
    requires root.kind.Other?
    ensures Expected(root, root, []) == ExpectedFrom(root, root, [], 0)
  {
    assert ReferenceEvents(root, root, []) == [];
  }

  /** Outside a query a child is walked under its parent's scope. */
  lemma EnterChild(root: Node, n: Node, here: Address, k: nat, scope: map<string, nat>, decls: seq<Event>,
                   decls': seq<Event>,
                   log: seq<Event>, total: seq<Event>)
    requires NodeAt(root, here) == Some(n) && CteCount(n) == 0 && k < |Kids(n)|
    requires ScopeMatches(root, here, scope, decls) && decls <= decls'
    requires log + ExpectedFrom(root, n, here, k) == total && DistinctPlaces(total)
    ensures NodeAt(root, here + [k]) == Some(Kids(n)[k]) && ScopeMatches(root, here + [k], scope, decls')
    ensures DistinctPlaces(log + Expected(root, Kids(n)[k], here + [k]))
    ensures log + Expected(root, Kids(n)[k], here + [k]) + ExpectedFrom(root, n, here, k + 1) == total
  {
    hide NodeAt, ScopeMatches, DistinctPlaces, Expected, ExpectedFrom, Resolve, CteCount;
    NodeAtChild(root, here, k);
    ResolveSteps(root, n, here, k);
    ScopeCarriesOver(root, here, here + [k], scope, decls, decls');
    Advance(root, n, here, k, log, total);
    Regroup(log + Expected(root, Kids(n)[k], here + [k]), [], []);
    assert DeclarationEvents(n, here, k) == [];
  }

  class CteIndexer {
    var bindings: seq<CteBinding>
    var sites: seq<CteSite>
    ghost var log: seq<Event>

    ghost predicate Valid()
      reads this
    {
      Represents(bindings, sites, log) && Closed(log)
    }

    constructor ()
      ensures Valid() && log == [] && bindings == [] && sites == []
    {
      bindings, sites, log := [], [], [];
    }

    method AddDeclaration(ghost at: Address, name: Ident, whole: Range)
      requires Valid() && DistinctPlaces(log + [Declared(at, name, whole)])
      modifies this
      ensures Valid() && log == old(log) + [Declared(at, name, whole)]
      ensures Declarations(log) == old(Declarations(log)) + [Declared(at, name, whole)] &&
              |bindings| == |Declarations(log)|
    {
      ghost var e := Declared(at, name, whole);
      forall e' | e' in log && e'.Referred? ensures e'.decl != at {
        var d :| d in Declarations(log) && d.at == e'.decl;
        assert (log + [e])[|log|] == e;
        var i :| 0 <= i < |log| && log[i] == d;
        assert (log + [e])[i] == d;
      }
      AppendDeclaration(bindings, sites, log, e);
      ClosedAppend(log, e);
      sites := sites + [CteSite(|bindings|, name.range, true)];
      bindings := bindings + [CteBinding(name.name, whole, name.range, [])];
      log := log + [e];
    }

    method AddReference(b: nat, range: Range, ghost here: Address)
      requires Valid() && b < |bindings| && DistinctPlaces(log)
      modifies this
      ensures Valid() && log == old(log) + [Referred(here, old(Declarations(log)[b].at), range)]
      ensures Declarations(log) == old(Declarations(log))
    {
      ghost var e := Referred(here, Declarations(log)[b].at, range);
      assert |Declarations(log)| == |bindings|;
      hide Represents, Closed, DistinctPlaces;
      AppendReference(bindings, sites, log, e, b);
      ClosedAppend(log, e);
      bindings := bindings[b := bindings[b].(referenceRanges := bindings[b].referenceRanges + [range])];
      sites := sites + [CteSite(b, range, false)];
      log := log + [e];
    }

    method AddCTEReference(ghost root: Node, ghost here: Address, node: Node, scope: map<string, nat>)
      requires Valid() && NodeAt(root, here) == Some(node) && ScopeMatches(root, here, scope, Declarations(log))
      requires DistinctPlaces(log)
      modifies this
      ensures Valid() && log == old(log) + ReferenceEvents(root, node, here)
      ensures Declarations(log) == old(Declarations(log))
    {
      var name := Reference(node);
      if name.Some? {
        var key := Fold(name.value.name);
        assert EntryMatches(Resolve(root, here, key), scope, Declarations(log), key);
        if key in scope {
          AddReference(scope[key], name.value.range, here);
        } else {
          assert Resolve(root, here, key).None?;
        }
      }
    }

    /** The walk of one node under a scope map it never changes. */
    method IndexNode(ghost root: Node, ghost here: Address, node: Node, scope: map<string, nat>)
      requires Valid() && NodeAt(root, here) == Some(node) && ScopeMatches(root, here, scope, Declarations(log))
      requires DistinctPlaces(log + Expected(root, node, here))
      modifies this
      ensures Valid() && log == old(log) + Expected(root, node, here)
      ensures old(Declarations(log)) <= Declarations(log)
      decreases node, 2
    {
      Begin(root, node, here, log);
      if node.kind.Query? {
        IndexQuery(root, here, node, scope);
      } else {
        DistinctPrefix(log, log + Expected(root, node, here));
        AddCTEReference(root, here, node, scope);
        IndexChildren(root, here, node, scope);
      }
    }

    method IndexChildren(ghost root: Node, ghost here: Address, node: Node, scope: map<string, nat>)
      requires Valid() && NodeAt(root, here) == Some(node) && CteCount(node) == 0
      requires ScopeMatches(root, here, scope, Declarations(log))
      requires DistinctPlaces(log + ExpectedFrom(root, node, here, 0))
      modifies this
      ensures Valid() && log == old(log) + ExpectedFrom(root, node, here, 0)
      ensures old(Declarations(log)) <= Declarations(log)
      decreases node, 1
    {
      FromEnds(root, node, here);
      hide Valid, ScopeMatches, DistinctPlaces, NodeAt, Expected, ExpectedFrom, Resolve, Declarations, CteCount;
      ghost var total, decls := log + ExpectedFrom(root, node, here, 0), Declarations(log);
      for k := 0 to |Kids(node)|
        invariant Valid() && log + ExpectedFrom(root, node, here, k) == total
        invariant decls <= Declarations(log)
      {
        EnterChild(root, node, here, k, scope, decls, Declarations(log), log, total);
        IndexNode(root, here + [k], Kids(node)[k], scope);
      }
      assert log + [] == log;
    }

    /** Each statement starts with an empty scope. */
    method IndexStatements(root: Node)
      requires Valid() && log == [] && root.kind.Other?
      modifies this
      ensures Valid() && log == Expected(root, root, [])
    {
      assert ScopeMatches(root, [], map[], Declarations(log));
      assert CteCount(root) == 0;
      hide Valid, ScopeMatches, DistinctPlaces, Declarations, CteCount, Expected, ExpectedFrom;
      ExpectedDistinct(root, root, []);
      assert Expected(root, root, []) == ExpectedFrom(root, root, [], 0) by { RootExpected(root); }
      assert [] + ExpectedFrom(root, root, [], 0) == ExpectedFrom(root, root, [], 0);
      IndexChildren(root, [], root, map[]);
    }

    /** The walk of a query: the scope is cloned and grows past each CTE. */
    method IndexQuery(ghost root: Node, ghost here: Address, query: Node, outerScope: map<string, nat>)
      requires Valid() && NodeAt(root, here) == Some(query) && query.kind.Query?
      requires ScopeMatches(root, here, outerScope, Declarations(log))
      requires DistinctPlaces(log + ExpectedFrom(root, query, here, 0))
      modifies this
      ensures Valid() && log == old(log) + ExpectedFrom(root, query, here, 0)
      ensures old(Declarations(log)) <= Declarations(log)
      decreases query, 1
    {
      var scope: map<string, nat> := outerScope;
      ghost var total, decls := log + ExpectedFrom(root, query, here, 0), Declarations(log);
      assert Remains(root, query, here, 0, log, total);
      hide Valid, ScopeMatches, DistinctPlaces, NodeAt, Expected, ExpectedFrom, DeclarationEvents, Resolve,
        Declarations, Remains;
      ResolveSteps(root, query, here, 0);
      ScopeCarriesOver(root, here, here + [0], scope, decls, decls);
      for k := 0 to |Kids(query)|
        invariant Valid() && Remains(root, query, here, k, log, total)
        invariant decls <= Declarations(log)
        invariant ScopeMatches(root, here + [k], scope, Declarations(log))
      {
        NodeAtChild(root, here, k);
        NextRemains(root, query, here, k, log, total);
        scope := IndexQueryChild(root, here, query, k, scope);
      }
      NothingRemains(root, query, here, log, total);
    }

    /** A CTE body is walked under the scope so far, then its name is bound. */
    method IndexQueryChild(ghost root: Node, ghost here: Address, query: Node, k: nat, scope: map<string, nat>)
      returns (scope': map<string, nat>)
      requires Valid() && NodeAt(root, here) == Some(query) && k < |Kids(query)| &&
               NodeAt(root, here + [k]) == Some(Kids(query)[k])
      requires ScopeMatches(root, here + [k], scope, Declarations(log))
      requires DistinctPlaces(log + Expected(root, Kids(query)[k], here + [k]))
      requires DistinctPlaces(log + Expected(root, Kids(query)[k], here + [k]) + DeclarationEvents(query, here, k))
      modifies this
      ensures Valid() && log == old(log) + Expected(root, Kids(query)[k], here + [k]) +
              DeclarationEvents(query, here, k)
      ensures old(Declarations(log)) <= Declarations(log)
      ensures ScopeMatches(root, here + [k + 1], scope', Declarations(log))
      decreases query, 0
    {
      hide Valid, ScopeMatches, DistinctPlaces, NodeAt, Expected, Resolve, Fold, Declarations, LastNamed;
      ghost var decls := Declarations(log);
      IndexNode(root, here + [k], Kids(query)[k], scope);
      if k < CteCount(query) {
        var cte := Kids(query)[k].kind;
        AddDeclaration(here + [k], cte.cteName, cte.cteRange);
        scope' := scope[Fold(cte.cteName.name) := |bindings| - 1];
        ScopePastDeclaration(root, query, here, k, Fold(cte.cteName.name), scope, decls, Declarations(log));
      } else {
        scope' := scope;
        ResolveSteps(root, query, here, k);
        ScopeCarriesOver(root, here + [k], here + [k + 1], scope, decls, Declarations(log));
      }
    }
  }

  // ----- The index of a document -----

  datatype CteIndex = CteIndex(bindings: seq<CteBinding>, sites: seq<CteSite>)

  /** The statements of a document under one root, which declares nothing. */
  function Document(statements: seq<Node>): Node {
    Node(Other, statements)
  }

  function CompareSites(a: CteSite, b: CteSite): int {
    ComparePosition(a.range.start, b.range.start)
  }

  /** An index says what the lexical rule says of the statements, its sites
      sorted by position. */
  ghost predicate IsIndexOf(index: CteIndex, statements: seq<Node>) {
    exists walked: seq<CteSite> :: IsSorted(index, statements, walked)
  }

  /** The index with its sites in walking order says what the rule says. */
  ghost predicate IsSorted(index: CteIndex, statements: seq<Node>, walked: seq<CteSite>) {
    && Represents(index.bindings, walked, Expected(Document(statements), Document(statements), []))
    && multiset(index.sites) == multiset(walked)
    && SortedBy(index.sites, CompareSites)
  }

  method ExtractCTEIndex(statements: seq<Node>) returns (index: CteIndex)
    ensures IsIndexOf(index, statements)
  {
    var indexer := new CteIndexer();
    var root := Document(statements);
    indexer.IndexStatements(root);
    var sites := SortFunc(indexer.sites, CompareSites);
    index := CteIndex(indexer.bindings, sites);
    assert IsSorted(index, statements, indexer.sites);
  }

  /** The binding of the first reference site with the given range. */
  function BindingForReference(sites: seq<CteSite>, target: Range): (r: Option<nat>)
    ensures r.Some? ==> CteSite(r.value, target, false) in sites
    ensures r.None? ==> forall b :: CteSite(b, target, false) !in sites
  {
    if sites == [] then None
    else if !sites[0].declaration && sites[0].range == target then Some(sites[0].binding)
    else BindingForReference(sites[1..], target)
  }

  predicate BindsReference(sites: seq<CteSite>, target: Range) {
    BindingForReference(sites, target).Some?
  }

  /** Table references have ranges of their own, as they do in any parsed text. */
  ghost predicate DistinctReferenceRanges(root: Node) {
    forall a, b | ReferenceAt(root, a).Some? && ReferenceAt(root, b).Some? ::
      ReferenceAt(root, a).value.range == ReferenceAt(root, b).value.range ==> a == b
  }

  /** A recorded reference site is the one reference with its range. */
  lemma SiteIsResolved(root: Node, bindings: seq<CteBinding>, walked: seq<CteSite>, a: Address, b: nat)
    requires Represents(bindings, walked, Expected(root, root, [])) && DistinctReferenceRanges(root)
    requires ReferenceAt(root, a).Some? && CteSite(b, ReferenceAt(root, a).value.range, false) in walked
    ensures var decls := Declarations(Expected(root, root, []));
            b < |decls| && Resolve(root, a, Fold(ReferenceAt(root, a).value.name)) == Some(decls[b].at)
  {
    var log := Expected(root, root, []);
    var i :| 0 <= i < |walked| && walked[i] == CteSite(b, ReferenceAt(root, a).value.range, false);
    assert SiteIs(walked[i], Declarations(log), log[i]);
    RecordIsLexical(root);
    assert log[i] in log && ByRule(root, log[i]);
    assert ReferenceAt(root, log[i].at).Some? && log[i].at == a;
  }

  lemma ResolvedHasSite(root: Node, bindings: seq<CteBinding>, walked: seq<CteSite>, a: Address)
    requires Represents(bindings, walked, Expected(root, root, []))
    requires ReferenceAt(root, a).Some? && Resolve(root, a, Fold(ReferenceAt(root, a).value.name)).Some?
    ensures exists b :: CteSite(b, ReferenceAt(root, a).value.range, false) in walked
  {
    var name := ReferenceAt(root, a).value;
    var log := Expected(root, root, []);
    var e := Referred(a, Resolve(root, a, Fold(name.name)).value, name.range);
    RecordIsLexical(root);
    assert ByRule(root, e);
    var i :| 0 <= i < |log| && log[i] == e;
    assert SiteIs(walked[i], Declarations(log), log[i]);
    assert walked[i] == CteSite(walked[i].binding, name.range, false);
  }

  /** Every reference site was recorded for some table reference. */
  lemma SiteOrigin(index: CteIndex, statements: seq<Node>, b: nat, range: Range) returns (at: Address)
    requires IsIndexOf(index, statements) && CteSite(b, range, false) in index.sites
    ensures ReferenceAt(Document(statements), at).Some? && ReferenceAt(Document(statements), at).value.range == range
  {
    var root := Document(statements);
    var log := Expected(root, root, []);
    var walked: seq<CteSite> :| IsSorted(index, statements, walked);
    PermutationMembers(index.sites, walked);
    var i :| 0 <= i < |walked| && walked[i] == CteSite(b, range, false);
    assert SiteIs(walked[i], Declarations(log), log[i]);
    RecordIsLexical(root);
    assert log[i] in log && ByRule(root, log[i]);
    at := log[i].at;
  }

  /** Looking a table reference up by its range finds exactly what the lexical
      rule finds by its place. */
  lemma LookupIsLexical(index: CteIndex, statements: seq<Node>, a: Address)
    requires IsIndexOf(index, statements) && DistinctReferenceRanges(Document(statements))
    requires ReferenceAt(Document(statements), a).Some?
    ensures var name := ReferenceAt(Document(statements), a).value;
            var found := BindingForReference(index.sites, name.range);
            var decls := Declarations(Expected(Document(statements), Document(statements), []));
            && (found.Some? ==> found.value < |decls| && |decls| == |index.bindings|)
            && Resolve(Document(statements), a, Fold(name.name)) == if found.Some? then Some(decls[found.value].at)
                 else None
  {
    var root := Document(statements);
    var found := BindingForReference(index.sites, ReferenceAt(root, a).value.range);
    var walked: seq<CteSite> :| IsSorted(index, statements, walked);
    PermutationMembers(index.sites, walked);
    if found.Some? {
      SiteIsResolved(root, index.bindings, walked, a, found.value);
    } else if Resolve(root, a, Fold(ReferenceAt(root, a).value.name)).Some? {
      ResolvedHasSite(root, index.bindings, walked, a);
    }
  }
}
