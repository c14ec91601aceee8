/** The SELECT aliases of a whole document: the clauses of each SELECT, the places of
    the uses in them, and the joint index. */
module SelectIndexes {
  import opened Coordinates
  import opened Syntax
  import opened SelectAliases
  import opened SelectWalk
  import opened Texts
  import CteBindings
  import Tables = AliasBindings

  // ----- The clauses of a SELECT -----

  /** The places of the clauses among the children of a node from the k-th on. */
  function ClauseKids(n: Node, here: Address, k: nat): seq<Address>
    requires k <= |Kids(n)|
    decreases |Kids(n)| - k
  {
    if k == |Kids(n)| then []
    else (if Kids(n)[k].kind.Clause? then [here + [k]] else []) + ClauseKids(n, here, k + 1)
  }

  function ClausesAt(root: Node, a: Address): seq<Address> {
    if NodeAt(root, a).Some? then ClauseKids(NodeAt(root, a).value, a, 0) else []
  }

  /** GROUP BY and HAVING, then the ORDER BY of the query that the SELECT is the body of. */
  function ClausePlaces(root: Node, e: Indexed): seq<Address> {
    ClausesAt(root, e.select) + if e.orderBy.Some? then ClausesAt(root, e.orderBy.value) else []
  }

  function NodesAt(root: Node, places: seq<Address>): seq<Node> {
    if places == [] then []
    else
      var last := |places| - 1;
      NodesAt(root, places[..last]) + if NodeAt(root, places[last]).Some? then [NodeAt(root, places[last]).value]
        else []
  }

  predicate IsClause(root: Node, c: Address) {
    NodeAt(root, c).Some? && NodeAt(root, c).value.kind.Clause?
  }

  /** A clause among the children of a node, from the k-th on. */
  predicate ClauseFrom(root: Node, here: Address, k: nat, c: Address) {
    |c| == |here| + 1 && c[..|here|] == here && c[|here|] >= k && IsClause(root, c)
  }

  lemma ClauseFromStep(root: Node, n: Node, here: Address, k: nat, c: Address)
    requires NodeAt(root, here) == Some(n) && k <= |Kids(n)|
    ensures k == |Kids(n)| ==> !ClauseFrom(root, here, k, c)
    ensures k < |Kids(n)| ==>
              (ClauseFrom(root, here, k, c) <==>
                  (c == here + [k] && Kids(n)[k].kind.Clause?) || ClauseFrom(root, here, k + 1, c))
  {
    if |c| == |here| + 1 && c[..|here|] == here {
      assert c == here + [c[|here|]];
      NodeAtChild(root, here, c[|here|]);
    }
  }

  lemma {:induction false} ClauseKidsAre(root: Node, n: Node, here: Address, k: nat)
    requires NodeAt(root, here) == Some(n) && k <= |Kids(n)|
    ensures forall c :: c in ClauseKids(n, here, k) <==> ClauseFrom(root, here, k, c)
    ensures Distinct(ClauseKids(n, here, k))
    decreases |Kids(n)| - k
  {
    hide ClauseFrom, IsClause, NodeAt;
    forall c ensures k < |Kids(n)| ==> (ClauseFrom(root, here, k, c) <==>
        (c == here + [k] && Kids(n)[k].kind.Clause?) || ClauseFrom(root, here, k + 1, c))
      ensures k == |Kids(n)| ==> !ClauseFrom(root, here, k, c)
    {
      ClauseFromStep(root, n, here, k, c);
    }
    if k < |Kids(n)| {
      ClauseKidsAre(root, n, here, k + 1);
      NotFromNext(root, here, k);
      if Kids(n)[k].kind.Clause? { DistinctAppend([here + [k]], ClauseKids(n, here, k + 1)); }
    }
  }

  lemma NotFromNext(root: Node, here: Address, k: nat)
    ensures !ClauseFrom(root, here, k + 1, here + [k])
  {}

  lemma ClausesAtAre(root: Node, a: Address)
    ensures forall c :: c in ClausesAt(root, a) <==>
              |c| == |a| + 1 && c[..|a|] == a && IsClause(root, c)
    ensures Distinct(ClausesAt(root, a))
  {
    if NodeAt(root, a).Some? {
      ClauseKidsAre(root, NodeAt(root, a).value, a, 0);
    } else {
      forall c | |c| == |a| + 1 && c[..|a|] == a ensures !IsClause(root, c) {
        if IsClause(root, c) {
          assert c == a + [c[|a|]];
          NodeAtPrefix(root, a, [c[|a|]]);
        }
      }
    }
  }

  // ----- The places of the uses -----

  /** The places of the uses in a clause, in walking order. */
  function Standing(n: Node, here: Address): seq<Address>
    decreases n, |Kids(n)| + 1
  {
    match n.kind
    case Lone(_) | Path(_) => [here]
    case Query | Select(_, _) => []
    case _ => StandingFrom(n, here, 0)
  }

  function StandingFrom(n: Node, here: Address, k: nat): seq<Address>
    requires k <= |Kids(n)|
    decreases n, |Kids(n)| - k
  {
    if k == |Kids(n)| then [] else Standing(Kids(n)[k], here + [k]) + StandingFrom(n, here, k + 1)
  }

  function StandingIn(root: Node, clauses: seq<Address>): seq<Address> {
    if clauses == [] then []
    else
      var last := |clauses| - 1;
      StandingIn(root, clauses[..last]) +
      if NodeAt(root, clauses[last]).Some? then Standing(NodeAt(root, clauses[last]).value, clauses[last]) else []
  }

  predicate IsUse(root: Node, use: Use, a: Address) {
    && NodeAt(root, a).Some?
    && match use
       case Bare(ident) => NodeAt(root, a).value.kind == Lone(ident)
       case Headed(idents) => NodeAt(root, a).value.kind == Path(idents)
  }

  /** The uses stand at their places, below the node and in no nested query. */
  ghost predicate UsesStand(root: Node, here: Address, uses: seq<Use>, places: seq<Address>) {
    && |places| == |uses|
    && forall k :: 0 <= k < |uses| ==> IsUse(root, uses[k], places[k]) && NoQuery(root, here, places[k])
  }

  lemma NoQueryChild(root: Node, here: Address, k: nat, a: Address)
    requires NoQuery(root, here + [k], a) && !IsQuery(root, here) && !IsSelect(root, here)
    ensures NoQuery(root, here, a)
  {
    forall c | here <= c <= a ensures !IsQuery(root, c) && !IsSelect(root, c) {
      if c != here { assert here + [k] <= c; }
    }
  }

  lemma UsesStandAppend(root: Node, here: Address, x: seq<Use>, px: seq<Address>, y: seq<Use>, py: seq<Address>)
    requires UsesStand(root, here, x, px) && UsesStand(root, here, y, py)
    ensures UsesStand(root, here, x + y, px + py)
  {
    hide IsUse, NoQuery;
  }

  lemma {:induction false} StandingStands(root: Node, n: Node, here: Address)
    requires NodeAt(root, here) == Some(n)
    ensures UsesStand(root, here, UsesOf(n), Standing(n, here))
    ensures Distinct(Standing(n, here))
    decreases n, |Kids(n)| + 1
  {
    hide UsesOf, Standing, UsesFrom, StandingFrom, NodeAt, UsesStand;
    UsesOfKind(n, here);
    if n.kind.Lone? || n.kind.Path? {
      OneStands(root, n, here);
    } else if n.kind.Query? || n.kind.Select? {
      NoneStands(root, here);
    } else {
      StandingFromStands(root, n, here, 0);
    }
  }

  lemma UsesOfKind(n: Node, here: Address)
    ensures n.kind.Lone? || n.kind.Path? ==> Standing(n, here) == [here]
    ensures n.kind.Query? || n.kind.Select? ==> UsesOf(n) == [] && Standing(n, here) == []
    ensures !n.kind.Lone? && !n.kind.Path? && !n.kind.Query? && !n.kind.Select? ==>
              UsesOf(n) == UsesFrom(n, 0) && Standing(n, here) == StandingFrom(n, here, 0)
  {
    hide UsesFrom, StandingFrom;
  }

  lemma NoneStands(root: Node, here: Address)
    ensures UsesStand(root, here, [], [])
  {}

  lemma OneStands(root: Node, n: Node, here: Address)
    requires NodeAt(root, here) == Some(n) && (n.kind.Lone? || n.kind.Path?)
    ensures UsesStand(root, here, UsesOf(n), Standing(n, here))
  {
    forall c | here <= c <= here ensures !IsQuery(root, c) && !IsSelect(root, c) { assert c == here; }
  }

  lemma {:induction false} StandingFromStands(root: Node, n: Node, here: Address, k: nat)
    requires NodeAt(root, here) == Some(n) && k <= |Kids(n)| && !n.kind.Query? && !n.kind.Select?
    ensures UsesStand(root, here, UsesFrom(n, k), StandingFrom(n, here, k))
    ensures Distinct(StandingFrom(n, here, k))
    ensures forall a :: a in StandingFrom(n, here, k) ==> |a| > |here| && a[|here|] >= k
    decreases n, |Kids(n)| - k
  {
    hide UsesOf, Standing, UsesFrom, StandingFrom, NodeAt, UsesStand;
    UsesFromStep(n, here, k);
    if k < |Kids(n)| {
      NodeAtChild(root, here, k);
      var uses, places := UsesOf(Kids(n)[k]), Standing(Kids(n)[k], here + [k]);
      StandingStands(root, Kids(n)[k], here + [k]);
      StandingFromStands(root, n, here, k + 1);
      NotAQuery(root, n, here);
      ChildStands(root, here, k, uses, places);
      UsesStandAppend(root, here, uses, places, UsesFrom(n, k + 1), StandingFrom(n, here, k + 1));
      forall a | a in places ensures |a| > |here| && a[|here|] == k { UnderChild(root, here, k, uses, places, a); }
      DistinctAppend(places, StandingFrom(n, here, k + 1));
    } else {
      NoneStands(root, here);
    }
  }

  lemma NotAQuery(root: Node, n: Node, here: Address)
    requires NodeAt(root, here) == Some(n) && !n.kind.Query? && !n.kind.Select?
    ensures !IsQuery(root, here) && !IsSelect(root, here)
  {}

  lemma UsesFromStep(n: Node, here: Address, k: nat)
    requires k <= |Kids(n)|
    ensures UsesFrom(n, k) == if k == |Kids(n)| then [] else UsesOf(Kids(n)[k]) + UsesFrom(n, k + 1)
    ensures StandingFrom(n, here, k) ==
            if k == |Kids(n)| then [] else Standing(Kids(n)[k], here + [k]) + StandingFrom(n, here, k + 1)
  {
    hide UsesOf, Standing;
  }

  lemma ChildStands(root: Node, here: Address, k: nat, uses: seq<Use>, places: seq<Address>)
    requires UsesStand(root, here + [k], uses, places) && !IsQuery(root, here) && !IsSelect(root, here)
    ensures UsesStand(root, here, uses, places)
  {
    forall j | 0 <= j < |uses| ensures NoQuery(root, here, places[j]) { NoQueryChild(root, here, k, places[j]); }
  }

  lemma UnderChild(root: Node, here: Address, k: nat, uses: seq<Use>, places: seq<Address>, a: Address)
    requires UsesStand(root, here + [k], uses, places) && a in places
    ensures |a| > |here| && a[|here|] == k
  {
    var j :| 0 <= j < |places| && places[j] == a;
    assert NoQuery(root, here + [k], places[j]);
  }

  // ----- The uses of a SELECT -----

  function AliasesAt(root: Node, e: Indexed): seq<Alias> {
    if NodeAt(root, e.select).Some? then Aliases(Kids(NodeAt(root, e.select).value)) else []
  }

  function UsesAt(root: Node, e: Indexed): seq<Use> {
    UsesIn(NodesAt(root, ClausePlaces(root, e)))
  }

  function PlacesAt(root: Node, e: Indexed): seq<Address> {
    StandingIn(root, ClausePlaces(root, e))
  }

  /** A clause of a SELECT or a query. */
  ghost predicate HasOwner(root: Node, c: Address) {
    IsClause(root, c) && c != [] && (IsQuery(root, c[..|c| - 1]) || IsSelect(root, c[..|c| - 1]))
  }

  /** The place lies in the clause, outside nested queries. */
  ghost predicate InClause(root: Node, c: Address, a: Address) {
    HasOwner(root, c) && NoQuery(root, c, a)
  }

  /** A place lies in one clause at most. */
  lemma OneClause(root: Node, c: Address, d: Address, a: Address)
    requires InClause(root, c, a) && InClause(root, d, a)
    ensures c == d
  {
    hide IsQuery, IsSelect;
    assert c <= d || d <= c;
  }

  /** What holds of the uses of some clauses. */
  ghost predicate Stand(root: Node, clauses: seq<Address>, uses: seq<Use>, places: seq<Address>) {
    && |places| == |uses| && Distinct(places)
    && (forall k :: 0 <= k < |uses| ==> IsUse(root, uses[k], places[k]))
    && forall a :: a in places ==> exists c :: c in clauses && InClause(root, c, a)
  }

  lemma {:induction false} ClausesStand(root: Node, clauses: seq<Address>)
    requires Distinct(clauses)
    requires forall c :: c in clauses ==> HasOwner(root, c)
    ensures Stand(root, clauses, UsesIn(NodesAt(root, clauses)), StandingIn(root, clauses))
  {
    if clauses != [] {
      var init, c := clauses[..|clauses| - 1], clauses[|clauses| - 1];
      assert c in clauses && forall d :: d in init ==> d in clauses;
      ClausesStand(root, init);
      var n := NodeAt(root, c).value;
      StandingStands(root, n, c);
      LastClause(root, clauses);
      hide UsesIn, StandingIn, UsesOf, Standing, NodesAt, IsUse;
      OneMoreClause(root, init, c, UsesIn(NodesAt(root, init)), StandingIn(root, init), UsesOf(n), Standing(n, c));
      assert init + [c] == clauses;
    }
  }

  lemma LastClause(root: Node, clauses: seq<Address>)
    requires clauses != [] && NodeAt(root, clauses[|clauses| - 1]).Some?
    ensures var init, c := clauses[..|clauses| - 1], clauses[|clauses| - 1];
            var n := NodeAt(root, c).value;
            && UsesIn(NodesAt(root, clauses)) == UsesIn(NodesAt(root, init)) + UsesOf(n)
            && StandingIn(root, clauses) == StandingIn(root, init) + Standing(n, c)
  {
    var init, c := clauses[..|clauses| - 1], clauses[|clauses| - 1];
    var nodes := NodesAt(root, init);
    assert NodesAt(root, clauses) == nodes + [NodeAt(root, c).value];
    assert (nodes + [NodeAt(root, c).value])[..|nodes|] == nodes;
  }

  lemma OneMoreClause(root: Node, init: seq<Address>, c: Address, x: seq<Use>, px: seq<Address>, y: seq<Use>,
                      py: seq<Address>)
    requires Stand(root, init, x, px) && UsesStand(root, c, y, py) && Distinct(py) && c !in init
    requires HasOwner(root, c)
    ensures Stand(root, init + [c], x + y, px + py)
  {
    hide IsUse, NoQuery, IsClause, IsQuery, IsSelect;
    forall a | a in py ensures InClause(root, c, a) { var j :| 0 <= j < |py| && py[j] == a; }
    forall a | a in px ensures a !in py {
      var d :| d in init && InClause(root, d, a);
      if a in py { OneClause(root, d, c, a); }
    }
    DistinctAppend(px, py);
    forall a | a in px + py ensures exists d :: d in init + [c] && InClause(root, d, a) {
      if a in px {
        var d :| d in init && InClause(root, d, a);
        assert d in init + [c];
      } else {
        assert c in init + [c];
      }
    }
  }

  /** An entry of the walk: a SELECT, with its query if it is the body of one. */
  ghost predicate IsEntry(root: Node, e: Indexed) {
    IsSelect(root, e.select) && (e.orderBy.Some? ==>
        IsQuery(root, e.orderBy.value) && e.select == BodyOf(root, e.orderBy.value))
  }

  /** The uses of a SELECT stand at their places, each in one clause of it. */
  lemma UsesOfEntry(root: Node, e: Indexed)
    requires IsEntry(root, e)
    ensures Stand(root, ClausePlaces(root, e), UsesAt(root, e), PlacesAt(root, e))
  {
    ClausesAtAre(root, e.select);
    if e.orderBy.Some? {
      ClausesAtAre(root, e.orderBy.value);
      DistinctAppend(ClausesAt(root, e.select), ClausesAt(root, e.orderBy.value));
    } else {
      assert ClausesAt(root, e.select) + [] == ClausesAt(root, e.select);
    }
    hide ClausesAt;
    ClausesStand(root, ClausePlaces(root, e));
  }

  /** A clause belongs to one SELECT. */
  lemma ClauseOwner(root: Node, e: Indexed, f: Indexed, c: Address)
    requires IsEntry(root, e) && IsEntry(root, f) && c in ClausePlaces(root, e) && c in ClausePlaces(root, f)
    ensures e.select == f.select
  {
    hide ClausesAt, IsQuery, IsSelect, BodyOf;
    ClauseParent(root, e, c);
    ClauseParent(root, f, c);
    EntryKinds(root, e);
    EntryKinds(root, f);
  }

  /** The node that a clause of an entry hangs on. */
  lemma ClauseParent(root: Node, e: Indexed, c: Address)
    requires c in ClausePlaces(root, e)
    ensures c != [] && (c[..|c| - 1] == e.select || (e.orderBy.Some? && c[..|c| - 1] == e.orderBy.value))
  {
    ClausesAtAre(root, e.select);
    if e.orderBy.Some? { ClausesAtAre(root, e.orderBy.value); }
    hide ClausesAt;
  }

  /** The body of a query is not the query. */
  lemma EntryKinds(root: Node, e: Indexed)
    requires IsEntry(root, e)
    ensures IsSelect(root, e.select) && !IsQuery(root, e.select)
    ensures e.orderBy.Some? ==> IsQuery(root, e.orderBy.value) && !IsSelect(root, e.orderBy.value)
  {}

  /** Uses of different SELECTs stand at different places. */
  lemma PlacesOfEntries(root: Node, e: Indexed, f: Indexed, a: Address)
    requires IsEntry(root, e) && IsEntry(root, f) && a in PlacesAt(root, e) && a in PlacesAt(root, f)
    ensures e.select == f.select
  {
    UsesOfEntry(root, e);
    UsesOfEntry(root, f);
    hide PlacesAt, UsesAt, ClausePlaces;
    var c :| c in ClausePlaces(root, e) && InClause(root, c, a);
    var d :| d in ClausePlaces(root, f) && InClause(root, d, a);
    OneClause(root, c, d, a);
    ClauseOwner(root, e, f, c);
  }

  // ----- The joint index -----

  function Shift(sites: seq<Site>, n: nat): seq<Site> {
    seq(|sites|, i requires 0 <= i < |sites| => sites[i].(binding := sites[i].binding + n))
  }

  /** One index after the other; sites point into the joint list of bindings. */
  function Append(index: SelectIndex, part: SelectIndex): SelectIndex {
    SelectIndex(index.bindings + part.bindings, index.sites + Shift(part.sites, |index.bindings|),
                index.ambiguousPaths + part.ambiguousPaths)
  }

  function Joint(parts: seq<SelectIndex>): SelectIndex {
    if parts == [] then SelectIndex([], [], []) else Append(Joint(parts[..|parts| - 1]), parts[|parts| - 1])
  }

  /** The SELECTs of a document in the order of the walk. */
  ghost function Entries(root: Node): seq<Indexed> {
    Along(Preorder(root, []), In(root))
  }

  ghost predicate PartIs(part: SelectIndex, root: Node, e: Indexed, tables: seq<Tables.AliasSite>) {
    IsIndexOf(part, AliasesAt(root, e), AllEvents(AliasesAt(root, e), tables, UsesAt(root, e)))
  }

  ghost predicate PartsAre(parts: seq<SelectIndex>, root: Node, entries: seq<Indexed>, tables: seq<Tables.AliasSite>) {
    |parts| == |entries| && forall i :: 0 <= i < |parts| ==> PartIs(parts[i], root, entries[i], tables)
  }

  /** The index of a document: the indexes of its SELECTs, joined in the order of the walk. */
  ghost predicate IsJointIndex(index: SelectIndex, root: Node, tables: seq<Tables.AliasSite>) {
    exists parts :: PartsAre(parts, root, Entries(root), tables) && index == Joint(parts)
  }

  lemma EntriesAre(root: Node, e: Indexed)
    requires e in Entries(root)
    ensures IsEntry(root, e)
  {
    AlongMembers(Preorder(root, []), In(root), e);
    hide Preorder;
    var p :| p in Preorder(root, []) && e in At(root, p);
    OriginIs(root, p, e);
  }

  /** The joint index of a document. */
  method ExtractSelectAliasIndex(statements: seq<Node>, tables: seq<Tables.AliasSite>) returns (index: SelectIndex)
    ensures IsJointIndex(index, CteBindings.Document(statements), tables)
  {
    var root := CteBindings.Document(statements);
    var log := ExtractSelects(statements);
    ghost var parts: seq<SelectIndex> := [];
    index := SelectIndex([], [], []);
    hide ClausePlaces, PartIs, At;
    for i := 0 to |log|
      invariant |parts| == i && index == Joint(parts)
      invariant forall j :: 0 <= j < i ==> PartIs(parts[j], root, log[j], tables)
    {
      EntriesAre(root, log[i]);
      var part := IndexEntry(root, log[i], tables);
      assert (parts + [part])[..i] == parts;
      parts := parts + [part];
      index := Append(index, part);
    }
    assert PartsAre(parts, root, Entries(root), tables);
  }

  method IndexEntry(root: Node, e: Indexed, tables: seq<Tables.AliasSite>) returns (part: SelectIndex)
    requires NodeAt(root, e.select).Some?
    ensures PartIs(part, root, e, tables)
  {
    part := IndexSelectResultAliases(NodeAt(root, e.select).value, NodesAt(root, ClausePlaces(root, e)), tables);
  }
}
