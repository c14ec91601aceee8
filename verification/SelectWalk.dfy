/** Which SELECTs get an alias index, and with which ORDER BY: the walk meets a
    query before its SELECT and remembers what it has processed. */
module SelectWalk {
  import opened Coordinates
  import opened Syntax
  import CteBindings

  /** A SELECT is indexed alone or together with the ORDER BY of a query. */
  datatype Indexed = Indexed(select: Address, orderBy: Option<Address>)

  predicate IsSelect(root: Node, a: Address) {
    NodeAt(root, a).Some? && NodeAt(root, a).value.kind.Select?
  }

  predicate IsQuery(root: Node, a: Address) {
    NodeAt(root, a).Some? && NodeAt(root, a).value.kind.Query?
  }

  /** The place of a query's body, after its CTEs. */
  function BodyOf(root: Node, q: Address): Address
    requires NodeAt(root, q).Some?
  {
    q + [CteBindings.CteCount(NodeAt(root, q).value)]
  }

  /** The SELECT is the body of a query, not an operand or a subquery of another kind. */
  predicate IsBody(root: Node, a: Address) {
    a != [] && IsQuery(root, a[..|a| - 1]) && BodyOf(root, a[..|a| - 1]) == a && IsSelect(root, a)
  }

  /** What one node contributes, by the tree alone. */
  function At(root: Node, a: Address): seq<Indexed> {
    if IsQuery(root, a) && IsSelect(root, BodyOf(root, a)) then [Indexed(BodyOf(root, a), Some(a))]
    else if IsSelect(root, a) && !IsBody(root, a) then [Indexed(a, None)]
    else []
  }

  ghost function In(root: Node): Address -> seq<Indexed> {
    (a: Address) => At(root, a)
  }

  // ----- The walk -----

  ghost predicate Below(here: Address, a: Address) {
    here <= a
  }

  /** Before a subtree is walked, of its places only its own root can be processed,
      and only as the body of a query. */
  ghost predicate Ready(root: Node, processed: set<Address>, here: Address) {
    forall a :: Below(here, a) ==> (a in processed <==> a == here && IsBody(root, a))
  }

  /** The walk of a subtree touches no place outside. */
  ghost predicate OnlyBelow(here: Address, was: set<Address>, now: set<Address>) {
    forall a :: !Below(here, a) ==> (a in now <==> a in was)
  }

  /** The same for what lies below the children from k on. */
  ghost predicate ReadyFrom(root: Node, processed: set<Address>, here: Address, k: nat) {
    forall a :: StrictlyBelow(here, a, k) ==> (a in processed <==> |a| == |here| + 1 && IsBody(root, a))
  }

  ghost predicate StrictlyBelow(here: Address, a: Address, k: nat) {
    here <= a && |a| > |here| && a[|here|] >= k
  }

  lemma VisitKeepsReady(root: Node, here: Address, was: set<Address>, now: set<Address>)
    requires NodeAt(root, here).Some? && Ready(root, was, here)
    requires now == was + set e | e in At(root, here) :: e.select
    ensures ReadyFrom(root, now, here, 0) && OnlyBelow(here, was, now)
  {
    forall a | StrictlyBelow(here, a, 0) ensures a in now <==> |a| == |here| + 1 && IsBody(root, a) {
      assert Below(here, a) && a !in was;
      if a in now {
        assert a == BodyOf(root, here) && a[..|a| - 1] == here;
      }
      if |a| == |here| + 1 && IsBody(root, a) {
        assert a[..|a| - 1] == here;
        assert Indexed(a, Some(here)) in At(root, here);
      }
    }
  }

  lemma ChildReady(root: Node, processed: set<Address>, here: Address, k: nat)
    requires ReadyFrom(root, processed, here, k)
    ensures Ready(root, processed, here + [k])
  {
    hide IsBody;
    forall a | Below(here + [k], a) ensures a in processed <==> a == here + [k] && IsBody(root, a) {
      assert StrictlyBelow(here, a, k);
      if |a| == |here| + 1 { assert a == here + [k]; }
    }
  }

  lemma ChildDone(root: Node, was: set<Address>, now: set<Address>, here: Address, k: nat)
    requires ReadyFrom(root, was, here, k) && OnlyBelow(here + [k], was, now)
    ensures ReadyFrom(root, now, here, k + 1) && OnlyBelow(here, was, now)
  {
    hide IsBody;
    forall a | StrictlyBelow(here, a, k + 1) ensures a in now <==> |a| == |here| + 1 && IsBody(root, a) {
      assert StrictlyBelow(here, a, k) && !Below(here + [k], a);
    }
    forall a | !Below(here, a) ensures a in now <==> a in was {
      assert !Below(here + [k], a);
    }
  }

  lemma ChildWalked(root: Node, n: Node, here: Address, k: nat, done: seq<Address>)
    requires NodeAt(root, here) == Some(n) && k < |Kids(n)| && Walked(n, here, k, done)
    ensures NodeAt(root, here + [k]) == Some(Kids(n)[k])
    ensures var below := Preorder(Kids(n)[k], here + [k]);
            Walked(n, here, k + 1, done + below) &&
              Along(done + below, In(root)) == Along(done, In(root)) + Along(below, In(root))
  {
    hide Walked, Along, Preorder;
    NodeAtChild(root, here, k);
    WalkedStep(n, here, k, done);
    AlongAppend(done, Preorder(Kids(n)[k], here + [k]), In(root));
  }

  class SelectWalker {
    var processed: set<Address>
    var log: seq<Indexed>

    constructor ()
      ensures processed == {} && log == []
    {
      processed, log := {}, [];
    }

    method Visit(root: Node, here: Address, n: Node)
      requires NodeAt(root, here) == Some(n) && Ready(root, processed, here)
      modifies this
      ensures log == old(log) + At(root, here)
      ensures processed == old(processed) + (set e | e in At(root, here) :: e.select)
    {
      assert Below(here, here);
      NodeAtChild(root, here, CteBindings.CteCount(n));
      match n.kind
      case Query =>
        var body := CteBindings.CteCount(n);
        if body < |Kids(n)| && Kids(n)[body].kind.Select? {
          log := log + [Indexed(here + [body], Some(here))];
          processed := processed + {here + [body]};
        }
      case Select(_, _) =>
        if here !in processed {
          log := log + [Indexed(here, None)];
          processed := processed + {here};
        }
      case _ =>
    }

    method Walk(root: Node, here: Address, n: Node)
      requires NodeAt(root, here) == Some(n) && Ready(root, processed, here)
      modifies this
      ensures log == old(log) + Along(Preorder(n, here), In(root))
      ensures OnlyBelow(here, old(processed), processed)
      decreases n
    {
      hide Ready, ReadyFrom, Along, At, Walked;
      Visit(root, here, n);
      VisitKeepsReady(root, here, old(processed), processed);
      AlongOne(here, In(root));
      WalkedFirst(n, here);
      ghost var done := [here];
      for k := 0 to |Kids(n)|
        invariant ReadyFrom(root, processed, here, k) && OnlyBelow(here, old(processed), processed)
        invariant Walked(n, here, k, done) && log == old(log) + Along(done, In(root))
      {
        ghost var was := processed;
        ChildReady(root, processed, here, k);
        ChildWalked(root, n, here, k, done);
        Walk(root, here + [k], Kids(n)[k]);
        ChildDone(root, was, processed, here, k);
        done := done + Preorder(Kids(n)[k], here + [k]);
      }
      WalkedLast(n, here, done);
    }
  }

  method ExtractSelects(statements: seq<Node>) returns (log: seq<Indexed>)
    ensures var root := CteBindings.Document(statements);
            log == Along(Preorder(root, []), In(root))
  {
    var root := CteBindings.Document(statements);
    var walker := new SelectWalker();
    walker.Walk(root, [], root);
    log := walker.log;
  }

  // ----- Each SELECT once -----

  /** Where an entry comes from. */
  function Origin(e: Indexed): Address {
    if e.orderBy.Some? then e.orderBy.value else e.select
  }

  lemma OriginIs(root: Node, a: Address, e: Indexed)
    requires e in At(root, a)
    ensures Origin(e) == a && At(root, a) == [e] && IsSelect(root, e.select)
    ensures e.orderBy.Some? <==> IsBody(root, e.select)
    ensures e.orderBy.Some? ==> e.orderBy.value == e.select[..|e.select| - 1]
  {
    if e.orderBy.Some? { assert e.select[..|e.select| - 1] == a; }
  }

  /** The entries for two places are about different SELECTs. */
  lemma DifferentPlaces(root: Node, a: Address, b: Address, d: Indexed, e: Indexed)
    requires a != b && d in At(root, a) && e in At(root, b)
    ensures d.select != e.select
  {
    OriginIs(root, a, d);
    OriginIs(root, b, e);
  }

  lemma {:induction false} AlongDistinct(root: Node, places: seq<Address>)
    requires Distinct(places)
    ensures forall i, j :: 0 <= i < j < |Along(places, In(root))| ==>
            Along(places, In(root))[i].select != Along(places, In(root))[j].select
  {
    if places != [] {
      var head, rest := At(root, places[0]), Along(places[1..], In(root));
      AlongDistinct(root, places[1..]);
      assert |head| <= 1;
      hide At;
      forall j | 0 <= j < |rest| && head != [] ensures head[0].select != rest[j].select {
        AlongMembers(places[1..], In(root), rest[j]);
        var b :| b in places[1..] && rest[j] in At(root, b);
        DifferentPlaces(root, places[0], b, head[0], rest[j]);
      }
    }
  }

  /** Every SELECT of the document is indexed exactly once: with the ORDER BY of its
      query if it is a query's body, alone otherwise. */
  lemma EachSelectOnce(statements: seq<Node>, log: seq<Indexed>, a: Address)
    requires log == Along(Preorder(CteBindings.Document(statements), []), In(CteBindings.Document(statements)))
    ensures var root := CteBindings.Document(statements);
            IsSelect(root, a) <==> exists i :: 0 <= i < |log| && log[i].select == a
    ensures forall i, j :: 0 <= i < j < |log| ==> log[i].select != log[j].select
    ensures var root := CteBindings.Document(statements);
            forall i :: 0 <= i < |log| && log[i].select == a ==>
              log[i].orderBy == if IsBody(root, a) then Some(a[..|a| - 1]) else None
  {
    var root := CteBindings.Document(statements);
    PreorderIsWhole(root);
    AlongDistinct(root, Preorder(root, []));
    hide At, Distinct, Along, Preorder, IsBody;
    forall i | 0 <= i < |log| && log[i].select == a
      ensures IsSelect(root, a) && log[i].orderBy == if IsBody(root, a) then Some(a[..|a| - 1]) else None
    {
      AlongMembers(Preorder(root, []), In(root), log[i]);
      var p :| p in Preorder(root, []) && log[i] in At(root, p);
      OriginIs(root, p, log[i]);
    }
    if IsSelect(root, a) {
      var e := SelectHasEntry(root, a);
      AlongMembers(Preorder(root, []), In(root), e);
      var i :| 0 <= i < |log| && log[i] == e;
    }
  }

  lemma SelectHasEntry(root: Node, a: Address) returns (e: Indexed)
    requires IsSelect(root, a)
    ensures e.select == a && exists p :: NodeAt(root, p).Some? && e in At(root, p)
  {
    e := Indexed(a, if IsBody(root, a) then Some(a[..|a| - 1]) else None);
    var p := if IsBody(root, a) then a[..|a| - 1] else a;
    assert NodeAt(root, p).Some? && e in At(root, p);
  }
}
