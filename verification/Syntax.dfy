/** A reduced syntax tree: the nodes the lexical binders look at, everything
    else being `Other`. Nodes are named by their address, the sequence of child
    positions that leads to them from the root. */
module Syntax {
  import opened Coordinates

  datatype Ident = Ident(name: string, range: Range)

  datatype Kind =
    | Query                            // leading Cte children, then body, ORDER BY, LIMIT, pipes
    | Cte(cteName: Ident, cteRange: Range)  // child 0 is the query expression
    | Select(range: Range, source: nat)  // child `source`, if there is one, is the FROM source
    | Item(result: Option<Ident>, explicit: bool)  // of a SELECT list: the name of its column, and whether AS gives it
    | Clause                           // GROUP BY or HAVING of a SELECT, ORDER BY of a query
    | Lone(ident: Ident)               // an identifier standing alone in an expression
    | TableName(table: Ident, alias: Option<Ident>)
    | PathTable(alias: Option<Ident>, offset: Option<Ident>)  // child 0 is its Path
    | SubQueryTable(alias: Option<Ident>)
    | Unnest(alias: Option<Ident>, offset: Option<Ident>)
    | ParenTable                       // child 0
    | Join                             // children 0 and 1
    | Path(idents: seq<Ident>)
    | DotStar(qualifier: Option<Ident>)
    | Other

  datatype Node = Node(kind: Kind, children: seq<Node>)

  type Address = seq<nat>

  /** ASCII upper case, standing for the case normalisation of names. */
  function Fold(s: string): string {
    seq(|s|, i requires 0 <= i < |s| => if 'a' <= s[i] <= 'z' then s[i] - 'a' + 'A' else s[i])
  }

  /** The children a walk meets; a path holds nothing but its identifiers. */
  function Kids(n: Node): seq<Node> {
    if n.kind.Path? then [] else n.children
  }

  /** The node at an address below n. */
  function NodeAt(n: Node, a: Address): Option<Node> {
    if a == [] then Some(n)
    else if a[0] < |Kids(n)| then NodeAt(Kids(n)[a[0]], a[1..])
    else None
  }

  lemma Unfold(n: Node, a: Address)
    ensures NodeAt(n, a).Some? <==> a == [] || (a[0] < |Kids(n)| && NodeAt(Kids(n)[a[0]], a[1..]).Some?)
    ensures a != [] && NodeAt(n, a).Some? ==> NodeAt(n, a) == NodeAt(Kids(n)[a[0]], a[1..]) && a == [a[0]] + a[1..]
    ensures a == [] ==> NodeAt(n, a) == Some(n)
  {}

  lemma {:induction false} NodeAtChild(n: Node, a: Address, k: nat)
    requires NodeAt(n, a).Some?
    ensures NodeAt(n, a + [k]) ==
            if k < |Kids(NodeAt(n, a).value)| then Some(Kids(NodeAt(n, a).value)[k]) else None
  {
    if a == [] {
      assert ([k])[1..] == [];
    } else {
      assert (a + [k])[1..] == a[1..] + [k];
      NodeAtChild(Kids(n)[a[0]], a[1..], k);
    }
  }

  lemma {:induction false} NodeAtPrefix(n: Node, a: Address, b: Address)
    requires NodeAt(n, a + b).Some?
    ensures NodeAt(n, a).Some? && NodeAt(NodeAt(n, a).value, b) == NodeAt(n, a + b)
  {
    if a == [] {
      assert a + b == b;
    } else {
      assert (a + b)[1..] == a[1..] + b;
      NodeAtPrefix(Kids(n)[a[0]], a[1..], b);
    }
  }

  /** A path as it is written, parts joined by dots. */
  function Dotted(idents: seq<Ident>): string {
    if idents == [] then ""
    else if |idents| == 1 then idents[0].name
    else idents[0].name + "." + Dotted(idents[1..])
  }

  function PathRange(idents: seq<Ident>): Range {
    if idents == [] then Range(Position(0, 0), Position(0, 0))
    else Range(idents[0].range.start, idents[|idents| - 1].range.end)
  }

  // ----- Walking order -----

  /** The addresses of a subtree in the order a walk meets them. */
  function Preorder(n: Node, here: Address): seq<Address>
    decreases n, |Kids(n)| + 1
  {
    [here] + PreorderFrom(n, here, 0)
  }

  function PreorderFrom(n: Node, here: Address, k: nat): seq<Address>
    requires k <= |Kids(n)|
    decreases n, |Kids(n)| - k
  {
    if k == |Kids(n)| then [] else Preorder(Kids(n)[k], here + [k]) + PreorderFrom(n, here, k + 1)
  }

  lemma {:induction false} PreorderSound(root: Node, n: Node, here: Address, a: Address)
    requires NodeAt(root, here) == Some(n) && a in Preorder(n, here)
    ensures here <= a && NodeAt(root, a).Some?
    decreases n, |Kids(n)| + 1
  {
    if a != here { PreorderFromSound(root, n, here, 0, a); }
  }

  lemma {:induction false} PreorderFromSound(root: Node, n: Node, here: Address, k: nat, a: Address)
    requires NodeAt(root, here) == Some(n) && k <= |Kids(n)| && a in PreorderFrom(n, here, k)
    ensures here < a && k <= a[|here|] && NodeAt(root, a).Some?
    decreases n, |Kids(n)| - k
  {
    NodeAtChild(root, here, k);
    if a in Preorder(Kids(n)[k], here + [k]) {
      PreorderSound(root, Kids(n)[k], here + [k], a);
    } else {
      PreorderFromSound(root, n, here, k + 1, a);
    }
  }

  lemma {:induction false} PreorderComplete(n: Node, here: Address, rest: Address)
    requires NodeAt(n, rest).Some?
    ensures here + rest in Preorder(n, here)
    decreases n, |Kids(n)| + 1
  {
    if rest == [] {
      assert here + rest == here;
    } else {
      PreorderFromComplete(n, here, 0, rest);
    }
  }

  lemma {:induction false} PreorderFromComplete(n: Node, here: Address, k: nat, rest: Address)
    requires rest != [] && k <= rest[0] && NodeAt(n, rest).Some?
    ensures here + rest in PreorderFrom(n, here, k)
    decreases n, |Kids(n)| - k
  {
    if k == rest[0] {
      PreorderComplete(Kids(n)[k], here + [k], rest[1..]);
      assert here + [k] + rest[1..] == here + rest;
    } else {
      PreorderFromComplete(n, here, k + 1, rest);
    }
  }

  /** The node and what lies below its first k children, in walking order. */
  ghost predicate Walked(n: Node, here: Address, k: nat, done: seq<Address>) {
    k <= |Kids(n)| && done + PreorderFrom(n, here, k) == Preorder(n, here)
  }

  lemma WalkedFirst(n: Node, here: Address)
    ensures Walked(n, here, 0, [here])
  {}

  lemma WalkedStep(n: Node, here: Address, k: nat, done: seq<Address>)
    requires k < |Kids(n)| && Walked(n, here, k, done)
    ensures Walked(n, here, k + 1, done + Preorder(Kids(n)[k], here + [k]))
  {
    assert PreorderFrom(n, here, k) == Preorder(Kids(n)[k], here + [k]) + PreorderFrom(n, here, k + 1);
    hide PreorderFrom, Preorder;
    assert done + (Preorder(Kids(n)[k], here + [k]) + PreorderFrom(n, here, k + 1))
        == (done + Preorder(Kids(n)[k], here + [k])) + PreorderFrom(n, here, k + 1);
  }

  lemma WalkedLast(n: Node, here: Address, done: seq<Address>)
    requires Walked(n, here, |Kids(n)|, done)
    ensures done == Preorder(n, here)
  {
    assert done + [] == done;
  }

  /** What a visitor yields at some addresses, in order. */
  ghost function Along<T>(places: seq<Address>, visit: Address -> seq<T>): seq<T> {
    if places == [] then [] else visit(places[0]) + Along(places[1..], visit)
  }

  lemma {:induction false} AlongAppend<T>(x: seq<Address>, y: seq<Address>, visit: Address -> seq<T>)
    ensures Along(x + y, visit) == Along(x, visit) + Along(y, visit)
  {
    if x == [] {
      assert x + y == y;
    } else {
      assert (x + y)[1..] == x[1..] + y;
      AlongAppend(x[1..], y, visit);
    }
  }

  lemma AlongOne<T>(a: Address, visit: Address -> seq<T>)
    ensures Along([a], visit) == visit(a)
  {
    assert Along([a][1..], visit) == [];
  }

  lemma {:induction false} AlongMembers<T>(places: seq<Address>, visit: Address -> seq<T>, x: T)
    ensures x in Along(places, visit) <==> exists a :: a in places && x in visit(a)
  {
    if places != [] {
      AlongMembers(places[1..], visit, x);
      assert places == [places[0]] + places[1..];
    }
  }

  ghost predicate Distinct<T(!new)>(s: seq<T>) {
    forall i, j :: 0 <= i < j < |s| ==> s[i] != s[j]
  }

  lemma DistinctAppend<T(!new)>(x: seq<T>, y: seq<T>)
    requires Distinct(x) && Distinct(y) && forall e :: e in x ==> e !in y
    ensures Distinct(x + y)
  {
    forall i, j | 0 <= i < j < |x + y| ensures (x + y)[i] != (x + y)[j] {
      if i < |x| <= j { assert x[i] in x && y[j - |x|] in y; }
    }
  }

  lemma DistinctSplit<T(!new)>(x: seq<T>, y: seq<T>)
    requires Distinct(x + y)
    ensures forall e :: e in x ==> e !in y
  {
    forall i, j | 0 <= i < |x| && 0 <= j < |y| ensures x[i] != y[j] {
      assert (x + y)[i] != (x + y)[|x| + j];
    }
  }

  lemma {:induction false} PreorderDistinct(root: Node, n: Node, here: Address)
    requires NodeAt(root, here) == Some(n)
    ensures Distinct(Preorder(n, here))
    decreases n, |Kids(n)| + 1
  {
    PreorderFromDistinct(root, n, here, 0);
    forall a | a in PreorderFrom(n, here, 0) ensures a != here {
      PreorderFromSound(root, n, here, 0, a);
    }
    DistinctAppend([here], PreorderFrom(n, here, 0));
  }

  lemma {:induction false} PreorderFromDistinct(root: Node, n: Node, here: Address, k: nat)
    requires NodeAt(root, here) == Some(n) && k <= |Kids(n)|
    ensures Distinct(PreorderFrom(n, here, k))
    decreases n, |Kids(n)| - k
  {
    if k < |Kids(n)| {
      NodeAtChild(root, here, k);
      PreorderDistinct(root, Kids(n)[k], here + [k]);
      PreorderFromDistinct(root, n, here, k + 1);
      forall a | a in Preorder(Kids(n)[k], here + [k]) ensures a !in PreorderFrom(n, here, k + 1) {
        PreorderSound(root, Kids(n)[k], here + [k], a);
        if a in PreorderFrom(n, here, k + 1) { PreorderFromSound(root, n, here, k + 1, a); }
      }
      DistinctAppend(Preorder(Kids(n)[k], here + [k]), PreorderFrom(n, here, k + 1));
    }
  }

  /** A walk of the whole tree meets every address once. */
  lemma PreorderIsWhole(root: Node)
    ensures forall a :: a in Preorder(root, []) <==> NodeAt(root, a).Some?
    ensures Distinct(Preorder(root, []))
  {
    forall a ensures a in Preorder(root, []) <==> NodeAt(root, a).Some? {
      if a in Preorder(root, []) { PreorderSound(root, root, [], a); }
      if NodeAt(root, a).Some? {
        PreorderComplete(root, [], a);
        assert [] + a == a;
      }
    }
    PreorderDistinct(root, root, []);
  }
}
