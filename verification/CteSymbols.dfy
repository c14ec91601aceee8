/** The outline of common table expressions: a forest built with a stack from
    the bindings sorted by range. Nodes are numbered by their place in the
    sorted list. */
module CteSymbols {
  import opened Coordinates
  import opened Sorting

  datatype Column = Column(name: string, selectionRange: Range)

  datatype Binding = Binding(name: string, range: Range, declarationRange: Range, shapeKnown: bool,
                             columns: seq<Column>)

  /** Earlier starts first; of two equal starts, the longer range first. */
  function CompareBindings(a: Binding, b: Binding): int {
    if a.range.start != b.range.start then ComparePosition(a.range.start, b.range.start)
    else -ComparePosition(a.range.end, b.range.end)
  }

  // ----- Parents -----

  type Parents = seq<Option<nat>>

  ghost predicate Earlier(parents: Parents) {
    forall i :: 0 <= i < |parents| && parents[i].Some? ==> parents[i].value < i
  }

  /** a is a proper ancestor of i. */
  ghost predicate Ancestor(parents: Parents, a: nat, i: nat)
    requires Earlier(parents) && i < |parents|
    decreases i
  {
    parents[i].Some? && (parents[i].value == a || Ancestor(parents, a, parents[i].value))
  }

  /** Every node hangs below its predecessor or one of its predecessor's ancestors. */
  ghost predicate Rightmost(parents: Parents)
    requires Earlier(parents)
  {
    forall i :: 0 < i < |parents| && parents[i].Some? ==>
      parents[i].value == i - 1 || Ancestor(parents, parents[i].value, i - 1)
  }

  lemma {:induction false} AncestorEarlier(parents: Parents, a: nat, i: nat)
    requires Earlier(parents) && i < |parents| && Ancestor(parents, a, i)
    ensures a < i
    decreases i
  {
    if parents[i].value != a { AncestorEarlier(parents, a, parents[i].value); }
  }

  lemma {:induction false} AncestorTransitive(parents: Parents, a: nat, b: nat, i: nat)
    requires Earlier(parents) && b < |parents| && i < |parents| && Ancestor(parents, a, b) && Ancestor(parents, b, i)
    ensures Ancestor(parents, a, i)
    decreases i
  {
    if parents[i].value != b { AncestorTransitive(parents, a, b, parents[i].value); }
  }

  /** The descendants of a node are numbered without a gap. */
  lemma {:induction false} DescendantsContiguous(parents: Parents, a: nat, d: nat, i: nat)
    requires Earlier(parents) && Rightmost(parents) && a < d <= i < |parents| && Ancestor(parents, a, i)
    ensures Ancestor(parents, a, d)
    decreases i - d
  {
    if d < i {
      var q := parents[i].value;
      if q != a { AncestorEarlier(parents, a, q); }
      if q != i - 1 && q != a { AncestorTransitive(parents, a, q, i - 1); }
      DescendantsContiguous(parents, a, d, i - 1);
    }
  }

  // ----- Preorder -----

  /** The children of a node, or the roots, numbered from `from` on. */
  ghost function ChildrenOf(parents: Parents, p: Option<nat>, from: nat, n: nat): seq<nat>
    requires n <= |parents|
    decreases n - from
  {
    if from >= n then [] else (if parents[from] == p then [from] else []) + ChildrenOf(parents, p, from + 1, n)
  }

  /** The preorder of what hangs below p and starts at `from` or later. */
  ghost function Below(parents: Parents, p: Option<nat>, from: nat, n: nat): seq<nat>
    requires n <= |parents|
    decreases n - from
  {
    if from >= n then []
    else (if parents[from] == p then [from] + Below(parents, Some(from), from + 1, n) else []) +
         Below(parents, p, from + 1, n)
  }

  /** The child of p above or at i. */
  ghost function Toward(parents: Parents, p: Option<nat>, i: nat): Option<nat>
    requires Earlier(parents) && i < |parents|
    decreases i
  {
    if parents[i] == p then Some(i) else if parents[i].None? then None else Toward(parents, p, parents[i].value)
  }

  lemma {:induction false} TowardIs(parents: Parents, p: Option<nat>, i: nat)
    requires Earlier(parents) && i < |parents|
    ensures var d := Toward(parents, p, i);
            d.Some? ==> d.value <= i && parents[d.value] == p && (d.value == i || Ancestor(parents, d.value, i))
    ensures parents[i] == p ==> Toward(parents, p, i) == Some(i)
    ensures p.None? ==> Toward(parents, p, i).Some?
    ensures p.Some? ==> (Toward(parents, p, i).Some? <==> Ancestor(parents, p.value, i))
    decreases i
  {
    if parents[i] != p && parents[i].Some? { TowardIs(parents, p, parents[i].value); }
  }

  lemma {:induction false} TowardOnce(parents: Parents, c: nat, i: nat)
    requires Earlier(parents) && c < |parents| && i < |parents| && Ancestor(parents, c, i)
    ensures Toward(parents, parents[c], i) == Some(c)
    decreases i
  {
    AncestorEarlier(parents, c, i);
    if parents[i].value != c {
      TowardOnce(parents, c, parents[i].value);
      AncestorEarlier(parents, c, parents[i].value);
    }
  }

  lemma {:induction false} NothingBelow(parents: Parents, p: Option<nat>, from: nat, n: nat)
    requires n <= |parents| && forall d :: from <= d < n ==> parents[d] != p
    ensures Below(parents, p, from, n) == []
    decreases n - from
  {
    if from < n { NothingBelow(parents, p, from + 1, n); }
  }

  lemma NoLaterSibling(parents: Parents, c: nat, n: nat)
    requires Earlier(parents) && Rightmost(parents) && c < n < |parents| && Ancestor(parents, c, n)
    ensures Below(parents, parents[c], c + 1, n) == []
  {
    forall d | c < d < n ensures parents[d] != parents[c] {
      DescendantsContiguous(parents, c, d, n);
      if parents[d].value != c { AncestorEarlier(parents, c, parents[d].value); }
    }
    NothingBelow(parents, parents[c], c + 1, n);
  }

  /** The new node n comes below p, at `from` or later. */
  ghost predicate Gains(parents: Parents, p: Option<nat>, from: nat, n: nat)
    requires Earlier(parents) && n < |parents|
  {
    var d := Toward(parents, p, n);
    d.Some? && d.value >= from
  }

  function When(b: bool, n: nat): seq<nat> {
    if b then [n] else []
  }

  lemma GainsStep(parents: Parents, p: Option<nat>, from: nat, n: nat)
    requires Earlier(parents) && Rightmost(parents) && from < n < |parents|
    ensures parents[from] != p ==> Gains(parents, p, from, n) == Gains(parents, p, from + 1, n)
    ensures parents[from] == p ==>
              Gains(parents, p, from, n) == (Gains(parents, Some(from), from + 1, n) || Gains(parents, p, from + 1, n))
    ensures parents[from] == p && Gains(parents, Some(from), from + 1, n) ==>
              !Gains(parents, p, from + 1, n) && Below(parents, p, from + 1, n) == []
  {
    TowardIs(parents, p, n);
    TowardIs(parents, Some(from), n);
    if parents[from] == p && Ancestor(parents, from, n) {
      TowardOnce(parents, from, n);
      NoLaterSibling(parents, from, n);
      ChildAfter(parents, from, n);
    }
  }

  lemma Append(from: nat, inner: seq<nat>, rest: seq<nat>, i: bool, r: bool, n: nat)
    requires i ==> rest == [] && !r
    ensures [from] + (inner + When(i, n)) + (rest + When(r, n)) == [from] + inner + rest + When(i || r, n)
  {}

  lemma BelowStep(parents: Parents, p: Option<nat>, from: nat, n: nat)
    requires from < n <= |parents|
    ensures Below(parents, p, from, n) ==
            if parents[from] == p then [from] + Below(parents, Some(from), from + 1, n) + Below(parents, p, from + 1, n)
            else Below(parents, p, from + 1, n)
  {}

  lemma BelowOne(parents: Parents, p: Option<nat>, n: nat)
    requires Earlier(parents) && n < |parents|
    ensures Below(parents, p, n, n) == []
    ensures Below(parents, p, n, n + 1) == When(Gains(parents, p, n, n), n)
  {
    TowardIs(parents, p, n);
    assert Below(parents, Some(n), n + 1, n + 1) == [] && Below(parents, p, n + 1, n + 1) == [];
  }

  /** A new node comes last in the preorder of all that it hangs below. */
  lemma {:induction false} BelowGrows(parents: Parents, p: Option<nat>, from: nat, n: nat)
    requires Earlier(parents) && Rightmost(parents) && from <= n < |parents|
    ensures Below(parents, p, from, n + 1) == Below(parents, p, from, n) + When(Gains(parents, p, from, n), n)
    decreases n - from
  {
    hide Rightmost, Earlier, Gains, Below, When;
    if from == n {
      BelowOne(parents, p, n);
    } else {
      BelowStep(parents, p, from, n);
      BelowStep(parents, p, from, n + 1);
      GainsStep(parents, p, from, n);
      BelowGrows(parents, p, from + 1, n);
      if parents[from] == p {
        BelowGrows(parents, Some(from), from + 1, n);
        Append(from, Below(parents, Some(from), from + 1, n), Below(parents, p, from + 1, n),
          Gains(parents, Some(from), from + 1, n), Gains(parents, p, from + 1, n), n);
      }
    }
  }

  lemma ChildAfter(parents: Parents, c: nat, n: nat)
    requires Earlier(parents) && n < |parents| && Ancestor(parents, c, n)
    ensures Toward(parents, Some(c), n).Some? && Toward(parents, Some(c), n).value > c
  {
    TowardIs(parents, Some(c), n);
  }

  /** The preorder of the forest is the sorted list. */
  lemma {:induction false} PreorderIsOrder(parents: Parents, n: nat)
    requires Earlier(parents) && Rightmost(parents) && n <= |parents|
    ensures Below(parents, None, 0, n) == seq(n, i => i)
    decreases n
  {
    if n > 0 {
      PreorderIsOrder(parents, n - 1);
      BelowGrows(parents, None, 0, n - 1);
      TowardIs(parents, None, n - 1);
    }
  }

  // ----- The forest -----

  datatype Forest = Forest(roots: seq<nat>, children: seq<seq<nat>>)

  ghost predicate IsForest(f: Forest, parents: Parents) {
    && |f.children| == |parents|
    && f.roots == ChildrenOf(parents, None, 0, |parents|)
    && forall j :: 0 <= j < |parents| ==> f.children[j] == ChildrenOf(parents, Some(j), 0, |parents|)
  }

  lemma {:induction false} ChildrenOfMembers(parents: Parents, p: Option<nat>, from: nat, n: nat, i: nat)
    requires n <= |parents|
    ensures i in ChildrenOf(parents, p, from, n) <==> from <= i < n && parents[i] == p
    decreases n - from
  {
    if from < n {
      ChildrenOfMembers(parents, p, from + 1, n, i);
      var rest := ChildrenOf(parents, p, from + 1, n);
      assert ChildrenOf(parents, p, from, n) == if parents[from] == p then [from] + rest else rest;
    }
  }

  /** One more node goes to the end of one list of children. */
  lemma {:induction false} ChildrenOfGrow(parents: Parents, p: Option<nat>, from: nat, q: Option<nat>)
    requires from <= |parents|
    ensures ChildrenOf(parents + [q], p, from, |parents| + 1) ==
            ChildrenOf(parents, p, from, |parents|) + if p == q then [|parents|] else []
    decreases |parents| - from
  {
    if from < |parents| {
      ChildrenOfGrow(parents, p, from + 1, q);
    } else {
      assert ChildrenOf(parents + [q], p, from + 1, |parents| + 1) == [];
    }
  }

  /** The forest after node i is added below q. */
  function Attach(f: Forest, q: Option<nat>, i: nat): Forest
    requires q.Some? ==> q.value < |f.children|
  {
    if q.None? then Forest(f.roots + [i], f.children + [[]])
    else Forest(f.roots, f.children[q.value := f.children[q.value] + [i]] + [[]])
  }

  lemma ForestGrows(f: Forest, parents: Parents, q: Option<nat>)
    requires IsForest(f, parents) && Earlier(parents) && (q.Some? ==> q.value < |parents|)
    ensures IsForest(Attach(f, q, |parents|), parents + [q])
  {
    var n, g := |parents|, Attach(f, q, |parents|);
    ChildrenOfGrow(parents, None, 0, q);
    forall j | 0 <= j <= n ensures g.children[j] == ChildrenOf(parents + [q], Some(j), 0, n + 1) {
      ChildrenOfGrow(parents, Some(j), 0, q);
      hide ChildrenOf, Earlier;
      if j == n { NoChildren(parents, n); }
    }
  }

  lemma NoChildren(parents: Parents, j: nat)
    requires Earlier(parents) && |parents| <= j
    ensures ChildrenOf(parents, Some(j), 0, |parents|) == []
  {
    if ChildrenOf(parents, Some(j), 0, |parents|) != [] {
      var i := ChildrenOf(parents, Some(j), 0, |parents|)[0];
      ChildrenOfMembers(parents, Some(j), 0, |parents|, i);
    }
  }

  // ----- The stack -----

  function Top(stack: seq<nat>): Option<nat> {
    if stack == [] then None else Some(stack[|stack| - 1])
  }

  /** The stack is a path from a root, each node the parent of the next. */
  ghost predicate IsPath(parents: Parents, stack: seq<nat>)
    decreases |stack|
  {
    stack != [] ==>
      var top, rest := stack[|stack| - 1], stack[..|stack| - 1];
      top < |parents| && parents[top] == Top(rest) && IsPath(parents, rest)
  }

  lemma {:induction false} PathAppend(parents: Parents, q: Option<nat>, stack: seq<nat>)
    requires IsPath(parents, stack)
    ensures IsPath(parents + [q], stack)
  {
    if stack != [] { PathAppend(parents, q, stack[..|stack| - 1]); }
  }

  /** The path ends at or above the node added last. */
  ghost predicate EndsAbove(parents: Parents, stack: seq<nat>)
    requires Earlier(parents)
  {
    stack != [] ==>
      var top, last := stack[|stack| - 1], |parents| - 1;
      top < |parents| && (top == last || Ancestor(parents, top, last))
  }

  lemma PopKeepsPath(parents: Parents, stack: seq<nat>)
    requires Earlier(parents) && stack != [] && IsPath(parents, stack) && EndsAbove(parents, stack)
    ensures IsPath(parents, stack[..|stack| - 1]) && EndsAbove(parents, stack[..|stack| - 1])
  {
    var top, last := stack[|stack| - 1], |parents| - 1;
    if |stack| > 1 {
      assert stack[..|stack| - 1][|stack| - 2] == stack[|stack| - 2];
      assert Ancestor(parents, stack[|stack| - 2], top);
      if top != last { AncestorTransitive(parents, stack[|stack| - 2], top, last); }
    }
  }

  lemma {:induction false} AncestorAppend(parents: Parents, q: Option<nat>, a: nat, i: nat)
    requires Earlier(parents) && Earlier(parents + [q]) && i < |parents|
    ensures Ancestor(parents + [q], a, i) <==> Ancestor(parents, a, i)
    decreases i
  {
    if parents[i].Some? { AncestorAppend(parents, q, a, parents[i].value); }
  }

  lemma {:induction false} PathAncestors(parents: Parents, stack: seq<nat>, k: nat)
    requires Earlier(parents) && IsPath(parents, stack) && k < |stack|
    ensures var top := stack[|stack| - 1];
            stack[k] == top || Ancestor(parents, stack[k], top)
    decreases |stack|
  {
    if k < |stack| - 1 {
      assert stack[..|stack| - 1][|stack| - 2] == stack[|stack| - 2];
      PathAncestors(parents, stack[..|stack| - 1], k);
      if stack[k] != stack[|stack| - 2] {
        AncestorTransitive(parents, stack[k], stack[|stack| - 2], stack[|stack| - 1]);
      }
    }
  }

  lemma PushKeepsRightmost(parents: Parents, q: Option<nat>)
    requires Earlier(parents) && Rightmost(parents)
    requires q.Some? ==> q.value < |parents| && (q.value == |parents| - 1 || Ancestor(parents, q.value, |parents| - 1))
    ensures Earlier(parents + [q]) && Rightmost(parents + [q])
  {
    var more := parents + [q];
    assert Earlier(more);
    forall i | 0 < i < |more| && more[i].Some? ensures more[i].value == i - 1 || Ancestor(more, more[i].value, i - 1) {
      assert i < |parents| ==> more[i] == parents[i];
      AncestorAppend(parents, q, more[i].value, i - 1);
      hide Ancestor;
    }
  }

  lemma PushKeepsPath(parents: Parents, stack: seq<nat>)
    requires Earlier(parents) && Rightmost(parents) && IsPath(parents, stack) && EndsAbove(parents, stack)
    ensures var more := parents + [Top(stack)];
            && Earlier(more) && Rightmost(more)
            && IsPath(more, stack + [|parents|]) && EndsAbove(more, stack + [|parents|])
  {
    PushKeepsRightmost(parents, Top(stack));
    hide Rightmost, Ancestor;
    PathAppend(parents, Top(stack), stack);
    assert (stack + [|parents|])[..|stack|] == stack;
  }

  // ----- Ranges -----

  ghost predicate Sorted(bindings: seq<Binding>) {
    SortedBy(bindings, CompareBindings)
  }

  ghost predicate NestedOrDisjoint(bindings: seq<Binding>) {
    && (forall b :: b in bindings ==> Before(b.range.start, b.range.end))
    && (forall a, b :: a in bindings && b in bindings ==>
          RangeContains(a.range, b.range) || RangeContains(b.range, a.range) || !RangesOverlap(a.range, b.range))
  }

  /** Parents contain their children. */
  ghost predicate Within(bindings: seq<Binding>, parents: Parents) {
    forall i :: 0 <= i < |parents| <= |bindings| && parents[i].Some? && parents[i].value < i ==>
      RangeContains(bindings[parents[i].value].range, bindings[i].range)
  }

  /** Whatever is no longer on the stack ends before the next binding starts. */
  ghost predicate Closed(bindings: seq<Binding>, stack: seq<nat>, i: nat) {
    forall j :: 0 <= j < i < |bindings| && j !in stack ==> AtOrBefore(bindings[j].range.end, bindings[i].range.start)
  }

  /** Earlier containers are ancestors. */
  ghost predicate Complete(bindings: seq<Binding>, parents: Parents)
    requires Earlier(parents)
  {
    |parents| <= |bindings| ==> forall j, i :: 0 <= j < i < |parents| ==> CompleteAt(bindings, parents, j, i)
  }

  ghost predicate CompleteAt(bindings: seq<Binding>, parents: Parents, j: nat, i: nat)
    requires Earlier(parents) && i < |parents| <= |bindings| && j < i
  {
    RangeContains(bindings[j].range, bindings[i].range) ==> Ancestor(parents, j, i)
  }

  lemma PopCloses(bindings: seq<Binding>, stack: seq<nat>, i: nat)
    requires Sorted(bindings) && NestedOrDisjoint(bindings) && Closed(bindings, stack, i) && i < |bindings|
    requires stack != [] && stack[|stack| - 1] < i
    requires !RangeContains(bindings[stack[|stack| - 1]].range, bindings[i].range)
    ensures Closed(bindings, stack[..|stack| - 1], i)
  {
    var top := stack[|stack| - 1];
    var a, b := bindings[top], bindings[i];
    assert CompareBindings(a, b) <= 0;
    assert a in bindings && b in bindings;
    assert AtOrBefore(a.range.end, b.range.start);
    forall j | 0 <= j < i && j !in stack[..|stack| - 1] ensures AtOrBefore(bindings[j].range.end, b.range.start) {
      if j != top { assert j !in stack; }
    }
  }

  lemma PushCloses(bindings: seq<Binding>, stack: seq<nat>, i: nat)
    requires Sorted(bindings) && Closed(bindings, stack, i)
    ensures Closed(bindings, stack + [i], i + 1)
  {
    forall j | 0 <= j < i + 1 < |bindings| && j !in stack + [i]
      ensures AtOrBefore(bindings[j].range.end, bindings[i + 1].range.start)
    {
      assert j !in stack && j != i;
      assert CompareBindings(bindings[i], bindings[i + 1]) <= 0;
    }
  }

  lemma ContainersAreOnStack(bindings: seq<Binding>, stack: seq<nat>, j: nat, i: nat)
    requires j < i < |bindings| && NestedOrDisjoint(bindings) && Closed(bindings, stack, i)
    requires RangeContains(bindings[j].range, bindings[i].range)
    ensures j in stack
  {
    assert bindings[i] in bindings;
  }

  lemma StackIsAbove(parents: Parents, stack: seq<nat>, j: nat)
    requires Earlier(parents) && IsPath(parents, stack) && j in stack
    ensures var more := parents + [Top(stack)];
            j < |parents| && Earlier(more) && Ancestor(more, j, |parents|)
  {
    var k :| 0 <= k < |stack| && stack[k] == j;
    var more, top := parents + [Top(stack)], stack[|stack| - 1];
    PathAncestors(parents, stack, k);
    assert Earlier(more);
    AncestorAppend(parents, Top(stack), j, top);
    if j != top { AncestorEarlier(parents, j, top); }
  }

  lemma PushCompletesAt(bindings: seq<Binding>, parents: Parents, stack: seq<nat>, j: nat)
    requires |parents| < |bindings| && Earlier(parents) && NestedOrDisjoint(bindings)
    requires IsPath(parents, stack) && Closed(bindings, stack, |parents|) && j < |parents|
    ensures Earlier(parents + [Top(stack)]) && CompleteAt(bindings, parents + [Top(stack)], j, |parents|)
  {
    hide IsPath, NestedOrDisjoint, Closed;
    EarlierPush(parents, stack);
    if RangeContains(bindings[j].range, bindings[|parents|].range) {
      ContainersAreOnStack(bindings, stack, j, |parents|);
      StackIsAbove(parents, stack, j);
    }
  }

  lemma EarlierPush(parents: Parents, stack: seq<nat>)
    requires Earlier(parents) && IsPath(parents, stack)
    ensures Earlier(parents + [Top(stack)])
  {}

  lemma PushCompletes(bindings: seq<Binding>, parents: Parents, stack: seq<nat>)
    requires |parents| < |bindings| && Earlier(parents) && NestedOrDisjoint(bindings)
    requires IsPath(parents, stack) && Closed(bindings, stack, |parents|) && Complete(bindings, parents)
    ensures Earlier(parents + [Top(stack)]) && Complete(bindings, parents + [Top(stack)])
  {
    hide IsPath, NestedOrDisjoint, Closed, Earlier;
    EarlierPush(parents, stack);
    var n, more := |parents|, parents + [Top(stack)];
    forall j, i | 0 <= j < i < |more| ensures CompleteAt(bindings, more, j, i) {
      if i < n {
        assert CompleteAt(bindings, parents, j, i);
        AncestorAppend(parents, Top(stack), j, i);
      } else {
        PushCompletesAt(bindings, parents, stack, j);
      }
    }
  }

  lemma PushKeepsWithin(bindings: seq<Binding>, parents: Parents, stack: seq<nat>)
    requires |parents| < |bindings| && IsPath(parents, stack) && Within(bindings, parents)
    requires stack != [] ==> RangeContains(bindings[stack[|stack| - 1]].range, bindings[|parents|].range)
    ensures Within(bindings, parents + [Top(stack)])
  {
    var n, more := |parents|, parents + [Top(stack)];
    forall i | 0 <= i < |more| && more[i].Some? && more[i].value < i
      ensures RangeContains(bindings[more[i].value].range, bindings[i].range)
    {
      if i < n { assert more[i] == parents[i]; }
    }
  }

  /** The nodes that do not contain the next one leave the stack. */
  method PopOthers(bindings: seq<Binding>, was: seq<nat>, i: nat, ghost parents: Parents) returns (stack: seq<nat>)
    requires Sorted(bindings) && Earlier(parents) && i == |parents| < |bindings|
    requires IsPath(parents, was) && EndsAbove(parents, was) &&
             (NestedOrDisjoint(bindings) ==> Closed(bindings, was, i))
    ensures IsPath(parents, stack) && EndsAbove(parents, stack) &&
            (NestedOrDisjoint(bindings) ==> Closed(bindings, stack, i))
    ensures stack <= was
    ensures stack != [] ==>
              stack[|stack| - 1] < i && RangeContains(bindings[stack[|stack| - 1]].range, bindings[i].range)
  {
    stack := was;
    hide EndsAbove, Closed, NestedOrDisjoint, RangeContains, Sorted, Earlier;
    while stack != [] && !RangeContains(bindings[stack[|stack| - 1]].range, bindings[i].range)
      invariant IsPath(parents, stack) && EndsAbove(parents, stack) && stack <= was
      invariant NestedOrDisjoint(bindings) ==> Closed(bindings, stack, i)
    {
      PopKeepsPath(parents, stack);
      if NestedOrDisjoint(bindings) { PopCloses(bindings, stack, i); }
      stack := stack[..|stack| - 1];
    }
  }

  /** The state of the loop after the bindings numbered below |parents|. */
  ghost predicate Built(bindings: seq<Binding>, f: Forest, parents: Parents, stack: seq<nat>) {
    && |f.children| == |parents| <= |bindings| && Earlier(parents) && Rightmost(parents) && IsForest(f, parents)
    && IsPath(parents, stack) && EndsAbove(parents, stack) && Within(bindings, parents)
    && (NestedOrDisjoint(bindings) ==> Closed(bindings, stack, |parents|) && Complete(bindings, parents))
  }

  lemma BuiltStep(bindings: seq<Binding>, f: Forest, parents: Parents, stack: seq<nat>)
    requires |parents| < |bindings| && Sorted(bindings) && Built(bindings, f, parents, stack)
    requires stack != [] ==> stack[|stack| - 1] < |parents|
    requires stack != [] ==> RangeContains(bindings[stack[|stack| - 1]].range, bindings[|parents|].range)
    ensures Built(bindings, Attach(f, Top(stack), |parents|), parents + [Top(stack)], stack + [|parents|])
  {
    hide Rightmost, EndsAbove, Closed, Complete, NestedOrDisjoint, RangeContains, Sorted, Ancestor, Earlier, IsPath,
      Within, IsForest;
    PushKeepsPath(parents, stack);
    ForestGrows(f, parents, Top(stack));
    PushKeepsWithin(bindings, parents, stack);
    if NestedOrDisjoint(bindings) {
      PushCloses(bindings, stack, |parents|);
      PushCompletes(bindings, parents, stack);
    }
  }

  /** Every node hangs where the stack put it. Whatever the ranges, parents contain
      children; for nested or disjoint ranges all earlier containers are ancestors. */
  ghost predicate IsStackForest(bindings: seq<Binding>, f: Forest, parents: Parents) {
    && |parents| == |bindings| && Earlier(parents) && Rightmost(parents) && IsForest(f, parents) &&
         Within(bindings, parents)
    && (NestedOrDisjoint(bindings) ==> Complete(bindings, parents))
  }

  method BuildForest(bindings: seq<Binding>) returns (f: Forest)
    requires Sorted(bindings)
    ensures IsOutline(bindings, f)
  {
    f := Forest([], []);
    ghost var parents: Parents := [];
    var stack: seq<nat> := [];
    assert Built(bindings, f, parents, stack);
    hide Rightmost, EndsAbove, Closed, Complete, NestedOrDisjoint, RangeContains, Sorted, IsPath, Within, IsForest,
      Earlier, IsOutline;
    for i := 0 to |bindings|
      invariant |parents| == i && Built(bindings, f, parents, stack)
    {
      stack := PopOthers(bindings, stack, i, parents);
      BuiltStep(bindings, f, parents, stack);
      hide Built;
      parents := parents + [Top(stack)];
      if stack == [] {
        f := Forest(f.roots + [i], f.children + [[]]);
      } else {
        var parent := stack[|stack| - 1];
        f := Forest(f.roots, f.children[parent := f.children[parent] + [i]] + [[]]);
      }
      stack := stack + [i];
    }
    BuiltIsStackForest(bindings, f, parents, stack);
    ForestIsOutline(bindings, f, parents);
  }

  lemma BuiltIsStackForest(bindings: seq<Binding>, f: Forest, parents: Parents, stack: seq<nat>)
    requires |parents| == |bindings| && Built(bindings, f, parents, stack)
    ensures IsStackForest(bindings, f, parents)
  {}

  // ----- Laws of the forest -----

  /** Children come after their parents. */
  ghost predicate Downward(f: Forest) {
    && Between(f.roots, 0, |f.children|)
    && forall p :: 0 <= p < |f.children| ==> Between(f.children[p], p + 1, |f.children|)
  }

  ghost predicate Between(list: seq<nat>, from: nat, n: nat) {
    forall k :: 0 <= k < |list| ==> from <= list[k] < n
  }

  lemma ForestIsDownward(f: Forest, parents: Parents)
    requires Earlier(parents) && IsForest(f, parents)
    ensures Downward(f)
  {
    forall p, k | 0 <= p < |f.children| && 0 <= k < |f.children[p]| ensures p < f.children[p][k] < |f.children| {
      ChildrenOfMembers(parents, Some(p), 0, |parents|, f.children[p][k]);
    }
    forall k | 0 <= k < |f.roots| ensures f.roots[k] < |f.children| {
      ChildrenOfMembers(parents, None, 0, |parents|, f.roots[k]);
    }
  }

  /** Nodes and what hangs below them, in the order of the lists. */
  ghost function Walk(f: Forest, from: nat, list: seq<nat>): seq<nat>
    requires Downward(f) && Between(list, from, |f.children|)
    decreases |f.children| - from, |list|
  {
    if list == [] then []
    else [list[0]] + Walk(f, list[0] + 1, f.children[list[0]]) + Walk(f, from, list[1..])
  }

  ghost function Preorder(f: Forest): seq<nat>
    requires Downward(f)
  {
    Walk(f, 0, f.roots)
  }

  lemma {:induction false} ChildrenOfFrom(parents: Parents, p: Option<nat>, from: nat, n: nat)
    requires n <= |parents| && forall i :: 0 <= i < from && i < n ==> parents[i] != p
    ensures ChildrenOf(parents, p, 0, n) == ChildrenOf(parents, p, from, n)
  {
    if from > 0 { ChildrenOfFrom(parents, p, from - 1, n); }
  }

  /** Walking the lists below p visits what hangs below p. */
  ghost predicate WalksBelow(f: Forest, parents: Parents, p: Option<nat>, low: nat, from: nat) {
    && Downward(f) && |f.children| == |parents| && low <= from <= |parents|
    && Between(ChildrenOf(parents, p, from, |parents|), from, |parents|)
    && Walk(f, low, ChildrenOf(parents, p, from, |parents|)) == Below(parents, p, from, |parents|)
  }

  lemma WalksStep(f: Forest, parents: Parents, p: Option<nat>, low: nat, from: nat)
    requires Earlier(parents) && IsForest(f, parents) && low <= from < |parents| &&
             WalksBelow(f, parents, p, low, from + 1)
    requires parents[from] == p ==> WalksBelow(f, parents, Some(from), from + 1, from + 1)
    ensures WalksBelow(f, parents, p, low, from)
  {
    hide Walk, ChildrenOf, Earlier, Below, IsForest;
    ChildrenBetween(parents, p, from);
    ChildrenOfStep(parents, p, from);
    BelowStep(parents, p, from, |parents|);
    if parents[from] == p {
      OwnChildren(f, parents, from);
      WalkCons(f, low, from, ChildrenOf(parents, p, from + 1, |parents|));
    }
  }

  lemma {:induction false} WalkIsBelow(f: Forest, parents: Parents, p: Option<nat>, low: nat, from: nat)
    requires Earlier(parents) && IsForest(f, parents) && Downward(f) && low <= from <= |parents|
    ensures WalksBelow(f, parents, p, low, from)
    decreases |parents| - from
  {
    if from == |parents| {
      WalkEnds(f, parents, p, low);
    } else {
      hide WalksBelow, Earlier, IsForest, Downward;
      WalkIsBelow(f, parents, p, low, from + 1);
      if parents[from] == p { WalkIsBelow(f, parents, Some(from), from + 1, from + 1); }
      WalksStep(f, parents, p, low, from);
    }
  }

  lemma WalkEnds(f: Forest, parents: Parents, p: Option<nat>, low: nat)
    requires Downward(f)
    ensures ChildrenOf(parents, p, |parents|, |parents|) == [] == Below(parents, p, |parents|, |parents|)
    ensures Walk(f, low, []) == []
  {}

  lemma ChildrenOfStep(parents: Parents, p: Option<nat>, from: nat)
    requires from < |parents|
    ensures var rest := ChildrenOf(parents, p, from + 1, |parents|);
            ChildrenOf(parents, p, from, |parents|) == if parents[from] == p then [from] + rest else rest
  {}

  lemma OwnChildren(f: Forest, parents: Parents, c: nat)
    requires Earlier(parents) && IsForest(f, parents) && c < |parents|
    ensures f.children[c] == ChildrenOf(parents, Some(c), c + 1, |parents|)
  {
    ChildrenOfFrom(parents, Some(c), c + 1, |parents|);
  }

  lemma ChildrenBetween(parents: Parents, p: Option<nat>, from: nat)
    ensures Between(ChildrenOf(parents, p, from, |parents|), from, |parents|)
  {
    var list := ChildrenOf(parents, p, from, |parents|);
    forall k | 0 <= k < |list| ensures from <= list[k] < |parents| {
      ChildrenOfMembers(parents, p, from, |parents|, list[k]);
    }
  }

  lemma WalkCons(f: Forest, low: nat, c: nat, rest: seq<nat>)
    requires Downward(f) && low <= c < |f.children| && Between(rest, low, |f.children|)
    ensures Between([c] + rest, low, |f.children|)
    ensures Walk(f, low, [c] + rest) == [c] + Walk(f, c + 1, f.children[c]) + Walk(f, low, rest)
  {
    assert ([c] + rest)[1..] == rest;
  }

  /** i hangs somewhere below a. */
  ghost predicate Under(f: Forest, a: nat, i: nat)
    requires Downward(f) && a < |f.children|
    decreases |f.children| - a
  {
    i in f.children[a] || exists c :: c in f.children[a] && Under(f, c, i)
  }

  lemma {:induction false} UnderIsAncestor(f: Forest, parents: Parents, a: nat, i: nat)
    requires Earlier(parents) && IsForest(f, parents) && Downward(f) && a < |parents| && i < |parents|
    ensures Under(f, a, i) <==> Ancestor(parents, a, i)
    decreases |parents| - a
  {
    ChildrenOfMembers(parents, Some(a), 0, |parents|, i);
    if Under(f, a, i) && i !in f.children[a] {
      var c :| c in f.children[a] && Under(f, c, i);
      ChildrenOfMembers(parents, Some(a), 0, |parents|, c);
      UnderIsAncestor(f, parents, c, i);
      AncestorTransitive(parents, a, c, i);
    }
    if Ancestor(parents, a, i) && i !in f.children[a] {
      TowardIs(parents, Some(a), i);
      var c := Toward(parents, Some(a), i).value;
      ChildrenOfMembers(parents, Some(a), 0, |parents|, c);
      UnderIsAncestor(f, parents, c, i);
    }
  }

  lemma {:induction false} AncestorsContain(bindings: seq<Binding>, parents: Parents, a: nat, i: nat)
    requires |parents| == |bindings| && Earlier(parents) && Within(bindings, parents) && i < |parents|
    requires Ancestor(parents, a, i)
    ensures a < i && RangeContains(bindings[a].range, bindings[i].range)
    decreases i
  {
    if parents[i].value != a { AncestorsContain(bindings, parents, a, parents[i].value); }
  }

  /** The forest over a sorted list: every binding once, in order; only containers
      as ancestors; and, for nested or disjoint ranges, every earlier container. */
  ghost predicate IsOutline(bindings: seq<Binding>, f: Forest) {
    && |f.children| == |bindings| && Downward(f)
    && Preorder(f) == seq(|bindings|, i => i)
    && (forall a, i :: 0 <= a < |bindings| && 0 <= i < |bindings| && Under(f, a, i) ==>
          a < i && RangeContains(bindings[a].range, bindings[i].range))
    && (NestedOrDisjoint(bindings) ==>
          forall a, i :: 0 <= a < i < |bindings| && RangeContains(bindings[a].range, bindings[i].range) ==>
              Under(f, a, i))
  }

  lemma ForestPreorder(bindings: seq<Binding>, f: Forest, parents: Parents)
    requires IsStackForest(bindings, f, parents)
    ensures Downward(f) && Preorder(f) == seq(|bindings|, i => i)
  {
    ForestIsDownward(f, parents);
    WalkIsBelow(f, parents, None, 0, 0);
    PreorderIsOrder(parents, |parents|);
    hide Walk, Below, ChildrenOf, Within, Complete, Rightmost;
  }

  lemma ForestAncestors(bindings: seq<Binding>, f: Forest, parents: Parents, a: nat, i: nat)
    requires IsStackForest(bindings, f, parents) && Downward(f) && a < |bindings| && i < |bindings|
    ensures Under(f, a, i) ==> a < i && RangeContains(bindings[a].range, bindings[i].range)
    ensures NestedOrDisjoint(bindings) && a < i && RangeContains(bindings[a].range, bindings[i].range) ==>
            Under(f, a, i)
  {
    assert |f.children| == |parents|;
    hide NestedOrDisjoint, RangeContains, IsForest, Rightmost, Within;
    UnderIsAncestor(f, parents, a, i);
    if Under(f, a, i) { AncestorsContain(bindings, parents, a, i); }
    if NestedOrDisjoint(bindings) && a < i { assert CompleteAt(bindings, parents, a, i); }
  }

  lemma ForestIsOutline(bindings: seq<Binding>, f: Forest, parents: Parents)
    requires IsStackForest(bindings, f, parents)
    ensures IsOutline(bindings, f)
  {
    ForestPreorder(bindings, f, parents);
    assert |f.children| == |bindings|;
    hide NestedOrDisjoint, RangeContains, IsStackForest, Preorder, Downward, Under;
    forall a, i | 0 <= a < |bindings| && 0 <= i < |bindings|
      ensures Under(f, a, i) ==> a < i && RangeContains(bindings[a].range, bindings[i].range)
      ensures NestedOrDisjoint(bindings) && a < i && RangeContains(bindings[a].range, bindings[i].range) ==>
              Under(f, a, i)
    {
      ForestAncestors(bindings, f, parents, a, i);
    }
  }

  // ----- Rendering -----

  datatype SymbolKind = Struct | Field

  datatype Symbol = Symbol(name: string, kind: SymbolKind, range: Range, selectionRange: Range, children: seq<Symbol>)

  function CompareSymbols(a: Symbol, b: Symbol): int {
    if a.range.start != b.range.start then ComparePosition(a.range.start, b.range.start)
    else ComparePosition(a.range.end, b.range.end)
  }

  function Fields(b: Binding): seq<Symbol> {
    if b.shapeKnown
    then seq(|b.columns|, i requires 0 <= i < |b.columns| =>
      Symbol(b.columns[i].name, Field, b.columns[i].selectionRange, b.columns[i].selectionRange, []))
    else []
  }

  /** The symbol of a node: its binding, and below it in the order of their ranges
      its columns and the symbols of its children, nothing else. */
  ghost predicate Renders(s: Symbol, bindings: seq<Binding>, f: Forest, i: nat)
    requires |f.children| == |bindings| && Downward(f) && i < |bindings|
    decreases |bindings| - i, 0
  {
    && s.kind == Struct && s.name == bindings[i].name
    && s.range == bindings[i].range && s.selectionRange == bindings[i].declarationRange
    && SortedBy(s.children, CompareSymbols)
    && exists nested: seq<Symbol> ::
         Mix(s.children, Fields(bindings[i]), nested) && RenderAll(nested, bindings, f, i + 1, f.children[i])
  }

  ghost predicate Mix(s: seq<Symbol>, x: seq<Symbol>, y: seq<Symbol>) {
    multiset(s) == multiset(x + y)
  }

  /** One symbol for each node of a list. */
  ghost predicate RenderAll(symbols: seq<Symbol>, bindings: seq<Binding>, f: Forest, from: nat, list: seq<nat>)
    requires |f.children| == |bindings| && Downward(f) && from <= |bindings| && Between(list, from, |bindings|)
    decreases |bindings| - from, |list| + 1
  {
    if list == [] then symbols == []
    else
      var last := |list| - 1;
      && |symbols| == |list|
      && Renders(symbols[last], bindings, f, list[last])
      && RenderAll(symbols[..last], bindings, f, from, list[..last])
  }

  lemma RenderOneMore(symbols: seq<Symbol>, s: Symbol, bindings: seq<Binding>, f: Forest, from: nat, list: seq<nat>,
                      k: nat)
    requires |f.children| == |bindings| && Downward(f) && from <= |bindings| && Between(list, from, |bindings|)
    requires k < |list| && RenderAll(symbols, bindings, f, from, list[..k]) && Renders(s, bindings, f, list[k])
    ensures RenderAll(symbols + [s], bindings, f, from, list[..k + 1])
  {
    hide Renders;
    assert list[..k + 1][..k] == list[..k];
    assert |symbols| == k && (symbols + [s])[..k] == symbols;
  }

  method DocumentSymbolFromNode(bindings: seq<Binding>, f: Forest, i: nat) returns (symbol: Symbol)
    requires |f.children| == |bindings| && Downward(f) && i < |bindings|
    ensures Renders(symbol, bindings, f, i)
    decreases |bindings| - i, 0
  {
    hide RenderAll, SortedBy, Fields;
    var nested := DocumentSymbolsFromNodes(bindings, f, i + 1, f.children[i]);
    var children := SortFunc(Fields(bindings[i]) + nested, CompareSymbols);
    assert Mix(children, Fields(bindings[i]), nested);
    symbol := Symbol(bindings[i].name, Struct, bindings[i].range, bindings[i].declarationRange, children);
  }

  method DocumentSymbolsFromNodes(bindings: seq<Binding>, f: Forest, from: nat, list: seq<nat>)
    returns (symbols: seq<Symbol>)
    requires |f.children| == |bindings| && Downward(f) && from <= |bindings| && Between(list, from, |bindings|)
    ensures RenderAll(symbols, bindings, f, from, list)
    decreases |bindings| - from, 1
  {
    symbols := [];
    assert RenderAll(symbols, bindings, f, from, list[..0]);
    assert list[..|list|] == list;
    hide RenderAll, Renders, Downward;
    for k := 0 to |list|
      invariant RenderAll(symbols, bindings, f, from, list[..k])
    {
      var symbol := DocumentSymbolFromNode(bindings, f, list[k]);
      RenderOneMore(symbols, symbol, bindings, f, from, list, k);
      symbols := symbols + [symbol];
    }
  }

  /** The outline of a document: one symbol for each root of the forest over the
      sorted bindings. */
  ghost predicate Outlines(symbols: seq<Symbol>, index: seq<Binding>, bindings: seq<Binding>, forest: Forest) {
    && multiset(bindings) == multiset(index) && Sorted(bindings) && IsOutline(bindings, forest)
    && RenderAll(symbols, bindings, forest, 0, forest.roots)
  }

  method CteDocumentSymbols(index: seq<Binding>) returns (symbols: seq<Symbol>)
    ensures exists bindings, forest :: Outlines(symbols, index, bindings, forest)
  {
    var sorted := SortFunc(index, CompareBindings);
    assert Sorted(sorted);
    var f := BuildForest(sorted);
    symbols := DocumentSymbolsFromNodes(sorted, f, 0, f.roots);
    assert Outlines(symbols, index, sorted, f);
  }

  ghost predicate IsField(s: Symbol, c: Column) {
    s.kind == Field && s.name == c.name && s.range == c.selectionRange && s.selectionRange == c.selectionRange &&
    s.children == []
  }

  /** One field for each column of a known shape, and none for an unknown one. */
  ghost predicate FieldsOf(fields: seq<Symbol>, b: Binding) {
    if b.shapeKnown then |fields| == |b.columns| && forall i :: 0 <= i < |fields| ==> IsField(fields[i], b.columns[i])
    else fields == []
  }

  /** Below the symbol of a binding are its fields and the symbols of its children in the
      forest, and nothing else. */
  lemma RenderedChildren(s: Symbol, bindings: seq<Binding>, f: Forest, i: nat) returns (fields: seq<Symbol>,
      nested: seq<Symbol>)
    requires |f.children| == |bindings| && Downward(f) && i < |bindings| && Renders(s, bindings, f, i)
    ensures FieldsOf(fields, bindings[i]) && RenderAll(nested, bindings, f, i + 1, f.children[i])
    ensures multiset(s.children) == multiset(fields) + multiset(nested)
  {
    fields := Fields(bindings[i]);
    nested :| Mix(s.children, fields, nested) && RenderAll(nested, bindings, f, i + 1, f.children[i]);
    hide Fields, RenderAll, SortedBy;
  }
}
