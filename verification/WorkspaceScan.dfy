/** Loops over maps of documents, whose order is not fixed, and the order of
    strings. */
module WorkspaceScan {
  import opened Syntax
  import opened Sorting

  /** A cleaned absolute path. */
  type Path = string

  /** The path is the folder or lies below it. */
  predicate Inside(root: string, path: Path) {
    root != "" && (path == root || root + "/" <= path || (root == "/" && "/" <= path))
  }

  predicate EqualFold(a: string, b: string) {
    Fold(a) == Fold(b)
  }

  ghost function Tagged<X>(path: Path, found: seq<X>): multiset<(Path, X)> {
    multiset(seq(|found|, i requires 0 <= i < |found| => (path, found[i])))
  }

  /** Everything found in some paths. */
  ghost function Everywhere<X>(paths: set<Path>, found: Path -> seq<X>): multiset<(Path, X)> {
    if paths == {} then multiset{}
    else
      var p :| p in paths;
      Tagged(p, found(p)) + Everywhere(paths - {p}, found)
  }

  /** The paths may be visited in any order. */
  lemma {:induction false} EverywhereSplit<X>(paths: set<Path>, found: Path -> seq<X>, q: Path)
    requires q in paths
    ensures Everywhere(paths, found) == Tagged(q, found(q)) + Everywhere(paths - {q}, found)
  {
    var p :| p in paths && Everywhere(paths, found) == Tagged(p, found(p)) + Everywhere(paths - {p}, found);
    if p != q {
      EverywhereSplit(paths - {p}, found, q);
      EverywhereSplit(paths - {q}, found, p);
      assert paths - {p} - {q} == paths - {q} - {p};
    }
  }

  lemma {:induction false} EverywhereSound<X>(paths: set<Path>, found: Path -> seq<X>, m: (Path, X))
    requires m in Everywhere(paths, found)
    ensures m.0 in paths && m.1 in found(m.0)
  {
    var p :| p in paths && Everywhere(paths, found) == Tagged(p, found(p)) + Everywhere(paths - {p}, found);
    if m in Tagged(p, found(p)) {
      var i :| 0 <= i < |found(p)| && (p, found(p)[i]) == m;
    } else {
      EverywhereSound(paths - {p}, found, m);
    }
  }

  /** The loop over a map of documents: its order is not fixed, what it finds is. */
  method Gather<X>(paths: set<Path>, found: Path -> seq<X>) returns (matches: seq<(Path, X)>)
    ensures multiset(matches) == Everywhere(paths, found)
  {
    matches := [];
    var rest := paths;
    while rest != {}
      invariant rest <= paths
      invariant multiset(matches) + Everywhere(rest, found) == Everywhere(paths, found)
    {
      var p :| p in rest;
      EverywhereSplit(rest, found, p);
      var here := found(p);
      matches := matches + seq(|here|, i requires 0 <= i < |here| => (p, here[i]));
      rest := rest - {p};
    }
  }

  ghost function Only<X>(m: multiset<X>): X
    requires |m| == 1
  {
    var x :| x in m;
    x
  }

  lemma OnlyIs<X>(s: seq<X>, m: multiset<X>)
    requires multiset(s) == m && |s| == 1
    ensures |m| == 1 && Only(m) == s[0]
  {
    assert s == [s[0]];
    assert m == multiset{s[0]};
    assert Only(m) in m;
  }

  lemma TaggedMember<X>(path: Path, found: seq<X>, m: (Path, X))
    ensures m in Tagged(path, found) <==> m.0 == path && m.1 in found
  {
    var s := seq(|found|, i requires 0 <= i < |found| => (path, found[i]));
    if m.0 == path && m.1 in found {
      var i :| 0 <= i < |found| && found[i] == m.1;
      assert s[i] == m;
    }
  }

  lemma {:induction false} EverywhereComplete<X>(paths: set<Path>, found: Path -> seq<X>, m: (Path, X))
    requires m.0 in paths && m.1 in found(m.0)
    ensures m in Everywhere(paths, found)
  {
    EverywhereSplit(paths, found, m.0);
    TaggedMember(m.0, found(m.0), m);
  }

  /** What is found depends on the paths only where something is found. */
  lemma {:induction false} EverywhereWiden<X>(paths: set<Path>, more: set<Path>, found: Path -> seq<X>)
    requires paths <= more && forall p :: p in more - paths ==> found(p) == []
    ensures Everywhere(paths, found) == Everywhere(more, found)
    decreases more
  {
    if paths != more {
      var p :| p in more && p !in paths;
      EverywhereSplit(more, found, p);
      EverywhereWiden(paths, more - {p}, found);
    }
  }

  lemma {:induction false} EverywhereSize<X, Y>(paths: set<Path>, f: Path -> seq<X>, g: Path -> seq<Y>)
    requires forall p :: p in paths ==> |f(p)| == |g(p)|
    ensures |Everywhere(paths, f)| == |Everywhere(paths, g)|
  {
    if paths != {} {
      var p :| p in paths;
      EverywhereSplit(paths, f, p);
      EverywhereSplit(paths, g, p);
      EverywhereSize(paths - {p}, f, g);
    }
  }

  lemma OnlyMember<X>(m: multiset<X>, x: X)
    requires |m| == 1 && x in m
    ensures Only(m) == x
  {
    assert m == multiset{x} + (m - multiset{x});
    assert |m - multiset{x}| == 0;
    assert m == multiset{x};
    assert Only(m) in m;
  }

  /** Two scans that find equally much in each document find their only match at
      the same place. */
  lemma OnlyAlike<X, Y>(paths: set<Path>, f: Path -> seq<X>, g: Path -> seq<Y>) returns (p: Path, i: nat)
    requires forall p :: p in paths ==> |f(p)| == |g(p)|
    requires |Everywhere(paths, f)| == 1
    ensures |Everywhere(paths, g)| == 1
    ensures p in paths && i < |f(p)| && Only(Everywhere(paths, f)) == (p, f(p)[i])
    ensures i < |g(p)| && Only(Everywhere(paths, g)) == (p, g(p)[i])
  {
    EverywhereSize(paths, f, g);
    var m := Only(Everywhere(paths, f));
    EverywhereSound(paths, f, m);
    p := m.0;
    i :| 0 <= i < |f(p)| && f(p)[i] == m.1;
    EverywhereComplete(paths, g, (p, g(p)[i]));
    OnlyMember(Everywhere(paths, g), (p, g(p)[i]));
  }

  // ----- How often something is found -----

  lemma TaggedCount<X(!new)>(path: Path, found: seq<X>, m: (Path, X))
    ensures Tagged(path, found)[m] == if m.0 == path then multiset(found)[m.1] else 0
  {
    var tagged := seq(|found|, i requires 0 <= i < |found| => (path, found[i]));
    SameCount(found, tagged, path, m);
  }

  lemma {:induction false} SameCount<X(!new)>(found: seq<X>, tagged: seq<(Path, X)>, path: Path, m: (Path, X))
    requires |tagged| == |found| && forall i :: 0 <= i < |found| ==> tagged[i] == (path, found[i])
    ensures multiset(tagged)[m] == if m.0 == path then multiset(found)[m.1] else 0
  {
    if found != [] {
      var last := |found| - 1;
      SameCount(found[..last], tagged[..last], path, m);
      assert found == found[..last] + [found[last]] && tagged == tagged[..last] + [tagged[last]];
    }
  }

  /** How often something is found in a document. */
  lemma {:induction false} EverywhereCount<X(!new)>(paths: set<Path>, found: Path -> seq<X>, m: (Path, X))
    ensures Everywhere(paths, found)[m] == if m.0 in paths then multiset(found(m.0))[m.1] else 0
  {
    if m.0 in paths {
      EverywhereSplit(paths, found, m.0);
      TaggedCount(m.0, found(m.0), m);
      if m in Everywhere(paths - {m.0}, found) { EverywhereSound(paths - {m.0}, found, m); }
    } else if m in Everywhere(paths, found) {
      EverywhereSound(paths, found, m);
    }
  }

  lemma OneElement<X>(m: multiset<X>, x: X)
    ensures |m| == 1 && Only(m) == x <==> m == multiset{x}
  {
    if |m| == 1 {
      var y := Only(m);
      assert y in m;
      assert m == multiset{y} + (m - multiset{y});
      assert |m - multiset{y}| == 0;
    }
    if m == multiset{x} { assert Only(m) in m; }
  }

  lemma SameElement<X>(s: set<X>, x: X, y: X)
    requires |s| == 1 && x in s && y in s
    ensures x == y
  {
    assert s == {x} + (s - {x});
    assert |s - {x}| == 0;
    assert y !in s - {x};
  }
}
