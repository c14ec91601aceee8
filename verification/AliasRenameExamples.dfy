/** Two documents in which renaming a table alias passes the conflict test and
    changes what a qualifier means. */
module AliasRenameExamples {
  import opened Coordinates
  import opened Syntax
  import opened Editing
  import opened AliasBindings
  import opened AliasRename
  import Ctes = CteBindings
  import Reindex = AliasReindex
  import AliasReferences
  import SparedBinders

  function At(character: nat): Range {
    Range(Position(0, character), Position(0, character + 1))
  }

  function Leaf(kind: Kind): Node {
    Node(kind, [])
  }

  /** `FROM A AS t, UNNEST(B)`, where the elements and their offset may both be called u. */
  function From(twice: bool): Node {
    Node(Join, [
      Leaf(TableName(Ident("A", At(3)), Some(Ident("t", At(4))))),
      Leaf(if twice then Unnest(Some(Ident("u", At(5))), Some(Ident("u", At(6)))) else Unnest(None, None))])
  }

  /** `SELECT q.x` from it. */
  function Example(q: string, twice: bool): Node {
    Node(Other, [Node(Select(At(0), 1), [Leaf(Path([Ident(q, At(1)), Ident("x", At(2))])), From(twice)])])
  }

  function ExampleAliases(twice: bool): seq<Alias> {
    [Alias(Ident("t", At(4)), FromTable("A"))] +
    if twice then [Alias(Ident("u", At(5)), NoSource), Alias(Ident("u", At(6)), NoSource)] else []
  }

  /** The alias t. */
  function T(): AliasDecl {
    AliasDecl([0], 0)
  }

  lemma ExamplePlaces(q: string, twice: bool, a: Address)
    requires NodeAt(Example(q, twice), a).Some?
    ensures var root := Example(q, twice);
            var n := NodeAt(root, a).value;
            || (a == [] && n == root) || (a == [0] && n == Kids(root)[0])
            || (a == [0, 0] && n == Leaf(Path([Ident(q, At(1)), Ident("x", At(2))])))
            || (n.kind.Join? || n.kind.TableName? || n.kind.Unnest?)
  {
    var root := Example(q, twice);
    Unfold(root, a);
    if a != [] {
      var select, b := Kids(root)[0], a[1..];
      Unfold(select, b);
      if b != [] {
        var c := b[1..];
        Unfold(Kids(select)[b[0]], c);
        if c != [] { Unfold(Kids(Kids(select)[b[0]])[c[0]], c[1..]); }
      }
    }
  }

  lemma ExampleNodes(q: string, twice: bool)
    ensures var root := Example(q, twice);
            && NodeAt(root, []) == Some(root) && NodeAt(root, [0]) == Some(Kids(root)[0])
            && NodeAt(root, [0, 0]) == Some(Leaf(Path([Ident(q, At(1)), Ident("x", At(2))])))
  {
    var root := Example(q, twice);
    NodeAtChild(root, [], 0);
    assert [] + [0] == [0];
    NodeAtChild(root, [0], 0);
    assert [0] + [0] == [0, 0];
  }

  lemma ExampleSiblings(q: string, twice: bool, d: AliasDecl)
    ensures Siblings(Example(q, twice), [], d) == if d.select == [0] then ExampleAliases(twice) else []
  {
    ExampleNodes(q, twice);
    if NodeAt(Example(q, twice), d.select).Some? { ExamplePlaces(q, twice, d.select); }
    assert FromAliases(From(twice), []) == ExampleAliases(twice) by {
      assert FromAliases(Kids(From(twice))[0], []) == [Alias(Ident("t", At(4)), FromTable("A"))];
    }
  }

  lemma ExampleQualifier(q: string, twice: bool, a: Address)
    ensures Qualifier(Example(q, twice), a) == if a == [0, 0] then Some(Ident(q, At(1))) else None
  {
    var root := Example(q, twice);
    ExampleNodes(q, twice);
    if NodeAt(root, a).Some? { ExamplePlaces(q, twice, a); }
    if a == [0, 0] {
      assert a[..1] == [0] && SelectSourceRanges(Kids(root)[0]) == SourceRanges(From(twice)) == {};
    }
  }

  lemma ExampleRanges(q: string, twice: bool)
    ensures DistinctNameRanges(Example(q, twice), [])
  {
    hide Example, Siblings, Qualifier;
    var root := Example(q, twice);
    forall d ensures Siblings(root, [], d) == if d.select == [0] then ExampleAliases(twice) else [] {
      ExampleSiblings(q, twice, d);
    }
    forall a ensures Qualifier(root, a) == if a == [0, 0] then Some(Ident(q, At(1))) else None {
      ExampleQualifier(q, twice, a);
    }
  }

  lemma ExampleKeys()
    ensures Fold("t") == "T" && Fold("u") == "U" && "T" != "U"
  {
    assert "T"[0] != "U"[0];
  }

  lemma ExampleLocals(q: string, twice: bool, p: Address)
    ensures LocalAt(Example(q, twice), [], p, "U") == if twice && p == [0] then Ambiguous else Unbound
    ensures LocalAt(Example(q, twice), [], p, "T") == if p == [0] then Bound(T()) else Unbound
  {
    var aliases := ExampleAliases(twice);
    ExampleKeys();
    ExampleSiblings(q, twice, AliasDecl(p, 0));
    assert Key(aliases[0]) == "T" && (twice ==> Key(aliases[1]) == "U" && Key(aliases[2]) == "U");
    hide Siblings, Key, Fold;
    if p == [0] {
      assert FirstFrom(aliases, 0, "T") == Some(0);
      assert FirstFrom(aliases, 0, "U") == if twice then Some(1) else None;
    }
  }

  /** What the qualifier q.x means. */
  lemma ExampleDenotes(q: string, twice: bool)
    ensures Denotes(Example(q, twice), [], [0, 0]) == LocalAt(Example(q, twice), [], [0], Fold(q)) ||
            Fold(q) !in {"T", "U"}
  {
    var root, a: Address, s: Address := Example(q, twice), [0, 0], [0];
    assert a[..1] == s && s[..0] == [];
    ExampleQualifier(q, twice, a);
    ExampleLocals(q, twice, []);
    hide LocalAt, ResolveAlias, Qualifier, Example;
    StepOut(root, [], a, Fold(q));
    StepOut(root, [], s, Fold(q));
    StepOut(root, [], [], Fold(q));
  }

  lemma ExampleOldKey(q: string, twice: bool)
    ensures T().index < |Siblings(Example(q, twice), [], T())| && OldKey(Example(q, twice), [], T()) == "T"
  {
    ExampleSiblings(q, twice, T());
    ExampleKeys();
  }

  lemma NeverBound(root: Node, ctes: seq<Ctes.CteSite>, key: string, p: Address)
    requires forall p: Address :: !LocalAt(root, ctes, p, key).Bound?
    ensures !Inside(root, p, key, ctes).Bound?
  {
    var s := NearestExists(root, ctes, p, key);
    hide LocalAt, ResolveAlias;
    InsideByLocal(root, ctes, p, key);
  }

  ghost predicate Passes(index: AliasIndex, b: nat, newName: string) {
    !exists i :: 0 <= i < |index.scopes| && Conflict(index.scopes[i], b, newName)
  }

  lemma ExampleCannotCollide(q: string, twice: bool)
    ensures NoCollision(Example(q, twice), [], T(), "U")
  {
    var root := Example(q, twice);
    forall r: Address ensures !LocalAt(root, [], r, "U").Bound? { ExampleLocals(q, twice, r); }
    hide LocalAt, Inside, Example;
    forall p: Address ensures !Inside(root, p, "U", []).Bound? { NeverBound(root, [], "U", p); }
  }

  /** The alias t of such a document may be renamed to u, says the test. */
  lemma ExamplePasses(q: string, twice: bool, index: AliasIndex) returns (b: nat)
    requires IsIndexOf(index, Example(q, twice), [])
    ensures b < |index.bindings| && index.bindings[b].name == "t" && !index.bindings[b].ambiguous &&
            Passes(index, b, "u")
    ensures Renaming(Example(q, twice), [], T(), EditedRanges(Edits(index.bindings[b], "u")))
    ensures NoCollision(Example(q, twice), [], T(), "U")
  {
    hide Represents, Expected, Decls, Example, Conflict, Renaming, DistinctNameRanges, Siblings, Fold, Collides;
    var root := Example(q, twice);
    ExampleSiblings(q, twice, T());
    ExampleSiblings(q, twice, AliasDecl([0], 0));
    ExampleRanges(q, twice);
    ExampleCannotCollide(q, twice);
    b := SiblingIsDeclared(root, [], [0], 0);
    Reindex.IndexBindings(index, root, []);
    var walked: AliasIndex :| IsSorted(index, walked) && Represents(walked, root, [], Expected(root, []));
    DuplicateLaw(walked, root, [], b);
    ExampleKeys();
    assert Key(ExampleAliases(twice)[0]) == "T" &&
      (twice ==> Key(ExampleAliases(twice)[1]) == Key(ExampleAliases(twice)[2]) == "U");
    if i :| 0 <= i < |index.scopes| && Conflict(index.scopes[i], b, "u") {
      var p, key := CollisionIsConflict(walked, root, [], b, "u", i);
      assert false;
    }
    EditsAreExact(walked, root, [], b, "u");
  }

  /** `SELECT u.x FROM A AS t, UNNEST(B)`: the test lets t be renamed to u, and u.x,
      which meant nothing, then means the alias. */
  lemma PassedTestCanCapture(index: AliasIndex) returns (b: nat)
    requires IsIndexOf(index, Example("u", false), [])
    ensures b < |index.bindings| && index.bindings[b].name == "t" && !index.bindings[b].ambiguous &&
            Passes(index, b, "u")
    ensures var root, edits := Example("u", false), EditedRanges(Edits(index.bindings[b], "u"));
            Denotes(root, [], [0, 0]) == Unbound && Denotes(Edit(root, edits, "u"), [], [0, 0]) == Bound(T())
  {
    hide Example, LocalAt, Qualifier, ResolveAlias, Renaming, NoCollision, Siblings, OldKey, Edit, Inside, IsIndexOf;
    var root, a: Address := Example("u", false), [0, 0];
    b := ExamplePasses("u", false, index);
    ExampleKeys();
    ExampleDenotes("u", false);
    ExampleQualifier("u", false, a);
    ExampleOldKey("u", false);
    forall p: Address ensures LocalAt(root, [], p, "U").Unbound? { ExampleLocals("u", false, p); }
    assert Captured(root, [], T(), "U", a);
    Reindex.CapturedIsBound(root, [], T(), EditedRanges(Edits(index.bindings[b], "u")), "u", a);
  }

  /** `SELECT t.x FROM A AS t, UNNEST(B) AS u WITH OFFSET AS u`: the test lets t be
      renamed to u, and u.x is then ambiguous. */
  lemma PassedTestCanDouble(index: AliasIndex) returns (b: nat)
    requires IsIndexOf(index, Example("t", true), [])
    ensures b < |index.bindings| && index.bindings[b].name == "t" && !index.bindings[b].ambiguous &&
            Passes(index, b, "u")
    ensures var root, edits := Example("t", true), EditedRanges(Edits(index.bindings[b], "u"));
            Denotes(root, [], [0, 0]) == Bound(T()) && Denotes(Edit(root, edits, "u"), [], [0, 0]) == Ambiguous
  {
    hide Example, LocalAt, Qualifier, ResolveAlias, Renaming, NoCollision, Siblings, OldKey, Edit, Inside, IsIndexOf;
    var root, a: Address := Example("t", true), [0, 0];
    b := ExamplePasses("t", true, index);
    ExampleKeys();
    ExampleDenotes("t", true);
    ExampleQualifier("t", true, a);
    ExampleOldKey("t", true);
    forall p: Address
      ensures LocalAt(root, [], p, "U") == if p == [0] then Ambiguous else Unbound
      ensures p == [0] ==> LocalAt(root, [], p, "T") == Bound(T())
    {
      ExampleLocals("t", true, p);
    }
    var edits := EditedRanges(Edits(index.bindings[b], "u"));
    assert OnPath([0], [0], a);
    EditedDenotes(root, [], T(), edits, "u", a);
    NewNameLookup(root, [], T(), edits, "u", a);
  }

  // ----- The qualifier of a star -----

  /** `SELECT q.* FROM A AS q`. */
  function Star(q: string): Node {
    Node(Other, [Node(Select(At(0), 1), [
      Leaf(DotStar(Some(Ident(q, At(1))))), Leaf(TableName(Ident("A", At(3)), Some(Ident(q, At(4)))))])])
  }

  lemma StarNodes(a: Address)
    ensures NodeAt(Star("t"), a) == var root := Star("t");
              if a == [] then Some(root)
              else if a == [0] then Some(Kids(root)[0])
              else if a == [0, 0] then Some(Kids(Kids(root)[0])[0])
              else if a == [0, 1] then Some(Kids(Kids(root)[0])[1])
              else None
  {
    var root := Star("t");
    Unfold(root, a);
    if a != [] && a[0] == 0 {
      var select, b := Kids(root)[0], a[1..];
      Unfold(select, b);
      if b != [] && b[0] < 2 { Unfold(Kids(select)[b[0]], b[1..]); }
    }
  }

  lemma StarQualifier(a: Address, i: Ident)
    ensures AliasReferences.Qualifies(Star("t"), a, i) <==> a == [0, 0] && i == Ident("t", At(1))
  {
    StarNodes(a);
  }

  lemma StarSiblings(p: Address, index: nat)
    ensures Siblings(Star("t"), [], AliasDecl(p, index)) ==
            if p == [0] then [Alias(Ident("t", At(4)), FromTable("A"))] else []
  {
    StarNodes(p);
  }

  lemma StarResolves()
    ensures ResolveAlias(Star("t"), [0, 0], "T", []) == Bound(T())
  {
    var aliases := [Alias(Ident("t", At(4)), FromTable("A"))];
    StarSiblings([0], 0);
    ExampleKeys();
    assert Key(aliases[0]) == "T";
    assert FirstFrom(aliases, 0, "T") == Some(0) && FirstFrom(aliases, 1, "T").None?;
    assert LocalAt(Star("t"), [], [0], "T") == Bound(T());
    assert ([0, 0])[..1] == [0];
    hide LocalAt, ResolveAlias, Star;
    StepOut(Star("t"), [], [0, 0], "T");
  }

  /** `SELECT t.* FROM A AS t`: the star is a reference to t, and renaming t to u rewrites both. */
  lemma StarIsRenamed(index: AliasIndex) returns (b: nat)
    requires IsIndexOf(index, Star("t"), [])
    ensures b < |index.bindings| && index.bindings[b].name == "t" && index.bindings[b].declarationRange == At(4)
    ensures forall r :: r in index.bindings[b].referenceRanges <==> r == At(1)
    ensures Edit(Star("t"), EditedRanges(Edits(index.bindings[b], "u")), "u") == Star("u")
  {
    hide IsIndexOf, Decls, Siblings, Star, ResolveAlias, AliasReferences.Qualifies;
    var root := Star("t");
    StarSiblings([0], 0);
    StarResolves();
    ExampleKeys();
    b := SiblingIsDeclared(root, [], [0], 0);
    SparedBinders.IndexDecls(index, root, []);
    forall a, i ensures AliasReferences.Qualifies(root, a, i) <==> a == [0, 0] && i == Ident("t", At(1)) {
      StarQualifier(a, i);
    }
    forall r ensures r in index.bindings[b].referenceRanges <==> r == At(1) {
      AliasReferences.ReferredIff(index, root, [], b, r);
      assert r == At(1) ==> AliasReferences.BoundTo(root, [], [0, 0], Ident("t", r), T());
    }
    forall r ensures r in EditedRanges(Edits(index.bindings[b], "u")) <==> r == At(4) || r == At(1) {
      EditedRangesAre(index.bindings[b], "u", r);
    }
    StarEdited(EditedRanges(Edits(index.bindings[b], "u")));
  }

  lemma StarEdited(edits: set<Range>)
    requires forall r :: r in edits <==> r == At(4) || r == At(1)
    ensures Edit(Star("t"), edits, "u") == Star("u")
  {
    var select := Kids(Star("t"))[0];
    assert Edit(Kids(select)[0], edits, "u") == Kids(Kids(Star("u"))[0])[0];
    assert Edit(Kids(select)[1], edits, "u") == Kids(Kids(Star("u"))[0])[1];
    EditKids(select, edits, "u");
    assert Edit(select, edits, "u") == Kids(Star("u"))[0];
    EditKids(Star("t"), edits, "u");
  }
}
