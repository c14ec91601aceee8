/** Two SELECTs in which renaming an alias of the list passes the conflict test and
    changes what a use in a clause means. */
module SelectAliasRenameExamples {
  import opened Coordinates
  import opened Syntax
  import opened Editing
  import opened SelectAliases
  import opened SelectAliasRename
  import Tables = AliasBindings
  import Rename = AliasRename
  import Ctes = CteBindings

  // ----- A name that meant nothing -----

  function At(character: nat): Range {
    Range(Position(0, character), Position(0, character + 1))
  }

  /** The list of `SELECT a AS t FROM A GROUP BY u`. */
  function ExampleAliases(name: string): seq<Alias> {
    [Alias(Ident(name, At(1)), true)]
  }

  function ExampleUses(): seq<Use> {
    [Bare(Ident("u", At(2)))]
  }

  lemma ExampleScope()
    ensures Fold("t") == "T" && Fold("u") == "U" && "T" != "U"
    ensures ScopeIs(map["T" := Some(0)], ExampleAliases("t")) && !Conflicts(map["T" := Some(0)], 0, "u")
  {
    assert "T"[0] != "U"[0];
    var aliases := ExampleAliases("t");
    assert Key(aliases[0]) == "T";
    hide Fold;
    forall key ensures EntryIs(map["T" := Some(0)], aliases, key) {
      assert Has(aliases, key) <==> key == "T";
    }
  }

  lemma ExampleReferences(index: SelectIndex, name: string, tables: seq<Tables.AliasSite>)
    requires IsIndexOf(index, ExampleAliases(name), AllEvents(ExampleAliases(name), tables, ExampleUses()))
    ensures |index.bindings| == 1 && !index.bindings[0].ambiguous && index.bindings[0].declarationRange == At(1)
    ensures index.bindings[0].referenceRanges == if Fold(name) == Fold("u") then [At(2)] else []
  {
    var aliases, uses := ExampleAliases(name), ExampleUses();
    var log := AllEvents(aliases, tables, uses);
    OneUse(aliases, tables, uses[0]);
    assert BindingIs(index.bindings[0], aliases, 0, log);
    hide Fold;
    assert Key(aliases[0]) == Fold(name);
    assert Has(aliases, Fold("u")) <==> Fold(name) == Fold("u");
    if Fold(name) == Fold("u") {
      assert Unique(aliases, Fold("u"), 0);
      assert log == [Refers(0, At(2))] && log[..0] == [];
      assert ReferencesTo(log, 0) == ReferencesTo(log[..0], 0) + [At(2)];
      assert [] + [At(2)] == [At(2)];
    }
  }

  /** GROUP BY u meant no alias; the test lets t be renamed to u, and then it does. */
  lemma PassedTestCanCapture(index: SelectIndex, index': SelectIndex, tables: seq<Tables.AliasSite>)
    requires IsIndexOf(index, ExampleAliases("t"), AllEvents(ExampleAliases("t"), tables, ExampleUses()))
    requires |index.bindings| == 1 ==>
               var edits := EditsOf(index.bindings[0]);
               var aliases, uses := EditAliases(ExampleAliases("t"), edits, "u"), EditUses(ExampleUses(), edits, "u");
               IsIndexOf(index', aliases, AllEvents(aliases, tables, uses))
    ensures ScopeIs(map["T" := Some(0)], ExampleAliases("t")) && !Conflicts(map["T" := Some(0)], 0, "u")
    ensures |index.bindings| == |index'.bindings| == 1 && !index.bindings[0].ambiguous
    ensures index.bindings[0].referenceRanges == [] && index'.bindings[0].referenceRanges == [At(2)]
  {
    ExampleScope();
    hide AllEvents, IsIndexOf, Fold;
    ExampleReferences(index, "t", tables);
    var edits := EditsOf(index.bindings[0]);
    assert EditAliases(ExampleAliases("t"), edits, "u") == ExampleAliases("u");
    assert EditUses(ExampleUses(), edits, "u") == ExampleUses();
    ExampleReferences(index', "u", tables);
  }

  // ----- A path that falls to a table alias -----

  /** `SELECT s AS t FROM A AS u GROUP BY t.x`; the item s is no path. */
  function FallExample(): Node {
    Node(Other, [Node(Select(At(0), 1), [
      Node(Other, []),
      Node(TableName(Ident("A", At(6)), Some(Ident("u", At(9)))), []),
      Node(Path(FallPath("t")), [])])])
  }

  function FallPath(head: string): seq<Ident> {
    [Ident(head, At(12)), Ident("x", At(14))]
  }

  function FallUses(head: string): seq<Use> {
    [Headed(FallPath(head))]
  }

  function FallPlace(): Address {
    [0, 2]
  }

  lemma FallNodes(a: Address)
    ensures var root := FallExample();
            && NodeAt(root, [0]) == Some(Kids(root)[0])
            && NodeAt(root, FallPlace()) == Some(Node(Path(FallPath("t")), []))
            && (NodeAt(root, a).Some? && a != [0] && a != FallPlace() ==>
                  NodeAt(root, a).value.kind.Other? || NodeAt(root, a).value.kind.TableName?)
  {
    var root := FallExample();
    Unfold(root, []);
    NodeAtChild(root, [], 0);
    assert [] + [0] == [0];
    NodeAtChild(root, [0], 2);
    assert [0] + [2] == FallPlace();
    Unfold(root, a);
    if a != [] && NodeAt(root, a).Some? {
      var select, b := Kids(root)[0], a[1..];
      Unfold(select, b);
      if b != [] {
        Unfold(Kids(select)[b[0]], b[1..]);
        assert a == [0, b[0]];
      }
    }
  }

  lemma FallSiblings(d: Tables.AliasDecl)
    ensures Tables.Siblings(FallExample(), [], d) ==
            if d.select == [0] then [Tables.Alias(Ident("u", At(9)), Tables.FromTable("A"))] else []
  {
    FallNodes(d.select);
  }

  lemma FallQualifier(a: Address)
    ensures Tables.Qualifier(FallExample(), a) == if a == FallPlace() then Some(Ident("t", At(12))) else None
  {
    FallNodes(a);
    if a == FallPlace() {
      assert a[..1] == [0];
      assert Tables.SourcesAround(FallExample(), a) == {};
    }
  }

  lemma FallNames()
    ensures NamesApart(FallExample(), [], ExampleAliases("t"), FallUses("t"), [FallPlace()])
  {
    var root, use := FallExample(), Headed(FallPath("t"));
    forall p, j: nat, name
      ensures DeclaredName(root, [], p, j, name) <==> p == [0] && j == 0 && name == Ident("u", At(9))
    {
      FallSiblings(Tables.AliasDecl(p, j));
    }
    forall b ensures Tables.Qualifier(root, b) == if b == FallPlace() then Some(Ident("t", At(12))) else None {
      FallQualifier(b);
    }
    hide FallExample, DeclaredName, Tables.Qualifier;
    assert Alone(root, [], use, FallPlace());
  }

  /** At the path t denotes no table alias, and u denotes one. */
  lemma FallDenotes()
    ensures Tables.ResolveAlias(FallExample(), FallPlace(), "T", []).Unbound?
    ensures Tables.ResolveAlias(FallExample(), FallPlace(), "U", []) == Tables.Bound(Tables.AliasDecl([0], 0))
  {
    var root, a, s: Address := FallExample(), FallPlace(), [0];
    ExampleScope();
    forall p: Address, key: string | key == "T" || key == "U"
      ensures Tables.LocalAt(root, [], p, key) ==
              if p == s && key == "U" then Tables.Bound(Tables.AliasDecl(s, 0)) else Tables.Unbound
    {
      FallSiblings(Tables.AliasDecl(p, 0));
    }
    assert a[..1] == s && s[..0] == [];
    hide FallExample, Tables.LocalAt, Tables.ResolveAlias;
    Tables.StepOut(root, [], a, "T");
    Tables.StepOut(root, [], a, "U");
    Tables.StepOut(root, [], s, "T");
    Tables.StepOut(root, [], [], "T");
  }

  lemma FallRecorded(index: SelectIndex, name: string, tables: seq<Tables.AliasSite>)
    requires IsIndexOf(index, ExampleAliases(name), AllEvents(ExampleAliases(name), tables, FallUses(name)))
    ensures |index.bindings| == 1 && !index.bindings[0].ambiguous && index.bindings[0].declarationRange == At(1)
    ensures var owned := Owned(tables, FallUses(name)[0]);
            && index.bindings[0].referenceRanges == (if owned then [] else [At(12)])
            && index.ambiguousPaths == if owned then [PathRange(FallPath(name))] else []
  {
    var aliases, use := ExampleAliases(name), FallUses(name)[0];
    var log := AllEvents(aliases, tables, FallUses(name));
    OneUse(aliases, tables, use);
    EventsByHead(aliases, tables, use);
    assert BindingIs(index.bindings[0], aliases, 0, log);
    hide Fold, Owned, PathRange;
    if !Owned(tables, use) {
      assert Key(aliases[0]) == Fold(name);
      assert Unique(aliases, Fold(name), 0);
      assert log == [Refers(0, At(12))];
    }
    assert log == [log[0]] && log[..0] == [];
    assert ReferencesTo(log[..0], 0) == [] && AmbiguousRanges(log[..0]) == [];
  }

  /** Before the edit t heads no path of a table alias. */
  lemma FallBefore(tables: Tables.AliasIndex)
    requires Tables.IsIndexOf(tables, FallExample(), [])
    ensures !Owned(tables.sites, FallUses("t")[0])
  {
    hide FallExample, Fold, Tables.IsIndexOf, Tables.ResolveAlias, Alone, Owned, Tables.Qualifier, DeclaredName;
    ExampleScope();
    FallNames();
    FallQualifier(FallPlace());
    FallDenotes();
    OwnedIff(tables, FallExample(), [], FallUses("t")[0], FallPlace());
  }

  /** After the edit u does. */
  lemma FallAfter(tables': Tables.AliasIndex, ctes': seq<Ctes.CteSite>, edits: set<Range>)
    requires edits == {At(1), At(12)} && SparesTables(FallExample(), [], edits)
    requires Tables.IsIndexOf(tables', Edit(FallExample(), edits, "u"), ctes')
    ensures Owned(tables'.sites, FallUses("u")[0])
  {
    hide FallExample, Fold, Edit, Tables.IsIndexOf, Tables.ResolveAlias, Alone, Owned, Tables.Qualifier, DeclaredName,
      SparesTables;
    var root, a, use := FallExample(), FallPlace(), FallUses("t")[0];
    ExampleScope();
    FallNames();
    FallQualifier(a);
    FallDenotes();
    FallEdited(edits);
    EditedAlone(root, [], ctes', use, a, edits, "u");
    OwnedIff(tables', Edit(root, edits, "u"), ctes', FallUses("u")[0], a);
    EditedHeadDenotes(root, [], ctes', use, a, edits, "u");
  }

  lemma OneReference(b: Binding)
    requires b.declarationRange == At(1) && b.referenceRanges == [At(12)]
    ensures EditsOf(b) == {At(1), At(12)}
  {
    assert b.referenceRanges[0] == At(12);
  }

  lemma FallEdits(index: SelectIndex, tables: seq<Tables.AliasSite>)
    requires IsIndexOf(index, ExampleAliases("t"), AllEvents(ExampleAliases("t"), tables, FallUses("t")))
    requires !Owned(tables, FallUses("t")[0])
    ensures |index.bindings| == 1 && EditsOf(index.bindings[0]) == {At(1), At(12)}
    ensures SparesTables(FallExample(), [], EditsOf(index.bindings[0]))
  {
    hide FallExample, AllEvents, IsIndexOf, Alone, Owned, SparesTables, DeclaredName, EditsOf;
    FallRecorded(index, "t", tables);
    OneReference(index.bindings[0]);
    FallNames();
    IndexOfOne(index, tables);
    EditsSpareTables(FallExample(), [], index, ExampleAliases("t"), tables, FallUses("t"), [FallPlace()], 0);
  }

  /** GROUP BY t.x refers to the SELECT alias t; the test lets t be renamed to u, and
      the path is then one of the table alias u. */
  lemma PassedTestCanFall(tables: Tables.AliasIndex, tables': Tables.AliasIndex, ctes': seq<Ctes.CteSite>,
                          index: SelectIndex, index': SelectIndex)
    requires Tables.IsIndexOf(tables, FallExample(), [])
    requires IsIndexOf(index, ExampleAliases("t"), AllEvents(ExampleAliases("t"), tables.sites, FallUses("t")))
    requires |index.bindings| == 1 ==>
               var edits := EditsOf(index.bindings[0]);
               var aliases, uses := EditAliases(ExampleAliases("t"), edits, "u"), EditUses(FallUses("t"), edits, "u");
               && Tables.IsIndexOf(tables', Edit(FallExample(), edits, "u"), ctes')
               && IsIndexOf(index', aliases, AllEvents(aliases, tables'.sites, uses))
    ensures ScopeIs(map["T" := Some(0)], ExampleAliases("t")) && !Conflicts(map["T" := Some(0)], 0, "u")
    ensures |index.bindings| == |index'.bindings| == 1 && !index.bindings[0].ambiguous
    ensures index.bindings[0].referenceRanges == [At(12)] && index.ambiguousPaths == []
    ensures index'.bindings[0].referenceRanges == [] && index'.ambiguousPaths == [PathRange(FallPath("t"))]
  {
    hide FallExample, AllEvents, IsIndexOf, Fold, Edit, Tables.IsIndexOf, Owned, ScopeIs, Conflicts, SparesTables,
      EditsOf, EditAliases, EditUses;
    ExampleScope();
    FallBefore(tables);
    FallEdits(index, tables.sites);
    FallRecorded(index, "t", tables.sites);
    FallEdited(EditsOf(index.bindings[0]));
    FallAfter(tables', ctes', EditsOf(index.bindings[0]));
    FallRecorded(index', "u", tables'.sites);
  }

  lemma IndexOfOne(index: SelectIndex, tables: seq<Tables.AliasSite>)
    requires IsIndexOf(index, ExampleAliases("t"), AllEvents(ExampleAliases("t"), tables, FallUses("t")))
    ensures |index.bindings| == |ExampleAliases("t")|
  {}

  lemma FallEdited(edits: set<Range>)
    requires edits == {At(1), At(12)}
    ensures EditAliases(ExampleAliases("t"), edits, "u") == ExampleAliases("u")
    ensures EditUses(FallUses("t"), edits, "u") == FallUses("u")
    ensures EditUse(FallUses("t")[0], edits, "u") == FallUses("u")[0]
    ensures PathRange(FallPath("u")) == PathRange(FallPath("t"))
  {
    assert EditIdents(FallPath("t"), edits, "u") == FallPath("u");
    assert EditAliases(ExampleAliases("t"), edits, "u") == ExampleAliases("u");
    assert EditUses(FallUses("t"), edits, "u") == FallUses("u");
  }
}
