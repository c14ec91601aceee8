/** Edits that rename several aliases of SELECT lists at once, all of one name: exactly
    when the aliases, their references and the ambiguous uses stay what they were. */
module SelectAliasEdits {
  import opened Coordinates
  import opened Syntax
  import opened Editing
  import opened SelectAliases
  import opened SelectAliasRename

  // ----- The names of one SELECT list -----

  ghost predicate Edited(aliases: seq<Alias>, edits: set<Range>, i: nat) {
    i < |aliases| && aliases[i].ident.range in edits
  }

  /** The alias bears the key and keeps its name. */
  ghost predicate Stays(aliases: seq<Alias>, edits: set<Range>, key: string, i: nat) {
    i < |aliases| && aliases[i].ident.range !in edits && Key(aliases[i]) == key
  }

  ghost predicate Any(aliases: seq<Alias>, edits: set<Range>, key: string) {
    exists i: nat :: Stays(aliases, edits, key, i)
  }

  ghost predicate Several(aliases: seq<Alias>, edits: set<Range>, key: string) {
    exists i: nat, j: nat :: i != j && Stays(aliases, edits, key, i) && Stays(aliases, edits, key, j)
  }

  /** The renamed aliases of the list all bear the key. */
  ghost predicate OneName(aliases: seq<Alias>, edits: set<Range>, key: string) {
    forall i: nat :: Edited(aliases, edits, i) ==> Key(aliases[i]) == key
  }

  ghost predicate Touched(aliases: seq<Alias>, edits: set<Range>) {
    exists i: nat :: Edited(aliases, edits, i)
  }

  /** A name keeps its meaning where the list changes: names other than the old and the
      new one do, and these two where several bearers stay. */
  ghost predicate NameStays(aliases: seq<Alias>, edits: set<Range>, was: string, next: string, key: string) {
    Touched(aliases, edits) && was != next ==>
      (key == was ==> Several(aliases, edits, was)) && (key == next ==> Several(aliases, edits, next))
  }

  /** No alias becomes ambiguous, and none ceases to be. */
  ghost predicate FlagsStay(aliases: seq<Alias>, edits: set<Range>, was: string, next: string) {
    Touched(aliases, edits) && was != next ==>
      && (Any(aliases, edits, was) ==> Several(aliases, edits, was))
      && (Any(aliases, edits, next) ==> Several(aliases, edits, next))
      && ((forall i: nat, j: nat :: Edited(aliases, edits, i) && Edited(aliases, edits, j) ==> i == j) ==>
            (Any(aliases, edits, was) <==> Any(aliases, edits, next)))
  }

  lemma KeyAfter(aliases: seq<Alias>, edits: set<Range>, newName: string, i: nat)
    requires i < |aliases|
    ensures Key(EditAliases(aliases, edits, newName)[i]) ==
            if Edited(aliases, edits, i) then Fold(newName) else Key(aliases[i])
  {}

  /** Who bears a key after the edit. */
  lemma BearsAfter(aliases: seq<Alias>, edits: set<Range>, was: string, newName: string, key: string, i: nat)
    requires OneName(aliases, edits, was) && i < |aliases|
    ensures Key(EditAliases(aliases, edits, newName)[i]) == key <==>
            Stays(aliases, edits, key, i) || (Edited(aliases, edits, i) && key == Fold(newName))
    ensures Key(aliases[i]) == key <==> Stays(aliases, edits, key, i) || (Edited(aliases, edits, i) && key == was)
  {
    KeyAfter(aliases, edits, newName, i);
    hide Fold, EditAliases, Key;
  }

  /** Two lists say the same of a name exactly when one alias or several bear it in both. */
  lemma SameMeaning(x: seq<Alias>, y: seq<Alias>, ident: Ident)
    requires |x| == |y|
    ensures ByName(x, ident) == ByName(y, ident) <==>
            (Has(x, Fold(ident.name)) <==> Has(y, Fold(ident.name))) &&
            forall i: nat :: Unique(x, Fold(ident.name), i) <==> Unique(y, Fold(ident.name), i)
  {
    ByNameRange(x, ident);
    ByNameRange(y, ident);
    hide Fold;
    var key := Fold(ident.name);
    if i: nat :| Unique(x, key, i) { assert Refers(i, ident.range) in ByName(x, ident); }
    if i: nat :| Unique(y, key, i) { assert Refers(i, ident.range) in ByName(y, ident); }
    if ByName(x, ident) == ByName(y, ident) {
      forall i: nat ensures Unique(x, key, i) <==> Unique(y, key, i) {
        assert Unique(x, key, i) <==> Refers(i, ident.range) in ByName(x, ident);
        assert Unique(y, key, i) <==> Refers(i, ident.range) in ByName(y, ident);
      }
    }
    if (Has(x, key) <==> Has(y, key)) && forall i: nat :: Unique(x, key, i) <==> Unique(y, key, i) {
      if i: nat :| Unique(x, key, i) {
        var k: nat :| Unique(x, key, k) && ByName(x, ident) == [Refers(k, ident.range)];
        var l: nat :| Unique(y, key, l) && ByName(y, ident) == [Refers(l, ident.range)];
        UniqueOnce(x, key, i, k);
        UniqueOnce(y, key, i, l);
      }
    }
  }

  /** A name that is not edited keeps its meaning under exactly that condition. */
  lemma MeaningStays(aliases: seq<Alias>, edits: set<Range>, was: string, newName: string, ident: Ident)
    requires OneName(aliases, edits, was)
    ensures ByName(EditAliases(aliases, edits, newName), ident) == ByName(aliases, ident) <==>
            NameStays(aliases, edits, was, Fold(newName), Fold(ident.name))
  {
    var y, key := EditAliases(aliases, edits, newName), Fold(ident.name);
    SameMeaning(y, aliases, ident);
    hide Fold, EditAliases, Key, Edited, Stays, ByName, OneName;
    forall i: nat | i < |aliases|
      ensures Key(y[i]) == key <==>
              Stays(aliases, edits, key, i) || (Edited(aliases, edits, i) && key == Fold(newName))
      ensures Key(aliases[i]) == key <==> Stays(aliases, edits, key, i) || (Edited(aliases, edits, i) && key == was)
    {
      BearsAfter(aliases, edits, was, newName, key, i);
    }
    forall i: nat ensures Stays(aliases, edits, key, i) ==>
        i < |aliases| && !Edited(aliases, edits, i) { StayInRange(aliases, edits, key, i); }
    forall i: nat ensures Edited(aliases, edits, i) ==> i < |aliases| { EditedInRange(aliases, edits, i); }
    MeaningByBearers(aliases, y, edits, was, Fold(newName), key);
  }

  lemma StayInRange(aliases: seq<Alias>, edits: set<Range>, key: string, i: nat)
    ensures Stays(aliases, edits, key, i) ==> i < |aliases| && !Edited(aliases, edits, i)
  {}

  lemma EditedInRange(aliases: seq<Alias>, edits: set<Range>, i: nat)
    ensures Edited(aliases, edits, i) ==> i < |aliases|
  {}

  lemma MeaningByBearers(x: seq<Alias>, y: seq<Alias>, edits: set<Range>, was: string, next: string, key: string)
    requires |y| == |x|
    requires forall i: nat :: i < |x| ==>
             (Key(y[i]) == key <==> Stays(x, edits, key, i) || (Edited(x, edits, i) && key == next))
    requires forall i: nat :: i < |x| ==>
             (Key(x[i]) == key <==> Stays(x, edits, key, i) || (Edited(x, edits, i) && key == was))
    requires forall i: nat :: Stays(x, edits, key, i) ==> i < |x| && !Edited(x, edits, i)
    requires forall i: nat :: Edited(x, edits, i) ==> i < |x|
    ensures (Has(y, key) <==> Has(x, key)) && (forall i: nat :: Unique(y, key, i) <==> Unique(x, key, i)) <==>
            NameStays(x, edits, was, next, key)
  {
    hide Key, Stays, Edited;
    if !Touched(x, edits) || was == next || (key != was && key != next) {
      assert forall i: nat :: i < |x| ==> (Key(y[i]) == key <==> Key(x[i]) == key);
    } else {
      var m: nat :| Edited(x, edits, m);
      if Several(x, edits, key) {
        var i: nat, j: nat :| i != j && Stays(x, edits, key, i) && Stays(x, edits, key, j);
        assert Key(x[i]) == key && Key(y[i]) == key && Key(x[j]) == key && Key(y[j]) == key;
      } else if i: nat :| Stays(x, edits, key, i) {
        assert Key(x[i]) == key && Key(y[i]) == key;
        if key == was {
          assert Key(x[m]) == key;
          assert Unique(y, key, i) && !Unique(x, key, i);
        } else {
          assert Key(y[m]) == key;
          assert Unique(x, key, i) && !Unique(y, key, i);
        }
      } else {
        assert Key(x[m]) == key <==> key == was;
        assert Key(y[m]) == key <==> key == next;
        assert Has(y, key) != Has(x, key);
      }
    }
  }

  // ----- Ambiguity -----

  /** The second list is the first one with its renamed aliases named anew. */
  ghost predicate After(x: seq<Alias>, y: seq<Alias>, edits: set<Range>, was: string, next: string) {
    && |y| == |x| && OneName(x, edits, was)
    && forall i: nat :: i < |x| ==> Key(y[i]) == if Edited(x, edits, i) then next else Key(x[i])
  }

  /** The flags stay under exactly that condition. */
  lemma FlagsStayIff(aliases: seq<Alias>, edits: set<Range>, was: string, newName: string)
    requires OneName(aliases, edits, was)
    ensures (forall i: nat :: i < |aliases| ==>
              (Duplicate(EditAliases(aliases, edits, newName), i) <==> Duplicate(aliases, i))) <==>
            FlagsStay(aliases, edits, was, Fold(newName))
  {
    var x, y, next := aliases, EditAliases(aliases, edits, newName), Fold(newName);
    forall i: nat | i < |x|
      ensures Key(y[i]) == if Edited(x, edits, i) then next else Key(x[i]) { KeyAfter(x, edits, newName, i); }
    assert After(x, y, edits, was, next);
    hide Fold, EditAliases, Key;
    if !Touched(x, edits) || was == next {
      assert forall i: nat :: i < |x| ==> Key(y[i]) == Key(x[i]);
    } else {
      hide After, FlagsStay, Duplicate;
      if forall i: nat :: i < |x| ==> (Duplicate(y, i) <==> Duplicate(x, i)) { FlagsNeeded(x, y, edits, was, next); }
      if FlagsStay(x, edits, was, next) {
        forall i: nat | i < |x| ensures Duplicate(y, i) <==> Duplicate(x, i) {
          if Edited(x, edits, i) {
            RenamedFlag(x, y, edits, was, next, i); } else { StayingFlag(x, y, edits, was, next, i);
          }
        }
      }
    }
  }

  lemma FlagsNeeded(x: seq<Alias>, y: seq<Alias>, edits: set<Range>, was: string, next: string)
    requires After(x, y, edits, was, next) && Touched(x, edits) && was != next
    requires forall i: nat :: i < |x| ==> (Duplicate(y, i) <==> Duplicate(x, i))
    ensures FlagsStay(x, edits, was, next)
  {
    var m: nat :| Edited(x, edits, m);
    hide After, Key, Stays, Duplicate;
    if i: nat :| Stays(x, edits, was, i) { OldNeeded(x, y, edits, was, next, m, i); }
    if i: nat :| Stays(x, edits, next, i) { NewNeeded(x, y, edits, was, next, m, i); }
    if forall i: nat, j: nat :: Edited(x, edits, i) && Edited(x, edits, j) ==> i == j {
      OneNeeded(x, y, edits, was, next, m);
    }
  }

  lemma OldNeeded(x: seq<Alias>, y: seq<Alias>, edits: set<Range>, was: string, next: string, m: nat, i: nat)
    requires After(x, y, edits, was, next) && was != next && Edited(x, edits, m) && Stays(x, edits, was, i)
    requires Duplicate(y, i) <==> Duplicate(x, i)
    ensures Several(x, edits, was)
  {
    hide Key;
    assert Key(x[m]) == Key(x[i]);
    var j: nat :| j < |y| && j != i && Key(y[j]) == Key(y[i]);
    assert Stays(x, edits, was, j);
  }

  lemma NewNeeded(x: seq<Alias>, y: seq<Alias>, edits: set<Range>, was: string, next: string, m: nat, i: nat)
    requires After(x, y, edits, was, next) && was != next && Edited(x, edits, m) && Stays(x, edits, next, i)
    requires Duplicate(y, i) <==> Duplicate(x, i)
    ensures Several(x, edits, next)
  {
    hide Key;
    assert Key(y[m]) == Key(y[i]);
    var j: nat :| j < |x| && j != i && Key(x[j]) == Key(x[i]);
    assert Stays(x, edits, next, j);
  }

  lemma OneNeeded(x: seq<Alias>, y: seq<Alias>, edits: set<Range>, was: string, next: string, m: nat)
    requires After(x, y, edits, was, next) && was != next && Edited(x, edits, m)
    requires forall i: nat :: Edited(x, edits, i) ==> i == m
    requires Duplicate(y, m) <==> Duplicate(x, m)
    ensures Any(x, edits, was) <==> Any(x, edits, next)
  {
    hide Key;
    if i: nat :| Stays(x, edits, was, i) {
      assert Key(x[i]) == Key(x[m]);
      var j: nat :| j < |y| && j != m && Key(y[j]) == Key(y[m]);
      assert Stays(x, edits, next, j);
    }
    if i: nat :| Stays(x, edits, next, i) {
      assert Key(y[i]) == Key(y[m]);
      var j: nat :| j < |x| && j != m && Key(x[j]) == Key(x[m]);
      assert Stays(x, edits, was, j);
    }
  }

  lemma RenamedFlag(x: seq<Alias>, y: seq<Alias>, edits: set<Range>, was: string, next: string, i: nat)
    requires After(x, y, edits, was, next) && Edited(x, edits, i) && was != next && FlagsStay(x, edits, was, next)
    ensures Duplicate(y, i) <==> Duplicate(x, i)
  {
    hide Key;
    if j: nat :| Edited(x, edits, j) && j != i {
      assert Key(y[j]) == Key(y[i]) && Key(x[j]) == Key(x[i]);
    } else {
      assert Any(x, edits, was) <==> Any(x, edits, next);
      if Duplicate(x, i) {
        var j: nat :| j < |x| && j != i && Key(x[j]) == Key(x[i]);
        assert Stays(x, edits, was, j);
        var k: nat :| Stays(x, edits, next, k);
        assert Key(y[k]) == Key(y[i]);
      }
      if Duplicate(y, i) {
        var j: nat :| j < |y| && j != i && Key(y[j]) == Key(y[i]);
        assert Stays(x, edits, next, j);
        var k: nat :| Stays(x, edits, was, k);
        assert Key(x[k]) == Key(x[i]);
      }
    }
  }

  lemma StayingFlag(x: seq<Alias>, y: seq<Alias>, edits: set<Range>, was: string, next: string, i: nat)
    requires After(x, y, edits, was, next) && Touched(x, edits) && was != next && FlagsStay(x, edits, was, next)
    requires i < |x| && !Edited(x, edits, i)
    ensures Duplicate(y, i) <==> Duplicate(x, i)
  {
    hide Key;
    var key := Key(x[i]);
    assert Stays(x, edits, key, i) && Key(y[i]) == key;
    if key == was || key == next {
      assert Any(x, edits, key) && Several(x, edits, key);
      var j: nat, k: nat :| j != k && Stays(x, edits, key, j) && Stays(x, edits, key, k);
      assert Key(x[j]) == key && Key(y[j]) == key && Key(x[k]) == key && Key(y[k]) == key;
    } else {
      assert forall j: nat :: j < |x| ==> (Key(y[j]) == key <==> Key(x[j]) == key);
    }
  }
}
