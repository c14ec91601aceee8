/** A document in which renaming a column of a common table expression passes the
    test and leaves a member of another one without a column. */
module ColumnRenameExamples {
  import opened Coordinates
  import Syntax
  import opened WorkspaceScan
  import opened QueryShapes
  import opened ColumnBindings
  import opened ColumnRename
  import Diagnostics

  function Spot(i: nat): Range {
    Range(Position(i, 0), Position(i, 1))
  }

  /** WITH A AS (SELECT 1 AS x), B AS (SELECT a.x FROM A AS a) SELECT b.x FROM B AS b */
  function Example(): Document {
    Document(
      [Cte("A", Spot(0), Shape(true, [Column("x", Spot(1), true)])),
       Cte("B", Spot(2), Shape(true, [Column("x", Spot(3), false)]))],
      [Alias("a", Spot(4), false, Some(0), Shape(false, []), ""),
          Alias("b", Spot(6), false, Some(1), Shape(false, []), "")],
      [Member(0, "x", Spot(3)), Member(1, "x", Spot(5))],
      [SelectAlias(Spot(1), []), SelectAlias(Spot(3), [])])
  }

  function ExampleSources(): Sources {
    Sources([Some([Some(Column("x", Spot(1), true))]), Some([Some(Column("x", Spot(3), false))])], [None, None])
  }

  /** The column x of A, and that of B. */
  function First(): Place {
    Place(OfCte(0), 0)
  }

  function Second(): Place {
    Place(OfCte(1), 0)
  }

  /** What the index has for the column x of A. */
  function FirstBinding(): ColumnBinding {
    BindingOf(Example(), OfCte(0), Column("x", Spot(1), true))
  }

  lemma ExampleItems(q: Place)
    ensures ItemAt(ExampleSources(), q) ==
            if q == First() then Some(Column("x", Spot(1), true))
            else if q == Second() then Some(Column("x", Spot(3), false)) else None
  {}

  lemma ExampleFrom()
    ensures FromItems(Example(), ExampleSources())
  {}

  lemma ExampleApart()
    ensures RangesApart(Example(), ExampleSources(), First())
  {
    hide ItemAt, ExampleSources;
    forall q: Place
      ensures ItemAt(ExampleSources(), q) ==
              if q == First() then Some(Column("x", Spot(1), true))
              else if q == Second() then Some(Column("x", Spot(3), false)) else None
    {
      ExampleItems(q);
    }
  }

  lemma ExampleFits()
    ensures FromItems(Example(), ExampleSources()) && RangesApart(Example(), ExampleSources(), First())
    ensures Owns(Example(), OfCte(0)) && Stands(Example(), FirstBinding(), First())
    ensures NameIsFree(ColumnsOf(Example(), OfCte(0)), 0, "y")
  {
    hide ExampleSources, FromItems, RangesApart, Stands, BindingOf;
    ExampleFrom();
    ExampleApart();
    BindingStands(Example(), First());
  }

  lemma ExampleClaims()
    ensures ClaimedBy(Example(), 0, First()) && ClaimedBy(Example(), 1, Second())
    ensures !EqualFold("x", "y")
  {
    assert "X"[0] != "Y"[0] && Syntax.Fold("x") == "X" && Syntax.Fold("y") == "Y";
  }

  /** The item a.x of B carries the column on. */
  lemma ExampleCarries()
    ensures Carries(Example(), ExampleSources(), First(), Second())
    ensures ApartAfter(Example(), ExampleSources(), First(), OfCte(1), "y")
  {
    ExampleClaims();
    ExampleItems(Second());
    hide ClaimedBy, ExampleSources, ItemAt, Syntax.Fold;
    assert 0 < |Example().members| && Example().members[0].range == Spot(3);
    ExampleLength();
  }

  lemma ExampleLength()
    ensures ItemsOf(ExampleSources(), OfCte(1)).Some? && |ItemsOf(ExampleSources(), OfCte(1)).value| == 1
  {}

  /** The test lets x of A be renamed to y; b.x, which was the column x of B, is then no
      column of any query, and is reported. */
  lemma PassedTestCanLose(d': Document, path: Path)
    requires IsEdited(Example(), ExampleSources(), d', EditsOf(FirstBinding()), "y")
    ensures Owns(Example(), OfCte(0)) && NameIsFree(ColumnsOf(Example(), OfCte(0)), 0, "y")
    ensures ClaimedBy(Example(), 1, Second())
    ensures |d'.members| == 2 && forall q :: !ClaimedBy(d', 1, q)
    ensures Bound(d') && KnownLocally(d', 1) && Diagnostics.LocalDiagnostic(path, Seen(d', 1, false)).Some?
  {
    var d, s, edits := Example(), ExampleSources(), EditsOf(FirstBinding());
    ExampleFits();
    ExampleClaims();
    ExampleCarries();
    EditsAreExact(d, s, First(), FirstBinding());
    LostIsKnown(d');
    hide IsEdited, ExampleSources, FromItems, RangesApart, Stands, ItemAt, ClaimedBy, Carries, Syntax.Fold, ApartAfter,
      Exact,
      FirstBinding, EditsOf;
    forall q: Place ensures !ClaimedBy(d', 1, q) {
      LostElsewhere(d', q);
    }
    ReportedIffUnclaimed(d', path, 1);
  }

  lemma LostIsKnown(d': Document)
    requires IsEdited(Example(), ExampleSources(), d', EditsOf(FirstBinding()), "y")
    ensures |d'.members| == 2 && Bound(d') && KnownLocally(d', 1)
  {
    hide EditsOf, FirstBinding;
    var s' := EditSources(ExampleSources(), EditsOf(FirstBinding()), "y");
    assert ShapeFrom(s'.ctes[1], d'.ctes[1].shape) && NamedApart(s'.ctes[1].value);
    assert d'.members[0].alias == 0 && d'.members[1].alias == 1;
    assert d'.aliases[0].sourceCte == Some(0) && d'.aliases[1].sourceCte == Some(1);
  }

  lemma LostElsewhere(d': Document, q: Place)
    requires IsEdited(Example(), ExampleSources(), d', EditsOf(FirstBinding()), "y") && |d'.members| == 2
    ensures !ClaimedBy(d', 1, q)
  {
    var d, s, edits := Example(), ExampleSources(), EditsOf(FirstBinding());
    ExampleFits();
    ExampleClaims();
    ExampleCarries();
    ExampleItems(q);
    EditsAreExact(d, s, First(), FirstBinding());
    ExampleLooks(q.owner);
    SameLooks(d, s, d', edits, "y", 1, q.owner);
    hide IsEdited, ExampleSources, FromItems, RangesApart, Stands, ItemAt, Carries, Syntax.Fold, ApartAfter, Exact,
      FirstBinding,
      EditsOf, LooksInto, Example, Owns;
    if q.owner == OfCte(1) {
      ClaimsElsewhere(d, s, d', First(), edits, "y", 1, q);
    }
  }

  lemma ExampleLooks(owner: Owner)
    ensures LooksInto(Example(), 1, owner) && Eligible(Example(), owner) <==> owner == OfCte(1)
    ensures LooksInto(Example(), 1, OfAlias(1)) && !LooksInto(Example(), 1, OfCte(0)) &&
            !Eligible(Example(), OfAlias(1))
  {}
}
