/** What the two column indexes hold, by the entries of the CTE and alias indexes: which columns
    have a binding, and which members and SELECT-alias uses each binding collects. */
module ColumnClaims {
  import opened Coordinates
  import opened Syntax
  import opened Sorting
  import opened QueryShapes
  import opened ColumnBindings
  import opened PathsAndNames

  /** The k-th column of the owner with that number: of a CTE of known shape, or of an alias
      that is a derived table of known shape and no second of its name. */
  ghost predicate HasColumn(d: Document, derived: bool, n: nat, column: Column, k: nat) {
    if derived then
      && n < |d.aliases| && !d.aliases[n].ambiguous && d.aliases[n].sourceCte == None &&
           d.aliases[n].sourceTableName == ""
      && d.aliases[n].shape.known && k < |d.aliases[n].shape.columns| && column == d.aliases[n].shape.columns[k]
    else
      n < |d.ctes| && d.ctes[n].shape.known && k < |d.ctes[n].shape.columns| && column == d.ctes[n].shape.columns[k]
  }

  /** The alias of the member stands for the CTE of that number, or is the alias of that number. */
  ghost predicate Through(d: Document, derived: bool, n: nat, alias: nat) {
    if derived then alias == n else alias < |d.aliases| && d.aliases[alias].sourceCte == Some(n)
  }

  /** A member of that range names the column through an alias of its owner. */
  ghost predicate NamedBy(d: Document, derived: bool, n: nat, column: Column, r: Range) {
    exists m :: 0 <= m < |d.members| && d.members[m].range == r && Through(d, derived, n, d.members[m].alias) &&
                SameButCase(d.members[m].name, column.name)
  }

  /** The first SELECT alias that is declared where the column is has a use of that range. */
  ghost predicate UsedAs(d: Document, column: Column, r: Range) {
    exists s :: 0 <= s < |d.selectAliases| && IsFirstAt(d.selectAliases, s, column.declarationRange) &&
                r in d.selectAliases[s].referenceRanges
  }

  ghost predicate IsFirstAt(selectAliases: seq<SelectAlias>, s: nat, declaration: Range)
    requires s < |selectAliases|
  {
    && selectAliases[s].declarationRange == declaration
    && forall t :: 0 <= t < s ==> selectAliases[t].declarationRange != declaration
  }

  /** Binding b is the column: its name, its range, and everything that refers to it. */
  ghost predicate IsBindingOf(d: Document, derived: bool, index: ColumnIndex, b: nat, n: nat, column: Column)
    requires b < |index.bindings|
  {
    var binding := index.bindings[b];
    && binding.name == column.name && binding.declarationRange == column.declarationRange
    && binding.explicit == column.explicit
    && (forall r :: r in binding.referenceRanges <==> UsedAs(d, column, r) || NamedBy(d, derived, n, column, r))
    && (forall r :: ColumnSite(b, r, false) in index.sites <==> r in binding.referenceRanges)
    && (forall r :: ColumnSite(b, r, true) in index.sites <==> r == binding.declarationRange)
  }

  lemma PlaceIff(d: Document, derived: bool, n: nat, k: nat, column: Column)
    ensures var p := Place(if derived then OfAlias(n) else OfCte(n), k);
            HasColumn(d, derived, n, column, k) <==> IsPlace(d, derived, p) && column == ColumnsOf(d, p.owner)[k]
  {}

  lemma {:induction false} OwnIff(d: Document, selectAliases: seq<SelectAlias>, declaration: Range, r: Range)
    ensures r in OwnReferences(selectAliases, declaration) <==>
            exists s :: 0 <= s < |selectAliases| && IsFirstAt(selectAliases, s, declaration) &&
              r in selectAliases[s].referenceRanges
  {
    if selectAliases != [] {
      var rest := selectAliases[1..];
      OwnIff(d, rest, declaration, r);
      if selectAliases[0].declarationRange == declaration {
        assert IsFirstAt(selectAliases, 0, declaration);
      } else {
        forall s | 0 < s < |selectAliases|
          ensures IsFirstAt(selectAliases, s, declaration) <==> IsFirstAt(rest, s - 1, declaration)
        {
          assert rest[s - 1] == selectAliases[s];
          assert forall t :: 0 < t < s ==> selectAliases[t] == rest[t - 1];
          if IsFirstAt(selectAliases, s, declaration) {
            forall t | 0 <= t < s - 1
              ensures rest[t].declarationRange != declaration { assert rest[t] == selectAliases[t + 1]; }
          }
        }
        if s :| 0 <= s < |rest| && IsFirstAt(rest, s, declaration) && r in rest[s].referenceRanges {
          assert IsFirstAt(selectAliases, s + 1, declaration);
        }
      }
    }
  }

  lemma ClaimIff(d: Document, derived: bool, n: nat, name: string, m: nat)
    requires m < |d.members|
    ensures Claims(d, if derived then OfAlias(n) else OfCte(n), name, m) <==>
            Through(d, derived, n, d.members[m].alias) && SameButCase(d.members[m].name, name)
  {
    FoldIff(d.members[m].name, name);
    hide SameButCase;
  }

  lemma ReferencesIff(d: Document, derived: bool, b: ColumnBinding, n: nat, k: nat, column: Column, r: Range)
    requires HasColumn(d, derived, n, column, k) && Stands(d, b, Place(if derived then OfAlias(n) else OfCte(n), k))
    ensures r in b.referenceRanges <==> UsedAs(d, column, r) || NamedBy(d, derived, n, column, r)
  {
    hide Claims, Through, SameButCase, OwnReferences, IsFirstAt, HasColumn, Owns;
    var owner := if derived then OfAlias(n) else OfCte(n);
    PlaceIff(d, derived, n, k, column);
    var ms :| ListsConsumers(d, owner, column.name, ms) && ReferencesAre(d, b, column, ms);
    OwnIff(d, d.selectAliases, column.declarationRange, r);
    RangesIff(d, ms, r);
    forall m | 0 <= m < |d.members|
      ensures Claims(d, owner, column.name, m) <==>
              Through(d, derived, n, d.members[m].alias) && SameButCase(d.members[m].name, column.name)
    {
      ClaimIff(d, derived, n, column.name, m);
    }
  }

  lemma RangesIff(d: Document, ms: seq<nat>, r: Range)
    requires forall m :: m in ms ==> m < |d.members|
    ensures r in RangesOf(d, ms) <==> exists m :: m in ms && d.members[m].range == r
  {
    if r in RangesOf(d, ms) {
      var i :| 0 <= i < |ms| && RangesOf(d, ms)[i] == r;
      assert ms[i] in ms;
    }
    if m :| m in ms && d.members[m].range == r {
      var i :| 0 <= i < |ms| && ms[i] == m;
      assert RangesOf(d, ms)[i] == r;
    }
  }

  /** The sites of a binding are its declaration and its references. */
  lemma {:induction false} SitesIff(bindings: seq<ColumnBinding>, n: nat, b: nat, r: Range, declaration: bool)
    requires n <= |bindings|
    ensures ColumnSite(b, r, declaration) in SitesOf(bindings[..n]) <==>
            b < n && if declaration then r == bindings[b].declarationRange else r in bindings[b].referenceRanges
  {
    if n > 0 {
      SitesIff(bindings, n - 1, b, r, declaration);
      assert bindings[..n][..n - 1] == bindings[..n - 1];
      var own := SitesOfBinding(n - 1, bindings[n - 1]);
      if b == n - 1 && !declaration && r in bindings[b].referenceRanges {
        var i :| 0 <= i < |bindings[b].referenceRanges| && bindings[b].referenceRanges[i] == r;
        assert ReferenceSites(b, bindings[b].referenceRanges)[i] == ColumnSite(b, r, false);
      }
      assert ColumnSite(b, r, declaration) in own <==>
        b == n - 1 && if declaration then r == bindings[b].declarationRange else r in bindings[b].referenceRanges;
    }
  }

  lemma IndexSites(d: Document, derived: bool, places: seq<Place>, index: ColumnIndex, b: nat, r: Range)
    requires IsColumnIndex(d, derived, places, index) && b < |index.bindings|
    ensures ColumnSite(b, r, false) in index.sites <==> r in index.bindings[b].referenceRanges
    ensures ColumnSite(b, r, true) in index.sites <==> r == index.bindings[b].declarationRange
  {
    hide Stands, SitesOf, InOrder;
    PermutationMembers(index.sites, SitesOf(index.bindings));
    assert index.bindings[..|index.bindings|] == index.bindings;
    SitesIff(index.bindings, |index.bindings|, b, r, false);
    SitesIff(index.bindings, |index.bindings|, b, r, true);
  }

  /** A binding is the column that stands at its place. */
  lemma BoundColumn(d: Document, derived: bool, places: seq<Place>, index: ColumnIndex, b: nat)
    returns (n: nat, k: nat, column: Column)
    requires IsColumnIndex(d, derived, places, index) && b < |index.bindings|
    ensures HasColumn(d, derived, n, column, k) && IsBindingOf(d, derived, index, b, n, column)
    ensures places[b] == Place(if derived then OfAlias(n) else OfCte(n), k)
  {
    hide Stands, SitesOf, InOrder, UsedAs, NamedBy, SortedBy;
    assert places[b] in places && IsPlace(d, derived, places[b]) && Stands(d, index.bindings[b], places[b]);
    n, k := Number(places[b].owner), places[b].column;
    column := ColumnsOf(d, places[b].owner)[k];
    PlaceIff(d, derived, n, k, column);
    StandsNamed(d, index.bindings[b], places[b]);
    forall r
      ensures r in index.bindings[b].referenceRanges <==> UsedAs(d, column, r) || NamedBy(d, derived, n, column, r)
      ensures ColumnSite(b, r, false) in index.sites <==> r in index.bindings[b].referenceRanges
      ensures ColumnSite(b, r, true) in index.sites <==> r == index.bindings[b].declarationRange
    {
      ReferencesIff(d, derived, index.bindings[b], n, k, column, r);
      IndexSites(d, derived, places, index, b, r);
    }
  }

  lemma StandsNamed(d: Document, b: ColumnBinding, p: Place)
    requires Stands(d, b, p)
    ensures Owns(d, p.owner) && p.column < |ColumnsOf(d, p.owner)|
    ensures var column := ColumnsOf(d, p.owner)[p.column];
            b.name == column.name && b.declarationRange == column.declarationRange && b.explicit == column.explicit
  {}

  /** Every column that an owner has is one binding, and the columns keep their order: owner by
      owner, and within one as in its shape. */
  lemma ColumnBound(d: Document, derived: bool, places: seq<Place>, index: ColumnIndex, n: nat, k: nat, column: Column)
    returns (b: nat)
    requires IsColumnIndex(d, derived, places, index) && HasColumn(d, derived, n, column, k)
    ensures b < |index.bindings| && places[b] == Place(if derived then OfAlias(n) else OfCte(n), k)
    ensures IsBindingOf(d, derived, index, b, n, column)
  {
    hide Stands, SitesOf, IsBindingOf, SortedBy;
    var p := Place(if derived then OfAlias(n) else OfCte(n), k);
    PlaceIff(d, derived, n, k, column);
    b :| 0 <= b < |places| && places[b] == p;
    var n', k', column' := BoundColumn(d, derived, places, index, b);
    PlaceIff(d, derived, n', k', column');
  }
}
