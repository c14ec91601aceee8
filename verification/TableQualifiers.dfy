/** A relation without an alias lends its name to the qualifiers of its SELECT. A
    rename rewrites the relation and no qualifier: exactly which of them lose the
    relation they name, and which move to one. */
module TableQualifiers {
  import opened Coordinates
  import opened Syntax
  import opened Editing
  import opened CteBindings
  import opened TableRename
  import opened WorkspaceScan
  import Relations
  import Tables = AliasBindings
  import Rename = AliasRename
  import Uses = SelectAliasRename

  /** The places of the relations without an alias in a FROM source. */
  function Unaliased(table: Node, here: Address): seq<Address> {
    match table.kind
    case TableName(_, alias) => if alias.None? then [here] else []
    case PathTable(alias, _) => if alias.None? then [here] else []
    case ParenTable => if Kids(table) != [] then Unaliased(Kids(table)[0], here + [0]) else []
    case Join =>
      (if |Kids(table)| > 0 then Unaliased(Kids(table)[0], here + [0]) else []) +
      (if |Kids(table)| > 1 then Unaliased(Kids(table)[1], here + [1]) else [])
    case _ => []
  }

  /** The name a relation lends: the last part of what is written. */
  function LentName(n: Node): Option<string> {
    match n.kind
    case TableName(table, _) => Some(table.name)
    case PathTable(_, _) =>
      var path := Tables.SourcePath(n);
      if path == [] then None else Some(path[|path| - 1].name)
    case _ => None
  }

  function LentKey(root: Node, r: Address): Option<string> {
    if NodeAt(root, r).None? || LentName(NodeAt(root, r).value).None? then None
    else Some(Fold(LentName(NodeAt(root, r).value).value))
  }

  /** The relation at `r` stands without an alias in the FROM clause of the SELECT at `p` around `a`. */
  ghost predicate Offers(root: Node, a: Address, p: Address, r: Address) {
    && p < a && NodeAt(root, p).Some?
    && var n := NodeAt(root, p).value;
       n.kind.Select? && n.kind.source < |Kids(n)| && r in Unaliased(Kids(n)[n.kind.source], p + [n.kind.source])
  }

  /** The FROM clause of the SELECT at `p` bears the key, by a relation or by an alias. */
  ghost predicate Bears(root: Node, ctes: seq<CteSite>, a: Address, p: Address, key: string) {
    (exists r :: Offers(root, a, p, r) && LentKey(root, r) == Some(key)) || !Tables.LocalAt(root, ctes, p, key).Unbound?
  }

  /** No SELECT between `p` and `a` bears the key. */
  ghost predicate Free(root: Node, ctes: seq<CteSite>, a: Address, p: Address, key: string) {
    forall q :: p < q < a ==> !Bears(root, ctes, a, q, key)
  }

  /** The key means the relation at `r`: the nearest SELECT that bears it has the relation. */
  ghost predicate Means(root: Node, ctes: seq<CteSite>, a: Address, key: string, r: Address) {
    exists p :: Offers(root, a, p, r) && LentKey(root, r) == Some(key) && Free(root, ctes, a, p, key)
  }

  // ----- The edited tree -----

  lemma {:induction false} EditUnaliased(table: Node, here: Address, edits: set<Range>, newName: string)
    ensures Unaliased(Edit(table, edits, newName), here) == Unaliased(table, here)
  {
    EditKids(table, edits, newName);
    EditedKind(table, edits, newName);
    match table.kind
    case ParenTable => if Kids(table) != [] { EditUnaliased(Kids(table)[0], here + [0], edits, newName); }
    case Join =>
      if |Kids(table)| > 0 { EditUnaliased(Kids(table)[0], here + [0], edits, newName); }
      if |Kids(table)| > 1 { EditUnaliased(Kids(table)[1], here + [1], edits, newName); }
    case _ =>
  }

  lemma EditOffers(root: Node, a: Address, p: Address, r: Address, edits: set<Range>, newName: string)
    ensures Offers(Edit(root, edits, newName), a, p, r) <==> Offers(root, a, p, r)
  {
    hide Edit, NodeAt, Unaliased;
    EditNodeAt(root, p, edits, newName);
    if NodeAt(root, p).Some? {
      var n := NodeAt(root, p).value;
      EditKids(n, edits, newName);
      EditedKind(n, edits, newName);
      if n.kind.Select? && n.kind.source < |Kids(n)| {
        EditUnaliased(Kids(n)[n.kind.source], p + [n.kind.source], edits, newName);
      }
    }
  }

  /** No part of a longer path is edited. */
  ghost predicate SparesPaths(root: Node, edits: set<Range>) {
    forall b, i: nat | NodeAt(root, b).Some? && IsPart(NodeAt(root, b).value, i) ::
      NodeAt(root, b).value.kind.idents[i].range !in edits
  }

  predicate IsPart(n: Node, i: nat) {
    n.kind.Path? && |n.kind.idents| >= 2 && i < |n.kind.idents|
  }

  lemma LentNameAfter(n: Node, edits: set<Range>, newName: string)
    requires forall i: nat :: Kids(n) != [] && IsPart(Kids(n)[0], i) ==> Kids(n)[0].kind.idents[i].range !in edits
    ensures LentName(Edit(n, edits, newName)) ==
            match Reference(n)
            case Some(name) => Some(EditIdent(name, edits, newName).name)
            case None => LentName(n)
  {
    EditKids(n, edits, newName);
    EditedKind(n, edits, newName);
    hide Edit;
    if n.kind.PathTable? && Kids(n) != [] {
      EditedKind(Kids(n)[0], edits, newName);
      if Kids(n)[0].kind.Path? && |Kids(n)[0].kind.idents| >= 2 {
        assert IsPart(Kids(n)[0], |Kids(n)[0].kind.idents| - 1);
      }
    }
  }

  /** A use of the renamed relation lends the new name, any other relation what it lent. */
  lemma LentKeyAfter(root: Node, relation: string, edits: set<Range>, newName: string, r: Address)
    requires RewritesUses(root, relation, edits) && SparesPaths(root, edits)
    ensures LentKey(Edit(root, edits, newName), r) ==
            if Names(root, r, relation) then Some(Fold(newName)) else LentKey(root, r)
  {
    EditNodeAt(root, r, edits, newName);
    hide Edit, Resolve, Fold, KeepsAllCteNames;
    if NodeAt(root, r).Some? {
      var n := NodeAt(root, r).value;
      NodeAtChild(root, r, 0);
      LentNameAfter(n, edits, newName);
      ReferenceLends(n);
    }
  }

  lemma ReferenceLends(n: Node)
    ensures Reference(n).Some? ==> LentName(n) == Some(Reference(n).value.name)
  {}

  /** What a FROM clause bears after the rename: what it bore, but for the relations
      renamed away, and the new name where it has a renamed one. */
  lemma BearsAfter(root: Node, ctes: seq<CteSite>, relation: string, edits: set<Range>, newName: string, a: Address,
                   p: Address, key: string)
    requires RewritesUses(root, relation, edits) && SparesPaths(root, edits) && Uses.SparesTables(root, ctes, edits)
    ensures Bears(Edit(root, edits, newName), ctes, a, p, key) <==>
            || (exists r :: Offers(root, a, p, r) && !Names(root, r, relation) && LentKey(root, r) == Some(key))
            || (key == Fold(newName) && exists r :: Offers(root, a, p, r) && Names(root, r, relation))
            || !Tables.LocalAt(root, ctes, p, key).Unbound?
  {
    hide Edit, Offers, LentKey, Names, RewritesUses, SparesPaths, Fold, Tables.LocalAt, Uses.SparesTables;
    Uses.SparedLocal(root, ctes, edits, newName, p, key);
    forall r
      ensures Offers(Edit(root, edits, newName), a, p, r) <==> Offers(root, a, p, r)
      ensures LentKey(Edit(root, edits, newName), r) ==
              if Names(root, r, relation) then Some(Fold(newName)) else LentKey(root, r)
    {
      EditOffers(root, a, p, r, edits, newName);
      LentKeyAfter(root, relation, edits, newName, r);
    }
  }

  /** One step of it, by the key. */
  lemma BearsByKey(root: Node, ctes: seq<CteSite>, relation: string, edits: set<Range>, newName: string, a: Address,
                   p: Address, key: string)
    requires RewritesUses(root, relation, edits) && SparesPaths(root, edits) && Uses.SparesTables(root, ctes, edits)
    ensures var root' := Edit(root, edits, newName);
            && (key != Fold(relation) && key != Fold(newName) ==>
                  (Bears(root', ctes, a, p, key) <==> Bears(root, ctes, a, p, key)))
            && (key != Fold(relation) && key == Fold(newName) ==>
                  (Bears(root', ctes, a, p, key) <==> Bears(root, ctes, a, p, key) || HasUse(root, relation, a, p)))
            && (key == Fold(relation) && key != Fold(newName) ==>
                  && (Bears(root', ctes, a, p, key) ==> Bears(root, ctes, a, p, key))
                  && (Bears(root, ctes, a, p, key) && !Bears(root', ctes, a, p, key) ==> HasUse(root, relation, a, p)))
            && (Fold(newName) == Fold(relation) ==> (Bears(root', ctes, a, p, key) <==> Bears(root, ctes, a, p, key)))
  {
    BearsAfter(root, ctes, relation, edits, newName, a, p, key);
    hide Edit, Offers, LentKey, RewritesUses, SparesPaths, Fold, Tables.LocalAt, Uses.SparesTables;
    forall r | Names(root, r, relation)
      ensures LentKey(root, r) == Some(Fold(relation)) { UseLends(root, relation, r); }
    hide Names;
  }

  /** The FROM clause of the SELECT at `p` has a relation that the rename rewrites, without an alias. */
  ghost predicate HasUse(root: Node, relation: string, a: Address, p: Address) {
    exists r :: Offers(root, a, p, r) && Names(root, r, relation)
  }

  lemma UseLends(root: Node, relation: string, r: Address)
    requires Names(root, r, relation)
    ensures LentKey(root, r) == Some(Fold(relation))
  {
    hide Resolve;
    ReferenceLends(NodeAt(root, r).value);
  }

  // ----- Qualifiers -----

  /** No qualifier is edited: qualifiers have ranges of their own. */
  ghost predicate SparesQualifiers(root: Node, edits: set<Range>) {
    forall a | Tables.Qualifier(root, a).Some? :: Tables.Qualifier(root, a).value.range !in edits
  }

  /** A qualifier means the relations after the rename that it meant before. */
  ghost predicate KeepsRelation(root: Node, ctes: seq<CteSite>, edits: set<Range>, newName: string, a: Address) {
    var root' := Edit(root, edits, newName);
    var q, q' := Tables.Qualifier(root, a), Tables.Qualifier(root', a);
    && (q'.Some? <==> q.Some?)
    && (q.Some? ==> forall r :: Means(root', ctes, a, Fold(q'.value.name), r) <==>
           Means(root, ctes, a, Fold(q.value.name), r))
  }

  /** A qualifier of the old name means a relation that is renamed. */
  ghost predicate Dangles(root: Node, ctes: seq<CteSite>, relation: string, newName: string, a: Address) {
    && Tables.Qualifier(root, a).Some? && EqualFold(Tables.Qualifier(root, a).value.name, relation)
    && !EqualFold(newName, relation)
    && exists r :: Means(root, ctes, a, Fold(relation), r) && Names(root, r, relation)
  }

  /** A qualifier of the new name, where a relation is renamed in a SELECT as near as the one that bears the name. */
  ghost predicate Finds(root: Node, ctes: seq<CteSite>, relation: string, newName: string, a: Address) {
    && Tables.Qualifier(root, a).Some? && EqualFold(Tables.Qualifier(root, a).value.name, newName)
    && !EqualFold(newName, relation)
    && exists p :: HasUse(root, relation, a, p) && Free(root, ctes, a, p, Fold(newName))
  }

  /** The nearest of the SELECTs outside `a` and inside `p` with a property. */
  lemma {:induction false} Nearest(a: Address, p: Address, holds: Address -> bool) returns (q: Address)
    requires p < a && holds(p)
    ensures p <= q < a && holds(q) && forall c :: q < c < a ==> !holds(c)
    decreases |a| - |p|
  {
    if c :| p < c < a && holds(c) {
      q := Nearest(a, c, holds);
    } else {
      q := p;
    }
  }

  /** A relation of another name, or of the same, lends what it lent. */
  lemma MeansAfter(root: Node, ctes: seq<CteSite>, relation: string, edits: set<Range>, newName: string, a: Address,
                   key: string, r: Address)
    requires RewritesUses(root, relation, edits) && SparesPaths(root, edits) && Uses.SparesTables(root, ctes, edits)
    ensures Means(Edit(root, edits, newName), ctes, a, key, r) <==>
            exists p :: Offers(root, a, p, r) && Free(Edit(root, edits, newName), ctes, a, p, key) &&
              if Names(root, r, relation) then key == Fold(newName) else LentKey(root, r) == Some(key)
  {
    hide Edit, Offers, LentKey, Names, RewritesUses, SparesPaths, Fold, Uses.SparesTables, Free;
    LentKeyAfter(root, relation, edits, newName, r);
    forall p ensures Offers(Edit(root, edits, newName), a, p, r) <==> Offers(root, a, p, r) {
      EditOffers(root, a, p, r, edits, newName);
    }
  }

  /** A qualifier of a third name, and any qualifier if the new name differs in case only. */
  lemma OtherKeeps(root: Node, ctes: seq<CteSite>, relation: string, edits: set<Range>, newName: string, a: Address,
                   key: string, r: Address)
    requires RewritesUses(root, relation, edits) && SparesPaths(root, edits) && Uses.SparesTables(root, ctes, edits)
    requires Fold(newName) == Fold(relation) || (key != Fold(relation) && key != Fold(newName))
    ensures Means(Edit(root, edits, newName), ctes, a, key, r) <==> Means(root, ctes, a, key, r)
  {
    hide Edit, Offers, LentKey, RewritesUses, SparesPaths, Fold, Uses.SparesTables, Bears;
    MeansAfter(root, ctes, relation, edits, newName, a, key, r);
    if Names(root, r, relation) { UseLends(root, relation, r); }
    hide Names;
    forall p ensures Bears(Edit(root, edits, newName), ctes, a, p, key) <==> Bears(root, ctes, a, p, key) {
      BearsByKey(root, ctes, relation, edits, newName, a, p, key);
    }
  }

  /** A qualifier of the old name keeps its relations exactly when none of them is renamed. */
  lemma OldNameKeeps(root: Node, ctes: seq<CteSite>, relation: string, edits: set<Range>, newName: string, a: Address)
    requires RewritesUses(root, relation, edits) && SparesPaths(root, edits) && Uses.SparesTables(root, ctes, edits)
    requires Fold(newName) != Fold(relation)
    ensures (forall r :: Means(Edit(root, edits, newName), ctes, a, Fold(relation), r) <==>
              Means(root, ctes, a, Fold(relation), r)) <==>
            !exists r :: Means(root, ctes, a, Fold(relation), r) && Names(root, r, relation)
  {
    hide Edit, Offers, LentKey, Names, RewritesUses, SparesPaths, Fold, Uses.SparesTables, Bears, Means;
    var root', key := Edit(root, edits, newName), Fold(relation);
    forall r
      ensures Means(root', ctes, a, key, r) ==> !Names(root, r, relation)
      ensures Means(root, ctes, a, key, r) && !Names(root, r, relation) ==> Means(root', ctes, a, key, r)
      ensures Means(root', ctes, a, key, r) ==>
                Means(root, ctes, a, key, r) || exists c :: Means(root, ctes, a, key, c) && Names(root, c, relation)
    {
      OldNameAfter(root, ctes, relation, edits, newName, a, r);
    }
  }

  lemma OldNameAfter(root: Node, ctes: seq<CteSite>, relation: string, edits: set<Range>, newName: string, a: Address,
                     r: Address)
    requires RewritesUses(root, relation, edits) && SparesPaths(root, edits) && Uses.SparesTables(root, ctes, edits)
    requires Fold(newName) != Fold(relation)
    ensures var root', key := Edit(root, edits, newName), Fold(relation);
            && (Means(root', ctes, a, key, r) ==> !Names(root, r, relation))
            && (Means(root, ctes, a, key, r) && !Names(root, r, relation) ==> Means(root', ctes, a, key, r))
            && (Means(root', ctes, a, key, r) ==>
                  Means(root, ctes, a, key, r) || exists c :: Means(root, ctes, a, key, c) && Names(root, c, relation))
  {
    var root', key := Edit(root, edits, newName), Fold(relation);
    hide Edit, Offers, LentKey, Names, RewritesUses, SparesPaths, Fold, Uses.SparesTables, Bears, HasUse;
    MeansAfter(root, ctes, relation, edits, newName, a, key, r);
    forall p
      ensures Bears(root', ctes, a, p, key) ==> Bears(root, ctes, a, p, key)
      ensures Bears(root, ctes, a, p, key) && !Bears(root', ctes, a, p, key) ==> HasUse(root, relation, a, p)
    {
      BearsByKey(root, ctes, relation, edits, newName, a, p, key);
    }
    if Means(root', ctes, a, key, r) && !Means(root, ctes, a, key, r) {
      var p :| Offers(root, a, p, r) && Free(root', ctes, a, p, key) && LentKey(root, r) == Some(key);
      var c :| p < c < a && Bears(root, ctes, a, c, key);
      var bears := (c: Address) => Bears(root, ctes, a, c, key);
      var q := Nearest(a, c, bears);
      forall c | q < c < a ensures !Bears(root, ctes, a, c, key) { assert !bears(c); }
      assert p < q && Free(root, ctes, a, q, key);
      assert !Bears(root', ctes, a, q, key);
      UseIsMeant(root, ctes, relation, a, q);
    }
  }

  /** A relation to be renamed in the nearest SELECT that bears its name. */
  lemma UseIsMeant(root: Node, ctes: seq<CteSite>, relation: string, a: Address, q: Address)
    requires HasUse(root, relation, a, q) && Free(root, ctes, a, q, Fold(relation))
    ensures exists c :: Means(root, ctes, a, Fold(relation), c) && Names(root, c, relation)
  {
    hide Offers, Bears, LentKey, Fold;
    var c :| Offers(root, a, q, c) && Names(root, c, relation);
    UseLends(root, relation, c);
    hide Names;
    assert Means(root, ctes, a, Fold(relation), c);
  }

  /** A qualifier of the new name keeps its relations exactly when no relation is renamed as near as they are. */
  lemma NewNameKeeps(root: Node, ctes: seq<CteSite>, relation: string, edits: set<Range>, newName: string, a: Address)
    requires RewritesUses(root, relation, edits) && SparesPaths(root, edits) && Uses.SparesTables(root, ctes, edits)
    requires Fold(newName) != Fold(relation)
    ensures (forall r :: Means(Edit(root, edits, newName), ctes, a, Fold(newName), r) <==>
              Means(root, ctes, a, Fold(newName), r)) <==>
            !exists p :: HasUse(root, relation, a, p) && Free(root, ctes, a, p, Fold(newName))
  {
    var root', key := Edit(root, edits, newName), Fold(newName);
    hide Edit, Offers, LentKey, Names, RewritesUses, SparesPaths, Fold, Uses.SparesTables, Bears, HasUse, Means;
    forall p ensures Bears(root', ctes, a, p, key) <==> Bears(root, ctes, a, p, key) || HasUse(root, relation, a, p) {
      BearsByKey(root, ctes, relation, edits, newName, a, p, key);
    }
    if p :| HasUse(root, relation, a, p) && Free(root, ctes, a, p, key) {
      UseOutside(root, relation, a, p);
      var used := (c: Address) => HasUse(root, relation, a, c);
      var q := Nearest(a, p, used);
      forall c | q < c < a ensures !Bears(root', ctes, a, c, key) { assert p < c && !used(c); }
      assert Free(root', ctes, a, q, key);
      var r := NewlyMeant(root, ctes, relation, edits, newName, a, q);
    } else {
      forall r ensures Means(root', ctes, a, key, r) <==> Means(root, ctes, a, key, r) {
        NewNameStays(root, ctes, relation, edits, newName, a, r);
      }
    }
  }

  lemma UseOutside(root: Node, relation: string, a: Address, p: Address)
    requires HasUse(root, relation, a, p)
    ensures p < a
  {}

  lemma NewlyMeant(root: Node, ctes: seq<CteSite>, relation: string, edits: set<Range>, newName: string, a: Address,
                   q: Address)
    returns (r: Address)
    requires RewritesUses(root, relation, edits) && SparesPaths(root, edits) && Uses.SparesTables(root, ctes, edits)
    requires Fold(newName) != Fold(relation) && HasUse(root, relation, a, q)
    requires Free(Edit(root, edits, newName), ctes, a, q, Fold(newName))
    ensures Means(Edit(root, edits, newName), ctes, a, Fold(newName), r) && !Means(root, ctes, a, Fold(newName), r)
  {
    hide Edit, Offers, LentKey, RewritesUses, SparesPaths, Fold, Uses.SparesTables, Free;
    r :| Offers(root, a, q, r) && Names(root, r, relation);
    MeansAfter(root, ctes, relation, edits, newName, a, Fold(newName), r);
    UseLends(root, relation, r);
    hide Names;
  }

  lemma NewNameStays(root: Node, ctes: seq<CteSite>, relation: string, edits: set<Range>, newName: string, a: Address,
                     r: Address)
    requires RewritesUses(root, relation, edits) && SparesPaths(root, edits) && Uses.SparesTables(root, ctes, edits)
    requires Fold(newName) != Fold(relation)
    requires forall p :: !(HasUse(root, relation, a, p) && Free(root, ctes, a, p, Fold(newName)))
    requires forall p :: Bears(Edit(root, edits, newName), ctes, a, p, Fold(newName)) <==>
               Bears(root, ctes, a, p, Fold(newName)) || HasUse(root, relation, a, p)
    ensures Means(Edit(root, edits, newName), ctes, a, Fold(newName), r) <==> Means(root, ctes, a, Fold(newName), r)
  {
    var root', key := Edit(root, edits, newName), Fold(newName);
    hide Edit, Offers, LentKey, RewritesUses, SparesPaths, Fold, Uses.SparesTables, Bears;
    MeansAfter(root, ctes, relation, edits, newName, a, key, r);
    if Names(root, r, relation) { UseLends(root, relation, r); }
    hide Names;
    forall p | Free(root', ctes, a, p, key) ensures Free(root, ctes, a, p, key) {}
    forall p | Offers(root, a, p, r) && Names(root, r, relation) ensures HasUse(root, relation, a, p) {}
    forall p | Offers(root, a, p, r) && Free(root, ctes, a, p, key) ensures Free(root', ctes, a, p, key) {
      forall q | p < q < a ensures !HasUse(root, relation, a, q) {
        assert Free(root, ctes, a, q, key);
      }
    }
  }

  /** Qualifiers that mean a relation without an alias: the rename keeps each, relation
      by relation, exactly when none of its relations is renamed and no relation is
      renamed to its name in a SELECT as near as they are. */
  lemma QualifierKeepsIff(root: Node, ctes: seq<CteSite>, relation: string, edits: set<Range>, newName: string,
                          a: Address)
    requires RewritesUses(root, relation, edits) && SparesPaths(root, edits) && SparesQualifiers(root, edits)
    requires Uses.SparesTables(root, ctes, edits)
    ensures KeepsRelation(root, ctes, edits, newName, a) <==>
            !Dangles(root, ctes, relation, newName, a) && !Finds(root, ctes, relation, newName, a)
  {
    hide Edit, Tables.Qualifier, Offers, RewritesUses, SparesPaths, LentKey, Fold, Means, Free, Uses.SparesTables,
      HasUse, Names;
    Rename.EditQualifier(root, a, edits, newName);
    if Tables.Qualifier(root, a).Some? {
      var key := Fold(Tables.Qualifier(root, a).value.name);
      if Fold(newName) == Fold(relation) || (key != Fold(relation) && key != Fold(newName)) {
        forall r ensures Means(Edit(root, edits, newName), ctes, a, key, r) <==> Means(root, ctes, a, key, r) {
          OtherKeeps(root, ctes, relation, edits, newName, a, key, r);
        }
      } else if key == Fold(relation) {
        OldNameKeeps(root, ctes, relation, edits, newName, a);
      } else {
        NewNameKeeps(root, ctes, relation, edits, newName, a);
      }
    }
  }
}
