/** Each alias of a FROM clause has a place of its own in the tree. */
module FromSlots {
  import opened Coordinates
  import opened Syntax
  import opened Editing
  import opened Texts
  import opened SelectWalk
  import opened TextNames
  import Ctes = CteBindings
  import Tables = AliasBindings

  function Given(name: Option<Ident>, s: Slot): seq<Slot> {
    if name.Some? then [s] else []
  }

  /** The places of the aliases of a FROM source, left to right. */
  function Slots(table: Node, here: Address): seq<Slot> {
    match table.kind
    case TableName(_, alias) => Given(alias, Slot(here, AsAlias))
    case PathTable(alias, offset) => Given(alias, Slot(here, AsAlias)) + Given(offset, Slot(here, Offset))
    case SubQueryTable(alias) => Given(alias, Slot(here, AsAlias))
    case Unnest(alias, offset) => Given(alias, Slot(here, AsAlias)) + Given(offset, Slot(here, Offset))
    case ParenTable => if Kids(table) != [] then Slots(Kids(table)[0], here + [0]) else []
    case Join =>
      (if |Kids(table)| > 0 then Slots(Kids(table)[0], here + [0]) else []) +
      (if |Kids(table)| > 1 then Slots(Kids(table)[1], here + [1]) else [])
    case _ => []
  }

  /** The place is reached from a FROM source by tables alone. */
  ghost predicate Reached(root: Node, s: Address, a: Address) {
    s <= a && forall c :: s <= c < a ==> NodeAt(root, c).Some? && IsTableKind(NodeAt(root, c).value)
  }

  /** The alias is written there, and a query it stands for is the one below it. */
  ghost predicate AliasAt(root: Node, here: Address, alias: Tables.Alias, s: Slot) {
    && (s.role.AsAlias? || s.role.Offset?) && IdentAt(root, s) == Some(alias.name) && Reached(root, here, s.at)
    && (alias.source.FromQuery? ==>
          && s.role.AsAlias? && NodeAt(root, s.at).Some? && NodeAt(root, s.at).value.kind.SubQueryTable?
          && Kids(NodeAt(root, s.at).value) != [] && alias.source.query == Kids(NodeAt(root, s.at).value)[0])
  }

  ghost predicate AliasesStand(root: Node, here: Address, aliases: seq<Tables.Alias>, slots: seq<Slot>) {
    && |slots| == |aliases| && Distinct(slots)
    && forall j :: 0 <= j < |slots| ==> AliasAt(root, here, aliases[j], slots[j])
  }

  lemma ReachedBelow(root: Node, here: Address, k: nat, a: Address)
    requires Reached(root, here + [k], a) && NodeAt(root, here).Some? && IsTableKind(NodeAt(root, here).value)
    ensures Reached(root, here, a)
  {
    forall c | here <= c < a ensures NodeAt(root, c).Some? && IsTableKind(NodeAt(root, c).value) {
      if c != here { assert here + [k] <= c; }
    }
  }

  lemma ChildAliases(root: Node, here: Address, k: nat, aliases: seq<Tables.Alias>, slots: seq<Slot>)
    requires AliasesStand(root, here + [k], aliases, slots)
    requires NodeAt(root, here).Some? && IsTableKind(NodeAt(root, here).value)
    ensures AliasesStand(root, here, aliases, slots)
    ensures forall s :: s in slots ==> here + [k] <= s.at
  {
    forall j | 0 <= j < |slots| ensures AliasAt(root, here, aliases[j], slots[j]) && here + [k] <= slots[j].at {
      assert AliasAt(root, here + [k], aliases[j], slots[j]);
      ReachedBelow(root, here, k, slots[j].at);
    }
  }

  lemma {:induction false} SlotsStand(root: Node, table: Node, here: Address, ctes: seq<Ctes.CteSite>)
    requires NodeAt(root, here) == Some(table)
    ensures AliasesStand(root, here, Tables.FromAliases(table, ctes), Slots(table, here))
    decreases table, 1
  {
    hide NodeAt, Tables.SourcePath, Tables.NamedSource, IdentAt;
    NoAliasesStand(root, here);
    if table.kind.ParenTable? {
      if Kids(table) != [] {
        NodeAtChild(root, here, 0);
        SlotsStand(root, Kids(table)[0], here + [0], ctes);
        ChildAliases(root, here, 0, Tables.FromAliases(Kids(table)[0], ctes), Slots(Kids(table)[0], here + [0]));
      }
    } else if table.kind.Join? {
      JoinStands(root, table, here, ctes);
    } else {
      OwnAliasesStand(root, table, here, ctes);
    }
  }

  lemma JoinStands(root: Node, table: Node, here: Address, ctes: seq<Ctes.CteSite>)
    requires NodeAt(root, here) == Some(table) && table.kind.Join?
    ensures AliasesStand(root, here, Tables.FromAliases(table, ctes), Slots(table, here))
    decreases table, 0
  {
    hide NodeAt, IdentAt, AliasesStand;
    var x, px: seq<Slot>, y, py: seq<Slot> := [], [], [], [];
    NoAliasesStand(root, here);
    if |Kids(table)| > 0 {
      x, px := Tables.FromAliases(Kids(table)[0], ctes), Slots(Kids(table)[0], here + [0]);
      NodeAtChild(root, here, 0);
      SlotsStand(root, Kids(table)[0], here + [0], ctes);
      ChildAliases(root, here, 0, x, px);
    }
    if |Kids(table)| > 1 {
      y, py := Tables.FromAliases(Kids(table)[1], ctes), Slots(Kids(table)[1], here + [1]);
      NodeAtChild(root, here, 1);
      SlotsStand(root, Kids(table)[1], here + [1], ctes);
      ChildAliases(root, here, 1, y, py);
    }
    assert Tables.FromAliases(table, ctes) == x + y && Slots(table, here) == px + py;
    AliasesAppend(root, here, x, px, y, py);
  }

  lemma NoAliasesStand(root: Node, here: Address)
    ensures AliasesStand(root, here, [], [])
  {}

  lemma ChildrenApart(here: Address, a: Address)
    ensures !(here + [0] <= a && here + [1] <= a)
  {
    assert here + [0] <= a ==> a[|here|] == 0;
    assert here + [1] <= a ==> a[|here|] == 1;
  }

  lemma AliasesAppend(root: Node, here: Address, x: seq<Tables.Alias>, px: seq<Slot>, y: seq<Tables.Alias>,
                      py: seq<Slot>)
    requires AliasesStand(root, here, x, px) && AliasesStand(root, here, y, py)
    requires forall s :: s in px ==> here + [0] <= s.at
    requires forall s :: s in py ==> here + [1] <= s.at
    ensures AliasesStand(root, here, x + y, px + py)
  {
    hide AliasAt;
    forall s | s in px ensures s !in py {
      ChildrenApart(here, s.at);
    }
    DistinctAppend(px, py);
  }

  lemma OwnAliasesStand(root: Node, table: Node, here: Address, ctes: seq<Ctes.CteSite>)
    requires NodeAt(root, here) == Some(table) && !table.kind.ParenTable? && !table.kind.Join?
    ensures AliasesStand(root, here, Tables.FromAliases(table, ctes), Slots(table, here))
  {
    hide NodeAt, Tables.SourcePath, Ctes.BindingForReference, Reached, Dotted, PathRange;
    ReachedSelf(root, here);
    match table.kind
    case PathTable(alias, offset) => TwoStand(root, table, here, alias, offset, ctes);
    case Unnest(alias, offset) => TwoStand(root, table, here, alias, offset, ctes);
    case _ =>
  }

  /** A table with an alias and an offset. */
  lemma TwoStand(root: Node, table: Node, here: Address, alias: Option<Ident>, offset: Option<Ident>,
                 ctes: seq<Ctes.CteSite>)
    requires NodeAt(root, here) == Some(table) && Reached(root, here, here)
    requires table.kind == PathTable(alias, offset) || table.kind == Unnest(alias, offset)
    ensures AliasesStand(root, here, Tables.FromAliases(table, ctes), Slots(table, here))
  {
    hide NodeAt, Tables.SourcePath, Ctes.BindingForReference, Reached, Dotted, PathRange;
    var aliases, slots := Tables.FromAliases(table, ctes), Slots(table, here);
    forall j | 0 <= j < |slots| ensures AliasAt(root, here, aliases[j], slots[j]) {}
  }

  lemma ReachedSelf(root: Node, here: Address)
    ensures Reached(root, here, here)
  {}

  /** The place of the j-th alias of the SELECT at p. */
  ghost function DeclSlot(root: Node, d: Tables.AliasDecl): Slot {
    var slots := SelectSlots(root, d.select);
    if d.index < |slots| then slots[d.index] else Slot([], Single)
  }

  ghost function SelectSlots(root: Node, p: Address): seq<Slot> {
    if NodeAt(root, p).Some? && NodeAt(root, p).value.kind.Select? &&
       NodeAt(root, p).value.kind.source < |Kids(NodeAt(root, p).value)| then
      var k := NodeAt(root, p).value.kind.source;
      Slots(Kids(NodeAt(root, p).value)[k], p + [k])
    else []
  }

  /** The alias of a declaration, where it stands. */
  lemma DeclStands(root: Node, ctes: seq<Ctes.CteSite>, d: Tables.AliasDecl)
    requires d.index < |Tables.Siblings(root, ctes, d)|
    ensures d.index < |SelectSlots(root, d.select)|
    ensures NodeAt(root, d.select).Some? && NodeAt(root, d.select).value.kind.Select?
    ensures AliasAt(root, d.select + [NodeAt(root, d.select).value.kind.source],
              Tables.Siblings(root, ctes, d)[d.index], DeclSlot(root, d))
    ensures Distinct(SelectSlots(root, d.select))
  {
    var n := NodeAt(root, d.select).value;
    var k := n.kind.source;
    NodeAtChild(root, d.select, k);
    hide NodeAt;
    SlotsStand(root, Kids(n)[k], d.select + [k], ctes);
  }

  /** A place is reached from the FROM clause of one SELECT. */
  lemma ReachedFromOne(root: Node, p: Address, j: nat, q: Address, k: nat, a: Address)
    requires IsSelect(root, p) && IsSelect(root, q) && Reached(root, p + [j], a) && Reached(root, q + [k], a)
    ensures p == q
  {
    hide NodeAt;
    assert p < a && q < a;
    assert p == a[..|p|] && q == a[..|q|];
    Deeper(p, j, q, a);
    Deeper(q, k, p, a);
  }

  lemma Deeper(p: Address, j: nat, q: Address, a: Address)
    requires p + [j] <= a && q < a
    ensures p < q ==> p + [j] <= q
  {}

  /** Declarations have places of their own. */
  lemma DeclSlotsApart(root: Node, ctes: seq<Ctes.CteSite>, d: Tables.AliasDecl, e: Tables.AliasDecl)
    requires d.index < |Tables.Siblings(root, ctes, d)| && e.index < |Tables.Siblings(root, ctes, e)|
    requires DeclSlot(root, d) == DeclSlot(root, e)
    ensures d == e
  {
    DeclStands(root, ctes, d);
    DeclStands(root, ctes, e);
    hide Tables.Siblings, SelectSlots, Reached, NodeAt;
    var a := DeclSlot(root, d).at;
    ReachedFromOne(root, d.select, NodeAt(root, d.select).value.kind.source, e.select,
        NodeAt(root, e.select).value.kind.source, a);
  }
}
