/** The result columns of a query, where they are known. */
module QueryShapes {
  import opened Coordinates
  import opened Syntax
  import opened WorkspaceScan

  datatype Column = Column(name: string, declarationRange: Range, explicit: bool)

  datatype Shape = Shape(known: bool, columns: seq<Column>)

  function Names(columns: seq<Column>): seq<string> {
    seq(|columns|, i requires 0 <= i < |columns| => columns[i].name)
  }

  /** All items have a name, and no two names are equal but for case. */
  ghost predicate NamedApart(items: seq<Option<Column>>) {
    && (forall i :: 0 <= i < |items| ==> items[i].Some?)
    && forall i, j :: 0 <= i < j < |items| && items[i].Some? && items[j].Some? ==>
         !EqualFold(items[i].value.name, items[j].value.name)
  }

  /** The shape of a SELECT list: known exactly when its items are named apart, and
      then the columns are the items in order. */
  ghost predicate IsShapeOf(items: seq<Option<Column>>, shape: Shape) {
    && (shape.known <==> NamedApart(items))
    && (shape.known ==> |shape.columns| == |items| && forall i :: 0 <= i < |items| ==>
           items[i] == Some(shape.columns[i]))
    && (!shape.known ==> shape.columns == [])
  }

  // ----- The SELECT list of a query -----

  /** The SELECT list of a query, if the query is a plain SELECT. */
  type Items = Option<seq<Option<Column>>>

  function ItemColumn(n: Node): seq<Option<Column>> {
    if !n.kind.Item? then []
    else if n.kind.result.None? then [None]
    else [Some(Column(n.kind.result.value.name, n.kind.result.value.range, n.kind.explicit))]
  }

  function ItemColumns(kids: seq<Node>): seq<Option<Column>> {
    if kids == [] then [] else ItemColumns(kids[..|kids| - 1]) + ItemColumn(kids[|kids| - 1])
  }

  function ListOf(query: Node): Items {
    if query.kind.Select? then Some(ItemColumns(Kids(query))) else None
  }

  ghost predicate ShapeFrom(items: Items, shape: Shape) {
    if items.None? then shape == Shape(false, []) else IsShapeOf(items.value, shape)
  }

  /** The list has one shape. */
  lemma OneShape(items: Items, x: Shape, y: Shape)
    requires ShapeFrom(items, x) && ShapeFrom(items, y)
    ensures x == y
  {
    hide NamedApart;
    if items.Some? && x.known {
      forall i | 0 <= i < |items.value| ensures x.columns[i] == y.columns[i] {
        assert items.value[i] == Some(x.columns[i]) && items.value[i] == Some(y.columns[i]);
      }
    }
  }

  /** The shape of a query. */
  ghost function ShapeOfQuery(query: Node): (shape: Shape)
    ensures ShapeFrom(ListOf(query), shape)
  {
    if ListOf(query).Some? && NamedApart(ListOf(query).value) then
      var items := ListOf(query).value;
      Shape(true, seq(|items|, i requires 0 <= i < |items| => items[i].value))
    else Shape(false, [])
  }

  method ExtractQueryColumns(query: Node) returns (shape: Shape)
    ensures shape == ShapeOfQuery(query)
  {
    if !query.kind.Select? {
      return Shape(false, []);
    }
    shape := ExtractColumns(ItemColumns(Kids(query)));
    OneShape(ListOf(query), shape, ShapeOfQuery(query));
  }

  method ExtractColumns(items: seq<Option<Column>>) returns (shape: Shape)
    ensures IsShapeOf(items, shape)
  {
    var seen: set<string> := {};
    var columns: seq<Column> := [];
    for i := 0 to |items|
      invariant |columns| == i && forall k :: 0 <= k < i ==> items[k] == Some(columns[k])
      invariant forall f :: f in seen <==> exists k :: 0 <= k < i && Fold(columns[k].name) == f
      invariant forall j, k :: 0 <= j < k < i ==> !EqualFold(columns[j].name, columns[k].name)
    {
      if items[i].None? {
        return Shape(false, []);
      }
      var column := items[i].value;
      if Fold(column.name) in seen {
        return Shape(false, []);
      }
      seen := seen + {Fold(column.name)};
      columns := columns + [column];
    }
    return Shape(true, columns);
  }

  ghost predicate ColumnsApart(columns: seq<Column>) {
    forall i, j :: 0 <= i < j < |columns| ==> !EqualFold(columns[i].name, columns[j].name)
  }

  /** The columns of a query have names of their own. */
  lemma ShapeApart(query: Node)
    requires ShapeOfQuery(query).known
    ensures ColumnsApart(ShapeOfQuery(query).columns)
  {
    var items, columns := ListOf(query).value, ShapeOfQuery(query).columns;
    forall i, j | 0 <= i < j < |columns| ensures !EqualFold(columns[i].name, columns[j].name) {
      assert items[i] == Some(columns[i]) && items[j] == Some(columns[j]);
    }
  }

  /** A SELECT list with an item has no known shape without columns. */
  lemma ExtractedHasColumns(items: seq<Option<Column>>, shape: Shape)
    requires IsShapeOf(items, shape) && items != [] && shape.known
    ensures shape.columns != []
  {}
}
