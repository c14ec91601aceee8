/** Replacing the text of identifiers by their ranges. */
module Editing {
  import opened Coordinates
  import opened Syntax

  function EditIdent(i: Ident, edits: set<Range>, newName: string): Ident {
    if i.range in edits then Ident(newName, i.range) else i
  }

  function EditOptional(i: Option<Ident>, edits: set<Range>, newName: string): Option<Ident> {
    if i.Some? then Some(EditIdent(i.value, edits, newName)) else None
  }

  function EditIdents(idents: seq<Ident>, edits: set<Range>, newName: string): seq<Ident> {
    seq(|idents|, i requires 0 <= i < |idents| => EditIdent(idents[i], edits, newName))
  }

  function EditKind(kind: Kind, edits: set<Range>, newName: string): Kind {
    match kind
    case Cte(name, range) => Cte(EditIdent(name, edits, newName), range)
    case TableName(table, alias) => TableName(EditIdent(table, edits, newName), EditOptional(alias, edits, newName))
    case PathTable(alias, offset) => PathTable(EditOptional(alias, edits, newName),
        EditOptional(offset, edits, newName))
    case SubQueryTable(alias) => SubQueryTable(EditOptional(alias, edits, newName))
    case Unnest(alias, offset) => Unnest(EditOptional(alias, edits, newName), EditOptional(offset, edits, newName))
    case Path(idents) => Path(EditIdents(idents, edits, newName))
    case DotStar(qualifier) => DotStar(EditOptional(qualifier, edits, newName))
    case Item(result, explicit) => Item(EditOptional(result, edits, newName), explicit)
    case Lone(ident) => Lone(EditIdent(ident, edits, newName))
    case Query | Select(_, _) | Clause | ParenTable | Join | Other => kind
  }

  /** The tree after replacing the text of every identifier whose range is edited. */
  function Edit(n: Node, edits: set<Range>, newName: string): Node {
    Node(EditKind(n.kind, edits, newName),
         seq(|n.children|, i requires 0 <= i < |n.children| => Edit(n.children[i], edits, newName)))
  }

  lemma EditKids(n: Node, edits: set<Range>, newName: string)
    ensures |Kids(Edit(n, edits, newName))| == |Kids(n)|
    ensures forall i :: 0 <= i < |Kids(n)| ==> Kids(Edit(n, edits, newName))[i] == Edit(Kids(n)[i], edits, newName)
  {
  }

  lemma {:induction false} EditNodeAt(n: Node, a: Address, edits: set<Range>, newName: string)
    ensures NodeAt(Edit(n, edits, newName), a) ==
            if NodeAt(n, a).Some? then Some(Edit(NodeAt(n, a).value, edits, newName)) else None
  {
    EditKids(n, edits, newName);
    if a != [] && a[0] < |Kids(n)| {
      EditNodeAt(Kids(n)[a[0]], a[1..], edits, newName);
    }
  }

  /** Replacing text keeps the shape of the tree. */
  lemma {:induction false} EditPreorder(n: Node, here: Address, edits: set<Range>, newName: string)
    ensures Preorder(Edit(n, edits, newName), here) == Preorder(n, here)
    decreases n, |Kids(n)| + 1
  {
    EditKids(n, edits, newName);
    EditPreorderFrom(n, here, 0, edits, newName);
  }

  lemma {:induction false} EditPreorderFrom(n: Node, here: Address, k: nat, edits: set<Range>, newName: string)
    requires k <= |Kids(n)| == |Kids(Edit(n, edits, newName))|
    ensures PreorderFrom(Edit(n, edits, newName), here, k) == PreorderFrom(n, here, k)
    decreases n, |Kids(n)| - k
  {
    if k < |Kids(n)| {
      EditKids(n, edits, newName);
      EditPreorder(Kids(n)[k], here + [k], edits, newName);
      EditPreorderFrom(n, here, k + 1, edits, newName);
    }
  }
}
