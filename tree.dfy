/**
 * The tree editor's data and its three forest rebuilds (add, update, delete).
 * A forest is an ordered sequence of root nodes; every operation returns a new
 * forest and leaves its input as it was.
 */
module Tree {

  datatype Option<T> = None | Some(value: T)

  datatype Kind = File | Folder

  /** One entry of the structure: a file or a folder with its ordered children. */
  datatype Node = Node(id: string, name: string, kind: Kind, comment: string, children: seq<Node>)

  /** What a node shows about itself, without its children. */
  datatype Label = Label(id: string, name: string, kind: Kind, comment: string)

  /** The structure of a forest with names and comments erased. */
  datatype Shape = Shape(id: string, kind: Kind, children: seq<Shape>)

  /** The fields an edit replaces; an absent field keeps the node's own value. */
  datatype Patch = Patch(name: Option<string>, comment: Option<string>)
  {
    function NameOr(current: string): string {
      if name.Some? then name.value else current
    }

    function CommentOr(current: string): string {
      if comment.Some? then comment.value else current
    }
  }

  // ---------------------------------------------------------------------------
  // Views of a forest
  // ---------------------------------------------------------------------------

  /** Number of nodes in the subtree headed by `n`. */
  function Size(n: Node): nat {
    1 + Count(n.children)
  }

  /** Number of nodes in the forest. */
  function Count(f: seq<Node>): nat {
    if f == [] then 0 else Size(f[0]) + Count(f[1..])
  }

  /** Ids of the subtree headed by `n`, in depth-first pre-order. */
  function NodeIds(n: Node): seq<string> {
    [n.id] + Ids(n.children)
  }

  /** Ids of the forest, in depth-first pre-order. */
  function Ids(f: seq<Node>): seq<string> {
    if f == [] then [] else NodeIds(f[0]) + Ids(f[1..])
  }

  /** How many nodes of the forest carry id `q`. */
  function Occurrences(f: seq<Node>, q: string): nat {
    multiset(Ids(f))[q]
  }

  /** No id is carried by two nodes of the forest. */
  ghost predicate Unique(f: seq<Node>) {
    forall q :: Occurrences(f, q) <= 1
  }

  function LabelOf(n: Node): Label {
    Label(n.id, n.name, n.kind, n.comment)
  }

  /** Labels of the subtree headed by `n`, in depth-first pre-order. */
  function NodeLabels(n: Node): seq<Label> {
    [LabelOf(n)] + Labels(n.children)
  }

  /** Labels of the forest, in depth-first pre-order. */
  function Labels(f: seq<Node>): seq<Label> {
    if f == [] then [] else NodeLabels(f[0]) + Labels(f[1..])
  }

  function ShapeOf(n: Node): Shape {
    Shape(n.id, n.kind, Shapes(n.children))
  }

  function Shapes(f: seq<Node>): seq<Shape> {
    if f == [] then [] else [ShapeOf(f[0])] + Shapes(f[1..])
  }

  /** The first node in pre-order of the subtree headed by `n` that has id `q`. */
  function FindIn(n: Node, q: string): (r: Option<Node>)
    ensures r.Some? ==> r.value.id == q
    ensures r.None? <==> q !in NodeIds(n)
  {
    if n.id == q then Some(n) else Find(n.children, q)
  }

  /** The first node in pre-order of the forest that has id `q`. */
  function Find(f: seq<Node>, q: string): (r: Option<Node>)
    ensures r.Some? ==> r.value.id == q
    ensures r.None? <==> q !in Ids(f)
  {
    if f == [] then None
    else
      var here := FindIn(f[0], q);
      if here.Some? then here else Find(f[1..], q)
  }

  // ---------------------------------------------------------------------------
  // updateNode
  // ---------------------------------------------------------------------------

  function Patched(n: Node, p: Patch): Node {
    n.(name := p.NameOr(n.name), comment := p.CommentOr(n.comment))
  }

  function PatchedLabel(l: Label, p: Patch): Label {
    l.(name := p.NameOr(l.name), comment := p.CommentOr(l.comment))
  }

  /** Every label with id `id` patched, every other label left as it is. */
  function PatchAll(ls: seq<Label>, id: string, p: Patch): (r: seq<Label>)
    ensures |r| == |ls|
    ensures forall i :: 0 <= i < |ls| ==>
              r[i] == if ls[i].id == id then PatchedLabel(ls[i], p) else ls[i]
  {
    if ls == [] then []
    else [if ls[0].id == id then PatchedLabel(ls[0], p) else ls[0]] + PatchAll(ls[1..], id, p)
  }

  /** updateRecursive: a matching node is patched (its children are kept as
      they are); any other node has its children rebuilt. */
  function UpdateIn(n: Node, id: string, p: Patch): Node {
    if n.id == id then Patched(n, p)
    else n.(children := UpdateNode(n.children, id, p))
  }

  /** updateNode: updateRecursive mapped over the roots. */
  function UpdateNode(tree: seq<Node>, id: string, p: Patch): seq<Node> {
    if tree == [] then [] else [UpdateIn(tree[0], id, p)] + UpdateNode(tree[1..], id, p)
  }

  // ---------------------------------------------------------------------------
  // addChild
  // ---------------------------------------------------------------------------

  /** The node addChild creates; its id comes from the caller. */
  function NewNode(id: string, kind: Kind): Node {
    Node(id, if kind == Folder then "new-folder" else "new-file.txt", kind, "", [])
  }

  /** addRecursive: a matching node gets `child` appended to its children
      (and is not searched further); any other node has its children rebuilt. */
  function AddIn(n: Node, parentId: string, child: Node): Node {
    if n.id == parentId then n.(children := n.children + [child])
    else n.(children := AddUnder(n.children, parentId, child))
  }

  /** addRecursive mapped over a sequence of nodes. */
  function AddUnder(f: seq<Node>, parentId: string, child: Node): seq<Node> {
    if f == [] then [] else [AddIn(f[0], parentId, child)] + AddUnder(f[1..], parentId, child)
  }

  /** addChild: a new node of `kind` with id `newId`, appended to the roots
      when there is no parent, else under every node `addRecursive` reaches. */
  function AddChild(tree: seq<Node>, parentId: Option<string>, kind: Kind, newId: string): seq<Node> {
    var child := NewNode(newId, kind);
    if parentId.None? then tree + [child] else AddUnder(tree, parentId.value, child)
  }

  // ---------------------------------------------------------------------------
  // deleteNode
  // ---------------------------------------------------------------------------

  /** The siblings whose id is not `q`, in their order. */
  function WithoutId(f: seq<Node>, q: string): seq<Node> {
    if f == [] then []
    else if f[0].id == q then WithoutId(f[1..], q)
    else [f[0]] + WithoutId(f[1..], q)
  }

  /** deleteRecursive: the node with its children filtered by id and rebuilt. */
  function DeleteIn(n: Node, q: string): Node {
    n.(children := PruneChildren(n.children, q))
  }

  /** The siblings whose id is not `q`, each rebuilt by DeleteIn, in one pass
      over the siblings. */
  function PruneChildren(f: seq<Node>, q: string): seq<Node> {
    if f == [] then []
    else if f[0].id == q then PruneChildren(f[1..], q)
    else [DeleteIn(f[0], q)] + PruneChildren(f[1..], q)
  }

  /** deleteRecursive mapped over a sequence of nodes. */
  function DeleteUnder(f: seq<Node>, q: string): seq<Node> {
    if f == [] then [] else [DeleteIn(f[0], q)] + DeleteUnder(f[1..], q)
  }

  /** deleteNode: when a root has id `q`, the roots without it; otherwise every
      nested sibling list loses its nodes with id `q`. */
  function DeleteNode(tree: seq<Node>, q: string): seq<Node> {
    var filteredRoot := WithoutId(tree, q);
    if |filteredRoot| != |tree| then filteredRoot else DeleteUnder(tree, q)
  }
}
