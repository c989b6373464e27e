/**
 * What the three forest rebuilds of the tree editor guarantee: node counts,
 * pre-order of ids and labels, what stays unchanged, and uniqueness of ids.
 */
module TreeProperties {
  import opened Tree

  // ---------------------------------------------------------------------------
  // Structural facts about the views
  // ---------------------------------------------------------------------------

  lemma {:induction false} AppendViews(a: seq<Node>, b: seq<Node>)
    ensures Ids(a + b) == Ids(a) + Ids(b)
    ensures Labels(a + b) == Labels(a) + Labels(b)
    ensures Count(a + b) == Count(a) + Count(b)
  {
    if a == [] {
      assert a + b == b;
    } else {
      assert (a + b)[0] == a[0];
      assert (a + b)[1..] == a[1..] + b;
      AppendViews(a[1..], b);
    }
  }

  lemma SingletonViews(n: Node)
    ensures Ids([n]) == NodeIds(n) && Labels([n]) == NodeLabels(n) && Count([n]) == Size(n)
  {
    assert [n][1..] == [];
  }

  /** The views of a forest split around its `k`-th root. */
  lemma {:induction false} SplitAt(f: seq<Node>, k: nat)
    requires k < |f|
    ensures f == f[..k] + [f[k]] + f[k+1..]
    ensures Ids(f) == Ids(f[..k]) + NodeIds(f[k]) + Ids(f[k+1..])
    ensures Labels(f) == Labels(f[..k]) + NodeLabels(f[k]) + Labels(f[k+1..])
    ensures Count(f) == Count(f[..k]) + Size(f[k]) + Count(f[k+1..])
  {
    assert f == f[..k] + [f[k]] + f[k+1..];
    AppendViews(f[..k] + [f[k]], f[k+1..]);
    AppendViews(f[..k], [f[k]]);
    SingletonViews(f[k]);
  }

  lemma {:induction false} SizeMatchesIds(n: Node)
    ensures Size(n) == |NodeIds(n)| == |NodeLabels(n)|
  {
    CountMatchesIds(n.children);
  }

  /** The node count is the number of ids, and the number of labels. */
  lemma {:induction false} CountMatchesIds(f: seq<Node>)
    ensures Count(f) == |Ids(f)| == |Labels(f)|
  {
    if f != [] {
      SizeMatchesIds(f[0]);
      CountMatchesIds(f[1..]);
    }
  }

  /** A root's subtree ids are among the forest's ids. */
  lemma RootIdsIn(f: seq<Node>, i: nat)
    requires i < |f|
    ensures f[i].id in Ids(f)
    ensures multiset(NodeIds(f[i])) <= multiset(Ids(f))
  {
    SplitAt(f, i);
  }

  /** When a root's id occurs once, no other root carries it and it occurs in
      no other root's subtree. */
  lemma OnlyRootWithId(f: seq<Node>, i: nat)
    requires i < |f| && Occurrences(f, f[i].id) == 1
    ensures forall j :: 0 <= j < |f| && j != i ==> f[j].id != f[i].id
    ensures f[i].id !in Ids(f[..i]) && f[i].id !in Ids(f[i+1..])
  {
    var q := f[i].id;
    SplitAt(f, i);
    assert multiset(Ids(f[..i]))[q] == 0 && multiset(Ids(f[i+1..]))[q] == 0;
    forall j | 0 <= j < |f| && j != i
      ensures f[j].id != q
    {
      if j < i {
        RootIdsIn(f[..i], j);
      } else {
        RootIdsIn(f[i+1..], j - i - 1);
      }
    }
  }

  /** With unique ids, no two roots share an id. */
  lemma RootIdsDistinct(f: seq<Node>, i: nat, j: nat)
    requires Unique(f) && i < |f| && j < |f| && i != j
    ensures f[i].id != f[j].id
  {
    RootIdsIn(f, i);
    assert Occurrences(f, f[i].id) <= 1;
    OnlyRootWithId(f, i);
  }

  lemma {:induction false} FindAppend(a: seq<Node>, b: seq<Node>, q: string)
    ensures Find(a + b, q) == if q in Ids(a) then Find(a, q) else Find(b, q)
  {
    if a == [] {
      assert a + b == b;
    } else {
      assert (a + b)[0] == a[0];
      assert (a + b)[1..] == a[1..] + b;
      FindAppend(a[1..], b, q);
    }
  }

  /** Find reaches the `i`-th root when no earlier root's subtree has `q`. */
  lemma {:induction false} FindAt(f: seq<Node>, q: string, i: nat)
    requires i < |f| && f[i].id == q && q !in Ids(f[..i])
    ensures Find(f, q) == Some(f[i])
  {
    if i > 0 {
      assert f[..i][0] == f[0] && f[..i][1..] == f[1..][..i - 1];
      FindAt(f[1..], q, i - 1);
    }
  }

  lemma Associate<T>(a: multiset<T>, b: multiset<T>, c: multiset<T>)
    ensures (a + b) + c == a + (b + c)
  {
  }

  lemma Rearrange<T>(a: multiset<T>, b: multiset<T>, c: multiset<T>)
    ensures (a + b) + c == (a + c) + b
  {
  }

  /** `big` is `small` with `piece` inserted at one position. */
  ghost predicate InsertedIn<T>(big: seq<T>, small: seq<T>, piece: seq<T>) {
    exists k :: 0 <= k <= |small| && big == small[..k] + piece + small[k..]
  }

  lemma InsertedAtEnd<T>(small: seq<T>, piece: seq<T>)
    ensures InsertedIn(small + piece, small, piece)
  {
    var k := |small|;
    assert small + piece == small[..k] + piece + small[k..];
  }

  /** An insertion at `k` into `small` is an insertion at `|before| + k` into
      `before + small + after`. */
  lemma ShiftInsertion<T>(big: seq<T>, small: seq<T>, piece: seq<T>, k: nat, before: seq<T>, after: seq<T>)
    returns (j: nat)
    requires k <= |small| && big == small[..k] + piece + small[k..]
    ensures j == |before| + k && j <= |before + small + after|
    ensures before + big + after == (before + small + after)[..j] + piece + (before + small + after)[j..]
  {
    var whole := before + small + after;
    j := |before| + k;
    assert whole[..j] == before + small[..k];
    assert whole[j..] == small[k..] + after;
  }

  // ---------------------------------------------------------------------------
  // updateNode
  // ---------------------------------------------------------------------------

  lemma {:induction false} UpdateInKeepsShape(n: Node, id: string, p: Patch)
    ensures ShapeOf(UpdateIn(n, id, p)) == ShapeOf(n)
    ensures NodeIds(UpdateIn(n, id, p)) == NodeIds(n)
  {
    if n.id != id {
      UpdateKeepsShape(n.children, id, p);
    }
  }

  /** updateNode keeps every id, every kind and the whole parent/child
      structure with its sibling order; in particular the pre-order sequence
      of ids is the same. */
  lemma {:induction false} UpdateKeepsShape(tree: seq<Node>, id: string, p: Patch)
    ensures Shapes(UpdateNode(tree, id, p)) == Shapes(tree)
    ensures Ids(UpdateNode(tree, id, p)) == Ids(tree)
  {
    if tree != [] {
      UpdateInKeepsShape(tree[0], id, p);
      UpdateKeepsShape(tree[1..], id, p);
    }
  }

  lemma {:induction false} UpdateInAbsent(n: Node, id: string, p: Patch)
    requires id !in NodeIds(n)
    ensures UpdateIn(n, id, p) == n
  {
    UpdateAbsent(n.children, id, p);
  }

  /** updateNode with an id no node has rebuilds an equal forest. */
  lemma {:induction false} UpdateAbsent(tree: seq<Node>, id: string, p: Patch)
    requires id !in Ids(tree)
    ensures UpdateNode(tree, id, p) == tree
  {
    if tree != [] {
      UpdateInAbsent(tree[0], id, p);
      UpdateAbsent(tree[1..], id, p);
      assert tree == [tree[0]] + tree[1..];
    }
  }

  lemma PatchAllAppend(a: seq<Label>, b: seq<Label>, id: string, p: Patch)
    ensures PatchAll(a + b, id, p) == PatchAll(a, id, p) + PatchAll(b, id, p)
  {
    var l, r := PatchAll(a + b, id, p), PatchAll(a, id, p) + PatchAll(b, id, p);
    assert |l| == |r|;
    forall i | 0 <= i < |l|
      ensures l[i] == r[i]
    {
      if i >= |a| {
        assert (a + b)[i] == b[i - |a|];
      }
    }
  }

  lemma {:induction false} UpdateInTouchesOnlyTarget(n: Node, id: string, p: Patch)
    requires multiset(NodeIds(n))[id] <= 1
    ensures NodeLabels(UpdateIn(n, id, p)) == PatchAll(NodeLabels(n), id, p)
  {
    UpdateTouchesOnlyTarget(n.children, id, p);
    PatchAllAppend([LabelOf(n)], Labels(n.children), id, p);
    if n.id == id {
      UpdateAbsent(n.children, id, p);
    }
  }

  /** When at most one node has the id, updateNode changes exactly that node's
      name and comment (as far as the patch gives them) and leaves every other
      label, and the pre-order of all labels, as it was. */
  lemma {:induction false} UpdateTouchesOnlyTarget(tree: seq<Node>, id: string, p: Patch)
    requires Occurrences(tree, id) <= 1
    ensures Labels(UpdateNode(tree, id, p)) == PatchAll(Labels(tree), id, p)
  {
    if tree != [] {
      UpdateInTouchesOnlyTarget(tree[0], id, p);
      UpdateTouchesOnlyTarget(tree[1..], id, p);
      PatchAllAppend(NodeLabels(tree[0]), Labels(tree[1..]), id, p);
    }
  }

  /** An insertion into `small` is still an insertion once `after` follows. */
  lemma InsertThenAppend<T>(big: seq<T>, small: seq<T>, piece: seq<T>, k: nat, after: seq<T>)
    requires k <= |small| && big == small[..k] + piece + small[k..]
    ensures k <= |small + after|
    ensures big + after == (small + after)[..k] + piece + (small + after)[k..]
  {
    assert (small + after)[..k] == small[..k];
    assert (small + after)[k..] == small[k..] + after;
  }

  /** An insertion into `small` is still an insertion, shifted by `|before|`,
      once `before` precedes. */
  lemma PrependThenInsert<T>(before: seq<T>, big: seq<T>, small: seq<T>, piece: seq<T>, k: nat) returns (j: nat)
    requires k <= |small| && big == small[..k] + piece + small[k..]
    ensures j == |before| + k && j <= |before + small|
    ensures before + big == (before + small)[..j] + piece + (before + small)[j..]
  {
    j := |before| + k;
    assert (before + small)[..j] == before + small[..k];
    assert (before + small)[j..] == small[k..];
  }

  // ---------------------------------------------------------------------------
  // Replacing a node: the reference the edits are compared with
  // ---------------------------------------------------------------------------

  /** The subtree headed by `n` with every node whose id is `id` replaced,
      subtree and all, by `m`. */
  function ReplaceIn(n: Node, id: string, m: Node): Node {
    if n.id == id then m else n.(children := Replace(n.children, id, m))
  }

  /** The forest with every node whose id is `id` replaced by `m`. */
  function Replace(f: seq<Node>, id: string, m: Node): seq<Node> {
    if f == [] then [] else [ReplaceIn(f[0], id, m)] + Replace(f[1..], id, m)
  }

  /** The node `p` without its `i`-th child; the other children keep their order. */
  function WithoutChild(p: Node, i: nat): Node
    requires i < |p.children|
  {
    p.(children := p.children[..i] + p.children[i+1..])
  }

  lemma {:induction false} ReplaceInAbsent(n: Node, id: string, m: Node)
    requires id !in NodeIds(n)
    ensures ReplaceIn(n, id, m) == n
  {
    ReplaceAbsent(n.children, id, m);
  }

  lemma {:induction false} ReplaceAbsent(f: seq<Node>, id: string, m: Node)
    requires id !in Ids(f)
    ensures Replace(f, id, m) == f
  {
    if f != [] {
      ReplaceInAbsent(f[0], id, m);
      ReplaceAbsent(f[1..], id, m);
      assert f == [f[0]] + f[1..];
    }
  }

  // ---------------------------------------------------------------------------
  // addChild
  // ---------------------------------------------------------------------------

  lemma {:induction false} AddInAbsent(n: Node, parentId: string, child: Node)
    requires parentId !in NodeIds(n)
    ensures AddIn(n, parentId, child) == n
  {
    AddAbsent(n.children, parentId, child);
  }

  lemma {:induction false} AddAbsent(f: seq<Node>, parentId: string, child: Node)
    requires parentId !in Ids(f)
    ensures AddUnder(f, parentId, child) == f
  {
    if f != [] {
      AddInAbsent(f[0], parentId, child);
      AddAbsent(f[1..], parentId, child);
      assert f == [f[0]] + f[1..];
    }
  }

  lemma {:induction false} AddInIds(n: Node, parentId: string, child: Node)
    requires multiset(NodeIds(n))[parentId] == 1
    ensures multiset(NodeIds(AddIn(n, parentId, child))) == multiset(NodeIds(n)) + multiset(NodeIds(child))
  {
    if n.id == parentId {
      AppendViews(n.children, [child]);
      SingletonViews(child);
    } else {
      AddIds(n.children, parentId, child);
    }
  }

  /** addRecursive under a parent id that occurs exactly once adds the ids of
      `child` and no other. */
  lemma {:induction false} AddIds(f: seq<Node>, parentId: string, child: Node)
    requires Occurrences(f, parentId) == 1
    ensures multiset(Ids(AddUnder(f, parentId, child))) == multiset(Ids(f)) + multiset(NodeIds(child))
  {
    var r := AddUnder(f, parentId, child);
    assert r[0] == AddIn(f[0], parentId, child) && r[1..] == AddUnder(f[1..], parentId, child);
    if parentId in NodeIds(f[0]) {
      AddInIds(f[0], parentId, child);
      AddAbsent(f[1..], parentId, child);
    } else {
      AddInAbsent(f[0], parentId, child);
      AddIds(f[1..], parentId, child);
    }
  }

  lemma {:induction false} AddInFinds(n: Node, parentId: string, child: Node)
    requires parentId in NodeIds(n)
    ensures var parent := FindIn(n, parentId).value;
            FindIn(AddIn(n, parentId, child), parentId) == Some(parent.(children := parent.children + [child]))
  {
    if n.id != parentId {
      AddFinds(n.children, parentId, child);
    }
  }

  /** addRecursive appends `child` to the children of the first node in
      pre-order with the parent id. */
  lemma {:induction false} AddFinds(f: seq<Node>, parentId: string, child: Node)
    requires parentId in Ids(f)
    ensures var parent := Find(f, parentId).value;
            Find(AddUnder(f, parentId, child), parentId) == Some(parent.(children := parent.children + [child]))
  {
    var r := AddUnder(f, parentId, child);
    assert r[0] == AddIn(f[0], parentId, child) && r[1..] == AddUnder(f[1..], parentId, child);
    if parentId in NodeIds(f[0]) {
      AddInFinds(f[0], parentId, child);
    } else {
      AddInAbsent(f[0], parentId, child);
      AddFinds(f[1..], parentId, child);
    }
  }

  lemma {:induction false} AddInLabels(n: Node, parentId: string, child: Node) returns (k: nat)
    requires multiset(NodeIds(n))[parentId] == 1
    ensures var r := AddIn(n, parentId, child);
            k <= |NodeLabels(n)| && NodeLabels(r) == NodeLabels(n)[..k] + NodeLabels(child) + NodeLabels(n)[k..]
  {
    var r := AddIn(n, parentId, child);
    if n.id == parentId {
      AppendViews(n.children, [child]);
      SingletonViews(child);
      k := |NodeLabels(n)|;
      assert NodeLabels(n)[..k] == NodeLabels(n) && NodeLabels(n)[k..] == [];
    } else {
      var j := AddLabels(n.children, parentId, child);
      k := ShiftInsertion(Labels(r.children), Labels(n.children), NodeLabels(child), j, [LabelOf(n)], []);
      assert [LabelOf(n)] + Labels(r.children) + [] == NodeLabels(r);
      assert [LabelOf(n)] + Labels(n.children) + [] == NodeLabels(n);
    }
  }

  /** addRecursive under a parent id that occurs exactly once keeps every old
      label in its pre-order position, with the labels of `child` inserted at
      position `k`. */
  lemma {:induction false} AddLabels(f: seq<Node>, parentId: string, child: Node) returns (k: nat)
    requires Occurrences(f, parentId) == 1
    ensures var r := AddUnder(f, parentId, child);
            k <= |Labels(f)| && Labels(r) == Labels(f)[..k] + NodeLabels(child) + Labels(f)[k..]
  {
    var r := AddUnder(f, parentId, child);
    var head, rest := f[0], f[1..];
    assert r[0] == AddIn(head, parentId, child) && r[1..] == AddUnder(rest, parentId, child);
    assert Labels(r) == NodeLabels(r[0]) + Labels(r[1..]);
    assert Labels(f) == NodeLabels(head) + Labels(rest);
    if parentId in NodeIds(head) {
      k := AddInLabels(head, parentId, child);
      AddAbsent(rest, parentId, child);
      InsertThenAppend(NodeLabels(r[0]), NodeLabels(head), NodeLabels(child), k, Labels(rest));
    } else {
      AddInAbsent(head, parentId, child);
      var j := AddLabels(rest, parentId, child);
      k := PrependThenInsert(NodeLabels(head), Labels(r[1..]), Labels(rest), NodeLabels(child), j);
    }
  }

  lemma {:induction false} AddInReplaces(n: Node, parentId: string, child: Node)
    requires multiset(NodeIds(n))[parentId] == 1
    ensures FindIn(n, parentId).Some?
    ensures var parent := FindIn(n, parentId).value;
            AddIn(n, parentId, child) == ReplaceIn(n, parentId, parent.(children := parent.children + [child]))
  {
    if n.id != parentId {
      AddReplaces(n.children, parentId, child);
    }
  }

  /** addRecursive under a parent id that occurs exactly once is the forest
      with that one node replaced by itself with `child` appended to its
      children: no other node changes. */
  lemma {:induction false} AddReplaces(f: seq<Node>, parentId: string, child: Node)
    requires Occurrences(f, parentId) == 1
    ensures Find(f, parentId).Some?
    ensures var parent := Find(f, parentId).value;
            AddUnder(f, parentId, child) == Replace(f, parentId, parent.(children := parent.children + [child]))
  {
    var head, rest := f[0], f[1..];
    var parent := Find(f, parentId).value;
    var m := parent.(children := parent.children + [child]);
    if parentId in NodeIds(head) {
      AddInReplaces(head, parentId, child);
      AddAbsent(rest, parentId, child);
      ReplaceAbsent(rest, parentId, m);
    } else {
      AddInAbsent(head, parentId, child);
      ReplaceInAbsent(head, parentId, m);
      AddReplaces(rest, parentId, child);
    }
  }

  /** addChild with no parent appends the new node after the existing roots,
      which keep their order; the new node has the default name of its kind,
      an empty comment and no children. */
  lemma AddChildAtRoot(tree: seq<Node>, kind: Kind, newId: string)
    ensures var r := AddChild(tree, None, kind, newId);
            && |r| == |tree| + 1 && r[..|tree|] == tree
            && r[|tree|].id == newId && r[|tree|].kind == kind
            && r[|tree|].name == (if kind == Folder then "new-folder" else "new-file.txt")
            && r[|tree|].comment == "" && r[|tree|].children == []
            && Count(r) == Count(tree) + 1
            && Ids(r) == Ids(tree) + [newId]
  {
    var child := NewNode(newId, kind);
    AppendViews(tree, [child]);
    SingletonViews(child);
  }

  /** addChild under a parent id that occurs exactly once: that node's children
      become its old children followed by the new node and no other node
      changes, one node is added, the new id joins the ids, and every old label
      keeps its pre-order position. */
  lemma AddChildUnderParent(tree: seq<Node>, parentId: string, kind: Kind, newId: string)
    requires Occurrences(tree, parentId) == 1
    ensures Find(tree, parentId).Some?
    ensures var r := AddChild(tree, Some(parentId), kind, newId);
            var parent := Find(tree, parentId).value;
            && r == Replace(tree, parentId, parent.(children := parent.children + [NewNode(newId, kind)]))
            && Find(r, parentId) == Some(parent.(children := parent.children + [NewNode(newId, kind)]))
            && Count(r) == Count(tree) + 1
            && multiset(Ids(r)) == multiset(Ids(tree)) + multiset{newId}
            && InsertedIn(Labels(r), Labels(tree), [LabelOf(NewNode(newId, kind))])
  {
    var child := NewNode(newId, kind);
    var r := AddChild(tree, Some(parentId), kind, newId);
    AddReplaces(tree, parentId, child);
    AddIds(tree, parentId, child);
    AddFinds(tree, parentId, child);
    var k := AddLabels(tree, parentId, child);
    SingletonViews(child);
    assert NodeLabels(child) == [LabelOf(child)];
    CountMatchesIds(tree);
    CountMatchesIds(r);
    assert |multiset(Ids(r))| == |multiset(Ids(tree))| + 1;
  }

  /** addChild under an id no node has rebuilds an equal forest. */
  lemma AddChildMissingParent(tree: seq<Node>, parentId: string, kind: Kind, newId: string)
    requires parentId !in Ids(tree)
    ensures AddChild(tree, Some(parentId), kind, newId) == tree
  {
    AddAbsent(tree, parentId, NewNode(newId, kind));
  }

  /** With unique ids and an id no node has yet, addChild keeps ids unique. */
  lemma AddChildKeepsIdsUnique(tree: seq<Node>, parentId: Option<string>, kind: Kind, newId: string)
    requires Unique(tree) && newId !in Ids(tree)
    ensures Unique(AddChild(tree, parentId, kind, newId))
  {
    var r := AddChild(tree, parentId, kind, newId);
    if parentId.None? {
      AddChildAtRoot(tree, kind, newId);
      assert multiset(Ids(r)) == multiset(Ids(tree)) + multiset{newId};
    } else if parentId.value in Ids(tree) {
      assert Occurrences(tree, parentId.value) <= 1;
      AddChildUnderParent(tree, parentId.value, kind, newId);
    } else {
      AddChildMissingParent(tree, parentId.value, kind, newId);
    }
    forall q
      ensures Occurrences(r, q) <= 1
    {
      assert Occurrences(tree, q) <= 1;
    }
  }

  /** Dropping the children with id `q` from `a + [c]`, where `c` has id `q`,
      drops `c`. */
  lemma {:induction false} PruneDropsLast(a: seq<Node>, c: Node, q: string)
    requires c.id == q
    ensures PruneChildren(a + [c], q) == PruneChildren(a, q)
  {
    if a == [] {
      assert [] + [c] == [c];
    } else {
      assert (a + [c])[0] == a[0] && (a + [c])[1..] == a[1..] + [c];
      PruneDropsLast(a[1..], c, q);
    }
  }

  lemma {:induction false} AddInThenDelete(n: Node, parentId: string, child: Node)
    requires child.id !in NodeIds(n)
    ensures DeleteIn(AddIn(n, parentId, child), child.id) == n
  {
    var q := child.id;
    if n.id == parentId {
      PruneDropsLast(n.children, child, q);
      DeleteInAbsent(n, q);
    } else {
      PruneAddUnder(n.children, parentId, child);
    }
  }

  /** Rebuilding the children of a node after addRecursive, dropping the
      children with the new id, gives the old children back. */
  lemma {:induction false} PruneAddUnder(f: seq<Node>, parentId: string, child: Node)
    requires child.id !in Ids(f)
    ensures PruneChildren(AddUnder(f, parentId, child), child.id) == f
  {
    if f != [] {
      var a := AddUnder(f, parentId, child);
      assert a[0] == AddIn(f[0], parentId, child) && a[1..] == AddUnder(f[1..], parentId, child);
      assert a[0].id == f[0].id;
      AddInThenDelete(f[0], parentId, child);
      PruneAddUnder(f[1..], parentId, child);
      assert f == [f[0]] + f[1..];
    }
  }

  lemma {:induction false} DeleteUnderAddUnder(f: seq<Node>, parentId: string, child: Node)
    requires child.id !in Ids(f)
    ensures var a := AddUnder(f, parentId, child);
            && |a| == |f|
            && (forall i :: 0 <= i < |f| ==> a[i].id == f[i].id)
            && DeleteUnder(a, child.id) == f
  {
    if f != [] {
      var a := AddUnder(f, parentId, child);
      assert a[0] == AddIn(f[0], parentId, child) && a[1..] == AddUnder(f[1..], parentId, child);
      AddInThenDelete(f[0], parentId, child);
      DeleteUnderAddUnder(f[1..], parentId, child);
      assert f == [f[0]] + f[1..];
    }
  }

  /** Deleting the node addChild just made, with an id no node had, gives the
      old forest back, whether the node went to the roots, under a parent
      (even one whose id several nodes share), or nowhere. */
  lemma AddThenDelete(tree: seq<Node>, parentId: Option<string>, kind: Kind, newId: string)
    requires newId !in Ids(tree)
    ensures DeleteNode(AddChild(tree, parentId, kind, newId), newId) == tree
  {
    var child := NewNode(newId, kind);
    var a := AddChild(tree, parentId, kind, newId);
    if parentId.None? {
      forall j | 0 <= j < |tree|
        ensures tree[j].id != newId
      {
        RootIdsIn(tree, j);
      }
      WithoutIdAt(a, newId, |tree|);
      assert a[..|tree|] == tree && a[|tree| + 1..] == [];
    } else {
      DeleteUnderAddUnder(tree, parentId.value, child);
      forall j | 0 <= j < |a|
        ensures a[j].id != newId
      {
        RootIdsIn(tree, j);
      }
      WithoutIdFacts(a, newId);
    }
  }

  // ---------------------------------------------------------------------------
  // deleteNode
  // ---------------------------------------------------------------------------

  /** The filter keeps no root with id `q`, and it drops nothing exactly when
      no root has id `q`. */
  lemma {:induction false} WithoutIdFacts(f: seq<Node>, q: string)
    ensures var r := WithoutId(f, q);
            && |r| <= |f|
            && (forall i :: 0 <= i < |r| ==> r[i].id != q)
            && (|r| == |f| <==> forall i :: 0 <= i < |f| ==> f[i].id != q)
            && (|r| == |f| ==> r == f)
  {
    if f != [] {
      WithoutIdFacts(f[1..], q);
      var r := WithoutId(f, q);
      if f[0].id == q {
        assert !(forall i :: 0 <= i < |f| ==> f[i].id != q);
      } else {
        assert r[0] == f[0] && r[1..] == WithoutId(f[1..], q);
        assert (forall i :: 0 <= i < |f| ==> f[i].id != q) <==>
               (forall i :: 0 <= i < |f[1..]| ==> f[1..][i].id != q);
      }
    }
  }

  /** Filtering out the only root with id `q` leaves the other roots in order. */
  lemma {:induction false} WithoutIdAt(f: seq<Node>, q: string, i: nat)
    requires i < |f| && f[i].id == q
    requires forall j :: 0 <= j < |f| && j != i ==> f[j].id != q
    ensures WithoutId(f, q) == f[..i] + f[i+1..]
  {
    if i == 0 {
      WithoutIdFacts(f[1..], q);
    } else {
      WithoutIdAt(f[1..], q, i - 1);
      assert f[1..][..i - 1] + f[1..][i..] == f[1..i] + f[i+1..];
      assert [f[0]] + f[1..i] == f[..i];
    }
  }

  /** The one-pass child rebuild is the source's filter followed by map. */
  lemma {:induction false} PruneIsFilterThenMap(f: seq<Node>, q: string)
    ensures PruneChildren(f, q) == DeleteUnder(WithoutId(f, q), q)
  {
    if f != [] {
      PruneIsFilterThenMap(f[1..], q);
      if f[0].id != q {
        var w := WithoutId(f, q);
        assert w[0] == f[0] && w[1..] == WithoutId(f[1..], q);
      }
    }
  }

  lemma {:induction false} DeleteInAbsent(n: Node, q: string)
    requires q !in NodeIds(n)
    ensures DeleteIn(n, q) == n
  {
    forall i | 0 <= i < |n.children|
      ensures n.children[i].id != q
    {
      RootIdsIn(n.children, i);
    }
    WithoutIdFacts(n.children, q);
    PruneIsFilterThenMap(n.children, q);
    DeleteUnderAbsent(n.children, q);
  }

  lemma {:induction false} DeleteUnderAbsent(f: seq<Node>, q: string)
    requires q !in Ids(f)
    ensures DeleteUnder(f, q) == f
  {
    if f != [] {
      DeleteInAbsent(f[0], q);
      DeleteUnderAbsent(f[1..], q);
      assert f == [f[0]] + f[1..];
    }
  }

  /** deleteNode of an id no node has rebuilds an equal forest. */
  lemma DeleteAbsent(tree: seq<Node>, q: string)
    requires q !in Ids(tree)
    ensures DeleteNode(tree, q) == tree
  {
    forall i | 0 <= i < |tree|
      ensures tree[i].id != q
    {
      RootIdsIn(tree, i);
    }
    WithoutIdFacts(tree, q);
    DeleteUnderAbsent(tree, q);
  }

  /** deleteNode of a root id (ids unique): that root and its whole subtree are
      gone, the other roots keep their order, and the count drops by the size
      of the subtree. */
  lemma DeleteRoot(tree: seq<Node>, i: nat)
    requires Unique(tree) && i < |tree|
    ensures var r := DeleteNode(tree, tree[i].id);
            && r == tree[..i] + tree[i+1..]
            && Count(r) == Count(tree) - Size(tree[i])
            && multiset(Ids(r)) + multiset(NodeIds(tree[i])) == multiset(Ids(tree))
            && forall d :: d in NodeIds(tree[i]) ==> d !in Ids(r)
  {
    var q := tree[i].id;
    forall j | 0 <= j < |tree| && j != i
      ensures tree[j].id != q
    {
      RootIdsDistinct(tree, i, j);
    }
    WithoutIdAt(tree, q, i);
    var r := tree[..i] + tree[i+1..];
    assert DeleteNode(tree, q) == r;
    RemovedRootViews(tree, i);
  }

  /** The views of a forest with its `i`-th root taken out; with unique ids,
      none of that root's subtree ids remains. */
  lemma RemovedRootViews(tree: seq<Node>, i: nat)
    requires Unique(tree) && i < |tree|
    ensures var r := tree[..i] + tree[i+1..];
            && Count(r) == Count(tree) - Size(tree[i])
            && multiset(Ids(r)) + multiset(NodeIds(tree[i])) == multiset(Ids(tree))
            && forall d :: d in NodeIds(tree[i]) ==> d !in Ids(r)
  {
    var r := tree[..i] + tree[i+1..];
    AppendViews(tree[..i], tree[i+1..]);
    SplitAt(tree, i);
    forall d | d in NodeIds(tree[i])
      ensures d !in Ids(r)
    {
      assert Occurrences(tree, d) <= 1;
    }
  }

  lemma {:induction false} DeleteInRemoves(n: Node, q: string)
    requires n.id != q
    ensures q !in NodeIds(DeleteIn(n, q))
  {
    PruneRemoves(n.children, q);
  }

  lemma {:induction false} PruneRemoves(f: seq<Node>, q: string)
    ensures q !in Ids(PruneChildren(f, q))
  {
    if f != [] {
      PruneRemoves(f[1..], q);
      if f[0].id != q {
        DeleteInRemoves(f[0], q);
      }
    }
  }

  lemma {:induction false} DeleteUnderRemoves(f: seq<Node>, q: string)
    requires forall i :: 0 <= i < |f| ==> f[i].id != q
    ensures q !in Ids(DeleteUnder(f, q))
  {
    if f != [] {
      DeleteInRemoves(f[0], q);
      DeleteUnderRemoves(f[1..], q);
    }
  }

  /** deleteNode of an id that no root has removes every node with that id. */
  lemma DeleteNestedRemovesId(tree: seq<Node>, q: string)
    requires forall i :: 0 <= i < |tree| ==> tree[i].id != q
    ensures q !in Ids(DeleteNode(tree, q))
  {
    WithoutIdFacts(tree, q);
    DeleteUnderRemoves(tree, q);
  }

  /** When the only node with id `q` below `m` is its `i`-th child,
      deleteRecursive drops exactly that child. */
  lemma DropOnlyChild(m: Node, q: string, i: nat)
    requires multiset(NodeIds(m))[q] == 1
    requires i < |m.children| && m.children[i].id == q
    ensures FindIn(m, q) == Some(m.children[i])
    ensures DeleteIn(m, q).children == m.children[..i] + m.children[i+1..]
  {
    var ch := m.children;
    SplitAt(ch, i);
    assert m.id != q;
    OnlyRootWithId(ch, i);
    WithoutIdAt(ch, q, i);
    PruneIsFilterThenMap(ch, q);
    var rest := ch[..i] + ch[i+1..];
    AppendViews(ch[..i], ch[i+1..]);
    DeleteUnderAbsent(rest, q);
    FindAt(ch, q, i);
  }

  /** Whether `q` is a child id of `m`, given that `q` occurs once below `m`. */
  lemma ChildOrDeeper(m: Node, q: string) returns (i: int)
    requires m.id != q && multiset(NodeIds(m))[q] == 1
    ensures -1 <= i < |m.children|
    ensures i >= 0 ==> m.children[i].id == q
    ensures i < 0 ==> forall j :: 0 <= j < |m.children| ==> m.children[j].id != q
    ensures i < 0 ==> PruneChildren(m.children, q) == DeleteUnder(m.children, q)
    ensures i < 0 ==> Occurrences(m.children, q) == 1
  {
    WithoutIdFacts(m.children, q);
    PruneIsFilterThenMap(m.children, q);
    if j :| 0 <= j < |m.children| && m.children[j].id == q {
      i := j;
    } else {
      i := -1;
    }
  }

  lemma DropChildIds(m: Node, q: string, i: nat)
    requires multiset(NodeIds(m))[q] == 1
    requires i < |m.children| && m.children[i].id == q
    ensures FindIn(m, q) == Some(m.children[i])
    ensures multiset(NodeIds(DeleteIn(m, q))) + multiset(NodeIds(m.children[i])) == multiset(NodeIds(m))
  {
    var ch := m.children;
    var r := DeleteIn(m, q);
    DropOnlyChild(m, q, i);
    AppendViews(ch[..i], ch[i+1..]);
    SplitAt(ch, i);
    var front, back := multiset([m.id]) + multiset(Ids(ch[..i])), multiset(Ids(ch[i+1..]));
    assert multiset(NodeIds(r)) == front + back;
    assert multiset(NodeIds(m)) == front + multiset(NodeIds(ch[i])) + back;
    Rearrange(front, back, multiset(NodeIds(ch[i])));
  }

  lemma {:induction false} DeleteInIds(m: Node, q: string)
    requires m.id != q && multiset(NodeIds(m))[q] == 1
    ensures FindIn(m, q).Some?
    ensures multiset(NodeIds(DeleteIn(m, q))) + multiset(NodeIds(FindIn(m, q).value)) == multiset(NodeIds(m))
  {
    var ch := m.children;
    var r := DeleteIn(m, q);
    var i := ChildOrDeeper(m, q);
    if i >= 0 {
      DropChildIds(m, q, i);
    } else {
      DeleteUnderIds(ch, q);
      var kept := DeleteUnder(ch, q);
      assert r.children == kept;
      var gone := Find(ch, q).value;
      assert FindIn(m, q) == Some(gone);
      assert NodeIds(r) == [m.id] + Ids(kept);
      assert multiset(Ids(kept)) + multiset(NodeIds(gone)) == multiset(Ids(ch));
      assert multiset(NodeIds(r)) == multiset([m.id]) + multiset(Ids(kept));
      assert multiset(NodeIds(m)) == multiset([m.id]) + multiset(Ids(ch));
      Associate(multiset([m.id]), multiset(Ids(kept)), multiset(NodeIds(gone)));
      assert multiset(NodeIds(r)) + multiset(NodeIds(gone)) == multiset(NodeIds(m));
    }
  }

  /** deleteRecursive over a forest whose roots do not carry `q` and where `q`
      occurs once: exactly the ids of that node's subtree disappear. */
  lemma {:induction false} DeleteUnderIds(f: seq<Node>, q: string)
    requires forall i :: 0 <= i < |f| ==> f[i].id != q
    requires Occurrences(f, q) == 1
    ensures Find(f, q).Some?
    ensures multiset(Ids(DeleteUnder(f, q))) + multiset(NodeIds(Find(f, q).value)) == multiset(Ids(f))
  {
    var r := DeleteUnder(f, q);
    var head, rest := f[0], f[1..];
    assert r[0] == DeleteIn(head, q) && r[1..] == DeleteUnder(rest, q);
    assert Ids(f) == NodeIds(head) + Ids(rest);
    if q in NodeIds(head) {
      assert multiset(NodeIds(head))[q] == 1 && q !in Ids(rest);
      DeleteInIds(head, q);
      DeleteUnderAbsent(rest, q);
      assert Ids(r) == NodeIds(r[0]) + Ids(rest);
      assert Find(f, q) == FindIn(head, q);
      assert multiset(Ids(r)) == multiset(NodeIds(r[0])) + multiset(Ids(rest));
      assert multiset(Ids(f)) == multiset(NodeIds(head)) + multiset(Ids(rest));
      Rearrange(multiset(NodeIds(r[0])), multiset(Ids(rest)), multiset(NodeIds(FindIn(head, q).value)));
    } else {
      DeleteInAbsent(head, q);
      DeleteUnderIds(rest, q);
    }
  }

  lemma DropChildLabels(m: Node, q: string, i: nat) returns (k: nat)
    requires multiset(NodeIds(m))[q] == 1
    requires i < |m.children| && m.children[i].id == q
    ensures FindIn(m, q) == Some(m.children[i])
    ensures var r := DeleteIn(m, q);
            k <= |NodeLabels(r)| &&
            NodeLabels(m) == NodeLabels(r)[..k] + NodeLabels(m.children[i]) + NodeLabels(r)[k..]
  {
    var ch := m.children;
    var r := DeleteIn(m, q);
    DropOnlyChild(m, q, i);
    AppendViews(ch[..i], ch[i+1..]);
    SplitAt(ch, i);
    k := ShiftInsertion(Labels(ch), Labels(r.children), NodeLabels(ch[i]), |Labels(ch[..i])|, [LabelOf(m)], []);
    assert [LabelOf(m)] + Labels(r.children) + [] == NodeLabels(r);
    assert [LabelOf(m)] + Labels(ch) + [] == NodeLabels(m);
  }

  lemma {:induction false} DeleteInLabels(m: Node, q: string) returns (k: nat)
    requires m.id != q && multiset(NodeIds(m))[q] == 1
    ensures FindIn(m, q).Some?
    ensures var r := DeleteIn(m, q);
            k <= |NodeLabels(r)| &&
            NodeLabels(m) == NodeLabels(r)[..k] + NodeLabels(FindIn(m, q).value) + NodeLabels(r)[k..]
  {
    var ch := m.children;
    var r := DeleteIn(m, q);
    var i := ChildOrDeeper(m, q);
    if i >= 0 {
      k := DropChildLabels(m, q, i);
    } else {
      var j := DeleteUnderLabels(ch, q);
      var kept := DeleteUnder(ch, q);
      var gone := Find(ch, q).value;
      assert r.children == kept;
      assert FindIn(m, q) == Some(gone);
      k := ShiftInsertion(Labels(ch), Labels(kept), NodeLabels(gone), j, [LabelOf(m)], []);
      assert [LabelOf(m)] + Labels(kept) + [] == NodeLabels(r);
      assert [LabelOf(m)] + Labels(ch) + [] == NodeLabels(m);
    }
  }

  /** deleteRecursive over a forest whose roots do not carry `q` and where `q`
      occurs once: the labels of that node's subtree are cut out at position
      `k`, every other label keeps its place. */
  lemma {:induction false} DeleteUnderLabels(f: seq<Node>, q: string) returns (k: nat)
    requires forall i :: 0 <= i < |f| ==> f[i].id != q
    requires Occurrences(f, q) == 1
    ensures Find(f, q).Some?
    ensures var r := DeleteUnder(f, q);
            k <= |Labels(r)| &&
            Labels(f) == Labels(r)[..k] + NodeLabels(Find(f, q).value) + Labels(r)[k..]
  {
    var r := DeleteUnder(f, q);
    var head, rest := f[0], f[1..];
    assert r[0] == DeleteIn(head, q) && r[1..] == DeleteUnder(rest, q);
    assert Ids(f) == NodeIds(head) + Ids(rest);
    assert Labels(r) == NodeLabels(r[0]) + Labels(r[1..]);
    if q in NodeIds(head) {
      assert multiset(NodeIds(head))[q] == 1 && q !in Ids(rest);
      var j := DeleteInLabels(head, q);
      DeleteUnderAbsent(rest, q);
      var gone := FindIn(head, q).value;
      assert Find(f, q) == Some(gone);
      assert Labels(r) == NodeLabels(r[0]) + Labels(rest);
      assert Labels(f) == NodeLabels(head) + Labels(rest);
      k := j;
      InsertThenAppend(NodeLabels(head), NodeLabels(r[0]), NodeLabels(gone), k, Labels(rest));
    } else {
      assert Occurrences(rest, q) == 1;
      DeleteInAbsent(head, q);
      var j := DeleteUnderLabels(rest, q);
      var gone := Find(rest, q).value;
      assert Find(f, q) == Some(gone);
      assert Labels(f) == NodeLabels(head) + Labels(rest);
      assert Labels(r) == NodeLabels(head) + Labels(r[1..]);
      k := PrependThenInsert(NodeLabels(head), Labels(rest), Labels(r[1..]), NodeLabels(gone), j);
    }
  }

  /** deleteNode of a nested id that occurs exactly once: the node and all its
      descendants disappear, the count drops by the size of its subtree, and
      every other label keeps its pre-order position. With unique ids, none of
      the removed ids is left. */
  lemma DeleteNested(tree: seq<Node>, q: string)
    requires forall i :: 0 <= i < |tree| ==> tree[i].id != q
    requires Occurrences(tree, q) == 1
    ensures Find(tree, q).Some?
    ensures var r := DeleteNode(tree, q);
            var gone := Find(tree, q).value;
            && Count(r) == Count(tree) - Size(gone)
            && multiset(Ids(r)) + multiset(NodeIds(gone)) == multiset(Ids(tree))
            && InsertedIn(Labels(tree), Labels(r), NodeLabels(gone))
            && (Unique(tree) ==> forall d :: d in NodeIds(gone) ==> d !in Ids(r))
  {
    WithoutIdFacts(tree, q);
    var r := DeleteNode(tree, q);
    assert r == DeleteUnder(tree, q);
    DeleteUnderIds(tree, q);
    var k := DeleteUnderLabels(tree, q);
    var gone := Find(tree, q).value;
    CountMatchesIds(tree);
    CountMatchesIds(r);
    SizeMatchesIds(gone);
    assert |multiset(Ids(r))| + |multiset(NodeIds(gone))| == |multiset(Ids(tree))|;
    if Unique(tree) {
      forall d | d in NodeIds(gone)
        ensures d !in Ids(r)
      {
        assert Occurrences(tree, d) <= 1;
      }
    }
  }

  /** With unique ids, deleteRecursive on a node whose subtree holds the id
      changes one node only: the parent of the node with that id, which loses
      that child. */
  lemma {:induction false} DeleteInReplaces(n: Node, q: string) returns (parent: Node, i: nat)
    requires n.id != q && q in NodeIds(n)
    requires forall x :: multiset(NodeIds(n))[x] <= 1
    ensures FindIn(n, parent.id) == Some(parent)
    ensures i < |parent.children| && parent.children[i].id == q
    ensures DeleteIn(n, q) == ReplaceIn(n, parent.id, WithoutChild(parent, i))
    decreases n, 1
  {
    assert multiset(NodeIds(n)) == multiset([n.id]) + multiset(Ids(n.children));
    var j := ChildOrDeeper(n, q);
    if j >= 0 {
      parent, i := n, j;
      DropOnlyChild(n, q, j);
    } else {
      forall x
        ensures Occurrences(n.children, x) <= 1
      {
        assert multiset(NodeIds(n))[x] <= 1;
      }
      parent, i := DeleteUnderReplaces(n.children, q);
      assert multiset(Ids(n.children))[parent.id] >= 1;
      assert multiset(NodeIds(n))[parent.id] <= 1;
      assert n.id != parent.id;
    }
  }

  /** With unique ids and no root carrying the id, deleteRecursive mapped over
      the roots changes one node only: the parent of the node with that id,
      which loses that child. */
  lemma {:induction false} DeleteUnderReplaces(f: seq<Node>, q: string) returns (parent: Node, i: nat)
    requires forall j :: 0 <= j < |f| ==> f[j].id != q
    requires q in Ids(f) && Unique(f)
    ensures Find(f, parent.id) == Some(parent)
    ensures i < |parent.children| && parent.children[i].id == q
    ensures DeleteUnder(f, q) == Replace(f, parent.id, WithoutChild(parent, i))
    decreases f, 0
  {
    var head, rest := f[0], f[1..];
    assert multiset(Ids(f)) == multiset(NodeIds(head)) + multiset(Ids(rest));
    if q in NodeIds(head) {
      forall x
        ensures multiset(NodeIds(head))[x] <= 1
      {
        assert Occurrences(f, x) <= 1;
      }
      parent, i := DeleteInReplaces(head, q);
      ReplacedInHead(f, q, parent, i);
    } else {
      forall x
        ensures Occurrences(rest, x) <= 1
      {
        assert Occurrences(f, x) <= 1;
      }
      parent, i := DeleteUnderReplaces(rest, q);
      ReplacedInRest(f, q, parent, i);
    }
  }

  /** The step of DeleteUnderReplaces where the id lies in the first root. */
  lemma ReplacedInHead(f: seq<Node>, q: string, parent: Node, i: nat)
    requires f != [] && Unique(f) && q in NodeIds(f[0])
    requires FindIn(f[0], parent.id) == Some(parent)
    requires i < |parent.children|
    requires DeleteIn(f[0], q) == ReplaceIn(f[0], parent.id, WithoutChild(parent, i))
    ensures Find(f, parent.id) == Some(parent)
    ensures DeleteUnder(f, q) == Replace(f, parent.id, WithoutChild(parent, i))
  {
    var rest := f[1..];
    assert multiset(Ids(f)) == multiset(NodeIds(f[0])) + multiset(Ids(rest));
    assert Occurrences(f, q) <= 1 && Occurrences(f, parent.id) <= 1;
    assert multiset(Ids(rest))[q] == 0 && multiset(Ids(rest))[parent.id] == 0;
    DeleteUnderAbsent(rest, q);
    ReplaceAbsent(rest, parent.id, WithoutChild(parent, i));
  }

  /** The step of DeleteUnderReplaces where the id lies in a later root. */
  lemma ReplacedInRest(f: seq<Node>, q: string, parent: Node, i: nat)
    requires f != [] && Unique(f) && q !in NodeIds(f[0])
    requires Find(f[1..], parent.id) == Some(parent)
    requires i < |parent.children|
    requires DeleteUnder(f[1..], q) == Replace(f[1..], parent.id, WithoutChild(parent, i))
    ensures Find(f, parent.id) == Some(parent)
    ensures DeleteUnder(f, q) == Replace(f, parent.id, WithoutChild(parent, i))
  {
    var head := f[0];
    assert multiset(Ids(f)) == multiset(NodeIds(head)) + multiset(Ids(f[1..]));
    DeleteInAbsent(head, q);
    assert Occurrences(f, parent.id) <= 1;
    assert multiset(Ids(f[1..]))[parent.id] >= 1;
    assert multiset(NodeIds(head))[parent.id] == 0;
    ReplaceInAbsent(head, parent.id, WithoutChild(parent, i));
  }

  /** With unique ids, deleting an id that no root has changes exactly one
      node, the parent of the node with that id: it loses that child and keeps
      its other children in order. Every other node of the forest, and the
      list of roots, stay as they were. */
  lemma DeleteNestedReplacesParent(tree: seq<Node>, q: string) returns (parent: Node, i: nat)
    requires Unique(tree)
    requires forall j :: 0 <= j < |tree| ==> tree[j].id != q
    requires q in Ids(tree)
    ensures Find(tree, parent.id) == Some(parent)
    ensures i < |parent.children| && parent.children[i].id == q
    ensures DeleteNode(tree, q) == Replace(tree, parent.id, WithoutChild(parent, i))
  {
    WithoutIdFacts(tree, q);
    parent, i := DeleteUnderReplaces(tree, q);
  }


  lemma {:induction false} WithoutIdShrinks(f: seq<Node>, q: string)
    ensures multiset(Ids(WithoutId(f, q))) <= multiset(Ids(f))
  {
    if f != [] {
      WithoutIdShrinks(f[1..], q);
      if f[0].id != q {
        var r := WithoutId(f, q);
        assert r[0] == f[0] && r[1..] == WithoutId(f[1..], q);
      }
    }
  }

  lemma {:induction false} DeleteInShrinks(n: Node, q: string)
    ensures multiset(NodeIds(DeleteIn(n, q))) <= multiset(NodeIds(n))
  {
    PruneShrinks(n.children, q);
  }

  lemma {:induction false} PruneShrinks(f: seq<Node>, q: string)
    ensures multiset(Ids(PruneChildren(f, q))) <= multiset(Ids(f))
  {
    if f != [] {
      PruneShrinks(f[1..], q);
      if f[0].id != q {
        DeleteInShrinks(f[0], q);
      }
    }
  }

  lemma {:induction false} DeleteUnderShrinks(f: seq<Node>, q: string)
    ensures multiset(Ids(DeleteUnder(f, q))) <= multiset(Ids(f))
  {
    if f != [] {
      DeleteInShrinks(f[0], q);
      DeleteUnderShrinks(f[1..], q);
    }
  }

  /** deleteNode never adds an id, so it keeps ids unique. */
  lemma DeleteKeepsIdsUnique(tree: seq<Node>, q: string)
    requires Unique(tree)
    ensures multiset(Ids(DeleteNode(tree, q))) <= multiset(Ids(tree))
    ensures Unique(DeleteNode(tree, q))
  {
    var r := DeleteNode(tree, q);
    WithoutIdShrinks(tree, q);
    DeleteUnderShrinks(tree, q);
    forall d
      ensures Occurrences(r, d) <= 1
    {
      assert Occurrences(tree, d) <= 1;
    }
  }
}
