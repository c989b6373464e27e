/**
 * What the ASCII preview guarantees: the text is the rows of the forest in
 * pre-order, one line per node, each line led by one column per ancestor and
 * the connector that says whether the node is the last of its siblings.
 */
module AsciiProperties {
  import opened Tree
  import opened Ascii
  import TreeProperties

  // ---------------------------------------------------------------------------
  // Helpers
  // ---------------------------------------------------------------------------

  lemma ColumnsAppend(a: seq<bool>, last: bool)
    ensures Columns(a + [last]) == Columns(a) + Continuation(last)
  {
    assert (a + [last])[..|a|] == a;
  }

  lemma {:induction false} LinesAppend(x: seq<Row>, y: seq<Row>, base: string)
    ensures Lines(x + y, base) == Lines(x, base) + Lines(y, base)
  {
    if x == [] {
      assert x + y == y;
    } else {
      assert (x + y)[0] == x[0] && (x + y)[1..] == x[1..] + y;
      LinesAppend(x[1..], y, base);
    }
  }

  lemma {:induction false} RowLabelsAppend(x: seq<Row>, y: seq<Row>)
    ensures RowLabels(x + y) == RowLabels(x) + RowLabels(y)
  {
    if x == [] {
      assert x + y == y;
    } else {
      assert (x + y)[0] == x[0] && (x + y)[1..] == x[1..] + y;
      RowLabelsAppend(x[1..], y);
    }
  }

  lemma {:induction false} RowLabelsAt(rows: seq<Row>, k: nat)
    requires k < |rows|
    ensures |RowLabels(rows)| == |rows| && RowLabels(rows)[k] == rows[k].node
  {
    if k > 0 {
      RowLabelsAt(rows[1..], k - 1);
    } else {
      RowLabelsLength(rows[1..]);
    }
  }

  lemma {:induction false} RowLabelsLength(rows: seq<Row>)
    ensures |RowLabels(rows)| == |rows|
  {
    if rows != [] {
      RowLabelsLength(rows[1..]);
    }
  }

  /** The siblings from `i` on: the `i`-th subtree, then the later ones. */
  lemma SuffixViews(f: seq<Node>, i: nat)
    requires i < |f|
    ensures Labels(f[i..]) == NodeLabels(f[i]) + Labels(f[i+1..])
    ensures Count(f[i..]) == Size(f[i]) + Count(f[i+1..])
  {
    assert f[i..][0] == f[i] && f[i..][1..] == f[i+1..];
  }

  // ---------------------------------------------------------------------------
  // The text is the rows
  // ---------------------------------------------------------------------------

  /** Drawing the siblings from `i` on under the columns of `ancestors` gives
      the lines of their rows. */
  lemma {:induction false} RenderFromIsRows(f: seq<Node>, i: nat, base: string, ancestors: seq<bool>)
    requires i <= |f|
    ensures RenderFrom(f, i, base + Columns(ancestors)) == Lines(RowsFrom(f, i, ancestors), base)
    decreases f, |f| - i
  {
    if i < |f| {
      var isLast := i == |f| - 1;
      var row := Row(ancestors, isLast, LabelOf(f[i]));
      var below := RowsFrom(f[i].children, 0, ancestors + [isLast]);
      var later := RowsFrom(f, i + 1, ancestors);
      ColumnsAppend(ancestors, isLast);
      assert base + Columns(ancestors + [isLast]) == base + Columns(ancestors) + Continuation(isLast);
      RenderFromIsRows(f[i].children, 0, base, ancestors + [isLast]);
      RenderFromIsRows(f, i + 1, base, ancestors);
      LinesAppend([row] + below, later, base);
      LinesAppend([row], below, base);
      assert Lines([row], base) == RowText(row, base) + "\n";
    }
  }

  /** generateAsciiTree's text is the line of every row, in order. */
  lemma RenderIsRows(f: seq<Node>, prefix: string)
    ensures Render(f, prefix) == Lines(Rows(f), prefix)
  {
    RenderFromIsRows(f, 0, prefix, []);
    assert prefix + Columns([]) == prefix;
  }

  /** The rows of the siblings from `i` on carry their labels in pre-order. */
  lemma {:induction false} RowsFromInPreOrder(f: seq<Node>, i: nat, ancestors: seq<bool>)
    requires i <= |f|
    ensures RowLabels(RowsFrom(f, i, ancestors)) == Labels(f[i..])
    decreases f, |f| - i
  {
    if i < |f| {
      var isLast := i == |f| - 1;
      var row := Row(ancestors, isLast, LabelOf(f[i]));
      var below := RowsFrom(f[i].children, 0, ancestors + [isLast]);
      var later := RowsFrom(f, i + 1, ancestors);
      RowsFromInPreOrder(f[i].children, 0, ancestors + [isLast]);
      RowsFromInPreOrder(f, i + 1, ancestors);
      RowLabelsAppend([row] + below, later);
      RowLabelsAppend([row], below);
      assert RowLabels([row]) == [LabelOf(f[i])];
      assert f[i].children[0..] == f[i].children;
      SuffixViews(f, i);
    } else {
      assert f[i..] == [];
    }
  }

  /** One row per node, in depth-first pre-order. */
  lemma RowsInPreOrder(f: seq<Node>)
    ensures RowLabels(Rows(f)) == Labels(f)
    ensures |Rows(f)| == Count(f)
  {
    RowsFromInPreOrder(f, 0, []);
    assert f[0..] == f;
    RowLabelsLength(Rows(f));
    TreeProperties.CountMatchesIds(f);
  }

  /** Row `Count(f[j..i])` of the siblings from `j` on is the `i`-th sibling's
      own row: it is drawn after the whole subtrees of the earlier siblings. */
  lemma {:induction false} SiblingRow(f: seq<Node>, j: nat, i: nat, ancestors: seq<bool>)
    requires j <= i < |f|
    ensures Count(f[j..i]) < |RowsFrom(f, j, ancestors)|
    ensures RowsFrom(f, j, ancestors)[Count(f[j..i])] == Row(ancestors, i == |f| - 1, LabelOf(f[i]))
    decreases i - j
  {
    var rows := RowsFrom(f, j, ancestors);
    var isLast := j == |f| - 1;
    var below := RowsFrom(f[j].children, 0, ancestors + [isLast]);
    var later := RowsFrom(f, j + 1, ancestors);
    assert rows == [Row(ancestors, isLast, LabelOf(f[j]))] + below + later;
    if j == i {
      assert f[j..i] == [];
    } else {
      SiblingRow(f, j + 1, i, ancestors);
      RowsFromInPreOrder(f[j].children, 0, ancestors + [isLast]);
      assert f[j].children[0..] == f[j].children;
      RowLabelsLength(below);
      TreeProperties.CountMatchesIds(f[j].children);
      assert |below| == Count(f[j].children);
      assert f[j..i][0] == f[j] && f[j..i][1..] == f[j+1..i];
      assert Count(f[j..i]) == 1 + |below| + Count(f[j+1..i]);
      assert rows[1 + |below| + Count(f[j+1..i])] == later[Count(f[j+1..i])];
    }
  }

  /** The `i`-th root is drawn on line `Count(tree[..i])`, with no ancestor
      columns and with the corner connector exactly when it is the last root. */
  lemma RootRow(tree: seq<Node>, i: nat)
    requires i < |tree|
    ensures Count(tree[..i]) < |Rows(tree)|
    ensures Rows(tree)[Count(tree[..i])] == Row([], i == |tree| - 1, LabelOf(tree[i]))
  {
    SiblingRow(tree, 0, i, []);
    assert tree[0..i] == tree[..i];
  }

  lemma {:induction false} RowDepthsAppend(x: seq<Row>, y: seq<Row>)
    ensures RowDepths(x + y) == RowDepths(x) + RowDepths(y)
  {
    if x == [] {
      assert x + y == y;
    } else {
      assert (x + y)[0] == x[0] && (x + y)[1..] == x[1..] + y;
      RowDepthsAppend(x[1..], y);
    }
  }

  lemma {:induction false} RowDepthsAt(rows: seq<Row>, k: nat)
    requires k < |rows|
    ensures |RowDepths(rows)| == |rows| && RowDepths(rows)[k] == |rows[k].ancestors|
  {
    if k > 0 {
      RowDepthsAt(rows[1..], k - 1);
    } else {
      RowDepthsLength(rows[1..]);
    }
  }

  lemma {:induction false} RowDepthsLength(rows: seq<Row>)
    ensures |RowDepths(rows)| == |rows|
  {
    if rows != [] {
      RowDepthsLength(rows[1..]);
    }
  }

  /** Every row of the siblings from `i` on has one ancestor flag per level
      of depth, counted from the siblings' own depth `|ancestors|`. */
  lemma {:induction false} RowsFromDepths(f: seq<Node>, i: nat, ancestors: seq<bool>)
    requires i <= |f|
    ensures RowDepths(RowsFrom(f, i, ancestors)) == Depths(f[i..], |ancestors|)
    decreases f, |f| - i
  {
    if i < |f| {
      var isLast := i == |f| - 1;
      var row := Row(ancestors, isLast, LabelOf(f[i]));
      var below := RowsFrom(f[i].children, 0, ancestors + [isLast]);
      var later := RowsFrom(f, i + 1, ancestors);
      RowsFromDepths(f[i].children, 0, ancestors + [isLast]);
      RowsFromDepths(f, i + 1, ancestors);
      RowDepthsAppend([row] + below, later);
      RowDepthsAppend([row], below);
      assert RowDepths([row]) == [|ancestors|];
      assert f[i].children[0..] == f[i].children;
      assert f[i..][0] == f[i] && f[i..][1..] == f[i+1..];
    } else {
      assert f[i..] == [];
    }
  }

  /** Each ancestor adds three characters of indentation. */
  lemma {:induction false} ColumnsWidth(ancestors: seq<bool>)
    ensures |Columns(ancestors)| == 3 * |ancestors|
    ensures '\n' !in Columns(ancestors)
  {
    if ancestors != [] {
      ColumnsWidth(ancestors[..|ancestors| - 1]);
    }
  }

  /** Line `k` draws the `k`-th node in pre-order; its prefix is followed by
      three indentation characters per level of that node's depth. */
  lemma Indentation(f: seq<Node>, prefix: string, k: nat)
    requires k < Count(f)
    ensures k < |Rows(f)| && k < |Depths(f, 0)|
    ensures var r := Rows(f)[k];
            && |r.ancestors| == Depths(f, 0)[k]
            && |Columns(r.ancestors)| == 3 * Depths(f, 0)[k]
  {
    RowsInPreOrder(f);
    RowsFromDepths(f, 0, []);
    assert f[0..] == f;
    RowDepthsAt(Rows(f), k);
    ColumnsWidth(Rows(f)[k].ancestors);
  }

  /** The columns of a flag sequence are those of its first `n` flags followed
      by those of the rest. */
  lemma {:induction false} ColumnsSplit(a: seq<bool>, n: nat)
    requires n <= |a|
    ensures Columns(a) == Columns(a[..n]) + Columns(a[n..])
    decreases |a|
  {
    if n == |a| {
      assert a[..n] == a && a[n..] == [];
    } else {
      var init := a[..|a| - 1];
      ColumnsSplit(init, n);
      assert init[..n] == a[..n];
      var rest := a[n..];
      assert rest[..|rest| - 1] == init[n..];
      assert rest[|rest| - 1] == a[|a| - 1];
      assert Columns(rest) == Columns(init[n..]) + Continuation(a[|a| - 1]);
    }
  }

  /** Every row drawn for the siblings from `i` on keeps the flags of the
      ancestors it was drawn under as the start of its own flags. */
  lemma {:induction false} RowsKeepAncestors(f: seq<Node>, i: nat, ancestors: seq<bool>)
    requires i <= |f|
    ensures forall k :: 0 <= k < |RowsFrom(f, i, ancestors)| ==>
              var a := RowsFrom(f, i, ancestors)[k].ancestors;
              |ancestors| <= |a| && a[..|ancestors|] == ancestors
    decreases f, |f| - i
  {
    if i < |f| {
      var isLast := i == |f| - 1;
      var row := Row(ancestors, isLast, LabelOf(f[i]));
      var below := RowsFrom(f[i].children, 0, ancestors + [isLast]);
      var later := RowsFrom(f, i + 1, ancestors);
      var rows := RowsFrom(f, i, ancestors);
      assert rows == [row] + below + later;
      RowsKeepAncestors(f[i].children, 0, ancestors + [isLast]);
      RowsKeepAncestors(f, i + 1, ancestors);
      forall k | 0 <= k < |rows|
        ensures |ancestors| <= |rows[k].ancestors| && rows[k].ancestors[..|ancestors|] == ancestors
      {
        if k == 0 {
          assert rows[k] == row;
        } else if k <= |below| {
          var a := below[k - 1].ancestors;
          assert rows[k] == below[k - 1];
          assert a[..|ancestors| + 1] == ancestors + [isLast];
          assert a[..|ancestors|] == (ancestors + [isLast])[..|ancestors|];
        } else {
          assert rows[k] == later[k - 1 - |below|];
        }
      }
    }
  }

  /** The continuation rule: the `Count(f[i].children)` rows drawn right after
      the `i`-th sibling's own row are its descendants. Each of them carries
      the sibling's ancestors followed by the sibling's own last-flag, so its
      text starts with the sibling's prefix followed by "   " when the sibling
      is the last one and by "│  " otherwise. */
  lemma ChildRowsPrefix(f: seq<Node>, i: nat, base: string, ancestors: seq<bool>)
    requires i < |f|
    ensures Count(f[i].children) < |RowsFrom(f, i, ancestors)|
    ensures var isLast := i == |f| - 1;
            var rows := RowsFrom(f, i, ancestors);
            forall k :: 1 <= k <= Count(f[i].children) ==>
              && |ancestors| < |rows[k].ancestors|
              && rows[k].ancestors[..|ancestors| + 1] == ancestors + [isLast]
              && base + Columns(ancestors) + Continuation(isLast) <= RowText(rows[k], base)
  {
    var isLast := i == |f| - 1;
    var rows := RowsFrom(f, i, ancestors);
    var inner := ancestors + [isLast];
    var below := RowsFrom(f[i].children, 0, inner);
    var later := RowsFrom(f, i + 1, ancestors);
    assert rows == [Row(ancestors, isLast, LabelOf(f[i]))] + below + later;
    RowsFromInPreOrder(f[i].children, 0, inner);
    assert f[i].children[0..] == f[i].children;
    RowLabelsLength(below);
    TreeProperties.CountMatchesIds(f[i].children);
    assert |below| == Count(f[i].children);
    RowsKeepAncestors(f[i].children, 0, inner);
    forall k | 1 <= k <= Count(f[i].children)
      ensures |ancestors| < |rows[k].ancestors|
      ensures rows[k].ancestors[..|ancestors| + 1] == inner
      ensures base + Columns(ancestors) + Continuation(isLast) <= RowText(rows[k], base)
    {
      assert rows[k] == below[k - 1];
      assert rows[k].ancestors[..|inner|][..|ancestors|] == ancestors;
      LeadingColumns(rows[k], base, ancestors, isLast);
    }
  }

  /** A row whose flags start with `ancestors` and then `isLast` has a text that
      starts with the base, the columns of `ancestors` and the column of `isLast`. */
  lemma LeadingColumns(r: Row, base: string, ancestors: seq<bool>, isLast: bool)
    requires |ancestors| < |r.ancestors| && r.ancestors[..|ancestors| + 1] == ancestors + [isLast]
    ensures base + Columns(ancestors) + Continuation(isLast) <= RowText(r, base)
  {
    var inner := ancestors + [isLast];
    ColumnsAppend(ancestors, isLast);
    ColumnsSplit(r.ancestors, |inner|);
    JoinPrefix(base, Columns(ancestors), Continuation(isLast), Columns(r.ancestors[|inner|..]),
               Connector(r.last) + Caption(r.node));
  }

  /** Splitting a string into pieces and regrouping them keeps its start. */
  lemma JoinPrefix(a: string, b: string, c: string, d: string, e: string)
    ensures a + b + c <= a + ((b + c) + d) + e
  {
    assert a + ((b + c) + d) + e == (a + b + c) + (d + e);
  }

  // ---------------------------------------------------------------------------
  // Line breaks
  // ---------------------------------------------------------------------------

  lemma RowTextUnbroken(r: Row, base: string)
    requires '\n' !in base && '\n' !in r.node.name && '\n' !in r.node.comment
    ensures '\n' !in RowText(r, base)
  {
    ColumnsWidth(r.ancestors);
  }

  lemma {:induction false} LinesBreaks(rows: seq<Row>, base: string)
    requires '\n' !in base
    requires forall k :: 0 <= k < |rows| ==> '\n' !in rows[k].node.name && '\n' !in rows[k].node.comment
    ensures multiset(Lines(rows, base))['\n'] == |rows|
  {
    if rows != [] {
      RowTextUnbroken(rows[0], base);
      LinesBreaks(rows[1..], base);
      var text := RowText(rows[0], base);
      assert multiset(text)['\n'] == 0;
      assert multiset(Lines(rows, base)) == multiset(text) + multiset("\n") + multiset(Lines(rows[1..], base));
    }
  }

  /** When no name, comment or prefix holds a line break, the text has exactly
      one line break per node: one line for each node. */
  lemma LineBreakPerNode(f: seq<Node>, prefix: string)
    requires '\n' !in prefix
    requires forall k :: 0 <= k < |Labels(f)| ==> '\n' !in Labels(f)[k].name && '\n' !in Labels(f)[k].comment
    ensures multiset(Render(f, prefix))['\n'] == Count(f)
  {
    RenderIsRows(f, prefix);
    RowsInPreOrder(f);
    var rows := Rows(f);
    forall k | 0 <= k < |rows|
      ensures '\n' !in rows[k].node.name && '\n' !in rows[k].node.comment
    {
      RowLabelsAt(rows, k);
    }
    LinesBreaks(rows, prefix);
  }

  /** The preview is empty exactly when the forest is. */
  lemma RenderEmpty(f: seq<Node>, prefix: string)
    ensures Render(f, prefix) == "" <==> f == []
  {
    if f != [] {
      RenderIsRows(f, prefix);
      RowsInPreOrder(f);
      TreeProperties.SizeMatchesIds(f[0]);
      assert |Rows(f)| > 0;
      assert |Lines(Rows(f), prefix)| > 0;
    }
  }

  // ---------------------------------------------------------------------------
  // The page's starting forest
  // ---------------------------------------------------------------------------

  /** A single childless node is drawn as one line with the corner connector. */
  lemma SingleLeaf(n: Node, prefix: string)
    requires n.children == []
    ensures Render([n], prefix) == prefix + Elbow + Caption(LabelOf(n)) + "\n"
  {
    assert RenderFrom([n], 1, prefix) == "";
    assert Render(n.children, prefix + Blank) == "";
  }

  /** The one line drawn for the content of the starting forest's `src`. */
  lemma DefaultSourceLine()
    ensures Render(DefaultForest()[0].children, "│  ") == "│  └─ index.ts  #🚀 entry point\n"
  {
    var entry := DefaultForest()[0].children[0];
    assert Caption(LabelOf(entry)) == "index.ts  #🚀 entry point";
    SingleLeaf(entry, "│  ");
  }

  /** The preview of the forest the page starts with. */
  lemma DefaultPreview()
    ensures Render(DefaultForest(), "") ==
              "├─ src/\n" +
              "│  └─ index.ts  #🚀 entry point\n" +
              "└─ README.md\n"
  {
    var f := DefaultForest();
    var src, readme := f[0], f[1];
    DefaultSourceLine();
    assert Caption(LabelOf(readme)) == "README.md";
    SingleLeaf(readme, "");
    assert f[1..] == [readme];
    assert RenderFrom(f, 1, "") == "└─ README.md\n";
    assert "" + Continuation(false) == "│  ";
    assert "" + Connector(false) + Caption(LabelOf(src)) + "\n" == "├─ src/\n";
  }
}
