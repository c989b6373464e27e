/**
 * The ASCII preview: a forest drawn as one line per node, in depth-first
 * pre-order, each line made of the continuation columns of the node's
 * ancestors, a branch connector, the node's name and its comment.
 */
module Ascii {
  import opened Tree

  /** Connector of a node that has a later sibling. */
  const Tee: string := "├─ "
  /** Connector of the last node among its siblings. */
  const Elbow: string := "└─ "
  /** Column under an ancestor that has a later sibling. */
  const Pipe: string := "│  "
  /** Column under an ancestor that is the last among its siblings. */
  const Blank: string := "   "

  function Connector(isLast: bool): string {
    if isLast then Elbow else Tee
  }

  function Continuation(isLast: bool): string {
    if isLast then Blank else Pipe
  }

  /** What a line shows of its node: the name, a `/` after a folder's name,
      and `  #comment` when the comment is not empty. */
  function Caption(l: Label): string {
    l.name + (if l.kind == Folder then "/" else "") + (if l.comment != "" then "  #" + l.comment else "")
  }

  // ---------------------------------------------------------------------------
  // generateAsciiTree
  // ---------------------------------------------------------------------------

  /** The text generateAsciiTree produces for `nodes` under `prefix`. */
  function Render(nodes: seq<Node>, prefix: string): string
    decreases nodes, 1
  {
    RenderFrom(nodes, 0, prefix)
  }

  /** The text of the siblings `nodes[i..]`: for each, its line, then its
      children drawn under the prefix extended by its continuation column. */
  function RenderFrom(nodes: seq<Node>, i: nat, prefix: string): string
    requires i <= |nodes|
    decreases nodes, 0, |nodes| - i
  {
    if i == |nodes| then ""
    else
      var isLast := i == |nodes| - 1;
      prefix + Connector(isLast) + Caption(LabelOf(nodes[i])) + "\n"
      + Render(nodes[i].children, prefix + Continuation(isLast))
      + RenderFrom(nodes, i + 1, prefix)
  }

  /** Appending the `i`-th sibling's line and its children's text to the text
      of the siblings before it gives the text of the siblings up to `i`. */
  lemma NextEntry(nodes: seq<Node>, i: nat, prefix: string, done: string)
    requires i < |nodes|
    requires done + RenderFrom(nodes, i, prefix) == Render(nodes, prefix)
    ensures var isLast := i == |nodes| - 1;
            var line := prefix + Connector(isLast) + Caption(LabelOf(nodes[i])) + "\n";
            var below := Render(nodes[i].children, prefix + Continuation(isLast));
            done + line + below + RenderFrom(nodes, i + 1, prefix) == Render(nodes, prefix)
  {
    var isLast := i == |nodes| - 1;
    var line := prefix + Connector(isLast) + Caption(LabelOf(nodes[i])) + "\n";
    var below := Render(nodes[i].children, prefix + Continuation(isLast));
    var rest := RenderFrom(nodes, i + 1, prefix);
    assert RenderFrom(nodes, i, prefix) == line + below + rest;
    assert done + line + below + rest == done + (line + below + rest);
  }

  /** A node's line, split into the two pieces the loop appends before the
      line break: the connector with the name, and the comment. */
  lemma LineParts(prefix: string, isLast: bool, n: Node) returns (head: string, tail: string)
    ensures head == prefix + Connector(isLast) + n.name + (if n.kind == Folder then "/" else "")
    ensures tail == if n.comment != "" then "  #" + n.comment else ""
    ensures head + tail + "\n" == prefix + Connector(isLast) + Caption(LabelOf(n)) + "\n"
  {
    head := prefix + Connector(isLast) + n.name + (if n.kind == Folder then "/" else "");
    tail := if n.comment != "" then "  #" + n.comment else "";
  }

  /** The part of the loop body that appends a node's own line: the prefix,
      the connector, the name with `/` for a folder, the comment when there is
      one, and the line break. */
  method AppendLine(result: string, prefix: string, isLast: bool, node: Node) returns (r: string)
    ensures r == result + (prefix + Connector(isLast) + Caption(LabelOf(node)) + "\n")
  {
    ghost var head, tail := LineParts(prefix, isLast, node);
    var connector := if isLast then "└─ " else "├─ ";
    assert connector == Connector(isLast);
    r := result + (prefix + connector + node.name + (if node.kind == Folder then "/" else ""));
    assert r == result + head;
    if node.comment != "" {
      r := r + ("  #" + node.comment);
    }
    assert r == result + head + tail;
    r := r + "\n";
    assert r == result + head + tail + "\n";
    assert result + head + tail + "\n" == result + (head + tail + "\n");
  }

  /** generateAsciiTree: the loop over the siblings appends each node's line
      and, when the node has children, the text drawn for them one level
      deeper. */
  method GenerateAsciiTree(nodes: seq<Node>, prefix: string) returns (result: string)
    ensures result == Render(nodes, prefix)
    decreases nodes
  {
    result := "";
    var index := 0;
    while index < |nodes|
      invariant index <= |nodes|
      invariant result + RenderFrom(nodes, index, prefix) == Render(nodes, prefix)
    {
      ghost var done := result;
      var node := nodes[index];
      var isLast := index == |nodes| - 1;
      result := AppendLine(result, prefix, isLast, node);
      ghost var below := Render(node.children, prefix + Continuation(isLast));
      if |node.children| > 0 {
        var childPrefix := prefix + (if isLast then "   " else "│  ");
        var sub := GenerateAsciiTree(node.children, childPrefix);
        result := result + sub;
      }
      NextEntry(nodes, index, prefix, done);
      index := index + 1;
    }
  }

  // ---------------------------------------------------------------------------
  // Reference description: the rows of the drawing
  // ---------------------------------------------------------------------------

  /** One line of the drawing: for each ancestor, whether it was the last
      among its siblings; whether the node itself is; and the node's label. */
  datatype Row = Row(ancestors: seq<bool>, last: bool, node: Label)

  /** The columns drawn for a line's ancestors. */
  function Columns(ancestors: seq<bool>): string {
    if ancestors == [] then ""
    else Columns(ancestors[..|ancestors| - 1]) + Continuation(ancestors[|ancestors| - 1])
  }

  function RowText(r: Row, base: string): string {
    base + Columns(r.ancestors) + Connector(r.last) + Caption(r.node)
  }

  /** Every row's text followed by a line break. */
  function Lines(rows: seq<Row>, base: string): string {
    if rows == [] then "" else RowText(rows[0], base) + "\n" + Lines(rows[1..], base)
  }

  /** The rows of `f[i..]` in pre-order, all below the given ancestors. */
  function RowsFrom(f: seq<Node>, i: nat, ancestors: seq<bool>): seq<Row>
    requires i <= |f|
    decreases f, |f| - i
  {
    if i == |f| then []
    else
      var isLast := i == |f| - 1;
      [Row(ancestors, isLast, LabelOf(f[i]))]
      + RowsFrom(f[i].children, 0, ancestors + [isLast])
      + RowsFrom(f, i + 1, ancestors)
  }

  function Rows(f: seq<Node>): seq<Row> {
    RowsFrom(f, 0, [])
  }

  function RowLabels(rows: seq<Row>): seq<Label> {
    if rows == [] then [] else [rows[0].node] + RowLabels(rows[1..])
  }

  /** The depth of every node of `f` in pre-order, the roots being at depth `d`. */
  function Depths(f: seq<Node>, d: nat): seq<nat> {
    if f == [] then [] else [d] + Depths(f[0].children, d + 1) + Depths(f[1..], d)
  }

  function RowDepths(rows: seq<Row>): seq<nat> {
    if rows == [] then [] else [|rows[0].ancestors|] + RowDepths(rows[1..])
  }

  /** The default forest the page starts with. */
  function DefaultForest(): seq<Node> {
    [ Node("1", "src", Folder, "", [Node("2", "index.ts", File, "🚀 entry point", [])]),
      Node("3", "README.md", File, "", []) ]
  }
}
