# ASCII tree builder — a Dafny model

The ASCII tree builder lets a user edit a forest of files and folders and
shows it as an ASCII drawing. This project models two parts of it:

- **The three forest edits** of `components/tree-builder.tsx`:
  - `updateNode` patches the name and comment of the node with a given id.
  - `addChild` appends a fresh node, either to the roots or to the children of a parent id.
  - `deleteNode` filters a root by id or, failing that, filters every nested sibling list.

  Each edit returns a new forest and leaves its input as it was. They are
  modelled as functions over the `Tree.Node` datatype in `tree.dfy`. Their
  properties are proved in `tree_props.dfy` (module `TreeProperties`):
  - node counts;
  - the pre-order of ids and of labels (a label is the id, name, kind and comment of a node);
  - what stays unchanged, stated exactly against `TreeProperties.Replace`, which swaps the node with a given id for another node;
  - that deleting a node addChild just made restores the forest;
  - that unique ids stay unique.
- **The preview renderer** `generateAsciiTree` of `components/ascii-preview.tsx`.
  - `Ascii.GenerateAsciiTree` is a method in `ascii.dfy`. It has the source's loop over the siblings, its string accumulator, and its recursive call for a node's children.
  - It is proved equal to the recursive function `Ascii.Render`.
  - `Render` is in turn proved equal to a second, independent description of the drawing, `Ascii.Rows`: one row per node in pre-order. A row records, for each ancestor, whether that ancestor was the last of its siblings, whether the node itself is, and the node's label.
  - The properties of the drawing are proved in `ascii_props.dfy` (module `AsciiProperties`): lines in pre-order, one line break per node, connectors, indentation, and the exact text drawn for the page's starting forest.

Facts about the model:
- The id that `addChild` takes from the clock is a parameter `newId`.
- The `onTreeChange` callback is replaced by returning the new forest.
- Strings are sequences of Unicode characters.

## Model

| member | source | states |
|---|---|---|
| TreeProperties.UpdateKeepsShape | components/tree-builder.tsx:23-34 | updateNode keeps every id, every kind, the parent/child structure and the sibling order; the pre-order sequence of ids is unchanged |
| TreeProperties.UpdateTouchesOnlyTarget | components/tree-builder.tsx:23-34 | when at most one node has the id, the labels of the result are the old labels in the same order. Only the label with that id has its name and comment replaced, by whichever fields the patch gives |
| TreeProperties.UpdateAbsent | components/tree-builder.tsx:23-34 | updateNode with an id no node has gives a forest equal to the input |
| TreeProperties.AddChildAtRoot | components/tree-builder.tsx:36-48 | with no parent, the old roots are kept in order and one node is appended at the end. It has the new id, the given kind, the name "new-folder" or "new-file.txt", an empty comment and no children. The count grows by one, and the ids become the old ids followed by the new id |
| TreeProperties.AddChildUnderParent | components/tree-builder.tsx:36-62 | when the parent id occurs once, the result is the old forest with that one node replaced by itself with the new node appended to its children: every other node, and the order of roots and siblings, is unchanged. The count grows by one, the id multiset gains the new id, and the old labels keep their pre-order with the new label inserted at one place |
| TreeProperties.AddIds | components/tree-builder.tsx:50-62 | addRecursive mapped over a forest, under a parent id that occurs once, adds exactly the ids of the new node to the id multiset |
| TreeProperties.AddFinds | components/tree-builder.tsx:50-62 | after addRecursive, the first node in pre-order with the parent id is the old parent with the new node appended to its children |
| TreeProperties.AddLabels | components/tree-builder.tsx:50-62 | addRecursive under a parent id that occurs once inserts the new node's labels at one position of the pre-order, with every old label in its old order |
| TreeProperties.AddReplaces | components/tree-builder.tsx:50-62 | addRecursive mapped over a forest, under a parent id that occurs once, rebuilds the forest with only that node changed, by appending the new node to its children |
| TreeProperties.AddChildMissingParent | components/tree-builder.tsx:50-62 | addChild under an id no node has gives a forest equal to the input |
| TreeProperties.AddChildKeepsIdsUnique | components/tree-builder.tsx:36-63 | when the ids are unique and the new id is not used yet, the ids stay unique after addChild, in all three cases |
| TreeProperties.AddThenDelete | components/tree-builder.tsx:36-79 | deleting the id addChild just gave its new node, when no node had that id before, gives the old forest back. This holds at the roots, under a parent, under a parent id several nodes share, and under a missing parent |
| TreeProperties.WithoutIdFacts | components/tree-builder.tsx:66-67 | the root filter keeps no root with the id, never lengthens the forest, and keeps the length exactly when no root has the id. In that case it returns the forest unchanged |
| TreeProperties.PruneIsFilterThenMap | components/tree-builder.tsx:72-77 | the one-pass rebuild of a node's children is the source's filter by id followed by deleteRecursive mapped over the survivors |
| TreeProperties.DeleteRoot | components/tree-builder.tsx:65-70 | with unique ids, deleting the id of root i gives the other roots in their order. The count drops by the size of root i's subtree, and none of that subtree's ids is left |
| TreeProperties.DeleteNested | components/tree-builder.tsx:65-79 | when no root has the id and it occurs once, the node and all its descendants go. The count drops by the size of its subtree, and the id multiset loses exactly that subtree's ids. The remaining labels keep their pre-order, with that subtree's labels cut out at one place. With unique ids, none of the removed ids is left |
| TreeProperties.DeleteNestedReplacesParent | components/tree-builder.tsx:65-79 | with unique ids, deleting an id no root has changes one node only: the parent of the node with that id, which loses that child and keeps its other children in order. The roots and every other node stay as they were |
| TreeProperties.DeleteUnderReplaces | components/tree-builder.tsx:72-78 | deleteRecursive mapped over roots that do not carry the id, with unique ids, rebuilds the forest with only the parent of the node with that id changed, by dropping that child |
| TreeProperties.DeleteUnderIds | components/tree-builder.tsx:72-78 | deleteRecursive mapped over roots that do not carry the id, where the id occurs once, removes exactly the ids of that node's subtree |
| TreeProperties.DeleteUnderLabels | components/tree-builder.tsx:72-78 | under the same conditions, the labels of that node's subtree are cut out at one position; every other label keeps its order |
| TreeProperties.DeleteNestedRemovesId | components/tree-builder.tsx:72-78 | when no root has the id, no node with that id is left anywhere, even if several nodes had it |
| TreeProperties.DeleteAbsent | components/tree-builder.tsx:65-79 | deleteNode with an id no node has gives a forest equal to the input |
| TreeProperties.DeleteKeepsIdsUnique | components/tree-builder.tsx:65-79 | deleteNode never adds an id (the id multiset can only shrink), so unique ids stay unique |
| Ascii.GenerateAsciiTree | components/ascii-preview.tsx:16-38 | the loop with its accumulator and recursive call returns exactly the text Render gives for the same siblings and prefix |
| Ascii.AppendLine | components/ascii-preview.tsx:20-28 | the loop body appends exactly one line for the node: the prefix, "└─ " for the last sibling and "├─ " otherwise, the name, "/" after a folder's name, "  #" and the comment when the comment is not empty, and a line break |
| AsciiProperties.ChildRowsPrefix | components/ascii-preview.tsx:31-33 | the rows drawn right after a sibling's own row, one per node of its subtree, all carry the sibling's ancestor flags followed by its own last-flag. So each of their lines starts with the sibling's prefix followed by "   " when the sibling is the last one and by "│  " otherwise |
| AsciiProperties.RenderFromIsRows | components/ascii-preview.tsx:19-35 | drawing siblings under a prefix built from ancestor columns gives, line by line, the rows of those siblings and all their descendants |
| AsciiProperties.RenderIsRows | components/ascii-preview.tsx:16-38 | the whole preview is the text of every row of the forest, each followed by a line break |
| AsciiProperties.RowsInPreOrder | components/ascii-preview.tsx:19-35 | there is one row per node, and the rows carry the nodes' labels in depth-first pre-order: a parent before its children, siblings in list order |
| AsciiProperties.SiblingRow | components/ascii-preview.tsx:19-35 | the i-th of a list of siblings is drawn after the whole subtrees of the siblings before it. Its connector is the corner "└─ " exactly when it is the last sibling |
| AsciiProperties.RootRow | components/ascii-preview.tsx:20-21 | root i is drawn on line Count(tree[..i]) with no ancestor columns. Its connector is "└─ " exactly when it is the last root, otherwise "├─ " |
| AsciiProperties.ColumnsWidth | components/ascii-preview.tsx:32 | each ancestor adds exactly three characters of indentation ("│  " or three spaces), none of them a line break |
| AsciiProperties.RowsFromDepths | components/ascii-preview.tsx:32-33 | a row has exactly as many ancestor columns as its node's depth |
| AsciiProperties.Indentation | components/ascii-preview.tsx:32 | line k draws the k-th node in pre-order, and its indentation after the prefix is three characters per level of that node's depth |
| AsciiProperties.LineBreakPerNode | components/ascii-preview.tsx:19-35 | when no name, comment or prefix contains a line break, the preview contains exactly one line break per node |
| AsciiProperties.RenderEmpty | components/ascii-preview.tsx:16-37 | the preview is the empty string exactly when the node list is empty |
| AsciiProperties.SingleLeaf | components/ascii-preview.tsx:19-35 | a single childless node is drawn as one line with the corner connector |
| AsciiProperties.DefaultSourceLine | app/page.tsx:15-23 | the content of the starting forest's src folder is drawn as the single line "│  └─ index.ts  #🚀 entry point" |
| AsciiProperties.DefaultPreview | app/page.tsx:9-32 | the preview of the starting forest is the three lines "├─ src/", "│  └─ index.ts  #🚀 entry point" and "└─ README.md", each followed by a line break |

## Left out

- The React markup and state are left out: the TreeBuilder buttons, TreeNodeItem with its editing state, and the copied flag. They are display only.
- handleCopy is left out. It does clipboard and timer I/O.
- The `onTreeChange` callback is not modelled. Each edit returns the new forest instead.
- `Date.now().toString()` is not modelled. The new id is the parameter `newId`. AddChildKeepsIdsUnique requires it to be unused, which the clock is meant to ensure.
- updateNode takes a general `Partial<TreeNode>`, but its only caller passes a name and a comment, so `Tree.Patch` has exactly those two optional fields. A patch that replaced an id, a kind or the children is not modelled.
- addChild does not check that the parent is a folder, and neither does the model; only the UI offers the button on folders.
- app/page.tsx is only the page shell. It is used solely for its starting forest, `Ascii.DefaultForest`.
- An edit of an id no node has raises no error: the code rebuilds an equal forest (UpdateAbsent, AddChildMissingParent, DeleteAbsent).
- Strings are sequences of Unicode characters. JavaScript measures strings in UTF-16 code units, so the emoji in the starting forest counts as two units there and as one character here. No property here depends on that length.
- TreeProperties.AddChildUnderParent: stated only for a parent id that occurs exactly once. With a duplicated id, addRecursive adds one new node under every matching node that is not inside another matching node. The function models that case, and AddThenDelete shows that deleting the new id restores the old forest, but no lemma says where the new nodes go.
- TreeProperties.DeleteNested: stated only for an id that occurs exactly once. With a duplicated nested id, every node carrying it is removed (DeleteNestedRemovesId), but the exact count and label layout are proved only for the single occurrence.
- TreeProperties.DeleteNestedReplacesParent: stated for unique ids, because the replacement reference replaces every node that carries the parent's id.
- TreeProperties.DeleteRoot: stated for unique ids. When a root and a nested node share the id, deleteNode removes only the root; the nested node stays. The function models this case but no lemma states it.
