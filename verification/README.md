# Org-chart store, projection, collapse and notes — a Dafny model

The org-chart application keeps a company as a tree. Each node is an organisation, a person, a department or a location, and carries an id, a `type` tag, a display name, an optional colour, contact fields and an ordered list of children. A zustand store holds:

- the tree (`chartData`);
- the flat list of notes attached to chart nodes;
- the selected node's render data and the selected note.

Every store action rewrites the tree copy-on-write and recomputes its projection. That projection is what `convertChartData` builds in one pre-order walk:

- the render nodes with their `data` records;
- the parent-to-child edges;
- the entries of the manager picker;
- the people directory.

The chart view hides every node below a collapsed node. It finds a node's parent by the first edge that enters it. Clicking a node collapses or expands it together with all its descendants. The notes panel lists the selected node's private notes and everybody's public notes, narrowed by a case-insensitive search, and shows two badge counts.

The project is organised as follows:

| file | module | what it holds |
|---|---|---|
| `seqs.dfy` | `Seqs` | `Option`, subsequences, duplicate-free sequences, multiset facts |
| `chart_tree.dfy` | `ChartTree` | the `Node` datatype, pre-order ids, paths into the tree |
| `tree_edits.dfy` | `TreeEdits` | addNodeToChart, addChildrenToPreviousParent, deleteNodeFromChart, removeNodeFromTree (a method with its loop), with path-based reference definitions |
| `move_node.dfy` | `MoveNode` | the move rewrite and what it preserves |
| `projection.dfy` | `Projection` | convertChartData: the walk as functions, and an imperative `Projector` class that fills four lists as the source does |
| `projection_facts.dfy` | `ProjectionFacts` | what the projection contains, node by node and edge by edge |
| `collapse.dfy` | `Collapse` | descendants, the collapsed-ancestor check, the visible nodes and the click toggle |
| `notes.dfy` | `Notes` | the note list: add, delete, update, find |
| `note_filters.dfy` | `NoteFilters` | the private and public lists, search, badge counts, the public-note menu |
| `chart_store.dfy` | `Store` | the store as a class whose methods replace its fields |

### How the model reads the source

- **Multiple matches.** Each tree rewrite stops at a node whose id matches and does not look inside that node's subtree. So it acts on every matching node that has no matching node above it, and below a match nothing is rewritten. When several such matches lie in different branches, removeNodeFromTree keeps only the last one it meets for the move. The lemmas state their effect under unique ids (`ChartTree.Unique`), in terms of the path to the one matching node. Reference definitions by path (`TreeEdits.AppendAt`, `TreeEdits.SpliceAt`) say that nothing else in the tree changes.
- **The projection.** The walk is a function (`Projection.Visit`). The class `Projection.Projector` pushes onto four sequence fields as `processNode` does. Its method is proved to push exactly what `Visit` describes.
- **The collapse logic on edge lists.** `getDescendantNodes` and `isNodeOrAncestorCollapsed` recurse along whatever edges they are given. New nodes get random three-digit ids, so two nodes of a chart can share an id, and then the edges can lead back to a node already being visited. There the source's recursion calls itself again with arguments whose call is still running, and it never returns. Each recursion in the model carries the set of ids whose calls are still running and returns `None` exactly at that point; everywhere else it returns what the source returns. `Collapse.DescendantsEndIffNoLoop` characterises when the collection never returns, and `Collapse.CollapsedIffAncestor` does the same for the check. `Collapse.ConvertCollapseReturns` proves that both always return on the projection of a tree with unique, non-empty ids.
- **Colour of a person.** A person is rendered with the colour inherited from the nearest department or location above it whenever that colour is non-empty, and with its own colour only otherwise (`src/lib/utils.ts:46-51`). Every other node is rendered with its own colour (`ProjectionFacts.RenderAt`).

## Model

| member | source | states |
|---|---|---|
| `TreeEdits.AddNodeToChart` | src/store/useChartStore.ts:387-404 | the rewrite keeps the root's own fields and changes only its children; what happens to them is stated by `AddNodeAtPath` and `AddNodeAbsent` |
| `TreeEdits.AddChildrenToPreviousParent` | src/store/useChartStore.ts:501-519 | the rewrite keeps the root's own fields and changes only its children; `AddChildrenAtPath` and `AddChildrenAbsent` say how |
| `TreeEdits.AddNodeAtPath` | src/store/useChartStore.ts:387-404 | with unique ids, appending under the id of the node at a path makes the new node that node's last child. Every other subtree is unchanged, and the ids grow by exactly the new node's ids |
| `TreeEdits.AddNodeAbsent` | src/store/useChartStore.ts:387-404 | with no node carrying the parent id, the tree comes back unchanged |
| `TreeEdits.AddNodeIsAddChildren` | src/store/useChartStore.ts:387-404 | appending one node is appending a one-element orphan list |
| `TreeEdits.AddChildrenAtPath` | src/store/useChartStore.ts:501-519 | with unique ids, the orphans are appended to the node at the path and nothing else changes |
| `TreeEdits.AddChildrenAbsent` | src/store/useChartStore.ts:501-519 | with no node carrying the previous-parent id, the tree is unchanged |
| `TreeEdits.AddChildrenIds` | src/store/useChartStore.ts:501-519 | every id in the result comes from the tree or from the appended nodes |
| `TreeEdits.AppendAtShape` | src/store/useChartStore.ts:392-396 | the node at the path keeps its place and gains the appended nodes as its last children |
| `TreeEdits.AppendAtIds` | src/store/useChartStore.ts:392-396 | appending adds exactly the appended nodes' ids (as a multiset) |
| `TreeEdits.DeleteNodeFromChart` | src/store/useChartStore.ts:419-440 | the root is kept (with its fields, only its children rewritten) iff its id differs from the deleted id; otherwise the outcome is the root's child list, which is then non-empty |
| `TreeEdits.DeleteAtPath` | src/store/useChartStore.ts:419-440 | with unique ids, deleting a non-root node splices its children into its parent's child list at its position, in order. Exactly its id disappears |
| `TreeEdits.DeleteAbsent` | src/store/useChartStore.ts:419-440 | deleting an id that does not occur leaves the tree as it was |
| `TreeEdits.Detach` | src/store/useChartStore.ts:442-499 | no tree remains iff the root carries the id; a remaining tree keeps the root's fields. When no node is found, the tree comes back whole and nothing is left to relocate |
| `TreeEdits.RemoveNodeFromTree` | src/store/useChartStore.ts:442-499 | the loop computes `Detach`. A node is found iff the id occurs; no remaining tree iff the root matched; the id does not occur in what remains |
| `TreeEdits.DetachSound` | src/store/useChartStore.ts:442-499 | the found node carries the id, and the remaining tree keeps the root's id |
| `TreeEdits.DetachAtPath` | src/store/useChartStore.ts:442-499 | with unique ids, detaching the node at a path returns that node (childless unless moving everything) and the tree without it. Its children come back for relocation when they stay behind |
| `TreeEdits.DetachAfterAdd` | src/store/useChartStore.ts:442-499 | detaching a node just appended under an existing parent gives it back and restores the earlier tree |
| `MoveNode.MoveTree` | src/store/useChartStore.ts:326-383 | the tree after a move keeps the root's id; `MoveNoop`, `MoveAtPath` and the lemmas below say what moves |
| `MoveNode.MoveNoop` | src/store/useChartStore.ts:338-349 | moving a node onto itself, an absent node or the root changes nothing |
| `MoveNode.MoveAtPath` | src/store/useChartStore.ts:326-383 | with unique ids, a move detaches the node and hands its children to the previous parent when they stay behind, there are some and the id is truthy. It then appends the node under the new parent |
| `MoveNode.MoveAllKeepsEveryNode` | src/store/useChartStore.ts:343-369 | moving a subtree under a node outside it keeps every id exactly once and keeps ids unique. The new parent is still in the tree |
| `MoveNode.MoveAllIntoOwnSubtreeDropsIt` | src/store/useChartStore.ts:343-369 | moving a subtree under one of its own descendants loses the whole subtree |
| `MoveNode.MoveWithoutSubordinatesKeepsEveryNode` | src/store/useChartStore.ts:343-369 | moving without subordinates, with the node's parent as previous parent, keeps every id exactly once. The node becomes the childless last child of the new parent |
| `MoveNode.MoveTwiceIsMoveOnce` | src/components/MoveNode.tsx:30-36 | the repeated call with the same arguments changes nothing under unique ids |
| `Projection.Visit` | src/lib/utils.ts:30-185 | the walk as a function: the node's own output, then its children's subtrees in order with the context it hands down. It has no contract of its own; `ProcessNode` is proved against it and the `ProjectionFacts` lemmas state what it contains |
| `Projection.Convert` | src/lib/utils.ts:30-185 | the first render node is the root's, with no parent id |
| `Projection.CalculateDirectChildCounts` | src/lib/utils.ts:15-28 | the loop counts the direct person children and the direct department/location children; the two counts add up to at most the number of children |
| `Projection.Projector.ProcessNode` | src/lib/utils.ts:30-183 | the lists grow by exactly the walk's output for the subtree |
| `Projection.Projector.PushEntries` | src/lib/utils.ts:36-173 | the lists grow by exactly what the node itself contributes (its people entry, render node, manager entries and edge), and the context handed to the children is the node's id, its display name and the colour it passes down |
| `Projection.Projector.PushPerson` | src/lib/utils.ts:53-66 | only the people list grows, by the node's directory entry |
| `Projection.Projector.PushManagers` | src/lib/utils.ts:107-165 | only the manager list grows, by the node's picker entries |
| `Projection.Projector.PushEdge` | src/lib/utils.ts:167-173 | only the edge list grows, by the edge from a truthy parent id |
| `Projection.ConvertChartData` | src/lib/utils.ts:9-188 | the four lists are the walk's output from the root with no parent, no name and no colour |
| `ProjectionFacts.ConvertNodesPreorder` | src/lib/utils.ts:71-105 | one render node per tree node, in pre-order |
| `ProjectionFacts.RenderShape` | src/lib/utils.ts:36-44 | the component type is MAIN_NODE for the organisation, SMALL_NODE for departments and locations, CHILD_NODE otherwise (each an iff). Dimensions are 300x50 for groups and 300x150 otherwise |
| `ProjectionFacts.DirectCountsBounded` | src/lib/utils.ts:15-28 | direct person plus group children never exceed the number of children |
| `ProjectionFacts.RenderAt` | src/lib/utils.ts:46-51 | each tree node is rendered with its parent's id (none at the root). A person shows the nearest group colour when that is non-empty; every other node shows its own |
| `ProjectionFacts.RenderAtIsOnly` | src/lib/utils.ts:71-105 | with unique ids, that render node is the only one carrying the node's id |
| `ProjectionFacts.ConvertPeople` | src/lib/utils.ts:53-66 | the people entries are exactly one per person node, in pre-order: their ids are the pre-order ids of the persons, so the count is the number of persons, and with unique ids no id repeats |
| `ProjectionFacts.ConvertManagers` | src/lib/utils.ts:107-165 | the manager entries are exactly one per qualifying node, in pre-order: the root when it is the organisation or labelled, then each organisation and each labelled node with a non-empty name below it. With unique ids no id repeats |
| `ProjectionFacts.CtxAtCharacterized` | src/lib/utils.ts:175-182 | the context handed to a non-root node is its parent's id, its parent's name (empty under the organisation) and the colour of the nearest department or location above it |
| `ProjectionFacts.PersonEntryAt` | src/lib/utils.ts:53-66 | every person, the root included, has a directory entry with its id and role, whose name is prefixed by the parent's name when that is non-empty |
| `ProjectionFacts.ManagerAt` | src/lib/utils.ts:107-165 | the organisation is listed as self-managed. A labelled root (a person, department or location) is listed under its own name, even an empty one. A non-root labelled node with a name is listed under its prefixed name and kind label |
| `ProjectionFacts.ConvertEntriesSound` | src/lib/utils.ts:53-165 | every people entry is the entry of some person node, with that node's id, prefixed name and role. Every manager entry is one of the three forms `ManagerAt` lists, for some node of the tree |
| `ProjectionFacts.ConvertTargets` | src/lib/utils.ts:167-173 | with non-empty ids, the edge targets are the pre-order ids without the root: one edge per non-root node |
| `ProjectionFacts.ConvertEdgesSound` | src/lib/utils.ts:167-173 | every edge is `source-target`, its source is non-empty, and the source is the target's parent in the tree |
| `ProjectionFacts.EdgeAt` | src/lib/utils.ts:167-173 | every non-root node whose parent id is non-empty has its edge |
| `Store.FindRender` | src/store/useChartStore.ts:407-416 | the result is the first render node with the id; none iff no render node carries it |
| `Store.FindRenderFinds` | src/store/useChartStore.ts:407-416 | lookup in the projection succeeds iff the tree has a node with the id |
| `Store.SelectNodeAtPath` | src/store/useChartStore.ts:279-287 | with unique ids, selecting a node's id selects exactly the data rendered for that node |
| `Collapse.FirstIn` | src/components/OrgChart.tsx:53 | the index of the first edge entering the node, or -1 when none does |
| `Collapse.ChildrenMember` | src/components/OrgChart.tsx:34-36 | the direct children are exactly the targets of edges leaving the node |
| `Collapse.DirectChildren` | src/components/OrgChart.tsx:34-36 | the loop collects exactly the targets of the edges leaving the node, in edge order |
| `Collapse.GetDescendantNodes` | src/components/OrgChart.tsx:33-45 | the loop over the children and the recursion compute `Descendants`, `None` included |
| `Collapse.CollectDescendants` | src/components/OrgChart.tsx:33-45 | one call of the recursion, given the ids whose calls are still running: it returns `None` where the source would call itself again for one of them, and otherwise the children followed by each child's descendants in turn |
| `Collapse.Descendants` | src/components/OrgChart.tsx:33-45 | the children of a node, then each child's descendants in turn, or `None` when the recursion never returns. It has no contract of its own; `GetDescendantNodes` is proved against it and the lemmas below state what it contains |
| `Collapse.DescendantsAreReachable` | src/components/OrgChart.tsx:33-45 | when the collection returns, an id is in it iff a walk along edges leads from the node to it |
| `Collapse.NotOwnDescendant` | src/components/OrgChart.tsx:33-45 | when the collection returns, the node is not among its own descendants |
| `Collapse.DescendantsEndIffNoLoop` | src/components/OrgChart.tsx:33-45 | the collection never returns iff some walk from the node comes back to a node it has already passed through |
| `Collapse.IsNodeOrAncestorCollapsed` | src/components/OrgChart.tsx:48-57 | follows the first edge into the node to its source and repeats, answering true at the first collapsed source, false at a node with no incoming edge, and `None` when it comes back to a node already passed. It has no contract of its own; the lemmas below state what it means |
| `Collapse.CollapsedIffAncestor` | src/components/OrgChart.tsx:48-57 | the check is true iff some node on the parent chain is collapsed; it never returns iff the chain runs into a loop with no collapsed node on it |
| `Collapse.AncestorHasDescendant` | src/components/OrgChart.tsx:48-57 | every node on the parent chain whose collection returns has the node among its descendants |
| `Collapse.OwnMembershipIrrelevant` | src/components/OrgChart.tsx:48-57 | whether the node itself is collapsed plays no part in hiding it unless it lies on its own parent chain, which cannot happen when its collection returns |
| `Collapse.NoParentNeverHidden` | src/components/OrgChart.tsx:53-54 | a node with no incoming edge is never hidden |
| `Collapse.VisibleNodes` | src/components/OrgChart.tsx:140-144 | defined iff the check returns for every node; then the visible nodes keep their order and are exactly those whose check is false, each kept as many times as it occurs |
| `Collapse.Toggled` | src/components/OrgChart.tsx:149-169 | defined iff the collection of descendants returns; then the clicked node's membership flips, and every node that is neither the clicked node nor one of its descendants keeps its membership |
| `Collapse.OnNodeClick` | src/components/OrgChart.tsx:147-172 | clicking a collapsed node removes it and all its descendants from the set. Clicking any other node adds it and all its descendants. Nothing else changes, and there is no result when the collection never returns |
| `Collapse.ClickKeepsOwnVisibility` | src/components/OrgChart.tsx:147-172 | clicking a node never changes whether that node itself is hidden |
| `Collapse.CollapseHidesBelow` | src/components/OrgChart.tsx:159-166 | after collapsing a node, every node that has it on its parent chain is hidden |
| `Collapse.CollapseThenExpand` | src/components/OrgChart.tsx:147-172 | collapsing then expanding restores the set when neither the node nor its descendants were collapsed |
| `Collapse.LayeredReturns` | src/components/OrgChart.tsx:33-57 | when the first edge into each edge's source comes before the first edge into its target, both recursions return |
| `Collapse.ConvertLayered` | src/lib/utils.ts:167-182 | the projection of a tree with unique, non-empty ids has that ordering |
| `Collapse.ConvertCollapseReturns` | src/components/OrgChart.tsx:33-172 | on the projection of a tree with unique, non-empty ids, the collection, the check, the visible nodes and every click are defined |
| `Collapse.ParentEdgeInConvert` | src/components/OrgChart.tsx:53 | on a projection, the root has no incoming edge, and the first edge into any other node comes from its parent in the tree |
| `Collapse.RootAlwaysVisible` | src/components/OrgChart.tsx:140-144 | the root is never hidden, whatever is collapsed |
| `Collapse.RepeatedIdDescendants` | src/components/OrgChart.tsx:33-45 | in a chart where two departments each hold a person with the same id, the collection returns and lists that id twice |
| `Collapse.RepeatedIdStaysVisible` | src/components/OrgChart.tsx:48-57 | in that chart, collapsing the second department adds it and the shared id to the set, yet the check for the shared id stays false: it follows only the first edge into it, which comes from the first department |
| `Notes.ReplaceNotes` | src/store/useChartStore.ts:263-270 | the length is kept, every note with the update's id becomes the update, and every other note stays where it was |
| `Notes.RemoveNotes` | src/store/useChartStore.ts:246-260 | the notes without the id, in order. A note stays iff its id differs, and the length drops by the number of notes with that id |
| `Notes.FindNote` | src/store/useChartStore.ts:288-296 | the first note with the id; none iff no note carries it |
| `Notes.AddThenDelete` | src/store/useChartStore.ts:235-260 | adding a note with a fresh id and then deleting that id restores the list |
| `Notes.DeleteThenFind` | src/store/useChartStore.ts:246-260 | after deleting an id, nothing is found under it |
| `Notes.UpdateThenFind` | src/store/useChartStore.ts:261-278 | updating keeps the length and every note with another id, and replaces every note with the update's id. Afterwards the update is found under its id when that id existed. Lookups of other ids are unaffected |
| `NoteFilters.Lower` | src/components/PrivateNote.tsx:24 | lower-casing keeps the length and maps each character |
| `NoteFilters.LowerIdempotent` | src/components/PrivateNote.tsx:24 | lower-casing twice is lower-casing once |
| `NoteFilters.Includes` | src/components/PrivateNote.tsx:24 | true iff the term occurs at some position of the text |
| `NoteFilters.EmptySearchMatches` | src/components/PrivateNote.tsx:24 | the empty search matches every note |
| `NoteFilters.PrivateNotes` | src/components/PrivateNote.tsx:20-25 | a subsequence of the notes: a note is listed iff it is a private note of the selected node and matches the search, as many times as it occurs |
| `NoteFilters.PublicNotes` | src/components/PublicNote.tsx:33-43 | a subsequence of the notes: a note is listed iff it is public, by the chosen author when there is one, and matches the search, as many times as it occurs |
| `NoteFilters.PrivateNoteLength` | src/components/Notes.tsx:20-22 | the private badge is at most the number of notes, and is zero iff no note is a private note of the selected node |
| `NoteFilters.PublicNoteLength` | src/components/Notes.tsx:24-26 | the public badge is at most the number of notes, and is zero iff no note is public |
| `NoteFilters.PrivateBadgeMatchesList` | src/components/Notes.tsx:20-22 | with an empty search, the private badge equals the length of the private list |
| `NoteFilters.PublicBadgeMatchesList` | src/components/Notes.tsx:24-26 | with an empty search and no author, the public badge equals the length of the public list |
| `NoteFilters.BadgesBounded` | src/components/Notes.tsx:20-26 | the two badges together never exceed the number of notes |
| `NoteFilters.AddPrivateNoteCounts` | src/components/Notes.tsx:20-22 | adding a private note to the selected node raises the private badge by one and leaves the public badge alone |
| `NoteFilters.MenuItems` | src/components/PublicNote.tsx:107-132 | Copy is always offered. Edit and Delete are offered iff the note belongs to the selected node |
| `Store.ChartStore.constructor` | src/store/useChartStore.ts:209-214 | a store on the given tree and stored notes with nothing selected, and with its projection cached |
| `Store.ChartStore.AddNode` | src/store/useChartStore.ts:215-234 | the tree becomes `AddNodeToChart` of the old tree, with the projection recomputed. Notes and selections are unchanged |
| `Store.ChartStore.DeleteNode` | src/store/useChartStore.ts:307-325 | the tree loses the node, its children promoted. A childless root leaves the tree as it was, and the projection is recomputed |
| `Store.MovedTree` | src/store/useChartStore.ts:326-383 | the early returns leave the tree as `MoveTree` computes it (unchanged); otherwise the rewritten tree is `MoveTree` of the latest tree |
| `Store.ChartStore.MoveNode` | src/store/useChartStore.ts:326-383 | the tree becomes `MoveTree` of the old tree, with the projection recomputed. Notes and selections are unchanged |
| `Store.ChartStore.AddNote` | src/store/useChartStore.ts:235-245 | the note is appended and nothing else changes |
| `Store.ChartStore.DeleteNote` | src/store/useChartStore.ts:246-260 | notes with the id are removed, and a selected note with that id is cleared |
| `Store.ChartStore.UpdateNote` | src/store/useChartStore.ts:261-278 | notes with the id are replaced, and a selected note with that id is replaced |
| `Store.ChartStore.FindAndSetNodeById` | src/store/useChartStore.ts:279-287 | the selected data is the first cached render node with the id, or nothing |
| `Store.ChartStore.FindAndSetNoteById` | src/store/useChartStore.ts:288-296 | the selected note is the first note with the id, or nothing |
| `Store.ChartStore.ResetSelectedNote` | src/store/useChartStore.ts:297-301 | the selected note is cleared and nothing else changes |
| `Store.ChartStore.ResetSelectedNode` | src/store/useChartStore.ts:302-306 | the selected node is cleared and nothing else changes |

## Left out

- Store.ChartStore.DeleteNode: requires that the target is not a root with children. For that case `deleteNodeFromChart` returns the root's child array where a node is expected, and the store keeps that array as the chart. The pure `TreeEdits.DeleteNodeFromChart` still reports it as its `Promoted` outcome. The chart view offers no delete on the organisation node.
- A recursion that never returns: where `getDescendantNodes` or `isNodeOrAncestorCollapsed` would call itself again for an id whose call is still running, the browser ends with a stack-overflow error. The model returns `None` there (and `Collapse.VisibleNodes`, `Collapse.Toggled` and `Collapse.OnNodeClick` pass it on); the error itself, and the React state that is left as it was, are not modelled.
- NoteFilters.Lower: lower-cases ASCII letters only. `toLowerCase` also folds other Unicode letters, so a search that depends on non-ASCII case folding is not captured.
- Browser storage: the store reads the tree back from `localStorage` before each rewrite and writes the tree and its projection there. The model keeps both as fields of the store (`chartData`, `converted`), which the store always writes together. Loading the stored notes is a constructor parameter, and JSON encoding is not modelled.
- The seeded demo chart (`src/store/useChartStore.ts:100-197`) is a constructor parameter rather than a constant.
- The page's two-second delay before the first projection, the `rerender` counter set from `Math.random()`, and the zustand subscription machinery are not modelled.
- Layout (dagre positions, node `position`), React rendering, clipboard, modals and menus are not modelled, except for which entries a public note's menu offers.
- Ids and dates of new nodes and notes are random or come from the clock; they are parameters (the node or note passed in).
- A node's name stands for whichever of `memberName`, `orgName`, `departmentName` or `locationName` its variant carries. A node without the field and a node whose field is empty both read as "".
- Optional fields present with the value `null` are not distinguished from absent ones. For example, an organisation's `imgSrc` of `null` reads as "" in the render data.
- The people-directory entry's constant `type` ("person") and a render node's constant `position` are not fields of the model.
- A note's `nodeId` may be a number in the type declaration; the model keeps it as a string, the only form that can equal a node id. The note's text field (`note`) is called `text`.
- The public panel's author filter is a parameter: the name of the person chosen in the picker, or none.
