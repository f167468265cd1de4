/**
 * The chart store: the tree, its cached projection (what the browser keeps under
 * "convertedData"), the note list and the two selections. Every action replaces
 * some of these fields; the tree and the projection are always replaced together.
 */
module Store {
  import opened Seqs
  import opened ChartTree
  import opened TreeEdits
  import opened MoveNode
  import opened Projection
  import opened ProjectionFacts
  import opened Notes

  /** The data of the first render node with the id, if any. */
  function FindRender(ns: seq<RenderNode>, id: string): (r: Option<RenderData>)
    ensures r.Some? ==> exists i :: 0 <= i < |ns| && ns[i].id == id && ns[i].data == r.value
                                    && forall k :: 0 <= k < i ==> ns[k].id != id
    ensures r.None? <==> forall k :: 0 <= k < |ns| ==> ns[k].id != id
  {
    if ns == [] then None
    else if ns[0].id == id then Some(ns[0].data)
    else
      var r := FindRender(ns[1..], id);
      assert forall k :: 1 <= k < |ns| ==> ns[k] == ns[1..][k - 1];
      if r.Some? then
        var i :| 0 <= i < |ns[1..]| && ns[1..][i].id == id && ns[1..][i].data == r.value
                 && forall k :: 0 <= k < i ==> ns[1..][k].id != id;
        assert ns[i + 1] == ns[1..][i];
        r
      else r
  }

  /** Looking up an id in the projection finds something exactly when the chart has a node with that id. */
  lemma FindRenderFinds(t: Node, id: string)
    ensures FindRender(Convert(t).nodes, id).Some? <==> id in Ids(t)
  {
    ConvertNodesPreorder(t);
    var ns := Convert(t).nodes;
    if id in Ids(t) {
      var j :| 0 <= j < |Ids(t)| && Ids(t)[j] == id;
      assert ns[j].id == id;
    }
  }

  /** With unique ids, selecting the node at a path selects the data the walk rendered for that node. */
  lemma SelectNodeAtPath(t: Node, q: seq<nat>)
    requires Unique(t) && ValidPath(t, q)
    ensures FindRender(Convert(t).nodes, At(t, q).id) == Some(RenderOf(At(t, q), CtxAt(t, q)).data)
  {
    var ns := Convert(t).nodes;
    var x := At(t, q);
    RenderAt(t, q);
    var k :| 0 <= k < |ns| && ns[k] == RenderOf(x, CtxAt(t, q));
    assert ns[k].id == x.id;
    var r := FindRender(ns, x.id);
    var i :| 0 <= i < |ns| && ns[i].id == x.id && ns[i].data == r.value;
    RenderAtIsOnly(t, q, ns[i]);
  }

  /**
   * The tree moveNode stores, or None when it returns early (moving onto itself, or
   * a node that is absent or the root) and leaves the store as it was.
   */
  method MovedTree(latest: Node, nodeId: string, newParentId: string, isMoveAll: bool, prevParentId: Option<string>)
    returns (moved: Option<Node>)
    ensures moved.None? ==> MoveTree(latest, nodeId, newParentId, isMoveAll, prevParentId) == latest
    ensures moved.Some? ==> moved.value == MoveTree(latest, nodeId, newParentId, isMoveAll, prevParentId)
  {
    if nodeId == newParentId {
      return None;
    }
    var removal := RemoveNodeFromTree(latest, nodeId, isMoveAll);
    if removal.nodeToMove.None? || removal.rest.None? {
      return None;
    }
    var finalTree := removal.rest.value;
    if !isMoveAll && |removal.relocate| > 0 && Truthy(prevParentId) {
      finalTree := AddChildrenToPreviousParent(finalTree, prevParentId.value, removal.relocate);
    }
    var nodeToAdd := if isMoveAll then removal.nodeToMove.value else removal.nodeToMove.value.(children := []);
    moved := Some(AddNodeToChart(finalTree, newParentId, nodeToAdd));
  }

  class ChartStore {
    var chartData: Node
    var notes: seq<Note>
    var selectedData: Option<RenderData>
    var selectedNote: Option<Note>
    var converted: Projection

    /** The cached projection is the projection of the current tree. */
    ghost predicate Valid()
      reads this
    {
      converted == Convert(chartData)
    }

    /** A store on the given tree and stored notes, with nothing selected. */
    constructor (initialChart: Node, storedNotes: seq<Note>)
      ensures Valid()
      ensures chartData == initialChart && notes == storedNotes
      ensures selectedData.None? && selectedNote.None?
    {
      var p := ConvertChartData(initialChart);
      chartData := initialChart;
      notes := storedNotes;
      selectedData := None;
      selectedNote := None;
      converted := p;
    }

    /** addNode: append the node under each node with the parent id that has no such node above it. */
    method AddNode(parentId: string, newNode: Node)
      requires Valid()
      modifies this
      ensures Valid()
      ensures chartData == AddNodeToChart(old(chartData), parentId, newNode)
      ensures notes == old(notes) && selectedData == old(selectedData) && selectedNote == old(selectedNote)
    {
      chartData := AddNodeToChart(chartData, parentId, newNode);
      converted := ConvertChartData(chartData);
    }

    /**
     * deleteNode: the tree with the node removed and its children in its place; when
     * the id is that of a childless root the tree stays as it was.
     */
    method DeleteNode(nodeId: string)
      requires Valid()
      requires !(chartData.id == nodeId && |chartData.children| > 0)
      modifies this
      ensures Valid()
      ensures DeleteNodeFromChart(old(chartData), nodeId).Kept? ==> chartData == DeleteNodeFromChart(old(chartData), nodeId).node
      ensures DeleteNodeFromChart(old(chartData), nodeId).Removed? ==> chartData == old(chartData)
      ensures notes == old(notes) && selectedData == old(selectedData) && selectedNote == old(selectedNote)
    {
      var updated := DeleteNodeFromChart(chartData, nodeId);
      if updated.Kept? {
        chartData := updated.node;
      }
      converted := ConvertChartData(chartData);
    }

    /**
     * moveNode: detach the node; unless moving everything, hand its children to the
     * previous parent when there are some and its id is present and not empty (the
     * caller passes the selected node's parent id, absent at the root); then append the
     * node under the new parent. Moving onto itself, an absent node or the root
     * leaves the store as it was.
     */
    method MoveNode(nodeId: string, newParentId: string, isMoveAll: bool, prevParentId: Option<string>)
      requires Valid()
      modifies this
      ensures Valid()
      ensures chartData == MoveTree(old(chartData), nodeId, newParentId, isMoveAll, prevParentId)
      ensures notes == old(notes) && selectedData == old(selectedData) && selectedNote == old(selectedNote)
    {
      var moved := MovedTree(chartData, nodeId, newParentId, isMoveAll, prevParentId);
      if moved.Some? {
        var p := ConvertChartData(moved.value);
        chartData, converted := moved.value, p;
      }
    }

    /** addNote: append the note. */
    method AddNote(newNote: Note)
      modifies this
      ensures notes == old(notes) + [newNote]
      ensures chartData == old(chartData) && converted == old(converted)
      ensures selectedData == old(selectedData) && selectedNote == old(selectedNote)
    {
      notes := notes + [newNote];
    }

    /** deleteNote: drop every note with the id; the selected note is cleared when it has that id. */
    method DeleteNote(noteId: string)
      modifies this
      ensures notes == RemoveNotes(old(notes), noteId)
      ensures selectedNote == if old(selectedNote).Some? && old(selectedNote).value.id == noteId then None else old(selectedNote)
      ensures chartData == old(chartData) && converted == old(converted) && selectedData == old(selectedData)
    {
      notes := RemoveNotes(notes, noteId);
      if selectedNote.Some? && selectedNote.value.id == noteId {
        selectedNote := None;
      }
    }

    /** updateNote: replace every note with the id; the selected note is replaced when it has that id. */
    method UpdateNote(updatedNote: Note)
      modifies this
      ensures notes == ReplaceNotes(old(notes), updatedNote)
      ensures selectedNote == if old(selectedNote).Some? && old(selectedNote).value.id == updatedNote.id then Some(updatedNote) else old(selectedNote)
      ensures chartData == old(chartData) && converted == old(converted) && selectedData == old(selectedData)
    {
      notes := ReplaceNotes(notes, updatedNote);
      if selectedNote.Some? && selectedNote.value.id == updatedNote.id {
        selectedNote := Some(updatedNote);
      }
    }

    /** findAndSetNodeById: select the data of the first render node with the id, or nothing. */
    method FindAndSetNodeById(id: string)
      modifies this
      ensures selectedData == FindRender(old(converted).nodes, id)
      ensures chartData == old(chartData) && converted == old(converted)
      ensures notes == old(notes) && selectedNote == old(selectedNote)
    {
      selectedData := FindRender(converted.nodes, id);
    }

    /** findAndSetNoteById: select the first note with the id, or nothing. */
    method FindAndSetNoteById(id: string)
      modifies this
      ensures selectedNote == FindNote(old(notes), id)
      ensures chartData == old(chartData) && converted == old(converted)
      ensures notes == old(notes) && selectedData == old(selectedData)
    {
      selectedNote := FindNote(notes, id);
    }

    method ResetSelectedNote()
      modifies this
      ensures selectedNote.None?
      ensures chartData == old(chartData) && converted == old(converted)
      ensures notes == old(notes) && selectedData == old(selectedData)
    {
      selectedNote := None;
    }

    method ResetSelectedNode()
      modifies this
      ensures selectedData.None?
      ensures chartData == old(chartData) && converted == old(converted)
      ensures notes == old(notes) && selectedNote == old(selectedNote)
    {
      selectedData := None;
    }
  }
}
