/**
 * The copy-on-write tree rewrites the chart store is built from: append a child,
 * delete a node promoting its children, detach a node for a move, and append
 * orphaned children to a node. Each rewrite stops at a node whose id matches, so it
 * acts on every matching node with no matching node above it and rewrites nothing
 * below a match; with unique ids that is the one node a path leads to, and the
 * lemmas below say what each rewrite then does in terms of that path.
 */
module TreeEdits {
  import opened Seqs
  import opened ChartTree

  // ---------------------------------------------------------------------------
  // addNodeToChart and addChildrenToPreviousParent

  /**
   * Appends `newNode` to the children of each node whose id is `parentId` and that
   * has no such node above it; the subtree below a match is left as it is.
   */
  function AddNodeToChart(t: Node, parentId: string, newNode: Node): (r: Node)
    ensures r == t.(children := r.children)
    decreases t
  {
    if t.id == parentId then t.(children := t.children + [newNode])
    else t.(children := seq(|t.children|, i requires 0 <= i < |t.children| => AddNodeToChart(t.children[i], parentId, newNode)))
  }

  /**
   * Appends `orphans` to the children of each node whose id is `prevParentId` and
   * that has no such node above it; the subtree below a match is left as it is.
   */
  function AddChildrenToPreviousParent(t: Node, prevParentId: string, orphans: seq<Node>): (r: Node)
    ensures r == t.(children := r.children)
    decreases t
  {
    if t.id == prevParentId then t.(children := t.children + orphans)
    else t.(children := seq(|t.children|, i requires 0 <= i < |t.children| => AddChildrenToPreviousParent(t.children[i], prevParentId, orphans)))
  }

  /** Appending one node is appending a one-element list of orphans. */
  lemma {:induction false} AddNodeIsAddChildren(t: Node, parentId: string, newNode: Node)
    ensures AddNodeToChart(t, parentId, newNode) == AddChildrenToPreviousParent(t, parentId, [newNode])
    decreases t
  {
    if t.id != parentId {
      forall i | 0 <= i < |t.children|
        ensures AddNodeToChart(t.children[i], parentId, newNode) == AddChildrenToPreviousParent(t.children[i], parentId, [newNode])
      {
        AddNodeIsAddChildren(t.children[i], parentId, newNode);
      }
    }
  }

  /** With no node called `p`, appending children under `p` changes nothing. */
  lemma {:induction false} AddChildrenAbsent(t: Node, p: string, orphans: seq<Node>)
    requires p !in Ids(t)
    ensures AddChildrenToPreviousParent(t, p, orphans) == t
    decreases t
  {
    forall i | 0 <= i < |t.children| ensures AddChildrenToPreviousParent(t.children[i], p, orphans) == t.children[i] {
      IdsListMember(t.children, p);
      AddChildrenAbsent(t.children[i], p, orphans);
    }
    assert AddChildrenToPreviousParent(t, p, orphans).children == t.children;
  }

  /** With no node called `parentId`, addNodeToChart returns the tree unchanged. */
  lemma {:induction false} AddNodeAbsent(t: Node, parentId: string, newNode: Node)
    requires parentId !in Ids(t)
    ensures AddNodeToChart(t, parentId, newNode) == t
  {
    AddNodeIsAddChildren(t, parentId, newNode);
    AddChildrenAbsent(t, parentId, [newNode]);
  }

  /** After appending, every id of the result comes from the tree or from the appended nodes. */
  lemma {:induction false} AddChildrenIds(t: Node, p: string, orphans: seq<Node>, z: string)
    requires z in Ids(AddChildrenToPreviousParent(t, p, orphans))
    ensures z in Ids(t) || z in IdsList(orphans)
    decreases t
  {
    var r := AddChildrenToPreviousParent(t, p, orphans);
    if z != t.id {
      assert z in IdsList(r.children);
      if t.id == p {
        IdsListConcat(t.children, orphans);
      } else {
        IdsListMember(r.children, z);
        var i :| 0 <= i < |r.children| && z in Ids(r.children[i]);
        AddChildrenIds(t.children[i], p, orphans, z);
        if z in Ids(t.children[i]) {
          IdsListMember(t.children, z);
        }
      }
    }
  }

  // ---------------------------------------------------------------------------
  // Edits at a path: what the rewrites amount to when the target is unique.

  /** The tree with `extra` appended to the children of the node at path `q`; all else as it was. */
  function AppendAt(t: Node, q: seq<nat>, extra: seq<Node>): Node
    requires ValidPath(t, q)
    decreases |q|
  {
    if q == [] then t.(children := t.children + extra)
    else t.(children := t.children[q[0] := AppendAt(t.children[q[0]], q[1..], extra)])
  }

  /**
   * The tree with the node at the non-empty path `q` taken out of its parent's child
   * list; with `promote` its own children take its place there, in their order.
   */
  function SpliceAt(t: Node, q: seq<nat>, promote: bool): Node
    requires ValidPath(t, q) && q != []
    decreases |q|
  {
    var i := q[0];
    if |q| == 1 then
      t.(children := t.children[..i] + (if promote then t.children[i].children else []) + t.children[i + 1..])
    else t.(children := t.children[i := SpliceAt(t.children[i], q[1..], promote)])
  }

  /** The node at the path keeps its place and gains `extra` as its last children. */
  lemma {:induction false} AppendAtShape(t: Node, q: seq<nat>, extra: seq<Node>)
    requires ValidPath(t, q)
    ensures ValidPath(AppendAt(t, q, extra), q)
    ensures At(AppendAt(t, q, extra), q) == At(t, q).(children := At(t, q).children + extra)
    decreases |q|
  {
    if q != [] {
      AppendAtShape(t.children[q[0]], q[1..], extra);
    }
  }

  /** Appending adds exactly the ids of the appended nodes. */
  lemma {:induction false} AppendAtIds(t: Node, q: seq<nat>, extra: seq<Node>)
    requires ValidPath(t, q)
    ensures multiset(Ids(AppendAt(t, q, extra))) == multiset(Ids(t)) + multiset(IdsList(extra))
    decreases |q|
  {
    var r := AppendAt(t, q, extra);
    if q == [] {
      IdsListConcat(t.children, extra);
    } else {
      var i := q[0];
      var c := AppendAt(t.children[i], q[1..], extra);
      AppendAtIds(t.children[i], q[1..], extra);
      UpdateParts(t.children, i, c);
      IdsListSplit(t.children, i);
      IdsListSplit(r.children, i);
      var before, after := IdsList(t.children[..i]), IdsList(t.children[i + 1..]);
      assert Ids(r) == [t.id] + (before + Ids(c) + after);
      MultisetGrowMiddle([t.id], before, Ids(c), Ids(t.children[i]), after, IdsList(extra));
    }
  }

  /**
   * Splicing out the node at `q` removes the ids of its subtree and, when its
   * children are promoted, puts theirs back; nothing else changes.
   */
  lemma {:induction false} SpliceAtIds(t: Node, q: seq<nat>, promote: bool)
    requires ValidPath(t, q) && q != []
    ensures multiset(Ids(SpliceAt(t, q, promote))) + multiset(Ids(At(t, q)))
         == multiset(Ids(t)) + multiset(IdsList(if promote then At(t, q).children else []))
    decreases |q|
  {
    var i := q[0];
    var cs := t.children;
    var x := At(t, q);
    var mid := if promote then x.children else [];
    var spliced: seq<Node>;
    if |q| == 1 {
      assert q[1..] == [];
      assert x == At(cs[i], q[1..]);
      spliced := cs[..i] + mid + cs[i + 1..];
      SpliceChildIds(cs, i, mid);
    } else {
      var c := SpliceAt(cs[i], q[1..], promote);
      SpliceAtIds(cs[i], q[1..], promote);
      spliced := cs[i := c];
      ReplaceChildIds(cs, i, c);
      assert x == At(cs[i], q[1..]);
      MultisetCancel(multiset(IdsList(spliced)), multiset(Ids(cs[i])), multiset(IdsList(cs)), multiset(Ids(c)),
        multiset(Ids(x)), multiset(IdsList(mid)));
    }
    assert SpliceAt(t, q, promote) == t.(children := spliced);
    ChildrenIds(t, spliced);
    ChildrenIds(t, cs);
    assert t.(children := cs) == t;
    MultisetShift(multiset(Ids(SpliceAt(t, q, promote))), multiset(Ids(t)), multiset{t.id},
      multiset(IdsList(spliced)), multiset(IdsList(cs)), multiset(Ids(x)), multiset(IdsList(mid)));
  }

  lemma {:induction false} ChildrenIds(t: Node, cs: seq<Node>)
    ensures multiset(Ids(t.(children := cs))) == multiset{t.id} + multiset(IdsList(cs))
  {
  }

  lemma {:induction false} SpliceChildIds(cs: seq<Node>, i: nat, mid: seq<Node>)
    requires i < |cs|
    ensures multiset(IdsList(cs[..i] + mid + cs[i + 1..])) + multiset(Ids(cs[i]))
         == multiset(IdsList(cs)) + multiset(IdsList(mid))
  {
    IdsListSplit(cs, i);
    IdsListConcat(cs[..i] + mid, cs[i + 1..]);
    IdsListConcat(cs[..i], mid);
  }

  lemma {:induction false} ReplaceChildIds(cs: seq<Node>, i: nat, c: Node)
    requires i < |cs|
    ensures multiset(IdsList(cs[i := c])) + multiset(Ids(cs[i])) == multiset(IdsList(cs)) + multiset(Ids(c))
  {
    IdsListSplit(cs, i);
    IdsListSplit(cs[i := c], i);
    assert cs[i := c][..i] == cs[..i];
    assert cs[i := c][i + 1..] == cs[i + 1..];
  }

  /**
   * With unique ids, appending orphans under the id of the node at path `q` appends
   * them to that node and leaves every other subtree as it was.
   */
  lemma {:induction false} AddChildrenAtPath(t: Node, q: seq<nat>, orphans: seq<Node>)
    requires Unique(t) && ValidPath(t, q)
    ensures AddChildrenToPreviousParent(t, At(t, q).id, orphans) == AppendAt(t, q, orphans)
    decreases |q|
  {
    if q != [] {
      var p := At(t, q).id;
      var i := q[0];
      UniqueParts(t);
      IdIsInSubtree(t.children[i], q[1..]);
      IdsListMember(t.children, p);
      assert t.id != p;
      AddChildrenAtPath(t.children[i], q[1..], orphans);
      forall j | 0 <= j < |t.children| && j != i
        ensures AddChildrenToPreviousParent(t.children[j], p, orphans) == t.children[j]
      {
        AddChildrenAbsent(t.children[j], p, orphans);
      }
      assert AddChildrenToPreviousParent(t, p, orphans).children == AppendAt(t, q, orphans).children;
    }
  }

  /** With unique ids, addNodeToChart makes `newNode` the last child of the node at `q`. */
  lemma {:induction false} AddNodeAtPath(t: Node, q: seq<nat>, newNode: Node)
    requires Unique(t) && ValidPath(t, q)
    ensures AddNodeToChart(t, At(t, q).id, newNode) == AppendAt(t, q, [newNode])
    ensures ValidPath(AddNodeToChart(t, At(t, q).id, newNode), q)
         && At(AddNodeToChart(t, At(t, q).id, newNode), q).children == At(t, q).children + [newNode]
    ensures multiset(Ids(AddNodeToChart(t, At(t, q).id, newNode))) == multiset(Ids(t)) + multiset(Ids(newNode))
  {
    AddNodeIsAddChildren(t, At(t, q).id, newNode);
    AddChildrenAtPath(t, q, [newNode]);
    AppendAtShape(t, q, [newNode]);
    AppendAtIds(t, q, [newNode]);
    IdsListSingle(newNode);
  }

  lemma {:induction false} IdIsInSubtree(t: Node, q: seq<nat>)
    requires ValidPath(t, q)
    ensures At(t, q).id in Ids(t)
  {
    IdsAt(t, q);
  }

  // ---------------------------------------------------------------------------
  // deleteNodeFromChart

  /**
   * What deleteNodeFromChart returns for one subtree: the rewritten node, nothing (the
   * node matched and had no children), or the matched node's children, which the
   * source returns in place of a node. A matched node's subtree is not searched.
   */
  datatype Deletion = Kept(node: Node) | Removed | Promoted(nodes: seq<Node>)

  function DeleteNodeFromChart(t: Node, nodeId: string): (r: Deletion)
    ensures r.Kept? <==> t.id != nodeId
    ensures r.Kept? ==> r.node == t.(children := r.node.children)
    ensures r.Promoted? ==> r.nodes == t.children && r.nodes != []
    decreases t, 1
  {
    if t.id == nodeId then
      if |t.children| > 0 then Promoted(t.children) else Removed
    else Kept(t.(children := DeleteInChildren(t.children, nodeId)))
  }

  /** `children.map(delete).flat().filter(Boolean)`. */
  function DeleteInChildren(cs: seq<Node>, nodeId: string): seq<Node>
    decreases cs, 0
  {
    if cs == [] then []
    else DeleteInChildren(cs[..|cs| - 1], nodeId) + Flattened(DeleteNodeFromChart(cs[|cs| - 1], nodeId))
  }

  /** What one child's result contributes once flattened and filtered. */
  function Flattened(d: Deletion): seq<Node> {
    match d
    case Kept(n) => [n]
    case Removed => []
    case Promoted(ns) => ns
  }

  lemma {:induction false} DeleteInChildrenConcat(a: seq<Node>, b: seq<Node>, x: string)
    ensures DeleteInChildren(a + b, x) == DeleteInChildren(a, x) + DeleteInChildren(b, x)
    decreases |b|
  {
    if b == [] {
      assert a + b == a;
    } else {
      var k := |b| - 1;
      ConcatLast(a, b);
      DeleteInChildrenConcat(a, b[..k], x);
      var last := Flattened(DeleteNodeFromChart(b[k], x));
      var da, db := DeleteInChildren(a, x), DeleteInChildren(b[..k], x);
      assert DeleteInChildren(a + b, x) == (da + db) + last;
      ConcatAssoc(da, db, last);
    }
  }

  /** Deleting an id that does not occur yields a structurally equal tree. */
  lemma {:induction false} DeleteAbsent(t: Node, x: string)
    requires x !in Ids(t)
    ensures DeleteNodeFromChart(t, x) == Kept(t)
    decreases t, 1
  {
    DeleteInChildrenAbsent(t.children, x);
  }

  lemma {:induction false} DeleteInChildrenAbsent(cs: seq<Node>, x: string)
    requires x !in IdsList(cs)
    ensures DeleteInChildren(cs, x) == cs
    decreases cs, 0
  {
    if cs != [] {
      var k := |cs| - 1;
      assert IdsList(cs) == IdsList(cs[..k]) + Ids(cs[k]);
      DeleteInChildrenAbsent(cs[..k], x);
      DeleteAbsent(cs[k], x);
      assert Flattened(DeleteNodeFromChart(cs[k], x)) == [cs[k]];
      assert cs == cs[..k] + [cs[k]];
    }
  }

  /**
   * With unique ids, deleting the node at a non-empty path splices its children into
   * its parent's child list at its former position, in their order (a childless
   * node simply disappears), and removes exactly its id.
   */
  lemma {:induction false} DeleteAtPath(t: Node, q: seq<nat>)
    requires Unique(t) && ValidPath(t, q) && q != []
    ensures DeleteNodeFromChart(t, At(t, q).id) == Kept(SpliceAt(t, q, true))
    ensures multiset(Ids(SpliceAt(t, q, true))) + multiset{At(t, q).id} == multiset(Ids(t))
    ensures At(t, q).id !in Ids(SpliceAt(t, q, true))
  {
    DeleteAtPathShape(t, q);
    var x := At(t, q).id;
    var r := SpliceAt(t, q, true);
    SpliceAtIds(t, q, true);
    ChildrenIds(At(t, q), At(t, q).children);
    assert At(t, q).(children := At(t, q).children) == At(t, q);
    MultisetShift(multiset(Ids(r)) + multiset{x}, multiset(Ids(r)) + multiset(Ids(At(t, q))), multiset(Ids(r)),
      multiset{x}, multiset(Ids(At(t, q))), multiset(IdsList(At(t, q).children)), multiset{});
    MultisetCancelRight(multiset(Ids(r)) + multiset{x}, multiset(Ids(t)), multiset(IdsList(At(t, q).children)));
    IdIsInSubtree(t, q);
    NoDupOccursOnce(Ids(t), x);
  }

  lemma {:induction false} DeleteAtPathShape(t: Node, q: seq<nat>)
    requires Unique(t) && ValidPath(t, q) && q != []
    ensures DeleteNodeFromChart(t, At(t, q).id) == Kept(SpliceAt(t, q, true))
    decreases |q|
  {
    var x := At(t, q).id;
    var i := q[0];
    var cs := t.children;
    IdIsInSubtree(cs[i], q[1..]);
    OnlyInChild(t, i, x);
    DeleteInChild(t, i, x);
    if |q| > 1 {
      UniqueParts(t);
      DeleteAtPathShape(cs[i], q[1..]);
      var c := SpliceAt(cs[i], q[1..], true);
      UpdateIsSplice(cs, i, c);
      assert Flattened(DeleteNodeFromChart(cs[i], x)) == [c];
    } else {
      assert q[1..] == [];
      assert Flattened(DeleteNodeFromChart(cs[i], x)) == cs[i].children;
    }
  }

  /** Deleting below a root other than the target, when only child `i` holds the target. */
  lemma {:induction false} DeleteInChild(t: Node, i: nat, x: string)
    requires t.id != x && i < |t.children|
    requires x !in IdsList(t.children[..i]) && x !in IdsList(t.children[i + 1..])
    ensures DeleteNodeFromChart(t, x)
         == Kept(t.(children := t.children[..i] + Flattened(DeleteNodeFromChart(t.children[i], x)) + t.children[i + 1..]))
  {
    var cs := t.children;
    assert DeleteInChildren([cs[i]], x) == Flattened(DeleteNodeFromChart(cs[i], x)) by {
      assert [cs[i]][..0] == [];
    }
    assert cs == cs[..i] + [cs[i]] + cs[i + 1..];
    DeleteInChildrenConcat(cs[..i] + [cs[i]], cs[i + 1..], x);
    DeleteInChildrenConcat(cs[..i], [cs[i]], x);
    DeleteInChildrenAbsent(cs[..i], x);
    DeleteInChildrenAbsent(cs[i + 1..], x);
  }

  // ---------------------------------------------------------------------------
  // removeNodeFromTree

  /**
   * The result of removeNodeFromTree: the node to move (None when not found), the tree
   * without it (None when the root itself matched) and the children to relocate.
   */
  datatype Removal = Removal(nodeToMove: Option<Node>, rest: Option<Node>, relocate: seq<Node>)

  /** The loop state while scanning a child list: last match, kept children, orphans. */
  datatype Scan = Scan(found: Option<Node>, kept: seq<Node>, relocate: seq<Node>)

  /** The detached node: its subtree travels with it only when moving everything. */
  function Prepared(n: Node, moveAll: bool): Node {
    n.(children := if moveAll then n.children else [])
  }

  /** The children left behind: none when moving everything. */
  function Relocated(n: Node, moveAll: bool): seq<Node> {
    if moveAll then [] else n.children
  }

  /** Functional account of removeNodeFromTree; RemoveNodeFromTree below computes it. */
  function Detach(t: Node, x: string, moveAll: bool): (r: Removal)
    ensures r.rest.None? <==> t.id == x
    ensures r.rest.Some? ==> r.rest.value == t.(children := r.rest.value.children)
    ensures r.nodeToMove.None? ==> r.rest == Some(t) && r.relocate == []
    decreases t, 1
  {
    if t.id == x then Removal(Some(Prepared(t, moveAll)), None, Relocated(t, moveAll))
    else
      var s := DetachInChildren(t.children, x, moveAll);
      if s.found.None? then Removal(None, Some(t), [])
      else Removal(s.found, Some(t.(children := s.kept)), s.relocate)
  }

  /** The state after the loop has visited every child in `cs`. */
  function DetachInChildren(cs: seq<Node>, x: string, moveAll: bool): Scan
    decreases cs, 0
  {
    if cs == [] then Scan(None, [], [])
    else
      var last := cs[|cs| - 1];
      ScanStep(DetachInChildren(cs[..|cs| - 1], x, moveAll), last, Detach(last, x, moveAll))
  }

  /** One iteration of the loop over the children. */
  function ScanStep(s: Scan, child: Node, r: Removal): Scan {
    if r.nodeToMove.Some? then
      Scan(r.nodeToMove, s.kept + RestAsList(r), r.relocate)
    else Scan(s.found, s.kept + [child], s.relocate)
  }

  /**
   * removeNodeFromTree: a recursive walk with a loop over each node's children that
   * keeps the last match and the children left after removal. A matching node is
   * detached whole and its subtree is not searched, so of several matches with no
   * match above them only the last one met is moved.
   */
  method RemoveNodeFromTree(t: Node, x: string, moveAll: bool) returns (r: Removal)
    ensures r == Detach(t, x, moveAll)
    ensures r.nodeToMove.Some? <==> x in Ids(t)
    ensures r.rest.None? <==> t.id == x
    ensures r.rest.Some? ==> x !in Ids(r.rest.value)
    decreases t
  {
    if t.id == x {
      r := Removal(Some(Prepared(t, moveAll)), None, Relocated(t, moveAll));
      DetachSound(t, x, moveAll);
      return;
    }
    var updatedChildren: seq<Node> := [];
    var nodeToMove: Option<Node> := None;
    var childrenToRelocate: seq<Node> := [];
    for i := 0 to |t.children|
      invariant DetachInChildren(t.children[..i], x, moveAll) == Scan(nodeToMove, updatedChildren, childrenToRelocate)
    {
      var child := t.children[i];
      var result := RemoveNodeFromTree(child, x, moveAll);
      if result.nodeToMove.Some? {
        nodeToMove := result.nodeToMove;
        childrenToRelocate := result.relocate;
        if result.rest.Some? {
          updatedChildren := updatedChildren + [result.rest.value];
        }
      } else {
        updatedChildren := updatedChildren + [child];
      }
      assert t.children[..i + 1][..i] == t.children[..i];
    }
    assert t.children[..|t.children|] == t.children;
    if nodeToMove.None? {
      r := Removal(None, Some(t), []);
    } else {
      r := Removal(nodeToMove, Some(t.(children := updatedChildren)), childrenToRelocate);
    }
    DetachSound(t, x, moveAll);
  }

  /**
   * Detaching finds a node exactly when the id occurs, hands back a node with that id,
   * reports no remaining tree exactly when the root matched, and leaves no node with
   * that id behind.
   */
  lemma {:induction false} DetachSound(t: Node, x: string, moveAll: bool)
    ensures Detach(t, x, moveAll).nodeToMove.Some? <==> x in Ids(t)
    ensures Detach(t, x, moveAll).nodeToMove.Some? ==> Detach(t, x, moveAll).nodeToMove.value.id == x
    ensures Detach(t, x, moveAll).rest.None? <==> t.id == x
    ensures Detach(t, x, moveAll).rest.Some? ==> x !in Ids(Detach(t, x, moveAll).rest.value)
    ensures Detach(t, x, moveAll).rest.Some? ==> Detach(t, x, moveAll).rest.value.id == t.id
    decreases t, 1
  {
    if t.id != x {
      DetachInChildrenSound(t.children, x, moveAll);
    }
  }

  lemma {:induction false} DetachInChildrenSound(cs: seq<Node>, x: string, moveAll: bool)
    ensures DetachInChildren(cs, x, moveAll).found.Some? <==> x in IdsList(cs)
    ensures DetachInChildren(cs, x, moveAll).found.Some? ==> DetachInChildren(cs, x, moveAll).found.value.id == x
    ensures x !in IdsList(DetachInChildren(cs, x, moveAll).kept)
    decreases cs, 0
  {
    if cs != [] {
      var k := |cs| - 1;
      var s := DetachInChildren(cs[..k], x, moveAll);
      var r := Detach(cs[k], x, moveAll);
      DetachInChildrenSound(cs[..k], x, moveAll);
      DetachSound(cs[k], x, moveAll);
      var tail := if r.nodeToMove.Some? then (if r.rest.Some? then [r.rest.value] else []) else [cs[k]];
      IdsListConcat(s.kept, tail);
      if tail != [] {
        IdsListSingle(tail[0]);
        assert tail == [tail[0]];
      }
    }
  }

  lemma {:induction false} DetachInChildrenAbsent(cs: seq<Node>, x: string, moveAll: bool)
    requires x !in IdsList(cs)
    ensures DetachInChildren(cs, x, moveAll) == Scan(None, cs, [])
    decreases |cs|
  {
    if cs != [] {
      var k := |cs| - 1;
      DetachInChildrenAbsent(cs[..k], x, moveAll);
      DetachSound(cs[k], x, moveAll);
      assert cs == cs[..k] + [cs[k]];
    }
  }

  /** Children after the match that do not hold the id are kept as they are. */
  lemma {:induction false} DetachInChildrenAbsentSuffix(a: seq<Node>, b: seq<Node>, x: string, moveAll: bool)
    requires x !in IdsList(b)
    ensures var s := DetachInChildren(a, x, moveAll); DetachInChildren(a + b, x, moveAll) == Scan(s.found, s.kept + b, s.relocate)
    decreases |b|
  {
    if b == [] {
      assert a + b == a;
    } else {
      var k := |b| - 1;
      assert (a + b)[..|a + b| - 1] == a + b[..k];
      IdsListConcat(b[..k], [b[k]]);
      IdsListSingle(b[k]);
      assert b == b[..k] + [b[k]];
      DetachInChildrenAbsentSuffix(a, b[..k], x, moveAll);
      DetachSound(b[k], x, moveAll);
    }
  }

  /**
   * With unique ids, detaching the node at a non-empty path returns that node
   * (childless unless moving everything), the tree with it taken out of its parent's
   * child list, and its children when they are to be relocated.
   */
  lemma {:induction false} DetachAtPath(t: Node, q: seq<nat>, moveAll: bool)
    requires Unique(t) && ValidPath(t, q) && q != []
    ensures Detach(t, At(t, q).id, moveAll)
         == Removal(Some(Prepared(At(t, q), moveAll)), Some(SpliceAt(t, q, false)), Relocated(At(t, q), moveAll))
    decreases |q|
  {
    var x := At(t, q).id;
    var i := q[0];
    var cs := t.children;
    IdIsInSubtree(cs[i], q[1..]);
    OnlyInChild(t, i, x);
    DetachSound(cs[i], x, moveAll);
    DetachInChild(t, i, x, moveAll);
    var r := Detach(cs[i], x, moveAll);
    if |q| > 1 {
      UniqueParts(t);
      DetachAtPath(cs[i], q[1..], moveAll);
      var c := SpliceAt(cs[i], q[1..], false);
      UpdateIsSplice(cs, i, c);
      assert RestAsList(r) == [c];
    } else {
      assert q[1..] == [];
      assert RestAsList(r) == [];
    }
  }

  /** Detaching from a root other than the target, when only child `i` holds the target. */
  lemma {:induction false} DetachInChild(t: Node, i: nat, x: string, moveAll: bool)
    requires t.id != x && i < |t.children|
    requires x !in IdsList(t.children[..i]) && x !in IdsList(t.children[i + 1..])
    requires Detach(t.children[i], x, moveAll).nodeToMove.Some?
    ensures var r := Detach(t.children[i], x, moveAll);
      Detach(t, x, moveAll)
      == Removal(r.nodeToMove, Some(t.(children := t.children[..i] + RestAsList(r) + t.children[i + 1..])), r.relocate)
  {
    var cs := t.children;
    DetachInChildrenOne(cs[..i], cs[i], cs[i + 1..], x, moveAll);
    assert cs == cs[..i] + [cs[i]] + cs[i + 1..];
  }

  /** When only child `c` holds the id, the scan keeps the others and takes `c`'s result. */
  lemma {:induction false} DetachInChildrenOne(before: seq<Node>, c: Node, after: seq<Node>, x: string, moveAll: bool)
    requires x !in IdsList(before) && x !in IdsList(after)
    requires Detach(c, x, moveAll).nodeToMove.Some?
    ensures var r := Detach(c, x, moveAll);
      DetachInChildren(before + [c] + after, x, moveAll) == Scan(r.nodeToMove, before + RestAsList(r) + after, r.relocate)
  {
    DetachInChildrenAbsent(before, x, moveAll);
    DetachInChildrenSnoc(before, c, x, moveAll);
    DetachInChildrenAbsentSuffix(before + [c], after, x, moveAll);
  }

  lemma {:induction false} DetachInChildrenSnoc(cs: seq<Node>, c: Node, x: string, moveAll: bool)
    ensures DetachInChildren(cs + [c], x, moveAll) == ScanStep(DetachInChildren(cs, x, moveAll), c, Detach(c, x, moveAll))
  {
    assert (cs + [c])[..|cs|] == cs;
  }

  /** The remaining tree as the source pushes it: only when there is one. */
  function RestAsList(r: Removal): seq<Node> {
    if r.rest.Some? then [r.rest.value] else []
  }

  /**
   * Detaching a node that was just appended under `y` (its id occurring nowhere else)
   * gives it back and restores the tree it was appended to; if there was no `y`, the
   * append did nothing and nothing is found.
   */
  lemma {:induction false} DetachAfterAdd(f: Node, y: string, n: Node, moveAll: bool)
    requires n.id !in Ids(f)
    ensures y in Ids(f) ==>
              Detach(AddNodeToChart(f, y, n), n.id, moveAll) == Removal(Some(Prepared(n, moveAll)), Some(f), Relocated(n, moveAll))
    ensures y !in Ids(f) ==> Detach(AddNodeToChart(f, y, n), n.id, moveAll) == Removal(None, Some(f), [])
    decreases f
  {
    var x := n.id;
    var a := AddNodeToChart(f, y, n);
    if y !in Ids(f) {
      AddNodeAbsent(f, y, n);
      DetachSound(f, x, moveAll);
    } else if f.id == y {
      DetachInChildrenAbsent(f.children, x, moveAll);
      DetachInChildrenSnoc(f.children, n, x, moveAll);
      assert Detach(n, x, moveAll) == Removal(Some(Prepared(n, moveAll)), None, Relocated(n, moveAll));
      assert f.children + [] == f.children;
      assert a.(children := f.children) == f;
    } else {
      forall j | 0 <= j < |f.children|
        ensures AddedAtIndex(f.children, a.children, j, y, n, moveAll)
      {
        IdsListMember(f.children, x);
        DetachAfterAdd(f.children[j], y, n, moveAll);
        if y !in Ids(f.children[j]) {
          AddNodeAbsent(f.children[j], y, n);
        }
      }
      DetachInChildrenAfterAdd(f.children, a.children, y, n, moveAll);
      IdsListMember(f.children, y);
    }
  }

  /** Child `a` is child `c` after the append: it gives back `n` if `y` was in `c`, and is `c` otherwise. */
  ghost predicate AddedAt(c: Node, a: Node, y: string, n: Node, moveAll: bool) {
    if y in Ids(c) then Detach(a, n.id, moveAll) == Removal(Some(Prepared(n, moveAll)), Some(c), Relocated(n, moveAll))
    else a == c && Detach(a, n.id, moveAll) == Removal(None, Some(c), [])
  }

  /** `AddedAt` for child `j` of the two lists. */
  ghost predicate AddedAtIndex(cs: seq<Node>, added: seq<Node>, j: int, y: string, n: Node, moveAll: bool)
    requires 0 <= j < |cs| && j < |added|
  {
    AddedAt(cs[j], added[j], y, n, moveAll)
  }

  lemma DetachInChildrenAfterAdd(cs: seq<Node>, added: seq<Node>, y: string, n: Node, moveAll: bool)
    requires |added| == |cs|
    requires forall j :: 0 <= j < |cs| ==> AddedAtIndex(cs, added, j, y, n, moveAll)
    ensures DetachInChildren(added, n.id, moveAll)
            == if y in IdsList(cs) then Scan(Some(Prepared(n, moveAll)), cs, Relocated(n, moveAll)) else Scan(None, cs, [])
  {
    DetachInChildrenAfterAddUpTo(cs, added, y, n, moveAll, |cs|);
    assert cs[..|cs|] == cs && added[..|cs|] == added;
  }

  /** The scan of the first `i` children after the append. */
  lemma {:induction false} DetachInChildrenAfterAddUpTo(cs: seq<Node>, added: seq<Node>, y: string, n: Node, moveAll: bool, i: nat)
    requires |added| == |cs| && i <= |cs|
    requires forall j :: 0 <= j < |cs| ==> AddedAtIndex(cs, added, j, y, n, moveAll)
    ensures DetachInChildren(added[..i], n.id, moveAll)
            == if y in IdsList(cs[..i]) then Scan(Some(Prepared(n, moveAll)), cs[..i], Relocated(n, moveAll)) else Scan(None, cs[..i], [])
    decreases i
  {
    if i > 0 {
      DetachInChildrenAfterAddUpTo(cs, added, y, n, moveAll, i - 1);
      AfterAddPrefixStep(cs, added, y, n, moveAll, i);
    }
  }

  /** The scan of the first `i` children follows from the scan of the first `i - 1`. */
  lemma AfterAddPrefixStep(cs: seq<Node>, added: seq<Node>, y: string, n: Node, moveAll: bool, i: nat)
    requires |added| == |cs| && 0 < i <= |cs|
    requires AddedAtIndex(cs, added, i - 1, y, n, moveAll)
    requires DetachInChildren(added[..i - 1], n.id, moveAll)
             == if y in IdsList(cs[..i - 1]) then Scan(Some(Prepared(n, moveAll)), cs[..i - 1], Relocated(n, moveAll)) else Scan(None, cs[..i - 1], [])
    ensures DetachInChildren(added[..i], n.id, moveAll)
            == if y in IdsList(cs[..i]) then Scan(Some(Prepared(n, moveAll)), cs[..i], Relocated(n, moveAll)) else Scan(None, cs[..i], [])
  {
    SplitLast(cs[..i]);
    SplitLast(added[..i]);
    assert cs[..i][..i - 1] == cs[..i - 1] && added[..i][..i - 1] == added[..i - 1];
    AfterAddStep(cs[..i - 1], cs[i - 1], added[..i - 1], added[i - 1], y, n, moveAll);
  }

  /** One more child in the scan after the append. */
  lemma AfterAddStep(front: seq<Node>, c: Node, addedFront: seq<Node>, a: Node, y: string, n: Node, moveAll: bool)
    requires DetachInChildren(addedFront, n.id, moveAll)
             == if y in IdsList(front) then Scan(Some(Prepared(n, moveAll)), front, Relocated(n, moveAll)) else Scan(None, front, [])
    requires AddedAt(c, a, y, n, moveAll)
    ensures DetachInChildren(addedFront + [a], n.id, moveAll)
            == if y in IdsList(front + [c]) then Scan(Some(Prepared(n, moveAll)), front + [c], Relocated(n, moveAll))
               else Scan(None, front + [c], [])
  {
    assert (addedFront + [a])[..|addedFront|] == addedFront;
    assert (front + [c])[..|front|] == front;
    var s := DetachInChildren(addedFront, n.id, moveAll);
    var r := Detach(a, n.id, moveAll);
    assert DetachInChildren(addedFront + [a], n.id, moveAll) == ScanStep(s, a, r);
    if y in Ids(c) {
      assert RestAsList(r) == [c];
    }
  }
}
