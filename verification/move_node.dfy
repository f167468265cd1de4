/**
 * moveNode: detach a node, optionally hand its children to its previous parent,
 * and append it under a new parent. The component that triggers a move calls it
 * twice in a row with the same arguments.
 */
module MoveNode {
  import opened Seqs
  import opened ChartTree
  import opened TreeEdits

  /** The chart after moving `nodeId` under `newParentId`. */
  function MoveTree(t: Node, nodeId: string, newParentId: string, moveAll: bool, prevParentId: Option<string>): (r: Node)
    ensures r.id == t.id
  {
    if nodeId == newParentId then t
    else
      var r := Detach(t, nodeId, moveAll);
      if r.nodeToMove.None? || r.rest.None? then t
      else
        var base :=
          if !moveAll && |r.relocate| > 0 && Truthy(prevParentId)
          then AddChildrenToPreviousParent(r.rest.value, prevParentId.value, r.relocate)
          else r.rest.value;
        var moved := r.nodeToMove.value;
        AddNodeToChart(base, newParentId, if moveAll then moved else moved.(children := []))
  }

  /** Moving a node onto itself, moving an absent node and moving the root change nothing. */
  lemma {:induction false} MoveNoop(t: Node, nodeId: string, newParentId: string, moveAll: bool, prevParentId: Option<string>)
    requires nodeId == newParentId || nodeId !in Ids(t) || t.id == nodeId
    ensures MoveTree(t, nodeId, newParentId, moveAll, prevParentId) == t
  {
    DetachSound(t, nodeId, moveAll);
  }

  /**
   * With unique ids, moving the node at a non-empty path takes it out of its parent's
   * child list, gives its children to `prevParentId` when they stay behind (and there
   * are some, and the id is truthy), and appends the node, childless unless moving
   * everything, under `newParentId`.
   */
  lemma {:induction false} MoveAtPath(t: Node, q: seq<nat>, newParentId: string, moveAll: bool, prevParentId: Option<string>)
    requires Unique(t) && ValidPath(t, q) && q != [] && At(t, q).id != newParentId
    ensures var x := At(t, q);
      var rest := SpliceAt(t, q, false);
      MoveTree(t, x.id, newParentId, moveAll, prevParentId)
      == AddNodeToChart(
           if !moveAll && |x.children| > 0 && Truthy(prevParentId)
           then AddChildrenToPreviousParent(rest, prevParentId.value, x.children)
           else rest,
           newParentId, Prepared(x, moveAll))
  {
    DetachAtPath(t, q, moveAll);
    var x := At(t, q);
    assert Prepared(x, true) == x;
  }

  /** The tree left after splicing out a whole subtree has unique ids and lost exactly that subtree's ids. */
  lemma {:induction false} RestAfterSplice(t: Node, q: seq<nat>)
    requires Unique(t) && ValidPath(t, q) && q != []
    ensures multiset(Ids(SpliceAt(t, q, false))) + multiset(Ids(At(t, q))) == multiset(Ids(t))
    ensures Unique(SpliceAt(t, q, false))
    ensures forall z :: z in Ids(t) && z !in Ids(At(t, q)) ==> z in Ids(SpliceAt(t, q, false))
    ensures forall z :: z in Ids(At(t, q)) ==> z !in Ids(SpliceAt(t, q, false))
  {
    SpliceAtIds(t, q, false);
    assert IdsList([]) == [];
    SplitCounts(Ids(t), Ids(At(t, q)), Ids(SpliceAt(t, q, false)));
  }

  /**
   * Moving a node with its whole subtree under a node outside that subtree keeps
   * every node exactly once, and the moved subtree becomes the last child of the
   * new parent.
   */
  lemma {:induction false} MoveAllKeepsEveryNode(t: Node, q: seq<nat>, newParentId: string, prevParentId: Option<string>)
    returns (p: seq<nat>)
    requires Unique(t) && ValidPath(t, q) && q != []
    requires newParentId in Ids(t) && newParentId !in Ids(At(t, q))
    ensures multiset(Ids(MoveTree(t, At(t, q).id, newParentId, true, prevParentId))) == multiset(Ids(t))
    ensures Unique(MoveTree(t, At(t, q).id, newParentId, true, prevParentId))
    ensures ValidPath(MoveTree(t, At(t, q).id, newParentId, true, prevParentId), p)
    ensures At(MoveTree(t, At(t, q).id, newParentId, true, prevParentId), p).id == newParentId
    ensures ValidPath(SpliceAt(t, q, false), p)
         && At(MoveTree(t, At(t, q).id, newParentId, true, prevParentId), p).children
            == At(SpliceAt(t, q, false), p).children + [At(t, q)]
  {
    var x := At(t, q);
    var f := SpliceAt(t, q, false);
    MoveAtPath(t, q, newParentId, true, prevParentId);
    RestAfterSplice(t, q);
    p := IdHasPath(f, newParentId);
    AddNodeAtPath(f, p, x);
    AppendAtShape(f, p, [x]);
    var r := MoveTree(t, x.id, newParentId, true, prevParentId);
    assert multiset(Ids(r)) == multiset(Ids(f)) + multiset(Ids(x));
    NoDupSubMultiset(Ids(t), Ids(r));
  }

  /**
   * Moving a node with its subtree under one of its own descendants loses the whole
   * subtree: the new parent is no longer in the tree when the node is appended.
   */
  lemma {:induction false} MoveAllIntoOwnSubtreeDropsIt(t: Node, q: seq<nat>, newParentId: string, prevParentId: Option<string>)
    requires Unique(t) && ValidPath(t, q) && q != []
    requires newParentId in IdsList(At(t, q).children)
    ensures MoveTree(t, At(t, q).id, newParentId, true, prevParentId) == SpliceAt(t, q, false)
    ensures multiset(Ids(MoveTree(t, At(t, q).id, newParentId, true, prevParentId))) + multiset(Ids(At(t, q)))
         == multiset(Ids(t))
  {
    var x := At(t, q);
    UniqueAt(t, q);
    UniqueParts(x);
    MoveAtPath(t, q, newParentId, true, prevParentId);
    RestAfterSplice(t, q);
    AddNodeAbsent(SpliceAt(t, q, false), newParentId, Prepared(x, true));
  }

  /** The id of the parent of the node at a non-empty path does not occur in that node's subtree. */
  lemma {:induction false} ParentOutsideSubtree(t: Node, q: seq<nat>)
    requires Unique(t) && ValidPath(t, q) && q != []
    ensures ValidPath(t, q[..|q| - 1])
    ensures At(t, q[..|q| - 1]).id in Ids(t)
    ensures At(t, q[..|q| - 1]).id !in Ids(At(t, q))
  {
    var pp := q[..|q| - 1];
    var i := q[|q| - 1];
    ParentPathValid(t, q);
    IdIsInSubtree(t, pp);
    var parent := At(t, pp);
    UniqueAt(t, pp);
    UniqueParts(parent);
    forall z | z in Ids(parent.children[i]) ensures z in IdsList(parent.children) {
      IdsListMember(parent.children, z);
    }
  }

  /**
   * Moving a node without its subordinates, with the previous parent id the caller
   * passes (the node's parent), keeps every node exactly once: the children go to the
   * old parent and the node becomes the childless last child of the new parent.
   */
  lemma {:induction false} MoveWithoutSubordinatesKeepsEveryNode(t: Node, q: seq<nat>, newParentId: string)
    returns (p: seq<nat>)
    requires Unique(t) && ValidPath(t, q) && q != [] && ValidPath(t, q[..|q| - 1])
    requires newParentId in Ids(t) && newParentId != At(t, q).id
    requires At(t, q[..|q| - 1]).id != ""
    ensures var m := MoveTree(t, At(t, q).id, newParentId, false, Some(At(t, q[..|q| - 1]).id));
      multiset(Ids(m)) == multiset(Ids(t)) && Unique(m)
      && ValidPath(m, p) && At(m, p).id == newParentId
      && |At(m, p).children| > 0 && At(m, p).children[|At(m, p).children| - 1] == At(t, q).(children := [])
  {
    var x := At(t, q);
    var pid := At(t, q[..|q| - 1]).id;
    MoveAtPath(t, q, newParentId, false, Some(pid));
    var f1 := OrphansToParent(t, q);
    assert (multiset(Ids(f1)) + multiset{x.id})[newParentId] == multiset(Ids(t))[newParentId];
    p := IdHasPath(f1, newParentId);
    var moved := Prepared(x, false);
    assert Ids(moved) == [x.id];
    var m := MoveTree(t, x.id, newParentId, false, Some(pid));
    assert m == AddNodeToChart(f1, newParentId, moved);
    AddNodeAtPath(f1, p, moved);
    AppendAtShape(f1, p, [moved]);
    var ch := At(f1, p).children + [moved];
    assert At(m, p).children == ch;
    assert ch[|ch| - 1] == moved;
    NoDupSubMultiset(Ids(t), Ids(m));
  }

  /** The tree after the node at `q` is spliced out and its children appended to its parent. */
  lemma {:induction false} OrphansToParent(t: Node, q: seq<nat>) returns (f1: Node)
    requires Unique(t) && ValidPath(t, q) && q != [] && ValidPath(t, q[..|q| - 1])
    ensures var x := At(t, q);
      f1 == (if |x.children| > 0 then AddChildrenToPreviousParent(SpliceAt(t, q, false), At(t, q[..|q| - 1]).id, x.children)
             else SpliceAt(t, q, false))
    ensures multiset(Ids(f1)) + multiset{At(t, q).id} == multiset(Ids(t))
    ensures Unique(f1)
  {
    var x := At(t, q);
    f1 := OrphansAppended(t, q);
    RestAfterSplice(t, q);
    ChildrenIds(x, x.children);
    assert x.(children := x.children) == x;
    MultisetRegroup(multiset(Ids(f1)), multiset(Ids(SpliceAt(t, q, false))), multiset(Ids(x)), multiset(Ids(t)),
      multiset(IdsList(x.children)), multiset{x.id});
    MultisetSumBounds(multiset(Ids(f1)), multiset{x.id}, multiset(Ids(t)));
    NoDupSubMultiset(Ids(t), Ids(f1));
  }

  /** Appending the spliced-out node's children to its parent adds exactly their ids. */
  lemma {:induction false} OrphansAppended(t: Node, q: seq<nat>) returns (f1: Node)
    requires Unique(t) && ValidPath(t, q) && q != [] && ValidPath(t, q[..|q| - 1])
    ensures var x := At(t, q);
      f1 == (if |x.children| > 0 then AddChildrenToPreviousParent(SpliceAt(t, q, false), At(t, q[..|q| - 1]).id, x.children)
             else SpliceAt(t, q, false))
    ensures multiset(Ids(f1)) == multiset(Ids(SpliceAt(t, q, false))) + multiset(IdsList(At(t, q).children))
  {
    var x := At(t, q);
    ParentOutsideSubtree(t, q);
    var pid := At(t, q[..|q| - 1]).id;
    var f0 := SpliceAt(t, q, false);
    RestAfterSplice(t, q);
    if |x.children| > 0 {
      var pp := IdHasPath(f0, pid);
      f1 := AddChildrenToPreviousParent(f0, pid, x.children);
      AddChildrenAtPath(f0, pp, x.children);
      AppendAtIds(f0, pp, x.children);
    } else {
      f1 := f0;
      assert IdsList(x.children) == [];
    }
  }

  /**
   * The component calls moveNode twice with the same arguments; with unique ids the
   * second call changes nothing.
   */
  lemma {:induction false} MoveTwiceIsMoveOnce(t: Node, nodeId: string, newParentId: string, moveAll: bool, prevParentId: Option<string>)
    requires Unique(t)
    ensures var once := MoveTree(t, nodeId, newParentId, moveAll, prevParentId);
      MoveTree(once, nodeId, newParentId, moveAll, prevParentId) == once
  {
    if nodeId != newParentId {
      var r := Detach(t, nodeId, moveAll);
      DetachSound(t, nodeId, moveAll);
      if r.nodeToMove.Some? && r.rest.Some? {
        var q := IdHasPath(t, nodeId);
        assert q != [];
        var x := At(t, q);
        MoveAtPath(t, q, newParentId, moveAll, prevParentId);
        DetachAtPath(t, q, moveAll);
        var rest := SpliceAt(t, q, false);
        var base :=
          if !moveAll && |x.children| > 0 && Truthy(prevParentId)
          then AddChildrenToPreviousParent(rest, prevParentId.value, x.children)
          else rest;
        UniqueAt(t, q);
        UniqueParts(x);
        forall z | z in Ids(base) ensures z != nodeId {
          if base != rest {
            AddChildrenIds(rest, prevParentId.value, x.children, z);
          }
        }
        var moved := Prepared(x, moveAll);
        DetachAfterAdd(base, newParentId, moved, moveAll);
        assert Prepared(moved, moveAll) == moved;
      }
    }
  }
}
