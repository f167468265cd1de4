/**
 * Collapsing part of the chart: the descendants of a node along the edge list, the
 * check whether some node above a node is collapsed, the nodes left visible, and the
 * toggle a click on a node performs on the set of collapsed ids.
 *
 * The two recursions of the component run on whatever edge list they are given.
 * When ids repeat, a chart's edges can lead back to a node, and then a recursion
 * may call itself again for a node whose call is still running: it never returns
 * (in the browser it ends with a stack overflow). Each recursion here carries the
 * set of nodes whose calls are still running and answers `None` exactly there;
 * on every other input it computes what the component computes.
 */
module Collapse {
  import opened Seqs
  import opened ChartTree
  import opened Projection
  import opened ProjectionFacts

  /** The index of the first edge into `x`, or -1 when no edge enters it (the lookup of a node's parent edge). */
  function FirstIn(es: seq<Edge>, x: string): (r: int)
    ensures -1 <= r < |es|
    ensures r >= 0 ==> es[r].target == x && forall k :: 0 <= k < r ==> es[k].target != x
    ensures r == -1 ==> forall k :: 0 <= k < |es| ==> es[k].target != x
  {
    if es == [] then -1
    else if es[0].target == x then 0
    else
      var r := FirstIn(es[1..], x);
      if r < 0 then -1 else r + 1
  }

  /** Every id an edge mentions: the ids the recursions can visit. */
  ghost function Ends(es: seq<Edge>): set<string> {
    (set e | e in es :: e.source) + (set e | e in es :: e.target)
  }

  lemma EdgeEnds(es: seq<Edge>, j: int)
    requires 0 <= j < |es|
    ensures es[j].source in Ends(es) && es[j].target in Ends(es)
  {
    assert es[j] in es;
  }

  /** `a` has an edge to `b`. */
  ghost predicate IsEdge(es: seq<Edge>, a: string, b: string) {
    exists j :: 0 <= j < |es| && es[j].source == a && es[j].target == b
  }

  /** One step of a walk along edges. */
  ghost predicate Step(es: seq<Edge>, ps: seq<string>, k: nat)
    requires k + 1 < |ps|
  {
    IsEdge(es, ps[k], ps[k + 1])
  }

  /** A walk of at least one edge, through the nodes `ps`. */
  ghost predicate Walk(es: seq<Edge>, ps: seq<string>) {
    |ps| >= 2 && forall k: nat :: k + 1 < |ps| ==> Step(es, ps, k)
  }

  /** An edge into the start of a walk extends it by one node at the front. */
  lemma WalkCons(es: seq<Edge>, x: string, rest: seq<string>)
    requires Walk(es, rest) && IsEdge(es, x, rest[0])
    ensures Walk(es, [x] + rest) && ([x] + rest)[|rest|] == rest[|rest| - 1]
  {
    var ps := [x] + rest;
    forall k: nat | k + 1 < |ps| ensures Step(es, ps, k) {
      if k > 0 {
        assert Step(es, rest, k - 1);
      }
    }
  }

  /** An edge out of the end of a walk extends it by one node at the back. */
  lemma WalkSnoc(es: seq<Edge>, ps: seq<string>, x: string)
    requires Walk(es, ps) && IsEdge(es, ps[|ps| - 1], x)
    ensures Walk(es, ps + [x]) && (ps + [x])[0] == ps[0]
  {
    var qs := ps + [x];
    forall k: nat | k + 1 < |qs| ensures Step(es, qs, k) {
      if k + 1 < |ps| {
        assert Step(es, ps, k);
      } else {
        assert qs[k] == ps[|ps| - 1] && qs[k + 1] == x;
      }
    }
  }

  /** The nodes of a walk from position `i` to position `j` form a walk. */
  lemma WalkSlice(es: seq<Edge>, ps: seq<string>, i: nat, j: nat)
    requires Walk(es, ps) && i + 1 < j <= |ps|
    ensures Walk(es, ps[i..j]) && ps[i..j][0] == ps[i] && ps[i..j][j - i - 1] == ps[j - 1]
  {
    var qs := ps[i..j];
    forall k: nat | k + 1 < |qs| ensures Step(es, qs, k) {
      assert Step(es, ps, i + k);
    }
  }

  /** Two walks meeting end to start make one walk. */
  lemma WalkJoin(es: seq<Edge>, ps: seq<string>, qs: seq<string>) returns (rs: seq<string>)
    requires Walk(es, ps) && Walk(es, qs) && ps[|ps| - 1] == qs[0]
    ensures Walk(es, rs) && rs[0] == ps[0] && rs[|rs| - 1] == qs[|qs| - 1]
  {
    rs := ps + qs[1..];
    forall k: nat | k + 1 < |rs| ensures Step(es, rs, k) {
      if k + 1 < |ps| {
        assert Step(es, ps, k);
      } else {
        assert Step(es, qs, k + 1 - |ps|);
      }
    }
  }

  // ---------------------------------------------------------------------------
  // Descendants.

  /** The targets of the edges leaving `x`, in edge order. */
  function Children(es: seq<Edge>, x: string): (r: seq<string>)
    ensures |r| <= |es|
  {
    if es == [] then []
    else Children(es[..|es| - 1], x) + (if es[|es| - 1].source == x then [es[|es| - 1].target] else [])
  }

  lemma {:induction false} ChildrenMember(es: seq<Edge>, x: string, c: string)
    ensures c in Children(es, x) <==> IsEdge(es, x, c)
    decreases |es|
  {
    if es != [] {
      var k := |es| - 1;
      ChildrenMember(es[..k], x, c);
      if IsEdge(es[..k], x, c) {
        var j :| 0 <= j < k && es[..k][j].source == x && es[..k][j].target == c;
        assert es[j] == es[..k][j];
      }
      if IsEdge(es, x, c) && (es[k].source != x || es[k].target != c) {
        if IsEdge(es, x, c) {
          var j :| 0 <= j < |es| && es[j].source == x && es[j].target == c;
          assert es[..k][j] == es[j];
        }
      }
    }
  }

  lemma ChildrenInEnds(es: seq<Edge>, x: string)
    ensures forall c :: c in Children(es, x) ==> c in Ends(es)
  {
    forall c | c in Children(es, x) ensures c in Ends(es) {
      ChildrenMember(es, x, c);
      var j :| 0 <= j < |es| && es[j].source == x && es[j].target == c;
      EdgeEnds(es, j);
    }
  }

  /**
   * The children of `x`, then the descendants of each child in turn, with `stack`
   * the nodes whose calls are still running. `None` when a call would start again
   * for a node on the stack: the recursion would never return.
   */
  function DescendantsFrom(es: seq<Edge>, x: string, stack: set<string>): Option<seq<string>>
    decreases Ends(es) - stack, 1
  {
    ChildrenInEnds(es, x);
    var cs := Children(es, x);
    match DescAllFrom(es, stack, cs)
    case None => None
    case Some(ds) => Some(cs + ds)
  }

  function DescAllFrom(es: seq<Edge>, stack: set<string>, cs: seq<string>): Option<seq<string>>
    requires forall c :: c in cs ==> c in Ends(es)
    decreases Ends(es) - stack, 0, |cs|
  {
    if cs == [] then Some([])
    else
      var c := cs[|cs| - 1];
      match DescAllFrom(es, stack, cs[..|cs| - 1])
      case None => None
      case Some(front) =>
        if c in stack then None
        else
          assert c in Ends(es) - stack;
          match DescendantsFrom(es, c, stack + {c})
          case None => None
          case Some(sub) => Some(front + sub)
  }

  /** What getDescendantNodes returns for `x`, or `None` when its recursion never returns. */
  function Descendants(es: seq<Edge>, x: string): Option<seq<string>> {
    DescendantsFrom(es, x, {x})
  }

  /** The filter-and-map over the edges that collects the direct children. */
  method DirectChildren(nodeId: string, edges: seq<Edge>) returns (cs: seq<string>)
    ensures cs == Children(edges, nodeId)
  {
    cs := [];
    for j := 0 to |edges|
      invariant cs == Children(edges[..j], nodeId)
    {
      assert edges[..j + 1][..j] == edges[..j];
      if edges[j].source == nodeId {
        cs := cs + [edges[j].target];
      }
    }
    assert edges[..|edges|] == edges;
  }

  /** Collects the descendants the way the component does: children first, then each child's descendants. */
  method GetDescendantNodes(nodeId: string, edges: seq<Edge>) returns (all: Option<seq<string>>)
    ensures all == Descendants(edges, nodeId)
  {
    all := CollectDescendants(nodeId, edges, {nodeId});
  }

  /**
   * The recursion of getDescendantNodes, with `stack` the ids whose calls are still
   * running. Where the component would call itself again for one of them, the
   * model answers `None` instead of recursing without end.
   */
  method CollectDescendants(nodeId: string, edges: seq<Edge>, stack: set<string>) returns (all: Option<seq<string>>)
    ensures all == DescendantsFrom(edges, nodeId, stack)
    decreases Ends(edges) - stack
  {
    var directChildren := DirectChildren(nodeId, edges);
    ChildrenInEnds(edges, nodeId);
    var acc := directChildren;
    assert directChildren[..0] == [] && acc[|directChildren|..] == [];
    for i := 0 to |directChildren|
      invariant CollectedUpTo(edges, stack, directChildren, i, acc)
    {
      var child := directChildren[i];
      if child in stack {
        StuckAt(edges, stack, directChildren, i, acc);
        return None;
      }
      assert child in Ends(edges) - stack;
      var sub := CollectDescendants(child, edges, stack + {child});
      if sub.None? {
        StuckAt(edges, stack, directChildren, i, acc);
        return None;
      }
      CollectedNext(edges, stack, directChildren, i, acc, sub.value);
      acc := acc + sub.value;
    }
    CollectedAll(edges, stack, directChildren, acc);
    all := Some(acc);
  }

  /** `acc` holds the children `cs`, then the descendants of the first `i` of them. */
  ghost predicate CollectedUpTo(es: seq<Edge>, stack: set<string>, cs: seq<string>, i: nat, acc: seq<string>)
    requires forall c :: c in cs ==> c in Ends(es)
  {
    i <= |cs| && |cs| <= |acc| && acc[..|cs|] == cs && DescAllFrom(es, stack, cs[..i]) == Some(acc[|cs|..])
  }

  /** Taking one more child into account adds that child's descendants. */
  lemma CollectedNext(es: seq<Edge>, stack: set<string>, cs: seq<string>, i: nat, acc: seq<string>, sub: seq<string>)
    requires forall c :: c in cs ==> c in Ends(es)
    requires i < |cs| && CollectedUpTo(es, stack, cs, i, acc)
    requires cs[i] !in stack && DescendantsFrom(es, cs[i], stack + {cs[i]}) == Some(sub)
    ensures CollectedUpTo(es, stack, cs, i + 1, acc + sub)
  {
    PrefixStep(cs, i);
    assert (acc + sub)[..|cs|] == acc[..|cs|];
    assert (acc + sub)[|cs|..] == acc[|cs|..] + sub;
  }

  /** A child that never returns makes the whole collection never return. */
  lemma StuckAt(es: seq<Edge>, stack: set<string>, cs: seq<string>, i: nat, acc: seq<string>)
    requires forall c :: c in cs ==> c in Ends(es)
    requires i < |cs| && CollectedUpTo(es, stack, cs, i, acc)
    requires cs[i] in stack || DescendantsFrom(es, cs[i], stack + {cs[i]}).None?
    ensures DescAllFrom(es, stack, cs).None?
  {
    PrefixStep(cs, i);
    DescAllNonePrefix(es, stack, cs, i + 1);
  }

  lemma {:induction false} DescAllNonePrefix(es: seq<Edge>, stack: set<string>, cs: seq<string>, n: nat)
    requires forall c :: c in cs ==> c in Ends(es)
    requires n <= |cs| && DescAllFrom(es, stack, cs[..n]).None?
    ensures DescAllFrom(es, stack, cs).None?
    decreases |cs| - n
  {
    if n < |cs| {
      PrefixStep(cs, n);
      DescAllNonePrefix(es, stack, cs, n + 1);
    } else {
      assert cs[..n] == cs;
    }
  }

  lemma CollectedAll(es: seq<Edge>, stack: set<string>, cs: seq<string>, acc: seq<string>)
    requires forall c :: c in cs ==> c in Ends(es)
    requires CollectedUpTo(es, stack, cs, |cs|, acc)
    ensures acc == cs + acc[|cs|..] && DescAllFrom(es, stack, cs) == Some(acc[|cs|..])
  {
    assert cs[..|cs|] == cs;
  }

  /** No node on the stack is ever collected: a returning call never leads back to a running one. */
  lemma {:induction false} DescendantsAvoidStack(es: seq<Edge>, x: string, stack: set<string>)
    ensures DescendantsFrom(es, x, stack).Some? ==> forall d :: d in DescendantsFrom(es, x, stack).value ==> d !in stack
    decreases Ends(es) - stack, 1
  {
    ChildrenInEnds(es, x);
    DescAllAvoidStack(es, stack, Children(es, x));
  }

  lemma {:induction false} DescAllAvoidStack(es: seq<Edge>, stack: set<string>, cs: seq<string>)
    requires forall c :: c in cs ==> c in Ends(es)
    ensures DescAllFrom(es, stack, cs).Some? ==> forall c :: c in cs ==> c !in stack
    ensures DescAllFrom(es, stack, cs).Some? ==> forall d :: d in DescAllFrom(es, stack, cs).value ==> d !in stack
    decreases Ends(es) - stack, 0, |cs|
  {
    if cs != [] {
      var k := |cs| - 1;
      var c := cs[k];
      DescAllAvoidStack(es, stack, cs[..k]);
      if c !in stack {
        assert c in Ends(es) - stack;
        DescendantsAvoidStack(es, c, stack + {c});
      }
      assert cs == cs[..k] + [c];
    }
  }

  /** A node collected for `cs` is collected by the call on one of them. */
  lemma {:induction false} DescAllFromSome(es: seq<Edge>, stack: set<string>, cs: seq<string>, d: string) returns (c: string)
    requires forall c :: c in cs ==> c in Ends(es)
    requires DescAllFrom(es, stack, cs).Some? && d in DescAllFrom(es, stack, cs).value
    ensures c in cs && c !in stack && DescendantsFrom(es, c, stack + {c}).Some?
    ensures d in DescendantsFrom(es, c, stack + {c}).value
    decreases |cs|
  {
    var k := |cs| - 1;
    if d in DescAllFrom(es, stack, cs[..k]).value {
      c := DescAllFromSome(es, stack, cs[..k], d);
    } else {
      c := cs[k];
    }
  }

  /** When the collection for `cs` returns, the call on each of them returns, and all it collects is kept. */
  lemma {:induction false} DescAllFromHas(es: seq<Edge>, stack: set<string>, cs: seq<string>, c: string)
    requires forall c :: c in cs ==> c in Ends(es)
    requires DescAllFrom(es, stack, cs).Some? && c in cs
    ensures c !in stack && DescendantsFrom(es, c, stack + {c}).Some?
    ensures forall d :: d in DescendantsFrom(es, c, stack + {c}).value ==> d in DescAllFrom(es, stack, cs).value
    decreases |cs|
  {
    var k := |cs| - 1;
    if cs[k] != c {
      assert c in cs[..k];
      DescAllFromHas(es, stack, cs[..k], c);
    }
  }

  /** When the collection for `cs` returns, the call on each of them returns. */
  lemma DescAllFromCallReturns(es: seq<Edge>, stack: set<string>, cs: seq<string>, c: string)
    requires forall c :: c in cs ==> c in Ends(es)
    requires DescAllFrom(es, stack, cs).Some? && c in cs
    ensures c !in stack && DescendantsFrom(es, c, stack + {c}).Some?
  {
    DescAllFromHas(es, stack, cs, c);
  }

  /** When the collection for `x` returns, so does the call it makes on each child of `x`. */
  lemma ChildCallReturns(es: seq<Edge>, x: string, stack: set<string>, c: string)
    requires DescendantsFrom(es, x, stack).Some? && IsEdge(es, x, c)
    ensures c !in stack && DescendantsFrom(es, c, stack + {c}).Some?
  {
    ChildrenMember(es, x, c);
    ChildrenInEnds(es, x);
    DescAllFromCallReturns(es, stack, Children(es, x), c);
  }

  lemma {:induction false} DescendantWalk(es: seq<Edge>, x: string, stack: set<string>, d: string) returns (ps: seq<string>)
    requires DescendantsFrom(es, x, stack).Some? && d in DescendantsFrom(es, x, stack).value
    ensures Walk(es, ps) && ps[0] == x && ps[|ps| - 1] == d
    decreases Ends(es) - stack, 1
  {
    ChildrenInEnds(es, x);
    var cs := Children(es, x);
    if d in cs {
      ChildrenMember(es, x, d);
      ps := [x, d];
      assert Step(es, ps, 0);
    } else {
      var c := DescAllFromSome(es, stack, cs, d);
      assert c in Ends(es) - stack;
      var rest := DescendantWalk(es, c, stack + {c}, d);
      ChildrenMember(es, x, c);
      ps := [x] + rest;
      WalkCons(es, x, rest);
    }
  }

  lemma {:induction false} WalkDescendant(es: seq<Edge>, ps: seq<string>, stack: set<string>)
    requires Walk(es, ps) && DescendantsFrom(es, ps[0], stack).Some?
    ensures ps[|ps| - 1] in DescendantsFrom(es, ps[0], stack).value
    decreases |ps|
  {
    assert Step(es, ps, 0);
    ChildrenMember(es, ps[0], ps[1]);
    ChildrenInEnds(es, ps[0]);
    if |ps| > 2 {
      WalkSlice(es, ps, 1, |ps|);
      assert ps[1..] == ps[1..|ps|];
      DescAllFromHas(es, stack, Children(es, ps[0]), ps[1]);
      WalkDescendant(es, ps[1..], stack + {ps[1]});
    }
  }

  /** When the collection for `x` returns, it holds exactly the nodes reachable from `x` by a walk along edges. */
  lemma DescendantsAreReachable(es: seq<Edge>, x: string, d: string)
    ensures Descendants(es, x).Some? ==>
              (d in Descendants(es, x).value <==> exists ps :: Walk(es, ps) && ps[0] == x && ps[|ps| - 1] == d)
  {
    if Descendants(es, x).Some? {
      if d in Descendants(es, x).value {
        var ps := DescendantWalk(es, x, {x}, d);
      }
      if exists ps :: Walk(es, ps) && ps[0] == x && ps[|ps| - 1] == d {
        var ps :| Walk(es, ps) && ps[0] == x && ps[|ps| - 1] == d;
        WalkDescendant(es, ps, {x});
      }
    }
  }

  /** When the collection for `x` returns, `x` is not among its own descendants. */
  lemma NotOwnDescendant(es: seq<Edge>, x: string)
    ensures Descendants(es, x).Some? ==> x !in Descendants(es, x).value
  {
    DescendantsAvoidStack(es, x, {x});
  }

  /** Some walk from `x` comes back to a node it has already passed through. */
  ghost predicate LoopReachable(es: seq<Edge>, x: string) {
    exists ps :: Walk(es, ps) && ps[0] == x && ps[|ps| - 1] in ps[..|ps| - 1]
  }

  /** getDescendantNodes never returns exactly when a walk from the node runs into a loop. */
  lemma DescendantsEndIffNoLoop(es: seq<Edge>, x: string)
    ensures Descendants(es, x).None? <==> LoopReachable(es, x)
  {
    if Descendants(es, x).None? {
      var ps := StuckCallLoops(es, [x], {x});
    } else {
      forall ps | Walk(es, ps) && ps[0] == x ensures ps[|ps| - 1] !in ps[..|ps| - 1] {
        ReturningWalkNoRepeat(es, ps);
      }
    }
  }

  /** A collection that does not return, from the last node of a path of calls, reveals a walk into a loop. */
  lemma {:induction false} StuckCallLoops(es: seq<Edge>, path: seq<string>, stack: set<string>) returns (ps: seq<string>)
    requires |path| >= 1 && forall k: nat :: k + 1 < |path| ==> Step(es, path, k)
    requires forall s :: s in stack <==> s in path
    requires DescendantsFrom(es, path[|path| - 1], stack).None?
    ensures Walk(es, ps) && ps[0] == path[0] && ps[|ps| - 1] in ps[..|ps| - 1]
    decreases Ends(es) - stack
  {
    var x := path[|path| - 1];
    ChildrenInEnds(es, x);
    var c := DescAllNoneWitness(es, stack, Children(es, x));
    ChildrenMember(es, x, c);
    var next := path + [c];
    forall k: nat | k + 1 < |next| ensures Step(es, next, k) {
      if k + 1 < |path| {
        assert Step(es, path, k);
      } else {
        assert next[k] == x && next[k + 1] == c;
      }
    }
    if c in stack {
      ps := next;
      assert ps[..|ps| - 1] == path;
    } else {
      assert c in Ends(es) - stack;
      ps := StuckCallLoops(es, next, stack + {c});
    }
  }

  lemma {:induction false} DescAllNoneWitness(es: seq<Edge>, stack: set<string>, cs: seq<string>) returns (c: string)
    requires forall c :: c in cs ==> c in Ends(es)
    requires DescAllFrom(es, stack, cs).None?
    ensures c in cs && (c in stack || DescendantsFrom(es, c, stack + {c}).None?)
    decreases |cs|
  {
    var k := |cs| - 1;
    if DescAllFrom(es, stack, cs[..k]).None? {
      c := DescAllNoneWitness(es, stack, cs[..k]);
    } else {
      c := cs[k];
    }
  }

  /**
   * Along a walk from a node whose collection returns, the call on each node
   * reached returns too, with the node on the stack it is called with.
   */
  lemma {:induction false} CallAlongWalk(es: seq<Edge>, ps: seq<string>, i: nat, stack: set<string>) returns (s: set<string>)
    requires Walk(es, ps) && i < |ps| && ps[0] in stack && DescendantsFrom(es, ps[0], stack).Some?
    ensures ps[i] in s && DescendantsFrom(es, ps[i], s).Some?
  {
    if i == 0 {
      s := stack;
    } else {
      var t := CallAlongWalk(es, ps, i - 1, stack);
      assert Step(es, ps, i - 1);
      ChildCallReturns(es, ps[i - 1], t, ps[i]);
      s := t + {ps[i]};
    }
  }

  /** A walk from a node whose collection returns never comes back to a node it passed through. */
  lemma {:induction false} ReturningWalkNoRepeat(es: seq<Edge>, ps: seq<string>)
    requires Walk(es, ps) && Descendants(es, ps[0]).Some?
    ensures ps[|ps| - 1] !in ps[..|ps| - 1]
    ensures ps[0] != ps[|ps| - 1]
  {
    var n := |ps|;
    forall i | 0 <= i < n - 1 ensures ps[i] != ps[n - 1] {
      var s := CallAlongWalk(es, ps, i, {ps[0]});
      WalkSlice(es, ps, i, n);
      WalkDescendant(es, ps[i..n], s);
      DescendantsAvoidStack(es, ps[i], s);
    }
    assert ps[0] == ps[..n - 1][0];
  }

  // ---------------------------------------------------------------------------
  // Collapsed ancestors.

  /**
   * Whether some node above `x` is collapsed: follow the first edge into `x` to its
   * source and repeat, with `seen` the nodes already passed. `None` when the walk
   * comes back to one of them before meeting a collapsed node: it would go round for ever.
   */
  function CollapsedFrom(x: string, collapsed: set<string>, es: seq<Edge>, seen: set<string>): Option<bool>
    decreases Ends(es) - seen
  {
    var j := FirstIn(es, x);
    if j < 0 then Some(false)
    else
      var p := es[j].source;
      if p in collapsed then Some(true)
      else if p in seen then None
      else
        EdgeEnds(es, j);
        CollapsedFrom(p, collapsed, es, seen + {p})
  }

  /** What isNodeOrAncestorCollapsed returns, or `None` when it never returns. The node's own membership is not consulted. */
  function IsNodeOrAncestorCollapsed(x: string, collapsed: set<string>, es: seq<Edge>): Option<bool> {
    CollapsedFrom(x, collapsed, es, {x})
  }

  /**
   * The parents the check passes, nearest first, each found by its first incoming edge.
   * The chain stops at a node without a parent edge, or at the first node met again.
   */
  function AncestorsFrom(es: seq<Edge>, x: string, seen: set<string>): seq<string>
    decreases Ends(es) - seen
  {
    var j := FirstIn(es, x);
    if j < 0 then []
    else
      var p := es[j].source;
      if p in seen then [p]
      else
        EdgeEnds(es, j);
        [p] + AncestorsFrom(es, p, seen + {p})
  }

  function Ancestors(es: seq<Edge>, x: string): seq<string> {
    AncestorsFrom(es, x, {x})
  }

  /** The chain ends in a loop: its last node still has a parent edge. */
  ghost predicate ClosesLoop(es: seq<Edge>, chain: seq<string>) {
    chain != [] && FirstIn(es, chain[|chain| - 1]) >= 0
  }

  lemma {:induction false} CollapsedFromChain(x: string, collapsed: set<string>, es: seq<Edge>, seen: set<string>)
    requires forall s :: s in seen && s != x ==> FirstIn(es, s) >= 0
    ensures CollapsedFrom(x, collapsed, es, seen) == Some(true)
            <==> exists a :: a in AncestorsFrom(es, x, seen) && a in collapsed
    ensures CollapsedFrom(x, collapsed, es, seen) == None
            <==> ClosesLoop(es, AncestorsFrom(es, x, seen)) && forall a :: a in AncestorsFrom(es, x, seen) ==> a !in collapsed
    decreases Ends(es) - seen
  {
    var j := FirstIn(es, x);
    var chain := AncestorsFrom(es, x, seen);
    if j < 0 {
      assert chain == [];
    } else {
      var p := es[j].source;
      if p in seen {
        assert chain == [p];
      } else if p in collapsed {
        EdgeEnds(es, j);
        assert chain[0] == p;
      } else {
        EdgeEnds(es, j);
        CollapsedFromChain(p, collapsed, es, seen + {p});
        var rest := AncestorsFrom(es, p, seen + {p});
        assert CollapsedFrom(x, collapsed, es, seen) == CollapsedFrom(p, collapsed, es, seen + {p});
        assert chain == [p] + rest;
        assert forall a :: a in chain <==> a == p || a in rest;
        if rest != [] {
          assert chain[|chain| - 1] == rest[|rest| - 1];
        }
      }
    }
  }

  /**
   * The check is true exactly when a node on the parent chain is collapsed. It never
   * returns exactly when the chain runs into a loop and none of its nodes is collapsed.
   */
  lemma CollapsedIffAncestor(x: string, collapsed: set<string>, es: seq<Edge>)
    ensures IsNodeOrAncestorCollapsed(x, collapsed, es) == Some(true)
            <==> exists a :: a in Ancestors(es, x) && a in collapsed
    ensures IsNodeOrAncestorCollapsed(x, collapsed, es) == None
            <==> ClosesLoop(es, Ancestors(es, x)) && forall a :: a in Ancestors(es, x) ==> a !in collapsed
  {
    CollapsedFromChain(x, collapsed, es, {x});
  }

  /** A node without an incoming edge, such as the root, is never hidden. */
  lemma NoParentNeverHidden(x: string, collapsed: set<string>, es: seq<Edge>)
    requires forall k :: 0 <= k < |es| ==> es[k].target != x
    ensures IsNodeOrAncestorCollapsed(x, collapsed, es) == Some(false)
  {
  }

  /** Every node on the chain above `x` has a walk down to `x`. */
  lemma {:induction false} AncestorWalk(es: seq<Edge>, x: string, seen: set<string>, a: string) returns (ps: seq<string>)
    requires a in AncestorsFrom(es, x, seen)
    ensures Walk(es, ps) && ps[0] == a && ps[|ps| - 1] == x
    decreases Ends(es) - seen
  {
    var j := FirstIn(es, x);
    var p := es[j].source;
    assert IsEdge(es, p, x);
    if a == p {
      ps := [p, x];
      assert Step(es, ps, 0);
    } else {
      EdgeEnds(es, j);
      var up := AncestorWalk(es, p, seen + {p}, a);
      ps := up + [x];
      WalkSnoc(es, up, x);
    }
  }

  /** Every node on the parent chain whose collection returns has `x` among its descendants. */
  lemma AncestorHasDescendant(es: seq<Edge>, x: string, a: string)
    requires a in Ancestors(es, x)
    ensures Descendants(es, a).Some? ==> x in Descendants(es, a).value
  {
    var ps := AncestorWalk(es, x, {x}, a);
    DescendantsAreReachable(es, a, x);
  }

  /** The check reads the set only at the nodes of the chain. */
  lemma {:induction false} ChainDecides(x: string, c1: set<string>, c2: set<string>, es: seq<Edge>, seen: set<string>)
    requires forall a :: a in AncestorsFrom(es, x, seen) ==> (a in c1 <==> a in c2)
    ensures CollapsedFrom(x, c1, es, seen) == CollapsedFrom(x, c2, es, seen)
    decreases Ends(es) - seen
  {
    var j := FirstIn(es, x);
    if j >= 0 {
      var p := es[j].source;
      if p !in seen && p !in c1 {
        EdgeEnds(es, j);
        ChainDecides(p, c1, c2, es, seen + {p});
      }
    }
  }

  /**
   * When the collection for `x` returns, no node of the chain above `x` is `x` itself
   * or one of its descendants.
   */
  lemma AncestorOutsideClick(es: seq<Edge>, x: string, a: string)
    ensures Descendants(es, x).Some? && a in Ancestors(es, x) ==> a != x && a !in Descendants(es, x).value
  {
    if Descendants(es, x).Some? && a in Ancestors(es, x) {
      var up := AncestorWalk(es, x, {x}, a);
      if a == x {
        ReturningWalkNoRepeat(es, up);
        assert false;
      }
      if a in Descendants(es, x).value {
        var down := DescendantWalk(es, x, {x}, a);
        var round := WalkJoin(es, down, up);
        ReturningWalkNoRepeat(es, round);
        assert false;
      }
    }
  }

  /**
   * Whether `x` itself is in the set does not matter unless `x` lies on its own
   * parent chain, which cannot happen when its collection returns.
   */
  lemma OwnMembershipIrrelevant(x: string, collapsed: set<string>, es: seq<Edge>)
    ensures x !in Ancestors(es, x) ==>
              IsNodeOrAncestorCollapsed(x, collapsed + {x}, es) == IsNodeOrAncestorCollapsed(x, collapsed - {x}, es)
    ensures Descendants(es, x).Some? ==> x !in Ancestors(es, x)
  {
    if x !in Ancestors(es, x) {
      ChainDecides(x, collapsed + {x}, collapsed - {x}, es, {x});
    }
    AncestorOutsideClick(es, x, x);
  }

  // ---------------------------------------------------------------------------
  // Visible nodes.

  /**
   * The nodes kept on screen: those with no collapsed node above them, in order;
   * `None` when the check never returns for one of them.
   */
  function VisibleNodes(nodes: seq<RenderNode>, collapsed: set<string>, es: seq<Edge>): (r: Option<seq<RenderNode>>)
    ensures r.Some? <==> forall n :: n in nodes ==> IsNodeOrAncestorCollapsed(n.id, collapsed, es).Some?
    ensures r.Some? ==> IsSubsequence(r.value, nodes)
    ensures r.Some? ==> forall n :: n in r.value <==> n in nodes && IsNodeOrAncestorCollapsed(n.id, collapsed, es) == Some(false)
    ensures r.Some? ==>
              forall n :: multiset(r.value)[n]
                          == if IsNodeOrAncestorCollapsed(n.id, collapsed, es) == Some(false) then multiset(nodes)[n] else 0
  {
    if nodes == [] then Some([])
    else
      assert nodes == [nodes[0]] + nodes[1..];
      var hidden := IsNodeOrAncestorCollapsed(nodes[0].id, collapsed, es);
      var rest := VisibleNodes(nodes[1..], collapsed, es);
      if hidden.None? || rest.None? then None
      else
        SubsequenceCons(nodes[0], rest.value, nodes[1..]);
        Some(if hidden.value then rest.value else [nodes[0]] + rest.value)
  }

  // ---------------------------------------------------------------------------
  // The click toggle.

  function Elems(s: seq<string>): set<string> {
    set d | d in s
  }

  /**
   * The set after a click on `x`: `x` and its descendants leave it if `x` was in it,
   * and join it otherwise. `None` when the collection of descendants never returns.
   */
  function Toggled(prev: set<string>, x: string, es: seq<Edge>): (r: Option<set<string>>)
    ensures r.Some? <==> Descendants(es, x).Some?
    ensures r.Some? ==> (x in r.value <==> x !in prev)
    ensures r.Some? ==> forall y :: y != x && y !in Descendants(es, x).value ==> (y in r.value <==> y in prev)
  {
    match Descendants(es, x)
    case None => None
    case Some(ds) =>
      Some(if x in prev then prev - ({x} + Elems(ds)) else prev + ({x} + Elems(ds)))
  }

  /** The click handler: copy the set, then delete or add the node and each descendant. */
  method OnNodeClick(prev: set<string>, x: string, edges: seq<Edge>) returns (next: Option<set<string>>)
    ensures next == Toggled(prev, x, edges)
    ensures next.Some? && x in prev ==>
              forall y :: y in next.value <==> y in prev && y != x && y !in Descendants(edges, x).value
    ensures next.Some? && x !in prev ==>
              forall y :: y in next.value <==> y in prev || y == x || y in Descendants(edges, x).value
  {
    var s := prev;
    if x in s {
      s := s - {x};
      var found := GetDescendantNodes(x, edges);
      if found.None? {
        return None;
      }
      var descendants := found.value;
      for i := 0 to |descendants|
        invariant s == prev - ({x} + Elems(descendants[..i]))
      {
        assert Elems(descendants[..i + 1]) == Elems(descendants[..i]) + {descendants[i]} by {
          assert descendants[..i + 1] == descendants[..i] + [descendants[i]];
        }
        s := s - {descendants[i]};
      }
      assert descendants[..|descendants|] == descendants;
    } else {
      s := s + {x};
      var found := GetDescendantNodes(x, edges);
      if found.None? {
        return None;
      }
      var descendants := found.value;
      for i := 0 to |descendants|
        invariant s == prev + ({x} + Elems(descendants[..i]))
      {
        assert Elems(descendants[..i + 1]) == Elems(descendants[..i]) + {descendants[i]} by {
          assert descendants[..i + 1] == descendants[..i] + [descendants[i]];
        }
        s := s + {descendants[i]};
      }
      assert descendants[..|descendants|] == descendants;
    }
    next := Some(s);
  }

  /** A click that returns leaves the clicked node's own visibility as it was. */
  lemma ClickKeepsOwnVisibility(prev: set<string>, x: string, es: seq<Edge>)
    ensures Toggled(prev, x, es).Some? ==>
              IsNodeOrAncestorCollapsed(x, Toggled(prev, x, es).value, es) == IsNodeOrAncestorCollapsed(x, prev, es)
  {
    if Toggled(prev, x, es).Some? {
      var next := Toggled(prev, x, es).value;
      forall a | a in Ancestors(es, x) ensures a in next <==> a in prev {
        AncestorOutsideClick(es, x, a);
      }
      ChainDecides(x, next, prev, es, {x});
    }
  }

  /** After collapsing `x`, every node with `x` on its parent chain is hidden. */
  lemma CollapseHidesBelow(prev: set<string>, x: string, es: seq<Edge>, d: string)
    requires x !in prev && x in Ancestors(es, d)
    ensures Toggled(prev, x, es).Some? ==> IsNodeOrAncestorCollapsed(d, Toggled(prev, x, es).value, es) == Some(true)
  {
    if Toggled(prev, x, es).Some? {
      CollapsedIffAncestor(d, Toggled(prev, x, es).value, es);
    }
  }

  /** Collapsing a node none of whose descendants is collapsed, then expanding it, restores the set. */
  lemma CollapseThenExpand(prev: set<string>, x: string, es: seq<Edge>)
    requires x !in prev
    requires Descendants(es, x).Some? ==> forall d :: d in Descendants(es, x).value ==> d !in prev
    ensures Toggled(prev, x, es).Some? ==> Toggled(Toggled(prev, x, es).value, x, es) == Some(prev)
  {
  }

  // ---------------------------------------------------------------------------
  // Edge lists on which both recursions return.

  /** The first edge into the source of an edge comes before the first edge into its target. */
  ghost predicate Layered(es: seq<Edge>) {
    forall j :: 0 <= j < |es| ==> EdgeLayered(es, j)
  }

  ghost predicate EdgeLayered(es: seq<Edge>, j: int)
    requires 0 <= j < |es|
  {
    FirstIn(es, es[j].source) < FirstIn(es, es[j].target)
  }

  lemma ChildrenLater(es: seq<Edge>, x: string)
    requires Layered(es)
    ensures forall c :: c in Children(es, x) ==> FirstIn(es, x) < FirstIn(es, c)
  {
    forall c | c in Children(es, x) ensures FirstIn(es, x) < FirstIn(es, c) {
      ChildrenMember(es, x, c);
      var j :| 0 <= j < |es| && es[j].source == x && es[j].target == c;
      assert EdgeLayered(es, j);
    }
  }

  lemma {:induction false} LayeredDescendantsReturn(es: seq<Edge>, x: string, stack: set<string>)
    requires Layered(es)
    requires forall s :: s in stack ==> FirstIn(es, s) <= FirstIn(es, x)
    ensures DescendantsFrom(es, x, stack).Some?
    decreases Ends(es) - stack, 1
  {
    ChildrenInEnds(es, x);
    ChildrenLater(es, x);
    LayeredDescAllReturn(es, stack, Children(es, x), FirstIn(es, x));
  }

  lemma {:induction false} LayeredDescAllReturn(es: seq<Edge>, stack: set<string>, cs: seq<string>, b: int)
    requires Layered(es) && forall c :: c in cs ==> c in Ends(es)
    requires forall s :: s in stack ==> FirstIn(es, s) <= b
    requires forall c :: c in cs ==> b < FirstIn(es, c)
    ensures DescAllFrom(es, stack, cs).Some?
    decreases Ends(es) - stack, 0, |cs|
  {
    if cs != [] {
      var k := |cs| - 1;
      var c := cs[k];
      LayeredDescAllReturn(es, stack, cs[..k], b);
      assert c !in stack;
      assert c in Ends(es) - stack;
      LayeredDescendantsReturn(es, c, stack + {c});
    }
  }

  lemma {:induction false} LayeredCollapsedReturns(x: string, collapsed: set<string>, es: seq<Edge>, seen: set<string>)
    requires Layered(es)
    requires forall s :: s in seen ==> FirstIn(es, x) <= FirstIn(es, s)
    ensures CollapsedFrom(x, collapsed, es, seen).Some?
    decreases Ends(es) - seen
  {
    var j := FirstIn(es, x);
    if j >= 0 {
      var p := es[j].source;
      assert EdgeLayered(es, j);
      if p !in collapsed {
        assert p !in seen;
        EdgeEnds(es, j);
        LayeredCollapsedReturns(p, collapsed, es, seen + {p});
      }
    }
  }

  /** On a layered edge list both recursions return, whatever the node and the set. */
  lemma LayeredReturns(es: seq<Edge>, x: string, collapsed: set<string>)
    requires Layered(es)
    ensures Descendants(es, x).Some?
    ensures IsNodeOrAncestorCollapsed(x, collapsed, es).Some?
  {
    LayeredDescendantsReturn(es, x, {x});
    LayeredCollapsedReturns(x, collapsed, es, {x});
  }

  // ---------------------------------------------------------------------------
  // The edges of a projected chart.

  /** The edges of a chart with unique, non-empty ids are layered. */
  lemma ConvertLayered(t: Node)
    requires Unique(t) && "" !in Ids(t)
    ensures Layered(Convert(t).edges)
  {
    var es := Convert(t).edges;
    ConvertTargets(t);
    VisitRooted(t, ROOT_CTX);
    var ts := Targets(es);
    NoDupConcat([t.id], IdsList(t.children));
    assert ts == IdsList(t.children);
    forall j | 0 <= j < |es| ensures EdgeLayered(es, j) {
      var r := FirstInOnly(es, j);
      var s := es[j].source;
      if s == t.id {
        RootNotEntered(t, es);
      } else {
        assert s in Targets(es[..j]);
        var k :| 0 <= k < j && Targets(es[..j])[k] == s;
        assert es[k].target == s;
      }
    }
  }

  /**
   * On the projection of a chart with unique, non-empty ids, the component's
   * recursions always return, so the visible nodes and every click are defined.
   */
  lemma ConvertCollapseReturns(t: Node, x: string, collapsed: set<string>)
    requires Unique(t) && "" !in Ids(t)
    ensures Descendants(Convert(t).edges, x).Some?
    ensures Toggled(collapsed, x, Convert(t).edges).Some?
    ensures IsNodeOrAncestorCollapsed(x, collapsed, Convert(t).edges).Some?
    ensures VisibleNodes(Convert(t).nodes, collapsed, Convert(t).edges).Some?
  {
    var es := Convert(t).edges;
    ConvertLayered(t);
    LayeredReturns(es, x, collapsed);
    forall n | n in Convert(t).nodes ensures IsNodeOrAncestorCollapsed(n.id, collapsed, es).Some? {
      LayeredReturns(es, n.id, collapsed);
    }
  }

  /** When no two edges share a target, the first edge into the target of edge `j` is edge `j`. */
  lemma FirstInOnly(es: seq<Edge>, j: int) returns (r: int)
    requires 0 <= j < |es| && NoDup(Targets(es))
    ensures r == FirstIn(es, es[j].target) == j
  {
    r := FirstIn(es, es[j].target);
    assert Targets(es)[j] == es[j].target;
    assert Targets(es)[r] == es[r].target;
  }

  lemma RootNotEntered(t: Node, es: seq<Edge>)
    requires Targets(es) == IdsList(t.children) && Unique(t)
    ensures FirstIn(es, t.id) == -1
  {
    UniqueParts(t);
    forall k | 0 <= k < |es| ensures es[k].target != t.id {
      assert Targets(es)[k] == es[k].target;
    }
  }

  /**
   * In the projection of a chart with unique, non-empty ids, the parent edge the
   * component looks up for a node comes from the node's parent in the chart, and the
   * root has none.
   */
  lemma ParentEdgeInConvert(t: Node, q: seq<nat>)
    requires Unique(t) && "" !in Ids(t) && ValidPath(t, q)
    ensures q == [] ==> FirstIn(Convert(t).edges, t.id) == -1
    ensures q != [] ==>
              FirstIn(Convert(t).edges, At(t, q).id) >= 0
              && Convert(t).edges[FirstIn(Convert(t).edges, At(t, q).id)].source == ParentAt(t, q).id
  {
    var es := Convert(t).edges;
    ConvertTargets(t);
    var ts := Targets(es);
    NoDupConcat([t.id], IdsList(t.children));
    assert ts == IdsList(t.children);
    if q == [] {
      RootNotEntered(t, es);
    } else {
      var x := At(t, q);
      ParentPathValid(t, q);
      IdsAt(t, q[..|q| - 1]);
      assert ParentAt(t, q).id != "";
      EdgeAt(t, q);
      var e := Edge(ParentAt(t, q).id + "-" + x.id, ParentAt(t, q).id, x.id);
      var j :| 0 <= j < |es| && es[j] == e;
      var r := FirstInOnly(es, j);
    }
  }

  /** The root of a projected chart is always visible. */
  lemma RootAlwaysVisible(t: Node, collapsed: set<string>)
    requires Unique(t) && "" !in Ids(t)
    ensures IsNodeOrAncestorCollapsed(t.id, collapsed, Convert(t).edges) == Some(false)
  {
    ParentEdgeInConvert(t, []);
  }

  // ---------------------------------------------------------------------------
  // A chart with a repeated id.

  /**
   * Organisation 1 has departments 100 and 200, and each department has a person
   * whose random id came out as 555: the edges of that chart, in the order the
   * projection emits them.
   */
  const REPEATED_ID_EDGES: seq<Edge> :=
    [Edge("1-100", "1", "100"), Edge("100-555", "100", "555"),
     Edge("1-200", "1", "200"), Edge("200-555", "200", "555")]

  lemma RepeatedIdChildren()
    ensures Children(REPEATED_ID_EDGES, "1") == ["100", "200"]
    ensures Children(REPEATED_ID_EDGES, "100") == ["555"]
    ensures Children(REPEATED_ID_EDGES, "200") == ["555"]
    ensures Children(REPEATED_ID_EDGES, "555") == []
  {
    var es := REPEATED_ID_EDGES;
    var e1, e2, e3 := es[..1], es[..2], es[..3];
    assert e3[..2] == e2 && e2[..1] == e1 && e1[..0] == [] && es[..3] == e3;
    assert Children(e1, "1") == ["100"] && Children(e2, "1") == ["100"] && Children(e3, "1") == ["100", "200"];
    assert Children(e2, "100") == ["555"] && Children(e3, "100") == ["555"];
    assert Children(e1, "200") == [] && Children(e2, "200") == [] && Children(e3, "200") == [];
    assert Children(e2, "555") == [];
  }

  /** A node without children collects nothing. */
  lemma DescendantsOfLeaf(es: seq<Edge>, x: string, stack: set<string>)
    requires Children(es, x) == []
    ensures DescendantsFrom(es, x, stack) == Some([])
  {
    assert DescAllFrom(es, stack, Children(es, x)) == Some([]);
    assert Children(es, x) + [] == [];
  }

  /** A node with one child collects the child, then what the call on the child collects. */
  lemma DescendantsOfOne(es: seq<Edge>, x: string, stack: set<string>, c: string, sub: seq<string>)
    requires Children(es, x) == [c] && c !in stack
    requires DescendantsFrom(es, c, stack + {c}) == Some(sub)
    ensures DescendantsFrom(es, x, stack) == Some([c] + sub)
  {
    ChildrenInEnds(es, x);
    assert [c][..0] == [];
    assert DescAllFrom(es, stack, [c]) == Some([] + sub);
    assert [] + sub == sub;
  }

  /** A node with two children collects both, then what the calls on them collect, in order. */
  lemma DescendantsOfTwo(es: seq<Edge>, x: string, stack: set<string>, c1: string, c2: string, sub1: seq<string>, sub2: seq<string>)
    requires Children(es, x) == [c1, c2] && c1 !in stack && c2 !in stack
    requires DescendantsFrom(es, c1, stack + {c1}) == Some(sub1)
    requires DescendantsFrom(es, c2, stack + {c2}) == Some(sub2)
    ensures DescendantsFrom(es, x, stack) == Some([c1, c2] + (sub1 + sub2))
  {
    ChildrenInEnds(es, x);
    assert [c1, c2][..1] == [c1] && [c1][..0] == [];
    assert DescAllFrom(es, stack, [c1]) == Some([] + sub1);
    assert [] + sub1 == sub1;
    assert DescAllFrom(es, stack, [c1, c2]) == Some(sub1 + sub2);
  }

  /** The edges have no loop, so the collection returns, and it lists person 555 twice. */
  lemma RepeatedIdDescendants()
    ensures Descendants(REPEATED_ID_EDGES, "1") == Some(["100", "200", "555", "555"])
  {
    var es := REPEATED_ID_EDGES;
    RepeatedIdChildren();
    var s1 := {"1"};
    DescendantsOfLeaf(es, "555", s1 + {"100"} + {"555"});
    DescendantsOfOne(es, "100", s1 + {"100"}, "555", []);
    DescendantsOfLeaf(es, "555", s1 + {"200"} + {"555"});
    DescendantsOfOne(es, "200", s1 + {"200"}, "555", []);
    assert ["555"] + [] == ["555"];
    DescendantsOfTwo(es, "1", s1, "100", "200", ["555"], ["555"]);
    assert ["100", "200"] + (["555"] + ["555"]) == ["100", "200", "555", "555"];
  }

  /** Department 200 collects its person only. */
  lemma RepeatedIdDepartment()
    ensures Descendants(REPEATED_ID_EDGES, "200") == Some(["555"])
  {
    var es := REPEATED_ID_EDGES;
    RepeatedIdChildren();
    DescendantsOfLeaf(es, "555", {"200"} + {"555"});
    DescendantsOfOne(es, "200", {"200"}, "555", []);
    assert ["555"] + [] == ["555"];
  }

  /** The first edges into 555, 100 and 1. */
  lemma RepeatedIdParents()
    ensures FirstIn(REPEATED_ID_EDGES, "555") == 1
    ensures FirstIn(REPEATED_ID_EDGES, "100") == 0
    ensures FirstIn(REPEATED_ID_EDGES, "1") == -1
  {
    var es := REPEATED_ID_EDGES;
    assert es[1..][1..][1..][1..] == [];
    assert FirstIn(es[1..][1..][1..], "1") == -1;
  }

  /** Collapsing, in an empty set, a node that collects a single node yields the two of them. */
  lemma ToggledSingle(x: string, es: seq<Edge>, d: string)
    requires Descendants(es, x) == Some([d])
    ensures Toggled({}, x, es) == Some({x, d})
  {
    assert Elems([d]) == {d} by {
      assert forall y :: y in [d] <==> y == d;
    }
    var none: set<string> := {};
    assert Toggled(none, x, es) == Some(none + ({x} + Elems([d])));
    assert none + ({x} + {d}) == {x, d};
  }

  /** Collapsing department 200 adds it and its person 555 to the set. */
  lemma RepeatedIdToggle()
    ensures Toggled({}, "200", REPEATED_ID_EDGES) == Some({"200", "555"})
  {
    RepeatedIdDepartment();
    ToggledSingle("200", REPEATED_ID_EDGES, "555");
  }

  /**
   * The check for 555 follows only the first edge into 555, which comes from
   * department 100; so after a click collapses department 200, the person of
   * department 200 stays visible.
   */
  lemma RepeatedIdStaysVisible()
    ensures Toggled({}, "200", REPEATED_ID_EDGES) == Some({"200", "555"})
    ensures IsNodeOrAncestorCollapsed("555", {"200", "555"}, REPEATED_ID_EDGES) == Some(false)
  {
    var es := REPEATED_ID_EDGES;
    RepeatedIdToggle();
    RepeatedIdParents();
    EdgeEnds(es, 1);
    EdgeEnds(es, 0);
    var c := {"200", "555"};
    assert "100" !in c && "1" !in c && "100" !in {"555"} && "1" !in {"555"} + {"100"};
    assert CollapsedFrom("1", c, es, {"555"} + {"100"} + {"1"}) == Some(false);
    assert CollapsedFrom("100", c, es, {"555"} + {"100"}) == Some(false);
  }
}
