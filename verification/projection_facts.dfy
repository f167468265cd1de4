/**
 * What convertChartData produces, stated against the chart: one render node per
 * chart node in pre-order, an edge exactly for each parent-child pair under a
 * truthy parent id, and for the node at any path the entries its ancestors
 * determine (parent id, "parent > name" labels, the colour of the nearest
 * department or location above it).
 */
module ProjectionFacts {
  import opened Seqs
  import opened ChartTree
  import opened Projection

  // ---------------------------------------------------------------------------
  // Render nodes follow the chart in pre-order.

  function RenderIds(ns: seq<RenderNode>): seq<string> {
    if ns == [] then [] else RenderIds(ns[..|ns| - 1]) + [ns[|ns| - 1].id]
  }

  lemma {:induction false} RenderIdsConcat(a: seq<RenderNode>, b: seq<RenderNode>)
    ensures RenderIds(a + b) == RenderIds(a) + RenderIds(b)
    decreases |b|
  {
    if b == [] {
      assert a + b == a;
    } else {
      assert (a + b)[..|a + b| - 1] == a + b[..|b| - 1];
      RenderIdsConcat(a, b[..|b| - 1]);
    }
  }

  lemma {:induction false} VisitRenderIds(n: Node, ctx: Ctx)
    ensures RenderIds(Visit(n, ctx).nodes) == Ids(n)
    decreases n, 1
  {
    VisitListRenderIds(n.children, ChildCtx(n, ctx));
    RenderIdsConcat([RenderOf(n, ctx)], VisitList(n.children, ChildCtx(n, ctx)).nodes);
    assert [RenderOf(n, ctx)][..0] == [];
  }

  lemma {:induction false} VisitListRenderIds(cs: seq<Node>, ctx: Ctx)
    ensures RenderIds(VisitList(cs, ctx).nodes) == IdsList(cs)
    decreases cs, 0
  {
    if cs != [] {
      var k := |cs| - 1;
      VisitListRenderIds(cs[..k], ctx);
      VisitRenderIds(cs[k], ctx);
      RenderIdsConcat(VisitList(cs[..k], ctx).nodes, Visit(cs[k], ctx).nodes);
    }
  }

  lemma {:induction false} RenderIdsIndex(ns: seq<RenderNode>)
    ensures |RenderIds(ns)| == |ns|
    ensures forall i :: 0 <= i < |ns| ==> RenderIds(ns)[i] == ns[i].id
    decreases |ns|
  {
    if ns != [] {
      RenderIdsIndex(ns[..|ns| - 1]);
      forall i | 0 <= i < |ns| - 1 ensures RenderIds(ns)[i] == ns[i].id {
        assert ns[..|ns| - 1][i] == ns[i];
      }
    }
  }

  /** The i-th render node is the i-th chart node in pre-order: one render node per chart node. */
  lemma ConvertNodesPreorder(t: Node)
    ensures |Convert(t).nodes| == |Ids(t)|
    ensures forall i :: 0 <= i < |Ids(t)| ==> Convert(t).nodes[i].id == Ids(t)[i]
  {
    VisitRenderIds(t, ROOT_CTX);
    RenderIdsIndex(Convert(t).nodes);
  }

  /** A child is a person, a group, or neither, so the two direct counts never exceed the number of children. */
  lemma {:induction false} DirectCountsBounded(cs: seq<Node>)
    ensures PersonCount(cs) + GroupCount(cs) <= |cs|
    decreases |cs|
  {
    if cs != [] {
      DirectCountsBounded(cs[..|cs| - 1]);
    }
  }

  /**
   * The component and size of a render node follow the kind: organisations get the
   * main component, departments and locations the small one at 300x50, everything
   * else the child component at 300x150; the data repeats the node's id and kind.
   */
  lemma RenderShape(n: Node, ctx: Ctx)
    ensures RenderOf(n, ctx).id == RenderOf(n, ctx).data.id == n.id
    ensures RenderOf(n, ctx).data.kind == n.kind
    ensures RenderOf(n, ctx).nodeType == MAIN_NODE <==> n.kind == ORGANISATION
    ensures RenderOf(n, ctx).nodeType == SMALL_NODE <==> IsGroup(n.kind)
    ensures RenderOf(n, ctx).nodeType == CHILD_NODE <==> n.kind != ORGANISATION && !IsGroup(n.kind)
    ensures RenderOf(n, ctx).data.dimensions == if IsGroup(n.kind) then Dimensions(300, 50) else Dimensions(300, 150)
    ensures RenderOf(n, ctx).data.directPerson + RenderOf(n, ctx).data.directDeptAndLocation <= |n.children|
  {
    DirectCountsBounded(n.children);
  }

  // ---------------------------------------------------------------------------
  // Edges.

  /** The targets of an edge list, in order. */
  function Targets(es: seq<Edge>): seq<string> {
    seq(|es|, j requires 0 <= j < |es| => es[j].target)
  }

  lemma TargetsConcat(a: seq<Edge>, b: seq<Edge>)
    ensures Targets(a + b) == Targets(a) + Targets(b)
  {
    assert forall j :: 0 <= j < |a + b| ==> Targets(a + b)[j] == (Targets(a) + Targets(b))[j];
  }

  /**
   * A chart without empty ids gets one edge into every node below the root, in
   * pre-order, and none into the root.
   */
  lemma ConvertTargets(t: Node)
    requires "" !in Ids(t)
    ensures Targets(Convert(t).edges) == Ids(t)[1..]
    ensures |Convert(t).edges| == |Ids(t)| - 1
  {
    VisitTargets(t, ROOT_CTX);
  }

  lemma {:induction false} VisitTargets(n: Node, ctx: Ctx)
    requires "" !in Ids(n)
    ensures Targets(Visit(n, ctx).edges) == if Truthy(ctx.parentId) then Ids(n) else IdsList(n.children)
    decreases n, 1
  {
    VisitListTargets(n.children, ChildCtx(n, ctx));
    TargetsConcat(EdgesOf(n, ctx), VisitList(n.children, ChildCtx(n, ctx)).edges);
  }

  lemma {:induction false} VisitListTargets(cs: seq<Node>, ctx: Ctx)
    requires "" !in IdsList(cs) && Truthy(ctx.parentId)
    ensures Targets(VisitList(cs, ctx).edges) == IdsList(cs)
    decreases cs, 0
  {
    if cs != [] {
      var k := |cs| - 1;
      VisitListTargets(cs[..k], ctx);
      VisitTargets(cs[k], ctx);
      TargetsConcat(VisitList(cs[..k], ctx).edges, Visit(cs[k], ctx).edges);
    }
  }

  /** Every edge leaves `r` or a node some earlier edge entered. */
  ghost predicate Rooted(es: seq<Edge>, r: string) {
    forall j :: 0 <= j < |es| ==> es[j].source == r || es[j].source in Targets(es[..j])
  }

  lemma RootedConcat(a: seq<Edge>, b: seq<Edge>, r: string)
    requires Rooted(a, r) && Rooted(b, r)
    ensures Rooted(a + b, r)
  {
    forall j | |a| <= j < |a + b|
      ensures (a + b)[j].source == r || (a + b)[j].source in Targets((a + b)[..j])
    {
      assert (a + b)[..j] == a + b[..j - |a|];
      TargetsConcat(a, b[..j - |a|]);
    }
    forall j | 0 <= j < |a| ensures (a + b)[..j] == a[..j] {
    }
  }

  lemma RootedCons(e: Edge, b: seq<Edge>)
    requires Rooted(b, e.target)
    ensures Rooted([e] + b, e.source)
  {
    var es := [e] + b;
    forall j | 1 <= j < |es| ensures es[j].source == e.source || es[j].source in Targets(es[..j]) {
      assert es[..j] == [e] + b[..j - 1];
      TargetsConcat([e], b[..j - 1]);
      assert es[j] == b[j - 1];
      assert Targets([e])[0] == e.target;
    }
  }

  /**
   * The edges the walk produces below a node leave the node's parent (or the node
   * itself at the root) or a node an earlier edge entered: a parent's edge comes
   * before its children's.
   */
  lemma {:induction false} VisitRooted(n: Node, ctx: Ctx)
    requires "" !in Ids(n)
    ensures Rooted(Visit(n, ctx).edges, if Truthy(ctx.parentId) then ctx.parentId.value else n.id)
    decreases n, 1
  {
    VisitListRooted(n.children, ChildCtx(n, ctx));
    if Truthy(ctx.parentId) {
      RootedCons(EdgesOf(n, ctx)[0], VisitList(n.children, ChildCtx(n, ctx)).edges);
    } else {
      assert Visit(n, ctx).edges == VisitList(n.children, ChildCtx(n, ctx)).edges;
    }
  }

  lemma {:induction false} VisitListRooted(cs: seq<Node>, ctx: Ctx)
    requires "" !in IdsList(cs) && Truthy(ctx.parentId)
    ensures Rooted(VisitList(cs, ctx).edges, ctx.parentId.value)
    decreases cs, 0
  {
    if cs != [] {
      var k := |cs| - 1;
      VisitListRooted(cs[..k], ctx);
      VisitRooted(cs[k], ctx);
      RootedConcat(VisitList(cs[..k], ctx).edges, Visit(cs[k], ctx).edges, ctx.parentId.value);
    }
  }

  /** `parent` is the id of a node that has a child with id `child`. */
  ghost predicate IsParentOf(t: Node, parent: string, child: string) {
    exists q :: ValidPath(t, q) && At(t, q).id == parent && child in ChildIds(At(t, q))
  }

  function ChildIds(n: Node): seq<string> {
    seq(|n.children|, i requires 0 <= i < |n.children| => n.children[i].id)
  }

  /**
   * Every edge of the projection joins a node to one of its children and is named
   * "source-target"; the source id is never empty.
   */
  lemma ConvertEdgesSound(t: Node, e: Edge)
    requires e in Convert(t).edges
    ensures e.id == e.source + "-" + e.target && e.source != ""
    ensures IsParentOf(t, e.source, e.target)
  {
    VisitEdgesSound(t, ROOT_CTX, e);
  }

  lemma {:induction false} VisitEdgesSound(n: Node, ctx: Ctx, e: Edge)
    requires e in Visit(n, ctx).edges
    ensures e.id == e.source + "-" + e.target && e.source != ""
    ensures (Truthy(ctx.parentId) && e == Edge(ctx.parentId.value + "-" + n.id, ctx.parentId.value, n.id))
            || IsParentOf(n, e.source, e.target)
    decreases n, 1
  {
    if e !in EdgesOf(n, ctx) {
      var cctx := ChildCtx(n, ctx);
      var i := VisitListEdgesSound(n.children, cctx, e);
      var c := n.children[i];
      if IsParentOf(c, e.source, e.target) {
        var q :| ValidPath(c, q) && At(c, q).id == e.source && e.target in ChildIds(At(c, q));
        assert ([i] + q)[1..] == q;
        assert ValidPath(n, [i] + q) && At(n, [i] + q) == At(c, q);
      } else {
        assert ValidPath(n, []) && At(n, []) == n;
        assert ChildIds(n)[i] == c.id;
      }
    }
  }

  lemma {:induction false} VisitListEdgesSound(cs: seq<Node>, ctx: Ctx, e: Edge) returns (i: nat)
    requires e in VisitList(cs, ctx).edges
    ensures i < |cs|
    ensures e.id == e.source + "-" + e.target && e.source != ""
    ensures (Truthy(ctx.parentId) && e == Edge(ctx.parentId.value + "-" + cs[i].id, ctx.parentId.value, cs[i].id))
            || IsParentOf(cs[i], e.source, e.target)
    decreases cs, 0
  {
    var k := |cs| - 1;
    if e in VisitList(cs[..k], ctx).edges {
      i := VisitListEdgesSound(cs[..k], ctx, e);
      assert cs[..k][i] == cs[i];
    } else {
      i := k;
      VisitEdgesSound(cs[k], ctx, e);
    }
  }

  // ---------------------------------------------------------------------------
  // The context the walk hands to the node at a path.

  /** The context the walk reaches the node at `q` with, starting from `c` at `t`. */
  function CtxAlong(t: Node, q: seq<nat>, c: Ctx): Ctx
    requires ValidPath(t, q)
    decreases |q|
  {
    if q == [] then c else CtxAlong(t.children[q[0]], q[1..], ChildCtx(t, c))
  }

  function CtxAt(t: Node, q: seq<nat>): Ctx
    requires ValidPath(t, q)
  {
    CtxAlong(t, q, ROOT_CTX)
  }

  /** The parent of the node at a non-empty path. */
  function ParentAt(t: Node, q: seq<nat>): Node
    requires ValidPath(t, q) && q != []
  {
    ParentPathValid(t, q);
    At(t, q[..|q| - 1])
  }

  /** The colour of the nearest department or location strictly above the node at `q`, or "". */
  function NearestGroupColor(t: Node, q: seq<nat>): string
    requires ValidPath(t, q)
    decreases |q|
  {
    if q == [] then ""
    else
      ParentPathValid(t, q);
      var p := At(t, q[..|q| - 1]);
      if IsGroup(p.kind) then p.color else NearestGroupColor(t, q[..|q| - 1])
  }

  lemma {:induction false} CtxAlongSnoc(t: Node, q: seq<nat>, i: nat, c: Ctx)
    requires ValidPath(t, q + [i])
    ensures ValidPath(t, q)
    ensures CtxAlong(t, q + [i], c) == ChildCtx(At(t, q), CtxAlong(t, q, c))
    decreases |q|
  {
    assert (q + [i])[..|q + [i]| - 1] == q;
    ParentPathValid(t, q + [i]);
    if q == [] {
      assert [] + [i] == [i];
      assert [i][1..] == [];
    } else {
      assert (q + [i])[1..] == q[1..] + [i];
      CtxAlongSnoc(t.children[q[0]], q[1..], i, ChildCtx(t, c));
    }
  }

  /**
   * The node at a path is processed with its parent's id (none at the root), its
   * parent's display name ("" below an organisation or at the root) and the colour of
   * the nearest department or location above it ("" when there is none).
   */
  lemma {:induction false} CtxAtCharacterized(t: Node, q: seq<nat>)
    requires ValidPath(t, q)
    ensures q == [] ==> CtxAt(t, q) == ROOT_CTX
    ensures q != [] ==> CtxAt(t, q) == Ctx(Some(ParentAt(t, q).id), ChildPrefix(ParentAt(t, q)), NearestGroupColor(t, q))
    decreases |q|
  {
    if q != [] {
      var pp, i := q[..|q| - 1], q[|q| - 1];
      assert q == pp + [i];
      CtxAlongSnoc(t, pp, i, ROOT_CTX);
      CtxAtCharacterized(t, pp);
    }
  }

  // ---------------------------------------------------------------------------
  // The entries of the node at a path appear in the projection.

  /** Everything in `a` is in `b`, list by list. */
  ghost predicate Within(a: Projection, b: Projection) {
    (forall r :: r in a.nodes ==> r in b.nodes)
    && (forall e :: e in a.edges ==> e in b.edges)
    && (forall m :: m in a.managers ==> m in b.managers)
    && (forall p :: p in a.people ==> p in b.people)
  }

  lemma WithinAppend(a: Projection, b: Projection)
    ensures Within(a, a.Append(b)) && Within(b, a.Append(b))
  {
  }

  lemma {:induction false} VisitListWithin(cs: seq<Node>, i: nat, ctx: Ctx)
    requires i < |cs|
    ensures Within(Visit(cs[i], ctx), VisitList(cs, ctx))
    decreases |cs|
  {
    var k := |cs| - 1;
    var front, last := VisitList(cs[..k], ctx), Visit(cs[k], ctx);
    assert VisitList(cs, ctx) == front.Append(last);
    WithinAppend(front, last);
    if i < k {
      VisitListWithin(cs[..k], i, ctx);
      assert cs[..k][i] == cs[i];
      WithinTrans(Visit(cs[i], ctx), front, VisitList(cs, ctx));
    } else {
      assert Visit(cs[i], ctx) == last;
    }
  }

  lemma WithinTrans(a: Projection, b: Projection, c: Projection)
    requires Within(a, b) && Within(b, c)
    ensures Within(a, c)
  {
  }

  lemma {:induction false} VisitWithin(t: Node, q: seq<nat>, c: Ctx)
    requires ValidPath(t, q)
    ensures Within(Emit(At(t, q), CtxAlong(t, q, c)), Visit(t, c))
    decreases |q|
  {
    WithinAppend(Emit(t, c), VisitList(t.children, ChildCtx(t, c)));
    if q != [] {
      var i := q[0];
      VisitWithin(t.children[i], q[1..], ChildCtx(t, c));
      VisitListWithin(t.children, i, ChildCtx(t, c));
      WithinTrans(Emit(At(t, q), CtxAlong(t, q, c)), Visit(t.children[i], ChildCtx(t, c)), VisitList(t.children, ChildCtx(t, c)));
      WithinTrans(Emit(At(t, q), CtxAlong(t, q, c)), VisitList(t.children, ChildCtx(t, c)), Visit(t, c));
    }
  }

  /** What the node at a path contributes, with the context it is reached with, is in the projection. */
  lemma EmitAt(t: Node, q: seq<nat>)
    requires ValidPath(t, q)
    ensures Within(Emit(At(t, q), CtxAt(t, q)), Convert(t))
  {
    VisitWithin(t, q, ROOT_CTX);
  }

  /**
   * The render node of the node at a path carries its parent's id and the colour
   * rule: a person under a department or location with a non-empty colour shows that
   * colour, every other node its own.
   */
  lemma RenderAt(t: Node, q: seq<nat>)
    requires ValidPath(t, q)
    ensures RenderOf(At(t, q), CtxAt(t, q)) in Convert(t).nodes
    ensures RenderOf(At(t, q), CtxAt(t, q)).data.parentId == (if q == [] then None else Some(ParentAt(t, q).id))
    ensures RenderOf(At(t, q), CtxAt(t, q)).data.color
         == (if At(t, q).kind == PERSON && NearestGroupColor(t, q) != "" then NearestGroupColor(t, q) else At(t, q).color)
  {
    EmitAt(t, q);
    CtxAtCharacterized(t, q);
  }

  /** With unique ids, the render node of a chart node is the only one with its id. */
  lemma RenderAtIsOnly(t: Node, q: seq<nat>, r: RenderNode)
    requires Unique(t) && ValidPath(t, q)
    requires r in Convert(t).nodes && r.id == At(t, q).id
    ensures r == RenderOf(At(t, q), CtxAt(t, q))
  {
    var ns := Convert(t).nodes;
    var mine := RenderOf(At(t, q), CtxAt(t, q));
    RenderAt(t, q);
    ConvertNodesPreorder(t);
    var j :| 0 <= j < |ns| && ns[j] == r;
    var k :| 0 <= k < |ns| && ns[k] == mine;
    assert Ids(t)[j] == Ids(t)[k];
  }

  /** A person gets a directory entry labelled "parent > name" (just the name when the parent has no name). */
  lemma PersonEntryAt(t: Node, q: seq<nat>)
    requires ValidPath(t, q) && At(t, q).kind == PERSON
    ensures PersonEntry(At(t, q).id, Prefixed(if q == [] then "" else ChildPrefix(ParentAt(t, q)), At(t, q).name),
                        At(t, q).info.role.GetOr(""))
            in Convert(t).people
  {
    EmitAt(t, q);
    CtxAtCharacterized(t, q);
  }

  /**
   * A person, department or location at the root is offered as a manager under its
   * name; below the root one with a non-empty name is offered under its "parent > name"
   * label; every organisation is offered as self-managed.
   */
  lemma ManagerAt(t: Node, q: seq<nat>)
    requires ValidPath(t, q)
    ensures At(t, q).kind == ORGANISATION ==> Manager(At(t, q).id, SELF_MANAGED, "") in Convert(t).managers
    ensures q == [] && ManagerLabel(t.kind) != "" ==> Manager(t.id, t.name, ManagerLabel(t.kind)) in Convert(t).managers
    ensures q != [] && ManagerLabel(At(t, q).kind) != "" && At(t, q).name != "" ==>
              Manager(At(t, q).id, Prefixed(ChildPrefix(ParentAt(t, q)), At(t, q).name), ManagerLabel(At(t, q).kind))
              in Convert(t).managers
  {
    EmitAt(t, q);
    CtxAtCharacterized(t, q);
  }

  /** Every node below a parent with a non-empty id is the target of the edge "parent-child". */
  lemma EdgeAt(t: Node, q: seq<nat>)
    requires ValidPath(t, q) && q != [] && ParentAt(t, q).id != ""
    ensures Edge(ParentAt(t, q).id + "-" + At(t, q).id, ParentAt(t, q).id, At(t, q).id) in Convert(t).edges
  {
    var e := Edge(ParentAt(t, q).id + "-" + At(t, q).id, ParentAt(t, q).id, At(t, q).id);
    EmitAt(t, q);
    CtxAtCharacterized(t, q);
    assert EdgesOf(At(t, q), CtxAt(t, q)) == [e];
    assert e in Emit(At(t, q), CtxAt(t, q)).edges;
  }

  // ---------------------------------------------------------------------------
  // The people directory and the manager picker, against the chart.

  /** The ids of the nodes `keep` selects, in pre-order. */
  function IdsWhere(t: Node, keep: Node -> bool): seq<string>
    decreases t, 1
  {
    (if keep(t) then [t.id] else []) + IdsWhereList(t.children, keep)
  }

  function IdsWhereList(cs: seq<Node>, keep: Node -> bool): seq<string>
    decreases cs, 0
  {
    if cs == [] then [] else IdsWhereList(cs[..|cs| - 1], keep) + IdsWhere(cs[|cs| - 1], keep)
  }

  predicate IsPerson(n: Node) {
    n.kind == PERSON
  }

  /** Offered as a manager below the root: an organisation, or a person, department or location with a name. */
  predicate OfferedBelowRoot(n: Node) {
    n.kind == ORGANISATION || (ManagerLabel(n.kind) != "" && n.name != "")
  }

  /** Offered as a manager at the root, where the name is not checked. */
  predicate OfferedAtRoot(n: Node) {
    n.kind == ORGANISATION || ManagerLabel(n.kind) != ""
  }

  function PeopleIds(ps: seq<PersonEntry>): seq<string> {
    seq(|ps|, j requires 0 <= j < |ps| => ps[j].id)
  }

  function ManagerIds(ms: seq<Manager>): seq<string> {
    seq(|ms|, j requires 0 <= j < |ms| => ms[j].id)
  }

  lemma PeopleIdsConcat(a: seq<PersonEntry>, b: seq<PersonEntry>)
    ensures PeopleIds(a + b) == PeopleIds(a) + PeopleIds(b)
  {
    assert forall j :: 0 <= j < |a + b| ==> PeopleIds(a + b)[j] == (PeopleIds(a) + PeopleIds(b))[j];
  }

  lemma ManagerIdsConcat(a: seq<Manager>, b: seq<Manager>)
    ensures ManagerIds(a + b) == ManagerIds(a) + ManagerIds(b)
  {
    assert forall j :: 0 <= j < |a + b| ==> ManagerIds(a + b)[j] == (ManagerIds(a) + ManagerIds(b))[j];
  }

  lemma {:induction false} VisitPeopleIds(n: Node, ctx: Ctx)
    ensures PeopleIds(Visit(n, ctx).people) == IdsWhere(n, IsPerson)
    decreases n, 1
  {
    VisitListPeopleIds(n.children, ChildCtx(n, ctx));
    PeopleIdsConcat(PeopleOf(n, ctx), VisitList(n.children, ChildCtx(n, ctx)).people);
  }

  lemma {:induction false} VisitListPeopleIds(cs: seq<Node>, ctx: Ctx)
    ensures PeopleIds(VisitList(cs, ctx).people) == IdsWhereList(cs, IsPerson)
    decreases cs, 0
  {
    if cs != [] {
      var k := |cs| - 1;
      VisitListPeopleIds(cs[..k], ctx);
      VisitPeopleIds(cs[k], ctx);
      PeopleIdsConcat(VisitList(cs[..k], ctx).people, Visit(cs[k], ctx).people);
    }
  }

  /** A node adds at most one manager entry: an organisation has no kind label. */
  lemma OwnManagerIds(n: Node, ctx: Ctx)
    ensures ManagerIds(ManagersOf(n, ctx))
         == if (ctx.parentId.None? && OfferedAtRoot(n)) || (ctx.parentId.Some? && OfferedBelowRoot(n)) then [n.id] else []
  {
  }

  lemma {:induction false} VisitManagerIds(n: Node, ctx: Ctx)
    ensures ManagerIds(Visit(n, ctx).managers)
         == (if (ctx.parentId.None? && OfferedAtRoot(n)) || (ctx.parentId.Some? && OfferedBelowRoot(n)) then [n.id] else [])
            + IdsWhereList(n.children, OfferedBelowRoot)
    decreases n, 1
  {
    VisitListManagerIds(n.children, ChildCtx(n, ctx));
    OwnManagerIds(n, ctx);
    ManagerIdsConcat(ManagersOf(n, ctx), VisitList(n.children, ChildCtx(n, ctx)).managers);
  }

  lemma {:induction false} VisitListManagerIds(cs: seq<Node>, ctx: Ctx)
    requires ctx.parentId.Some?
    ensures ManagerIds(VisitList(cs, ctx).managers) == IdsWhereList(cs, OfferedBelowRoot)
    decreases cs, 0
  {
    if cs != [] {
      var k := |cs| - 1;
      VisitListManagerIds(cs[..k], ctx);
      VisitManagerIds(cs[k], ctx);
      ManagerIdsConcat(VisitList(cs[..k], ctx).managers, Visit(cs[k], ctx).managers);
    }
  }

  /** The selected ids are some of the tree's ids, each at most as often. */
  lemma {:induction false} IdsWhereWithin(t: Node, keep: Node -> bool)
    ensures multiset(IdsWhere(t, keep)) <= multiset(Ids(t))
    decreases t, 1
  {
    IdsWhereListWithin(t.children, keep);
  }

  lemma {:induction false} IdsWhereListWithin(cs: seq<Node>, keep: Node -> bool)
    ensures multiset(IdsWhereList(cs, keep)) <= multiset(IdsList(cs))
    decreases cs, 0
  {
    if cs != [] {
      var k := |cs| - 1;
      IdsWhereListWithin(cs[..k], keep);
      IdsWhereWithin(cs[k], keep);
    }
  }

  /**
   * The people directory has one entry per person node, in pre-order, and none for
   * any other node; so it has as many entries as there are people, and with unique
   * ids no two entries share an id.
   */
  lemma ConvertPeople(t: Node)
    ensures PeopleIds(Convert(t).people) == IdsWhere(t, IsPerson)
    ensures |Convert(t).people| == |IdsWhere(t, IsPerson)|
    ensures Unique(t) ==> NoDup(PeopleIds(Convert(t).people))
  {
    VisitPeopleIds(t, ROOT_CTX);
    if Unique(t) {
      IdsWhereWithin(t, IsPerson);
      NoDupSubMultiset(Ids(t), IdsWhere(t, IsPerson));
    }
  }

  /**
   * The manager picker has one entry per organisation and per person, department or
   * location, in pre-order, and none for any other node; below the root a node needs
   * a non-empty name, at the root it does not. With unique ids no two entries share
   * an id.
   */
  lemma ConvertManagers(t: Node)
    ensures ManagerIds(Convert(t).managers)
         == (if OfferedAtRoot(t) then [t.id] else []) + IdsWhereList(t.children, OfferedBelowRoot)
    ensures Unique(t) ==> NoDup(ManagerIds(Convert(t).managers))
  {
    VisitManagerIds(t, ROOT_CTX);
    if Unique(t) {
      var own := if OfferedAtRoot(t) then [t.id] else [];
      IdsWhereListWithin(t.children, OfferedBelowRoot);
      assert multiset(own + IdsWhereList(t.children, OfferedBelowRoot)) <= multiset(Ids(t));
      NoDupSubMultiset(Ids(t), own + IdsWhereList(t.children, OfferedBelowRoot));
    }
  }

  // ---------------------------------------------------------------------------
  // Every entry is the entry of a node of the chart.

  /** `p` is a directory entry the node at `q` pushes, reached from `t` with context `c`. */
  ghost predicate PersonEntryOf(t: Node, c: Ctx, q: seq<nat>, p: PersonEntry) {
    ValidPath(t, q) && p in PeopleOf(At(t, q), CtxAlong(t, q, c))
  }

  /** `m` is a manager entry the node at `q` pushes, reached from `t` with context `c`. */
  ghost predicate ManagerEntryOf(t: Node, c: Ctx, q: seq<nat>, m: Manager) {
    ValidPath(t, q) && m in ManagersOf(At(t, q), CtxAlong(t, q, c))
  }

  /** Descending into child `i` adds `i` in front of the path and hands down the child context. */
  lemma ChildPath(t: Node, i: nat, q: seq<nat>, c: Ctx)
    requires i < |t.children| && ValidPath(t.children[i], q)
    ensures ValidPath(t, [i] + q)
    ensures At(t, [i] + q) == At(t.children[i], q)
    ensures CtxAlong(t, [i] + q, c) == CtxAlong(t.children[i], q, ChildCtx(t, c))
  {
    assert ([i] + q)[0] == i && ([i] + q)[1..] == q;
  }

  lemma {:induction false} VisitPeopleFrom(n: Node, c: Ctx)
    ensures forall p :: p in Visit(n, c).people ==> exists q :: PersonEntryOf(n, c, q, p)
    decreases n, 1
  {
    var cc := ChildCtx(n, c);
    VisitListPeopleFrom(n.children, cc);
    forall p | p in Visit(n, c).people ensures exists q :: PersonEntryOf(n, c, q, p) {
      if p in PeopleOf(n, c) {
        assert PersonEntryOf(n, c, [], p);
      } else {
        assert p in VisitList(n.children, cc).people;
        var i, q :| 0 <= i < |n.children| && PersonEntryOf(n.children[i], cc, q, p);
        ChildPath(n, i, q, c);
        assert PersonEntryOf(n, c, [i] + q, p);
      }
    }
  }

  lemma {:induction false} VisitListPeopleFrom(cs: seq<Node>, c: Ctx)
    ensures forall p :: p in VisitList(cs, c).people ==> exists i, q :: 0 <= i < |cs| && PersonEntryOf(cs[i], c, q, p)
    decreases cs, 0
  {
    if cs != [] {
      var k := |cs| - 1;
      VisitListPeopleFrom(cs[..k], c);
      VisitPeopleFrom(cs[k], c);
      forall p | p in VisitList(cs, c).people ensures exists i, q :: 0 <= i < |cs| && PersonEntryOf(cs[i], c, q, p) {
        if p in VisitList(cs[..k], c).people {
          var i, q :| 0 <= i < k && PersonEntryOf(cs[..k][i], c, q, p);
          assert cs[..k][i] == cs[i];
        } else {
          var q :| PersonEntryOf(cs[k], c, q, p);
        }
      }
    }
  }

  lemma {:induction false} VisitManagersFrom(n: Node, c: Ctx)
    ensures forall m :: m in Visit(n, c).managers ==> exists q :: ManagerEntryOf(n, c, q, m)
    decreases n, 1
  {
    var cc := ChildCtx(n, c);
    VisitListManagersFrom(n.children, cc);
    forall m | m in Visit(n, c).managers ensures exists q :: ManagerEntryOf(n, c, q, m) {
      if m in ManagersOf(n, c) {
        assert ManagerEntryOf(n, c, [], m);
      } else {
        assert m in VisitList(n.children, cc).managers;
        var i, q :| 0 <= i < |n.children| && ManagerEntryOf(n.children[i], cc, q, m);
        ChildPath(n, i, q, c);
        assert ManagerEntryOf(n, c, [i] + q, m);
      }
    }
  }

  lemma {:induction false} VisitListManagersFrom(cs: seq<Node>, c: Ctx)
    ensures forall m :: m in VisitList(cs, c).managers ==> exists i, q :: 0 <= i < |cs| && ManagerEntryOf(cs[i], c, q, m)
    decreases cs, 0
  {
    if cs != [] {
      var k := |cs| - 1;
      VisitListManagersFrom(cs[..k], c);
      VisitManagersFrom(cs[k], c);
      forall m | m in VisitList(cs, c).managers ensures exists i, q :: 0 <= i < |cs| && ManagerEntryOf(cs[i], c, q, m) {
        if m in VisitList(cs[..k], c).managers {
          var i, q :| 0 <= i < k && ManagerEntryOf(cs[..k][i], c, q, m);
          assert cs[..k][i] == cs[i];
        } else {
          var q :| ManagerEntryOf(cs[k], c, q, m);
        }
      }
    }
  }

  /**
   * Every directory entry is that of a person node, labelled "parent > name" (just
   * the name at the root or under a nameless parent); every manager entry is the
   * self-managed entry of an organisation, the entry of the root person, department or
   * location under its plain name, or that of a named one below the root under its
   * "parent > name" label.
   */
  lemma ConvertEntriesSound(t: Node)
    ensures forall p :: p in Convert(t).people ==>
              exists q :: ValidPath(t, q) && At(t, q).kind == PERSON
                && p == PersonEntry(At(t, q).id, Prefixed(if q == [] then "" else ChildPrefix(ParentAt(t, q)), At(t, q).name),
                                    At(t, q).info.role.GetOr(""))
    ensures forall m :: m in Convert(t).managers ==>
              exists q :: ValidPath(t, q) && ManagerEntryIs(t, q, m)
  {
    VisitPeopleFrom(t, ROOT_CTX);
    VisitManagersFrom(t, ROOT_CTX);
    forall p | p in Convert(t).people
      ensures exists q :: ValidPath(t, q) && At(t, q).kind == PERSON
                && p == PersonEntry(At(t, q).id, Prefixed(if q == [] then "" else ChildPrefix(ParentAt(t, q)), At(t, q).name),
                                    At(t, q).info.role.GetOr(""))
    {
      var q :| PersonEntryOf(t, ROOT_CTX, q, p);
      CtxAtCharacterized(t, q);
    }
    forall m | m in Convert(t).managers ensures exists q :: ValidPath(t, q) && ManagerEntryIs(t, q, m) {
      var q :| ManagerEntryOf(t, ROOT_CTX, q, m);
      CtxAtCharacterized(t, q);
      assert ManagerEntryIs(t, q, m);
    }
  }

  /** The manager entries the node at `q` is offered under. */
  ghost predicate ManagerEntryIs(t: Node, q: seq<nat>, m: Manager)
    requires ValidPath(t, q)
  {
    var n := At(t, q);
    (n.kind == ORGANISATION && m == Manager(n.id, SELF_MANAGED, ""))
    || (q == [] && ManagerLabel(n.kind) != "" && m == Manager(n.id, n.name, ManagerLabel(n.kind)))
    || (q != [] && ManagerLabel(n.kind) != "" && n.name != ""
        && m == Manager(n.id, Prefixed(ChildPrefix(ParentAt(t, q)), n.name), ManagerLabel(n.kind)))
  }
}
