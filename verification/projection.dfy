/**
 * convertChartData: one pre-order walk over the chart that fills four lists, the
 * render nodes, the parent-to-child edges, the entries of the manager picker and
 * the people directory. Each node's contribution depends on the node and on what
 * the walk passes down to it: the parent's id, the parent's display name and the
 * colour of the nearest department or location above it.
 */
module Projection {
  import opened Seqs
  import opened ChartTree

  const MAIN_NODE: string := "customMainNode"
  const SMALL_NODE: string := "customSmallNode"
  const CHILD_NODE: string := "customChildNode"
  const SELF_MANAGED: string := "None (Self-managed)"
  const NAME_SEPARATOR: string := " > "

  datatype Dimensions = Dimensions(width: int, height: int)

  /** The `data` record of a render node. Absent optional fields read as "" or false. */
  datatype RenderData = RenderData(
    id: string,
    memberName: string,
    role: string,
    location: string,
    imgSrc: string,
    notes: int,
    color: string,
    email: string,
    phoneNumber: string,
    isWhatsapp: bool,
    linkedIn: string,
    manager: string,
    department: string,
    isStarred: bool,
    kind: string,
    dimensions: Dimensions,
    directPerson: nat,
    directDeptAndLocation: nat,
    parentId: Option<string>)

  /** A render node: its id, its data and the node component that draws it. */
  datatype RenderNode = RenderNode(id: string, data: RenderData, nodeType: string)

  datatype Edge = Edge(id: string, source: string, target: string)

  /** An entry of the manager picker; `kind` is "Person", "Department", "Location" or "". */
  datatype Manager = Manager(id: string, name: string, kind: string)

  /** An entry of the people directory (its `type` is always "person"). */
  datatype PersonEntry = PersonEntry(id: string, name: string, role: string)

  datatype Projection = Projection(nodes: seq<RenderNode>, edges: seq<Edge>, managers: seq<Manager>, people: seq<PersonEntry>) {
    /** Pushing the entries of `p` after those already collected. */
    function Append(p: Projection): Projection {
      Projection(nodes + p.nodes, edges + p.edges, managers + p.managers, people + p.people)
    }
  }

  const EMPTY: Projection := Projection([], [], [], [])

  /** What the walk passes to a node: parent id (None at the root), parent name, inherited colour. */
  datatype Ctx = Ctx(parentId: Option<string>, parentName: string, ancestorColor: string)

  const ROOT_CTX: Ctx := Ctx(None, "", "")

  function NodeType(kind: string): string {
    if kind == ORGANISATION then MAIN_NODE
    else if IsGroup(kind) then SMALL_NODE
    else CHILD_NODE
  }

  function NodeDimensions(kind: string): Dimensions {
    if IsGroup(kind) then Dimensions(300, 50) else Dimensions(300, 150)
  }

  /** The colour drawn for a node: a person takes a non-empty inherited colour over its own. */
  function ShownColor(n: Node, ctx: Ctx): string {
    if n.kind == PERSON && ctx.ancestorColor != "" then ctx.ancestorColor else n.color
  }

  /** The colour handed down to the children: a department or location hands down its own. */
  function InheritedColor(n: Node, ctx: Ctx): string {
    if IsGroup(n.kind) then n.color else ctx.ancestorColor
  }

  /** The display name a node hands to its children (an organisation has none). */
  function ChildPrefix(n: Node): string {
    if n.kind == ORGANISATION then "" else n.name
  }

  function ChildCtx(n: Node, ctx: Ctx): Ctx {
    Ctx(Some(n.id), ChildPrefix(n), InheritedColor(n, ctx))
  }

  /** "parent > name" when there is a parent name. */
  function Prefixed(parentName: string, name: string): string {
    if parentName != "" then parentName + NAME_SEPARATOR + name else name
  }

  /** Direct children that are people. */
  function PersonCount(cs: seq<Node>): nat {
    if cs == [] then 0 else PersonCount(cs[..|cs| - 1]) + (if cs[|cs| - 1].kind == PERSON then 1 else 0)
  }

  /** Direct children that are departments or locations. */
  function GroupCount(cs: seq<Node>): nat {
    if cs == [] then 0 else GroupCount(cs[..|cs| - 1]) + (if IsGroup(cs[|cs| - 1].kind) then 1 else 0)
  }

  function RenderOf(n: Node, ctx: Ctx): RenderNode {
    RenderNode(n.id,
      RenderData(
        n.id, n.name,
        n.info.role.GetOr(""), n.info.location.GetOr(""), n.info.imgSrc.GetOr(""), n.info.notes,
        ShownColor(n, ctx),
        n.info.email.GetOr(""), n.info.phoneNumber.GetOr(""), n.info.isWhatsapp.GetOr(false),
        n.info.linkedIn.GetOr(""), n.info.manager.GetOr(""), n.info.department.GetOr(""),
        n.info.isStarred.GetOr(false),
        n.kind, NodeDimensions(n.kind),
        PersonCount(n.children), GroupCount(n.children),
        ctx.parentId),
      NodeType(n.kind))
  }

  /** The label of a node kind in the manager picker; "" for kinds that are no manager. */
  function ManagerLabel(kind: string): string {
    if kind == PERSON then "Person"
    else if kind == DEPARTMENT then "Department"
    else if kind == LOCATION then "Location"
    else ""
  }

  function ManagersOf(n: Node, ctx: Ctx): seq<Manager> {
    (if n.kind == ORGANISATION then [Manager(n.id, SELF_MANAGED, "")] else [])
    + (if ctx.parentId.None? then
         (if ManagerLabel(n.kind) != "" then [Manager(n.id, n.name, ManagerLabel(n.kind))] else [])
       else if ManagerLabel(n.kind) != "" && n.name != "" then
         [Manager(n.id, Prefixed(ctx.parentName, n.name), ManagerLabel(n.kind))]
       else [])
  }

  function PeopleOf(n: Node, ctx: Ctx): seq<PersonEntry> {
    if n.kind == PERSON then [PersonEntry(n.id, Prefixed(ctx.parentName, n.name), n.info.role.GetOr(""))] else []
  }

  function EdgesOf(n: Node, ctx: Ctx): seq<Edge> {
    if Truthy(ctx.parentId) then [Edge(ctx.parentId.value + "-" + n.id, ctx.parentId.value, n.id)] else []
  }

  /** What a single node pushes onto the four lists. */
  function Emit(n: Node, ctx: Ctx): Projection {
    Projection([RenderOf(n, ctx)], EdgesOf(n, ctx), ManagersOf(n, ctx), PeopleOf(n, ctx))
  }

  /** What the walk pushes for a whole subtree: the node, then its children's subtrees in order. */
  function Visit(n: Node, ctx: Ctx): Projection
    decreases n, 1
  {
    Emit(n, ctx).Append(VisitList(n.children, ChildCtx(n, ctx)))
  }

  function VisitList(cs: seq<Node>, ctx: Ctx): Projection
    decreases cs, 0
  {
    if cs == [] then EMPTY else VisitList(cs[..|cs| - 1], ctx).Append(Visit(cs[|cs| - 1], ctx))
  }

  lemma AppendAssoc(a: Projection, b: Projection, c: Projection)
    ensures a.Append(b).Append(c) == a.Append(b.Append(c))
  {
  }

  lemma {:induction false} VisitListSnoc(cs: seq<Node>, i: nat, ctx: Ctx)
    requires i < |cs|
    ensures VisitList(cs[..i + 1], ctx) == VisitList(cs[..i], ctx).Append(Visit(cs[i], ctx))
  {
    assert cs[..i + 1][..i] == cs[..i];
  }

  /** The four lists convertChartData returns for a chart. */
  function Convert(t: Node): (r: Projection)
    ensures r.nodes != [] && r.nodes[0].id == t.id && r.nodes[0].data.parentId.None?
  {
    Visit(t, ROOT_CTX)
  }

  /** calculateDirectChildCounts: one pass over the children. */
  method CalculateDirectChildCounts(node: Node) returns (personCount: nat, deptLocationCount: nat)
    ensures personCount == PersonCount(node.children)
    ensures deptLocationCount == GroupCount(node.children)
    ensures personCount + deptLocationCount <= |node.children|
  {
    personCount, deptLocationCount := 0, 0;
    for i := 0 to |node.children|
      invariant personCount == PersonCount(node.children[..i])
      invariant deptLocationCount == GroupCount(node.children[..i])
      invariant personCount + deptLocationCount <= i
    {
      var child := node.children[i];
      assert node.children[..i + 1][..i] == node.children[..i];
      if child.kind == PERSON {
        personCount := personCount + 1;
      } else if child.kind == DEPARTMENT || child.kind == LOCATION {
        deptLocationCount := deptLocationCount + 1;
      }
    }
    assert node.children[..|node.children|] == node.children;
  }

  /** The lists convertChartData fills while it walks the chart. */
  class Projector {
    var nodes: seq<RenderNode>
    var edges: seq<Edge>
    var managers: seq<Manager>
    var people: seq<PersonEntry>

    function Output(): Projection
      reads this
    {
      Projection(nodes, edges, managers, people)
    }

    constructor ()
      ensures Output() == EMPTY
    {
      nodes, edges, managers, people := [], [], [], [];
    }

    /** processNode: push this node's entries, then walk the children with the context it hands down. */
    method ProcessNode(node: Node, ctx: Ctx)
      modifies this
      ensures Output() == old(Output()).Append(Visit(node, ctx))
      decreases node
    {
      var childCtx := PushEntries(node, ctx);
      ghost var start := old(Output()).Append(Emit(node, ctx));
      assert start == start.Append(VisitList(node.children[..0], childCtx));
      for i := 0 to |node.children|
        invariant Output() == start.Append(VisitList(node.children[..i], childCtx))
      {
        ProcessNode(node.children[i], childCtx);
        VisitListSnoc(node.children, i, childCtx);
        AppendAssoc(start, VisitList(node.children[..i], childCtx), Visit(node.children[i], childCtx));
      }
      assert node.children[..|node.children|] == node.children;
      AppendAssoc(old(Output()), Emit(node, ctx), VisitList(node.children, childCtx));
    }

    /**
     * The part of processNode before the walk over the children: the node's type,
     * size and colour, its people entry, its render node, its manager entries and its
     * edge. Returns what the node hands down to its children.
     */
    method PushEntries(node: Node, ctx: Ctx) returns (childCtx: Ctx)
      modifies this
      ensures Output() == old(Output()).Append(Emit(node, ctx))
      ensures childCtx == ChildCtx(node, ctx)
    {
      var nodeType := CHILD_NODE;
      var dimensions := Dimensions(300, 150);
      if node.kind == ORGANISATION {
        nodeType := MAIN_NODE;
      } else if node.kind == DEPARTMENT || node.kind == LOCATION {
        nodeType := SMALL_NODE;
        dimensions := Dimensions(300, 50);
      }

      var color := node.color;
      var ancestorColor := ctx.ancestorColor;
      if node.kind == DEPARTMENT || node.kind == LOCATION {
        ancestorColor := color;
      } else if node.kind == PERSON && ancestorColor != "" {
        color := ancestorColor;
      }

      PushPerson(node, ctx);
      var directPerson, directDeptAndLocation := CalculateDirectChildCounts(node);
      var data := RenderData(
        node.id, node.name,
        node.info.role.GetOr(""), node.info.location.GetOr(""), node.info.imgSrc.GetOr(""), node.info.notes,
        color,
        node.info.email.GetOr(""), node.info.phoneNumber.GetOr(""), node.info.isWhatsapp.GetOr(false),
        node.info.linkedIn.GetOr(""), node.info.manager.GetOr(""), node.info.department.GetOr(""),
        node.info.isStarred.GetOr(false),
        node.kind, dimensions, directPerson, directDeptAndLocation, ctx.parentId);
      nodes := nodes + [RenderNode(node.id, data, nodeType)];
      PushManagers(node, ctx);
      PushEdge(node, ctx);
      childCtx := Ctx(Some(node.id), ChildPrefix(node), ancestorColor);
    }

    /** The people-directory entry of a person. */
    method PushPerson(node: Node, ctx: Ctx)
      modifies this
      ensures people == old(people) + PeopleOf(node, ctx)
      ensures nodes == old(nodes) && edges == old(edges) && managers == old(managers)
    {
      if node.kind == PERSON {
        var fullName := node.name;
        if ctx.parentName != "" {
          fullName := ctx.parentName + NAME_SEPARATOR + fullName;
        }
        people := people + [PersonEntry(node.id, fullName, node.info.role.GetOr(""))];
      }
    }

    /** The manager-picker entries of a node. */
    method PushManagers(node: Node, ctx: Ctx)
      modifies this
      ensures managers == old(managers) + ManagersOf(node, ctx)
      ensures nodes == old(nodes) && edges == old(edges) && people == old(people)
    {
      if node.kind == ORGANISATION {
        managers := managers + [Manager(node.id, SELF_MANAGED, "")];
      }
      if ctx.parentId.None? {
        if node.kind == PERSON {
          managers := managers + [Manager(node.id, node.name, "Person")];
        } else if node.kind == DEPARTMENT {
          managers := managers + [Manager(node.id, node.name, "Department")];
        } else if node.kind == LOCATION {
          managers := managers + [Manager(node.id, node.name, "Location")];
        }
      } else {
        var fullName, kind, id := "", "", "";
        if node.kind == PERSON {
          fullName, kind, id := node.name, "Person", node.id;
        } else if node.kind == DEPARTMENT {
          fullName, kind, id := node.name, "Department", node.id;
        } else if node.kind == LOCATION {
          fullName, kind, id := node.name, "Location", node.id;
        }
        if fullName != "" && ctx.parentName != "" {
          fullName := ctx.parentName + NAME_SEPARATOR + fullName;
        }
        if fullName != "" {
          managers := managers + [Manager(id, fullName, kind)];
        }
      }
    }

    /** The edge from the parent, when the parent id is truthy. */
    method PushEdge(node: Node, ctx: Ctx)
      modifies this
      ensures edges == old(edges) + EdgesOf(node, ctx)
      ensures nodes == old(nodes) && managers == old(managers) && people == old(people)
    {
      if ctx.parentId.Some? && ctx.parentId.value != "" {
        var parentId := ctx.parentId.value;
        edges := edges + [Edge(parentId + "-" + node.id, parentId, node.id)];
      }
    }
  }

  /** convertChartData: walks the chart from the root with an empty context. */
  method ConvertChartData(chartData: Node) returns (p: Projection)
    ensures p == Convert(chartData)
  {
    var projector := new Projector();
    projector.ProcessNode(chartData, ROOT_CTX);
    p := projector.Output();
  }
}
