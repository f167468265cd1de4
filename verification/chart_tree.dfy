/**
 * The org-chart tree: one node per organisation, person, department or location,
 * each with an id, a `type` tag and an ordered list of children.
 */
module ChartTree {
  import opened Seqs

  const ORGANISATION: string := "organisation"
  const PERSON: string := "person"
  const DEPARTMENT: string := "department"
  const LOCATION: string := "location"

  /** Departments and locations: the kinds that reset the inherited colour. */
  predicate IsGroup(kind: string) {
    kind == DEPARTMENT || kind == LOCATION
  }

  /**
   * Optional display fields. A field the node's variant does not carry is None;
   * `notes` is copied through as it is.
   */
  datatype Info = Info(
    role: Option<string>,
    location: Option<string>,
    imgSrc: Option<string>,
    notes: int,
    email: Option<string>,
    phoneNumber: Option<string>,
    isWhatsapp: Option<bool>,
    linkedIn: Option<string>,
    manager: Option<string>,
    department: Option<string>,
    isStarred: Option<bool>)

  /**
   * A chart node. `kind` is the `type` tag (any string; four values have a meaning).
   * `name` is the variant's own name field: memberName, orgName, departmentName or
   * locationName. `color` is "" when the node has none.
   */
  datatype Node = Node(id: string, kind: string, name: string, color: string, info: Info, children: seq<Node>)

  /** The ids of a tree in pre-order: a node before its children, children in list order. */
  function Ids(t: Node): seq<string>
    decreases t, 1
  {
    [t.id] + IdsList(t.children)
  }

  function IdsList(cs: seq<Node>): seq<string>
    decreases cs, 0
  {
    if cs == [] then [] else IdsList(cs[..|cs| - 1]) + Ids(cs[|cs| - 1])
  }

  /** Ids are unique across the whole tree. */
  ghost predicate Unique(t: Node) {
    NoDup(Ids(t))
  }

  lemma {:induction false} IdsListConcat(a: seq<Node>, b: seq<Node>)
    ensures IdsList(a + b) == IdsList(a) + IdsList(b)
    decreases |b|
  {
    if b != [] {
      var last := b[|b| - 1];
      assert (a + b)[..|a + b| - 1] == a + b[..|b| - 1];
      IdsListConcat(a, b[..|b| - 1]);
    } else {
      assert a + b == a;
    }
  }

  lemma {:induction false} IdsListSingle(c: Node)
    ensures IdsList([c]) == Ids(c)
  {
    assert [c][..0] == [];
  }

  lemma {:induction false} IdsListSplit(cs: seq<Node>, i: nat)
    requires i < |cs|
    ensures IdsList(cs) == IdsList(cs[..i]) + Ids(cs[i]) + IdsList(cs[i + 1..])
  {
    assert cs == cs[..i] + [cs[i]] + cs[i + 1..];
    IdsListConcat(cs[..i] + [cs[i]], cs[i + 1..]);
    IdsListConcat(cs[..i], [cs[i]]);
    IdsListSingle(cs[i]);
  }

  /** An id occurs among a list of trees exactly when it occurs in one of them. */
  lemma {:induction false} IdsListMember(cs: seq<Node>, x: string)
    ensures x in IdsList(cs) <==> exists i :: 0 <= i < |cs| && x in Ids(cs[i])
    decreases |cs|
  {
    if cs != [] {
      var k := |cs| - 1;
      IdsListMember(cs[..k], x);
      if x in IdsList(cs[..k]) {
        var i :| 0 <= i < k && x in Ids(cs[..k][i]);
        assert cs[..k][i] == cs[i];
      }
      if exists i :: 0 <= i < |cs| && x in Ids(cs[i]) {
        var i :| 0 <= i < |cs| && x in Ids(cs[i]);
        if i < k {
          assert cs[..k][i] == cs[i];
        }
      }
    }
  }

  lemma {:induction false} UniqueListParts(cs: seq<Node>)
    requires NoDup(IdsList(cs))
    ensures forall i :: 0 <= i < |cs| ==> Unique(cs[i])
    ensures forall i, j, x :: 0 <= i < |cs| && 0 <= j < |cs| && i != j && x in Ids(cs[i]) ==> x !in Ids(cs[j])
  {
    forall i | 0 <= i < |cs| ensures Unique(cs[i]) {
      IdsListSplit(cs, i);
      NoDupConcat(IdsList(cs[..i]) + Ids(cs[i]), IdsList(cs[i + 1..]));
      NoDupConcat(IdsList(cs[..i]), Ids(cs[i]));
    }
    forall i, j, x | 0 <= i < |cs| && 0 <= j < |cs| && i != j && x in Ids(cs[i])
      ensures x !in Ids(cs[j])
    {
      var lo, hi := if i < j then i else j, if i < j then j else i;
      IdsListSplit(cs, hi);
      NoDupConcat(IdsList(cs[..hi]) + Ids(cs[hi]), IdsList(cs[hi + 1..]));
      NoDupConcat(IdsList(cs[..hi]), Ids(cs[hi]));
      assert cs[..hi][lo] == cs[lo];
      if x in Ids(cs[lo]) {
        IdsListMember(cs[..hi], x);
      }
      if x in Ids(cs[hi]) {
        assert x !in IdsList(cs[..hi]);
        IdsListMember(cs[..hi], x);
      }
    }
  }

  /**
   * What id uniqueness says about one node: its id is not repeated below it, every
   * child subtree has unique ids, and two different children share no id.
   */
  lemma {:induction false} UniqueParts(t: Node)
    requires Unique(t)
    ensures t.id !in IdsList(t.children)
    ensures forall i :: 0 <= i < |t.children| ==> Unique(t.children[i])
    ensures forall i, j, x :: 0 <= i < |t.children| && 0 <= j < |t.children| && i != j && x in Ids(t.children[i]) ==> x !in Ids(t.children[j])
  {
    NoDupConcat([t.id], IdsList(t.children));
    UniqueListParts(t.children);
  }

  /** With unique ids, an id found in child `i` occurs nowhere else around it. */
  lemma {:induction false} OnlyInChild(t: Node, i: nat, x: string)
    requires Unique(t) && i < |t.children| && x in Ids(t.children[i])
    ensures t.id != x
    ensures x !in IdsList(t.children[..i]) && x !in IdsList(t.children[i + 1..])
    ensures forall j :: 0 <= j < |t.children| && j != i ==> x !in Ids(t.children[j])
  {
    var cs := t.children;
    UniqueParts(t);
    IdsListMember(cs, x);
    NoDupConcat([t.id], IdsList(cs));
    IdsListSplit(cs, i);
    NoDupConcat(IdsList(cs[..i]) + Ids(cs[i]), IdsList(cs[i + 1..]));
    NoDupConcat(IdsList(cs[..i]), Ids(cs[i]));
  }

  // ---------------------------------------------------------------------------
  // Paths: a path is the list of child indices leading from the root to a node.

  ghost predicate ValidPath(t: Node, q: seq<nat>)
    decreases |q|
  {
    q == [] || (q[0] < |t.children| && ValidPath(t.children[q[0]], q[1..]))
  }

  /** The subtree a path leads to. */
  function At(t: Node, q: seq<nat>): Node
    requires ValidPath(t, q)
    decreases |q|
  {
    if q == [] then t else At(t.children[q[0]], q[1..])
  }

  /** Extending a path by one more child index. */
  lemma {:induction false} PathSnoc(t: Node, q: seq<nat>, i: nat)
    requires ValidPath(t, q)
    ensures ValidPath(t, q + [i]) <==> i < |At(t, q).children|
    ensures ValidPath(t, q + [i]) ==> At(t, q + [i]) == At(t, q).children[i]
    decreases |q|
  {
    if q == [] {
      assert [] + [i] == [i];
      assert [i][1..] == [];
    } else {
      assert (q + [i])[0] == q[0];
      assert (q + [i])[1..] == q[1..] + [i];
      PathSnoc(t.children[q[0]], q[1..], i);
    }
  }

  /** The path without its last index leads to the parent of the node. */
  lemma {:induction false} ParentPathValid(t: Node, q: seq<nat>)
    requires ValidPath(t, q) && q != []
    ensures ValidPath(t, q[..|q| - 1])
    ensures q[|q| - 1] < |At(t, q[..|q| - 1]).children|
    ensures At(t, q[..|q| - 1]).children[q[|q| - 1]] == At(t, q)
    decreases |q|
  {
    var pp, i := q[..|q| - 1], q[|q| - 1];
    if |q| > 1 {
      ParentPathValid(t.children[q[0]], q[1..]);
      assert q[1..][..|q[1..]| - 1] == pp[1..];
      assert q[1..][|q[1..]| - 1] == i;
    } else {
      assert pp == [];
      assert q == [i];
    }
  }

  /** Every subtree of a tree with unique ids has unique ids. */
  lemma {:induction false} UniqueAt(t: Node, q: seq<nat>)
    requires Unique(t) && ValidPath(t, q)
    ensures Unique(At(t, q))
    decreases |q|
  {
    if q != [] {
      UniqueParts(t);
      UniqueAt(t.children[q[0]], q[1..]);
    }
  }

  /** The ids of a subtree are ids of the whole tree. */
  lemma {:induction false} IdsAt(t: Node, q: seq<nat>)
    requires ValidPath(t, q)
    ensures forall x :: x in Ids(At(t, q)) ==> x in Ids(t)
    decreases |q|
  {
    if q != [] {
      IdsAt(t.children[q[0]], q[1..]);
      forall x | x in Ids(At(t, q)) ensures x in Ids(t) {
        IdsListMember(t.children, x);
      }
    }
  }

  /** Every id of the tree is the id of the node at some path. */
  lemma {:induction false} IdHasPath(t: Node, x: string) returns (q: seq<nat>)
    requires x in Ids(t)
    ensures ValidPath(t, q) && At(t, q).id == x
    decreases t
  {
    if t.id == x {
      q := [];
    } else {
      IdsListMember(t.children, x);
      var i :| 0 <= i < |t.children| && x in Ids(t.children[i]);
      var rest := IdHasPath(t.children[i], x);
      q := [i] + rest;
      assert q[1..] == rest;
    }
  }
}
