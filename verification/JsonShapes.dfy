/** Trees on the heap. A shape names the nodes of a tree, level by level; Tree says that these
    nodes, linked as they are, hold a value, and that no node occurs twice. */
module JsonShapes {
  import opened Text
  import opened Utf8
  import opened JsonTree
  import opened JsonNodes
  import opened JsonLists

  /** A node, its name, the nodes below it, and the trees it is the parent of. */
  datatype Shape = Shape(node: Node, name: Option<Text>, below: set<Node>, kids: seq<Shape>)

  /** The roots of a list of trees, in order. */
  ghost function Roots(ss: seq<Shape>): (ns: seq<Node>)
    ensures |ns| == |ss| && forall i | 0 <= i < |ss| :: ns[i] == ss[i].node
  {
    seq(|ss|, i requires 0 <= i < |ss| => ss[i].node)
  }

  /** The trees lie within a set of nodes, and share none of them. */
  ghost predicate Apart(ss: seq<Shape>, within: set<Node>) {
    && (forall i | 0 <= i < |ss| :: ss[i].node in within && ss[i].below <= within && ss[i].node !in ss[i].below)
    && (forall i, j | 0 <= i < |ss| && 0 <= j < |ss| && i != j ::
          ss[i].node != ss[j].node && ss[i].node !in ss[j].below && ss[i].below !! ss[j].below)
  }

  function KindOf(v: Json): Kind {
    match v
    case Null => KNull
    case False => KFalse
    case True => KTrue
    case Number(_) => KNumber
    case String(_) => KString
    case Array(_) => KArray
    case Object(_) => KObject
  }

  /** The values below a value; none below a scalar. */
  function Children(v: Json): (vs: seq<Json>)
    ensures v.Array? ==> vs == v.items
    ensures v.Object? ==> |vs| == |v.members| && forall i | 0 <= i < |vs| :: vs[i] == v.members[i].value
    ensures !v.Array? && !v.Object? ==> vs == []
  {
    match v
    case Array(items) => items
    case Object(ms) => seq(|ms|, i requires 0 <= i < |ms| => ms[i].value)
    case _ => []
  }

  /** The node carries its name, and with the trees below it holds v. The node's own next and
      prev are its parent's business. */
  ghost predicate Tree(s: Shape, v: Json)
    reads s.node`child, s.node`kind, s.node`valuestring, s.node`number, s.node`name, s.below
    decreases s
  {
    && s.node.name == s.name
    && s.node.kind == KindOf(v)
    && (v.String? ==> s.node.valuestring == Some(v.s))
    && (v.Number? ==> s.node.number == v.n)
    && Trees(s.kids, Children(v), s.below)
    && Chain(s.node.child, Roots(s.kids))
    && (v.Object? ==> Named(s.kids, v.members))
  }

  /** The children of an object carry its fields' names. */
  ghost predicate Named(ss: seq<Shape>, ms: seq<Field>) {
    |ss| == |ms| && forall i | 0 <= i < |ss| :: ss[i].name == Some(ms[i].name)
  }

  ghost predicate Trees(ss: seq<Shape>, vs: seq<Json>, within: set<Node>)
    reads within
    decreases ss
  {
    Apart(ss, within) && |ss| == |vs| && forall i | 0 <= i < |ss| :: Tree(ss[i], vs[i])
  }

  /** A parent heads a list of trees that it is not part of, and the last one is at hand. */
  ghost predicate Growing(parent: Node, last: Node?, ss: seq<Shape>, vs: seq<Json>, within: set<Node>)
    reads parent`child, within
  {
    && last == NodeAt(Roots(ss), |ss| - 1)
    && parent !in within
    && Trees(ss, vs, within)
    && Heads(parent, Roots(ss))
  }

  /** LinkLast on trees: each holds after it what it held before. */
  method LinkApart(parent: Node, last: Node?, child: Node, ghost ss: seq<Shape>, ghost within: set<Node>)
    requires Apart(ss, within) && parent !in within
    requires ss != [] && child == ss[|ss| - 1].node && child.next == null && child.prev == null
    requires Heads(parent, Roots(ss)[..|ss| - 1]) && last == NodeAt(Roots(ss), |ss| - 2)
    modifies parent`child, NodeSet(last)`next, child`prev
    ensures Heads(parent, Roots(ss))
    ensures forall i, v: Json | 0 <= i < |ss| :: Tree(ss[i], v) == old(Tree(ss[i], v))
  {
    ghost var ns := Roots(ss);
    OutsideOf(parent, last, child, ss, within);
    LinkLast(parent, last, child, ns[..|ss| - 1]);
    assert ns == ns[..|ss| - 1] + [child];
    forall i, v: Json | 0 <= i < |ss|
      ensures Tree(ss[i], v) == old(Tree(ss[i], v))
    {
      ghost var s := ss[i];
      assert unchanged(s.below) && unchanged(s.node`child, s.node`kind, s.node`valuestring, s.node`number, s.node`name);
    }
  }

  /** The nodes that linking changes are in no tree but as its root. */
  lemma OutsideOf(parent: Node, last: Node?, child: Node, ss: seq<Shape>, within: set<Node>)
    requires Apart(ss, within) && parent !in within
    requires ss != [] && child == ss[|ss| - 1].node && last == NodeAt(Roots(ss), |ss| - 2)
    ensures forall i | 0 <= i < |ss| :: parent !in ss[i].below && child !in ss[i].below && parent != ss[i].node
    ensures last != null ==> forall i | 0 <= i < |ss| :: last !in ss[i].below
  {
  }

  method LinkTree(parent: Node, last: Node?, child: Node, ghost ss: seq<Shape>, ghost vs: seq<Json>,
                  ghost within: set<Node>)
    requires Trees(ss, vs, within) && parent !in within
    requires ss != [] && child == ss[|ss| - 1].node && child.next == null && child.prev == null
    requires Heads(parent, Roots(ss)[..|ss| - 1]) && last == NodeAt(Roots(ss), |ss| - 2)
    modifies parent`child, NodeSet(last)`next, child`prev
    ensures Heads(parent, Roots(ss))
    ensures Trees(ss, vs, within)
  {
    LinkApart(parent, last, child, ss, within);
  }

  lemma TreesAppend(ss: seq<Shape>, vs: seq<Json>, within: set<Node>, c: Shape, v: Json)
    requires Trees(ss, vs, within) && Tree(c, v)
    requires c.node !in c.below && c.node !in within && c.below !! within
    ensures Trees(ss + [c], vs + [v], within + {c.node} + c.below)
    ensures Roots(ss + [c]) == Roots(ss) + [c.node]
  {
  }

  /** Links another tree behind the last one. */
  method LinkNext(parent: Node, last: Node?, child: Node, ghost ss: seq<Shape>, ghost vs: seq<Json>,
                  ghost within: set<Node>, ghost c: Shape, ghost v: Json)
    requires Growing(parent, last, ss, vs, within)
    requires child == c.node && Tree(c, v) && child.next == null && child.prev == null
    requires child !in c.below && child !in within && c.below !! within && parent != child && parent !in c.below
    modifies parent`child, NodeSet(last)`next, child`prev
    ensures Growing(parent, child, ss + [c], vs + [v], within + {child} + c.below)
  {
    TreesAppend(ss, vs, within, c, v);
    assert Roots(ss + [c])[..|ss|] == Roots(ss);
    LinkTree(parent, last, child, ss + [c], vs + [v], within + {child} + c.below);
  }
}
