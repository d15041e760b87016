/** The deep copy. */
module JsonDuplicate {
  import opened Utf8
  import opened JsonTree
  import opened JsonNodes
  import opened JsonLists
  import opened JsonShapes

  ghost predicate SameNames(kids: seq<Shape>, originals: seq<Shape>) {
    |kids| <= |originals| && forall i | 0 <= i < |kids| :: kids[i].name == originals[i].name
  }

  /** A recursive duplicate holds the same value and name, hangs in no list, and is built from
      nodes none of which existed before; the original is not touched. */
  method Duplicate(item: Node, recurse: bool, ghost s: Shape, ghost v: Json)
      returns (newitem: Node, ghost copy: Shape)
    requires s.node == item && Tree(s, v)
    ensures newitem == copy.node && newitem.next == null && newitem.prev == null
    ensures newitem.name == copy.name == s.name
    ensures fresh(newitem) && (forall n | n in copy.below :: fresh(n)) && newitem !in copy.below
    ensures recurse ==> Tree(copy, v)
    ensures !recurse ==> copy.kids == [] && newitem.child == null
    ensures newitem.kind == item.kind && newitem.valuestring == item.valuestring && newitem.number == item.number
    decreases s, 2
  {
    newitem := CopyFields(item);
    copy := Shape(newitem, item.name, {}, []);
    if recurse {
      ghost var kids, within := DuplicateChildren(item.child, newitem, s, Children(v));
      copy := Shape(newitem, item.name, within, kids);
      CopyIsTree(s, v, copy);
    }
  }

  method CopyFields(item: Node) returns (newitem: Node)
    ensures fresh(newitem) && newitem.next == null && newitem.prev == null && newitem.child == null
    ensures newitem.kind == item.kind && newitem.valuestring == item.valuestring && newitem.number == item.number
    ensures newitem.name == item.name
  {
    newitem := new Node();
    newitem.kind, newitem.number := item.kind, item.number;
    newitem.valuestring := item.valuestring;
    newitem.name := item.name;
  }

  lemma CopyIsTree(s: Shape, v: Json, copy: Shape)
    requires Tree(s, v) && copy.node.name == copy.name && copy.node.kind == s.node.kind
    requires copy.node.valuestring == s.node.valuestring && copy.node.number == s.node.number
    requires Trees(copy.kids, Children(v), copy.below) && Chain(copy.node.child, Roots(copy.kids))
    requires SameNames(copy.kids, s.kids)
    ensures Tree(copy, v)
  {
  }

  /** The children of the original, from the first on. */
  ghost predicate Originals(first: Node?, s: Shape, vs: seq<Json>)
    reads s.below
  {
    Trees(s.kids, vs, s.below) && Chain(first, Roots(s.kids))
  }

  /** The copies of the first children, linked below the new node. */
  ghost predicate Copies(newitem: Node, last: Node?, kids: seq<Shape>, s: Shape, vs: seq<Json>, within: set<Node>)
    requires |vs| == |s.kids|
    reads newitem`child, within
  {
    SameNames(kids, s.kids) && Growing(newitem, last, kids, vs[..|kids|], within)
  }

  /** The walk along the children of the original. */
  method DuplicateChildren(first: Node?, newitem: Node, ghost s: Shape, ghost vs: seq<Json>)
      returns (ghost kids: seq<Shape>, ghost within: set<Node>)
    requires Originals(first, s, vs) && newitem.child == null && newitem !in s.below
    modifies newitem`child
    ensures Chain(newitem.child, Roots(kids)) && newitem !in within && forall n | n in within :: fresh(n)
    ensures Trees(kids, vs, within) && SameNames(kids, s.kids)
    decreases s, 1
  {
    kids, within := [], {};
    var cptr, nptr: Node? := first, null;
    while cptr != null
      invariant cptr == NodeAt(Roots(s.kids), |kids|) && forall n | n in within :: fresh(n)
      invariant Copies(newitem, nptr, kids, s, vs, within)
      decreases |s.kids| - |kids|
    {
      ghost var k := |kids|;
      var next := cptr.next;
      nptr, kids, within := DuplicateNext(first, newitem, cptr, nptr, s, vs, kids, within);
      cptr := next;
    }
    assert vs[..|kids|] == vs;
  }

  /** Duplicates one child and links it behind the copies there are. */
  method DuplicateNext(ghost first: Node?, newitem: Node, cptr: Node, nptr: Node?, ghost s: Shape, ghost vs: seq<Json>,
                       ghost kids: seq<Shape>, ghost within: set<Node>)
      returns (newchild: Node, ghost kids': seq<Shape>, ghost within': set<Node>)
    requires Originals(first, s, vs) && |kids| < |s.kids| && cptr == Roots(s.kids)[|kids|]
    requires Copies(newitem, nptr, kids, s, vs, within)
    modifies newitem`child, NodeSet(nptr)`next
    ensures |kids'| == |kids| + 1 && Copies(newitem, newchild, kids', s, vs, within')
    ensures forall n | n in within' :: n in within || fresh(n)
    decreases s, 0
  {
    ghost var (k, c) := (|kids|, s.kids[|kids|]);
    newchild, c := Duplicate(cptr, true, s.kids[k], vs[k]);
    kids', within' := kids + [c], within + {newchild} + c.below;
    LinkNext(newitem, nptr, newchild, kids, vs[..k], within, c, vs[k]);
    assert vs[..k + 1] == vs[..k] + [vs[k]];
  }
}
