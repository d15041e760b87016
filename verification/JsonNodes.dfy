/** The heap form of a JSON tree: nodes with next, prev and child pointers. A ghost shape names
    the nodes a tree is made of; Linked says that the pointers are those of a well-formed
    doubly linked child list, at every level. */
module JsonNodes {
  import opened Text
  import opened Utf8
  import opened JsonTree

  datatype Kind = KFalse | KTrue | KNull | KNumber | KString | KArray | KObject

  class Node {
    var next: Node?
    var prev: Node?
    var child: Node?
    var kind: Kind
    var valuestring: Option<Text>
    var number: Decimal
    var name: Option<Text>

    /** A zeroed node. */
    constructor ()
      ensures next == null && prev == null && child == null
      ensures kind == KFalse && valuestring == None && number == Decimal(0, 0) && name == None
    {
      next, prev, child := null, null, null;
      kind, valuestring, number, name := KFalse, None, Decimal(0, 0), None;
    }
  }

  /** The node at an index, null outside the list. */
  ghost function NodeAt(ns: seq<Node>, i: int): Node? {
    if 0 <= i < |ns| then ns[i] else null
  }

  /** From a first pointer, next runs through the nodes and prev mirrors it: the head has no
      prev and the last node no next. */
  ghost predicate Chain(first: Node?, ns: seq<Node>)
    reads (set n | n in ns)`next, (set n | n in ns)`prev
  {
    && first == NodeAt(ns, 0)
    && (forall i {:trigger ns[i].prev} | 0 <= i < |ns| :: ns[i].prev == NodeAt(ns, i - 1))
    && (forall i {:trigger ns[i].next} | 0 <= i < |ns| :: ns[i].next == NodeAt(ns, i + 1))
    && Distinct(ns)
  }

  ghost predicate Distinct(ns: seq<Node>) {
    forall i, j | 0 <= i < j < |ns| :: ns[i] != ns[j]
  }
}
