/** Pointer surgery on child lists: each operation against its effect on the sequence of
    children. A call changes the child pointer of the parent and next and prev pointers of
    the nodes in its modifies clause, and nothing else. */
module JsonLists {
  import opened JsonNodes

  /** A parent in front of a well-formed list it is not part of. */
  ghost predicate Heads(parent: Node, ns: seq<Node>)
    reads parent`child, (set n | n in ns)`next, (set n | n in ns)`prev
  {
    parent !in ns && Chain(parent.child, ns)
  }

  /** A node that hangs in no list and is not the parent or in its list. */
  ghost predicate Detached(item: Node, parent: Node, ns: seq<Node>)
    reads item`next, item`prev
  {
    item != parent && item !in ns && item.next == null && item.prev == null
  }

  ghost function Without(ns: seq<Node>, k: nat): (rest: seq<Node>)
    requires k < |ns|
    ensures |rest| == |ns| - 1 && forall i | 0 <= i < |rest| :: rest[i] == if i < k then ns[i] else ns[i + 1]
    ensures Distinct(ns) ==> Distinct(rest) && ns[k] !in rest
  {
    ns[..k] + ns[k + 1..]
  }

  ghost function With(ns: seq<Node>, k: nat, n: Node): (more: seq<Node>)
    requires k <= |ns|
    ensures |more| == |ns| + 1
    ensures forall i | 0 <= i < |more| :: more[i] == if i < k then ns[i] else if i == k then n else ns[i - 1]
    ensures Distinct(ns) && n !in ns ==> Distinct(more)
  {
    ns[..k] + [n] + ns[k..]
  }

  ghost function Swapped(ns: seq<Node>, k: nat, n: Node): (after: seq<Node>)
    requires k < |ns|
    ensures |after| == |ns| && forall i | 0 <= i < |ns| :: after[i] == if i == k then n else ns[i]
    ensures Distinct(ns) && n !in ns ==> Distinct(after) && ns[k] !in after
  {
    ns[k := n]
  }

  ghost function NodeSet(n: Node?): set<Node> {
    if n == null then {} else {n}
  }

  ghost function Index(which: int): nat {
    if which < 0 then 0 else which
  }

  /** The walk every operation starts with: to the child at an index, or past the end. */
  method GetArrayItem(parent: Node, which: int, ghost ns: seq<Node>) returns (c: Node?)
    requires Heads(parent, ns)
    ensures c == NodeAt(ns, if which < 0 then 0 else which)
  {
    c := parent.child;
    var left := which;
    ghost var i := 0;
    while c != null && left > 0
      invariant 0 <= i <= |ns| && c == NodeAt(ns, i)
      invariant i + Index(left) == Index(which)
      decreases |ns| - i
    {
      c := c.next;
      left, i := left - 1, i + 1;
    }
  }

  method GetArraySize(parent: Node, ghost ns: seq<Node>) returns (n: nat)
    requires Chain(parent.child, ns)
    ensures n == |ns|
  {
    var c := parent.child;
    n := 0;
    while c != null
      invariant 0 <= n <= |ns| && c == NodeAt(ns, n)
      decreases |ns| - n
    {
      n, c := n + 1, c.next;
    }
  }

  method SuffixObject(prev: Node, item: Node)
    modifies prev`next, item`prev
    ensures prev.next == item && item.prev == prev
  {
    prev.next := item;
    item.prev := prev;
  }

  /** Puts a node behind the last one, which is at hand. */
  method LinkLast(parent: Node, last: Node?, child: Node, ghost ns: seq<Node>)
    requires Heads(parent, ns) && Detached(child, parent, ns) && last == NodeAt(ns, |ns| - 1)
    modifies parent`child, NodeSet(last)`next, child`prev
    ensures Heads(parent, ns + [child])
  {
    if last != null {
      SuffixObject(last, child);
    } else {
      parent.child := child;
    }
  }

  method AddItemToArray(parent: Node, item: Node?, ghost ns: seq<Node>)
    requires Heads(parent, ns)
    requires item != null ==> Detached(item, parent, ns)
    modifies parent`child, (set n | n in ns)`next, NodeSet(item)`prev
    ensures Heads(parent, if item == null then ns else ns + [item])
  {
    var c := parent.child;
    if item == null {
      return;
    }
    if c == null {
      parent.child := item;
    } else {
      ghost var i := 0;
      while c.next != null
        invariant 0 <= i < |ns| && c == ns[i]
        decreases |ns| - i
      {
        c, i := c.next, i + 1;
      }
      SuffixObject(c, item);
    }
  }

  /** The links around a node that was taken out of a list. */
  ghost predicate Bridged(parent: Node, ns: seq<Node>, k: nat)
    requires k < |ns|
    reads parent`child, (set n | n in ns)`next, (set n | n in ns)`prev
  {
    && parent.child == NodeAt(ns, if k == 0 then 1 else 0)
    && ns[k].prev == null && ns[k].next == null
    && (forall i {:trigger ns[i].prev} | 0 <= i < |ns| && i != k ::
         ns[i].prev == NodeAt(ns, if i == k + 1 then k - 1 else i - 1))
    && (forall i {:trigger ns[i].next} | 0 <= i < |ns| && i != k ::
         ns[i].next == NodeAt(ns, if i == k - 1 then k + 1 else i + 1))
  }

  /** Takes a node out of its list. */
  method Unlink(parent: Node, c: Node, ghost ns: seq<Node>, ghost k: nat)
    requires Heads(parent, ns) && k < |ns| && c == ns[k]
    modifies parent`child, (set n | n in ns)`next, (set n | n in ns)`prev
    ensures Bridged(parent, ns, k)
  {
    if c.prev != null {
      c.prev.next := c.next;
    }
    if c.next != null {
      c.next.prev := c.prev;
    }
    if c == parent.child {
      parent.child := c.next;
    }
    c.prev, c.next := null, null;
  }

  lemma BridgedHeads(parent: Node, ns: seq<Node>, k: nat)
    requires k < |ns| && Distinct(ns) && parent !in ns && Bridged(parent, ns, k)
    ensures Heads(parent, Without(ns, k)) && Detached(ns[k], parent, Without(ns, k))
  {
    var rest := Without(ns, k);
    forall i | 0 <= i < |rest|
      ensures rest[i].prev == NodeAt(rest, i - 1) && rest[i].next == NodeAt(rest, i + 1)
    {
      assert rest[i] == ns[if i < k then i else i + 1];
    }
  }

  method DetachItemFromArray(parent: Node, which: int, ghost ns: seq<Node>) returns (c: Node?)
    requires Heads(parent, ns)
    modifies parent`child, (set n | n in ns)`next, (set n | n in ns)`prev
    ensures c == NodeAt(ns, Index(which))
    ensures c == null ==> Heads(parent, ns)
    ensures c != null ==>
      Heads(parent, Without(ns, Index(which))) && Detached(c, parent, Without(ns, Index(which)))
  {
    c := GetArrayItem(parent, which, ns);
    if c != null {
      Unlink(parent, c, ns, Index(which));
      BridgedHeads(parent, ns, Index(which));
    }
  }

  method InsertItemInArray(parent: Node, which: int, newitem: Node, ghost ns: seq<Node>)
    requires Heads(parent, ns) && Detached(newitem, parent, ns)
    modifies parent`child, (set n | n in ns)`next, (set n | n in ns)`prev, newitem`next, newitem`prev
    ensures var k := if Index(which) < |ns| then Index(which) else |ns|;
            Heads(parent, With(ns, k, newitem))
  {
    var c := GetArrayItem(parent, which, ns);
    if c == null {
      AddItemToArray(parent, newitem, ns);
      assert With(ns, |ns|, newitem) == ns + [newitem];
    } else {
      Wedge(parent, c, newitem, ns, Index(which));
      WedgedHeads(parent, ns, Index(which), newitem);
    }
  }

  /** The links around a node that was put in front of another one. */
  ghost predicate Wedged(parent: Node, ns: seq<Node>, k: nat, n: Node)
    requires k < |ns|
    reads parent`child, (set m | m in ns)`next, (set m | m in ns)`prev, n`next, n`prev
  {
    && parent.child == (if k == 0 then n else ns[0])
    && n.prev == NodeAt(ns, k - 1) && n.next == ns[k]
    && (forall i {:trigger ns[i].prev} | 0 <= i < |ns| :: ns[i].prev == if i == k then n else NodeAt(ns, i - 1))
    && (forall i {:trigger ns[i].next} | 0 <= i < |ns| :: ns[i].next == if i == k - 1 then n else NodeAt(ns, i + 1))
  }

  lemma WedgedHeads(parent: Node, ns: seq<Node>, k: nat, n: Node)
    requires k < |ns| && Distinct(ns) && parent !in ns && n !in ns && n != parent && Wedged(parent, ns, k, n)
    ensures Heads(parent, With(ns, k, n))
  {
    var more := With(ns, k, n);
    forall i | 0 <= i < |more|
      ensures more[i].prev == NodeAt(more, i - 1) && more[i].next == NodeAt(more, i + 1)
    {
      assert i != k ==> more[i] == ns[if i < k then i else i - 1];
    }
  }

  method Wedge(parent: Node, c: Node, newitem: Node, ghost ns: seq<Node>, ghost k: nat)
    requires Heads(parent, ns) && Detached(newitem, parent, ns) && k < |ns| && c == ns[k]
    modifies parent`child, (set n | n in ns)`next, (set n | n in ns)`prev, newitem`next, newitem`prev
    ensures Wedged(parent, ns, k, newitem)
  {
    newitem.next := c;
    newitem.prev := c.prev;
    c.prev := newitem;
    if c == parent.child {
      parent.child := newitem;
    } else {
      newitem.prev.next := newitem;
    }
  }

  method ReplaceItemInArray(parent: Node, which: int, newitem: Node, ghost ns: seq<Node>)
    requires Heads(parent, ns) && Detached(newitem, parent, ns)
    modifies parent`child, (set n | n in ns)`next, (set n | n in ns)`prev, newitem`next, newitem`prev
    ensures Index(which) >= |ns| ==> Heads(parent, ns) && Detached(newitem, parent, ns)
    ensures Index(which) < |ns| ==>
      Heads(parent, Swapped(ns, Index(which), newitem))
      && Detached(ns[Index(which)], parent, Swapped(ns, Index(which), newitem))
  {
    var c := GetArrayItem(parent, which, ns);
    if c != null {
      Supplant(parent, c, newitem, ns, Index(which));
      SupplantedHeads(parent, ns, Index(which), newitem);
    }
  }

  /** The links of a list in which a node stands for another one. */
  ghost predicate Supplanted(parent: Node, ns: seq<Node>, k: nat, n: Node)
    requires k < |ns|
    reads parent`child, (set m | m in ns)`next, (set m | m in ns)`prev, n`next, n`prev
  {
    && parent.child == (if k == 0 then n else ns[0])
    && n.prev == NodeAt(ns, k - 1) && n.next == NodeAt(ns, k + 1) && ns[k].prev == null && ns[k].next == null
    && (forall i {:trigger ns[i].prev} | 0 <= i < |ns| && i != k ::
         ns[i].prev == if i == k + 1 then n else NodeAt(ns, i - 1))
    && (forall i {:trigger ns[i].next} | 0 <= i < |ns| && i != k ::
         ns[i].next == if i == k - 1 then n else NodeAt(ns, i + 1))
  }

  lemma SupplantedHeads(parent: Node, ns: seq<Node>, k: nat, n: Node)
    requires k < |ns| && Distinct(ns) && parent !in ns && n !in ns && n != parent && Supplanted(parent, ns, k, n)
    ensures Heads(parent, Swapped(ns, k, n)) && Detached(ns[k], parent, Swapped(ns, k, n))
  {
    var after := Swapped(ns, k, n);
    forall i | 0 <= i < |after|
      ensures after[i].prev == NodeAt(after, i - 1) && after[i].next == NodeAt(after, i + 1)
    {
      assert i != k ==> after[i] == ns[i];
    }
  }

  method Supplant(parent: Node, c: Node, newitem: Node, ghost ns: seq<Node>, ghost k: nat)
    requires Heads(parent, ns) && Detached(newitem, parent, ns) && k < |ns| && c == ns[k]
    modifies parent`child, (set n | n in ns)`next, (set n | n in ns)`prev, newitem`next, newitem`prev
    ensures Supplanted(parent, ns, k, newitem)
  {
    newitem.next := c.next;
    newitem.prev := c.prev;
    if newitem.next != null {
      newitem.next.prev := newitem;
    }
    if c == parent.child {
      parent.child := newitem;
    } else {
      newitem.prev.next := newitem;
    }
    c.next, c.prev := null, null;
  }
}
