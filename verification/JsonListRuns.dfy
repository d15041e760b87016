/** Runs of edits on a child list. Nodes that hang in no list are loose: an edit may take one of
    them in, and detaching sets one loose. A node that was replaced is deleted. */
module JsonListRuns {
  import opened JsonNodes
  import opened JsonLists

  datatype Edit =
    | Add(item: Node)
    | Insert(which: int, item: Node)
    | Detach(which: int)
    | Replace(which: int, item: Node)

  /** What an edit makes of the sequence of children. */
  ghost function Edited(ns: seq<Node>, e: Edit): seq<Node> {
    match e
    case Add(item) => ns + [item]
    case Insert(which, item) => With(ns, if Index(which) < |ns| then Index(which) else |ns|, item)
    case Detach(which) => if Index(which) < |ns| then Without(ns, Index(which)) else ns
    case Replace(which, item) => if Index(which) < |ns| then Swapped(ns, Index(which), item) else ns
  }

  /** The loose nodes after an edit. */
  ghost function LooseAfter(ns: seq<Node>, loose: set<Node>, e: Edit): set<Node> {
    match e
    case Add(item) => loose - {item}
    case Insert(_, item) => loose - {item}
    case Detach(which) => if Index(which) < |ns| then loose + {ns[Index(which)]} else loose
    case Replace(which, item) => if Index(which) < |ns| then loose - {item} else loose
  }

  ghost function EditedAll(ns: seq<Node>, edits: seq<Edit>): seq<Node>
    decreases |edits|
  {
    if edits == [] then ns else EditedAll(Edited(ns, edits[0]), edits[1..])
  }

  /** Every edit takes in a node that is loose by then. */
  ghost predicate Allowed(ns: seq<Node>, loose: set<Node>, edits: seq<Edit>)
    decreases |edits|
  {
    edits == [] ||
    (&& (edits[0].Detach? || edits[0].item in loose)
     && Allowed(Edited(ns, edits[0]), LooseAfter(ns, loose, edits[0]), edits[1..]))
  }

  /** The list is well formed, and the loose nodes are. */
  ghost predicate Tidy(parent: Node, ns: seq<Node>, loose: set<Node>, all: set<Node>)
    reads parent`child, all`next, all`prev
  {
    && (forall i | 0 <= i < |ns| :: ns[i] in all) && loose <= all && parent !in all
    && Heads(parent, ns)
    && forall n | n in loose :: Detached(n, parent, ns)
  }

  method Perform(parent: Node, e: Edit, ghost ns: seq<Node>, ghost loose: set<Node>, ghost all: set<Node>)
    requires Tidy(parent, ns, loose, all) && (e.Detach? || e.item in loose)
    modifies parent`child, all`next, all`prev
    ensures Tidy(parent, Edited(ns, e), LooseAfter(ns, loose, e), all)
  {
    match e
    case Add(item) => PerformAdd(parent, item, ns, loose, all);
    case Insert(which, item) => PerformInsert(parent, which, item, ns, loose, all);
    case Detach(which) => PerformDetach(parent, which, ns, loose, all);
    case Replace(which, item) => PerformReplace(parent, which, item, ns, loose, all);
  }

  method PerformAdd(parent: Node, item: Node, ghost ns: seq<Node>, ghost loose: set<Node>, ghost all: set<Node>)
    requires Tidy(parent, ns, loose, all) && item in loose
    modifies parent`child, all`next, all`prev
    ensures Tidy(parent, Edited(ns, Add(item)), loose - {item}, all)
  {
    AddItemToArray(parent, item, ns);
  }

  method PerformInsert(parent: Node, which: int, item: Node, ghost ns: seq<Node>, ghost loose: set<Node>,
                       ghost all: set<Node>)
    requires Tidy(parent, ns, loose, all) && item in loose
    modifies parent`child, all`next, all`prev
    ensures Tidy(parent, Edited(ns, Insert(which, item)), loose - {item}, all)
  {
    WithOnly(ns, if Index(which) < |ns| then Index(which) else |ns|, item);
    InsertItemInArray(parent, which, item, ns);
  }

  lemma WithOnly(ns: seq<Node>, k: nat, item: Node)
    requires k <= |ns|
    ensures forall n :: n in With(ns, k, item) <==> n == item || n in ns
  {
  }

  lemma WithoutOnly(ns: seq<Node>, k: nat)
    requires k < |ns| && Distinct(ns)
    ensures forall n :: n in Without(ns, k) <==> n != ns[k] && n in ns
  {
    var rest := Without(ns, k);
    forall n | n in ns && n != ns[k] ensures n in rest {
      var i :| 0 <= i < |ns| && ns[i] == n;
      assert rest[if i < k then i else i - 1] == n;
    }
  }

  method PerformDetach(parent: Node, which: int, ghost ns: seq<Node>, ghost loose: set<Node>, ghost all: set<Node>)
    requires Tidy(parent, ns, loose, all)
    modifies parent`child, all`next, all`prev
    ensures Tidy(parent, Edited(ns, Detach(which)), LooseAfter(ns, loose, Detach(which)), all)
  {
    if Index(which) < |ns| {
      WithoutOnly(ns, Index(which));
    }
    var _ := DetachItemFromArray(parent, which, ns);
  }

  method PerformReplace(parent: Node, which: int, item: Node, ghost ns: seq<Node>, ghost loose: set<Node>,
                        ghost all: set<Node>)
    requires Tidy(parent, ns, loose, all) && item in loose
    modifies parent`child, all`next, all`prev
    ensures Tidy(parent, Edited(ns, Replace(which, item)), LooseAfter(ns, loose, Replace(which, item)), all)
  {
    ReplaceItemInArray(parent, which, item, ns);
  }

  /** After any run of edits the links are those of a well-formed list, and the list is the one
      the same edits make of the sequence. */
  method PerformAll(parent: Node, edits: seq<Edit>, ghost ns: seq<Node>, ghost loose: set<Node>, ghost all: set<Node>)
    requires Tidy(parent, ns, loose, all) && Allowed(ns, loose, edits)
    modifies parent`child, all`next, all`prev
    ensures Heads(parent, EditedAll(ns, edits))
  {
    ghost var (now, free) := (ns, loose);
    for i := 0 to |edits|
      invariant Tidy(parent, now, free, all) && Allowed(now, free, edits[i..])
      invariant EditedAll(now, edits[i..]) == EditedAll(ns, edits)
    {
      assert edits[i..][0] == edits[i] && edits[i..][1..] == edits[i + 1..];
      Perform(parent, edits[i], now, free, all);
      now, free := Edited(now, edits[i]), LooseAfter(now, free, edits[i]);
    }
  }
}
