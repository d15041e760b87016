/** Parsing into nodes: a successful parse leaves below the given node a fresh, well-formed
    tree that holds the value the text spells. */
module JsonBuilder {
  import opened Text
  import opened Utf8
  import opened JsonTree
  import opened JsonNodes
  import opened JsonLists
  import opened JsonShapes
  import opened JsonParse
  import opened JsonParser
  import JsonRoundTrip

  /** A zeroed node reads as a tree: cJSON_False is type 0. */
  lemma BlankTree(n: Node)
    requires n.child == null && n.kind == KFalse && n.name == None
    ensures Tree(Shape(n, None, {}, []), False)
  {
  }

  /** Makes a node and links it behind the last child; the children hold what they held. */
  method NewChild(item: Node, last: Node?, ghost kids: seq<Shape>, ghost vs: seq<Json>, ghost within: set<Node>)
      returns (child: Node)
    requires Growing(item, last, kids, vs, within)
    modifies item`child, NodeSet(last)`next
    ensures fresh(child) && child.child == null && child.name == None
    ensures Heads(item, Roots(kids) + [child]) && Trees(kids, vs, within)
  {
    child := new Node();
    ghost var blank := Shape(child, None, {}, []);
    BlankTree(child);
    LinkNext(item, last, child, kids, vs, within, blank, False);
    assert Roots(kids + [blank]) == Roots(kids) + [child];
    TreesPrefix(kids, vs, within, blank, False, within + {child} + {});
  }

  lemma TreesPrefix(ss: seq<Shape>, vs: seq<Json>, within: set<Node>, c: Shape, v: Json, more: set<Node>)
    requires Trees(ss + [c], vs + [v], more) && Apart(ss, within) && |ss| == |vs|
    ensures Trees(ss, vs, within)
  {
    forall i | 0 <= i < |ss|
      ensures Tree(ss[i], vs[i])
    {
      assert (ss + [c])[i] == ss[i] && (vs + [v])[i] == vs[i];
    }
  }

  method ReadValue(item: Node, text: Text, pos: nat) returns (ok: bool, end: nat, ghost s: Shape)
    requires pos <= |text| && !ParseValue(text[pos..]).Malformed? && item.child == null
    modifies item`child, item`kind, item`valuestring, item`number
    ensures ok <==> ParseValue(text[pos..]).Parsed?
    ensures ok ==> pos < end <= |text| && ParseValue(text[pos..]).rest == text[end..]
    ensures ok ==> s.node == item && s.name == item.name && Tree(s, ParseValue(text[pos..]).value)
    ensures ok ==> item !in s.below && forall n | n in s.below :: fresh(n)
    decreases |text| - pos, 1
  {
    ok, end, s := true, pos, Shape(item, item.name, {}, []);
    if StartsWith(text[pos..], "null") {
      item.kind, end := KNull, pos + 4;
    } else if StartsWith(text[pos..], "false") {
      item.kind, end := KFalse, pos + 5;
    } else if StartsWith(text[pos..], "true") {
      item.kind, end := KTrue, pos + 4;
    } else if At(text, pos) == '\"' {
      var value;
      value, end := ReadString(text, pos);
      item.valuestring, item.kind := value, KString;
    } else if At(text, pos) == '-' || IsDigit(At(text, pos)) {
      item.number, end := ReadNumber(text, pos);
      item.kind := KNumber;
    } else if At(text, pos) == '[' {
      ok, end, s := ReadArray(item, text, pos);
    } else if At(text, pos) == '{' {
      ok, end, s := ReadObject(item, text, pos);
    } else {
      ok := false;
    }
  }

  /** Makes the next child and reads a value into it. */
  method ReadChild(item: Node, last: Node?, text: Text, pos: nat,
                   ghost kids: seq<Shape>, ghost vs: seq<Json>, ghost within: set<Node>)
      returns (ok: bool, child: Node, end: nat, ghost c: Shape)
    requires pos <= |text| && !ParseValue(text[pos..]).Malformed?
    requires Growing(item, last, kids, vs, within)
    modifies item`child, NodeSet(last)`next
    ensures ok <==> ParseValue(text[pos..]).Parsed?
    ensures ok ==> pos < end <= |text| && ParseValue(text[pos..]).rest == text[end..]
    ensures ok ==> Tree(c, ParseValue(text[pos..]).value)
    ensures fresh(child) && (ok ==> child == c.node && child !in c.below && forall n | n in c.below :: fresh(n))
    ensures Heads(item, Roots(kids) + [child]) && Trees(kids, vs, within)
    decreases |text| - pos, 2
  {
    child := NewChild(item, last, kids, vs, within);
    ghost var ns := Roots(kids) + [child];
    label Linked:
    ok, end, c := ReadValue(child, text, pos);
    assert Heads(item, ns) by {
      assert unchanged@Linked(item`child) && forall n: Node | n in ns :: unchanged@Linked(n`next, n`prev);
    }
  }

  /** Reads a value into the next child and counts it to the children. */
  method ReadNext(item: Node, last: Node?, text: Text, pos: nat,
                  ghost kids: seq<Shape>, ghost vs: seq<Json>, ghost within: set<Node>)
      returns (ok: bool, child: Node, end: nat, ghost kids': seq<Shape>, ghost within': set<Node>)
    requires pos <= |text| && !ParseValue(text[pos..]).Malformed?
    requires Growing(item, last, kids, vs, within)
    modifies item`child, NodeSet(last)`next
    ensures ok <==> ParseValue(text[pos..]).Parsed?
    ensures ok ==> pos < end <= |text| && ParseValue(text[pos..]).rest == text[end..]
    ensures ok ==> Growing(item, child, kids', vs + [ParseValue(text[pos..]).value], within')
    ensures ok ==> fresh(child) && forall n | n in within' :: n in within || fresh(n)
    decreases |text| - pos, 3
  {
    ghost var c;
    ok, child, end, c := ReadChild(item, last, text, pos, kids, vs, within);
    kids', within' := kids, within;
    if ok {
      OneGrown(item, child, kids, vs, within, c, ParseValue(text[pos..]).value);
      kids', within' := kids + [c], within + {child} + c.below;
    }
  }

  /** A child that is linked and holds a value counts to the children. */
  lemma OneGrown(item: Node, child: Node, kids: seq<Shape>, vs: seq<Json>, within: set<Node>, c: Shape, v: Json)
    requires Heads(item, Roots(kids) + [child]) && Trees(kids, vs, within) && Tree(c, v) && child == c.node
    requires child !in c.below && child !in within && c.below !! within
    requires item != child && item !in within && item !in c.below
    ensures Growing(item, child, kids + [c], vs + [v], within + {child} + c.below)
  {
    TreesAppend(kids, vs, within, c, v);
  }

  /** One element, from behind the bracket or comma to the comma or bracket that follows it. */
  method ReadElement(item: Node, last: Node?, text: Text, pos: nat,
                     ghost kids: seq<Shape>, ghost vs: seq<Json>, ghost within: set<Node>)
      returns (ok: bool, child: Node, end: nat, ghost kids': seq<Shape>, ghost within': set<Node>)
    requires pos <= |text| && !ParseValue(Skip(text[pos..])).Malformed?
    requires Growing(item, last, kids, vs, within)
    modifies item`child, NodeSet(last)`next
    ensures ok <==> ParseValue(Skip(text[pos..])).Parsed?
    ensures ok ==> pos < end <= |text| && Skip(ParseValue(Skip(text[pos..])).rest) == text[end..]
    ensures ok ==> Growing(item, child, kids', vs + [ParseValue(Skip(text[pos..])).value], within')
    ensures ok ==> fresh(child) && forall n | n in within' :: n in within || fresh(n)
    decreases |text| - pos, 4
  {
    var start := ReadBlanks(text, pos);
    ok, child, end, kids', within' := ReadNext(item, last, text, start, kids, vs, within);
    if ok {
      end := ReadBlanks(text, end);
    }
  }

  /** What reading a list makes of the values it already has and the text behind the last one. */
  function AfterItems(vs: seq<Json>, t: Text): Outcome<seq<Json>> {
    if Head(t) == ',' then
      match ParseItems(t[1..])
      case Parsed(ws, rest) => Parsed(vs + ws, rest)
      case o => o
    else if Head(t) == ']' then Parsed(vs, t[1..])
    else Failed
  }

  lemma AfterItemsStep(vs: seq<Json>, t: Text)
    requires Head(t) == ','
    ensures match ParseValue(Skip(t[1..]))
            case Parsed(v, rest) => AfterItems(vs, t) == AfterItems(vs + [v], Skip(rest))
            case Failed => AfterItems(vs, t) == Failed
            case Malformed => AfterItems(vs, t) == Malformed
  {
    match ParseValue(Skip(t[1..]))
    case Parsed(v, rest) =>
      var t1 := Skip(rest);
      if Head(t1) == ',' {
        match ParseItems(t1[1..])
        case Parsed(ws, _) => assert vs + ([v] + ws) == vs + [v] + ws;
        case _ =>
      }
    case _ =>
  }

  lemma ItemsStepAt(vs: seq<Json>, text: Text, at: nat)
    requires at < |text| && text[at] == ','
    ensures match ParseValue(Skip(text[at + 1..]))
            case Parsed(v, rest) => AfterItems(vs, text[at..]) == AfterItems(vs + [v], Skip(rest))
            case Failed => AfterItems(vs, text[at..]) == Failed
            case Malformed => AfterItems(vs, text[at..]) == Malformed
  {
    AfterItemsStep(vs, text[at..]);
    assert text[at..][1..] == text[at + 1..];
  }

  lemma FirstItem(t: Text)
    requires ParseValue(Skip(t)).Parsed?
    ensures ParseItems(t) == AfterItems([ParseValue(Skip(t)).value], Skip(ParseValue(Skip(t)).rest))
  {
  }

  method ReadArray(item: Node, text: Text, pos: nat) returns (ok: bool, end: nat, ghost s: Shape)
    requires pos < |text| && text[pos] == '[' && !ParseValue(text[pos..]).Malformed? && item.child == null
    modifies item`child, item`kind
    ensures ok <==> ParseValue(text[pos..]).Parsed?
    ensures ok ==> pos < end <= |text| && ParseValue(text[pos..]).rest == text[end..]
    ensures ok ==> s.node == item && s.name == item.name && Tree(s, ParseValue(text[pos..]).value)
    ensures ok ==> item !in s.below && forall n | n in s.below :: fresh(n)
    decreases |text| - pos, 0
  {
    item.kind := KArray;
    ghost var o := ParseValue(text[pos..]);
    assert o == ArrayOutcome(Skip(text[pos + 1..]));
    var value := ReadBlanks(text, pos + 1);
    if At(text, value) == ']' {
      ok, end, s := true, value + 1, Shape(item, item.name, {}, []);
    } else {
      ghost var kids, vs, within;
      ok, end, kids, vs, within := ReadItems(item, text, value);
      s := Shape(item, item.name, within, kids);
    }
  }

  function ArrayOutcome(t: Text): Outcome<Json> {
    if Head(t) == ']' then Parsed(Array([]), t[1..])
    else match ParseItems(t)
      case Parsed(items, rest) => Parsed(Array(items), rest)
      case Failed => Failed
      case Malformed => Malformed
  }

  /** The elements of an array that is not empty. */
  method ReadItems(item: Node, text: Text, pos: nat)
      returns (ok: bool, end: nat, ghost kids: seq<Shape>, ghost vs: seq<Json>, ghost within: set<Node>)
    requires pos <= |text| && !ParseItems(text[pos..]).Malformed? && item.child == null
    modifies item`child
    ensures ok <==> ParseItems(text[pos..]).Parsed?
    ensures ok ==> pos < end <= |text| && ParseItems(text[pos..]) == Parsed(vs, text[end..])
    ensures ok ==> Heads(item, Roots(kids)) && Trees(kids, vs, within)
    ensures ok ==> item !in within && forall n | n in within :: fresh(n)
    decreases |text| - pos, 5
  {
    var child;
    vs := [];
    ok, child, end, kids, within := ReadElement(item, null, text, pos, [], [], {});
    if ok {
      FirstItem(text[pos..]);
      vs := [ParseValue(Skip(text[pos..])).value];
      assert [] + vs == vs;
      ok, end, kids, vs, within := ReadMoreItems(item, child, text, end, kids, vs, within);
    }
  }

  /** The loop over the elements behind the first. */
  method ReadMoreItems(item: Node, last: Node, text: Text, pos: nat,
                       ghost kids0: seq<Shape>, ghost vs0: seq<Json>, ghost within0: set<Node>)
      returns (ok: bool, end: nat, ghost kids: seq<Shape>, ghost vs: seq<Json>, ghost within: set<Node>)
    requires pos <= |text| && !AfterItems(vs0, text[pos..]).Malformed?
    requires Growing(item, last, kids0, vs0, within0)
    modifies item`child, last`next
    ensures ok <==> AfterItems(vs0, text[pos..]).Parsed?
    ensures ok ==> pos < end <= |text| && AfterItems(vs0, text[pos..]) == Parsed(vs, text[end..])
    ensures ok ==> Heads(item, Roots(kids)) && Trees(kids, vs, within)
    ensures ok ==> item !in within && forall n | n in within :: n in within0 || fresh(n)
    decreases |text| - pos, 5
  {
    ok, end, kids, vs, within := true, pos, kids0, vs0, within0;
    var child := last;
    while ok && At(text, end) == ','
      invariant ok ==> pos <= end <= |text| && AfterItems(vs0, text[pos..]) == AfterItems(vs, text[end..])
      invariant ok ==> Growing(item, child, kids, vs, within)
      invariant ok ==> (child == last || fresh(child)) && forall n | n in within :: n in within0 || fresh(n)
      invariant !ok ==> AfterItems(vs0, text[pos..]).Failed?
      decreases ok, |text| - end
    {
      ok, child, end, kids, vs, within := ReadAnother(item, child, text, end, kids, vs, within);
    }
    if ok && At(text, end) == ']' {
      end := end + 1;
    } else {
      ok := false;
    }
  }

  /** One turn of the loop: what follows a comma. */
  method ReadAnother(item: Node, last: Node, text: Text, pos: nat,
                     ghost kids: seq<Shape>, ghost vs: seq<Json>, ghost within: set<Node>)
      returns (ok: bool, child: Node, end: nat, ghost kids': seq<Shape>, ghost vs': seq<Json>, ghost within': set<Node>)
    requires pos < |text| && text[pos] == ',' && !AfterItems(vs, text[pos..]).Malformed?
    requires Growing(item, last, kids, vs, within)
    modifies item`child, last`next
    ensures ok ==> pos < end <= |text| && AfterItems(vs, text[pos..]) == AfterItems(vs', text[end..])
    ensures ok ==> Growing(item, child, kids', vs', within')
    ensures ok ==> fresh(child) && forall n | n in within' :: n in within || fresh(n)
    ensures !ok ==> AfterItems(vs, text[pos..]).Failed?
    decreases |text| - pos, 4
  {
    ItemsStepAt(vs, text, pos);
    ghost var o := ParseValue(Skip(text[pos + 1..]));
    ok, child, end, kids', within' := ReadElement(item, last, text, pos + 1, kids, vs, within);
    vs' := if ok then vs + [o.value] else vs;
  }

  // ----- objects -----

  /** Makes the next child, names it and reads its value: from the name to behind the value. */
  method ReadMember(item: Node, last: Node?, text: Text, pos: nat,
                    ghost kids: seq<Shape>, ghost vs: seq<Json>, ghost within: set<Node>)
      returns (ok: bool, child: Node, end: nat, ghost c: Shape)
    requires pos <= |text| && !ParseField(text[pos..]).Malformed? && Skip(text[pos..]) == text[pos..]
    requires Growing(item, last, kids, vs, within)
    modifies item`child, NodeSet(last)`next
    ensures ok <==> ParseField(text[pos..]).Parsed?
    ensures ok ==> pos < end <= |text| && ParseField(text[pos..]).rest == text[end..]
    ensures ok ==> Tree(c, ParseField(text[pos..]).value.value) && c.name == Some(ParseField(text[pos..]).value.name)
    ensures fresh(child) && (ok ==> child == c.node && child !in c.below && forall n | n in c.below :: fresh(n))
    ensures Heads(item, Roots(kids) + [child]) && Trees(kids, vs, within)
    decreases |text| - pos, 4
  {
    child := NewChild(item, last, kids, vs, within);
    ghost var ns := Roots(kids) + [child];
    label Linked:
    ok, end, c := ReadNamed(child, text, pos);
    assert Heads(item, ns) by {
      assert unchanged@Linked(item`child) && forall n: Node | n in ns :: unchanged@Linked(n`next, n`prev);
    }
  }

  /** What a field is once its name is read, from behind the name. */
  function AfterName(name: Text, t: Text): Outcome<Field> {
    if Head(t) != ':' then Failed
    else match ParseValue(Skip(t[1..]))
      case Parsed(v, rest) => Parsed(Field(name, v), rest)
      case Failed => Failed
      case Malformed => Malformed
  }

  lemma FieldFromName(t: Text)
    ensures match ParseString(Skip(t))
            case Parsed(name, rest) => ParseField(t) == AfterName(name, Skip(rest))
            case Failed => ParseField(t) == Failed
            case Malformed => ParseField(t) == Malformed
  {
  }

  /** The name arrives as the child's string value and is then moved to where names are kept. */
  method ReadNamed(child: Node, text: Text, pos: nat) returns (ok: bool, end: nat, ghost c: Shape)
    requires pos <= |text| && !ParseField(text[pos..]).Malformed? && Skip(text[pos..]) == text[pos..]
    requires child.child == null
    modifies child`child, child`kind, child`valuestring, child`number, child`name
    ensures ok <==> ParseField(text[pos..]).Parsed?
    ensures ok ==> pos < end <= |text| && ParseField(text[pos..]).rest == text[end..]
    ensures ok ==> Tree(c, ParseField(text[pos..]).value.value) && c.name == Some(ParseField(text[pos..]).value.name)
    ensures ok ==> child == c.node && child !in c.below && forall n | n in c.below :: fresh(n)
    decreases |text| - pos, 3
  {
    FieldFromName(text[pos..]);
    var name;
    name, end := ReadString(text, pos);
    ok, c := name.Some?, Shape(child, name, {}, []);
    if ok {
      child.kind, child.valuestring := KString, name;
      child.name, child.valuestring := child.valuestring, None;
      end := ReadBlanks(text, end);
      ok, end, c := ReadNamedValue(child, text, end);
    }
  }

  /** From the colon to behind the value. */
  method ReadNamedValue(child: Node, text: Text, pos: nat) returns (ok: bool, end: nat, ghost c: Shape)
    requires pos <= |text| && child.child == null
    requires child.name.Some? && !AfterName(child.name.value, text[pos..]).Malformed?
    modifies child`child, child`kind, child`valuestring, child`number
    ensures ok <==> AfterName(child.name.value, text[pos..]).Parsed?
    ensures ok ==> pos < end <= |text| && AfterName(child.name.value, text[pos..]).rest == text[end..]
    ensures ok ==> Tree(c, AfterName(child.name.value, text[pos..]).value.value) && c.name == child.name
    ensures ok ==> child == c.node && child !in c.below && forall n | n in c.below :: fresh(n)
    decreases |text| - pos, 2
  {
    ok, end, c := At(text, pos) == ':', pos, Shape(child, child.name, {}, []);
    if ok {
      assert text[pos..][1..] == text[pos + 1..];
      end := ReadBlanks(text, pos + 1);
      ok, end, c := ReadValue(child, text, end);
    }
  }

  /** Reads a name and a value into the next child and counts it to the children. */
  method ReadNextMember(item: Node, last: Node?, text: Text, pos: nat,
                        ghost kids: seq<Shape>, ghost vs: seq<Json>, ghost within: set<Node>)
      returns (ok: bool, child: Node, end: nat, ghost kids': seq<Shape>, ghost within': set<Node>)
    requires pos <= |text| && !ParseField(text[pos..]).Malformed? && Skip(text[pos..]) == text[pos..]
    requires Growing(item, last, kids, vs, within)
    modifies item`child, NodeSet(last)`next
    ensures ok <==> ParseField(text[pos..]).Parsed?
    ensures ok ==> pos < end <= |text| && ParseField(text[pos..]).rest == text[end..]
    ensures ok ==> Growing(item, child, kids', vs + [ParseField(text[pos..]).value.value], within')
    ensures ok ==> OneMore(kids, kids', ParseField(text[pos..]).value.name)
    ensures ok ==> fresh(child) && forall n | n in within' :: n in within || fresh(n)
    decreases |text| - pos, 5
  {
    ghost var c;
    ok, child, end, c := ReadMember(item, last, text, pos, kids, vs, within);
    kids', within' := kids, within;
    if ok {
      ghost var m := ParseField(text[pos..]).value;
      OneGrown(item, child, kids, vs, within, c, m.value);
      OneNamed(kids, c, m.name);
      kids', within' := kids + [c], within + {child} + c.below;
    }
  }

  lemma OneNamed(kids: seq<Shape>, c: Shape, name: Text)
    requires c.name == Some(name)
    ensures OneMore(kids, kids + [c], name)
  {
  }

  ghost predicate OneMore(kids: seq<Shape>, kids': seq<Shape>, name: Text) {
    |kids'| == |kids| + 1 && kids'[..|kids|] == kids && kids'[|kids|].name == Some(name)
  }

  /** One member, from behind the brace or comma to the comma or brace that follows it. */
  method ReadField(item: Node, last: Node?, text: Text, pos: nat,
                   ghost kids: seq<Shape>, ghost vs: seq<Json>, ghost within: set<Node>)
      returns (ok: bool, child: Node, end: nat, ghost kids': seq<Shape>, ghost within': set<Node>)
    requires pos <= |text| && !ParseField(text[pos..]).Malformed?
    requires Growing(item, last, kids, vs, within)
    modifies item`child, NodeSet(last)`next
    ensures ok <==> ParseField(text[pos..]).Parsed?
    ensures ok ==> pos < end <= |text| && Skip(ParseField(text[pos..]).rest) == text[end..]
    ensures ok ==> Growing(item, child, kids', vs + [ParseField(text[pos..]).value.value], within')
    ensures ok ==> OneMore(kids, kids', ParseField(text[pos..]).value.name)
    ensures ok ==> fresh(child) && forall n | n in within' :: n in within || fresh(n)
    decreases |text| - pos, 6
  {
    var start := ReadBlanks(text, pos);
    FieldAfterBlanks(text[pos..]);
    ok, child, end, kids', within' := ReadNextMember(item, last, text, start, kids, vs, within);
    if ok {
      end := ReadBlanks(text, end);
    }
  }

  lemma FieldAfterBlanks(t: Text)
    ensures ParseField(Skip(t)) == ParseField(t) && Skip(Skip(t)) == Skip(t)
  {
  }

  /** What reading an object makes of the members it already has and the text behind the last one. */
  function AfterFields(ms: seq<Field>, t: Text): Outcome<seq<Field>> {
    if Head(t) == ',' then
      match ParseFields(t[1..])
      case Parsed(more, rest) => Parsed(ms + more, rest)
      case o => o
    else if Head(t) == '}' then Parsed(ms, t[1..])
    else Failed
  }

  lemma AfterFieldsStep(ms: seq<Field>, t: Text)
    requires Head(t) == ','
    ensures match ParseField(t[1..])
            case Parsed(m, rest) => AfterFields(ms, t) == AfterFields(ms + [m], Skip(rest))
            case Failed => AfterFields(ms, t) == Failed
            case Malformed => AfterFields(ms, t) == Malformed
  {
    match ParseField(t[1..])
    case Parsed(m, rest) =>
      var t1 := Skip(rest);
      if Head(t1) == ',' {
        match ParseFields(t1[1..])
        case Parsed(more, _) => assert ms + ([m] + more) == ms + [m] + more;
        case _ =>
      }
    case _ =>
  }

  lemma FieldsStepAt(ms: seq<Field>, text: Text, at: nat)
    requires at < |text| && text[at] == ','
    ensures match ParseField(text[at + 1..])
            case Parsed(m, rest) => AfterFields(ms, text[at..]) == AfterFields(ms + [m], Skip(rest))
            case Failed => AfterFields(ms, text[at..]) == Failed
            case Malformed => AfterFields(ms, text[at..]) == Malformed
  {
    AfterFieldsStep(ms, text[at..]);
    assert text[at..][1..] == text[at + 1..];
  }

  lemma FirstField(t: Text)
    requires ParseField(t).Parsed?
    ensures ParseFields(t) == AfterFields([ParseField(t).value], Skip(ParseField(t).rest))
  {
  }

  method ReadObject(item: Node, text: Text, pos: nat) returns (ok: bool, end: nat, ghost s: Shape)
    requires pos < |text| && text[pos] == '{' && !ParseValue(text[pos..]).Malformed? && item.child == null
    modifies item`child, item`kind
    ensures ok <==> ParseValue(text[pos..]).Parsed?
    ensures ok ==> pos < end <= |text| && ParseValue(text[pos..]).rest == text[end..]
    ensures ok ==> s.node == item && s.name == item.name && Tree(s, ParseValue(text[pos..]).value)
    ensures ok ==> item !in s.below && forall n | n in s.below :: fresh(n)
    decreases |text| - pos, 0
  {
    item.kind := KObject;
    ObjectFrom(text[pos..]);
    assert text[pos..][1..] == text[pos + 1..];
    var value := ReadBlanks(text, pos + 1);
    if At(text, value) == '}' {
      ok, end, s := true, value + 1, Shape(item, item.name, {}, []);
    } else {
      ghost var kids, vs, ms, within;
      ok, end, kids, vs, ms, within := ReadFields(item, text, value);
      s := Shape(item, item.name, within, kids);
      if ok {
        MembersChildren(kids, vs, ms);
      }
    }
  }

  lemma MembersChildren(kids: seq<Shape>, vs: seq<Json>, ms: seq<Field>)
    requires Members(kids, vs, ms)
    ensures vs == Children(Object(ms))
  {
  }

  lemma ObjectFrom(t: Text)
    requires Head(t) == '{'
    ensures ParseValue(t) == ObjectOutcome(Skip(t[1..]))
  {
    JsonRoundTrip.NotAWord(t);
  }

  ghost predicate Members(kids: seq<Shape>, vs: seq<Json>, ms: seq<Field>) {
    |vs| == |ms| && (forall i | 0 <= i < |ms| :: vs[i] == ms[i].value) && Named(kids, ms)
  }

  lemma MembersAppend(kids: seq<Shape>, kids': seq<Shape>, vs: seq<Json>, ms: seq<Field>, m: Field)
    requires Members(kids, vs, ms) && OneMore(kids, kids', m.name)
    ensures Members(kids', vs + [m.value], ms + [m])
  {
    forall i | 0 <= i < |kids| ensures kids'[i] == kids[i] {
      assert kids'[..|kids|][i] == kids'[i];
    }
  }

  function ObjectOutcome(t: Text): Outcome<Json> {
    if Head(t) == '}' then Parsed(Object([]), t[1..])
    else match ParseFields(t)
      case Parsed(ms, rest) => Parsed(Object(ms), rest)
      case Failed => Failed
      case Malformed => Malformed
  }

  /** The members of an object that is not empty. */
  method ReadFields(item: Node, text: Text, pos: nat)
      returns (ok: bool, end: nat, ghost kids: seq<Shape>, ghost vs: seq<Json>, ghost ms: seq<Field>,
               ghost within: set<Node>)
    requires pos <= |text| && !ParseFields(text[pos..]).Malformed? && item.child == null
    modifies item`child
    ensures ok <==> ParseFields(text[pos..]).Parsed?
    ensures ok ==> pos < end <= |text| && ParseFields(text[pos..]) == Parsed(ms, text[end..])
    ensures ok ==> Heads(item, Roots(kids)) && Trees(kids, vs, within) && Members(kids, vs, ms)
    ensures ok ==> item !in within && forall n | n in within :: fresh(n)
    decreases |text| - pos, 7
  {
    var child;
    vs, ms := [], [];
    ok, child, end, kids, within := ReadField(item, null, text, pos, [], [], {});
    if ok {
      FirstField(text[pos..]);
      ghost var m := ParseField(text[pos..]).value;
      MembersAppend([], kids, [], [], m);
      vs, ms := [m.value], [m];
      assert [] + vs == vs && [] + ms == ms;
      ok, end, kids, vs, ms, within := ReadMoreFields(item, child, text, end, kids, vs, ms, within);
    }
  }

  /** The loop over the members behind the first. */
  method ReadMoreFields(item: Node, last: Node, text: Text, pos: nat,
                        ghost kids0: seq<Shape>, ghost vs0: seq<Json>, ghost ms0: seq<Field>, ghost within0: set<Node>)
      returns (ok: bool, end: nat, ghost kids: seq<Shape>, ghost vs: seq<Json>, ghost ms: seq<Field>,
               ghost within: set<Node>)
    requires pos <= |text| && !AfterFields(ms0, text[pos..]).Malformed?
    requires Growing(item, last, kids0, vs0, within0) && Members(kids0, vs0, ms0)
    modifies item`child, last`next
    ensures ok <==> AfterFields(ms0, text[pos..]).Parsed?
    ensures ok ==> pos < end <= |text| && AfterFields(ms0, text[pos..]) == Parsed(ms, text[end..])
    ensures ok ==> Heads(item, Roots(kids)) && Trees(kids, vs, within) && Members(kids, vs, ms)
    ensures ok ==> item !in within && forall n | n in within :: n in within0 || fresh(n)
    decreases |text| - pos, 7
  {
    ok, end, kids, vs, ms, within := true, pos, kids0, vs0, ms0, within0;
    var child := last;
    while ok && At(text, end) == ','
      invariant ok ==> pos <= end <= |text| && AfterFields(ms0, text[pos..]) == AfterFields(ms, text[end..])
      invariant ok ==> Growing(item, child, kids, vs, within) && Members(kids, vs, ms)
      invariant ok ==> (child == last || fresh(child)) && forall n | n in within :: n in within0 || fresh(n)
      invariant !ok ==> AfterFields(ms0, text[pos..]).Failed?
      decreases ok, |text| - end
    {
      ok, child, end, kids, vs, ms, within := ReadAnotherField(item, child, text, end, kids, vs, ms, within);
    }
    if ok && At(text, end) == '}' {
      end := end + 1;
    } else {
      ok := false;
    }
  }

  /** One turn of the loop: what follows a comma. */
  method ReadAnotherField(item: Node, last: Node, text: Text, pos: nat,
                          ghost kids: seq<Shape>, ghost vs: seq<Json>, ghost ms: seq<Field>, ghost within: set<Node>)
      returns (ok: bool, child: Node, end: nat, ghost kids': seq<Shape>, ghost vs': seq<Json>, ghost ms': seq<Field>,
               ghost within': set<Node>)
    requires pos < |text| && text[pos] == ',' && !AfterFields(ms, text[pos..]).Malformed?
    requires Growing(item, last, kids, vs, within) && Members(kids, vs, ms)
    modifies item`child, last`next
    ensures ok ==> pos < end <= |text| && AfterFields(ms, text[pos..]) == AfterFields(ms', text[end..])
    ensures ok ==> Growing(item, child, kids', vs', within') && Members(kids', vs', ms')
    ensures ok ==> fresh(child) && forall n | n in within' :: n in within || fresh(n)
    ensures !ok ==> AfterFields(ms, text[pos..]).Failed?
    decreases |text| - pos, 6
  {
    FieldsStepAt(ms, text, pos);
    ghost var o := ParseField(text[pos + 1..]);
    vs', ms' := vs, ms;
    ok, child, end, kids', within' := ReadField(item, last, text, pos + 1, kids, vs, within);
    if ok {
      MembersAppend(kids, kids', vs, ms, o.value);
      vs', ms' := vs + [o.value.value], ms + [o.value];
    }
  }

  /** What is left to check once the value is read. */
  function AtEnd(v: Json, t: Text, requireEnd: bool): Outcome<Json> {
    if !requireEnd then Parsed(v, t) else if Head(Skip(t)) == NUL then Parsed(v, Skip(t)) else Failed
  }

  lemma ParseSteps(t: Text, requireEnd: bool)
    ensures match ParseValue(Skip(t))
            case Parsed(v, rest) => Parse(t, requireEnd) == AtEnd(v, rest, requireEnd)
            case Failed => Parse(t, requireEnd) == Failed
            case Malformed => Parse(t, requireEnd) == Malformed
  {
  }

  /** A tree whose root hangs in no list and is not part of itself. */
  ghost predicate RootOf(c: Node, s: Shape, v: Json)
    reads c, s.node, s.below
  {
    c == s.node && c !in s.below && c.next == null && c.prev == null && c.name == None && Tree(s, v)
  }

  /** A root with what the first value of the text spells below it. */
  method ReadRoot(text: Text) returns (ok: bool, c: Node, end: nat, ghost s: Shape)
    requires !ParseValue(Skip(text)).Malformed?
    ensures ok <==> ParseValue(Skip(text)).Parsed?
    ensures ok ==> end <= |text| && ParseValue(Skip(text)).rest == text[end..]
    ensures ok ==> RootOf(c, s, ParseValue(Skip(text)).value)
    ensures fresh(c) && (ok ==> forall n | n in s.below :: fresh(n))
  {
    assert text[0..] == text;
    c := new Node();
    var start := ReadBlanks(text, 0);
    ok, end, s := ReadValue(c, text, start);
  }

  /** A successful parse returns a root above fresh nodes that hold what the text spells, and
      the index its text ends at; a failed one returns null. */
  method ParseWithOpts(text: Text, requireEnd: bool) returns (c: Node?, end: nat, ghost s: Shape)
    requires !Parse(text, requireEnd).Malformed?
    ensures c == null <==> Parse(text, requireEnd).Failed?
    ensures c != null ==> end <= |text| && Parse(text, requireEnd).rest == text[end..]
    ensures c != null ==> RootOf(c, s, Parse(text, requireEnd).value)
    ensures c != null ==> fresh(c) && forall n | n in s.below :: fresh(n)
  {
    ParseSteps(text, requireEnd);
    var ok, root;
    ok, root, end, s := ReadRoot(text);
    if ok && requireEnd {
      end := ReadBlanks(text, end);
      ok := At(text, end) == NUL;
    }
    c := if ok then root else null;
  }
}
