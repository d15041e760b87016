/** The printer that grows one buffer: each method against the reference text. */
module JsonPrintBuffer {
  import opened Text
  import opened Utf8
  import opened JsonTree
  import opened JsonNodes
  import opened JsonLists
  import opened JsonShapes
  import opened JsonTexts
  import opened CStrings
  import opened JsonQuote
  import opened PowerOfTwo

  /** The longest text the growth by powers of two leaves room for in an int. */
  const MAX_LENGTH: nat := 0x4000_0000

  class PrintBuffer {
    var buffer: array<char>
    var length: nat
    var offset: nat

    constructor (prebuffer: nat)
      ensures fresh(buffer) && length == prebuffer && Open("")
    {
      buffer := new char[prebuffer];
      length, offset := prebuffer, 0;
    }

    /** The buffer is filled up to the offset with what is done. */
    ghost predicate Open(done: Text)
      reads this, buffer
    {
      length == buffer.Length && offset == |done| <= length && buffer[..offset] == done
    }

    /** Behind what was done the buffer holds a terminated text; the offset may have been left
        anywhere in it. */
    ghost predicate Holds(done: Text, t: Text)
      reads this, buffer
    {
      && length == buffer.Length
      && |done| <= offset <= |done| + |t| < length
      && buffer[..|done| + |t| + 1] == done + (t + [NUL])
    }

    /** Makes room behind the offset; all earlier bytes survive. */
    method Ensure(needed: nat, ghost done: Text)
      requires Open(done) && 1 <= offset + needed <= MAX_LENGTH
      modifies this`buffer, this`length
      ensures Open(done) && offset + needed <= length
      ensures buffer == old(buffer) || fresh(buffer)
      ensures length == if old(offset + needed <= length) then old(length) else Pow2Gt(offset + needed)
    {
      if offset + needed > length {
        var newsize := Pow2Gt(offset + needed);
        var k := LeastPower(offset + needed);
        var newbuffer := new char[newsize];
        MemCpy(newbuffer, buffer, length);
        assert newbuffer[..offset] == newbuffer[..length][..offset];
        buffer, length := newbuffer, newsize;
      }
    }

    /** Where the text behind the offset ends. */
    method Update(ghost done: Text, ghost t: Text)
      requires Holds(done, t) && NulFree(t)
      modifies this`offset
      ensures Open(done + t) && offset < length
    {
      ghost var all := done + (t + [NUL]);
      ghost var skipped := offset - |done|;
      assert buffer[offset..offset + |t| - skipped] == t[skipped..] by {
        assert buffer[offset..offset + |t| - skipped] == buffer[..|all|][offset..|all| - 1] == t[skipped..];
      }
      assert buffer[|all| - 1] == buffer[..|all|][|all| - 1] == NUL;
      var n := StrLen(buffer, offset, t[skipped..]);
      offset := offset + n;
      assert buffer[..offset] == buffer[..|all|][..offset] == done + t;
    }

    /** Makes room for characters and writes them, with a NUL behind if asked to. */
    method Append(t: Text, room: nat, terminate: bool, ghost done: Text)
      requires Open(done) && |t| + (if terminate then 1 else 0) <= room && 1 <= |done| + room <= MAX_LENGTH
      modifies this, buffer
      ensures buffer == old(buffer) || fresh(buffer)
      ensures Open(done + t) && (terminate ==> offset < length && buffer[offset] == NUL)
    {
      Ensure(room, done);
      Put(buffer, offset, t);
      if terminate {
        buffer[offset + |t|] := NUL;
      }
      offset := offset + |t|;
    }

    /** The same without moving the offset. */
    method Finish(t: Text, room: nat, ghost done: Text)
      requires Open(done) && |t| + 1 <= room && |done| + room <= MAX_LENGTH
      modifies this, buffer
      ensures buffer == old(buffer) || fresh(buffer)
      ensures offset == old(offset) && Holds(done, t)
    {
      Ensure(room, done);
      Put(buffer, offset, t);
      buffer[offset + |t|] := NUL;
      assert buffer[..|done| + |t| + 1] == done + t + [NUL] == done + (t + [NUL]);
    }
  }

  // ----- the buffered printer -----

  /** The text fits behind what is done, with the room the scratch buffers of numbers take. */
  predicate Fits(done: Text, t: Text) {
    |done| + |t| + 22 <= MAX_LENGTH
  }

  method PrintNumber(n: int, p: PrintBuffer, ghost done: Text)
    requires INT_MIN <= n <= INT_MAX && p.Open(done) && Fits(done, IntText(n))
    modifies p, p.buffer
    ensures p.buffer == old(p.buffer) || fresh(p.buffer)
    ensures p.offset == old(p.offset) && p.Holds(done, IntText(n))
  {
    IntTextLength(n);
    if n == 0 {
      p.Finish("0", 2, done);
    } else {
      p.Finish(IntText(n), 21, done);
    }
  }

  method PrintString(str: Text, p: PrintBuffer, ghost done: Text)
    requires NulFree(str) && p.Open(done) && Fits(done, Quote(str))
    modifies p, p.buffer
    ensures p.buffer == old(p.buffer) || fresh(p.buffer)
    ensures p.offset == old(p.offset) && p.Holds(done, Quote(str))
  {
    var flag := FindEscaped(str);
    var len := |str|;
    if flag {
      len := CountEscaped(str);
    } else {
      EscapeNothing(str);
    }
    p.Ensure(len + 3, done);
    PutQuoted(p.buffer, p.offset, str, flag);
  }

  /** The index a printing function returns. Nested calls ignore it, and for a formatted object
      that is not empty it is not where its text starts. */
  function Returned(v: Json, depth: nat, fmt: bool, done: Text): nat {
    if v.Object? && v.members != [] && fmt then depth else |done|
  }

  method PrintValue(item: Node, depth: nat, fmt: bool, p: PrintBuffer, ghost s: Shape, ghost v: Json, ghost done: Text)
      returns (out: nat)
    requires s.node == item && Tree(s, v) && Printable(v)
    requires p.Open(done) && Fits(done, Print(v, depth, fmt))
    modifies p, p.buffer
    ensures p.buffer == old(p.buffer) || fresh(p.buffer)
    ensures p.Holds(done, Print(v, depth, fmt)) && out == Returned(v, depth, fmt, done)
    decreases s, 4
  {
    out := p.offset;
    match item.kind
    case KNull => p.Finish("null", 5, done);
    case KFalse => p.Finish("false", 6, done);
    case KTrue => p.Finish("true", 5, done);
    case KNumber => PrintNumber(item.number.digits, p, done);
    case KString => PrintString(item.valuestring.value, p, done);
    case KArray => PrintArray(item, depth, fmt, p, s, v.items, done);
    case KObject => out := PrintObject(item, depth, fmt, p, s, v.members, done);
  }

  method PrintArray(item: Node, depth: nat, fmt: bool, p: PrintBuffer, ghost s: Shape, ghost items: seq<Json>,
                    ghost done: Text)
    requires s.node == item && Tree(s, Array(items)) && PrintableItems(items)
    requires p.Open(done) && Fits(done, Print(Array(items), depth, fmt))
    modifies p, p.buffer
    ensures p.buffer == old(p.buffer) || fresh(p.buffer)
    ensures p.Holds(done, Print(Array(items), depth, fmt))
    decreases s, 3
  {
    var numentries := GetArraySize(item, Roots(s.kids));
    ArrayDone(done, items, depth, fmt);
    if numentries == 0 {
      p.Finish("[]", 3, done);
    } else {
      ComposeArray(item.child, depth, fmt, p, s, items, done);
    }
  }

  lemma ArrayDone(done: Text, items: seq<Json>, depth: nat, fmt: bool)
    ensures var (body, t) := (PrintItems(items, depth + 1, fmt), Print(Array(items), depth, fmt));
            done + "[" + body + ("]" + [NUL]) == done + (t + [NUL]) && |t| == |body| + 2
            && (items == [] ==> t == "[]")
  {
    Enclosed(done, "[", PrintItems(items, depth + 1, fmt), "]");
  }

  lemma Enclosed(done: Text, open: Text, body: Text, close: Text)
    ensures done + open + body + (close + [NUL]) == done + (open + body + close + [NUL])
  {
  }

  /** Bracket, elements, bracket. */
  method ComposeArray(first: Node?, depth: nat, fmt: bool, p: PrintBuffer, ghost s: Shape, ghost items: seq<Json>,
                      ghost done: Text)
    requires Listing(first, s, items)
    requires p.Open(done) && Fits(done, "[" + PrintItems(items, depth + 1, fmt) + "]")
    modifies p, p.buffer
    ensures p.buffer == old(p.buffer) || fresh(p.buffer)
    ensures p.Holds(done + "[" + PrintItems(items, depth + 1, fmt), "]")
    decreases s, 2
  {
    p.Append("[", 1, false, done);
    PrintElements(first, depth + 1, fmt, p, s, items, done + "[");
    p.Finish("]", 2, done + "[" + PrintItems(items, depth + 1, fmt));
  }

  /** What separates an element from the next. */
  function Gap(items: seq<Json>, k: nat, fmt: bool): Text {
    When(k + 1 < |items|, Separator(fmt))
  }

  /** The buffer holds what was done and the elements before an index. */
  ghost predicate Through(p: PrintBuffer, items: seq<Json>, k: nat, depth: nat, fmt: bool, done: Text, sofar: Text)
    requires k <= |items|
    reads p, p.buffer
  {
    p.Open(sofar) && sofar + PrintItems(items[k..], depth, fmt) == done + PrintItems(items, depth, fmt)
  }

  lemma NextElement(sofar: Text, items: seq<Json>, k: nat, depth: nat, fmt: bool)
    requires k < |items|
    ensures var (t, gap, next) := (Print(items[k], depth, fmt), Gap(items, k, fmt),
            PrintItems(items[k + 1..], depth, fmt));
            sofar + t + gap + next == sofar + PrintItems(items[k..], depth, fmt)
  {
    ItemsFrom(items, k, depth, fmt);
    var (t, gap, next) := (Print(items[k], depth, fmt), Gap(items, k, fmt), PrintItems(items[k + 1..], depth, fmt));
    assert sofar + (t + gap + next) == sofar + t + gap + next;
  }

  lemma NoElementLeft(sofar: Text, items: seq<Json>, depth: nat, fmt: bool)
    ensures sofar + PrintItems(items[|items|..], depth, fmt) == sofar
    ensures items[0..] == items
  {
  }

  /** The trees below a node, from its first child on. */
  ghost predicate Listing(first: Node?, s: Shape, items: seq<Json>)
    reads s.below
  {
    Trees(s.kids, items, s.below) && Chain(first, Roots(s.kids)) && PrintableItems(items)
  }

  /** The loop over the elements. */
  method PrintElements(first: Node?, depth: nat, fmt: bool, p: PrintBuffer, ghost s: Shape, ghost items: seq<Json>,
                       ghost done: Text)
    requires Listing(first, s, items)
    requires p.Open(done) && Fits(done, PrintItems(items, depth, fmt))
    modifies p, p.buffer
    ensures p.buffer == old(p.buffer) || fresh(p.buffer)
    ensures p.Open(done + PrintItems(items, depth, fmt))
    decreases s, 1
  {
    var child := first;
    ghost var (k, sofar) := (0, done);
    NoElementLeft(done, items, depth, fmt);
    while child != null
      invariant k <= |items| && child == NodeAt(Roots(s.kids), k)
      invariant p.buffer == old(p.buffer) || fresh(p.buffer)
      invariant Through(p, items, k, depth, fmt, done, sofar)
      decreases |items| - k
    {
      sofar := PrintElement(first, child, depth, fmt, p, s, items, k, done, sofar);
      child, k := child.next, k + 1;
    }
    NoElementLeft(sofar, items, depth, fmt);
  }

  /** One turn of the loop. */
  method PrintElement(ghost first: Node?, child: Node, depth: nat, fmt: bool, p: PrintBuffer,
                      ghost s: Shape, ghost items: seq<Json>, ghost k: nat, ghost done: Text, ghost sofar: Text)
      returns (ghost sofar': Text)
    requires Listing(first, s, items) && k < |items| && child == Roots(s.kids)[k]
    requires Through(p, items, k, depth, fmt, done, sofar) && Fits(done, PrintItems(items, depth, fmt))
    modifies p, p.buffer
    ensures p.buffer == old(p.buffer) || fresh(p.buffer)
    ensures Through(p, items, k + 1, depth, fmt, done, sofar')
    ensures child.next == NodeAt(Roots(s.kids), k + 1)
    decreases s, 0
  {
    ghost var t := Print(items[k], depth, fmt);
    NextElement(sofar, items, k, depth, fmt);
    var _ := PrintValue(child, depth, fmt, p, s.kids[k], items[k], sofar);
    PrintNulFree(items[k], depth, fmt);
    p.Update(sofar, t);
    sofar' := sofar + t + Gap(items, k, fmt);
    if child.next != null {
      var len := if fmt then 2 else 1;
      p.Append(Separator(fmt), len + 1, true, sofar + t);
    } else {
      assert sofar + t + "" == sofar + t;
    }
  }

  method PrintObject(item: Node, depth: nat, fmt: bool, p: PrintBuffer, ghost s: Shape, ghost ms: seq<Field>,
                     ghost done: Text)
      returns (out: nat)
    requires s.node == item && Tree(s, Object(ms)) && PrintableFields(ms)
    requires p.Open(done) && Fits(done, Print(Object(ms), depth, fmt))
    modifies p, p.buffer
    ensures p.buffer == old(p.buffer) || fresh(p.buffer)
    ensures p.Holds(done, Print(Object(ms), depth, fmt)) && out == Returned(Object(ms), depth, fmt, done)
    decreases s, 3
  {
    var numentries := GetArraySize(item, Roots(s.kids));
    if numentries == 0 {
      var indent := When(fmt, "\n" + Tabs(if depth == 0 then 0 else depth - 1));
      out := p.offset;
      p.Finish("{" + indent + "}", if fmt then depth + 4 else 3, done);
    } else {
      ObjectDone(done, ms, depth, fmt);
      out := ComposeObject(item.child, depth, fmt, p, s, ms, done);
    }
  }

  /** An object's text before its closing indentation. */
  function ObjectOpen(ms: seq<Field>, depth: nat, fmt: bool): Text {
    OpenBrace(fmt) + PrintFields(ms, depth + 1, fmt)
  }

  function ObjectClose(depth: nat, fmt: bool): (t: Text)
    ensures |t| == if fmt then depth + 1 else 1
  {
    When(fmt, Tabs(depth)) + "}"
  }

  lemma ObjectDone(done: Text, ms: seq<Field>, depth: nat, fmt: bool)
    requires ms != []
    ensures var (open, close, t) := (ObjectOpen(ms, depth, fmt), ObjectClose(depth, fmt),
            Print(Object(ms), depth, fmt));
            done + open + (close + [NUL]) == done + (t + [NUL]) && open + close == t
  {
    ObjectText(ms, depth, fmt);
    var (open, close) := (ObjectOpen(ms, depth, fmt), ObjectClose(depth, fmt));
    assert open + When(fmt, Tabs(depth)) + "}" == open + close;
    Enclosed(done, open, "", close);
    assert done + open + "" == done + open && open + "" == open;
  }

  ghost predicate FieldListing(first: Node?, s: Shape, ms: seq<Field>)
    reads s.below
  {
    && Trees(s.kids, Children(Object(ms)), s.below) && Named(s.kids, ms)
    && Chain(first, Roots(s.kids)) && PrintableFields(ms)
    && forall i | 0 <= i < |s.kids| :: s.kids[i].node.name == Some(ms[i].name)
  }

  /** Brace, members, indentation and brace. The index this returns is not where the object
      starts: indenting the closing brace of formatted output overwrites it. */
  method ComposeObject(first: Node?, depth: nat, fmt: bool, p: PrintBuffer, ghost s: Shape, ghost ms: seq<Field>,
                       ghost done: Text)
      returns (out: nat)
    requires FieldListing(first, s, ms)
    requires p.Open(done) && Fits(done, ObjectOpen(ms, depth, fmt) + ObjectClose(depth, fmt))
    modifies p, p.buffer
    ensures p.buffer == old(p.buffer) || fresh(p.buffer)
    ensures p.Holds(done + ObjectOpen(ms, depth, fmt), ObjectClose(depth, fmt))
    ensures out == if fmt then depth else |done|
    decreases s, 2
  {
    out := p.offset;
    var len := if fmt then 2 else 1;
    p.Append(OpenBrace(fmt), len + 1, true, done);
    PrintMembers(first, depth + 1, fmt, p, s, ms, done + OpenBrace(fmt));
    OpenText(done, ms, depth, fmt);
    p.Finish(ObjectClose(depth, fmt), if fmt then depth + 2 else 2, done + ObjectOpen(ms, depth, fmt));
    if fmt {
      out := depth;
    }
  }

  function OpenBrace(fmt: bool): (t: Text)
    ensures |t| == if fmt then 2 else 1
  {
    "{" + When(fmt, "\n")
  }

  lemma OpenText(done: Text, ms: seq<Field>, depth: nat, fmt: bool)
    ensures done + OpenBrace(fmt) + PrintFields(ms, depth + 1, fmt) == done + ObjectOpen(ms, depth, fmt)
  {
  }

  lemma NoMemberLeft(sofar: Text, ms: seq<Field>, depth: nat, fmt: bool)
    ensures sofar + PrintFields(ms[|ms|..], depth, fmt) == sofar
    ensures ms[0..] == ms
  {
  }

  /** The buffer holds what was done and the members before an index. */
  ghost predicate ThroughFields(p: PrintBuffer, ms: seq<Field>, k: nat, depth: nat, fmt: bool, done: Text, sofar: Text)
    requires k <= |ms|
    reads p, p.buffer
  {
    p.Open(sofar) && sofar + PrintFields(ms[k..], depth, fmt) == done + PrintFields(ms, depth, fmt)
  }

  /** The loop over the members. */
  method PrintMembers(first: Node?, depth: nat, fmt: bool, p: PrintBuffer, ghost s: Shape, ghost ms: seq<Field>,
                      ghost done: Text)
    requires FieldListing(first, s, ms) && depth >= 1
    requires p.Open(done) && Fits(done, PrintFields(ms, depth, fmt))
    modifies p, p.buffer
    ensures p.buffer == old(p.buffer) || fresh(p.buffer)
    ensures p.Open(done + PrintFields(ms, depth, fmt))
    decreases s, 1
  {
    var child := first;
    ghost var (k, sofar) := (0, done);
    NoMemberLeft(done, ms, depth, fmt);
    while child != null
      invariant k <= |ms| && child == NodeAt(Roots(s.kids), k)
      invariant p.buffer == old(p.buffer) || fresh(p.buffer)
      invariant ThroughFields(p, ms, k, depth, fmt, done, sofar)
      decreases |ms| - k
    {
      sofar := PrintMember(first, child, depth, fmt, p, s, ms, k, done, sofar);
      child, k := child.next, k + 1;
    }
    NoMemberLeft(sofar, ms, depth, fmt);
  }

  lemma NextMember(sofar: Text, ms: seq<Field>, k: nat, depth: nat, fmt: bool)
    requires k < |ms|
    ensures var (head, t) := (FieldHead(ms[k].name, depth, fmt), Print(ms[k].value, depth, fmt));
            var (tail, next) := (FieldTail(k + 1 == |ms|, fmt), PrintFields(ms[k + 1..], depth, fmt));
            sofar + head + t + tail + next == sofar + PrintFields(ms[k..], depth, fmt)
  {
    FieldsFrom(ms, k, depth, fmt);
    var (head, t) := (FieldHead(ms[k].name, depth, fmt), Print(ms[k].value, depth, fmt));
    var (tail, next) := (FieldTail(k + 1 == |ms|, fmt), PrintFields(ms[k + 1..], depth, fmt));
    Flatten(sofar, head, t, tail, next);
  }

  lemma Flatten(sofar: Text, head: Text, t: Text, tail: Text, next: Text)
    ensures sofar + (head + t + tail + next) == sofar + head + t + tail + next
  {
  }

  /** One turn of the loop. */
  method PrintMember(ghost first: Node?, child: Node, depth: nat, fmt: bool, p: PrintBuffer,
                     ghost s: Shape, ghost ms: seq<Field>, ghost k: nat, ghost done: Text, ghost sofar: Text)
      returns (ghost sofar': Text)
    requires FieldListing(first, s, ms) && k < |ms| && child == Roots(s.kids)[k] && depth >= 1
    requires ThroughFields(p, ms, k, depth, fmt, done, sofar) && Fits(done, PrintFields(ms, depth, fmt))
    modifies p, p.buffer
    ensures p.buffer == old(p.buffer) || fresh(p.buffer)
    ensures ThroughFields(p, ms, k + 1, depth, fmt, done, sofar')
    ensures child.next == NodeAt(Roots(s.kids), k + 1)
    decreases s, 0
  {
    ghost var head := FieldHead(ms[k].name, depth, fmt);
    NextMember(sofar, ms, k, depth, fmt);
    PrintName(child.name.value, depth, fmt, p, sofar);
    PrintMemberValue(child, depth, fmt, p, s.kids[k], ms[k].value, sofar + head, k + 1 == |ms|);
    sofar' := sofar + head + Print(ms[k].value, depth, fmt) + FieldTail(k + 1 == |ms|, fmt);
  }

  /** The value of a member and what follows it. */
  method PrintMemberValue(child: Node, depth: nat, fmt: bool, p: PrintBuffer, ghost s: Shape, ghost v: Json,
                          ghost done: Text, ghost last: bool)
    requires s.node == child && Tree(s, v) && Printable(v) && (last <==> child.next == null)
    requires p.Open(done) && Fits(done, Print(v, depth, fmt) + FieldTail(last, fmt))
    modifies p, p.buffer
    ensures p.buffer == old(p.buffer) || fresh(p.buffer)
    ensures p.Open(done + Print(v, depth, fmt) + FieldTail(last, fmt))
    decreases s, 5
  {
    ghost var t := Print(v, depth, fmt);
    var _ := PrintValue(child, depth, fmt, p, s, v, done);
    PrintNulFree(v, depth, fmt);
    p.Update(done, t);
    var len := (if fmt then 1 else 0) + if child.next != null then 1 else 0;
    p.Append(FieldTail(child.next == null, fmt), len + 1, true, done + t);
  }

  /** Indentation, name and colon. */
  method PrintName(name: Text, depth: nat, fmt: bool, p: PrintBuffer, ghost done: Text)
    requires NulFree(name) && p.Open(done) && depth >= 1 && Fits(done, FieldHead(name, depth, fmt))
    modifies p, p.buffer
    ensures p.buffer == old(p.buffer) || fresh(p.buffer)
    ensures p.Open(done + FieldHead(name, depth, fmt))
  {
    ghost var (indent, q) := (When(fmt, Tabs(depth)), Quote(name));
    if fmt {
      p.Append(Tabs(depth), depth, false, done);
    }
    assert done + "" == done;
    PrintString(name, p, done + indent);
    QuoteNulFree(name);
    p.Update(done + indent, q);
    var len := if fmt then 2 else 1;
    p.Append(":" + When(fmt, "\t"), len, false, done + indent + q);
    HeadDone(done, name, depth, fmt);
  }

  lemma HeadDone(done: Text, name: Text, depth: nat, fmt: bool)
    ensures done + When(fmt, Tabs(depth)) + Quote(name) + (":" + When(fmt, "\t")) == done + FieldHead(name, depth, fmt)
  {
  }

  /** The exported entry point: the reference text stands at the start of the buffer, and the
      index returned is where it starts. */
  method PrintBuffered(item: Node, prebuffer: nat, fmt: bool, ghost s: Shape, ghost v: Json)
      returns (p: PrintBuffer, out: nat)
    requires s.node == item && Tree(s, v) && Printable(v)
    requires prebuffer >= 1 && Fits("", Print(v, 0, fmt))
    ensures fresh(p) && fresh(p.buffer) && out == 0
    ensures StringAt(p.buffer, out, Print(v, 0, fmt))
  {
    p := new PrintBuffer(prebuffer);
    out := PrintValue(item, 0, fmt, p, s, v, "");
    HeldString(p, Print(v, 0, fmt));
  }

  lemma HeldString(p: PrintBuffer, t: Text)
    requires p.Holds("", t)
    ensures StringAt(p.buffer, 0, t)
  {
    var b := p.buffer[..|t| + 1];
    assert "" + (t + [NUL]) == t + [NUL];
    assert b[..|t|] == t && b[|t|] == NUL;
    assert p.buffer[0..0 + |t|] == b[..|t|] && p.buffer[|t|] == b[|t|];
  }
}
