/** The printer that allocates every piece: sizes are summed first, then the pieces are joined
    into a buffer of that size. */
module JsonPrinter {
  import opened Text
  import opened Utf8
  import opened JsonTree
  import opened JsonNodes
  import opened JsonLists
  import opened JsonShapes
  import opened JsonTexts
  import opened CStrings
  import opened JsonQuote
  import P = JsonPrintBuffer

  // ----- sizes -----

  /** What an array's elements add to its size. */
  function ItemsSize(items: seq<Json>, depth: nat, fmt: bool): nat {
    if items == [] then 0
    else |Print(items[0], depth, fmt)| + 2 + (if fmt then 1 else 0) + ItemsSize(items[1..], depth, fmt)
  }

  lemma {:induction false} ItemsFit(items: seq<Json>, depth: nat, fmt: bool)
    ensures |PrintItems(items, depth, fmt)| <= ItemsSize(items, depth, fmt)
  {
    if items != [] {
      ItemsFit(items[1..], depth, fmt);
    }
  }

  /** The buffer sized for an array takes its text and NUL, whatever the depth, number of
      entries and mode. */
  lemma ArrayFits(items: seq<Json>, depth: nat, fmt: bool)
    ensures |Print(Array(items), depth, fmt)| + 1 <= 5 + ItemsSize(items, depth + 1, fmt)
  {
    ItemsFit(items, depth + 1, fmt);
  }

  function FieldsSize(ms: seq<Field>, depth: nat, fmt: bool): nat {
    if ms == [] then 0
    else
      |Print(ms[0].value, depth, fmt)| + |Quote(ms[0].name)| + 2 + (if fmt then 2 + depth else 0)
      + FieldsSize(ms[1..], depth, fmt)
  }

  lemma FieldsSizeFrom(ms: seq<Field>, k: nat, depth: nat, fmt: bool)
    requires k < |ms|
    ensures FieldsSize(ms[k..], depth, fmt)
         == |Print(ms[k].value, depth, fmt)| + |Quote(ms[k].name)| + 2 + (if fmt then 2 + depth else 0)
            + FieldsSize(ms[k + 1..], depth, fmt)
  {
    assert ms[k..][0] == ms[k] && ms[k..][1..] == ms[k + 1..];
  }

  lemma {:induction false} FieldsFit(ms: seq<Field>, depth: nat, fmt: bool)
    ensures |PrintFields(ms, depth, fmt)| <= FieldsSize(ms, depth, fmt)
  {
    if ms != [] {
      FieldsFit(ms[1..], depth, fmt);
    }
  }

  lemma ObjectFits(ms: seq<Field>, depth: nat, fmt: bool)
    requires ms != []
    ensures |Print(Object(ms), depth, fmt)| + 1
         <= 7 + (if fmt then depth + 1 else 0) + FieldsSize(ms, depth + 1, fmt)
  {
    FieldsFit(ms, depth + 1, fmt);
    ObjectText(ms, depth, fmt);
    var (open, body, close) := (When(fmt, "\n"), PrintFields(ms, depth + 1, fmt), When(fmt, Tabs(depth)));
    FiveLengths("{", open, body, close, "}");
  }

  lemma FiveLengths(a: Text, b: Text, c: Text, d: Text, e: Text)
    ensures |a + b + c + d + e| == |a| + |b| + |c| + |d| + |e|
  {
  }

  // ----- pieces -----

  /** An allocated copy of a text, in a buffer of a given size. */
  method Copy(t: Text, size: nat) returns (out: array<char>)
    requires |t| < size
    ensures fresh(out) && out.Length == size && StringAt(out, 0, t)
  {
    out := new char[size];
    Put(out, 0, t);
    out[|t|] := NUL;
    assert out[..0] + t == t;
  }

  method PrintString(str: Text) returns (out: array<char>)
    requires NulFree(str)
    ensures fresh(out) && out.Length == |Quote(str)| + 1 && StringAt(out, 0, Quote(str))
  {
    var flag := FindEscaped(str);
    var len := |str|;
    if flag {
      len := CountEscaped(str);
    } else {
      EscapeNothing(str);
    }
    out := new char[len + 3];
    PutQuoted(out, 0, str, flag);
    Terminated(out[..|Quote(str)| + 1], Quote(str));
    assert out[0..0 + |Quote(str)|] == out[..|Quote(str)| + 1][..|Quote(str)|];
  }

  lemma Terminated(t: Text, q: Text)
    requires t == [] + (q + [NUL])
    ensures |t| == |q| + 1 && t[..|q|] == q && t[|q|] == NUL
  {
  }

  method PrintNumber(n: int) returns (out: array<char>)
    requires INT_MIN <= n <= INT_MAX
    ensures fresh(out) && StringAt(out, 0, IntText(n))
  {
    IntTextLength(n);
    if n == 0 {
      out := Copy("0", 2);
    } else {
      out := Copy(IntText(n), 21);
    }
  }

  method PrintValue(item: Node, depth: nat, fmt: bool, ghost s: Shape, ghost v: Json) returns (out: array<char>)
    requires s.node == item && Tree(s, v) && Printable(v)
    ensures fresh(out) && StringAt(out, 0, Print(v, depth, fmt))
    decreases s, 4
  {
    match item.kind
    case KNull => out := Copy("null", 5);
    case KFalse => out := Copy("false", 6);
    case KTrue => out := Copy("true", 5);
    case KNumber => out := PrintNumber(item.number.digits);
    case KString => out := PrintString(item.valuestring.value);
    case KArray => out := PrintArray(item, depth, fmt, s, v.items);
    case KObject => out := PrintObject(item, depth, fmt, s, v.members);
  }

  // ----- arrays -----

  /** The printed elements before an index. */
  ghost predicate Entries(entries: seq<array<char>>, items: seq<Json>, depth: nat, fmt: bool)
    requires |entries| <= |items|
    reads entries
  {
    forall i | 0 <= i < |entries| :: StringAt(entries[i], 0, Print(items[i], depth, fmt))
  }

  method PrintArray(item: Node, depth: nat, fmt: bool, ghost s: Shape, ghost items: seq<Json>)
      returns (out: array<char>)
    requires s.node == item && Tree(s, Array(items)) && PrintableItems(items)
    ensures fresh(out) && StringAt(out, 0, Print(Array(items), depth, fmt))
    decreases s, 3
  {
    var numentries := GetArraySize(item, Roots(s.kids));
    if numentries == 0 {
      out := Copy("[]", 3);
    } else {
      out := JoinArray(item.child, depth, fmt, s, items);
    }
  }

  method JoinArray(first: Node?, depth: nat, fmt: bool, ghost s: Shape, ghost items: seq<Json>)
      returns (out: array<char>)
    requires P.Listing(first, s, items)
    ensures fresh(out) && StringAt(out, 0, Print(Array(items), depth, fmt))
    decreases s, 2
  {
    var entries, len := CollectItems(first, depth + 1, fmt, s, items);
    ArrayFits(items, depth, fmt);
    out := ComposeArray(entries, len, depth, fmt, items);
  }

  /** Prints every element and sums up the size. */
  method CollectItems(first: Node?, depth: nat, fmt: bool, ghost s: Shape, ghost items: seq<Json>)
      returns (entries: seq<array<char>>, len: nat)
    requires P.Listing(first, s, items)
    ensures |entries| == |items| && Entries(entries, items, depth, fmt) && len == 5 + ItemsSize(items, depth, fmt)
    decreases s, 1
  {
    var child := first;
    entries, len := [], 5;
    assert items[0..] == items;
    while child != null
      invariant Counted(entries, len, items, depth, fmt) && child == NodeAt(Roots(s.kids), |entries|)
      decreases |items| - |entries|
    {
      entries, len := CollectItem(first, child, depth, fmt, s, items, entries, len);
      child := child.next;
    }
    assert items[|entries|..] == [];
  }

  /** The elements before an index, and their size and that of those to come. */
  ghost predicate Counted(entries: seq<array<char>>, len: nat, items: seq<Json>, depth: nat, fmt: bool)
    reads entries
  {
    && |entries| <= |items| && Entries(entries, items, depth, fmt)
    && len + ItemsSize(items[|entries|..], depth, fmt) == 5 + ItemsSize(items, depth, fmt)
  }

  /** One turn of the loop. */
  method CollectItem(ghost first: Node?, child: Node, depth: nat, fmt: bool, ghost s: Shape, ghost items: seq<Json>,
                     entries: seq<array<char>>, len: nat)
      returns (entries': seq<array<char>>, len': nat)
    requires P.Listing(first, s, items) && |entries| < |items| && child == Roots(s.kids)[|entries|]
    requires Counted(entries, len, items, depth, fmt)
    ensures Counted(entries', len', items, depth, fmt) && |entries'| == |entries| + 1
    ensures child.next == NodeAt(Roots(s.kids), |entries'|)
    decreases s, 0
  {
    ghost var k := |entries|;
    ItemsSizeFrom(items, k, depth, fmt);
    var ret := PrintValue(child, depth, fmt, s.kids[k], items[k]);
    PrintNulFree(items[k], depth, fmt);
    var tmplen := StrLen(ret, 0, Print(items[k], depth, fmt));
    entries', len' := entries + [ret], len + tmplen + 2 + (if fmt then 1 else 0);
  }

  lemma ItemsSizeFrom(items: seq<Json>, k: nat, depth: nat, fmt: bool)
    requires k < |items|
    ensures ItemsSize(items[k..], depth, fmt)
         == |Print(items[k], depth, fmt)| + 2 + (if fmt then 1 else 0) + ItemsSize(items[k + 1..], depth, fmt)
  {
    assert items[k..][0] == items[k] && items[k..][1..] == items[k + 1..];
  }

  /** Joins the printed elements. */
  method ComposeArray(entries: seq<array<char>>, len: nat, depth: nat, fmt: bool, ghost items: seq<Json>)
      returns (out: array<char>)
    requires |entries| == |items| && Entries(entries, items, depth + 1, fmt) && PrintableItems(items)
    requires |Print(Array(items), depth, fmt)| < len
    ensures fresh(out) && StringAt(out, 0, Print(Array(items), depth, fmt))
  {
    out := new char[len];
    out[0], out[1] := '[', NUL;
    assert out[..1] == "[";
    var ptr := PutItems(out, 1, entries, depth + 1, fmt, items);
    PutEnd(out, ptr, "]");
  }

  method PutItems(out: array<char>, at: nat, entries: seq<array<char>>, depth: nat, fmt: bool, ghost items: seq<Json>)
      returns (ptr: nat)
    requires |entries| == |items| && Entries(entries, items, depth, fmt) && PrintableItems(items) && out !in entries
    requires at + |PrintItems(items, depth, fmt)| < out.Length
    modifies out
    ensures ptr == at + |PrintItems(items, depth, fmt)|
    ensures out[..ptr] == old(out[..at]) + PrintItems(items, depth, fmt)
  {
    ptr := at;
    ghost var before := out[..at];
    ghost var (sofar, all) := (before, before + PrintItems(items, depth, fmt));
    P.NoElementLeft(before, items, depth, fmt);
    for i := 0 to |entries|
      invariant ptr == |sofar| && |sofar| <= |all| && out[..ptr] == sofar
      invariant sofar + PrintItems(items[i..], depth, fmt) == all
    {
      P.NextElement(sofar, items, i, depth, fmt);
      ghost var t := Print(items[i], depth, fmt);
      ptr := JoinItem(out, ptr, entries[i], i + 1 < |entries|, fmt, t, items[i], depth);
      sofar := sofar + t + P.Gap(items, i, fmt);
    }
    P.NoElementLeft(sofar, items, depth, fmt);
  }

  /** Copies an element and what separates it from the next. */
  method JoinItem(out: array<char>, at: nat, entry: array<char>, more: bool, fmt: bool, ghost t: Text,
                  ghost v: Json, ghost depth: nat)
      returns (ptr: nat)
    requires out != entry && StringAt(entry, 0, t) && t == Print(v, depth, fmt) && Printable(v)
    requires at + |t + When(more, Separator(fmt))| < out.Length
    modifies out
    ensures ptr == at + |t + When(more, Separator(fmt))|
    ensures out[..ptr] == old(out[..at]) + t + When(more, Separator(fmt))
  {
    PrintNulFree(v, depth, fmt);
    ptr := PutString(out, at, entry, t);
    if more {
      Put(out, ptr, Separator(fmt));
      ptr := ptr + if fmt then 2 else 1;
      out[ptr] := NUL;
    } else {
      assert old(out[..at]) + t + "" == old(out[..at]) + t;
    }
  }

  // ----- objects -----

  method PrintObject(item: Node, depth: nat, fmt: bool, ghost s: Shape, ghost ms: seq<Field>) returns (out: array<char>)
    requires s.node == item && Tree(s, Object(ms)) && PrintableFields(ms)
    ensures fresh(out) && StringAt(out, 0, Print(Object(ms), depth, fmt))
    decreases s, 3
  {
    var numentries := GetArraySize(item, Roots(s.kids));
    if numentries == 0 {
      var indent := When(fmt, "\n" + Tabs(if depth == 0 then 0 else depth - 1));
      out := Copy("{" + indent + "}", if fmt then depth + 4 else 3);
    } else {
      out := JoinObject(item.child, depth, fmt, s, ms);
    }
  }

  method JoinObject(first: Node?, depth: nat, fmt: bool, ghost s: Shape, ghost ms: seq<Field>)
      returns (out: array<char>)
    requires P.FieldListing(first, s, ms) && ms != []
    ensures fresh(out) && StringAt(out, 0, Print(Object(ms), depth, fmt))
    decreases s, 2
  {
    var names, entries, len := CollectFields(first, depth + 1, fmt, s, ms);
    ObjectFits(ms, depth, fmt);
    P.ObjectDone("", ms, depth, fmt);
    out := ComposeObject(names, entries, len, depth, fmt, ms);
  }

  ghost predicate Names(names: seq<array<char>>, ms: seq<Field>)
    requires |names| <= |ms|
    reads names
  {
    forall i | 0 <= i < |names| :: StringAt(names[i], 0, Quote(ms[i].name))
  }

  ghost predicate Values(entries: seq<array<char>>, ms: seq<Field>, depth: nat, fmt: bool)
    requires |entries| <= |ms|
    reads entries
  {
    forall i | 0 <= i < |entries| :: StringAt(entries[i], 0, Print(ms[i].value, depth, fmt))
  }

  /** The pieces of the members before an index, and their size and that of those to come. */
  ghost predicate Collected(names: seq<array<char>>, entries: seq<array<char>>, len: nat,
                            ms: seq<Field>, depth: nat, fmt: bool)
    reads names, entries
  {
    && |names| == |entries| <= |ms| && Names(names, ms) && Values(entries, ms, depth, fmt)
    && len + FieldsSize(ms[|entries|..], depth, fmt) == 7 + (if fmt then depth else 0) + FieldsSize(ms, depth, fmt)
  }

  /** Prints every name and value and sums up the size. */
  method CollectFields(first: Node?, depth: nat, fmt: bool, ghost s: Shape, ghost ms: seq<Field>)
      returns (names: seq<array<char>>, entries: seq<array<char>>, len: nat)
    requires P.FieldListing(first, s, ms)
    ensures |names| == |entries| == |ms| && Names(names, ms) && Values(entries, ms, depth, fmt)
    ensures len == 7 + (if fmt then depth else 0) + FieldsSize(ms, depth, fmt)
    decreases s, 1
  {
    var child := first;
    names, entries, len := [], [], 7;
    if fmt {
      len := len + depth;
    }
    assert ms[0..] == ms;
    while child != null
      invariant Collected(names, entries, len, ms, depth, fmt) && child == NodeAt(Roots(s.kids), |entries|)
      decreases |ms| - |entries|
    {
      names, entries, len := CollectMember(first, child, depth, fmt, s, ms, names, entries, len);
      child := child.next;
    }
    assert ms[|entries|..] == [];
  }

  /** One turn of the loop. */
  method CollectMember(ghost first: Node?, child: Node, depth: nat, fmt: bool, ghost s: Shape, ghost ms: seq<Field>,
                       names: seq<array<char>>, entries: seq<array<char>>, len: nat)
      returns (names': seq<array<char>>, entries': seq<array<char>>, len': nat)
    requires P.FieldListing(first, s, ms) && |entries| < |ms| && child == Roots(s.kids)[|entries|]
    requires Collected(names, entries, len, ms, depth, fmt)
    ensures Collected(names', entries', len', ms, depth, fmt) && |entries'| == |entries| + 1
    ensures child.next == NodeAt(Roots(s.kids), |entries'|)
    decreases s, 0
  {
    ghost var k := |entries|;
    var str, ret, size := PrintMember(child, depth, fmt, s.kids[k], ms[k]);
    names', entries', len' := names + [str], entries + [ret], len + size;
    CollectedNext(names, entries, len, ms, depth, fmt, str, ret, size);
  }

  lemma CollectedNext(names: seq<array<char>>, entries: seq<array<char>>, len: nat,
                      ms: seq<Field>, depth: nat, fmt: bool,
                      str: array<char>, ret: array<char>, size: nat)
    requires Collected(names, entries, len, ms, depth, fmt) && |entries| < |ms|
    requires var m := ms[|entries|];
             StringAt(str, 0, Quote(m.name)) && StringAt(ret, 0, Print(m.value, depth, fmt))
             && size == |Print(m.value, depth, fmt)| + |Quote(m.name)| + 2 + (if fmt then 2 + depth else 0)
    ensures Collected(names + [str], entries + [ret], len + size, ms, depth, fmt)
  {
    var k := |entries|;
    FieldsSizeFrom(ms, k, depth, fmt);
    assert |entries + [ret]| == k + 1 && |names + [str]| == k + 1;
    PieceNext(names, entries, ms, depth, fmt, str, ret);
  }

  lemma PieceNext(names: seq<array<char>>, entries: seq<array<char>>, ms: seq<Field>, depth: nat, fmt: bool,
                  str: array<char>, ret: array<char>)
    requires |names| == |entries| < |ms| && Names(names, ms) && Values(entries, ms, depth, fmt)
    requires StringAt(str, 0, Quote(ms[|entries|].name)) && StringAt(ret, 0, Print(ms[|entries|].value, depth, fmt))
    ensures Names(names + [str], ms) && Values(entries + [ret], ms, depth, fmt)
  {
  }

  /** A member's two pieces, and what they add to the size. */
  method PrintMember(child: Node, depth: nat, fmt: bool, ghost s: Shape, ghost m: Field)
      returns (str: array<char>, ret: array<char>, size: nat)
    requires s.node == child && Tree(s, m.value) && Printable(m.value)
    requires NulFree(m.name) && child.name == Some(m.name)
    ensures fresh(str) && fresh(ret)
    ensures StringAt(str, 0, Quote(m.name)) && StringAt(ret, 0, Print(m.value, depth, fmt))
    ensures size == |Print(m.value, depth, fmt)| + |Quote(m.name)| + 2 + (if fmt then 2 + depth else 0)
    decreases s, 5
  {
    str := PrintString(child.name.value);
    ret := PrintValue(child, depth, fmt, s, m.value);
    PrintNulFree(m.value, depth, fmt);
    QuoteNulFree(m.name);
    var length := StrLen(ret, 0, Print(m.value, depth, fmt));
    var nameLength := StrLen(str, 0, Quote(m.name));
    size := length + nameLength + 2 + (if fmt then 2 + depth else 0);
  }

  /** Joins the printed names and values. */
  method ComposeObject(names: seq<array<char>>, entries: seq<array<char>>, len: nat, depth: nat, fmt: bool,
                       ghost ms: seq<Field>)
      returns (out: array<char>)
    requires |names| == |entries| == |ms| && Names(names, ms) && Values(entries, ms, depth + 1, fmt)
    requires PrintableFields(ms) && |P.ObjectOpen(ms, depth, fmt) + P.ObjectClose(depth, fmt)| < len
    ensures fresh(out) && StringAt(out, 0, P.ObjectOpen(ms, depth, fmt) + P.ObjectClose(depth, fmt))
  {
    var ptr;
    out, ptr := StartObject(len, fmt);
    ptr := PutMembers(out, ptr, names, entries, depth + 1, fmt, ms);
    assert out[..ptr] == P.ObjectOpen(ms, depth, fmt);
    PutEnd(out, ptr, P.ObjectClose(depth, fmt));
  }

  method StartObject(len: nat, fmt: bool) returns (out: array<char>, ptr: nat)
    requires len > |P.OpenBrace(fmt)|
    ensures fresh(out) && out.Length == len && ptr == |P.OpenBrace(fmt)| && out[..ptr] == P.OpenBrace(fmt)
  {
    out := new char[len];
    Put(out, 0, P.OpenBrace(fmt));
    ptr := if fmt then 2 else 1;
    out[ptr] := NUL;
  }

  /** Writes the end of a text and its NUL. */
  method PutEnd(out: array<char>, at: nat, t: Text)
    requires at + |t| < out.Length
    modifies out
    ensures StringAt(out, 0, old(out[..at]) + t)
  {
    Put(out, at, t);
    out[at + |t|] := NUL;
  }

  method PutMembers(out: array<char>, at: nat, names: seq<array<char>>, entries: seq<array<char>>,
                    depth: nat, fmt: bool,
                    ghost ms: seq<Field>)
      returns (ptr: nat)
    requires |names| == |entries| == |ms| && Names(names, ms) && Values(entries, ms, depth, fmt) && PrintableFields(ms)
    requires out !in names && out !in entries && at + |PrintFields(ms, depth, fmt)| < out.Length
    modifies out
    ensures ptr == at + |PrintFields(ms, depth, fmt)|
    ensures out[..ptr] == old(out[..at]) + PrintFields(ms, depth, fmt)
  {
    ptr := at;
    ghost var before := out[..at];
    ghost var (sofar, all) := (before, before + PrintFields(ms, depth, fmt));
    P.NoMemberLeft(before, ms, depth, fmt);
    for i := 0 to |entries|
      invariant ptr == |sofar| && |sofar| <= |all| && out[..ptr] == sofar
      invariant sofar + PrintFields(ms[i..], depth, fmt) == all
    {
      P.NextMember(sofar, ms, i, depth, fmt);
      ptr := JoinMember(out, ptr, names[i], entries[i], i + 1 == |entries|, depth, fmt, ms[i]);
      sofar := sofar + FieldHead(ms[i].name, depth, fmt) + Print(ms[i].value, depth, fmt)
        + FieldTail(i + 1 == |ms|, fmt);
    }
    P.NoMemberLeft(sofar, ms, depth, fmt);
  }

  /** Copies a name and a value with what stands around them. */
  method JoinMember(out: array<char>, at: nat, name: array<char>, entry: array<char>, last: bool, depth: nat, fmt: bool,
                    ghost m: Field)
      returns (ptr: nat)
    requires out != name && out != entry && NulFree(m.name) && Printable(m.value)
    requires StringAt(name, 0, Quote(m.name)) && StringAt(entry, 0, Print(m.value, depth, fmt))
    requires at + |FieldHead(m.name, depth, fmt)| + |Print(m.value, depth, fmt)| + |FieldTail(last, fmt)| < out.Length
    modifies out
    ensures ptr == at + |FieldHead(m.name, depth, fmt)| + |Print(m.value, depth, fmt)| + |FieldTail(last, fmt)|
    ensures out[..ptr]
         == old(out[..at]) + FieldHead(m.name, depth, fmt) + Print(m.value, depth, fmt) + FieldTail(last, fmt)
  {
    PrintNulFree(m.value, depth, fmt);
    ptr := JoinName(out, at, name, depth, fmt, m.name);
    ptr := PutString(out, ptr, entry, Print(m.value, depth, fmt));
    Put(out, ptr, FieldTail(last, fmt));
    ptr := ptr + (if last then 0 else 1) + if fmt then 1 else 0;
    out[ptr] := NUL;
  }

  function Colon(fmt: bool): (t: Text)
    ensures |t| == if fmt then 2 else 1
  {
    ":" + When(fmt, "\t")
  }

  method JoinName(out: array<char>, at: nat, name: array<char>, depth: nat, fmt: bool, ghost str: Text)
      returns (ptr: nat)
    requires out != name && NulFree(str) && StringAt(name, 0, Quote(str))
    requires at + |FieldHead(str, depth, fmt)| < out.Length
    modifies out
    ensures ptr == at + |FieldHead(str, depth, fmt)| && out[..ptr] == old(out[..at]) + FieldHead(str, depth, fmt)
  {
    QuoteNulFree(str);
    ptr := at;
    if fmt {
      Put(out, ptr, Tabs(depth));
      ptr := ptr + depth;
    }
    assert out[..ptr] == old(out[..at]) + When(fmt, Tabs(depth));
    ptr := PutString(out, ptr, name, Quote(str));
    Put(out, ptr, Colon(fmt));
    ptr := ptr + if fmt then 2 else 1;
    P.HeadDone(old(out[..at]), str, depth, fmt);
  }

  /** cJSON_Print and cJSON_PrintUnformatted. */
  method PrintTree(item: Node, fmt: bool, ghost s: Shape, ghost v: Json) returns (out: array<char>)
    requires s.node == item && Tree(s, v) && Printable(v)
    ensures fresh(out) && StringAt(out, 0, Print(v, 0, fmt))
  {
    out := PrintValue(item, 0, fmt, s, v);
  }
}
