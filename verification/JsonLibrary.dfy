/** What the parts of the JSON library are for, taken together: statements about calls that a
    client makes one after the other, on nodes and buffers. */
module JsonLibrary {
  import opened Text
  import opened Utf8
  import opened JsonTree
  import opened JsonNodes
  import opened JsonShapes
  import opened JsonParse
  import opened JsonRoundTrip
  import opened JsonMinify
  import opened JsonBuilder
  import opened JsonTexts
  import opened CStrings
  import JsonGrammar
  import JsonPrinter
  import JsonPrintBuffer
  import JsonDuplicate

  /** Printing a tree and parsing the text builds a new tree, of new nodes, of the same value. */
  method PrintAndParse(item: Node, fmt: bool, requireEnd: bool, ghost s: Shape, ghost v: Json)
      returns (c: Node?, ghost copy: Shape)
    requires s.node == item && Tree(s, v) && Printable(v)
    ensures c != null && RootOf(c, copy, v)
    ensures fresh(c) && forall n | n in copy.below :: fresh(n)
  {
    var out := JsonPrinter.PrintTree(item, fmt, s, v);
    ghost var t := Print(v, 0, fmt);
    PrintNulFree(v, 0, fmt);
    var length := StrLen(out, 0, t);
    var text := out[0..0 + length];
    assert text == t;
    ParseUndoesPrint(v, fmt, requireEnd);
    var end;
    c, end, copy := ParseWithOpts(text, requireEnd);
  }

  /** Parsing a text and printing what was parsed gives a text that parses to the same value, if
      the numbers are ints. */
  method ParseAndPrint(text: Text, requireEnd: bool, fmt: bool) returns (c: Node?, out: array<char>, ghost t: Text)
    requires !Parse(text, requireEnd).Malformed?
    requires Parse(text, requireEnd).Parsed? ==> JsonGrammar.IntNumbers(Parse(text, requireEnd).value)
    ensures c == null <==> Parse(text, requireEnd).Failed?
    ensures c != null ==>
      NulFree(t) && StringAt(out, 0, t) && Parse(t, true) == Parsed(Parse(text, requireEnd).value, "")
  {
    var end;
    ghost var s;
    c, end, s := ParseWithOpts(text, requireEnd);
    out, t := new char[0], "";
    if c != null {
      ghost var v := Parse(text, requireEnd).value;
      JsonGrammar.ParsePrintParse(text, requireEnd, fmt);
      out := JsonPrinter.PrintTree(c, fmt, s, v);
      t := Print(v, 0, fmt);
      PrintNulFree(v, 0, fmt);
    }
  }

  /** Both printers write the same terminated text, and the one that grows its buffer returns
      the index it starts at. */
  method PrintBothWays(item: Node, fmt: bool, prebuffer: nat, ghost s: Shape, ghost v: Json)
      returns (joined: array<char>, grown: array<char>, at: nat)
    requires s.node == item && Tree(s, v) && Printable(v)
    requires prebuffer >= 1 && JsonPrintBuffer.Fits("", Print(v, 0, fmt))
    ensures var t := Print(v, 0, fmt); NulFree(t) && StringAt(joined, 0, t) && StringAt(grown, at, t)
  {
    joined := JsonPrinter.PrintTree(item, fmt, s, v);
    var p;
    p, at := JsonPrintBuffer.PrintBuffered(item, prebuffer, fmt, s, v);
    grown := p.buffer;
    PrintNulFree(v, 0, fmt);
  }

  /** Minifying a formatted text in place leaves the unformatted text. */
  method PrintAndMinify(item: Node, ghost s: Shape, ghost v: Json) returns (json: array<char>)
    requires s.node == item && Tree(s, v) && Printable(v)
    ensures StringAt(json, 0, Print(v, 0, false))
  {
    json := JsonPrinter.PrintTree(item, true, s, v);
    ghost var t := Print(v, 0, true);
    MinifyFormatted(v);
    assert forall i | 0 <= i < |t| :: t[i] == json[0..0 + |t|][i];
    MinifyInPlace(json, t);
  }

  /** A deep copy prints like its original. */
  method CopyAndPrint(item: Node, fmt: bool, ghost s: Shape, ghost v: Json)
      returns (first: array<char>, second: array<char>)
    requires s.node == item && Tree(s, v) && Printable(v)
    ensures var t := Print(v, 0, fmt); NulFree(t) && StringAt(first, 0, t) && StringAt(second, 0, t)
  {
    var copy, shape := JsonDuplicate.Duplicate(item, true, s, v);
    first := JsonPrinter.PrintTree(item, fmt, s, v);
    second := JsonPrinter.PrintTree(copy, fmt, shape, v);
    PrintNulFree(v, 0, fmt);
  }
}
