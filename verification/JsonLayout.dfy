/** The shape of printed text, said from the outside: what stands between the parts of an array or
    object, and how characters of a string are escaped. */
module JsonLayout {
  import opened Text
  import opened JsonTree
  import opened JsonTexts
  import opened JsonUnicode

  /** Parts with a text between each two. */
  function Joined(parts: seq<Text>, between: Text): Text {
    if parts == [] then ""
    else if |parts| == 1 then parts[0]
    else parts[0] + between + Joined(parts[1..], between)
  }

  function Printed(items: seq<Json>, depth: nat, fmt: bool): (parts: seq<Text>)
    ensures |parts| == |items|
    ensures forall i :: 0 <= i < |items| ==> parts[i] == Print(items[i], depth, fmt)
  {
    seq(|items|, i requires 0 <= i < |items| => Print(items[i], depth, fmt))
  }

  /** Elements stand between brackets, with a comma, and in formatted text a blank, between them. */
  lemma ArrayLayout(items: seq<Json>, depth: nat, fmt: bool)
    ensures Print(Array(items), depth, fmt)
         == "[" + Joined(Printed(items, depth + 1, fmt), if fmt then ", " else ",") + "]"
  {
    ItemsLayout(items, depth + 1, fmt);
  }

  lemma {:induction false} ItemsLayout(items: seq<Json>, depth: nat, fmt: bool)
    ensures PrintItems(items, depth, fmt) == Joined(Printed(items, depth, fmt), if fmt then ", " else ",")
  {
    if |items| > 1 {
      ItemsLayout(items[1..], depth, fmt);
      assert Printed(items, depth, fmt)[1..] == Printed(items[1..], depth, fmt);
    }
  }

  /** The line of a member in formatted text: as many tabs as it is deep, name, colon, tab, value. */
  function Line(m: Field, depth: nat): Text {
    Repeat('\t', depth) + Quote(m.name) + ":\t" + Print(m.value, depth, true)
  }

  function Lines(ms: seq<Field>, depth: nat): (parts: seq<Text>)
    ensures |parts| == |ms| && forall i :: 0 <= i < |ms| ==> parts[i] == Line(ms[i], depth)
  {
    seq(|ms|, i requires 0 <= i < |ms| => Line(ms[i], depth))
  }

  /** A formatted object has a line for each member, a comma at the end of each but the last, and
      its closing brace on a line of its own, as deep as the object. */
  lemma FormattedObject(ms: seq<Field>, depth: nat)
    requires ms != []
    ensures Print(Object(ms), depth, true)
         == "{\n" + Joined(Lines(ms, depth + 1), ",\n") + "\n" + Repeat('\t', depth) + "}"
  {
    LinesLayout(ms, depth + 1);
    ObjectText(ms, depth, true);
    var (lines, close) := (Joined(Lines(ms, depth + 1), ",\n"), Repeat('\t', depth));
    Braces(lines, close);
  }

  lemma Braces(lines: Text, close: Text)
    ensures "{" + "\n" + (lines + "\n") + close + "}" == "{\n" + lines + "\n" + close + "}"
  {
  }

  lemma {:induction false} LinesLayout(ms: seq<Field>, depth: nat)
    requires ms != []
    ensures PrintFields(ms, depth, true) == Joined(Lines(ms, depth), ",\n") + "\n"
  {
    var (head, value) := (FieldHead(ms[0].name, depth, true), Print(ms[0].value, depth, true));
    Heading(Repeat('\t', depth), Quote(ms[0].name), value);
    if |ms| == 1 {
      assert PrintFields(ms[1..], depth, true) == "";
      assert head + value + ("" + "\n") + "" == Line(ms[0], depth) + "\n";
    } else {
      LinesLayout(ms[1..], depth);
      assert Lines(ms, depth)[1..] == Lines(ms[1..], depth);
      NextLine(Line(ms[0], depth), Joined(Lines(ms[1..], depth), ",\n"));
    }
  }

  lemma Heading(tabs: Text, name: Text, value: Text)
    ensures tabs + name + ":" + "\t" + value == tabs + name + ":\t" + value
  {
  }

  lemma NextLine(line: Text, more: Text)
    ensures line + ("," + "\n") + (more + "\n") == line + ",\n" + more + "\n"
  {
  }

  function Members(ms: seq<Field>, depth: nat): (parts: seq<Text>)
    ensures |parts| == |ms|
    ensures forall i :: 0 <= i < |ms| ==> parts[i] == Quote(ms[i].name) + ":" + Print(ms[i].value, depth, false)
  {
    seq(|ms|, i requires 0 <= i < |ms| => Quote(ms[i].name) + ":" + Print(ms[i].value, depth, false))
  }

  /** Unformatted, nothing stands around names, colons, values and commas. */
  lemma PlainObject(ms: seq<Field>, depth: nat)
    ensures Print(Object(ms), depth, false) == "{" + Joined(Members(ms, depth + 1), ",") + "}"
  {
    if ms == [] {
      assert Joined(Members(ms, depth + 1), ",") == "";
      PlainBraces("");
    } else {
      MembersLayout(ms, depth + 1);
      ObjectText(ms, depth, false);
      PlainBraces(Joined(Members(ms, depth + 1), ","));
    }
  }

  lemma PlainBraces(body: Text)
    ensures "{" + "" + body + "" + "}" == "{" + body + "}" == "{" + (body + "}")
  {
  }

  lemma {:induction false} MembersLayout(ms: seq<Field>, depth: nat)
    ensures PrintFields(ms, depth, false) == Joined(Members(ms, depth), ",")
  {
    if ms != [] {
      var (name, value) := (Quote(ms[0].name), Print(ms[0].value, depth, false));
      PlainHeading(name, value);
      MembersLayout(ms[1..], depth);
      if |ms| == 1 {
        assert PrintFields(ms[1..], depth, false) == "";
        assert name + ":" + value + ("" + "") + "" == name + ":" + value;
      } else {
        assert Members(ms, depth)[1..] == Members(ms[1..], depth);
        NextMember(name + ":" + value, Joined(Members(ms[1..], depth), ","));
      }
    }
  }

  lemma PlainHeading(name: Text, value: Text)
    ensures "" + name + ":" + "" + value == name + ":" + value
  {
  }

  lemma NextMember(member: Text, more: Text)
    ensures member + ("," + "") + more == member + "," + more
  {
  }

  /** An object without members: in formatted text a new line, indented one level less than the
      object is deep. */
  lemma EmptyObject(depth: nat)
    ensures Print(Object([]), depth, false) == "{}"
    ensures depth == 0 ==> Print(Object([]), depth, true) == "{\n}"
    ensures depth > 0 ==> Print(Object([]), depth, true) == "{\n" + Repeat('\t', depth - 1) + "}"
  {
  }

  /** Characters with a letter of their own are escaped by it, other control characters by four
      digits in lower case, and no other character is escaped. */
  lemma EscapeIs(c: char)
    requires c != NUL
    ensures match c
            case '\"' => EscapeChar(c) == "\\\""
            case '\\' => EscapeChar(c) == "\\\\"
            case '\U{8}' => EscapeChar(c) == "\\b"
            case '\U{C}' => EscapeChar(c) == "\\f"
            case '\n' => EscapeChar(c) == "\\n"
            case '\r' => EscapeChar(c) == "\\r"
            case '\t' => EscapeChar(c) == "\\t"
            case _ =>
              if c as int >= 32 then EscapeChar(c) == [c]
              else exists hex :: Spells(hex, c as int) && LowerCase(hex) && EscapeChar(c) == "\\u" + hex
  {
    if |EscapeChar(c)| == 6 {
      ControlSpelled(c);
    }
  }

  predicate LowerCase(hex: Text) {
    forall d :: d in hex ==> !('A' <= d <= 'F')
  }

  lemma ControlSpelled(c: char)
    requires |EscapeChar(c)| == 6
    ensures var hex := EscapeChar(c)[2..];
            c as int < 32 && Spells(hex, c as int) && LowerCase(hex) && EscapeChar(c) == "\\u" + hex
  {
    var (e, n) := (EscapeChar(c), c as int);
    assert e[2..] == [e[2], e[3], e[4], e[5]] && e[..2] == "\\u";
    assert n / 4096 == 0 && n / 256 % 16 == 0 && n / 16 % 16 == n / 16;
  }
}
