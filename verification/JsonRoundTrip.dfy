/** Parsing undoes printing: every printable tree, either format, any depth, any context. */
module JsonRoundTrip {
  import opened Text
  import opened JsonTree
  import opened JsonParse
  import opened JsonStrings

  /** A value's text may be followed by anything that cannot continue a number. */
  predicate Delimited(rest: Text) {
    !IsDigit(Head(rest)) && Head(rest) != '.' && Head(rest) != 'e' && Head(rest) != 'E'
  }

  // ----- numbers -----

  lemma {:induction false} TakeDigitsOfDigits(n: nat, rest: Text)
    ensures TakeDigits(0, Digits(n) + rest) == TakeDigits(n, rest)
  {
    if n < 10 {
      assert (Digits(n) + rest)[1..] == rest;
    } else {
      var tail := [Digit(n % 10)] + rest;
      assert Digits(n) + rest == Digits(n / 10) + tail;
      TakeDigitsOfDigits(n / 10, tail);
      assert tail[1..] == rest;
    }
  }

  lemma ReadNatural(n: nat, rest: Text)
    requires Delimited(rest)
    ensures TakeInteger(Digits(n) + rest) == (n, rest)
  {
    var t := Digits(n) + rest;
    if n == 0 {
      assert t[1..] == rest;
    } else {
      TakeDigitsOfDigits(n, rest);
    }
  }

  lemma ReadInt(n: int, rest: Text)
    requires Delimited(rest)
    ensures ParseNumber(IntText(n) + rest) == (Decimal(n, 0), rest)
  {
    NumberEnds(n, rest);
    NumberEnds(-n, rest);
    if n < 0 {
      var t := IntText(n) + rest;
      assert t[0] == '-' && t[1..] == Digits(-n) + rest;
      ReadNatural(-n, rest);
    } else {
      ReadNatural(n, rest);
    }
  }

  lemma NumberEnds(n: int, rest: Text)
    requires Delimited(rest)
    ensures TakeFraction(n, rest) == (n, 0, rest) && TakeExponent(rest) == (0, rest)
  {
  }

  // ----- the first character of a value -----

  /** Not white space, and not the end of an empty array. */
  predicate OpensValue(c: char) {
    c > ' ' && c != ']'
  }

  lemma PrintOpens(v: Json, depth: nat, fmt: bool)
    ensures |Print(v, depth, fmt)| >= 1 && OpensValue(Print(v, depth, fmt)[0])
  {
  }

  lemma PrintItemsOpens(items: seq<Json>, depth: nat, fmt: bool)
    requires items != []
    ensures |PrintItems(items, depth, fmt)| >= 1 && OpensValue(PrintItems(items, depth, fmt)[0])
  {
    PrintOpens(items[0], depth, fmt);
  }

  // ----- the grammar's productions, with any white space between tokens -----

  lemma NotAWord(t: Text)
    requires Head(t) != 'n' && Head(t) != 'f' && Head(t) != 't'
    ensures !StartsWith(t, "null") && !StartsWith(t, "false") && !StartsWith(t, "true")
  {
    assert |t| >= 4 ==> t[..4][0] == t[0];
    assert |t| >= 5 ==> t[..5][0] == t[0];
  }

  lemma ReadArray(blanks: Text, body: Text, items: seq<Json>, rest: Text)
    requires AllBlank(blanks) && OpensValue(Head(body))
    requires ParseItems(body) == Parsed(items, rest)
    ensures ParseValue("[" + (blanks + body)) == Parsed(Array(items), rest)
  {
    var t := "[" + (blanks + body);
    assert t[0] == '[' && t[1..] == blanks + body;
    SkipBlanks(blanks, body);
    NotAWord(t);
  }

  lemma ReadEmptyArray(blanks: Text, rest: Text)
    requires AllBlank(blanks)
    ensures ParseValue("[" + (blanks + ("]" + rest))) == Parsed(Array([]), rest)
  {
    assert ("[" + (blanks + ("]" + rest)))[1..] == blanks + ("]" + rest);
    SkipBlanks(blanks, "]" + rest);
    assert ("]" + rest)[1..] == rest;
  }

  lemma ReadLastItem(t: Text, v: Json, blanks: Text, rest: Text)
    requires OpensValue(Head(t)) && AllBlank(blanks)
    requires ParseValue(t) == Parsed(v, blanks + ("]" + rest))
    ensures ParseItems(t) == Parsed([v], rest)
  {
    SkipBlanks(blanks, "]" + rest);
    assert ("]" + rest)[1..] == rest;
  }

  lemma ReadMoreItems(t: Text, v: Json, before: Text, after: Text, more: Text, vs: seq<Json>, rest: Text)
    requires OpensValue(Head(t)) && OpensValue(Head(more)) && AllBlank(before) && AllBlank(after)
    requires ParseValue(t) == Parsed(v, before + ("," + (after + more)))
    requires ParseItems(more) == Parsed(vs, rest)
    ensures ParseItems(t) == Parsed([v] + vs, rest)
  {
    SkipBlanks(before, "," + (after + more));
    assert ("," + (after + more))[1..] == after + more;
    SkipBlanks(after, more);
    assert ParseItems(after + more) == ParseItems(more);
  }

  lemma ReadObject(blanks: Text, body: Text, ms: seq<Field>, rest: Text)
    requires AllBlank(blanks) && Head(body) == '\"'
    requires ParseFields(body) == Parsed(ms, rest)
    ensures ParseValue("{" + (blanks + body)) == Parsed(Object(ms), rest)
  {
    var t := "{" + (blanks + body);
    assert t[0] == '{' && t[1..] == blanks + body;
    SkipBlanks(blanks, body);
    NotAWord(t);
  }

  lemma ReadEmptyObject(blanks: Text, rest: Text)
    requires AllBlank(blanks)
    ensures ParseValue("{" + (blanks + ("}" + rest))) == Parsed(Object([]), rest)
  {
    assert ("{" + (blanks + ("}" + rest)))[1..] == blanks + ("}" + rest);
    SkipBlanks(blanks, "}" + rest);
    assert ("}" + rest)[1..] == rest;
  }

  lemma ReadField(t: Text, name: Text, before: Text, after: Text, value: Text, v: Json, rest: Text)
    requires Head(t) == '\"' && OpensValue(Head(value)) && AllBlank(before) && AllBlank(after)
    requires ParseString(t) == Parsed(name, before + (":" + (after + value)))
    requires ParseValue(value) == Parsed(v, rest)
    ensures ParseField(t) == Parsed(Field(name, v), rest)
  {
    SkipBlanks(before, ":" + (after + value));
    assert (":" + (after + value))[1..] == after + value;
    SkipBlanks(after, value);
  }

  lemma ReadLastField(t: Text, m: Field, blanks: Text, rest: Text)
    requires AllBlank(blanks)
    requires ParseField(t) == Parsed(m, blanks + ("}" + rest))
    ensures ParseFields(t) == Parsed([m], rest)
  {
    SkipBlanks(blanks, "}" + rest);
    assert ("}" + rest)[1..] == rest;
  }

  lemma ReadMoreFields(t: Text, m: Field, before: Text, after: Text, more: Text, ms: seq<Field>, rest: Text)
    requires Head(more) == '\"' && AllBlank(before) && AllBlank(after)
    requires ParseField(t) == Parsed(m, before + ("," + (after + more)))
    requires ParseFields(more) == Parsed(ms, rest)
    ensures ParseFields(t) == Parsed([m] + ms, rest)
  {
    SkipBlanks(before, "," + (after + more));
    assert ("," + (after + more))[1..] == after + more;
    SkipBlanks(after, more);
    assert Skip(more) == more;
    assert ParseField(after + more) == ParseField(more);
    assert ParseFields(after + more) == ParseFields(more);
  }

  lemma ReadWord(word: Text, rest: Text)
    requires word in ["null", "false", "true"]
    ensures ParseValue(word + rest)
         == Parsed(if word == "null" then Null else if word == "false" then False else True, rest)
  {
    var t := word + rest;
    assert t[..|word|] == word && t[|word|..] == rest;
    assert word != "null" && |t| >= 4 ==> t[..4][0] != 'n';
    assert word == "true" && |t| >= 5 ==> t[..5][0] != 'f';
  }

  lemma ReadNumber(n: int, rest: Text)
    requires Delimited(rest)
    ensures ParseValue(IntText(n) + rest) == Parsed(Number(Decimal(n, 0)), rest)
  {
    ReadInt(n, rest);
    NotAWord(IntText(n) + rest);
  }

  lemma ReadString(s: Text, rest: Text)
    requires NulFree(s)
    ensures ParseValue(Quote(s) + rest) == Parsed(String(s), rest)
  {
    ParseQuote(s, rest);
    NotAWord(Quote(s) + rest);
  }

  // ----- printed text, cut at its first token -----

  lemma ArrayText(items: seq<Json>, depth: nat, fmt: bool, rest: Text)
    ensures Print(Array(items), depth, fmt) + rest
         == "[" + ("" + (PrintItems(items, depth + 1, fmt) + ("]" + rest)))
  {
  }

  lemma MoreItemsText(items: seq<Json>, depth: nat, fmt: bool, rest: Text)
    requires |items| > 1
    ensures PrintItems(items, depth, fmt) + rest
         == Print(items[0], depth, fmt) + ("" + ("," + (When(fmt, " ") + (PrintItems(items[1..], depth, fmt) + rest))))
  {
    var (a, b, c) := (Print(items[0], depth, fmt), When(fmt, " "), PrintItems(items[1..], depth, fmt));
    assert PrintItems(items, depth, fmt) == a + ("," + b) + c;
    assert a + ("," + b) + c + rest == a + ("" + ("," + (b + (c + rest))));
  }

  lemma EmptyObjectText(depth: nat, fmt: bool, blanks: Text, rest: Text)
    requires blanks == When(fmt, "\n" + Tabs(if depth == 0 then 0 else depth - 1))
    ensures Print(Object([]), depth, fmt) + rest == "{" + (blanks + ("}" + rest)) && AllBlank(blanks)
  {
  }

  /** An object's fields from the first name on, and what follows them. */
  function FieldsText(ms: seq<Field>, depth: nat, fmt: bool, rest: Text): Text
    requires ms != []
  {
    var value := Print(ms[0].value, depth, fmt) + AfterField(ms, depth, fmt, rest);
    Quote(ms[0].name) + ("" + (":" + (When(fmt, "\t") + value)))
  }

  function AfterField(ms: seq<Field>, depth: nat, fmt: bool, rest: Text): Text
    requires ms != []
  {
    FieldTail(|ms| == 1, fmt) + (PrintFields(ms[1..], depth, fmt) + rest)
  }

  lemma FieldsTextStarts(ms: seq<Field>, depth: nat, fmt: bool, rest: Text)
    requires ms != []
    ensures Head(FieldsText(ms, depth, fmt, rest)) == '\"'
  {
  }

  lemma FieldsStart(ms: seq<Field>, depth: nat, fmt: bool, rest: Text)
    requires ms != []
    ensures PrintFields(ms, depth, fmt) + rest == When(fmt, Tabs(depth)) + FieldsText(ms, depth, fmt, rest)
    ensures Head(FieldsText(ms, depth, fmt, rest)) == '\"'
  {
    var (a, b, c, d) := (When(fmt, Tabs(depth)), Quote(ms[0].name), When(fmt, "\t"), Print(ms[0].value, depth, fmt));
    var (e, f) := (FieldTail(|ms| == 1, fmt), PrintFields(ms[1..], depth, fmt));
    assert PrintFields(ms, depth, fmt) == a + b + ":" + c + d + e + f;
    Reassociate(a, b, c, d, e, f, rest);
  }

  lemma Reassociate(a: Text, b: Text, c: Text, d: Text, e: Text, f: Text, g: Text)
    ensures a + b + ":" + c + d + e + f + g == a + (b + ("" + (":" + (c + (d + (e + (f + g)))))))
  {
  }

  lemma ObjectText(ms: seq<Field>, depth: nat, fmt: bool, rest: Text)
    requires ms != []
    ensures Print(Object(ms), depth, fmt) + rest
         == "{" + (Indent(depth + 1, fmt) + FieldsText(ms, depth + 1, fmt, When(fmt, Tabs(depth)) + ("}" + rest)))
  {
    var (a, b, c) := (When(fmt, "\n"), PrintFields(ms, depth + 1, fmt), When(fmt, Tabs(depth)));
    var close := c + ("}" + rest);
    var (d, e) := (When(fmt, Tabs(depth + 1)), FieldsText(ms, depth + 1, fmt, close));
    assert Print(Object(ms), depth, fmt) == "{" + a + b + c + "}";
    FieldsStart(ms, depth + 1, fmt, close);
    OpenBrace("{", a, b, c, "}", rest, d, e);
  }

  lemma OpenBrace(o: Text, a: Text, b: Text, c: Text, p: Text, rest: Text, d: Text, e: Text)
    requires b + (c + (p + rest)) == d + e
    ensures o + a + b + c + p + rest == o + ((a + d) + e)
  {
    assert o + a + b + c + p + rest == o + a + (b + (c + (p + rest)));
  }

  /** The white space before a field. */
  function Indent(depth: nat, fmt: bool): (t: Text)
    ensures AllBlank(t)
  {
    When(fmt, "\n") + When(fmt, Tabs(depth))
  }

  lemma LastFieldText(ms: seq<Field>, depth: nat, fmt: bool, indent: Text, rest: Text)
    requires |ms| == 1
    ensures AfterField(ms, depth, fmt, indent + ("}" + rest)) == (When(fmt, "\n") + indent) + ("}" + rest)
  {
  }

  lemma MoreFieldsText(ms: seq<Field>, depth: nat, fmt: bool, rest: Text)
    requires |ms| > 1
    ensures AfterField(ms, depth, fmt, rest)
         == "" + ("," + (Indent(depth, fmt) + FieldsText(ms[1..], depth, fmt, rest)))
  {
    FieldsStart(ms[1..], depth, fmt, rest);
    var (a, b, c) := (When(fmt, "\n"), When(fmt, Tabs(depth)), FieldsText(ms[1..], depth, fmt, rest));
    var more := PrintFields(ms[1..], depth, fmt) + rest;
    assert AfterField(ms, depth, fmt, rest) == ("," + a) + more;
    Comma(a, b, c);
  }

  lemma Comma(a: Text, b: Text, c: Text)
    ensures ("," + a) + (b + c) == "" + ("," + ((a + b) + c))
  {
  }

  // ----- printed values -----

  lemma {:induction false} RoundTrip(v: Json, depth: nat, fmt: bool, rest: Text)
    requires Printable(v) && Delimited(rest)
    ensures ParseValue(Print(v, depth, fmt) + rest) == Parsed(v, rest)
    decreases v, 3
  {
    match v
    case Array(items) => RoundTripArray(items, depth, fmt, rest);
    case Object(ms) => RoundTripObject(ms, depth, fmt, rest);
    case _ => RoundTripScalar(v, depth, fmt, rest);
  }

  lemma RoundTripScalar(v: Json, depth: nat, fmt: bool, rest: Text)
    requires Printable(v) && Delimited(rest) && !v.Array? && !v.Object?
    ensures ParseValue(Print(v, depth, fmt) + rest) == Parsed(v, rest)
  {
    match v
    case Null => ReadWord("null", rest);
    case False => ReadWord("false", rest);
    case True => ReadWord("true", rest);
    case Number(n) => ReadNumber(n.digits, rest);
    case String(s) => ReadString(s, rest);
  }

  lemma RoundTripArray(items: seq<Json>, depth: nat, fmt: bool, rest: Text)
    requires PrintableItems(items)
    ensures ParseValue(Print(Array(items), depth, fmt) + rest) == Parsed(Array(items), rest)
    decreases items, 2
  {
    ArrayText(items, depth, fmt, rest);
    if items == [] {
      ReadEmptyArray("", rest);
      assert "" + ("]" + rest) == "]" + rest;
    } else {
      RoundTripItems(items, depth + 1, fmt, rest);
      PrintItemsOpens(items, depth + 1, fmt);
      ReadArray("", PrintItems(items, depth + 1, fmt) + ("]" + rest), items, rest);
    }
  }

  lemma RoundTripObject(ms: seq<Field>, depth: nat, fmt: bool, rest: Text)
    requires PrintableFields(ms)
    ensures ParseValue(Print(Object(ms), depth, fmt) + rest) == Parsed(Object(ms), rest)
    decreases ms, 2
  {
    if ms == [] {
      RoundTripEmptyObject(depth, fmt, rest);
    } else {
      var close := When(fmt, Tabs(depth)) + ("}" + rest);
      RoundTripFields(ms, depth + 1, fmt, When(fmt, Tabs(depth)), rest);
      FieldsStart(ms, depth + 1, fmt, close);
      ReadObject(Indent(depth + 1, fmt), FieldsText(ms, depth + 1, fmt, close), ms, rest);
      ObjectText(ms, depth, fmt, rest);
    }
  }

  lemma RoundTripEmptyObject(depth: nat, fmt: bool, rest: Text)
    ensures ParseValue(Print(Object([]), depth, fmt) + rest) == Parsed(Object([]), rest)
  {
    var blanks := When(fmt, "\n" + Tabs(if depth == 0 then 0 else depth - 1));
    EmptyObjectText(depth, fmt, blanks, rest);
    ReadEmptyObject(blanks, rest);
  }

  lemma {:induction false} RoundTripItems(items: seq<Json>, depth: nat, fmt: bool, rest: Text)
    requires items != [] && PrintableItems(items)
    ensures ParseItems(PrintItems(items, depth, fmt) + ("]" + rest)) == Parsed(items, rest)
    decreases items, 0
  {
    PrintOpens(items[0], depth, fmt);
    if |items| == 1 {
      RoundTrip(items[0], depth, fmt, "]" + rest);
      RoundTripLastItem(items[0], depth, fmt, rest);
      assert items == [items[0]];
    } else {
      RoundTrip(items[0], depth, fmt, AfterItem(items, depth, fmt, rest));
      RoundTripItems(items[1..], depth, fmt, rest);
      RoundTripMoreItems(items, depth, fmt, rest);
    }
  }

  /** What follows the first of several elements. */
  function AfterItem(items: seq<Json>, depth: nat, fmt: bool, rest: Text): (t: Text)
    requires items != []
    ensures t != "" && t[0] == ','
  {
    "" + ("," + (When(fmt, " ") + (PrintItems(items[1..], depth, fmt) + ("]" + rest))))
  }

  lemma RoundTripMoreItems(items: seq<Json>, depth: nat, fmt: bool, rest: Text)
    requires |items| > 1
    requires ParseValue(Print(items[0], depth, fmt) + AfterItem(items, depth, fmt, rest))
          == Parsed(items[0], AfterItem(items, depth, fmt, rest))
    requires ParseItems(PrintItems(items[1..], depth, fmt) + ("]" + rest)) == Parsed(items[1..], rest)
    ensures ParseItems(PrintItems(items, depth, fmt) + ("]" + rest)) == Parsed(items, rest)
  {
    var more := PrintItems(items[1..], depth, fmt) + ("]" + rest);
    var t := Print(items[0], depth, fmt) + AfterItem(items, depth, fmt, rest);
    PrintOpens(items[0], depth, fmt);
    PrintItemsOpens(items[1..], depth, fmt);
    MoreItemsText(items, depth, fmt, "]" + rest);
    ReadMoreItems(t, items[0], "", When(fmt, " "), more, items[1..], rest);
    assert [items[0]] + items[1..] == items;
  }

  lemma RoundTripLastItem(v: Json, depth: nat, fmt: bool, rest: Text)
    requires ParseValue(Print(v, depth, fmt) + ("]" + rest)) == Parsed(v, "]" + rest)
    ensures ParseItems(Print(v, depth, fmt) + ("]" + rest)) == Parsed([v], rest)
  {
    PrintOpens(v, depth, fmt);
    assert "" + ("]" + rest) == "]" + rest;
    ReadLastItem(Print(v, depth, fmt) + ("]" + rest), v, "", rest);
  }

  lemma RoundTripField(ms: seq<Field>, depth: nat, fmt: bool, rest: Text)
    requires ms != [] && PrintableFields(ms) && Delimited(AfterField(ms, depth, fmt, rest))
    ensures ParseField(FieldsText(ms, depth, fmt, rest)) == Parsed(ms[0], AfterField(ms, depth, fmt, rest))
    decreases ms, 0
  {
    var (m, after) := (ms[0], AfterField(ms, depth, fmt, rest));
    var value := Print(m.value, depth, fmt) + after;
    var colon := "" + (":" + (When(fmt, "\t") + value));
    RoundTrip(m.value, depth, fmt, after);
    PrintOpens(m.value, depth, fmt);
    ParseQuote(m.name, colon);
    ReadField(Quote(m.name) + colon, m.name, "", When(fmt, "\t"), value, m.value, after);
  }

  lemma {:induction false} RoundTripFields(ms: seq<Field>, depth: nat, fmt: bool, indent: Text, rest: Text)
    requires ms != [] && PrintableFields(ms) && AllBlank(indent)
    ensures ParseFields(FieldsText(ms, depth, fmt, indent + ("}" + rest))) == Parsed(ms, rest)
    decreases ms, 1
  {
    var close := indent + ("}" + rest);
    if |ms| == 1 {
      LastFieldText(ms, depth, fmt, indent, rest);
      RoundTripField(ms, depth, fmt, close);
      ReadLastField(FieldsText(ms, depth, fmt, close), ms[0], When(fmt, "\n") + indent, rest);
      assert ms == [ms[0]];
    } else {
      MoreFieldsText(ms, depth, fmt, close);
      RoundTripField(ms, depth, fmt, close);
      RoundTripFields(ms[1..], depth, fmt, indent, rest);
      FieldsTextStarts(ms[1..], depth, fmt, close);
      RoundTripMoreFields(ms, FieldsText(ms, depth, fmt, close), Indent(depth, fmt),
                          FieldsText(ms[1..], depth, fmt, close), rest);
    }
  }

  lemma RoundTripMoreFields(ms: seq<Field>, t: Text, indent: Text, more: Text, rest: Text)
    requires |ms| > 1 && AllBlank(indent) && Head(more) == '\"'
    requires ParseField(t) == Parsed(ms[0], "" + ("," + (indent + more))) && ParseFields(more) == Parsed(ms[1..], rest)
    ensures ParseFields(t) == Parsed(ms, rest)
  {
    ReadMoreFields(t, ms[0], "", indent, more, ms[1..], rest);
    assert [ms[0]] + ms[1..] == ms;
  }

  /** The text the library prints is read back whole, and nothing but it. */
  lemma ParseUndoesPrint(v: Json, fmt: bool, requireEnd: bool)
    requires Printable(v)
    ensures Parse(Print(v, 0, fmt), requireEnd) == Parsed(v, "")
  {
    PrintOpens(v, 0, fmt);
    RoundTrip(v, 0, fmt, "");
    assert Print(v, 0, fmt) + "" == Print(v, 0, fmt);
  }
}
