/** The grammar of RFC 8259, and that the parser gives every document it derives its meaning. */
module JsonGrammar {
  import opened Text
  import opened Utf8
  import opened JsonTree
  import opened JsonParse
  import opened JsonStrings
  import opened JsonRoundTrip

  // ----- numbers, section 6 -----

  function DigitValue(c: char): int {
    c as int - '0' as int
  }

  /** The number a string of digits stands for. */
  function Value(digits: Text): int {
    if digits == "" then 0 else 10 * Value(digits[..|digits| - 1]) + DigitValue(digits[|digits| - 1])
  }

  /** It is the one whose decimal digits they are. */
  lemma {:induction false} ValueOfDigits(n: nat)
    ensures Value(Digits(n)) == n
  {
    if n >= 10 {
      ValueOfDigits(n / 10);
      assert Digits(n)[..|Digits(n)| - 1] == Digits(n / 10);
    } else {
      assert Digits(n)[..0] == "" && Value("") == 0;
    }
  }

  predicate AllDigits(t: Text) {
    forall i :: 0 <= i < |t| ==> IsDigit(t[i])
  }

  datatype Exponent = Exponent(letter: char, sign: Text, digits: Text)

  datatype Numeral = Numeral(minus: bool, whole: Text, fraction: Option<Text>, exponent: Option<Exponent>)
  {
    predicate Valid() {
      && AllDigits(whole) && (whole == "0" || (whole != "" && whole[0] != '0'))
      && (fraction.Some? ==> fraction.value != "" && AllDigits(fraction.value))
      && (exponent.Some? ==>
            var Exponent(letter, sign, digits) := exponent.value;
            letter in "eE" && sign in ["", "+", "-"] && digits != "" && AllDigits(digits))
    }

    function Fraction(): Text {
      if fraction.None? then "" else fraction.value
    }

    function ExponentText(): Text {
      if exponent.None? then "" else [exponent.value.letter] + exponent.value.sign + exponent.value.digits
    }

    function ExponentValue(): int {
      if exponent.None? then 0
      else if exponent.value.sign == "-" then -Value(exponent.value.digits)
      else Value(exponent.value.digits)
    }

    function FractionText(): Text {
      if fraction.None? then "" else "." + fraction.value
    }

    function Unsigned(rest: Text): Text {
      whole + (FractionText() + (ExponentText() + rest))
    }

    /** The numeral in front of a text. */
    function Before(rest: Text): Text {
      if minus then "-" + Unsigned(rest) else Unsigned(rest)
    }

    /** digits * 10^exponent, the point moved behind the last digit */
    function Magnitude(): Decimal {
      Decimal(Value(whole + Fraction()), ExponentValue() - |Fraction()|)
    }

    function Meaning(): Decimal {
      if minus then Decimal(-Magnitude().digits, Magnitude().exp10) else Magnitude()
    }
  }

  lemma {:induction false} DigitsRead(sofar: Text, digits: Text, rest: Text)
    requires AllDigits(digits) && !IsDigit(Head(rest))
    ensures TakeDigits(Value(sofar), digits + rest) == (Value(sofar + digits), rest)
    decreases |digits|
  {
    if digits == "" {
      assert digits + rest == rest && sofar + digits == sofar;
    } else {
      var (t, next) := (digits + rest, sofar + [digits[0]]);
      assert t[0] == digits[0] && t[1..] == digits[1..] + rest;
      assert next[..|next| - 1] == sofar;
      DigitsRead(next, digits[1..], rest);
      assert next + digits[1..] == sofar + digits;
    }
  }

  lemma IntegerRead(whole: Text, rest: Text)
    requires AllDigits(whole) && (whole == "0" || (whole != "" && whole[0] != '0')) && !IsDigit(Head(rest))
    ensures TakeInteger(whole + rest) == (Value(whole), rest) && IsDigit(Head(whole + rest))
  {
    if whole == "0" {
      assert (whole + rest)[1..] == rest;
      assert whole[..0] == "" && Value("") == 0;
    } else {
      assert (whole + rest)[0] == whole[0];
      AllDigitsRead(whole, rest);
    }
  }

  lemma FractionRead(whole: Text, fraction: Text, rest: Text)
    requires fraction != "" && AllDigits(fraction) && !IsDigit(Head(rest))
    ensures TakeFraction(Value(whole), "." + fraction + rest) == (Value(whole + fraction), -|fraction|, rest)
  {
    var t := "." + fraction + rest;
    assert t[0] == '.' && t[1..] == fraction + rest;
    assert (fraction + rest)[0] == fraction[0];
    DigitsRead(whole, fraction, rest);
  }

  lemma ExponentRead(e: Exponent, rest: Text)
    requires e.letter in "eE" && e.sign in ["", "+", "-"] && e.digits != ""
             && AllDigits(e.digits) && !IsDigit(Head(rest))
    ensures TakeExponent([e.letter] + e.sign + e.digits + rest)
         == (if e.sign == "-" then -Value(e.digits) else Value(e.digits), rest)
  {
    AllDigitsRead(e.digits, rest);
    SignTaken(e.letter, e.sign, e.digits + rest);
    Regroup([e.letter] + e.sign, e.digits, rest);
  }

  lemma AllDigitsRead(digits: Text, rest: Text)
    requires digits != "" && AllDigits(digits) && !IsDigit(Head(rest))
    ensures TakeDigits(0, digits + rest) == (Value(digits), rest) && IsDigit(Head(digits + rest))
  {
    DigitsRead("", digits, rest);
    assert "" + digits == digits && (digits + rest)[0] == digits[0];
  }

  lemma SignTaken(letter: char, sign: Text, body: Text)
    requires letter in "eE" && sign in ["", "+", "-"] && IsDigit(Head(body))
    ensures var (n, rest) := TakeDigits(0, body);
            TakeExponent([letter] + sign + body) == (if sign == "-" then -n else n, rest)
  {
    var t := [letter] + sign + body;
    assert t[0] == letter && t[1..] == sign + body;
    if sign == "" {
      assert sign + body == body;
    } else {
      assert (sign + body)[0] == sign[0] && (sign + body)[1..] == body && t[2..] == body;
    }
  }

  lemma PartsRead(t: Text, whole: int, t1: Text, digits: int, scale: int, t2: Text, exponent: int, rest: Text)
    requires IsDigit(Head(t)) && TakeInteger(t) == (whole, t1)
    requires TakeFraction(whole, t1) == (digits, scale, t2) && TakeExponent(t2) == (exponent, rest)
    ensures ParseNumber(t) == (Decimal(digits, scale + exponent), rest)
  {
  }

  lemma ExponentPartRead(n: Numeral, rest: Text)
    requires n.Valid() && Delimited(rest)
    ensures var t := n.ExponentText() + rest;
            !IsDigit(Head(t)) && Head(t) != '.' && TakeExponent(t) == (n.ExponentValue(), rest)
  {
    var t := n.ExponentText() + rest;
    if n.exponent.Some? {
      ExponentRead(n.exponent.value, rest);
      assert t[0] == n.exponent.value.letter;
    } else {
      assert t == rest;
    }
  }

  lemma FractionPartRead(n: Numeral, tail: Text)
    requires n.Valid() && !IsDigit(Head(tail)) && Head(tail) != '.'
    ensures !IsDigit(Head(n.FractionText() + tail))
    ensures TakeFraction(Value(n.whole), n.FractionText() + tail)
         == (Value(n.whole + n.Fraction()), -|n.Fraction()|, tail)
  {
    if n.fraction.Some? {
      FractionRead(n.whole, n.fraction.value, tail);
    } else {
      assert "" + tail == tail && n.whole + "" == n.whole;
    }
  }

  /** What stands from the whole part on, from the fraction on and from the exponent on, and the
      numbers they are read as. */
  lemma Cut(n: Numeral, rest: Text)
      returns (t: Text, whole: int, t1: Text, digits: int, scale: int, t2: Text, exponent: int)
    requires n.Valid() && Delimited(rest)
    ensures t == n.Unsigned(rest) && IsDigit(Head(t)) && TakeInteger(t) == (whole, t1)
    ensures TakeFraction(whole, t1) == (digits, scale, t2) && TakeExponent(t2) == (exponent, rest)
    ensures n.Magnitude() == Decimal(digits, scale + exponent)
  {
    t2 := n.ExponentText() + rest;
    ExponentPartRead(n, rest);
    t1 := n.FractionText() + t2;
    FractionPartRead(n, t2);
    t := n.whole + t1;
    IntegerRead(n.whole, t1);
    whole, digits, scale, exponent := Value(n.whole), Value(n.whole + n.Fraction()), -|n.Fraction()|, n.ExponentValue();
  }

  lemma UnsignedRead(n: Numeral, rest: Text)
    requires n.Valid() && Delimited(rest)
    ensures IsDigit(Head(n.Unsigned(rest))) && ParseNumber(n.Unsigned(rest)) == (n.Magnitude(), rest)
  {
    var t, whole, t1, digits, scale, t2, exponent := Cut(n, rest);
    PartsRead(t, whole, t1, digits, scale, t2, exponent, rest);
  }

  /** A numeral is read as the number it spells: sign * digits * 10^exponent. */
  lemma NumeralRead(n: Numeral, rest: Text)
    requires n.Valid() && Delimited(rest)
    ensures ParseNumber(n.Before(rest)) == (n.Meaning(), rest)
    ensures Head(n.Before(rest)) == '-' || IsDigit(Head(n.Before(rest)))
  {
    UnsignedRead(n, rest);
    if n.minus {
      NegativeRead(n.Before(rest), n.Unsigned(rest), n.Magnitude(), rest);
    }
  }

  lemma NegativeRead(t: Text, body: Text, d: Decimal, rest: Text)
    requires t == "-" + body && IsDigit(Head(body)) && ParseNumber(body) == (d, rest)
    ensures ParseNumber(t) == (Decimal(-d.digits, d.exp10), rest)
  {
    assert t[0] == '-' && t[1..] == body;
  }

  // ----- documents, sections 2 to 5 -----

  /** A derivation: the text of a value with its white space. */
  datatype Doc =
    | NullWord
    | FalseWord
    | TrueWord
    | Number(n: Numeral)
    | Literal(pieces: seq<Piece>)
    | EmptyList(gap: Text)
    | List(items: seq<Item>)
    | EmptyRecord(gap: Text)
    | Record(entries: seq<Entry>)

  datatype Item = Item(before: Text, doc: Doc, after: Text)

  datatype Entry = Entry(before: Text, name: seq<Piece>, beforeColon: Text, afterColon: Text, doc: Doc, after: Text)

  /** White space is what the parser takes for it, of which that of the grammar is a part. */
  predicate Derived(d: Doc) {
    match d
    case Number(n) => n.Valid()
    case Literal(pieces) => ValidPieces(pieces)
    case EmptyList(gap) => AllBlank(gap)
    case List(items) => items != [] && DerivedItems(items)
    case EmptyRecord(gap) => AllBlank(gap)
    case Record(entries) => entries != [] && DerivedEntries(entries)
    case _ => true
  }

  predicate DerivedItems(items: seq<Item>) {
    forall i :: 0 <= i < |items| ==> AllBlank(items[i].before) && Derived(items[i].doc) && AllBlank(items[i].after)
  }

  predicate DerivedEntries(entries: seq<Entry>) {
    forall i :: 0 <= i < |entries| ==>
      && AllBlank(entries[i].before) && ValidPieces(entries[i].name) && AllBlank(entries[i].beforeColon)
      && AllBlank(entries[i].afterColon) && Derived(entries[i].doc) && AllBlank(entries[i].after)
  }

  /** The text of a document, in front of another text. */
  function Spell(d: Doc, rest: Text): Text
    decreases d, 0
  {
    match d
    case NullWord => "null" + rest
    case FalseWord => "false" + rest
    case TrueWord => "true" + rest
    case Number(n) => n.Before(rest)
    case Literal(pieces) => JsonStrings.Literal(pieces) + rest
    case EmptyList(gap) => "[" + (gap + ("]" + rest))
    case List(items) => if items == [] then rest else "[" + (items[0].before + SpellItems(items, rest))
    case EmptyRecord(gap) => "{" + (gap + ("}" + rest))
    case Record(entries) => if entries == [] then rest else "{" + (entries[0].before + SpellEntries(entries, rest))
  }

  /** From the first of the elements on, to behind the closing bracket. */
  function SpellItems(items: seq<Item>, rest: Text): Text
    requires items != []
    decreases items, 1
  {
    var i := items[0];
    if |items| == 1 then Spell(i.doc, i.after + ("]" + rest))
    else Spell(i.doc, i.after + ("," + (items[1].before + SpellItems(items[1..], rest))))
  }

  function SpellEntries(entries: seq<Entry>, rest: Text): Text
    requires entries != []
    decreases entries, 1
  {
    var e := entries[0];
    var more := if |entries| == 1 then "}" + rest else "," + (entries[1].before + SpellEntries(entries[1..], rest));
    JsonStrings.Literal(e.name) + (e.beforeColon + (":" + (e.afterColon + Spell(e.doc, e.after + more))))
  }

  /** The value a document stands for. */
  function Denotes(d: Doc): Json
    requires Derived(d)
  {
    match d
    case NullWord => Null
    case FalseWord => False
    case TrueWord => True
    case Number(n) => Json.Number(n.Meaning())
    case Literal(pieces) => String(Meaning(pieces))
    case EmptyList(_) => Array([])
    case List(items) => Array(DenotedItems(items))
    case EmptyRecord(_) => Object([])
    case Record(entries) => Object(DenotedEntries(entries))
  }

  function DenotedItems(items: seq<Item>): (vs: seq<Json>)
    requires DerivedItems(items)
    ensures |vs| == |items| && forall i :: 0 <= i < |vs| ==> vs[i] == Denotes(items[i].doc)
  {
    if items == [] then [] else [Denotes(items[0].doc)] + DenotedItems(items[1..])
  }

  function DenotedEntries(entries: seq<Entry>): (ms: seq<Field>)
    requires DerivedEntries(entries)
    ensures |ms| == |entries|
    ensures forall i :: 0 <= i < |ms| ==> ms[i] == Field(Meaning(entries[i].name), Denotes(entries[i].doc))
  {
    if entries == [] then []
    else [Field(Meaning(entries[0].name), Denotes(entries[0].doc))] + DenotedEntries(entries[1..])
  }

  lemma SpellOpens(d: Doc, rest: Text)
    requires Derived(d)
    ensures OpensValue(Head(Spell(d, rest)))
  {
    match d
    case Number(n) =>
      assert n.Unsigned(rest)[0] == n.whole[0];
    case _ =>
  }

  lemma MarkDelimits(blanks: Text, mark: char, rest: Text)
    requires AllBlank(blanks) && mark in ",]}"
    ensures Delimited(blanks + ([mark] + rest))
  {
  }

  /** In front of anything that cannot go on with a number, a document is read whole and as the
      value it stands for. */
  lemma {:induction false} DocumentRead(d: Doc, rest: Text)
    requires Derived(d) && Delimited(rest)
    ensures ParseValue(Spell(d, rest)) == Parsed(Denotes(d), rest)
    decreases d, 0
  {
    match d
    case NullWord => ReadWord("null", rest);
    case FalseWord => ReadWord("false", rest);
    case TrueWord => ReadWord("true", rest);
    case Number(n) =>
      NumeralRead(n, rest);
      NotAWord(n.Before(rest));
    case Literal(pieces) =>
      LiteralMeaning(pieces, rest);
      NotAWord(JsonStrings.Literal(pieces) + rest);
    case EmptyList(gap) => ReadEmptyArray(gap, rest);
    case List(items) =>
      ItemsRead(items, rest);
      SpellItemsOpens(items, rest);
      ReadArray(items[0].before, SpellItems(items, rest), DenotedItems(items), rest);
    case EmptyRecord(gap) => ReadEmptyObject(gap, rest);
    case Record(entries) =>
      EntriesRead(entries, rest);
      ReadObject(entries[0].before, SpellEntries(entries, rest), DenotedEntries(entries), rest);
  }

  lemma SpellItemsOpens(items: seq<Item>, rest: Text)
    requires items != [] && Derived(items[0].doc)
    ensures OpensValue(Head(SpellItems(items, rest)))
  {
    SpellOpens(items[0].doc, items[0].after + ("]" + rest));
    if |items| > 1 {
      SpellOpens(items[0].doc, items[0].after + ("," + (items[1].before + SpellItems(items[1..], rest))));
    }
  }

  lemma {:induction false} ItemsRead(items: seq<Item>, rest: Text)
    requires items != [] && DerivedItems(items)
    ensures ParseItems(SpellItems(items, rest)) == Parsed(DenotedItems(items), rest)
    decreases items, 1
  {
    var i := items[0];
    SpellItemsOpens(items, rest);
    if |items| == 1 {
      MarkDelimits(i.after, ']', rest);
      DocumentRead(i.doc, i.after + ("]" + rest));
      ReadLastItem(SpellItems(items, rest), Denotes(i.doc), i.after, rest);
      assert DenotedItems(items) == [Denotes(i.doc)];
    } else {
      var (next, more) := (items[1].before, SpellItems(items[1..], rest));
      MarkDelimits(i.after, ',', next + more);
      DocumentRead(i.doc, i.after + ("," + (next + more)));
      ItemsRead(items[1..], rest);
      SpellItemsOpens(items[1..], rest);
      ReadMoreItems(SpellItems(items, rest), Denotes(i.doc), i.after, next, more, DenotedItems(items[1..]), rest);
    }
  }

  /** One name and value, in front of what follows the value. */
  lemma EntryRead(name: seq<Piece>, before: Text, after: Text, value: Text, v: Json, follow: Text)
    requires ValidPieces(name) && AllBlank(before) && AllBlank(after)
    requires OpensValue(Head(value)) && ParseValue(value) == Parsed(v, follow)
    ensures ParseField(JsonStrings.Literal(name) + (before + (":" + (after + value))))
         == Parsed(Field(Meaning(name), v), follow)
  {
    var colon := before + (":" + (after + value));
    LiteralMeaning(name, colon);
    var t := JsonStrings.Literal(name) + colon;
    assert t[0] == '\"';
    ReadField(t, Meaning(name), before, after, value, v, follow);
  }

  /** The first name and value of several, in front of what follows them. */
  lemma FirstEntryRead(entries: seq<Entry>, follow: Text)
    requires entries != [] && DerivedEntries(entries)
             && ParseValue(Spell(entries[0].doc, follow)) == Parsed(Denotes(entries[0].doc), follow)
    ensures var e := entries[0];
            ParseField(JsonStrings.Literal(e.name) + (e.beforeColon + (":" + (e.afterColon + Spell(e.doc, follow)))))
            == Parsed(Field(Meaning(e.name), Denotes(e.doc)), follow)
  {
    var e := entries[0];
    SpellOpens(e.doc, follow);
    EntryRead(e.name, e.beforeColon, e.afterColon, Spell(e.doc, follow), Denotes(e.doc), follow);
  }

  lemma {:induction false} EntriesRead(entries: seq<Entry>, rest: Text)
    requires entries != [] && DerivedEntries(entries)
    ensures ParseFields(SpellEntries(entries, rest)) == Parsed(DenotedEntries(entries), rest)
    ensures Head(SpellEntries(entries, rest)) == '\"'
    decreases entries, 1
  {
    var e := entries[0];
    var m := Field(Meaning(e.name), Denotes(e.doc));
    if |entries| == 1 {
      MarkDelimits(e.after, '}', rest);
      DocumentRead(e.doc, e.after + ("}" + rest));
      FirstEntryRead(entries, e.after + ("}" + rest));
      ReadLastField(SpellEntries(entries, rest), m, e.after, rest);
      assert DenotedEntries(entries) == [m];
    } else {
      var more := SpellEntries(entries[1..], rest);
      MarkDelimits(e.after, ',', entries[1].before + more);
      DocumentRead(e.doc, e.after + ("," + (entries[1].before + more)));
      FirstEntryRead(entries, e.after + ("," + (entries[1].before + more)));
      EntriesRead(entries[1..], rest);
      ReadMoreFields(SpellEntries(entries, rest), m, e.after, entries[1].before, more,
                     DenotedEntries(entries[1..]), rest);
    }
  }

  /** Every text the grammar derives, white space around it, is accepted to its end, as the value
      it stands for. */
  lemma GrammarAccepted(before: Text, d: Doc, after: Text)
    requires AllBlank(before) && Derived(d) && AllBlank(after)
    ensures Parse(before + Spell(d, after), true) == Parsed(Denotes(d), "")
  {
    DocumentRead(d, after);
    SpellOpens(d, after);
    SkipBlanks(before, Spell(d, after));
    SkipBlanks(after, "");
    assert after + "" == after;
  }

  // ----- what parsing leaves can be printed -----

  lemma EncodeNulFree(n: nat)
    requires 0 < n < 0x11_0000
    ensures NulFree(Encode(n))
  {
  }

  lemma StepNulFree(t: Text)
    requires Head(t) != NUL && Step(t).Parsed?
    ensures NulFree(Step(t).value)
  {
    if t[0] == '\\' && t[1] == 'u' {
      UnitNulFree(t);
    }
  }

  lemma UnitNulFree(t: Text)
    requires |t| >= 6 && t[0] == '\\' && t[1] == 'u' && IsHex4(t[2..]) && Step(t).Parsed?
    ensures NulFree(Step(t).value)
  {
    var uc := Hex4(t[2..]);
    if uc != 0 {
      EncodeNulFree(uc);
    }
    if IsHighSurrogate(uc) && StartsWith(t[6..], "\\u") {
      var uc2 := Hex4(t[8..]);
      if IsLowSurrogate(uc2) {
        EncodeNulFree(Combine(uc, uc2));
      }
    }
  }

  /** A parsed string is a C string. */
  lemma {:induction false} UnescapeNulFree(t: Text)
    requires Unescape(t).Parsed?
    ensures NulFree(Unescape(t).value)
  {
    if Head(t) != NUL && t[0] != '\"' {
      StepNulFree(t);
      UnescapeNulFree(Step(t).rest);
    }
  }

  /** The numbers are C ints. */
  predicate IntNumbers(v: Json) {
    match v
    case Number(n) => n.exp10 == 0 && INT_MIN <= n.digits <= INT_MAX
    case Array(items) => forall i :: 0 <= i < |items| ==> IntNumbers(items[i])
    case Object(ms) => forall i :: 0 <= i < |ms| ==> IntNumbers(ms[i].value)
    case _ => true
  }

  predicate IntItems(items: seq<Json>) {
    forall i :: 0 <= i < |items| ==> IntNumbers(items[i])
  }

  predicate IntFields(ms: seq<Field>) {
    forall i :: 0 <= i < |ms| ==> IntNumbers(ms[i].value)
  }

  lemma OneMoreItem(v: Json, more: seq<Json>)
    ensures IntItems([v] + more) ==> IntNumbers(v) && IntItems(more)
    ensures Printable(v) && PrintableItems(more) ==> PrintableItems([v] + more)
  {
    var vs := [v] + more;
    assert vs[0] == v && forall i :: 0 <= i < |more| ==> vs[i + 1] == more[i];
  }

  lemma OneMoreField(m: Field, more: seq<Field>)
    ensures IntFields([m] + more) ==> IntNumbers(m.value) && IntFields(more)
    ensures NulFree(m.name) && Printable(m.value) && PrintableFields(more) ==> PrintableFields([m] + more)
  {
    var ms := [m] + more;
    assert ms[0] == m && forall i :: 0 <= i < |more| ==> ms[i + 1] == more[i];
  }

  /** What the parser makes of any text can be printed, if its numbers are ints. */
  lemma {:induction false} ValuePrintable(t: Text)
    requires ParseValue(t).Parsed? && IntNumbers(ParseValue(t).value)
    ensures Printable(ParseValue(t).value)
    decreases |t|, 0
  {
    if Head(t) == '\"' {
      NotAWord(t);
      UnescapeNulFree(t[1..]);
    } else if Head(t) == '[' {
      NotAWord(t);
      var t1 := Skip(t[1..]);
      if Head(t1) != ']' {
        ItemsPrintable(t1);
      }
    } else if Head(t) == '{' {
      NotAWord(t);
      var t1 := Skip(t[1..]);
      if Head(t1) != '}' {
        FieldsPrintable(t1);
      }
    }
  }

  lemma {:induction false} ItemsPrintable(t: Text)
    requires ParseItems(t).Parsed? && IntItems(ParseItems(t).value)
    ensures PrintableItems(ParseItems(t).value)
    decreases |t|, 1
  {
    var Parsed(v, rest) := ParseValue(Skip(t));
    var t1 := Skip(rest);
    var more := if Head(t1) == ',' then ParseItems(t1[1..]).value else [];
    assert ParseItems(t).value == [v] + more;
    OneMoreItem(v, more);
    ValuePrintable(Skip(t));
    if Head(t1) == ',' {
      ItemsPrintable(t1[1..]);
    }
  }

  lemma {:induction false} FieldPrintable(t: Text)
    requires ParseField(t).Parsed? && IntNumbers(ParseField(t).value.value)
    ensures NulFree(ParseField(t).value.name) && Printable(ParseField(t).value.value)
    decreases |t|, 1
  {
    UnescapeNulFree(Skip(t)[1..]);
    var t1 := Skip(ParseString(Skip(t)).rest);
    ValuePrintable(Skip(t1[1..]));
  }

  lemma {:induction false} FieldsPrintable(t: Text)
    requires ParseFields(t).Parsed? && IntFields(ParseFields(t).value)
    ensures PrintableFields(ParseFields(t).value)
    decreases |t|, 2
  {
    var Parsed(m, rest) := ParseField(t);
    var t1 := Skip(rest);
    var more := if Head(t1) == ',' then ParseFields(t1[1..]).value else [];
    assert ParseFields(t).value == [m] + more;
    OneMoreField(m, more);
    FieldPrintable(t);
    if Head(t1) == ',' {
      FieldsPrintable(t1[1..]);
    }
  }

  /** Whatever was parsed, printing and parsing it again changes nothing. */
  lemma ParsePrintParse(t: Text, requireEnd: bool, fmt: bool)
    requires Parse(t, requireEnd).Parsed? && IntNumbers(Parse(t, requireEnd).value)
    ensures Printable(Parse(t, requireEnd).value)
    ensures Parse(Print(Parse(t, requireEnd).value, 0, fmt), true) == Parsed(Parse(t, requireEnd).value, "")
  {
    ValuePrintable(Skip(t));
    ParseUndoesPrint(Parse(t, requireEnd).value, fmt, true);
  }

  // ----- what is not accepted -----

  /** What the grammar calls white space is what the parser skips, and it skips no visible character. */
  lemma WhiteSpaceSkipped(t: Text)
    ensures (forall i :: 0 <= i < |t| ==> t[i] in " \t\n\r") ==> AllBlank(t)
    ensures forall c: char :: c as int > 32 || c == NUL ==> !IsBlank(c)
  {
  }

  /** Only these characters begin a value, and letters only as those of a word. */
  lemma ValueRejected(t: Text)
    requires Head(t) !in "\"-0123456789[{"
    requires !StartsWith(t, "null") && !StartsWith(t, "true") && !StartsWith(t, "false")
    ensures ParseValue(t) == Failed
  {
    assert forall c: char :: IsDigit(c) ==> c in "0123456789";
  }

  /** Behind an element nothing but a comma or the closing bracket is accepted. */
  lemma ElementRejected(before: Text, d: Doc, after: Text, rest: Text)
    requires AllBlank(before) && Derived(d) && AllBlank(after) && Delimited(after + rest)
    requires !IsBlank(Head(rest)) && Head(rest) != ',' && Head(rest) != ']'
    ensures ParseValue("[" + (before + Spell(d, after + rest))) == Failed
  {
    DocumentRead(d, after + rest);
    SpellOpens(d, after + rest);
    ItemsRejected(before, Spell(d, after + rest), Denotes(d), after, rest);
  }

  lemma ItemsRejected(before: Text, value: Text, v: Json, after: Text, rest: Text)
    requires AllBlank(before) && AllBlank(after)
    requires OpensValue(Head(value)) && ParseValue(value) == Parsed(v, after + rest)
    requires !IsBlank(Head(rest)) && Head(rest) != ',' && Head(rest) != ']'
    ensures ParseValue("[" + (before + value)) == Failed
  {
    var t := "[" + (before + value);
    SkipBlanks(before, value);
    SkipBlanks(after, rest);
    NotAWord(t);
    assert t[1..] == before + value;
    assert ParseItems(value) == Failed;
  }

  /** Behind a member nothing but a comma or the closing brace is accepted. */
  lemma MemberRejected(before: Text, e: Entry, rest: Text)
    requires AllBlank(before) && DerivedEntries([e]) && Delimited(e.after + rest)
    requires !IsBlank(Head(rest)) && Head(rest) != ',' && Head(rest) != '}'
    ensures ParseValue("{" + (before + Member(e, e.after + rest))) == Failed
  {
    assert [e][0] == e;
    DocumentRead(e.doc, e.after + rest);
    FirstEntryRead([e], e.after + rest);
    NotSeparated(Member(e, e.after + rest), Field(Meaning(e.name), Denotes(e.doc)), e.after, rest);
    FieldsRejected(before, Member(e, e.after + rest));
  }

  /** A name, its colon and a value in front of a text. */
  function Member(e: Entry, follow: Text): (t: Text)
    ensures Head(t) == '\"'
  {
    JsonStrings.Literal(e.name) + (e.beforeColon + (":" + (e.afterColon + Spell(e.doc, follow))))
  }

  lemma NotSeparated(t: Text, m: Field, after: Text, rest: Text)
    requires ParseField(t) == Parsed(m, after + rest) && AllBlank(after)
    requires !IsBlank(Head(rest)) && Head(rest) != ',' && Head(rest) != '}'
    ensures ParseFields(t) == Failed
  {
    SkipBlanks(after, rest);
  }

  lemma FieldsRejected(before: Text, body: Text)
    requires AllBlank(before) && !IsBlank(Head(body)) && Head(body) != '}' && ParseFields(body) == Failed
    ensures ParseValue("{" + (before + body)) == Failed
  {
    var t := "{" + (before + body);
    SkipBlanks(before, body);
    NotAWord(t);
    assert t[1..] == before + body;
  }

  /** A name must be a string. */
  lemma NameRejected(before: Text, t: Text)
    requires AllBlank(before) && !IsBlank(Head(t)) && Head(t) != '\"' && Head(t) != '}'
    ensures ParseValue("{" + (before + t)) == Failed
  {
    assert Skip(t) == t && ParseField(t) == Failed;
    FieldsRejected(before, t);
  }

  /** A colon must follow it. */
  lemma ColonMissing(before: Text, name: seq<Piece>, after: Text, t: Text)
    requires AllBlank(before) && ValidPieces(name) && AllBlank(after) && !IsBlank(Head(t)) && Head(t) != ':'
    ensures ParseValue("{" + (before + (JsonStrings.Literal(name) + (after + t)))) == Failed
  {
    var body := JsonStrings.Literal(name) + (after + t);
    LiteralMeaning(name, after + t);
    assert body[0] == '\"';
    NoColon(body, Meaning(name), after, t);
    FieldsRejected(before, body);
  }

  lemma NoColon(body: Text, name: Text, after: Text, t: Text)
    requires Head(body) == '\"' && ParseString(body) == Parsed(name, after + t)
    requires AllBlank(after) && !IsBlank(Head(t)) && Head(t) != ':'
    ensures ParseFields(body) == Failed
  {
    SkipBlanks(after, t);
    assert Skip(body) == body;
    assert ParseField(body) == Failed;
  }

  /** Behind a document nothing but white space is accepted, if its end is required. */
  lemma TrailingRejected(before: Text, d: Doc, after: Text, rest: Text)
    requires AllBlank(before) && Derived(d) && AllBlank(after) && Delimited(after + rest)
    requires !IsBlank(Head(rest)) && Head(rest) != NUL
    ensures Parse(before + Spell(d, after + rest), true) == Failed
    ensures Parse(before + Spell(d, after + rest), false) == Parsed(Denotes(d), after + rest)
  {
    DocumentRead(d, after + rest);
    SpellOpens(d, after + rest);
    SkipBlanks(before, Spell(d, after + rest));
    SkipBlanks(after, rest);
  }
}
