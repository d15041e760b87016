/** JSON trees, and their reference text: the result both printers are measured against. */
module JsonTree {
  import opened Text

  /** digits * 10^exp10: what the number scanner reads before it rounds to a double. */
  datatype Decimal = Decimal(digits: int, exp10: int)

  datatype Json =
    | Null
    | False
    | True
    | Number(n: Decimal)
    | String(s: Text)
    | Array(items: seq<Json>)
    | Object(members: seq<Field>)

  datatype Field = Field(name: Text, value: Json)

  const INT_MIN: int := -0x8000_0000
  const INT_MAX: int := 0x7FFF_FFFF

  /** The trees whose text does not depend on floating-point rendering: numbers are C ints,
      strings and names are C strings. */
  predicate Printable(v: Json) {
    match v
    case Null => true
    case False => true
    case True => true
    case Number(n) => n.exp10 == 0 && INT_MIN <= n.digits <= INT_MAX
    case String(s) => NulFree(s)
    case Array(items) => forall i :: 0 <= i < |items| ==> Printable(items[i])
    case Object(ms) => forall i :: 0 <= i < |ms| ==> NulFree(ms[i].name) && Printable(ms[i].value)
  }

  predicate PrintableItems(items: seq<Json>) {
    forall i :: 0 <= i < |items| ==> Printable(items[i])
  }

  predicate PrintableFields(ms: seq<Field>) {
    forall i :: 0 <= i < |ms| ==> NulFree(ms[i].name) && Printable(ms[i].value)
  }

  function Digit(d: nat): char
    requires d < 10
  {
    '0' + d as char
  }

  function Digits(n: nat): (t: Text)
    ensures 1 <= |t| && forall i :: 0 <= i < |t| ==> IsDigit(t[i])
    ensures n > 0 ==> t[0] != '0'
  {
    if n < 10 then [Digit(n)] else Digits(n / 10) + [Digit(n % 10)]
  }

  /** "%d" */
  function IntText(n: int): Text {
    if n < 0 then "-" + Digits(-n) else Digits(n)
  }

  const HEX: Text := "0123456789abcdef"

  /** The escape of one character of a C string. */
  function EscapeChar(c: char): Text {
    if c == '\\' then "\\\\"
    else if c == '\"' then "\\\""
    else if c > '\U{1F}' then [c]
    else if c == '\U{8}' then "\\b"
    else if c == '\U{C}' then "\\f"
    else if c == '\n' then "\\n"
    else if c == '\r' then "\\r"
    else if c == '\t' then "\\t"
    else "\\u00" + [HEX[c as int / 16], HEX[c as int % 16]]
  }

  function Escape(s: Text): Text {
    if s == [] then [] else EscapeChar(s[0]) + Escape(s[1..])
  }

  function Quote(s: Text): Text {
    "\"" + Escape(s) + "\""
  }

  function Tabs(n: nat): Text {
    Repeat('\t', n)
  }

  function When(b: bool, t: Text): Text {
    if b then t else ""
  }

  /** The text of a tree at a nesting depth, formatted or not. */
  function Print(v: Json, depth: nat, fmt: bool): Text
    decreases v
  {
    match v
    case Null => "null"
    case False => "false"
    case True => "true"
    case Number(n) => IntText(n.digits)
    case String(s) => Quote(s)
    case Array(items) => "[" + PrintItems(items, depth + 1, fmt) + "]"
    case Object(ms) =>
      if ms == [] then
        "{" + When(fmt, "\n" + Tabs(if depth == 0 then 0 else depth - 1)) + "}"
      else
        "{" + When(fmt, "\n") + PrintFields(ms, depth + 1, fmt) + When(fmt, Tabs(depth)) + "}"
  }

  function Separator(fmt: bool): Text {
    "," + When(fmt, " ")
  }

  function PrintItems(items: seq<Json>, depth: nat, fmt: bool): Text
    decreases items
  {
    if items == [] then ""
    else if |items| == 1 then Print(items[0], depth, fmt)
    else Print(items[0], depth, fmt) + Separator(fmt) + PrintItems(items[1..], depth, fmt)
  }

  function FieldHead(name: Text, depth: nat, fmt: bool): Text {
    When(fmt, Tabs(depth)) + Quote(name) + ":" + When(fmt, "\t")
  }

  function FieldTail(last: bool, fmt: bool): Text {
    When(!last, ",") + When(fmt, "\n")
  }

  function PrintFields(ms: seq<Field>, depth: nat, fmt: bool): Text
    decreases ms
  {
    if ms == [] then ""
    else
      FieldHead(ms[0].name, depth, fmt) + Print(ms[0].value, depth, fmt)
      + FieldTail(|ms| == 1, fmt) + PrintFields(ms[1..], depth, fmt)
  }
}
