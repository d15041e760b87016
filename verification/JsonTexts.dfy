/** What the printers rely on about the reference text: it is a C string, and its numbers fit. */
module JsonTexts {
  import opened Text
  import opened JsonTree

  lemma {:induction false} DigitsLength(n: nat, k: nat)
    requires n < Ten(k) && k >= 1
    ensures |Digits(n)| <= k
  {
    if n >= 10 {
      DigitsLength(n / 10, k - 1);
    }
  }

  function Ten(k: nat): nat {
    if k == 0 then 1 else 10 * Ten(k - 1)
  }

  lemma IntTextLength(n: int)
    requires INT_MIN <= n <= INT_MAX
    ensures 1 <= |IntText(n)| <= 11
  {
    assert Ten(5) == 100000;
    assert Ten(10) == 100000 * 100000;
    DigitsLength(if n < 0 then -n else n, 10);
  }

  lemma {:induction false} EscapeNulFree(s: Text)
    requires NulFree(s)
    ensures NulFree(Escape(s))
  {
    if s != [] {
      EscapeNulFree(s[1..]);
      assert NulFree(EscapeChar(s[0]));
    }
  }

  lemma QuoteNulFree(s: Text)
    requires NulFree(s)
    ensures NulFree(Quote(s))
  {
    EscapeNulFree(s);
  }

  lemma NulFreeThree(a: Text, b: Text, c: Text)
    requires NulFree(a) && NulFree(b) && NulFree(c)
    ensures NulFree(a + b + c)
  {
  }

  /** Printed text is a C string. */
  lemma {:induction false} PrintNulFree(v: Json, depth: nat, fmt: bool)
    requires Printable(v)
    ensures NulFree(Print(v, depth, fmt))
    decreases v, 2
  {
    match v
    case String(s) => QuoteNulFree(s);
    case Array(items) =>
      ItemsNulFree(items, depth + 1, fmt);
      NulFreeThree("[", PrintItems(items, depth + 1, fmt), "]");
    case Object(ms) => ObjectNulFree(ms, depth, fmt);
    case _ =>
  }

  lemma ObjectNulFree(ms: seq<Field>, depth: nat, fmt: bool)
    requires PrintableFields(ms)
    ensures NulFree(Print(Object(ms), depth, fmt))
    decreases ms, 1
  {
    if ms == [] {
      var indent := When(fmt, "\n" + Tabs(if depth == 0 then 0 else depth - 1));
      NulFreeThree("{", indent, "}");
    } else {
      var (open, body, close) := (When(fmt, "\n"), PrintFields(ms, depth + 1, fmt), When(fmt, Tabs(depth)));
      FieldsNulFree(ms, depth + 1, fmt);
      NulFreeThree("{", open, body);
      NulFreeThree("{" + open + body, close, "}");
      ObjectText(ms, depth, fmt);
    }
  }

  lemma ObjectText(ms: seq<Field>, depth: nat, fmt: bool)
    requires ms != []
    ensures Print(Object(ms), depth, fmt)
         == "{" + When(fmt, "\n") + PrintFields(ms, depth + 1, fmt) + When(fmt, Tabs(depth)) + "}"
  {
  }

  lemma {:induction false} ItemsNulFree(items: seq<Json>, depth: nat, fmt: bool)
    requires PrintableItems(items)
    ensures NulFree(PrintItems(items, depth, fmt))
    decreases items, 0
  {
    if items != [] {
      PrintNulFree(items[0], depth, fmt);
      ItemsNulFree(items[1..], depth, fmt);
      NulFreeThree(Print(items[0], depth, fmt), Separator(fmt), PrintItems(items[1..], depth, fmt));
    }
  }

  lemma {:induction false} FieldsNulFree(ms: seq<Field>, depth: nat, fmt: bool)
    requires PrintableFields(ms)
    ensures NulFree(PrintFields(ms, depth, fmt))
    decreases ms, 0
  {
    if ms != [] {
      var (head, value) := (FieldHead(ms[0].name, depth, fmt), Print(ms[0].value, depth, fmt));
      HeadNulFree(ms[0].name, depth, fmt);
      PrintNulFree(ms[0].value, depth, fmt);
      FieldsNulFree(ms[1..], depth, fmt);
      NulFreeThree(head, value, FieldTail(|ms| == 1, fmt));
      NulFreeThree(head + value + FieldTail(|ms| == 1, fmt), PrintFields(ms[1..], depth, fmt), "");
    }
  }

  lemma HeadNulFree(name: Text, depth: nat, fmt: bool)
    requires NulFree(name)
    ensures NulFree(FieldHead(name, depth, fmt))
  {
    QuoteNulFree(name);
    NulFreeThree(When(fmt, Tabs(depth)), Quote(name), ":");
  }

  // ----- the lists from an index on -----

  lemma ItemsFrom(items: seq<Json>, k: nat, depth: nat, fmt: bool)
    requires k < |items|
    ensures PrintItems(items[k..], depth, fmt)
         == Print(items[k], depth, fmt) + When(k + 1 < |items|, Separator(fmt)) + PrintItems(items[k + 1..], depth, fmt)
  {
    var rest := items[k..];
    assert rest[0] == items[k] && rest[1..] == items[k + 1..];
  }

  lemma FieldsFrom(ms: seq<Field>, k: nat, depth: nat, fmt: bool)
    requires k < |ms|
    ensures PrintFields(ms[k..], depth, fmt)
         == FieldHead(ms[k].name, depth, fmt) + Print(ms[k].value, depth, fmt)
            + FieldTail(k + 1 == |ms|, fmt) + PrintFields(ms[k + 1..], depth, fmt)
  {
    var rest := ms[k..];
    assert rest[0] == ms[k] && rest[1..] == ms[k + 1..];
  }
}
