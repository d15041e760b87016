/** The in-place minifier: what it leaves of a text, and that it turns formatted output into
    unformatted output. */
module JsonMinify {
  import opened Text
  import opened Utf8
  import opened JsonTree
  import opened JsonTexts

  predicate IsSpace(c: char) {
    c == ' ' || c == '\t' || c == '\r' || c == '\n'
  }

  /** From a line comment to the end of its line. */
  function ToLineEnd(t: Text): (r: Text)
    ensures |r| <= |t| && (Head(t) != NUL && Head(t) != '\n' ==> |r| < |t|)
  {
    if Head(t) == NUL || t[0] == '\n' then t else ToLineEnd(t[1..])
  }

  /** Behind a comment; None if it is not closed, where the minifier would leave the text. */
  function AfterComment(t: Text): (r: Option<Text>)
    ensures r.Some? ==> |r.value| < |t|
  {
    if Head(t) == NUL then None
    else if t[0] == '*' && Head(t[1..]) == '/' then Some(t[2..])
    else AfterComment(t[1..])
  }

  /** From behind the opening quote: how many characters are copied up to and with the closing
      quote; None if the literal is not closed, where the minifier would leave the text. */
  function LiteralLength(t: Text): (n: Option<nat>)
    ensures n.Some? ==> 1 <= n.value <= |t|
  {
    if Head(t) == NUL then None
    else if t[0] == '\"' then Some(1)
    else if t[0] != '\\' then Plus(1, LiteralLength(t[1..]))
    else if Head(t[1..]) == NUL then None
    else Plus(2, LiteralLength(t[2..]))
  }

  function Plus(k: nat, n: Option<nat>): Option<nat> {
    match n
    case None => None
    case Some(n) => Some(k + n)
  }

  /** Puts characters before a result. */
  function Before(t: Text, o: Option<Text>): Option<Text> {
    match o
    case None => None
    case Some(u) => Some(t + u)
  }

  /** What is left of a text; None if an open literal or comment reaches its end. */
  function Minify(t: Text): Option<Text>
    decreases |t|
  {
    if Head(t) == NUL then Some("")
    else if IsSpace(t[0]) then Minify(t[1..])
    else if t[0] == '/' && Head(t[1..]) == '/' then Minify(ToLineEnd(t))
    else if t[0] == '/' && Head(t[1..]) == '*' then
      match AfterComment(t)
      case None => None
      case Some(rest) => Minify(rest)
    else if t[0] == '\"' then
      match LiteralLength(t[1..])
      case None => None
      case Some(n) => Before(t[..1 + n], Minify(t[1 + n..]))
    else Before([t[0]], Minify(t[1..]))
  }

  // ----- token by token -----

  /** In front of any text, the minifier turns t into u. */
  ghost predicate Tidies(t: Text, u: Text) {
    forall rest: Text :: Minify(t + rest) == Before(u, Minify(rest))
  }

  lemma TidyBoth(t: Text, u: Text, t': Text, u': Text)
    requires Tidies(t, u) && Tidies(t', u')
    ensures Tidies(t + t', u + u')
  {
    forall rest: Text
      ensures Minify(t + t' + rest) == Before(u + u', Minify(rest))
    {
      TidyRest(t, u, t' + rest);
      TidyRest(t', u', rest);
      OneThenOther(t, u, t', u', rest);
    }
  }

  lemma TidyRest(t: Text, u: Text, rest: Text)
    requires Tidies(t, u)
    ensures Minify(t + rest) == Before(u, Minify(rest))
  {
  }

  lemma OneThenOther(t: Text, u: Text, t': Text, u': Text, rest: Text)
    requires Minify(t + (t' + rest)) == Before(u, Minify(t' + rest)) && Minify(t' + rest) == Before(u', Minify(rest))
    ensures Minify(t + t' + rest) == Before(u + u', Minify(rest))
  {
    Regroup(t, t', rest);
    BeforeBefore(u, u', Minify(rest));
  }

  lemma BeforeBefore(s: Text, t: Text, o: Option<Text>)
    ensures Before(s, Before(t, o)) == Before(s + t, o)
  {
    if o.Some? {
      assert s + (t + o.value) == s + t + o.value;
    }
  }

  lemma TidyNothing()
    ensures Tidies("", "")
  {
    forall rest: Text ensures Minify("" + rest) == Before("", Minify(rest)) {
      assert "" + rest == rest;
      assert Minify(rest).Some? ==> "" + Minify(rest).value == Minify(rest).value;
    }
  }

  lemma TidySpace(c: char)
    requires IsSpace(c)
    ensures Tidies([c], "")
  {
    forall rest: Text ensures Minify([c] + rest) == Before("", Minify(rest)) {
      assert ([c] + rest)[1..] == rest;
      assert Minify(rest).Some? ==> "" + Minify(rest).value == Minify(rest).value;
    }
  }

  lemma {:induction false} TidySpaces(spaces: Text)
    requires forall i :: 0 <= i < |spaces| ==> IsSpace(spaces[i])
    ensures Tidies(spaces, "")
  {
    if spaces == [] {
      TidyNothing();
    } else {
      TidySpace(spaces[0]);
      TidySpaces(spaces[1..]);
      TidyBoth([spaces[0]], "", spaces[1..], "");
      assert [spaces[0]] + spaces[1..] == spaces && "" + "" == "";
    }
  }

  predicate IsPlain(c: char) {
    c > ' ' && c != '/' && c != '\"'
  }

  lemma TidyPlainChar(c: char)
    requires IsPlain(c)
    ensures Tidies([c], [c])
  {
    forall rest: Text ensures Minify([c] + rest) == Before([c], Minify(rest)) {
      assert ([c] + rest)[1..] == rest;
    }
  }

  lemma {:induction false} TidyPlain(word: Text)
    requires forall i :: 0 <= i < |word| ==> IsPlain(word[i])
    ensures Tidies(word, word)
  {
    if word == [] {
      TidyNothing();
    } else {
      TidyPlainChar(word[0]);
      TidyPlain(word[1..]);
      TidyBoth([word[0]], [word[0]], word[1..], word[1..]);
      assert [word[0]] + word[1..] == word;
    }
  }

  lemma EscapeLength(c: char, rest: Text)
    requires c != NUL
    ensures LiteralLength(EscapeChar(c) + rest) == Plus(|EscapeChar(c)|, LiteralLength(rest))
  {
    var e := EscapeChar(c);
    if |e| == 1 {
      PlainLength(e, rest);
    } else {
      PlainLength(e[2..], rest);
      PairLength(e[1], e[2..] + rest);
      assert e + rest == ['\\', e[1]] + (e[2..] + rest);
    }
  }

  lemma PairLength(letter: char, rest: Text)
    requires letter != NUL
    ensures LiteralLength(['\\', letter] + rest) == Plus(2, LiteralLength(rest))
  {
    var t := ['\\', letter] + rest;
    assert t[1..][0] == letter && t[2..] == rest;
  }

  lemma {:induction false} PlainLength(word: Text, rest: Text)
    requires forall i :: 0 <= i < |word| ==> word[i] != NUL && word[i] != '\"' && word[i] != '\\'
    ensures LiteralLength(word + rest) == Plus(|word|, LiteralLength(rest))
  {
    if word == [] {
      assert word + rest == rest;
    } else {
      assert (word + rest)[1..] == word[1..] + rest;
      PlainLength(word[1..], rest);
    }
  }

  lemma {:induction false} LiteralLengthOfEscape(s: Text, close: Text)
    requires NulFree(s) && Head(close) == '\"'
    ensures LiteralLength(Escape(s) + close) == Some(|Escape(s)| + 1)
  {
    if s == [] {
      assert Escape(s) + close == close;
    } else {
      var tail := Escape(s[1..]) + close;
      Regroup(EscapeChar(s[0]), Escape(s[1..]), close);
      LiteralLengthOfEscape(s[1..], close);
      EscapeLength(s[0], tail);
    }
  }

  /** A string literal is copied untouched, escapes and all. */
  lemma TidyQuote(s: Text)
    requires NulFree(s)
    ensures Tidies(Quote(s), Quote(s))
  {
    forall rest: Text ensures Minify(Quote(s) + rest) == Before(Quote(s), Minify(rest)) {
      QuoteCopied(s, rest);
    }
  }

  lemma QuoteCopied(s: Text, rest: Text)
    requires NulFree(s)
    ensures Minify(Quote(s) + rest) == Before(Quote(s), Minify(rest))
  {
    var (t, body) := (Quote(s) + rest, Escape(s) + ("\"" + rest));
    LiteralLengthOfEscape(s, "\"" + rest);
    assert t == "\"" + body;
    assert t[1..] == body;
    assert t[..|Quote(s)|] == Quote(s) && t[|Quote(s)|..] == rest;
  }

  // ----- printed trees -----

  /** In front of any text, minifying a printed tree gives its unformatted text. */
  lemma {:induction false} TidyPrint(v: Json, depth: nat, fmt: bool)
    requires Printable(v)
    ensures Tidies(Print(v, depth, fmt), Print(v, depth, false))
    decreases v, 2
  {
    match v
    case String(s) => TidyQuote(s);
    case Array(items) => TidyArray(items, depth, fmt);
    case Object(ms) => TidyObject(ms, depth, fmt);
    case _ => TidyPlain(Print(v, depth, fmt));
  }

  lemma TidyArray(items: seq<Json>, depth: nat, fmt: bool)
    requires PrintableItems(items)
    ensures Tidies(Print(Array(items), depth, fmt), Print(Array(items), depth, false))
    decreases items, 1
  {
    TidyItems(items, depth + 1, fmt);
    TidyEnclosed("[", PrintItems(items, depth + 1, fmt), PrintItems(items, depth + 1, false), "]");
  }

  lemma {:induction false} TidyItems(items: seq<Json>, depth: nat, fmt: bool)
    requires PrintableItems(items)
    ensures Tidies(PrintItems(items, depth, fmt), PrintItems(items, depth, false))
    decreases items, 0
  {
    if items == [] {
      TidyNothing();
    } else {
      TidyPrint(items[0], depth, fmt);
      if |items| > 1 {
        TidyItems(items[1..], depth, fmt);
        TidySeparator(fmt);
        TidyThree(Print(items[0], depth, fmt), Print(items[0], depth, false), Separator(fmt), Separator(false),
                  PrintItems(items[1..], depth, fmt), PrintItems(items[1..], depth, false));
      }
    }
  }

  lemma TidySeparator(fmt: bool)
    ensures Tidies(Separator(fmt), Separator(false))
  {
    TidySpaces(When(fmt, " "));
    TidyPlain(",");
    TidyBoth(",", ",", When(fmt, " "), "");
  }

  lemma TidyThree(a: Text, a': Text, b: Text, b': Text, c: Text, c': Text)
    requires Tidies(a, a') && Tidies(b, b') && Tidies(c, c')
    ensures Tidies(a + b + c, a' + b' + c')
  {
    TidyBoth(a, a', b, b');
    TidyBoth(a + b, a' + b', c, c');
  }

  lemma TidyObject(ms: seq<Field>, depth: nat, fmt: bool)
    requires PrintableFields(ms)
    ensures Tidies(Print(Object(ms), depth, fmt), Print(Object(ms), depth, false))
    decreases ms, 2
  {
    if ms == [] {
      TidyEmptyObject(depth, fmt);
    } else {
      var (open, close) := (When(fmt, "\n"), When(fmt, Tabs(depth)));
      var (body, plain) := (PrintFields(ms, depth + 1, fmt), PrintFields(ms, depth + 1, false));
      TidyIndent(fmt, depth);
      TidyFields(ms, depth + 1, fmt);
      ObjectText(ms, depth, fmt);
      ObjectText(ms, depth, false);
      TidyBraces(open, body, plain, close);
    }
  }

  lemma TidyEmptyObject(depth: nat, fmt: bool)
    ensures Tidies(Print(Object([]), depth, fmt), Print(Object([]), depth, false))
  {
    var n := if depth == 0 then 0 else depth - 1;
    TidyIndent(fmt, n);
    TidyEnclosed("{", When(fmt, "\n" + Tabs(n)), "", "}");
  }

  lemma TidyIndent(fmt: bool, n: nat)
    ensures Tidies(When(fmt, "\n"), "") && Tidies(When(fmt, Tabs(n)), "") && Tidies(When(fmt, "\n" + Tabs(n)), "")
  {
    TidySpaces(When(fmt, "\n"));
    TidySpaces(When(fmt, Tabs(n)));
    TidySpaces(When(fmt, "\n" + Tabs(n)));
  }

  lemma TidyEnclosed(open: Text, body: Text, plain: Text, close: Text)
    requires Tidies(body, plain)
    requires forall i :: 0 <= i < |open| ==> IsPlain(open[i])
    requires forall i :: 0 <= i < |close| ==> IsPlain(close[i])
    ensures Tidies(open + body + close, open + plain + close)
  {
    TidyPlain(open);
    TidyPlain(close);
    TidyBoth(open, open, body, plain);
    TidyBoth(open + body, open + plain, close, close);
  }

  lemma TidyBraces(open: Text, body: Text, plain: Text, close: Text)
    requires Tidies(open, "") && Tidies(body, plain) && Tidies(close, "")
    ensures Tidies("{" + open + body + close + "}", "{" + "" + plain + "" + "}")
  {
    TidyPlain("{");
    TidyPlain("}");
    TidyBoth("{", "{", open, "");
    TidyBoth("{" + open, "{" + "", body, plain);
    TidyBoth("{" + open + body, "{" + "" + plain, close, "");
    TidyBoth("{" + open + body + close, "{" + "" + plain + "", "}", "}");
  }

  lemma {:induction false} TidyFields(ms: seq<Field>, depth: nat, fmt: bool)
    requires PrintableFields(ms)
    ensures Tidies(PrintFields(ms, depth, fmt), PrintFields(ms, depth, false))
    decreases ms, 1
  {
    if ms == [] {
      TidyNothing();
    } else {
      var (last, m) := (|ms| == 1, ms[0]);
      TidyHead(m.name, depth, fmt);
      TidyPrint(m.value, depth, fmt);
      TidyTail(last, fmt);
      TidyThree(FieldHead(m.name, depth, fmt), FieldHead(m.name, depth, false),
                Print(m.value, depth, fmt), Print(m.value, depth, false), FieldTail(last, fmt), FieldTail(last, false));
      TidyFields(ms[1..], depth, fmt);
      TidyBoth(FieldHead(m.name, depth, fmt) + Print(m.value, depth, fmt) + FieldTail(last, fmt),
               FieldHead(m.name, depth, false) + Print(m.value, depth, false) + FieldTail(last, false),
               PrintFields(ms[1..], depth, fmt), PrintFields(ms[1..], depth, false));
    }
  }

  lemma TidyHead(name: Text, depth: nat, fmt: bool)
    requires NulFree(name)
    ensures Tidies(FieldHead(name, depth, fmt), FieldHead(name, depth, false))
  {
    var (indent, gap) := (When(fmt, Tabs(depth)), When(fmt, "\t"));
    TidySpaces(indent);
    TidyQuote(name);
    TidyPlain(":");
    TidySpaces(gap);
    TidyBoth(indent, "", Quote(name), Quote(name));
    TidyBoth(indent + Quote(name), "" + Quote(name), ":", ":");
    TidyBoth(indent + Quote(name) + ":", "" + Quote(name) + ":", gap, "");
  }

  lemma TidyTail(last: bool, fmt: bool)
    ensures Tidies(FieldTail(last, fmt), FieldTail(last, false))
  {
    TidyPlain(When(!last, ","));
    TidySpaces(When(fmt, "\n"));
    TidyBoth(When(!last, ","), When(!last, ","), When(fmt, "\n"), "");
  }

  /** Minifying what the library prints formatted gives what it prints unformatted. */
  lemma MinifyFormatted(v: Json)
    requires Printable(v)
    ensures Minify(Print(v, 0, true)) == Some(Print(v, 0, false))
    ensures Minify(Print(v, 0, false)) == Some(Print(v, 0, false))
  {
    TidyPrint(v, 0, true);
    TidyPrint(v, 0, false);
    var (formatted, plain) := (Print(v, 0, true), Print(v, 0, false));
    assert Minify(formatted + "") == Minify(plain + "") == Before(plain, Some(""));
    assert formatted + "" == formatted && plain + "" == plain;
  }

  // ----- the in-place minifier -----

  /** From a position on, the buffer still holds the terminated text it started with. */
  ghost predicate Unread(json: array<char>, text: Text, from: nat)
    reads json
  {
    && from <= |text| < json.Length
    && json[|text|] == NUL
    && forall i | from <= i < |text| :: json[i] == text[i]
  }

  method SkipLine(json: array<char>, from: nat, ghost text: Text) returns (end: nat)
    requires Unread(json, text, from)
    ensures from <= end <= |text| && text[end..] == ToLineEnd(text[from..])
  {
    end := from;
    while json[end] != NUL && json[end] != '\n'
      invariant from <= end <= |text| && ToLineEnd(text[end..]) == ToLineEnd(text[from..])
      decreases |text| - end
    {
      end := end + 1;
    }
  }

  method SkipComment(json: array<char>, from: nat, ghost text: Text) returns (end: nat)
    requires Unread(json, text, from) && AfterComment(text[from..]).Some?
    ensures from < end <= |text| && Some(text[end..]) == AfterComment(text[from..])
  {
    end := from;
    while json[end] != NUL && !(json[end] == '*' && json[end + 1] == '/')
      invariant from <= end <= |text| && AfterComment(text[end..]) == AfterComment(text[from..])
      decreases |text| - end
    {
      assert text[end..][1..] == text[end + 1..];
      end := end + 1;
    }
    end := end + 2;
  }

  /** `*into++ = *json++` */
  method CopyDown(json: array<char>, from: nat, into: nat, ghost text: Text)
    requires Unread(json, text, from) && into <= from < |text|
    modifies json
    ensures json[..into + 1] == old(json[..into]) + [text[from]] && Unread(json, text, from + 1)
  {
    json[into] := json[from];
  }

  lemma Adjacent(before: Text, t: Text, from: nat, mid: nat, to: nat)
    requires from <= mid <= to <= |t|
    ensures before + t[from..mid] + t[mid..to] == before + t[from..to]
  {
  }

  lemma LiteralStep(t: Text, i: nat)
    requires i < |t| && LiteralLength(t[i..]).Some? && t[i] != '\"'
    ensures var step := if t[i] == '\\' then 2 else 1;
            i + step < |t| && LiteralLength(t[i..]).value > step
            && LiteralLength(t[i + step..]) == Some(LiteralLength(t[i..]).value - step)
  {
    var u := t[i..];
    assert u[1..] == t[i + 1..] && (|u| >= 2 ==> u[2..] == t[i + 2..]);
  }

  /** Copies a character of a literal down, with the one behind it if it is a backslash. */
  method CopyCharacter(json: array<char>, from: nat, into: nat, ghost text: Text) returns (from': nat, into': nat)
    requires Unread(json, text, from) && into <= from < |text|
    requires text[from] == '\\' ==> from + 1 < |text|
    modifies json
    ensures from' == from + (if text[from] == '\\' then 2 else 1) && into' == into + (from' - from)
    ensures json[..into'] == old(json[..into]) + text[from..from'] && Unread(json, text, from')
  {
    from', into' := from, into;
    if json[from'] == '\\' {
      CopyDown(json, from', into', text);
      from', into' := from' + 1, into' + 1;
    }
    CopyDown(json, from', into', text);
    from', into' := from' + 1, into' + 1;
  }

  /** The literal is copied up to a position; its closing quote stands before end. */
  ghost predicate Copied(json: array<char>, text: Text, before: Text, from: nat, from': nat, end: nat)
    reads json
  {
    && from <= from' < end <= |text| && |before| <= from && Unread(json, text, from')
    && json[..|before| + from' - from] == before + text[from..from']
    && LiteralLength(text[from'..]) == Some(end - from')
  }

  /** One turn of the loop over a literal. */
  method CopyNext(json: array<char>, ghost text: Text, ghost before: Text, ghost from: nat,
                  mid: nat, into: nat, ghost end: nat)
      returns (from': nat, into': nat)
    requires Copied(json, text, before, from, mid, end) && json[mid] != '\"' && into == |before| + mid - from
    modifies json
    ensures mid < from' && Copied(json, text, before, from, from', end) && into' == |before| + from' - from
  {
    LiteralStep(text, mid);
    from', into' := CopyCharacter(json, mid, into, text);
    Adjacent(before, text, from, mid, from');
  }

  /** Copies a literal down, from behind its opening quote to its closing one. */
  method CopyBody(json: array<char>, from: nat, into: nat, ghost text: Text) returns (from': nat, into': nat)
    requires Unread(json, text, from) && into <= from && LiteralLength(text[from..]).Some?
    modifies json
    ensures from' == from + LiteralLength(text[from..]).value - 1 < |text| && into' == into + (from' - from)
    ensures json[..into'] == old(json[..into]) + text[from..from'] && Unread(json, text, from')
  {
    ghost var (end, before) := (from + LiteralLength(text[from..]).value, json[..into]);
    from', into' := from, into;
    while json[from'] != NUL && json[from'] != '\"'
      invariant Copied(json, text, before, from, from', end) && into' == |before| + from' - from
      decreases |text| - from'
    {
      from', into' := CopyNext(json, text, before, from, from', into', end);
    }
  }

  /** Copies a string literal down, from its opening quote to behind its closing one. */
  method CopyLiteral(json: array<char>, from: nat, into: nat, ghost text: Text) returns (from': nat, into': nat)
    requires Unread(json, text, from) && from < |text| && text[from] == '\"' && into <= from
    requires LiteralLength(text[from + 1..]).Some?
    modifies json
    ensures from' == from + 1 + LiteralLength(text[from + 1..]).value <= |text| && into' == into + (from' - from)
    ensures json[..into'] == old(json[..into]) + text[from..from'] && Unread(json, text, from')
  {
    CopyDown(json, from, into, text);
    from', into' := CopyBody(json, from + 1, into + 1, text);
    CopyDown(json, from', into', text);
    LiteralJoin(old(json[..into]), text, from, from');
    from', into' := from' + 1, into' + 1;
  }

  lemma LiteralJoin(before: Text, t: Text, from: nat, to: nat)
    requires from < to < |t|
    ensures before + [t[from]] + t[from + 1..to] + [t[to]] == before + t[from..to + 1]
  {
  }

  /** What is left of a text is no longer than the text. */
  lemma MinifyShrinks(t: Text)
    requires Minify(t).Some?
    ensures |Minify(t).value| <= |t|
    decreases |t|
  {
    if Head(t) == NUL {
    } else if IsSpace(t[0]) {
      MinifyShrinks(t[1..]);
    } else if t[0] == '/' && Head(t[1..]) == '/' {
      MinifyShrinks(ToLineEnd(t));
    } else if t[0] == '/' && Head(t[1..]) == '*' {
      MinifyShrinks(AfterComment(t).value);
    } else if t[0] == '\"' {
      MinifyShrinks(t[1 + LiteralLength(t[1..]).value..]);
    } else {
      MinifyShrinks(t[1..]);
    }
  }

  /** One turn of the loop: drops blanks or a comment, or copies a literal or a character. */
  method MinifyNext(json: array<char>, from: nat, into: nat, ghost text: Text)
      returns (from': nat, into': nat, ghost piece: Text)
    requires Unread(json, text, from) && into <= from && json[from] != NUL && Minify(text[from..]).Some?
    modifies json
    ensures from < from' <= |text| && into <= into' <= from' && Unread(json, text, from')
    ensures json[..into'] == old(json[..into]) + piece
    ensures Minify(text[from..]) == Before(piece, Minify(text[from'..])) && Minify(text[from'..]).Some?
  {
    ghost var t := text[from..];
    from', into', piece := from, into, "";
    if IsSpace(json[from]) {
      from' := from + 1;
    } else if json[from] == '/' && json[from + 1] == '/' {
      from' := SkipLine(json, from, text);
    } else if json[from] == '/' && json[from + 1] == '*' {
      from' := SkipComment(json, from, text);
    } else if json[from] == '\"' {
      from', into' := CopyLiteral(json, from, into, text);
      piece := text[from..from'];
      assert t[..from' - from] == piece && t[from' - from..] == text[from'..];
    } else {
      CopyDown(json, from, into, text);
      from', into', piece := from + 1, into + 1, [text[from]];
    }
    assert piece == "" ==> piece + Minify(text[from'..]).value == Minify(text[from'..]).value;
  }

  lemma NothingLeft(done: Text, t: Text)
    requires Head(t) == NUL
    ensures Minify(t) == Some("") && done + Minify(t).value == done
  {
  }

  /** Overwrites a terminated text with what Minify leaves of it. */
  method MinifyInPlace(json: array<char>, ghost text: Text)
    requires Unread(json, text, 0) && Minify(text).Some?
    modifies json
    ensures |Minify(text).value| <= |text|
    ensures json[..|Minify(text).value|] == Minify(text).value && json[|Minify(text).value|] == NUL
  {
    MinifyShrinks(text);
    var from: nat, into: nat := 0, 0;
    ghost var done: Text := "";
    assert text[0..] == text;
    assert done + Minify(text).value == Minify(text).value;
    while json[from] != NUL
      invariant into <= from <= |text| && Unread(json, text, from)
      invariant done == json[..into] && Minify(text[from..]).Some?
      invariant done + Minify(text[from..]).value == Minify(text).value
      decreases |text| - from
    {
      ghost var piece;
      from, into, piece := MinifyNext(json, from, into, text);
      Regroup(done, piece, Minify(text[from..]).value);
      done := done + piece;
    }
    NothingLeft(done, text[from..]);
    json[into] := NUL;
  }

  // ----- what is dropped -----

  /** Blanks, tabs and line ends vanish, wherever they stand between tokens. */
  lemma WhiteSpaceDropped(spaces: Text)
    requires forall i :: 0 <= i < |spaces| ==> spaces[i] in " \t\r\n"
    ensures Tidies(spaces, "")
  {
    TidySpaces(spaces);
  }

  /** A line comment vanishes with the end of its line. */
  lemma LineCommentDropped(comment: Text)
    requires forall i :: 0 <= i < |comment| ==> comment[i] != NUL && comment[i] != '\n'
    ensures Tidies("//" + comment + "\n", "")
  {
    forall rest: Text ensures Minify("//" + comment + "\n" + rest) == Before("", Minify(rest)) {
      LineCommentOnce(comment, rest);
    }
  }

  lemma LineCommentOnce(comment: Text, rest: Text)
    requires forall i :: 0 <= i < |comment| ==> comment[i] != NUL && comment[i] != '\n'
    ensures Minify("//" + comment + "\n" + rest) == Before("", Minify(rest))
  {
    var (start, end) := ("//" + comment, "\n" + rest);
    var t := start + end;
    Regroup(start, "\n", rest);
    LineEnds(start, end);
    assert t[0] == '/' && t[1..][0] == '/';
    LineSkipped(t, end);
    assert end[1..] == rest;
    Unchanged(Minify(rest));
  }

  lemma LineSkipped(t: Text, end: Text)
    requires Head(t) == '/' && Head(t[1..]) == '/' && ToLineEnd(t) == end && Head(end) == '\n'
    ensures Minify(t) == Minify(end[1..])
  {
  }

  lemma {:induction false} LineEnds(t: Text, end: Text)
    requires (forall i :: 0 <= i < |t| ==> t[i] != NUL && t[i] != '\n') && Head(end) == '\n'
    ensures ToLineEnd(t + end) == end
  {
    if t == "" {
      assert t + end == end;
    } else {
      assert (t + end)[1..] == t[1..] + end;
      LineEnds(t[1..], end);
    }
  }

  lemma Unchanged(o: Option<Text>)
    ensures Before("", o) == o
  {
    assert o.Some? ==> "" + o.value == o.value;
  }

  /** No end of a comment begins within a text. */
  predicate NoEnd(comment: Text) {
    forall i :: 0 <= i < |comment| ==>
      comment[i] != NUL && !(comment[i] == '*' && i + 1 < |comment| && comment[i + 1] == '/')
  }

  /** A comment over several lines vanishes up to its first end. */
  lemma BlockCommentDropped(comment: Text)
    requires NoEnd(comment) && (comment == "" || comment[0] != '/')
    ensures Tidies("/*" + comment + "*/", "")
  {
    forall rest: Text ensures Minify("/*" + comment + "*/" + rest) == Before("", Minify(rest)) {
      BlockCommentOnce(comment, rest);
    }
  }

  lemma BlockCommentOnce(comment: Text, rest: Text)
    requires NoEnd(comment) && (comment == "" || comment[0] != '/')
    ensures Minify("/*" + comment + "*/" + rest) == Before("", Minify(rest))
  {
    var tail := "*" + (comment + ("*/" + rest));
    Opened(comment, rest);
    AfterStart(comment, rest);
    CommentSkipped("/" + tail, tail, rest);
    Unchanged(Minify(rest));
  }

  lemma Opened(comment: Text, rest: Text)
    ensures "/*" + comment + "*/" + rest == "/" + ("*" + (comment + ("*/" + rest)))
  {
  }

  lemma CommentSkipped(t: Text, tail: Text, rest: Text)
    requires t == "/" + tail && Head(tail) == '*' && AfterComment(tail) == Some(rest)
    ensures Minify(t) == Minify(rest)
  {
    assert t[1..] == tail;
    assert AfterComment(t) == AfterComment(tail);
  }

  lemma AfterStart(comment: Text, rest: Text)
    requires NoEnd(comment) && (comment == "" || comment[0] != '/')
    ensures AfterComment("*" + (comment + ("*/" + rest))) == Some(rest)
  {
    var t := "*" + (comment + ("*/" + rest));
    assert t[1..] == comment + ("*/" + rest);
    assert comment == "" ==> t[1] == '*';
    CommentEnds(comment, rest);
  }

  lemma {:induction false} CommentEnds(comment: Text, rest: Text)
    requires NoEnd(comment)
    ensures AfterComment(comment + ("*/" + rest)) == Some(rest)
  {
    var t := comment + ("*/" + rest);
    if comment == "" {
      assert t == "*/" + rest && t[2..] == rest;
    } else {
      assert t[1..] == comment[1..] + ("*/" + rest);
      assert |comment| == 1 ==> t[1] == '*';
      CommentEnds(comment[1..], rest);
    }
  }
}
