/** Minifying keeps the meaning of every document the parser accepts. */
module JsonMinifyMeaning {
  import opened Text
  import opened Utf8
  import opened JsonTree
  import opened JsonParse
  import opened JsonMinify
  import opened JsonRoundTrip

  // ----- string literals -----

  lemma UnitStart(t: Text, i: nat)
    requires i <= |t|
    ensures StartsWith(t[i..], "\\u") <==> i + 1 < |t| && t[i] == '\\' && t[i + 1] == 'u'
  {
    if i + 1 < |t| {
      assert t[i..][..2] == [t[i], t[i + 1]];
    }
  }

  lemma UnitLength(s: Text)
    requires |s| >= 6 && s[0] == '\\' && s[1] == 'u' && IsHex4(s[2..])
    ensures LiteralLength(s) == Plus(6, LiteralLength(s[6..]))
  {
    PlainLength(s[2..6], s[6..]);
    assert s[2..] == s[2..6] + s[6..];
  }

  lemma PairUnits(s: Text)
    requires |s| >= 12 && s[0] == '\\' && s[1] == 'u' && s[6] == '\\' && s[7] == 'u' && IsHex4(s[2..]) && IsHex4(s[8..])
    ensures LiteralLength(s) == Plus(12, LiteralLength(s[12..]))
  {
    UnitLength(s);
    assert s[6..][2..] == s[8..] && s[6..][6..] == s[12..];
    UnitLength(s[6..]);
  }

  /** How many characters a step passes. */
  function Passed(s: Text): (k: nat)
    requires Head(s) != NUL && Step(s).Parsed?
  {
    |s| - |Step(s).rest|
  }

  /** A step of the parser passes as many characters as the minifier copies for it. */
  lemma StepLength(s: Text)
    requires Head(s) != NUL && s[0] != '\"' && Step(s).Parsed?
    ensures Step(s).rest == s[Passed(s)..] && LiteralLength(s) == Plus(Passed(s), LiteralLength(s[Passed(s)..]))
  {
    if s[0] == '\\' && s[1] == 'u' {
      UnitStep(s);
    }
  }

  lemma UnitStep(s: Text)
    requires |s| >= 6 && s[0] == '\\' && s[1] == 'u' && IsHex4(s[2..]) && Step(s).Parsed?
    ensures Step(s).rest == s[6..] || Step(s).rest == s[12..]
    ensures LiteralLength(s) == Plus(Passed(s), LiteralLength(Step(s).rest))
  {
    UnitLength(s);
    if IsHighSurrogate(Hex4(s[2..])) && StartsWith(s[6..], "\\u") {
      UnitStart(s, 6);
      PairUnits(s);
    }
  }

  /** The same step in another text that agrees on the literal. */
  lemma StepElsewhere(s: Text, n: nat, t: Text)
    requires LiteralLength(s) == Some(n) && s[0] != '\"' && Step(s).Parsed?
    requires n <= |t| && forall i :: 0 <= i < n ==> t[i] == s[i]
    ensures Passed(s) < n && Step(t) == Parsed(Step(s).value, t[Passed(s)..])
  {
    StepLength(s);
    if s[0] == '\\' && s[1] == 'u' {
      UnitElsewhere(s, n, t);
    }
  }

  lemma SameHex(s: Text, t: Text, i: nat)
    requires i + 4 <= |s| && i + 4 <= |t| && (forall j :: i <= j < i + 4 ==> t[j] == s[j]) && IsHex4(s[i..])
    ensures IsHex4(t[i..]) && Hex4(t[i..]) == Hex4(s[i..])
  {
    assert forall k :: 0 <= k < 4 ==> t[i..][k] == t[i + k] == s[i + k] == s[i..][k];
  }

  lemma UnitElsewhere(s: Text, n: nat, t: Text)
    requires LiteralLength(s) == Some(n) && Step(s).Parsed? && s[0] == '\\' && s[1] == 'u'
    requires n <= |t| && forall i :: 0 <= i < n ==> t[i] == s[i]
    ensures Passed(s) < n && Step(t) == Parsed(Step(s).value, t[Passed(s)..])
  {
    BehindUnit(s, n);
    SameHex(s, t, 2);
    if IsHighSurrogate(Hex4(s[2..])) {
      HighElsewhere(s, n, t);
    } else {
      OneUnitStep(s);
      OneUnitStep(t);
    }
  }

  lemma BehindUnit(s: Text, n: nat)
    requires LiteralLength(s) == Some(n) && |s| >= 6 && s[0] == '\\' && s[1] == 'u' && IsHex4(s[2..])
    ensures 6 < n <= |s| && LiteralLength(s[6..]) == Some(n - 6)
  {
    UnitLength(s);
    var behind := LiteralLength(s[6..]);
    assert Plus(6, behind) == Some(n);
  }

  lemma OneUnitStep(t: Text)
    requires |t| >= 6 && t[0] == '\\' && t[1] == 'u' && IsHex4(t[2..]) && !IsHighSurrogate(Hex4(t[2..]))
    ensures var uc := Hex4(t[2..]);
            Step(t) == Parsed(if IsLowSurrogate(uc) || uc == 0 then "" else Encode(uc), t[6..])
  {
  }

  lemma HighElsewhere(s: Text, n: nat, t: Text)
    requires 6 < n <= |s| && LiteralLength(s[6..]) == Some(n - 6)
    requires s[0] == '\\' && s[1] == 'u' && Step(s).Parsed? && IsHex4(s[2..]) && IsHighSurrogate(Hex4(s[2..]))
    requires n <= |t| && (forall i :: 0 <= i < n ==> t[i] == s[i]) && IsHex4(t[2..]) && Hex4(t[2..]) == Hex4(s[2..])
    ensures Passed(s) < n && Step(t) == Parsed(Step(s).value, t[Passed(s)..])
  {
    if StartsWith(s[6..], "\\u") {
      PairElsewhere(s, n, t);
    } else {
      NoUnit(s, n, t);
      LoneStep(s);
      LoneStep(t);
    }
  }

  lemma LoneStep(t: Text)
    requires |t| >= 6 && t[0] == '\\' && t[1] == 'u' && IsHex4(t[2..]) && IsHighSurrogate(Hex4(t[2..]))
    requires !StartsWith(t[6..], "\\u")
    ensures Step(t) == Parsed("", t[6..])
  {
  }

  lemma PairElsewhere(s: Text, n: nat, t: Text)
    requires |s| >= 6 && s[0] == '\\' && s[1] == 'u' && IsHex4(s[2..]) && IsHighSurrogate(Hex4(s[2..]))
    requires 6 < n <= |s| && LiteralLength(s[6..]) == Some(n - 6) && StartsWith(s[6..], "\\u") && IsHex4(s[8..])
    requires n <= |t| && (forall i :: 0 <= i < n ==> t[i] == s[i]) && IsHex4(t[2..]) && Hex4(t[2..]) == Hex4(s[2..])
    ensures 12 < n && Step(s).rest == s[12..] && Step(t) == Parsed(Step(s).value, t[12..])
  {
    UnitStart(s, 6);
    UnitLength(s[6..]);
    SameHex(s, t, 8);
    UnitStart(t, 6);
  }

  lemma NoUnit(s: Text, n: nat, t: Text)
    requires 6 < n <= |s| && n <= |t| && LiteralLength(s[6..]) == Some(n - 6)
    requires (forall i :: 0 <= i < n ==> t[i] == s[i]) && !StartsWith(s[6..], "\\u")
    ensures !StartsWith(t[6..], "\\u")
  {
    UnitStart(s, 6);
    UnitStart(t, 6);
    assert s[6] == '\\' ==> n >= 9;
  }

  /** Parser and minifier end a literal at the same quote, and what the literal means does not
      depend on what follows it. */
  lemma {:induction false} LiteralElsewhere(s: Text, n: nat, rest: Text)
    requires LiteralLength(s) == Some(n) && Unescape(s).Parsed?
    ensures Unescape(s).rest == s[n..] && Unescape(s[..n] + rest) == Parsed(Unescape(s).value, rest)
    decreases |s|
  {
    var t := s[..n] + rest;
    if s[0] == '\"' {
      assert t[1..] == rest;
    } else {
      StepLength(s);
      StepElsewhere(s, n, t);
      var k := Passed(s);
      LiteralElsewhere(s[k..], n - k, rest);
      Shifted(s, k, n, rest);
    }
  }

  lemma Shifted(s: Text, k: nat, n: nat, rest: Text)
    requires k <= n <= |s|
    ensures s[k..][n - k..] == s[n..] && (s[..n] + rest)[k..] == s[k..][..n - k] + rest
  {
  }

  lemma {:induction false} OpenLiteral(s: Text)
    requires Unescape(s).Parsed? && LiteralLength(s).None?
    ensures Head(Unescape(s).rest) == NUL
    decreases |s|
  {
    if Head(s) != NUL {
      StepLength(s);
      OpenLiteral(s[Passed(s)..]);
    }
  }

  /** If it is a string literal that stands here, it has its closing quote. */
  predicate Closed(t: Text) {
    Head(t) == '\"' ==> LiteralLength(t[1..]).Some?
  }

  /** The parser also takes a literal that is cut short, but only at the very end of the text. */
  lemma ClosedString(t: Text)
    requires ParseString(t).Parsed? && Head(Skip(ParseString(t).rest)) != NUL
    ensures Closed(t)
  {
    if !Closed(t) {
      OpenLiteral(t[1..]);
    }
  }

  lemma ClosedValue(t: Text)
    requires ParseValue(t).Parsed? && Head(Skip(ParseValue(t).rest)) != NUL
    ensures Closed(t)
  {
    if Head(t) == '\"' {
      NotAWord(t);
      ClosedString(t);
    }
  }

  // ----- numbers -----

  /** Nothing that could go on with a number, not even one that ends in an exponent letter. */
  predicate EndsNumber(rest: Text) {
    !IsDigit(Head(rest)) && Head(rest) !in ".eE+-"
  }

  predicate Numeral(c: Text) {
    forall i :: 0 <= i < |c| ==> IsDigit(c[i]) || c[i] in ".eE+-"
  }

  lemma {:induction false} DigitsElsewhere(acc: int, t: Text, other: Text) returns (c: Text)
    requires !IsDigit(Head(other))
    ensures t == c + TakeDigits(acc, t).1 && Numeral(c) && (c == "" || IsDigit(c[0]))
    ensures TakeDigits(acc, c + other) == (TakeDigits(acc, t).0, other)
    decreases |t|
  {
    if IsDigit(Head(t)) {
      var d := acc * 10 + (t[0] as int - '0' as int);
      var more := DigitsElsewhere(d, t[1..], other);
      c := [t[0]] + more;
      assert (c + other)[1..] == more + other;
    } else {
      c := "";
      assert c + t == t && c + other == other;
    }
  }

  lemma IntegerElsewhere(t: Text, other: Text) returns (c: Text)
    requires !IsDigit(Head(other))
    ensures t == c + TakeInteger(t).1 && Numeral(c) && (IsDigit(Head(t)) ==> c != "") && (c == "" || IsDigit(c[0]))
    ensures TakeInteger(c + other) == (TakeInteger(t).0, other)
  {
    if Head(t) == '0' {
      c := ZeroElsewhere(t, other);
    } else {
      c := NonZeroElsewhere(t, other);
    }
  }

  lemma ZeroElsewhere(t: Text, other: Text) returns (c: Text)
    requires Head(t) == '0' && !IsDigit(Head(other))
    ensures t == c + TakeInteger(t).1 && Numeral(c) && c != "" && IsDigit(c[0])
    ensures TakeInteger(c + other) == (TakeInteger(t).0, other)
  {
    var digits := NonZeroElsewhere(t[1..], other);
    c := "0" + digits;
    assert (c + other)[1..] == digits + other;
    assert t == "0" + t[1..];
    Regroup("0", digits, TakeInteger(t).1);
  }

  /** Digits from a non-zero one on. */
  function TakeNonZero(t: Text): (int, Text) {
    if '1' <= Head(t) <= '9' then TakeDigits(0, t) else (0, t)
  }

  lemma NonZeroElsewhere(t: Text, other: Text) returns (c: Text)
    requires !IsDigit(Head(other))
    ensures t == c + TakeNonZero(t).1 && Numeral(c) && ('1' <= Head(t) <= '9' ==> c != "")
            && (c == "" || '1' <= c[0] <= '9')
    ensures TakeNonZero(c + other) == (TakeNonZero(t).0, other)
  {
    if '1' <= Head(t) <= '9' {
      c := DigitsElsewhere(0, t, other);
      assert c != "" ==> c[0] == t[0];
      assert Head(c + other) == t[0];
    } else {
      c := "";
      assert c + other == other && c + t == t;
    }
  }

  lemma FractionElsewhere(acc: int, t: Text, other: Text) returns (c: Text)
    requires !IsDigit(Head(other)) && Head(other) != '.'
    ensures t == c + TakeFraction(acc, t).2 && Numeral(c) && (c == "" || c[0] == '.')
    ensures TakeFraction(acc, c + other) == (TakeFraction(acc, t).0, TakeFraction(acc, t).1, other)
  {
    if Head(t) == '.' && IsDigit(Head(t[1..])) {
      var digits := DigitsElsewhere(acc, t[1..], other);
      c := "." + digits;
      assert (c + other)[1..] == digits + other;
      assert t == "." + t[1..];
    } else {
      c := "";
      assert c + other == other && c + t == t;
    }
  }

  lemma ExponentElsewhere(t: Text, other: Text) returns (c: Text)
    requires EndsNumber(other)
    ensures t == c + TakeExponent(t).1 && Numeral(c) && (c == "" || c[0] in "eE")
    ensures TakeExponent(c + other) == (TakeExponent(t).0, other)
  {
    if Head(t) == 'e' || Head(t) == 'E' {
      var start, t1 := CutExponent(t);
      var digits := DigitsElsewhere(0, t1, other);
      c := start + digits;
      ExponentParts(start, t1, t);
      assert |start| == 1 ==> Head(digits + other) !in "+-";
      ExponentParts(start, digits + other, c + other);
      Regroup(start, digits, other);
      Regroup(start, digits, TakeExponent(t).1);
    } else {
      c := "";
      assert c + other == other && c + t == t;
    }
  }

  /** The letter of an exponent, with its sign if it has one. */
  predicate ExponentStart(start: Text) {
    start != "" && start[0] in "eE" && (|start| == 1 || (|start| == 2 && start[1] in "+-"))
  }

  lemma CutExponent(t: Text) returns (start: Text, t1: Text)
    requires Head(t) == 'e' || Head(t) == 'E'
    ensures ExponentStart(start) && t == start + t1 && (|start| == 1 ==> Head(t1) !in "+-")
  {
    start := if Head(t[1..]) in "+-" then [t[0], t[1]] else [t[0]];
    t1 := t[|start|..];
  }

  lemma ExponentParts(start: Text, t: Text, all: Text)
    requires ExponentStart(start) && all == start + t
    requires |start| == 1 ==> Head(t) !in "+-"
    ensures TakeExponent(all)
         == (if |start| == 2 && start[1] == '-' then -TakeDigits(0, t).0 else TakeDigits(0, t).0, TakeDigits(0, t).1)
  {
    assert all[0] == start[0] && all[|start|..] == t;
    if |start| == 2 {
      assert all[1] == start[1];
      assert all[1..][1..] == all[2..];
    }
  }

  /** Fraction and exponent. */
  lemma ScaleElsewhere(n: int, t: Text, other: Text) returns (c: Text)
    requires EndsNumber(other)
    ensures Numeral(c) && !IsDigit(Head(c + other))
    ensures var (m, scale, t1) := TakeFraction(n, t);
            var (exponent, rest) := TakeExponent(t1);
            var (m', scale', t1') := TakeFraction(n, c + other);
            t == c + rest && m' == m && scale' == scale && TakeExponent(t1') == (exponent, other)
  {
    var t1 := TakeFraction(n, t).2;
    var c4 := ExponentElsewhere(t1, other);
    var c3 := FractionElsewhere(n, t, c4 + other);
    c := c3 + c4;
    Regroup(c3, c4, other);
    Regroup(c3, c4, TakeExponent(t1).1);
  }

  lemma UnsignedElsewhere(t: Text, other: Text) returns (c: Text)
    requires EndsNumber(other)
    ensures Numeral(c) && (IsDigit(Head(t)) ==> c != "" && c[0] == t[0])
    ensures var (n, t1) := TakeInteger(t);
            var (m, scale, t2) := TakeFraction(n, t1);
            var (exponent, rest) := TakeExponent(t2);
            var (n', t1') := TakeInteger(c + other);
            var (m', scale', t2') := TakeFraction(n', t1');
            t == c + rest && m' == m && scale' == scale && TakeExponent(t2') == (exponent, other)
  {
    var (n, t1) := TakeInteger(t);
    var c34 := ScaleElsewhere(n, t1, other);
    var c2 := IntegerElsewhere(t, c34 + other);
    c := c2 + c34;
    Regroup(c2, c34, other);
    Regroup(c2, c34, TakeExponent(TakeFraction(n, t1).2).1);
  }

  /** A number reads the same in front of anything that cannot go on with it. */
  lemma NumberElsewhere(t: Text, other: Text) returns (c: Text)
    requires (Head(t) == '-' || IsDigit(Head(t))) && EndsNumber(other)
    ensures t == c + ParseNumber(t).1 && Numeral(c) && c != "" && c[0] == t[0]
    ensures ParseNumber(c + other) == (ParseNumber(t).0, other)
  {
    if Head(t) == '-' {
      c := NegativeElsewhere(t, other);
    } else {
      c := UnsignedElsewhere(t, other);
      assert (c + other)[0] == c[0];
    }
  }

  lemma NegativeElsewhere(t: Text, other: Text) returns (c: Text)
    requires Head(t) == '-' && EndsNumber(other)
    ensures t == c + ParseNumber(t).1 && Numeral(c) && c != "" && c[0] == t[0]
    ensures ParseNumber(c + other) == (ParseNumber(t).0, other)
  {
    var body := UnsignedElsewhere(t[1..], other);
    c := "-" + body;
    assert (c + other)[1..] == body + other;
    assert t == "-" + t[1..];
    Regroup("-", body, ParseNumber(t).1);
  }

  // ----- what the minifier makes of the front of a text -----

  /** Up to where rest starts, the minifier leaves u of t. */
  ghost predicate Leaves(t: Text, u: Text, rest: Text) {
    Minify(t) == Before(u, Minify(rest))
  }

  lemma LeavesBoth(t: Text, u: Text, middle: Text, u': Text, rest: Text)
    requires Leaves(t, u, middle) && Leaves(middle, u', rest)
    ensures Leaves(t, u + u', rest)
  {
    BeforeBefore(u, u', Minify(rest));
  }

  lemma LeavesPlain(c: Text, rest: Text)
    requires forall i :: 0 <= i < |c| ==> IsPlain(c[i])
    ensures Leaves(c + rest, c, rest)
  {
    TidyPlain(c);
    assert Minify(c + rest) == Before(c, Minify(rest));
  }

  lemma LeavesChar(c: char, t: Text)
    requires IsPlain(c) && Head(t) == c
    ensures Leaves(t, [c], t[1..])
  {
    assert t == [c] + t[1..];
    LeavesPlain([c], t[1..]);
  }

  lemma BeforeNothing(o: Option<Text>)
    ensures Before("", o) == o
  {
    assert o.Some? ==> "" + o.value == o.value;
  }

  /** Of blanks, some may be left. */
  lemma {:induction false} LeavesBlanks(t: Text) returns (b: Text)
    ensures AllBlank(b) && Leaves(t, b, Skip(t))
  {
    if IsBlank(Head(t)) {
      var more := LeavesBlanks(t[1..]);
      if IsSpace(t[0]) {
        b := more;
      } else {
        b := [t[0]] + more;
        BeforeBefore([t[0]], more, Minify(Skip(t)));
      }
    } else {
      b := "";
      BeforeNothing(Minify(t));
    }
  }

  lemma {:induction false} SkipMore(b: Text, t: Text)
    requires AllBlank(b)
    ensures Skip(b + t) == Skip(t)
  {
    if b == "" {
      assert b + t == t;
    } else {
      assert (b + t)[1..] == b[1..] + t;
      SkipMore(b[1..], t);
    }
  }

  // ----- values -----

  /** A text that reads as a value wherever it stands. */
  ghost predicate Reads(u: Text, v: Json) {
    u != "" && OpensValue(u[0]) && forall other | EndsNumber(other) :: ParseValue(u + other) == Parsed(v, other)
  }

  lemma NumberKept(t: Text) returns (u: Text)
    requires Head(t) == '-' || IsDigit(Head(t))
    ensures Leaves(t, u, ParseNumber(t).1) && Reads(u, Number(ParseNumber(t).0))
  {
    var (n, rest) := ParseNumber(t);
    u := NumberElsewhere(t, "");
    LeavesPlain(u, rest);
    forall other | EndsNumber(other) ensures ParseValue(u + other) == Parsed(Number(n), other) {
      var c := NumberElsewhere(t, other);
      assert |c| == |u| && c == t[..|c|] == u;
      NotAWord(u + other);
    }
  }

  lemma StringKept(t: Text) returns (u: Text)
    requires Head(t) == '\"' && ParseString(t).Parsed? && Closed(t)
    ensures Leaves(t, u, ParseString(t).rest) && u != "" && u[0] == '\"'
    ensures forall other :: ParseString(u + other) == Parsed(ParseString(t).value, other)
  {
    var n := LiteralLength(t[1..]).value;
    u := t[..1 + n];
    LiteralLeft(t, n);
    forall other: Text ensures ParseString(u + other) == Parsed(ParseString(t).value, other) {
      StringElsewhere(t, n, other);
    }
  }

  lemma LiteralLeft(t: Text, n: nat)
    requires Head(t) == '\"' && ParseString(t).Parsed? && LiteralLength(t[1..]) == Some(n)
    ensures Leaves(t, t[..1 + n], ParseString(t).rest)
  {
    LiteralElsewhere(t[1..], n, "");
    assert t[1..][n..] == t[1 + n..];
  }

  lemma StringElsewhere(t: Text, n: nat, other: Text)
    requires Head(t) == '\"' && ParseString(t).Parsed? && LiteralLength(t[1..]) == Some(n)
    ensures ParseString(t[..1 + n] + other) == Parsed(ParseString(t).value, other)
  {
    LiteralElsewhere(t[1..], n, other);
    BehindFirst(t, n, other);
  }

  lemma BehindFirst(t: Text, n: nat, other: Text)
    requires 1 + n <= |t|
    ensures (t[..1 + n] + other)[1..] == t[1..][..n] + other && (t[..1 + n] + other)[0] == t[0]
  {
  }

  lemma StringReads(u: Text, s: Text)
    requires u != "" && u[0] == '\"' && forall other :: ParseString(u + other) == Parsed(s, other)
    ensures Reads(u, String(s))
  {
    forall other | EndsNumber(other) ensures ParseValue(u + other) == Parsed(String(s), other) {
      NotAWord(u + other);
    }
  }

  lemma WordKept(t: Text, word: Text)
    requires word in ["null", "false", "true"] && StartsWith(t, word)
    ensures Leaves(t, word, t[|word|..])
    ensures Reads(word, if word == "null" then Null else if word == "false" then False else True)
  {
    assert t == word + t[|word|..];
    LeavesPlain(word, t[|word|..]);
    forall other: Text ensures ParseValue(word + other)
      == Parsed(if word == "null" then Null else if word == "false" then False else True, other)
    {
      ReadWord(word, other);
    }
  }

  // ----- arrays and objects -----

  /** Blanks, then a mark: what the minifier leaves of both. */
  lemma MarkKept(t: Text, u: Text, rest: Text, mark: char) returns (b: Text)
    requires Leaves(t, u, rest) && Head(Skip(rest)) == mark && IsPlain(mark)
    ensures AllBlank(b) && Leaves(t, u + (b + [mark]), Skip(rest)[1..])
  {
    b := LeavesBlanks(rest);
    var at := Skip(rest);
    LeavesChar(mark, at);
    LeavesBoth(rest, b, at, [mark], at[1..]);
    LeavesBoth(t, u, rest, b + [mark], at[1..]);
  }

  /** The white space up to the next token. */
  lemma GapKept(t: Text, u: Text, rest: Text) returns (b: Text)
    requires Leaves(t, u, rest)
    ensures AllBlank(b) && Leaves(t, u + b, Skip(rest))
  {
    b := LeavesBlanks(rest);
    LeavesBoth(t, u, rest, b, Skip(rest));
  }

  lemma BlanksEndNumber(b: Text, mark: char, rest: Text)
    requires AllBlank(b) && mark in ",]}"
    ensures EndsNumber(b + ([mark] + rest))
  {
  }

  ghost predicate ReadsItems(w: Text, items: seq<Json>) {
    w != "" && OpensValue(w[0]) && forall other: Text :: ParseItems(w + other) == Parsed(items, other)
  }

  ghost predicate ReadsFields(w: Text, ms: seq<Field>) {
    w != "" && w[0] == '\"' && forall other: Text :: ParseFields(w + other) == Parsed(ms, other)
  }

  ghost predicate ReadsField(w: Text, m: Field) {
    w != "" && w[0] == '\"' && forall other | EndsNumber(other) :: ParseField(w + other) == Parsed(m, other)
  }

  lemma Reassociate(u: Text, b: Text, mark: Text, a: Text, w: Text, other: Text)
    ensures u + (b + mark) + a + w + other == u + (b + (mark + (a + (w + other))))
  {
  }

  lemma Close(u: Text, b: Text, mark: Text, other: Text)
    ensures u + (b + mark) + other == u + (b + (mark + other))
  {
  }

  lemma LastItem(u: Text, v: Json, b: Text)
    requires Reads(u, v) && AllBlank(b)
    ensures ReadsItems(u + (b + "]"), [v])
  {
    forall other: Text ensures ParseItems(u + (b + "]") + other) == Parsed([v], other) {
      var t := u + (b + ("]" + other));
      Close(u, b, "]", other);
      BlanksEndNumber(b, ']', other);
      ReadLastItem(t, v, b, other);
    }
  }

  lemma MoreItems(u: Text, v: Json, b: Text, a: Text, w: Text, vs: seq<Json>)
    requires Reads(u, v) && AllBlank(b) && AllBlank(a) && ReadsItems(w, vs)
    ensures ReadsItems(u + (b + ",") + a + w, [v] + vs)
  {
    forall other: Text ensures ParseItems(u + (b + ",") + a + w + other) == Parsed([v] + vs, other) {
      var t := u + (b + ("," + (a + (w + other))));
      Reassociate(u, b, ",", a, w, other);
      BlanksEndNumber(b, ',', a + (w + other));
      ReadMoreItems(t, v, b, a, w + other, vs, other);
    }
  }

  lemma LastField(u: Text, m: Field, b: Text)
    requires ReadsField(u, m) && AllBlank(b)
    ensures ReadsFields(u + (b + "}"), [m])
  {
    forall other: Text ensures ParseFields(u + (b + "}") + other) == Parsed([m], other) {
      var t := u + (b + ("}" + other));
      Close(u, b, "}", other);
      BlanksEndNumber(b, '}', other);
      ReadLastField(t, m, b, other);
    }
  }

  lemma MoreFields(u: Text, m: Field, b: Text, a: Text, w: Text, ms: seq<Field>)
    requires ReadsField(u, m) && AllBlank(b) && AllBlank(a) && ReadsFields(w, ms)
    ensures ReadsFields(u + (b + ",") + a + w, [m] + ms)
  {
    forall other: Text ensures ParseFields(u + (b + ",") + a + w + other) == Parsed([m] + ms, other) {
      var t := u + (b + ("," + (a + (w + other))));
      Reassociate(u, b, ",", a, w, other);
      BlanksEndNumber(b, ',', a + (w + other));
      ReadMoreFields(t, m, b, a, w + other, ms, other);
    }
  }

  lemma OneField(name: Text, s: Text, b: Text, a: Text, u: Text, v: Json)
    requires name != "" && name[0] == '\"' && forall other: Text :: ParseString(name + other) == Parsed(s, other)
    requires AllBlank(b) && AllBlank(a) && Reads(u, v)
    ensures ReadsField(name + (b + ":") + a + u, Field(s, v))
  {
    forall other | EndsNumber(other)
      ensures ParseField(name + (b + ":") + a + u + other) == Parsed(Field(s, v), other)
    {
      var t := name + (b + (":" + (a + (u + other))));
      Reassociate(name, b, ":", a, u, other);
      ReadField(t, s, b, a, u + other, v, other);
    }
  }

  lemma Brought(open: Text, a: Text, w: Text, other: Text)
    ensures open + a + w + other == open + (a + (w + other))
  {
  }

  lemma WholeArray(a: Text, w: Text, items: seq<Json>)
    requires AllBlank(a) && ReadsItems(w, items)
    ensures Reads("[" + a + w, Array(items))
  {
    forall other: Text ensures ParseValue("[" + a + w + other) == Parsed(Array(items), other) {
      Brought("[", a, w, other);
      ReadArray(a, w + other, items, other);
    }
  }

  lemma WholeObject(a: Text, w: Text, ms: seq<Field>)
    requires AllBlank(a) && ReadsFields(w, ms)
    ensures Reads("{" + a + w, Object(ms))
  {
    forall other: Text ensures ParseValue("{" + a + w + other) == Parsed(Object(ms), other) {
      Brought("{", a, w, other);
      ReadObject(a, w + other, ms, other);
    }
  }

  lemma EmptyArray(a: Text)
    requires AllBlank(a)
    ensures Reads("[" + (a + "]"), Array([]))
  {
    forall other: Text ensures ParseValue("[" + (a + "]") + other) == Parsed(Array([]), other) {
      assert "[" + (a + "]") + other == "[" + (a + ("]" + other));
      ReadEmptyArray(a, other);
    }
  }

  lemma EmptyObject(a: Text)
    requires AllBlank(a)
    ensures Reads("{" + (a + "}"), Object([]))
  {
    forall other: Text ensures ParseValue("{" + (a + "}") + other) == Parsed(Object([]), other) {
      assert "{" + (a + "}") + other == "{" + (a + ("}" + other));
      ReadEmptyObject(a, other);
    }
  }

  /** What the minifier leaves of a value reads as the same value. */
  lemma {:induction false} ValueKept(t: Text) returns (u: Text)
    requires ParseValue(t).Parsed? && Closed(t)
    ensures Leaves(t, u, ParseValue(t).rest) && Reads(u, ParseValue(t).value)
    decreases |t|, 1
  {
    if Head(t) == '[' {
      NotAWord(t);
      u := ArrayKept(t);
    } else if Head(t) == '{' {
      NotAWord(t);
      u := ObjectKept(t);
    } else {
      u := ScalarKept(t);
    }
  }

  lemma ScalarKept(t: Text) returns (u: Text)
    requires ParseValue(t).Parsed? && Closed(t) && Head(t) != '[' && Head(t) != '{'
    ensures Leaves(t, u, ParseValue(t).rest) && Reads(u, ParseValue(t).value)
  {
    if StartsWith(t, "null") {
      u := "null";
      WordKept(t, u);
    } else if StartsWith(t, "false") {
      u := "false";
      WordKept(t, u);
    } else if StartsWith(t, "true") {
      u := "true";
      WordKept(t, u);
    } else if Head(t) == '\"' {
      u := StringKept(t);
      StringReads(u, ParseString(t).value);
    } else {
      u := NumberKept(t);
    }
  }

  lemma {:induction false} ArrayKept(t: Text) returns (u: Text)
    requires Head(t) == '[' && ParseValue(t).Parsed?
    ensures Leaves(t, u, ParseValue(t).rest) && Reads(u, ParseValue(t).value)
    decreases |t|, 0
  {
    NotAWord(t);
    LeavesChar('[', t);
    var t1 := Skip(t[1..]);
    if Head(t1) == ']' {
      var a := MarkKept(t, "[", t[1..], ']');
      u := "[" + (a + "]");
      EmptyArray(a);
    } else {
      var a := GapKept(t, "[", t[1..]);
      var w := ItemsKept(t1);
      u := "[" + a + w;
      LeavesBoth(t, "[" + a, t1, w, ParseItems(t1).rest);
      WholeArray(a, w, ParseItems(t1).value);
    }
  }

  lemma {:induction false} ObjectKept(t: Text) returns (u: Text)
    requires Head(t) == '{' && ParseValue(t).Parsed?
    ensures Leaves(t, u, ParseValue(t).rest) && Reads(u, ParseValue(t).value)
    decreases |t|, 0
  {
    NotAWord(t);
    LeavesChar('{', t);
    var t1 := Skip(t[1..]);
    if Head(t1) == '}' {
      var a := MarkKept(t, "{", t[1..], '}');
      u := "{" + (a + "}");
      EmptyObject(a);
    } else {
      var a := GapKept(t, "{", t[1..]);
      var w := FieldsKept(t1);
      u := "{" + a + w;
      LeavesBoth(t, "{" + a, t1, w, ParseFields(t1).rest);
      WholeObject(a, w, ParseFields(t1).value);
    }
  }

  lemma {:induction false} ItemsKept(t: Text) returns (w: Text)
    requires !IsBlank(Head(t)) && ParseItems(t).Parsed?
    ensures Leaves(t, w, ParseItems(t).rest) && ReadsItems(w, ParseItems(t).value)
    decreases |t|, 2
  {
    ClosedValue(t);
    var u := ValueKept(t);
    var Parsed(v, rest) := ParseValue(t);
    var t1 := Skip(rest);
    if Head(t1) == ',' {
      var b := MarkKept(t, u, rest, ',');
      var a := GapKept(t, u + (b + ","), t1[1..]);
      var t2 := Skip(t1[1..]);
      ItemsSkip(t1[1..]);
      var more := ItemsKept(t2);
      w := u + (b + ",") + a + more;
      LeavesBoth(t, u + (b + ",") + a, t2, more, ParseItems(t2).rest);
      MoreItems(u, v, b, a, more, ParseItems(t2).value);
    } else {
      var b := MarkKept(t, u, rest, ']');
      w := u + (b + "]");
      LastItem(u, v, b);
    }
  }

  lemma ItemsSkip(t: Text)
    ensures ParseItems(Skip(t)) == ParseItems(t)
  {
    assert Skip(Skip(t)) == Skip(t);
  }

  lemma FieldSkip(t: Text)
    ensures ParseField(Skip(t)) == ParseField(t)
  {
    assert Skip(Skip(t)) == Skip(t);
  }

  lemma FieldsSkip(t: Text)
    ensures ParseFields(Skip(t)) == ParseFields(t)
  {
    FieldSkip(t);
  }

  lemma {:induction false} FieldKept(t: Text) returns (w: Text)
    requires !IsBlank(Head(t)) && ParseField(t).Parsed? && Head(Skip(ParseField(t).rest)) != NUL
    ensures Leaves(t, w, ParseField(t).rest) && ReadsField(w, ParseField(t).value)
    decreases |t|, 2
  {
    ClosedString(t);
    var name := StringKept(t);
    var Parsed(s, rest) := ParseString(t);
    var t1 := Skip(rest);
    var b := MarkKept(t, name, rest, ':');
    var a := GapKept(t, name + (b + ":"), t1[1..]);
    var t2 := Skip(t1[1..]);
    ClosedValue(t2);
    var u := ValueKept(t2);
    w := name + (b + ":") + a + u;
    LeavesBoth(t, name + (b + ":") + a, t2, u, ParseValue(t2).rest);
    OneField(name, s, b, a, u, ParseValue(t2).value);
  }

  lemma {:induction false} FieldsKept(t: Text) returns (w: Text)
    requires !IsBlank(Head(t)) && ParseFields(t).Parsed?
    ensures Leaves(t, w, ParseFields(t).rest) && ReadsFields(w, ParseFields(t).value)
    decreases |t|, 3
  {
    var u := FieldKept(t);
    var Parsed(m, rest) := ParseField(t);
    var t1 := Skip(rest);
    if Head(t1) == ',' {
      var b := MarkKept(t, u, rest, ',');
      var a := GapKept(t, u + (b + ","), t1[1..]);
      var t2 := Skip(t1[1..]);
      FieldsSkip(t1[1..]);
      var more := FieldsKept(t2);
      w := u + (b + ",") + a + more;
      LeavesBoth(t, u + (b + ",") + a, t2, more, ParseFields(t2).rest);
      MoreFields(u, m, b, a, more, ParseFields(t2).value);
    } else {
      var b := MarkKept(t, u, rest, '}');
      w := u + (b + "}");
      LastField(u, m, b);
    }
  }

  // ----- whole documents -----

  lemma SkipAllBlank(b: Text)
    requires AllBlank(b)
    ensures Skip(b) == ""
  {
    SkipMore(b, "");
    assert b + "" == b;
  }

  /** Of the documents the parser accepts to their end, the minifier runs through the end of
      just those that are a lone string without its closing quote. */
  lemma MinifyAccepted(t: Text)
    requires Parse(t, true).Parsed?
    ensures Minify(t).Some? <==> Closed(Skip(t))
  {
    if Closed(Skip(t)) {
      MinifyKeepsMeaning(t);
    } else {
      var b := LeavesBlanks(t);
    }
  }

  /** A document the parser accepts to its end means the same after it is minified. */
  lemma MinifyKeepsMeaning(t: Text)
    requires Parse(t, true).Parsed? && Closed(Skip(t))
    ensures Minify(t).Some? && Parse(Minify(t).value, true).Parsed?
    ensures Parse(Minify(t).value, true).value == Parse(t, true).value
  {
    var u := ValueKept(Skip(t));
    var (v, rest) := (ParseValue(Skip(t)).value, ParseValue(Skip(t)).rest);
    var b0, b1 := DocumentKept(t, u, rest);
    DocumentReads(b0, u, b1, v);
  }

  lemma DocumentKept(t: Text, u: Text, rest: Text) returns (b0: Text, b1: Text)
    requires Leaves(Skip(t), u, rest) && Head(Skip(rest)) == NUL
    ensures AllBlank(b0) && AllBlank(b1) && Minify(t) == Some(b0 + (u + b1))
  {
    b0 := LeavesBlanks(t);
    LeavesBoth(t, b0, Skip(t), u, rest);
    b1 := GapKept(t, b0 + u, rest);
    Regroup(b0, u, b1);
    assert b0 + u + b1 + "" == b0 + u + b1;
    assert Skip(rest) == "" || Skip(rest)[0] == NUL;
  }

  lemma DocumentReads(b0: Text, u: Text, b1: Text, v: Json)
    requires AllBlank(b0) && AllBlank(b1) && Reads(u, v)
    ensures Parse(b0 + (u + b1), true) == Parsed(v, "")
  {
    SkipBlanks(b0, u + b1);
    SkipAllBlank(b1);
  }
}
