/** String literals: what the scanner makes of every well-formed literal, and of every literal
    the printer writes. */
module JsonStrings {
  import opened Text
  import opened Utf8
  import opened JsonTree
  import opened JsonParse

  // ----- well-formed literals, section 7 of RFC 8259 -----

  /** A literal is spelled from plain characters, two-character escapes and \u escapes, of which one
      for a high surrogate makes a pair with the one behind it. Hex digits keep their case. */
  datatype Piece =
    | Plain(c: char)
    | Short(letter: char)
    | Unit(hex: Text)
    | Pair(high: Text, second: Text)
    | Lone(high: Text)
  {
    predicate Valid() {
      match this
      case Plain(c) => c != NUL && c != '\"' && c != '\\'
      case Short(letter) => letter in "\"\\/bfnrt"
      case Unit(hex) => |hex| == 4 && IsHex4(hex) && !IsHighSurrogate(Hex4(hex))
      case Pair(high, second) =>
        |high| == |second| == 4 && IsHex4(high) && IsHex4(second) && IsHighSurrogate(Hex4(high))
      case Lone(high) => |high| == 4 && IsHex4(high) && IsHighSurrogate(Hex4(high))
    }

    predicate IsUnicode() {
      Unit? || Pair? || Lone?
    }

    function Spelling(): Text {
      match this
      case Plain(c) => [c]
      case Short(letter) => "\\" + [letter]
      case Unit(hex) => "\\u" + hex
      case Pair(high, second) => "\\u" + high + "\\u" + second
      case Lone(high) => "\\u" + high
    }

    /** The bytes the piece stands for. What is no character of a C string, \u0000 and surrogates
        that do not pair up, stands for none; neither does what is taken for the second half. */
    function Meaning(): Text
      requires Valid()
    {
      match this
      case Plain(c) => [c]
      case Short(letter) =>
        (match letter
         case '\"' => "\""
         case '\\' => "\\"
         case '/' => "/"
         case 'b' => "\U{8}"
         case 'f' => "\U{C}"
         case 'n' => "\n"
         case 'r' => "\r"
         case _ => "\t")
      case Unit(hex) => if Hex4(hex) == 0 || IsLowSurrogate(Hex4(hex)) then "" else Encode(Hex4(hex))
      case Pair(high, second) =>
        if IsLowSurrogate(Hex4(second)) then Encode(Combine(Hex4(high), Hex4(second))) else ""
      case Lone(_) => ""
    }
  }

  /** A high surrogate is alone only where no \u escape follows. */
  predicate ValidPieces(ps: seq<Piece>) {
    && (forall i :: 0 <= i < |ps| ==> ps[i].Valid())
    && forall i :: 0 <= i < |ps| - 1 && ps[i].Lone? ==> !ps[i + 1].IsUnicode()
  }

  function Spelling(ps: seq<Piece>): Text {
    if ps == [] then "" else ps[0].Spelling() + Spelling(ps[1..])
  }

  function Meaning(ps: seq<Piece>): Text
    requires ValidPieces(ps)
  {
    if ps == [] then "" else ps[0].Meaning() + Meaning(ps[1..])
  }

  function Counted(k: nat, n: Option<nat>): Option<nat> {
    match n
    case None => None
    case Some(n) => Some(k + n)
  }

  /** The allocation the first scan asks for: one for each character or escape it passes; None
      if a backslash takes it over the end of the text. */
  function ScanCount(t: Text): Option<nat> {
    if Head(t) == NUL || t[0] == '\"' then Some(0)
    else if t[0] != '\\' then Counted(1, ScanCount(t[1..]))
    else if Head(t[1..]) == NUL then None
    else Counted(1, ScanCount(t[2..]))
  }

  lemma {:induction false} ScanPlain(t: Text, n: nat)
    requires n <= |t| && forall i :: 0 <= i < n ==> t[i] != NUL && t[i] != '\"' && t[i] != '\\'
    ensures ScanCount(t) == Counted(n, ScanCount(t[n..]))
  {
    if n == 0 {
      assert t[0..] == t;
    } else {
      assert forall i :: 0 <= i < n - 1 ==> t[1..][i] == t[i + 1];
      ScanPlain(t[1..], n - 1);
      assert t[1..][n - 1..] == t[n..];
      CountedTwice(1, n - 1, ScanCount(t[n..]));
    }
  }

  lemma CountedTwice(k: nat, m: nat, n: Option<nat>)
    ensures Counted(k, Counted(m, n)) == Counted(k + m, n)
  {
  }

  lemma ScanUnit(t: Text)
    requires StartsWith(t, "\\u") && IsHex4(t[2..])
    ensures ScanCount(t) == Counted(5, ScanCount(t[6..]))
  {
    assert t[..2][1] == t[1] == 'u';
    ScanPlain(t[2..], 4);
    assert t[2..][4..] == t[6..];
  }

  /** A step writes no more bytes than the scan counts characters for it. */
  lemma StepIsCounted(t: Text)
    requires Head(t) != NUL && t[0] != '\"' && Step(t).Parsed? && ScanCount(Step(t).rest).Some?
    ensures ScanCount(t).Some? && |Step(t).value| + ScanCount(Step(t).rest).value <= ScanCount(t).value
  {
    if t[0] == '\\' && t[1] == 'u' {
      UnitIsCounted(t);
    }
  }

  lemma UnitIsCounted(t: Text)
    requires |t| >= 6 && t[0] == '\\' && t[1] == 'u' && IsHex4(t[2..]) && Step(t).Parsed?
    requires ScanCount(Step(t).rest).Some?
    ensures ScanCount(t).Some? && |Step(t).value| + ScanCount(Step(t).rest).value <= ScanCount(t).value
  {
    assert t[..2] == "\\u";
    if IsHighSurrogate(Hex4(t[2..])) && StartsWith(t[6..], "\\u") {
      ScanPair(t);
    } else {
      ScanUnit(t);
    }
  }

  lemma ScanPair(t: Text)
    requires StartsWith(t, "\\u") && IsHex4(t[2..]) && StartsWith(t[6..], "\\u") && IsHex4(t[8..])
    ensures ScanCount(t) == Counted(10, ScanCount(t[12..]))
  {
    ScanUnit(t);
    assert t[6..][2..] == t[8..];
    ScanUnit(t[6..]);
    assert t[6..][6..] == t[12..];
    CountedTwice(5, 5, ScanCount(t[12..]));
  }

  /** Whatever the escapes, transcoding never writes more than the first scan counted. */
  lemma {:induction false} NeverMoreThanCounted(t: Text)
    requires Unescape(t).Parsed?
    ensures ScanCount(t).Some? && |Unescape(t).value| <= ScanCount(t).value
  {
    if Head(t) != NUL && t[0] != '\"' {
      NeverMoreThanCounted(Step(t).rest);
      StepIsCounted(t);
    }
  }

  lemma UnitSpelling(hex: Text, rest: Text)
    requires |hex| == 4 && IsHex4(hex)
    ensures var t := "\\u" + hex + rest;
            StartsWith(t, "\\u") && IsHex4(t[2..]) && Hex4(t[2..]) == Hex4(hex) && t[6..] == rest
  {
    var t := "\\u" + hex + rest;
    assert t[2..] == hex + rest;
    assert t[..2] == "\\u";
  }

  lemma UnitMeaning(hex: Text, rest: Text)
    requires |hex| == 4 && IsHex4(hex) && !IsHighSurrogate(Hex4(hex))
    ensures Unescape("\\u" + hex + rest)
         == Prepend(if Hex4(hex) == 0 || IsLowSurrogate(Hex4(hex)) then "" else Encode(Hex4(hex)), Unescape(rest))
  {
    UnitSpelling(hex, rest);
  }

  lemma PairMeaning(high: Text, second: Text, rest: Text)
    requires |high| == |second| == 4 && IsHex4(high) && IsHex4(second) && IsHighSurrogate(Hex4(high))
    ensures Unescape("\\u" + high + ("\\u" + second + rest))
         == Prepend(if IsLowSurrogate(Hex4(second)) then Encode(Combine(Hex4(high), Hex4(second))) else "",
                    Unescape(rest))
  {
    var tail := "\\u" + second + rest;
    var t := "\\u" + high + tail;
    UnitSpelling(high, tail);
    UnitSpelling(second, rest);
    assert t[6..][2..] == t[8..] && t[6..][6..] == t[12..];
  }

  lemma LoneMeaning(high: Text, rest: Text)
    requires |high| == 4 && IsHex4(high) && IsHighSurrogate(Hex4(high)) && !StartsWith(rest, "\\u")
    ensures Unescape("\\u" + high + rest) == Prepend("", Unescape(rest))
  {
    UnitSpelling(high, rest);
  }

  lemma PlainMeaning(c: char, rest: Text)
    requires c != NUL && c != '\"' && c != '\\'
    ensures Unescape([c] + rest) == Prepend([c], Unescape(rest))
  {
    assert ([c] + rest)[1..] == rest;
  }

  lemma ShortMeaning(letter: char, rest: Text)
    requires letter != NUL && letter != 'u'
    ensures Unescape("\\" + [letter] + rest) == Prepend([ShortEscape(letter)], Unescape(rest))
  {
    var t := "\\" + [letter] + rest;
    assert t[1] == letter && t[2..] == rest;
  }

  lemma UnicodeMeaning(p: Piece, rest: Text)
    requires p.Valid() && p.IsUnicode() && (p.Lone? ==> !StartsWith(rest, "\\u"))
    ensures Unescape(p.Spelling() + rest) == Prepend(p.Meaning(), Unescape(rest))
  {
    match p
    case Unit(hex) => UnitMeaning(hex, rest);
    case Lone(high) => LoneMeaning(high, rest);
    case Pair(high, second) =>
      PairMeaning(high, second, rest);
      assert p.Spelling() + rest == "\\u" + high + ("\\u" + second + rest);
  }

  lemma ShortPiece(letter: char)
    requires letter in "\"\\/bfnrt"
    ensures letter != NUL && letter != 'u' && Short(letter).Meaning() == [ShortEscape(letter)]
  {
  }

  lemma PieceMeaning(p: Piece, rest: Text)
    requires p.Valid() && (p.Lone? ==> !StartsWith(rest, "\\u"))
    ensures Unescape(p.Spelling() + rest) == Prepend(p.Meaning(), Unescape(rest))
  {
    match p
    case Plain(c) => PlainMeaning(c, rest);
    case Short(letter) =>
      ShortMeaning(letter, rest);
      ShortPiece(letter);
    case _ => UnicodeMeaning(p, rest);
  }

  function Literal(ps: seq<Piece>): Text {
    "\"" + Spelling(ps) + "\""
  }

  /** Every well-formed literal transcodes to the concatenation of what its pieces mean, the
      scan stops right behind its closing quote, and the bytes fit the allocation. */
  lemma LiteralMeaning(ps: seq<Piece>, rest: Text)
    requires ValidPieces(ps)
    ensures ParseString(Literal(ps) + rest) == Parsed(Meaning(ps), rest)
    ensures var count := ScanCount((Literal(ps) + rest)[1..]); count.Some? && |Meaning(ps)| <= count.value
  {
    var close := "\"" + rest;
    PiecesMeaning(ps, close);
    assert close[1..] == rest;
    var body := Spelling(ps) + close;
    LiteralBody(Spelling(ps), rest);
    assert ("\"" + body)[1..] == body;
    assert Meaning(ps) + "" == Meaning(ps);
    assert Unescape(close) == Parsed("", rest);
    NeverMoreThanCounted(body);
  }

  lemma LiteralBody(s: Text, rest: Text)
    ensures "\"" + s + "\"" + rest == "\"" + (s + ("\"" + rest))
  {
  }

  lemma NoEscapeFirst(p: Piece, rest: Text)
    requires p.Valid() && !p.IsUnicode()
    ensures !StartsWith(p.Spelling() + rest, "\\u")
  {
    var t := p.Spelling() + rest;
    assert t[0] == p.Spelling()[0] && (p.Short? ==> t[1] == p.letter);
    assert |t| >= 2 ==> t[..2] == [t[0], t[1]];
  }

  /** Behind a high surrogate that is alone, no \u escape begins. */
  lemma NoEscapeBehind(ps: seq<Piece>, rest: Text)
    requires ValidPieces(ps) && Head(rest) == '\"' && (ps != [] ==> !ps[0].IsUnicode())
    ensures !StartsWith(Spelling(ps) + rest, "\\u")
  {
    if ps == [] {
      assert Spelling(ps) + rest == rest;
      assert |rest| >= 2 ==> rest[..2][0] == rest[0];
    } else {
      Regroup(ps[0].Spelling(), Spelling(ps[1..]), rest);
      NoEscapeFirst(ps[0], Spelling(ps[1..]) + rest);
    }
  }

  lemma {:induction false} PiecesMeaning(ps: seq<Piece>, rest: Text)
    requires ValidPieces(ps) && Head(rest) == '\"'
    ensures Unescape(Spelling(ps) + rest) == Prepend(Meaning(ps), Unescape(rest))
  {
    if ps == [] {
      assert Spelling(ps) + rest == rest;
      assert Unescape(rest).Parsed? ==> "" + Unescape(rest).value == Unescape(rest).value;
    } else {
      var tail := Spelling(ps[1..]) + rest;
      Regroup(ps[0].Spelling(), Spelling(ps[1..]), rest);
      if ps[0].Lone? {
        NoEscapeBehind(ps[1..], rest);
      }
      PieceMeaning(ps[0], tail);
      PiecesMeaning(ps[1..], rest);
      if Unescape(rest).Parsed? {
        Regroup(ps[0].Meaning(), Meaning(ps[1..]), Unescape(rest).value);
      }
    }
  }

  // ----- literals the printer writes -----

  lemma ControlHex(c: char)
    requires |EscapeChar(c)| == 6
    ensures EscapeChar(c)[..2] == "\\u" && IsHex4(EscapeChar(c)[2..]) && Hex4(EscapeChar(c)[2..]) == c as int
  {
    var (h, l) := (c as int / 16, c as int % 16);
    assert HexValue(HEX[h]) == Some(h) && HexValue(HEX[l]) == Some(l);
  }

  lemma EscapedMeaning(c: char, rest: Text)
    requires c != NUL
    ensures Unescape(EscapeChar(c) + rest) == Prepend([c], Unescape(rest))
  {
    var e := EscapeChar(c);
    if |e| == 1 {
      PlainMeaning(c, rest);
    } else if |e| == 2 {
      ShortMeaning(e[1], rest);
      assert e == "\\" + [e[1]];
    } else {
      ControlHex(c);
      UnitMeaning(e[2..], rest);
      assert e == "\\u" + e[2..];
    }
  }

  lemma {:induction false} UnescapeEscape(s: Text, rest: Text)
    requires NulFree(s)
    ensures Unescape(Escape(s) + "\"" + rest) == Parsed(s, rest)
  {
    var t := Escape(s) + "\"" + rest;
    if s == [] {
      assert t == "\"" + rest;
      assert t[1..] == rest;
    } else {
      var tail := Escape(s[1..]) + "\"" + rest;
      assert t == EscapeChar(s[0]) + tail;
      EscapedMeaning(s[0], tail);
      UnescapeEscape(s[1..], rest);
      assert [s[0]] + s[1..] == s;
    }
  }

  /** Reading back a printed string gives the string, for every C string. */
  lemma ParseQuote(s: Text, rest: Text)
    requires NulFree(s)
    ensures ParseString(Quote(s) + rest) == Parsed(s, rest)
  {
    var body := Escape(s) + "\"" + rest;
    UnescapeEscape(s, rest);
    QuoteBody(Escape(s), rest);
    assert ("\"" + body)[1..] == body;
  }

  lemma QuoteBody(e: Text, rest: Text)
    ensures "\"" + e + "\"" + rest == "\"" + (e + "\"" + rest)
  {
  }
}
