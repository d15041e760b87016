/** \u escapes spelled from the numbers themselves: whatever code points a literal spells in UTF-16,
    what is read is their UTF-8. */
module JsonUnicode {
  import opened Text
  import opened Utf8
  import opened JsonParse
  import opened JsonStrings

  /** The digit of a value, in either case. */
  predicate IsDigitOf(c: char, value: nat)
    requires value < 16
  {
    c == "0123456789abcdef"[value] || c == "0123456789ABCDEF"[value]
  }

  /** Four digits of a 16-bit number, highest first. */
  predicate Spells(hex: Text, n: nat)
    requires n < 0x1_0000
  {
    && |hex| == 4
    && IsDigitOf(hex[0], n / 4096) && IsDigitOf(hex[1], n / 256 % 16)
    && IsDigitOf(hex[2], n / 16 % 16) && IsDigitOf(hex[3], n % 16)
  }

  lemma DigitRead(c: char, value: nat)
    requires value < 16 && IsDigitOf(c, value)
    ensures HexValue(c) == Some(value)
  {
  }

  lemma SpelledRead(hex: Text, n: nat)
    requires n < 0x1_0000 && Spells(hex, n)
    ensures IsHex4(hex) && Hex4(hex) == n
  {
    DigitRead(hex[0], n / 4096);
    DigitRead(hex[1], n / 256 % 16);
    DigitRead(hex[2], n / 16 % 16);
    DigitRead(hex[3], n % 16);
    FourDigits(n);
  }

  lemma FourDigits(n: nat)
    requires n < 0x1_0000
    ensures n / 4096 * 4096 + n / 256 % 16 * 256 + n / 16 % 16 * 16 + n % 16 == n
  {
    var (n1, n2, n3) := (n / 16, n / 256, n / 4096);
    assert n == 16 * n1 + n % 16 && n1 == 16 * n2 + n1 % 16 && n2 == 16 * n3 + n2 % 16;
  }

  /** A code point in UTF-16: itself, or the ten high and the ten low bits of what is above the
      first 0x10000. */
  function Units(n: nat): (units: seq<nat>)
    requires IsScalar(n)
    ensures |units| <= 2 && forall i :: 0 <= i < |units| ==> units[i] < 0x1_0000
  {
    if n < 0x1_0000 then [n]
    else [0xD800 + (n - 0x1_0000) / 0x400, 0xDC00 + (n - 0x1_0000) % 0x400]
  }

  /** A text spells a code point: one escape for each of its units. */
  ghost predicate SpellsPoint(t: Text, n: nat)
    requires IsScalar(n)
  {
    var units := Units(n);
    if |units| == 1 then exists hex :: Spells(hex, units[0]) && t == "\\u" + hex
    else exists high, low :: Spells(high, units[0]) && Spells(low, units[1]) && t == "\\u" + high + "\\u" + low
  }

  lemma UnitsPair(n: nat)
    requires 0x1_0000 <= n < 0x11_0000
    ensures IsHighSurrogate(Units(n)[0]) && IsLowSurrogate(Units(n)[1]) && Combine(Units(n)[0], Units(n)[1]) == n
  {
    var m := n - 0x1_0000;
    assert m == 0x400 * (m / 0x400) + m % 0x400;
  }

  /** Within a literal, a code point that is spelled by its UTF-16 is read as its UTF-8. */
  lemma PointRead(t: Text, n: nat, rest: Text)
    requires IsScalar(n) && n != 0 && SpellsPoint(t, n)
    ensures Unescape(t + rest) == Prepend(Encode(n), Unescape(rest))
  {
    if n < 0x1_0000 {
      var hex :| Spells(hex, n) && t == "\\u" + hex;
      SpelledRead(hex, n);
      UnitMeaning(hex, rest);
    } else {
      var high, low :| Spells(high, Units(n)[0]) && Spells(low, Units(n)[1]) && t == "\\u" + high + "\\u" + low;
      UnitsPair(n);
      SpelledRead(high, Units(n)[0]);
      SpelledRead(low, Units(n)[1]);
      PairMeaning(high, low, rest);
      Joined(high, low, rest);
    }
  }

  lemma Joined(high: Text, low: Text, rest: Text)
    ensures "\\u" + high + "\\u" + low + rest == "\\u" + high + ("\\u" + low + rest)
  {
  }

  // ----- whole literals -----

  /** The bytes of some code points, one behind the other. */
  function Utf8Of(ns: seq<nat>): Text
    requires forall i :: 0 <= i < |ns| ==> IsScalar(ns[i])
  {
    if ns == [] then ""
    else
      assert IsScalar(ns[0]);
      Encode(ns[0]) + Utf8Of(ns[1..])
  }

  function Joins(parts: seq<Text>): Text {
    if parts == [] then "" else parts[0] + Joins(parts[1..])
  }

  ghost predicate SpellsAll(parts: seq<Text>, ns: seq<nat>) {
    && |parts| == |ns|
    && forall i :: 0 <= i < |ns| ==> IsScalar(ns[i]) && ns[i] != 0 && SpellsPoint(parts[i], ns[i])
  }

  lemma {:induction false} PointsRead(parts: seq<Text>, ns: seq<nat>, rest: Text)
    requires SpellsAll(parts, ns)
    ensures Unescape(Joins(parts) + rest) == Prepend(Utf8Of(ns), Unescape(rest))
  {
    if ns == [] {
      assert Joins(parts) + rest == rest;
      PrependNothing(Unescape(rest));
    } else {
      PointRead(parts[0], ns[0], Joins(parts[1..]) + rest);
      Regroup(parts[0], Joins(parts[1..]), rest);
      PointsRead(parts[1..], ns[1..], rest);
      PrependBoth(Encode(ns[0]), Utf8Of(ns[1..]), Unescape(rest));
    }
  }

  lemma PrependNothing(o: Outcome<Text>)
    ensures Prepend("", o) == o
  {
    assert o.Parsed? ==> "" + o.value == o.value;
  }

  lemma PrependBoth(s: Text, t: Text, o: Outcome<Text>)
    ensures Prepend(s, Prepend(t, o)) == Prepend(s + t, o)
  {
    if o.Parsed? {
      Regroup(s, t, o.value);
    }
  }

  /** A literal that spells code points by their UTF-16, one escape a unit, in either case of the
      digits, is read as the UTF-8 of these code points, up to behind its closing quote. */
  lemma PointsLiteral(parts: seq<Text>, ns: seq<nat>, rest: Text)
    requires SpellsAll(parts, ns)
    ensures ParseString("\"" + (Joins(parts) + ("\"" + rest))) == Parsed(Utf8Of(ns), rest)
  {
    var close := "\"" + rest;
    PointsRead(parts, ns, close);
    assert close[1..] == rest && Unescape(close) == Parsed("", rest);
    assert ("\"" + (Joins(parts) + close))[1..] == Joins(parts) + close;
    assert Utf8Of(ns) + "" == Utf8Of(ns);
  }
}
