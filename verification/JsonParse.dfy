/** What the recursive-descent parser reads. A pointer into the input is a suffix of it. */
module JsonParse {
  import opened Text
  import opened Utf8
  import opened JsonTree

  /** Failed: the parser returns NULL. Malformed: it would run through an escape sequence that
      is cut short or not hexadecimal, which the source excludes by trusting its input. */
  datatype Outcome<+T> = Parsed(value: T, rest: Text) | Failed | Malformed

  // ----- strings -----

  function ShortEscape(c: char): char {
    match c
    case 'b' => '\U{8}'
    case 'f' => '\U{C}'
    case 'n' => '\n'
    case 'r' => '\r'
    case 't' => '\t'
    case _ => c
  }

  function Prepend(t: Text, o: Outcome<Text>): Outcome<Text> {
    match o
    case Parsed(u, rest) => Parsed(t + u, rest)
    case _ => o
  }

  /** One step of the transcoding loop at an escape or a plain character: the bytes it writes
      and the input left. Surrogates that do not pair up, and \u0000, are dropped. */
  function Step(t: Text): (o: Outcome<Text>)
    requires Head(t) != NUL
    ensures o.Parsed? ==> |o.rest| < |t|
    ensures !o.Failed?
  {
    if t[0] != '\\' then Parsed([t[0]], t[1..])
    else if Head(t[1..]) == NUL then Malformed
    else if t[1] != 'u' then Parsed([ShortEscape(t[1])], t[2..])
    else if !IsHex4(t[2..]) then Malformed
    else
      var uc := Hex4(t[2..]);
      if IsLowSurrogate(uc) || uc == 0 then Parsed("", t[6..])
      else if !IsHighSurrogate(uc) then Parsed(Encode(uc), t[6..])
      else if !StartsWith(t[6..], "\\u") then Parsed("", t[6..])
      else if !IsHex4(t[8..]) then Malformed
      else
        var uc2 := Hex4(t[8..]);
        Parsed(if IsLowSurrogate(uc2) then Encode(Combine(uc, uc2)) else "", t[12..])
  }

  /** From behind the opening quote: the string, and the input behind its closing quote. A
      string cut short by the end of the text is accepted. */
  function Unescape(t: Text): (o: Outcome<Text>)
    ensures o.Parsed? ==> |o.rest| <= |t|
    ensures !o.Failed?
  {
    if Head(t) == NUL then Parsed("", t)
    else if t[0] == '\"' then Parsed("", t[1..])
    else match Step(t)
      case Parsed(bytes, rest) => Prepend(bytes, Unescape(rest))
      case o => o
  }

  function ParseString(t: Text): (o: Outcome<Text>)
    ensures o.Parsed? ==> |o.rest| < |t|
  {
    if Head(t) != '\"' then Failed else Unescape(t[1..])
  }

  // ----- numbers -----

  /** Reads digits into an accumulator. */
  function TakeDigits(acc: int, t: Text): (r: (int, Text))
    ensures |r.1| <= |t| && !IsDigit(Head(r.1))
    ensures IsDigit(Head(t)) ==> |r.1| < |t|
    decreases |t|
  {
    if IsDigit(Head(t)) then TakeDigits(acc * 10 + (t[0] as int - '0' as int), t[1..]) else (acc, t)
  }

  function TakeSign(t: Text): (r: (int, Text))
    ensures |r.1| <= |t|
  {
    if Head(t) == '-' then (-1, t[1..]) else (1, t)
  }

  /** Integer part: at most one leading zero is skipped, then digits from a non-zero one on. */
  function TakeInteger(t: Text): (r: (int, Text))
    ensures |r.1| <= |t|
    ensures IsDigit(Head(t)) ==> |r.1| < |t|
  {
    var t1 := if Head(t) == '0' then t[1..] else t;
    if '1' <= Head(t1) <= '9' then TakeDigits(0, t1) else (0, t1)
  }

  /** Fraction digits go on accumulating; the count of them is the negative scale. */
  function TakeFraction(n: int, t: Text): (r: (int, int, Text))
    ensures |r.2| <= |t|
  {
    if Head(t) == '.' && IsDigit(Head(t[1..])) then
      var (m, rest) := TakeDigits(n, t[1..]);
      (m, -(|t| - 1 - |rest|), rest)
    else (n, 0, t)
  }

  function TakeExponent(t: Text): (r: (int, Text))
    ensures |r.1| <= |t|
  {
    if Head(t) == 'e' || Head(t) == 'E' then
      var (sign, t1) := if Head(t[1..]) == '+' then (1, t[2..]) else TakeSign(t[1..]);
      var (n, rest) := TakeDigits(0, t1);
      (sign * n, rest)
    else (0, t)
  }

  function ParseNumber(t: Text): (r: (Decimal, Text))
    ensures |r.1| <= |t|
    ensures Head(t) == '-' || IsDigit(Head(t)) ==> |r.1| < |t|
  {
    var (sign, t1) := TakeSign(t);
    var (n, t2) := TakeInteger(t1);
    var (m, scale, t3) := TakeFraction(n, t2);
    var (exponent, t4) := TakeExponent(t3);
    (Decimal(sign * m, scale + exponent), t4)
  }

  // ----- values -----

  function ParseValue(t: Text): (o: Outcome<Json>)
    ensures o.Parsed? ==> |o.rest| < |t|
    decreases |t|, 0
  {
    if StartsWith(t, "null") then Parsed(Null, t[4..])
    else if StartsWith(t, "false") then Parsed(False, t[5..])
    else if StartsWith(t, "true") then Parsed(True, t[4..])
    else if Head(t) == '\"' then
      match ParseString(t)
      case Parsed(s, rest) => Parsed(String(s), rest)
      case Failed => Failed
      case Malformed => Malformed
    else if Head(t) == '-' || IsDigit(Head(t)) then
      var (n, rest) := ParseNumber(t);
      Parsed(Number(n), rest)
    else if Head(t) == '[' then
      var t1 := Skip(t[1..]);
      if Head(t1) == ']' then Parsed(Array([]), t1[1..])
      else match ParseItems(t1)
        case Parsed(items, rest) => Parsed(Array(items), rest)
        case Failed => Failed
        case Malformed => Malformed
    else if Head(t) == '{' then
      var t1 := Skip(t[1..]);
      if Head(t1) == '}' then Parsed(Object([]), t1[1..])
      else match ParseFields(t1)
        case Parsed(ms, rest) => Parsed(Object(ms), rest)
        case Failed => Failed
        case Malformed => Malformed
    else Failed
  }

  /** The elements of an array from the next one to behind the closing bracket. */
  function ParseItems(t: Text): (o: Outcome<seq<Json>>)
    ensures o.Parsed? ==> |o.rest| < |t|
    decreases |t|, 1
  {
    match ParseValue(Skip(t))
    case Parsed(v, rest) =>
      var t1 := Skip(rest);
      if Head(t1) == ',' then
        match ParseItems(t1[1..])
        case Parsed(vs, rest) => Parsed([v] + vs, rest)
        case o => o
      else if Head(t1) == ']' then Parsed([v], t1[1..])
      else Failed
    case Failed => Failed
    case Malformed => Malformed
  }

  /** One name, colon and value of an object. */
  function ParseField(t: Text): (o: Outcome<Field>)
    ensures o.Parsed? ==> |o.rest| < |t|
    decreases |t|, 1
  {
    match ParseString(Skip(t))
    case Parsed(name, rest) =>
      var t1 := Skip(rest);
      if Head(t1) != ':' then Failed
      else
        (match ParseValue(Skip(t1[1..]))
         case Parsed(v, rest) => Parsed(Field(name, v), rest)
         case Failed => Failed
         case Malformed => Malformed)
    case Failed => Failed
    case Malformed => Malformed
  }

  function ParseFields(t: Text): (o: Outcome<seq<Field>>)
    ensures o.Parsed? ==> |o.rest| < |t|
    decreases |t|, 2
  {
    match ParseField(t)
    case Parsed(m, rest) =>
      var t1 := Skip(rest);
      if Head(t1) == ',' then
        match ParseFields(t1[1..])
        case Parsed(ms, rest) => Parsed([m] + ms, rest)
        case o => o
      else if Head(t1) == '}' then Parsed([m], t1[1..])
      else Failed
    case Failed => Failed
    case Malformed => Malformed
  }

  /** The exported entry point: leading white space is skipped; on request nothing but white
      space may follow. */
  function Parse(t: Text, requireEnd: bool): Outcome<Json> {
    match ParseValue(Skip(t))
    case Parsed(v, rest) =>
      if !requireEnd then Parsed(v, rest)
      else if Head(Skip(rest)) == NUL then Parsed(v, Skip(rest))
      else Failed
    case o => o
  }
}
