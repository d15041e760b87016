/** The recursive-descent parser: it walks an index through the text and builds nodes. Each
    method is proved against the reading of the suffix it starts at. */
module JsonParser {
  import opened Text
  import opened Utf8
  import opened JsonTree
  import opened JsonParse
  import opened JsonStrings

  method ReadBlanks(text: Text, pos: nat) returns (end: nat)
    requires pos <= |text|
    ensures pos <= end <= |text| && text[end..] == Skip(text[pos..])
  {
    end := pos;
    while IsBlank(At(text, end))
      invariant pos <= end <= |text| && Skip(text[end..]) == Skip(text[pos..])
      decreases |text| - end
    {
      end := end + 1;
    }
  }

  // ----- numbers -----

  method ReadDigits(text: Text, pos: nat, acc: int) returns (n: int, end: nat)
    requires pos <= |text|
    ensures pos <= end <= |text| && TakeDigits(acc, text[pos..]) == (n, text[end..])
  {
    n, end := acc, pos;
    while IsDigit(At(text, end))
      invariant pos <= end <= |text| && TakeDigits(n, text[end..]) == TakeDigits(acc, text[pos..])
      decreases |text| - end
    {
      n := n * 10 + (text[end] as int - '0' as int);
      end := end + 1;
    }
  }

  /** At most one zero, then digits from a non-zero one on. */
  method ReadInteger(text: Text, pos: nat) returns (n: int, num: nat)
    requires pos <= |text|
    ensures pos <= num <= |text| && TakeInteger(text[pos..]) == (n, text[num..])
  {
    n, num := 0, pos;
    if At(text, num) == '0' {
      num := num + 1;
    }
    if '1' <= At(text, num) <= '9' {
      n, num := ReadDigits(text, num, 0);
    }
  }

  method ReadFraction(text: Text, pos: nat, acc: int) returns (n: int, scale: int, num: nat)
    requires pos <= |text|
    ensures pos <= num <= |text| && TakeFraction(acc, text[pos..]) == (n, scale, text[num..])
  {
    n, scale, num := acc, 0, pos;
    if At(text, num) == '.' && IsDigit(At(text, num + 1)) {
      assert text[pos..][1..] == text[pos + 1..];
      n, num := ReadDigits(text, pos + 1, acc);
      scale := -(num - (pos + 1));
    }
  }

  method ReadExponent(text: Text, pos: nat) returns (exponent: int, num: nat)
    requires pos <= |text|
    ensures pos <= num <= |text| && TakeExponent(text[pos..]) == (exponent, text[num..])
  {
    var subscale, signsubscale := 0, 1;
    num := pos;
    if At(text, num) == 'e' || At(text, num) == 'E' {
      num := num + 1;
      assert text[pos..][1..] == text[num..];
      if At(text, num) == '+' {
        num := num + 1;
      } else if At(text, num) == '-' {
        signsubscale, num := -1, num + 1;
      }
      subscale, num := ReadDigits(text, num, 0);
    }
    exponent := subscale * signsubscale;
  }

  method ReadNumber(text: Text, pos: nat) returns (number: Decimal, end: nat)
    requires pos <= |text|
    ensures pos <= end <= |text| && ParseNumber(text[pos..]) == (number, text[end..])
  {
    var n, scale, exponent, sign := 0, 0, 0, 1;
    end := pos;
    if At(text, end) == '-' {
      sign, end := -1, end + 1;
    }
    n, end := ReadInteger(text, end);
    n, scale, end := ReadFraction(text, end, n);
    exponent, end := ReadExponent(text, end);
    number := Decimal(sign * n, scale + exponent);
  }

  // ----- strings -----

  /** Writes the bytes of a code point from the last to the first, as the source does. */
  method WriteUtf8(out: array<char>, at: nat, code: nat) returns (end: nat)
    requires code < 0x11_0000 && at + EncodedLength(code) <= out.Length
    modifies out
    ensures end == at + EncodedLength(code) && out[at..end] == Encode(code)
    ensures out[..at] == old(out[..at])
  {
    var len := EncodedLength(code);
    var uc, ptr2 := code, at + len;
    if len >= 4 {
      ptr2 := ptr2 - 1;
      out[ptr2], uc := Trail(uc), uc / 64;
    }
    if len >= 3 {
      ptr2 := ptr2 - 1;
      out[ptr2], uc := Trail(uc), uc / 64;
    }
    if len >= 2 {
      ptr2 := ptr2 - 1;
      out[ptr2], uc := Trail(uc), uc / 64;
    }
    ptr2 := ptr2 - 1;
    out[ptr2] := Byte(uc + FirstByteMark(len));
    end := ptr2 + len;
  }

  function FirstByteMark(len: nat): nat {
    if len == 2 then 0xC0 else if len == 3 then 0xE0 else if len == 4 then 0xF0 else 0
  }

  /** A \u escape and the one that makes a pair with it: the code point to write, if there is
      one, and where the text goes on. */
  method ReadUnits(text: Text, pos: nat) returns (code: Option<nat>, ptr: nat)
    requires pos + 1 < |text| && text[pos] == '\\' && text[pos + 1] == 'u' && Step(text[pos..]).Parsed?
    ensures ptr <= |text| && (code.Some? ==> code.value < 0x11_0000)
    ensures Step(text[pos..]) == Parsed(if code.None? then "" else Encode(code.value), text[ptr..])
  {
    ghost var t := text[pos..];
    SameSuffix(text, pos, 2);
    var uc := Hex4(text[pos + 2..]);
    code, ptr := None, pos + 6;
    SameSuffix(text, pos, 6);
    if IsLowSurrogate(uc) || uc == 0 {
    } else if !IsHighSurrogate(uc) {
      code := Some(uc);
    } else {
      SecondHalf(t);
      if At(text, ptr) == '\\' && At(text, ptr + 1) == 'u' {
        SameSuffix(text, pos, 8);
        SameSuffix(text, pos, 12);
        var uc2 := Hex4(text[ptr + 2..]);
        ptr := ptr + 6;
        if IsLowSurrogate(uc2) {
          code := Some(Combine(uc, uc2));
        }
      }
    }
  }

  lemma SameSuffix(text: Text, pos: nat, k: nat)
    requires pos <= |text|
    ensures forall i :: 0 <= i < |text| - pos ==> text[pos..][i] == text[pos + i]
    ensures pos + k <= |text| ==> text[pos..][k..] == text[pos + k..]
  {
  }

  /** After a high surrogate: whether another escape follows, and what the step is. */
  lemma SecondHalf(t: Text)
    requires |t| >= 6 && t[0] == '\\' && t[1] == 'u' && IsHex4(t[2..]) && IsHighSurrogate(Hex4(t[2..]))
             && Step(t).Parsed?
    ensures var more := |t| >= 8 && t[6] == '\\' && t[7] == 'u';
            if !more then Step(t) == Parsed("", t[6..])
            else |t| >= 12 && IsHex4(t[8..]) && Step(t) == Parsed(
              if IsLowSurrogate(Hex4(t[8..])) then Encode(Combine(Hex4(t[2..]), Hex4(t[8..]))) else "", t[12..])
  {
    if |t| >= 8 {
      assert t[6..][..2] == [t[6], t[7]];
    }
  }

  /** One escape sequence: the bytes it stands for go to out. */
  method TranscodeEscape(text: Text, pos: nat, out: array<char>, at: nat) returns (ptr: nat, end: nat)
    requires pos < |text| && text[pos] == '\\'
    requires Step(text[pos..]).Parsed? && at + |Step(text[pos..]).value| <= out.Length
    modifies out
    ensures ptr <= |text| && at <= end <= out.Length && out[..at] == old(out[..at])
    ensures Step(text[pos..]) == Parsed(out[at..end], text[ptr..])
  {
    SameSuffix(text, pos, 2);
    if text[pos + 1] != 'u' {
      out[at] := ShortEscape(text[pos + 1]);
      ptr, end := pos + 2, at + 1;
    } else {
      var code;
      code, ptr := ReadUnits(text, pos);
      end := at;
      if code.Some? {
        end := WriteUtf8(out, at, code.value);
      }
    }
  }

  /** The first scan: how many bytes to allocate. */
  method CountString(text: Text, pos: nat) returns (len: nat)
    requires pos <= |text| && ScanCount(text[pos..]).Some?
    ensures Some(len) == ScanCount(text[pos..])
  {
    var ptr := pos;
    len := 0;
    while At(text, ptr) != '\"' && At(text, ptr) != NUL
      invariant pos <= ptr <= |text|
      invariant Counted(len, ScanCount(text[ptr..])) == ScanCount(text[pos..])
      decreases |text| - ptr
    {
      len := len + 1;
      if text[ptr] == '\\' {
        assert text[ptr..][1..] == text[ptr + 1..];
        ptr := ptr + 1;
      }
      ptr := ptr + 1;
    }
  }

  lemma PrependPrepend(s: Text, t: Text, o: Outcome<Text>)
    ensures Prepend(s, Prepend(t, o)) == Prepend(s + t, o)
    ensures Prepend("", o) == o && s + "" == s
  {
    if o.Parsed? {
      assert s + (t + o.value) == s + t + o.value && "" + o.value == o.value;
    }
  }

  /** What was written, and the reading of what is left, make up the whole string; and the rest
      of the buffer is no smaller than the scan counts for the rest of the literal. */
  ghost predicate ReadSoFar(text: Text, ptr: nat, out: array<char>, ptr2: nat, whole: Outcome<Text>)
    reads out
  {
    && ptr <= |text| && ptr2 < out.Length
    && Unescape(text[ptr..]).Parsed? && Prepend(out[..ptr2], Unescape(text[ptr..])) == whole
    && ScanCount(text[ptr..]).Some? && ptr2 + ScanCount(text[ptr..]).value < out.Length
  }

  /** One turn of the loop: a plain character or an escape. */
  method ReadCharacter(text: Text, pos: nat, out: array<char>, at: nat, ghost whole: Outcome<Text>)
      returns (ptr: nat, ptr2: nat)
    requires ReadSoFar(text, pos, out, at, whole) && At(text, pos) != '\"' && At(text, pos) != NUL
    modifies out
    ensures pos < ptr && ReadSoFar(text, ptr, out, ptr2, whole)
  {
    ghost var (t, written) := (text[pos..], out[..at]);
    ghost var o := Step(t);
    NeverMoreThanCounted(o.rest);
    StepIsCounted(t);
    PrependPrepend(written, o.value, Unescape(o.rest));
    if text[pos] != '\\' {
      out[at] := text[pos];
      ptr, ptr2 := pos + 1, at + 1;
    } else {
      ptr, ptr2 := TranscodeEscape(text, pos, out, at);
    }
    assert out[..ptr2] == written + o.value && text[ptr..] == o.rest;
  }

  /** A string literal: the bytes it stands for never leave the buffer the first scan sized. */
  method ReadString(text: Text, pos: nat) returns (value: Option<Text>, end: nat)
    requires pos <= |text| && !ParseString(text[pos..]).Malformed?
    ensures value == None <==> ParseString(text[pos..]).Failed?
    ensures value.Some? ==> pos < end <= |text| && ParseString(text[pos..]) == Parsed(value.value, text[end..])
  {
    value, end := None, pos;
    if At(text, pos) == '\"' {
      var v;
      v, end := ReadLiteral(text, pos + 1);
      value := Some(v);
    }
  }

  /** From behind the opening quote. */
  method ReadLiteral(text: Text, pos: nat) returns (value: Text, end: nat)
    requires pos <= |text| && Unescape(text[pos..]).Parsed?
    ensures pos <= end <= |text| && Unescape(text[pos..]) == Parsed(value, text[end..])
  {
    ghost var whole := Unescape(text[pos..]);
    NeverMoreThanCounted(text[pos..]);
    PrependPrepend("", "", whole);
    var len := CountString(text, pos);
    var out := new char[len + 1];
    var ptr: nat, ptr2: nat := pos, 0;
    assert out[..0] == "";
    while At(text, ptr) != '\"' && At(text, ptr) != NUL
      invariant pos <= ptr && ReadSoFar(text, ptr, out, ptr2, whole)
      decreases |text| - ptr
    {
      ptr, ptr2 := ReadCharacter(text, ptr, out, ptr2, whole);
    }
    PrependPrepend(out[..ptr2], "", whole);
    out[ptr2] := NUL;
    value := out[..ptr2];
    end := if At(text, ptr) == '\"' then ptr + 1 else ptr;
  }
}
