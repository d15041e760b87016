/** UTF-8 (section 3 of RFC 3629) and the \uXXXX escapes of section 7 of RFC 8259. */
module Utf8 {
  import opened Text

  datatype Option<+T> = None | Some(value: T)

  predicate IsScalar(n: nat) {
    n < 0xD800 || 0xE000 <= n < 0x11_0000
  }

  predicate IsHighSurrogate(n: nat) {
    0xD800 <= n < 0xDC00
  }

  predicate IsLowSurrogate(n: nat) {
    0xDC00 <= n < 0xE000
  }

  function Byte(n: nat): char
    requires n < 0x100
  {
    n as char
  }

  function EncodedLength(n: nat): nat {
    if n < 0x80 then 1 else if n < 0x800 then 2 else if n < 0x1_0000 then 3 else 4
  }

  /** The bytes of a code point: six bits to a continuation byte, the rest in the lead byte. */
  function Encode(n: nat): (t: Text)
    requires n < 0x11_0000
    ensures |t| == EncodedLength(n)
  {
    var (n1, n2, n3) := (n / 64, n / 64 / 64, n / 64 / 64 / 64);
    if n < 0x80 then [Byte(n)]
    else if n < 0x800 then [Byte(0xC0 + n1), Trail(n)]
    else if n < 0x1_0000 then [Byte(0xE0 + n2), Trail(n1), Trail(n)]
    else [Byte(0xF0 + n3), Trail(n2), Trail(n1), Trail(n)]
  }

  function Trail(n: nat): (c: char)
    ensures IsContinuation(c) && Bits(c) == n % 64
  {
    Byte(0x80 + n % 64)
  }

  /** The payload of a continuation byte. */
  function Bits(c: char): (n: nat)
    requires IsContinuation(c)
    ensures n < 64
  {
    c as int - 0x80
  }

  predicate IsContinuation(c: char) {
    0x80 <= c as int < 0xC0
  }

  /** A strict decoder: no overlong forms, no surrogates, nothing past U+10FFFF. */
  function Decode(t: Text): Option<(nat, Text)> {
    var lead := Head(t) as int;
    if |t| >= 1 && lead < 0x80 then
      Some((lead, t[1..]))
    else if |t| >= 2 && 0xC0 <= lead < 0xE0 && IsContinuation(t[1]) then
      Scalar((lead - 0xC0) * 64 + Bits(t[1]), 2, t[2..])
    else if |t| >= 3 && 0xE0 <= lead < 0xF0 && IsContinuation(t[1]) && IsContinuation(t[2]) then
      Scalar(((lead - 0xE0) * 64 + Bits(t[1])) * 64 + Bits(t[2]), 3, t[3..])
    else if |t| >= 4 && 0xF0 <= lead < 0xF8 && IsContinuation(t[1]) && IsContinuation(t[2]) && IsContinuation(t[3]) then
      Scalar((((lead - 0xF0) * 64 + Bits(t[1])) * 64 + Bits(t[2])) * 64 + Bits(t[3]), 4, t[4..])
    else None
  }

  function Scalar(n: nat, length: nat, rest: Text): Option<(nat, Text)> {
    if IsScalar(n) && EncodedLength(n) == length then Some((n, rest)) else None
  }

  lemma DecodeEncode(n: nat, rest: Text)
    requires IsScalar(n)
    ensures Decode(Encode(n) + rest) == Some((n, rest))
  {
    var bytes := Encode(n);
    var t := bytes + rest;
    assert t[|bytes|..] == rest;
    assert forall i :: 0 <= i < |bytes| ==> t[i] == bytes[i];
  }

  /** Encode is the only spelling the strict decoder accepts. */
  lemma EncodeDecode(t: Text)
    requires Decode(t).Some?
    ensures var (n, rest) := Decode(t).value; IsScalar(n) && t == Encode(n) + rest
  {
    var lead := t[0] as int;
    if lead < 0x80 {
      assert t == [t[0]] + t[1..];
    } else if lead < 0xE0 {
      Encoded2(lead - 0xC0, t[1]);
      assert t == [t[0], t[1]] + t[2..];
    } else if 0xE0 <= lead < 0xF0 {
      Encoded3(lead - 0xE0, t[1], t[2]);
      assert t == [t[0], t[1], t[2]] + t[3..];
    } else if 0xF0 <= lead {
      Encoded4(lead - 0xF0, t[1], t[2], t[3]);
      assert t == [t[0], t[1], t[2], t[3]] + t[4..];
    }
  }

  lemma Encoded2(high: nat, c: char)
    requires high < 32 && IsContinuation(c) && EncodedLength(high * 64 + Bits(c)) == 2
    ensures Encode(high * 64 + Bits(c)) == [Byte(0xC0 + high), c]
  {
    Join(high, c);
  }

  lemma Encoded3(high: nat, c: char, d: char)
    requires high < 16 && IsContinuation(c) && IsContinuation(d)
    requires EncodedLength((high * 64 + Bits(c)) * 64 + Bits(d)) == 3
    ensures Encode((high * 64 + Bits(c)) * 64 + Bits(d)) == [Byte(0xE0 + high), c, d]
  {
    Join(high, c);
    Join(high * 64 + Bits(c), d);
  }

  lemma Encoded4(high: nat, c: char, d: char, e: char)
    requires high < 8 && IsContinuation(c) && IsContinuation(d) && IsContinuation(e)
    requires EncodedLength(((high * 64 + Bits(c)) * 64 + Bits(d)) * 64 + Bits(e)) == 4
    requires ((high * 64 + Bits(c)) * 64 + Bits(d)) * 64 + Bits(e) < 0x11_0000
    ensures Encode(((high * 64 + Bits(c)) * 64 + Bits(d)) * 64 + Bits(e)) == [Byte(0xF0 + high), c, d, e]
  {
    Join(high, c);
    Join(high * 64 + Bits(c), d);
    Join((high * 64 + Bits(c)) * 64 + Bits(d), e);
  }

  lemma Join(high: nat, c: char)
    requires IsContinuation(c)
    ensures (high * 64 + Bits(c)) / 64 == high && Trail(high * 64 + Bits(c)) == c
  {
    assert (high * 64 + Bits(c)) % 64 == Bits(c);
  }

  function HexValue(c: char): Option<nat> {
    if '0' <= c <= '9' then Some(c as int - '0' as int)
    else if 'A' <= c <= 'F' then Some(10 + c as int - 'A' as int)
    else if 'a' <= c <= 'f' then Some(10 + c as int - 'a' as int)
    else None
  }

  predicate IsHex4(t: Text) {
    |t| >= 4 && forall i :: 0 <= i < 4 ==> HexValue(t[i]).Some?
  }

  function Hex4(t: Text): (n: nat)
    requires IsHex4(t)
    ensures n < 0x1_0000
  {
    HexValue(t[0]).value * 4096 + HexValue(t[1]).value * 256 + HexValue(t[2]).value * 16 + HexValue(t[3]).value
  }

  /** The code point of a surrogate pair. */
  function Combine(high: nat, low: nat): (n: nat)
    requires IsHighSurrogate(high) && IsLowSurrogate(low)
    ensures 0x1_0000 <= n < 0x11_0000
  {
    0x1_0000 + (high - 0xD800) * 0x400 + (low - 0xDC00)
  }
}
