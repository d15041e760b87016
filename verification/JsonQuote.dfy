/** Printing a string as a literal: a first pass looks for characters to escape, a second
    counts, a third writes. */
module JsonQuote {
  import opened Text
  import opened JsonTree
  import opened CStrings

  predicate IsEscaped(c: char) {
    NUL < c < ' ' || c == '\"' || c == '\\'
  }

  predicate AnyEscaped(s: Text) {
    exists i :: 0 <= i < |s| && IsEscaped(s[i])
  }

  lemma {:induction false} EscapeAppend(s: Text, c: char)
    ensures Escape(s + [c]) == Escape(s) + EscapeChar(c)
  {
    if s == [] {
      assert Escape([c]) == EscapeChar(c) + Escape([]);
    } else {
      assert (s + [c])[1..] == s[1..] + [c];
      EscapeAppend(s[1..], c);
    }
  }

  /** The escaped text grows with the string. */
  lemma EscapePrefix(s: Text, i: nat)
    requires i < |s|
    ensures Escape(s[..i + 1]) == Escape(s[..i]) + EscapeChar(s[i])
    ensures |Escape(s[..i + 1])| <= |Escape(s)|
    decreases |s| - i
  {
    assert s[..i + 1] == s[..i] + [s[i]];
    EscapeAppend(s[..i], s[i]);
    if i + 1 == |s| {
      assert s[..i + 1] == s;
    } else {
      EscapePrefix(s, i + 1);
    }
  }

  /** Without a character to escape, the two paths agree. */
  lemma {:induction false} EscapeNothing(s: Text)
    requires NulFree(s) && !AnyEscaped(s)
    ensures Escape(s) == s
  {
    if s != [] {
      NothingBehind(s);
      EscapeNothing(s[1..]);
      NotEscaped(s[0]);
      assert [s[0]] + s[1..] == s;
    }
  }

  lemma NothingBehind(s: Text)
    requires s != [] && NulFree(s) && !AnyEscaped(s)
    ensures NulFree(s[1..]) && !AnyEscaped(s[1..]) && s[0] != NUL && !IsEscaped(s[0])
  {
    forall i | 0 <= i < |s| - 1 ensures !IsEscaped(s[1..][i]) {
      assert s[1..][i] == s[i + 1];
    }
  }

  lemma NotEscaped(c: char)
    requires c != NUL && !IsEscaped(c)
    ensures EscapeChar(c) == [c]
  {
  }

  method FindEscaped(str: Text) returns (flag: bool)
    requires NulFree(str)
    ensures flag <==> AnyEscaped(str)
  {
    flag := false;
    var ptr := 0;
    while At(str, ptr) != NUL
      invariant ptr <= |str| && (flag <==> AnyEscaped(str[..ptr]))
      decreases |str| - ptr
    {
      flag := flag || IsEscaped(str[ptr]);
      ptr := ptr + 1;
      assert str[..ptr] == str[..ptr - 1] + [str[ptr - 1]];
    }
    assert str[..ptr] == str;
  }

  const SHORT_ESCAPES: Text := "\"\\\U{8}\U{C}\n\r\t"

  lemma EscapeWidth(c: char)
    requires c != NUL
    ensures |EscapeChar(c)| == if c in SHORT_ESCAPES then 2 else if c < ' ' then 6 else 1
  {
  }

  /** The counting pass. */
  method CountEscaped(str: Text) returns (len: nat)
    requires NulFree(str)
    ensures len == |Escape(str)|
  {
    len := 0;
    var ptr := 0;
    while At(str, ptr) != NUL
      invariant ptr <= |str| && len == |Escape(str[..ptr])|
      decreases |str| - ptr
    {
      EscapePrefix(str, ptr);
      var token := str[ptr];
      EscapeWidth(token);
      len := len + 1;
      if token in SHORT_ESCAPES {
        len := len + 1;
      } else if token < ' ' {
        len := len + 5;
      }
      ptr := ptr + 1;
    }
    assert str[..ptr] == str;
  }

  /** One character of the writing pass. */
  method PutEscaped(out: array<char>, at: nat, token: char) returns (end: nat)
    requires token != NUL && at + |EscapeChar(token)| <= out.Length
    modifies out
    ensures end == at + |EscapeChar(token)| && out[..end] == old(out[..at]) + EscapeChar(token)
  {
    if token >= ' ' && token != '\"' && token != '\\' {
      out[at] := token;
      end := at + 1;
    } else {
      out[at] := '\\';
      end := at + 2;
      if token == '\\' {
        out[at + 1] := '\\';
      } else if token == '\"' {
        out[at + 1] := '\"';
      } else if token == '\U{8}' {
        out[at + 1] := 'b';
      } else if token == '\U{C}' {
        out[at + 1] := 'f';
      } else if token == '\n' {
        out[at + 1] := 'n';
      } else if token == '\r' {
        out[at + 1] := 'r';
      } else if token == '\t' {
        out[at + 1] := 't';
      } else {
        Put(out, at + 1, "u00" + [HEX[token as int / 16], HEX[token as int % 16]]);
        end := at + 6;
      }
    }
  }

  /** The writing pass, in exactly the room it was counted. */
  method PutEscapes(out: array<char>, at: nat, str: Text) returns (end: nat)
    requires NulFree(str) && at + |Escape(str)| <= out.Length
    modifies out
    ensures end == at + |Escape(str)| && out[..end] == old(out[..at]) + Escape(str)
  {
    end := at;
    var ptr := 0;
    while At(str, ptr) != NUL
      invariant ptr <= |str| && end == at + |Escape(str[..ptr])| && |Escape(str[..ptr])| <= |Escape(str)|
      invariant out[..end] == old(out[..at]) + Escape(str[..ptr])
      decreases |str| - ptr
    {
      EscapePrefix(str, ptr);
      Regroup(old(out[..at]), Escape(str[..ptr]), EscapeChar(str[ptr]));
      end := PutEscaped(out, end, str[ptr]);
      ptr := ptr + 1;
    }
    assert str[..ptr] == str;
  }

  /** The quoted string and its NUL, on either path. */
  method PutQuoted(out: array<char>, at: nat, str: Text, flag: bool)
    requires NulFree(str) && (flag <==> AnyEscaped(str)) && at + |Quote(str)| < out.Length
    modifies out
    ensures out[..at + |Quote(str)| + 1] == old(out[..at]) + (Quote(str) + [NUL])
  {
    out[at] := '\"';
    var ptr2 := at + 1;
    assert out[..ptr2] == old(out[..at]) + ['\"'];
    if flag {
      ptr2 := PutEscapes(out, ptr2, str);
    } else {
      EscapeNothing(str);
      Put(out, ptr2, str);
      ptr2 := ptr2 + |str|;
    }
    out[ptr2], out[ptr2 + 1] := '\"', NUL;
    QuoteText(old(out[..at]), out[..at + |Quote(str)| + 1], str);
  }

  lemma QuoteText(before: Text, after: Text, str: Text)
    requires |after| == |before| + |Quote(str)| + 1
    requires after[..|after| - 2] == before + ['\"'] + Escape(str) && after[|after| - 2..] == ['\"', NUL]
    ensures after == before + (Quote(str) + [NUL])
  {
    var e := Escape(str);
    assert after == before + ['\"'] + e + ['\"', NUL];
    assert Quote(str) + [NUL] == ['\"'] + e + ['\"', NUL];
    assert before + ['\"'] + e + ['\"', NUL] == before + (['\"'] + e + ['\"', NUL]);
  }
}
