/** C strings. A text is the characters up to, and without, the terminating NUL;
    reading at its end yields that NUL. A pointer into a text is the suffix it points at. */
module Text {
  /** One character stands for one byte. */
  type Text = string

  const NUL: char := '\0'

  /** What `*p` reads. */
  function Head(t: Text): char {
    if t == [] then NUL else t[0]
  }

  /** What `p[i]` reads, for a position up to and including the terminator. */
  function At(t: Text, i: nat): char {
    if i < |t| then t[i] else NUL
  }

  predicate NulFree(t: Text) {
    forall i :: 0 <= i < |t| ==> t[i] != NUL
  }

  predicate StartsWith(t: Text, word: Text) {
    |word| <= |t| && t[..|word|] == word
  }

  predicate IsDigit(c: char) {
    '0' <= c <= '9'
  }

  predicate IsBlank(c: char) {
    c != NUL && c <= ' '
  }

  predicate AllBlank(t: Text) {
    forall i :: 0 <= i < |t| ==> IsBlank(t[i])
  }

  /** The parser's utility to jump over white space. */
  function Skip(t: Text): (r: Text)
    ensures |r| <= |t| && !IsBlank(Head(r))
  {
    if IsBlank(Head(t)) then Skip(t[1..]) else t
  }

  lemma {:induction false} SkipBlanks(blanks: Text, t: Text)
    requires AllBlank(blanks) && !IsBlank(Head(t))
    ensures Skip(blanks + t) == t
  {
    if blanks == [] {
      assert blanks + t == t;
    } else {
      assert (blanks + t)[1..] == blanks[1..] + t;
      SkipBlanks(blanks[1..], t);
    }
  }

  /** n copies of a character. */
  function Repeat(c: char, n: nat): (r: Text)
    ensures |r| == n && forall i :: 0 <= i < n ==> r[i] == c
  {
    seq(n, _ => c)
  }

  lemma Regroup(s: Text, t: Text, u: Text)
    ensures s + t + u == s + (t + u)
  {
  }
}
