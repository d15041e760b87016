/** Terminated strings in character arrays, and the copying loops over them. */
module CStrings {
  import opened Text

  /** At a position of the array starts the terminated text t. */
  ghost predicate StringAt(a: array<char>, at: nat, t: Text)
    reads a
  {
    at + |t| < a.Length && a[at..at + |t|] == t && a[at + |t|] == NUL
  }

  method StrLen(a: array<char>, at: nat, ghost t: Text) returns (n: nat)
    requires StringAt(a, at, t) && NulFree(t)
    ensures n == |t|
  {
    n := 0;
    assert forall i | 0 <= i < |t| :: t[i] == a[at..at + |t|][i];
    while a[at + n] != NUL
      invariant n <= |t|
      decreases |t| - n
    {
      n := n + 1;
    }
  }

  /** Writes the characters of a text from a position on; what is in front stays. */
  method Put(out: array<char>, at: nat, t: Text)
    requires at + |t| <= out.Length
    modifies out
    ensures out[..at + |t|] == old(out[..at]) + t
  {
    var i := 0;
    while i < |t|
      invariant i <= |t| && out[..at + i] == old(out[..at]) + t[..i]
    {
      out[at + i] := t[i];
      i := i + 1;
    }
    assert t[..i] == t;
  }

  /** memcpy of the characters of a terminated string. */
  method PutString(out: array<char>, at: nat, src: array<char>, ghost t: Text) returns (end: nat)
    requires StringAt(src, 0, t) && NulFree(t) && src != out && at + |t| <= out.Length
    modifies out
    ensures end == at + |t| && out[..end] == old(out[..at]) + t
  {
    var length := StrLen(src, 0, t);
    assert src[..length] == t;
    var i := 0;
    while i < length
      invariant i <= length && out[..at + i] == old(out[..at]) + t[..i]
    {
      out[at + i] := src[i];
      i := i + 1;
    }
    assert t[..i] == t;
    end := at + length;
  }

  method MemCpy(out: array<char>, src: array<char>, n: nat)
    requires out != src && n <= src.Length && n <= out.Length
    modifies out
    ensures out[..n] == src[..n]
  {
    var i := 0;
    while i < n
      invariant i <= n && out[..i] == src[..i]
    {
      out[i] := src[i];
      i := i + 1;
    }
  }
}
