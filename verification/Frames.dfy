/** Boot loader frames: a length byte, a message type, a header, data, and a checksum that
    makes the exclusive or of the whole frame zero. */
module Frames {
  import opened PowerOfTwo

  type Octet = n: int | 0 <= n < 256

  /** x ^ y, bit by bit from the lowest */
  function XorBits(x: nat, y: nat): nat {
    if x == 0 && y == 0 then 0 else 2 * XorBits(x / 2, y / 2) + if x % 2 == y % 2 then 0 else 1
  }

  lemma {:induction false} XorBitsBound(x: nat, y: nat, k: nat)
    requires x < Power(k) && y < Power(k)
    ensures XorBits(x, y) < Power(k)
  {
    if k > 0 {
      XorBitsBound(x / 2, y / 2, k - 1);
    }
  }

  lemma XorHalf(x: nat, y: nat)
    ensures XorBits(x, y) / 2 == XorBits(x / 2, y / 2)
    ensures XorBits(x, y) % 2 == if x % 2 == y % 2 then 0 else 1
  {
  }

  lemma HalfOfThree(x: nat, y: nat, z: nat)
    ensures var (l, r) := (XorBits(XorBits(x, y), z), XorBits(x, XorBits(y, z)));
            l / 2 == XorBits(XorBits(x / 2, y / 2), z / 2) && r / 2 == XorBits(x / 2, XorBits(y / 2, z / 2))
            && l % 2 == r % 2
  {
    XorHalf(x, y);
    XorHalf(y, z);
    XorHalf(XorBits(x, y), z);
    XorHalf(x, XorBits(y, z));
  }

  lemma {:induction false} XorBitsAssociative(x: nat, y: nat, z: nat)
    ensures XorBits(XorBits(x, y), z) == XorBits(x, XorBits(y, z))
    decreases x + y + z
  {
    if x + y + z > 0 {
      XorBitsAssociative(x / 2, y / 2, z / 2);
      HalfOfThree(x, y, z);
      SameHalves(XorBits(XorBits(x, y), z), XorBits(x, XorBits(y, z)));
    }
  }

  lemma SameHalves(x: nat, y: nat)
    requires x / 2 == y / 2 && x % 2 == y % 2
    ensures x == y
  {
  }

  lemma {:induction false} XorBitsSelf(x: nat, y: nat)
    ensures XorBits(x, 0) == x && XorBits(0, x) == x
    ensures XorBits(x, y) == 0 <==> x == y
  {
    if x != 0 || y != 0 {
      XorBitsSelf(x / 2, y / 2);
      XorHalf(x, y);
      XorHalf(x, 0);
      XorHalf(0, x);
    }
  }

  function Xor2(x: Octet, y: Octet): Octet {
    assert Power(8) == 256;
    XorBitsBound(x, y, 8);
    XorBits(x, y)
  }

  function Xor(bytes: seq<Octet>): Octet {
    if bytes == [] then 0 else Xor2(bytes[0], Xor(bytes[1..]))
  }

  lemma {:induction false} XorAppend(s: seq<Octet>, t: seq<Octet>)
    ensures Xor(s + t) == Xor2(Xor(s), Xor(t))
  {
    if s == [] {
      assert s + t == t;
      XorBitsSelf(Xor(t), 0);
    } else {
      assert (s + t)[1..] == s[1..] + t;
      XorAppend(s[1..], t);
      XorBitsAssociative(s[0], Xor(s[1..]), Xor(t));
    }
  }

  lemma XorStep(s: seq<Octet>, b: Octet)
    ensures Xor(s + [b]) == Xor2(Xor(s), b)
  {
    XorAppend(s, [b]);
    XorBitsSelf(b, 0);
    assert Xor([b]) == Xor2(b, Xor([]));
  }

  /** Whether a frame can be built: the length byte counts type and checksum too. */
  predicate Framable(header: seq<Octet>, data: seq<Octet>) {
    |header| + |data| < 0xfe
  }

  function Body(kind: Octet, header: seq<Octet>, data: seq<Octet>): seq<Octet>
    requires Framable(header, data)
  {
    [|header| + |data| + 2, kind] + header + data
  }

  function Frame(kind: Octet, header: seq<Octet>, data: seq<Octet>): (f: seq<Octet>)
    requires Framable(header, data)
    ensures |f| == |header| + |data| + 3
  {
    Body(kind, header, data) + [Xor(Body(kind, header, data))]
  }

  /** What a receiver checks: the first byte counts the rest and everything cancels out. */
  predicate WellFormed(f: seq<Octet>) {
    f != [] && f[0] == |f| - 1 && Xor(f) == 0
  }

  lemma FrameWellFormed(kind: Octet, header: seq<Octet>, data: seq<Octet>)
    requires Framable(header, data)
    ensures WellFormed(Frame(kind, header, data))
  {
    var body := Body(kind, header, data);
    XorStep(body, Xor(body));
    XorBitsSelf(Xor(body), Xor(body));
  }

  /** Every well-formed frame of at least three bytes is one that can be built, in one way. */
  lemma WellFormedIsFrame(f: seq<Octet>, split: nat)
    requires WellFormed(f) && |f| >= 3 && split <= |f| - 3
    ensures var (header, data) := (f[2..2 + split], f[2 + split..|f| - 1]);
            Framable(header, data) && f == Frame(f[1], header, data)
  {
    var (header, data) := (f[2..2 + split], f[2 + split..|f| - 1]);
    BodyOf(f, split);
    var (body, c) := (f[..|f| - 1], f[|f| - 1]);
    assert f == body + [c];
    LastByte(body, c);
  }

  lemma BodyOf(f: seq<Octet>, split: nat)
    requires |f| >= 3 && f[0] == |f| - 1 && split <= |f| - 3
    ensures Framable(f[2..2 + split], f[2 + split..|f| - 1])
    ensures f[..|f| - 1] == Body(f[1], f[2..2 + split], f[2 + split..|f| - 1])
  {
    assert f[..|f| - 1] == [f[0], f[1]] + f[2..2 + split] + f[2 + split..|f| - 1];
  }

  /** The checksum is the only last byte that makes everything cancel out. */
  lemma LastByte(body: seq<Octet>, c: Octet)
    requires Xor(body + [c]) == 0
    ensures c == Xor(body)
  {
    XorStep(body, c);
    XorBitsSelf(Xor(body), c);
  }

  /** Changing a single byte never leaves the sum as it was. */
  lemma ChangedByte(f: seq<Octet>, i: nat, b: Octet)
    requires i < |f| && b != f[i]
    ensures Xor(f[i := b]) != Xor(f)
  {
    var g := f[i := b];
    assert f == f[..i] + ([f[i]] + f[i + 1..]) && g == f[..i] + ([b] + f[i + 1..]);
    var (x, y) := (Xor(f[..i]), Xor(f[i + 1..]));
    XorAppend(f[..i], [f[i]] + f[i + 1..]);
    XorAppend(f[..i], [b] + f[i + 1..]);
    XorAppend([f[i]], f[i + 1..]);
    XorAppend([b], f[i + 1..]);
    XorStep([], f[i]);
    XorStep([], b);
    XorBitsSelf(f[i], 0);
    XorBitsSelf(b, 0);
    assert [] + [f[i]] == [f[i]] && [] + [b] == [b];
    Cancel(x, f[i], b, y);
  }

  lemma Cancel(x: Octet, a: Octet, b: Octet, y: Octet)
    requires a != b
    ensures Xor2(x, Xor2(a, y)) != Xor2(x, Xor2(b, y))
  {
    var (p, q) := (Xor2(a, y), Xor2(b, y));
    // x ^ (x ^ p) is p, and (a ^ y) ^ y is a.
    XorBitsAssociative(x, x, p);
    XorBitsAssociative(x, x, q);
    XorBitsAssociative(a, y, y);
    XorBitsAssociative(b, y, y);
    XorBitsSelf(x, x);
    XorBitsSelf(y, y);
    XorBitsSelf(p, q);
    XorBitsSelf(a, b);
    XorBitsSelf(q, p);
    XorBitsSelf(b, a);
  }

  method Memcpy(msg: array<Octet>, at: nat, data: seq<Octet>)
    requires at + |data| <= msg.Length
    modifies msg
    ensures msg[..at + |data|] == old(msg[..at]) + data
  {
    forall i | 0 <= i < |data| {
      msg[at + i] := data[i];
    }
  }
}
