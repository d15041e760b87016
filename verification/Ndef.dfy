/** NDEF messages on an NFC tag: a length-prefixed block in tag memory that holds a record with
    lengths of its own. It is read in blocks of 16 bytes and written in pages of 4, skipping the
    pages that the cache of what was read last says are as wanted. */
module Ndef {
  import opened Frames
  import opened Commands

  const TAG_SIZE: nat := 1024
  const MAX_SIZE: nat := 2048
  const MAX_URI: nat := 40
  /** The page NDEF data starts at. */
  const OFFSET: nat := 4
  /** What fits pages whose number is one byte. */
  const MAX_TOTAL: nat := 1008

  // ----- layout -----

  /** The first and fourth, and the second and third byte change places. */
  function Swapped(n: Address): Address {
    n % 0x100 * 0x100_0000 + n / 0x100 % 0x100 * 0x1_0000 + n / 0x1_0000 % 0x100 * 0x100 + n / 0x100_0000 % 0x100
  }

  lemma BytesOf(b3: Octet, b2: Octet, b1: Octet, b0: Octet, n: nat)
    requires n == b3 * 0x100_0000 + b2 * 0x1_0000 + b1 * 0x100 + b0
    ensures n % 0x100 == b0 && n / 0x100 % 0x100 == b1 && n / 0x1_0000 % 0x100 == b2 && n / 0x100_0000 % 0x100 == b3
  {
    var n1: nat := b3 * 0x1_0000 + b2 * 0x100 + b1;
    assert n == n1 * 0x100 + b0 && n / 0x100 == n1;
    assert n / 0x1_0000 == b3 * 0x100 + b2;
    assert n / 0x100_0000 == b3;
  }

  lemma SwappedTwice(n: Address)
    ensures Swapped(Swapped(n)) == n
  {
    var (b0, b1, b2, b3) := (n % 0x100, n / 0x100 % 0x100, n / 0x1_0000 % 0x100, n / 0x100_0000);
    SumOfBytes(n);
    BytesOf(b0, b1, b2, b3, Swapped(n));
  }

  lemma SumOfBytes(n: Address)
    ensures n == n / 0x100_0000 * 0x100_0000 + n / 0x1_0000 % 0x100 * 0x1_0000 + n / 0x100 % 0x100 * 0x100 + n % 0x100
  {
    var (n1, n2, n3) := (n / 0x100, n / 0x1_0000, n / 0x100_0000);
    assert n == n1 * 0x100 + n % 0x100;
    assert n1 == n2 * 0x100 + n1 % 0x100;
    assert n2 == n3 * 0x100 + n2 % 0x100;
  }

  function TagHeader(length: nat): (h: seq<Octet>)
    requires length < 0x1_0000
    ensures |h| == if length < 255 then 2 else 4
  {
    if length < 255 then [0x03, length] else [0x03, 0xFF, length / 256, length % 256]
  }

  function RecordHeader(uriLength: nat, payloadLength: nat): (h: seq<Octet>)
    requires uriLength < 256 && payloadLength < 0x1_0000_0000
    ensures |h| == if payloadLength < 255 then 3 else 6
  {
    if payloadLength < 255 then [0xd4, uriLength, payloadLength]
    else [0xc4, uriLength] + AddressBytes(Swapped(payloadLength))
  }

  function Record(uri: seq<Octet>, payload: seq<Octet>): seq<Octet>
    requires |uri| < 256 && |payload| < 0x1_0000_0000
  {
    RecordHeader(|uri|, |payload|) + uri + payload
  }

  predicate Encodable(uri: seq<Octet>, payload: seq<Octet>) {
    |uri| < 256 && |payload| < 0x1_0000 && |Record(uri, payload)| < 0x1_0000
  }

  /** Header and record. */
  function Unmarked(uri: seq<Octet>, payload: seq<Octet>): seq<Octet>
    requires Encodable(uri, payload)
  {
    TagHeader(|Record(uri, payload)|) + Record(uri, payload)
  }

  /** With the end marker behind. */
  function Message(uri: seq<Octet>, payload: seq<Octet>): seq<Octet>
    requires Encodable(uri, payload)
  {
    Unmarked(uri, payload) + [0xFE]
  }

  // ----- what a reader makes of it -----

  /** Where the record starts, and how long it says it is. */
  function RecordAt(bytes: seq<Octet>): nat
    requires |bytes| >= 16
  {
    if bytes[1] == 0xFF then 4 else 2
  }

  function RecordLength(bytes: seq<Octet>): nat
    requires |bytes| >= 16
  {
    if bytes[1] == 0xFF then bytes[2] as int * 256 + bytes[3] else bytes[1]
  }

  /** How many blocks of 16 bytes are read. */
  function BlockCount(bytes: seq<Octet>): (n: nat)
    requires |bytes| >= 16
    ensures n >= 1
  {
    1 + (RecordLength(bytes) - (16 - RecordAt(bytes)) + 15) / 16
  }

  /** The blocks read cover the header and the record, and no whole block more. */
  lemma BlocksCover(bytes: seq<Octet>)
    requires |bytes| >= 16
    ensures RecordAt(bytes) + RecordLength(bytes) <= 16 * BlockCount(bytes)
    ensures 16 * BlockCount(bytes) < RecordAt(bytes) + RecordLength(bytes) + 16 || BlockCount(bytes) == 1
  {
  }

  /** The blocks fit the cache exactly if the record ends in it. */
  lemma BlocksFit(bytes: seq<Octet>)
    requires |bytes| >= 16
    ensures 16 * BlockCount(bytes) <= MAX_SIZE <==> RecordAt(bytes) + RecordLength(bytes) <= MAX_SIZE
  {
  }

  datatype Lengths = Lengths(uriAt: nat, uri: nat, payload: nat)

  function LengthsIn(bytes: seq<Octet>): Lengths
    requires |bytes| >= 16
  {
    var at := RecordAt(bytes);
    if bytes[at] / 16 % 2 == 1 then Lengths(at + 3, bytes[at + 1], bytes[at + 2])
    else Lengths(at + 6, bytes[at + 1], Swapped(AddressOf(bytes[at + 2..at + 6])))
  }

  /** What is copied out; nothing if it is too long for the caller or not all in the cache. */
  function CopiedOut(bytes: seq<Octet>, at: nat, n: nat, limit: nat): seq<Octet> {
    if n < limit && at + n <= |bytes| then bytes[at..at + n] else []
  }

  function UriIn(bytes: seq<Octet>, maxUri: nat): seq<Octet>
    requires |bytes| >= 16
  {
    CopiedOut(bytes, LengthsIn(bytes).uriAt, LengthsIn(bytes).uri, maxUri)
  }

  function PayloadIn(bytes: seq<Octet>, maxPayload: nat): seq<Octet>
    requires |bytes| >= 16
  {
    var l := LengthsIn(bytes);
    CopiedOut(bytes, l.uriAt + l.uri, l.payload, maxPayload)
  }

  /** In any memory that starts with a message, the message is what is found. */
  lemma MessageFound(uri: seq<Octet>, payload: seq<Octet>, bytes: seq<Octet>, limit: nat)
    requires Encodable(uri, payload) && |uri| < MAX_URI && |payload| < limit && |bytes| >= 16
    requires Unmarked(uri, payload) <= bytes
    ensures bytes[0] == 0x03 && RecordLength(bytes) == |Record(uri, payload)|
    ensures RecordAt(bytes) == |TagHeader(|Record(uri, payload)|)|
    ensures LengthsIn(bytes).payload == |payload|
    ensures UriIn(bytes, MAX_URI) == uri && PayloadIn(bytes, limit) == payload
  {
    var (h, r) := (TagHeader(|Record(uri, payload)|), RecordHeader(|uri|, |payload|));
    Regroup(h, r, uri, payload);
    LengthsWhere(uri, payload, bytes);
    PartAt(bytes, h + r, uri, payload);
    PartAt(bytes, h + r + uri, payload, []);
  }

  lemma LengthsWhere(uri: seq<Octet>, payload: seq<Octet>, bytes: seq<Octet>)
    requires Encodable(uri, payload) && |bytes| >= 16 && Unmarked(uri, payload) <= bytes
    ensures var (h, r) := (TagHeader(|Record(uri, payload)|), RecordHeader(|uri|, |payload|));
            && bytes[0] == 0x03 && RecordLength(bytes) == |Record(uri, payload)| && RecordAt(bytes) == |h|
            && LengthsIn(bytes) == Lengths(|h| + |r|, |uri|, |payload|)
  {
    var (h, r) := (TagHeader(|Record(uri, payload)|), RecordHeader(|uri|, |payload|));
    Regroup(h, r, uri, payload);
    PartAt(bytes, [], h, r + uri + payload);
    HeaderFound(|Record(uri, payload)|, bytes);
    PartAt(bytes, h, r, uri + payload);
    LengthsFound(|uri|, |payload|, bytes, |h|);
  }

  lemma Regroup(h: seq<Octet>, r: seq<Octet>, u: seq<Octet>, p: seq<Octet>)
    ensures h + (r + u + p) == [] + (h + (r + u + p)) == h + (r + (u + p))
    ensures h + (r + u + p) == h + r + (u + p) == h + r + u + (p + [])
  {
  }

  lemma PartAt(bytes: seq<Octet>, front: seq<Octet>, part: seq<Octet>, back: seq<Octet>)
    requires front + (part + back) <= bytes
    ensures |front| + |part| <= |bytes| && bytes[|front|..|front| + |part|] == part
    ensures forall i :: 0 <= i < |part| ==> bytes[|front| + i] == part[i]
  {
    var all := front + (part + back);
    assert forall i :: 0 <= i < |part| ==> bytes[|front| + i] == all[|front| + i] == part[i];
  }

  lemma HeaderFound(length: nat, bytes: seq<Octet>)
    requires length < 0x1_0000 && |bytes| >= 16
    requires bytes[0..0 + |TagHeader(length)|] == TagHeader(length)
    ensures bytes[0] == 0x03 && RecordAt(bytes) == |TagHeader(length)| && RecordLength(bytes) == length
  {
    var h := bytes[0..0 + |TagHeader(length)|];
    assert forall i :: 0 <= i < |h| ==> bytes[i] == h[i];
  }

  lemma LengthsFound(uriLength: nat, payloadLength: nat, bytes: seq<Octet>, at: nat)
    requires uriLength < 256 && payloadLength < 0x1_0000_0000 && |bytes| >= 16 && at == RecordAt(bytes)
    requires forall i :: 0 <= i < |RecordHeader(uriLength, payloadLength)| ==>
      bytes[at + i] == RecordHeader(uriLength, payloadLength)[i]
    ensures LengthsIn(bytes) == Lengths(at + |RecordHeader(uriLength, payloadLength)|, uriLength, payloadLength)
  {
    var h := RecordHeader(uriLength, payloadLength);
    assert bytes[at + 0] == h[0] && bytes[at + 1] == h[1] && bytes[at + 2] == h[2];
    if payloadLength >= 255 {
      var quad := AddressBytes(Swapped(payloadLength));
      assert forall i :: 0 <= i < 4 ==> bytes[at + (2 + i)] == h[2 + i] == quad[i];
      assert bytes[at + 2..at + 6] == quad + [];
      AddressOfBytes(Swapped(payloadLength), []);
      SwappedTwice(payloadLength);
    }
  }

  // ----- the bytes, written out -----

  /** The headers of a message: its lengths stand highest byte first. */
  lemma HeaderBytes(uriLength: nat, payloadLength: nat, length: nat)
    requires uriLength < 256 && payloadLength < 0x1_0000_0000 && length < 0x1_0000
    ensures var h := TagHeader(length);
            if length < 255 then h == [0x03, length]
            else |h| == 4 && h[0] == 0x03 && h[1] == 0xFF && h[2] as int * 256 + h[3] as int == length
    ensures var h := RecordHeader(uriLength, payloadLength);
            if payloadLength < 255 then h == [0xd4, uriLength, payloadLength]
            else |h| == 6 && h[0] == 0xc4 && h[1] == uriLength && Big(h[2], h[3], h[4], h[5]) == payloadLength
  {
    if payloadLength >= 255 {
      BigOfSwapped(payloadLength);
    }
  }

  function Big(b3: Octet, b2: Octet, b1: Octet, b0: Octet): nat {
    ((b3 as int * 256 + b2 as int) * 256 + b1 as int) * 256 + b0 as int
  }

  lemma BigOfSwapped(n: Address)
    ensures var bytes := AddressBytes(Swapped(n)); Big(bytes[0], bytes[1], bytes[2], bytes[3]) == n
  {
    SumOfBytes(n);
    BytesOf(n % 0x100, n / 0x100 % 0x100, n / 0x1_0000 % 0x100, n / 0x100_0000, Swapped(n));
  }

  lemma SwappedOfBig(bytes: seq<Octet>)
    requires |bytes| == 4
    ensures Swapped(AddressOf(bytes)) == Big(bytes[0], bytes[1], bytes[2], bytes[3])
  {
    BytesOf(bytes[3], bytes[2], bytes[1], bytes[0], AddressOf(bytes));
  }

  /** What does not fit the caller's buffer with its terminator is not copied. */
  lemma TooLong(bytes: seq<Octet>, limit: nat)
    requires |bytes| >= 16
    ensures LengthsIn(bytes).uri >= limit ==> UriIn(bytes, limit) == []
    ensures LengthsIn(bytes).payload >= limit ==> PayloadIn(bytes, limit) == []
  {
  }

  /** What a reader makes of any bytes: the type length and the lengths of record and payload, of
      one byte, or of two and four, highest first. */
  lemma LengthsRead(bytes: seq<Octet>)
    requires |bytes| >= 16
    ensures var at := if bytes[1] == 0xFF then 4 else 2;
            var h := bytes[at..];
            && RecordAt(bytes) == at
            && RecordLength(bytes) == (if bytes[1] == 0xFF then bytes[2] as int * 256 + bytes[3] as int else bytes[1])
            && LengthsIn(bytes).uri == h[1]
            && if h[0] / 16 % 2 == 1 then LengthsIn(bytes).uriAt == at + 3 && LengthsIn(bytes).payload == h[2]
               else LengthsIn(bytes).uriAt == at + 6 && LengthsIn(bytes).payload == Big(h[2], h[3], h[4], h[5])
  {
    var at := RecordAt(bytes);
    SwappedOfBig(bytes[at + 2..at + 6]);
  }
}
