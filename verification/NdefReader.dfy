/** Reading and writing a tag through the cache of what was read last. */
module NdefReader {
  import opened Frames
  import opened Scripts
  import opened Ndef

  /** The byte that addresses a page. */
  function PageByte(page: nat): Octet {
    (page + OFFSET) % 256
  }

  function Block(tag: seq<Octet>, page: Octet): (bytes: seq<Octet>)
    requires page * 4 + 16 <= |tag|
    ensures |bytes| == 16
  {
    tag[page * 4..page * 4 + 16]
  }

  // ----- what a write leaves -----

  predicate Differs(cache: seq<Octet>, content: seq<Octet>, page: nat)
    requires |cache| == |content| == MAX_SIZE && page < MAX_SIZE / 4
  {
    cache[4 * page..4 * page + 4] != content[4 * page..4 * page + 4]
  }

  /** The tag after the first pages that differ from the cache were written. */
  function Updated(tag: seq<Octet>, cache: seq<Octet>, content: seq<Octet>, pages: nat): (after: seq<Octet>)
    requires |tag| == TAG_SIZE && |cache| == |content| == MAX_SIZE && 4 * pages <= MAX_TOTAL
    ensures |after| == TAG_SIZE
  {
    seq(TAG_SIZE, j requires 0 <= j < TAG_SIZE =>
      if 16 <= j < 16 + 4 * pages && Differs(cache, content, (j - 16) / 4) then content[j - 16] else tag[j])
  }

  /** The tag after the first pages were all written. */
  function Overwritten(tag: seq<Octet>, content: seq<Octet>, pages: nat): (after: seq<Octet>)
    requires |tag| == TAG_SIZE && |content| == MAX_SIZE && 4 * pages <= MAX_TOTAL
    ensures |after| == TAG_SIZE
  {
    tag[..16] + content[..4 * pages] + tag[16 + 4 * pages..]
  }

  /** The cache tells of a page what the tag holds. */
  predicate Mirrors(tag: seq<Octet>, cache: seq<Octet>, page: nat)
    requires |tag| == TAG_SIZE && |cache| == MAX_SIZE && 4 * page + 4 <= MAX_TOTAL
  {
    tag[16 + 4 * page..20 + 4 * page] == cache[4 * page..4 * page + 4]
  }

  /** The pages that are written, in order. */
  function Writes(cache: seq<Octet>, content: seq<Octet>, pages: nat): seq<Octet>
    requires |cache| == |content| == MAX_SIZE && 4 * pages <= MAX_TOTAL
  {
    if pages == 0 then []
    else
      var before := Writes(cache, content, pages - 1);
      if Differs(cache, content, pages - 1) then before + [PageByte(pages - 1)] else before
  }

  /** Skipping pages is writing them all, exactly if the cache mirrors the tag on every page
      that is skipped. */
  lemma DifferentialIsFull(tag: seq<Octet>, cache: seq<Octet>, content: seq<Octet>, pages: nat)
    requires |tag| == TAG_SIZE && |cache| == |content| == MAX_SIZE && 4 * pages <= MAX_TOTAL
    ensures Updated(tag, cache, content, pages) == Overwritten(tag, content, pages) <==>
      forall i :: 0 <= i < pages && !Differs(cache, content, i) ==> Mirrors(tag, cache, i)
  {
    var (u, o) := (Updated(tag, cache, content, pages), Overwritten(tag, content, pages));
    if u == o {
      forall i | 0 <= i < pages && !Differs(cache, content, i)
        ensures Mirrors(tag, cache, i)
      {
        PageKept(tag, cache, content, pages, i);
      }
    }
    if forall i :: 0 <= i < pages && !Differs(cache, content, i) ==> Mirrors(tag, cache, i) {
      forall j | 0 <= j < TAG_SIZE ensures u[j] == o[j] {
        if 16 <= j < 16 + 4 * pages && !Differs(cache, content, (j - 16) / 4) {
          ByteKept(tag, cache, content, (j - 16) / 4, (j - 16) % 4);
        }
      }
    }
  }

  lemma PageKept(tag: seq<Octet>, cache: seq<Octet>, content: seq<Octet>, pages: nat, i: nat)
    requires |tag| == TAG_SIZE && |cache| == |content| == MAX_SIZE && 4 * pages <= MAX_TOTAL
    requires i < pages && !Differs(cache, content, i)
    requires Updated(tag, cache, content, pages) == Overwritten(tag, content, pages)
    ensures Mirrors(tag, cache, i)
  {
    var (u, o, at) := (Updated(tag, cache, content, pages), Overwritten(tag, content, pages), 16 + 4 * i);
    var (page, wanted) := (tag[at..at + 4], content[4 * i..4 * i + 4]);
    forall k | 0 <= k < 4 ensures page[k] == wanted[k] {
      assert (at + k - 16) / 4 == i;
      assert u[at + k] == tag[at + k] && o[at + k] == content[4 * i + k];
    }
  }

  lemma ByteKept(tag: seq<Octet>, cache: seq<Octet>, content: seq<Octet>, i: nat, k: nat)
    requires |tag| == TAG_SIZE && |cache| == |content| == MAX_SIZE && 4 * i + 4 <= MAX_TOTAL && k < 4
    requires !Differs(cache, content, i) && Mirrors(tag, cache, i)
    ensures tag[16 + 4 * i + k] == content[4 * i + k]
  {
    assert tag[16 + 4 * i..20 + 4 * i][k] == cache[4 * i..4 * i + 4][k] == content[4 * i..4 * i + 4][k];
  }

  /** The first blocks are those of the tag. The page number is one byte. */
  ghost predicate BlocksIn(tag: seq<Octet>, bytes: seq<Octet>, n: nat)
    requires |tag| == TAG_SIZE && 16 * n <= |bytes|
  {
    forall i {:trigger PageByte(4 * i)} | 0 <= i < n ::
      PageByte(4 * i) * 4 + 16 <= TAG_SIZE && bytes[16 * i..16 * i + 16] == Block(tag, PageByte(4 * i))
  }

  lemma NextBlockIn(tag: seq<Octet>, before: seq<Octet>, bytes: seq<Octet>, n: nat)
    requires |tag| == TAG_SIZE && |before| == |bytes| == MAX_SIZE && 16 * n + 16 <= MAX_SIZE
    requires BlocksIn(tag, before, n) && bytes[..16 * n] == before[..16 * n]
    requires PageByte(4 * n) * 4 + 16 <= TAG_SIZE && bytes[16 * n..16 * n + 16] == Block(tag, PageByte(4 * n))
    ensures BlocksIn(tag, bytes, n + 1)
  {
    forall i {:trigger PageByte(4 * i)} | 0 <= i < n
      ensures bytes[16 * i..16 * i + 16] == before[16 * i..16 * i + 16]
    {
      assert bytes[16 * i..16 * i + 16] == bytes[..16 * n][16 * i..16 * i + 16];
      assert before[16 * i..16 * i + 16] == before[..16 * n][16 * i..16 * i + 16];
    }
  }

  /** Where page numbers do not wrap, the blocks are one stretch of the tag. */
  lemma BlocksAreStretch(tag: seq<Octet>, bytes: seq<Octet>, n: nat)
    requires |tag| == TAG_SIZE && 16 * n <= |bytes| && n <= 63 && BlocksIn(tag, bytes, n)
    ensures bytes[..16 * n] == tag[16..16 + 16 * n]
  {
    var (l, r) := (bytes[..16 * n], tag[16..16 + 16 * n]);
    forall j | 0 <= j < 16 * n ensures l[j] == r[j] {
      var (i, k) := (j / 16, j % 16);
      assert PageByte(4 * i) == 4 * i + 4;
      assert bytes[16 * i..16 * i + 16][k] == Block(tag, PageByte(4 * i))[k];
    }
  }

  class Reader {
    var tag: seq<Octet>
    const cache: array<Octet>
    var answers: seq<Answer>
    /** The page bytes of the write commands the tag took. */
    var writes: seq<Octet>

    constructor (tag: seq<Octet>)
      requires |tag| == TAG_SIZE
      ensures Valid() && this.tag == tag && fresh(cache) && answers == []
    {
      this.tag, answers, writes := tag, [], [];
      cache := new Octet[MAX_SIZE];
    }

    predicate Valid()
      reads `tag
    {
      |tag| == TAG_SIZE && cache.Length == MAX_SIZE
    }

    // ----- reading -----

    /** Reads the block at a page into the cache. */
    method ReadBlock(page: Octet, at: nat) returns (ok: bool)
      requires Valid() && at + 16 <= MAX_SIZE
      modifies `answers, cache
      ensures ok <==> Current(old(answers)) == Done && page * 4 + 16 <= TAG_SIZE
      ensures ok ==> cache[at..at + 16] == Block(tag, page)
      ensures cache[..at] == old(cache[..at]) && answers == Next(old(answers))
    {
      ok := Current(answers) == Done && page * 4 + 16 <= TAG_SIZE;
      answers := Next(answers);
      if ok {
        forall i | 0 <= i < 16 {
          cache[at + i] := tag[page * 4 + i];
        }
      }
    }

    /** The loop over the blocks behind the first. */
    method ReadBlocks(count: nat) returns (ok: bool)
      requires Valid() && 1 <= count && 16 * count <= MAX_SIZE && BlocksIn(tag, cache[..], 1)
      modifies `answers, cache
      ensures ok ==> BlocksIn(tag, cache[..], count)
      ensures cache[..16] == old(cache[..16])
      ensures old(AllDone(answers)) ==> AllDone(answers) && (count <= 63 ==> ok)
    {
      ok := true;
      var i := 1;
      while i < count && ok
        invariant 1 <= i <= count && (ok ==> BlocksIn(tag, cache[..], i)) && cache[..16] == old(cache[..16])
        invariant old(AllDone(answers)) ==> AllDone(answers) && (count <= 63 ==> ok)
        decreases ok, count - i
      {
        ghost var before := cache[..];
        ok := ReadBlock(PageByte(4 * i), 16 * i);
        assert cache[..16 * i] == before[..16 * i];
        assert cache[..16] == cache[..16 * i][..16] && before[..16] == before[..16 * i][..16];
        if ok {
          NextBlockIn(tag, before, cache[..], i);
        }
        i := i + 1;
      }
    }
  
    /** What a read that comes to its end found. */
    ghost predicate Found(payloadLength: int, payload: seq<Octet>, maxPayload: nat, uri: seq<Octet>, maxUri: nat)
      requires Valid()
      reads `tag, cache
    {
      var bytes := cache[..];
      && bytes[0] == 0x03 && 16 * BlockCount(bytes) <= MAX_SIZE && BlocksIn(tag, bytes, BlockCount(bytes))
      && payloadLength == LengthsIn(bytes).payload
      && payload == PayloadIn(bytes, maxPayload) && uri == UriIn(bytes, maxUri)
    }

    /** The length the tag announces is one whose blocks the cache can take, or is refused. */
    predicate Announces()
      requires Valid()
      reads `tag
    {
      var first := Block(tag, PageByte(0));
      RecordLength(first) < MAX_SIZE - 2 ==> RecordAt(first) + RecordLength(first) <= MAX_SIZE
    }

    /** -1 if the tag cannot be read, 0 if it holds no message, or the length of its payload. */
    method Read(maxPayload: nat, maxUri: nat) returns (result: int, payload: seq<Octet>, uri: seq<Octet>)
      requires Valid() && Announces()
      modifies `answers, cache
      ensures result == -1 <==> Current(old(answers)) != Done
      ensures
        var first := Block(tag, PageByte(0));
        result == -1 || first[0] != 0x03 || RecordLength(first) >= MAX_SIZE - 2
        ==> result <= 0 && payload == [] && uri == []
      ensures result > 0 ==> Found(result, payload, maxPayload, uri, maxUri)
      ensures
        var first := Block(tag, PageByte(0));
        && old(AllDone(answers)) && first[0] == 0x03 && RecordLength(first) < MAX_SIZE - 2 && BlockCount(first) <= 63
        ==> AllDone(answers) && Found(result, payload, maxPayload, uri, maxUri)
    {
      payload, uri := [], [];
      var ok := ReadBlock(PageByte(0), 0);
      if !ok {
        return -1, [], [];
      }
      ghost var first := Block(tag, PageByte(0));
      assert cache[0..0 + 16] == cache[..16] == first;
      FirstBlock(first, cache[..]);
      if cache[0] == 0x03 && RecordLength(cache[..16]) < MAX_SIZE - 2 {
        var count := BlockCount(cache[..16]);
        BlocksFit(first);
        ok := ReadBlocks(count);
        if ok {
          FirstBlock(first, cache[..]);
          result, payload, uri := LengthsIn(cache[..]).payload, PayloadIn(cache[..], maxPayload),
            UriIn(cache[..], maxUri);
        } else {
          result := 0;
        }
      } else {
        result := 0;
      }
    }

    // ----- writing -----

    method WritePage(page: Octet, bytes: seq<Octet>) returns (ok: bool)
      requires Valid() && |bytes| == 4
      modifies `tag, `answers, `writes
      ensures Valid() && (ok <==> Current(old(answers)) == Done)
      ensures ok ==> tag == old(tag[..page * 4] + bytes + tag[page * 4 + 4..]) && writes == old(writes) + [page]
      ensures answers == Next(old(answers))
    {
      ok := Current(answers) == Done;
      if Current(answers) != Refused {
        tag := tag[..page * 4] + bytes + tag[page * 4 + 4..];
        writes := writes + [page];
      }
      answers := Next(answers);
    }

    /** The first pages of what is to be written are dealt with. */
    ghost predicate PagesDone(before: seq<Octet>, commands: seq<Octet>, content: seq<Octet>, n: nat)
      requires |before| == TAG_SIZE && |content| == MAX_SIZE && 4 * n <= MAX_TOTAL
      reads `tag, `writes, cache
    {
      Valid() && tag == Updated(before, cache[..], content, n) && writes == commands + Writes(cache[..], content, n)
    }

    /** One turn of the loop. */
    method UpdatePage(content: array<Octet>, i: nat, ghost before: seq<Octet>, ghost commands: seq<Octet>)
        returns (ok: bool)
      requires content.Length == MAX_SIZE && 4 * i + 4 <= MAX_TOTAL && |before| == TAG_SIZE
      requires PagesDone(before, commands, content[..], i)
      modifies `tag, `answers, `writes
      ensures Valid() && (ok ==> PagesDone(before, commands, content[..], i + 1))
      ensures old(AllDone(answers)) ==> ok && AllDone(answers)
    {
      ghost var (known, bytes) := (cache[..], content[..]);
      UpdatedNext(before, known, bytes, i);
      assert known[4 * i..4 * i + 4] == cache[4 * i..4 * i + 4] && bytes[4 * i..4 * i + 4] == content[4 * i..4 * i + 4];
      ok := true;
      if cache[4 * i..4 * i + 4] != content[4 * i..4 * i + 4] {
        ok := WritePage(PageByte(i), content[4 * i..4 * i + 4]);
      }
    }

    /** The loop over the pages. */
    method WritePages(content: array<Octet>, pages: nat) returns (ok: bool)
      requires Valid() && content.Length == MAX_SIZE && 4 * pages <= MAX_TOTAL
      modifies `tag, `answers, `writes
      ensures Valid() && (ok ==> PagesDone(old(tag), old(writes), content[..], pages))
      ensures old(AllDone(answers)) ==> ok && AllDone(answers)
    {
      ok := true;
      var i := 0;
      UpdatedNothing(tag, cache[..], content[..]);
      while i < pages && ok
        invariant 0 <= i <= pages && Valid() && (ok ==> PagesDone(old(tag), old(writes), content[..], i))
        invariant old(AllDone(answers)) ==> ok && AllDone(answers)
        decreases ok, pages - i
      {
        ok := UpdatePage(content, i, old(tag), old(writes));
        i := i + 1;
      }
    }

    /** Writes a message. The bytes of the last page behind the message are whatever the buffer
        it is built in happens to hold. */
    method Write(payload: seq<Octet>, uri: seq<Octet>) returns (ok: bool, ghost content: seq<Octet>)
      requires Valid() && Encodable(uri, payload) && |Message(uri, payload)| <= MAX_TOTAL
      modifies `tag, `answers, `writes
      ensures Valid() && |content| == MAX_SIZE && Message(uri, payload) <= content
      ensures ok ==>
        var pages := PagesOf(|Message(uri, payload)|);
        tag == Updated(old(tag), cache[..], content, pages) && writes == old(writes) + Writes(cache[..], content, pages)
      ensures old(AllDone(answers)) ==> ok && AllDone(answers)
    {
      var buffer := BuildContent(payload, uri);
      content := buffer[..];
      ok := WritePages(buffer, PagesOf(|Message(uri, payload)|));
      if ok {
        // The node on the other side of the tag wakes when page 220 is read.
        ok := Current(answers) == Done;
        answers := Next(answers);
      }
    }
  }

  /** As many pages as bytes touch, and no more. */
  function PagesOf(length: nat): (pages: nat)
    ensures length <= 4 * pages < length + 4
  {
    (length + 3) / 4
  }

  /** Lays out headers, uri, payload and end marker in a fresh buffer. */
  method BuildContent(payload: seq<Octet>, uri: seq<Octet>) returns (content: array<Octet>)
    requires Encodable(uri, payload) && |Message(uri, payload)| <= MAX_SIZE
    ensures fresh(content) && content.Length == MAX_SIZE && Message(uri, payload) <= content[..]
  {
    content := new Octet[MAX_SIZE];
    var header := RecordHeader(|uri|, |payload|);
    var length := |header| + |uri| + |payload|;
    var tagHeader := TagHeader(length);
    LayOut(content, tagHeader, header, uri, payload);
    content[|tagHeader| + length] := 0xFE;
    LaidOut(content[..], uri, payload);
  }

  /** Copies the parts of a message one behind the other. */
  method LayOut(content: array<Octet>, tagHeader: seq<Octet>, header: seq<Octet>, uri: seq<Octet>, payload: seq<Octet>)
    requires |tagHeader| + |header| + |uri| + |payload| <= content.Length
    modifies content
    ensures content[..|tagHeader| + |header| + |uri| + |payload|] == tagHeader + header + uri + payload
  {
    Memcpy(content, 0, tagHeader);
    var at := |tagHeader|;
    Memcpy(content, at, header);
    Memcpy(content, at + |header|, uri);
    Memcpy(content, at + |header| + |uri|, payload);
  }

  lemma LaidOut(content: seq<Octet>, uri: seq<Octet>, payload: seq<Octet>)
    requires Encodable(uri, payload) && |Message(uri, payload)| <= |content|
    requires var n := |Message(uri, payload)| - 1;
             content[n] == 0xFE &&
             content[..n] == TagHeader(|Record(uri, payload)|) + RecordHeader(|uri|, |payload|) + uri + payload
    ensures Message(uri, payload) <= content
  {
    var n := |Message(uri, payload)| - 1;
    Regroup(TagHeader(|Record(uri, payload)|), RecordHeader(|uri|, |payload|), uri, payload);
    assert payload + [] == payload;
    assert content[..n + 1] == content[..n] + [content[n]];
  }

  lemma UpdatedNothing(tag: seq<Octet>, cache: seq<Octet>, content: seq<Octet>)
    requires |tag| == TAG_SIZE && |cache| == |content| == MAX_SIZE
    ensures Updated(tag, cache, content, 0) == tag
  {
  }

  lemma UpdatedNext(tag: seq<Octet>, cache: seq<Octet>, content: seq<Octet>, i: nat)
    requires |tag| == TAG_SIZE && |cache| == |content| == MAX_SIZE && 4 * i + 4 <= MAX_TOTAL
    ensures PageByte(i) == i + 4
    ensures var u := Updated(tag, cache, content, i);
            Updated(tag, cache, content, i + 1) ==
              if Differs(cache, content, i) then u[..16 + 4 * i] + content[4 * i..4 * i + 4] + u[20 + 4 * i..] else u
  {
    var (u, v) := (Updated(tag, cache, content, i), Updated(tag, cache, content, i + 1));
    var w := if Differs(cache, content, i) then u[..16 + 4 * i] + content[4 * i..4 * i + 4] + u[20 + 4 * i..] else u;
    forall j | 0 <= j < TAG_SIZE ensures v[j] == w[j] {
      if 16 + 4 * i <= j < 20 + 4 * i {
        assert (j - 16) / 4 == i;
      }
    }
  }

  lemma FirstBlock(first: seq<Octet>, bytes: seq<Octet>)
    requires |first| == 16 && |bytes| >= 16 && bytes[..16] == first
    ensures bytes[0] == first[0] && RecordAt(bytes) == RecordAt(first) && RecordLength(bytes) == RecordLength(first)
    ensures BlockCount(bytes) == BlockCount(first)
  {
    assert forall i :: 0 <= i < 16 ==> bytes[i] == first[i];
  }

  // ----- round trip -----

  function PageEnd(length: nat, i: nat): nat {
    if 4 * i + 4 <= length then 4 * i + 4 else length
  }

  /** Where the cache has the message's bytes of a page, the tag has them. */
  predicate Trusted(tag: seq<Octet>, cache: seq<Octet>, m: seq<Octet>, i: nat)
    requires |tag| == TAG_SIZE && |cache| == MAX_SIZE && |m| <= MAX_TOTAL && i < PagesOf(|m|)
  {
    var end := PageEnd(|m|, i);
    cache[4 * i..end] == m[4 * i..end] ==> tag[16 + 4 * i..16 + end] == m[4 * i..end]
  }

  lemma MirroredTrusted(tag: seq<Octet>, cache: seq<Octet>, m: seq<Octet>, i: nat)
    requires |tag| == TAG_SIZE && |cache| == MAX_SIZE && |m| <= MAX_TOTAL && i < PagesOf(|m|) && Mirrors(tag, cache, i)
    ensures Trusted(tag, cache, m, i)
  {
    var end := PageEnd(|m|, i);
    Prefix(tag, 16 + 4 * i, 16 + end, 20 + 4 * i);
    Prefix(cache, 4 * i, end, 4 * i + 4);
  }

  /** A write leaves the message in the tag from the first data byte on. */
  predicate Leaves(tag: seq<Octet>, cache: seq<Octet>, content: seq<Octet>, m: seq<Octet>)
    requires |tag| == TAG_SIZE && |cache| == |content| == MAX_SIZE && |m| <= MAX_TOTAL
  {
    m <= Updated(tag, cache, content, PagesOf(|m|))[16..]
  }

  lemma TrustedLeaves(tag: seq<Octet>, cache: seq<Octet>, content: seq<Octet>, m: seq<Octet>)
    requires |tag| == TAG_SIZE && |cache| == |content| == MAX_SIZE && |m| <= MAX_TOTAL && m <= content
    requires forall i :: 0 <= i < PagesOf(|m|) ==> Trusted(tag, cache, m, i)
    ensures Leaves(tag, cache, content, m)
  {
    var after := Updated(tag, cache, content, PagesOf(|m|));
    forall j | 0 <= j < |m| ensures after[16..][j] == m[j] {
      var (i, k) := (j / 4, j % 4);
      assert content[j] == m[j];
      if !Differs(cache, content, i) {
        SkippedByte(tag, cache, content, m, i, k);
      }
    }
  }

  lemma Prefix(s: seq<Octet>, from: nat, end: nat, to: nat)
    requires from <= end <= to <= |s|
    ensures s[from..to][..end - from] == s[from..end]
  {
  }

  lemma SkippedByte(tag: seq<Octet>, cache: seq<Octet>, content: seq<Octet>, m: seq<Octet>, i: nat, k: nat)
    requires |tag| == TAG_SIZE && |cache| == |content| == MAX_SIZE && |m| <= MAX_TOTAL && m <= content
    requires k < 4 && 4 * i + k < |m| && Trusted(tag, cache, m, i) && !Differs(cache, content, i)
    ensures tag[16 + 4 * i + k] == m[4 * i + k]
  {
    var end := PageEnd(|m|, i);
    Prefix(cache, 4 * i, end, 4 * i + 4);
    Prefix(content, 4 * i, end, 4 * i + 4);
    assert content[4 * i..end] == content[..|m|][4 * i..end] == m[4 * i..end];
    assert tag[16 + 4 * i..16 + end][k] == m[4 * i..end][k];
  }

  /** Whatever the buffer holds behind the message, a write leaves the message in the tag, exactly
      if the tag has each page's part of it that the cache has. */
  lemma SkippingExact(tag: seq<Octet>, cache: seq<Octet>, m: seq<Octet>)
    requires |tag| == TAG_SIZE && |cache| == MAX_SIZE && |m| <= MAX_TOTAL
    ensures (forall content: seq<Octet> :: |content| == MAX_SIZE && m <= content ==> Leaves(tag, cache, content, m))
       <==> forall i :: 0 <= i < PagesOf(|m|) ==> Trusted(tag, cache, m, i)
  {
    if forall i :: 0 <= i < PagesOf(|m|) ==> Trusted(tag, cache, m, i) {
      forall content: seq<Octet> | |content| == MAX_SIZE && m <= content ensures Leaves(tag, cache, content, m) {
        TrustedLeaves(tag, cache, content, m);
      }
    } else {
      var i :| 0 <= i < PagesOf(|m|) && !Trusted(tag, cache, m, i);
      var content := m + cache[|m|..];
      assert content[..|m|] == m;
      NotLeft(tag, cache, m, i);
      assert !Leaves(tag, cache, content, m);
    }
  }

  lemma NotLeft(tag: seq<Octet>, cache: seq<Octet>, m: seq<Octet>, i: nat)
    requires |tag| == TAG_SIZE && |cache| == MAX_SIZE && |m| <= MAX_TOTAL && i < PagesOf(|m|)
             && !Trusted(tag, cache, m, i)
    ensures !Leaves(tag, cache, m + cache[|m|..], m)
  {
    var (content, end) := (m + cache[|m|..], PageEnd(|m|, i));
    var after := Updated(tag, cache, content, PagesOf(|m|));
    NotDiffering(cache, m, i);
    if m <= after[16..] {
      forall k | 0 <= k < end - 4 * i ensures tag[16 + 4 * i..16 + end][k] == m[4 * i..end][k] {
        assert (16 + 4 * i + k - 16) / 4 == i;
        assert after[16..][4 * i + k] == m[4 * i + k];
      }
    }
  }

  lemma NotDiffering(cache: seq<Octet>, m: seq<Octet>, i: nat)
    requires |cache| == MAX_SIZE && |m| <= MAX_TOTAL && i < PagesOf(|m|)
    requires cache[4 * i..PageEnd(|m|, i)] == m[4 * i..PageEnd(|m|, i)]
    ensures !Differs(cache, m + cache[|m|..], i)
  {
    var (content, end) := (m + cache[|m|..], PageEnd(|m|, i));
    var (known, meant) := (cache[4 * i..4 * i + 4], content[4 * i..4 * i + 4]);
    forall k | 0 <= k < 4 ensures known[k] == meant[k] {
      var j := 4 * i + k;
      assert known[k] == cache[j] && meant[k] == content[j];
      if j < |m| {
        assert cache[4 * i..end][k] == cache[j] && m[4 * i..end][k] == m[j];
        assert content[j] == m[j];
      } else {
        assert content[j] == cache[|m|..][j - |m|];
      }
    }
  }

  lemma UnmarkedFirst(uri: seq<Octet>, payload: seq<Octet>, bytes: seq<Octet>)
    requires Encodable(uri, payload) && Message(uri, payload) <= bytes
    ensures Unmarked(uri, payload) <= bytes
  {
    var (u, m) := (Unmarked(uri, payload), Message(uri, payload));
    assert m == u + [m[|m| - 1]];
    forall i | 0 <= i < |u| ensures bytes[i] == u[i] {
      assert bytes[i] == m[i];
    }
  }

  /** The tag lets the message be read: few enough blocks, and they hold all of it. */
  lemma MessageReadable(uri: seq<Octet>, payload: seq<Octet>, tag: seq<Octet>)
    requires |tag| == TAG_SIZE && Encodable(uri, payload) && |uri| < MAX_URI && 0 < |payload|
    requires |Message(uri, payload)| <= MAX_TOTAL && Message(uri, payload) <= tag[16..]
    ensures var first := Block(tag, PageByte(0));
            && first[0] == 0x03 && RecordLength(first) < MAX_SIZE - 2 && BlockCount(first) <= 63
            && RecordAt(first) + RecordLength(first) == |Unmarked(uri, payload)| <= 16 * BlockCount(first)
  {
    var (first, bytes, u) := (Block(tag, PageByte(0)), tag[16..], Unmarked(uri, payload));
    UnmarkedFirst(uri, payload, bytes);
    LengthsWhere(uri, payload, bytes);
    FirstIsStart(tag);
    FirstBlock(first, bytes);
    BlocksCover(first);
  }

  lemma FirstIsStart(tag: seq<Octet>)
    requires |tag| == TAG_SIZE
    ensures tag[16..][..16] == Block(tag, PageByte(0))
  {
    var (start, first) := (tag[16..][..16], Block(tag, PageByte(0)));
    assert PageByte(0) == 4;
    forall i | 0 <= i < 16 ensures start[i] == first[i] {
      assert start[i] == tag[16 + i] && first[i] == tag[4 * 4 + i];
    }
  }

  /** What was written is read back, as long as no answer is bad and the tag has what the cache
      has of the message. */
  method WriteThenRead(reader: Reader, payload: seq<Octet>, uri: seq<Octet>, maxPayload: nat)
      returns (ok: bool, result: int, gotPayload: seq<Octet>, gotUri: seq<Octet>)
    requires reader.Valid() && AllDone(reader.answers) && Encodable(uri, payload)
    requires |uri| < MAX_URI && 0 < |payload| < maxPayload && |Message(uri, payload)| <= MAX_TOTAL
    requires forall i :: 0 <= i < PagesOf(|Message(uri, payload)|) ==>
      Trusted(reader.tag, reader.cache[..], Message(uri, payload), i)
    modifies reader, reader.cache
    ensures ok && result == |payload| && gotPayload == payload && gotUri == uri
  {
    ghost var (tag, cache, m) := (reader.tag, reader.cache[..], Message(uri, payload));
    ghost var content;
    ok, content := reader.Write(payload, uri);
    TrustedLeaves(tag, cache, content, m);
    MessageReadable(uri, payload, reader.tag);
    result, gotPayload, gotUri := reader.Read(maxPayload, MAX_URI);
    CachedMessage(uri, payload, reader.tag, reader.cache[..], maxPayload);
  }

  lemma CachedMessage(uri: seq<Octet>, payload: seq<Octet>, tag: seq<Octet>, bytes: seq<Octet>, maxPayload: nat)
    requires |tag| == TAG_SIZE && |bytes| == MAX_SIZE && Encodable(uri, payload)
    requires |uri| < MAX_URI && 0 < |payload| < maxPayload
    requires |Message(uri, payload)| <= MAX_TOTAL && Message(uri, payload) <= tag[16..]
    requires 16 * BlockCount(bytes) <= MAX_SIZE && BlocksIn(tag, bytes, BlockCount(bytes))
    ensures LengthsIn(bytes).payload == |payload|
    ensures PayloadIn(bytes, maxPayload) == payload && UriIn(bytes, MAX_URI) == uri
  {
    var u := Unmarked(uri, payload);
    MessageReadable(uri, payload, tag);
    assert PageByte(4 * 0) == 4;
    assert bytes[16 * 0..16 * 0 + 16] == Block(tag, PageByte(4 * 0));
    assert bytes[..16] == Block(tag, PageByte(0));
    FirstBlock(Block(tag, PageByte(0)), bytes);
    var n := BlockCount(bytes);
    BlocksAreStretch(tag, bytes, n);
    UnmarkedFirst(uri, payload, tag[16..]);
    StretchStarts(tag, bytes, 16 * n, u);
    MessageFound(uri, payload, bytes, maxPayload);
  }

  lemma StretchStarts(tag: seq<Octet>, bytes: seq<Octet>, k: nat, u: seq<Octet>)
    requires 16 + k <= |tag| && k <= |bytes| && bytes[..k] == tag[16..16 + k]
    requires u <= tag[16..] && |u| <= k
    ensures u <= bytes
  {
    forall i | 0 <= i < |u| ensures bytes[i] == u[i] {
      assert bytes[i] == bytes[..k][i] == tag[16..16 + k][i] == tag[16..][i] == u[i];
    }
  }

  /** After a read, the cache mirrors the tag on every page of the blocks read. */
  lemma ReadMirrors(tag: seq<Octet>, bytes: seq<Octet>, n: nat)
    requires |tag| == TAG_SIZE && |bytes| == MAX_SIZE && n <= 63 && BlocksIn(tag, bytes, n)
    ensures forall i :: 0 <= i < 4 * n ==> Mirrors(tag, bytes, i)
  {
    BlocksAreStretch(tag, bytes, n);
    forall i | 0 <= i < 4 * n
      ensures Mirrors(tag, bytes, i)
    {
      var (page, known, stretch) := (tag[16 + 4 * i..20 + 4 * i], bytes[4 * i..4 * i + 4], tag[16..16 + 16 * n]);
      forall k | 0 <= k < 4 ensures page[k] == known[k] {
        assert stretch[4 * i + k] == tag[16 + (4 * i + k)] && bytes[..16 * n][4 * i + k] == bytes[4 * i + k];
      }
    }
  }

  lemma ReadTrusts(tag: seq<Octet>, bytes: seq<Octet>, n: nat, m: seq<Octet>)
    requires |tag| == TAG_SIZE && |bytes| == MAX_SIZE && n <= 63 && BlocksIn(tag, bytes, n) && |m| <= 16 * n
    ensures |m| <= MAX_TOTAL && forall i :: 0 <= i < PagesOf(|m|) ==> Trusted(tag, bytes, m, i)
  {
    ReadMirrors(tag, bytes, n);
    forall i | 0 <= i < PagesOf(|m|) ensures Trusted(tag, bytes, m, i) {
      MirroredTrusted(tag, bytes, m, i);
    }
  }

  /** After a read whose blocks cover a new message, the message that is written is read back. */
  method ReadWriteRead(reader: Reader, payload: seq<Octet>, uri: seq<Octet>, maxPayload: nat)
      returns (ok: bool, result: int, gotPayload: seq<Octet>, gotUri: seq<Octet>)
    requires reader.Valid() && reader.Announces() && AllDone(reader.answers) && Encodable(uri, payload)
    requires |uri| < MAX_URI && 0 < |payload| < maxPayload
    requires
      var first := Block(reader.tag, PageByte(0));
      && first[0] == 0x03 && RecordLength(first) < MAX_SIZE - 2 && BlockCount(first) <= 63
      && |Message(uri, payload)| <= 16 * BlockCount(first)
    modifies reader, reader.cache
    ensures ok && result == |payload| && gotPayload == payload && gotUri == uri
  {
    ghost var n := BlockCount(Block(reader.tag, PageByte(0)));
    var _, _, _ := reader.Read(maxPayload, MAX_URI);
    SameCount(reader.tag, reader.cache[..]);
    ReadTrusts(reader.tag, reader.cache[..], n, Message(uri, payload));
    ok, result, gotPayload, gotUri := WriteThenRead(reader, payload, uri, maxPayload);
  }

  /** The first block in the cache announces what that of the tag does. */
  lemma SameCount(tag: seq<Octet>, bytes: seq<Octet>)
    requires |tag| == TAG_SIZE && |bytes| == MAX_SIZE && 16 * BlockCount(bytes) <= MAX_SIZE
    requires BlocksIn(tag, bytes, BlockCount(bytes)) && BlockCount(bytes) >= 1
    ensures BlockCount(bytes) == BlockCount(Block(tag, PageByte(0)))
  {
    assert PageByte(4 * 0) == PageByte(0);
    assert bytes[16 * 0..16 * 0 + 16] == Block(tag, PageByte(4 * 0));
    assert bytes[..16] == bytes[16 * 0..16 * 0 + 16];
    FirstBlock(Block(tag, PageByte(0)), bytes);
  }

  /** Writing does not update the cache. Where a first message differs from it and a second does
      not, the second write leaves the first message's page. */
  lemma SecondWriteSkips(tag: seq<Octet>, cache: seq<Octet>, first: seq<Octet>, second: seq<Octet>,
                         m: nat, n: nat, i: nat)
    requires |tag| == TAG_SIZE && |cache| == |first| == |second| == MAX_SIZE
    requires 4 * m <= MAX_TOTAL && 4 * n <= MAX_TOTAL && i < m && i < n
    requires Differs(cache, first, i) && !Differs(cache, second, i)
    ensures var between := Updated(tag, cache, first, m);
            Updated(between, cache, second, n) != Overwritten(between, second, n)
  {
    var between := Updated(tag, cache, first, m);
    DifferentialIsFull(between, cache, second, n);
    PageWritten(tag, cache, first, m, i);
  }

  lemma PageWritten(tag: seq<Octet>, cache: seq<Octet>, content: seq<Octet>, pages: nat, i: nat)
    requires |tag| == TAG_SIZE && |cache| == |content| == MAX_SIZE && 4 * pages <= MAX_TOTAL
    requires i < pages && Differs(cache, content, i)
    ensures Updated(tag, cache, content, pages)[16 + 4 * i..20 + 4 * i] == content[4 * i..4 * i + 4]
  {
    var after := Updated(tag, cache, content, pages);
    var (page, written) := (content[4 * i..4 * i + 4], after[16 + 4 * i..20 + 4 * i]);
    forall k | 0 <= k < 4 ensures written[k] == page[k] {
      assert (16 + 4 * i + k - 16) / 4 == i;
      assert written[k] == after[16 + 4 * i + k];
    }
  }

  /** A message with no uri and eight equal bytes, in an otherwise zeroed buffer. */
  function EightBytes(b: Octet): (content: seq<Octet>)
    ensures |content| == MAX_SIZE
  {
    [0x03, 11, 0xd4, 0, 8, b, b, b, b, b, b, b, b, 0xFE] + seq(MAX_SIZE - 14, _ => 0)
  }

  lemma EightBytesMessage(b: Octet)
    ensures Encodable([], seq(8, _ => b)) && Message([], seq(8, _ => b)) <= EightBytes(b)
    ensures EightBytes(b)[8..12] == [b, b, b, b]
  {
    var p: seq<Octet> := seq(8, _ => b);
    assert p == [b, b, b, b, b, b, b, b];
    assert Message([], p) == [0x03, 11] + ([0xd4, 0, 8] + [] + [b, b, b, b, b, b, b, b]) + [0xFE];
    assert Message([], p) == EightBytes(b)[..14];
  }

  /** It happens: with a cache that was never filled, eight ones and then eight zeros. */
  lemma OnesThenZeros(tag: seq<Octet>)
    requires |tag| == TAG_SIZE
    ensures var (cache, ones, zeros) := (seq(MAX_SIZE, _ => 0), EightBytes(1), EightBytes(0));
            && Message([], seq(8, _ => 1)) <= ones && Message([], seq(8, _ => 0)) <= zeros
            && var between := Updated(tag, cache, ones, 4);
            Updated(between, cache, zeros, 4) != Overwritten(between, zeros, 4)
  {
    var (cache, ones, zeros) := (seq(MAX_SIZE, _ => 0), EightBytes(1), EightBytes(0));
    EightBytesMessage(1);
    EightBytesMessage(0);
    assert cache[8..12] == [0, 0, 0, 0];
    assert ones[8..12][0] != cache[8..12][0];
    SecondWriteSkips(tag, cache, ones, zeros, 4, 4, 2);
  }
}
