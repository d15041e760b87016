/** The one-time programmable index sector of JN516x chips: 16-byte words, written through the
    boot loader only while they are blank. */
module IndexSector {
  import opened Scripts
  import opened Uart

  // ----- words -----

  /** Four bytes at rising addresses. */
  datatype Bytes = Bytes(b0: bv8, b1: bv8, b2: bv8, b3: bv8)

  /** A word of the sector. */
  datatype Word = Word(q0: Bytes, q1: Bytes, q2: Bytes, q3: Bytes)

  /** The same as four 32-bit values of the host. */
  datatype Quad = Quad(w0: bv32, w1: bv32, w2: bv32, w3: bv32)

  datatype Endian = Little | Big | Unknown

  function Byte0(w: bv32): bv8 {
    (w & 0xFF) as bv8
  }

  function Byte1(w: bv32): bv8 {
    ((w >> 8) & 0xFF) as bv8
  }

  function Byte2(w: bv32): bv8 {
    ((w >> 16) & 0xFF) as bv8
  }

  function Byte3(w: bv32): bv8 {
    ((w >> 24) & 0xFF) as bv8
  }

  function Joined(b3: bv8, b2: bv8, b1: bv8, b0: bv8): bv32 {
    ((b3 as bv32) << 24) | ((b2 as bv32) << 16) | ((b1 as bv32) << 8) | (b0 as bv32)
  }

  /** htole32 or htobe32, as the chip has it. */
  function ToChip(endian: Endian, w: bv32): Bytes {
    if endian.Big? then Bytes(Byte3(w), Byte2(w), Byte1(w), Byte0(w)) else Bytes(Byte0(w), Byte1(w), Byte2(w), Byte3(w))
  }

  /** le32toh or be32toh. */
  function FromChip(endian: Endian, b: Bytes): bv32 {
    if endian.Big? then Joined(b.b0, b.b1, b.b2, b.b3) else Joined(b.b3, b.b2, b.b1, b.b0)
  }

  function Packed(endian: Endian, q: Quad): Word {
    Word(ToChip(endian, q.w0), ToChip(endian, q.w1), ToChip(endian, q.w2), ToChip(endian, q.w3))
  }

  function Unpacked(endian: Endian, w: Word): Quad {
    Quad(FromChip(endian, w.q0), FromChip(endian, w.q1), FromChip(endian, w.q2), FromChip(endian, w.q3))
  }

  /** The lowest byte of a value comes first on a little endian chip, and last on a big endian one. */
  lemma ByteOrder(b: Bytes)
    ensures FromChip(Little, b)
         == b.b0 as bv32 + 0x100 * b.b1 as bv32 + 0x1_0000 * b.b2 as bv32 + 0x100_0000 * b.b3 as bv32
    ensures FromChip(Big, b)
         == b.b3 as bv32 + 0x100 * b.b2 as bv32 + 0x1_0000 * b.b1 as bv32 + 0x100_0000 * b.b0 as bv32
  {
  }

  lemma JoinSplit(w: bv32)
    ensures Joined(Byte3(w), Byte2(w), Byte1(w), Byte0(w)) == w
  {
  }

  lemma SplitJoin(b3: bv8, b2: bv8, b1: bv8, b0: bv8)
    ensures Byte3(Joined(b3, b2, b1, b0)) == b3 && Byte2(Joined(b3, b2, b1, b0)) == b2
    ensures Byte1(Joined(b3, b2, b1, b0)) == b1 && Byte0(Joined(b3, b2, b1, b0)) == b0
  {
  }

  lemma FromToChip(endian: Endian, w: bv32)
    ensures FromChip(endian, ToChip(endian, w)) == w
  {
    JoinSplit(w);
  }

  lemma ToFromChip(endian: Endian, b: Bytes)
    ensures ToChip(endian, FromChip(endian, b)) == b
  {
    if endian.Big? {
      SplitJoin(b.b0, b.b1, b.b2, b.b3);
    } else {
      SplitJoin(b.b3, b.b2, b.b1, b.b0);
    }
  }

  /** What is packed for a chip of either byte order is unpacked as it was, and the other way. */
  lemma PackedUnpacked(endian: Endian, q: Quad, w: Word)
    ensures Unpacked(endian, Packed(endian, q)) == q && Packed(endian, Unpacked(endian, w)) == w
  {
    FromToChip(endian, q.w0);
    FromToChip(endian, q.w1);
    FromToChip(endian, q.w2);
    FromToChip(endian, q.w3);
    ToFromChip(endian, w.q0);
    ToFromChip(endian, w.q1);
    ToFromChip(endian, w.q2);
    ToFromChip(endian, w.q3);
  }

  /** The values of a word stand at rising addresses. */
  lemma InOrder(endian: Endian, q: Quad)
    ensures var w := Packed(endian, q);
            FromChip(endian, w.q0) == q.w0 && FromChip(endian, w.q1) == q.w1
            && FromChip(endian, w.q2) == q.w2 && FromChip(endian, w.q3) == q.w3
  {
    FromToChip(endian, q.w0);
    FromToChip(endian, q.w1);
    FromToChip(endian, q.w2);
    FromToChip(endian, q.w3);
  }

  const BLANK_BYTES: Bytes := Bytes(0xFF, 0xFF, 0xFF, 0xFF)
  const BLANK: Word := Word(BLANK_BYTES, BLANK_BYTES, BLANK_BYTES, BLANK_BYTES)
  const ONES: Quad := Quad(0xFFFF_FFFF, 0xFFFF_FFFF, 0xFFFF_FFFF, 0xFFFF_FFFF)

  lemma BlankReadsOnes(endian: Endian)
    ensures Unpacked(endian, BLANK) == ONES
  {
  }

  /** A word is all 0xFF exactly if its values are. */
  lemma OnesAreBlank(endian: Endian, w: Word)
    ensures Unpacked(endian, w) == ONES <==> w == BLANK
  {
    PackedUnpacked(endian, ONES, w);
    PackedUnpacked(endian, ONES, BLANK);
    BlankReadsOnes(endian);
  }

  /** Programming can only clear bits. */
  function BurntBytes(before: Bytes, data: Bytes): Bytes {
    Bytes(before.b0 & data.b0, before.b1 & data.b1, before.b2 & data.b2, before.b3 & data.b3)
  }

  function BurntWord(before: Word, data: Word): Word {
    Word(BurntBytes(before.q0, data.q0), BurntBytes(before.q1, data.q1),
         BurntBytes(before.q2, data.q2), BurntBytes(before.q3, data.q3))
  }

  lemma BurntBlank(data: Word)
    ensures BurntWord(BLANK, data) == data
  {
    BurntBlankBytes(data.q0);
    BurntBlankBytes(data.q1);
    BurntBlankBytes(data.q2);
    BurntBlankBytes(data.q3);
  }

  lemma BurntBlankBytes(data: Bytes)
    ensures BurntBytes(BLANK_BYTES, data) == data
  {
  }

  // ----- addresses -----

  const PAGES: nat := 8
  const WORDS: nat := 16
  const BASE: nat := 0x0100_1000

  /** Where a word is mapped in memory. */
  function AddressOf(page: nat, word: nat): nat {
    BASE + page * 0x100 + word * 0x10
  }

  function SlotAt(address: nat): nat
    requires address >= BASE
  {
    (address - BASE) / 0x10
  }

  function Slot(page: nat, word: nat): (slot: nat)
    requires page < PAGES && word < WORDS
    ensures slot < PAGES * WORDS
  {
    page * WORDS + word
  }

  /** Different words have different places, and the memory map finds them there. */
  lemma SlotsDiffer(page: nat, word: nat, page': nat, word': nat)
    requires page < PAGES && word < WORDS && page' < PAGES && word' < WORDS
    ensures SlotAt(AddressOf(page, word)) == Slot(page, word)
    ensures Slot(page, word) == Slot(page', word') <==> page == page' && word == word'
  {
  }

  // ----- the chip -----

  /** How the programmer sees the chip it talks to. */
  datatype Details = Details(supported: bool, endian: Endian, indexCapable: bool)

  class IndexChip {
    const details: Details
    var sector: seq<Word>
    var answers: seq<Answer>

    constructor (details: Details)
      ensures this.details == details && Valid() && answers == []
      ensures forall i :: 0 <= i < PAGES * WORDS ==> sector[i] == BLANK
    {
      this.details := details;
      sector := seq(PAGES * WORDS, _ => BLANK);
      answers := [];
    }

    predicate Valid()
      reads `sector
    {
      |sector| == PAGES * WORDS
    }

    function At(page: nat, word: nat): Word
      requires Valid() && page < PAGES && word < WORDS
      reads `sector
    {
      sector[Slot(page, word)]
    }

    /** No written word has changed, and at most the word at a slot has. */
    twostate predicate OnlyBlankAt(slot: nat)
      reads `sector
    {
      |sector| == old(|sector|)
      && forall i :: 0 <= i < |sector| ==> sector[i] == old(sector[i]) || (i == slot && old(sector[i]) == BLANK)
    }

    /** A memory read of a word, turned into the host's byte order. */
    method ReadWord(page: nat, word: nat) returns (status: Status, data: Quad)
      requires Valid() && page < PAGES && word < WORDS
      modifies `answers
      ensures status == Ok <==> Current(old(answers)) == Done && !details.endian.Unknown?
      ensures status == Ok ==> data == Unpacked(details.endian, At(page, word))
      ensures answers == Next(old(answers))
    {
      var answer := Current(answers);
      answers := Next(answers);
      data := ONES;
      if answer != Done {
        status := ErrorReading;
      } else if details.endian.Unknown? {
        status := BadParameter;
      } else {
        SlotsDiffer(page, word, page, word);
        status, data := Ok, Unpacked(details.endian, sector[SlotAt(AddressOf(page, word))]);
      }
    }

    /** The boot loader request that programs a word. */
    method ProgramWord(page: nat, word: nat, data: Quad) returns (status: Status)
      requires Valid() && page < PAGES && word < WORDS
      modifies `answers, `sector
      ensures status == Ok <==> Current(old(answers)) == Done && !details.endian.Unknown?
      ensures var taken := Current(old(answers)) != Refused && !details.endian.Unknown?;
              sector == if taken then
                old(sector)[Slot(page, word) := BurntWord(old(At(page, word)), Packed(details.endian, data))]
                else old(sector)
      ensures answers == if details.endian.Unknown? then old(answers) else Next(old(answers))
    {
      if details.endian.Unknown? {
        return BadParameter;
      }
      var answer := Current(answers);
      answers := Next(answers);
      if answer != Refused {
        sector := sector[Slot(page, word) := BurntWord(At(page, word), Packed(details.endian, data))];
      }
      status := if answer == Done then Ok else CommsFailed;
    }

    /** Reads the word, writes it if it is blank and the user agrees. */
    method IndexSectorWrite(page: nat, word: nat, data: Quad, confirm: bool, extension: bool) returns (status: Status)
      requires Valid() && page < PAGES && word < WORDS
      modifies `answers, `sector
      ensures Valid() && OnlyBlankAt(Slot(page, word))
      ensures sector == old(sector) || At(page, word) == Packed(details.endian, data)
      ensures status == Ok ==> old(At(page, word)) == BLANK && At(page, word) == Packed(details.endian, data)
      ensures old(At(page, word)) != BLANK ==> status != Ok && sector == old(sector)
      ensures Willing(old(answers), confirm, extension) && old(At(page, word)) == BLANK ==> status == Ok
      ensures old(AllDone(answers)) ==> AllDone(answers)
    {
      if !details.supported {
        return UnsupportedChip;
      }
      var present;
      status, present := ReadWord(page, word);
      if status != Ok {
        return;
      }
      OnesAreBlank(details.endian, At(page, word));
      if present != ONES {
        return Error;
      }
      if !confirm {
        return Aborted;
      }
      if !details.indexCapable && !extension {
        return CommsFailed;
      }
      BurntBlank(Packed(details.endian, data));
      status := ProgramWord(page, word, data);
    }

    /** Nothing stands in the way of a write but the word itself. */
    predicate Willing(answers: seq<Answer>, confirm: bool, extension: bool) {
      details.supported && !details.endian.Unknown? && AllDone(answers)
      && confirm && (details.indexCapable || extension)
    }
  }
}
