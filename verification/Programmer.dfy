/** Programming a firmware image into flash and verifying it, in chunks over the boot loader. */
module Programmer {
  import opened Frames
  import opened Uart
  import opened Commands
  import opened Chip

  // ----- chips -----

  const JN5142_PARTS: set<nat> := {0x05, 0x25, 0x45}
  const JN5148_PART: nat := 0x04
  const JN516X_PARTS: set<nat> := {0x08, 0x0b, 0x0a}

  /** The part number in bits 12 to 21 of a chip id. */
  function Part(chipId: Address): nat {
    chipId / 0x1000 % 0x400
  }

  /** The metal mask version in bits 22 to 27. */
  function Version(chipId: Address): nat {
    chipId / 0x40_0000 % 0x40
  }

  /** Where an image carries the MAC address. */
  datatype MacPlace = At(location: nat) | NotInImage | Unsupported

  function PlaceOfMac(chipId: Address): MacPlace {
    if Part(chipId) in JN5142_PARTS then At(0x10)
    else if Part(chipId) == JN5148_PART then (if Version(chipId) in {3, 4} then At(0x10) else At(0x30))
    else if Part(chipId) in JN516X_PARTS then NotInImage
    else Unsupported
  }

  /** The fields of a chip id, from the highest bits down. */
  lemma Fields(revision: nat, version: nat, part: nat, manufacturer: nat)
    requires revision < 0x10 && version < 0x40 && part < 0x400 && manufacturer < 0x1000
    ensures var id := revision * 0x1000_0000 + version * 0x40_0000 + part * 0x1000 + manufacturer;
            Part(id) == part && Version(id) == version
  {
    var id := revision * 0x1000_0000 + version * 0x40_0000 + part * 0x1000 + manufacturer;
    assert id / 0x1000 == (revision * 0x40 + version) * 0x400 + part;
    assert id / 0x40_0000 == revision * 0x40 + version;
  }

  /** The chips by their ids: the JN5142 and the later JN5148 keep the address at 0x10, the
      earlier JN5148 at 0x30, and the JN516x not in the image. */
  lemma Places()
    ensures PlaceOfMac(0x0000_5686) == PlaceOfMac(0x0042_5686) == PlaceOfMac(0x0084_5686) == At(0x10)
    ensures PlaceOfMac(0x10C0_4686) == PlaceOfMac(0x1100_4686) == At(0x10)
    ensures PlaceOfMac(0x1000_4686) == PlaceOfMac(0x1040_4686) == PlaceOfMac(0x1080_4686) == At(0x30)
    ensures PlaceOfMac(0x0000_8686) == PlaceOfMac(0x1000_8686) == NotInImage
    ensures PlaceOfMac(0x0000_b686) == PlaceOfMac(0x00c0_b686) == PlaceOfMac(0x0800_a686) == NotInImage
    ensures PlaceOfMac(0x0000_0000) == PlaceOfMac(0x1000_2000) == PlaceOfMac(0x0000_9686) == Unsupported
  {
  }

  /** The image with the chip's MAC address in its place. */
  function Patched(image: seq<Octet>, mac: seq<Octet>, place: MacPlace): (after: seq<Octet>)
    requires place.At? ==> place.location + |mac| <= |image|
    ensures |after| == |image|
    ensures forall i :: 0 <= i < |image| ==>
      after[i] ==
        if place.At? && place.location <= i < place.location + |mac| then mac[i - place.location] else image[i]
  {
    match place
    case At(location) => image[..location] + mac + image[location + |mac|..]
    case _ => image
  }

  /** Setting up an image twice is setting it up once. */
  lemma PatchedTwice(image: seq<Octet>, mac: seq<Octet>, place: MacPlace)
    requires place.At? ==> place.location + |mac| <= |image|
    ensures Patched(Patched(image, mac, place), mac, place) == Patched(image, mac, place)
  {
  }

  // ----- flash contents -----

  /** Erased flash with data at an offset. */
  function Laid(size: nat, offset: nat, data: seq<Octet>): (flash: seq<Octet>)
    ensures |flash| == size
    ensures forall i :: 0 <= i < size ==> flash[i] == if offset <= i < offset + |data| then data[i - offset] else 0xFF
  {
    seq(size, i => if offset <= i < offset + |data| then data[i - offset] else 0xFF)
  }

  lemma LaidNothing(size: nat, offset: nat)
    ensures Laid(size, offset, []) == Blank(size)
  {
  }

  /** Burning the next chunk behind what is laid lays that too. */
  lemma LaidNext(size: nat, offset: nat, data: seq<Octet>, n: nat, k: nat)
    requires n + k <= |data| && offset + n + k <= size
    ensures Burnt(Laid(size, offset, data[..n]), offset + n, data[n..n + k]) == Laid(size, offset, data[..n + k])
  {
    var (after, laid) := (Burnt(Laid(size, offset, data[..n]), offset + n, data[n..n + k]),
                          Laid(size, offset, data[..n + k]));
    forall i | 0 <= i < size
      ensures after[i] == laid[i]
    {
      if offset + n <= i < offset + n + k {
        BurnBlank(data[i - offset]);
      }
    }
  }

  /** The MAC address stands in the flash where the image has it. */
  lemma MacLaid(size: nat, offset: nat, image: seq<Octet>, mac: seq<Octet>, place: MacPlace)
    requires place.At? && place.location + |mac| <= |image| && offset + |image| <= size
    ensures var at := offset + place.location; Laid(size, offset, Patched(image, mac, place))[at..at + |mac|] == mac
  {
    var (laid, at) := (Laid(size, offset, Patched(image, mac, place)), offset + place.location);
    forall i | 0 <= i < |mac| ensures laid[at..at + |mac|][i] == mac[i] {
      assert laid[at + i] == Patched(image, mac, place)[place.location + i];
    }
  }

  const CHUNK: nat := 128

  /** The requests that write a range chunk by chunk. */
  function Tiles(offset: nat, length: nat, chunk: nat): seq<Span>
    requires chunk > 0
    decreases length
  {
    if length == 0 then []
    else if length <= chunk then [Span(offset, length)]
    else [Span(offset, chunk)] + Tiles(offset + chunk, length - chunk, chunk)
  }

  /** Spans follow each other without gap or overlap from the start of a range to its end, all of
      them whole chunks but the last. */
  predicate Cover(tiles: seq<Span>, offset: nat, length: nat, chunk: nat) {
    if tiles == [] then length == 0
    else
      && (forall i :: 0 <= i < |tiles| - 1 ==> tiles[i].length == chunk)
      && (forall i :: 0 < i < |tiles| ==> tiles[i].address == tiles[i - 1].address + tiles[i - 1].length)
      && tiles[0].address == offset && 0 < tiles[|tiles| - 1].length <= chunk
      && tiles[|tiles| - 1].address + tiles[|tiles| - 1].length == offset + length
  }

  lemma {:induction false} TilesCover(offset: nat, length: nat, chunk: nat)
    requires chunk > 0
    ensures Cover(Tiles(offset, length, chunk), offset, length, chunk)
    decreases length
  {
    if length > chunk {
      TilesCover(offset + chunk, length - chunk, chunk);
      FirstTile(offset, length, chunk, Tiles(offset + chunk, length - chunk, chunk));
    }
  }

  lemma FirstTile(offset: nat, length: nat, chunk: nat, more: seq<Span>)
    requires 0 < chunk < length && Cover(more, offset + chunk, length - chunk, chunk)
    ensures Cover([Span(offset, chunk)] + more, offset, length, chunk)
  {
    var tiles := [Span(offset, chunk)] + more;
    assert forall i :: 0 < i < |tiles| ==> tiles[i] == more[i - 1];
  }

  /** A number of whole chunks. */
  predicate Whole(n: nat, chunk: nat)
    requires chunk > 0
    decreases n
  {
    n == 0 || (n >= chunk && Whole(n - chunk, chunk))
  }

  lemma {:induction false} NextTile(offset: nat, n: nat, size: nat, chunk: nat)
    requires chunk > 0 && Whole(n, chunk) && 0 < size <= chunk
    ensures Tiles(offset, n + size, chunk) == Tiles(offset, n, chunk) + [Span(offset + n, size)]
    ensures size == chunk ==> Whole(n + size, chunk)
    decreases n
  {
    if n > 0 {
      NextTile(offset + chunk, n - chunk, size, chunk);
      var (before, last) := (Tiles(offset + chunk, n - chunk, chunk), [Span(offset + n, size)]);
      assert Tiles(offset, n, chunk) == [Span(offset, chunk)] + before;
      assert Tiles(offset, n + size, chunk) == [Span(offset, chunk)] + (before + last);
    }
  }

  /** The first n bytes of an image stand in the flash. */
  predicate Matching(flash: seq<Octet>, offset: nat, image: seq<Octet>, n: nat)
    requires n <= |image|
  {
    n == 0 || (offset + n <= |flash| && forall i :: 0 <= i < n ==> image[i] == flash[offset + i])
  }

  /** A chunk more matches if and only if what is read of it is that chunk of the image. */
  lemma MatchingNext(flash: seq<Octet>, offset: nat, image: seq<Octet>, n: nat, k: nat)
    requires 0 < k && n + k <= |image| && offset + n + k <= |flash|
    ensures Matching(flash, offset, image, n + k) <==>
      Matching(flash, offset, image, n) && flash[offset + n..offset + n + k] == image[n..n + k]
  {
    var (read, chunk) := (flash[offset + n..offset + n + k], image[n..n + k]);
    if Matching(flash, offset, image, n + k) {
      forall i | 0 <= i < k ensures read[i] == chunk[i] {
        assert image[n + i] == flash[offset + (n + i)];
      }
    }
    if Matching(flash, offset, image, n) && read == chunk {
      forall i | 0 <= i < n + k ensures image[i] == flash[offset + i] {
        if i >= n {
          assert read[i - n] == chunk[i - n];
        }
      }
    }
  }

  lemma {:induction false} MatchingPart(flash: seq<Octet>, offset: nat, image: seq<Octet>, n: nat)
    requires n <= |image| && Matching(flash, offset, image, |image|)
    ensures Matching(flash, offset, image, n)
  {
  }

  datatype Protection = Default | Level0 | Level1 | Level2

  predicate AllDone(answers: seq<Answer>) {
    forall i :: 0 <= i < |answers| ==> answers[i].Done?
  }

  /** What a call leaves of the script is as good as what it had. */
  predicate NoWorse(before: seq<Answer>, after: seq<Answer>) {
    (Faithful(before) ==> Faithful(after)) && (AllDone(before) ==> AllDone(after))
  }

  class Context {
    const chip: Device
    const chipId: Address
    const mac: seq<Octet>
    const supportedFirmware: Address
    const romVersion: Address
    /** The image in memory, patched in place. */
    const image: array<Octet>
    const flashOffset: Address
    const flashSize: Address
    var protection: Protection

    constructor (chip: Device, chipId: Address, mac: seq<Octet>, supportedFirmware: Address, romVersion: Address,
                 image: array<Octet>, flashOffset: Address, flashSize: Address, protection: Protection)
      ensures this.chip == chip && this.chipId == chipId && this.mac == mac && this.image == image
      ensures this.supportedFirmware == supportedFirmware && this.romVersion == romVersion
      ensures this.flashOffset == flashOffset && this.flashSize == flashSize && this.protection == protection
    {
      this.chip, this.chipId, this.mac, this.image := chip, chipId, mac, image;
      this.supportedFirmware, this.romVersion := supportedFirmware, romVersion;
      this.flashOffset, this.flashSize, this.protection := flashOffset, flashSize, protection;
    }

    /** The image takes the MAC address; lengths are those of C ints, and addresses of flash
        those of 32 bits. */
    predicate Fits()
      reads chip`flash
    {
      && |mac| == 8 && image.Length < 0x8000_0000 && |chip.flash| < 0x1_0000_0000
      && var place := PlaceOfMac(chipId); place.At? ==> place.location + 8 <= image.Length
    }

    method SetUpImage() returns (status: Status)
      requires Fits()
      modifies image
      ensures status == if PlaceOfMac(chipId).Unsupported? then UnsupportedChip else Ok
      ensures image[..] == Patched(old(image[..]), mac, PlaceOfMac(chipId))
    {
      status := Ok;
      match PlaceOfMac(chipId)
      case At(location) =>
        forall i | 0 <= i < 8 {
          image[location + i] := mac[i];
        }
      case NotInImage =>
      case Unsupported => status := UnsupportedChip;
    }

    /** On parts whose protection allows it, the start of the flash is read back. */
    method FlashErase() returns (status: Status)
      modifies chip
      ensures |chip.flash| == |old(chip.flash)| && chip.programs == old(chip.programs)
      ensures NoWorse(old(chip.answers), chip.answers)
      ensures status == Ok && old(Faithful(chip.answers)) ==> chip.flash == Blank(|old(chip.flash)|)
      ensures status == Ok && protection in {Default, Level0} ==> |chip.flash| >= 64 && chip.flash[..64] == Blank(64)
      ensures old(AllDone(chip.answers)) && |chip.flash| >= 64 ==> status == Ok
    {
      var data;
      status, data := chip.Request(Command.FlashErase);
      if status == Ok && protection in {Default, Level0} {
        status, data := chip.Request(FlashRead(0, 64));
        if status == Ok && data != Blank(64) {
          status := Error;
        }
      }
    }
  
    function ChunkSize(left: nat): (size: Octet)
      requires left > 0
      ensures 0 < size <= CHUNK && size <= left
    {
      if left > CHUNK then CHUNK else left
    }

    /** One chunk of the image. The address is 32 bits wide. */
    method WriteChunk(n: nat, size: Octet) returns (status: Status)
      requires n + size <= image.Length && 0 < size <= CHUNK
      modifies chip
      ensures |chip.flash| == |old(chip.flash)| && NoWorse(old(chip.answers), chip.answers)
      ensures var address := Wrapped(flashOffset + n);
        && (status == Ok ==> address + size <= |chip.flash|)
        && (status == Ok && old(Faithful(chip.answers)) ==>
              chip.flash == Burnt(old(chip.flash), address, image[n..n + size]))
        && (status == Ok ==> chip.programs == old(chip.programs) + [Span(address, size)])
        && (old(AllDone(chip.answers)) && address + size <= |chip.flash| ==> status == Ok)
    {
      var address := Wrapped(flashOffset + n);
      var data;
      status, data := chip.Request(Command.FlashProgram(address, image[n..n + size]));
    }

    /** The first n bytes are written, tile by tile, and if no write went wrong they are what
        the flash holds. */
    ghost predicate Progress(n: nat, programs: seq<Span>, faithful: bool)
      reads chip, image
    {
      && n <= image.Length && (Whole(n, 128) || n == image.Length)
      && (n == 0 || flashOffset + n <= |chip.flash|) && |chip.flash| < 0x1_0000_0000
      && chip.programs == programs + Tiles(flashOffset, n, 128)
      && (faithful ==> Faithful(chip.answers) && chip.flash == Laid(|chip.flash|, flashOffset, image[..n]))
    }

    /** One turn of the loop. */
    method WriteNext(n: nat, ghost programs: seq<Span>, ghost faithful: bool) returns (status: Status, chunk: Octet)
      requires Progress(n, programs, faithful) && n < image.Length
      modifies chip
      ensures |chip.flash| == |old(chip.flash)| && NoWorse(old(chip.answers), chip.answers)
      ensures 0 < chunk && (status == Ok ==> Progress(n + chunk, programs, faithful))
      ensures old(AllDone(chip.answers)) && flashOffset + image.Length <= |chip.flash| ==> status == Ok
    {
      chunk := ChunkSize(image.Length - n);
      status := WriteChunk(n, chunk);
      if status == Ok {
        NextTile(flashOffset, n, chunk, CHUNK);
        ImageLaidNext(|chip.flash|, n, chunk);
      }
    }

    lemma ImageLaidNext(size: nat, n: nat, k: nat)
      requires n + k <= image.Length && flashOffset + n + k <= size
      ensures Burnt(Laid(size, flashOffset, image[..n]), flashOffset + n, image[n..n + k])
           == Laid(size, flashOffset, image[..n + k])
    {
      var all := image[..];
      assert all[..n] == image[..n] && all[n..n + k] == image[n..n + k] && all[..n + k] == image[..n + k];
      LaidNext(size, flashOffset, all, n, k);
    }

    /** The loop over the chunks. */
    method WriteImage(ghost faithful: bool) returns (status: Status)
      requires |chip.flash| < 0x1_0000_0000
      requires faithful ==> Faithful(chip.answers) && chip.flash == Blank(|chip.flash|)
      modifies chip
      ensures |chip.flash| == |old(chip.flash)| && NoWorse(old(chip.answers), chip.answers)
      ensures status == Ok ==> Progress(image.Length, old(chip.programs), faithful)
      ensures old(AllDone(chip.answers)) && flashOffset + image.Length <= |chip.flash| ==> status == Ok
    {
      LaidNothing(|chip.flash|, flashOffset);
      assert image[..0] == [];
      status := Ok;
      var n: nat := 0;
      while n < image.Length && status == Ok
        invariant |chip.flash| == |old(chip.flash)| && NoWorse(old(chip.answers), chip.answers)
        invariant status == Ok ==> Progress(n, old(chip.programs), faithful)
        invariant old(AllDone(chip.answers)) && flashOffset + image.Length <= |chip.flash| ==> status == Ok
        decreases status == Ok, image.Length - n
      {
        var chunk;
        status, chunk := WriteNext(n, old(chip.programs), faithful);
        n := n + chunk;
      }
    }
  
    /** The sum of offset and length is one of 32 bits. */
    predicate TooLarge() {
      Wrapped(flashOffset + image.Length) > flashSize
    }

    /** What a successful programming leaves, whatever was there before. */
    method FlashProgram(confirm: bool) returns (status: Status)
      requires Fits()
      modifies chip, image
      ensures image[..] in {old(image[..]), Patched(old(image[..]), mac, PlaceOfMac(chipId))}
      ensures status == Ok ==> image[..] == Patched(old(image[..]), mac, PlaceOfMac(chipId))
      ensures
        var refusal :=
          if romVersion != supportedFirmware && !confirm then Incompatible
          else if PlaceOfMac(chipId).Unsupported? then UnsupportedChip
          else if (flashOffset + image.Length) % 0x1_0000_0000 > flashSize then Incompatible
          else Ok;
        && (refusal != Ok ==> status == refusal && chip.flash == old(chip.flash) && chip.programs == old(chip.programs))
        && (refusal == Ok && old(AllDone(chip.answers))
            && |chip.flash| >= 64 && flashOffset + image.Length <= |chip.flash|
            ==> status == Ok)
      ensures status == Ok ==> chip.programs == old(chip.programs) + Tiles(flashOffset, image.Length, 128)
      ensures status == Ok ==> image.Length == 0 || flashOffset + image.Length <= |chip.flash|
      ensures status == Ok && old(Faithful(chip.answers)) ==> chip.flash == Laid(|chip.flash|, flashOffset, image[..])
      ensures status == Ok && old(Faithful(chip.answers)) && PlaceOfMac(chipId).At? ==>
        var at := flashOffset + PlaceOfMac(chipId).location;
        at + 8 <= |chip.flash| && chip.flash[at..at + 8] == mac
      ensures |chip.flash| == |old(chip.flash)| && NoWorse(old(chip.answers), chip.answers)
    {
      if romVersion != supportedFirmware && !confirm {
        return Incompatible;
      }
      status := SetUpImage();
      if status != Ok {
        return;
      }
      if TooLarge() {
        return Incompatible;
      }
      status := FlashErase();
      if status == Ok {
        ghost var patched := image[..];
        status := WriteImage(old(Faithful(chip.answers)));
        assert image[..image.Length] == image[..];
        if status == Ok && PlaceOfMac(chipId).At? && flashOffset + |patched| <= |chip.flash| {
          MacLaid(|chip.flash|, flashOffset, old(image[..]), mac, PlaceOfMac(chipId));
        }
      }
    }

    /** The first n bytes of the image stand in the flash where they belong. */
    predicate Matches(n: nat)
      requires n <= image.Length
      reads chip`flash, image
    {
      Matching(chip.flash, flashOffset, image[..], n)
    }

    method ReadChunk(n: nat, size: Octet) returns (status: Status, data: seq<Octet>)
      requires |chip.flash| < 0x1_0000_0000
      modifies chip
      ensures chip.flash == old(chip.flash) && chip.programs == old(chip.programs)
      ensures NoWorse(old(chip.answers), chip.answers)
      ensures var address := Wrapped(flashOffset + n);
        && (status == Ok ==> address + size <= |chip.flash| && data == chip.flash[address..address + size])
        && (old(AllDone(chip.answers)) && size <= 128 && address + size <= |chip.flash| ==> status == Ok)
    {
      status, data := chip.Request(FlashRead(Wrapped(flashOffset + n), size));
    }

    method VerifyNext(n: nat) returns (status: Status, chunk: Octet)
      requires n < image.Length && |chip.flash| < 0x1_0000_0000 && Matches(n)
      modifies chip
      ensures chip.flash == old(chip.flash) && chip.programs == old(chip.programs)
      ensures NoWorse(old(chip.answers), chip.answers)
      ensures 0 < chunk && n + chunk <= image.Length
      ensures status == Ok ==> Matches(n + chunk)
      ensures old(AllDone(chip.answers)) && Matches(image.Length) ==> status == Ok
    {
      chunk := ChunkSize(image.Length - n);
      ghost var all := image[..];
      var data;
      status, data := ReadChunk(n, chunk);
      if flashOffset + n + chunk <= |chip.flash| {
        MatchingNext(chip.flash, flashOffset, all, n, chunk);
        assert all[n..n + chunk] == image[n..n + chunk];
      }
      if Matches(image.Length) {
        MatchingPart(chip.flash, flashOffset, all, n + chunk);
      }
      if status == Ok && data != image[n..n + chunk] {
        status := VerificationFailed;
      }
    }

    method FlashVerify() returns (status: Status)
      requires Fits()
      modifies chip, image
      ensures chip.flash == old(chip.flash) && chip.programs == old(chip.programs)
      ensures image[..] in {old(image[..]), Patched(old(image[..]), mac, PlaceOfMac(chipId))}
      ensures status == Ok ==> image[..] == Patched(old(image[..]), mac, PlaceOfMac(chipId)) && Matches(image.Length)
      ensures
        var refusal :=
          if protection == Level1 then ProtectionSet
          else if (flashOffset + image.Length) % 0x1_0000_0000 > flashSize then Incompatible
          else if PlaceOfMac(chipId).Unsupported? then UnsupportedChip
          else Ok;
        && (refusal != Ok ==> status == refusal)
        && (refusal == Ok && old(AllDone(chip.answers)) && Matches(image.Length) ==> status == Ok)
    {
      if protection == Level1 {
        return ProtectionSet;
      }
      if TooLarge() {
        return Incompatible;
      }
      status := SetUpImage();
      if status != Ok {
        return;
      }
      var n: nat := 0;
      while n < image.Length && status == Ok
        invariant n <= image.Length && chip.flash == old(chip.flash) && chip.programs == old(chip.programs)
        invariant NoWorse(old(chip.answers), chip.answers)
        invariant image[..] == Patched(old(image[..]), mac, PlaceOfMac(chipId))
        invariant status == Ok ==> Matches(n)
        invariant old(AllDone(chip.answers)) && Matches(image.Length) ==> status == Ok
        decreases status == Ok, image.Length - n
      {
        var chunk;
        status, chunk := VerifyNext(n);
        n := n + chunk;
      }
    }

    /** Verifying after programming succeeds: setting up the image again changes nothing. */
    method ProgramThenVerify(confirm: bool) returns (programmed: Status, verified: Status)
      requires Fits() && protection != Level1
      modifies chip, image
      ensures programmed == Ok && old(AllDone(chip.answers)) ==> verified == Ok
      ensures verified == Ok ==> Matches(image.Length)
    {
      ghost var before := image[..];
      programmed := FlashProgram(confirm);
      verified := programmed;
      if programmed == Ok {
        PatchedTwice(before, mac, PlaceOfMac(chipId));
        assert old(AllDone(chip.answers)) ==> Matches(image.Length);
        verified := FlashVerify();
      } else {
        verified := Error;
      }
    }
  }
}
