/** Loading a program into RAM: text is written and read back, bss is cleared, and only then
    is the chip told to run. */
module RamLoader {
  import opened Frames
  import opened Uart
  import opened Commands
  import opened Chip
  import opened Programmer

  datatype Firmware = Firmware(raw: bool, text: seq<Octet>, textAddress: Address,
                               bssAddress: Address, bssLength: Address, resetEntry: Address)

  const TEXT_CHUNK: nat := 248
  const BSS_CHUNK: nat := 127

  /** Text bytes stand in RAM, but for those a cleared range lies over. */
  predicate TextStands(ram: seq<Octet>, fw: Firmware, cleared: nat) {
    fw.text == [] || (fw.textAddress + |fw.text| <= |ram|
      && forall i :: 0 <= i < |fw.text| ==>
           fw.bssAddress <= fw.textAddress + i < fw.bssAddress + cleared || fw.text[i] == ram[fw.textAddress + i])
  }

  predicate Cleared(ram: seq<Octet>, address: nat, n: nat) {
    n == 0 || (address + n <= |ram| && forall j :: address <= j < address + n ==> ram[j] == 0)
  }

  predicate Disjoint(fw: Firmware) {
    fw.textAddress + |fw.text| <= fw.bssAddress || fw.bssAddress + fw.bssLength <= fw.textAddress
  }

  /** Where text and bss do not overlap, all of the text stands. */
  lemma AllTextStands(ram: seq<Octet>, fw: Firmware)
    requires TextStands(ram, fw, fw.bssLength) && Disjoint(fw) && fw.text != []
    ensures fw.textAddress + |fw.text| <= |ram| && ram[fw.textAddress..fw.textAddress + |fw.text|] == fw.text
  {
  }

  function ChunkOf(left: nat, limit: Octet): (size: Octet)
    requires left > 0 && limit > 0
    ensures 0 < size <= limit && size <= left
  {
    if left > limit then limit else left
  }

  /** Writes a chunk of text and reads it back: whatever became of the write, a chunk that
      passes is in RAM, and nothing else has changed. */
  method LoadChunk(chip: Device, address: Address, chunk: seq<Octet>) returns (status: Status)
    requires 0 < |chunk| <= TEXT_CHUNK
    modifies chip
    ensures |chip.ram| == |old(chip.ram)| && chip.runs == old(chip.runs) && NoWorse(old(chip.answers), chip.answers)
    ensures status == Ok ==> address + |chunk| <= |chip.ram| && chip.ram == Stored(old(chip.ram), address, chunk)
    ensures status == Ok ==> chip.stores == old(chip.stores) + [Span(address, |chunk|)]
    ensures old(AllDone(chip.answers)) && address + |chunk| <= |chip.ram| ==> status == Ok
  {
    var data;
    ghost var (ram, landed) := (chip.ram, Landed(Current(chip.answers), chunk));
    status, data := chip.Request(RamWrite(address, chunk));
    if status == Ok {
      StoredThere(ram, address, landed);
      status, data := chip.Request(RamRead(address, |chunk|));
      if status == Ok && data != chunk {
        status := VerificationFailed;
      }
    }
  }

  lemma StoredThere(ram: seq<Octet>, address: nat, data: seq<Octet>)
    requires address + |data| <= |ram|
    ensures Stored(ram, address, data)[address..address + |data|] == data
  {
  }

  /** What a chip was told before, and whether its writes go right. */
  datatype Before = Before(runs: seq<Run>, stores: seq<Span>, faithful: bool)

  /** The chip with the first bytes of the text in RAM. */
  ghost predicate TextLoaded(chip: Device, fw: Firmware, n: nat, before: Before)
    requires n <= |fw.text|
    reads chip
  {
    && chip.runs == before.runs && |chip.ram| < 0x1_0000_0000
    && (Whole(n, 248) || n == |fw.text|) && chip.stores == before.stores + Tiles(fw.textAddress, n, 248)
    && (n == 0 || fw.textAddress + n <= |chip.ram|)
    && Matching(chip.ram, fw.textAddress, fw.text, n) && (before.faithful ==> Faithful(chip.answers))
  }

  method LoadNext(chip: Device, fw: Firmware, n: nat, ghost before: Before)
      returns (status: Status, chunk: Octet)
    requires n < |fw.text| && TextLoaded(chip, fw, n, before)
    modifies chip
    ensures |chip.ram| == |old(chip.ram)| && chip.runs == before.runs && NoWorse(old(chip.answers), chip.answers)
    ensures 0 < chunk && n + chunk <= |fw.text|
    ensures status == Ok ==> TextLoaded(chip, fw, n + chunk, before)
    ensures old(AllDone(chip.answers)) && fw.textAddress + |fw.text| <= |chip.ram| ==> status == Ok
  {
    chunk := ChunkOf(|fw.text| - n, TEXT_CHUNK);
    var piece := fw.text[n..n + chunk];
    ghost var ram := chip.ram;
    status := LoadChunk(chip, Wrapped(fw.textAddress + n), piece);
    if status == Ok {
      assert Wrapped(fw.textAddress + n) == fw.textAddress + n;
      StoredNext(ram, fw.textAddress, fw.text, n, chunk);
      NextTile(fw.textAddress, n, chunk, TEXT_CHUNK);
    }
  }

  lemma StoredNext(ram: seq<Octet>, address: nat, text: seq<Octet>, n: nat, k: nat)
    requires 0 < k && n + k <= |text| && address + n + k <= |ram| && Matching(ram, address, text, n)
    ensures Matching(Stored(ram, address + n, text[n..n + k]), address, text, n + k)
  {
    var (after, at) := (Stored(ram, address + n, text[n..n + k]), address + n);
    forall i | 0 <= i < n + k ensures text[i] == after[address + i] {
      if i >= n {
        assert after[at + (i - n)] == text[n..n + k][i - n];
      }
    }
  }

  method LoadText(chip: Device, fw: Firmware, ghost before: Before) returns (status: Status)
    requires TextLoaded(chip, fw, 0, before)
    modifies chip
    ensures |chip.ram| == |old(chip.ram)| && chip.runs == old(chip.runs) && NoWorse(old(chip.answers), chip.answers)
    ensures status == Ok ==> TextLoaded(chip, fw, |fw.text|, before)
    ensures old(AllDone(chip.answers)) && fw.textAddress + |fw.text| <= |chip.ram| ==> status == Ok
  {
    status := Ok;
    var n: nat := 0;
    while n < |fw.text| && status == Ok
      invariant n <= |fw.text| && |chip.ram| == |old(chip.ram)| && chip.runs == old(chip.runs)
      invariant NoWorse(old(chip.answers), chip.answers)
      invariant status == Ok ==> TextLoaded(chip, fw, n, before)
      invariant old(AllDone(chip.answers)) && fw.textAddress + |fw.text| <= |chip.ram| ==> status == Ok
      decreases status == Ok, |fw.text| - n
    {
      var chunk;
      status, chunk := LoadNext(chip, fw, n, before);
      n := n + chunk;
    }
  }

  // ----- bss -----

  /** The chip with the first bytes of bss written over, which nothing reads back: they are
      zero if no write went wrong. The text stands as far as bss does not lie over it. */
  ghost predicate BssCleared(chip: Device, fw: Firmware, n: nat, before: Before)
    reads chip
  {
    && chip.runs == before.runs && |chip.ram| < 0x1_0000_0000
    && (Whole(n, 127) || n == fw.bssLength) && chip.stores == before.stores + Tiles(fw.bssAddress, n, 127)
    && (n == 0 || fw.bssAddress + n <= |chip.ram|)
    && TextStands(chip.ram, fw, n)
    && (before.faithful ==> Faithful(chip.answers) && Cleared(chip.ram, fw.bssAddress, n))
  }

  function Zeros(n: nat): (z: seq<Octet>)
    ensures |z| == n && forall i :: 0 <= i < n ==> z[i] == 0
  {
    seq(n, _ => 0)
  }

  method ClearChunk(chip: Device, address: Address, size: Octet) returns (status: Status, ghost landed: seq<Octet>)
    requires 0 < size <= BSS_CHUNK
    modifies chip
    ensures |chip.ram| == |old(chip.ram)| && chip.runs == old(chip.runs) && NoWorse(old(chip.answers), chip.answers)
    ensures |landed| == size && (old(Faithful(chip.answers)) ==> landed == Zeros(size))
    ensures status == Ok ==> address + size <= |chip.ram| && chip.ram == Stored(old(chip.ram), address, landed)
    ensures status == Ok ==> chip.stores == old(chip.stores) + [Span(address, size)]
    ensures old(AllDone(chip.answers)) && address + size <= |chip.ram| ==> status == Ok
  {
    var data;
    landed := Landed(Current(chip.answers), Zeros(size));
    status, data := chip.Request(RamWrite(address, Zeros(size)));
  }

  method ClearNext(chip: Device, fw: Firmware, n: nat, ghost before: Before)
      returns (status: Status, chunk: Octet)
    requires n < fw.bssLength && BssCleared(chip, fw, n, before)
    modifies chip
    ensures |chip.ram| == |old(chip.ram)| && chip.runs == before.runs && NoWorse(old(chip.answers), chip.answers)
    ensures 0 < chunk && n + chunk <= fw.bssLength
    ensures status == Ok ==> BssCleared(chip, fw, n + chunk, before)
    ensures old(AllDone(chip.answers)) && fw.bssAddress + fw.bssLength <= |chip.ram| ==> status == Ok
  {
    chunk := ChunkOf(fw.bssLength - n, BSS_CHUNK);
    ghost var ram := chip.ram;
    ghost var landed;
    status, landed := ClearChunk(chip, Wrapped(fw.bssAddress + n), chunk);
    if status == Ok {
      assert Wrapped(fw.bssAddress + n) == fw.bssAddress + n;
      ClearedNext(ram, fw, n, landed);
      NextTile(fw.bssAddress, n, chunk, BSS_CHUNK);
    }
  }

  lemma ClearedNext(ram: seq<Octet>, fw: Firmware, n: nat, landed: seq<Octet>)
    requires fw.bssAddress + n + |landed| <= |ram| && TextStands(ram, fw, n)
    ensures var (k, after) := (|landed|, Stored(ram, fw.bssAddress + n, landed));
            TextStands(after, fw, n + k)
            && (landed == Zeros(k) && Cleared(ram, fw.bssAddress, n) ==> Cleared(after, fw.bssAddress, n + k))
  {
    var (k, after, at) := (|landed|, Stored(ram, fw.bssAddress + n, landed), fw.bssAddress + n);
    assert forall j :: 0 <= j < |ram| ==> after[j] == if at <= j < at + k then landed[j - at] else ram[j];
  }

  method ClearBss(chip: Device, fw: Firmware, ghost before: Before) returns (status: Status)
    requires BssCleared(chip, fw, 0, before)
    modifies chip
    ensures |chip.ram| == |old(chip.ram)| && chip.runs == old(chip.runs) && NoWorse(old(chip.answers), chip.answers)
    ensures status == Ok ==> BssCleared(chip, fw, fw.bssLength, before)
    ensures old(AllDone(chip.answers)) && fw.bssAddress + fw.bssLength <= |chip.ram| ==> status == Ok
  {
    status := Ok;
    var n: nat := 0;
    while n < fw.bssLength && status == Ok
      invariant n <= fw.bssLength && |chip.ram| == |old(chip.ram)| && chip.runs == old(chip.runs)
      invariant NoWorse(old(chip.answers), chip.answers)
      invariant status == Ok ==> BssCleared(chip, fw, n, before)
      invariant old(AllDone(chip.answers)) && fw.bssAddress + fw.bssLength <= |chip.ram| ==> status == Ok
      decreases status == Ok, fw.bssLength - n
    {
      var chunk;
      status, chunk := ClearNext(chip, fw, n, before);
      n := n + chunk;
    }
  }

  /** Text and then bss. */
  method LoadAll(chip: Device, fw: Firmware) returns (status: Status)
    requires |chip.ram| < 0x1_0000_0000
    modifies chip
    ensures |chip.ram| == |old(chip.ram)| && chip.runs == old(chip.runs) && NoWorse(old(chip.answers), chip.answers)
    ensures status == Ok ==>
      && TextStands(chip.ram, fw, fw.bssLength) && (fw.bssLength == 0 || fw.bssAddress + fw.bssLength <= |chip.ram|)
      && (old(Faithful(chip.answers)) ==> Cleared(chip.ram, fw.bssAddress, fw.bssLength))
      && chip.stores
         == old(chip.stores) + Tiles(fw.textAddress, |fw.text|, 248) + Tiles(fw.bssAddress, fw.bssLength, 127)
    ensures
      && old(AllDone(chip.answers))
      && fw.textAddress + |fw.text| <= |chip.ram| && fw.bssAddress + fw.bssLength <= |chip.ram|
      ==> status == Ok
  {
    ghost var before := Before(chip.runs, chip.stores, Faithful(chip.answers));
    status := LoadText(chip, fw, before);
    if status == Ok {
      before := Before(chip.runs, chip.stores, before.faithful);
      status := ClearBss(chip, fw, before);
    }
  }

  /** The chip is told to run at most once, and only what was checked: whatever became of the
      writes, the text is in RAM, all of it unless bss lies over it. The bss is zero if no
      write went wrong, since it is not read back. Before that the text is written in chunks of
      248 bytes and bss in chunks of 127, and each check in front of the loading ends it. */
  method MemoryLoadExecute(context: Context, fw: Firmware, ramSize: Address, confirm: bool) returns (status: Status)
    requires context.Fits() && |context.chip.ram| < 0x1_0000_0000
    modifies context.chip, context.image
    ensures var (chip, runs) := (context.chip, old(context.chip.runs));
      && (chip.runs == runs || chip.runs == runs + [Run(fw.resetEntry, chip.ram)])
      && (status == Ok ==> chip.runs != runs)
      && (chip.runs != runs ==> TextStands(chip.ram, fw, fw.bssLength))
      && (chip.runs != runs && Disjoint(fw) && fw.text != [] ==>
            fw.textAddress + |fw.text| <= |chip.ram| && chip.ram[fw.textAddress..fw.textAddress + |fw.text|] == fw.text)
      && (chip.runs != runs ==> fw.bssLength == 0 || fw.bssAddress + fw.bssLength <= |chip.ram|)
      && (chip.runs != runs && old(Faithful(context.chip.answers)) ==> Cleared(chip.ram, fw.bssAddress, fw.bssLength))
      && (chip.runs != runs ==>
            chip.stores == old(context.chip.stores)
                           + Tiles(fw.textAddress, |fw.text|, 248) + Tiles(fw.bssAddress, fw.bssLength, 127))
    ensures
      var refusal :=
        if context.protection == Level1 then ProtectionSet
        else if fw.raw || (context.romVersion != context.supportedFirmware && !confirm) then Incompatible
        else if PlaceOfMac(context.chipId).Unsupported? then UnsupportedChip
        else if (context.image.Length + fw.bssLength) % 0x1_0000_0000 > ramSize then Incompatible
        else Ok;
      && (refusal != Ok ==> status == refusal && context.chip.ram == old(context.chip.ram)
                            && context.chip.runs == old(context.chip.runs))
      && (refusal == Ok && old(AllDone(context.chip.answers))
          && fw.textAddress + |fw.text| <= |context.chip.ram| && fw.bssAddress + fw.bssLength <= |context.chip.ram|
          ==> status == Ok)
  {
    var chip := context.chip;
    if context.protection == Level1 {
      return ProtectionSet;
    }
    if fw.raw || (context.romVersion != context.supportedFirmware && !confirm) {
      return Incompatible;
    }
    status := context.SetUpImage();
    if status != Ok {
      return;
    }
    if Wrapped(context.image.Length + fw.bssLength) > ramSize {
      return Incompatible;
    }
    status := LoadAll(chip, fw);
    if status == Ok {
      if Disjoint(fw) && fw.text != [] {
        AllTextStands(chip.ram, fw);
      }
      var data;
      status, data := chip.Request(RamRun(fw.resetEntry));
    }
  }
}
