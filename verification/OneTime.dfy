/** The operations that write one-time programmable words: MAC address, AES key, user data and
    device settings. */
module OneTime {
  import opened Scripts
  import opened Uart
  import opened IndexSector
  import opened DeviceConfig

  datatype Mac = Mac(a0: bv8, a1: bv8, a2: bv8, a3: bv8, a4: bv8, a5: bv8, a6: bv8, a7: bv8)

  const NO_MAC: Mac := Mac(0xFF, 0xFF, 0xFF, 0xFF, 0xFF, 0xFF, 0xFF, 0xFF)

  const SETTINGS_PAGE: nat := 5
  const ACCESS_PAGE: nat := 4
  const ACCESS_WORD: nat := 0
  const CUSTOMER_WORD: nat := 1
  const USER_WORD: nat := 4
  const CUSTOMER_MAC_WORD: nat := 7
  const FACTORY_MAC_WORD: nat := 8
  const AES_KEY_WORD: nat := 12

  function MacWords(mac: Mac): Quad {
    Quad(Joined(mac.a0, mac.a1, mac.a2, mac.a3), Joined(mac.a4, mac.a5, mac.a6, mac.a7), 0xFFFF_FFFF, 0xFFFF_FFFF)
  }

  function MacOf(q: Quad): Mac {
    Mac(Byte3(q.w0), Byte2(q.w0), Byte1(q.w0), Byte0(q.w0), Byte3(q.w1), Byte2(q.w1), Byte1(q.w1), Byte0(q.w1))
  }

  lemma MacRoundTrip(mac: Mac)
    ensures MacOf(MacWords(mac)) == mac
  {
    SplitJoin(mac.a0, mac.a1, mac.a2, mac.a3);
    SplitJoin(mac.a4, mac.a5, mac.a6, mac.a7);
  }

  /** The bytes of a MAC address in the sector: in order on a big endian chip, and in order within
      four bytes from the last to the first on a little endian one. */
  lemma MacInSector(mac: Mac)
    ensures Packed(Big, MacWords(mac))
         == Word(Bytes(mac.a0, mac.a1, mac.a2, mac.a3), Bytes(mac.a4, mac.a5, mac.a6, mac.a7), BLANK_BYTES, BLANK_BYTES)
    ensures Packed(Little, MacWords(mac))
         == Word(Bytes(mac.a3, mac.a2, mac.a1, mac.a0), Bytes(mac.a7, mac.a6, mac.a5, mac.a4), BLANK_BYTES, BLANK_BYTES)
  {
    SplitJoin(mac.a0, mac.a1, mac.a2, mac.a3);
    SplitJoin(mac.a4, mac.a5, mac.a6, mac.a7);
  }

  /** Where the words are mapped in memory. */
  lemma Addresses()
    ensures AddressOf(ACCESS_PAGE, ACCESS_WORD) == 0x0100_1400
    ensures AddressOf(SETTINGS_PAGE, CUSTOMER_WORD) == 0x0100_1510
    ensures AddressOf(SETTINGS_PAGE, USER_WORD) == 0x0100_1540
    ensures AddressOf(SETTINGS_PAGE, CUSTOMER_MAC_WORD) == 0x0100_1570
    ensures AddressOf(SETTINGS_PAGE, FACTORY_MAC_WORD) == 0x0100_1580
    ensures AddressOf(SETTINGS_PAGE, AES_KEY_WORD) == 0x0100_15C0
  {
  }

  lemma OnesAreNoMac(mac: Mac)
    ensures MacWords(mac) == ONES <==> mac == NO_MAC
  {
    MacRoundTrip(mac);
    assert MacOf(ONES) == NO_MAC;
    assert MacWords(NO_MAC) == ONES;
  }

  /** What the programmer keeps of a chip for itself. */
  class Kept {
    var mac: Mac
    var config: Config

    constructor (mac: Mac, config: Config)
      ensures this.mac == mac && this.config == config
    {
      this.mac, this.config := mac, config;
    }
  }

  /** On older parts the address is only kept, for the next image. */
  method MACAddressSet(chip: IndexChip, kept: Kept, mac: Mac, confirm: bool, extension: bool) returns (status: Status)
    requires chip.Valid()
    modifies chip`answers, chip`sector, kept`mac
    ensures kept.mac == if chip.details.supported then old(kept.mac) else mac
    ensures !chip.details.supported ==> status == Ok && chip.sector == old(chip.sector)
    ensures chip.Valid() && chip.OnlyBlankAt(Slot(SETTINGS_PAGE, CUSTOMER_MAC_WORD))
    ensures chip.sector == old(chip.sector)
      || chip.At(SETTINGS_PAGE, CUSTOMER_MAC_WORD) == Packed(chip.details.endian, MacWords(mac))
    ensures status == Ok && chip.details.supported ==>
      && old(chip.At(SETTINGS_PAGE, CUSTOMER_MAC_WORD)) == BLANK
      && chip.At(SETTINGS_PAGE, CUSTOMER_MAC_WORD) == Packed(chip.details.endian, MacWords(mac))
    ensures old(AllDone(chip.answers)) ==> AllDone(chip.answers)
    ensures
      && chip.Willing(old(chip.answers), confirm, extension)
      && old(chip.At(SETTINGS_PAGE, CUSTOMER_MAC_WORD)) == BLANK
      ==> status == Ok
  {
    if chip.details.supported {
      status := chip.IndexSectorWrite(SETTINGS_PAGE, CUSTOMER_MAC_WORD, MacWords(mac), confirm, extension);
    } else {
      status, kept.mac := Ok, mac;
    }
  }

  /** The address the chip goes by: the customer's, or the factory's if that is not set. */
  ghost function MacInUse(chip: IndexChip): Mac
    requires chip.Valid()
    reads chip`sector
  {
    var customer := Unpacked(chip.details.endian, chip.At(SETTINGS_PAGE, CUSTOMER_MAC_WORD));
    if customer.w0 == customer.w1 == 0xFFFF_FFFF
    then MacOf(Unpacked(chip.details.endian, chip.At(SETTINGS_PAGE, FACTORY_MAC_WORD)))
    else MacOf(customer)
  }

  method ChipGetMacAddress(chip: IndexChip) returns (status: Status, mac: Mac)
    requires chip.Valid() && chip.details.supported
    modifies chip`answers
    ensures status == Ok ==> mac == MacInUse(chip)
    ensures old(AllDone(chip.answers)) && !chip.details.endian.Unknown? ==> status == Ok
  {
    var words;
    status, words := chip.ReadWord(SETTINGS_PAGE, CUSTOMER_MAC_WORD);
    if status != Ok {
      words := Quad(0, 0, 0, 0);
    }
    if words.w0 == words.w1 == 0xFFFF_FFFF {
      status, words := chip.ReadWord(SETTINGS_PAGE, FACTORY_MAC_WORD);
    }
    mac := MacOf(words);
  }

  /** A MAC address set on a blank word reads back byte for byte, on chips of either byte order,
      unless it is all 0xFF, which reads as the factory's. */
  method SetAndGetMac(chip: IndexChip, kept: Kept, mac: Mac, extension: bool) returns (status: Status, got: Mac)
    requires chip.Valid() && chip.Willing(chip.answers, true, extension)
    requires chip.At(SETTINGS_PAGE, CUSTOMER_MAC_WORD) == BLANK
    modifies chip`answers, chip`sector, kept`mac
    ensures status == Ok
    ensures got == if mac != NO_MAC then mac else
      MacOf(Unpacked(chip.details.endian, old(chip.At(SETTINGS_PAGE, FACTORY_MAC_WORD))))
  {
    status := MACAddressSet(chip, kept, mac, true, extension);
    status, got := ChipGetMacAddress(chip);
    PackedUnpacked(chip.details.endian, MacWords(mac), BLANK);
    MacRoundTrip(mac);
    OnesAreNoMac(mac);
    if mac == NO_MAC {
      OnesAreBlank(chip.details.endian, chip.At(SETTINGS_PAGE, CUSTOMER_MAC_WORD));
      FactoryStays(chip);
    }
  }

  twostate lemma FactoryStays(chip: IndexChip)
    requires old(chip.Valid()) && chip.Valid() && chip.OnlyBlankAt(Slot(SETTINGS_PAGE, CUSTOMER_MAC_WORD))
    ensures chip.At(SETTINGS_PAGE, FACTORY_MAC_WORD) == old(chip.At(SETTINGS_PAGE, FACTORY_MAC_WORD))
  {
  }

  method AesKeySet(chip: IndexChip, key: Quad, confirm: bool, extension: bool) returns (status: Status)
    requires chip.Valid()
    modifies chip`answers, chip`sector
    ensures chip.Valid() && chip.OnlyBlankAt(Slot(SETTINGS_PAGE, AES_KEY_WORD))
    ensures chip.sector == old(chip.sector)
      || Unpacked(chip.details.endian, chip.At(SETTINGS_PAGE, AES_KEY_WORD)) == key
    ensures status == Ok ==>
      && old(chip.At(SETTINGS_PAGE, AES_KEY_WORD)) == BLANK
      && Unpacked(chip.details.endian, chip.At(SETTINGS_PAGE, AES_KEY_WORD)) == key
  {
    if !chip.details.supported {
      return UnsupportedChip;
    }
    status := chip.IndexSectorWrite(SETTINGS_PAGE, AES_KEY_WORD, key, confirm, extension);
    PackedUnpacked(chip.details.endian, key, BLANK);
  }

  method UserDataSet(chip: IndexChip, index: nat, data: Quad, confirm: bool, extension: bool) returns (status: Status)
    requires chip.Valid()
    modifies chip`answers, chip`sector
    ensures chip.Valid() && (index < 3 ==> chip.OnlyBlankAt(Slot(SETTINGS_PAGE, USER_WORD + index)))
    ensures index >= 3 ==> status != Ok && chip.sector == old(chip.sector)
    ensures chip.sector == old(chip.sector)
      || (index < 3 && Unpacked(chip.details.endian, chip.At(SETTINGS_PAGE, USER_WORD + index)) == data)
    ensures status == Ok ==>
      && old(chip.At(SETTINGS_PAGE, USER_WORD + index)) == BLANK
      && Unpacked(chip.details.endian, chip.At(SETTINGS_PAGE, USER_WORD + index)) == data
  {
    if !chip.details.supported {
      return UnsupportedChip;
    }
    if index >= 3 {
      return Error;
    }
    status := chip.IndexSectorWrite(SETTINGS_PAGE, USER_WORD + index, data, confirm, extension);
    PackedUnpacked(chip.details.endian, data, BLANK);
  }

  // ----- device settings -----

  /** No word that was written has changed. */
  twostate predicate WrittenStay(chip: IndexChip)
    reads chip`sector
  {
    |chip.sector| == |old(chip.sector)|
    && forall i :: 0 <= i < |chip.sector| ==> old(chip.sector[i]) == BLANK || chip.sector[i] == old(chip.sector[i])
  }

  ghost predicate Holds(chip: IndexChip, page: nat, word: nat, bits: bv32)
    requires chip.Valid() && page < PAGES && word < WORDS
    reads chip`sector
  {
    Unpacked(chip.details.endian, chip.At(page, word)) == Copies(bits)
  }

  /** Both words hold the bits of the settings. */
  ghost predicate Configured(chip: IndexChip, c: Config)
    requires chip.Valid()
    reads chip`sector
  {
    Holds(chip, ACCESS_PAGE, ACCESS_WORD, AccessBits(c)) && Holds(chip, SETTINGS_PAGE, CUSTOMER_WORD, CustomerBits(c))
  }

  /** At most the two words of the settings have changed, and only from blank; the access word
      only to take access away. */
  twostate predicate OnlySettings(chip: IndexChip, c: Config)
    requires old(chip.Valid()) && chip.Valid()
    reads chip`sector
  {
    var (access, customer) := (Slot(ACCESS_PAGE, ACCESS_WORD), Slot(SETTINGS_PAGE, CUSTOMER_WORD));
    && (forall i :: 0 <= i < |chip.sector| && i != access && i != customer ==> chip.sector[i] == old(chip.sector[i]))
    && (chip.sector[access] == old(chip.sector[access])
        || (DisablesFlashAccess(c) && Holds(chip, ACCESS_PAGE, ACCESS_WORD, NO_FLASH_ACCESS)))
    && (chip.sector[customer] == old(chip.sector[customer])
        || Holds(chip, SETTINGS_PAGE, CUSTOMER_WORD, CustomerBits(c)))
  }

  method DeviceConfigSet(chip: IndexChip, kept: Kept, c: Config, confirm: bool, extension: bool)
      returns (status: Status)
    requires chip.Valid()
    modifies chip`answers, chip`sector, kept`config
    ensures kept.config == if status == Ok then c else old(kept.config)
    ensures chip.Valid() && WrittenStay(chip) && OnlySettings(chip, c)
    ensures status == Ok ==>
      && old(chip.At(SETTINGS_PAGE, CUSTOMER_WORD)) == BLANK
      && Holds(chip, SETTINGS_PAGE, CUSTOMER_WORD, CustomerBits(c))
      && (DisablesFlashAccess(c) ==>
            old(chip.At(ACCESS_PAGE, ACCESS_WORD)) == BLANK && Holds(chip, ACCESS_PAGE, ACCESS_WORD, NO_FLASH_ACCESS))
    ensures status == Ok && old(chip.At(ACCESS_PAGE, ACCESS_WORD)) == BLANK ==> Configured(chip, c)
    ensures old(AllDone(chip.answers)) ==> AllDone(chip.answers)
    ensures
      && chip.Willing(old(chip.answers), confirm, extension)
      && old(chip.At(ACCESS_PAGE, ACCESS_WORD)) == BLANK && old(chip.At(SETTINGS_PAGE, CUSTOMER_WORD)) == BLANK
      ==> status == Ok
  {
    if !chip.details.supported {
      return UnsupportedChip;
    }
    var agreed := confirm;
    BlankReadsOnes(chip.details.endian);
    if DisablesFlashAccess(c) {
      status := chip.IndexSectorWrite(ACCESS_PAGE, ACCESS_WORD, Copies(AccessBits(c)), agreed, extension);
      PackedUnpacked(chip.details.endian, Copies(AccessBits(c)), BLANK);
      agreed := true;
      if status != Ok {
        return;
      }
    }
    label Access:
    status := chip.IndexSectorWrite(SETTINGS_PAGE, CUSTOMER_WORD, Copies(CustomerBits(c)), agreed, extension);
    PackedUnpacked(chip.details.endian, Copies(CustomerBits(c)), BLANK);
    assert chip.At(ACCESS_PAGE, ACCESS_WORD) == old@Access(chip.At(ACCESS_PAGE, ACCESS_WORD));
    if status == Ok {
      kept.config := c;
    }
  }

  method DeviceConfigGet(chip: IndexChip) returns (status: Status, c: Config)
    requires chip.Valid()
    modifies chip`answers
    ensures status == Ok ==>
      var (access, customer) := (chip.At(ACCESS_PAGE, ACCESS_WORD), chip.At(SETTINGS_PAGE, CUSTOMER_WORD));
      c == Decoded(Majority(Unpacked(chip.details.endian, access)), Majority(Unpacked(chip.details.endian, customer)))
    ensures chip.details.supported && !chip.details.endian.Unknown? && old(AllDone(chip.answers)) ==> status == Ok
  {
    c := Decoded(0, 0);
    if !chip.details.supported {
      return UnsupportedChip, c;
    }
    var access, customer;
    status, access := chip.ReadWord(ACCESS_PAGE, ACCESS_WORD);
    if status != Ok {
      return Error, c;
    }
    status, customer := chip.ReadWord(SETTINGS_PAGE, CUSTOMER_WORD);
    if status != Ok {
      return Error, c;
    }
    c := Decoded(Majority(access), Majority(customer));
  }

  /** The two words as something may have made them. */
  method Damage(chip: IndexChip, access: Quad, customer: Quad)
    requires chip.Valid()
    modifies chip`sector
    ensures chip.Valid() && chip.At(ACCESS_PAGE, ACCESS_WORD) == Packed(chip.details.endian, access)
    ensures chip.At(SETTINGS_PAGE, CUSTOMER_WORD) == Packed(chip.details.endian, customer)
  {
    chip.sector := chip.sector[Slot(ACCESS_PAGE, ACCESS_WORD) := Packed(chip.details.endian, access)];
    chip.sector := chip.sector[Slot(SETTINGS_PAGE, CUSTOMER_WORD) := Packed(chip.details.endian, customer)];
  }

  /** From a blank sector, what is set is read back with its defaults resolved, whatever
      becomes of one of the copies that vote. */
  method SetDamageGetConfig(chip: IndexChip, kept: Kept, c: Config, access: Quad, customer: Quad, extension: bool)
      returns (status: Status, got: Config)
    requires chip.Valid() && chip.Willing(chip.answers, true, extension)
    requires chip.At(ACCESS_PAGE, ACCESS_WORD) == BLANK && chip.At(SETTINGS_PAGE, CUSTOMER_WORD) == BLANK
    requires OneCopyBad(access, AccessBits(c)) && OneCopyBad(customer, CustomerBits(c))
    modifies chip`answers, chip`sector, kept`config
    ensures status == Ok && got == Resolved(c)
  {
    status := DeviceConfigSet(chip, kept, c, true, extension);
    assert Configured(chip, c);
    Damage(chip, access, customer);
    status, got := DeviceConfigGet(chip);
    PackedUnpacked(chip.details.endian, access, BLANK);
    PackedUnpacked(chip.details.endian, customer, BLANK);
    ConfigSurvives(c, access, customer);
  }

  // ----- runs -----

  /** A call, what the user answers it and whether the programmer extension could be loaded. */
  datatype Call = Call(op: Operation, confirm: bool, extension: bool)

  datatype Operation =
    | SetMac(mac: Mac)
    | SetAesKey(key: Quad)
    | SetUserData(index: nat, data: Quad)
    | SetConfig(config: Config)

  method Perform(chip: IndexChip, kept: Kept, call: Call) returns (status: Status)
    requires chip.Valid()
    modifies chip`answers, chip`sector, kept
    ensures chip.Valid() && WrittenStay(chip)
  {
    var Call(op, confirm, extension) := call;
    match op
    case SetMac(mac) => status := MACAddressSet(chip, kept, mac, confirm, extension);
    case SetAesKey(key) => status := AesKeySet(chip, key, confirm, extension);
    case SetUserData(index, data) => status := UserDataSet(chip, index, data, confirm, extension);
    case SetConfig(config) => status := DeviceConfigSet(chip, kept, config, confirm, extension);
  }

  /** Over any run of calls, whatever the chip and the user answer, a word once written stays. */
  method PerformAll(chip: IndexChip, kept: Kept, calls: seq<Call>)
    requires chip.Valid()
    modifies chip`answers, chip`sector, kept
    ensures chip.Valid() && WrittenStay(chip)
  {
    for i := 0 to |calls|
      invariant chip.Valid() && WrittenStay(chip)
    {
      var _ := Perform(chip, kept, calls[i]);
    }
  }
}
