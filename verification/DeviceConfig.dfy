/** Device settings as bits of two index sector words, each kept in several copies. */
module DeviceConfig {
  import opened IndexSector

  datatype Jtag = JtagDefault | JtagEnable | JtagDisableFlash | JtagDisableCpu | JtagDisable

  datatype Brownout = VboDefault | Vbo195 | Vbo200 | Vbo210 | Vbo220 | Vbo230 | Vbo240 | Vbo270 | Vbo300

  datatype CodeProtection = CrpDefault | CrpLevel0 | CrpLevel1 | CrpLevel2

  datatype Encrypted = EncryptedDefault | EncryptedTrue | EncryptedFalse

  datatype FlashLoad = LoadDefault | LoadDisable | LoadEnable

  datatype Config = Config(jtag: Jtag, vbo: Brownout, crp: CodeProtection, encrypted: Encrypted, load: FlashLoad)

  /** What the fields left at their default mean on a blank chip. */
  function Resolved(c: Config): Config {
    Config(
      if c.jtag.JtagDefault? then JtagEnable else c.jtag,
      if c.vbo.VboDefault? then Vbo200 else c.vbo,
      if c.crp.CrpDefault? then CrpLevel0 else c.crp,
      if c.encrypted.EncryptedDefault? then EncryptedFalse else c.encrypted,
      if c.load.LoadDefault? then LoadEnable else c.load)
  }

  // ----- writing -----

  /** The flash access word is written only to take access away. */
  predicate DisablesFlashAccess(c: Config) {
    c.jtag.JtagDisable? || c.jtag.JtagDisableFlash?
  }

  const NO_FLASH_ACCESS: bv32 := 0xFFFF_FFF0

  function VboMask(a: bv32): bv32 {
    ((a ^ 6) << 1) | 0xFFFF_FFF1
  }

  function VboBits(vbo: Brownout): bv32 {
    match vbo
    case VboDefault => 0xFFFF_FFFF
    case Vbo195 => VboMask(0)
    case Vbo200 => VboMask(1)
    case Vbo210 => VboMask(2)
    case Vbo220 => VboMask(3)
    case Vbo230 => VboMask(4)
    case Vbo240 => VboMask(5)
    case Vbo270 => VboMask(6)
    case Vbo300 => VboMask(7)
  }

  function JtagBits(jtag: Jtag): bv32 {
    if jtag.JtagDisable? || jtag.JtagDisableCpu? then 0xFFFF_FFFE else 0xFFFF_FFFF
  }

  function CrpBits(crp: CodeProtection): bv32 {
    match crp
    case CrpLevel1 => 0x10 | 0xFFFF_FFCF
    case CrpLevel2 => 0x20 | 0xFFFF_FFCF
    case _ => 0xFFFF_FFFF
  }

  function FlashBits(encrypted: Encrypted, load: FlashLoad): bv32 {
    (if encrypted.EncryptedTrue? then 0xFFFF_FFBF else 0xFFFF_FFFF)
    & (if load.LoadDisable? then 0xFFFF_FF7F else 0xFFFF_FFFF)
  }

  /** The customer settings word. */
  function CustomerBits(c: Config): bv32 {
    JtagBits(c.jtag) & VboBits(c.vbo) & CrpBits(c.crp) & FlashBits(c.encrypted, c.load)
  }

  function AccessBits(c: Config): bv32 {
    if DisablesFlashAccess(c) then NO_FLASH_ACCESS else 0xFFFF_FFFF
  }

  function Copies(bits: bv32): Quad {
    Quad(bits, bits, bits, bits)
  }

  // ----- reading -----

  /** Each bit as two of the first three copies have it. */
  function Majority(q: Quad): bv32 {
    Vote(q.w0, q.w1, q.w2)
  }

  function Vote(a: bv32, b: bv32, c: bv32): bv32 {
    (a & b) | (a & c) | (b & c)
  }

  function BitCount(bits: bv32): nat {
    (if bits & 1 != 0 then 1 else 0) + (if bits & 2 != 0 then 1 else 0)
    + (if bits & 4 != 0 then 1 else 0) + (if bits & 8 != 0 then 1 else 0)
  }

  function JtagOf(access: bv32, customer: bv32): Jtag {
    if BitCount(access) <= 2 then (if customer & 1 == 0 then JtagDisable else JtagDisableFlash)
    else if customer & 1 == 0 then JtagDisableCpu else JtagEnable
  }

  function VboOf(customer: bv32): Brownout {
    var code := ((customer & 0xE) >> 1) ^ 6;
    if code == 0 then Vbo195
    else if code == 1 then Vbo200
    else if code == 2 then Vbo210
    else if code == 3 then Vbo220
    else if code == 4 then Vbo230
    else if code == 5 then Vbo240
    else if code == 6 then Vbo270
    else Vbo300
  }

  function CrpOf(customer: bv32): CodeProtection {
    var code := (customer & 0x30) >> 4;
    if code == 1 then CrpLevel1 else if code == 3 then CrpLevel0 else CrpLevel2
  }

  function Decoded(access: bv32, customer: bv32): Config {
    Config(JtagOf(access, customer), VboOf(customer), CrpOf(customer),
           if customer & 0x40 != 0 then EncryptedFalse else EncryptedTrue,
           if customer & 0x80 != 0 then LoadEnable else LoadDisable)
  }

  // ----- what is read is what was set -----

  /** One of the first three copies may hold anything, and so may the fourth. */
  predicate OneCopyBad(q: Quad, bits: bv32) {
    (q.w0 == q.w1 == bits) || (q.w0 == q.w2 == bits) || (q.w1 == q.w2 == bits)
  }

  lemma OneBadVote(bits: bv32, bad: bv32)
    ensures Vote(bad, bits, bits) == bits
    ensures Vote(bits, bad, bits) == bits
    ensures Vote(bits, bits, bad) == bits
  {
  }

  lemma MajoritySurvives(q: Quad, bits: bv32)
    requires OneCopyBad(q, bits)
    ensures Majority(q) == bits
  {
    OneBadVote(bits, q.w0);
    OneBadVote(bits, q.w1);
    OneBadVote(bits, q.w2);
  }

  /** A vote goes wrong exactly in the bits that two of the copies have wrong. */
  lemma VoteExact(a: bv32, b: bv32, c: bv32, bits: bv32)
    ensures Vote(a, b, c) ^ bits == Vote(a ^ bits, b ^ bits, c ^ bits)
  {
  }

  lemma VboRoundTrip(c: Config)
    ensures VboOf(CustomerBits(c)) == Resolved(c).vbo
  {
  }

  lemma CrpRoundTrip(c: Config)
    ensures CrpOf(CustomerBits(c)) == Resolved(c).crp
  {
  }

  lemma JtagRoundTrip(c: Config)
    ensures JtagOf(AccessBits(c), CustomerBits(c)) == Resolved(c).jtag
  {
  }

  lemma FlashRoundTrip(c: Config)
    ensures CustomerBits(c) & 0x40 != 0 <==> Resolved(c).encrypted.EncryptedFalse?
    ensures CustomerBits(c) & 0x80 != 0 <==> Resolved(c).load.LoadEnable?
  {
  }

  /** The access word, and the customer's word bit by bit: the debug port, the brownout level, code protection, and the
      flash; a bit that is set is a default. */
  lemma CustomerLayout(c: Config)
    ensures AccessBits(c) == if c.jtag in {JtagDisable, JtagDisableFlash} then 0xFFFF_FFF0 else 0xFFFF_FFFF
    ensures var w := CustomerBits(c);
      && w & 0xFFFF_FF00 == 0xFFFF_FF00
      && (w & 0x01 == 0 <==> c.jtag.JtagDisable? || c.jtag.JtagDisableCpu?)
      && (w & 0x0E == match c.vbo
            case VboDefault => 0x0E
            case Vbo195 => 0x0C
            case Vbo200 => 0x0E
            case Vbo210 => 0x08
            case Vbo220 => 0x0A
            case Vbo230 => 0x04
            case Vbo240 => 0x06
            case Vbo270 => 0x00
            case Vbo300 => 0x02)
      && (w & 0x30 == if c.crp.CrpLevel1? then 0x10 else if c.crp.CrpLevel2? then 0x20 else 0x30)
      && (w & 0x40 == 0 <==> c.encrypted.EncryptedTrue?)
      && (w & 0x80 == 0 <==> c.load.LoadDisable?)
  {
  }

  /** What is read of any two words: flash access is taken away if at most two of the four bits of the
      access word are set, and code protection bits that are both clear mean the highest level. */
  lemma WordsRead(access: bv32, customer: bv32)
    ensures var c := Decoded(access, customer);
      && (c.jtag in {JtagDisable, JtagDisableFlash} <==> access & 0xF in {0, 1, 2, 4, 8, 3, 5, 6, 9, 10, 12})
      && (c.jtag in {JtagDisable, JtagDisableCpu} <==> customer & 0x01 == 0)
      && (c.crp.CrpLevel0? <==> customer & 0x30 == 0x30) && (c.crp.CrpLevel1? <==> customer & 0x30 == 0x10)
      && (c.crp.CrpLevel2? <==> customer & 0x30 in {0x00, 0x20})
      && (c.encrypted.EncryptedTrue? <==> customer & 0x40 == 0) && (c.load.LoadDisable? <==> customer & 0x80 == 0)
  {
  }

  /** Settings survive writing and reading, even with a bad copy in each word. */
  lemma ConfigSurvives(c: Config, access: Quad, customer: Quad)
    requires OneCopyBad(access, AccessBits(c)) && OneCopyBad(customer, CustomerBits(c))
    ensures Decoded(Majority(access), Majority(customer)) == Resolved(c)
  {
    MajoritySurvives(access, AccessBits(c));
    MajoritySurvives(customer, CustomerBits(c));
    VboRoundTrip(c);
    CrpRoundTrip(c);
    JtagRoundTrip(c);
    FlashRoundTrip(c);
  }
}
