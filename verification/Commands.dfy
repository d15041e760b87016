/** The requests of the flash and RAM loaders: how each is put into a frame, and that a device
    can tell from the frame what was asked. */
module Commands {
  import opened Frames
  import opened Uart
  import opened BootLoader

  /** A 32-bit address. */
  type Address = n: int | 0 <= n < 0x1_0000_0000

  /** A sum in 32 bits. */
  function Wrapped(n: nat): Address {
    n % 0x1_0000_0000
  }

  datatype Command =
    | FlashErase
    | FlashProgram(address: Address, data: seq<Octet>)
    | FlashRead(address: Address, length: Octet)
    | RamWrite(address: Address, data: seq<Octet>)
    | RamRead(address: Address, length: Octet)
    | RamRun(address: Address)
  {
    /** Whether bytes are asked for. */
    predicate Reads() {
      FlashRead? || RamRead?
    }

    function Kind(): Octet {
      match this
      case FlashErase => 0x07
      case FlashProgram(_, _) => 0x09
      case FlashRead(_, _) => 0x0b
      case RamWrite(_, _) => 0x1d
      case RamRead(_, _) => 0x1f
      case RamRun(_) => 0x21
    }

    function Header(): seq<Octet> {
      match this
      case FlashErase => []
      case FlashProgram(address, _) => AddressBytes(address)
      case FlashRead(address, length) => AddressBytes(address) + [length, 0]
      case RamWrite(address, _) => AddressBytes(address)
      case RamRead(address, length) => AddressBytes(address) + [length, 0]
      case RamRun(address) => AddressBytes(address)
    }

    function Data(): seq<Octet> {
      match this
      case FlashProgram(_, data) => data
      case RamWrite(_, data) => data
      case _ => []
    }

    /** The length check in front of every request, and the limit of the frame behind it. */
    predicate Sendable() {
      Length() <= 0xfc && Framable(Header(), Data())
    }

    function Length(): nat {
      match this
      case FlashProgram(_, data) => |data|
      case FlashRead(_, length) => length
      case RamWrite(_, data) => |data|
      case RamRead(_, length) => length
      case _ => 0
    }
  }

  /** Lowest byte first. */
  function AddressBytes(address: Address): (bytes: seq<Octet>)
    ensures |bytes| == 4
  {
    [address % 256, address / 0x100 % 256, address / 0x1_0000 % 256, address / 0x100_0000 % 256]
  }

  function AddressOf(bytes: seq<Octet>): Address
    requires |bytes| >= 4
  {
    bytes[0] as int + bytes[1] as int * 0x100 + bytes[2] as int * 0x1_0000 + bytes[3] as int * 0x100_0000
  }

  lemma AddressOfBytes(address: Address, more: seq<Octet>)
    ensures AddressOf(AddressBytes(address) + more) == address
    ensures (AddressBytes(address) + more)[4..] == more
  {
    FourDigits(address);
    var bytes := AddressBytes(address) + more;
    assert forall i :: 0 <= i < 4 ==> bytes[i] == AddressBytes(address)[i];
  }

  lemma FourDigits(n: Address)
    ensures n % 256 + n / 0x100 % 256 * 0x100 + n / 0x1_0000 % 256 * 0x1_0000 + n / 0x100_0000 % 256 * 0x100_0000 == n
  {
    var (a1, a2, a3) := (n / 0x100, n / 0x1_0000, n / 0x100_0000);
    assert n == 0x100 * a1 + n % 256 && a1 == 0x100 * a2 + a1 % 256 && a2 == 0x100 * a3 + a2 % 256;
  }

  /** What a device makes of a frame it received; the body is what stands between the message
      type and the checksum. */
  function Understood(kind: Octet, body: seq<Octet>): Command
    requires kind in {0x07, 0x09, 0x0b, 0x1d, 0x1f, 0x21}
    requires kind != 0x07 ==> |body| >= 4
    requires kind == 0x0b || kind == 0x1f ==> |body| >= 5
  {
    if kind == 0x07 then FlashErase
    else
      var address := AddressOf(body);
      if kind == 0x09 then FlashProgram(address, body[4..])
      else if kind == 0x0b then FlashRead(address, body[4])
      else if kind == 0x1d then RamWrite(address, body[4..])
      else if kind == 0x1f then RamRead(address, body[4])
      else RamRun(address)
  }

  /** Every request that can be sent is understood as it was meant. */
  lemma UnderstoodAsMeant(c: Command)
    requires c.Sendable()
    ensures var frame := Frame(c.Kind(), c.Header(), c.Data());
            var body := frame[2..|frame| - 1];
            (c.FlashErase? || |body| >= 4) && (c.FlashRead? || c.RamRead? ==> |body| >= 5)
            && frame[1] == c.Kind() && Understood(c.Kind(), body) == c
  {
    var frame := Frame(c.Kind(), c.Header(), c.Data());
    assert frame[2..|frame| - 1] == c.Header() + c.Data();
    match c
    case FlashErase =>
    case FlashProgram(address, data) => AddressOfBytes(address, data);
    case FlashRead(address, length) =>
      AddressOfBytes(address, [length, 0]);
      assert c.Header() + c.Data() == AddressBytes(address) + [length, 0];
    case RamWrite(address, data) => AddressOfBytes(address, data);
    case RamRead(address, length) =>
      AddressOfBytes(address, [length, 0]);
      assert c.Header() + c.Data() == AddressBytes(address) + [length, 0];
    case RamRun(address) =>
      AddressOfBytes(address, []);
      assert c.Header() + c.Data() == AddressBytes(address) + [];
  }

  /** The bytes of every request that can be sent, between the length byte and the checksum: the
      message type, the address lowest byte first, and the data or the length asked for. */
  lemma OnTheLine(c: Command)
    requires c.Sendable()
    ensures var f := Frame(c.Kind(), c.Header(), c.Data());
            match c
            case FlashErase => |f| == 3 && f[1] == 0x07
            case FlashProgram(address, data) => Writes(f, 0x09, address, data)
            case FlashRead(address, length) => Asks(f, 0x0b, address, length)
            case RamWrite(address, data) => Writes(f, 0x1d, address, data)
            case RamRead(address, length) => Asks(f, 0x1f, address, length)
            case RamRun(address) => |f| == 7 && f[1] == 0x21 && At(f, address)
  {
    var (f, body) := (Frame(c.Kind(), c.Header(), c.Data()), c.Header() + c.Data());
    assert f[2..|f| - 1] == body;
    assert forall i :: 0 <= i < |body| ==> f[2 + i] == body[i];
    match c
    case FlashErase =>
    case FlashProgram(address, data) =>
      FourDigits(address);
      assert f[6..|f| - 1] == data;
    case FlashRead(address, _) => FourDigits(address);
    case RamWrite(address, data) =>
      FourDigits(address);
      assert f[6..|f| - 1] == data;
    case RamRead(address, _) => FourDigits(address);
    case RamRun(address) => FourDigits(address);
  }

  /** The four bytes behind the message type are an address. */
  predicate At(f: seq<Octet>, address: nat)
    requires |f| >= 6
  {
    f[2] as int + 0x100 * f[3] as int + 0x1_0000 * f[4] as int + 0x100_0000 * f[5] as int == address
  }

  predicate Writes(f: seq<Octet>, kind: Octet, address: nat, data: seq<Octet>) {
    |f| == |data| + 7 && f[1] == kind && At(f, address) && f[6..|f| - 1] == data
  }

  predicate Asks(f: seq<Octet>, kind: Octet, address: nat, length: nat) {
    |f| == 9 && f[1] == kind && At(f, address) && f[6] as int + 0x100 * f[7] as int == length
  }

  /** A read may ask for up to 252 bytes. Of writes, the length check lets through three lengths
      that the frame then refuses. */
  lemma WriteLimit(address: Address, data: seq<Octet>, length: Octet)
    ensures FlashRead(address, length).Sendable() <==> length <= 252
    ensures RamRead(address, length).Sendable() <==> length <= 252
    ensures FlashProgram(address, data).Sendable() <==> |data| <= 249
    ensures RamWrite(address, data).Sendable() <==> |data| <= 249
  {
  }
}
