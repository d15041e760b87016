/** A JN51xx chip as the programmer sees it through the boot loader: flash, RAM, and what it
    was told to run. A script says what becomes of each request. */
module Chip {
  import opened PowerOfTwo
  import opened Frames
  import opened Uart
  import Scripts
  import opened BootLoader
  import opened Commands

  /** Carried out and acknowledged; acknowledged though a write went wrong, leaving other
      bytes: anywhere in the flash, or where they were to go in RAM; refused; or carried out
      while the reply got lost. */
  datatype Answer = Done | Faulty(memory: seq<Octet>) | Refused(code: Octet) | Lost

  /** No write goes wrong unnoticed. */
  predicate Faithful(answers: seq<Answer>) {
    forall i :: 0 <= i < |answers| ==> !answers[i].Faulty?
  }

  /** What the chip runs from: the entry point and the RAM at the time. */
  datatype Run = Run(entry: Address, ram: seq<Octet>)

  datatype Span = Span(address: nat, length: nat)

  /** x & y */
  function AndBits(x: nat, y: nat): (r: nat)
    ensures r <= y
  {
    if x == 0 || y == 0 then 0
    else 2 * AndBits(x / 2, y / 2) + if x % 2 == 1 && y % 2 == 1 then 1 else 0
  }

  lemma {:induction false} AndOnes(x: nat, k: nat)
    requires x < Power(k)
    ensures AndBits(Power(k) - 1, x) == x
  {
    if x > 0 {
      AndOnes(x / 2, k - 1);
    }
  }

  /** Programming flash only clears bits. */
  function Burn(before: Octet, data: Octet): Octet {
    AndBits(before, data)
  }

  lemma BurnBlank(b: Octet)
    ensures Burn(0xFF, b) == b
  {
    assert Power(8) == 256;
    AndOnes(b, 8);
  }

  function Blank(size: nat): (flash: seq<Octet>)
    ensures |flash| == size && forall i :: 0 <= i < size ==> flash[i] == 0xFF
  {
    seq(size, _ => 0xFF)
  }

  function Burnt(flash: seq<Octet>, address: nat, data: seq<Octet>): (after: seq<Octet>)
    requires address + |data| <= |flash|
    ensures |after| == |flash|
    ensures forall i :: 0 <= i < |flash| ==>
      after[i] == if address <= i < address + |data| then Burn(flash[i], data[i - address]) else flash[i]
  {
    seq(|flash|, i requires 0 <= i < |flash| =>
      if address <= i < address + |data| then Burn(flash[i], data[i - address]) else flash[i])
  }

  function Stored(ram: seq<Octet>, address: nat, data: seq<Octet>): (after: seq<Octet>)
    requires address + |data| <= |ram|
    ensures |after| == |ram|
  {
    ram[..address] + data + ram[address + |data|..]
  }

  function Current(answers: seq<Answer>): Answer {
    if answers == [] then Done else answers[0]
  }

  /** What is left of some bytes where they were to go. */
  function Landed(answer: Answer, data: seq<Octet>): (bytes: seq<Octet>)
    ensures |bytes| == |data| && (!answer.Faulty? ==> bytes == data)
  {
    if answer.Faulty? && |answer.memory| == |data| then answer.memory else data
  }

  /** What a write makes of the flash. */
  function Written(answer: Answer, before: seq<Octet>, meant: seq<Octet>): (after: seq<Octet>)
    requires |meant| == |before|
    ensures |after| == |before|
  {
    if answer.Faulty? then (if |answer.memory| == |before| then answer.memory else before) else meant
  }

  class Device {
    var flash: seq<Octet>
    var ram: seq<Octet>
    var runs: seq<Run>
    var answers: seq<Answer>
    /** The programming requests it took, and the writes to RAM. */
    var programs: seq<Span>
    var stores: seq<Span>

    predicate InRange(c: Command)
      reads `flash, `ram
    {
      match c
      case FlashProgram(address, data) => address + |data| <= |flash|
      case FlashRead(address, length) => address + length <= |flash|
      case RamWrite(address, data) => address + |data| <= |ram|
      case RamRead(address, length) => address + length <= |ram|
      case _ => true
    }

    /** Whether the chip takes a request. */
    predicate Takes(c: Command)
      reads `flash, `ram, `answers
    {
      c.Sendable() && InRange(c) && !Current(answers).Refused?
    }

    /** Whether a request succeeds as far as the sender can tell. */
    predicate Succeeds(c: Command)
      reads `flash, `ram, `answers
    {
      Takes(c) && !Current(answers).Lost?
    }

    /** The code of a refusal. */
    function Refusal(): Octet
      reads `answers
    {
      if Current(answers).Refused? then Current(answers).code else RESPONSE_WRITE_FAIL
    }

    /** What the sender is told in the end. Of a read it looks at the number of bytes first. */
    function StatusOf(c: Command): (status: Status)
      reads `flash, `ram, `answers
      ensures status == Ok <==> Succeeds(c)
    {
      if c.Length() > 0xfc then BadParameter
      else if !c.Sendable() then CommsFailed
      else if c.Reads() && c.Length() > 0 && !Succeeds(c) then ErrorReading
      else if !Takes(c) then CheckResponse(Refusal(), 0, c.Kind() + 1)
      else if !Succeeds(c) then CommsFailed
      else Ok
    }

    /** What a request makes of the flash. */
    function FlashAfter(c: Command): (after: seq<Octet>)
      requires InRange(c)
      reads `flash, `ram, `answers
      ensures |after| == |flash|
    {
      match c
      case FlashErase => Written(Current(answers), flash, Blank(|flash|))
      case FlashProgram(address, data) => Written(Current(answers), flash, Burnt(flash, address, data))
      case _ => flash
    }

    function RamAfter(c: Command): (after: seq<Octet>)
      requires InRange(c)
      reads `flash, `ram, `answers
      ensures |after| == |ram|
    {
      match c
      case RamWrite(address, data) => Stored(ram, address, Landed(Current(answers), data))
      case _ => ram
    }

    /** What a request comes to: the chip afterwards, and what was read from it before. */
    twostate predicate Effect(c: Command, data: seq<Octet>)
      reads this
    {
      && (c.FlashRead? && old(Succeeds(c)) ==> data == old(flash[c.address..c.address + c.length]))
      && (c.RamRead? && old(Succeeds(c)) ==> data == old(ram[c.address..c.address + c.length]))
      && flash == old(if Takes(c) then FlashAfter(c) else flash)
      && ram == old(if Takes(c) then RamAfter(c) else ram)
      && runs == (if c.RamRun? && old(Takes(c)) then old(runs) + [Run(c.address, ram)] else old(runs))
      && programs == (if c.FlashProgram? && old(Takes(c)) then old(programs) + [Span(c.address, |c.data|)]
           else old(programs))
      && stores == (if c.RamWrite? && old(Takes(c)) then old(stores) + [Span(c.address, |c.data|)] else old(stores))
      && answers == if c.Sendable() then Scripts.Next(old(answers)) else old(answers)
    }

    /** The chip's part of a request: carries the command out, or refuses it, and says how; no
        reply if that gets lost. Only what was carried out is answered in the request's own kind. */
    method Serve(c: Command) returns (answered: bool, kind: Octet, code: Octet, data: seq<Octet>)
      requires c.Sendable()
      modifies `flash, `ram, `runs, `answers, `programs, `stores
      ensures answered <==> !old(Takes(c)) || old(Succeeds(c))
      ensures old(Takes(c)) ==> kind == c.Kind() + 1 && code == RESPONSE_OK
      ensures !old(Takes(c)) ==> kind == 0 && code == old(Refusal())
      ensures |data| == if c.Reads() && old(Takes(c)) then c.Length() else 0
      ensures Effect(c, data)
    {
      data := [];
      var answer := Current(answers);
      answers := Scripts.Next(answers);
      if answer.Refused? || !InRange(c) {
        return true, 0, if answer.Refused? then answer.code else RESPONSE_WRITE_FAIL, data;
      }
      match c {
        case FlashErase =>
          flash := Written(answer, flash, Blank(|flash|));
        case FlashProgram(address, bytes) =>
          flash := Written(answer, flash, Burnt(flash, address, bytes));
          programs := programs + [Span(address, |bytes|)];
        case FlashRead(address, length) =>
          data := flash[address..address + length];
        case RamWrite(address, bytes) =>
          ram := Stored(ram, address, Landed(answer, bytes));
          stores := stores + [Span(address, |bytes|)];
        case RamRead(address, length) =>
          data := ram[address..address + length];
        case RamRun(address) =>
          runs := runs + [Run(address, ram)];
      }
      answered, kind, code := !answer.Lost?, c.Kind() + 1, RESPONSE_OK;
    }

    /** A request and the check of its response, with nothing lost on the way. */
    method Request(c: Command) returns (status: Status, data: seq<Octet>)
      modifies `flash, `ram, `runs, `answers, `programs, `stores
      ensures status == old(StatusOf(c))
      ensures Effect(c, data)
    {
      data := [];
      if c.Length() > 0xfc {
        return BadParameter, [];
      }
      if !c.Sendable() {
        return CommsFailed, [];
      }
      var answered, kind, code;
      answered, kind, code, data := Serve(c);
      data := if answered then data else [];
      if c.Reads() && |data| != c.Length() {
        status := ErrorReading;
      } else {
        status := if answered then CheckResponse(code, kind, c.Kind() + 1) else CommsFailed;
      }
    }
  }
}
