/** The two ends of the line together: a command goes out as a frame, the chip takes it from the
    line, carries it out and answers in a frame, and the answer comes back in pieces. */
module Session {
  import opened Frames
  import opened Uart
  import opened BootLoader
  import opened Commands
  import opened Chip
  import Scripts

  /** The chip's end: it understands the frame, serves the command and frames its answer. */
  method Answer(line: Line, chip: Device, frame: seq<Octet>, ghost c: Command)
      returns (answered: bool, ghost kind: Octet, ghost code: Octet, ghost data: seq<Octet>)
    requires c.Sendable() && frame == Frame(c.Kind(), c.Header(), c.Data()) && line.incoming == []
    modifies line`incoming, chip
    ensures answered <==> !old(chip.Takes(c)) || old(chip.Succeeds(c))
    ensures old(chip.Takes(c)) ==> kind == c.Kind() + 1 && code == RESPONSE_OK
    ensures !old(chip.Takes(c)) ==> kind == 0 && code == old(chip.Refusal())
    ensures |data| == if c.Reads() && old(chip.Takes(c)) then c.Length() else 0
    ensures line.incoming == if answered then Frame(kind, [code], data) else []
    ensures chip.Effect(c, data)
  {
    UnderstoodAsMeant(c);
    var k, r, bytes;
    answered, k, r, bytes := chip.Serve(Understood(frame[1], frame[2..|frame| - 1]));
    if answered {
      line.incoming := Frame(k, [r], bytes);
    }
    kind, code, data := k, r, bytes;
  }

  lemma SteadyFor(arrivals: seq<ReadEvent>, count: nat, n: nat)
    requires Steady(arrivals, count) && n <= count
    ensures Steady(arrivals, n)
  {
  }

  /** What the sender reads of an answer that is on the line, or not. */
  method ReadAnswer(line: Line, ghost answered: bool, ghost kind: Octet, ghost code: Octet, ghost data: seq<Octet>)
      returns (reply: Reply)
    requires |data| <= 0xfc && line.incoming == if answered then Frame(kind, [code], data) else []
    requires Steady(line.arrivals, 256)
    modifies line`incoming, line`arrivals
    ensures reply == if answered then Message(kind, code, data) else NoResponse
    ensures line.incoming == []
  {
    SteadyFor(line.arrivals, 256, |data| + 4);
    if answered {
      Delivered(kind, code, data, [], line.arrivals);
      assert Frame(kind, [code], data) + [] == Frame(kind, [code], data);
    }
    reply := ReadMessage(line);
  }

  /** A command that is sent over a line that is not broken, however it fragments what goes out and
      comes in, has the effect a request to the chip itself has, and the same status. */
  method SendCommand(line: Line, chip: Device, c: Command) returns (status: Status, data: seq<Octet>)
    requires Broken !in line.departures && line.incoming == [] && Steady(line.arrivals, 256)
    modifies line, chip
    ensures status == old(chip.StatusOf(c))
    ensures chip.Effect(c, data)
    ensures line.incoming == []
    ensures line.written == old(line.written) + if c.Sendable() then Frame(c.Kind(), c.Header(), c.Data()) else []
  {
    data := [];
    if c.Length() > 0xfc {
      return BadParameter, [];
    }
    AllSent(|c.Header()| + |c.Data()| + 3, line.departures);
    var before := |line.written|;
    status := WriteMessage(line, c.Kind(), c.Header(), c.Data());
    if status != Ok {
      return CommsFailed, [];
    }
    var frame := line.written[before..];
    var there;
    ghost var kind, code, bytes;
    there, kind, code, bytes := Answer(line, chip, frame, c);
    var reply := ReadAnswer(line, there, kind, code, bytes);
    data := if reply.Message? then reply.data else [];
    if c.Reads() && |data| != c.Length() {
      status := ErrorReading;
    } else {
      status := Outcome(true, reply, c.Kind() + 1);
    }
  }
}
