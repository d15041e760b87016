/** Requests to the boot loader and its responses, over a line that fragments them. */
module BootLoader {
  import opened Frames
  import opened Scripts
  import opened Uart

  const RESPONSE_OK: Octet := 0x00
  const RESPONSE_NOT_SUPPORTED: Octet := 0xff
  const RESPONSE_WRITE_FAIL: Octet := 0xfe
  const RESPONSE_CRC_ERROR: Octet := 0xfc
  const RESPONSE_READ_FAIL: Octet := 0xf9
  const RESPONSE_NO_RESPONSE: Octet := 0xf6
  const RESPONSE_ERROR: Octet := 0xf0

  const MAX_MESSAGE_LENGTH := 255

  /** What a read of a message makes of the line. */
  datatype Reply = NoResponse | CrcError | Message(kind: Octet, response: Octet, data: seq<Octet>)

  // ----- writing -----

  method CheckSum(msg: array<Octet>, length: nat) returns (sum: Octet)
    requires length <= msg.Length
    ensures sum == Xor(msg[..length])
  {
    sum := 0;
    for n := 0 to length
      invariant sum == Xor(msg[..n])
    {
      sum := Xor2(sum, msg[n]);
      assert msg[..n + 1] == msg[..n] + [msg[n]];
      XorStep(msg[..n], msg[n]);
    }
  }

  /** The frame, in a message buffer. */
  method BuildMessage(msg: array<Octet>, kind: Octet, header: seq<Octet>, data: seq<Octet>)
    requires msg.Length == 256 && Framable(header, data)
    modifies msg
    ensures msg[..|header| + |data| + 3] == Frame(kind, header, data)
  {
    var length := |header| + |data| + 2;
    msg[0], msg[1] := length, kind;
    assert msg[..2] == [length, kind];
    Memcpy(msg, 2, header);
    Memcpy(msg, 2 + |header|, data);
    msg[length] := CheckSum(msg, length);
    assert msg[..length + 1] == msg[..length] + [msg[length]];
  }

  method WriteMessage(line: Line, kind: Octet, header: seq<Octet>, data: seq<Octet>) returns (status: Status)
    modifies line`written, line`departures
    ensures !Framable(header, data) ==> status == BadParameter && line.written == old(line.written)
    ensures Framable(header, data) ==>
      var frame := Frame(kind, header, data);
      var (ok, count) := old(Sent(|frame|, line.departures));
      status == (if ok then Ok else ErrorWriting) && line.written == old(line.written) + frame[..count]
  {
    if |header| + |data| >= 0xfe {
      status := BadParameter;
    } else {
      var msg := new Octet[256];
      BuildMessage(msg, kind, header, data);
      status := line.Write(msg, |header| + |data| + 3);
      ghost var (frame, count) := (Frame(kind, header, data), Sent(|header| + |data| + 3, old(line.departures)).1);
      assert msg[..count] == msg[..|frame|][..count];
    }
  }

  // ----- reading -----

  /** What the reading loop collects: whether no read failed, how many bytes, and the events
      left. A read that brings nothing is repeated while fewer than ten were made. */
  function Collect(incoming: seq<Octet>, arrivals: seq<ReadEvent>, want: nat, attempts: nat)
      : (r: (bool, nat, seq<ReadEvent>))
    ensures r.1 <= want && r.1 <= |incoming|
    decreases want, if attempts < 10 then 10 - attempts else 0
  {
    if ReadFails(arrivals) then (false, 0, Next(arrivals))
    else
      var count := Arriving(incoming, arrivals, want);
      if count < want && (count > 0 || attempts + 1 < 10) then
        Later(count, Collect(incoming[count..], Next(arrivals), want - count, attempts + 1))
      else (true, count, Next(arrivals))
  }

  /** What is made of the bytes behind the length byte. */
  function Interpret(length: Octet, rest: seq<Octet>): Reply
    requires |rest| >= 3
  {
    if Xor2(length, Xor(rest)) != 0 then CrcError else Message(rest[0], rest[1], rest[2..|rest| - 1])
  }

  /** Messages have at least three bytes behind the length byte. */
  predicate LengthArrives(incoming: seq<Octet>, arrivals: seq<ReadEvent>) {
    !ReadFails(arrivals) && Arriving(incoming, arrivals, 1) == 1 && incoming[0] >= 3
  }

  /** The reply a read of a message yields, the bytes it takes off the line and the events left. */
  function Received(incoming: seq<Octet>, arrivals: seq<ReadEvent>): (r: (Reply, nat, seq<ReadEvent>))
    ensures r.1 <= |incoming|
  {
    var count := Arriving(incoming, arrivals, 1);
    var left := Next(arrivals);
    if !LengthArrives(incoming, arrivals) then (NoResponse, count, left)
    else
      var length: nat := incoming[0];
      var (ok, total, left') := Collect(incoming[1..], left, length, 0);
      if !ok || total != length then (NoResponse, 1 + total, left')
      else (Interpret(incoming[0], incoming[1..1 + length]), 1 + length, left')
  }

  lemma Taken(s: seq<Octet>, i: nat, n: nat)
    requires i + n <= |s|
    ensures s[..i] + s[i..][..n] == s[..i + n] && s[i..][n..] == s[i + n..]
  {
  }

  /** What was taken off the line stands in the buffer. */
  ghost predicate Underway(line: Line, msg: array<Octet>, length: nat, incoming: seq<Octet>, total: nat)
    reads line`incoming, msg
  {
    && total <= length <= msg.Length && total <= |incoming|
    && line.incoming == incoming[total..] && msg[..total] == incoming[..total]
  }

  /** Whether the loop goes on after a read. */
  predicate Again(status: Status, left: nat, bytesRead: nat, attempts: nat) {
    status == Ok && bytesRead < left && (bytesRead > 0 || attempts + 1 < 10)
  }

  /** What the loop is to come to, from where it stands. */
  ghost predicate Expects(line: Line, result: (bool, nat, seq<ReadEvent>), total: nat, left: nat, attempts: nat)
    reads line`incoming, line`arrivals
  {
    result == Later(total, Collect(line.incoming, line.arrivals, left, attempts))
  }

  lemma NextExpects(line: Line, result: (bool, nat, seq<ReadEvent>), total: nat, left: nat, attempts: nat,
                    before: seq<Octet>, events: seq<ReadEvent>, status: Status, bytesRead: nat)
    requires result == Later(total, Collect(before, events, left, attempts))
    requires bytesRead == Arriving(before, events, left) && status == if ReadFails(events) then Error else Ok
    requires line.incoming == before[bytesRead..] && line.arrivals == Next(events)
    ensures if Again(status, left, bytesRead, attempts)
            then Expects(line, result, total + bytesRead, left - bytesRead, attempts + 1)
            else result == (status == Ok, total + bytesRead, line.arrivals)
  {
    CollectStep(before, events, left, attempts);
    if Again(status, left, bytesRead, attempts) {
      LaterLater(total, bytesRead, Collect(line.incoming, line.arrivals, left - bytesRead, attempts + 1));
    }
  }

  /** One turn of the loop: a read, and whether there is to be another. */
  method ReadOnce(line: Line, msg: array<Octet>, length: nat, total: nat, attempts: nat,
                  ghost incoming: seq<Octet>, ghost result: (bool, nat, seq<ReadEvent>))
      returns (status: Status, bytesRead: nat, again: bool)
    requires Underway(line, msg, length, incoming, total) && total < length
    requires Expects(line, result, total, length - total, attempts)
    modifies line`incoming, line`arrivals, msg
    ensures Underway(line, msg, length, incoming, total + bytesRead) && status in {Ok, Error}
    ensures again <==> Again(status, length - total, bytesRead, attempts)
    ensures again ==> Expects(line, result, total + bytesRead, length - (total + bytesRead), attempts + 1)
    ensures !again ==> result == (status == Ok, total + bytesRead, line.arrivals)
  {
    ghost var (before, events) := (line.incoming, line.arrivals);
    status, bytesRead := line.Read(length - total, msg, total);
    again := Again(status, length - total, bytesRead, attempts);
    Taken(incoming, total, bytesRead);
    NextExpects(line, result, total, length - total, attempts, before, events, status, bytesRead);
    assert length - total - bytesRead == length - (total + bytesRead);
  }

  lemma CollectStep(incoming: seq<Octet>, arrivals: seq<ReadEvent>, want: nat, attempts: nat)
    ensures var count := Arriving(incoming, arrivals, want);
            var again := !ReadFails(arrivals) && count < want && (count > 0 || attempts + 1 < 10);
            Collect(incoming, arrivals, want, attempts) ==
              if again then Later(count, Collect(incoming[count..], Next(arrivals), want - count, attempts + 1))
              else (!ReadFails(arrivals), count, Next(arrivals))
  {
  }

  function Later(count: nat, r: (bool, nat, seq<ReadEvent>)): (bool, nat, seq<ReadEvent>) {
    (r.0, count + r.1, r.2)
  }

  lemma LaterLater(m: nat, n: nat, r: (bool, nat, seq<ReadEvent>))
    ensures Later(m, Later(n, r)) == Later(m + n, r)
  {
  }

  /** The do-while loop that reads the rest of a message. It ends whatever the line does. */
  method ReadRest(line: Line, msg: array<Octet>, length: nat) returns (status: Status, total: nat)
    requires 0 < length <= msg.Length
    modifies line`incoming, line`arrivals, msg
    ensures var (ok, count, left) := old(Collect(line.incoming, line.arrivals, length, 0));
            status == (if ok then Ok else Error) && total == count
            && line.incoming == old(line.incoming)[count..] && line.arrivals == left
            && msg[..count] == old(line.incoming)[..count]
  {
    var attempts: nat, again := 0, true;
    status, total := Ok, 0;
    ghost var (incoming, result) := (line.incoming, Collect(line.incoming, line.arrivals, length, 0));
    while again
      invariant Underway(line, msg, length, incoming, total)
      invariant again ==> total < length && Expects(line, result, total, length - total, attempts)
      invariant !again ==> result == (status == Ok, total, line.arrivals) && status in {Ok, Error}
      decreases again, length - total, if attempts < 10 then 10 - attempts else 0
    {
      var bytesRead;
      status, bytesRead, again := ReadOnce(line, msg, length, total, attempts, incoming, result);
      total, attempts := total + bytesRead, attempts + 1;
    }
  }

  /** Reads the length byte. */
  method ReadLength(line: Line) returns (ok: bool, length: Octet)
    modifies line`incoming, line`arrivals
    ensures ok <==> old(LengthArrives(line.incoming, line.arrivals))
    ensures ok ==> length == old(line.incoming)[0]
    ensures line.incoming == old(line.incoming)[old(Arriving(line.incoming, line.arrivals, 1))..]
    ensures line.arrivals == old(Next(line.arrivals))
  {
    var buffer := new Octet[1];
    var status, bytesRead := line.Read(1, buffer, 0);
    assert bytesRead == 1 ==> buffer[..1][0] == old(line.incoming)[0];
    length := buffer[0];
    ok := status == Ok && bytesRead == 1 && length >= 3;
  }

  method ReadMessage(line: Line) returns (reply: Reply)
    modifies line`incoming, line`arrivals
    ensures var (expected, count, left) := old(Received(line.incoming, line.arrivals));
            reply == expected && line.incoming == old(line.incoming)[count..] && line.arrivals == left
  {
    ghost var incoming := line.incoming;
    var ok, first := ReadLength(line);
    reply := NoResponse;
    if ok {
      var length: nat := first;
      var msg := new Octet[MAX_MESSAGE_LENGTH];
      var status, total := ReadRest(line, msg, length);
      if status == Ok && total == length {
        assert incoming[1..][..length] == incoming[1..1 + length];
        reply := Checked(first, msg, length);
      }
    }
  }

  /** The checksum test, and what a message that passes it says. */
  method Checked(first: Octet, msg: array<Octet>, length: nat) returns (reply: Reply)
    requires 3 <= length <= msg.Length
    ensures reply == Interpret(first, msg[..length])
  {
    var sum := CheckSum(msg, length);
    if Xor2(first, sum) != 0 {
      reply := CrcError;
    } else {
      assert msg[..length][2..length - 1] == msg[2..length - 1];
      reply := Message(msg[0], msg[1], msg[2..length - 1]);
    }
  }

  // ----- what fragmentation cannot change -----

  /** Every read that the script announces brings something, and there are enough of them. */
  predicate Steady(arrivals: seq<ReadEvent>, count: nat) {
    |arrivals| >= count && forall i :: 0 <= i < count ==> arrivals[i].Ready? && arrivals[i].n >= 1
  }

  lemma {:induction false} CollectAll(incoming: seq<Octet>, arrivals: seq<ReadEvent>, want: nat, attempts: nat)
    requires 0 < want <= |incoming| && Steady(arrivals, want)
    ensures Collect(incoming, arrivals, want, attempts).0 && Collect(incoming, arrivals, want, attempts).1 == want
    decreases want
  {
    var count := Arriving(incoming, arrivals, want);
    if count < want {
      CollectAll(incoming[count..], Next(arrivals), want - count, attempts + 1);
    }
  }

  /** Whatever short reads cut it into, a frame is received as what went into it, and nothing
      behind it is touched. */
  lemma Delivered(kind: Octet, response: Octet, data: seq<Octet>, rest: seq<Octet>, arrivals: seq<ReadEvent>)
    requires Framable([response], data) && Steady(arrivals, |data| + 4)
    ensures var frame := Frame(kind, [response], data);
            var (reply, count, _) := Received(frame + rest, arrivals);
            reply == Message(kind, response, data) && count == |frame|
  {
    var frame := Frame(kind, [response], data);
    FrameWellFormed(kind, [response], data);
    ReceivedFrame(frame, rest, arrivals);
    assert frame[1..][2..|frame| - 2] == frame[3..|frame| - 1] == data;
  }

  /** A single changed byte behind the length byte is always noticed. */
  lemma Noticed(kind: Octet, response: Octet, data: seq<Octet>, rest: seq<Octet>,
                arrivals: seq<ReadEvent>, i: nat, b: Octet)
    requires Framable([response], data) && Steady(arrivals, |data| + 4)
    requires 1 <= i < |data| + 4 && b != Frame(kind, [response], data)[i]
    ensures var frame := Frame(kind, [response], data)[i := b];
            Received(frame + rest, arrivals).0 == CrcError && Received(frame + rest, arrivals).1 == |frame|
  {
    var frame := Frame(kind, [response], data);
    FrameWellFormed(kind, [response], data);
    ChangedByte(frame, i, b);
    ReceivedFrame(frame[i := b], rest, arrivals);
  }

  lemma ReceivedFrame(frame: seq<Octet>, rest: seq<Octet>, arrivals: seq<ReadEvent>)
    requires |frame| >= 4 && frame[0] == |frame| - 1 && Steady(arrivals, |frame|)
    ensures Received(frame + rest, arrivals).1 == |frame|
    ensures Received(frame + rest, arrivals).0
         == if Xor(frame) == 0 then Message(frame[1], frame[2], frame[1..][2..|frame| - 2]) else CrcError
  {
    FrameTaken(frame, rest, arrivals);
    InterpretFrame(frame);
  }

  lemma FrameTaken(frame: seq<Octet>, rest: seq<Octet>, arrivals: seq<ReadEvent>)
    requires |frame| >= 4 && frame[0] == |frame| - 1 && Steady(arrivals, |frame|)
    ensures Received(frame + rest, arrivals).1 == |frame|
    ensures Received(frame + rest, arrivals).0 == Interpret(frame[0], frame[1..])
  {
    var incoming := frame + rest;
    BehindLength(frame, rest);
    LengthThere(incoming, arrivals);
    LaterSteady(arrivals, |frame| - 1);
    CollectAll(incoming[1..], Next(arrivals), |frame| - 1, 0);
    ReceivedWhole(incoming, arrivals);
  }

  lemma LaterSteady(arrivals: seq<ReadEvent>, count: nat)
    requires Steady(arrivals, count + 1)
    ensures Steady(Next(arrivals), count)
  {
  }

  lemma InterpretFrame(frame: seq<Octet>)
    requires |frame| >= 4
    ensures Interpret(frame[0], frame[1..])
         == if Xor(frame) == 0 then Message(frame[1], frame[2], frame[1..][2..|frame| - 2]) else CrcError
  {
    assert Xor(frame) == Xor2(frame[0], Xor(frame[1..]));
  }

  lemma LengthThere(incoming: seq<Octet>, arrivals: seq<ReadEvent>)
    requires incoming != [] && incoming[0] >= 3 && arrivals != [] && arrivals[0].Ready? && arrivals[0].n >= 1
    ensures LengthArrives(incoming, arrivals)
  {
  }

  lemma ReceivedWhole(incoming: seq<Octet>, arrivals: seq<ReadEvent>)
    requires LengthArrives(incoming, arrivals)
    requires Collect(incoming[1..], Next(arrivals), incoming[0], 0).0
    requires Collect(incoming[1..], Next(arrivals), incoming[0], 0).1 == incoming[0]
    ensures Received(incoming, arrivals).1 == 1 + incoming[0] as int <= |incoming|
    ensures Received(incoming, arrivals).0 == Interpret(incoming[0], incoming[1..1 + incoming[0] as int])
  {
  }

  lemma BehindLength(frame: seq<Octet>, rest: seq<Octet>)
    requires |frame| >= 1
    ensures (frame + rest)[0] == frame[0] && (frame + rest)[1..1 + (|frame| - 1)] == frame[1..]
  {
  }

  /** Whatever the line does: a reply other than an error was sent as a frame, which is taken
      off the line whole. */
  lemma NothingInvented(incoming: seq<Octet>, arrivals: seq<ReadEvent>)
    requires Received(incoming, arrivals).0.Message?
    ensures var (reply, count, _) := Received(incoming, arrivals);
            Framable([reply.response], reply.data)
            && incoming[..count] == Frame(reply.kind, [reply.response], reply.data)
  {
    var count := Received(incoming, arrivals).1;
    assert incoming[..count][1..] == incoming[1..count];
    Interpreted(incoming[..count]);
  }

  lemma Interpreted(frame: seq<Octet>)
    requires |frame| >= 4 && frame[0] == |frame| - 1 && Interpret(frame[0], frame[1..]).Message?
    ensures var reply := Interpret(frame[0], frame[1..]);
            Framable([reply.response], reply.data) && frame == Frame(reply.kind, [reply.response], reply.data)
  {
    var reply := Interpret(frame[0], frame[1..]);
    assert frame[2..3] == [reply.response];
    assert frame[3..|frame| - 1] == reply.data;
    WellFormedIsFrame(frame, 1);
  }

  /** A read that brings nothing is repeated, up to the tenth. */
  predicate Empty(arrivals: seq<ReadEvent>, k: nat) {
    k <= |arrivals| && forall i :: 0 <= i < k ==> arrivals[i] == Ready(0)
  }

  lemma {:induction false} EmptyReads(incoming: seq<Octet>, arrivals: seq<ReadEvent>, want: nat, attempts: nat, k: nat)
    requires want > 0 && Empty(arrivals, k) && attempts + k <= 9
    ensures Collect(incoming, arrivals, want, attempts) == Collect(incoming, arrivals[k..], want, attempts + k)
    decreases k
  {
    if k == 0 {
      assert arrivals[0..] == arrivals;
    } else {
      EmptyReads(incoming, arrivals[1..], want, attempts + 1, k - 1);
      CollectStep(incoming, arrivals, want, attempts);
      assert incoming[0..] == incoming && arrivals[1..][k - 1..] == arrivals[k..];
      assert Collect(incoming, arrivals, want, attempts) == Collect(incoming, arrivals[1..], want, attempts + 1);
    }
  }

  /** Ten reads in a row that bring nothing end the message; nine and one that brings the rest do not. */
  lemma TenEmptyReads(incoming: seq<Octet>, arrivals: seq<ReadEvent>, want: nat)
    requires want > 0 && |arrivals| >= 10 && Empty(arrivals, 9)
    ensures arrivals[9] == Ready(0) ==> Collect(incoming, arrivals, want, 0) == (true, 0, arrivals[10..])
    ensures arrivals[9] == Ready(want) && want <= |incoming| ==>
      Collect(incoming, arrivals, want, 0) == (true, want, arrivals[10..])
  {
    EmptyReads(incoming, arrivals, want, 0, 9);
    assert arrivals[9..][1..] == arrivals[10..];
  }

  /** A message that announces less than type, response and checksum is none. */
  lemma TooShort(incoming: seq<Octet>, arrivals: seq<ReadEvent>)
    requires incoming != [] && incoming[0] < 3
    ensures Received(incoming, arrivals).0 == NoResponse
  {
  }

  // ----- requests -----

  /** Only the expected response with a clean code is a success. */
  function CheckResponse(response: Octet, kind: Octet, expected: Octet): (status: Status)
    ensures status == Ok <==> response == 0x00 && kind == expected
    ensures status == UnsupportedOperation <==> response == 0xff
    ensures status == ErrorWriting <==> response == 0xfe
    ensures status == ErrorReading <==> response == 0xf9
    ensures status == CommsFailed <==> response !in {0x00, 0xff, 0xfe, 0xf9} || (response == 0x00 && kind != expected)
  {
    if response == RESPONSE_NOT_SUPPORTED then UnsupportedOperation
    else if response == RESPONSE_WRITE_FAIL then ErrorWriting
    else if response == RESPONSE_READ_FAIL then ErrorReading
    else if response != RESPONSE_OK then CommsFailed
    else if kind != expected then CommsFailed
    else Ok
  }

  /** Sends a request and reads the reply. None if the request could not be sent. */
  method Request(line: Line, kind: Octet, header: seq<Octet>, data: seq<Octet>) returns (sent: bool, reply: Reply)
    modifies line
    ensures sent <==> Framable(header, data) && old(Sent(|header| + |data| + 3, line.departures)).0
    ensures sent ==> line.written == old(line.written) + Frame(kind, header, data)
    ensures sent ==>
      var (expected, count, left) := old(Received(line.incoming, line.arrivals));
      reply == expected && line.incoming == old(line.incoming)[count..] && line.arrivals == left
    ensures !sent ==> line.incoming == old(line.incoming) && line.arrivals == old(line.arrivals)
  {
    sent, reply := false, NoResponse;
    if |data| <= 0xfd {
      var status := WriteMessage(line, kind, header, data);
      sent := status == Ok;
      if sent {
        reply := ReadMessage(line);
      }
    }
  }

  /** What a command makes of its request. Where there is no reply, an error code stands for it. */
  function Outcome(sent: bool, reply: Reply, expected: Octet): (status: Status)
    ensures status == Ok <==> sent && reply.Message? && reply.response == RESPONSE_OK && reply.kind == expected
    ensures !sent || !reply.Message? ==> status == CommsFailed
  {
    if !sent then CheckResponse(RESPONSE_ERROR, 0, expected)
    else match reply
      case NoResponse => CheckResponse(RESPONSE_NO_RESPONSE, 0, expected)
      case CrcError => CheckResponse(RESPONSE_CRC_ERROR, 0, expected)
      case Message(kind, response, _) => CheckResponse(response, kind, expected)
  }

  /** A whole exchange: short writes and short reads come to the request going out as a frame and
      the response coming in as what the other side framed, and the line is left behind it. */
  method Exchange(line: Line, kind: Octet, header: seq<Octet>, data: seq<Octet>, expected: Octet,
                  ghost answer: seq<Octet>, ghost rest: seq<Octet>)
      returns (status: Status, got: seq<Octet>)
    requires Framable(header, data) && Broken !in line.departures
    requires Framable([RESPONSE_OK], answer) && Steady(line.arrivals, |answer| + 4)
    requires line.incoming == Frame(expected, [RESPONSE_OK], answer) + rest
    modifies line
    ensures status == Ok && got == answer && line.incoming == rest
    ensures line.written == old(line.written) + Frame(kind, header, data)
  {
    AllSent(|header| + |data| + 3, line.departures);
    Delivered(expected, RESPONSE_OK, answer, rest, line.arrivals);
    var sent, reply := Request(line, kind, header, data);
    status := Outcome(sent, reply, expected);
    got := if reply.Message? then reply.data else [];
  }
}
