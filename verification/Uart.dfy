/** The serial line. What the operating system does at each call is scripted: an event a call. */
module Uart {
  import opened Frames
  import opened Scripts

  datatype Status =
    | Ok | Error | ErrorWriting | ErrorReading | BadParameter | CommsFailed | UnsupportedOperation
    | UnsupportedChip | Incompatible | ProtectionSet | VerificationFailed | Aborted

  /** select and read: that many bytes are there, none on a time-out; or select fails. */
  datatype ReadEvent = Ready(n: nat) | SelectError

  /** write: that many bytes are taken; or the line is busy; or it is broken. */
  datatype WriteEvent = Took(n: nat) | Again | Broken

  function Min(a: nat, b: nat): nat {
    if a < b then a else b
  }

  /** How many bytes the next read brings. When the script has run out, reads time out. */
  function Arriving(incoming: seq<Octet>, arrivals: seq<ReadEvent>, want: nat): (n: nat)
    ensures n <= want && n <= |incoming|
  {
    if arrivals == [] || arrivals[0].SelectError? then 0 else Min(arrivals[0].n, Min(want, |incoming|))
  }

  predicate ReadFails(arrivals: seq<ReadEvent>) {
    arrivals != [] && arrivals[0].SelectError?
  }

  /** How much of the data gets out before the line breaks, and whether all of it does. When
      the script has run out, writes take everything. */
  function Sent(length: nat, departures: seq<WriteEvent>): (r: (bool, nat))
    ensures r.1 <= length && (r.0 ==> r.1 == length)
    decreases |departures|
  {
    if departures == [] then (true, length)
    else match departures[0]
      case Broken => (false, 0)
      case Again => Sent(length, departures[1..])
      case Took(n) =>
        if n >= length then (true, length)
        else
          var (ok, more) := Sent(length - n, departures[1..]);
          (ok, n + more)
  }

  /** Unless the line breaks, short writes and busy lines delay nothing but the end. */
  lemma {:induction false} AllSent(length: nat, departures: seq<WriteEvent>)
    requires Broken !in departures
    ensures Sent(length, departures) == (true, length)
    decreases |departures|
  {
    if departures != [] {
      assert departures[0] in departures;
      AllSent(length, departures[1..]);
      if departures[0].Took? && departures[0].n < length {
        AllSent(length - departures[0].n, departures[1..]);
      }
    }
  }

  class Line {
    var incoming: seq<Octet>
    var arrivals: seq<ReadEvent>
    var written: seq<Octet>
    var departures: seq<WriteEvent>

    method Read(want: nat, buffer: array<Octet>, at: nat) returns (status: Status, count: nat)
      requires at + want <= buffer.Length
      modifies `incoming, `arrivals, buffer
      ensures count == old(Arriving(incoming, arrivals, want))
      ensures status == if old(ReadFails(arrivals)) then Error else Ok
      ensures incoming == old(incoming[count..]) && arrivals == old(Next(arrivals))
      ensures buffer[..at + count] == old(buffer[..at]) + old(incoming[..count])
    {
      status, count := Ok, 0;
      if ReadFails(arrivals) {
        status := Error;
      } else {
        count := Arriving(incoming, arrivals, want);
        var i := 0;
        while i < count
          invariant i <= count && buffer[..at + i] == old(buffer[..at]) + incoming[..i]
          modifies buffer
        {
          buffer[at + i] := incoming[i];
          i := i + 1;
        }
        incoming := incoming[count..];
      }
      arrivals := Next(arrivals);
    }

    /** The loop over short writes. */
    method Write(data: array<Octet>, length: nat) returns (status: Status)
      requires 0 < length <= data.Length
      modifies `written, `departures
      ensures var (ok, count) := old(Sent(length, departures));
              status == (if ok then Ok else ErrorWriting) && written == old(written) + data[..count]
    {
      var total: nat := 0;
      var busy := true;
      status := Ok;
      ghost var (ok, count) := Sent(length, departures);
      while busy
        invariant total <= length && written == old(written) + data[..total]
        invariant busy ==> status == Ok && total < length && Sent(length - total, departures) == (ok, count - total)
        invariant !busy ==> count == total && status == if ok then Ok else ErrorWriting
        decreases busy, |departures|, length - total
      {
        var event := if departures == [] then Took(length - total) else departures[0];
        departures := Next(departures);
        match event
        case Took(n) =>
          var count := Min(n, length - total);
          assert data[..total] + data[total..total + count] == data[..total + count];
          written := written + data[total..total + count];
          total := total + count;
          busy := total < length;
        case Again =>
        case Broken =>
          status, busy := ErrorWriting, false;
      }
    }
  }
}
