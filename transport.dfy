/** The serial link as the raw REPL clients see it. What the host does to the
    port is recorded, in order, in `trace`; what the device sends is given in
    advance as a list of bursts, one per read. A read returns the next burst
    (what had arrived by the time of the read; timing, baud rate and the
    settle delays are abstracted into how the bytes are cut into bursts), and
    a read with no burst left returns nothing. */
module Transport {
  import opened Seqs
  import opened Bytes

  datatype Event =
    | Write(data: seq<byte>)  // one `ser.write(data)` call
    | ReadAll                 // one `ser.read_all()` call

  /** The burst the next read returns. */
  function NextBurst(inbox: seq<seq<byte>>): seq<byte>
  {
    if inbox == [] then [] else inbox[0]
  }

  /** The bursts left after one read. */
  function LaterBursts(inbox: seq<seq<byte>>): (rest: seq<seq<byte>>)
    ensures |rest| == if inbox == [] then 0 else |inbox| - 1
  {
    if inbox == [] then [] else inbox[1..]
  }

  /** All bytes written, in order: what the device receives. */
  function Written(trace: seq<Event>): seq<byte>
  {
    if trace == [] then []
    else (match trace[0] case Write(d) => d case ReadAll => []) + Written(trace[1..])
  }

  lemma {:induction false} WrittenAppend(a: seq<Event>, b: seq<Event>)
    ensures Written(a + b) == Written(a) + Written(b)
    decreases |a|
  {
    if a == [] {
      assert a + b == b;
    } else {
      assert (a + b)[0] == a[0];
      assert (a + b)[1..] == a[1..] + b;
      WrittenAppend(a[1..], b);
    }
  }

  class SerialPort {
    /** Every write and every `read_all` the host has issued, oldest first. */
    var trace: seq<Event>
    /** The bursts the device will deliver, one per read, oldest first. */
    var inbox: seq<seq<byte>>

    constructor (arrivals: seq<seq<byte>>)
      ensures trace == [] && inbox == arrivals
    {
      trace := [];
      inbox := arrivals;
    }

    method Write(data: seq<byte>)
      modifies this`trace
      ensures trace == old(trace) + [Event.Write(data)] && inbox == old(inbox)
    {
      trace := trace + [Event.Write(data)];
    }

    /** `read_all()`: whatever has arrived. */
    method ReadAll() returns (data: seq<byte>)
      modifies this
      ensures data == NextBurst(old(inbox)) && inbox == LaterBursts(old(inbox))
      ensures trace == old(trace) + [Event.ReadAll]
    {
      data := NextBurst(inbox);
      inbox := LaterBursts(inbox);
      trace := trace + [Event.ReadAll];
    }

    /** One poll of the read loop: `read(in_waiting)` when bytes are waiting,
        the empty burst when none are. */
    method Poll() returns (data: seq<byte>)
      modifies this`inbox
      ensures data == NextBurst(old(inbox)) && inbox == LaterBursts(old(inbox))
      ensures trace == old(trace)
    {
      data := NextBurst(inbox);
      inbox := LaterBursts(inbox);
    }
  }
}
