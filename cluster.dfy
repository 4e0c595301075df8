/** The coordinator's view of the MPI world (`comm`): point-to-point sends to a
    worker rank and blocking receives, recorded as a trace. Rank 0 is the
    coordinator; ranks 1..size-1 are the workers. What a worker sends back is
    opaque here (its transform and the lossy image codec around it are library
    code), so a receive yields some well-formed image. */
module Cluster {
  import opened Wire

  /** The payload of one `comm.send`: an image (or a row range of one) and the
      operation name the worker is to apply. */
  datatype WorkUnit = WorkUnit(chunk: Image, option: string)

  datatype Event =
    | Sent(dest: nat, unit: WorkUnit)
    | Received(source: nat, reply: Image)

  class Comm {
    /** `comm.Get_size()`. */
    const size: nat
    /** Every send and receive made by the coordinator, in order. */
    var trace: seq<Event>

    constructor (size: nat)
      requires size >= 1
      ensures this.size == size && trace == []
    {
      this.size := size;
      trace := [];
    }

    /** `comm.send(unit, dest=dest)`. */
    method Send(dest: nat, unit: WorkUnit)
      requires 1 <= dest < size
      modifies this`trace
      ensures trace == old(trace) + [Sent(dest, unit)]
    {
      trace := trace + [Sent(dest, unit)];
    }

    /** `comm.recv(source=source)` followed by decoding the reply; the trace
        records which rank the reply came from and what it was. */
    method RecvFrom(source: nat) returns (reply: Image)
      requires 1 <= source < size
      modifies this`trace
      ensures reply.Shaped()
      ensures trace == old(trace) + [Received(source, reply)]
    {
      assert Image(0, 0, []).Shaped();
      reply :| reply.Shaped();
      trace := trace + [Received(source, reply)];
    }

    /** `comm.recv()` from whichever worker replies first, followed by decoding. */
    method RecvAny() returns (source: nat, reply: Image)
      requires size >= 2
      modifies this`trace
      ensures 1 <= source < size && reply.Shaped()
      ensures trace == old(trace) + [Received(source, reply)]
    {
      source :| 1 <= source < size;
      assert Image(0, 0, []).Shaped();
      reply :| reply.Shaped();
      trace := trace + [Received(source, reply)];
    }
  }
}
