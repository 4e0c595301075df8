/** The coordinator's end of one accepted client connection (`client_socket`),
    as a stream of bytes the client has sent and not yet been read, plus the bytes
    written back with `sendall`. How the network fragments the stream is an oracle:
    `Recv` may hand back any non-empty prefix no longer than it was asked for. */
module Socket {
  import opened Wire

  /** The most a single pixel read asks for. */
  const MaxRecv: nat := 4096

  class Connection {
    /** Bytes the client has sent that the server has not read yet. */
    var incoming: seq<Byte>
    /** Bytes the server has sent back, in order. */
    var outgoing: seq<Byte>
    var open: bool
    /** The buffer size of every `recv` call made so far, in order. */
    ghost var requested: seq<nat>

    constructor (stream: seq<Byte>)
      ensures incoming == stream && outgoing == [] && open && requested == []
    {
      incoming := stream;
      outgoing := [];
      open := true;
      requested := [];
    }

    /** `recv(bufsize)` on a stream socket: some bytes, never more than asked for,
        at least one while the client still has bytes to deliver, none once it has
        closed its side and everything has been read. */
    method Recv(bufsize: nat) returns (data: seq<Byte>)
      requires open && bufsize >= 1
      modifies this`incoming, this`requested
      ensures old(incoming) == data + incoming
      ensures |data| <= bufsize
      ensures old(incoming) != [] <==> data != []
      ensures requested == old(requested) + [bufsize]
    {
      var k: nat;
      if incoming == [] {
        k := 0;
      } else {
        k :| 1 <= k <= bufsize && k <= |incoming|;
      }
      data := incoming[..k];
      assert incoming == data + incoming[k..];
      incoming := incoming[k..];
      requested := requested + [bufsize];
    }

    /** A fixed-width field read with one `recv(width)`, assumed to deliver the
        whole field whenever that many bytes are available. */
    method RecvField(width: nat) returns (data: seq<Byte>)
      requires open && width >= 1
      modifies this`incoming, this`requested
      ensures (data, incoming) == Field(old(incoming), width)
      ensures requested == old(requested) + [width]
    {
      var r := Field(incoming, width);
      data := r.0;
      incoming := r.1;
      requested := requested + [width];
    }

    /** `sendall(data)`: every byte is appended to what the client receives. */
    method SendAll(data: seq<Byte>)
      requires open
      modifies this`outgoing
      ensures outgoing == old(outgoing) + data
    {
      outgoing := outgoing + data;
    }

    method Close()
      modifies this`open
      ensures !open
    {
      open := false;
    }
  }
}
