/**
 * The accepted client socket, as the request handlers use it: the bytes
 * handed to `sendall` (or `send`) so far, and whether `close` has been called.
 */
module Transport {
  import opened Text

  class Connection {
    /** Every byte sent on this connection, in order. */
    var sent: seq<byte>
    var closed: bool

    constructor ()
      ensures sent == [] && !closed
    {
      sent := [];
      closed := false;
    }

    /** `sendall(data)`: all of `data` goes out after what was sent before. */
    method SendAll(data: seq<byte>)
      requires !closed
      modifies this
      ensures sent == old(sent) + data && !closed
    {
      sent := sent + data;
    }

    /** `close()`; nothing can be sent afterwards. */
    method Close()
      modifies this
      ensures sent == old(sent) && closed
    {
      closed := true;
    }
  }
}
