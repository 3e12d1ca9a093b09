/** The TCP socket the client talks through, as an object over byte sequences.
    A device is described by everything it will send on a connection; connecting
    to an address is a lookup in the network of devices that accept connections. */
module Transport {
  import opened Bytes

  /** `(host, port)` as passed to `socket.connect`. */
  datatype Endpoint = Endpoint(host: string, port: int)

  /** The devices that accept a connection, each with the bytes it will send on it
      (greeting first, then the replies to the commands sent). */
  type Network = map<Endpoint, seq<Byte>>

  datatype SocketState = Unconnected | Connected | Closed

  class Socket {
    var state: SocketState
    /** Bytes the peer has sent that have not been received yet. */
    var inbox: seq<Byte>
    /** Every buffer passed to `send`, oldest first. */
    var sent: seq<seq<Byte>>

    /** `socket.socket(AF_INET, SOCK_STREAM)`. */
    constructor ()
      ensures state == Unconnected && inbox == [] && sent == []
    {
      state := Unconnected;
      inbox := [];
      sent := [];
    }

    /** `connect((host, port))`: succeeds exactly when a device accepts at that endpoint;
        a failure (the `OSError` the caller catches) leaves the socket as it was. */
    method Connect(net: Network, ep: Endpoint) returns (ok: bool)
      requires state == Unconnected
      modifies this
      ensures ok <==> ep in net
      ensures ok ==> state == Connected && inbox == net[ep] && sent == old(sent)
      ensures !ok ==> state == old(state) && inbox == old(inbox) && sent == old(sent)
    {
      ok := ep in net;
      if ok {
        state := Connected;
        inbox := net[ep];
      }
    }

    /** `send(data)` on a connected socket; the whole buffer is taken. */
    method Send(data: seq<Byte>)
      requires state == Connected
      modifies this
      ensures sent == old(sent) + [data]
      ensures state == old(state) && inbox == old(inbox)
    {
      sent := sent + [data];
    }

    /** `recv(1)` when the peer has a byte pending. */
    method Recv() returns (b: Byte)
      requires state == Connected && inbox != []
      modifies this
      ensures b == old(inbox)[0] && inbox == old(inbox)[1..]
      ensures state == old(state) && sent == old(sent)
    {
      b := inbox[0];
      inbox := inbox[1..];
    }

    /** `close()`. */
    method Close()
      modifies this
      ensures state == Closed && inbox == old(inbox) && sent == old(sent)
    {
      state := Closed;
    }
  }
}
