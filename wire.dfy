/** The byte-level exchange both `LineUs` classes perform on their socket: a command
    goes out with a NUL appended, and a response is read one byte at a time up to
    the next NUL. */
module Wire {
  import opened Bytes
  import opened Framing
  import opened Transport

  /** `__read_response`: receive single bytes, keeping every non-NUL byte, until a NUL
      arrives. It returns the stream's first frame, consumes that frame and its NUL,
      and leaves everything after it unread. Without a NUL in the stream the loop
      never ends. */
  method ReadResponse(sock: Socket) returns (line: seq<Byte>)
    requires sock.state == Connected && Nul in sock.inbox
    modifies sock
    ensures line == Frame(old(sock.inbox)) && sock.inbox == Rest(old(sock.inbox))
    ensures Nul !in line && old(sock.inbox) == line + [Nul] + sock.inbox
    ensures sock.state == Connected && sock.sent == old(sock.sent)
  {
    line := [];
    while true
      invariant sock.state == Connected && sock.sent == old(sock.sent)
      invariant old(sock.inbox) == line + sock.inbox && Nul !in line
      decreases |sock.inbox|
    {
      ghost var pending := sock.inbox;
      assert pending != [] by {
        assert Nul in line + pending;
      }
      var c := sock.Recv();
      assert pending == [c] + sock.inbox;
      if c != Nul {
        line := line + [c];
      } else {
        assert old(sock.inbox) == line + [Nul] + sock.inbox;
        break;
      }
    }
    FrameRoundTrip(line, sock.inbox);
  }

  /** `__send_command`: the command with one NUL appended, handed to `send` whole. */
  method SendCommand(sock: Socket, command: seq<Byte>)
    requires sock.state == Connected
    modifies sock
    ensures sock.sent == old(sock.sent) + [Terminate(command)]
    ensures sock.state == old(sock.state) && sock.inbox == old(sock.inbox)
  {
    var cmd := command + [Nul];
    sock.Send(cmd);
  }

  /** `send_gcode(gcode, parameters)`: send `gcode + " " + parameters` as one frame and
      return the reply frame. */
  method SendGcode(sock: Socket, gcode: string, parameters: string) returns (reply: seq<Byte>)
    requires IsAscii(gcode) && IsAscii(parameters)
    requires sock.state == Connected && Nul in sock.inbox
    modifies sock
    ensures sock.sent == old(sock.sent) + [Terminate(GcodeCommand(gcode, parameters))]
    ensures reply == Frame(old(sock.inbox)) && sock.inbox == Rest(old(sock.inbox))
    ensures sock.state == Connected
  {
    var cmd := Encode(gcode);
    cmd := cmd + Encode(" ");
    cmd := cmd + Encode(parameters);
    SendCommand(sock, cmd);
    reply := ReadResponse(sock);
  }

  /** `send_raw_gcode(gcode)`: send the gcode alone as one frame and return the reply. */
  method SendRawGcode(sock: Socket, gcode: string) returns (reply: seq<Byte>)
    requires IsAscii(gcode)
    requires sock.state == Connected && Nul in sock.inbox
    modifies sock
    ensures sock.sent == old(sock.sent) + [Terminate(RawCommand(gcode))]
    ensures reply == Frame(old(sock.inbox)) && sock.inbox == Rest(old(sock.inbox))
    ensures sock.state == Connected
  {
    var cmd := Encode(gcode);
    SendCommand(sock, cmd);
    reply := ReadResponse(sock);
  }

  /** `g01(x, y, z)`: send the move "G01 X<x> Y<y> Z<z>", wait for the reply frame and
      discard it. */
  method G01(sock: Socket, x: int, y: int, z: int)
    requires sock.state == Connected && Nul in sock.inbox
    modifies sock
    ensures sock.sent == old(sock.sent) + [Terminate(G01Command(x, y, z))]
    ensures sock.inbox == Rest(old(sock.inbox))
    ensures sock.state == Connected
  {
    IntToStringAscii(x);
    IntToStringAscii(y);
    IntToStringAscii(z);
    var cmd := Encode("G01 X");
    cmd := cmd + Encode(IntToString(x));
    cmd := cmd + Encode(" Y");
    cmd := cmd + Encode(IntToString(y));
    cmd := cmd + Encode(" Z");
    cmd := cmd + Encode(IntToString(z));
    SendCommand(sock, cmd);
    var _ := ReadResponse(sock);
  }
}
