/** The earlier revision of the client, `LineUs.py`: the same wire protocol on port
    1337, a `connect` that swallows every exception, `get_hello_string` returning text,
    and a listener whose `remove_service` only reports and whose `get_line_us_list`
    returns nothing. */
module Legacy {
  import opened Options
  import opened Bytes
  import opened Framing
  import opened Transport
  import opened Replies
  import opened Discovery
  import Wire

  /** A Python value that is either `str` or `bytes`: `__hello_message` starts as the
      string `''` and becomes the bytes read from the socket on connecting. */
  datatype PyText = Str(text: string) | Bytes(bytes: seq<Byte>)

  /** How a call of `get_hello_string` ends. */
  datatype HelloOutcome =
    | Returned(value: PyText)
    | RaisesAttributeError
    | RaisesUnicodeError

  /** `get_hello_string` as written: `self.__hello_message.encode('ascii')` when
      connected. A `str` encodes (or fails on a non-ASCII character); `bytes` has no
      `encode`, so the call raises `AttributeError`. */
  function HelloAsWritten(connected: bool, hello: PyText): HelloOutcome {
    if !connected then Returned(Str("Not connected"))
    else match hello
      case Str(s) => if IsAscii(s) then Returned(Bytes(Encode(s))) else RaisesUnicodeError
      case Bytes(_) => RaisesAttributeError
  }

  /** `get_hello_string` as evidently intended: the greeting decoded to text. */
  function HelloCorrected(connected: bool, hello: PyText): HelloOutcome {
    if !connected then Returned(Str("Not connected"))
    else match hello
      case Str(s) => Returned(Str(s))
      case Bytes(b) => if AsciiBytes(b) then Returned(Str(Decode(b))) else RaisesUnicodeError
  }

  /** Once connected, the greeting is held as bytes, so the method as written raises
      on every call: it never returns the greeting. */
  lemma AsWrittenRaisesWhenConnected(hello: PyText)
    requires hello.Bytes?
    ensures HelloAsWritten(true, hello) == RaisesAttributeError
    ensures HelloCorrected(true, hello) != RaisesAttributeError
  {
  }

  /** A concrete case: the greeting "hello" read on connecting. */
  lemma AsWrittenCounterexample()
    ensures HelloAsWritten(true, Bytes([104, 101, 108, 108, 111])) == RaisesAttributeError
    ensures HelloCorrected(true, Bytes([104, 101, 108, 108, 111])) == Returned(Str("hello"))
  {
    var b: seq<Byte> := [104, 101, 108, 108, 111];
    assert AsciiBytes(b);
    assert Decode(b) == "hello";
  }

  /** The corrected method returns text that encodes back to exactly the greeting read,
      and says "Not connected" exactly when not connected. */
  lemma CorrectedRoundTrip(connected: bool, b: seq<Byte>)
    requires AsciiBytes(b)
    ensures HelloCorrected(connected, Bytes(b)).Returned?
    ensures HelloCorrected(connected, Bytes(b)).value.Str?
    ensures connected ==>
      var s := HelloCorrected(connected, Bytes(b)).value.text;
      IsAscii(s) && Encode(s) == b
    ensures !connected ==> HelloCorrected(connected, Bytes(b)) == Returned(Str("Not connected"))
  {
    DecodeEncode(b);
  }

  class LegacyLineUs {
    var sock: Socket?
    var connected: bool
    var lineUsName: string
    var helloMessage: PyText
    const listener: LegacyListener

    /** Once connected, the greeting has been read as bytes. */
    predicate HelloRead()
      reads this
    {
      connected ==> helloMessage.Bytes?
    }

    /** `LineUs()`: not connected, the greeting the empty string. */
    constructor ()
      ensures fresh(listener) && listener.lineUsList == [] && listener.callback == None
      ensures sock == null && !connected && lineUsName == "" && helloMessage == Str("")
      ensures HelloRead()
    {
      sock := null;
      connected := false;
      lineUsName := "";
      helloMessage := Str("");
      listener := new LegacyListener();
    }

    /** `connect(line_us_name)`: a new socket dials the name on port 1337; any failure
        returns false and leaves the session's fields as they were. */
    method Connect(name: string, net: Network) returns (ok: bool)
      requires Endpoint(name, 1337) in net ==> Nul in net[Endpoint(name, 1337)]
      requires HelloRead()
      modifies this
      ensures sock != null && fresh(sock) && sock.sent == [] && HelloRead()
      ensures ok <==> Endpoint(name, 1337) in net
      ensures ok ==> (connected && lineUsName == name &&
        helloMessage == Bytes(Frame(net[Endpoint(name, 1337)])) &&
        sock.state == Connected && sock.inbox == Rest(net[Endpoint(name, 1337)]))
      ensures !ok ==> (connected == old(connected) && lineUsName == old(lineUsName) &&
        helloMessage == old(helloMessage) && sock.state == Unconnected)
    {
      var s := new Socket();
      sock := s;
      ok := s.Connect(net, Endpoint(name, 1337));
      if !ok {
        return;
      }
      connected := true;
      lineUsName := name;
      var greeting := Wire.ReadResponse(s);
      helloMessage := Bytes(greeting);
    }

    /** `disconnect()`. */
    method Disconnect()
      requires sock != null
      modifies this, sock
      ensures !connected && sock == old(sock) && sock.state == Closed && HelloRead()
      ensures lineUsName == old(lineUsName) && helloMessage == old(helloMessage)
    {
      sock.Close();
      connected := false;
    }

    /** `send_gcode(gcode, parameters)`. */
    method SendGcode(gcode: string, parameters: string) returns (reply: seq<Byte>)
      requires IsAscii(gcode) && IsAscii(parameters)
      requires sock != null && sock.state == Connected && Nul in sock.inbox
      modifies sock
      ensures sock.sent == old(sock.sent) + [Terminate(GcodeCommand(gcode, parameters))]
      ensures reply == Frame(old(sock.inbox)) && sock.inbox == Rest(old(sock.inbox))
      ensures sock.state == Connected
    {
      reply := Wire.SendGcode(sock, gcode, parameters);
    }

    /** `g01(x, y, z)`. */
    method G01(x: int, y: int, z: int)
      requires sock != null && sock.state == Connected && Nul in sock.inbox
      modifies sock
      ensures sock.sent == old(sock.sent) + [Terminate(G01Command(x, y, z))]
      ensures sock.inbox == Rest(old(sock.inbox)) && sock.state == Connected
    {
      Wire.G01(sock, x, y, z);
    }

    /** `get_info()`: send `M122` and parse the reply, as in the later revision. */
    method GetInfo() returns (info: Option<map<string, string>>)
      requires sock != null && sock.state == Connected && Nul in sock.inbox
      requires InfoParsable(Frame(sock.inbox))
      modifies sock
      ensures sock.sent == old(sock.sent) + [Terminate(GcodeCommand("M122", ""))]
      ensures info == InfoReply(Frame(old(sock.inbox))) && sock.inbox == Rest(old(sock.inbox))
      ensures sock.state == Connected
    {
      var raw := SendGcode("M122", "");
      info := ParseInfo(raw);
    }

    /** `get_hello_string()` as written. */
    method GetHelloStringAsWritten() returns (outcome: HelloOutcome)
      requires HelloRead()
      ensures outcome == HelloAsWritten(connected, helloMessage)
      ensures connected ==> outcome == RaisesAttributeError
      ensures !connected ==> outcome == Returned(Str("Not connected"))
    {
      if connected {
        outcome := RaisesAttributeError;
      } else {
        outcome := Returned(Str("Not connected"));
      }
    }

    /** `get_hello_string()` corrected to decode the greeting. */
    method GetHelloString() returns (outcome: HelloOutcome)
      requires HelloRead()
      ensures outcome == HelloCorrected(connected, helloMessage)
      ensures connected && AsciiBytes(helloMessage.bytes) ==>
        outcome.Returned? && outcome.value.Str? && IsAscii(outcome.value.text) &&
        Encode(outcome.value.text) == helloMessage.bytes
    {
      if !connected {
        return Returned(Str("Not connected"));
      }
      var b := helloMessage.bytes;
      if AsciiBytes(b) {
        DecodeEncode(b);
        outcome := Returned(Str(Decode(b)));
      } else {
        outcome := RaisesUnicodeError;
      }
    }

    /** `on_found_line_us(callback)`. */
    method OnFoundLineUs(cb: Option<Callback>)
      modifies listener
      ensures listener.callback == cb && listener.lineUsList == old(listener.lineUsList)
      ensures listener.notified == old(listener.notified)
    {
      listener.OnFoundLineUs(cb);
    }
  }

  /** The earlier `LineUsListener`: the same registry and callback as the later one,
      but `remove_service` only reports the name and `get_line_us_list` returns
      nothing. */
  class LegacyListener {
    var callback: Option<Callback>
    var lineUsList: seq<LineUsEntry>
    /** Every call made to a callback, oldest first, with the entry passed to it. */
    var notified: seq<(Callback, LineUsEntry)>

    constructor ()
      ensures callback == None && lineUsList == [] && notified == []
    {
      callback := None;
      lineUsList := [];
      notified := [];
    }

    /** The static `remove_service`: it only reports the name, so the registry keeps
        every entry. */
    method RemoveService(name: string)
      ensures lineUsList == old(lineUsList)
      ensures callback == old(callback) && notified == old(notified)
    {
    }

    /** `add_service`: append the entry, then call the callback once with it if one is set. */
    method AddService(info: ServiceInfo)
      modifies this
      ensures lineUsList == old(lineUsList) + [EntryOf(info)]
      ensures callback == old(callback)
      ensures notified == old(notified) + (if callback.Some? then [(callback.value, EntryOf(info))] else [])
    {
      var entry := EntryOf(info);
      lineUsList := lineUsList + [entry];
      if callback.Some? {
        notified := notified + [(callback.value, entry)];
      }
    }

    /** `on_found_line_us`: register (or, with `None`, clear) the callback. */
    method OnFoundLineUs(cb: Option<Callback>)
      modifies this
      ensures callback == cb && lineUsList == old(lineUsList) && notified == old(notified)
    {
      callback := cb;
    }

    /** `get_first_line_us`. */
    method GetFirstLineUs() returns (first: Option<LineUsEntry>)
      ensures first == First(lineUsList)
      ensures first.Some? <==> lineUsList != []
    {
      if |lineUsList| > 0 {
        first := Some(lineUsList[0]);
      } else {
        first := None;
      }
    }

    /** `get_line_us(number)`: Python indexing; out of range it raises `IndexError`. */
    method GetLineUs(number: int) returns (entry: LineUsEntry)
      requires -|lineUsList| <= number < |lineUsList|
      ensures 0 <= number ==> entry == lineUsList[number]
      ensures number < 0 ==> entry == lineUsList[|lineUsList| + number]
    {
      if number < 0 {
        entry := lineUsList[|lineUsList| + number];
      } else {
        entry := lineUsList[number];
      }
    }

    /** `get_line_us_list`: a bare `return`, so `None` whatever the registry holds. */
    method GetLineUsList() returns (list: Option<seq<LineUsEntry>>)
      ensures list == None
    {
      list := None;
    }
  }
}
