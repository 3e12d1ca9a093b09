# Line-us client: protocol and discovery, modelled in Dafny

Line-us is a small drawing robot driven over TCP port 1337. It speaks a text protocol:
every command and every reply is ASCII text ended by one NUL byte. The Python client
has two revisions, `lineus/lineus.py` and the older `LineUs.py`. This project models
the logic of both, with the socket, zeroconf and netifaces calls turned into plain
inputs:

- **Framing** (`framing.dfy`, `wire.dfy`, `transport.dfy`).
  - The frames `send_gcode`, `send_raw_gcode`, `g01` and `save_to_lineus` put on the wire.
  - `__read_response`, a loop that reads up to and including the first NUL.
  - A `Socket` class stands in for the Python socket. It holds its state, everything the
    peer will send (`inbox`) and the log of what was sent (`sent`).
  - A `Network` map from endpoints to greeting-and-reply streams decides which
    `connect` calls succeed.
- **Session** (`session.dfy`).
  - The `LineUs` class, with its fields `__line_us`, `__connected`, `line_us_name` and
    `__hello_message`.
  - Its methods `connect`, `disconnect`, `get_info`, `get_hello_string`,
    `list_lineus_files`, `slow_search` and `get_network_list`.
- **Reply parsers** (`replies.dfy`).
  - The greeting (`hello` sentinel; each `key:value` split at the first colon).
  - The `M122` info reply (`ok` sentinel; `mac` takes `field[5:]`; any other key takes the
    text between its first and second colon).
  - The `M20` file listing (`ok`, then `FS:`, then `;`-items `name-size`).
  - The file number: `/` and then `0` stripped on the left, and the characters of
    `.txt` stripped on the right.
- **Subnets** (`subnet.dfy`, `netfinder.dfy`).
  - `netmask_to_cidr` as the sum of the octets' popcounts.
  - The hosts of `ip_network(addr/prefix, strict=False)` on 32-bit naturals, using the CIDR
    notation of section 3.1 of RFC 4632.
  - `NetFinder`'s interface filter and the class-level `network_list`, which every
    instance shares.
  - `get_all_ips`.
- **Discovery registry** (`listener.dfy`): `LineUsListener`'s list of
  `(name, server, ip, port)` entries and its callback.
- **The older revision** (`legacy.dfy`).
  - Its `connect` on the fixed port with a bare `except`.
  - Its `get_hello_string`, which returns `'Not connected'` when disconnected.
  - Its own `LineUsListener` class, whose `remove_service` only reports the name and whose
    `get_line_us_list` returns `None`.
- **Shared helpers** (`bytes.dfy`, `text.dfy`): ASCII encoding, `str(int)`, `split`,
  `splitlines`, `lstrip`/`rstrip` with a character set, and whitespace tokenising.

Where the code would raise, the model states the condition as a precondition. These
are:

- an `IndexError` from `pop(0)`, `[0]` or `[1]`, including `fields[0]` in
  `list_lineus_files` on a reply that is only `ok`;
- a missing `NAME` key;
- a socket that was never created;
- an `OSError` from `send`/`recv` on a socket that is not connected, after a failed
  `connect` or after `disconnect` (every request method requires `sock.state ==
  Connected`);
- an `IndexError` from `get_line_us(number)` with `number` out of range;
- a `TypeError` on `get_first_line_us()[2]` with an empty registry.
Where the code returns `None`, `False` or an empty list, the model returns the same.

A few behaviours of the code that the model keeps as they are:

- `__read_response` keeps every byte before the NUL, CR and LF included
  (lineus/lineus.py:143-152).
- `connect` with no name takes element 0 of the registry at once; it does not wait for
  an announcement.
- `disconnect` only closes the socket and clears `__connected`; the name and greeting
  stay.
- `slow_search` probes one address after another.
- `send_gcode` sends its parameters as given, with no quoting.

## Model

| member | source | states |
|---|---|---|
| Framing.FrameRoundTrip | lineus/lineus.py:143-152 | a NUL-free payload followed by NUL reads back as exactly that payload, and the rest of the stream is left unread |
| Framing.Frame | lineus/lineus.py:143-152 | the reply read is the part of the stream before its first NUL: a prefix of the stream that holds no NUL and is followed by one |
| Framing.FrameRest | lineus/lineus.py:143-152 | a stream is its first frame, the NUL, and the rest |
| Framing.GcodeFrameReadsBack | lineus/lineus.py:103-108 | a `send_gcode` frame is `gcode + " " + parameters` in ASCII plus one NUL, and the device reading up to the NUL recovers exactly that text |
| Framing.M29Frame | lineus/lineus.py:119 | `send_gcode('M29')` puts exactly the bytes `M29 ` and NUL on the wire (the space comes from the default empty parameters) |
| Framing.RawFrameReadsBack | lineus/lineus.py:110-113 | a raw frame is the gcode with no space appended, plus one NUL, and reads back as the gcode |
| Framing.G01FrameLayout | lineus/lineus.py:92-101 | the `g01` frame is the text `G01 X<x> Y<y> Z<z>` followed by NUL |
| Framing.SaveFramesLayout | lineus/lineus.py:115-119 | gcode written line by line is saved as `M28 S<position>`, one raw frame per line holding exactly that line, and then `M29 `, giving `lines + 2` frames |
| Framing.SkipNext | lineus/lineus.py:143-152 | reading one more reply after `a` replies leaves the stream after `a + 1` replies |
| Framing.SaveSkips | lineus/lineus.py:115-119 | the replies `save_to_lineus` consumes are one, then one per line, then one more |
| Framing.FramesFewer | lineus/lineus.py:143-152 | a stream with `a + b` complete replies has `a` complete replies |
| Wire.ReadResponse | lineus/lineus.py:143-152 | the loop returns exactly the bytes before the first NUL, consumes that NUL and nothing after it, and sends nothing |
| Wire.SendCommand | lineus/lineus.py:154-157 | the command is sent followed by one NUL; nothing is read |
| Wire.SendGcode | lineus/lineus.py:103-108 | sends gcode, a space, parameters and NUL, and returns the next reply frame |
| Wire.SendRawGcode | lineus/lineus.py:110-113 | sends gcode and NUL, with no space, and returns the next reply frame |
| Wire.G01 | lineus/lineus.py:92-101 | sends the `G01` command frame and consumes one reply |
| Transport.Socket.Connect | lineus/lineus.py:38 | connecting succeeds exactly when the endpoint answers, and then the stream is that endpoint's |
| Transport.Socket.Recv | lineus/lineus.py:147 | `recv(1)` takes the next byte of the stream |
| Transport.Socket.Send | lineus/lineus.py:157 | `send` appends the data to what was sent |
| Transport.Socket.Close | lineus/lineus.py:89 | `close` leaves the socket closed |
| Session.LineUs.constructor | lineus/lineus.py:15-29 | a new session is not connected and has an empty registry |
| Session.LineUs.Connect | lineus/lineus.py:31-44 | dials the name, or the ip (index 2) of the registry's first entry when no name is given, on port 1337. It succeeds exactly when that endpoint answers. On success it is connected, records the target as its name and holds the first frame read. On failure `__connected`, `line_us_name` and `__hello_message` are unchanged, though the unconnected socket has replaced the old one |
| Session.LineUs.Disconnect | lineus/lineus.py:87-90 | closes the socket; `connected()` is false; name and greeting are kept |
| Session.LineUs.SendGcode | lineus/lineus.py:103-108 | the gcode frame is sent and the next reply returned |
| Session.LineUs.SendRawGcode | lineus/lineus.py:110-113 | the raw frame is sent and the next reply returned |
| Session.LineUs.G01 | lineus/lineus.py:92-101 | the `G01` frame is sent and one reply consumed |
| Session.LineUs.SaveToLineus | lineus/lineus.py:115-119 | sends exactly `SaveFrames(gcode, position)` and consumes `lines + 2` replies |
| Session.LineUs.SendSaved | lineus/lineus.py:115-119 | the `M28` frame, the raw frames of the lines, then the `M29` frame, one reply read after each |
| Session.LineUs.SendLines | lineus/lineus.py:117-118 | every line is sent as a raw frame, in order, and one reply is read per line |
| Session.LineUs.GetInfo | lineus/lineus.py:58-71 | sends `M122 ` and returns the info dictionary of the reply, reading exactly one frame; the socket stays connected, so further requests can follow |
| Session.LineUs.GetHelloString | lineus/lineus.py:73-85 | `None` when not connected, else the greeting's dictionary (itself `None` unless the first word is `hello`) |
| Session.LineUs.ListLineusFiles | lineus/lineus.py:121-141 | sends `M20 ` and returns the file listing of the reply, reading exactly one frame; the socket stays connected |
| Session.LineUs.OnFoundLineUs | lineus/lineus.py:159-160 | the callback is handed to the listener; the registry is untouched |
| Session.LineUs.GetLineUsList | lineus/lineus.py:55-56 | the listener's registry itself |
| Session.LineUs.SlowSearch | lineus/lineus.py:162-175 | builds a `NetFinder` (the shared list grows once more), probes the addresses of `get_all_ips()` in order and returns `SearchResult`. When nothing was found the session keeps its state; otherwise it is connected to the last machine probed that answered, named after its address and holding its greeting. With `return_first` and a hit the socket is that machine's connection with nothing sent on it; otherwise it is the socket of the last address probed |
| Session.LineUs.ProbeAll | lineus/lineus.py:167-175 | the probe loop returns all hits in probe order, or only the first hit with `return_first`; the session holds the greeting of the last hit and the socket of the last address probed |
| Session.LineUs.ProbeFirst | lineus/lineus.py:167-172 | with `return_first`: returns exactly the first hit, connected to it and holding its greeting, or nothing with the session state unchanged |
| Session.LineUs.ProbeEvery | lineus/lineus.py:167-174 | without `return_first`: returns every hit in probe order; the session is connected to the last hit and holds its greeting |
| Session.LineUs.ProbeAddress | lineus/lineus.py:168-170 | probing one address yields `(NAME, NAME + ".local", str(ip), 1337)` exactly when a machine answers there; on a hit the session is connected to that address, named after it and holds its greeting; a new socket is left connected with the rest of the stream exactly when the address answers |
| Session.LineUs.GetNetworkList | lineus/lineus.py:177-179 | constructing the `NetFinder` appends the kept interfaces to the shared list, which is then returned |
| Session.HitsExactly | lineus/lineus.py:167-174 | an entry is found exactly when some probed address yields it, and every entry found has port 1337 and server `name + ".local"` |
| Session.NoHits | lineus/lineus.py:162-175 | the search returns an empty list exactly when no probed address answers |
| Session.FirstHit | lineus/lineus.py:171-172 | with `return_first`, the result is exactly the machine at the first address that answers |
| Session.FirstIsPrefix | lineus/lineus.py:171-174 | the `return_first` result has at most one entry and is the start of the full result |
| Session.HitsAppend | lineus/lineus.py:167-174 | searching `a` and then `b` finds the hits of `a` followed by the hits of `b` |
| Session.FirstHitAt | lineus/lineus.py:171-172 | the first address that answers decides the `return_first` result |
| Session.SearchResult | lineus/lineus.py:162-175 | the search result is a prefix of all hits: all of them without `return_first`, at most one with it, and empty exactly when there are no hits |
| Replies.ParseHello | lineus/lineus.py:73-83 | the loop returns the greeting's dictionary as `HelloReply` defines it |
| Replies.HelloOf | lineus/lineus.py:73-83 | a dictionary exactly when the first word is `hello`, and its keys are exactly the text before the first `:` of each later field |
| Replies.HelloFields | lineus/lineus.py:78-83 | after a `hello` sentinel, the keys are the text before the first `:` of each field, and the last field with a key gives its value, colons included |
| Replies.HelloPairOf | lineus/lineus.py:81-82 | `split(':', 1)` of `k:v` is `(k, v)` whatever colons `v` holds |
| Replies.ParseInfo | lineus/lineus.py:58-71 | the loop returns the info dictionary as `InfoReply` defines it |
| Replies.InfoOf | lineus/lineus.py:58-71 | a dictionary exactly when the first word is `ok`, and its keys are exactly the first `:`-segments of the later fields |
| Replies.InfoField | lineus/lineus.py:66-70 | a field whose first `:`-segment is `mac` gets the key `mac` and the value `field[5:]`; any other field holds a `:`, and gets the text before its first colon as key and the text between its first and second colon as value |
| Replies.InfoPairOfField | lineus/lineus.py:66-70 | the loop body's key and value are the pair the info dictionary is built from |
| Replies.InfoFields | lineus/lineus.py:62-70 | after an `ok` sentinel, the keys are the fields' first `:`-segments, and the last field with a key gives its value |
| Replies.InfoValueBetweenColons | lineus/lineus.py:69-70 | a key other than `mac` keeps only the text between its first and second colon |
| Replies.InfoMac | lineus/lineus.py:66-67 | the `mac` field keeps `field[5:]`, its text after `mac:` less one more character |
| Replies.ParseFileList | lineus/lineus.py:121-141 | the loop returns the listing as `FilesReply` defines it: `None` unless the words are `ok` and then `FS:...` |
| Replies.FilesOf | lineus/lineus.py:121-141 | a listing exactly when the words are `ok` and then `FS:...`; it then has one entry per non-empty `;`-item, named by the item's text before its first `-`, with the file number of that name |
| Replies.FileItem | lineus/lineus.py:135-140 | an item's name is its text before the first `-`, its size the text between the first and second `-`, and its number the file number of the name |
| Replies.FileEntryOfItem | lineus/lineus.py:135-140 | the loop body's entry is the entry the listing is built from |
| Replies.FileEntriesInOrder | lineus/lineus.py:132-140 | one entry per non-empty `;`-item, in the items' order |
| Replies.FileNumberOfName | lineus/lineus.py:136-138 | the name `/000<digits>.txt` gets the number `<digits>` |
| Replies.FileNumberZero | lineus/lineus.py:136-138 | a name made only of `/`, zeros and `.txt` gets the empty number |
| Replies.FileNumberTrimmed | lineus/lineus.py:136-138 | the file number is a slice `name[i:j]`: before it a maximal run of `/` and then a run of `0`, after it only `.`, `t` and `x` |
| Replies.FileNumberEnds | lineus/lineus.py:136-138 | a non-empty file number neither starts with `0` nor ends in `.`, `t` or `x` |
| Replies.ToMapKeys | lineus/lineus.py:65-70 | the keys of the dictionary a loop of assignments builds are exactly the keys assigned |
| Replies.ToMapLastWins | lineus/lineus.py:65-70 | a key holds the value of its last assignment |
| Replies.LStripRun | lineus/lineus.py:136-137 | `lstrip(chars)` removes a leading run of those characters and nothing more |
| Replies.RStripRun | lineus/lineus.py:138 | `rstrip(chars)` removes a trailing run of those characters and nothing more |
| Text.WordsOfJoin | lineus/lineus.py:61 | words joined by single spaces tokenise back into the same words |
| Text.LinesOfTerminated | lineus/lineus.py:117 | lines each followed by `\n` are read back by `splitlines()` as the same lines |
| Text.SplitJoin | lineus/lineus.py:128 | joining the parts of `split(c)` with `c` gives back the string |
| Text.SplitHasSecond | lineus/lineus.py:70 | `split(':')` has a second part exactly when the string holds `:` |
| Text.SplitSecond | lineus/lineus.py:70 | the second part of `split(c)` is the text between the first and second `c` |
| Bytes.EncodeDecode | lineus/lineus.py:104 | encoding ASCII text and decoding it gives back the text |
| Bytes.DecodeEncode | lineus/lineus.py:61 | decoding ASCII bytes and encoding them gives back the bytes |
| Subnet.QuadRoundTrip | lineus/lineus.py:251 | an address split into octets and put back together is the same address |
| Subnet.NetmaskOfQuad | lineus/lineus.py:256-258 | `netmask_to_cidr` of a dotted quad is the sum of its octets' popcounts, at most 32 |
| Subnet.NetmaskOfPrefix | lineus/lineus.py:256-258 | for a contiguous mask of prefix length `p`, `netmask_to_cidr` returns `p` |
| Subnet.NetmaskNonContiguous | lineus/lineus.py:256-258 | the non-contiguous mask `255.0.255.0` still gives 16 |
| Subnet.NetmaskToCidr | lineus/lineus.py:256-258 | when every dotted part is below 256, the result is at most 8 per part |
| Subnet.PopcountSumBound | lineus/lineus.py:258 | a sum of per-octet popcounts is at most 8 per octet |
| Subnet.DottedParts | lineus/lineus.py:258 | dotted text splits on `.` into the four octets' decimal texts |
| Subnet.DecimalOfNatToString | lineus/lineus.py:258 | `int(str(n)) == n` |
| Subnet.NetworkOf | lineus/lineus.py:251 | the network address of `addr/p` is the start of the block holding `addr`, and the block fits in the address space |
| Subnet.Hosts | lineus/lineus.py:252 | the hosts come in ascending order |
| Subnet.HostsCount | lineus/lineus.py:251-252 | a network of prefix `p <= 30` has `2^(32-p) - 2` hosts; a /31 has 2 and a /32 has 1 |
| Subnet.HostsExactly | lineus/lineus.py:251-252 | for `p <= 30` the hosts are exactly the addresses of `addr`'s block other than its network and broadcast addresses |
| Subnet.HostsSmallBlocks | lineus/lineus.py:251-252 | for /31 and /32 every address of the block is a host |
| Subnet.HostsOfSlash30 | lineus/lineus.py:251-252 | `192.168.1.7/30` has exactly the hosts `.5` and `.6` |
| Subnet.LoopbackPrefix | lineus/lineus.py:235 | the dotted text of an address starts with `127` exactly when its first octet is 127 |
| NetFinding.DetailOf | lineus/lineus.py:226-236 | an interface is kept exactly when it has an IPv4 address, netmask and broadcast address and its address is not in 127.0.0.0/8; the detail copies its name and those fields |
| NetFinding.KeptExactly | lineus/lineus.py:226-236 | a detail is appended exactly when some interface yields it |
| NetFinding.NetworkTable.constructor | lineus/lineus.py:222 | the shared list starts empty |
| NetFinding.NetFinder.constructor | lineus/lineus.py:224-236 | constructing a finder appends the kept details to the shared list, in interface order |
| NetFinding.NetFinder.GetNetworkList | lineus/lineus.py:238-239 | the shared list itself |
| NetFinding.NetFinder.GetAllIps | lineus/lineus.py:241-254 | the hosts of every listed interface, interface by interface in list order |
| NetFinding.AppendEach | lineus/lineus.py:252-253 | the inner loop appends every host, in order |
| NetFinding.InterfaceHostsCount | lineus/lineus.py:248-252 | an interface with a prefix-`p` mask contributes `2^(32-p) - 2` hosts, exactly the inner addresses of its block |
| NetFinding.AllIps | lineus/lineus.py:241-254 | an address is listed exactly when it is a host of some listed interface |
| NetFinding.AllIpsAppend | lineus/lineus.py:247-253 | the addresses of two lists of interfaces are those of the first followed by those of the second |
| NetFinding.SecondScanRepeats | lineus/lineus.py:222-236 | a second `NetFinder` construction appends the same interfaces again, so their hosts are listed twice |
| NetFinding.FlattenExactly | lineus/lineus.py:247-253 | an address is in the concatenated host lists exactly when it is in one of them |
| NetFinding.FlattenAll | lineus/lineus.py:247-253 | an address is in the concatenation of any list of host lists exactly when it is in one of them |
| Discovery.EntryOfLabels | lineus/lineus.py:197-198 | an announced entry's name is its server up to the first `.`, and its ip is the dotted text of the address |
| Discovery.EntryOf | lineus/lineus.py:196-198 | the entry keeps the server and port; its name is the server up to (not including) the first `.`, and its ip splits on `.` into the four octets' decimal texts |
| Discovery.FirstIsOldest | lineus/lineus.py:207-211 | later announcements never change the first entry |
| Discovery.RemoveFirstCounts | lineus/lineus.py:192 | `list.remove` drops exactly one copy of the entry |
| Discovery.RemoveUndoesAdd | lineus/lineus.py:188-202 | removing an entry that was just announced, and was not known before, gives back the registry as it was |
| Discovery.LineUsListener.constructor | lineus/lineus.py:184-186 | no callback and an empty registry |
| Discovery.LineUsListener.AddService | lineus/lineus.py:195-202 | appends `(name, server, ip, port)` at the end and calls the callback once with it when one is set |
| Discovery.LineUsListener.RemoveService | lineus/lineus.py:188-193 | removes the first equal entry when there is one; an absent entry, where the code raises `ValueError`, is reported and changes nothing |
| Discovery.LineUsListener.OnFoundLineUs | lineus/lineus.py:204-205 | sets the callback and nothing else |
| Discovery.LineUsListener.GetFirstLineUs | lineus/lineus.py:207-211 | element 0, or `None` exactly when the registry is empty |
| Discovery.LineUsListener.GetLineUs | lineus/lineus.py:213-214 | element `number`, counting from the end when it is negative |
| Discovery.LineUsListener.GetLineUsList | lineus/lineus.py:216-217 | the registry itself |
| Legacy.LegacyLineUs.constructor | LineUs.py:9-18 | not connected, empty name, greeting the empty string, and an empty registry |
| Legacy.LegacyLineUs.Connect | LineUs.py:20-29 | dials the name on port 1337 with a new socket; any failure returns false and leaves `__connected`, `line_us_name` and `__hello_message` as they were; success connects, records the name and reads one greeting frame |
| Legacy.LegacyLineUs.Disconnect | LineUs.py:58-61 | closes the socket and `connected()` is false |
| Legacy.LegacyLineUs.SendGcode | LineUs.py:74-79 | sends gcode, a space, parameters and NUL, and returns the next reply |
| Legacy.LegacyLineUs.G01 | LineUs.py:63-72 | sends the `G01` frame and consumes one reply, returning nothing |
| Legacy.LegacyLineUs.GetInfo | LineUs.py:37-50 | sends `M122 ` and returns the same info dictionary as the later revision, reading exactly one frame; the socket stays connected |
| Legacy.LegacyLineUs.GetHelloStringAsWritten | LineUs.py:52-56 | the literal `'Not connected'` when disconnected; once connected, every call raises, because the greeting is bytes and bytes have no `encode` |
| Legacy.LegacyLineUs.GetHelloString | LineUs.py:52-56 | the corrected method: `'Not connected'` when disconnected, else the greeting as text, which encodes back to exactly the bytes read |
| Legacy.LegacyLineUs.OnFoundLineUs | LineUs.py:97-98 | the callback is handed to the listener |
| Legacy.AsWrittenRaisesWhenConnected | LineUs.py:52-56 | with a greeting held as bytes, the method as written raises `AttributeError` and the corrected one does not |
| Legacy.AsWrittenCounterexample | LineUs.py:52-56 | the greeting `hello` read on connecting: as written the call raises; corrected it returns `"hello"` |
| Legacy.CorrectedRoundTrip | LineUs.py:52-56 | the corrected text encodes back to the greeting read, and is `'Not connected'` when not connected |
| Legacy.LegacyListener.constructor | LineUs.py:103-105 | no callback and an empty registry |
| Legacy.LegacyListener.AddService | LineUs.py:111-118 | appends `(name, server, ip, port)` at the end and calls the callback once with it when one is set |
| Legacy.LegacyListener.OnFoundLineUs | LineUs.py:120-121 | sets the callback and nothing else |
| Legacy.LegacyListener.GetFirstLineUs | LineUs.py:123-127 | element 0, or `None` exactly when the registry is empty |
| Legacy.LegacyListener.GetLineUs | LineUs.py:129-130 | element `number`, counting from the end when it is negative |
| Legacy.LegacyListener.RemoveService | LineUs.py:107-109 | the older `remove_service` leaves the registry, callback and notifications unchanged |
| Legacy.LegacyListener.GetLineUsList | LineUs.py:132-133 | the older `get_line_us_list` returns `None` whatever the registry holds |

## Left out

- Sockets are modelled by the `Socket` class and the `Network` map. Timeouts, `settimeout`,
  `set_timeout` and the `timeout` parameters of `connect` and `slow_search` carry no logic
  here. A connection that breaks part-way and a `send` that sends only part of the data
  are not modelled.
- `__read_response` on a stream with no NUL loops forever, appending `b''` at end of
  file. The model requires a NUL in the stream instead.
- The device's replies are fixed in advance in the `Network` map. A device that answers
  according to what it received is not modelled.
- zeroconf's `Zeroconf`, `ServiceBrowser` and `get_service_info` are not modelled. The
  listener receives resolved `ServiceInfo` records, and `socket.inet_ntoa` is the dotted
  text of the address.
- Callbacks are recorded as calls in the listener's `notified` log. What a callback does
  is not modelled.
- netifaces is not modelled. Interfaces arrive as records holding the first `AF_INET`
  entry, if there is one. `ipaddress` is reimplemented on 32-bit naturals, and its
  address objects are compared by value.
- `get_all_ips(interface=i)` indexes the list with a dictionary key and iterates the
  result. Only the all-interfaces path is modelled.
- `shlex.split` is modelled as a split on whitespace for replies without quotes or
  backslashes (`#` is an ordinary character, since `shlex.split` does not treat it as a
  comment by default). `decode('utf-8')` and `encode()` are modelled for ASCII only.
- `int()` accepting signs, spaces and underscores is not modelled. `netmask_to_cidr` is
  stated for the netmask text netifaces produces, which is four dotted decimal octets.
- NetFinding.NetFinder.GetNetworkList: the Python list it returns is the class attribute
  itself, so later appends show through it. The model returns the sequence's value at
  the time of the call. The same holds for Session.LineUs.GetNetworkList.
- Discovery.LineUsListener.GetLineUsList: the code returns the registry list itself,
  which later `add_service`/`remove_service` calls on the zeroconf thread keep changing.
  The model returns the sequence's value at the time of the call.
- Session.LineUs.GetLineUsList: returns the listener's list in the code, so the same
  holds; the model returns the value at the time of the call.
- Session.LineUs.SlowSearch: for every address that answers, the machine's greeting must
  parse and hold `NAME`. Otherwise the code raises. This condition is a precondition.
- Session.LineUs.Connect: with an empty registry and no name, the code raises
  `TypeError`. The model requires a name or a non-empty registry.
- Discovery.LineUsListener.RemoveService: removing an absent entry raises `ValueError`
  in the code. The model returns `removed == false` and leaves the list unchanged. The
  `print` is left out.
- Legacy.LegacyListener.RemoveService: the older `remove_service` is a static method with four
  parameters, which the caller invokes with three. That call-site mismatch belongs to
  zeroconf and is not modelled. The model states only that the registry is untouched.
- Session.LineUs.ProbeAll: `slow_search` has one loop that returns from inside it when
  `return_first` holds. The model writes it as two loops, `ProbeFirst` and `ProbeEvery`,
  one per value of the flag, with the same probes in the same order.
- Session.LineUs.SlowSearch, Session.LineUs.ProbeAll: these do not state that the socket
  left behind is a new object; only ProbeAddress states that.
- Session.LineUs.G01, Wire.G01, Legacy.LegacyLineUs.G01, Session.LineUs.SaveToLineus:
  only `int` coordinates and positions are modelled. The code formats its arguments with
  `str(x)` and `f'S{position}'`, which accept any object. `str()` of floats (for example
  `g01(1000/2, 0, 0)` sends `G01 X500.0 Y0 Z0`), strings and other objects is left out.
- The getters `connected()` and `get_name()` are read directly as the fields
  `connected` and `lineUsName`. `set_timeout` is left out with the timeouts.
- `lineus/diagnostics.py`, `lineus/test_lineus.py`, `setup.py`, the `__main__` blocks
  and every `print` are not part of this model. These are threads, hardware tests,
  packaging and console output.
- `add_service` and `remove_service` run on the `ServiceBrowser` thread started at
  lineus/lineus.py:29, beside the caller's thread. Each notification is modelled as one
  atomic step on the listener; interleavings inside a notification are not modelled.

## Findings

| source | as written | input that shows it | evidently intended | confidence | as-written member | corrected member |
|---|---|---|---|---|---|---|
| LineUs.py:52-56 | once connected, `get_hello_string` calls `.encode('ascii')` on `__hello_message`, which `connect` set to the bytes that `__read_response` returned; bytes have no `encode`, so every call raises `AttributeError` | connect to a machine whose greeting is `hello` and then call `get_hello_string()` | return the greeting as text, `__hello_message.decode(...)`, as the later revision does | not executed | Legacy.LegacyLineUs.GetHelloStringAsWritten, Legacy.AsWrittenCounterexample | Legacy.LegacyLineUs.GetHelloString, Legacy.CorrectedRoundTrip |
