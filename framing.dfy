/** NUL-delimited framing of the Line-us text protocol. */
module Framing {
  import opened Bytes
  import opened Text

  /** The bytes before the first NUL of a stream: one response frame. */
  function Frame(s: seq<Byte>): (r: seq<Byte>)
    requires Nul in s
    ensures |r| < |s| && r == s[..|r|] && s[|r|] == Nul && Nul !in r
  {
    if s[0] == Nul then [] else [s[0]] + Frame(s[1..])
  }

  /** What is left of the stream once a frame and its NUL have been consumed. */
  function Rest(s: seq<Byte>): (r: seq<Byte>)
    requires Nul in s
  {
    s[|Frame(s)| + 1..]
  }

  /** A stream is its first frame, the NUL, and the rest. */
  lemma FrameRest(s: seq<Byte>)
    requires Nul in s
    ensures s == Frame(s) + [Nul] + Rest(s)
  {
  }

  /** A payload free of NUL, terminated and followed by anything, reads back as itself. */
  lemma FrameRoundTrip(p: seq<Byte>, rest: seq<Byte>)
    requires Nul !in p
    ensures Nul in p + [Nul] + rest
    ensures Frame(p + [Nul] + rest) == p && Rest(p + [Nul] + rest) == rest
  {
    var s := p + [Nul] + rest;
    assert s[|p|] == Nul;
    FrameRest(s);
  }

  /** `__send_command`: the command bytes followed by the NUL terminator. */
  function Terminate(command: seq<Byte>): seq<Byte> {
    command + [Nul]
  }

  /** The command `send_gcode(gcode, parameters)` builds: gcode, one space, parameters. */
  function GcodeCommand(gcode: string, parameters: string): seq<Byte>
    requires IsAscii(gcode) && IsAscii(parameters)
  {
    Encode(gcode) + Encode(" ") + Encode(parameters)
  }

  /** The command `send_raw_gcode(gcode)` builds: the gcode alone, no space. */
  function RawCommand(gcode: string): seq<Byte>
    requires IsAscii(gcode)
  {
    Encode(gcode)
  }

  /** The text of the command `g01(x, y, z)` builds piece by piece. */
  function G01Text(x: int, y: int, z: int): string {
    "G01 X" + IntToString(x) + " Y" + IntToString(y) + " Z" + IntToString(z)
  }

  lemma IntToStringAscii(i: int)
    ensures IsAscii(IntToString(i)) && IsWord(IntToString(i)) && '\0' !in IntToString(i)
  {
  }

  function G01Command(x: int, y: int, z: int): (r: seq<Byte>) {
    IntToStringAscii(x);
    IntToStringAscii(y);
    IntToStringAscii(z);
    Encode("G01 X") + Encode(IntToString(x)) + Encode(" Y") + Encode(IntToString(y))
      + Encode(" Z") + Encode(IntToString(z))
  }

  /** A gcode frame is the text `gcode + " " + parameters` and one NUL, and the device
      reading it back up to the NUL recovers exactly that text. */
  lemma GcodeFrameReadsBack(gcode: string, parameters: string, rest: seq<Byte>)
    requires IsAscii(gcode) && IsAscii(parameters)
    requires '\0' !in gcode && '\0' !in parameters
    ensures IsAscii(gcode + " " + parameters)
    ensures Terminate(GcodeCommand(gcode, parameters)) == Encode(gcode + " " + parameters) + [Nul]
    ensures Frame(Terminate(GcodeCommand(gcode, parameters)) + rest) == Encode(gcode + " " + parameters)
  {
    var text := gcode + " " + parameters;
    assert IsAscii(text);
    EncodeConcat(gcode, " ");
    EncodeConcat(gcode + " ", parameters);
    EncodeNulFree(text);
    FrameRoundTrip(Encode(text), rest);
    assert Terminate(GcodeCommand(gcode, parameters)) + rest == Encode(text) + [Nul] + rest;
  }

  /** `send_gcode('M29')` puts exactly the five bytes "M29 " and NUL on the wire. */
  lemma M29Frame()
    ensures Terminate(GcodeCommand("M29", "")) == [77, 50, 57, 32, 0]
  {
  }

  /** A raw frame has no space appended: the gcode and one NUL. */
  lemma RawFrameReadsBack(gcode: string, rest: seq<Byte>)
    requires IsAscii(gcode) && '\0' !in gcode
    ensures |Terminate(RawCommand(gcode))| == |gcode| + 1
    ensures Frame(Terminate(RawCommand(gcode)) + rest) == Encode(gcode)
  {
    EncodeNulFree(gcode);
    FrameRoundTrip(Encode(gcode), rest);
    assert Terminate(RawCommand(gcode)) + rest == Encode(gcode) + [Nul] + rest;
  }

  /** A `g01` frame is the text "G01 X<x> Y<y> Z<z>" and one NUL. */
  lemma G01FrameLayout(x: int, y: int, z: int)
    ensures IsAscii(G01Text(x, y, z))
    ensures Terminate(G01Command(x, y, z)) == Encode(G01Text(x, y, z)) + [Nul]
  {
    var sx, sy, sz := IntToString(x), IntToString(y), IntToString(z);
    IntToStringAscii(x);
    IntToStringAscii(y);
    IntToStringAscii(z);
    EncodeConcat("G01 X", sx);
    EncodeConcat("G01 X" + sx, " Y");
    EncodeConcat("G01 X" + sx + " Y", sy);
    EncodeConcat("G01 X" + sx + " Y" + sy, " Z");
    EncodeConcat("G01 X" + sx + " Y" + sy + " Z", sz);
  }

  /** The stream holds at least `n` complete frames. */
  predicate HasFrames(s: seq<Byte>, n: nat)
    decreases n
  {
    n == 0 || (Nul in s && HasFrames(Rest(s), n - 1))
  }

  /** The stream after `n` frames have been read from it. */
  function Skip(s: seq<Byte>, n: nat): seq<Byte>
    requires HasFrames(s, n)
    decreases n
  {
    if n == 0 then s else Skip(Rest(s), n - 1)
  }

  lemma SkipOne(s: seq<Byte>, n: nat)
    requires HasFrames(s, n + 1)
    ensures Nul in s && HasFrames(Rest(s), n) && Skip(Rest(s), n) == Skip(s, n + 1)
  {
  }

  /** A stream holding `a + b` frames holds `a` frames. */
  lemma {:induction false} FramesFewer(s: seq<Byte>, a: nat, b: nat)
    requires HasFrames(s, a + b)
    ensures HasFrames(s, a)
    decreases a
  {
    if a > 0 {
      FramesFewer(Rest(s), a - 1, b);
    }
  }

  /** The frame after the first `a` is the next one read: reading it leaves the stream
      after `a + 1` frames. */
  lemma {:induction false} SkipNext(s: seq<Byte>, a: nat)
    requires HasFrames(s, a + 1)
    ensures HasFrames(s, a) && Nul in Skip(s, a) && HasFrames(s, a + 1)
    ensures Rest(Skip(s, a)) == Skip(s, a + 1)
    decreases a
  {
    if a > 0 {
      SkipNext(Rest(s), a - 1);
    }
  }

  /** The replies `save_to_lineus` reads: one frame, then `n`, then one more. */
  lemma SaveSkips(s: seq<Byte>, n: nat)
    requires HasFrames(s, n + 2)
    ensures Nul in s && HasFrames(Rest(s), n) && Skip(Rest(s), n) == Skip(s, n + 1)
    ensures Nul in Skip(s, n + 1) && Rest(Skip(s, n + 1)) == Skip(s, n + 2)
  {
    SkipNext(s, n + 1);
    SkipOne(s, n);
  }

  /** Every line of ASCII text is ASCII. */
  lemma {:induction false} LinesAscii(s: string)
    requires IsAscii(s)
    ensures forall k :: 0 <= k < |Lines(s)| ==> IsAscii(Lines(s)[k])
    decreases |s|
  {
    if s != [] {
      var i := Span(s, LineBreaks);
      if i < |s| {
        if s[i] == '\r' && i + 1 < |s| && s[i + 1] == '\n' {
          LinesAscii(s[i + 2..]);
        } else {
          LinesAscii(s[i + 1..]);
        }
      }
    }
  }

  predicate AllAscii(ls: seq<string>) {
    forall k :: 0 <= k < |ls| ==> IsAscii(ls[k])
  }

  /** The raw frames of a sequence of gcode lines, one per line. */
  function RawFrames(ls: seq<string>): (r: seq<seq<Byte>>)
    requires AllAscii(ls)
  {
    seq(|ls|, k requires 0 <= k < |ls| => Terminate(RawCommand(ls[k])))
  }

  /** The frames `save_to_lineus(gcode, position)` sends: `M28 S<position>`, every line
      of the gcode as a raw frame, then `M29`. */
  function SaveFrames(gcode: string, position: int): (r: seq<seq<Byte>>)
    requires IsAscii(gcode)
  {
    LinesAscii(gcode);
    IntToStringAscii(position);
    [Terminate(GcodeCommand("M28", "S" + IntToString(position)))]
      + RawFrames(Lines(gcode)) + [Terminate(GcodeCommand("M29", ""))]
  }

  lemma SaveFramesParts(gcode: string, position: int)
    requires IsAscii(gcode)
    ensures AllAscii(Lines(gcode)) && IsAscii("S" + IntToString(position))
    ensures SaveFrames(gcode, position) == [Terminate(GcodeCommand("M28", "S" + IntToString(position)))]
      + RawFrames(Lines(gcode)) + [Terminate(GcodeCommand("M29", ""))]
  {
    LinesAscii(gcode);
    IntToStringAscii(position);
  }

  /** Gcode written line by line is saved as the frame `M28 S<position>`, one frame per
      line holding exactly that line, and the frame `M29 `. */
  lemma SaveFramesLayout(ls: seq<string>, position: int)
    requires AllAscii(ls)
    requires forall k, j :: 0 <= k < |ls| && 0 <= j < |ls[k]| ==> ls[k][j] !in LineBreaks
    ensures IsAscii(Terminated(ls))
    ensures |SaveFrames(Terminated(ls), position)| == |ls| + 2
    ensures SaveFrames(Terminated(ls), position)[0] == Encode("M28 S" + IntToString(position)) + [Nul]
    ensures forall k :: 0 <= k < |ls| ==> SaveFrames(Terminated(ls), position)[k + 1] == Encode(ls[k]) + [Nul]
    ensures SaveFrames(Terminated(ls), position)[|ls| + 1] == [77, 50, 57, 32, 0]
  {
    TerminatedAscii(ls);
    LinesOfTerminated(ls);
    SaveFramesParts(Terminated(ls), position);
    M28Frame(position);
    M29Frame();
    RawFramesLayout(SaveFrames(Terminated(ls), position), ls,
      Encode("M28 S" + IntToString(position)) + [Nul], [77, 50, 57, 32, 0]);
  }

  lemma RawFramesLayout(s: seq<seq<Byte>>, ls: seq<string>, first: seq<Byte>, last: seq<Byte>)
    requires AllAscii(ls)
    requires s == [first] + RawFrames(ls) + [last]
    ensures |s| == |ls| + 2 && s[0] == first && s[|ls| + 1] == last
    ensures forall k :: 0 <= k < |ls| ==> s[k + 1] == Encode(ls[k]) + [Nul]
  {
    Bracketed(s, first, RawFrames(ls), last);
  }

  /** `send_gcode('M28', 'S<position>')` puts the text "M28 S<position>" and NUL on the wire. */
  lemma M28Frame(position: int)
    ensures IsAscii("S" + IntToString(position))
    ensures Terminate(GcodeCommand("M28", "S" + IntToString(position))) == Encode("M28 S" + IntToString(position)) + [Nul]
  {
    IntToStringAscii(position);
    var p := "S" + IntToString(position);
    assert "M28 S" + IntToString(position) == "M28" + " " + p;
    GcodeFrameReadsBack("M28", p, []);
  }

  /** The elements of a sequence made of a first element, a middle and a last element. */
  lemma Bracketed<T>(s: seq<T>, first: T, middle: seq<T>, last: T)
    requires s == [first] + middle + [last]
    ensures |s| == |middle| + 2 && s[0] == first && s[|middle| + 1] == last
    ensures forall k :: 0 <= k < |middle| ==> s[k + 1] == middle[k]
  {
  }

  lemma {:induction false} TerminatedAscii(ls: seq<string>)
    requires AllAscii(ls)
    ensures IsAscii(Terminated(ls))
  {
    if ls != [] {
      TerminatedAscii(ls[1..]);
      EncodeConcat(ls[0], "\n");
      EncodeConcat(ls[0] + "\n", Terminated(ls[1..]));
    }
  }
}
