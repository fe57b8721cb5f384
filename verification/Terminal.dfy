/** The socket's owner: `TermWebSocket_socket`, `_accept`, `_run` and `_send`, which share the
    globals `conn` and `ser_fd`, the two Java threads that call them, and the stand-alone echo
    server `main`.
 */
module Terminal {
  import opened Bytes
  import opened Rfc6455
  import opened Transport
  import opened FrameHeads
  import opened Receive
  import opened Delivery
  import opened Lifecycle
  import opened Accepting
  import Handshake

  // ---------------------------------------------------------------- sending

  /** The bytes of a series of complete `send` calls on an open connection. */
  function SendBytes(calls: seq<seq<byte>>): seq<byte>
    requires forall i :: 0 <= i < |calls| ==> |calls[i]| < 0xFFFF
  {
    if calls == [] then [] else SendBytes(calls[..|calls| - 1]) + EncodeFrame(TextFrame(calls[|calls| - 1]))
  }

  function TextFrames(calls: seq<seq<byte>>): (r: seq<Frame>)
    requires forall i :: 0 <= i < |calls| ==> |calls[i]| < 0xFFFF
    ensures AllValid(r) && |r| == |calls|
  {
    seq(|calls|, i requires 0 <= i < |calls| => TextFrame(calls[i]))
  }

  lemma {:induction false} EncodeFramesAppend(fs: seq<Frame>, f: Frame)
    requires AllValid(fs) && f.Valid()
    ensures EncodeFrames(fs + [f]) == EncodeFrames(fs) + EncodeFrame(f)
  {
    hide EncodeFrame;
    if fs == [] {
      assert [] + [f] == [f] && [f][1..] == [];
    } else {
      EncodeFramesAppend(fs[1..], f);
      assert (fs + [f])[1..] == fs[1..] + [f];
      Associative(EncodeFrame(fs[0]), EncodeFrames(fs[1..]), EncodeFrame(f));
    }
  }

  lemma {:induction false} SentFrames(calls: seq<seq<byte>>)
    requires forall i :: 0 <= i < |calls| ==> |calls[i]| < 0xFFFF
    ensures SendBytes(calls) == EncodeFrames(TextFrames(calls))
  {
    hide EncodeFrame;
    if calls != [] {
      var before, last := calls[..|calls| - 1], calls[|calls| - 1];
      SentFrames(before);
      EncodeFramesAppend(TextFrames(before), TextFrame(last));
      assert TextFrames(calls) == TextFrames(before) + [TextFrame(last)];
    }
  }

  /** A stream of sends has exactly one reading as frames: one text frame a call, in order. */
  lemma SendsParseUniquely(calls: seq<seq<byte>>, fs: seq<Frame>)
    requires forall i :: 0 <= i < |calls| ==> |calls[i]| < 0xFFFF
    requires AllValid(fs)
    ensures ParseFrames(SendBytes(calls)) == Some(TextFrames(calls))
    ensures EncodeFrames(fs) == SendBytes(calls) <==> fs == TextFrames(calls)
  {
    SentFrames(calls);
    ParseOfEncodeFrames(TextFrames(calls));
    EncodingIsInjective(fs, TextFrames(calls));
  }

  // ---------------------------------------------------------------- handshake and loop

  /** How a served connection ends: in the handshake or in the loop behind it. */
  datatype End = HandshakeBroken | LoopEnded(outcome: Outcome)

  datatype Served = Served(answer: Handshake.Answer, end: End, frames: seq<Received>)

  /** One read and the handshake on the buffer it filled, then the loop on what follows. */
  function Serve(net: Net, buffer: seq<byte>, memory: Memory, echo: bool, sha1: seq<byte> -> seq<byte>,
                 base64: seq<byte> -> seq<byte>): (r: Served)
    ensures echo ==> Writable(r.frames)
  {
    var answer := Handshake.AnswerTo(buffer, sha1, base64);
    if answer == Handshake.Broken then Served(answer, HandshakeBroken, []) else
    var s := RunLoop(net.After(1024), memory, echo);
    Served(answer, LoopEnded(s.outcome), s.frames)
  }

  // ---------------------------------------------------------------- the terminal's socket

  class TermWebSocket {
    var conn: int
    var serFd: int
    var closed: seq<int>
    var receiver: Receiver

    constructor ()
      ensures Descriptors() == START && fresh(receiver)
    {
      conn, serFd, closed := ERROR_FD, ERROR_FD, [];
      receiver := new Receiver();
    }

    ghost function Descriptors(): Fds
      reads this
    {
      Fds(conn, serFd, closed)
    }

    method Socket(fd: int, setupFailed: bool)
      modifies this
      ensures Descriptors() == Step(old(Descriptors()), Event.Socket(fd, setupFailed))
      ensures receiver == old(receiver)
    {
      serFd := fd;
      if setupFailed {
        closed := closed + [fd];
      }
    }

    method Accept(fd: int, peer: Connection, sha1: seq<byte> -> seq<byte>, base64: seq<byte> -> seq<byte>)
      returns (answer: Handshake.Answer, ghost buffer: seq<byte>)
      modifies this, peer
      ensures Descriptors() == Step(old(Descriptors()), Event.Accept(fd))
      ensures receiver == old(receiver)
      ensures peer.net == old(peer.net).After(1024)
      ensures |buffer| == 1024 && old(peer.net).Got(1024) <= buffer
      ensures answer == Handshake.AnswerTo(buffer, sha1, base64)
      ensures peer.outgoing == old(peer.outgoing) + Handshake.Response(answer)
    {
      hide Handshake.Response;
      hide Handshake.AnswerTo;
      conn := fd;
      answer, buffer := Handshake.Shakehands(peer, sha1, base64);
    }

    /** Runs the receive loop; both descriptors are closed when the loop ends by itself. */
    method Run(peer: Connection, memory: Memory) returns (outcome: Outcome)
      modifies this, peer`net, receiver
      ensures var s := RunLoop(old(peer.net), memory, false);
              && outcome == s.outcome && peer.net == s.net
              && receiver == old(receiver) && receiver.calls == old(receiver.calls) + Chunks(s.frames)
      ensures Descriptors() == if outcome == Closed then Step(old(Descriptors()), Event.Run) else old(Descriptors())
    {
      hide RunLoop;
      outcome := DeliverLoop(peer, memory, receiver);
      if outcome != Closed {
        return;
      }
      if conn != ERROR_FD {
        closed := closed + [conn];
        conn := ERROR_FD;
      }
      if serFd != ERROR_FD {
        closed := closed + [serFd];
        serFd := ERROR_FD;
      }
    }

    /** The thread that serves one terminal: accept, then run. It stops where the handshake leaves
        defined behaviour. */
    method ServeTerminal(fd: int, peer: Connection, memory: Memory, sha1: seq<byte> -> seq<byte>,
                         base64: seq<byte> -> seq<byte>)
      returns (answer: Handshake.Answer, end: End, ghost buffer: seq<byte>)
      modifies this, peer, receiver
      ensures |buffer| == 1024 && old(peer.net).Got(1024) <= buffer
      ensures var r := Serve(old(peer.net), buffer, memory, false, sha1, base64);
              && answer == r.answer && end == r.end
              && peer.outgoing == old(peer.outgoing) + Handshake.Response(answer)
              && receiver == old(receiver) && receiver.calls == old(receiver.calls) + Chunks(r.frames)
      ensures var accepted := Step(old(Descriptors()), Event.Accept(fd));
              Descriptors() == if end == LoopEnded(Closed) then Step(accepted, Event.Run) else accepted
    {
      hide Handshake.Response;
      hide Handshake.AnswerTo;
      hide RunLoop;
      hide Step;
      answer, buffer := Accept(fd, peer, sha1, base64);
      if answer == Handshake.Broken {
        end := HandshakeBroken;
      } else {
        var outcome := Run(peer, memory);
        end := LoopEnded(outcome);
      }
    }

    /** `send`: the length header and then the first `jlength` bytes of the array. Nothing is
        written once the connection is closed. `inRange` is false when `write` is asked for bytes
        outside the array, where the C code has no defined behaviour. */
    method Send(jdata: array<byte>, jlength: int, peer: Connection) returns (inRange: bool)
      requires jlength < 0x8000_0000
      modifies peer`outgoing
      ensures inRange <==> conn == ERROR_FD || 0 <= jlength <= jdata.Length
      ensures conn == ERROR_FD ==> peer.outgoing == old(peer.outgoing)
      ensures conn != ERROR_FD && inRange ==>
                (peer.outgoing == old(peer.outgoing) + EncodeFrame(TextFrame(jdata[..jlength])) <==> jlength < 0xFFFF)
    {
      hide EncodeHeader;
      hide TextHeader;
      inRange := true;
      if conn == ERROR_FD {
        return;
      }
      SendFrameLength(peer, jlength);
      if jlength < 0 || jlength > jdata.Length {
        return false;
      }
      ghost var head := peer.outgoing[|old(peer.outgoing)|..];
      peer.Write(jdata, jlength);
      SendAppends(old(peer.outgoing), head, jdata[..jlength]);
    }

    /** The thread that reads the shell's output: each read, into a buffer of 4096 bytes, is sent.
        `outputs` is what the reads hand over until the output ends. */
    method RelayOutput(outputs: seq<seq<byte>>, peer: Connection)
      requires forall i :: 0 <= i < |outputs| ==> |outputs[i]| <= 4096
      modifies peer`outgoing
      ensures peer.outgoing == if conn == ERROR_FD then old(peer.outgoing) else old(peer.outgoing) + SendBytes(outputs)
    {
      hide EncodeFrame;
      var buffer := new byte[4096](_ => 0);
      NothingSent(peer.outgoing);
      for k := 0 to |outputs|
        invariant peer.outgoing ==
                  if conn == ERROR_FD then old(peer.outgoing) else old(peer.outgoing) + SendBytes(outputs[..k])
      {
        var read := outputs[k];
        forall i | 0 <= i < |read| {
          buffer[i] := read[i];
        }
        assert buffer[..|read|] == read;
        var _ := Send(buffer, |read|, peer);
        OneMoreSent(old(peer.outgoing), outputs, k);
      }
      assert outputs[..|outputs|] == outputs;
    }
  }

  lemma NothingSent(before: seq<byte>)
    ensures before + SendBytes([]) == before
  {
  }

  lemma OneMoreSent(before: seq<byte>, outputs: seq<seq<byte>>, k: nat)
    requires k < |outputs| && forall i :: 0 <= i < |outputs| ==> |outputs[i]| <= 4096
    ensures before + SendBytes(outputs[..k]) + EncodeFrame(TextFrame(outputs[k]))
         == before + SendBytes(outputs[..k + 1])
  {
    hide EncodeFrame;
    assert outputs[..k + 1][..k] == outputs[..k];
    Associative(before, SendBytes(outputs[..k]), EncodeFrame(TextFrame(outputs[k])));
  }

  /** Behind what was written before, header and payload are the frame exactly when the header is. */
  lemma SendAppends(before: seq<byte>, head: seq<byte>, payload: seq<byte>)
    requires |payload| < 0x1_0000_0000_0000_0000
    ensures before + head + payload == before + EncodeFrame(TextFrame(payload))
       <==> head == EncodeHeader(TextHeader(|payload|))
  {
    var header := EncodeHeader(TextHeader(|payload|));
    Associative(before, head, payload);
    ConcatEqual(before, head + payload, before, header + payload);
    if head + payload == header + payload {
      ConcatEqual(head, payload, header, payload);
    }
  }

  // ---------------------------------------------------------------- main

  /** `main`: one handshake, then the echo loop, then two calls of `close`. There `ser_fd` is what
      `passive_server(4444, 20)` returned, a port or -999 and never a descriptor: here `port`. */
  method EchoServer(c: Connection, memory: Memory, sha1: seq<byte> -> seq<byte>, base64: seq<byte> -> seq<byte>,
                    port: int, conn: int)
    returns (answer: Handshake.Answer, end: End, closed: seq<int>, ghost buffer: seq<byte>)
    modifies c
    ensures |buffer| == 1024 && old(c.net).Got(1024) <= buffer
    ensures var r := Serve(old(c.net), buffer, memory, true, sha1, base64);
            var written := old(c.outgoing) + Output(r);
            && answer == r.answer && end == r.end
            && written <= c.outgoing && (end != LoopEnded(NoLengthCode) ==> c.outgoing == written)
    ensures closed == if end == LoopEnded(Closed) then [conn, port] else []
  {
    hide Handshake.AnswerTo;
    hide RunLoop;
    hide EchoBytes;
    hide Handshake.Response;
    answer, buffer := Handshake.Shakehands(c, sha1, base64);
    closed := [];
    if answer == Handshake.Broken {
      end := HandshakeBroken;
      OutputOf(old(c.outgoing), answer, []);
      NothingEchoed(c.outgoing);
    } else {
      OutputOf(old(c.outgoing), answer, RunLoop(c.net, memory, true).frames);
      var outcome := EchoLoop(c, memory);
      end := LoopEnded(outcome);
      if outcome == Closed {
        closed := [conn, port];
      }
    }
  }

  lemma OutputOf(before: seq<byte>, answer: Handshake.Answer, frames: seq<Received>)
    requires Writable(frames)
    ensures before + (Handshake.Response(answer) + EchoBytes(frames))
         == before + Handshake.Response(answer) + EchoBytes(frames)
  {
    Associative(before, Handshake.Response(answer), EchoBytes(frames));
  }

  /** What `main` writes, as far as the echo has a header for each frame. */
  function Output(served: Served): seq<byte>
    requires Writable(served.frames)
  {
    Handshake.Response(served.answer) + EchoBytes(served.frames)
  }

  lemma NothingEchoed(before: seq<byte>)
    ensures before + EchoBytes([]) == before
  {
  }

  // ---------------------------------------------------------------- from request to last frame

  /** The handshake takes one read; the frames are intact behind it exactly when that read stopped
      at the end of the request. */
  lemma FramesIntactIffRequestReadAlone(request: seq<byte>, frames: seq<byte>, most: nat, later: seq<nat>)
    ensures Net(request + frames, [most] + later).After(1024) == Net(frames, later)
       <==> |Net(request + frames, [most] + later).Got(1024)| == |request|
  {
  }

  /** A client's request as the buffer holds it: complete, without a NUL, and with a key. The bytes
      behind it are whatever was there before. */
  predicate Asks(request: seq<byte>, buffer: seq<byte>) {
    && |buffer| == 1024 && request <= buffer && 0 !in request
    && Handshake.Scan(request).blank && RequestedKey(Handshake.Scan(request).lines).Some?
  }

  function AskedKey(request: seq<byte>, buffer: seq<byte>): seq<byte>
    requires Asks(request, buffer)
  {
    RequestedKey(Handshake.Scan(request).lines).value
  }

  /** The answer that section 4.2.2 of RFC 6455 asks for. */
  function RightAnswer(request: seq<byte>, buffer: seq<byte>, sha1: seq<byte> -> seq<byte>,
                       base64: seq<byte> -> seq<byte>): Handshake.Answer
    requires Asks(request, buffer)
  {
    Handshake.Accept(AcceptValue(AskedKey(request, buffer), sha1, base64))
  }

  /** When the program gives that answer. */
  predicate Welcomed(request: seq<byte>, buffer: seq<byte>, sha1: seq<byte> -> seq<byte>)
    requires Asks(request, buffer)
  {
    var key := AskedKey(request, buffer);
    0 in buffer && Serves(Handshake.Scan(request).lines, key) && 0 !in sha1(key + Handshake.GUID)
  }

  /** The stream of a request that one read takes, with frames behind it. */
  function Stream(request: seq<byte>, fs: seq<Frame>, cuts: seq<seq<nat>>, tail: seq<nat>): Net
    requires ClientFrames(fs) && CutsOf(cuts, fs)
  {
    Net(request + EncodeFrames(fs), [|request|] + (Script(fs, cuts) + tail))
  }

  lemma WelcomedIff(request: seq<byte>, buffer: seq<byte>, sha1: seq<byte> -> seq<byte>,
                    base64: seq<byte> -> seq<byte>)
    requires Asks(request, buffer) && AreHashes(sha1, base64)
    requires NoCollision(Handshake.Scan(request).lines, AskedKey(request, buffer), sha1)
    ensures Handshake.AnswerTo(buffer, sha1, base64) == RightAnswer(request, buffer, sha1, base64)
       <==> Welcomed(request, buffer, sha1)
  {
    hide Serves;
    hide AcceptValue;
    hide RequestedKey;
    hide Handshake.AnswerTo;
    RequestAcceptedIff(request, buffer, sha1, base64);
  }

  lemma StreamBehindRequest(request: seq<byte>, fs: seq<Frame>, cuts: seq<seq<nat>>, tail: seq<nat>)
    requires ClientFrames(fs) && CutsOf(cuts, fs) && |request| <= 1024
    ensures Stream(request, fs, cuts, tail).After(1024) == Net(EncodeFrames(fs), Script(fs, cuts) + tail)
  {
    FramesIntactIffRequestReadAlone(request, EncodeFrames(fs), |request|, Script(fs, cuts) + tail);
  }

  /** The terminal, from the first byte to the last: for a request that one read takes, with any list
      of masked frames in any reads behind it, the client gets the answer it may expect, the loop ends
      by itself and the payloads are delivered if and only if the program serves the key, the digest
      has no zero octet, every frame fits and every chunk starts in phase. */
  lemma TerminalRightIff(
    request: seq<byte>, buffer: seq<byte>, fs: seq<Frame>, cuts: seq<seq<nat>>, tail: seq<nat>, memory: Memory,
    sha1: seq<byte> -> seq<byte>, base64: seq<byte> -> seq<byte>)
    requires Asks(request, buffer) && AreHashes(sha1, base64)
    requires NoCollision(Handshake.Scan(request).lines, AskedKey(request, buffer), sha1)
    requires ClientFrames(fs) && CutsOf(cuts, fs)
    ensures var r := Serve(Stream(request, fs, cuts, tail), buffer, memory, false, sha1, base64);
            (&& r.answer == RightAnswer(request, buffer, sha1, base64)
             && r.end == LoopEnded(Closed) && Flatten(Chunks(r.frames)) == Payloads(fs))
              <==> (Welcomed(request, buffer, sha1) && AllFit(fs) && AllInPhase(fs, cuts))
  {
    hide RunLoop;
    hide Welcomed;
    hide Handshake.AnswerTo;
    WelcomedIff(request, buffer, sha1, base64);
    StreamBehindRequest(request, fs, cuts, tail);
    DeliversIffInPhase(fs, cuts, tail, memory);
  }

  /** A request that names no key gets no answer, and its frames are served all the same. */
  lemma UnansweredIsServed(
    request: seq<byte>, buffer: seq<byte>, fs: seq<Frame>, cuts: seq<seq<nat>>, tail: seq<nat>, memory: Memory,
    sha1: seq<byte> -> seq<byte>, base64: seq<byte> -> seq<byte>)
    requires |buffer| == 1024 && request <= buffer && 0 !in request && 0 in buffer && Handshake.Scan(request).blank
    requires var lines := Handshake.Scan(request).lines;
             forall k :: 0 <= k < |lines| ==>
               |lines[k]| < 256 && !Handshake.Contains(lines[k], Handshake.Ascii("Sec-WebSocket-Key"))
    requires ClientFrames(fs) && CutsOf(cuts, fs)
    ensures var r := Serve(Stream(request, fs, cuts, tail), buffer, memory, false, sha1, base64);
            && r.answer == Handshake.Silent
            && ((r.end == LoopEnded(Closed) && Flatten(Chunks(r.frames)) == Payloads(fs))
                <==> (AllFit(fs) && AllInPhase(fs, cuts)))
  {
    hide RunLoop;
    hide Handshake.Scan;
    hide Handshake.Contains;
    hide Handshake.Ascii;
    hide Handshake.AnswerLines;
    hide CString;
    Handshake.StaleBytesDoNotMatter(request, buffer);
    Handshake.SilentIffNoLineNamesKey(Handshake.Scan(request).lines, sha1, base64);
    CStringWhole(buffer);
    StreamBehindRequest(request, fs, cuts, tail);
    DeliversIffInPhase(fs, cuts, tail, memory);
  }

  /** The echo server, from the first byte to the last: under exactly the same conditions it ends by
      itself and writes the response that the request calls for, then each payload in a text frame of
      its own, in order, and nothing else. */
  lemma EchoServerRightIff(
    request: seq<byte>, buffer: seq<byte>, fs: seq<Frame>, cuts: seq<seq<nat>>, tail: seq<nat>, memory: Memory,
    sha1: seq<byte> -> seq<byte>, base64: seq<byte> -> seq<byte>)
    requires Asks(request, buffer) && AreHashes(sha1, base64)
    requires NoCollision(Handshake.Scan(request).lines, AskedKey(request, buffer), sha1)
    requires ClientFrames(fs) && CutsOf(cuts, fs)
    ensures var r := Serve(Stream(request, fs, cuts, tail), buffer, memory, true, sha1, base64);
            (&& r.end == LoopEnded(Closed)
             && Output(r) == Handshake.Response(RightAnswer(request, buffer, sha1, base64)) + EncodeFrames(Answers(fs)))
              <==> (Welcomed(request, buffer, sha1) && AllFit(fs) && AllInPhase(fs, cuts))
  {
    hide *;
    WelcomedIff(request, buffer, sha1, base64);
    RightAnswerHasNoCr(request, buffer, sha1, base64);
    EchoServerEnds(request, buffer, fs, cuts, tail, memory, sha1, base64);
    var answer := Handshake.AnswerTo(buffer, sha1, base64);
    if answer != Handshake.Broken && AllFit(fs) {
      EchoServed(request, buffer, fs, cuts, tail, memory, sha1, base64);
      EchoedRightIffInPhase(fs, cuts);
      AnswerHasNoCr(buffer, sha1, base64);
      EchoOutputIff(answer, RightAnswer(request, buffer, sha1, base64), fs, cuts);
    }
  }

  lemma EchoServerEnds(
    request: seq<byte>, buffer: seq<byte>, fs: seq<Frame>, cuts: seq<seq<nat>>, tail: seq<nat>, memory: Memory,
    sha1: seq<byte> -> seq<byte>, base64: seq<byte> -> seq<byte>)
    requires Asks(request, buffer) && ClientFrames(fs) && CutsOf(cuts, fs)
    ensures var r := Serve(Stream(request, fs, cuts, tail), buffer, memory, true, sha1, base64);
            && r.answer == Handshake.AnswerTo(buffer, sha1, base64)
            && (r.end == LoopEnded(Closed) <==> r.answer != Handshake.Broken && AllFit(fs))
  {
    hide RunLoop;
    hide AllFit;
    hide Stream;
    hide Handshake.AnswerTo;
    StreamBehindRequest(request, fs, cuts, tail);
    EchoesIffInPhase(fs, cuts, tail, memory);
  }

  /** What the echo server does with frames that fit, whatever the answer. */
  lemma EchoServed(
    request: seq<byte>, buffer: seq<byte>, fs: seq<Frame>, cuts: seq<seq<nat>>, tail: seq<nat>, memory: Memory,
    sha1: seq<byte> -> seq<byte>, base64: seq<byte> -> seq<byte>)
    requires Asks(request, buffer) && ClientFrames(fs) && CutsOf(cuts, fs) && AllFit(fs)
    requires Handshake.AnswerTo(buffer, sha1, base64) != Handshake.Broken
    ensures var r := Serve(Stream(request, fs, cuts, tail), buffer, memory, true, sha1, base64);
            && r.end == LoopEnded(Closed)
            && Output(r) == Handshake.Response(Handshake.AnswerTo(buffer, sha1, base64))
                            + EncodeFrames(Echoed(fs, cuts))
  {
    hide RunLoop;
    hide Handshake.AnswerTo;
    hide Handshake.Response;
    hide EncodeFrames;
    hide Echoed;
    hide AllFit;
    hide EchoBytes;
    hide Stream;
    hide Net.Take;
    StreamBehindRequest(request, fs, cuts, tail);
    AllFramesSeen(fs, cuts, tail, memory, true);
    EchoIsFrames(fs, cuts);
  }

  lemma EchoOutputIff(a: Handshake.Answer, right: Handshake.Answer, fs: seq<Frame>, cuts: seq<seq<nat>>)
    requires ClientFrames(fs) && CutsOf(cuts, fs) && AllFit(fs)
    requires right.Accept? && Handshake.CR !in right.value
    requires a.Accept? ==> Handshake.CR !in a.value
    ensures Handshake.Response(a) + EncodeFrames(Echoed(fs, cuts))
         == Handshake.Response(right) + EncodeFrames(Answers(fs))
       <==> a == right && Echoed(fs, cuts) == Answers(fs)
  {
    hide Handshake.Response;
    hide Handshake.Ascii;
    EchoedStart(fs, cuts);
    hide EncodeFrames;
    hide Echoed;
    hide Answers;
    hide AllFit;
    EncodingIsInjective(Echoed(fs, cuts), Answers(fs));
    ResponsesDiffer(a, right, EncodeFrames(Echoed(fs, cuts)), EncodeFrames(Answers(fs)));
  }

  lemma RightAnswerHasNoCr(request: seq<byte>, buffer: seq<byte>, sha1: seq<byte> -> seq<byte>,
                           base64: seq<byte> -> seq<byte>)
    requires Asks(request, buffer) && AreHashes(sha1, base64)
    ensures var right := RightAnswer(request, buffer, sha1, base64);
            right.Accept? && Handshake.CR !in right.value
  {
  }

  lemma AnswerHasNoCr(buffer: seq<byte>, sha1: seq<byte> -> seq<byte>, base64: seq<byte> -> seq<byte>)
    requires AreHashes(sha1, base64)
    ensures var a := Handshake.AnswerTo(buffer, sha1, base64);
            a.Accept? ==> Handshake.CR !in a.value
  {
    LinesHaveNoCr(Handshake.Scan(CString(buffer)).lines, sha1, base64);
  }

  lemma {:induction false} LinesHaveNoCr(lines: seq<seq<byte>>, sha1: seq<byte> -> seq<byte>,
                                         base64: seq<byte> -> seq<byte>)
    requires AreHashes(sha1, base64)
    ensures var a := Handshake.AnswerLines(lines, sha1, base64);
            a.Accept? ==> Handshake.CR !in a.value
  {
    hide Handshake.Contains;
    if lines != [] {
      LinesHaveNoCr(lines[1..], sha1, base64);
    }
  }

  lemma EchoedStart(fs: seq<Frame>, cuts: seq<seq<nat>>)
    requires ClientFrames(fs) && CutsOf(cuts, fs) && AllFit(fs)
    ensures var bytes := EncodeFrames(Echoed(fs, cuts));
            bytes != [] ==> bytes[0] == 0x81
  {
  }

  /** The text before the first CR is the same on both sides. */
  lemma FirstCrSplits(v: seq<byte>, w: seq<byte>, x: seq<byte>, y: seq<byte>)
    requires Handshake.CR !in v && Handshake.CR !in w
    requires v + [Handshake.CR] + x == w + [Handshake.CR] + y
    ensures v == w && x == y
  {
    var a, b := v + [Handshake.CR] + x, w + [Handshake.CR] + y;
    NoCrBefore(v, x);
    NoCrBefore(w, y);
    assert v == a[..|v|] && w == b[..|w|];
    assert x == a[|v| + 1..] && y == b[|w| + 1..];
  }

  lemma NoCrBefore(v: seq<byte>, x: seq<byte>)
    requires Handshake.CR !in v
    ensures var a := v + [Handshake.CR] + x;
            a[|v|] == Handshake.CR && forall i :: 0 <= i < |v| ==> a[i] != Handshake.CR
  {
  }

  /** Output with a response in front can be told apart: answer and frames are the same. */
  lemma ResponsesDiffer(a: Handshake.Answer, right: Handshake.Answer, x: seq<byte>, y: seq<byte>)
    requires right.Accept? && Handshake.CR !in right.value
    requires a.Accept? ==> Handshake.CR !in a.value
    requires x != [] ==> x[0] == 0x81
    ensures Handshake.Response(a) + x == Handshake.Response(right) + y
       <==> a == right && x == y
  {
    hide Handshake.Ascii;
    var start, end := Handshake.RESPONSE_START, [Handshake.CR, Handshake.LF, Handshake.CR, Handshake.LF];
    Regroup(start, right.value, end, y);
    if a.Accept? {
      Regroup(start, a.value, end, x);
      SameResponse(a.value, x, right.value, y);
    } else {
      NothingBefore(x);
      ResponseStart();
      StartsOtherwise(start, right.value + (end + y), x);
    }
  }

  lemma StartsOtherwise(start: seq<byte>, more: seq<byte>, x: seq<byte>)
    requires start != [] && (x != [] ==> x[0] != start[0])
    ensures x != start + more
  {
    assert (start + more)[0] == start[0];
  }

  lemma ResponseStart()
    ensures |Handshake.RESPONSE_START| > 0 && Handshake.RESPONSE_START[0] == 72
  {
  }

  lemma Regroup(start: seq<byte>, value: seq<byte>, end: seq<byte>, x: seq<byte>)
    ensures start + value + end + x == start + (value + (end + x))
  {
  }

  lemma SameResponse(v: seq<byte>, x: seq<byte>, w: seq<byte>, y: seq<byte>)
    requires Handshake.CR !in v && Handshake.CR !in w
    ensures var start, end := Handshake.RESPONSE_START, [Handshake.CR, Handshake.LF, Handshake.CR, Handshake.LF];
            start + (v + (end + x)) == start + (w + (end + y)) <==> v == w && x == y
  {
    hide Handshake.Ascii;
    var start, end := Handshake.RESPONSE_START, [Handshake.CR, Handshake.LF, Handshake.CR, Handshake.LF];
    ConcatEqual(start, v + (end + x), start, w + (end + y));
    if v + (end + x) == w + (end + y) {
      FirstCrOut(v, x);
      FirstCrOut(w, y);
      FirstCrSplits(v, w, end[1..] + x, end[1..] + y);
      ConcatEqual(end[1..], x, end[1..], y);
    }
  }

  lemma FirstCrOut(v: seq<byte>, x: seq<byte>)
    ensures var end := [Handshake.CR, Handshake.LF, Handshake.CR, Handshake.LF];
            v + (end + x) == v + [Handshake.CR] + (end[1..] + x)
  {
  }
}
