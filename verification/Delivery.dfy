/** When the receive loops deliver what the client sent: for every list of masked frames and
    every way of cutting the payloads into reads, the exact condition.
 */
module Delivery {
  import opened Bytes
  import opened Rfc6455
  import opened Transport
  import opened FrameHeads
  import opened Receive

  // ---------------------------------------------------------------- what the client sends

  /** A masked frame, as section 5.1 of RFC 6455 asks of a client; its payload may be empty. */
  predicate ClientFrame(f: Frame) {
    f.Valid() && f.header.key.Some?
  }

  predicate ClientFrames(fs: seq<Frame>) {
    forall i :: 0 <= i < |fs| ==> ClientFrame(fs[i])
  }

  function Key(f: Frame): (key: seq<byte>)
    requires ClientFrame(f)
    ensures |key| == 4
  {
    f.header.key.value
  }

  function Sum(cut: seq<nat>): nat {
    if cut == [] then 0 else cut[0] + Sum(cut[1..])
  }

  /** Reads that hand over n bytes between them: none fails or gives more than it was asked for. */
  predicate Pieces(cut: seq<nat>, n: nat) {
    Sum(cut) == n && forall i :: 0 <= i < |cut| ==> 0 < cut[i] <= BUFFER
  }

  /** A cut of n payload bytes into the reads that hand them over, none of which runs past the
      frame. An empty payload is read too, once, and that read finds nothing. */
  predicate CutOf(cut: seq<nat>, n: nat) {
    if n == 0 then cut == [0] else Pieces(cut, n)
  }

  lemma CutSum(cut: seq<nat>, n: nat)
    requires CutOf(cut, n)
    ensures Sum(cut) == n
  {
  }

  predicate CutsOf(cuts: seq<seq<nat>>, fs: seq<Frame>) {
    |cuts| == |fs| && forall i :: 0 <= i < |fs| ==> CutOf(cuts[i], |fs[i].payload|)
  }

  /** The reads of a whole session: each header read in full, each payload as its cut says. */
  function Script(fs: seq<Frame>, cuts: seq<seq<nat>>): seq<nat>
    requires |cuts| == |fs|
  {
    if fs == [] then [] else HeadScript(fs[0].header.form) + cuts[0] + Script(fs[1..], cuts[1..])
  }

  function Payloads(fs: seq<Frame>): seq<byte> {
    if fs == [] then [] else fs[0].payload + Payloads(fs[1..])
  }

  // ---------------------------------------------------------------- one payload

  /** What the loop makes of a payload that reaches it in the given cut, the first octet having
      been masked with phase `phase`: each chunk is unmasked from phase 0. */
  function Unmasked(data: seq<byte>, key: seq<byte>, cut: seq<nat>, phase: nat): seq<seq<byte>>
    requires |key| == 4 && Sum(cut) == |data|
    decreases |cut|
  {
    if data == [] then [] else
    [Mask(Mask(data[..cut[0]], key, phase), key, 0)] + Unmasked(data[cut[0]..], key, cut[1..], phase + cut[0])
  }

  /** Every chunk starts where the key looks the same as at its first octet. */
  predicate InPhase(key: seq<byte>, cut: seq<nat>, phase: nat)
    requires |key| == 4
  {
    cut == [] || (PhasesAgree(key, phase, 0, cut[0]) && InPhase(key, cut[1..], phase + cut[0]))
  }

  /** One chunk comes out right exactly when its offset does not show in the key. */
  lemma ChunkRightIffInPhase(chunk: seq<byte>, key: seq<byte>, offset: nat)
    requires |key| == 4
    ensures Mask(Mask(chunk, key, offset), key, 0) == chunk
       <==> forall i :: 0 <= i < |chunk| ==> KeyOctet(key, offset, i) == KeyOctet(key, 0, i)
  {
    MaskTwice(chunk, key, offset, 0);
  }

  /** Whatever the phases, as many bytes come out as went in. */
  lemma {:induction false} UnmaskedLength(data: seq<byte>, key: seq<byte>, cut: seq<nat>, phase: nat)
    requires |key| == 4 && Sum(cut) == |data|
    ensures |Flatten(Unmasked(data, key, cut, phase))| == |data|
    decreases |cut|
  {
    hide Mask;
    if data != [] {
      UnmaskedLength(data[cut[0]..], key, cut[1..], phase + cut[0]);
    }
  }

  lemma {:induction false} NothingInPhase(key: seq<byte>, cut: seq<nat>, phase: nat)
    requires |key| == 4 && Sum(cut) == 0
    ensures InPhase(key, cut, phase)
  {
    if cut != [] {
      NothingInPhase(key, cut[1..], phase + cut[0]);
    }
  }

  /** A payload comes out right exactly when each of its chunks is in phase. */
  lemma {:induction false} PayloadRightIffInPhase(data: seq<byte>, key: seq<byte>, cut: seq<nat>, phase: nat)
    requires |key| == 4 && Sum(cut) == |data|
    ensures Flatten(Unmasked(data, key, cut, phase)) == data <==> InPhase(key, cut, phase)
    decreases |cut|
  {
    hide Mask;
    hide Xor;
    hide KeyOctet;
    if data == [] {
      NothingInPhase(key, cut, phase);
    } else {
      var n := cut[0];
      PayloadRightIffInPhase(data[n..], key, cut[1..], phase + n);
      ChunkRightIffInPhase(data[..n], key, phase);
      var chunk := Mask(Mask(data[..n], key, phase), key, 0);
      ConcatEqual(chunk, Flatten(Unmasked(data[n..], key, cut[1..], phase + n)), data[..n], data[n..]);
      Cut(data, n);
    }
  }

  /** Cuts at multiples of four are in phase for every key. */
  lemma {:induction false} AlignedCutInPhase(key: seq<byte>, cut: seq<nat>, phase: nat)
    requires |key| == 4 && phase % 4 == 0
    requires forall i :: 0 <= i < |cut| - 1 ==> cut[i] % 4 == 0
    ensures InPhase(key, cut, phase)
  {
    if cut != [] {
      WholePeriods(key, phase, cut[0]);
      if |cut| > 1 {
        AlignedCutInPhase(key, cut[1..], phase + cut[0]);
      }
    }
  }

  lemma ReadStep(first: seq<byte>, others: seq<byte>, script: seq<nat>)
    requires 0 < |first| <= BUFFER
    ensures var net := Net(first + others, [|first|] + script);
            net.Got(BUFFER) == first && net.After(BUFFER) == Net(others, script)
  {
  }

  lemma CutTail(cut: seq<nat>, n: nat)
    requires Pieces(cut, n) && n > 0
    ensures cut != [] && 0 < cut[0] <= BUFFER && cut[0] <= n && Pieces(cut[1..], n - cut[0])
    ensures cut[1..] == [] <==> cut[0] == n
  {
    assert forall i :: 0 <= i < |cut| - 1 ==> cut[1..][i] == cut[i + 1];
  }

  lemma FirstOfCut(cut: seq<nat>, tail: seq<nat>)
    requires cut != []
    ensures cut + tail == [cut[0]] + (cut[1..] + tail)
  {
  }

  /** Masked data as its first n octets and the others, each masked from its own phase. */
  lemma MaskedParts(data: seq<byte>, key: seq<byte>, phase: nat, n: nat, rest: seq<byte>)
    requires |key| == 4 && n <= |data|
    ensures Mask(data, key, phase) + rest == Mask(data[..n], key, phase) + (Mask(data[n..], key, phase + n) + rest)
  {
    MaskCut(data, key, phase, n);
    hide Mask;
    Cut(Mask(data, key, phase), n);
    Associative(Mask(data[..n], key, phase), Mask(data[n..], key, phase + n), rest);
  }

  /** The first read of a masked payload, and what it leaves. */
  lemma PayloadStep(data: seq<byte>, key: seq<byte>, cut: seq<nat>, phase: nat, rest: seq<byte>, tail: seq<nat>)
    requires |key| == 4 && Pieces(cut, |data|) && data != []
    ensures var net := Net(Mask(data, key, phase) + rest, cut + tail);
            && net.Got(BUFFER) == Mask(data[..cut[0]], key, phase)
            && net.After(BUFFER) == Net(Mask(data[cut[0]..], key, phase + cut[0]) + rest, cut[1..] + tail)
  {
    hide Mask;
    hide Net.Take;
    hide KeyOctet;
    hide Xor;
    CutTail(cut, |data|);
    hide Pieces;
    hide Sum;
    var n := cut[0];
    MaskedParts(data, key, phase, n, rest);
    FirstOfCut(cut, tail);
    ReadStep(Mask(data[..n], key, phase), Mask(data[n..], key, phase + n) + rest, cut[1..] + tail);
  }

  /** A payload that fits the buffer is read to its last byte and no further. */
  lemma {:induction false} PayloadIsRead(
    data: seq<byte>, key: seq<byte>, cut: seq<nat>, at: nat, rest: seq<byte>, tail: seq<nat>)
    requires |key| == 4 && Pieces(cut, |data|) && data != [] && at + |data| <= BUFFER
    ensures ReadPayload(Net(Mask(data, key, at) + rest, cut + tail), key, at + |data|, at)
         == PayloadRead(Unmasked(data, key, cut, at), Net(rest, tail), false)
    decreases |cut|
  {
    hide Mask;
    hide Xor;
    hide KeyOctet;
    hide Sum;
    hide Pieces;
    hide Net.Take;
    PayloadStep(data, key, cut, at, rest, tail);
    CutTail(cut, |data|);
    var n := cut[0];
    if n < |data| {
      PayloadIsRead(data[n..], key, cut[1..], at + n, rest, tail);
    } else {
      NothingLeft(data[n..], key, at + n, rest, cut[1..], tail);
    }
  }

  lemma NothingLeft(data: seq<byte>, key: seq<byte>, phase: nat, rest: seq<byte>, cut: seq<nat>, tail: seq<nat>)
    requires |key| == 4 && data == [] && cut == []
    ensures Mask(data, key, phase) + rest == rest && cut + tail == tail
  {
  }

  /** The read after the header of an empty frame finds nothing, and nothing is handed over. */
  lemma EmptyPayloadIsRead(key: seq<byte>, rest: seq<byte>, tail: seq<nat>)
    requires |key| == 4
    ensures ReadPayload(Net(Mask([], key, 0) + rest, [0] + tail), key, 0, 0) == PayloadRead([], Net(rest, tail), false)
  {
    NothingBefore(rest);
    assert Mask([], key, 0) == [];
  }

  lemma NothingBefore<T>(tail: seq<T>)
    ensures [] + tail == tail
  {
  }

  /** Any frame that fits is read to its last byte and no further. */
  lemma FrameIsRead(f: Frame, cut: seq<nat>, rest: seq<byte>, tail: seq<nat>)
    requires ClientFrame(f) && CutOf(cut, |f.payload|) && |f.payload| <= BUFFER
    ensures Sum(cut) == |f.payload|
    ensures ReadPayload(Net(Mask(f.payload, Key(f), 0) + rest, cut + tail), Key(f), |f.payload|, 0)
         == PayloadRead(Unmasked(f.payload, Key(f), cut, 0), Net(rest, tail), false)
  {
    hide Mask;
    hide ReadPayload;
    if f.payload == [] {
      EmptyPayloadIsRead(Key(f), rest, tail);
    } else {
      PayloadIsRead(f.payload, Key(f), cut, 0, rest, tail);
    }
  }

  /** A payload longer than the buffer makes `size` outgrow it, however it is cut. */
  lemma {:induction false} LongPayloadOverruns(
    data: seq<byte>, key: seq<byte>, cut: seq<nat>, at: nat, rest: seq<byte>, tail: seq<nat>)
    requires |key| == 4 && Pieces(cut, |data|) && data != [] && at <= BUFFER < at + |data|
    ensures ReadPayload(Net(Mask(data, key, at) + rest, cut + tail), key, at + |data|, at).overrun
    decreases |cut|
  {
    hide Mask;
    hide Xor;
    hide KeyOctet;
    hide Net.Take;
    PayloadStep(data, key, cut, at, rest, tail);
    CutTail(cut, |data|);
    var n := cut[0];
    if at + n <= BUFFER {
      LongPayloadOverruns(data[n..], key, cut[1..], at + n, rest, tail);
    }
  }

  // ---------------------------------------------------------------- whole sessions

  /** What the loop makes of one frame. */
  function Seen(f: Frame, cut: seq<nat>): Received
    requires ClientFrame(f) && CutOf(cut, |f.payload|)
  {
    CutSum(cut, |f.payload|);
    Received(HeadOf(f.header), Unmasked(f.payload, Key(f), cut, 0))
  }

  function AllSeen(fs: seq<Frame>, cuts: seq<seq<nat>>): seq<Received>
    requires ClientFrames(fs) && CutsOf(cuts, fs)
  {
    if fs == [] then [] else [Seen(fs[0], cuts[0])] + AllSeen(fs[1..], cuts[1..])
  }

  /** The session that the loop makes of the frames in these reads. */
  function SessionOf(fs: seq<Frame>, cuts: seq<seq<nat>>, tail: seq<nat>, memory: Memory, echo: bool): Session
    requires ClientFrames(fs) && CutsOf(cuts, fs)
  {
    RunLoop(Net(EncodeFrames(fs), Script(fs, cuts) + tail), memory, echo)
  }

  predicate AllFit(fs: seq<Frame>) {
    forall i :: 0 <= i < |fs| ==> |fs[i].payload| <= 1024
  }

  predicate AllInPhase(fs: seq<Frame>, cuts: seq<seq<nat>>)
    requires ClientFrames(fs) && CutsOf(cuts, fs)
  {
    forall i :: 0 <= i < |fs| ==> InPhase(Key(fs[i]), cuts[i], 0)
  }

  lemma CutsTail(cuts: seq<seq<nat>>, fs: seq<Frame>)
    requires ClientFrames(fs) && CutsOf(cuts, fs) && fs != []
    ensures ClientFrames(fs[1..]) && CutsOf(cuts[1..], fs[1..])
  {
  }

  /** The header of the first frame is read in full and the stream is left at its payload. */
  lemma FirstHeader(fs: seq<Frame>, cuts: seq<seq<nat>>, tail: seq<nat>, stack: Stack)
    requires ClientFrames(fs) && CutsOf(cuts, fs) && fs != []
    ensures ReceiveHead(Net(EncodeFrames(fs), Script(fs, cuts) + tail), stack)
         == (Done(HeadOf(fs[0].header)),
             Net(Mask(fs[0].payload, Key(fs[0]), 0) + EncodeFrames(fs[1..]),
                 cuts[0] + (Script(fs[1..], cuts[1..]) + tail)))
  {
    var head, body, others := EncodeHeader(fs[0].header), WirePayload(fs[0]), EncodeFrames(fs[1..]);
    var script, later := HeadScript(fs[0].header.form), Script(fs[1..], cuts[1..]);
    Associative(head, body, others);
    Associative(script + cuts[0], later, tail);
    Associative(script, cuts[0], later + tail);
    ReceiveOfEncodeHeader(fs[0].header, body + others, cuts[0] + (later + tail), stack);
  }

  /** Whatever a header says of FIN, opcode and MASK, its payload is read and the loop goes on behind
      it, until a header read fails or C leaves defined behaviour. */
  lemma EveryHeaderIsServed(net: Net, memory: Memory, echo: bool)
    ensures var s := RunLoop(net, memory, echo);
            var (status, body) := ReceiveHead(net, StackOf(memory));
            if status.Failed? then s == Session([], Closed, body)
            else if echo && status.head.length >= 0xFFFF then s == Session([], NoLengthCode, body)
            else
              var p := ReadPayload(body, status.head.key, status.head.length, 0);
              var later := RunLoop(p.net, NextOf(memory), echo);
              if p.overrun then s == Session([Received(status.head, p.chunks)], Overrun, p.net)
              else s == Session([Received(status.head, p.chunks)] + later.frames, later.outcome, later.net)
  {
    hide ReceiveHead;
    hide ReadPayload;
  }

  /** A first frame that fits is seen, and the loop goes on behind it. */
  lemma FitsAndGoesOn(fs: seq<Frame>, cuts: seq<seq<nat>>, tail: seq<nat>, memory: Memory, echo: bool)
    requires ClientFrames(fs) && CutsOf(cuts, fs) && fs != [] && |fs[0].payload| <= 1024
    ensures ClientFrames(fs[1..]) && CutsOf(cuts[1..], fs[1..])
    ensures SessionOf(fs, cuts, tail, memory, echo)
         == Prepend(Seen(fs[0], cuts[0]), SessionOf(fs[1..], cuts[1..], tail, NextOf(memory), echo))
  {
    hide ReceiveHead;
    hide ReadPayload;
    hide Mask;
    hide EncodeHeader;
    CutsTail(cuts, fs);
    FirstHeader(fs, cuts, tail, StackOf(memory));
    FrameIsRead(fs[0], cuts[0], EncodeFrames(fs[1..]), Script(fs[1..], cuts[1..]) + tail);
  }

  /** One that does not fit is where the loop stops. */
  lemma LongStops(fs: seq<Frame>, cuts: seq<seq<nat>>, tail: seq<nat>, memory: Memory, echo: bool)
    requires ClientFrames(fs) && CutsOf(cuts, fs) && fs != [] && |fs[0].payload| > 1024
    ensures SessionOf(fs, cuts, tail, memory, echo).outcome
         == if echo && |fs[0].payload| >= 0xFFFF then NoLengthCode else Overrun
  {
    hide ReceiveHead;
    hide ReadPayload;
    hide Mask;
    hide EncodeHeader;
    FirstHeader(fs, cuts, tail, StackOf(memory));
    LongPayloadOverruns(fs[0].payload, Key(fs[0]), cuts[0], 0, EncodeFrames(fs[1..]),
                        Script(fs[1..], cuts[1..]) + tail);
  }

  /** Frames that fit the buffer are all seen, and the loop ends by itself, at the end of the
      stream: every header read starts exactly where the frame before it ended. */
  lemma {:induction false} AllFramesSeen(
    fs: seq<Frame>, cuts: seq<seq<nat>>, tail: seq<nat>, memory: Memory, echo: bool)
    requires ClientFrames(fs) && CutsOf(cuts, fs) && AllFit(fs)
    ensures SessionOf(fs, cuts, tail, memory, echo)
         == Session(AllSeen(fs, cuts), Closed, Net([], if tail == [] then [] else tail[1..]))
    decreases |fs|
  {
    if fs == [] {
      hide ReceiveHead;
      EndOfStream(tail, StackOf(memory));
    } else {
      hide SessionOf;
      FitsAndGoesOn(fs, cuts, tail, memory, echo);
      AllFramesSeen(fs[1..], cuts[1..], tail, NextOf(memory), echo);
    }
  }

  lemma EndOfStream(tail: seq<nat>, stack: Stack)
    ensures ReceiveHead(Net([], [] + tail), stack) == (Failed, Net([], if tail == [] then [] else tail[1..]))
  {
    NothingBefore(tail);
  }

  /** The first frame that does not fit the buffer keeps the loop from ending by itself: the frames
      before it are all seen, and then the total outgrows the buffer, unless the echo has no header for
      the length. */
  lemma {:induction false} LongFrameStops(
    fs: seq<Frame>, cuts: seq<seq<nat>>, tail: seq<nat>, memory: Memory, echo: bool, k: nat)
    requires ClientFrames(fs) && CutsOf(cuts, fs)
    requires k < |fs| && AllFit(fs[..k]) && |fs[k].payload| > 1024
    ensures var s := SessionOf(fs, cuts, tail, memory, echo);
            && s.outcome == (if echo && |fs[k].payload| >= 0xFFFF then NoLengthCode else Overrun)
            && CutsOf(cuts[..k], fs[..k]) && AllSeen(fs[..k], cuts[..k]) <= s.frames
    decreases k
  {
    hide SessionOf;
    if k == 0 {
      LongStops(fs, cuts, tail, memory, echo);
    } else {
      assert fs[..k][0] == fs[0];
      FitsAndGoesOn(fs, cuts, tail, memory, echo);
      assert fs[1..][..k - 1] == fs[..k][1..] && cuts[1..][..k - 1] == cuts[..k][1..];
      LongFrameStops(fs[1..], cuts[1..], tail, NextOf(memory), echo, k - 1);
    }
  }

  lemma FirstLong(fs: seq<Frame>) returns (k: nat)
    requires !AllFit(fs)
    ensures k < |fs| && AllFit(fs[..k]) && |fs[k].payload| > 1024
  {
    k := 0;
    while |fs[k].payload| <= 1024
      invariant k < |fs| && AllFit(fs[..k])
      decreases |fs| - k
    {
      k := k + 1;
    }
  }

  /** The chunks of a session, joined, are the payloads exactly when every chunk is in phase. */
  lemma {:induction false} AllRightIffInPhase(fs: seq<Frame>, cuts: seq<seq<nat>>)
    requires ClientFrames(fs) && CutsOf(cuts, fs)
    ensures Flatten(Chunks(AllSeen(fs, cuts))) == Payloads(fs) <==> AllInPhase(fs, cuts)
    decreases |fs|
  {
    if fs != [] {
      CutsTail(cuts, fs);
      var first, others := Seen(fs[0], cuts[0]).chunks, AllSeen(fs[1..], cuts[1..]);
      assert AllSeen(fs, cuts)[1..] == others;
      AllRightIffInPhase(fs[1..], cuts[1..]);
      UnmaskedLength(fs[0].payload, Key(fs[0]), cuts[0], 0);
      PayloadRightIffInPhase(fs[0].payload, Key(fs[0]), cuts[0], 0);
      FlattenAppend(first, Chunks(others));
      ConcatEqual(Flatten(first), Flatten(Chunks(others)), fs[0].payload, Payloads(fs[1..]));
      InPhaseSplits(fs, cuts);
    }
  }

  lemma InPhaseSplits(fs: seq<Frame>, cuts: seq<seq<nat>>)
    requires ClientFrames(fs) && CutsOf(cuts, fs) && fs != []
    ensures AllInPhase(fs, cuts) <==> InPhase(Key(fs[0]), cuts[0], 0) && AllInPhase(fs[1..], cuts[1..])
  {
    if AllInPhase(fs[1..], cuts[1..]) && InPhase(Key(fs[0]), cuts[0], 0) {
      forall i | 0 <= i < |fs|
        ensures InPhase(Key(fs[i]), cuts[i], 0)
      {
        if i > 0 {
          assert fs[i] == fs[1..][i - 1] && cuts[i] == cuts[1..][i - 1];
        }
      }
    }
  }

  /** The receive loop of the terminal hands over exactly the payloads, in order, and ends at the
      end of the stream, if and only if every frame fits the buffer and every chunk starts in
      phase with its key. */
  lemma DeliversIffInPhase(fs: seq<Frame>, cuts: seq<seq<nat>>, tail: seq<nat>, memory: Memory)
    requires ClientFrames(fs) && CutsOf(cuts, fs)
    ensures var s := SessionOf(fs, cuts, tail, memory, false);
            (s.outcome == Closed && Flatten(Chunks(s.frames)) == Payloads(fs)) <==> (AllFit(fs) && AllInPhase(fs, cuts))
  {
    if AllFit(fs) {
      AllFramesSeen(fs, cuts, tail, memory, false);
      AllRightIffInPhase(fs, cuts);
    } else {
      var k := FirstLong(fs);
      LongFrameStops(fs, cuts, tail, memory, false, k);
    }
  }

  /** Reads that stop at multiples of four inside a frame are right for every key. */
  lemma AlignedReadsDeliver(fs: seq<Frame>, cuts: seq<seq<nat>>, tail: seq<nat>, memory: Memory)
    requires ClientFrames(fs) && CutsOf(cuts, fs) && AllFit(fs)
    requires forall i, j :: 0 <= i < |cuts| && 0 <= j < |cuts[i]| - 1 ==> cuts[i][j] % 4 == 0
    ensures var s := SessionOf(fs, cuts, tail, memory, false);
            s.outcome == Closed && s.net.incoming == [] && Flatten(Chunks(s.frames)) == Payloads(fs)
  {
    forall i | 0 <= i < |fs|
      ensures InPhase(Key(fs[i]), cuts[i], 0)
    {
      AlignedCutInPhase(Key(fs[i]), cuts[i], 0);
    }
    AllFramesSeen(fs, cuts, tail, memory, false);
    AllRightIffInPhase(fs, cuts);
  }

  // ---------------------------------------------------------------- the echo

  /** What the echo of these frames should be: each payload back in a text frame. */
  function Answers(fs: seq<Frame>): (r: seq<Frame>)
    requires ClientFrames(fs)
    ensures AllValid(r) && |r| == |fs|
  {
    if fs == [] then [] else [TextFrame(fs[0].payload)] + Answers(fs[1..])
  }

  /** What the echo loop writes for frames that fit: text frames of the right number and sizes,
      which carry the chunks as they were unmasked. */
  function Echoed(fs: seq<Frame>, cuts: seq<seq<nat>>): (r: seq<Frame>)
    requires ClientFrames(fs) && CutsOf(cuts, fs) && AllFit(fs)
    ensures AllValid(r) && |r| == |fs|
  {
    if fs == [] then [] else
    UnmaskedLength(fs[0].payload, Key(fs[0]), cuts[0], 0);
    CutsTail(cuts, fs);
    [TextFrame(Flatten(Seen(fs[0], cuts[0]).chunks))] + Echoed(fs[1..], cuts[1..])
  }

  lemma {:induction false} EchoIsFrames(fs: seq<Frame>, cuts: seq<seq<nat>>)
    requires ClientFrames(fs) && CutsOf(cuts, fs) && AllFit(fs)
    ensures Writable(AllSeen(fs, cuts))
    ensures EchoBytes(AllSeen(fs, cuts)) == EncodeFrames(Echoed(fs, cuts))
    decreases |fs|
  {
    if fs != [] {
      CutsTail(cuts, fs);
      EchoIsFrames(fs[1..], cuts[1..]);
      UnmaskedLength(fs[0].payload, Key(fs[0]), cuts[0], 0);
      assert AllSeen(fs, cuts)[1..] == AllSeen(fs[1..], cuts[1..]);
      assert Echoed(fs, cuts)[1..] == Echoed(fs[1..], cuts[1..]);
    }
  }

  lemma {:induction false} EchoedRightIffInPhase(fs: seq<Frame>, cuts: seq<seq<nat>>)
    requires ClientFrames(fs) && CutsOf(cuts, fs) && AllFit(fs)
    ensures Echoed(fs, cuts) == Answers(fs) <==> AllInPhase(fs, cuts)
    decreases |fs|
  {
    if fs != [] {
      CutsTail(cuts, fs);
      EchoedRightIffInPhase(fs[1..], cuts[1..]);
      PayloadRightIffInPhase(fs[0].payload, Key(fs[0]), cuts[0], 0);
      UnmaskedLength(fs[0].payload, Key(fs[0]), cuts[0], 0);
      InPhaseSplits(fs, cuts);
      assert Echoed(fs, cuts)[1..] == Echoed(fs[1..], cuts[1..]);
      assert Answers(fs)[1..] == Answers(fs[1..]);
    }
  }

  /** End to end: the echo loop ends by itself if and only if every frame fits the buffer. Its
      output then always parses into text frames of the right number and sizes, and it parses
      into exactly the payloads that were sent, each in its own frame and in order, if and only
      if every chunk starts in phase with its key. */
  lemma EchoesIffInPhase(fs: seq<Frame>, cuts: seq<seq<nat>>, tail: seq<nat>, memory: Memory)
    requires ClientFrames(fs) && CutsOf(cuts, fs)
    ensures SessionOf(fs, cuts, tail, memory, true).outcome == Closed <==> AllFit(fs)
    ensures AllFit(fs) ==>
              var parsed := ParseFrames(EchoBytes(SessionOf(fs, cuts, tail, memory, true).frames));
              parsed == Some(Echoed(fs, cuts)) && (parsed == Some(Answers(fs)) <==> AllInPhase(fs, cuts))
  {
    if AllFit(fs) {
      AllFramesSeen(fs, cuts, tail, memory, true);
      EchoIsFrames(fs, cuts);
      ParseOfEncodeFrames(Echoed(fs, cuts));
      EchoedRightIffInPhase(fs, cuts);
    } else {
      var k := FirstLong(fs);
      LongFrameStops(fs, cuts, tail, memory, true, k);
    }
  }

  // ---------------------------------------------------------------- reads that are not cuts

  /** `later` is what is left of `s` when n bytes of it have been taken. */
  predicate Left(s: seq<byte>, n: nat, later: seq<byte>) {
    n <= |s| && later == s[n..]
  }

  lemma LeftAgain(s: seq<byte>, m: nat, later: seq<byte>, n: nat, last: seq<byte>)
    requires Left(s, m, later) && Left(later, n, last)
    ensures Left(s, m + n, last)
  {
  }

  lemma ReadLeaves(net: Net, count: nat)
    ensures Left(net.incoming, |net.Got(count)|, net.After(count).incoming)
  {
  }

  lemma FlattenFirst(chunk: seq<byte>, more: seq<seq<byte>>)
    ensures Flatten([chunk] + more) == chunk + Flatten(more)
  {
  }

  /** Every byte the inner loop reads is handed over: without an overrun, the stream it leaves is
      the stream it found less the bytes handed over. */
  lemma {:induction false} HandedOver(net: Net, key: seq<byte>, length: nat, size: nat)
    requires |key| == 4
    ensures var p := ReadPayload(net, key, length, size);
            !p.overrun ==> Left(net.incoming, |Flatten(p.chunks)|, p.net.incoming)
    decreases |net.incoming|
  {
    hide Mask;
    hide Net.Take;
    hide Left;
    hide Flatten;
    ReadLeaves(net, BUFFER);
    FlattenNone([]);
    var n, net' := |net.Got(BUFFER)|, net.After(BUFFER);
    if 0 < n && size + n <= BUFFER {
      var chunk := Mask(net.Got(BUFFER), key, 0);
      if size + n < length {
        HandedOver(net', key, length, size + n);
        var more := ReadPayload(net', key, length, size + n);
        FlattenFirst(chunk, more.chunks);
        if !more.overrun {
          LeftAgain(net.incoming, n, net'.incoming, |Flatten(more.chunks)|, more.net.incoming);
        }
      } else {
        FlattenFirst(chunk, []);
      }
    }
  }

  /** The stream after k reads of a payload, and how many bytes they handed over. */
  function AfterReads(net: Net, k: nat): Net
    decreases k
  {
    if k == 0 then net else AfterReads(net.After(1024), k - 1)
  }

  function TotalRead(net: Net, k: nat): nat
    decreases k
  {
    if k == 0 then 0 else |net.Got(1024)| + TotalRead(net.After(1024), k - 1)
  }

  /** Said without the loop: k chunks, each the bytes of one read unmasked from the first key octet,
      none of the first k - 1 reads completing the payload, and the reason for stopping there: the
      payload is complete, the next read finds nothing, or it makes the total outgrow the buffer. */
  predicate AreReads(net: Net, key: seq<byte>, length: nat, size: nat, p: PayloadRead)
    requires |key| == 4
  {
    var k := |p.chunks|;
    && (forall i :: 0 <= i < k ==>
          AfterReads(net, i).Got(1024) != [] && p.chunks[i] == Mask(AfterReads(net, i).Got(1024), key, 0))
    && (forall i :: 0 < i < k ==> size + TotalRead(net, i) < length)
    && (k > 0 ==> size + TotalRead(net, k) <= 1024)
    && if k > 0 && size + TotalRead(net, k) >= length then !p.overrun && p.net == AfterReads(net, k)
       else
         && p.net == AfterReads(net, k + 1)
         && (p.overrun <==> AfterReads(net, k).Got(1024) != [])
         && (p.overrun ==> size + TotalRead(net, k + 1) > 1024)
  }

  lemma {:induction false} TotalGrows(net: Net, k: nat, l: nat)
    requires k <= l
    ensures TotalRead(net, k) <= TotalRead(net, l)
    decreases k
  {
    hide Net.Take;
    if k > 0 {
      TotalGrows(net.After(1024), k - 1, l - 1);
    }
  }

  lemma OneMoreRead(net: Net, key: seq<byte>, length: nat, size: nat, more: PayloadRead)
    requires |key| == 4 && net.Got(1024) != [] && size + |net.Got(1024)| <= 1024
    requires size + |net.Got(1024)| < length
    requires AreReads(net.After(1024), key, length, size + |net.Got(1024)|, more)
    ensures AreReads(net, key, length, size, Resume([Mask(net.Got(1024), key, 0)], more))
  {
    hide Net.Take;
    hide Mask;
    var net', p := net.After(1024), Resume([Mask(net.Got(1024), key, 0)], more);
    forall i | 0 <= i < |p.chunks|
      ensures AfterReads(net, i).Got(1024) != [] && p.chunks[i] == Mask(AfterReads(net, i).Got(1024), key, 0)
    {
      assert i > 0 ==> AfterReads(net, i) == AfterReads(net', i - 1);
    }
    forall i | 0 < i < |p.chunks|
      ensures size + TotalRead(net, i) < length
    {
      assert TotalRead(net, i) == |net.Got(1024)| + TotalRead(net', i - 1);
      assert i == 1 ==> TotalRead(net', 0) == 0;
    }
  }

  lemma OneRead(net: Net, key: seq<byte>, length: nat, size: nat)
    requires |key| == 4
    ensures var got, net' := net.Got(1024), net.After(1024);
            && (got == [] ==> AreReads(net, key, length, size, PayloadRead([], net', false)))
            && (got != [] && size + |got| > 1024 ==> AreReads(net, key, length, size, PayloadRead([], net', true)))
            && (got != [] && length <= size + |got| <= 1024 ==>
                  AreReads(net, key, length, size, PayloadRead([Mask(got, key, 0)], net', false)))
  {
    hide Net.Take;
    hide Mask;
    assert AfterReads(net, 0) == net && AfterReads(net, 1) == AfterReads(net.After(1024), 0) == net.After(1024);
    assert TotalRead(net, 1) == |net.Got(1024)| + TotalRead(net.After(1024), 0);
  }

  /** What the inner loop hands over, for any reads, also ones that run past the frame. */
  lemma {:induction false} ChunksAreReads(net: Net, key: seq<byte>, length: nat, size: nat)
    requires |key| == 4
    ensures AreReads(net, key, length, size, ReadPayload(net, key, length, size))
    decreases |net.incoming|
  {
    hide Mask;
    hide Net.Take;
    hide AreReads;
    var got, net' := net.Got(1024), net.After(1024);
    OneRead(net, key, length, size);
    if got != [] && size + |got| <= 1024 {
      if size + |got| < length {
        ChunksAreReads(net', key, length, size + |got|);
        OneMoreRead(net, key, length, size, ReadPayload(net', key, length, size + |got|));
      } else {
        assert [Mask(got, key, 0)] + [] == [Mask(got, key, 0)];
      }
    }
  }

  lemma SameCount(net: Net, key: seq<byte>, length: nat, size: nat, p: PayloadRead, q: PayloadRead)
    requires |key| == 4 && AreReads(net, key, length, size, p) && AreReads(net, key, length, size, q)
    ensures |p.chunks| >= |q.chunks|
  {
    hide Mask;
    hide Net.Take;
    hide TotalRead;
    hide AfterReads;
    if |p.chunks| < |q.chunks| {
      TotalGrows(net, |p.chunks| + 1, |q.chunks|);
    }
  }

  /** That description leaves no choice: it is met by what the loop does and by nothing else. */
  lemma ReadsAreUnique(net: Net, key: seq<byte>, length: nat, size: nat, p: PayloadRead)
    requires |key| == 4
    ensures AreReads(net, key, length, size, p) <==> p == ReadPayload(net, key, length, size)
  {
    hide Mask;
    hide Net.Take;
    hide ReadPayload;
    hide TotalRead;
    hide AfterReads;
    var q := ReadPayload(net, key, length, size);
    ChunksAreReads(net, key, length, size);
    if AreReads(net, key, length, size, p) {
      SameCount(net, key, length, size, p, q);
      SameCount(net, key, length, size, q, p);
      assert p.chunks == q.chunks;
    }
  }

  /** The reads to come stop exactly behind the next n bytes: none fails before them, and none runs
      past them. */
  predicate StopsAt(net: Net, n: nat)
    decreases n
  {
    n == 0 || (0 < |net.Got(BUFFER)| <= n && StopsAt(net.After(BUFFER), n - |net.Got(BUFFER)|))
  }

  /** The loop, as far as the length of the stream it leaves is concerned. */
  lemma {:induction false} LengthLeftIff(net: Net, key: seq<byte>, at: nat, n: nat)
    requires |key| == 4 && 0 < n <= |net.incoming| && at <= BUFFER
    ensures var p := ReadPayload(net, key, at + n, at);
            (!p.overrun && |p.net.incoming| == |net.incoming| - n) <==> (at + n <= BUFFER && StopsAt(net, n))
    decreases n
  {
    hide Mask;
    hide Net.Take;
    var got, net' := |net.Got(BUFFER)|, net.After(BUFFER);
    if 0 < got < n && at + got <= BUFFER {
      LengthLeftIff(net', key, at + got, n - got);
    } else if got == n {
      assert StopsAt(net', 0);
    }
  }

  /** For any reads at all, whatever they hand over: the next header read starts at the next frame
      exactly when the payload fits the buffer and the reads stop at its end. A read that fails inside
      a payload or runs past it misplaces every frame that follows. An empty payload is read once all
      the same, so there that read has to find nothing. */
  lemma AlignedIffReadsStop(net: Net, key: seq<byte>, n: nat)
    requires |key| == 4 && n <= |net.incoming|
    ensures var p := ReadPayload(net, key, n, 0);
            (!p.overrun && p.net.incoming == net.incoming[n..])
              <==> (if n == 0 then net.Got(BUFFER) == [] else n <= BUFFER && StopsAt(net, n))
  {
    var p := ReadPayload(net, key, n, 0);
    HandedOver(net, key, n, 0);
    if n == 0 {
      EmptyPayloadLeft(net, key);
    } else {
      LengthLeftIff(net, key, 0, n);
    }
  }

  lemma EmptyPayloadLeft(net: Net, key: seq<byte>)
    requires |key| == 4
    ensures var p := ReadPayload(net, key, 0, 0);
            (!p.overrun && |p.net.incoming| == |net.incoming|) <==> net.Got(BUFFER) == []
  {
    hide Mask;
  }

  // ---------------------------------------------------------------- examples

  function ExampleFrame(key: seq<byte>, payload: seq<byte>): (f: Frame)
    requires |key| == 4 && 0 < |payload| < 126
    ensures ClientFrame(f)
  {
    Frame(Header(true, 0, TEXT, Short, |payload|, Some(key)), payload)
  }

  /** Two payload bytes in two reads, with a key whose first two octets differ: the frame is
      legal, every read stays inside it, and the second byte comes out wrong. */
  lemma OutOfPhaseExample()
    ensures var fs, cuts := [ExampleFrame([1, 2, 3, 4], [65, 66])], [[1, 1]];
            && ClientFrames(fs) && CutsOf(cuts, fs)
            && Flatten(Chunks(SessionOf(fs, cuts, [], [], false).frames)) != Payloads(fs)
  {
    var fs, cuts := [ExampleFrame([1, 2, 3, 4], [65, 66])], [[1, 1]];
    assert Sum([1, 1]) == 1 + Sum([1]);
    assert Pieces([1, 1], 2);
    var key := [1, 2, 3, 4];
    assert [1, 1][1..] == [1];
    assert KeyOctet(key, 1, 0) != KeyOctet(key, 0, 0);
    assert !PhasesAgree(key, 1, 0, 1);
    assert !InPhase(key, [1], 1);
    assert !InPhase(Key(fs[0]), cuts[0], 0);
    DeliversIffInPhase(fs, cuts, [], []);
    AllFramesSeen(fs, cuts, [], [], false);
  }
}
