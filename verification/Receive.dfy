/** The receive loops of websocket.c: the echo loop of `main` and the loop of
    `TermWebSocket_run`, which hands each chunk to `onReceiveData`.

    Both loops read a payload in chunks of any size, unmask each chunk from phase 0, and keep
    the running total in `size`. Module Delivery proves, over every list of frames and every
    chunking, under exactly which conditions that delivers the payloads.
 */
module Receive {
  import opened Bytes
  import opened Rfc6455
  import opened Transport
  import opened FrameHeads

  const BUFFER: nat := 1024

  // ---------------------------------------------------------------- specification

  /** What the inner loop hands over, the stream it leaves, and whether `size` outgrew the
      buffer, where the C code has no defined behaviour. */
  datatype PayloadRead = PayloadRead(chunks: seq<seq<byte>>, net: Net, overrun: bool)

  function ReadPayload(net: Net, key: seq<byte>, length: nat, size: nat): (r: PayloadRead)
    requires |key| == 4
    ensures |r.net.incoming| <= |net.incoming|
    decreases |net.incoming|
  {
    var got := net.Got(BUFFER);
    var net' := net.After(BUFFER);
    if got == [] then PayloadRead([], net', false)
    else if size + |got| > BUFFER then PayloadRead([], net', true)
    else
      var size' := size + |got|;
      var more := if size' < length then ReadPayload(net', key, length, size') else PayloadRead([], net', false);
      Resume([Mask(got, key, 0)], more)
  }

  /** A payload read, seen from the point where the chunks `done` are behind it. */
  function Resume(done: seq<seq<byte>>, q: PayloadRead): PayloadRead {
    PayloadRead(done + q.chunks, q.net, q.overrun)
  }

  /** One frame as a loop saw it: the header and the chunks handed over. */
  datatype Received = Received(head: Head, chunks: seq<seq<byte>>)

  /** `Closed` is the loop's own end, a header read that failed. The others are where the C code
      leaves defined behaviour: a total beyond the buffer, and (in the echo loop) a length for which
      the header writer has no code. */
  datatype Outcome = Closed | Overrun | NoLengthCode

  datatype Session = Session(frames: seq<Received>, outcome: Outcome, net: Net)

  /** `memory` is what the reader's locals hold before each header read. */
  function RunLoop(net: Net, memory: Memory, echo: bool): (s: Session)
    ensures echo ==> Writable(s.frames)
    decreases |net.incoming|
  {
    var (status, net') := ReceiveHead(net, StackOf(memory));
    match status
    case Failed => Session([], Closed, net')
    case Done(head) =>
      if echo && head.length >= 0xFFFF then Session([], NoLengthCode, net') else
      var p := ReadPayload(net', head.key, head.length, 0);
      var frame := Received(head, p.chunks);
      if p.overrun then Session([frame], Overrun, p.net) else
      Prepend(frame, RunLoop(p.net, NextOf(memory), echo))
  }

  function Prepend(frame: Received, s: Session): Session {
    s.(frames := [frame] + s.frames)
  }

  predicate Writable(frames: seq<Received>) {
    forall i :: 0 <= i < |frames| ==> frames[i].head.length < 0xFFFF
  }

  /** The byte arrays handed to `onReceiveData`, in order. */
  function Chunks(frames: seq<Received>): seq<seq<byte>> {
    if frames == [] then [] else frames[0].chunks + Chunks(frames[1..])
  }

  /** The bytes the echo loop writes. */
  function EchoBytes(frames: seq<Received>): seq<byte>
    requires Writable(frames)
  {
    if frames == [] then [] else EchoFrame(frames[0]) + EchoBytes(frames[1..])
  }

  function EchoFrame(frame: Received): seq<byte>
    requires frame.head.length < 0xFFFF
  {
    EncodeHeader(TextHeader(frame.head.length)) + Flatten(frame.chunks)
  }

  // ---------------------------------------------------------------- the C functions

  /** `umask`: the first `len` bytes are unmasked in place from phase 0; the rest stay. */
  method Umask(data: array<byte>, len: nat, mask: array<byte>)
    requires len <= data.Length && mask.Length == 4 && data != mask
    modifies data
    ensures data[..len] == Mask(old(data[..len]), mask[..], 0)
    ensures data[len..] == old(data[len..])
  {
    for i := 0 to len
      invariant mask[..] == old(mask[..])
      invariant forall k :: 0 <= k < i ==> data[k] == Xor(old(data[k]), KeyOctet(mask[..], 0, k))
      invariant forall k :: i <= k < data.Length ==> data[k] == old(data[k])
    {
      data[i] := Xor(data[i], mask[i % 4]);
    }
  }

  lemma MaskPrefix(data: seq<byte>, key: seq<byte>, n: nat)
    requires |key| == 4 && n <= |data|
    ensures Mask(data, key, 0)[..n] == Mask(data[..n], key, 0)
  {
  }

  /** The calls made to the Java method `onReceiveData`. */
  class Receiver {
    var calls: seq<seq<byte>>

    constructor ()
      ensures calls == []
    {
      calls := [];
    }

    method OnReceiveData(data: seq<byte>)
      modifies this
      ensures calls == old(calls) + [data]
    {
      calls := calls + [data];
    }
  }

  /** One pass of either inner loop: read, add to `size`, unmask `size` bytes. The first `rul`
      bytes of the buffer are then the chunk, whatever older bytes `Umask` toggled behind them. */
  method ReadChunk(c: Connection, payloadData: array<byte>, key: array<byte>, size: nat, ghost length: nat)
    returns (rul: nat, overrun: bool)
    requires payloadData.Length == BUFFER && key.Length == 4 && payloadData != key
    modifies c`net, payloadData
    ensures rul <= BUFFER
    ensures rul != 0 ==> |c.net.incoming| < |old(c.net).incoming|
    ensures ReadPayload(old(c.net), key[..], length, size) ==
              if rul == 0 || overrun then PayloadRead([], c.net, overrun)
              else Resume([payloadData[..rul]],
                          if size + rul < length then ReadPayload(c.net, key[..], length, size + rul)
                          else PayloadRead([], c.net, false))
  {
    hide Net.Take;
    rul := c.Read(payloadData, BUFFER);
    overrun := rul != 0 && size + rul > BUFFER;
    if rul != 0 && !overrun {
      ghost var read := payloadData[..];
      Umask(payloadData, size + rul, key);
      assert payloadData[..rul] == Mask(old(c.net).Got(BUFFER), key[..], 0) by {
        MaskPrefix(read[..size + rul], key[..], rul);
        assert payloadData[..rul] == payloadData[..size + rul][..rul];
        assert read[..size + rul][..rul] == read[..rul];
      }
    }
  }

  lemma ResumeChunk(p: PayloadRead, done: seq<seq<byte>>, left: PayloadRead, chunk: seq<byte>, left': PayloadRead)
    requires p == Resume(done, left) && left == Resume([chunk], left')
    ensures p == Resume(done + [chunk], left')
  {
    Associative(done, [chunk], left'.chunks);
  }

  lemma ResumeDone(done: seq<seq<byte>>, net: Net, overrun: bool)
    ensures Resume(done, PayloadRead([], net, overrun)) == PayloadRead(done, net, overrun)
  {
  }

  lemma FlattenNone(before: seq<byte>)
    ensures before + Flatten([]) == before
  {
  }

  lemma FlattenOne(before: seq<byte>, done: seq<seq<byte>>, chunk: seq<byte>)
    ensures before + Flatten(done) + chunk == before + Flatten(done + [chunk])
  {
    FlattenAppend(done, [chunk]);
    assert Flatten([chunk]) == chunk;
  }

  /** The inner loop of `main`. */
  method EchoPayload(c: Connection, head: FrameHead) returns (overrun: bool)
    requires head.maskingKey.Length == 4
    modifies c
    ensures var p := ReadPayload(old(c.net), head.maskingKey[..], head.payloadLength, 0);
            overrun == p.overrun && c.net == p.net && c.outgoing == old(c.outgoing) + Flatten(p.chunks)
  {
    hide ReadPayload;
    hide Flatten;
    hide Mask;
    var payloadData := new byte[BUFFER](_ => 0);
    var size: nat := 0;
    ghost var key, length := head.maskingKey[..], head.payloadLength;
    ghost var p, left := ReadPayload(c.net, key, length, 0), ReadPayload(c.net, key, length, 0);
    FlattenNone(c.outgoing);
    ghost var done: seq<seq<byte>> := [];
    var more := true;
    overrun := false;
    while more
      invariant head.maskingKey[..] == key
      invariant left == if more then ReadPayload(c.net, key, length, size) else PayloadRead([], c.net, overrun)
      invariant p == Resume(done, left)
      invariant c.outgoing == old(c.outgoing) + Flatten(done)
      decreases more, |c.net.incoming|
    {
      var rul;
      rul, overrun := ReadChunk(c, payloadData, head.maskingKey, size, length);
      if rul == 0 || overrun {
        left := PayloadRead([], c.net, overrun);
        more := false;
      } else {
        size := size + rul;
        more := size < head.payloadLength;
        ghost var chunk := payloadData[..rul];
        ghost var left' := if more then ReadPayload(c.net, key, length, size) else PayloadRead([], c.net, false);
        ResumeChunk(p, done, left, chunk, left');
        left := left';
        c.Write(payloadData, rul);
        FlattenOne(old(c.outgoing), done, chunk);
        done := done + [chunk];
      }
    }
    ResumeDone(done, c.net, overrun);
  }

  /** The inner loop of `TermWebSocket_run`. */
  method DeliverPayload(c: Connection, head: FrameHead, receiver: Receiver) returns (overrun: bool)
    requires head.maskingKey.Length == 4
    modifies c`net, receiver
    ensures var p := ReadPayload(old(c.net), head.maskingKey[..], head.payloadLength, 0);
            overrun == p.overrun && c.net == p.net && receiver.calls == old(receiver.calls) + p.chunks
  {
    hide ReadPayload;
    var payloadData := new byte[BUFFER](_ => 0);
    var size: nat := 0;
    ghost var key, length := head.maskingKey[..], head.payloadLength;
    ghost var p, left := ReadPayload(c.net, key, length, 0), ReadPayload(c.net, key, length, 0);
    ghost var done: seq<seq<byte>> := [];
    var more := true;
    overrun := false;
    while more
      invariant head.maskingKey[..] == key
      invariant left == if more then ReadPayload(c.net, key, length, size) else PayloadRead([], c.net, overrun)
      invariant p == Resume(done, left)
      invariant receiver.calls == old(receiver.calls) + done
      decreases more, |c.net.incoming|
    {
      var rul;
      rul, overrun := ReadChunk(c, payloadData, head.maskingKey, size, length);
      if rul == 0 || overrun {
        left := PayloadRead([], c.net, overrun);
        more := false;
      } else {
        size := size + rul;
        more := size < head.payloadLength;
        ghost var chunk := payloadData[..rul];
        ghost var left' := if more then ReadPayload(c.net, key, length, size) else PayloadRead([], c.net, false);
        ResumeChunk(p, done, left, chunk, left');
        left := left';
        receiver.OnReceiveData(payloadData[..rul]);
        done := done + [chunk];
      }
    }
    ResumeDone(done, c.net, overrun);
  }

  // ---------------------------------------------------------------- the outer loops

  /** A session, seen from the point where the frames `done` are behind it. */
  function Later(done: seq<Received>, s: Session): Session {
    s.(frames := done + s.frames)
  }

  lemma LaterFrame(whole: Session, done: seq<Received>, frame: Received, s: Session)
    requires whole == Later(done, Prepend(frame, s))
    ensures whole == Later(done + [frame], s)
  {
    Associative(done, [frame], s.frames);
  }

  lemma EchoOne(before: seq<byte>, done: seq<Received>, frame: Received)
    requires Writable(done) && frame.head.length < 0xFFFF
    ensures before + EchoBytes(done) + EncodeHeader(TextHeader(frame.head.length)) + Flatten(frame.chunks)
         == before + EchoBytes(done + [frame])
  {
    hide EncodeHeader;
    hide Flatten;
    EchoAppend(done, [frame]);
    assert EchoBytes([frame]) == EchoFrame(frame);
  }

  lemma {:induction false} EchoAppend(a: seq<Received>, b: seq<Received>)
    requires Writable(a) && Writable(b)
    ensures EchoBytes(a + b) == EchoBytes(a) + EchoBytes(b)
  {
    if a == [] {
      assert a + b == b;
    } else {
      EchoAppend(a[1..], b);
      assert (a + b)[1..] == a[1..] + b;
      Associative(EchoFrame(a[0]), EchoBytes(a[1..]), EchoBytes(b));
    }
  }

  /** The loop of `main`: each header is answered, then each chunk is written back. */
  method EchoLoop(c: Connection, memory: Memory) returns (outcome: Outcome)
    modifies c
    ensures var s := RunLoop(old(c.net), memory, true);
            && outcome == s.outcome && c.net == s.net
            && old(c.outgoing) + EchoBytes(s.frames) <= c.outgoing
            && (outcome != NoLengthCode ==> c.outgoing == old(c.outgoing) + EchoBytes(s.frames))
  {
    hide ReceiveHead;
    hide ReadPayload;
    hide EncodeHeader;
    hide Flatten;
    hide TextHeader;
    ghost var whole := RunLoop(c.net, memory, true);
    var left := memory;
    ghost var done: seq<Received> := [];
    assert whole == Later(done, whole);
    while true
      invariant Writable(done)
      invariant whole == Later(done, RunLoop(c.net, left, true))
      invariant c.outgoing == old(c.outgoing) + EchoBytes(done)
      decreases |c.net.incoming|
    {
      var head := new FrameHead(StackOf(left));
      var status := RecvFrameHead(c, head, StackOf(left));
      if status.Failed? {
        assert whole.frames == done;
        return Closed;
      }
      SendFrameHead(c, head);
      if head.payloadLength >= 0xFFFF {
        assert whole.frames == done;
        return NoLengthCode;
      }
      ghost var p := ReadPayload(c.net, head.maskingKey[..], head.payloadLength, 0);
      var overrun := EchoPayload(c, head);
      ghost var frame := Received(status.head, p.chunks);
      EchoOne(old(c.outgoing), done, frame);
      if overrun {
        assert whole.frames == done + [frame];
        return Overrun;
      }
      LaterFrame(whole, done, frame, RunLoop(c.net, NextOf(left), true));
      left := NextOf(left);
      done := done + [frame];
    }
  }

  /** The loop of `TermWebSocket_run`. */
  method DeliverLoop(c: Connection, memory: Memory, receiver: Receiver) returns (outcome: Outcome)
    modifies c`net, receiver
    ensures var s := RunLoop(old(c.net), memory, false);
            outcome == s.outcome && c.net == s.net && receiver.calls == old(receiver.calls) + Chunks(s.frames)
  {
    hide ReceiveHead;
    hide ReadPayload;
    hide EncodeHeader;
    hide Flatten;
    hide TextHeader;
    ghost var whole := RunLoop(c.net, memory, false);
    var left := memory;
    ghost var done: seq<Received> := [];
    assert whole == Later(done, whole);
    while true
      invariant whole == Later(done, RunLoop(c.net, left, false))
      invariant receiver.calls == old(receiver.calls) + Chunks(done)
      decreases |c.net.incoming|
    {
      var head := new FrameHead(StackOf(left));
      var status := RecvFrameHead(c, head, StackOf(left));
      if status.Failed? {
        assert whole.frames == done;
        return Closed;
      }
      ghost var p := ReadPayload(c.net, head.maskingKey[..], head.payloadLength, 0);
      var overrun := DeliverPayload(c, head, receiver);
      ghost var frame := Received(status.head, p.chunks);
      ChunksOne(old(receiver.calls), done, frame);
      if overrun {
        assert whole.frames == done + [frame];
        return Overrun;
      }
      LaterFrame(whole, done, frame, RunLoop(c.net, NextOf(left), false));
      left := NextOf(left);
      done := done + [frame];
    }
  }

  lemma ChunksOne(before: seq<seq<byte>>, done: seq<Received>, frame: Received)
    ensures before + Chunks(done) + frame.chunks == before + Chunks(done + [frame])
  {
    ChunksAppend(done, [frame]);
    assert Chunks([frame]) == frame.chunks;
  }

  lemma {:induction false} ChunksAppend(a: seq<Received>, b: seq<Received>)
    ensures Chunks(a + b) == Chunks(a) + Chunks(b)
  {
    if a == [] {
      assert a + b == b;
    } else {
      ChunksAppend(a[1..], b);
      assert (a + b)[1..] == a[1..] + b;
      Associative(a[0].chunks, Chunks(a[1..]), Chunks(b));
    }
  }
}
