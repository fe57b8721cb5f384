/** The frame-header reader and the two header writers of websocket.c, compared with the
    layout of section 5.2 of RFC 6455.
 */
module FrameHeads {
  import opened Bytes
  import opened Rfc6455
  import opened Transport

  /** `frame_head` of websocket.c */
  class FrameHead {
    var fin: bool
    var opcode: byte
    var mask: bool
    var payloadLength: nat
    const maskingKey: array<byte>

    /** A local that nothing has been stored in yet. */
    constructor (stack: Stack)
      ensures maskingKey.Length == 4 && fresh(maskingKey) && maskingKey[..] == stack.maskingKey
    {
      maskingKey := new byte[4](i requires 0 <= i < 4 => stack.maskingKey[i]);
    }

    ghost function Value(): Head
      reads this, maskingKey
    {
      Head(fin, opcode, mask, payloadLength, maskingKey[..])
    }
  }

  /** The fields of a `frame_head`. */
  datatype Head = Head(fin: bool, opcode: byte, mask: bool, length: nat, key: seq<byte>)

  /** How a header read ends. `Failed` is the C function's -1. */
  datatype HeadStatus = Done(head: Head) | Failed

  /** What the reader's two buffers hold before anything is read into them. The C code checks only
      that a read gave something, so bytes that did not arrive keep these values. */
  datatype Locals = Locals(externLen: seq<byte>, maskingKey: seq<byte>)

  type Stack = l: Locals | |l.externLen| == 8 && |l.maskingKey| == 4
    witness Locals([0, 0, 0, 0, 0, 0, 0, 0], [0, 0, 0, 0])

  /** The stack contents that the header reads to come will meet, one entry a read. */
  type Memory = seq<Stack>

  const CLEAN: Stack := Locals([0, 0, 0, 0, 0, 0, 0, 0], [0, 0, 0, 0])

  function StackOf(memory: Memory): Stack {
    if memory == [] then CLEAN else memory[0]
  }

  function NextOf(memory: Memory): Memory {
    if memory == [] then [] else memory[1..]
  }

  // ---------------------------------------------------------------- specification

  /** A buffer of `size` bytes after a read of up to that many. */
  function Filled(got: seq<byte>, before: seq<byte>, size: nat): (r: seq<byte>)
    requires |got| <= size <= |before|
    ensures |r| == size
    ensures |got| == size ==> r == got
    ensures forall i :: 0 <= i < size ==> r[i] == if i < |got| then got[i] else before[i]
  {
    got + before[|got|..size]
  }

  function ReadKey(net: Net, b0: byte, b1: byte, length: nat, stack: Stack): (HeadStatus, Net) {
    var key := net.Got(4);
    (if key == [] then Failed
     else Done(Head(Bit7(b0), Low4(b0), Bit7(b1), length, Filled(key, stack.maskingKey, 4))),
     net.After(4))
  }

  function ReadLengthAndKey(net: Net, b0: byte, b1: byte, stack: Stack): (r: (HeadStatus, Net))
    ensures r.0.Done? ==> r.0.head.length < 0x1_0000_0000_0000_0000
  {
    ShortFields();
    var size := ExtendedSize(FormOf(b1));
    if size == 0 then ReadKey(net, b0, b1, Low7(b1), stack) else
    var got := net.Got(size);
    if got == [] then (Failed, net.After(size)) else
    var extended := Filled(got, stack.externLen, size);
    BigEndianBound(extended);
    ReadKey(net.After(size), b0, b1, BigEndian(extended), stack)
  }

  /** The result of one `recv_frame_head` and the stream it leaves. */
  function ReceiveHead(net: Net, stack: Stack): (r: (HeadStatus, Net))
    ensures r.0.Done? ==> |r.1.incoming| < |net.incoming| && |r.0.head.key| == 4
    ensures r.0.Done? ==> r.0.head.length < 0x1_0000_0000_0000_0000
    ensures |r.1.incoming| <= |net.incoming|
  {
    if net.Got(1) == [] then (Failed, net.After(1)) else
    var second := net.After(1);
    if second.Got(1) == [] then (Failed, second.After(1)) else
    ReadLengthAndKey(second.After(1), net.Got(1)[0], second.Got(1)[0], stack)
  }

  // ---------------------------------------------------------------- reader

  /** The four exchanges that reverse the eight length bytes in place. */
  method SwapExtendedLength(b: array<byte>)
    requires b.Length == 8
    modifies b
    ensures b[..] == Reverse(old(b[..]))
  {
    for i := 0 to 4
      invariant forall k :: 0 <= k < i ==> b[k] == old(b[7 - k]) && b[7 - k] == old(b[k])
      invariant forall k :: i <= k < 8 - i ==> b[k] == old(b[k])
    {
      var temp := b[i];
      b[i] := b[7 - i];
      b[7 - i] := temp;
    }
  }

  /** The unsigned 64-bit number that `memcpy` makes of eight bytes on a little-endian machine. */
  method CopyLittleEndian(b: array<byte>) returns (n: nat)
    ensures n == LittleEndian(b[..])
  {
    n := 0;
    for i := b.Length downto 0
      invariant n == LittleEndian(b[i..])
    {
      assert b[i..][1..] == b[i + 1..];
      n := b[i] + 256 * n;
    }
  }

  /** What a buffer holds after a read, from what `Read` promises. */
  lemma FilledIs(got: seq<byte>, before: seq<byte>, size: nat, buf: seq<byte>)
    requires |got| <= size <= |before| && |buf| == size
    requires buf[..|got|] == got && buf[|got|..] == before[|got|..size]
    ensures buf == Filled(got, before, size)
  {
  }

  /** The extended length of `recv_frame_head`: `size` bytes are asked for and `rul` arrive. */
  method RecvExtendedLength(c: Connection, head: FrameHead, stack: Stack) returns (rul: nat, size: nat)
    requires head.payloadLength < 128
    modifies c`net, head`payloadLength
    ensures size == ExtendedSize(FormOf(old(head.payloadLength)))
    ensures if size == 0 then c.net == old(c.net) && head.payloadLength == old(head.payloadLength)
            else c.net == old(c.net).After(size) && rul == |old(c.net).Got(size)|
    ensures size != 0 && rul != 0 ==>
              head.payloadLength == BigEndian(Filled(old(c.net).Got(size), stack.externLen, size))
  {
    hide Net.Take;
    hide Filled;
    rul, size := 0, 0;
    ghost var got;
    if head.payloadLength == 126 {
      var externLen := new byte[2](i requires 0 <= i < 2 => stack.externLen[i]);
      size, got := 2, c.net.Got(2);
      rul := c.Read(externLen, 2);
      if rul != 0 {
        FilledIs(got, stack.externLen, 2, externLen[..]);
        TwoBytes(externLen[..]);
        head.payloadLength := externLen[0] as int * 256 + externLen[1] as int;
      }
    } else if head.payloadLength == 127 {
      var externLen := new byte[8](i requires 0 <= i < 8 => stack.externLen[i]);
      size, got := 8, c.net.Got(8);
      rul := c.Read(externLen, 8);
      if rul != 0 {
        FilledIs(got, stack.externLen, 8, externLen[..]);
        LittleEndianOfReverse(externLen[..]);
        SwapExtendedLength(externLen);
        var n := CopyLittleEndian(externLen);
        head.payloadLength := n;
      }
    }
  }

  lemma TwoBytes(b: seq<byte>)
    requires |b| == 2
    ensures BigEndian(b) == b[0] as int * 256 + b[1] as int
  {
    assert b[..1] == [b[0]];
    assert b[..1][..0] == [];
    assert BigEndian(b[..1]) == b[0];
  }

  lemma FormOfLow7(b1: byte)
    ensures FormOf(Low7(b1)) == FormOf(b1)
  {
  }

  /** The rest of `recv_frame_head`, once the two fixed bytes are in the struct. */
  method RecvLengthAndKey(c: Connection, head: FrameHead, stack: Stack, ghost b0: byte, ghost b1: byte)
    returns (status: HeadStatus)
    requires head.maskingKey.Length == 4 && head.maskingKey[..] == stack.maskingKey
    requires head.fin == Bit7(b0) && head.opcode == Low4(b0) && head.mask == Bit7(b1) && head.payloadLength == Low7(b1)
    modifies c`net, head, head.maskingKey
    ensures (status, c.net) == ReadLengthAndKey(old(c.net), b0, b1, stack)
    ensures status.Done? ==> status.head == head.Value()
  {
    hide Net.Take;
    hide Filled;
    FormOfLow7(b1);
    var rul, size := RecvExtendedLength(c, head, stack);
    if size != 0 && rul <= 0 {
      return Failed;
    }
    ghost var sized := c.net;
    assert ReadLengthAndKey(old(c.net), b0, b1, stack) == ReadKey(sized, b0, b1, head.payloadLength, stack);
    rul := c.Read(head.maskingKey, 4);
    if rul <= 0 {
      return Failed;
    }
    FilledIs(sized.Got(4), stack.maskingKey, 4, head.maskingKey[..]);
    status := Done(Head(head.fin, head.opcode, head.mask, head.payloadLength, head.maskingKey[..]));
  }

  method RecvFrameHead(c: Connection, head: FrameHead, stack: Stack) returns (status: HeadStatus)
    requires head.maskingKey.Length == 4 && head.maskingKey[..] == stack.maskingKey
    modifies c`net, head, head.maskingKey
    ensures (status, c.net) == ReceiveHead(old(c.net), stack)
    ensures status.Done? ==> status.head == head.Value()
  {
    var oneChar := new byte[1];
    var rul := c.Read(oneChar, 1);
    if rul <= 0 {
      return Failed;
    }
    var b0 := oneChar[0];
    assert [b0] == old(c.net).Got(1);
    head.fin := Bit7(b0);
    head.opcode := Low4(b0);
    ghost var second := c.net;
    rul := c.Read(oneChar, 1);
    if rul <= 0 {
      return Failed;
    }
    var b1 := oneChar[0];
    assert [b1] == second.Got(1);
    head.mask := Bit7(b1);
    head.payloadLength := Low7(b1);
    status := RecvLengthAndKey(c, head, stack, b0, b1);
  }

  // ---------------------------------------------------------------- reader against the layout

  /** What the reader's struct keeps of a header; the reserved bits and the form are dropped. */
  function HeadOf(h: Header): Head
    requires h.key.Some?
  {
    Head(h.fin, h.opcode, true, h.length, h.key.value)
  }

  /** Reads that hand over exactly what the reader asks for. */
  function HeadScript(form: LengthForm): seq<nat> {
    match form
    case Short => [1, 1, 4]
    case Medium => [1, 1, 2, 4]
    case Long => [1, 1, 8, 4]
  }

  lemma FullRead(bytes: seq<byte>, rest: seq<byte>, script: seq<nat>)
    ensures var net := Net(bytes + rest, [|bytes|] + script);
            net.Got(|bytes|) == bytes && net.After(|bytes|) == Net(rest, script)
  {
  }

  lemma ReceiveFixedPart(b0: byte, b1: byte, body: seq<byte>, later: seq<nat>, stack: Stack)
    ensures ReceiveHead(Net([b0] + ([b1] + body), [1] + ([1] + later)), stack)
         == ReadLengthAndKey(Net(body, later), b0, b1, stack)
  {
    FullRead([b0], [b1] + body, [1] + later);
    FullRead([b1], body, later);
  }

  /** After the two fixed bytes. */
  lemma ReceiveVariablePart(b0: byte, b1: byte, extended: seq<byte>, key: seq<byte>, rest: seq<byte>, tail: seq<nat>,
                            stack: Stack)
    requires |extended| == ExtendedSize(FormOf(b1)) && |key| == 4
    ensures ReadLengthAndKey(Net(extended + key + rest, HeadScript(FormOf(b1))[2..] + tail), b0, b1, stack)
         == (Done(Head(Bit7(b0), Low4(b0), Bit7(b1), if extended == [] then Low7(b1) else BigEndian(extended), key)),
             Net(rest, tail))
  {
    Associative(extended, key, rest);
    FullRead(key, rest, tail);
    if extended == [] {
      assert extended + (key + rest) == key + rest;
      assert HeadScript(FormOf(b1))[2..] == [|key|];
    } else {
      FullRead(extended, key + rest, [|key|] + tail);
      assert HeadScript(FormOf(b1))[2..] + tail == [|extended|] + ([|key|] + tail);
    }
  }

  /** The reader on the bytes of a header, with the four bytes it takes as a key. */
  lemma ReceiveBytes(b0: byte, b1: byte, extended: seq<byte>, key: seq<byte>, rest: seq<byte>, tail: seq<nat>,
                     stack: Stack)
    requires |extended| == ExtendedSize(FormOf(b1)) && |key| == 4
    ensures ReceiveHead(Net([b0, b1] + extended + key + rest, HeadScript(FormOf(b1)) + tail), stack)
         == (Done(Head(Bit7(b0), Low4(b0), Bit7(b1), if extended == [] then Low7(b1) else BigEndian(extended), key)),
             Net(rest, tail))
  {
    var later := HeadScript(FormOf(b1))[2..] + tail;
    Regroup(b0, b1, extended, key, rest);
    RegroupScript(FormOf(b1), tail);
    ReceiveFixedPart(b0, b1, extended + key + rest, later, stack);
    ReceiveVariablePart(b0, b1, extended, key, rest, tail, stack);
  }

  lemma Regroup(b0: byte, b1: byte, extended: seq<byte>, key: seq<byte>, rest: seq<byte>)
    ensures [b0, b1] + extended + key + rest == [b0] + ([b1] + (extended + key + rest))
  {
  }

  lemma RegroupScript(form: LengthForm, tail: seq<nat>)
    ensures HeadScript(form) + tail == [1] + ([1] + (HeadScript(form)[2..] + tail))
  {
  }

  /** The reader inverts the encoding of every masked header, in each of the three length
      forms, and leaves the stream at the first byte after it. */
  lemma ReceiveOfEncodeHeader(h: Header, rest: seq<byte>, tail: seq<nat>, stack: Stack)
    requires h.Valid() && h.key.Some?
    ensures ReceiveHead(Net(EncodeHeader(h) + rest, HeadScript(h.form) + tail), stack)
         == (Done(Head(h.fin, h.opcode, true, h.length, h.key.value)), Net(rest, tail))
  {
    EncodedBytes(h);
    ReceiveBytes(Byte0(h), Byte1(h), ToBigEndian(h.length, ExtendedSize(h.form)), h.key.value, rest, tail, stack);
    if h.form != Short {
      ExtendedLength(h.length, h.form);
    }
  }

  /** The reader takes four key bytes whether or not the header has a key. From a header without
      one it still gets every field right, and takes the first four bytes behind it for the key. */
  lemma ReceiveOfUnmaskedHeader(h: Header, rest: seq<byte>, tail: seq<nat>, stack: Stack)
    requires h.Valid() && h.key.None? && |rest| >= 4
    ensures ReceiveHead(Net(EncodeHeader(h) + rest, HeadScript(h.form) + tail), stack)
         == (Done(Head(h.fin, h.opcode, false, h.length, rest[..4])), Net(rest[4..], tail))
  {
    EncodedBytes(h);
    var extended := ToBigEndian(h.length, ExtendedSize(h.form));
    ReceiveBytes(Byte0(h), Byte1(h), extended, rest[..4], rest[4..], tail, stack);
    UnmaskedHeader(h, rest);
    if h.form != Short {
      ExtendedLength(h.length, h.form);
    }
  }

  /** So it stops where the header ends exactly when the header is masked; the length and the other
      fields are right in either case. */
  lemma AlignedIffMasked(h: Header, rest: seq<byte>, tail: seq<nat>, stack: Stack)
    requires h.Valid() && |rest| >= 4
    ensures var (status, net) := ReceiveHead(Net(EncodeHeader(h) + rest, HeadScript(h.form) + tail), stack);
            && (net == Net(rest, tail) <==> h.key.Some?)
            && status.Done? && status.head.fin == h.fin && status.head.opcode == h.opcode
            && status.head.mask == h.key.Some? && status.head.length == h.length
  {
    if h.key.Some? {
      ReceiveOfEncodeHeader(h, rest, tail, stack);
    } else {
      ReceiveOfUnmaskedHeader(h, rest, tail, stack);
    }
  }

  lemma UnmaskedHeader(h: Header, rest: seq<byte>)
    requires h.Valid() && h.key.None? && |rest| >= 4
    ensures [Byte0(h), Byte1(h)] + ToBigEndian(h.length, ExtendedSize(h.form)) + rest[..4] + rest[4..]
         == EncodeHeader(h) + rest
  {
  }

  // ---------------------------------------------------------------- headers that are cut short

  /** The sizes of the reads of a header, the second byte of which is b1. */
  function ReadSizes(b1: byte): seq<nat> {
    if b1 % 128 == 126 then [1, 1, 2, 4] else if b1 % 128 == 127 then [1, 1, 8, 4] else [1, 1, 4]
  }

  /** One of the reads of these sizes gives nothing. */
  predicate SomeReadFails(net: Net, sizes: seq<nat>)
    decreases |sizes|
  {
    sizes != [] && (net.Got(sizes[0]) == [] || SomeReadFails(net.After(sizes[0]), sizes[1..]))
  }

  lemma FailureIsFirst(net: Net, n: nat, more: seq<nat>)
    ensures SomeReadFails(net, [n] + more) <==> net.Got(n) == [] || SomeReadFails(net.After(n), more)
  {
    assert ([n] + more)[1..] == more;
  }

  lemma LengthAndKeyFail(net: Net, b0: byte, b1: byte, stack: Stack)
    ensures ReadLengthAndKey(net, b0, b1, stack).0.Failed? <==> SomeReadFails(net, ReadSizes(b1)[2..])
  {
    hide Net.Take;
    assert ReadSizes(b1)[2..] == if b1 % 128 == 126 then [2] + [4] else if b1 % 128 == 127 then [8] + [4] else [4];
    FailureIsFirst(net, 2, [4]);
    FailureIsFirst(net, 8, [4]);
    forall later: Net
      ensures SomeReadFails(later, [4]) <==> later.Got(4) == []
    {
      assert [4] + [] == [4];
      FailureIsFirst(later, 4, []);
    }
  }

  /** The header read fails exactly when one of its reads gives nothing; a read that gives too little
      is not noticed. */
  lemma HeadFailsIff(net: Net, stack: Stack)
    ensures ReceiveHead(net, stack).0.Failed?
       <==> net.Got(1) == [] || net.After(1).Got(1) == []
            || SomeReadFails(net, ReadSizes(net.After(1).Got(1)[0]))
  {
    hide Net.Take;
    hide ReadLengthAndKey;
    if net.Got(1) != [] && net.After(1).Got(1) != [] {
      var b1 := net.After(1).Got(1)[0];
      LengthAndKeyFail(net.After(1).After(1), net.Got(1)[0], b1, stack);
      assert ReadSizes(b1) == [1] + ([1] + ReadSizes(b1)[2..]);
      FailureIsFirst(net, 1, [1] + ReadSizes(b1)[2..]);
      FailureIsFirst(net.After(1), 1, ReadSizes(b1)[2..]);
    }
  }

  /** A key of which only the first bytes arrive is filled up with what the reader's local held. */
  lemma CutKey(b0: byte, b1: byte, got: seq<byte>, tail: seq<nat>, stack: Stack)
    requires b1 % 128 < 126 && 0 < |got| < 4
    ensures ReceiveHead(Net([b0] + ([b1] + got), [1] + ([1] + ([4] + tail))), stack)
         == (Done(Head(b0 >= 128, b0 % 16, b1 >= 128, b1 % 128, got + stack.maskingKey[|got|..])), Net([], tail))
  {
    ReceiveFixedPart(b0, b1, got, [4] + tail, stack);
    hide ReceiveHead;
    PartOfFour(got, tail);
    ShortLength(Net(got, [4] + tail), b0, b1, stack);
    assert got + stack.maskingKey[|got|..] == Filled(got, stack.maskingKey, 4);
  }

  lemma ShortLength(net: Net, b0: byte, b1: byte, stack: Stack)
    requires b1 % 128 < 126
    ensures ReadLengthAndKey(net, b0, b1, stack) == ReadKey(net, b0, b1, b1 % 128, stack)
    ensures Bit7(b0) == (b0 >= 128) && Low4(b0) == b0 % 16 && Bit7(b1) == (b1 >= 128)
  {
  }

  lemma PartOfFour(got: seq<byte>, script: seq<nat>)
    requires |got| < 4
    ensures Net(got, [4] + script).Got(4) == got && Net(got, [4] + script).After(4) == Net([], script)
  {
  }

  /** And so is an extended length, with the bytes it lacks at the low end. */
  lemma CutLength(b0: byte, b1: byte, high: byte, key: seq<byte>, rest: seq<byte>, tail: seq<nat>, stack: Stack)
    requires b1 % 128 == 126 && |key| == 4
    ensures ReceiveHead(Net([b0] + ([b1] + ([high] + (key + rest))), [1] + ([1] + ([1] + ([4] + tail)))), stack)
         == (Done(Head(b0 >= 128, b0 % 16, b1 >= 128, 256 * high as int + stack.externLen[1], key)), Net(rest, tail))
  {
    ReceiveFixedPart(b0, b1, [high] + (key + rest), [1] + ([4] + tail), stack);
    OneOfTwo(high, key + rest, [4] + tail);
    FullRead(key, rest, tail);
    ValueOfTwo([high, stack.externLen[1]]);
    hide Net.Take;
    hide ReceiveHead;
    hide BigEndian;
    assert Filled([high], stack.externLen, 2) == [high, stack.externLen[1]];
  }

  lemma OneOfTwo(high: byte, rest: seq<byte>, script: seq<nat>)
    ensures var net := Net([high] + rest, [1] + script);
            net.Got(2) == [high] && net.After(2) == Net(rest, script)
  {
  }

  // ---------------------------------------------------------------- writers

  /** The header of an unmasked final text frame in the minimal length form. */
  function TextHeader(n: nat): (h: Header)
    requires n < 0x1_0000_0000_0000_0000
    ensures h.Valid()
  {
    Header(true, 0, TEXT, MinimalForm(n), n, None)
  }

  /** The unmasked final text frame that carries `payload`. */
  function TextFrame(payload: seq<byte>): (f: Frame)
    requires |payload| < 0x1_0000_0000_0000_0000
    ensures f.Valid()
  {
    Frame(TextHeader(|payload|), payload)
  }

  /** The bytes of the header for each length the writers cover. */
  lemma TextHeaderBytes(n: nat)
    requires n < 0x1_0000_0000_0000_0000
    ensures n < 126 ==> EncodeHeader(TextHeader(n)) == [0x81, n]
    ensures 126 <= n < 0x1_0000 ==> EncodeHeader(TextHeader(n)) == [0x81, 126, n / 256 % 256, n % 256]
    ensures |EncodeHeader(TextHeader(n))| != 12
  {
    if 126 <= n < 0x1_0000 {
      assert ToBigEndian(n / 256, 1) == ToBigEndian(n / 256 / 256, 0) + [n / 256 % 256];
      assert ToBigEndian(n, 2) == [n / 256 % 256, n % 256];
    }
  }

  /** `send_frame_head`: the length comes from a received header. */
  method SendFrameHead(c: Connection, head: FrameHead)
    requires head.payloadLength < 0x1_0000_0000_0000_0000
    modifies c`outgoing
    ensures old(c.outgoing) <= c.outgoing
    ensures c.outgoing == old(c.outgoing) + EncodeHeader(TextHeader(head.payloadLength))
       <==> head.payloadLength < 0xFFFF
  {
    TextHeaderBytes(head.payloadLength);
    var responseHead: array<byte>;
    var headLength := 0;
    if head.payloadLength < 126 {
      responseHead := new byte[2];
      responseHead[0] := 0x81;
      responseHead[1] := head.payloadLength;
      headLength := 2;
    } else if head.payloadLength < 0xFFFF {
      responseHead := new byte[4];
      responseHead[0] := 0x81;
      responseHead[1] := 126;
      responseHead[2] := head.payloadLength / 256 % 256;
      responseHead[3] := head.payloadLength % 256;
      headLength := 4;
    } else {
      responseHead := new byte[12]; // never filled in
      headLength := 12;
    }
    c.Write(responseHead, headLength);
  }

  /** `send_frame_length`: the length is an `int` argument. */
  method SendFrameLength(c: Connection, payloadLength: int)
    requires payloadLength < 0x8000_0000
    modifies c`outgoing
    ensures old(c.outgoing) <= c.outgoing
    ensures payloadLength < 0 ==> c.outgoing == old(c.outgoing) + [0x81, payloadLength % 256]
    ensures payloadLength >= 0 ==>
              (c.outgoing == old(c.outgoing) + EncodeHeader(TextHeader(payloadLength)) <==> payloadLength < 0xFFFF)
  {
    if payloadLength >= 0 {
      TextHeaderBytes(payloadLength);
    }
    var responseHead: array<byte>;
    var headLength := 0;
    if payloadLength < 126 {
      responseHead := new byte[2];
      responseHead[0] := 0x81;
      responseHead[1] := payloadLength % 256;
      headLength := 2;
    } else if payloadLength < 0xFFFF {
      responseHead := new byte[4];
      responseHead[0] := 0x81;
      responseHead[1] := 126;
      responseHead[2] := payloadLength / 256 % 256;
      responseHead[3] := payloadLength % 256;
      headLength := 4;
    } else {
      responseHead := new byte[12]; // never filled in
      headLength := 12;
    }
    c.Write(responseHead, headLength);
  }

  /** A client that follows RFC 6455 reads n back from what the writers put on the wire, and no
      header for n is shorter. The program's own reader gets the same length from it. */
  lemma WrittenHeaderReadsBack(n: nat, rest: seq<byte>, tail: seq<nat>, stack: Stack)
    requires n < 0x1_0000_0000_0000_0000 && |rest| >= 4
    ensures ParseHeader(EncodeHeader(TextHeader(n)) + rest) == Some(Header(true, 0, 1, MinimalForm(n), n, None))
    ensures forall h: Header :: h.Valid() && h.length == n ==> |EncodeHeader(TextHeader(n))| <= |EncodeHeader(h)|
    ensures ReceiveHead(Net(EncodeHeader(TextHeader(n)) + rest, HeadScript(MinimalForm(n)) + tail), stack)
         == (Done(Head(true, 1, false, n, rest[..4])), Net(rest[4..], tail))
  {
    hide ReceiveHead;
    ParseOfEncodeHeader(TextHeader(n), rest);
    forall h: Header | h.Valid() && h.length == n
      ensures |EncodeHeader(TextHeader(n))| <= |EncodeHeader(h)|
    {
      MinimalFormIsShortest(h);
      MinimalFormIsShortest(TextHeader(n));
    }
    ReceiveOfUnmaskedHeader(TextHeader(n), rest, tail, stack);
  }
}
