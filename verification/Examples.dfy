/** The examples of section 5.7 of RFC 6455, octet by octet, on the frame format and on the loops. */
module Examples {
  import opened Bytes
  import opened Rfc6455
  import opened Transport
  import opened FrameHeads
  import opened Receive
  import opened Delivery

  /** A single-frame unmasked text message: what `send` writes for "Hello". */
  lemma UnmaskedText()
    ensures EncodeFrame(TextFrame([0x48, 0x65, 0x6C, 0x6C, 0x6F])) == [0x81, 0x05, 0x48, 0x65, 0x6C, 0x6C, 0x6F]
  {
    TextHeaderBytes(5);
  }

  lemma FirstOctets()
    ensures Xor(0x48, 0x37) == 0x7F && Xor(0x65, 0xFA) == 0x9F
  {
    hide *;
    XorIsSum(0x48, 0x37);
    XorIsSum(0x65, 0xFA);
  }

  lemma DoubledOctets()
    ensures Xor(0x6C, 0x21) == 0x4D && Xor(0x6C, 0x3D) == 0x51
  {
    hide *;
    XorIsSum(0x6C, 0x21);
    XorIsSum(0x6C, 0x3D);
  }

  lemma LastOctet()
    ensures Xor(0x6F, 0x37) == 0x58
  {
    hide *;
    XorIsSum(0x6F, 0x37);
  }

  lemma HelloMasked()
    ensures Mask([0x48, 0x65, 0x6C, 0x6C, 0x6F], [0x37, 0xFA, 0x21, 0x3D], 0) == [0x7F, 0x9F, 0x4D, 0x51, 0x58]
  {
    hide Xor;
    hide XorBits;
    FirstOctets();
    DoubledOctets();
    LastOctet();
  }

  /** A single-frame masked text message. */
  lemma MaskedText()
    ensures EncodeFrame(Frame(Header(true, 0, 1, Short, 5, Some([0x37, 0xFA, 0x21, 0x3D])),
                              [0x48, 0x65, 0x6C, 0x6C, 0x6F]))
         == [0x81, 0x85, 0x37, 0xFA, 0x21, 0x3D, 0x7F, 0x9F, 0x4D, 0x51, 0x58]
  {
    hide Mask;
    HelloMasked();
  }

  /** A fragmented message: the first part has no FIN bit, the second is a continuation. */
  lemma FragmentedText()
    ensures EncodeFrame(Frame(Header(false, 0, 1, Short, 3, None), [0x48, 0x65, 0x6C]))
         == [0x01, 0x03, 0x48, 0x65, 0x6C]
    ensures EncodeFrame(Frame(Header(true, 0, 0, Short, 2, None), [0x6C, 0x6F])) == [0x80, 0x02, 0x6C, 0x6F]
  {
  }

  /** The headers of 256 and of 65536 octets of binary data. */
  lemma LongHeaders()
    ensures EncodeHeader(Header(true, 0, 2, Medium, 256, None)) == [0x82, 0x7E, 0x01, 0x00]
    ensures EncodeHeader(Header(true, 0, 2, Long, 0x1_0000, None))
         == [0x82, 0x7F, 0x00, 0x00, 0x00, 0x00, 0x00, 0x01, 0x00, 0x00]
  {
    LongFields();
    hide ToBigEndian;
  }

  lemma LongFields()
    ensures ToBigEndian(256, 2) == [1, 0] && ToBigEndian(0x1_0000, 8) == [0, 0, 0, 0, 0, 1, 0, 0]
  {
    assert ToBigEndian(0, 5) == [0, 0, 0, 0, 0] && ToBigEndian(1, 6) == [0, 0, 0, 0, 0, 1];
  }

  /** The masked example on the wire, read header and payload at a time, is delivered as "Hello", for
      any contents of the reader's locals. */
  lemma HelloIsDelivered(memory: Memory)
    ensures var wire := [0x81, 0x85, 0x37, 0xFA, 0x21, 0x3D, 0x7F, 0x9F, 0x4D, 0x51, 0x58];
            var s := RunLoop(Net(wire, [1, 1, 4, 5]), memory, false);
            s.outcome == Closed && Flatten(Chunks(s.frames)) == [0x48, 0x65, 0x6C, 0x6C, 0x6F]
  {
    hide *;
    HelloIsSent();
    MaskedText();
    OneFrame(Hello(), [5]);
    AlignedReadsDeliver([Hello()], [[5]], [], memory);
    SessionIs([Hello()], [[5]], memory);
  }

  function Hello(): Frame {
    Frame(Header(true, 0, 1, Short, 5, Some([0x37, 0xFA, 0x21, 0x3D])), [0x48, 0x65, 0x6C, 0x6C, 0x6F])
  }

  lemma HelloIsSent()
    ensures ClientFrame(Hello()) && CutsOf([[5]], [Hello()]) && AllFit([Hello()])
    ensures HeadScript(Hello().header.form) + [5] == [1, 1, 4, 5]
    ensures Hello() == Frame(Header(true, 0, 1, Short, 5, Some([0x37, 0xFA, 0x21, 0x3D])),
                             [0x48, 0x65, 0x6C, 0x6C, 0x6F])
  {
    assert Sum([5]) == 5 + Sum([]);
  }

  lemma SessionIs(fs: seq<Frame>, cuts: seq<seq<nat>>, memory: Memory)
    requires ClientFrames(fs) && CutsOf(cuts, fs)
    ensures SessionOf(fs, cuts, [], memory, false)
         == RunLoop(Net(EncodeFrames(fs), Script(fs, cuts) + []), memory, false)
  {
  }

  lemma OneFrame(f: Frame, cut: seq<nat>)
    requires ClientFrame(f)
    ensures ClientFrames([f]) && EncodeFrames([f]) == EncodeFrame(f) && Payloads([f]) == f.payload
    ensures Script([f], [cut]) + [] == HeadScript(f.header.form) + cut
  {
    hide EncodeFrame;
    assert [f][1..] == [] && [cut][1..] == [];
    assert EncodeFrame(f) + [] == EncodeFrame(f) && f.payload + [] == f.payload;
    assert Script([f], [cut]) == HeadScript(f.header.form) + cut + [];
  }
}
