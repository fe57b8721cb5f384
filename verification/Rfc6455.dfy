/** The frame format of section 5.2 of RFC 6455, written from the standard and not from the
    program: what bytes a frame is, and how a stream is read back into frames. It is the
    reference the program's reader and writers are compared with.
 */
module Rfc6455 {
  import opened Bytes

  const TEXT: byte := 1

  /** The three encodings of the payload length: 7, 7+16 and 7+64 bits. */
  datatype LengthForm = Short | Medium | Long

  /** `key` is present exactly when the MASK bit is set. */
  datatype Header = Header(fin: bool, rsv: byte, opcode: byte, form: LengthForm, length: nat, key: Option<seq<byte>>)
  {
    /** Every field fits the bits the layout gives it. */
    predicate Valid() {
      && rsv < 8
      && opcode < 16
      && Fits(length, form)
      && (key.Some? ==> |key.value| == 4)
    }
  }

  predicate Fits(n: nat, form: LengthForm) {
    match form
    case Short => n < 126
    case Medium => n < 0x1_0000
    case Long => n < 0x1_0000_0000_0000_0000
  }

  function ExtendedSize(form: LengthForm): nat {
    match form
    case Short => 0
    case Medium => 2
    case Long => 8
  }

  function Length7(n: nat, form: LengthForm): (b: byte)
    requires Fits(n, form)
  {
    match form
    case Short => n
    case Medium => 126
    case Long => 127
  }

  /** The smallest form that holds n, which section 5.2 requires. */
  function MinimalForm(n: nat): LengthForm {
    if n < 126 then Short else if n < 0x1_0000 then Medium else Long
  }

  function Byte0(h: Header): byte
    requires h.Valid()
  {
    (if h.fin then 128 else 0) + h.rsv * 16 + h.opcode
  }

  function Byte1(h: Header): byte
    requires h.Valid()
  {
    (if h.key.Some? then 128 else 0) + Length7(h.length, h.form)
  }

  function KeyBytes(h: Header): seq<byte> {
    if h.key.Some? then h.key.value else []
  }

  function EncodeHeader(h: Header): seq<byte>
    requires h.Valid()
  {
    [Byte0(h), Byte1(h)] + ToBigEndian(h.length, ExtendedSize(h.form)) + KeyBytes(h)
  }

  function FormOf(b1: byte): LengthForm {
    if Low7(b1) == 126 then Medium else if Low7(b1) == 127 then Long else Short
  }

  function HeaderSize(b1: byte): nat {
    2 + ExtendedSize(FormOf(b1)) + (if Bit7(b1) then 4 else 0)
  }

  /** What the bytes of a header mean, once they are told apart. */
  function HeaderOf(b0: byte, b1: byte, extended: seq<byte>, key: Option<seq<byte>>): Header {
    Header(Bit7(b0), b0 / 16 % 8, Low4(b0), FormOf(b1),
           if FormOf(b1) == Short then Low7(b1) else BigEndian(extended), key)
  }

  /** The header at the start of a stream, if all of it is there. */
  function ParseHeader(s: seq<byte>): Option<Header> {
    if |s| < 2 || |s| < HeaderSize(s[1]) then None else
    var at := 2 + ExtendedSize(FormOf(s[1]));
    Some(HeaderOf(s[0], s[1], s[2..at], if Bit7(s[1]) then Some(s[at..at + 4]) else None))
  }

  /** Telling the bytes of a header apart, as a fact about sequences only. */
  lemma ParseShape(b0: byte, b1: byte, extended: seq<byte>, key: seq<byte>, rest: seq<byte>)
    requires |extended| == ExtendedSize(FormOf(b1))
    requires |key| == if Bit7(b1) then 4 else 0
    ensures ParseHeader([b0, b1] + extended + key + rest)
         == Some(HeaderOf(b0, b1, extended, if Bit7(b1) then Some(key) else None))
  {
    var s := [b0, b1] + extended + key + rest;
    var at := 2 + |extended|;
    assert s[2..at] == extended;
    if Bit7(b1) {
      assert s[at..at + 4] == key;
    }
  }

  lemma ExtendedLength(n: nat, form: LengthForm)
    requires Fits(n, form) && form != Short
    ensures BigEndian(ToBigEndian(n, ExtendedSize(form))) == n
  {
    ShortFields();
    BigEndianOfToBigEndian(n, ExtendedSize(form));
  }

  /** The bytes of an encoded header mean that header. */
  lemma EncodedBytes(h: Header)
    requires h.Valid()
    ensures FormOf(Byte1(h)) == h.form && (Bit7(Byte1(h)) <==> h.key.Some?)
    ensures HeaderOf(Byte0(h), Byte1(h), ToBigEndian(h.length, ExtendedSize(h.form)), h.key) == h
  {
    if h.form != Short {
      ExtendedLength(h.length, h.form);
    }
  }

  /** Decoding inverts encoding, whatever follows. */
  lemma ParseOfEncodeHeader(h: Header, rest: seq<byte>)
    requires h.Valid()
    ensures ParseHeader(EncodeHeader(h) + rest) == Some(h)
  {
    EncodedBytes(h);
    ParseShape(Byte0(h), Byte1(h), ToBigEndian(h.length, ExtendedSize(h.form)), KeyBytes(h), rest);
  }

  /** The figure of section 5.2: where each field stands in the bytes of a header. */
  lemma LayoutOfHeader(h: Header)
    requires h.Valid()
    ensures var s := EncodeHeader(h);
            && |s| == 2 + (if h.form == Short then 0 else if h.form == Medium then 2 else 8)
                      + (if h.key.Some? then 4 else 0)
            && (s[0] >= 128 <==> h.fin) && s[0] / 16 % 8 == h.rsv && s[0] % 16 == h.opcode
            && (s[1] >= 128 <==> h.key.Some?)
            && s[1] % 128 == (if h.form == Short then h.length else if h.form == Medium then 126 else 127)
            && (h.key.Some? ==> s[|s| - 4..] == h.key.value)
  {
    hide ToBigEndian;
    LayoutOfFixed(h);
    assert EncodeHeader(h)[0] == Byte0(h) && EncodeHeader(h)[1] == Byte1(h);
    hide Byte0;
    hide Byte1;
    hide Fits;
  }

  lemma LayoutOfFixed(h: Header)
    requires h.Valid()
    ensures (Byte0(h) >= 128 <==> h.fin) && Byte0(h) / 16 % 8 == h.rsv && Byte0(h) % 16 == h.opcode
    ensures Byte1(h) >= 128 <==> h.key.Some?
    ensures Byte1(h) % 128 == if h.form == Short then h.length else if h.form == Medium then 126 else 127
  {
  }

  /** The extended length of the figure: two or eight bytes, the most significant first. */
  lemma LayoutOfLength(h: Header)
    requires h.Valid() && h.form != Short
    ensures var s: seq<int> := EncodeHeader(h);
            && |s| >= 2 + (if h.form == Medium then 2 else 8)
            && (h.form == Medium ==> h.length == 256 * s[2] + s[3])
            && (h.form == Long ==>
                  h.length == 0x1_0000_0000_0000 * (256 * s[2] + s[3]) + 0x1_0000_0000 * (256 * s[4] + s[5])
                              + 0x1_0000 * (256 * s[6] + s[7]) + (256 * s[8] + s[9]))
  {
    hide BigEndian;
    hide ToBigEndian;
    hide Byte0;
    hide Byte1;
    var extended := ToBigEndian(h.length, ExtendedSize(h.form));
    ExtendedLength(h.length, h.form);
    if h.form == Medium {
      ValueOfTwo(extended);
    } else {
      ValueOfEight(extended);
    }
  }

  lemma ValueOfTwo(b: seq<byte>)
    requires |b| == 2
    ensures BigEndian(b) == 256 * b[0] as int + b[1]
  {
    assert b[..1][..0] == [];
    assert BigEndian(b[..1]) == b[0];
  }

  lemma ValueOfEight(b: seq<byte>)
    requires |b| == 8
    ensures var s: seq<int> := b;
            BigEndian(b) == 0x1_0000_0000_0000 * (256 * s[0] + s[1]) + 0x1_0000_0000 * (256 * s[2] + s[3])
                            + 0x1_0000 * (256 * s[4] + s[5]) + (256 * s[6] + s[7])
  {
    LastTwo(b);
    LastTwo(b[..6]);
    LastTwo(b[..4]);
    ValueOfTwo(b[..2]);
    hide BigEndian;
    assert b[..6][..4] == b[..4] && b[..4][..2] == b[..2];
  }

  lemma LastTwo(b: seq<byte>)
    requires |b| >= 2
    ensures BigEndian(b) == 0x1_0000 * BigEndian(b[..|b| - 2]) + 256 * b[|b| - 2] as int + b[|b| - 1]
  {
    assert b[..|b| - 1][..|b| - 2] == b[..|b| - 2];
  }

  /** A parsed header fits the layout, and its bytes are the ones that were read. */
  lemma ParsedBytes(b0: byte, b1: byte, extended: seq<byte>, key: Option<seq<byte>>)
    requires |extended| == ExtendedSize(FormOf(b1))
    requires Bit7(b1) <==> key.Some?
    requires key.Some? ==> |key.value| == 4
    ensures var h := HeaderOf(b0, b1, extended, key);
            h.Valid() && Byte0(h) == b0 && Byte1(h) == b1 && ToBigEndian(h.length, |extended|) == extended
  {
    ShortFields();
    BigEndianBound(extended);
    ToBigEndianOfBigEndian(extended);
  }

  /** Encoding inverts decoding: what was parsed is a prefix of the stream, bit for bit. */
  lemma EncodeOfParseHeader(s: seq<byte>)
    requires ParseHeader(s).Some?
    ensures var h := ParseHeader(s).value; h.Valid() && EncodeHeader(h) <= s
  {
    var at := 2 + ExtendedSize(FormOf(s[1]));
    var key := if Bit7(s[1]) then Some(s[at..at + 4]) else None;
    ParsedBytes(s[0], s[1], s[2..at], key);
    assert s[..at] == [s[0], s[1]] + s[2..at];
    assert EncodeHeader(ParseHeader(s).value) == s[..HeaderSize(s[1])];
  }

  // ---------------------------------------------------------------- frames

  /** A frame carries its payload unmasked; the wire form masks it when there is a key. */
  datatype Frame = Frame(header: Header, payload: seq<byte>)
  {
    predicate Valid() {
      header.Valid() && header.length == |payload|
    }
  }

  function WirePayload(f: Frame): (r: seq<byte>)
    requires f.Valid()
    ensures |r| == |f.payload|
  {
    if f.header.key.Some? then Mask(f.payload, f.header.key.value, 0) else f.payload
  }

  function EncodeFrame(f: Frame): seq<byte>
    requires f.Valid()
  {
    EncodeHeader(f.header) + WirePayload(f)
  }

  /** Behind its header a frame carries its payload, as it is or transformed by the key, bit by bit. */
  lemma LayoutOfPayload(f: Frame, i: nat, p: nat)
    requires f.Valid() && i < |f.payload| && p in {1, 2, 4, 8, 16, 32, 64, 128}
    ensures var head, wire := EncodeHeader(f.header), EncodeFrame(f);
            && head <= wire && |wire| == |head| + |f.payload|
            && if f.header.key.None? then wire[|head| + i] == f.payload[i]
               else wire[|head| + i] / p % 2 ==
                    if f.payload[i] / p % 2 == f.header.key.value[i % 4] / p % 2 then 0 else 1
  {
    hide EncodeHeader;
    if f.header.key.Some? {
      MaskIsBitwise(f.payload, f.header.key.value, i, p);
    }
  }

  predicate AllValid(fs: seq<Frame>) {
    forall i :: 0 <= i < |fs| ==> fs[i].Valid()
  }

  function EncodeFrames(fs: seq<Frame>): seq<byte>
    requires AllValid(fs)
  {
    if fs == [] then [] else EncodeFrame(fs[0]) + EncodeFrames(fs[1..])
  }

  /** The payload that a header announces, taken from the bytes after the header. */
  function ParsePayload(h: Header, s: seq<byte>): Option<(Frame, seq<byte>)>
    requires h.Valid()
  {
    if |s| < h.length then None else
    var body := s[..h.length];
    Some((Frame(h, if h.key.Some? then Mask(body, h.key.value, 0) else body), s[h.length..]))
  }

  /** The first frame of a stream and what follows it. */
  function ParseFrame(s: seq<byte>): (r: Option<(Frame, seq<byte>)>)
    ensures r.Some? ==> |r.value.1| < |s|
  {
    var h := ParseHeader(s);
    if h.None? then None else
    EncodeOfParseHeader(s);
    ParsePayload(h.value, s[|EncodeHeader(h.value)|..])
  }

  /** A whole stream as frames; None when it does not end on a frame boundary. */
  function ParseFrames(s: seq<byte>): Option<seq<Frame>>
    decreases |s|
  {
    if s == [] then Some([]) else
    var first := ParseFrame(s);
    if first.None? then None else
    var others := ParseFrames(first.value.1);
    if others.None? then None else Some([first.value.0] + others.value)
  }

  lemma ParseOfEncodeFrame(f: Frame, rest: seq<byte>)
    requires f.Valid()
    ensures ParseFrame(EncodeFrame(f) + rest) == Some((f, rest))
  {
    var head, body := EncodeHeader(f.header), WirePayload(f);
    Associative(head, body, rest);
    ParseOfEncodeHeader(f.header, body + rest);
    assert (head + (body + rest))[|head|..] == body + rest;
    assert (body + rest)[..|body|] == body && (body + rest)[|body|..] == rest;
    if f.header.key.Some? {
      MaskTwice(f.payload, f.header.key.value, 0, 0);
    }
  }

  lemma EncodeOfParsePayload(h: Header, s: seq<byte>)
    requires h.Valid() && ParsePayload(h, s).Some?
    ensures var r := ParsePayload(h, s).value; r.0.Valid() && r.0.header == h && WirePayload(r.0) + r.1 == s
  {
    if h.key.Some? {
      MaskTwice(s[..h.length], h.key.value, 0, 0);
    }
    Cut(s, h.length);
  }

  lemma EncodeOfParseFrame(s: seq<byte>)
    requires ParseFrame(s).Some?
    ensures var r := ParseFrame(s).value; r.0.Valid() && EncodeFrame(r.0) + r.1 == s
  {
    hide EncodeHeader;
    hide ParseHeader;
    hide Mask;
    var (f, rest) := ParseFrame(s).value;
    EncodeOfParseHeader(s);
    var head := EncodeHeader(ParseHeader(s).value);
    EncodeOfParsePayload(ParseHeader(s).value, s[|head|..]);
    Cut(s, |head|);
    Associative(head, WirePayload(f), rest);
  }

  /** A stream of whole frames is read back as exactly those frames. */
  lemma {:induction false} ParseOfEncodeFrames(fs: seq<Frame>)
    requires AllValid(fs)
    ensures ParseFrames(EncodeFrames(fs)) == Some(fs)
  {
    hide EncodeFrame;
    hide ParseFrame;
    if fs != [] {
      ParseOfEncodeFrame(fs[0], EncodeFrames(fs[1..]));
      ParseOfEncodeFrames(fs[1..]);
      assert [fs[0]] + fs[1..] == fs;
    }
  }

  /** A stream that parses is the encoding of the frames it parses into. */
  lemma {:induction false} EncodeOfParseFrames(s: seq<byte>)
    requires ParseFrames(s).Some?
    ensures AllValid(ParseFrames(s).value) && EncodeFrames(ParseFrames(s).value) == s
    decreases |s|
  {
    if s != [] {
      var (f, rest) := ParseFrame(s).value;
      EncodeOfParseFrame(s);
      EncodeOfParseFrames(rest);
      assert ParseFrames(s).value[1..] == ParseFrames(rest).value;
    }
  }

  /** Two lists of frames with the same bytes are the same list. */
  lemma EncodingIsInjective(fs: seq<Frame>, gs: seq<Frame>)
    requires AllValid(fs) && AllValid(gs)
    ensures EncodeFrames(fs) == EncodeFrames(gs) <==> fs == gs
  {
    ParseOfEncodeFrames(fs);
    ParseOfEncodeFrames(gs);
  }

  /** No frame is a proper prefix of another. */
  lemma EncodingIsPrefixFree(f: Frame, g: Frame)
    requires f.Valid() && g.Valid()
    ensures EncodeFrame(f) <= EncodeFrame(g) <==> f == g
  {
    if EncodeFrame(f) <= EncodeFrame(g) {
      var rest := EncodeFrame(g)[|EncodeFrame(f)|..];
      ParseOfEncodeFrame(f, rest);
      assert EncodeFrame(f) + rest == EncodeFrame(g) + [];
      ParseOfEncodeFrame(g, []);
    }
  }

  /** A header is as short as any header for the same length exactly when its form is minimal. */
  lemma MinimalFormIsShortest(h: Header)
    requires h.Valid()
    ensures h.form == MinimalForm(h.length)
       <==> forall form: LengthForm :: Fits(h.length, form) ==>
              |EncodeHeader(h)| <= |EncodeHeader(h.(form := form))|
  {
    var best := h.(form := MinimalForm(h.length));
    assert best.Valid();
    if h.form != best.form {
      assert |EncodeHeader(best)| < |EncodeHeader(h)|;
    }
  }
}
