/** The opening handshake of websocket.c: `_readline` and `shakehands`.

    The request is a C string in a 1024-byte stack buffer, so whatever the buffer held past the
    bytes that were read belongs to it up to the first NUL. SHA-1 and base64 are parameters.
 */
module Handshake {
  import opened Bytes
  import opened Transport

  const CR: byte := 13
  const LF: byte := 10
  const BUFFER: nat := 1024
  const LINE: nat := 256

  /** The bytes of a string, each character narrowed to its low byte. */
  function Ascii(s: string): (b: seq<byte>)
    ensures |b| == |s|
    ensures forall i :: 0 <= i < |s| ==> b[i] == s[i] as int % 256
  {
    seq(|s|, i requires 0 <= i < |s| => s[i] as int % 256)
  }

  lemma AsciiAppend(s: string, t: string)
    ensures Ascii(s + t) == Ascii(s) + Ascii(t)
  {
  }

  const GUID: seq<byte> := Ascii("258EAFA5-E914-47DA-95CA-C5AB0DC85B11")
  const KEY_NAME: seq<byte> := Ascii("Sec-WebSocket-Key")

  /** Where the key starts in `Sec-WebSocket-Key: key`. */
  const KEY_OFFSET: nat := 19

  // ---------------------------------------------------------------- lines

  predicate CrlfAt(s: seq<byte>, i: nat) {
    i + 1 < |s| && s[i] == CR && s[i + 1] == LF
  }

  predicate NoCrlf(s: seq<byte>) {
    forall i :: 0 <= i < |s| ==> !CrlfAt(s, i)
  }

  /** The first CRLF at or after `from`, or |s|. */
  function FirstCrlf(s: seq<byte>, from: nat): (r: nat)
    requires from <= |s|
    ensures from <= r <= |s|
    ensures r < |s| ==> CrlfAt(s, r)
    ensures forall i :: from <= i < r ==> !CrlfAt(s, i)
    decreases |s| - from
  {
    if from == |s| then |s| else if CrlfAt(s, from) then from else FirstCrlf(s, from + 1)
  }

  /** The lines the handshake loop reads from the text that is left, and whether it then stands at
      a blank line; otherwise the last line is the unterminated rest of the text. */
  datatype Lines = Lines(lines: seq<seq<byte>>, blank: bool)

  function Scan(s: seq<byte>): (r: Lines)
    ensures r.lines != []
    decreases |s|
  {
    var i := FirstCrlf(s, 0);
    if i == |s| then Lines([s], false) else
    var rest := s[i + 2..];
    if CrlfAt(rest, 0) then Lines([s[..i]], true) else
    var more := Scan(rest);
    Lines([s[..i]] + more.lines, more.blank)
  }

  /** Lines put back together, each with its CRLF. */
  function Join(lines: seq<seq<byte>>): seq<byte> {
    if lines == [] then [] else lines[0] + [CR, LF] + Join(lines[1..])
  }

  /** What it means to be the lines of a text, said without reading it from left to right: no
      line holds a CRLF, no line but the first or last is empty, and the lines rebuild the text
      up to the blank line, or all of it when there is none. */
  predicate IsScan(s: seq<byte>, r: Lines) {
    var n := |r.lines|;
    && n > 0
    && (forall k :: 0 <= k < n ==> NoCrlf(r.lines[k]))
    && if r.blank then
         && (forall k :: 0 < k < n ==> r.lines[k] != [])
         && Join(r.lines) <= s
         && CrlfAt(s, |Join(r.lines)|)
       else
         && (forall k :: 0 < k < n - 1 ==> r.lines[k] != [])
         && s == Join(r.lines[..n - 1]) + r.lines[n - 1]
  }

  /** The first line of a text is ended by its first CRLF. */
  lemma FirstCrlfIs(line: seq<byte>, rest: seq<byte>)
    requires NoCrlf(line)
    ensures FirstCrlf(line + [CR, LF] + rest, 0) == |line|
  {
    var s := line + [CR, LF] + rest;
    forall i: nat | i < |line|
      ensures !CrlfAt(s, i)
    {
      if i + 1 < |line| {
        assert !CrlfAt(line, i);
      }
    }
    assert CrlfAt(s, |line|);
  }

  lemma WholeTextIsLine(s: seq<byte>)
    ensures NoCrlf(s) <==> FirstCrlf(s, 0) == |s|
  {
  }

  lemma PrefixNoCrlf(s: seq<byte>, i: nat)
    requires i <= |s| && forall k :: 0 <= k < i ==> !CrlfAt(s, k)
    ensures NoCrlf(s[..i])
  {
    forall k | 0 <= k < i
      ensures !CrlfAt(s[..i], k)
    {
      assert !CrlfAt(s, k);
    }
  }

  lemma SplitAtCrlf(s: seq<byte>, i: nat)
    requires CrlfAt(s, i)
    ensures s == s[..i] + [CR, LF] + s[i + 2..]
  {
  }

  lemma JoinFirst(line: seq<byte>, more: seq<seq<byte>>)
    ensures Join([line] + more) == line + [CR, LF] + Join(more)
  {
  }

  /** A first line in front of a scan that does not start with a blank line is a scan. */
  lemma IsScanPrepend(line: seq<byte>, rest: seq<byte>, more: Lines)
    requires NoCrlf(line) && IsScan(rest, more) && !CrlfAt(rest, 0)
    ensures IsScan(line + [CR, LF] + rest, Lines([line] + more.lines, more.blank))
  {
    var s, r := line + [CR, LF] + rest, Lines([line] + more.lines, more.blank);
    var n := |more.lines|;
    if more.blank || n > 1 {
      FirstLineOfScan(rest, more);
    }
    JoinFirst(line, more.lines);
    if more.blank {
      var done := Join(more.lines);
      assert s[|line| + 2..] == rest;
      assert CrlfAt(s, |line| + 2 + |done|);
      Cut(rest, |done|);
      Associative(line + [CR, LF], done, rest[|done|..]);
    } else {
      assert r.lines[..n] == [line] + more.lines[..n - 1];
      JoinFirst(line, more.lines[..n - 1]);
      Associative(line + [CR, LF], Join(more.lines[..n - 1]), more.lines[n - 1]);
    }
  }

  /** The first line of a scan and its CRLF are the start of the text. */
  lemma FirstLineOfScan(s: seq<byte>, r: Lines)
    requires IsScan(s, r) && (r.blank || |r.lines| > 1)
    ensures r.lines[0] + [CR, LF] <= s
    ensures CrlfAt(s, |r.lines[0]|)
  {
    var n := |r.lines|;
    if r.blank {
      assert r.lines[0] + [CR, LF] <= Join(r.lines);
    } else {
      assert r.lines[..n - 1][0] == r.lines[0];
      assert r.lines[0] + [CR, LF] <= Join(r.lines[..n - 1]);
    }
  }

  /** The loop reads the lines of the text. */
  lemma {:induction false} ScanIsScan(s: seq<byte>)
    ensures IsScan(s, Scan(s))
    decreases |s|
  {
    var i := FirstCrlf(s, 0);
    WholeTextIsLine(s);
    if i == |s| {
      assert Join([]) + s == s;
    } else {
      PrefixNoCrlf(s, i);
      SplitAtCrlf(s, i);
      var rest := s[i + 2..];
      if CrlfAt(rest, 0) {
        assert Join([s[..i]]) == s[..i + 2];
        assert CrlfAt(s, i + 2);
      } else {
        ScanIsScan(rest);
        IsScanPrepend(s[..i], rest, Scan(rest));
      }
    }
  }

  lemma RestOfScan(s: seq<byte>, r: Lines)
    requires IsScan(s, r) && |r.lines| > 1
    ensures var line := r.lines[0];
            && line + [CR, LF] <= s
            && IsScan(s[|line| + 2..], Lines(r.lines[1..], r.blank))
  {
    var line, more := r.lines[0], r.lines[1..];
    var n := |more|;
    assert r.lines == [line] + more;
    FirstLineOfScan(s, r);
    var rest := s[|line| + 2..];
    if r.blank {
      JoinFirst(line, more);
      assert Join(more) <= rest;
      assert CrlfAt(rest, |Join(more)|);
    } else {
      assert r.lines[..n] == [line] + more[..n - 1];
      JoinFirst(line, more[..n - 1]);
      Associative(line + [CR, LF], Join(more[..n - 1]), more[n - 1]);
      assert rest == Join(more[..n - 1]) + more[n - 1];
    }
  }

  /** The text after a line that is not the last does not start with a blank line. */
  lemma NoBlankLineInside(s: seq<byte>, r: Lines)
    requires IsScan(s, r) && (forall k :: 0 <= k < |r.lines| - (if r.blank then 0 else 1) ==> r.lines[k] != [])
    ensures !CrlfAt(s, 0)
  {
    if r.blank || |r.lines| > 1 {
      FirstLineOfScan(s, r);
      var line := r.lines[0];
      assert !CrlfAt(line, 0);
      assert s[0] == line[0] && s[1] == (line + [CR, LF])[1];
    } else {
      assert s == r.lines[0];
    }
  }

  lemma OneLineIsUnique(s: seq<byte>, r: Lines)
    requires IsScan(s, r) && |r.lines| == 1
    ensures r == Scan(s)
  {
    var line := r.lines[0];
    assert [line] == r.lines;
    if r.blank {
      FirstLineOfScan(s, r);
      SplitAtCrlf(s, |line|);
      FirstCrlfIs(line, s[|line| + 2..]);
      assert Join(r.lines) == line + [CR, LF];
      assert s[..|line|] == line;
    } else {
      assert s == line;
      WholeTextIsLine(s);
    }
  }

  lemma LongerIsUnique(s: seq<byte>, r: Lines)
    requires IsScan(s, r) && |r.lines| > 1
    requires Lines(r.lines[1..], r.blank) == Scan(s[|r.lines[0]| + 2..])
    ensures r == Scan(s)
  {
    hide IsScan;
    var line := r.lines[0];
    FirstLineIsText(s, r);
    NoBlankLineNext(s, r);
    assert [line] + r.lines[1..] == r.lines;
  }

  lemma FirstLineIsText(s: seq<byte>, r: Lines)
    requires IsScan(s, r) && |r.lines| > 1
    ensures FirstCrlf(s, 0) == |r.lines[0]| < |s| - 1 && s[..|r.lines[0]|] == r.lines[0]
  {
    var line := r.lines[0];
    FirstLineOfScan(s, r);
    StartsWithLine(s, line);
    FirstCrlfIs(line, s[|line| + 2..]);
  }

  lemma StartsWithLine(s: seq<byte>, line: seq<byte>)
    requires line + [CR, LF] <= s
    ensures s[..|line|] == line && s == line + [CR, LF] + s[|line| + 2..]
  {
  }

  lemma NoBlankLineNext(s: seq<byte>, r: Lines)
    requires IsScan(s, r) && |r.lines| > 1 && |r.lines[0]| + 2 <= |s|
    ensures !CrlfAt(s[|r.lines[0]| + 2..], 0)
  {
    RestOfScan(s, r);
    NoBlankLineInside(s[|r.lines[0]| + 2..], Lines(r.lines[1..], r.blank));
  }

  /** There is only one way to be the lines of a text: `Scan` is the whole of `IsScan`. */
  lemma {:induction false} ScanIsUnique(s: seq<byte>, r: Lines)
    ensures IsScan(s, r) <==> r == Scan(s)
    decreases |r.lines|
  {
    ScanIsScan(s);
    if IsScan(s, r) {
      if |r.lines| == 1 {
        OneLineIsUnique(s, r);
      } else {
        RestOfScan(s, r);
        ScanIsUnique(s[|r.lines[0]| + 2..], Lines(r.lines[1..], r.blank));
        LongerIsUnique(s, r);
      }
    }
  }

  lemma {:induction false} FirstCrlfStable(s: seq<byte>, more: seq<byte>, from: nat)
    requires from <= |s| && FirstCrlf(s, from) < |s|
    ensures FirstCrlf(s + more, from) == FirstCrlf(s, from)
    decreases |s| - from
  {
    if from < |s| && !CrlfAt(s, from) {
      FirstCrlfStable(s, more, from + 1);
      assert from + 1 < |s|;
    }
  }

  /** Once the blank line has been received, nothing behind it is looked at: the lines do not
      depend on the bytes that follow, stale ones included. */
  lemma {:induction false} ScanStopsAtBlankLine(s: seq<byte>, more: seq<byte>)
    requires Scan(s).blank
    ensures Scan(s + more) == Scan(s)
    decreases |s|
  {
    var i := FirstCrlf(s, 0);
    FirstCrlfStable(s, more, 0);
    var rest := s[i + 2..];
    assert (s + more)[i + 2..] == rest + more;
    assert (s + more)[..i] == s[..i];
    if !CrlfAt(rest, 0) {
      ScanStopsAtBlankLine(rest, more);
      assert FirstCrlf(rest, 0) < |rest|;
      assert !CrlfAt(rest + more, 0);
    }
  }

  // ---------------------------------------------------------------- the answer

  predicate OccursAt(s: seq<byte>, word: seq<byte>, i: nat) {
    i + |word| <= |s| && s[i..i + |word|] == word
  }

  /** `strstr(s, word) != NULL` */
  predicate Contains(s: seq<byte>, word: seq<byte>) {
    exists i :: 0 <= i <= |s| && OccursAt(s, word, i)
  }

  /** The handshake's result. `Broken` is where the C code leaves defined behaviour: no NUL in the
      buffer, a line too long for `linebuf`, or a digest whose C string is empty, for which
      `base64_encode` stores a NUL before the start of its output. */
  datatype Answer = Silent | Accept(value: seq<byte>) | Broken

  /** The bytes that are hashed for a line that names the key. */
  function Hashed(line: seq<byte>): (r: seq<byte>)
    requires |line| + |GUID| >= KEY_OFFSET
  {
    (line + GUID)[KEY_OFFSET..]
  }

  function AnswerLine(line: seq<byte>, sha1: seq<byte> -> seq<byte>, base64: seq<byte> -> seq<byte>): Answer {
    if |line| + |GUID| >= LINE then Broken else
    var digest := CString(sha1(Hashed(line)));
    if digest == [] then Broken else Accept(base64(digest))
  }

  /** The answer to the lines of a request: the first that names the key decides. */
  function AnswerLines(lines: seq<seq<byte>>, sha1: seq<byte> -> seq<byte>, base64: seq<byte> -> seq<byte>): Answer {
    if lines == [] then Silent
    else if |lines[0]| >= LINE then Broken
    else if Contains(lines[0], KEY_NAME) then AnswerLine(lines[0], sha1, base64)
    else AnswerLines(lines[1..], sha1, base64)
  }

  /** The answer to what the request buffer holds. */
  function AnswerTo(buffer: seq<byte>, sha1: seq<byte> -> seq<byte>, base64: seq<byte> -> seq<byte>): Answer {
    var text := CString(buffer);
    if |text| == BUFFER then Broken else AnswerLines(Scan(text).lines, sha1, base64)
  }

  const RESPONSE_START: seq<byte> :=
    Ascii("HTTP/1.1 101 Switching Protocols" + "\r\n" + "Upgrade: websocket" + "\r\n"
          + "Connection: Upgrade" + "\r\n" + "Sec-WebSocket-Accept: ")

  /** What is written for an answer. */
  function Response(a: Answer): seq<byte> {
    if a.Accept? then RESPONSE_START + a.value + [CR, LF, CR, LF] else []
  }

  lemma ResponseStartLines()
    ensures RESPONSE_START == Ascii("HTTP/1.1 101 Switching Protocols") + [13, 10]
                              + Ascii("Upgrade: websocket") + [13, 10]
                              + Ascii("Connection: Upgrade") + [13, 10]
                              + Ascii("Sec-WebSocket-Accept: ")
  {
    var a, b, c, d, crlf := "HTTP/1.1 101 Switching Protocols", "Upgrade: websocket", "Connection: Upgrade",
                            "Sec-WebSocket-Accept: ", "\r\n";
    assert Ascii(crlf) == [13, 10];
    AsciiAppend(a, crlf);
    AsciiAppend(a + crlf, b);
    AsciiAppend(a + crlf + b, crlf);
    AsciiAppend(a + crlf + b + crlf, c);
    AsciiAppend(a + crlf + b + crlf + c, crlf);
    AsciiAppend(a + crlf + b + crlf + c + crlf, d);
  }

  predicate Printable(s: string) {
    forall i :: 0 <= i < |s| ==> ' ' <= s[i] <= '~'
  }

  lemma PrintableHasNoCr(s: string)
    requires Printable(s)
    ensures 13 !in Ascii(s)
  {
  }

  lemma StatusIsPrintable()
    ensures Printable("HTTP/1.1 101 Switching Protocols")
  {
  }

  lemma FieldsArePrintable()
    ensures Printable("Upgrade: websocket")
    ensures Printable("Connection: Upgrade") && Printable("Sec-WebSocket-Accept: ")
  {
  }

  /** The three ways in which a line can end, on octets 13 and 10. */
  lemma ScanOfLine(line: seq<byte>, rest: seq<byte>)
    requires 13 !in line
    ensures Scan(line) == Lines([line], false)
    ensures Scan(line + [13, 10] + ([13, 10] + rest)) == Lines([line], true)
    ensures !([13, 10] <= rest) ==>
              Scan(line + [13, 10] + rest) == Lines([line] + Scan(rest).lines, Scan(rest).blank)
  {
    assert NoCrlf(line);
    WholeTextIsLine(line);
    FirstCrlfIs(line, [13, 10] + rest);
    FirstCrlfIs(line, rest);
    BehindLine(line, [13, 10] + rest);
    BehindLine(line, rest);
    assert CrlfAt([13, 10] + rest, 0);
    assert CrlfAt(rest, 0) ==> rest[..2] == [13, 10];
  }

  lemma BehindLine(line: seq<byte>, rest: seq<byte>)
    ensures var s := line + [13, 10] + rest;
            |s| >= |line| + 2 && s[..|line|] == line && s[|line| + 2..] == rest
  {
  }

  /** The response as a client reads it, line by line: the four lines of section 4.2.2 of RFC 6455
      for this server, and then the blank line that ends it. Without an answer nothing is written. */
  lemma ResponseReadsBack(value: seq<byte>)
    requires 13 !in value
    ensures Scan(Response(Accept(value)))
         == Lines([Ascii("HTTP/1.1 101 Switching Protocols"), Ascii("Upgrade: websocket"),
                   Ascii("Connection: Upgrade"), Ascii("Sec-WebSocket-Accept: ") + value], true)
    ensures Response(Accept(value))
         == Ascii("HTTP/1.1 101 Switching Protocols") + [13, 10]
            + (Ascii("Upgrade: websocket") + [13, 10]
               + (Ascii("Connection: Upgrade") + [13, 10]
                  + (Ascii("Sec-WebSocket-Accept: ") + value + [13, 10] + [13, 10])))
    ensures Response(Silent) == [] && Response(Broken) == []
  {
    hide *;
    StatusIsPrintable();
    FieldsArePrintable();
    PrintableHasNoCr("HTTP/1.1 101 Switching Protocols");
    PrintableHasNoCr("Upgrade: websocket");
    PrintableHasNoCr("Connection: Upgrade");
    PrintableHasNoCr("Sec-WebSocket-Accept: ");
    ResponseStartLines();
    ResponseIs(value);
    ResponseOfLines(RESPONSE_START, Ascii("HTTP/1.1 101 Switching Protocols"), Ascii("Upgrade: websocket"),
                    Ascii("Connection: Upgrade"), Ascii("Sec-WebSocket-Accept: "), value);
  }

  lemma ResponseIs(value: seq<byte>)
    ensures Response(Accept(value)) == RESPONSE_START + value + [13, 10, 13, 10]
    ensures Response(Silent) == [] && Response(Broken) == []
  {
    hide Ascii;
  }

  lemma ResponseOfLines(start: seq<byte>, a: seq<byte>, b: seq<byte>, c: seq<byte>, d: seq<byte>, value: seq<byte>)
    requires start == a + [13, 10] + b + [13, 10] + c + [13, 10] + d
    requires 13 !in a && 13 !in b && 13 !in c && 13 !in d && 13 !in value && b != [] && c != [] && d != []
    ensures start + value + [13, 10, 13, 10]
         == a + [13, 10] + (b + [13, 10] + (c + [13, 10] + (d + value + [13, 10] + [13, 10])))
    ensures Scan(start + value + [13, 10, 13, 10]) == Lines([a, b, c, d + value], true)
  {
    hide Scan;
    Associative(a + [13, 10] + b + [13, 10] + c + [13, 10], d, value);
    Nested(a, b, c, d + value);
    FourLines(a, b, c, d + value);
  }

  lemma Nested(a: seq<byte>, b: seq<byte>, c: seq<byte>, d: seq<byte>)
    ensures a + [13, 10] + b + [13, 10] + c + [13, 10] + d + [13, 10, 13, 10]
         == a + [13, 10] + (b + [13, 10] + (c + [13, 10] + (d + [13, 10] + [13, 10])))
  {
  }

  lemma FourLines(a: seq<byte>, b: seq<byte>, c: seq<byte>, d: seq<byte>)
    requires 13 !in a && 13 !in b && 13 !in c && 13 !in d && b != [] && c != [] && d != []
    ensures Scan(a + [13, 10] + (b + [13, 10] + (c + [13, 10] + (d + [13, 10] + [13, 10]))))
         == Lines([a, b, c, d], true)
  {
    hide Scan;
    var last := d + [13, 10] + [13, 10];
    var third := c + [13, 10] + last;
    var second := b + [13, 10] + third;
    assert [13, 10] + [] == [13, 10];
    ScanOfLine(d, []);
    LineIsNotBlank(d, [13, 10]);
    ScanOfLine(c, last);
    LineIsNotBlank(c, last);
    ScanOfLine(b, third);
    LineIsNotBlank(b, third);
    ScanOfLine(a, second);
  }

  lemma LineIsNotBlank(line: seq<byte>, rest: seq<byte>)
    requires line != [] && 13 !in line
    ensures !([13, 10] <= line + [13, 10] + rest)
  {
    assert (line + [13, 10] + rest)[0] == line[0];
    assert line[0] in line;
  }

  /** The loop stays silent exactly when no line it reads names the key (and none is too long for
      its buffer). */
  lemma {:induction false} SilentIffNoLineNamesKey(
    lines: seq<seq<byte>>, sha1: seq<byte> -> seq<byte>, base64: seq<byte> -> seq<byte>)
    ensures AnswerLines(lines, sha1, base64).Silent?
       <==> forall k :: 0 <= k < |lines| ==> |lines[k]| < 256 && !Contains(lines[k], Ascii("Sec-WebSocket-Key"))
  {
    if lines != [] {
      SilentIffNoLineNamesKey(lines[1..], sha1, base64);
      if AnswerLines(lines, sha1, base64).Silent? {
        forall k | 0 <= k < |lines|
          ensures |lines[k]| < LINE && !Contains(lines[k], KEY_NAME)
        {
          assert k > 0 ==> lines[k] == lines[1..][k - 1];
        }
      } else if |lines[0]| < LINE && !Contains(lines[0], KEY_NAME) {
        var k :| 0 <= k < |lines| - 1 && !(|lines[1..][k]| < LINE && !Contains(lines[1..][k], KEY_NAME));
        assert lines[k + 1] == lines[1..][k];
      }
    }
  }

  /** The first line that names the key decides, whatever the lines after it say. */
  lemma {:induction false} FirstNamingLineDecides(
    lines: seq<seq<byte>>, k: nat, sha1: seq<byte> -> seq<byte>, base64: seq<byte> -> seq<byte>)
    requires k < |lines| && |lines[k]| < 256 && Contains(lines[k], Ascii("Sec-WebSocket-Key"))
    requires forall j :: 0 <= j < k ==> |lines[j]| < 256 && !Contains(lines[j], Ascii("Sec-WebSocket-Key"))
    ensures AnswerLines(lines, sha1, base64) == AnswerLine(lines[k], sha1, base64)
  {
    if k > 0 {
      FirstNamingLineDecides(lines[1..], k - 1, sha1, base64);
    }
  }

  /** A line too long for its buffer, or a buffer without a NUL, is where the program goes astray. */
  lemma {:induction false} LongLineBreaks(
    lines: seq<seq<byte>>, k: nat, sha1: seq<byte> -> seq<byte>, base64: seq<byte> -> seq<byte>)
    requires k < |lines| && |lines[k]| >= 256
    requires forall j :: 0 <= j < k ==> |lines[j]| < 256 && !Contains(lines[j], Ascii("Sec-WebSocket-Key"))
    ensures AnswerLines(lines, sha1, base64) == Broken
  {
    if k > 0 {
      LongLineBreaks(lines[1..], k - 1, sha1, base64);
    }
  }

  lemma FullBufferBreaks(buffer: seq<byte>, sha1: seq<byte> -> seq<byte>, base64: seq<byte> -> seq<byte>)
    requires |buffer| == 1024 && 0 !in buffer
    ensures AnswerTo(buffer, sha1, base64) == Broken
  {
    CStringWhole(buffer);
  }

  /** A word is found exactly where a text can be cut around it. */
  lemma ContainsAnywhere(before: seq<byte>, word: seq<byte>, behind: seq<byte>)
    ensures Contains(before + word + behind, word)
  {
    var s := before + word + behind;
    assert s[|before|..|before| + |word|] == word;
    assert OccursAt(s, word, |before|);
  }

  lemma ContainsOnlyThere(s: seq<byte>, word: seq<byte>) returns (before: seq<byte>, behind: seq<byte>)
    requires Contains(s, word)
    ensures s == before + word + behind
  {
    var i :| 0 <= i <= |s| && OccursAt(s, word, i);
    before, behind := s[..i], s[i + |word|..];
  }

  /** The answer to a line that names the key, for any line and any digest: line and GUID need room in
      the buffer, what is hashed starts behind their first nineteen octets, and what is encoded ends
      before the first zero octet of the digest. */
  lemma AnswerOfLine(line: seq<byte>, before: seq<byte>, text: seq<byte>, digest: seq<byte>, rest: seq<byte>,
                     sha1: seq<byte> -> seq<byte>, base64: seq<byte> -> seq<byte>)
    requires line + Ascii("258EAFA5-E914-47DA-95CA-C5AB0DC85B11") == before + text && |before| == 19
    requires sha1(text) == digest + rest && 0 !in digest && (rest != [] ==> rest[0] == 0)
    ensures AnswerLine(line, sha1, base64)
         == if |line| + 36 >= 256 || digest == [] then Broken else Accept(base64(digest))
  {
    HashedIs(line, before, text);
    hide Ascii;
    hide Hashed;
    CStringAt(sha1(text), |digest|);
  }

  lemma HashedIs(line: seq<byte>, before: seq<byte>, text: seq<byte>)
    requires line + Ascii("258EAFA5-E914-47DA-95CA-C5AB0DC85B11") == before + text && |before| == 19
    ensures Hashed(line) == text && |GUID| == 36
  {
    hide Ascii;
    assert (before + text)[19..] == text;
  }

  // ---------------------------------------------------------------- the C functions

  method Strlen(buf: array<byte>) returns (len: nat)
    ensures len <= buf.Length
    ensures CString(buf[..]) == buf[..len]
  {
    len := 0;
    while len < buf.Length && buf[len] != 0
      invariant len <= buf.Length && 0 !in buf[..len]
    {
      len := len + 1;
    }
    CStringAt(buf[..], len);
  }

  /** `_readline` on the text `allbuf[..len]`. The position returned is behind the first CRLF at or
      after `level`, or -1 when there is none; the line without its CRLF is in `linebuf`. */
  method ReadLine(allbuf: array<byte>, len: nat, level: nat, linebuf: array<byte>, ghost text: seq<byte>)
    returns (next: int, n: nat, overflow: bool)
    requires level <= len < allbuf.Length && allbuf[len] == 0 && allbuf[..len] == text
    requires linebuf.Length == LINE && linebuf != allbuf
    modifies linebuf
    ensures var i := FirstCrlf(text, level);
            && (overflow <==> i - level >= LINE)
            && (!overflow ==>
                  && n == i - level && linebuf[..n] == text[level..i]
                  && next == if i < len then i + 2 else -1)
  {
    n, overflow := 0, false;
    var at := level;
    while at < len
      invariant level <= at <= len && n == at - level < LINE
      invariant allbuf[..len] == text && allbuf[len] == 0
      invariant FirstCrlf(text, level) == FirstCrlf(text, at)
      invariant forall k :: 0 <= k < n ==> linebuf[k] == text[level..][k]
    {
      assert allbuf[at] == text[at] && (at + 1 < len ==> allbuf[at + 1] == text[at + 1]);
      if allbuf[at] == CR && allbuf[at + 1] == LF {
        assert CrlfAt(text, at);
        assert linebuf[..n] == text[level..at];
        return at + 2, n, false;
      }
      assert !CrlfAt(text, at);
      if n + 1 == LINE {
        return -1, n, true;
      }
      linebuf[n] := allbuf[at];
      n := n + 1;
      at := at + 1;
    }
    next := -1;
    assert linebuf[..n] == text[level..at];
  }

  lemma {:induction false} FirstCrlfShift(s: seq<byte>, level: nat, from: nat)
    requires level + from <= |s|
    ensures FirstCrlf(s, level + from) == level + FirstCrlf(s[level..], from)
    decreases |s| - from
  {
    if level + from < |s| && !CrlfAt(s, level + from) {
      assert !CrlfAt(s[level..], from);
      FirstCrlfShift(s, level, from + 1);
    }
  }

  /** One step of the scan, in terms of positions in the whole text. */
  lemma ScanStep(text: seq<byte>, level: nat)
    requires level <= |text|
    ensures var i, here := FirstCrlf(text, level), Scan(text[level..]).lines;
            && here[0] == text[level..i]
            && here[1..] == if i == |text| || CrlfAt(text, i + 2) then [] else Scan(text[i + 2..]).lines
  {
    FirstCrlfShift(text, level, 0);
    var i := FirstCrlf(text, level);
    if i < |text| {
      assert text[level..][i - level + 2..] == text[i + 2..];
      assert CrlfAt(text[i + 2..], 0) <==> CrlfAt(text, i + 2);
    }
  }

  /** The loop's guard, which may look at the NUL, finds a CRLF of the text. */
  lemma GuardIsCrlf(buffer: seq<byte>, len: nat, at: nat)
    requires at <= len < |buffer| && buffer[len] == 0
    ensures CrlfAt(buffer[..len], at) <==> buffer[at] == CR && at < len && buffer[at + 1] == LF
  {
  }

  lemma NothingWritten(out: seq<byte>)
    ensures forall a: Answer :: !a.Accept? ==> out + Response(a) == out
  {
  }

  /** The loop of `shakehands`, on the text `buf[..len]`. */
  method AnswerRequest(c: Connection, buf: array<byte>, len: nat, sha1: seq<byte> -> seq<byte>,
                       base64: seq<byte> -> seq<byte>) returns (answer: Answer)
    requires len < buf.Length && buf[len] == 0
    modifies c`outgoing
    ensures answer == AnswerLines(Scan(buf[..len]).lines, sha1, base64)
    ensures c.outgoing == old(c.outgoing) + Response(answer)
  {
    hide Scan;
    hide FirstCrlf;
    hide AnswerLine;
    hide Contains;
    hide Ascii;
    hide Hashed;
    hide Response;
    NothingWritten(c.outgoing);
    ghost var buffer, text := buf[..], buf[..len];
    var linebuf := new byte[LINE];
    var level := 0;
    answer := Silent;
    assert text[0..] == text;
    while true
      invariant 0 <= level <= len && buf[..] == buffer
      invariant AnswerLines(Scan(text).lines, sha1, base64) == AnswerLines(Scan(text[level..]).lines, sha1, base64)
      invariant answer == Silent && c.outgoing == old(c.outgoing)
      decreases len - level
    {
      forall i | 0 <= i < LINE {
        linebuf[i] := 0;
      }
      ScanStep(text, level);
      var next, n, overflow := ReadLine(buf, len, level, linebuf, text);
      if overflow {
        answer := Broken;
        break;
      }
      var line := linebuf[..n];
      if Contains(line, KEY_NAME) {
        answer := AnswerLine(line, sha1, base64);
        break;
      }
      if next == -1 {
        break;
      }
      GuardIsCrlf(buffer, len, next);
      if buf[next] == CR && buf[next + 1] == LF {
        break;
      }
      level := next;
    }
    if answer.Accept? {
      c.outgoing := c.outgoing + Response(answer);
    }
  }

  /** `shakehands`. `buffer` is what the stack buffer held after the read: the bytes read, and
      behind them whatever was there before. */
  method Shakehands(c: Connection, sha1: seq<byte> -> seq<byte>, base64: seq<byte> -> seq<byte>)
    returns (answer: Answer, ghost buffer: seq<byte>)
    modifies c
    ensures |buffer| == 1024 && old(c.net).Got(1024) <= buffer
    ensures answer == AnswerTo(buffer, sha1, base64)
    ensures c.net == old(c.net).After(1024)
    ensures c.outgoing == old(c.outgoing) + Response(answer)
  {
    hide Scan;
    hide AnswerLines;
    hide Response;
    hide CString;
    hide Net.Take;
    NothingWritten(c.outgoing);
    var buf := new byte[BUFFER]; // not cleared
    var rul := c.Read(buf, BUFFER);
    buffer := buf[..];
    var len := Strlen(buf);
    if len == BUFFER {
      answer := Broken;
    } else {
      answer := AnswerRequest(c, buf, len, sha1, base64);
    }
  }

  /** A request whose blank line arrived in the one read gets the answer its own lines call for:
      the stale bytes of the buffer have no part in it. */
  lemma StaleBytesDoNotMatter(request: seq<byte>, buffer: seq<byte>)
    requires request <= buffer && 0 !in request && Scan(request).blank
    ensures Scan(CString(buffer)) == Scan(request)
  {
    hide Scan;
    hide CString;
    hide CrlfAt;
    var stale := buffer[|request|..];
    Cut(buffer, |request|);
    assert buffer[..|request|] == request;
    CStringAppend(request, stale);
    ScanStopsAtBlankLine(request, CString(stale));
  }
}
