/** When the handshake gives the answer that section 4.2.2 of RFC 6455 asks for: the request read as
    header fields, against the lines and the fixed offset the program works with.
 */
module Accepting {
  import opened Bytes
  import opened Handshake

  const COLON: byte := 58

  // ---------------------------------------------------------------- header fields

  /** A space or a tab. */
  predicate IsOws(b: byte) {
    b == 32 || b == 9
  }

  /** The position of the first colon, or the length. */
  function Colon(line: seq<byte>): (n: nat)
    ensures n <= |line| && COLON !in line[..n] && (n < |line| ==> line[n] == COLON)
  {
    if line == [] || line[0] == COLON then 0 else
    var n := Colon(line[1..]);
    assert line[..n + 1] == [line[0]] + line[1..][..n];
    n + 1
  }

  function LowerByte(b: byte): byte {
    if 65 <= b <= 90 then b + 32 else b
  }

  function Lower(s: seq<byte>): (r: seq<byte>)
    ensures |r| == |s|
  {
    seq(|s|, i requires 0 <= i < |s| => LowerByte(s[i]))
  }

  function TrimLeft(s: seq<byte>): seq<byte> {
    if s == [] || !IsOws(s[0]) then s else TrimLeft(s[1..])
  }

  function TrimRight(s: seq<byte>): seq<byte> {
    if s == [] || !IsOws(s[|s| - 1]) then s else TrimRight(s[..|s| - 1])
  }

  /** A field's value, without the white space around it. */
  function FieldValue(line: seq<byte>): seq<byte> {
    if Colon(line) == |line| then [] else TrimRight(TrimLeft(line[Colon(line) + 1..]))
  }

  /** The field is `Sec-WebSocket-Key`; names of fields are compared without regard to case. */
  predicate IsKeyField(line: seq<byte>) {
    Colon(line) < |line| && Lower(line[..Colon(line)]) == Lower(KEY_NAME)
  }

  /** The key a request carries. */
  function RequestedKey(lines: seq<seq<byte>>): Option<seq<byte>> {
    if lines == [] then None
    else if IsKeyField(lines[0]) then Some(FieldValue(lines[0]))
    else RequestedKey(lines[1..])
  }

  // ---------------------------------------------------------------- what the program serves

  /** Line k is the first that names the key, it and the lines before it fit the 256 octets of their
      buffer, and so does it with the 36 of the GUID, and the key is what stands from offset 19 on. */
  predicate ServesFrom(lines: seq<seq<byte>>, k: nat, key: seq<byte>) {
    && k < |lines|
    && Contains(lines[k], KEY_NAME)
    && (forall j :: 0 <= j < k ==> !Contains(lines[j], KEY_NAME))
    && (forall j :: 0 <= j <= k ==> |lines[j]| < 256)
    && 19 <= |lines[k]| && |lines[k]| + 36 < 256
    && lines[k][19..] == key
  }

  predicate Serves(lines: seq<seq<byte>>, key: seq<byte>) {
    exists k :: 0 <= k < |lines| && ServesFrom(lines, k, key)
  }

  /** What is known of the two functions: a digest has twenty octets, and base64 loses nothing and
      writes no CR. */
  ghost predicate AreHashes(sha1: seq<byte> -> seq<byte>, base64: seq<byte> -> seq<byte>) {
    && (forall x :: |sha1(x)| == 20)
    && (forall x, y :: base64(x) == base64(y) ==> x == y)
    && (forall x :: CR !in base64(x))
  }

  /** No line of the request happens to have the digest of another key. */
  predicate NoCollision(lines: seq<seq<byte>>, key: seq<byte>, sha1: seq<byte> -> seq<byte>) {
    forall k :: 0 <= k < |lines| && |lines[k]| >= |KEY_NAME| ==>
      sha1(Hashed(lines[k])) == sha1(key + GUID) ==> Hashed(lines[k]) == key + GUID
  }

  /** The `Sec-WebSocket-Accept` value of section 4.2.2 of RFC 6455. */
  function AcceptValue(key: seq<byte>, sha1: seq<byte> -> seq<byte>, base64: seq<byte> -> seq<byte>): seq<byte> {
    base64(sha1(key + GUID))
  }

  lemma NamingLineLength(line: seq<byte>)
    requires Contains(line, KEY_NAME)
    ensures |line| >= |KEY_NAME| == 17
  {
  }

  /** Key and GUID are what is hashed exactly when the key stands from the offset on. */
  lemma HashedIff(line: seq<byte>, key: seq<byte>)
    requires |line| >= 17
    ensures Hashed(line) == key + GUID <==> KEY_OFFSET <= |line| && line[KEY_OFFSET..] == key
  {
    hide Ascii;
    if KEY_OFFSET <= |line| {
      assert Hashed(line) == line[KEY_OFFSET..] + GUID;
      if Hashed(line) == key + GUID {
        ConcatEqual(line[KEY_OFFSET..], GUID, key, GUID);
      }
    }
  }

  /** A digest and its C string agree exactly when the digest has no zero octet. */
  lemma DigestIff(line: seq<byte>, key: seq<byte>, sha1: seq<byte> -> seq<byte>)
    requires |line| >= 17 && |sha1(Hashed(line))| == 20 && |sha1(key + GUID)| == 20
    requires sha1(Hashed(line)) == sha1(key + GUID) ==> Hashed(line) == key + GUID
    ensures CString(sha1(Hashed(line))) == sha1(key + GUID)
       <==> Hashed(line) == key + GUID && 0 !in sha1(key + GUID)
  {
    hide Hashed;
    CStringWhole(sha1(Hashed(line)));
  }

  /** The accept value is right for a line that names the key exactly when the line has the key at
      the offset, GUID and all fit, and the digest, whose length is taken with `strlen`, has no zero
      octet. */
  lemma LineAcceptedIff(line: seq<byte>, key: seq<byte>, sha1: seq<byte> -> seq<byte>, base64: seq<byte> -> seq<byte>)
    requires Contains(line, KEY_NAME) && AreHashes(sha1, base64)
    requires sha1(Hashed(line)) == sha1(key + GUID) ==> Hashed(line) == key + GUID
    ensures AnswerLine(line, sha1, base64) == Accept(AcceptValue(key, sha1, base64))
       <==> KEY_OFFSET <= |line| && |line| + |GUID| < LINE && line[KEY_OFFSET..] == key && 0 !in sha1(key + GUID)
  {
    NamingLineLength(line);
    hide Contains;
    hide Hashed;
    HashedIff(line, key);
    DigestIff(line, key, sha1);
    assert sha1(key + GUID) != [];
  }

  /** The lines of a request are answered with the accept value of a key exactly when the program
      serves that key and the digest has no zero octet. */
  lemma {:induction false} LinesAcceptedIff(lines: seq<seq<byte>>, key: seq<byte>, sha1: seq<byte> -> seq<byte>,
                                            base64: seq<byte> -> seq<byte>)
    requires AreHashes(sha1, base64) && NoCollision(lines, key, sha1)
    ensures AnswerLines(lines, sha1, base64) == Accept(AcceptValue(key, sha1, base64))
       <==> Serves(lines, key) && 0 !in sha1(key + GUID)
  {
    hide AnswerLine;
    hide AcceptValue;
    hide Hashed;
    hide Contains;
    if lines != [] {
      if |lines[0]| < LINE && Contains(lines[0], KEY_NAME) {
        NamingLineLength(lines[0]);
        LineAcceptedIff(lines[0], key, sha1, base64);
        ServesHere(lines, key);
      } else {
        if |lines[0]| < LINE {
          NoCollisionLater(lines, key, sha1);
          LinesAcceptedIff(lines[1..], key, sha1, base64);
        }
        ServesLater(lines, key);
      }
    }
  }

  lemma NoCollisionLater(lines: seq<seq<byte>>, key: seq<byte>, sha1: seq<byte> -> seq<byte>)
    requires lines != [] && NoCollision(lines, key, sha1)
    ensures NoCollision(lines[1..], key, sha1)
  {
  }

  lemma ServesHere(lines: seq<seq<byte>>, key: seq<byte>)
    requires lines != [] && Contains(lines[0], KEY_NAME) && |lines[0]| < LINE
    ensures Serves(lines, key)
       <==> KEY_OFFSET <= |lines[0]| && |lines[0]| + |GUID| < LINE && lines[0][KEY_OFFSET..] == key
  {
    hide Contains;
    if KEY_OFFSET <= |lines[0]| && |lines[0]| + |GUID| < LINE && lines[0][KEY_OFFSET..] == key {
      assert ServesFrom(lines, 0, key);
    }
  }

  lemma ServesLater(lines: seq<seq<byte>>, key: seq<byte>)
    requires lines != [] && (|lines[0]| >= LINE || !Contains(lines[0], KEY_NAME))
    ensures Serves(lines, key) <==> |lines[0]| < LINE && Serves(lines[1..], key)
  {
    hide Contains;
    if Serves(lines, key) {
      var k :| 0 <= k < |lines| && ServesFrom(lines, k, key);
      assert ServesFrom(lines[1..], k - 1, key);
    }
    if |lines[0]| < LINE && Serves(lines[1..], key) {
      var k :| 0 <= k < |lines| - 1 && ServesFrom(lines[1..], k, key);
      forall j | 0 <= j <= k + 1
        ensures |lines[j]| < LINE && (j <= k ==> !Contains(lines[j], KEY_NAME))
      {
        assert j > 0 ==> lines[j] == lines[1..][j - 1];
      }
      assert ServesFrom(lines, k + 1, key);
    }
  }

  /** Every request that carries a key and whose blank line arrived in the one read, over whatever
      the buffer held before: the answer is the one section 4.2.2 of RFC 6455 asks for exactly when
      the buffer ends in a NUL somewhere, the program serves that key, and its digest has no zero
      octet. */
  lemma RequestAcceptedIff(request: seq<byte>, buffer: seq<byte>, sha1: seq<byte> -> seq<byte>,
                           base64: seq<byte> -> seq<byte>)
    requires request <= buffer && 0 !in request && Scan(request).blank && |buffer| == 1024
    requires RequestedKey(Scan(request).lines).Some?
    requires AreHashes(sha1, base64)
    requires NoCollision(Scan(request).lines, RequestedKey(Scan(request).lines).value, sha1)
    ensures var lines, key := Scan(request).lines, RequestedKey(Scan(request).lines).value;
            (AnswerTo(buffer, sha1, base64) == Accept(AcceptValue(key, sha1, base64)))
              <==> (0 in buffer && Serves(lines, key) && 0 !in sha1(key + GUID))
  {
    hide Serves;
    hide AnswerLines;
    hide RequestedKey;
    hide Scan;
    StaleBytesDoNotMatter(request, buffer);
    CStringWhole(buffer);
    LinesAcceptedIff(Scan(request).lines, RequestedKey(Scan(request).lines).value, sha1, base64);
  }

  // ---------------------------------------------------------------- which key fields are served

  lemma {:induction false} TrimRightIs(s: seq<byte>)
    ensures TrimRight(s) <= s
    ensures TrimRight(s) != [] ==> !IsOws(TrimRight(s)[|TrimRight(s)| - 1])
    ensures |TrimRight(s)| < |s| ==> IsOws(s[|s| - 1])
  {
    if s != [] && IsOws(s[|s| - 1]) {
      TrimRightIs(s[..|s| - 1]);
    }
  }

  lemma {:induction false} TrimLeftIs(s: seq<byte>)
    ensures |TrimLeft(s)| <= |s| && TrimLeft(s) == s[|s| - |TrimLeft(s)|..]
    ensures TrimLeft(s) != [] ==> !IsOws(TrimLeft(s)[0])
    ensures |TrimLeft(s)| < |s| ==> IsOws(s[0])
  {
    if s != [] && IsOws(s[0]) {
      TrimLeftIs(s[1..]);
    }
  }

  /** White space around a value, as section 3.2 of RFC 7230 allows it. */
  predicate Padding(s: seq<byte>) {
    forall i :: 0 <= i < |s| ==> s[i] == 32 || s[i] == 9
  }

  lemma {:induction false} TrimLeftPadding(pad: seq<byte>, s: seq<byte>)
    requires Padding(pad)
    ensures TrimLeft(pad + s) == TrimLeft(s)
  {
    if pad == [] {
      assert pad + s == s;
    } else {
      assert (pad + s)[1..] == pad[1..] + s;
      TrimLeftPadding(pad[1..], s);
    }
  }

  lemma {:induction false} TrimRightPadding(s: seq<byte>, pad: seq<byte>)
    requires Padding(pad)
    ensures TrimRight(s + pad) == TrimRight(s)
  {
    if pad == [] {
      assert s + pad == s;
    } else {
      assert (s + pad)[..|s + pad| - 1] == s + pad[..|pad| - 1];
      TrimRightPadding(s, pad[..|pad| - 1]);
    }
  }

  lemma {:induction false} ColonIs(name: seq<byte>, rest: seq<byte>)
    requires 58 !in name
    ensures Colon(name + [58] + rest) == |name|
  {
    if name != [] {
      assert name[0] in name;
      assert (name + [58] + rest)[1..] == name[1..] + [58] + rest;
      ColonIs(name[1..], rest);
    }
  }

  /** A field's value is what stands between the white space behind the first colon and that at the
      end. */
  lemma FieldValueIs(name: seq<byte>, pad: seq<byte>, value: seq<byte>, pad': seq<byte>)
    requires 58 !in name && Padding(pad) && Padding(pad')
    requires value != [] && !Padding(value[..1]) && !Padding(value[|value| - 1..])
    ensures Colon(name + [58] + (pad + (value + pad'))) == |name|
    ensures FieldValue(name + [58] + (pad + (value + pad'))) == value
  {
    var rest := pad + (value + pad');
    ColonIs(name, rest);
    assert (name + [58] + rest)[|name| + 1..] == rest;
    TrimLeftPadding(pad, value + pad');
    assert (value + pad')[0] == value[..1][0];
    TrimRightPadding(value, pad');
  }

  /** A text that equals its own shift by one consists of one octet. */
  lemma {:induction false} ShiftedIsConstant(s: seq<byte>, i: nat)
    requires s != [] && i < |s| && s[1..] == s[..|s| - 1]
    ensures s[i] == s[0]
  {
    if i > 0 {
      ShiftedIsConstant(s, i - 1);
      assert s[1..][i - 1] == s[..|s| - 1][i - 1];
    }
  }

  /** A value without its white space is the value without its first octet exactly when that octet is
      white space and no other is at either end. */
  lemma TrimmedIsTail(s: seq<byte>)
    requires s != []
    ensures TrimRight(TrimLeft(s)) == s[1..] <==> IsOws(s[0]) && |TrimRight(TrimLeft(s))| == |s| - 1
  {
    TrimLeftIs(s);
    TrimRightIs(TrimLeft(s));
    ShiftedEnds(s);
  }

  lemma ShiftedEnds(s: seq<byte>)
    requires s != []
    ensures s[1..] == s[..|s| - 1] ==> s[|s| - 1] == s[0]
  {
    if s[1..] == s[..|s| - 1] {
      ShiftedIsConstant(s, |s| - 1);
    }
  }

  /** A key field has its colon behind the seventeen octets of the name. */
  lemma KeyFieldColon(line: seq<byte>)
    requires IsKeyField(line)
    ensures Colon(line) == 17 && FieldValue(line) == TrimRight(TrimLeft(line[18..]))
  {
    assert |KEY_NAME| == 17;
  }

  /** For the first key field of a request, when no other line holds the program's spelling of the
      name: its key is served exactly when the lines up to it fit, it holds that spelling, and just
      one octet of white space stands before the key and none behind it. */
  lemma KeyFieldServedIff(lines: seq<seq<byte>>, m: nat)
    requires m < |lines| && IsKeyField(lines[m])
    requires forall j :: 0 <= j < |lines| && j != m ==> !Contains(lines[j], KEY_NAME)
    ensures var line, key := lines[m], FieldValue(lines[m]);
            (Serves(lines, key))
              <==> (&& Contains(line, KEY_NAME) && (forall j :: 0 <= j <= m ==> |lines[j]| < 256)
                    && |line| + 36 < 256 && |line| == 19 + |key| && IsOws(line[18]))
  {
    hide Contains;
    hide IsKeyField;
    var line, key := lines[m], FieldValue(lines[m]);
    KeyFieldColon(line);
    if |line| > 18 {
      TrimmedIsTail(line[18..]);
      assert line[18..][1..] == line[19..];
    }
    ServesOnlyFrom(lines, m, key);
  }

  lemma ServesOnlyFrom(lines: seq<seq<byte>>, m: nat, key: seq<byte>)
    requires m < |lines| && forall j :: 0 <= j < |lines| && j != m ==> !Contains(lines[j], KEY_NAME)
    ensures Serves(lines, key) <==> ServesFrom(lines, m, key)
  {
    hide Contains;
  }
}
