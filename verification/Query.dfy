/** `GetRequest` in app_terminal.js: the query string of the terminal page as a map.

    `decodeURIComponent` is a parameter; it throws on malformed input, here None.
 */
module Query {
  import opened Bytes

  // ---------------------------------------------------------------- split and join

  /** `s.split(sep)` */
  function Split(s: string, sep: char): (parts: seq<string>)
    ensures parts != []
  {
    if s == "" then [""] else
    var others := Split(s[1..], sep);
    if s[0] == sep then [""] + others else [[s[0]] + others[0]] + others[1..]
  }

  function Join(parts: seq<string>, sep: char): string {
    if parts == [] then "" else if |parts| == 1 then parts[0] else parts[0] + [sep] + Join(parts[1..], sep)
  }

  predicate Free(s: string, sep: char) {
    sep !in s
  }

  predicate AllFree(parts: seq<string>, sep: char) {
    forall i :: 0 <= i < |parts| ==> Free(parts[i], sep)
  }

  lemma {:induction false} SplitFree(s: string, sep: char)
    requires Free(s, sep)
    ensures Split(s, sep) == [s]
  {
    if s != "" {
      assert s[0] in s;
      SplitFree(s[1..], sep);
      assert [s[0]] + s[1..] == s;
    }
  }

  lemma {:induction false} SplitAtSeparator(s: string, sep: char, rest: string)
    requires Free(s, sep)
    ensures Split(s + [sep] + rest, sep) == [s] + Split(rest, sep)
  {
    var whole := s + [sep] + rest;
    if s == "" {
      assert whole[1..] == rest;
    } else {
      assert s[0] in s;
      assert whole[1..] == s[1..] + [sep] + rest;
      SplitAtSeparator(s[1..], sep, rest);
      assert [s[0]] + s[1..] == s;
    }
  }

  /** Parts without the separator are got back from their join. */
  lemma {:induction false} SplitOfJoin(parts: seq<string>, sep: char)
    requires parts != [] && AllFree(parts, sep)
    ensures Split(Join(parts, sep), sep) == parts
  {
    if |parts| == 1 {
      SplitFree(parts[0], sep);
    } else {
      SplitOfJoin(parts[1..], sep);
      SplitAtSeparator(parts[0], sep, Join(parts[1..], sep));
      assert parts == [parts[0]] + parts[1..];
    }
  }

  /** A split text is the join of parts without the separator. */
  lemma {:induction false} JoinOfSplit(s: string, sep: char)
    ensures AllFree(Split(s, sep), sep) && Join(Split(s, sep), sep) == s
  {
    if s != "" {
      JoinOfSplit(s[1..], sep);
      var parts, others := Split(s, sep), Split(s[1..], sep);
      assert s == [s[0]] + s[1..];
      if s[0] == sep {
        assert parts[1..] == others;
      } else {
        assert parts[1..] == others[1..];
        assert parts[0] == [s[0]] + others[0];
        if |parts| > 1 {
          assert [s[0]] + (others[0] + [sep] + Join(others[1..], sep)) == parts[0] + [sep] + Join(parts[1..], sep);
        }
      }
    }
  }

  // ---------------------------------------------------------------- the parser

  /** The value of a part: its second piece decoded. A part without `=` has none, and the missing
      value is decoded as the text "undefined". */
  function ValueOf(part: string, decode: string -> Option<string>): Option<string> {
    var pieces := Split(part, '=');
    decode(if |pieces| > 1 then pieces[1] else "undefined")
  }

  function KeyOf(part: string): string {
    Split(part, '=')[0]
  }

  /** The map after the parts, in which a later part replaces an earlier one with its key; None
      when a value cannot be decoded. */
  function Collected(parts: seq<string>, decode: string -> Option<string>): Option<map<string, string>> {
    if parts == [] then Some(map[]) else
    var part := parts[|parts| - 1];
    var before, value := Collected(parts[..|parts| - 1], decode), ValueOf(part, decode);
    if before.None? || value.None? then None else Some(before.value[KeyOf(part) := value.value])
  }

  function Requested(url: string, decode: string -> Option<string>): Option<map<string, string>> {
    if '?' !in url then Some(map[]) else Collected(Split(url[1..], '&'), decode)
  }

  /** One turn of the loop: what the parts before it and it itself make of the map. */
  lemma CollectedStep(parts: seq<string>, i: nat, decode: string -> Option<string>)
    requires i < |parts|
    ensures var before, value := Collected(parts[..i], decode), ValueOf(parts[i], decode);
            Collected(parts[..i + 1], decode)
              == if before.None? || value.None? then None else Some(before.value[KeyOf(parts[i]) := value.value])
  {
    hide KeyOf;
    hide ValueOf;
    assert parts[..i + 1][..i] == parts[..i];
  }

  lemma NothingCollected(parts: seq<string>, decode: string -> Option<string>)
    ensures Collected(parts[..0], decode) == Some(map[]) && parts[..|parts|] == parts
  {
  }

  method GetRequest(url: string, decode: string -> Option<string>) returns (theRequest: Option<map<string, string>>)
    ensures theRequest == Requested(url, decode)
  {
    hide Split;
    hide Collected;
    var request: map<string, string> := map[];
    if '?' in url {
      var strs := Split(url[1..], '&');
      NothingCollected(strs, decode);
      for i := 0 to |strs|
        invariant Collected(strs[..i], decode) == Some(request)
      {
        CollectedStep(strs, i, decode);
        var pieces := Split(strs[i], '=');
        var value := decode(if |pieces| > 1 then pieces[1] else "undefined");
        if value.None? {
          FailureStays(strs, i + 1, decode);
          return None; // URIError
        }
        request := request[pieces[0] := value.value];
      }
    }
    return Some(request);
  }

  lemma {:induction false} FailureStays(parts: seq<string>, i: nat, decode: string -> Option<string>)
    requires i <= |parts| && Collected(parts[..i], decode).None?
    ensures Collected(parts, decode).None?
    decreases |parts|
  {
    if i == |parts| {
      assert parts[..i] == parts;
    } else {
      assert parts[..|parts| - 1][..i] == parts[..i];
      FailureStays(parts[..|parts| - 1], i, decode);
    }
  }

  // ---------------------------------------------------------------- what the map holds

  /** A part by its separators: the key ends at the first `=` and the value at the second, and a part
      without one has the text of a missing value. */
  lemma PartIs(key: string, value: string, more: string, decode: string -> Option<string>)
    requires '=' !in key && '=' !in value
    ensures KeyOf(key) == key && ValueOf(key, decode) == decode("undefined")
    ensures KeyOf(key + "=" + value) == key && ValueOf(key + "=" + value, decode) == decode(value)
    ensures var part := key + "=" + (value + "=" + more);
            KeyOf(part) == key && ValueOf(part, decode) == decode(value)
  {
    SplitFree(key, '=');
    SplitFree(value, '=');
    SplitAtSeparator(key, '=', value);
    SplitAtSeparator(value, '=', more);
    SplitAtSeparator(key, '=', value + "=" + more);
  }

  lemma {:induction false} CollectedIffDecoded(parts: seq<string>, decode: string -> Option<string>)
    ensures Collected(parts, decode).Some? <==> forall i :: 0 <= i < |parts| ==> ValueOf(parts[i], decode).Some?
  {
    hide ValueOf;
    hide KeyOf;
    if parts != [] {
      var front := parts[..|parts| - 1];
      CollectedIffDecoded(front, decode);
      assert forall i :: 0 <= i < |front| ==> front[i] == parts[i];
    }
  }

  lemma {:induction false} LastPartDecides(parts: seq<string>, decode: string -> Option<string>, i: nat)
    requires i < |parts| && Collected(parts, decode).Some?
    requires forall j :: i < j < |parts| ==> KeyOf(parts[j]) != KeyOf(parts[i])
    ensures KeyOf(parts[i]) in Collected(parts, decode).value
    ensures Some(Collected(parts, decode).value[KeyOf(parts[i])]) == ValueOf(parts[i], decode)
  {
    hide ValueOf;
    hide KeyOf;
    if i < |parts| - 1 {
      LastPartDecides(parts[..|parts| - 1], decode, i);
    }
  }

  lemma {:induction false} KeysAreOfParts(parts: seq<string>, decode: string -> Option<string>, key: string)
    requires Collected(parts, decode).Some?
    ensures key in Collected(parts, decode).value <==> exists i :: 0 <= i < |parts| && KeyOf(parts[i]) == key
  {
    hide ValueOf;
    hide KeyOf;
    if parts != [] {
      var front := parts[..|parts| - 1];
      KeysAreOfParts(front, decode, key);
      if exists i :: 0 <= i < |parts| && KeyOf(parts[i]) == key {
        var i :| 0 <= i < |parts| && KeyOf(parts[i]) == key;
        assert i < |front| ==> KeyOf(front[i]) == key;
      }
    }
  }

  /** What is read, for every url: without a question mark nothing; otherwise the parts between the
      ampersands behind the first character, unless one of their values cannot be decoded. Each key
      of a part is in the map, and no other, with the value of the last part that has it. */
  lemma RequestedIs(url: string, parts: seq<string>, decode: string -> Option<string>)
    requires parts != [] && AllFree(parts, '&')
    requires url != "" ==> Join(parts, '&') == url[1..]
    ensures '?' !in url ==> Requested(url, decode) == Some(map[])
    ensures '?' in url ==>
              (Requested(url, decode).Some? <==> forall i :: 0 <= i < |parts| ==> ValueOf(parts[i], decode).Some?)
    ensures '?' in url && Requested(url, decode).Some? ==>
              var m := Requested(url, decode).value;
              && (forall key :: key in m <==> exists i :: 0 <= i < |parts| && KeyOf(parts[i]) == key)
              && (forall i ::
                    0 <= i < |parts| && (forall j :: i < j < |parts| ==> KeyOf(parts[j]) != KeyOf(parts[i])) ==>
                      KeyOf(parts[i]) in m && Some(m[KeyOf(parts[i])]) == ValueOf(parts[i], decode))
  {
    hide ValueOf;
    hide KeyOf;
    hide Collected;
    hide Split;
    if '?' in url {
      SplitOfJoin(parts, '&');
      hide Join;
      hide AllFree;
      CollectedIffDecoded(parts, decode);
      if Requested(url, decode).Some? {
        forall key
          ensures key in Requested(url, decode).value <==> exists i :: 0 <= i < |parts| && KeyOf(parts[i]) == key
        {
          KeysAreOfParts(parts, decode, key);
        }
        forall i | 0 <= i < |parts| && forall j :: i < j < |parts| ==> KeyOf(parts[j]) != KeyOf(parts[i])
          ensures KeyOf(parts[i]) in Requested(url, decode).value
          ensures Some(Requested(url, decode).value[KeyOf(parts[i])]) == ValueOf(parts[i], decode)
        {
          LastPartDecides(parts, decode, i);
        }
      }
    }
  }

  // ---------------------------------------------------------------- round trip

  datatype Pair = Pair(key: string, value: string)

  /** `k=encode(v)` */
  function Written(p: Pair, encode: string -> string): string {
    p.key + "=" + encode(p.value)
  }

  function AllWritten(pairs: seq<Pair>, encode: string -> string): (r: seq<string>)
    ensures |r| == |pairs|
  {
    seq(|pairs|, i requires 0 <= i < |pairs| => Written(pairs[i], encode))
  }

  /** A key and an encoded value hold neither separator. */
  predicate Plain(p: Pair, encode: string -> string) {
    Free(p.key, '&') && Free(p.key, '=') && Free(encode(p.value), '&') && Free(encode(p.value), '=')
  }

  /** The last value given for each key. */
  function LastValues(pairs: seq<Pair>): map<string, string> {
    if pairs == [] then map[] else LastValues(pairs[..|pairs| - 1])[pairs[|pairs| - 1].key := pairs[|pairs| - 1].value]
  }

  /** What it means to be the last value of a key, by position. */
  lemma {:induction false} LastValuesAre(pairs: seq<Pair>, i: nat)
    requires i < |pairs| && forall j :: i < j < |pairs| ==> pairs[j].key != pairs[i].key
    ensures pairs[i].key in LastValues(pairs) && LastValues(pairs)[pairs[i].key] == pairs[i].value
  {
    if i < |pairs| - 1 {
      LastValuesAre(pairs[..|pairs| - 1], i);
    }
  }

  lemma {:induction false} OnlyGivenKeys(pairs: seq<Pair>, key: string)
    ensures key in LastValues(pairs) <==> exists i :: 0 <= i < |pairs| && pairs[i].key == key
  {
    if pairs != [] {
      var front := pairs[..|pairs| - 1];
      OnlyGivenKeys(front, key);
      if exists i :: 0 <= i < |pairs| && pairs[i].key == key {
        var i :| 0 <= i < |pairs| && pairs[i].key == key;
        assert i < |front| ==> front[i].key == key;
      }
    }
  }

  lemma WrittenReads(p: Pair, encode: string -> string, decode: string -> Option<string>)
    requires Plain(p, encode) && decode(encode(p.value)) == Some(p.value)
    ensures KeyOf(Written(p, encode)) == p.key && ValueOf(Written(p, encode), decode) == Some(p.value)
    ensures Free(Written(p, encode), '&')
  {
    SplitAtSeparator(p.key, '=', encode(p.value));
    SplitFree(encode(p.value), '=');
  }

  lemma {:induction false} CollectedWritten(
    pairs: seq<Pair>, encode: string -> string, decode: string -> Option<string>)
    requires forall i :: 0 <= i < |pairs| ==>
               Plain(pairs[i], encode) && decode(encode(pairs[i].value)) == Some(pairs[i].value)
    ensures Collected(AllWritten(pairs, encode), decode) == Some(LastValues(pairs))
    ensures AllFree(AllWritten(pairs, encode), '&')
  {
    forall i | 0 <= i < |pairs|
      ensures Free(AllWritten(pairs, encode)[i], '&')
    {
      WrittenReads(pairs[i], encode, decode);
    }
    if pairs != [] {
      var front := pairs[..|pairs| - 1];
      CollectedWritten(front, encode, decode);
      assert AllWritten(pairs, encode)[..|pairs| - 1] == AllWritten(front, encode);
      WrittenReads(pairs[|pairs| - 1], encode, decode);
    }
  }

  /** The query string of a list of pairs. */
  function QueryOf(pairs: seq<Pair>, encode: string -> string): string {
    "?" + Join(AllWritten(pairs, encode), '&')
  }

  /** Reading the query of a nonempty list of pairs gives the last value of each key. */
  lemma QueryRoundTrip(pairs: seq<Pair>, encode: string -> string, decode: string -> Option<string>)
    requires pairs != []
    requires forall i :: 0 <= i < |pairs| ==>
               Plain(pairs[i], encode) && decode(encode(pairs[i].value)) == Some(pairs[i].value)
    ensures Requested(QueryOf(pairs, encode), decode) == Some(LastValues(pairs))
  {
    CollectedWritten(pairs, encode, decode);
    var url, body := QueryOf(pairs, encode), Join(AllWritten(pairs, encode), '&');
    assert url[0] == '?';
    assert url[1..] == body;
    SplitOfJoin(AllWritten(pairs, encode), '&');
  }

  /** The first piece of a part is a prefix of it without `=`. */
  lemma KeyIsPlain(part: string)
    requires Free(part, '&')
    ensures Free(KeyOf(part), '&') && Free(KeyOf(part), '=')
  {
    JoinOfSplit(part, '=');
    var pieces := Split(part, '=');
    assert pieces[0] == part[..|pieces[0]|];
    assert forall c :: c in pieces[0] ==> c in part;
  }

  lemma {:induction false} CollectedKeysArePlain(parts: seq<string>, decode: string -> Option<string>, key: string)
    requires AllFree(parts, '&') && Collected(parts, decode).Some? && key in Collected(parts, decode).value
    ensures Free(key, '&') && Free(key, '=')
  {
    var front, part := parts[..|parts| - 1], parts[|parts| - 1];
    if key == KeyOf(part) {
      KeyIsPlain(part);
    } else {
      CollectedKeysArePlain(front, decode, key);
    }
  }

  /** Values encoded without separators come back, under their keys, exactly when the keys have
      none either: keys are written and read as they stand. */
  lemma RoundTripIffKeysPlain(pairs: seq<Pair>, encode: string -> string, decode: string -> Option<string>)
    requires pairs != []
    requires forall i :: 0 <= i < |pairs| ==>
               Free(encode(pairs[i].value), '&') && Free(encode(pairs[i].value), '=') &&
               decode(encode(pairs[i].value)) == Some(pairs[i].value)
    ensures Requested(QueryOf(pairs, encode), decode) == Some(LastValues(pairs))
       <==> forall i :: 0 <= i < |pairs| ==> Free(pairs[i].key, '&') && Free(pairs[i].key, '=')
  {
    var url := QueryOf(pairs, encode);
    if forall i :: 0 <= i < |pairs| ==> Free(pairs[i].key, '&') && Free(pairs[i].key, '=') {
      QueryRoundTrip(pairs, encode, decode);
    } else if Requested(url, decode) == Some(LastValues(pairs)) {
      var i :| 0 <= i < |pairs| && !(Free(pairs[i].key, '&') && Free(pairs[i].key, '='));
      OnlyGivenKeys(pairs, pairs[i].key);
      assert url[0] == '?';
      JoinOfSplit(url[1..], '&');
      CollectedKeysArePlain(Split(url[1..], '&'), decode, pairs[i].key);
      assert false;
    }
  }

  /** The empty list is the exception: its query `?` is read as one part without a name, whose
      missing value is decoded as a text. */
  lemma EmptyQuery(encode: string -> string, decode: string -> Option<string>)
    requires decode("undefined") == Some("undefined")
    ensures Requested(QueryOf([], encode), decode) == Some(map["" := "undefined"])
  {
    var parts := Split("", '&');
    assert QueryOf([], encode)[1..] == "";
    assert parts == [""] && parts[..0] == [];
    assert Split("", '=') == [""];
    assert Collected(parts[..0], decode) == Some(map[]);
  }

  /** The address that `openTerminal` opens gives the page its port back. */
  lemma PortRoundTrip(port: string, decode: string -> Option<string>)
    requires Free(port, '&') && Free(port, '=') && decode(port) == Some(port)
    ensures Requested("?port=" + port, decode) == Some(map["port" := port])
  {
    var encode := (s: string) => s;
    var pairs := [Pair("port", port)];
    assert Free("port", '&') && Free("port", '=');
    QueryRoundTrip(pairs, encode, decode);
    assert AllWritten(pairs, encode) == [Written(pairs[0], encode)];
    assert QueryOf(pairs, encode) == "?" + ("port" + "=" + port);
    assert "?port=" + port == "?" + ("port" + "=" + port);
    assert LastValues(pairs) == map["port" := port] by {
      assert pairs[..0] == [];
    }
  }
}
