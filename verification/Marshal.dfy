/** The process launcher's marshalling in process.cpp: `String8`, and the building and release of
    `argv` and `envp` in `createSubprocessInternal`, over an explicit C heap.

    `Free` may only be called on a live block, so that each method verifies means that no block is
    freed twice. Allocation of the two vectors and of the command may fail; that of the other strings is
    taken to succeed.
 */
module Marshal {
  import opened Bytes

  /** An address; 0 is NULL. */
  type Ptr = nat

  datatype Block = Chars(bytes: seq<byte>) | Pointers(entries: seq<Ptr>)

  type Blocks = map<Ptr, Block>

  /** A Java string seen through `GetStringCritical`, which may fail. */
  datatype JString = Text(chars: seq<nat>) | Unreadable

  // ---------------------------------------------------------------- specification

  /** `(char) o[i]` for every character. */
  function LowBytes(chars: seq<nat>): (r: seq<byte>)
    ensures |r| == |chars|
  {
    seq(|chars|, i requires 0 <= i < |chars| => chars[i] % 256)
  }

  /** A Java string as the launched program sees it: low bytes, up to the first NUL. */
  function Narrowed(chars: seq<nat>): seq<byte> {
    CString(LowBytes(chars))
  }

  /** A character and its byte differ by a multiple of 256. */
  lemma LowByteIs(chars: seq<nat>, i: nat)
    requires i < |chars|
    ensures |LowBytes(chars)| == |chars| && (chars[i] - LowBytes(chars)[i]) % 256 == 0
  {
  }

  /** The first n characters are what is seen, each as its low byte, when none of these bytes is NUL
      and the next one is. */
  lemma NarrowedIs(chars: seq<nat>, n: nat)
    requires n <= |chars| && forall i :: 0 <= i < n ==> chars[i] % 256 != 0
    requires n < |chars| ==> chars[n] % 256 == 0
    ensures |Narrowed(chars)| == n && forall i :: 0 <= i < n ==> Narrowed(chars)[i] == chars[i] % 256
  {
    CStringAt(LowBytes(chars), n);
  }

  /** Text of one-byte characters is seen as it is. */
  lemma PlainText(text: seq<byte>)
    requires 0 !in text
    ensures Narrowed(text) == text
  {
    assert forall i :: 0 <= i < |text| ==> text[i] in text && text[i] % 256 == text[i];
    NarrowedIs(text, |text|);
  }

  predicate Readable(args: seq<JString>) {
    forall i :: 0 <= i < |args| ==> args[i].Text?
  }

  function AllNarrowed(args: seq<JString>): (r: seq<seq<byte>>)
    requires Readable(args)
    ensures |r| == |args|
  {
    seq(|args|, i requires 0 <= i < |args| => Narrowed(args[i].chars))
  }

  /** The index of the first string that cannot be read, or |args|. */
  function FirstUnreadable(args: seq<JString>): (n: nat)
    ensures n <= |args| && Readable(args[..n]) && (n < |args| ==> args[n].Unreadable?)
  {
    if args == [] || args[0].Unreadable? then 0 else
    var n := 1 + FirstUnreadable(args[1..]);
    assert forall i :: 0 < i < n ==> args[i] == args[1..][..n - 1][i - 1];
    n
  }

  /** The strings at a C vector, read as a program reads them: up to the first NULL entry. */
  function ReadFrom(blocks: Blocks, entries: seq<Ptr>): Option<seq<seq<byte>>> {
    if entries == [] then None // no terminator
    else if entries[0] == 0 then Some([])
    else if entries[0] !in blocks || !blocks[entries[0]].Chars? then None else
    var others := ReadFrom(blocks, entries[1..]);
    if others.None? then None else Some([CString(blocks[entries[0]].bytes)] + others.value)
  }

  /** What a launched program finds at a vector: nothing at NULL, or its strings. */
  function ReadVector(blocks: Blocks, p: Ptr): Option<seq<seq<byte>>> {
    if p == 0 || p !in blocks || !blocks[p].Pointers? then None else ReadFrom(blocks, blocks[p].entries)
  }

  // ---------------------------------------------------------------- the heap

  class Heap {
    var blocks: Blocks
    var next: Ptr

    constructor ()
      ensures Valid() && blocks == map[]
    {
      blocks, next := map[], 1;
    }

    predicate Valid()
      reads this
    {
      0 < next && forall p :: p in blocks ==> 0 < p < next
    }

    method Alloc(b: Block) returns (p: Ptr)
      requires Valid()
      modifies this
      ensures Valid() && p == old(next) && next == p + 1 && p !in old(blocks)
      ensures blocks == old(blocks)[p := b]
    {
      p := next;
      blocks := blocks[p := b];
      next := p + 1;
    }

    method Free(p: Ptr)
      requires Valid() && p in blocks
      modifies this`blocks
      ensures Valid() && blocks == old(blocks) - {p}
    {
      blocks := blocks - {p};
    }

    method PutByte(p: Ptr, i: nat, b: byte)
      requires Valid() && p in blocks && blocks[p].Chars? && i < |blocks[p].bytes|
      modifies this`blocks
      ensures Valid() && blocks == old(blocks)[p := Chars(old(blocks)[p].bytes[i := b])]
    {
      blocks := blocks[p := Chars(blocks[p].bytes[i := b])];
    }

    method PutPointer(p: Ptr, i: nat, q: Ptr)
      requires Valid() && p in blocks && blocks[p].Pointers? && i < |blocks[p].entries|
      modifies this`blocks
      ensures Valid() && blocks == old(blocks)[p := Pointers(old(blocks)[p].entries[i := q])]
    {
      blocks := blocks[p := Pointers(blocks[p].entries[i := q])];
    }

    /** `strdup` */
    method Strdup(s: Ptr) returns (p: Ptr)
      requires Valid() && s in blocks && blocks[s].Chars?
      modifies this
      ensures Valid() && p == old(next) && next == p + 1 && p !in old(blocks)
      ensures blocks == old(blocks)[p := Chars(CString(old(blocks)[s].bytes) + [0])]
    {
      p := Alloc(Chars(CString(blocks[s].bytes) + [0]));
    }
  }

  /** The block a `String8` owns, as a part of the heap. */
  function Owned(p: Ptr): set<Ptr> {
    if p == 0 then {} else {p}
  }

  class String8 {
    var mString: Ptr

    constructor ()
      ensures mString == 0
    {
      mString := 0;
    }

    /** `set`: the old buffer is freed, and the new one holds the low bytes and a NUL. When none can
        be allocated the string is left without a buffer. */
    method Set(heap: Heap, o: seq<nat>, granted: bool)
      requires heap.Valid() && (mString != 0 ==> mString in heap.blocks)
      modifies this, heap
      ensures heap.Valid()
      ensures granted ==> mString == old(heap.next) && heap.next == mString + 1
      ensures !granted ==> mString == 0 && heap.next == old(heap.next)
      ensures var others := old(heap.blocks) - Owned(old(mString));
              heap.blocks == if granted then others[mString := Chars(LowBytes(o) + [0])] else others
    {
      if mString != 0 {
        heap.Free(mString);
      }
      if !granted {
        mString := 0;
        return;
      }
      ghost var others := heap.blocks;
      mString := heap.Alloc(Chars(seq(|o| + 1, _ => 0)));
      for i := 0 to |o|
        invariant heap.Valid() && heap.next == mString + 1 && mString == old(heap.next)
        invariant mString in heap.blocks && heap.blocks[mString].Chars? && |heap.blocks[mString].bytes| == |o| + 1
        invariant heap.blocks == others[mString := heap.blocks[mString]]
        invariant heap.blocks[mString].bytes[..i] == LowBytes(o)[..i]
      {
        heap.PutByte(mString, i, o[i] % 256);
      }
      heap.PutByte(mString, |o|, 0);
      assert heap.blocks[mString].bytes == LowBytes(o) + [0];
    }

    /** The destructor. */
    method Release(heap: Heap)
      requires heap.Valid() && (mString != 0 ==> mString in heap.blocks)
      modifies heap`blocks
      ensures heap.Valid() && heap.blocks == old(heap.blocks) - Owned(mString)
    {
      if mString != 0 {
        heap.Free(mString);
      }
    }
  }

  // ---------------------------------------------------------------- building a vector

  /** `blocks` is `base` with the blocks at `extra` added. */
  predicate Extends(blocks: Blocks, base: Blocks, extra: set<Ptr>) {
    blocks.Keys == base.Keys + extra && base.Keys !! extra && forall p :: p in base ==> blocks[p] == base[p]
  }

  lemma ExtendsTransitive(c: Blocks, b: Blocks, a: Blocks, more: set<Ptr>, extra: set<Ptr>)
    requires Extends(c, b, more) && Extends(b, a, extra)
    ensures Extends(c, a, extra + more)
  {
  }

  lemma ExtendsLess(blocks: Blocks, base: Blocks, extra: set<Ptr>, gone: set<Ptr>)
    requires Extends(blocks, base, extra) && gone <= extra
    ensures Extends(blocks - gone, base, extra - gone)
  {
  }

  lemma ExtendsByNothing(blocks: Blocks, base: Blocks)
    ensures Extends(blocks, base, {}) <==> blocks == base
  {
  }

  function Elements(ps: seq<Ptr>): set<Ptr> {
    set p | p in ps
  }

  predicate Distinct(ps: seq<Ptr>) {
    forall i, j :: 0 <= i < j < |ps| ==> ps[i] != ps[j]
  }

  function Footprint(vector: Ptr, made: seq<Ptr>): set<Ptr> {
    {vector} + Elements(made)
  }

  /** The first strings of a vector are in place. */
  predicate PartBuilt(blocks: Blocks, vector: Ptr, made: seq<Ptr>, args: seq<JString>) {
    && |made| <= |args|
    && vector in blocks && blocks[vector].Pointers? && |blocks[vector].entries| == |args| + 1
    && blocks[vector].entries[..|made|] == made
    && Distinct(made) && 0 !in made && vector !in made
    && forall i :: 0 <= i < |made| ==>
         args[i].Text? && made[i] in blocks && blocks[made[i]] == Chars(Narrowed(args[i].chars) + [0])
  }

  /** All strings and the terminator are in place. */
  predicate Built(blocks: Blocks, vector: Ptr, made: seq<Ptr>, args: seq<JString>) {
    PartBuilt(blocks, vector, made, args) && |made| == |args| && blocks[vector].entries[|args|] == 0
  }

  lemma ElementsAppend(made: seq<Ptr>, m: Ptr)
    ensures Elements(made + [m]) == Elements(made) + {m}
    ensures forall i :: 0 <= i < |made| ==> made[i] in Elements(made)
  {
  }

  /** One turn of the loop, as an operation on the heap's contents: the temporary is replaced by t,
      and a copy of it at m becomes the next entry. */
  predicate Turn(blocks: Blocks, temp: Ptr, vector: Ptr, n: nat, t: Ptr, low: seq<byte>, m: Ptr, copy: seq<byte>,
                 blocks': Blocks)
  {
    && vector in blocks && blocks[vector].Pointers? && n < |blocks[vector].entries|
    && t != m && t != 0 && m != 0 && t !in blocks && m !in blocks && temp != vector
    && blocks' == (blocks - Owned(temp))[t := Chars(low)][m := Chars(copy)]
                  [vector := Pointers(blocks[vector].entries[n := m])]
  }

  lemma TurnExtends(blocks: Blocks, base: Blocks, temp: Ptr, vector: Ptr, made: seq<Ptr>, t: Ptr, low: seq<byte>,
                    m: Ptr, copy: seq<byte>, blocks': Blocks)
    requires Turn(blocks, temp, vector, |made|, t, low, m, copy, blocks')
    requires Extends(blocks, base, Owned(temp) + Footprint(vector, made)) && temp !in made
    ensures Extends(blocks', base, Owned(t) + Footprint(vector, made + [m]))
    ensures t != vector && t !in made + [m]
  {
    ElementsAppend(made, m);
  }

  lemma TurnBuilds(blocks: Blocks, temp: Ptr, vector: Ptr, made: seq<Ptr>, args: seq<JString>, t: Ptr, low: seq<byte>,
                   m: Ptr, copy: seq<byte>, blocks': Blocks)
    requires Turn(blocks, temp, vector, |made|, t, low, m, copy, blocks')
    requires PartBuilt(blocks, vector, made, args) && |made| < |args| && temp !in made
    requires args[|made|].Text? && copy == Narrowed(args[|made|].chars) + [0]
    ensures PartBuilt(blocks', vector, made + [m], args)
  {
    hide Narrowed;
    assert forall i :: 0 <= i < |made| ==> made[i] in made;
  }

  lemma BuildStart(blocks: Blocks, temp: Ptr, vector: Ptr, args: seq<JString>, blocks': Blocks)
    requires vector !in blocks && vector != 0 && (temp != 0 ==> temp in blocks)
    requires blocks' == blocks[vector := Pointers(seq(|args| + 1, _ => 0))]
    ensures PartBuilt(blocks', vector, [], args)
    ensures Extends(blocks', blocks - Owned(temp), Owned(temp) + Footprint(vector, []))
    ensures temp != vector
  {
  }

  lemma BuildEnd(blocks: Blocks, base: Blocks, extra: set<Ptr>, vector: Ptr, made: seq<Ptr>, args: seq<JString>,
                 blocks': Blocks)
    requires PartBuilt(blocks, vector, made, args) && |made| == |args|
    requires Extends(blocks, base, extra) && vector in extra
    requires blocks' == blocks[vector := Pointers(blocks[vector].entries[|args| := 0])]
    ensures Built(blocks', vector, made, args) && Extends(blocks', base, extra)
  {
  }

  /** The loop's body for a string that can be read. */
  method AddString(heap: Heap, tmp8: String8, vector: Ptr, chars: seq<nat>, ghost base: Blocks, ghost made: seq<Ptr>,
                   i: nat, ghost args: seq<JString>) returns (m: Ptr)
    requires heap.Valid() && i == |made| < |args| && args[i] == Text(chars)
    requires PartBuilt(heap.blocks, vector, made, args)
    requires tmp8.mString != vector && tmp8.mString !in made
    requires Extends(heap.blocks, base, Owned(tmp8.mString) + Footprint(vector, made))
    modifies heap, tmp8
    ensures heap.Valid()
    ensures PartBuilt(heap.blocks, vector, made + [m], args)
    ensures tmp8.mString != vector && tmp8.mString !in made + [m]
    ensures Extends(heap.blocks, base, Owned(tmp8.mString) + Footprint(vector, made + [m]))
  {
    hide LowBytes;
    hide Distinct;
    ghost var blocks, temp := heap.blocks, tmp8.mString;
    assert temp != 0 ==> temp in blocks;
    tmp8.Set(heap, chars, true);
    m := heap.Strdup(tmp8.mString);
    CStringTerminated(LowBytes(chars));
    heap.PutPointer(vector, i, m);
    ghost var low, copy := LowBytes(chars) + [0], Narrowed(chars) + [0];
    assert Turn(blocks, temp, vector, i, tmp8.mString, low, m, copy, heap.blocks);
    TurnExtends(blocks, base, temp, vector, made, tmp8.mString, low, m, copy, heap.blocks);
    TurnBuilds(blocks, temp, vector, made, args, tmp8.mString, low, m, copy, heap.blocks);
  }

  lemma OwnedIsLive(blocks: Blocks, base: Blocks, temp: Ptr, others: set<Ptr>)
    requires Extends(blocks, base, Owned(temp) + others)
    ensures temp != 0 ==> temp in blocks
  {
  }

  method Terminate(heap: Heap, vector: Ptr, ghost base: Blocks, ghost extra: set<Ptr>, ghost made: seq<Ptr>,
                   args: seq<JString>)
    requires heap.Valid() && PartBuilt(heap.blocks, vector, made, args) && |made| == |args|
    requires Extends(heap.blocks, base, extra) && vector in extra
    modifies heap`blocks
    ensures heap.Valid() && Built(heap.blocks, vector, made, args) && Extends(heap.blocks, base, extra)
  {
    ghost var blocks := heap.blocks;
    heap.PutPointer(vector, |args|, 0);
    BuildEnd(blocks, base, extra, vector, made, args, heap.blocks);
  }

  /** Builds `argv` or `envp`; the same loop stands in the source for each. `made` are the blocks
      of the strings. When a string cannot be read the function returns with all of them live. */
  method BuildVector(heap: Heap, tmp8: String8, args: seq<JString>)
    returns (vector: Ptr, done: bool, ghost made: seq<Ptr>)
    requires heap.Valid() && (tmp8.mString != 0 ==> tmp8.mString in heap.blocks)
    modifies heap, tmp8
    ensures heap.Valid()
    ensures |made| == FirstUnreadable(args) && (done <==> |made| == |args|)
    ensures vector != 0 && PartBuilt(heap.blocks, vector, made, args)
    ensures done ==> Built(heap.blocks, vector, made, args)
    ensures tmp8.mString != vector && tmp8.mString !in made && (tmp8.mString != 0 ==> tmp8.mString in heap.blocks)
    ensures Extends(heap.blocks, old(heap.blocks) - Owned(old(tmp8.mString)),
                    Owned(tmp8.mString) + Footprint(vector, made))
  {
    hide PartBuilt;
    hide Extends;
    ghost var blocks, base := heap.blocks, heap.blocks - Owned(tmp8.mString);
    vector := heap.Alloc(Pointers(seq(|args| + 1, _ => 0)));
    made := [];
    BuildStart(blocks, tmp8.mString, vector, args, heap.blocks);
    for i := 0 to |args|
      invariant heap.Valid() && |made| == i <= FirstUnreadable(args)
      invariant PartBuilt(heap.blocks, vector, made, args)
      invariant tmp8.mString != vector && tmp8.mString !in made
      invariant Extends(heap.blocks, base, Owned(tmp8.mString) + Footprint(vector, made))
    {
      OwnedIsLive(heap.blocks, base, tmp8.mString, Footprint(vector, made));
      if args[i].Unreadable? {
        return vector, false, made;
      }
      assert args[..FirstUnreadable(args)][..] == args[..FirstUnreadable(args)];
      var m := AddString(heap, tmp8, vector, args[i].chars, base, made, i, args);
      made := made + [m];
    }
    OwnedIsLive(heap.blocks, base, tmp8.mString, Footprint(vector, made));
    Terminate(heap, vector, base, Owned(tmp8.mString) + Footprint(vector, made), made, args);
    BuiltIsPart(heap.blocks, vector, made, args);
    done := true;
  }

  lemma BuiltIsPart(blocks: Blocks, vector: Ptr, made: seq<Ptr>, args: seq<JString>)
    requires Built(blocks, vector, made, args)
    ensures PartBuilt(blocks, vector, made, args)
  {
  }

  lemma AllNarrowedFirst(args: seq<JString>)
    requires Readable(args) && args != []
    ensures Readable(args[1..]) && AllNarrowed(args) == [Narrowed(args[0].chars)] + AllNarrowed(args[1..])
  {
  }

  lemma {:induction false} ReadFromMade(blocks: Blocks, made: seq<Ptr>, args: seq<JString>)
    requires |made| == |args| && 0 !in made && Readable(args)
    requires forall i :: 0 <= i < |made| ==>
               made[i] in blocks && blocks[made[i]] == Chars(Narrowed(args[i].chars) + [0])
    ensures ReadFrom(blocks, made + [0]) == Some(AllNarrowed(args))
  {
    hide LowBytes;
    hide CString;
    if made != [] {
      assert (made + [0])[1..] == made[1..] + [0];
      AllNarrowedFirst(args);
      ReadFromMade(blocks, made[1..], args[1..]);
      CStringTerminated(Narrowed(args[0].chars));
      CStringWhole(Narrowed(args[0].chars));
    }
  }

  /** A finished vector is null-terminated and holds every argument, narrowed, in order. */
  lemma BuiltReads(blocks: Blocks, vector: Ptr, made: seq<Ptr>, args: seq<JString>)
    requires Built(blocks, vector, made, args) && vector != 0
    ensures Readable(args) && ReadVector(blocks, vector) == Some(AllNarrowed(args))
  {
    assert blocks[vector].entries == made + [0];
    assert forall i :: 0 <= i < |made| ==> args[i].Text?;
    ReadFromMade(blocks, made, args);
  }

  // ---------------------------------------------------------------- the whole call

  /** What `create_subprocess` is called with, as the new program reads it. */
  datatype Launch = Launch(cmd: Option<seq<byte>>, argv: Option<seq<seq<byte>>>, envp: Option<seq<seq<byte>>>)

  datatype Exit = Launched(launch: Launch, pid: int) | OutOfMemory

  /** The vector a program is to find for a Java array; none for a missing or empty one. */
  function VectorOf(args: seq<JString>): Option<seq<seq<byte>>>
    requires Readable(args)
  {
    if args == [] then None else Some(AllNarrowed(args))
  }

  /** On plain text a program finds its arguments as they were given, in order. */
  lemma VectorOfText(args: seq<JString>, texts: seq<seq<byte>>)
    requires |args| == |texts| && forall i :: 0 <= i < |args| ==> args[i] == Text(texts[i]) && 0 !in texts[i]
    ensures Readable(args) && VectorOf(args) == if texts == [] then None else Some(texts)
  {
    hide Narrowed;
    forall i | 0 <= i < |args|
      ensures Narrowed(args[i].chars) == texts[i]
    {
      PlainText(texts[i]);
    }
    assert AllNarrowed(args) == texts;
  }

  /** A Java array is marshalled to the end. */
  predicate Complete(args: seq<JString>, granted: bool) {
    args == [] || (granted && Readable(args))
  }

  /** The blocks marshalling has made for an array when it stops. */
  function BlocksMade(args: seq<JString>, granted: bool): nat {
    if args == [] || !granted then 0 else 1 + FirstUnreadable(args)
  }

  function VectorBlocks(vector: Ptr, made: seq<Ptr>): set<Ptr> {
    if vector == 0 then {} else Footprint(vector, made)
  }

  /** The blocks still live after the call: none when both arrays were complete, and otherwise every
      one made so far, since the early returns release nothing. */
  function Leaked(args: seq<JString>, granted: bool, env: seq<JString>, granted': bool): nat {
    if Complete(args, granted) && Complete(env, granted') then 0
    else BlocksMade(args, granted) + if Complete(args, granted) then BlocksMade(env, granted') else 0
  }

  /** The heap is as before the call exactly when the launch was reached, or when the call failed
      at a vector before any block was made. */
  lemma NothingLeakedIff(args: seq<JString>, granted: bool, env: seq<JString>, granted': bool)
    ensures Leaked(args, granted, env, granted') == 0
       <==> (Complete(args, granted) && Complete(env, granted'))
            || (args != [] && !granted) || (args == [] && !granted')
  {
  }

  /** In numbers: a vector leaks with the copies made for it before the string that cannot be read, and
      a finished first vector leaks with all of its copies when the second one stops. */
  lemma LeakedCounts(args: seq<JString>, env: seq<JString>, granted': bool, k: nat)
    requires k < |args| && Readable(args[..k]) && args[k].Unreadable?
    ensures Leaked(args, true, env, granted') == 1 + k
    ensures Readable(env) && env != [] ==> Leaked(env, true, args, true) == (1 + |env|) + (1 + k)
    ensures Leaked([], true, args, true) == 1 + k
    ensures Readable(env) && env != [] ==> Leaked(env, true, args, false) == 1 + |env|
  {
    FirstUnreadableIs(args, k);
    FirstUnreadableIsAll(env);
    assert !Readable(args);
  }

  lemma {:induction false} FirstUnreadableIs(args: seq<JString>, k: nat)
    requires k < |args| && Readable(args[..k]) && args[k].Unreadable?
    ensures FirstUnreadable(args) == k
  {
    if k > 0 {
      assert args[..k][0] == args[0];
      assert forall i :: 0 <= i < k - 1 ==> args[1..][i] == args[..k][i + 1];
      FirstUnreadableIs(args[1..], k - 1);
    }
  }

  lemma {:induction false} FirstUnreadableIsAll(args: seq<JString>)
    ensures FirstUnreadable(args) == |args| <==> Readable(args)
  {
    assert args[..|args|] == args;
    if args != [] {
      FirstUnreadableIsAll(args[1..]);
      if Readable(args) {
        assert Readable(args[1..]);
      }
    }
  }

  lemma {:induction false} ElementsCount(ps: seq<Ptr>)
    requires Distinct(ps)
    ensures |Elements(ps)| == |ps|
  {
    if ps != [] {
      var front, last := ps[..|ps| - 1], ps[|ps| - 1];
      ElementsCount(front);
      ElementsAppend(front, last);
      assert ps == front + [last];
      assert last !in Elements(front);
    }
  }

  lemma FootprintCount(blocks: Blocks, vector: Ptr, made: seq<Ptr>, args: seq<JString>)
    requires PartBuilt(blocks, vector, made, args)
    ensures |Footprint(vector, made)| == 1 + |made|
  {
    ElementsCount(made);
    assert vector !in Elements(made);
  }

  lemma ExtendsByOwn(blocks: Blocks, temp: Ptr)
    requires temp != 0 ==> temp in blocks
    ensures Extends(blocks, blocks - Owned(temp), Owned(temp) + {})
  {
  }

  /** Marshals one Java array; `granted` says whether the vector can be allocated. */
  method MarshalArray(heap: Heap, tmp8: String8, args: seq<JString>, granted: bool)
    returns (vector: Ptr, done: bool, ghost made: seq<Ptr>)
    requires heap.Valid() && (tmp8.mString != 0 ==> tmp8.mString in heap.blocks)
    modifies heap, tmp8
    ensures heap.Valid() && (done <==> Complete(args, granted))
    ensures |VectorBlocks(vector, made)| == BlocksMade(args, granted)
    ensures vector == 0 <==> args == [] || !granted
    ensures vector != 0 && done ==> Built(heap.blocks, vector, made, args)
    ensures Owned(tmp8.mString) !! VectorBlocks(vector, made)
    ensures Extends(heap.blocks, old(heap.blocks) - Owned(old(tmp8.mString)),
                    Owned(tmp8.mString) + VectorBlocks(vector, made))
  {
    hide PartBuilt;
    hide Built;
    hide Extends;
    FirstUnreadableIsAll(args);
    ExtendsByOwn(heap.blocks, tmp8.mString);
    vector, done, made := 0, true, [];
    if |args| > 0 {
      if !granted {
        return 0, false, [];
      }
      vector, done, made := BuildVector(heap, tmp8, args);
      FootprintCount(heap.blocks, vector, made, args);
    }
  }

  /** Frees the strings up to the terminator, and then the vector. */
  method FreeVector(heap: Heap, vector: Ptr, ghost made: seq<Ptr>, ghost args: seq<JString>)
    requires heap.Valid() && Built(heap.blocks, vector, made, args)
    modifies heap`blocks
    ensures heap.Valid() && heap.blocks == old(heap.blocks) - Footprint(vector, made)
  {
    assert heap.blocks[vector].entries == made + [0];
    var tmp := 0;
    while heap.blocks[vector].entries[tmp] != 0
      invariant heap.Valid() && tmp <= |made|
      invariant heap.blocks == old(heap.blocks) - Elements(made[..tmp])
      invariant vector in heap.blocks && heap.blocks[vector] == Pointers(made + [0])
      decreases |made| - tmp
    {
      ElementsAppend(made[..tmp], made[tmp]);
      assert made[..tmp + 1] == made[..tmp] + [made[tmp]];
      heap.Free(heap.blocks[vector].entries[tmp]);
      tmp := tmp + 1;
    }
    assert made[..tmp] == made;
    heap.Free(vector);
  }

  /** Two arrays marshalled one after the other with the same temporary. */
  lemma BothExtend(start: Blocks, one: Blocks, two: Blocks, temp: Ptr, temp': Ptr, first: set<Ptr>, second: set<Ptr>)
    requires Extends(one, start, Owned(temp) + first) && Owned(temp) !! first
    requires Extends(two, one - Owned(temp), Owned(temp') + second) && Owned(temp') !! second
    ensures Extends(two, start, Owned(temp') + first + second)
    ensures Owned(temp') !! first && first !! second
  {
    assert (Owned(temp) + first) - Owned(temp) == first;
    ExtendsLess(one, start, Owned(temp) + first, Owned(temp));
    ExtendsTransitive(two, one - Owned(temp), start, Owned(temp') + second, first);
    assert first + (Owned(temp') + second) == Owned(temp') + first + second;
  }

  /** Marshalling another array leaves a finished vector as it is. */
  lemma BuiltStays(one: Blocks, two: Blocks, temp: Ptr, more: set<Ptr>, vector: Ptr, made: seq<Ptr>, args: seq<JString>)
    requires Built(one, vector, made, args) && temp != vector && temp !in made
    requires Extends(two, one - Owned(temp), more)
    ensures Built(two, vector, made, args)
  {
    hide Narrowed;
  }

  lemma BuiltStaysAfterFree(blocks: Blocks, gone: set<Ptr>, vector: Ptr, made: seq<Ptr>, args: seq<JString>)
    requires Built(blocks, vector, made, args) && gone !! Footprint(vector, made)
    ensures Built(blocks - gone, vector, made, args)
  {
    hide Narrowed;
    assert forall i :: 0 <= i < |made| ==> made[i] in Elements(made);
  }

  lemma ApartFromFootprint(temp: Ptr, vector: Ptr, made: seq<Ptr>)
    requires vector != 0 && 0 !in made && Owned(temp) !! VectorBlocks(vector, made)
    ensures temp != vector && temp !in made
  {
    if temp != 0 {
      assert temp in Owned(temp);
      assert vector in Footprint(vector, made);
      assert temp in made ==> temp in Footprint(vector, made);
    }
  }

  /** Both arrays marshalled; on success both vectors are finished. */
  method MarshalBoth(heap: Heap, tmp8: String8, args: seq<JString>, granted: bool, env: seq<JString>, granted': bool)
    returns (done: bool, argv: Ptr, envp: Ptr, ghost made: seq<Ptr>, ghost made': seq<Ptr>)
    requires heap.Valid() && tmp8.mString == 0
    modifies heap, tmp8
    ensures heap.Valid() && (done <==> Complete(args, granted) && Complete(env, granted'))
    ensures var first, second := VectorBlocks(argv, made), VectorBlocks(envp, made');
            && first !! second && Owned(tmp8.mString) !! first + second
            && Extends(heap.blocks, old(heap.blocks), Owned(tmp8.mString) + first + second)
            && |first| + |second| ==
                 BlocksMade(args, granted) + if Complete(args, granted) then BlocksMade(env, granted') else 0
    ensures done ==>
              && (argv == 0 <==> args == []) && (argv != 0 ==> Built(heap.blocks, argv, made, args))
              && (envp == 0 <==> env == []) && (envp != 0 ==> Built(heap.blocks, envp, made', env))
  {
    hide Extends;
    hide Built;
    hide Footprint;
    hide VectorBlocks;
    hide BlocksMade;
    ghost var start := heap.blocks;
    envp, made' := 0, [];
    NoBlocks(start, made');
    argv, done, made := MarshalArray(heap, tmp8, args, granted);
    ghost var one, temp, first := heap.blocks, tmp8.mString, VectorBlocks(argv, made);
    if !done {
      assert Owned(temp) + first + {} == Owned(temp) + first;
      return;
    }
    OwnedIsLive(one, start, temp, first);
    envp, done, made' := MarshalArray(heap, tmp8, env, granted');
    BothExtend(start, one, heap.blocks, temp, tmp8.mString, first, VectorBlocks(envp, made'));
    if argv != 0 {
      BuiltHasNoNull(one, argv, made, args);
      ApartFromFootprint(temp, argv, made);
      BuiltStays(one, heap.blocks, temp, Owned(tmp8.mString) + VectorBlocks(envp, made'), argv, made, args);
    }
  }

  /** NULL owns nothing, as a string and as a vector. */
  lemma NoBlocks(blocks: Blocks, made: seq<Ptr>)
    ensures blocks - Owned(0) == blocks && VectorBlocks(0, made) == {}
  {
  }

  lemma BuiltHasNoNull(blocks: Blocks, vector: Ptr, made: seq<Ptr>, args: seq<JString>)
    requires Built(blocks, vector, made, args)
    ensures 0 !in made
  {
  }

  /** The command a program is started with: NULL when the Java string is missing or unreadable, or
      when its copy cannot be allocated. */
  function CommandOf(cmd: JString, copied: bool): Option<seq<byte>> {
    if cmd.Text? && copied then Some(Narrowed(cmd.chars)) else None
  }

  lemma CommandOfText(text: seq<byte>, copied: bool)
    requires 0 !in text
    ensures CommandOf(Text(text), copied) == if copied then Some(text) else None
    ensures CommandOf(Unreadable, copied) == None
  {
    PlainText(text);
  }

  function ReadString(blocks: Blocks, p: Ptr): Option<seq<byte>> {
    if p in blocks && blocks[p].Chars? then Some(CString(blocks[p].bytes)) else None
  }

  /** `cmd_8`, set when the command can be read. */
  method MarshalCommand(heap: Heap, cmd: JString, copied: bool) returns (cmd8: String8)
    requires heap.Valid()
    modifies heap
    ensures heap.Valid() && fresh(cmd8)
    ensures cmd8.mString == 0 <==> CommandOf(cmd, copied).None?
    ensures Extends(heap.blocks, old(heap.blocks), Owned(cmd8.mString))
    ensures cmd8.mString != 0 ==> ReadString(heap.blocks, cmd8.mString) == CommandOf(cmd, copied)
  {
    cmd8 := new String8();
    if cmd.Text? {
      cmd8.Set(heap, cmd.chars, copied);
      CStringTerminated(LowBytes(cmd.chars));
    }
  }

  /** What the launched program reads when the heap has been filled as it should. */
  lemma LaunchReads(blocks: Blocks, withCmd: Blocks, more: set<Ptr>, command: Option<seq<byte>>, cmdPtr: Ptr,
                    argv: Ptr, made: seq<Ptr>, args: seq<JString>, envp: Ptr, made': seq<Ptr>, env: seq<JString>)
    requires Extends(blocks, withCmd, more)
    requires cmdPtr == 0 <==> command.None?
    requires cmdPtr != 0 ==> cmdPtr in withCmd && ReadString(withCmd, cmdPtr) == command
    requires 0 !in blocks
    requires argv == 0 <==> args == []
    requires envp == 0 <==> env == []
    requires argv != 0 ==> Built(blocks, argv, made, args)
    requires envp != 0 ==> Built(blocks, envp, made', env)
    ensures Readable(args) && Readable(env)
    ensures Launch(ReadString(blocks, cmdPtr), ReadVector(blocks, argv), ReadVector(blocks, envp))
         == Launch(command, VectorOf(args), VectorOf(env))
  {
    hide Built;
    hide AllNarrowed;
    if argv != 0 {
      BuiltReads(blocks, argv, made, args);
    }
    if envp != 0 {
      BuiltReads(blocks, envp, made', env);
    }
  }

  /** Taking away the four parts in the order in which they are released. */
  lemma AllReleased(start: Blocks, blocks: Blocks, cmd: set<Ptr>, first: set<Ptr>, second: set<Ptr>, temp: set<Ptr>)
    requires Extends(blocks, start, cmd + (temp + first + second))
    ensures blocks - first - second - temp - cmd == start
  {
  }

  /** The early return: the destructors release the temporary and the command, and nothing else. */
  lemma EarlyReturn(start: Blocks, blocks: Blocks, cmd: set<Ptr>, first: set<Ptr>, second: set<Ptr>, temp: set<Ptr>)
    requires Extends(blocks, start, cmd + (temp + first + second))
    requires first !! second && temp !! first + second && cmd !! temp + first + second
    ensures Extends(blocks - temp - cmd, start, first + second)
    ensures |first + second| == |first| + |second|
  {
    hide Extends;
    var extra := cmd + (temp + first + second);
    ExtendsLess(blocks, start, extra, temp);
    ExtendsLess(blocks - temp, start, extra - temp, cmd);
    OnlyVectorsLeft(cmd, first, second, temp);
  }

  lemma OnlyVectorsLeft(cmd: set<Ptr>, first: set<Ptr>, second: set<Ptr>, temp: set<Ptr>)
    requires temp !! first + second && cmd !! temp + first + second
    ensures cmd + (temp + first + second) - temp - cmd == first + second
    ensures cmd <= cmd + (temp + first + second) - temp
  {
  }

  /** The release of both vectors after the launch. */
  method FreeBoth(heap: Heap, argv: Ptr, ghost made: seq<Ptr>, ghost args: seq<JString>,
                  envp: Ptr, ghost made': seq<Ptr>, ghost env: seq<JString>)
    requires heap.Valid()
    requires argv != 0 ==> Built(heap.blocks, argv, made, args)
    requires envp != 0 ==> Built(heap.blocks, envp, made', env)
    requires VectorBlocks(argv, made) !! VectorBlocks(envp, made')
    modifies heap`blocks
    ensures heap.Valid()
    ensures heap.blocks == old(heap.blocks) - VectorBlocks(argv, made) - VectorBlocks(envp, made')
  {
    hide Built;
    hide Footprint;
    ghost var full := heap.blocks;
    if argv != 0 {
      FreeVector(heap, argv, made, args);
      if envp != 0 {
        BuiltStaysAfterFree(full, VectorBlocks(argv, made), envp, made', env);
      }
    }
    if envp != 0 {
      FreeVector(heap, envp, made', env);
    }
  }

  /** Where everything lies before the launch: five disjoint parts. */
  lemma Layout(start: Blocks, withCmd: Blocks, full: Blocks, cmdPtr: Ptr, tempPtr: Ptr,
               first: set<Ptr>, second: set<Ptr>)
    requires Extends(withCmd, start, Owned(cmdPtr))
    requires Extends(full, withCmd, Owned(tempPtr) + first + second)
    requires first !! second && Owned(tempPtr) !! first + second
    ensures Extends(full, start, Owned(cmdPtr) + (Owned(tempPtr) + first + second))
    ensures Owned(cmdPtr) !! Owned(tempPtr) + first + second
    ensures cmdPtr != 0 ==> cmdPtr in withCmd && cmdPtr in full && cmdPtr in full - Owned(tempPtr)
    ensures cmdPtr != 0 ==> cmdPtr in full - first - second - Owned(tempPtr)
    ensures tempPtr != 0 ==> tempPtr in full && tempPtr in full - first - second
  {
    ExtendsTransitive(full, withCmd, start, Owned(tempPtr) + first + second, Owned(cmdPtr));
  }

  /** An early return: only the destructors of the two strings run, and the vectors made so far stay. */
  method ReturnEarly(heap: Heap, tmp8: String8, cmd8: String8, ghost start: Blocks, ghost first: set<Ptr>,
                     ghost second: set<Ptr>) returns (ghost leaked: set<Ptr>)
    requires heap.Valid()
    requires Extends(heap.blocks, start, Owned(cmd8.mString) + (Owned(tmp8.mString) + first + second))
    requires first !! second && Owned(tmp8.mString) !! first + second
    requires Owned(cmd8.mString) !! Owned(tmp8.mString) + first + second
    modifies heap`blocks
    ensures heap.Valid() && Extends(heap.blocks, start, leaked) && |leaked| == |first| + |second|
  {
    ghost var full := heap.blocks;
    tmp8.Release(heap);
    cmd8.Release(heap);
    hide Extends;
    EarlyReturn(start, full, Owned(cmd8.mString), first, second, Owned(tmp8.mString));
    leaked := first + second;
  }

  /** The end of the call: both vectors, then the two strings. */
  method ReleaseAll(heap: Heap, tmp8: String8, cmd8: String8, ghost start: Blocks,
                    argv: Ptr, ghost made: seq<Ptr>, ghost args: seq<JString>,
                    envp: Ptr, ghost made': seq<Ptr>, ghost env: seq<JString>)
    requires heap.Valid()
    requires argv != 0 ==> Built(heap.blocks, argv, made, args)
    requires envp != 0 ==> Built(heap.blocks, envp, made', env)
    requires var first, second := VectorBlocks(argv, made), VectorBlocks(envp, made');
             && first !! second && Owned(tmp8.mString) !! first + second
             && Owned(cmd8.mString) !! Owned(tmp8.mString) + first + second
             && Extends(heap.blocks, start, Owned(cmd8.mString) + (Owned(tmp8.mString) + first + second))
    modifies heap`blocks
    ensures heap.Valid() && heap.blocks == start
  {
    hide Built;
    hide Footprint;
    hide VectorBlocks;
    ghost var full := heap.blocks;
    ghost var first, second := VectorBlocks(argv, made), VectorBlocks(envp, made');
    StringsLive(start, full, cmd8.mString, tmp8.mString, first, second);
    hide Extends;
    FreeBoth(heap, argv, made, args, envp, made', env);
    tmp8.Release(heap);
    cmd8.Release(heap);
    AllReleased(start, full, Owned(cmd8.mString), first, second, Owned(tmp8.mString));
  }

  lemma StringsLive(start: Blocks, full: Blocks, cmdPtr: Ptr, tempPtr: Ptr, first: set<Ptr>, second: set<Ptr>)
    requires Extends(full, start, Owned(cmdPtr) + (Owned(tempPtr) + first + second))
    requires Owned(tempPtr) !! first + second && Owned(cmdPtr) !! Owned(tempPtr) + first + second
    ensures cmdPtr != 0 ==> cmdPtr in full - first - second - Owned(tempPtr)
    ensures tempPtr != 0 ==> tempPtr in full - first - second
  {
  }

  /** `createSubprocessInternal`. `args` and `env` are empty for a missing Java array, and `cmd` is
      unreadable when it is missing. `granted` and `granted'` say whether the two vectors can be
      allocated and `copied` whether the command's copy can; `pid` is what the launch returns. */
  method CreateSubprocessInternal(heap: Heap, cmd: JString, copied: bool, args: seq<JString>, granted: bool,
                                  env: seq<JString>, granted': bool, pid: int)
    returns (exit: Exit, ghost leaked: set<Ptr>)
    requires heap.Valid()
    modifies heap
    ensures heap.Valid()
    ensures exit.Launched? <==> Complete(args, granted) && Complete(env, granted')
    ensures exit.Launched? ==> exit == Launched(Launch(CommandOf(cmd, copied), VectorOf(args), VectorOf(env)), pid)
    ensures Extends(heap.blocks, old(heap.blocks), leaked) && |leaked| == Leaked(args, granted, env, granted')
  {
    hide Extends;
    hide Built;
    hide Footprint;
    hide VectorBlocks;
    hide ReadString;
    hide ReadVector;
    hide CommandOf;
    hide VectorOf;
    ghost var start := heap.blocks;
    var cmd8 := MarshalCommand(heap, cmd, copied);
    ghost var withCmd := heap.blocks;
    var tmp8 := new String8();
    var done, argv, envp;
    ghost var made, made';
    done, argv, envp, made, made' := MarshalBoth(heap, tmp8, args, granted, env, granted');
    ghost var first, second, temp := VectorBlocks(argv, made), VectorBlocks(envp, made'), Owned(tmp8.mString);
    var full := heap.blocks;
    Layout(start, withCmd, full, cmd8.mString, tmp8.mString, first, second);
    if !done {
      exit := OutOfMemory;
      leaked := ReturnEarly(heap, tmp8, cmd8, start, first, second);
    } else {
      LaunchReads(full, withCmd, temp + first + second, CommandOf(cmd, copied), cmd8.mString,
                  argv, made, args, envp, made', env);
      exit := Launched(Launch(ReadString(full, cmd8.mString), ReadVector(full, argv), ReadVector(full, envp)), pid);
      ReleaseAll(heap, tmp8, cmd8, start, argv, made, args, envp, made', env);
      leaked := {};
      ExtendsByNothing(heap.blocks, start);
    }
  }
}
