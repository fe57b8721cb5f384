/** `closeNonstandardFileDescriptors` in process.cpp, run in the child before the program starts.

    The process's descriptors are listed as decimal names by `/proc/self/fd`; the listing is an
    argument, in any order and with whatever else it may hold.
 */
module Descriptors {
  import opened Bytes

  // ---------------------------------------------------------------- atoi

  predicate IsDigit(c: char) {
    '0' <= c <= '9'
  }

  predicate IsSpace(c: char) {
    c == ' ' || '\t' <= c <= '\r'
  }

  function DigitsFrom(s: string, acc: nat): nat {
    if s == "" || !IsDigit(s[0]) then acc else DigitsFrom(s[1..], acc * 10 + (s[0] as int - '0' as int))
  }

  function SkipSpace(s: string): string {
    if s == "" || !IsSpace(s[0]) then s else SkipSpace(s[1..])
  }

  function Atoi(s: string): int {
    var t := SkipSpace(s);
    if t != "" && t[0] == '-' then -(DigitsFrom(t[1..], 0) as int)
    else if t != "" && t[0] == '+' then DigitsFrom(t[1..], 0)
    else DigitsFrom(t, 0)
  }

  /** The decimal name of a number. */
  function Decimal(n: nat): (s: string)
    ensures s != "" && IsDigit(s[0])
  {
    var last := (n % 10 + '0' as int) as char;
    if n < 10 then [last] else Decimal(n / 10) + [last]
  }

  lemma {:induction false} DigitsOfDecimal(n: nat, rest: string)
    requires rest == "" || !IsDigit(rest[0])
    ensures DigitsFrom(Decimal(n) + rest, 0) == n
  {
    DigitsPrefix(n, rest, 0);
  }

  function Power10(k: nat): nat {
    if k == 0 then 1 else 10 * Power10(k - 1)
  }

  lemma {:induction false} DigitsPrefix(n: nat, rest: string, acc: nat)
    ensures DigitsFrom(Decimal(n) + rest, acc) == DigitsFrom(rest, acc * Power10(|Decimal(n)|) + n)
    decreases n
  {
    var last := (n % 10 + '0' as int) as char;
    if n < 10 {
      assert (Decimal(n) + rest)[1..] == rest;
      assert Power10(1) == 10;
    } else {
      var head := Decimal(n / 10);
      assert Decimal(n) + rest == head + ([last] + rest);
      DigitsPrefix(n / 10, [last] + rest, acc);
      assert ([last] + rest)[1..] == rest;
      Scale(acc, Power10(|head|), n);
    }
  }

  lemma Scale(acc: nat, p: nat, n: nat)
    ensures (acc * p + n / 10) * 10 + n % 10 == acc * (10 * p) + n
  {
    assert acc * (10 * p) == 10 * (acc * p);
  }

  /** `atoi` reads a decimal name back, and stops at whatever follows the digits: it takes the
      descriptor out of the text `fd,size` of ANDROID_PROPERTY_WORKSPACE. */
  lemma AtoiOfDecimal(n: nat, rest: string)
    requires rest == "" || !IsDigit(rest[0])
    ensures Atoi(Decimal(n) + rest) == n
  {
    DigitsOfDecimal(n, rest);
    assert (Decimal(n) + rest)[0] == Decimal(n)[0];
  }

  predicate Digits(s: string) {
    forall i :: 0 <= i < |s| ==> '0' <= s[i] <= '9'
  }

  predicate Spaces(s: string) {
    forall i :: 0 <= i < |s| ==> s[i] == ' ' || 9 <= s[i] as int <= 13
  }

  lemma {:induction false} DigitsOnly(s: string, rest: string, acc: nat)
    requires Digits(s) && (rest == "" || !('0' <= rest[0] <= '9'))
    ensures DigitsFrom(s + rest, acc) == DigitsFrom(s, acc)
  {
    if s == "" {
      assert s + rest == rest;
    } else {
      assert (s + rest)[1..] == s[1..] + rest;
      DigitsOnly(s[1..], rest, acc * 10 + (s[0] as int - '0' as int));
    }
  }

  lemma {:induction false} DigitAppended(s: string, d: char, acc: nat)
    requires Digits(s) && '0' <= d <= '9'
    ensures DigitsFrom(s + [d], acc) == 10 * DigitsFrom(s, acc) + (d as int - 48)
  {
    if s == "" {
      assert [d][1..] == "";
      assert s + [d] == [d];
    } else {
      assert (s + [d])[1..] == s[1..] + [d];
      DigitAppended(s[1..], d, acc * 10 + (s[0] as int - '0' as int));
    }
  }

  lemma {:induction false} SpacesSkipped(space: string, s: string)
    requires Spaces(space) && (s == "" || !(s[0] == ' ' || 9 <= s[0] as int <= 13))
    ensures SkipSpace(space + s) == s
  {
    if space == "" {
      assert space + s == s;
    } else {
      assert (space + s)[1..] == space[1..] + s;
      SpacesSkipped(space[1..], s);
    }
  }

  /** Digits are read in base ten, the last one least. */
  lemma AtoiOfDigits(s: string, d: char)
    requires Digits(s) && '0' <= d <= '9'
    ensures Atoi("") == 0 && Atoi(s + [d]) == 10 * Atoi(s) + (d as int - 48)
  {
    DigitAppended(s, d, 0);
    assert s != "" ==> (s + [d])[0] == s[0];
  }

  /** What stands around the digits: white space and one sign before them, anything else behind. */
  lemma AtoiOfText(space: string, s: string, rest: string)
    requires Spaces(space) && Digits(s) && (rest == "" || !('0' <= rest[0] <= '9'))
    ensures s != "" ==> Atoi(space + (s + rest)) == Atoi(s)
    ensures Atoi(space + ("-" + (s + rest))) == -Atoi(s) && Atoi(space + ("+" + (s + rest))) == Atoi(s)
    ensures s == "" && (rest == "" || !(rest[0] in "+- " || 9 <= rest[0] as int <= 13)) ==> Atoi(space + rest) == 0
  {
    DigitsOnly(s, rest, 0);
    SpacesSkipped(space, "-" + (s + rest));
    SpacesSkipped(space, "+" + (s + rest));
    if s != "" {
      assert (s + rest)[0] == s[0];
      SpacesSkipped(space, s + rest);
    } else if rest == "" || !(rest[0] in "+- " || 9 <= rest[0] as int <= 13) {
      SpacesSkipped(space, rest);
    }
    assert ("-" + (s + rest))[1..] == s + rest && ("+" + (s + rest))[1..] == s + rest;
  }

  // ---------------------------------------------------------------- closing

  class FdTable {
    var open: set<int>
    var closes: seq<int>

    constructor (open: set<int>)
      ensures this.open == open && closes == []
    {
      this.open, closes := open, [];
    }

    /** `close`; a number that is not open stays so. */
    method Close(fd: int)
      modifies this
      ensures open == old(open) - {fd} && closes == old(closes) + [fd]
    {
      open := open - {fd};
      closes := closes + [fd];
    }
  }

  /** The descriptor that must survive; -1 when the variable is not set. */
  function PropertiesFd(workspace: Option<string>): int {
    if workspace.None? then -1 else Atoi(workspace.value)
  }

  predicate Standard(fd: int) {
    fd <= 2
  }

  /** The listed numbers that the loop closes, in order. */
  function Condemned(names: seq<string>, dirFd: int, properties: int): seq<int> {
    if names == [] then [] else
    var front, fd := names[..|names| - 1], Atoi(names[|names| - 1]);
    Condemned(front, dirFd, properties) + if !Standard(fd) && fd != dirFd && fd != properties then [fd] else []
  }

  function Elements(s: seq<int>): set<int> {
    set x | x in s
  }

  lemma NothingCondemned(names: seq<string>, dirFd: int, properties: int)
    ensures Condemned(names[..0], dirFd, properties) == [] && Elements([]) == {} && names[..|names|] == names
  {
  }

  lemma CondemnedStep(names: seq<string>, i: nat, dirFd: int, properties: int)
    requires i < |names|
    ensures var before, fd := Condemned(names[..i], dirFd, properties), Atoi(names[i]);
            Condemned(names[..i + 1], dirFd, properties)
              == if fd > 2 && fd != dirFd && fd != properties then before + [fd] else before
  {
    hide Atoi;
    assert names[..i + 1][..i] == names[..i];
    var before := Condemned(names[..i], dirFd, properties);
    assert before + [] == before;
  }

  lemma ElementsAppend(s: seq<int>, x: int)
    ensures Elements(s + [x]) == Elements(s) + {x}
  {
  }

  method CloseNonstandard(table: FdTable, workspace: Option<string>, listing: Option<seq<string>>, dirFd: int)
    requires dirFd !in table.open
    modifies table
    ensures listing.None? ==> table.open == old(table.open) && table.closes == old(table.closes)
    ensures listing.Some? ==>
              var condemned := Condemned(listing.value, dirFd, PropertiesFd(workspace));
              && table.closes == old(table.closes) + condemned + [dirFd]
              && table.open == old(table.open) - Elements(condemned)
  {
    hide Atoi;
    hide Condemned;
    hide Elements;
    var propertiesFd := -1;
    if workspace.Some? {
      propertiesFd := Atoi(workspace.value);
    }
    if listing.None? {
      return; // `opendir` failed
    }
    var names := listing.value;
    table.open := table.open + {dirFd};
    NothingCondemned(names, dirFd, propertiesFd);
    for i := 0 to |names|
      invariant table.closes == old(table.closes) + Condemned(names[..i], dirFd, propertiesFd)
      invariant table.open == old(table.open) + {dirFd} - Elements(Condemned(names[..i], dirFd, propertiesFd))
      invariant dirFd !in Condemned(names[..i], dirFd, propertiesFd)
    {
      var fd := Atoi(names[i]);
      CondemnedStep(names, i, dirFd, propertiesFd);
      ElementsAppend(Condemned(names[..i], dirFd, propertiesFd), fd);
      if fd > 2 && fd != dirFd && fd != propertiesFd {
        table.Close(fd);
      }
    }
    table.Close(dirFd);
  }

  // ---------------------------------------------------------------- what stays open

  lemma {:induction false} CondemnedIs(names: seq<string>, dirFd: int, properties: int, fd: int)
    ensures fd in Condemned(names, dirFd, properties)
       <==> fd > 2 && fd != dirFd && fd != properties && exists i :: 0 <= i < |names| && Atoi(names[i]) == fd
  {
    if names != [] {
      var front := names[..|names| - 1];
      CondemnedIs(front, dirFd, properties, fd);
      if exists i :: 0 <= i < |names| && Atoi(names[i]) == fd {
        var i :| 0 <= i < |names| && Atoi(names[i]) == fd;
        assert i < |front| ==> Atoi(front[i]) == fd;
      }
    }
  }

  /** The descriptors meant to survive. */
  function Survivors(open: set<int>, properties: int): set<int> {
    set fd | fd in open && (Standard(fd) || fd == properties)
  }

  /** An open descriptor's name is in the listing. */
  predicate IsListed(fd: int, names: seq<string>) {
    exists i :: 0 <= i < |names| && Atoi(names[i]) == fd
  }

  /** What is left open are exactly the standard descriptors and the one to keep, if and only if
      the listing names every other descriptor that was open. Entries such as `.` and `..`, the
      directory's own descriptor and numbers that are not open do no harm. */
  lemma SurvivorsIffListed(open: set<int>, names: seq<string>, dirFd: int, properties: int)
    requires dirFd !in open
    ensures open - Elements(Condemned(names, dirFd, properties)) == Survivors(open, properties)
       <==> forall fd :: fd in open && fd > 2 && fd != properties ==> IsListed(fd, names)
  {
    forall fd | fd in open
      ensures fd in Condemned(names, dirFd, properties) <==> !Standard(fd) && fd != properties && IsListed(fd, names)
    {
      CondemnedIs(names, dirFd, properties, fd);
    }
    var left, kept := open - Elements(Condemned(names, dirFd, properties)), Survivors(open, properties);
    if forall fd :: fd in open && !Standard(fd) && fd != properties ==> IsListed(fd, names) {
      assert left == kept;
    } else {
      var fd :| fd in open && !Standard(fd) && fd != properties && !IsListed(fd, names);
      assert fd in left && fd !in kept;
    }
  }

  /** A number occurs once among those closed for each time it is listed. */
  lemma {:induction false} ClosedOncePerListing(names: seq<string>, dirFd: int, properties: int)
    requires forall i, j :: 0 <= i < j < |names| ==> Atoi(names[i]) != Atoi(names[j]) || Standard(Atoi(names[i]))
    ensures var c := Condemned(names, dirFd, properties);
            dirFd !in c && forall i, j :: 0 <= i < j < |c| ==> c[i] != c[j]
  {
    CondemnedIs(names, dirFd, properties, dirFd);
    if names != [] {
      var front, fd := names[..|names| - 1], Atoi(names[|names| - 1]);
      ClosedOncePerListing(front, dirFd, properties);
      CondemnedIs(front, dirFd, properties, fd);
    }
  }

  /** The names `/proc/self/fd` has for descriptors, each once, with the two directory entries. */
  function ProcListing(fds: seq<nat>): seq<string> {
    [".", ".."] + seq(|fds|, i requires 0 <= i < |fds| => Decimal(fds[i]))
  }

  lemma NameOf(fds: seq<nat>, i: nat)
    requires i < |fds|
    ensures Atoi(ProcListing(fds)[i + 2]) == fds[i]
  {
    AtoiOfDecimal(fds[i], "");
    assert Decimal(fds[i]) + "" == Decimal(fds[i]);
  }

  lemma DotsAreZero()
    ensures Atoi(".") == 0 && Atoi("..") == 0
  {
  }

  /** For the listing the kernel gives, in any order: exactly the survivors stay open, and every
      other descriptor, the directory's own included, is closed once. */
  lemma ProcListingLeavesSurvivors(open: set<int>, fds: seq<nat>, dirFd: nat, properties: int)
    requires dirFd !in open && Elements(fds) == open + {dirFd}
    requires forall i, j :: 0 <= i < j < |fds| ==> fds[i] != fds[j]
    ensures var c := Condemned(ProcListing(fds), dirFd, properties);
            && open - Elements(c) == Survivors(open, properties)
            && forall i, j :: 0 <= i < j < |c + [dirFd]| ==> (c + [dirFd])[i] != (c + [dirFd])[j]
  {
    var names := ProcListing(fds);
    DotsAreZero();
    hide Atoi;
    hide Decimal;
    forall fd | fd in open
      ensures IsListed(fd, names)
    {
      assert fd in Elements(fds);
      var i :| 0 <= i < |fds| && fds[i] == fd;
      NameOf(fds, i);
    }
    SurvivorsIffListed(open, names, dirFd, properties);
    forall i, j | 0 <= i < j < |names|
      ensures Atoi(names[i]) != Atoi(names[j]) || Standard(Atoi(names[i]))
    {
      if i >= 2 {
        NameOf(fds, i - 2);
        NameOf(fds, j - 2);
      }
    }
    ClosedOncePerListing(names, dirFd, properties);
  }

  /** Numbers are closed in the order of the listing. */
  lemma {:induction false} ClosedInOrder(names: seq<string>, more: seq<string>, dirFd: int, properties: int)
    ensures Condemned(names + more, dirFd, properties)
         == Condemned(names, dirFd, properties) + Condemned(more, dirFd, properties)
  {
    var closed := Condemned(names, dirFd, properties);
    if more == [] {
      assert names + more == names;
      assert closed + [] == closed;
    } else {
      var front, last := more[..|more| - 1], more[|more| - 1];
      assert (names + more)[..|names + more| - 1] == names + front;
      ClosedInOrder(names, front, dirFd, properties);
    }
  }

  /** The text of ANDROID_PROPERTY_WORKSPACE: the descriptor, a comma and a size. */
  function Workspace(keep: Option<nat>, size: string): Option<string> {
    if keep.None? then None else Some(Decimal(keep.value) + "," + size)
  }

  /** What the child is started with, in numbers: of the descriptors that were open, 0, 1 and 2 and the
      one named in the environment, if one is, and no other. */
  lemma ChildKeeps(open: set<int>, fds: seq<nat>, dirFd: nat, keep: Option<nat>, size: string, fd: int)
    requires dirFd !in open && Elements(fds) == open + {dirFd}
    requires forall i, j :: 0 <= i < j < |fds| ==> fds[i] != fds[j]
    ensures var left := open - Elements(Condemned(ProcListing(fds), dirFd, PropertiesFd(Workspace(keep, size))));
            fd in left <==> fd in open && (fd == 0 || fd == 1 || fd == 2 || keep == Some(fd))
  {
    if keep.Some? {
      AtoiOfDecimal(keep.value, "," + size);
      assert Decimal(keep.value) + "," + size == Decimal(keep.value) + ("," + size);
    }
    assert fd in open ==> fd in Elements(fds);
    ProcListingLeavesSurvivors(open, fds, dirFd, PropertiesFd(Workspace(keep, size)));
  }
}
