/** The globals `conn` and `ser_fd` over whole runs of `TermWebSocket_socket`, `_accept` and `_run`:
    how often the descriptor that each call was handed is closed.
 */
module Lifecycle {
  import opened Bytes

  const ERROR_FD: int := -999

  // ---------------------------------------------------------------- the state

  /** The two globals and the `close` calls made so far. */
  datatype Fds = Fds(conn: int, serFd: int, closed: seq<int>)

  /** A call that changes the globals, with the descriptor the system hands out, or -1.
      `setupFailed` is `passive_server` closing the socket it was given. */
  datatype Event = Socket(fd: int, setupFailed: bool) | Accept(fd: int) | Run

  const START: Fds := Fds(ERROR_FD, ERROR_FD, [])

  /** What `TermWebSocket_run` closes: a descriptor is closed unless it is marked as none. */
  function CloseIfOpen(fd: int): seq<int> {
    if fd != ERROR_FD then [fd] else []
  }

  function Step(s: Fds, e: Event): Fds {
    match e
    case Socket(fd, setupFailed) => s.(serFd := fd, closed := if setupFailed then s.closed + [fd] else s.closed)
    case Accept(fd) => s.(conn := fd)
    case Run => Fds(ERROR_FD, ERROR_FD, s.closed + CloseIfOpen(s.conn) + CloseIfOpen(s.serFd))
  }

  function After(es: seq<Event>): Fds {
    if es == [] then START else Step(After(es[..|es| - 1]), es[|es| - 1])
  }

  /** The system never hands out the number that marks a missing descriptor. */
  predicate Real(es: seq<Event>) {
    forall i :: 0 <= i < |es| ==> !es[i].Run? ==> es[i].fd >= -1
  }

  // ---------------------------------------------------------------- which call a number came from

  /** The same state with every number replaced by the index of the call that was handed it. Numbers
      are handed out again after they were closed; indices are not. */
  datatype Trace = Trace(conn: Option<nat>, serFd: Option<nat>, closed: seq<nat>)

  function IfSome(i: Option<nat>): seq<nat> {
    if i.Some? then [i.value] else []
  }

  function TraceStep(t: Trace, e: Event, i: nat): Trace {
    match e
    case Socket(_, setupFailed) => t.(serFd := Some(i), closed := if setupFailed then t.closed + [i] else t.closed)
    case Accept(_) => t.(conn := Some(i))
    case Run => Trace(None, None, t.closed + IfSome(t.conn) + IfSome(t.serFd))
  }

  function Traced(es: seq<Event>): Trace {
    if es == [] then Trace(None, None, []) else TraceStep(Traced(es[..|es| - 1]), es[|es| - 1], |es| - 1)
  }

  /** The index of a call that was handed a descriptor. */
  predicate IsCall(es: seq<Event>, i: nat) {
    i < |es| && !es[i].Run?
  }

  predicate Traces(es: seq<Event>, t: Trace) {
    && (t.conn.Some? ==> IsCall(es, t.conn.value))
    && (t.serFd.Some? ==> IsCall(es, t.serFd.value))
    && forall k :: 0 <= k < |t.closed| ==> IsCall(es, t.closed[k])
  }

  function NumberOf(es: seq<Event>, i: Option<nat>): int
    requires i.Some? ==> IsCall(es, i.value)
  {
    if i.Some? then es[i.value].fd else ERROR_FD
  }

  /** The state that a trace stands for. */
  function Numbers(es: seq<Event>, t: Trace): Fds
    requires Traces(es, t)
  {
    Fds(NumberOf(es, t.conn), NumberOf(es, t.serFd),
        seq(|t.closed|, k requires 0 <= k < |t.closed| => es[t.closed[k]].fd))
  }

  /** The trace of a run stands for the state of the run. */
  lemma {:induction false} TraceIsOfRun(es: seq<Event>)
    requires Real(es)
    ensures Traces(es, Traced(es)) && Numbers(es, Traced(es)) == After(es)
  {
    hide Step;
    hide TraceStep;
    if es != [] {
      var last := |es| - 1;
      TraceIsOfRun(es[..last]);
      SameNumbers(es[..last], es[last], Traced(es[..last]));
      StepOfTrace(es, Traced(es[..last]));
      assert es[..last] + [es[last]] == es;
    }
  }

  lemma SameNumbers(es: seq<Event>, e: Event, t: Trace)
    requires Traces(es, t)
    ensures Traces(es + [e], t) && Numbers(es + [e], t) == Numbers(es, t)
  {
  }

  lemma StepOfTrace(es: seq<Event>, t: Trace)
    requires es != [] && Traces(es, t) && Real(es)
    ensures var e, t' := es[|es| - 1], TraceStep(t, es[|es| - 1], |es| - 1);
            Traces(es, t') && Numbers(es, t') == Step(Numbers(es, t), e)
  {
  }

  // ---------------------------------------------------------------- how often each is closed

  /** How often the descriptor that call i was handed is passed to `close`. */
  function Closes(es: seq<Event>, i: nat): nat {
    multiset(Traced(es).closed)[i]
  }

  /** The second call stores its descriptor where the first stored its own. */
  predicate SameGlobal(a: Event, b: Event) {
    (a.Socket? && b.Socket?) || (a.Accept? && b.Accept?)
  }

  /** The descriptor of call i is in its global when the run at k ends. */
  predicate HeldAt(es: seq<Event>, i: nat, k: nat) {
    i < k < |es| && es[k].Run? && forall j :: i < j < k ==> !SameGlobal(es[i], es[j])
  }

  /** A run ends later, before another call of its kind replaces the descriptor. */
  predicate ReachesRun(es: seq<Event>, i: nat) {
    exists k :: 0 <= k < |es| && HeldAt(es, i, k)
  }

  predicate SetupFailed(e: Event) {
    e.Socket? && e.setupFailed
  }

  /** The descriptor of call i is still in its global. */
  predicate Kept(es: seq<Event>, i: nat) {
    IsCall(es, i) && forall j :: i < j < |es| ==> !es[j].Run? && !SameGlobal(es[i], es[j])
  }

  lemma HeldBefore(es: seq<Event>, i: nat, k: nat)
    requires k < |es| - 1
    ensures HeldAt(es, i, k) <==> HeldAt(es[..|es| - 1], i, k)
  {
    if i < k {
      assert forall j :: i <= j <= k ==> es[..|es| - 1][j] == es[j];
    }
  }

  /** What one more call changes for an earlier one. */
  lemma OneMore(es: seq<Event>, i: nat)
    requires IsCall(es, i) && i < |es| - 1
    ensures var before, e := es[..|es| - 1], es[|es| - 1];
            && IsCall(before, i)
            && ReachesRun(es, i) == (ReachesRun(before, i) || (e.Run? && Kept(before, i)))
            && !(ReachesRun(before, i) && Kept(before, i))
            && Kept(es, i) == (Kept(before, i) && !e.Run? && !SameGlobal(es[i], e))
  {
    var before, last := es[..|es| - 1], |es| - 1;
    forall k | 0 <= k < last
      ensures HeldAt(es, i, k) <==> HeldAt(before, i, k)
    {
      HeldBefore(es, i, k);
    }
    if HeldAt(es, i, last) && !Kept(before, i) {
      var j :| i < j < last && es[j].Run?;
      assert HeldAt(before, i, j);
    }
    if es[last].Run? && Kept(before, i) {
      assert HeldAt(es, i, last);
    }
  }

  /** What one step closes of call i, seen from where its descriptor is held. */
  lemma StepCloses(t: Trace, e: Event, n: nat, i: nat)
    ensures multiset(TraceStep(t, e, n).closed)[i] == multiset(t.closed)[i]
         + (if SetupFailed(e) && i == n then 1 else 0)
         + (if e.Run? && t.conn == Some(i) then 1 else 0)
         + (if e.Run? && t.serFd == Some(i) then 1 else 0)
  {
  }

  /** The global in which call i left its descriptor. */
  function Global(e: Event, t: Trace): Option<nat> {
    if e.Accept? then t.conn else t.serFd
  }

  /** Over every run: the descriptor of a call is closed once if a run ends before it is replaced,
      and once more if its setup failed. */
  lemma {:induction false} CloseCount(es: seq<Event>, i: nat)
    requires IsCall(es, i)
    ensures Closes(es, i) == (if SetupFailed(es[i]) then 1 else 0) + (if ReachesRun(es, i) then 1 else 0)
    ensures Kept(es, i) <==> Global(es[i], Traced(es)) == Some(i)
  {
    hide ReachesRun;
    hide Kept;
    hide TraceStep;
    var before, e, last := es[..|es| - 1], es[|es| - 1], |es| - 1;
    TraceRange(before);
    StepCloses(Traced(before), e, last, i);
    StepGlobal(Traced(before), e, last, es[i]);
    if i < last {
      CloseCount(before, i);
      OneMore(es, i);
    } else {
      NotYetClosed(Traced(before).closed, i);
      LastCall(es);
    }
  }

  lemma StepGlobal(t: Trace, e: Event, n: nat, call: Event)
    requires !call.Run?
    ensures Global(call, TraceStep(t, e, n))
         == if e.Run? then None else if SameGlobal(call, e) then Some(n) else Global(call, t)
  {
  }

  lemma NotYetClosed(closed: seq<nat>, i: nat)
    requires forall k :: 0 <= k < |closed| ==> closed[k] < i
    ensures multiset(closed)[i] == 0
  {
  }

  lemma LastCall(es: seq<Event>)
    requires es != [] && !es[|es| - 1].Run?
    ensures Kept(es, |es| - 1) && !ReachesRun(es, |es| - 1)
  {
  }

  lemma {:induction false} TraceRange(es: seq<Event>)
    ensures Traces(es, Traced(es))
    ensures Traced(es).conn.Some? ==> es[Traced(es).conn.value].Accept?
    ensures Traced(es).serFd.Some? ==> es[Traced(es).serFd.value].Socket?
  {
    if es != [] {
      TraceRange(es[..|es| - 1]);
    }
  }

  /** A call that was handed a descriptor. */
  predicate Opens(es: seq<Event>, i: nat) {
    IsCall(es, i) && es[i].fd >= 0
  }

  /** Every descriptor is closed exactly once if and only if each one reaches the end of a run before
      it is replaced, apart from those whose setup failed, which must not. */
  lemma ClosedOnceIff(es: seq<Event>)
    ensures (forall i :: 0 <= i < |es| && Opens(es, i) ==> Closes(es, i) == 1)
       <==> (forall i :: 0 <= i < |es| && Opens(es, i) ==> (ReachesRun(es, i) <==> !SetupFailed(es[i])))
  {
    hide Closes;
    hide ReachesRun;
    forall i | 0 <= i < |es| && Opens(es, i)
      ensures Closes(es, i) == 1 <==> (ReachesRun(es, i) <==> !SetupFailed(es[i]))
    {
      CloseCount(es, i);
    }
  }

  /** The calls of one terminal after the other, as `openTerminalResponse` and its thread make them:
      socket, accept, run, or a socket alone when the port it got is the error number. */
  predicate InTurn(es: seq<Event>) {
    forall i :: 0 <= i < |es| ==> TurnAt(es, i)
  }

  predicate TurnAt(es: seq<Event>, i: nat)
    requires i < |es|
  {
    match es[i]
    case Socket(_, failed) => AcceptedFrom(es, i) || (failed && (i + 1 < |es| ==> es[i + 1].Socket?))
    case Accept(_) => i > 0 && es[i - 1].Socket? && i + 1 < |es| && es[i + 1].Run?
    case Run => i > 0 && es[i - 1].Accept?
  }

  predicate AcceptedFrom(es: seq<Event>, i: nat) {
    i + 1 < |es| && es[i + 1].Accept?
  }

  /** For terminals that do not overlap, every descriptor is closed exactly once if and only if no
      socket whose setup failed is accepted from; setup that fails in `listen` is reported as a port
      and leads there. */
  lemma InTurnClosedOnceIff(es: seq<Event>)
    requires InTurn(es)
    ensures (forall i :: 0 <= i < |es| && Opens(es, i) ==> Closes(es, i) == 1)
       <==> (forall i :: 0 <= i < |es| && Opens(es, i) && SetupFailed(es[i]) ==> !AcceptedFrom(es, i))
  {
    hide Closes;
    hide ReachesRun;
    ClosedOnceIff(es);
    forall i | 0 <= i < |es| && Opens(es, i)
      ensures (ReachesRun(es, i) <==> !SetupFailed(es[i])) <==> !(SetupFailed(es[i]) && AcceptedFrom(es, i))
    {
      assert TurnAt(es, i);
      ReachesInTurn(es, i);
    }
  }

  lemma ReachesInTurn(es: seq<Event>, i: nat)
    requires InTurn(es) && IsCall(es, i)
    ensures ReachesRun(es, i) <==> es[i].Accept? || AcceptedFrom(es, i)
  {
    assert TurnAt(es, i);
    if es[i].Accept? {
      assert HeldAt(es, i, i + 1);
    } else if AcceptedFrom(es, i) {
      assert TurnAt(es, i + 1);
      assert HeldAt(es, i, i + 2);
    } else if i + 1 < |es| {
      assert SameGlobal(es[i], es[i + 1]);
    }
  }

  /** One terminal behind any run: the connection is closed first, then the listening socket, and
      neither is left behind for a second run to close. */
  lemma OneTerminal(es: seq<Event>, serFd: int, conn: int)
    requires serFd >= -1 && conn >= -1
    ensures var after := After(es + [Socket(serFd, false)] + [Accept(conn)] + [Run]);
            after.closed == After(es).closed + [conn, serFd]
            && After(es + [Socket(serFd, false)] + [Accept(conn)] + [Run] + [Run]) == after
  {
    AfterAppend(es, Socket(serFd, false));
    AfterAppend(es + [Socket(serFd, false)], Accept(conn));
    AfterAppend(es + [Socket(serFd, false)] + [Accept(conn)], Run);
    AfterAppend(es + [Socket(serFd, false)] + [Accept(conn)] + [Run], Run);
  }

  lemma AfterAppend(es: seq<Event>, e: Event)
    ensures After(es + [e]) == Step(After(es), e)
  {
    assert (es + [e])[..|es|] == es;
  }

  // ---------------------------------------------------------------- examples

  lemma AfterOneMore(es: seq<Event>, k: nat)
    requires k < |es|
    ensures es[..0] == [] && es[..|es|] == es && After([]) == START
    ensures After(es[..k + 1]) == Step(After(es[..k]), es[k])
  {
    assert es[..k + 1][..k] == es[..k];
  }

  /** A socket whose setup failed is closed a second time by the run that follows. */
  lemma TwiceClosedExample()
    ensures var es := [Socket(5, true), Run];
            Closes(es, 0) == 2 && After(es).closed == [5, 5]
  {
    hide Closes;
    hide After;
    var es := [Socket(5, true), Run];
    AfterOneMore(es, 0);
    AfterOneMore(es, 1);
    assert After(es[..1]) == Fds(ERROR_FD, 5, [5]);
    assert HeldAt(es, 0, 1);
    CloseCount(es, 0);
  }

  /** Numbers do not show it: here 5 is handed out twice and closed twice, but both times for the call
      that was handed it first, and the second descriptor of that number stays open for good. */
  lemma ReissuedNumberExample()
    ensures var es := [Socket(5, true), Run, Socket(5, false), Socket(6, false), Run];
            && Closes(es, 0) == 2 && Closes(es, 2) == 0 && Closes(es, 3) == 1
            && After(es).closed == [5, 5, 6]
  {
    hide Closes;
    hide After;
    var es := [Socket(5, true), Run, Socket(5, false), Socket(6, false), Run];
    AfterOneMore(es, 0);
    AfterOneMore(es, 1);
    AfterOneMore(es, 2);
    AfterOneMore(es, 3);
    AfterOneMore(es, 4);
    assert After(es[..1]) == Fds(ERROR_FD, 5, [5]);
    assert After(es[..2]) == Fds(ERROR_FD, ERROR_FD, [5, 5]);
    assert After(es[..4]) == Fds(ERROR_FD, 6, [5, 5]);
    assert HeldAt(es, 0, 1) && HeldAt(es, 3, 4);
    assert SameGlobal(es[2], es[3]);
    CloseCount(es, 0);
    CloseCount(es, 2);
    CloseCount(es, 3);
  }
}
