/**
  The shutdown protocol: a flag that is only ever set, and a read/write lock whose readers are the
  pieces of work in progress. Every atomic action of `hold`, of a guard's owner, of
  `close_and_wait` and of `is_idle` is one event; any number of each may interleave.
*/
module Shutdown {
  import opened Text

  // ---------- state ----------

  /** Where one piece of work stands between asking for a guard and giving its permit back. */
  datatype Phase =
    | Outside                    // no permit: not asked, refused, or finished
    | Checking                   // has the read permit, has not tested the flag
    | Holding                    // asynchronous work with a guard, between two polls
    | Queued                     // blocking work with a guard, waiting for a thread
    | Running(blocking: bool)    // code of the work is executing under its guard
    | Leaving                    // guard given up, permit not yet back

  datatype Closer = Idle | Waiting | Locked | Returned

  datatype Owner = Trigger(closer: nat) | Probe(caller: nat)

  datatype State = State(
    closed: bool,
    readers: set<nat>,
    writer: Option<Owner>,
    phases: map<nat, Phase>,
    closers: map<nat, Closer>)

  const OPEN: State := State(false, {}, None, map[], map[])

  function PhaseOf(s: State, w: nat): Phase {
    if w in s.phases then s.phases[w] else Outside
  }

  function CloserOf(s: State, c: nat): Closer {
    if c in s.closers then s.closers[c] else Idle
  }

  function Moved(s: State, w: nat, p: Phase): State {
    s.(phases := s.phases[w := p])
  }

  datatype Event =
    | TryRead(w: nat)                  // try_read_owned succeeds
    | Refused(w: nat)                  // try_read_owned fails
    | Test(w: nat, blocking: bool)     // is_closed inside hold
    | Poll(w: nat)                     // until_closed: the flag is looked at first
    | Start(w: nat)                    // a thread takes up queued blocking work, without a look at the flag
    | Work(w: nat)                     // one action of the guarded code
    | Suspend(w: nat)                  // the guarded future returns Pending
    | Finish(w: nat)                   // the guarded code is done
    | Abandon(w: nat)                  // the guarded future is dropped between polls
    | Release(w: nat)                  // the read permit goes back
    | CloseOnly                        // close_connections on its own
    | SetFlag(c: nat)                  // close_and_wait: close_connections
    | LockWrite(c: nat)                // close_and_wait: the write lock is granted
    | UnlockWrite(c: nat)              // close_and_wait: the write guard is dropped, the call returns
    | ProbeLock(p: nat)                // is_idle: try_write succeeds
    | ProbeUnlock(p: nat)              // is_idle: the write guard is dropped

  predicate Enabled(s: State, e: Event) {
    match e
    case TryRead(w) => PhaseOf(s, w) == Outside && s.writer == None
    case Refused(w) => PhaseOf(s, w) == Outside
    case Test(w, _) => PhaseOf(s, w) == Checking
    case Poll(w) => PhaseOf(s, w) == Holding
    case Start(w) => PhaseOf(s, w) == Queued
    case Work(w) => PhaseOf(s, w).Running?
    case Suspend(w) => PhaseOf(s, w) == Running(false)
    case Finish(w) => PhaseOf(s, w).Running?
    case Abandon(w) => PhaseOf(s, w) == Holding
    case Release(w) => PhaseOf(s, w) == Leaving
    case CloseOnly => true
    case SetFlag(c) => CloserOf(s, c) == Idle
    case LockWrite(c) => CloserOf(s, c) == Waiting && s.readers == {} && s.writer == None
    case UnlockWrite(c) => CloserOf(s, c) == Locked
    case ProbeLock(p) => s.readers == {} && s.writer == None
    case ProbeUnlock(p) => s.writer == Some(Probe(p))
  }

  function Next(s: State, e: Event): State {
    match e
    case TryRead(w) => Moved(s, w, Checking).(readers := s.readers + {w})
    case Refused(w) => s
    case Test(w, blocking) => Moved(s, w, if s.closed then Leaving else if blocking then Queued else Holding)
    case Poll(w) => Moved(s, w, if s.closed then Leaving else Running(false))
    case Start(w) => Moved(s, w, Running(true))
    case Work(w) => s
    case Suspend(w) => Moved(s, w, Holding)
    case Finish(w) => Moved(s, w, Leaving)
    case Abandon(w) => Moved(s, w, Leaving)
    case Release(w) => Moved(s, w, Outside).(readers := s.readers - {w})
    case CloseOnly => s.(closed := true)
    case SetFlag(c) => s.(closed := true, closers := s.closers[c := Waiting])
    case LockWrite(c) => s.(writer := Some(Trigger(c)), closers := s.closers[c := Locked])
    case UnlockWrite(c) => s.(writer := None, closers := s.closers[c := Returned])
    case ProbeLock(p) => s.(writer := Some(Probe(p)))
    case ProbeUnlock(p) => s.(writer := None)
  }

  // ---------- runs ----------

  predicate Legal(s: State, run: seq<Event>)
    decreases |run|
  {
    run == [] || (Enabled(s, run[0]) && Legal(Next(s, run[0]), run[1..]))
  }

  function Exec(s: State, run: seq<Event>): State
    decreases |run|
  {
    if run == [] then s else Exec(Next(s, run[0]), run[1..])
  }

  lemma {:induction false} LegalConcat(s: State, a: seq<Event>, b: seq<Event>)
    ensures Legal(s, a + b) <==> Legal(s, a) && Legal(Exec(s, a), b)
    ensures Exec(s, a + b) == Exec(Exec(s, a), b)
    decreases |a|
  {
    if a == [] {
      assert a + b == b;
    } else {
      assert (a + b)[1..] == a[1..] + b;
      LegalConcat(Next(s, a[0]), a[1..], b);
    }
  }

  // ---------- the invariant ----------

  /** A guard exists: work may run. */
  predicate Guarded(s: State, w: nat) {
    PhaseOf(s, w) == Holding || PhaseOf(s, w) == Queued || PhaseOf(s, w).Running?
  }

  predicate PastTheLock(s: State, c: nat) {
    CloserOf(s, c) == Locked || CloserOf(s, c) == Returned
  }

  ghost predicate Inv(s: State) {
    && (forall w :: w in s.readers <==> PhaseOf(s, w) != Outside)
    && (s.writer != None ==> s.readers == {})
    && (forall c :: CloserOf(s, c) == Locked <==> s.writer == Some(Trigger(c)))
    && (forall c :: CloserOf(s, c) != Idle ==> s.closed)
    && (forall c, w {:trigger PastTheLock(s, c), Guarded(s, w)} :: PastTheLock(s, c) ==> !Guarded(s, w))
  }

  lemma NextKeepsInv(s: State, e: Event)
    requires Inv(s) && Enabled(s, e)
    ensures Inv(Next(s, e))
  {
    var t := Next(s, e);
    forall c, w | PastTheLock(t, c) ensures !Guarded(t, w) {
      GuardOrigin(s, e, w);
      assert PastTheLock(s, c) || s.readers == {};
    }
  }

  lemma GuardOrigin(s: State, e: Event, w: nat)
    requires Enabled(s, e)
    ensures Guarded(Next(s, e), w) ==> Guarded(s, w) || (e.Test? && e.w == w && !s.closed)
  {
  }

  lemma {:induction false} RunKeepsInv(s: State, run: seq<Event>)
    requires Inv(s) && Legal(s, run)
    ensures Inv(Exec(s, run))
    decreases |run|
  {
    if run != [] {
      NextKeepsInv(s, run[0]);
      RunKeepsInv(Next(s, run[0]), run[1..]);
    }
  }

  // ---------- safety ----------

  lemma {:induction false} FlagAndReturnStay(s: State, run: seq<Event>, c: nat)
    requires Inv(s) && Legal(s, run)
    ensures s.closed ==> Exec(s, run).closed
    ensures CloserOf(s, c) == Returned ==> CloserOf(Exec(s, run), c) == Returned
    decreases |run|
  {
    if run != [] {
      NextKeepsInv(s, run[0]);
      FlagAndReturnStay(Next(s, run[0]), run[1..], c);
    }
  }

  /** This event hands out a guard, or runs guarded code. */
  predicate UsesGuard(s: State, e: Event) {
    e.Start? || e.Work? || e.Suspend? || e.Finish? || ((e.Test? || e.Poll?) && !s.closed)
  }

  /**
    Shutdown safety: in every run, once some `close_and_wait` has returned, no guard is live, none
    is handed out, and no guarded code runs, at any later point.
  */
  lemma QuietAfterReturn(run: seq<Event>, k: nat, c: nat)
    requires Legal(OPEN, run) && k < |run| && CloserOf(Exec(OPEN, run[..k]), c) == Returned
    ensures forall w :: !Guarded(Exec(OPEN, run[..k]), w)
    ensures forall j :: k <= j < |run| ==> !UsesGuard(Exec(OPEN, run[..j]), run[j])
    ensures forall j, w :: k <= j <= |run| ==> !Guarded(Exec(OPEN, run[..j]), w)
  {
    forall j | k <= j <= |run|
      ensures j < |run| ==> !UsesGuard(Exec(OPEN, run[..j]), run[j])
      ensures forall w :: !Guarded(Exec(OPEN, run[..j]), w)
    {
      QuietAt(run, k, j, c);
    }
  }

  lemma QuietAt(run: seq<Event>, k: nat, j: nat, c: nat)
    requires Legal(OPEN, run) && k <= j <= |run| && CloserOf(Exec(OPEN, run[..k]), c) == Returned
    ensures forall w :: !Guarded(Exec(OPEN, run[..j]), w)
    ensures j < |run| ==> !UsesGuard(Exec(OPEN, run[..j]), run[j])
  {
    hide Next, Enabled, Exec, Legal;
    EnabledAt(run, k);
    EnabledAt(run, j);
    assert run[..j] == run[..k] + run[k..j];
    LegalConcat(OPEN, run[..k], run[k..j]);
    RunKeepsInv(OPEN, run[..k]);
    RunKeepsInv(OPEN, run[..j]);
    var s := Exec(OPEN, run[..j]);
    FlagAndReturnStay(Exec(OPEN, run[..k]), run[k..j], c);
    assert PastTheLock(s, c);
    if j < |run| && UsesGuard(s, run[j]) { GuardNeeded(s, run[j]); }
  }

  lemma GuardNeeded(s: State, e: Event)
    requires Enabled(s, e) && UsesGuard(s, e) && s.closed
    ensures exists w :: Guarded(s, w)
  {
    assert Guarded(s, e.w);
  }

  lemma EnabledAt(run: seq<Event>, k: nat)
    requires Legal(OPEN, run) && k <= |run|
    ensures Legal(OPEN, run[..k])
    ensures k < |run| ==> Enabled(Exec(OPEN, run[..k]), run[k])
  {
    assert run == run[..k] + run[k..];
    LegalConcat(OPEN, run[..k], run[k..]);
  }

  // ---------- before the flag, work runs ----------

  /** One piece of work from its permit to giving it back, with one action in between. */
  function WholeStay(w: nat, blocking: bool): seq<Event> {
    [TryRead(w), Test(w, blocking), if blocking then Start(w) else Poll(w), Work(w), Finish(w), Release(w)]
  }

  /** Work on its way: the phase it is in, with its permit. */
  function Inside(s: State, w: nat, p: Phase): State {
    Moved(s, w, p).(readers := s.readers + {w})
  }

  lemma StayStep(s: State, w: nat, blocking: bool)
    requires !s.closed && s.writer == None && PhaseOf(s, w) == Outside && w !in s.readers
    ensures Enabled(s, TryRead(w)) && Next(s, TryRead(w)) == Inside(s, w, Checking)
    ensures var guarded := if blocking then Queued else Holding;
      var go := if blocking then Start(w) else Poll(w);
      && Enabled(Inside(s, w, Checking), Test(w, blocking))
      && Next(Inside(s, w, Checking), Test(w, blocking)) == Inside(s, w, guarded)
      && Enabled(Inside(s, w, guarded), go) && Next(Inside(s, w, guarded), go) == Inside(s, w, Running(blocking))
  {
  }

  lemma StayEnds(s: State, w: nat, blocking: bool)
    requires PhaseOf(s, w) == Outside && w !in s.readers
    ensures var running, leaving := Inside(s, w, Running(blocking)), Inside(s, w, Leaving);
      && Enabled(running, Work(w)) && Next(running, Work(w)) == running
      && Enabled(running, Finish(w)) && Next(running, Finish(w)) == leaving
      && Enabled(leaving, Release(w)) && Next(leaving, Release(w)) == Moved(s, w, Outside)
  {
    assert s.readers + {w} - {w} == s.readers;
  }

  /**
    While nothing closes and no writer has the lock, work of either kind gets its permit and its guard,
    runs, and gives the permit back; then everything is as before.
  */
  lemma OpenWorkRuns(s: State, w: nat, blocking: bool)
    requires !s.closed && s.writer == None && PhaseOf(s, w) == Outside && w !in s.readers
    ensures Legal(s, WholeStay(w, blocking))
    ensures var t := Exec(s, WholeStay(w, blocking));
      && t == Moved(s, w, Outside) && forall v :: PhaseOf(t, v) == PhaseOf(s, v)
  {
    StayStep(s, w, blocking);
    StayEnds(s, w, blocking);
    var run, end := WholeStay(w, blocking), Moved(s, w, Outside);
    hide Next, Enabled, Legal, Exec, Moved;
    assert run[6..] == [];
    NothingDone(end);
    UnfoldRun(Inside(s, w, Leaving), run, 5);
    UnfoldRun(Inside(s, w, Running(blocking)), run, 4);
    UnfoldRun(Inside(s, w, Running(blocking)), run, 3);
    UnfoldRun(Inside(s, w, if blocking then Queued else Holding), run, 2);
    UnfoldRun(Inside(s, w, Checking), run, 1);
    UnfoldRun(s, run, 0);
    assert run[0..] == run;
    SamePhases(s, w);
  }

  lemma SamePhases(s: State, w: nat)
    requires PhaseOf(s, w) == Outside
    ensures forall v :: PhaseOf(Moved(s, w, Outside), v) == PhaseOf(s, v)
  {
  }

  lemma UnfoldRun(s: State, run: seq<Event>, k: nat)
    requires k < |run|
    ensures Legal(s, run[k..]) <==> Enabled(s, run[k]) && Legal(Next(s, run[k]), run[k + 1..])
    ensures Exec(s, run[k..]) == Exec(Next(s, run[k]), run[k + 1..])
  {
    assert run[k..][1..] == run[k + 1..];
  }

  // ---------- what the flag alone stops ----------

  /** The work's code is executing, or a thread will take it up without looking at the flag. */
  predicate Underway(s: State, w: nat) {
    PhaseOf(s, w).Running? || PhaseOf(s, w) == Queued
  }

  /**
    The flag is looked at before every poll, so asynchronous work suspended when it is set, and work
    without a guard, never executes again. Blocking work that has its guard runs on, even from the queue.
  */
  lemma {:induction false} StoppedStays(s: State, run: seq<Event>, w: nat)
    requires s.closed && Legal(s, run) && !Underway(s, w)
    ensures !Underway(Exec(s, run), w)
    ensures Work(w) !in run
    decreases |run|
  {
    if run != [] {
      StoppedStays(Next(s, run[0]), run[1..], w);
      assert run == [run[0]] + run[1..];
    }
  }

  /**
    After the flag is set, an action of some work belongs to a stretch of execution that was under
    way ever since, or to blocking work that had its guard and was waiting for a thread.
  */
  lemma WorkOutlivesTheFlagOnlyIfUnderway(s: State, run: seq<Event>, k: nat, i: nat, w: nat)
    requires s.closed && Legal(s, run) && i <= k < |run| && run[k] == Work(w)
    ensures Underway(Exec(s, run[..i]), w)
  {
    hide Next, Enabled, Exec, Legal;
    assert run == run[..i] + run[i..];
    LegalConcat(s, run[..i], run[i..]);
    var t := Exec(s, run[..i]);
    ClosedStays(s, run[..i]);
    assert run[i..][k - i] == Work(w);
    if !Underway(t, w) {
      StoppedStays(t, run[i..], w);
    }
  }

  lemma {:induction false} ClosedStays(s: State, run: seq<Event>)
    requires s.closed && Legal(s, run)
    ensures Exec(s, run).closed
    decreases |run|
  {
    if run != [] { ClosedStays(Next(s, run[0]), run[1..]); }
  }

  // ---------- close_and_wait can always return ----------

  /** What remains for one reader once the flag is set: stop, then give the permit back. */
  function Departure(s: State, w: nat): seq<Event> {
    match PhaseOf(s, w)
    case Outside => []
    case Checking => [Test(w, false), Release(w)]
    case Holding => [Poll(w), Release(w)]
    case Queued => [Start(w), Finish(w), Release(w)]
    case Running(_) => [Finish(w), Release(w)]
    case Leaving => [Release(w)]
  }

  lemma DepartureWorks(s: State, w: nat)
    requires Inv(s) && s.closed && w in s.readers
    ensures Legal(s, Departure(s, w))
    ensures var t := Exec(s, Departure(s, w));
            Inv(t) && t.closed && t.readers == s.readers - {w} && t.writer == s.writer && t.closers == s.closers
  {
    var run := Departure(s, w);
    if PhaseOf(s, w) == Leaving {
      assert run[1..] == [];
      assert Exec(Next(s, run[0]), []) == Next(s, run[0]);
    } else if PhaseOf(s, w) == Queued {
      assert run[1..] == [Finish(w), Release(w)] && run[1..][1..] == [Release(w)] && run[1..][1..][1..] == [];
      var s1 := Next(s, run[0]);
      var s2 := Next(s1, Finish(w));
      var s3 := Next(s2, Release(w));
      assert Exec(s2, run[1..][1..]) == Exec(s3, []) == s3 && Exec(s1, run[1..]) == s3;
      assert Legal(s3, []) && Legal(s2, run[1..][1..]) && Legal(s1, run[1..]);
    } else {
      assert run[1..] == [Release(w)] && run[1..][1..] == [];
      var s1 := Next(s, run[0]);
      var s2 := Next(s1, Release(w));
      assert Exec(s1, run[1..]) == Exec(s2, []) == s2;
      assert Legal(s2, []) && Legal(s1, run[1..]);
    }
    RunKeepsInv(s, run);
  }

  lemma {:induction false} Drain(s: State) returns (run: seq<Event>)
    requires Inv(s) && s.closed
    ensures Legal(s, run) && forall e :: e in run ==> !e.Work?
    ensures var t := Exec(s, run);
            Inv(t) && t.closed && t.readers == {} && t.writer == s.writer && t.closers == s.closers
    decreases |s.readers|
  {
    hide Next, Enabled, Inv, Exec, Legal;
    if s.readers == {} {
      run := [];
      NothingDone(s);
    } else {
      var w :| w in s.readers;
      DepartureWorks(s, w);
      var t := Exec(s, Departure(s, w));
      assert |t.readers| < |s.readers|;
      var rest := Drain(t);
      run := Departure(s, w) + rest;
      LegalConcat(s, Departure(s, w), rest);
    }
  }

  lemma NothingDone(s: State)
    ensures Legal(s, []) && Exec(s, []) == s
  {
  }

  /** One event as a run of its own. */
  lemma OneEvent(s: State, e: Event)
    requires Inv(s) && Enabled(s, e)
    ensures Legal(s, [e]) && Exec(s, [e]) == Next(s, e) && Inv(Next(s, e))
  {
    NextKeepsInv(s, e);
    assert [e][1..] == [];
    NothingDone(Next(s, e));
  }

  /**
    No stuck shutdown: from every state in which a `close_and_wait` is under way, it can return by
    letting each holder stop and give its permit back, with no further action of any work.
  */
  lemma CloseCanReturn(s: State, c: nat) returns (run: seq<Event>)
    requires Inv(s) && (CloserOf(s, c) == Waiting || CloserOf(s, c) == Locked)
    ensures Legal(s, run) && CloserOf(Exec(s, run), c) == Returned
    ensures forall e :: e in run ==> !e.Work?
  {
    hide Exec, Legal, Next, Enabled, Inv;
    var free := FreeWriter(s);
    var s1 := Exec(s, free);
    ClosingMeansClosed(s, c);
    run := free;
    if CloserOf(s1, c) != Returned {
      var drain := Drain(s1);
      var s2 := Exec(s1, drain);
      TakeTurn(s2, c);
      var turn := [LockWrite(c), UnlockWrite(c)];
      run := free + (drain + turn);
      LegalConcat(s1, drain, turn);
      LegalConcat(s, free, drain + turn);
    }
  }

  lemma ClosingMeansClosed(s: State, c: nat)
    requires Inv(s) && CloserOf(s, c) != Idle
    ensures s.closed
  {
  }

  /** Whoever has the write lock can let go of it at once. */
  lemma FreeWriter(s: State) returns (run: seq<Event>)
    requires Inv(s)
    ensures Legal(s, run) && forall e :: e in run ==> !e.Work?
    ensures var t := Exec(s, run); Inv(t) && t.writer == None && t.closed == s.closed
    ensures var t := Exec(s, run);
            forall c :: CloserOf(t, c) == if CloserOf(s, c) == Locked then Returned else CloserOf(s, c)
  {
    match s.writer
    case None =>
      run := [];
      NothingDone(s);
    case Some(Trigger(c)) =>
      run := [UnlockWrite(c)];
      OneEvent(s, UnlockWrite(c));
    case Some(Probe(p)) =>
      run := [ProbeUnlock(p)];
      OneEvent(s, ProbeUnlock(p));
  }

  lemma TakeTurn(s: State, c: nat)
    requires Inv(s) && s.readers == {} && s.writer == None && CloserOf(s, c) == Waiting
    ensures Legal(s, [LockWrite(c), UnlockWrite(c)])
    ensures CloserOf(Exec(s, [LockWrite(c), UnlockWrite(c)]), c) == Returned
  {
    var s1 := Next(s, LockWrite(c));
    OneEvent(s, LockWrite(c));
    OneEvent(s1, UnlockWrite(c));
    LegalConcat(s, [LockWrite(c)], [UnlockWrite(c)]);
    assert [LockWrite(c)] + [UnlockWrite(c)] == [LockWrite(c), UnlockWrite(c)];
  }

  // ---------- the shared object ----------

  lemma StepKeepsInv(s: State, e: Event)
    requires Enabled(s, e)
    ensures Inv(s) ==> Inv(Next(s, e))
  {
    if Inv(s) { NextKeepsInv(s, e); }
  }

  /** The state both halves of a channel share; each method is one atomic action, unless it says otherwise. */
  class Channel {
    var closed: bool
    var readers: set<nat>
    var writer: Option<Owner>
    var phases: map<nat, Phase>
    var closers: map<nat, Closer>

    ghost function View(): State
      reads this
    {
      State(closed, readers, writer, phases, closers)
    }

    constructor ()
      ensures View() == OPEN
    {
      closed, readers, writer, phases, closers := false, {}, None, map[], map[];
    }

    /** The lock refuses a reader while a writer has it, and may refuse one while a writer waits for it. */
    method TryReadOwned(w: nat, writerWaits: bool) returns (ok: bool)
      requires PhaseOf(View(), w) == Outside
      modifies this
      ensures ok <==> old(writer) == None && !writerWaits
      ensures View() == Next(old(View()), if ok then TryRead(w) else Refused(w))
      ensures Inv(old(View())) ==> Inv(View())
      ensures ok && Inv(View()) ==> forall c :: CloserOf(View(), c) != Locked
    {
      ok := writer == None && !writerWaits;
      StepKeepsInv(View(), if ok then TryRead(w) else Refused(w));
      if ok {
        readers := readers + {w};
        phases := phases[w := Checking];
      }
    }

    method TestFlag(w: nat, blocking: bool) returns (guard: bool)
      requires PhaseOf(View(), w) == Checking
      modifies this
      ensures guard <==> !old(closed)
      ensures View() == Next(old(View()), Test(w, blocking))
      ensures guard <==> Guarded(View(), w)
      ensures Inv(old(View())) ==> Inv(View()) && (guard ==> forall c :: CloserOf(View(), c) == Idle)
    {
      StepKeepsInv(View(), Test(w, blocking));
      guard := !closed;
      phases := phases[w := if !guard then Leaving else if blocking then Queued else Holding];
    }

    method PermitBack(w: nat)
      requires PhaseOf(View(), w) == Leaving
      modifies this
      ensures View() == Next(old(View()), Release(w))
      ensures Inv(old(View())) ==> Inv(View())
    {
      StepKeepsInv(View(), Release(w));
      readers := readers - {w};
      phases := phases[w := Outside];
    }

    /** `hold` without interference: three atomic actions, of which other tasks may see the states between. */
    method Hold(w: nat, writerWaits: bool, blocking: bool) returns (guard: bool)
      requires PhaseOf(View(), w) == Outside
      modifies this
      ensures guard <==> old(writer) == None && !writerWaits && !old(closed)
      ensures guard ==> Guarded(View(), w) && readers == old(readers) + {w}
      ensures !guard ==> !Guarded(View(), w) && PhaseOf(View(), w) == Outside
      ensures closed == old(closed) && writer == old(writer) && closers == old(closers)
      ensures Inv(old(View())) ==> Inv(View())
    {
      guard := TryReadOwned(w, writerWaits);
      if guard {
        guard := TestFlag(w, blocking);
        if !guard {
          PermitBack(w);
        }
      }
    }

    /** `until_closed`: the flag first, and the guarded future only if it is not set. */
    method PollWork(w: nat) returns (polled: bool)
      requires PhaseOf(View(), w) == Holding
      modifies this
      ensures polled <==> !old(closed)
      ensures View() == Next(old(View()), Poll(w))
      ensures Inv(old(View())) ==> Inv(View()) && (polled ==> forall c :: CloserOf(View(), c) == Idle)
    {
      StepKeepsInv(View(), Poll(w));
      polled := !closed;
      phases := phases[w := if polled then Running(false) else Leaving];
    }

    method CloseConnections(caller: Option<nat>)
      requires caller.Some? ==> CloserOf(View(), caller.value) == Idle
      modifies this
      ensures closed
      ensures View() == Next(old(View()), if caller.None? then CloseOnly else SetFlag(caller.value))
      ensures Inv(old(View())) ==> Inv(View())
      ensures forall w, run :: Legal(View(), run) && !Underway(View(), w) ==> Work(w) !in run
    {
      StepKeepsInv(View(), if caller.None? then CloseOnly else SetFlag(caller.value));
      closed := true;
      if caller.Some? {
        closers := closers[caller.value := Waiting];
      }
      forall w, run | Legal(View(), run) && !Underway(View(), w) ensures Work(w) !in run {
        StoppedStays(View(), run, w);
      }
    }

    /** The end of `close_and_wait`, from the moment the lock is free. */
    method WriteAndReturn(c: nat)
      requires CloserOf(View(), c) == Waiting && readers == {} && writer == None
      modifies this
      ensures View() == Exec(old(View()), [LockWrite(c), UnlockWrite(c)])
      ensures CloserOf(View(), c) == Returned
      ensures Inv(old(View())) ==> Inv(View()) && forall w :: !Guarded(View(), w)
    {
      ghost var s := View();
      StepKeepsInv(s, LockWrite(c));
      StepKeepsInv(Next(s, LockWrite(c)), UnlockWrite(c));
      writer := Some(Trigger(c));
      closers := closers[c := Locked];
      assert View() == Next(s, LockWrite(c));
      writer := None;
      closers := closers[c := Returned];
      assert View() == Next(Next(s, LockWrite(c)), UnlockWrite(c));
      assert [LockWrite(c), UnlockWrite(c)][1..] == [UnlockWrite(c)] && [UnlockWrite(c)][1..] == [];
      assert Exec(View(), []) == View();
      assert Inv(View()) ==> PastTheLock(View(), c);
    }

    /** `is_idle` answers true exactly when no permit is out and no writer is in: then no guard is live. */
    method IsIdle() returns (idle: bool)
      requires Inv(View())
      ensures idle <==> writer == None && forall w :: PhaseOf(View(), w) == Outside
    {
      idle := readers == {} && writer == None;
    }
  }
}
