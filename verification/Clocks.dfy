/**
  The clocks of a connection nobody has signed in on: the idle deadline that reads and writes move,
  the watch that waits for it, and the absolute limits. Times are milliseconds since the connection began.
*/
module Clocks {
  import opened Text

  const IDLE_TIMEOUT: nat := 60_000
  const DEADLINE: nat := 300_000
  const GRACE: nat := 10_000

  // ---------- activity ----------

  /** What one poll of the stream showed. */
  datatype Kind =
    | DataRead
    | NothingRead
    | Written(count: nat)
    | WritePending
    | WriteFailed
    | FlushPending
    | FlushDone

  datatype Event = Event(at: nat, kind: Kind)

  datatype Record = Record(last: nat, stalledSince: Option<nat>)

  const FRESH: Record := Record(0, None)

  predicate Progress(k: Kind) {
    k.Written? && k.count > 0
  }

  predicate Touches(k: Kind) {
    k.DataRead? || Progress(k)
  }

  predicate Blocks(k: Kind) {
    k.WritePending? || k.FlushPending?
  }

  function Step(r: Record, e: Event): Record {
    if Progress(e.kind) then Record(e.at, None)
    else if e.kind.DataRead? then r.(last := e.at)
    else if Blocks(e.kind) && r.stalledSince.None? then r.(stalledSince := Some(e.at))
    else r
  }

  function IdleFrom(r: Record): nat {
    match r.stalledSince
    case None => r.last
    case Some(s) => if s < r.last then s else r.last
  }

  function IdleDeadline(r: Record): nat {
    IdleFrom(r) + IDLE_TIMEOUT
  }

  class Activity {
    var last: nat
    var stalledSince: Option<nat>

    function View(): Record
      reads this
    {
      Record(last, stalledSince)
    }

    constructor ()
      ensures View() == FRESH
    {
      last, stalledSince := 0, None;
    }

    method Touch(now: nat)
      modifies this
      ensures View() == old(View()).(last := now)
    {
      last := now;
    }

    /** A read never brings the deadline forward, and cannot push it past a stall that is running. */
    method NoteRead(now: nat, moreData: bool)
      modifies this
      ensures View() == Step(old(View()), Event(now, if moreData then DataRead else NothingRead))
      ensures Until(old(View()), now) ==> Until(View(), now) && IdleDeadline(View()) >= IdleDeadline(old(View()))
      ensures stalledSince.Some? ==> IdleDeadline(View()) <= stalledSince.value + IDLE_TIMEOUT
      ensures moreData && stalledSince.None? ==> IdleDeadline(View()) == now + IDLE_TIMEOUT
    {
      if moreData {
        Touch(now);
      }
    }

    /** The stall keeps the time of the first blocked poll until a write gets through. */
    method WriteBlocked(now: nat)
      modifies this
      ensures View() == old(View()).(stalledSince := if old(stalledSince).None? then Some(now) else old(stalledSince))
    {
      if stalledSince.None? {
        stalledSince := Some(now);
      }
    }

    /** A write that gets through gives a full timeout; one that does not leaves the deadline where it is. */
    method NoteWrite(now: nat, result: Kind)
      requires result.Written? || result.WritePending? || result.WriteFailed?
      modifies this
      ensures View() == Step(old(View()), Event(now, result))
      ensures Until(old(View()), now) ==> Until(View(), now)
      ensures Progress(result) ==> stalledSince.None? && IdleDeadline(View()) == now + IDLE_TIMEOUT
      ensures Until(old(View()), now) && !Progress(result) ==> IdleDeadline(View()) == IdleDeadline(old(View()))
      ensures Blocks(result) ==> stalledSince.Some? && IdleDeadline(View()) <= stalledSince.value + IDLE_TIMEOUT
    {
      match result {
        case Written(n) =>
          if n > 0 {
            stalledSince := None;
            Touch(now);
          }
        case WritePending =>
          WriteBlocked(now);
        case _ =>
      }
    }

    /** A flush never moves the deadline; a pending one starts a stall, after which reads cannot either. */
    method NoteFlush(now: nat, pending: bool)
      modifies this
      ensures View() == Step(old(View()), Event(now, if pending then FlushPending else FlushDone))
      ensures Until(old(View()), now) ==> Until(View(), now) && IdleDeadline(View()) == IdleDeadline(old(View()))
      ensures pending ==> stalledSince.Some? && IdleDeadline(View()) <= stalledSince.value + IDLE_TIMEOUT
    {
      if pending {
        WriteBlocked(now);
      }
    }
  }

  // ---------- traces ----------

  function After(r: Record, tr: seq<Event>): Record
    decreases |tr|
  {
    if tr == [] then r else Step(After(r, tr[..|tr| - 1]), tr[|tr| - 1])
  }

  ghost predicate InOrder(tr: seq<Event>) {
    forall i, j :: 0 <= i < j < |tr| ==> tr[i].at <= tr[j].at
  }

  /** Nothing the record holds lies after `t`. */
  predicate Until(r: Record, t: nat) {
    r.last <= t && (r.stalledSince.Some? ==> r.stalledSince.value <= t)
  }

  lemma {:induction false} AfterUntil(tr: seq<Event>, t: nat)
    requires InOrder(tr) && forall i :: 0 <= i < |tr| ==> tr[i].at <= t
    ensures Until(After(FRESH, tr), t)
    decreases |tr|
  {
    if tr != [] {
      AfterUntil(tr[..|tr| - 1], tr[|tr| - 1].at);
    }
  }

  /** Whatever happens on the connection, the deadline never moves backward. */
  lemma {:induction false} DeadlineNeverMovesBack(tr: seq<Event>, k: nat)
    requires InOrder(tr) && k <= |tr|
    ensures IdleDeadline(After(FRESH, tr[..k])) <= IdleDeadline(After(FRESH, tr))
    decreases |tr|
  {
    if k == |tr| {
      assert tr[..k] == tr;
    } else {
      var front := tr[..|tr| - 1];
      assert front[..k] == tr[..k];
      DeadlineNeverMovesBack(front, k);
      AfterUntil(front, tr[|tr| - 1].at);
    }
  }

  // ---------- what the deadline means ----------

  /** Write `i` blocked, no write has got through since, and none had been blocked just before it. */
  ghost predicate FirstUnresolved(tr: seq<Event>, i: nat) {
    && i < |tr| && Blocks(tr[i].kind)
    && (forall j :: i < j < |tr| ==> !Progress(tr[j].kind))
    && (forall j :: 0 <= j < i && Blocks(tr[j].kind) ==> exists k :: j < k < i && Progress(tr[k].kind))
  }

  /** Something got through after every blocked write. */
  ghost predicate AllResolved(tr: seq<Event>) {
    forall j :: 0 <= j < |tr| && Blocks(tr[j].kind) ==> exists k :: j < k < |tr| && Progress(tr[k].kind)
  }

  lemma StallStays(tr: seq<Event>, n: nat, i: nat)
    requires n + 1 == |tr| && !Progress(tr[n].kind) && i < n && FirstUnresolved(tr[..n], i)
    ensures FirstUnresolved(tr, i)
  {
    assert forall j :: 0 <= j < n ==> tr[j] == tr[..n][j];
  }

  lemma StallStarts(tr: seq<Event>, n: nat)
    requires n + 1 == |tr| && !Progress(tr[n].kind) && AllResolved(tr[..n])
    ensures if Blocks(tr[n].kind) then FirstUnresolved(tr, n) else AllResolved(tr)
  {
    forall j | 0 <= j < n && Blocks(tr[j].kind) ensures exists k :: j < k < n && Progress(tr[k].kind) {
      assert Blocks(tr[..n][j].kind);
      var k :| j < k < n && Progress(tr[..n][k].kind);
      assert Progress(tr[k].kind);
    }
  }

  lemma {:induction false} StallIsFirstUnresolved(tr: seq<Event>)
    ensures After(FRESH, tr).stalledSince.Some? ==>
      exists i: nat :: i < |tr| && FirstUnresolved(tr, i) && tr[i].at == After(FRESH, tr).stalledSince.value
    ensures After(FRESH, tr).stalledSince.None? ==> AllResolved(tr)
    decreases |tr|
  {
    if tr != [] {
      hide FirstUnresolved;
      var n := |tr| - 1;
      var front := tr[..n];
      StallIsFirstUnresolved(front);
      var before := After(FRESH, front).stalledSince;
      if Progress(tr[n].kind) {
      } else if before.Some? {
        hide AllResolved;
        var i: nat :| i < n && FirstUnresolved(front, i) && front[i].at == before.value;
        StallStays(tr, n, i);
      } else {
        hide AllResolved;
        StallStarts(tr, n);
      }
    }
  }

  lemma {:induction false} LastIsLatestTouch(tr: seq<Event>, t: nat)
    requires InOrder(tr)
    ensures After(FRESH, tr).last <= t <==> forall j :: 0 <= j < |tr| && Touches(tr[j].kind) ==> tr[j].at <= t
    decreases |tr|
  {
    if tr != [] {
      var n := |tr| - 1;
      LastIsLatestTouch(tr[..n], t);
      assert tr == tr[..n] + [tr[n]];
      assert forall j :: 0 <= j < n ==> tr[..n][j] == tr[j];
    }
  }

  /** The events up to time `t`. */
  function UpTo(tr: seq<Event>, t: nat): (r: seq<Event>)
    ensures |r| <= |tr| && r == tr[..|r|]
    ensures forall i :: 0 <= i < |r| ==> r[i].at <= t
    ensures |r| < |tr| ==> tr[|r|].at > t
  {
    if tr == [] || tr[0].at > t then []
    else
      var r := [tr[0]] + UpTo(tr[1..], t);
      assert r == tr[..|r|];
      r
  }

  lemma UpToGrows(tr: seq<Event>, t: nat, u: nat)
    requires t <= u
    ensures |UpTo(tr, t)| <= |UpTo(tr, u)| && UpTo(tr, t) == UpTo(tr, u)[..|UpTo(tr, t)|]
  {
    ReadBefore(tr, t, |UpTo(tr, u)|);
  }

  lemma ReadBefore(tr: seq<Event>, t: nat, k: nat)
    ensures k < |UpTo(tr, t)| ==> tr[k].at <= t
  {
    assert k < |UpTo(tr, t)| ==> tr[k] == UpTo(tr, t)[k];
  }

  lemma UpToInOrder(tr: seq<Event>, t: nat)
    requires InOrder(tr)
    ensures InOrder(UpTo(tr, t))
  {
    var r := UpTo(tr, t);
    assert forall i :: 0 <= i < |r| ==> r[i] == tr[i];
  }

  function DeadlineAt(tr: seq<Event>, t: nat): nat {
    IdleDeadline(After(FRESH, UpTo(tr, t)))
  }

  predicate Expired(tr: seq<Event>, t: nat) {
    t >= DeadlineAt(tr, t)
  }

  lemma DeadlineAtMonotone(tr: seq<Event>, t: nat, u: nat)
    requires InOrder(tr) && t <= u
    ensures DeadlineAt(tr, t) <= DeadlineAt(tr, u)
  {
    hide UpTo, After, IdleDeadline;
    UpToGrows(tr, t, u);
    UpToInOrder(tr, u);
    DeadlineNeverMovesBack(UpTo(tr, u), |UpTo(tr, t)|);
  }

  /** Nothing has been read or written for the whole idle timeout. */
  ghost predicate Silent(tr: seq<Event>, t: nat) {
    t >= IDLE_TIMEOUT && forall j :: 0 <= j < |UpTo(tr, t)| && Touches(UpTo(tr, t)[j].kind) ==>
      UpTo(tr, t)[j].at + IDLE_TIMEOUT <= t
  }

  /** Some write has been blocked, with nothing getting through, for the whole idle timeout. */
  ghost predicate Stuck(tr: seq<Event>, t: nat) {
    exists i: nat :: i < |UpTo(tr, t)| && FirstUnresolved(UpTo(tr, t), i) && UpTo(tr, t)[i].at + IDLE_TIMEOUT <= t
  }

  lemma OneFirstUnresolved(tr: seq<Event>, i: nat, j: nat)
    requires FirstUnresolved(tr, i) && FirstUnresolved(tr, j)
    ensures i == j
  {
  }

  /** The deadline has passed exactly when the connection has been silent, or a write stuck, for the idle timeout. */
  lemma ExpiredIff(tr: seq<Event>, t: nat)
    requires InOrder(tr)
    ensures Expired(tr, t) <==> Silent(tr, t) || Stuck(tr, t)
  {
    hide FirstUnresolved, After, UpTo;
    var now := UpTo(tr, t);
    UpToInOrder(tr, t);
    var r := After(FRESH, now);
    StallIsFirstUnresolved(now);
    if t >= IDLE_TIMEOUT {
      LastIsLatestTouch(now, t - IDLE_TIMEOUT);
      assert Silent(tr, t) <==> r.last + IDLE_TIMEOUT <= t;
    }
    match r.stalledSince
    case None =>
      NothingUnresolved(now);
    case Some(s) =>
      var i: nat :| i < |now| && FirstUnresolved(now, i) && now[i].at == s;
      forall j: nat | FirstUnresolved(now, j) ensures j == i { OneFirstUnresolved(now, i, j); }
  }

  lemma NothingUnresolved(tr: seq<Event>)
    requires AllResolved(tr)
    ensures forall i: nat :: !FirstUnresolved(tr, i)
  {
  }

  lemma ReadBy(tr: seq<Event>, t: nat, i: nat)
    requires InOrder(tr) && i < |tr| && tr[i].at <= t
    ensures i < |UpTo(tr, t)|
  {
  }

  /** While a write is stuck for the idle timeout or longer, the deadline is past, whatever was read meanwhile. */
  lemma ReadsDoNotExcuseAStuckWrite(tr: seq<Event>, i: nat, t: nat)
    requires InOrder(tr) && i < |tr| && Blocks(tr[i].kind) && tr[i].at + IDLE_TIMEOUT <= t
    requires forall j :: i < j < |tr| && Progress(tr[j].kind) ==> tr[j].at > t
    ensures Expired(tr, t)
  {
    hide After, UpTo;
    var now := UpTo(tr, t);
    ReadBy(tr, t, i);
    StallIsFirstUnresolved(now);
    var stalled := After(FRESH, now).stalledSince;
    assert Blocks(now[i].kind);
    if stalled.Some? {
      var k: nat :| k < |now| && FirstUnresolved(now, k) && now[k].at == stalled.value;
      assert now[k].at <= now[i].at;
    }
  }

  /** Data has been read, or part of a write has got through. */
  predicate Moves(e: Event) {
    e.kind.DataRead? || (e.kind.Written? && e.kind.count > 0)
  }

  /** A write or a flush has been refused for now. */
  predicate Refused(e: Event) {
    e.kind.WritePending? || e.kind.FlushPending?
  }

  /** No data has moved in the last 60 seconds. */
  ghost predicate Quiet(tr: seq<Event>, t: nat) {
    t >= 60_000 && forall j :: 0 <= j < |tr| && tr[j].at <= t && Moves(tr[j]) ==> tr[j].at + 60_000 <= t
  }

  /** A write was refused 60 seconds ago or more, and no part of a write has got through since. */
  ghost predicate Jammed(tr: seq<Event>, t: nat) {
    exists i :: 0 <= i < |tr| && Refused(tr[i]) && tr[i].at + 60_000 <= t
      && forall j :: i < j < |tr| && tr[j].at <= t ==> !(tr[j].kind.Written? && tr[j].kind.count > 0)
  }

  /** The deadline is past exactly when no data has moved for 60 seconds, or writing has been jammed for as long. */
  lemma DeadlineIsPastIff(tr: seq<Event>, t: nat)
    requires InOrder(tr)
    ensures Expired(tr, t) <==> Quiet(tr, t) || Jammed(tr, t)
  {
    hide After, UpTo, Expired;
    ExpiredIff(tr, t);
    UpToIs(tr, t);
    var now := UpTo(tr, t);
    if Jammed(tr, t) {
      var i :| 0 <= i < |tr| && Refused(tr[i]) && tr[i].at + 60_000 <= t
        && forall j :: i < j < |tr| && tr[j].at <= t ==> !(tr[j].kind.Written? && tr[j].kind.count > 0);
      ReadsDoNotExcuseAStuckWrite(tr, i, t);
    }
    if Stuck(tr, t) {
      var i: nat :| i < |now| && FirstUnresolved(now, i) && now[i].at + IDLE_TIMEOUT <= t;
      assert Refused(tr[i]);
    }
  }

  lemma UpToIs(tr: seq<Event>, t: nat)
    requires InOrder(tr)
    ensures |UpTo(tr, t)| <= |tr| && UpTo(tr, t) == tr[..|UpTo(tr, t)|]
    ensures forall j :: 0 <= j < |tr| ==> (j < |UpTo(tr, t)| <==> tr[j].at <= t)
  {
    forall j | 0 <= j < |tr| ensures j < |UpTo(tr, t)| <==> tr[j].at <= t {
      ReadBefore(tr, t, j);
      if tr[j].at <= t { ReadBy(tr, t, j); }
    }
  }

  // ---------- the watch ----------

  predicate SignedIn(signIn: Option<nat>, t: nat) {
    signIn.Some? && signIn.value <= t
  }

  /** The deadline has passed at `u` and does not move on while a late timer may still be on its way. */
  ghost predicate Overdue(tr: seq<Event>, u: nat, slack: nat) {
    forall v: nat :: u <= v <= u + slack ==> Expired(tr, v)
  }

  /**
    What the watch may answer when timers fire at most `slack` late: a time not before the deadline
    and not later than `slack` after it has passed for good, or nothing because a sign-in came in time.
  */
  ghost predicate WatchOutcome(tr: seq<Event>, signIn: Option<nat>, slack: nat, r: Option<nat>) {
    match r
    case Some(t) => !SignedIn(signIn, t) && Expired(tr, t) && forall u: nat :: Overdue(tr, u, slack) ==> t <= u + slack
    case None => signIn.Some? && forall u: nat :: Overdue(tr, u, slack) ==> signIn.value <= u + slack
  }

  function EndOf(tr: seq<Event>): nat {
    if tr == [] then 0 else tr[|tr| - 1].at
  }

  lemma DeadlineBounded(tr: seq<Event>, t: nat)
    requires InOrder(tr)
    ensures DeadlineAt(tr, t) <= EndOf(tr) + IDLE_TIMEOUT
  {
    UpToInOrder(tr, t);
    var r := UpTo(tr, t);
    assert forall i :: 0 <= i < |r| ==> r[i] == tr[i];
    AfterUntil(r, EndOf(tr));
  }

  lemma WakesBeforeOverdue(tr: seq<Event>, t: nat, u: nat, slack: nat)
    requires InOrder(tr) && Overdue(tr, u, slack) && t <= u + slack && !Expired(tr, t)
    ensures DeadlineAt(tr, t) <= u
  {
    hide DeadlineAt;
    assert u <= t ==> Expired(tr, t);
    DeadlineAtMonotone(tr, t, if t < u then u else t);
    assert Expired(tr, u);
  }

  /** `late` is how much too late each sleep wakes up. */
  method IdleWatch(tr: seq<Event>, signIn: Option<nat>, late: nat -> nat, slack: nat) returns (r: Option<nat>)
    requires InOrder(tr) && forall n :: late(n) <= slack
    ensures WatchOutcome(tr, signIn, slack, r)
  {
    hide DeadlineAt;
    var t := 0;
    while true
      invariant forall u: nat :: Overdue(tr, u, slack) ==> t <= u + slack
      decreases EndOf(tr) + IDLE_TIMEOUT - t
    {
      DeadlineBounded(tr, t);
      if SignedIn(signIn, t) {
        return None;
      }
      var wake := DeadlineAt(tr, t);
      if t >= wake {
        return Some(t);
      }
      forall u: nat | Overdue(tr, u, slack) ensures wake <= u {
        WakesBeforeOverdue(tr, t, u, slack);
      }
      t := wake + late(t);
    }
  }

  // ---------- bounded waits ----------

  function Smaller(a: nat, b: nat): nat {
    if a < b then a else b
  }

  /** `bound` at time `t` around something that takes `takes`, or for ever: when it ends, and whether with a result. */
  function BoundEnd(t: nat, takes: Option<nat>): (nat, bool) {
    var remaining := if t < DEADLINE then DEADLINE - t else 0;
    var limit := Smaller(remaining, IDLE_TIMEOUT);
    if takes.Some? && takes.value <= limit then (t + takes.value, true) else (t + limit, false)
  }

  /** A pause of the server's own, then a wait for the peer, bounded unless the session has signed in. */
  datatype Wait = Wait(pause: nat, authenticated: bool, takes: Option<nat>)

  /** `bound_until_auth`: when the wait ends, if it does, and whether with a result. */
  function WaitEnd(t: nat, w: Wait): (Option<nat>, bool) {
    var start := t + w.pause;
    if w.authenticated then (if w.takes.Some? then Some(start + w.takes.value) else None, w.takes.Some?)
    else
      var (end, done) := BoundEnd(start, w.takes);
      (Some(end), done)
  }

  function PauseTime(ws: seq<Wait>): nat {
    if ws == [] then 0 else ws[0].pause + PauseTime(ws[1..])
  }

  /**
    When a session ends that waits in turn and stops at the first wait that is cut off; never, if a
    wait does not end.
  */
  function ChainEnd(t: nat, ws: seq<Wait>): Option<nat>
    decreases |ws|
  {
    if ws == [] then Some(t)
    else
      var (end, done) := WaitEnd(t, ws[0]);
      if end.None? then None
      else if done then ChainEnd(end.value, ws[1..])
      else end
  }

  predicate NotSignedIn(ws: seq<Wait>) {
    forall i :: 0 <= i < |ws| ==> !ws[i].authenticated
  }

  /**
    However many waits follow each other before the sign-in, together they end by the deadline plus
    the server's own pauses.
  */
  lemma ChainEndsByDeadline(t: nat, ws: seq<Wait>)
    requires t <= DEADLINE && NotSignedIn(ws)
    ensures ChainEnd(t, ws).Some? && ChainEnd(t, ws).value <= DEADLINE + PauseTime(ws)
  {
    ChainExcess(t, ws);
  }

  lemma {:induction false} ChainExcess(t: nat, ws: seq<Wait>)
    requires NotSignedIn(ws)
    ensures ChainEnd(t, ws).Some? && ChainEnd(t, ws).value <= (if t < DEADLINE then DEADLINE else t) + PauseTime(ws)
    decreases |ws|
  {
    if ws != [] {
      var (end, done) := WaitEnd(t, ws[0]);
      ChainExcess(end.value, ws[1..]);
    }
  }

  /** At once, or within 60 seconds and by 300 seconds. */
  predicate InTime(start: nat, takes: Option<nat>) {
    takes.Some? && (takes.value == 0 || (takes.value <= 60_000 && start + takes.value <= 300_000))
  }

  /**
    A wait before the sign-in has its result if and only if that takes at most 60 seconds and comes
    within 300 seconds of the connection's start, or at once; otherwise it is cut exactly at the
    earlier of these limits, and at once when the deadline is past.
  */
  lemma WaitBeforeSignIn(t: nat, w: Wait)
    requires !w.authenticated
    ensures var start := t + w.pause; var (end, done) := WaitEnd(t, w);
      && (done <==> InTime(start, w.takes))
      && (done ==> end == Some(start + w.takes.value))
      && (!done ==> end == Some(
            if start >= 300_000 then start else if start + 60_000 <= 300_000 then start + 60_000 else 300_000))
  {
  }

  /** After the sign-in a wait is never cut: it ends when its result comes, or never. */
  lemma WaitAfterSignIn(t: nat, w: Wait)
    requires w.authenticated
    ensures w.takes.Some? ==> WaitEnd(t, w) == (Some(t + w.pause + w.takes.value), true)
    ensures w.takes.None? ==> WaitEnd(t, w) == (None, false)
  {
  }

  /** The time a chain of waits takes when each gets its result. */
  function TimeFor(ws: seq<Wait>): nat {
    if ws == [] then 0
    else TimeFor(ws[..|ws| - 1]) + ws[|ws| - 1].pause
         + if ws[|ws| - 1].takes.Some? then ws[|ws| - 1].takes.value else 0
  }

  /** The `i`-th wait, begun when those before it have their results, gets its own. */
  ghost predicate GetsResult(t: nat, ws: seq<Wait>, i: nat)
    requires i < |ws|
  {
    WaitEnd(t + TimeFor(ws[..i]), ws[i]).1
  }

  lemma TimeForCons(ws: seq<Wait>)
    requires ws != []
    ensures TimeFor(ws) == ws[0].pause + (if ws[0].takes.Some? then ws[0].takes.value else 0) + TimeFor(ws[1..])
    decreases |ws|
  {
    if |ws| == 1 {
      assert ws[..0] == [] && ws[1..] == [];
    } else {
      assert ws[..|ws| - 1][1..] == ws[1..][..|ws| - 2];
      TimeForCons(ws[..|ws| - 1]);
    }
  }

  lemma GetsResultTail(t: nat, ws: seq<Wait>, i: nat)
    requires 0 < i < |ws| && WaitEnd(t, ws[0]).1
    ensures GetsResult(t, ws, i) <==> GetsResult(WaitEnd(t, ws[0]).0.value, ws[1..], i - 1)
  {
    TimeForCons(ws[..i]);
    assert ws[..i][1..] == ws[1..][..i - 1];
  }

  /**
    A chain stops at the first wait that does not get its result, when that wait ends; if each gets
    its result, the chain ends after the sum of its pauses and waits.
  */
  lemma {:induction false} ChainStopsAtTheFirstCut(t: nat, ws: seq<Wait>, n: nat)
    requires n <= |ws| && forall i :: 0 <= i < n ==> GetsResult(t, ws, i)
    ensures n == |ws| ==> ChainEnd(t, ws) == Some(t + TimeFor(ws))
    ensures n < |ws| && !GetsResult(t, ws, n) ==> ChainEnd(t, ws) == WaitEnd(t + TimeFor(ws[..n]), ws[n]).0
    decreases |ws|
  {
    hide WaitEnd;
    if ws != [] {
      assert ws[..0] == [];
      TimeForCons(ws);
      WaitTakes(t, ws[0]);
      if n > 0 {
        assert GetsResult(t, ws, 0);
        var next := WaitEnd(t, ws[0]).0.value;
        forall i | 0 <= i < n - 1 ensures GetsResult(next, ws[1..], i) {
          assert GetsResult(t, ws, i + 1);
          GetsResultTail(t, ws, i + 1);
        }
        ChainStopsAtTheFirstCut(next, ws[1..], n - 1);
        if n < |ws| {
          GetsResultTail(t, ws, n);
          TimeForCons(ws[..n]);
          assert ws[..n][1..] == ws[1..][..n - 1];
        }
      }
    }
  }

  lemma WaitTakes(t: nat, w: Wait)
    ensures var (end, done) := WaitEnd(t, w);
      done ==> w.takes.Some? && end == Some(t + w.pause + w.takes.value)
    ensures !WaitEnd(t, w).1 && WaitEnd(t, w).0.None? ==> w.authenticated && w.takes.None?
  {
  }

  /** A client that never takes longer than 60 seconds and is done by 300 seconds gets every result. */
  lemma PromptClientIsServed(t: nat, ws: seq<Wait>)
    requires forall i :: 0 <= i < |ws| ==> ws[i].takes.Some? && ws[i].takes.value <= 60_000
    requires t + TimeFor(ws) <= 300_000
    ensures forall i :: 0 <= i < |ws| ==> GetsResult(t, ws, i)
    ensures ChainEnd(t, ws) == Some(t + TimeFor(ws))
  {
    hide WaitEnd;
    forall i | 0 <= i < |ws| ensures GetsResult(t, ws, i) {
      TimeForPrefix(ws, i);
      if ws[i].authenticated {
        WaitAfterSignIn(t + TimeFor(ws[..i]), ws[i]);
      } else {
        WaitBeforeSignIn(t + TimeFor(ws[..i]), ws[i]);
      }
    }
    ChainStopsAtTheFirstCut(t, ws, |ws|);
  }

  lemma {:induction false} TimeForPrefix(ws: seq<Wait>, i: nat)
    requires i < |ws|
    ensures TimeFor(ws[..i]) + ws[i].pause + (if ws[i].takes.Some? then ws[i].takes.value else 0) <= TimeFor(ws)
    decreases |ws|
  {
    var front := ws[..|ws| - 1];
    if i < |front| {
      assert front[..i] == ws[..i];
      TimeForPrefix(front, i);
    }
  }

  // ---------- the guard ----------

  datatype End = Finished(at: nat) | Cut(at: nat) | Open

  /** A future that is ready from some time on, or never. */
  predicate Ready(f: Option<nat>, t: nat) {
    f.Some? && f.value <= t
  }

  /**
    How the runtime drives a guarded session: it polls at `wakeUps`, in order. The timer set for the
    deadline and its grace fires at `fires` and the future is ready from `f` on; both wake the task
    within `slack`.
  */
  ghost predicate Driven(wakeUps: seq<nat>, fires: nat, f: Option<nat>, slack: nat) {
    && (forall i, j :: 0 <= i < j < |wakeUps| ==> wakeUps[i] < wakeUps[j])
    && fires in wakeUps && DEADLINE + GRACE <= fires <= DEADLINE + GRACE + slack
    && (f.Some? ==> exists i :: 0 <= i < |wakeUps| && f.value <= wakeUps[i] <= f.value + slack)
  }

  /**
    What the guard comes to. It cuts exactly when, at the moment the timer fires, the session is not
    ready and no sign-in is recorded; otherwise the session runs until it is ready.
  */
  ghost predicate GuardOutcome(f: Option<nat>, signIn: Option<nat>, fires: nat, slack: nat, r: End) {
    && (r.Cut? <==> !Ready(f, fires) && !SignedIn(signIn, fires))
    && (r.Cut? ==> r.at == fires)
    && (r.Finished? ==> f.Some? && f.value <= r.at <= f.value + slack)
    && (r.Open? ==> f.None?)
  }

  /** The guard: at each wake-up the session first, then the timer, which reads the sign-in flag once, when it fires. */
  method Guard(f: Option<nat>, signIn: Option<nat>, wakeUps: seq<nat>, fires: nat, ghost slack: nat) returns (r: End)
    requires Driven(wakeUps, fires, f, slack)
    ensures GuardOutcome(f, signIn, fires, slack, r)
  {
    var pending := false;
    for k := 0 to |wakeUps|
      invariant forall i :: 0 <= i < k ==> !Ready(f, wakeUps[i])
      invariant pending <==> exists i :: 0 <= i < k && wakeUps[i] == fires
      invariant pending ==> SignedIn(signIn, fires) && !Ready(f, fires)
      invariant !pending ==> forall i :: 0 <= i < k ==> wakeUps[i] < fires
    {
      var now := wakeUps[k];
      if Ready(f, now) {
        WokenInTime(wakeUps, fires, f, slack, k);
        if !pending { NotPastTheFiring(wakeUps, fires, k); }
        return Finished(now);
      }
      if !pending {
        NotPastTheFiring(wakeUps, fires, k);
        if now >= fires {
          if !SignedIn(signIn, now) {
            return Cut(now);
          }
          pending := true;
        }
      }
    }
    r := Open;
  }

  /** The first wake-up at which the future is ready comes within the slack. */
  lemma WokenInTime(wakeUps: seq<nat>, fires: nat, f: Option<nat>, slack: nat, k: nat)
    requires Driven(wakeUps, fires, f, slack) && k < |wakeUps| && Ready(f, wakeUps[k])
    requires forall i :: 0 <= i < k ==> !Ready(f, wakeUps[i])
    ensures wakeUps[k] <= f.value + slack
  {
    var i :| 0 <= i < |wakeUps| && f.value <= wakeUps[i] <= f.value + slack;
  }

  /** No wake-up passes over the firing of the timer. */
  lemma NotPastTheFiring(wakeUps: seq<nat>, fires: nat, k: nat)
    requires forall i, j :: 0 <= i < j < |wakeUps| ==> wakeUps[i] < wakeUps[j]
    requires fires in wakeUps && k < |wakeUps| && forall i :: 0 <= i < k ==> wakeUps[i] < fires
    ensures wakeUps[k] <= fires
  {
    var n :| 0 <= n < |wakeUps| && wakeUps[n] == fires;
  }

  // ---------- a whole connection ----------

  function Earlier(a: Option<nat>, b: Option<nat>): Option<nat> {
    if a.None? then b else if b.None? then a else Some(Smaller(a.value, b.value))
  }

  /** The session against the watch, both under the guard, with timers and wake-ups at most `slack` late. */
  ghost predicate Served(tr: seq<Event>, session: Option<nat>, watch: Option<nat>, signIn: Option<nat>,
                         fires: nat, slack: nat, end: End) {
    && WatchOutcome(tr, signIn, slack, watch)
    && DEADLINE + GRACE <= fires <= DEADLINE + GRACE + slack
    && GuardOutcome(Earlier(session, watch), signIn, fires, slack, end)
  }

  /**
    Under a guard alone: a session that never signs in and makes the peer wait only in bounded waits
    ends on its own before the guard would cut it, as long as its own pauses fit into the grace.
  */
  lemma BoundedSessionEndsItself(ws: seq<Wait>, signIn: Option<nat>, fires: nat, slack: nat, end: End)
    requires NotSignedIn(ws) && PauseTime(ws) <= GRACE && DEADLINE + GRACE <= fires
    requires GuardOutcome(ChainEnd(0, ws), signIn, fires, slack, end)
    ensures end.Finished? && ChainEnd(0, ws).Some?
    ensures ChainEnd(0, ws).value <= end.at <= DEADLINE + PauseTime(ws) + slack
  {
    ChainEndsByDeadline(0, ws);
  }

  /** A client that stops taking data is gone within the idle timeout, however much it sends. */
  lemma StuckClientIsCut(tr: seq<Event>, i: nat, session: Option<nat>, watch: Option<nat>, signIn: Option<nat>,
                         fires: nat, slack: nat, end: End)
    requires InOrder(tr) && i < |tr| && Blocks(tr[i].kind)
    requires forall j :: i < j < |tr| && Progress(tr[j].kind) ==> tr[j].at > tr[i].at + IDLE_TIMEOUT + slack
    requires Served(tr, session, watch, signIn, fires, slack, end)
    requires !SignedIn(signIn, tr[i].at + IDLE_TIMEOUT + slack)
    ensures !end.Open? && end.at <= tr[i].at + IDLE_TIMEOUT + 2 * slack
  {
    hide Expired;
    var u := tr[i].at + IDLE_TIMEOUT;
    forall v: nat | u <= v <= u + slack ensures Expired(tr, v) {
      ReadsDoNotExcuseAStuckWrite(tr, i, v);
    }
    assert Overdue(tr, u, slack);
  }

  /** A client that signs in before its deadline passes is never cut off by either clock. */
  lemma SignedInConnectionIsLeftAlone(tr: seq<Event>, session: Option<nat>, watch: Option<nat>, signIn: Option<nat>,
                                      fires: nat, slack: nat, end: End)
    requires Served(tr, session, watch, signIn, fires, slack, end)
    requires SignedIn(signIn, DEADLINE + GRACE) && forall t: nat :: t < signIn.value ==> !Expired(tr, t)
    ensures watch == None && !end.Cut?
    ensures end.Open? <==> session.None?
    ensures end.Finished? ==> session.value <= end.at <= session.value + slack
  {
  }

  /** A connection ended by anything but its own session was not signed in, and was out of time. */
  lemma CutsAreJustified(tr: seq<Event>, session: Option<nat>, watch: Option<nat>, signIn: Option<nat>,
                         fires: nat, slack: nat, end: End)
    requires InOrder(tr) && Served(tr, session, watch, signIn, fires, slack, end)
    requires !end.Open? && !Ready(session, end.at)
    ensures (end == Cut(fires) && !SignedIn(signIn, fires))
         || exists t: nat :: t <= end.at && watch == Some(t) && !SignedIn(signIn, t) && (Silent(tr, t) || Stuck(tr, t))
  {
    hide Expired, Silent, Stuck;
    if watch.Some? { ExpiredIff(tr, watch.value); }
  }

  /**
    One connection from its events to its end: the watch runs beside the session and both run under
    the guard. `schedule` is how the runtime would drive a session that is ready at a given time.
  */
  method ServeConnection(tr: seq<Event>, session: Option<nat>, signIn: Option<nat>, late: nat -> nat, slack: nat,
                         schedule: Option<nat> -> (seq<nat>, nat)) returns (end: End)
    requires InOrder(tr) && forall n :: late(n) <= slack
    requires forall f :: Driven(schedule(f).0, schedule(f).1, f, slack)
    ensures exists watch, fires :: Served(tr, session, watch, signIn, fires, slack, end)
    ensures !SignedIn(signIn, 310_000 + slack) ==> !end.Open? && end.at <= 310_000 + 2 * slack
    ensures end.Cut? ==> 310_000 <= end.at && !SignedIn(signIn, end.at) && !Ready(session, end.at)
    ensures end.Open? ==> session.None?
  {
    var watch := IdleWatch(tr, signIn, late, slack);
    var (wakeUps, fires) := schedule(Earlier(session, watch));
    end := Guard(Earlier(session, watch), signIn, wakeUps, fires, slack);
    assert Served(tr, session, watch, signIn, fires, slack, end);
  }
}
