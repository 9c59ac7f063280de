/**
  What each answer does to a row, over every run: which rows are sent, failed or waiting, how many
  failures they count, and from when on they are due again.
*/
module OutboxResults {
  import opened Text
  import opened Outbox

  // ---------- one step ----------

  /** An attempt on a waiting or failed row: the row and the history after it. */
  lemma TryDoes(s: State, e: Event)
    requires Enabled(s, e) && e.Try?
    requires s.rows[e.id].status == Pending || s.rows[e.id].status == Failed
    ensures var row, t := s.rows[e.id], Next(s, e); var after := t.rows[e.id];
      && t.rows.Keys == s.rows.Keys && t.direct == s.direct
      && (forall id :: id in s.rows && id != e.id ==> t.rows[id] == s.rows[id])
      && after.queuedAt == row.queuedAt
      && after.lastAttemptAt == Some(if e.fate.recorded then e.ended else e.claimed)
      && (!e.fate.recorded ==> after.status == Sending && after.attempts == row.attempts)
      && (e.fate.recorded ==>
            match e.fate.answer
            case CopyFound => after.status == Sent && after.attempts == row.attempts
            case Accepted => after.status == Sent && after.attempts == row.attempts
            case PermanentError(_) => after.status == Failed && after.attempts == row.attempts
            case TransientError(_) =>
              if row.attempts < 6 then after.status == Pending && after.attempts == row.attempts + 1
              else after.status == Failed && after.attempts == row.attempts)
    ensures |Next(s, e).log| == |s.log| + 1 && Next(s, e).log[..|s.log|] == s.log
    ensures var a := Next(s, e).log[|s.log|];
      && a.id == e.id && a.automatic == e.automatic && a.checked == e.checked && a.fate == e.fate
      && a.stamp == if e.fate.recorded then e.ended else e.claimed
  {
  }

  /** A row that is being sent is left alone by a second attempt. */
  lemma SecondClaimFails(s: State, e: Event)
    requires Enabled(s, e) && e.Try? && s.rows[e.id].status == Sending
    ensures Next(s, e) == s
  {
  }

  /** A reset returns to waiting exactly the rows that have been in sending for that long, and changes nothing else. */
  lemma ResetDoes(s: State, olderThan: int, now: int, id: nat)
    requires id in s.rows
    ensures var row, t := s.rows[id], Next(s, ResetStale(olderThan, now));
      && t.rows.Keys == s.rows.Keys && t.log == s.log && t.direct == s.direct
      && var since := if row.lastAttemptAt.Some? then row.lastAttemptAt.value else row.queuedAt;
         t.rows[id] == if row.status == Sending && since + olderThan <= now then row.(status := Pending) else row
  {
  }

  lemma InsertDoes(s: State, id: nat, now: int, wentOut: bool)
    requires id !in s.rows
    ensures var t := Next(s, Insert(id, now, wentOut));
      && t.log == s.log && t.rows == s.rows[id := Row(now, 0, None, Pending)]
      && t.direct == if wentOut then s.direct + {id} else s.direct
  {
  }

  // ---------- whole runs ----------

  /** The attempt met a transient error and its result was recorded. */
  predicate IsTransient(a: Attempt) {
    a.fate.recorded && a.fate.answer.TransientError?
  }

  /** The last attempt on a row, with its place in the history. */
  ghost predicate IsLast(log: seq<Attempt>, id: nat, j: nat) {
    j < |log| && log[j].id == id && forall k :: j < k < |log| ==> log[k].id != id
  }

  function AtMostSix(n: nat): nat {
    if n < 6 then n else 6
  }

  /** What the last attempt on a row says of its status. */
  ghost predicate StatusFrom(status: Status, log: seq<Attempt>, j: nat)
    requires j < |log|
  {
    var a := log[j];
    if !a.fate.recorded then status == Sending || status == Pending
    else match a.fate.answer
      case CopyFound => status == Sent
      case Accepted => status == Sent
      case PermanentError(_) => status == Failed
      case TransientError(_) => status == if Count(log[..j], a.id, IsTransient) < 6 then Pending else Failed
  }

  ghost predicate Known(row: Row, log: seq<Attempt>, id: nat) {
    && row.attempts == AtMostSix(Count(log, id, IsTransient))
    && (forall j: nat :: IsLast(log, id, j) ==>
          StatusFrom(row.status, log, j) && row.lastAttemptAt == Some(log[j].stamp))
    && ((forall j :: 0 <= j < |log| ==> log[j].id != id) ==> row.status == Pending && row.lastAttemptAt == None)
  }

  ghost predicate AllKnown(s: State) {
    forall id :: id in s.rows ==> Known(s.rows[id], s.log, id)
  }

  lemma {:induction false} LastAttempt(log: seq<Attempt>, id: nat) returns (j: nat)
    ensures IsLast(log, id, j) || forall k :: 0 <= k < |log| ==> log[k].id != id
  {
    j := 0;
    if log != [] {
      var n := |log| - 1;
      if log[n].id == id {
        j := n;
      } else {
        j := LastAttempt(log[..n], id);
      }
    }
  }

  lemma LastSnoc(log: seq<Attempt>, a: Attempt, id: nat, j: nat)
    ensures a.id == id ==> (IsLast(log + [a], id, j) <==> j == |log|)
    ensures a.id != id ==> (IsLast(log + [a], id, j) <==> IsLast(log, id, j))
  {
    var longer := log + [a];
    assert longer[|log|] == a;
    if a.id != id && IsLast(longer, id, j) {
      forall k | j < k < |log| ensures log[k].id != id { assert longer[k] == log[k]; }
    }
  }

  lemma OthersKnown(row: Row, log: seq<Attempt>, a: Attempt, id: nat)
    requires Known(row, log, id) && a.id != id
    ensures Known(row, log + [a], id)
  {
    hide Count, IsLast;
    var longer := log + [a];
    CountSnoc(log, a, id, IsTransient);
    forall j: nat | IsLast(longer, id, j)
      ensures j < |longer| && StatusFrom(row.status, longer, j) && row.lastAttemptAt == Some(longer[j].stamp)
    {
      LastSnoc(log, a, id, j);
      LastIsThere(log, id, j);
      assert longer[..j] == log[..j] && longer[j] == log[j];
    }
    if forall j :: 0 <= j < |longer| ==> longer[j].id != id {
      assert forall j :: 0 <= j < |log| ==> longer[j] == log[j];
    }
  }

  lemma LastIsThere(log: seq<Attempt>, id: nat, j: nat)
    requires IsLast(log, id, j)
    ensures j < |log| && log[j].id == id
  {
  }

  lemma TriedKnown(s: State, e: Event)
    requires e.Try? && Enabled(s, e) && AllKnown(s)
    requires s.rows[e.id].status == Pending || s.rows[e.id].status == Failed
    ensures Known(Next(s, e).rows[e.id], Next(s, e).log, e.id)
  {
    TryDoes(s, e);
    hide Count, IsLast, Next, Enabled;
    var t := Next(s, e);
    var a := t.log[|s.log|];
    assert t.log == s.log + [a];
    CountSnoc(s.log, a, e.id, IsTransient);
    forall j: nat ensures IsLast(t.log, e.id, j) <==> j == |s.log| { LastSnoc(s.log, a, e.id, j); }
    assert t.log[..|s.log|] == s.log;
  }

  lemma NextKnown(s: State, e: Event)
    requires Inv(s) && AllKnown(s) && Enabled(s, e)
    ensures AllKnown(Next(s, e))
  {
    hide Count, Known;
    match e
    case Insert(id, now, wentOut) => InsertKnown(s, id, now);
    case ResetStale(olderThan, now) =>
      forall id | id in s.rows ensures Known(Next(s, e).rows[id], s.log, id) {
        ResetKnown(s, olderThan, now, id);
      }
    case Try(id, _, _, _, _, _) =>
      if Claimable(s.rows[id]) {
        TriedKnown(s, e);
        TryDoes(s, e);
        hide Next, Enabled;
        var t := Next(s, e);
        assert t.log == s.log + [t.log[|s.log|]];
        forall other | other in s.rows && other != id ensures Known(t.rows[other], t.log, other) {
          OthersKnown(s.rows[other], s.log, t.log[|s.log|], other);
        }
      }
  }

  lemma InsertKnown(s: State, id: nat, now: int)
    requires Inv(s) && id !in s.rows
    ensures Known(Row(now, 0, None, Pending), s.log, id)
  {
    NoHistory(s.log, id, IsTransient);
    assert forall j: nat :: !IsLast(s.log, id, j);
  }

  lemma ResetKnown(s: State, olderThan: int, now: int, id: nat)
    requires id in s.rows && Known(s.rows[id], s.log, id)
    ensures Known(Next(s, ResetStale(olderThan, now)).rows[id], s.log, id)
  {
    hide Count, IsLast;
    ResetDoes(s, olderThan, now, id);
    hide Next;
  }

  lemma {:induction false} RunKnown(s: State, run: seq<Event>)
    requires Inv(s) && AllKnown(s) && Legal(s, run)
    ensures AllKnown(Exec(s, run))
    decreases |run|
  {
    hide Inv, AllKnown, Next, Enabled;
    if run != [] {
      NextKeepsInv(s, run[0]);
      NextKnown(s, run[0]);
      RunKnown(Next(s, run[0]), run[1..]);
    }
  }

  lemma RunIsKnown(run: seq<Event>)
    requires Legal(EMPTY, run)
    ensures Inv(Exec(EMPTY, run)) && AllKnown(Exec(EMPTY, run))
  {
    RunKeepsInv(EMPTY, run);
    RunKnown(EMPTY, run);
  }

  /** Over every run a row counts its transient errors, up to six. */
  lemma FailuresAreCounted(run: seq<Event>, id: nat)
    requires Legal(EMPTY, run) && id in Exec(EMPTY, run).rows
    ensures var s := Exec(EMPTY, run); var n := Count(s.log, id, IsTransient);
            s.rows[id].attempts == if n < 6 then n else 6
  {
    hide Exec, Legal, Count, Inv;
    RunIsKnown(run);
  }

  /**
    Over every run the last attempt decides the status: sent after a copy found or an accepted
    request, failed after a permanent error or a seventh transient one, waiting after an earlier
    transient one, and sending or waiting if its result was not recorded.
  */
  lemma LastAttemptDecides(run: seq<Event>, id: nat) returns (j: nat)
    requires Legal(EMPTY, run) && id in Exec(EMPTY, run).rows
    ensures var s := Exec(EMPTY, run); var status := s.rows[id].status;
      if forall k :: 0 <= k < |s.log| ==> s.log[k].id != id then status == Pending
      else j < |s.log| && s.log[j].id == id && (forall k :: j < k < |s.log| ==> s.log[k].id != id)
           && s.rows[id].lastAttemptAt == Some(s.log[j].stamp)
           && var fate := s.log[j].fate;
              if !fate.recorded then status == Sending || status == Pending
              else match fate.answer
                case CopyFound => status == Sent
                case Accepted => status == Sent
                case PermanentError(_) => status == Failed
                case TransientError(_) =>
                  status == if Count(s.log[..j], id, IsTransient) < 6 then Pending else Failed
  {
    hide Exec, Legal, Count, Inv;
    RunIsKnown(run);
    j := LastAttempt(Exec(EMPTY, run).log, id);
  }

  /** The seconds a row waits after its `n`-th transient error. */
  function WaitAfter(n: nat): int {
    match n case 0 => 0 case 1 => 30 case 2 => 60 case 3 => 120 case 4 => 300 case 5 => 900 case _ => 1800
  }

  /**
    Over every run, a row that is not failed is due for an automatic attempt exactly from 30, 60, 120,
    300, 900 or 1800 seconds after its last attempt on, depending on how many transient errors it met,
    and at once if it met none. A failed row is never due.
  */
  lemma DueExactly(run: seq<Event>, id: nat, now: int)
    requires Legal(EMPTY, run) && id in Exec(EMPTY, run).rows
    ensures var s := Exec(EMPTY, run); var n := Count(s.log, id, IsTransient);
      DueForAutomaticSend(s.rows[id], now) <==>
        s.rows[id].status != Failed
        && (n == 0 || (LastStamp(s.log, id).Some? && now >= LastStamp(s.log, id).value + WaitAfter(n)))
  {
    hide Exec, Legal, Count, LastStamp;
    RunIsKnown(run);
    var s := Exec(EMPTY, run);
    assert Agrees(s.rows[id], s.log, id);
    if Count(s.log, id, IsTransient) > 0 { TransientHasStamp(s.log, id); }
  }

  lemma {:induction false} TransientHasStamp(log: seq<Attempt>, id: nat)
    requires Count(log, id, IsTransient) > 0
    ensures LastStamp(log, id).Some?
  {
    if log[|log| - 1].id != id { TransientHasStamp(log[..|log| - 1], id); }
  }

  /** A transient error below the seventh: the row waits, counts one more, and is due again from then on. */
  lemma TransientIsRetried(run: seq<Event>, e: Event, now: int)
    requires Legal(EMPTY, run) && Enabled(Exec(EMPTY, run), e)
    requires e.Try? && e.fate.recorded && e.fate.answer.TransientError?
    requires var s := Exec(EMPTY, run);
             Count(s.log, e.id, IsTransient) < 6
             && (s.rows[e.id].status == Pending || s.rows[e.id].status == Failed)
    ensures var s := Exec(EMPTY, run); var t := Next(s, e); var n := Count(s.log, e.id, IsTransient);
      && e.id in t.rows && t.rows[e.id].status == Pending && t.rows[e.id].attempts == n + 1
      && (DueForAutomaticSend(t.rows[e.id], now) <==> now >= e.ended + WaitAfter(n + 1))
  {
    hide Exec, Legal, Count, DueForAutomaticSend;
    ExecSnoc(EMPTY, run, e);
    var s := Exec(EMPTY, run);
    FailuresAreCounted(run, e.id);
    TryDoes(s, e);
    hide Next, Enabled, LastStamp;
    var t := Next(s, e);
    var a := t.log[|s.log|];
    assert t.log == s.log + [a];
    CountSnoc(s.log, a, e.id, IsTransient);
    DueExactly(run + [e], e.id, now);
  }

  // ---------- the bound on automatic attempts is attained ----------

  /** The time of the `k`-th automatic attempt when each comes as soon as it is due. */
  function TimeOf(start: int, k: nat): int {
    if k == 0 then start else TimeOf(start, k - 1) + WaitAfter(k)
  }

  const TIMEOUT: Fate := Fate(TransientError(false), true)

  function AttemptAt(id: nat, start: int, k: nat): Event {
    Try(id, true, TimeOf(start, k), TimeOf(start, k), TimeOf(start, k), TIMEOUT)
  }

  function RowAfter(start: int, n: nat): Row {
    if n == 0 then Row(start, 0, None, Pending)
    else if n < 7 then Row(start, n, Some(TimeOf(start, n - 1)), Pending)
    else Row(start, 6, Some(TimeOf(start, 6)), Failed)
  }

  lemma NextAttempt(s: State, id: nat, start: int, n: nat)
    requires n < 7 && id in s.rows && s.rows[id] == RowAfter(start, n)
    ensures Enabled(s, AttemptAt(id, start, n)) && Next(s, AttemptAt(id, start, n)).rows[id] == RowAfter(start, n + 1)
  {
  }

  /** A message that times out each time is tried seven times on its own and then fails. */
  lemma {:induction false} TimedOutEachTime(id: nat, start: int, n: nat) returns (run: seq<Event>)
    requires n <= 7
    ensures Legal(EMPTY, run) && id in Exec(EMPTY, run).rows && Exec(EMPTY, run).rows[id] == RowAfter(start, n)
    ensures var log := Exec(EMPTY, run).log; Count(log, id, IsAutomatic) == n && Count(log, id, IsLost) == 0
  {
    if n == 0 {
      run := [Insert(id, start, false)];
      Stop(Next(EMPTY, run[0]));
      Onward(EMPTY, run[0], []);
      assert [run[0]] + [] == run;
    } else {
      var before := TimedOutEachTime(id, start, n - 1);
      var s, e := Exec(EMPTY, before), AttemptAt(id, start, n - 1);
      NextAttempt(s, id, start, n - 1);
      ExecSnoc(EMPTY, before, e);
      run := before + [e];
      TryDoes(s, e);
      hide Exec, Legal, Count, Next, Enabled;
      var a := Next(s, e).log[|s.log|];
      assert Next(s, e).log == s.log + [a];
      CountSnoc(s.log, a, id, IsAutomatic);
      CountSnoc(s.log, a, id, IsLost);
    }
  }

  /** Seven automatic attempts do happen, with none lost; after them the row has failed and is never due. */
  lemma SevenAttemptsAreReached(id: nat, start: int, now: int) returns (run: seq<Event>)
    ensures Legal(EMPTY, run) && id in Exec(EMPTY, run).rows
    ensures var s := Exec(EMPTY, run);
      && Count(s.log, id, IsAutomatic) == 7 && Count(s.log, id, IsLost) == 0
      && s.rows[id].status == Failed && !DueForAutomaticSend(s.rows[id], now)
  {
    hide Exec, Legal, Count;
    run := TimedOutEachTime(id, start, 7);
  }
}
