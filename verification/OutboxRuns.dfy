/**
  What holds over every run of the outbox, with any number of rows, ticks and requested retries.
*/
module OutboxRuns {
  import opened Text
  import opened Outbox

  ghost function LogOf(run: seq<Event>): seq<Attempt>
    requires Legal(EMPTY, run)
  {
    Exec(EMPTY, run).log
  }

  lemma RunFromEmpty(run: seq<Event>)
    requires Legal(EMPTY, run)
    ensures Inv(Exec(EMPTY, run))
  {
    RunKeepsInv(EMPTY, run);
  }

  /**
    At most seven automatic attempts per message, besides those whose result was lost, however
    often the user retries.
  */
  lemma AutomaticAttemptsAreBounded(run: seq<Event>, id: nat)
    requires Legal(EMPTY, run)
    ensures Count(LogOf(run), id, IsAutomatic) <= MAX_ATTEMPTS + Count(LogOf(run), id, IsLost)
  {
    hide Count, LastStamp, Exec, Legal;
    RunFromEmpty(run);
    var s := Exec(EMPTY, run);
    if id !in s.rows { NoHistory(s.log, id, IsAutomatic); }
  }

  /**
    A message goes out at most once besides the times the row did not learn of it: because it was out
    when it was queued, because a request ended in an error although the server had accepted it, or
    because a result was lost.
  */
  lemma GoesOutOnce(run: seq<Event>, id: nat)
    requires Legal(EMPTY, run)
    ensures var s := Exec(EMPTY, run);
            Deliveries(s, id) <= 1 + Directly(s, id) + Count(s.log, id, Unacknowledged)
  {
    hide Count, LastStamp, Exec, Legal;
    RunFromEmpty(run);
    var s := Exec(EMPTY, run);
    if id !in s.rows { NoHistory(s.log, id, WentOut); }
  }

  /**
    When a message goes out again, every earlier time it went out was unacknowledged, and the look
    for a sent copy before this attempt missed it.
  */
  lemma RepeatsComeFromMisses(run: seq<Event>, i: nat, j: nat)
    requires Legal(EMPTY, run) && i < j < |LogOf(run)| && LogOf(run)[i].id == LogOf(run)[j].id
    requires WentOut(LogOf(run)[i]) && WentOut(LogOf(run)[j])
    ensures Unacknowledged(LogOf(run)[i]) && !LogOf(run)[j].fate.answer.CopyFound?
  {
    hide Count, LastStamp, Exec, Legal;
    RunFromEmpty(run);
    var log := LogOf(run);
    assert Unsettled(log, j);
    if Settled(log[i]) {
      assert log[..j][i] == log[i];
      CountPositive(log[..j], i, Settled);
    }
  }

  lemma {:induction false} CountPositive(log: seq<Attempt>, i: nat, p: Attempt -> bool)
    requires i < |log| && p(log[i])
    ensures Count(log, log[i].id, p) > 0
  {
    if i < |log| - 1 { CountPositive(log[..|log| - 1], i, p); }
  }

  /** The sent copy is looked for before every attempt; here it is found whenever the message is out already. */
  ghost predicate CopyCheckReliable(s: State, id: nat) {
    forall j :: 0 <= j < |s.log| && s.log[j].id == id && Directly(s, id) + Count(s.log[..j], id, WentOut) > 0 ==>
      s.log[j].fate.answer.CopyFound?
  }

  /**
    With a reliable look for the sent copy a message goes out at most once, whatever is lost, times
    out or is retried.
  */
  lemma {:induction false} ReliableCheckMeansOnce(s: State, id: nat)
    requires CopyCheckReliable(s, id)
    ensures Deliveries(s, id) <= 1
    decreases |s.log|
  {
    if s.log != [] {
      var n := |s.log| - 1;
      var before := s.(log := s.log[..n]);
      forall j | 0 <= j < n && before.log[j].id == id && Directly(s, id) + Count(before.log[..j], id, WentOut) > 0
        ensures before.log[j].fate.answer.CopyFound?
      {
        assert before.log[..j] == s.log[..j];
      }
      ReliableCheckMeansOnce(before, id);
    }
  }

  lemma {:induction false} CountGrows(log: seq<Attempt>, j: nat, id: nat, p: Attempt -> bool)
    requires j <= |log|
    ensures Count(log[..j], id, p) <= Count(log, id, p)
  {
    if j < |log| {
      assert log[..|log| - 1][..j] == log[..j];
      CountGrows(log[..|log| - 1], j, id, p);
    } else {
      assert log[..j] == log;
    }
  }

  /**
    With a reliable look for the sent copy, the first attempt after the message is out whose result is
    recorded marks the row sent, and the message has gone out exactly once by the end of every run.
  */
  lemma ReliableCheckSettles(run: seq<Event>, j: nat)
    requires Legal(EMPTY, run) && j < |LogOf(run)| && LogOf(run)[j].fate.recorded
    requires var id := LogOf(run)[j].id;
             CopyCheckReliable(Exec(EMPTY, run), id)
             && Directly(Exec(EMPTY, run), id) + Count(LogOf(run)[..j], id, WentOut) > 0
    ensures var s, id := Exec(EMPTY, run), LogOf(run)[j].id;
            id in s.rows && s.rows[id].status == Sent && Deliveries(s, id) == 1
            && forall k :: j < k < |s.log| ==> s.log[k].id != id
  {
    hide Count, LastStamp, Exec, Legal;
    RunFromEmpty(run);
    var s, id := Exec(EMPTY, run), LogOf(run)[j].id;
    ReliableCheckMeansOnce(s, id);
    CountGrows(s.log, j, id, WentOut);
    assert Settled(s.log[j]);
    CountPositive(s.log, j, Settled);
    forall k | j < k < |s.log| ensures s.log[k].id != id {
      assert Unsettled(s.log, k);
      assert s.log[..k][j] == s.log[j];
      CountPositive(s.log[..k], j, Settled);
    }
  }

  /** A row is marked sent exactly when an attempt that won its claim found it delivered. */
  lemma SentIffSettled(run: seq<Event>, id: nat)
    requires Legal(EMPTY, run) && id in Exec(EMPTY, run).rows
    ensures Exec(EMPTY, run).rows[id].status == Sent <==> Count(LogOf(run), id, Settled) == 1
  {
    hide Count, LastStamp, Exec, Legal;
    RunFromEmpty(run);
  }

  /** A sent row is left alone for good. */
  lemma {:induction false} SentStays(s: State, run: seq<Event>, id: nat)
    requires Legal(s, run) && id in s.rows && s.rows[id].status == Sent
    ensures id in Exec(s, run).rows && Exec(s, run).rows[id] == s.rows[id]
    ensures Deliveries(Exec(s, run), id) == Deliveries(s, id)
    decreases |run|
  {
    if run != [] {
      var t := Next(s, run[0]);
      if |t.log| > |s.log| {
        CountSnoc(s.log, t.log[|s.log|], id, WentOut);
      }
      SentStays(t, run[1..], id);
    }
  }

  /** Every automatic retry in every run came at least its backoff entry after the attempt before it. */
  lemma RetriesWait(run: seq<Event>, j: nat)
    requires Legal(EMPTY, run) && j < |LogOf(run)|
    requires LogOf(run)[j].automatic && Count(LogOf(run)[..j], LogOf(run)[j].id, IsCounted) > 0
    ensures var a := LogOf(run)[j];
            LastStamp(LogOf(run)[..j], a.id).Some?
            && a.checked >= LastStamp(LogOf(run)[..j], a.id).value + Wait(Count(LogOf(run)[..j], a.id, IsCounted))
  {
    hide Count, LastStamp, Exec, Legal;
    RunFromEmpty(run);
    assert Waited(LogOf(run), j);
  }

  /**
    A row never counts a seventh failure, so no wait is longer than 1800 seconds: the last backoff
    entry is never used.
  */
  lemma LastBackoffIsNeverUsed(run: seq<Event>, id: nat)
    requires Legal(EMPTY, run) && id in Exec(EMPTY, run).rows
    ensures var attempts := Exec(EMPTY, run).rows[id].attempts;
            attempts < MAX_ATTEMPTS && (attempts > 0 ==> Wait(attempts) <= 1800)
  {
    hide Count, LastStamp, Exec, Legal;
    RunFromEmpty(run);
  }

  /** Unless some result was lost, no row rests in `Sending`, and reclaiming stale rows does nothing. */
  lemma ResetsFindNothing(run: seq<Event>, olderThan: int, now: int)
    requires Legal(EMPTY, run) && forall id :: Count(LogOf(run), id, IsLost) == 0
    ensures Next(Exec(EMPTY, run), ResetStale(olderThan, now)) == Exec(EMPTY, run)
  {
    hide Count, LastStamp, Exec, Legal;
    RunFromEmpty(run);
    var s := Exec(EMPTY, run);
    forall id | id in s.rows ensures s.rows[id].status != Sending {
      assert Agrees(s.rows[id], s.log, id);
      assert Count(LogOf(run), id, IsLost) == 0;
    }
    assert Reclaimed(s.rows, now - olderThan) == s.rows;
  }

  function OneRow(id: nat, row: Row, log: seq<Attempt>): State {
    State(map[id := row], log, {})
  }

  lemma TryOnOneRow(id: nat, row: Row, log: seq<Attempt>, now: int, fate: Fate)
    requires row.status == Pending && DueForAutomaticSend(row, now)
    ensures var s, e := OneRow(id, row, log), Try(id, true, now, now, now, fate);
            Enabled(s, e) &&
            Next(s, e) == OneRow(id, Settle(Claim(row, now), fate, now), log + [AttemptOf(e, row)])
  {
    hide ReadyToRetry;
  }

  lemma ReclaimOneRow(id: nat, row: Row, log: seq<Attempt>, now: int)
    requires row.status == Sending && row.lastAttemptAt == Some(now)
    ensures Next(OneRow(id, row, log), ResetStale(0, now)) == OneRow(id, row.(status := Pending), log)
  {
  }

  lemma TwoWentOut(id: nat, first: Attempt, second: Attempt)
    requires first.id == id && second.id == id && WentOut(first) && WentOut(second)
    ensures Count([first] + [second], id, WentOut) == 2
  {
    NoHistory([], id, WentOut);
    CountSnoc([], first, id, WentOut);
    assert [] + [first] == [first];
    CountSnoc([first], second, id, WentOut);
  }

  /** A lost result: a message sent just before an interruption goes out again after the restart. */
  lemma InterruptedSendRepeats(id: nat, now: int) returns (run: seq<Event>)
    ensures Legal(EMPTY, run) && Count(LogOf(run), id, WentOut) == 2
  {
    hide Legal, Exec, Count;
    var lost, sent := Fate(Accepted, false), Fate(Accepted, true);
    var insert, restart := Insert(id, now, false), ResetStale(0, now);
    var send, again := Try(id, true, now, now, now, lost), Try(id, true, now, now, now, sent);
    var queued, held := Row(now, 0, None, Pending), Row(now, 0, Some(now), Sending);
    var freed := Row(now, 0, Some(now), Pending);
    var first, second := AttemptOf(send, queued), AttemptOf(again, freed);
    assert Next(EMPTY, insert) == OneRow(id, queued, []);
    TryOnOneRow(id, queued, [], now, lost);
    assert [] + [first] == [first];
    ReclaimOneRow(id, held, [first], now);
    TryOnOneRow(id, freed, [first], now, sent);
    FirstSteps(id, now, OneRow(id, held, [first]));
    hide Next, Enabled;
    Stop(OneRow(id, freed.(status := Sent), [first] + [second]));
    Onward(OneRow(id, freed, [first]), again, []);
    Onward(OneRow(id, held, [first]), restart, [again] + []);
    Onward(OneRow(id, queued, []), send, [restart] + ([again] + []));
    Onward(EMPTY, insert, [send] + ([restart] + ([again] + [])));
    run := [insert] + ([send] + ([restart] + ([again] + [])));
    TwoWentOut(id, first, second);
  }

  /** A timed-out request: the server accepted the message, the row counts a failure, and the retry sends it again. */
  lemma TimedOutSendRepeats(id: nat, now: int) returns (run: seq<Event>)
    ensures Legal(EMPTY, run) && Count(LogOf(run), id, WentOut) == 2 && Count(LogOf(run), id, IsLost) == 0
  {
    hide Legal, Exec, Count;
    var timeout, sent := Fate(TransientError(true), true), Fate(Accepted, true);
    var later := now + Wait(1);
    var insert := Insert(id, now, false);
    var send, again := Try(id, true, now, now, now, timeout), Try(id, true, later, later, later, sent);
    var queued, counted := Row(now, 0, None, Pending), Row(now, 1, Some(now), Pending);
    var first, second := AttemptOf(send, queued), AttemptOf(again, counted);
    assert Next(EMPTY, insert) == OneRow(id, queued, []);
    TryOnOneRow(id, queued, [], now, timeout);
    assert [] + [first] == [first];
    assert Settle(Claim(queued, now), timeout, now) == counted;
    TryOnOneRow(id, counted, [first], later, sent);
    FirstSteps(id, now, EMPTY);
    hide Next, Enabled;
    Stop(OneRow(id, Settle(Claim(counted, later), sent, later), [first] + [second]));
    Onward(OneRow(id, counted, [first]), again, []);
    Onward(OneRow(id, queued, []), send, [again] + []);
    Onward(EMPTY, insert, [send] + ([again] + []));
    run := [insert] + ([send] + ([again] + []));
    TwoWentOut(id, first, second);
    NoHistory([], id, IsLost);
    CountSnoc([], first, id, IsLost);
    CountSnoc([first], second, id, IsLost);
  }

  /** A direct send that timed out: the message is queued although the server accepted it, and goes out again. */
  lemma QueuedAlthoughSent(id: nat, now: int) returns (run: seq<Event>)
    ensures Legal(EMPTY, run) && Deliveries(Exec(EMPTY, run), id) == 2
    ensures Count(LogOf(run), id, Unacknowledged) == 0
  {
    hide Count;
    var insert, send := Insert(id, now, true), Try(id, true, now, now, now, Fate(Accepted, true));
    var queued := Next(EMPTY, insert);
    var a := AttemptOf(send, queued.rows[id]);
    assert queued.rows[id] == Row(now, 0, None, Pending);
    Stop(Next(queued, send));
    Onward(queued, send, []);
    Onward(EMPTY, insert, [send] + []);
    run := [insert] + ([send] + []);
    NoHistory([], id, WentOut);
    NoHistory([], id, Unacknowledged);
    CountSnoc([], a, id, WentOut);
    CountSnoc([], a, id, Unacknowledged);
  }

  lemma FirstSteps(id: nat, now: int, s: State)
    ensures Enabled(EMPTY, Insert(id, now, false)) && Enabled(s, ResetStale(0, now))
  {
  }
}
