/**
  The outbox table and the code that works on it: the claim and the result of one attempt, the
  ticks of the automatic loop, and retries on request. Each is a run of the steps in `Outbox`.
*/
module OutboxStore {
  import opened Text
  import opened Outbox

  /** What sending comes to; an error says whether the server had accepted the message all the same. */
  datatype Reply = Ok | Permanent(wentOut: bool) | Transient(wentOut: bool)

  /** What one attempt meets: whether the claim can be written, what it finds, and whether its result can be written. */
  datatype World = World(claimWorks: bool, copyFound: bool, reply: Reply, recorded: bool)

  function AnswerOf(w: World): Answer {
    if w.copyFound then CopyFound
    else match w.reply
      case Ok => Accepted
      case Permanent(wentOut) => PermanentError(wentOut)
      case Transient(wentOut) => TransientError(wentOut)
  }

  function FateOf(w: World): Fate {
    Fate(AnswerOf(w), w.recorded)
  }

  /** The server has the message, whatever it answered. */
  predicate Delivers(r: Reply) {
    match r case Ok => true case Permanent(wentOut) => wentOut case Transient(wentOut) => wentOut
  }

  /** What an attempt whose result is recorded makes of a row: a copy found or an accepted request ends it. */
  predicate Settles(w: World, row: Row, after: Row) {
    if w.copyFound || w.reply.Ok? then after.status == Sent
    else if w.reply.Permanent? || row.attempts >= 6 then after.status == Failed && after.attempts == row.attempts
    else after.status == Pending && after.attempts == row.attempts + 1
  }

  /** An attempt delivers the message exactly when no copy is found and the server accepts it. */
  lemma ProcessDelivers(s: State, e: Event, w: World)
    requires e.Try? && Enabled(s, e) && e.fate == FateOf(w)
    ensures Deliveries(Next(s, e), e.id) == Deliveries(s, e.id) +
      if s.rows[e.id].status != Sending && !w.copyFound && Delivers(w.reply) then 1 else 0
    ensures s.rows[e.id].status != Sending && w.recorded ==> Settles(w, s.rows[e.id], Next(s, e).rows[e.id])
  {
    if s.rows[e.id].status != Sending {
      CountSnoc(s.log, AttemptOf(e, s.rows[e.id]), e.id, WentOut);
    }
  }

  /** The listing of a tick: every row not sent, each once, oldest first. */
  ghost predicate IsListing(rows: map<nat, Row>, order: seq<nat>) {
    && (forall k :: 0 <= k < |order| ==> order[k] in rows && rows[order[k]].status != Sent)
    && (forall id :: id in rows && rows[id].status != Sent ==> id in order)
    && (forall j, k :: 0 <= j < k < |order| ==>
      order[j] != order[k] && rows[order[j]].queuedAt <= rows[order[k]].queuedAt)
  }

  /** Clock readings of a tick: one for the reclaim, then three for each listed row. */
  function Checked(clock: nat -> int, k: nat): int { clock(3 * k + 1) }

  function TryOf(id: nat, clock: nat -> int, world: nat -> World, k: nat): Event {
    Try(id, true, Checked(clock, k), clock(3 * k + 2), clock(3 * k + 3), FateOf(world(k)))
  }

  ghost predicate Listable(rows: map<nat, Row>, order: seq<nat>) {
    forall j :: 0 <= j < |order| ==> order[j] in rows
  }

  /** The attempts of a tick over its first `k` listed rows: those that were due when their turn came. */
  ghost function TickTries(rows: map<nat, Row>, order: seq<nat>, clock: nat -> int, world: nat -> World,
      k: nat): seq<Event>
    requires k <= |order| && Listable(rows, order)
  {
    if k == 0 then []
    else
      TickTries(rows, order, clock, world, k - 1) +
      if DueForAutomaticSend(rows[order[k - 1]], Checked(clock, k - 1)) && world(k - 1).claimWorks
      then [TryOf(order[k - 1], clock, world, k - 1)] else []
  }

  /** The automatic attempt on a row at its turn, with the clock readings of that turn. */
  ghost predicate IsTurn(e: Event, id: nat, clock: nat -> int, world: nat -> World, n: nat) {
    && e.Try? && e.automatic && e.id == id && e.fate == FateOf(world(n))
    && e.checked == clock(3 * n + 1) && e.claimed == clock(3 * n + 2) && e.ended == clock(3 * n + 3)
  }

  /** A tick tries exactly the listed rows that are due when their turn comes and whose claim can be written. */
  lemma {:induction false} DueRowsAreTried(rows: map<nat, Row>, order: seq<nat>, clock: nat -> int,
      world: nat -> World, k: nat) returns (turns: seq<nat>)
    requires k <= |order| && Listable(rows, order)
    ensures var tries := TickTries(rows, order, clock, world, k);
      && |turns| == |tries| && (forall i, j :: 0 <= i < j < |turns| ==> turns[i] < turns[j])
      && (forall i :: 0 <= i < |turns| ==> turns[i] < k && IsTurn(tries[i], order[turns[i]], clock, world, turns[i]))
    ensures forall n :: 0 <= n < k ==>
      (n in turns <==> world(n).claimWorks && DueForAutomaticSend(rows[order[n]], clock(3 * n + 1)))
  {
    hide DueForAutomaticSend, FateOf;
    turns := [];
    if k > 0 {
      turns := DueRowsAreTried(rows, order, clock, world, k - 1);
      if DueForAutomaticSend(rows[order[k - 1]], Checked(clock, k - 1)) && world(k - 1).claimWorks {
        turns := turns + [k - 1];
      }
    }
  }

  /** The listed rows from `k` on are still as they were listed. */
  ghost predicate AsListed(rows: map<nat, Row>, listed: map<nat, Row>, order: seq<nat>, k: nat) {
    forall j :: k <= j < |order| ==> order[j] in rows && order[j] in listed && rows[order[j]] == listed[order[j]]
  }

  lemma NextAsListed(s: State, e: Event, listed: map<nat, Row>, order: seq<nat>, k: nat)
    requires e.Try? && Enabled(s, e) && k < |order| && e.id == order[k]
    requires IsListing(listed, order) && AsListed(s.rows, listed, order, k)
    ensures AsListed(Next(s, e).rows, listed, order, k + 1)
  {
    hide Settle, Claim, Claimable, DueForAutomaticSend;
  }

  lemma RowAsListed(rows: map<nat, Row>, listed: map<nat, Row>, order: seq<nat>, k: nat)
    requires IsListing(listed, order) && AsListed(rows, listed, order, k) && k < |order|
    ensures order[k] in rows && order[k] in listed && rows[order[k]] == listed[order[k]]
      && listed[order[k]].status != Sent
    ensures AsListed(rows, listed, order, k + 1)
  {
  }

  lemma ReclaimKeepsListing(rows: map<nat, Row>, order: seq<nat>, cutoff: int)
    requires IsListing(rows, order)
    ensures IsListing(Reclaimed(rows, cutoff), order)
  {
  }

  lemma TryEnabled(s: State, row: Row, e: Event)
    requires e.Try? && e.automatic && e.id in s.rows && s.rows[e.id] == row && row.status != Sent
    requires DueForAutomaticSend(row, e.checked)
    ensures Enabled(s, e)
  {
  }

  lemma NoTriesYet(rows: map<nat, Row>, order: seq<nat>, clock: nat -> int, world: nat -> World, head: seq<Event>)
    requires IsListing(rows, order)
    ensures Listable(rows, order) && head + TickTries(rows, order, clock, world, 0) == head
    ensures AsListed(rows, rows, order, 0)
  {
  }

  lemma StartTick(before: State, after: State, e: Event)
    requires e.ResetStale? && after == Next(before, e)
    ensures Legal(before, [e]) && Exec(before, [e]) == after
  {
    Stop(after);
    Onward(before, e, []);
    assert [e] + [] == [e];
  }

  lemma TickTriesStep(rows: map<nat, Row>, order: seq<nat>, clock: nat -> int, world: nat -> World, k: nat,
      head: seq<Event>)
    requires k < |order| && Listable(rows, order)
    ensures order[k] in rows && head + TickTries(rows, order, clock, world, k + 1) ==
      head + TickTries(rows, order, clock, world, k) +
      if DueForAutomaticSend(rows[order[k]], Checked(clock, k))
        && world(k).claimWorks then [TryOf(order[k], clock, world, k)] else []
  {
    hide DueForAutomaticSend, TryOf;
  }

  class Store {
    var rows: map<nat, Row>
    ghost var log: seq<Attempt>
    ghost var direct: set<nat>

    ghost function View(): State
      reads this
    {
      State(rows, log, direct)
    }

    constructor ()
      ensures View() == EMPTY
    {
      rows, log, direct := map[], [], {};
    }

    /** The database hands out a row number it has not used. */
    method InsertRow(id: nat, now: int, ghost wentOut: bool)
      requires id !in rows
      modifies this
      ensures View() == Next(old(View()), Insert(id, now, wentOut))
    {
      if wentOut { direct := direct + {id}; }
      rows := rows[id := Row(now, 0, None, Pending)];
    }

    /** The claim: only a pending or failed row can be taken. */
    method MarkSending(id: nat, now: int) returns (n: nat)
      modifies `rows
      ensures n == if id in old(rows) && Claimable(old(rows)[id]) then 1 else 0
      ensures rows == if n == 1 then old(rows)[id := Claim(old(rows)[id], now)] else old(rows)
      ensures n == 1 ==> !Claimable(rows[id])
    {
      n := 0;
      if id in rows && Claimable(rows[id]) {
        rows := rows[id := Claim(rows[id], now)];
        n := 1;
      }
    }

    method MarkSent(id: nat, now: int)
      requires id in rows
      modifies `rows
      ensures rows == old(rows)[id := Settle(old(rows)[id], Fate(Accepted, true), now)]
    {
      rows := rows[id := rows[id].(status := Sent, lastAttemptAt := Some(now))];
    }

    method MarkFailed(id: nat, now: int)
      requires id in rows
      modifies `rows
      ensures rows == old(rows)[id := Settle(old(rows)[id], Fate(PermanentError(false), true), now)]
    {
      rows := rows[id := rows[id].(status := Failed, lastAttemptAt := Some(now))];
    }

    method BumpAttempt(id: nat, now: int)
      requires id in rows
      modifies `rows
      ensures rows == old(rows)[id := old(rows)[id].(
        attempts := old(rows)[id].attempts + 1, status := Pending, lastAttemptAt := Some(now))]
    {
      rows := rows[id := rows[id].(attempts := rows[id].attempts + 1, lastAttemptAt := Some(now), status := Pending)];
    }

    method ResetStaleSending(olderThan: int, now: int)
      modifies `rows
      ensures View() == Next(old(View()), ResetStale(olderThan, now))
      ensures rows.Keys == old(rows).Keys
      ensures forall id :: id in rows ==>
        !IsStale(rows[id], now - olderThan) && (!IsStale(old(rows)[id], now - olderThan) ==> rows[id] == old(rows)[id])
    {
      rows := Reclaimed(rows, now - olderThan);
    }

    /** One attempt, from the row as it was listed: claim it, look for a sent copy, send, and record the result. */
    method ProcessOne(id: nat, row: Row, ghost automatic: bool, ghost checked: int, w: World, claimed: int, ended: int)
      requires id in rows && rows[id] == row && row.status != Sent
      requires automatic ==> DueForAutomaticSend(row, checked)
      modifies this
      ensures View() ==
        if w.claimWorks then Next(old(View()), Try(id, automatic, checked, claimed, ended, FateOf(w))) else old(View())
      ensures id in rows && (w.claimWorks && w.recorded && row.status != Sending ==> Settles(w, row, rows[id]))
      ensures Deliveries(View(), id) == old(Deliveries(View(), id)) +
        if w.claimWorks && row.status != Sending && !w.copyFound && Delivers(w.reply) then 1 else 0
    {
      ProcessDelivers(View(), Try(id, automatic, checked, claimed, ended, FateOf(w)), w);
      if !w.claimWorks {
        return;
      }
      var n := MarkSending(id, claimed);
      if n == 0 {
        return;
      }
      log := log + [AttemptOf(Try(id, automatic, checked, claimed, ended, FateOf(w)), row)];
      if !w.recorded {
        return;
      }
      if w.copyFound {
        MarkSent(id, ended);
        return;
      }
      match w.reply {
        case Ok =>
          MarkSent(id, ended);
        case Permanent(_) =>
          MarkFailed(id, ended);
        case Transient(_) =>
          var nextAttempts := row.attempts + 1;
          if nextAttempts >= MAX_ATTEMPTS {
            MarkFailed(id, ended);
          } else {
            BumpAttempt(id, ended);
          }
      }
    }

    /** A listed row's turn: it is tried if it is due now. */
    method TryIfDue(id: nat, row: Row, clock: nat -> int, world: nat -> World, k: nat)
      requires id in rows && rows[id] == row && row.status != Sent
      modifies this
      ensures View() ==
        if DueForAutomaticSend(row, Checked(clock, k)) && world(k).claimWorks
        then Next(old(View()), TryOf(id, clock, world, k)) else old(View())
    {
      hide Next, FateOf;
      if DueForAutomaticSend(row, Checked(clock, k)) {
        ProcessOne(id, row, true, Checked(clock, k), world(k), clock(3 * k + 2), clock(3 * k + 3));
      }
    }

    /** One tick: reclaim stale claims, then try every listed row that is due, oldest first. */
    method Tick(order: seq<nat>, clock: nat -> int, world: nat -> World) returns (ghost run: seq<Event>)
      requires IsListing(rows, order)
      modifies this
      ensures Legal(old(View()), run) && View() == Exec(old(View()), run)
      ensures var listed := Reclaimed(old(rows), clock(0) - STALE_SENDING_SECS);
              Listable(listed, order)
                && run == [ResetStale(STALE_SENDING_SECS, clock(0))] + TickTries(listed, order, clock, world, |order|)
    {
      hide DueForAutomaticSend, FateOf, Legal, Exec, IsListing, AsListed, TickTries, Enabled, Reclaimed, IsStale;
      ghost var before := View();
      ghost var head := [ResetStale(STALE_SENDING_SECS, clock(0))];
      ReclaimKeepsListing(rows, order, clock(0) - STALE_SENDING_SECS);
      ResetStaleSending(STALE_SENDING_SECS, clock(0));
      run := head;
      StartTick(before, View(), head[0]);
      var listed := rows;
      NoTriesYet(listed, order, clock, world, head);
      hide Next;
      for k := 0 to |order|
        invariant Listable(listed, order) && run == head + TickTries(listed, order, clock, world, k)
        invariant Legal(before, run) && View() == Exec(before, run)
        invariant AsListed(rows, listed, order, k)
      {
        hide Listable;
        TickTriesStep(listed, order, clock, world, k, head);
        RowAsListed(rows, listed, order, k);
        var id := order[k];
        ghost var s, e := View(), TryOf(id, clock, world, k);
        TryIfDue(id, listed[id], clock, world, k);
        if DueForAutomaticSend(listed[id], Checked(clock, k)) && world(k).claimWorks {
          TryEnabled(s, listed[id], e);
          NextAsListed(s, e, listed, order, k);
          ExecSnoc(before, run, e);
          run := run + [e];
        }
      }
    }

    /** A retry the user asked for: no waiting, and failed rows too. */
    method RetryNow(id: nat, w: World, claimed: int, ended: int)
      modifies this
      ensures View() ==
        if id in old(rows) && old(rows)[id].status != Sent && w.claimWorks
        then Next(old(View()), Try(id, false, claimed, claimed, ended, FateOf(w)))
        else old(View())
    {
      if id in rows && rows[id].status != Sent {
        ProcessOne(id, rows[id], false, claimed, w, claimed, ended);
      }
    }
  }
}
