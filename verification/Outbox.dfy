/**
  The outbox: a table of queued messages, the automatic loop that sends them with growing waits,
  and the retry a user may ask for. Times are readings of the system clock in seconds, which may
  jump; how an attempt ends is arbitrary, including ending without its result being recorded.
*/
module Outbox {
  import opened Text

  const MAX_ATTEMPTS: nat := 7
  const STALE_SENDING_SECS: int := 600
  const BACKOFF_SECS: seq<nat> := [30, 60, 120, 300, 900, 1800, 3600]

  datatype Status = Pending | Sending | Sent | Failed

  datatype Row = Row(queuedAt: int, attempts: nat, lastAttemptAt: Option<int>, status: Status)

  /**
    What an attempt that won its claim meets. A request that ends in an error may have been accepted
    all the same: a timed-out or dropped connection says nothing about what the server did.
  */
  datatype Answer =
    | CopyFound
    | Accepted
    | PermanentError(wentOut: bool)
    | TransientError(wentOut: bool)

  /** How an attempt ends. When it is not recorded, nothing more is written to the row. */
  datatype Fate = Fate(answer: Answer, recorded: bool)

  // ---------- when a row is due ----------

  function Wait(attempts: nat): nat
    requires attempts > 0
  {
    BACKOFF_SECS[if attempts - 1 < |BACKOFF_SECS| - 1 then attempts - 1 else |BACKOFF_SECS| - 1]
  }

  predicate ReadyToRetry(row: Row, now: int) {
    row.attempts == 0 ||
    now >= (if row.lastAttemptAt.Some? then row.lastAttemptAt.value else row.queuedAt) + Wait(row.attempts)
  }

  predicate DueForAutomaticSend(row: Row, now: int) {
    row.status != Failed && row.attempts < MAX_ATTEMPTS && ReadyToRetry(row, now)
  }

  // ---------- state, history and steps ----------

  /** One attempt that won its claim; `stamp` is the time the row remembers, `counted` whether the row counts it. */
  datatype Attempt = Attempt(id: nat, automatic: bool, checked: int, stamp: int, fate: Fate, counted: bool)

  function AttemptOf(e: Event, row: Row): Attempt
    requires e.Try?
  {
    Attempt(e.id, e.automatic, e.checked, if e.fate.recorded then e.ended else e.claimed, e.fate, Counts(row, e.fate))
  }

  /** `direct` names the rows whose message was out already when they were queued. */
  datatype State = State(rows: map<nat, Row>, log: seq<Attempt>, direct: set<nat>)

  /** A message is queued after sending it directly failed; the server may have accepted it all the same. */
  datatype Event =
    | Insert(id: nat, now: int, wentOut: bool)
    | ResetStale(olderThan: int, now: int)
    | Try(id: nat, automatic: bool, checked: int, claimed: int, ended: int, fate: Fate)

  predicate Claimable(row: Row) {
    row.status == Pending || row.status == Failed
  }

  function Claim(row: Row, now: int): Row {
    row.(status := Sending, lastAttemptAt := Some(now))
  }

  predicate Counts(row: Row, fate: Fate) {
    fate.recorded && fate.answer.TransientError? && row.attempts + 1 < MAX_ATTEMPTS
  }

  function Settle(row: Row, fate: Fate, now: int): Row {
    if !fate.recorded then row
    else if Counts(row, fate) then row.(attempts := row.attempts + 1, status := Pending, lastAttemptAt := Some(now))
    else if fate.answer.CopyFound? || fate.answer.Accepted? then row.(status := Sent, lastAttemptAt := Some(now))
    else row.(status := Failed, lastAttemptAt := Some(now))
  }

  predicate IsStale(row: Row, cutoff: int) {
    row.status == Sending && (if row.lastAttemptAt.Some? then row.lastAttemptAt.value else row.queuedAt) <= cutoff
  }

  function Reclaimed(rows: map<nat, Row>, cutoff: int): map<nat, Row> {
    map id | id in rows :: if IsStale(rows[id], cutoff) then rows[id].(status := Pending) else rows[id]
  }

  predicate Enabled(s: State, e: Event) {
    match e
    case Insert(id, _, _) => id !in s.rows
    case ResetStale(_, _) => true
    case Try(id, automatic, checked, _, _, _) =>
      id in s.rows && s.rows[id].status != Sent && (automatic ==> DueForAutomaticSend(s.rows[id], checked))
  }

  function Next(s: State, e: Event): State
    requires Enabled(s, e)
  {
    match e
    case Insert(id, now, wentOut) =>
      s.(rows := s.rows[id := Row(now, 0, None, Pending)], direct := if wentOut then s.direct + {id} else s.direct)
    case ResetStale(olderThan, now) => s.(rows := Reclaimed(s.rows, now - olderThan))
    case Try(id, automatic, checked, claimed, ended, fate) =>
      var row := s.rows[id];
      if !Claimable(row) then s
      else s.(
        rows := s.rows[id := Settle(Claim(row, claimed), fate, ended)],
        log := s.log + [AttemptOf(e, row)])
  }

  const EMPTY: State := State(map[], [], {})

  predicate Legal(s: State, run: seq<Event>)
    decreases |run|
  {
    run == [] || (Enabled(s, run[0]) && Legal(Next(s, run[0]), run[1..]))
  }

  function Exec(s: State, run: seq<Event>): State
    requires Legal(s, run)
    decreases |run|
  {
    if run == [] then s else Exec(Next(s, run[0]), run[1..])
  }

  // ---------- what the history says of one row ----------

  function Count(log: seq<Attempt>, id: nat, p: Attempt -> bool): nat {
    if log == [] then 0
    else Count(log[..|log| - 1], id, p) + if log[|log| - 1].id == id && p(log[|log| - 1]) then 1 else 0
  }

  predicate IsCounted(a: Attempt) { a.counted }
  predicate IsAutomatic(a: Attempt) { a.automatic }
  predicate IsLost(a: Attempt) { !a.fate.recorded }

  /** The server accepted the message of this attempt, whatever it answered. */
  predicate WentOut(a: Attempt) {
    match a.fate.answer
    case CopyFound => false
    case Accepted => true
    case PermanentError(wentOut) => wentOut
    case TransientError(wentOut) => wentOut
  }

  /** The row knows that the message is out. */
  predicate Settled(a: Attempt) {
    a.fate.recorded && (a.fate.answer.CopyFound? || a.fate.answer.Accepted?)
  }

  /** The message went out without the row knowing: the answer was an error, or was not recorded. */
  predicate Unacknowledged(a: Attempt) {
    WentOut(a) && !Settled(a)
  }

  function Directly(s: State, id: nat): nat {
    if id in s.direct then 1 else 0
  }

  /** How often the message went out, counting the direct send before it was queued. */
  function Deliveries(s: State, id: nat): nat {
    Directly(s, id) + Count(s.log, id, WentOut)
  }

  function LastStamp(log: seq<Attempt>, id: nat): Option<int> {
    if log == [] then None
    else if log[|log| - 1].id == id then Some(log[|log| - 1].stamp)
    else LastStamp(log[..|log| - 1], id)
  }

  // ---------- the invariant ----------

  /** The row agrees with the history of its attempts. */
  ghost predicate Agrees(row: Row, log: seq<Attempt>, id: nat) {
    var over := if row.status == Failed || row.status == Sent then 1 else 0;
    && row.attempts == Count(log, id, IsCounted) < MAX_ATTEMPTS
    && row.lastAttemptAt == LastStamp(log, id)
    && Count(log, id, IsAutomatic) <= row.attempts + over + Count(log, id, IsLost)
    && Count(log, id, WentOut) <= (if row.status == Sent then 1 else 0) + Count(log, id, Unacknowledged)
    && (row.status == Sent <==> Count(log, id, Settled) > 0)
    && Count(log, id, Settled) <= 1
    && (row.status == Sending ==> Count(log, id, IsLost) > 0)
  }

  /** An automatic attempt on a row that has failed before came only after its wait. */
  ghost predicate Waited(log: seq<Attempt>, j: nat)
    requires j < |log|
  {
    var a := log[j];
    var failures := Count(log[..j], a.id, IsCounted);
    a.automatic && failures > 0 ==>
      LastStamp(log[..j], a.id).Some? && a.checked >= LastStamp(log[..j], a.id).value + Wait(failures)
  }

  /** No attempt follows one after which the row knew that the message is out. */
  ghost predicate Unsettled(log: seq<Attempt>, j: nat)
    requires j < |log|
  {
    Count(log[..j], log[j].id, Settled) == 0
  }

  ghost predicate Inv(s: State) {
    && (forall id :: id in s.rows ==> Agrees(s.rows[id], s.log, id))
    && (forall id :: id !in s.rows ==> forall j :: 0 <= j < |s.log| ==> s.log[j].id != id)
    && (forall j :: 0 <= j < |s.log| ==> Waited(s.log, j))
    && (forall j :: 0 <= j < |s.log| ==> Unsettled(s.log, j))
  }

  lemma {:induction false} NoHistory(log: seq<Attempt>, id: nat, p: Attempt -> bool)
    requires forall j :: 0 <= j < |log| ==> log[j].id != id
    ensures Count(log, id, p) == 0 && LastStamp(log, id) == None
  {
    if log != [] { NoHistory(log[..|log| - 1], id, p); }
  }

  lemma CountSnoc(log: seq<Attempt>, a: Attempt, id: nat, p: Attempt -> bool)
    ensures Count(log + [a], id, p) == Count(log, id, p) + if a.id == id && p(a) then 1 else 0
    ensures LastStamp(log + [a], id) == if a.id == id then Some(a.stamp) else LastStamp(log, id)
  {
    assert (log + [a])[..|log|] == log;
  }

  lemma AgreesSnoc(row: Row, log: seq<Attempt>, a: Attempt, id: nat)
    requires Agrees(row, log, id) && a.id != id
    ensures Agrees(row, log + [a], id)
  {
    hide Count, LastStamp;
    CountSnoc(log, a, id, IsCounted);
    CountSnoc(log, a, id, IsAutomatic);
    CountSnoc(log, a, id, IsLost);
    CountSnoc(log, a, id, WentOut);
    CountSnoc(log, a, id, Unacknowledged);
    CountSnoc(log, a, id, Settled);
  }

  /** One attempt keeps the row in agreement with its history. */
  lemma TryAgrees(row: Row, log: seq<Attempt>, e: Event)
    requires e.Try? && Agrees(row, log, e.id) && Claimable(row)
    requires e.automatic ==> DueForAutomaticSend(row, e.checked)
    ensures Agrees(Settle(Claim(row, e.claimed), e.fate, e.ended), log + [AttemptOf(e, row)], e.id)
  {
    hide Count, LastStamp;
    var a := AttemptOf(e, row);
    CountSnoc(log, a, e.id, IsCounted);
    CountSnoc(log, a, e.id, IsAutomatic);
    CountSnoc(log, a, e.id, IsLost);
    CountSnoc(log, a, e.id, WentOut);
    CountSnoc(log, a, e.id, Unacknowledged);
    CountSnoc(log, a, e.id, Settled);
  }

  lemma WaitedSnoc(log: seq<Attempt>, a: Attempt)
    requires forall j :: 0 <= j < |log| ==> Waited(log, j)
    requires a.automatic && Count(log, a.id, IsCounted) > 0 ==>
      LastStamp(log, a.id).Some? && a.checked >= LastStamp(log, a.id).value + Wait(Count(log, a.id, IsCounted))
    requires forall j :: 0 <= j < |log| ==> Unsettled(log, j)
    requires Count(log, a.id, Settled) == 0
    ensures forall j :: 0 <= j < |log + [a]| ==> Waited(log + [a], j) && Unsettled(log + [a], j)
  {
    hide Count, LastStamp, Wait;
    var longer := log + [a];
    forall j | 0 <= j < |longer| ensures Waited(longer, j) && Unsettled(longer, j) {
      if j < |log| {
        assert longer[..j] == log[..j] && Waited(log, j) && Unsettled(log, j);
      } else {
        assert longer[..j] == log;
      }
    }
  }

  lemma {:induction false} AttemptHasStamp(log: seq<Attempt>, id: nat)
    requires Count(log, id, IsCounted) > 0
    ensures LastStamp(log, id).Some?
  {
    if log[|log| - 1].id != id { AttemptHasStamp(log[..|log| - 1], id); }
  }

  lemma NextKeepsInv(s: State, e: Event)
    requires Inv(s) && Enabled(s, e)
    ensures Inv(Next(s, e))
  {
    hide Count, LastStamp, Settle, Waited, Unsettled;
    match e
    case Insert(id, now, _) =>
      NoHistory(s.log, id, IsCounted);
      NoHistory(s.log, id, IsAutomatic);
      NoHistory(s.log, id, WentOut);
      NoHistory(s.log, id, Settled);
    case ResetStale(olderThan, now) =>
    case Try(id, automatic, checked, claimed, ended, fate) =>
      if Claimable(s.rows[id]) {
        var t := Next(s, e);
        var a := t.log[|s.log|];
        TryAgrees(s.rows[id], s.log, e);
        forall other | other in t.rows && other != id ensures Agrees(t.rows[other], t.log, other) {
          AgreesSnoc(s.rows[other], s.log, a, other);
        }
        if Count(s.log, id, IsCounted) > 0 { AttemptHasStamp(s.log, id); }
        WaitedSnoc(s.log, a);
      }
  }

  lemma {:induction false} RunKeepsInv(s: State, run: seq<Event>)
    requires Inv(s) && Legal(s, run)
    ensures Inv(Exec(s, run))
    decreases |run|
  {
    if run != [] {
      NextKeepsInv(s, run[0]);
      RunKeepsInv(Next(s, run[0]), run[1..]);
    }
  }

  lemma Onward(s: State, e: Event, rest: seq<Event>)
    requires Enabled(s, e) && Legal(Next(s, e), rest)
    ensures Legal(s, [e] + rest) && Exec(s, [e] + rest) == Exec(Next(s, e), rest)
  {
    assert ([e] + rest)[1..] == rest;
  }

  lemma Stop(s: State)
    ensures Legal(s, []) && Exec(s, []) == s
  {
  }

  lemma {:induction false} ExecSnoc(s: State, run: seq<Event>, e: Event)
    requires Legal(s, run) && Enabled(Exec(s, run), e)
    ensures Legal(s, run + [e]) && Exec(s, run + [e]) == Next(Exec(s, run), e)
    decreases |run|
  {
    if run == [] {
      assert [] + [e] == [e] && [e][1..] == [];
      Stop(Next(s, e));
    } else {
      assert (run + [e])[1..] == run[1..] + [e];
      ExecSnoc(Next(s, run[0]), run[1..], e);
    }
  }
}
