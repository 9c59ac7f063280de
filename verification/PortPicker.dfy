/**
  Choosing free ports. Whether a port can be bound is an oracle that may answer differently on
  every call; `clock` counts the calls made so far.
*/
module PortPicker {
  import opened Text
  import opened PortRepair

  datatype Answer = Free | InUse | Broken

  type Oracle = (nat, Port) -> Answer

  datatype Host = Unparsable | NotLoopback | Loopback

  datatype PickError =
    | InvalidHost
    | RefusedHost
    | BindFailed(port: Port)
    | NoFreeWithin(preferred: Port)
    | NoFreeAbove(preferred: Port)
    | NoFreeNear(preferred: Port)

  datatype Picked<+T> = Ok(value: T) | Err(error: PickError)

  const MAX_PROBE_STEPS: nat := 20
  const MAX_ALTERNATE_ROUNDS: nat := 10
  const ALTERNATE_IMAP_PORT: Port := 2143
  const ALTERNATE_SMTP_PORT: Port := 2025

  // ---------- one search upward ----------

  predicate Probed(preferred: Port, offset: nat) {
    LOWEST <= preferred + offset <= HIGHEST
  }

  /** The search from `offset` on, and the number of calls made when it ends. */
  function Search(bind: Oracle, clock: nat, preferred: Port, offset: nat): (Picked<Port>, nat)
    requires offset <= MAX_PROBE_STEPS + 1
    decreases MAX_PROBE_STEPS + 1 - offset
  {
    if offset > MAX_PROBE_STEPS then (Err(NoFreeWithin(preferred)), clock)
    else if !Probed(preferred, offset) then Search(bind, clock, preferred, offset + 1)
    else
      match bind(clock, preferred + offset)
      case Free => (Ok(preferred + offset), clock + 1)
      case InUse => Search(bind, clock + 1, preferred, offset + 1)
      case Broken => (Err(BindFailed(preferred + offset)), clock + 1)
  }

  function Available(host: Host, bind: Oracle, clock: nat, preferred: Port): (Picked<Port>, nat) {
    match host
    case Unparsable => (Err(InvalidHost), clock)
    case NotLoopback => (Err(RefusedHost), clock)
    case Loopback => Search(bind, clock, preferred, 0)
  }

  method PickAvailablePort(host: Host, bind: Oracle, clock: nat, preferred: Port) returns (r: Picked<Port>, after: nat)
    ensures (r, after) == Available(host, bind, clock, preferred)
  {
    after := clock;
    if host == Unparsable {
      return Err(InvalidHost), after;
    }
    if host != Loopback {
      return Err(RefusedHost), after;
    }
    for offset := 0 to MAX_PROBE_STEPS + 1
      invariant Search(bind, after, preferred, offset) == Search(bind, clock, preferred, 0)
    {
      if Probed(preferred, offset) {
        var candidate: Port := preferred + offset;
        var answer := bind(after, candidate);
        after := after + 1;
        if answer == Free {
          return Ok(candidate), after;
        }
        if answer == Broken {
          return Err(BindFailed(candidate)), after;
        }
      }
    }
    r := Err(NoFreeWithin(preferred));
  }

  /** A port found lies 0 to 20 above the preferred one, is not privileged, and was free when asked about. */
  lemma {:induction false} SearchFinds(bind: Oracle, clock: nat, preferred: Port, offset: nat)
    requires offset <= MAX_PROBE_STEPS + 1
    ensures var (r, after) := Search(bind, clock, preferred, offset);
            && after >= clock
            && (r.Ok? ==> preferred + offset <= r.value <= preferred + MAX_PROBE_STEPS && r.value >= LOWEST)
            && (r.Ok? ==> after > clock && bind(after - 1, r.value) == Free)
            && (r.Err? ==> r.error == NoFreeWithin(preferred) || r.error.BindFailed?)
    decreases MAX_PROBE_STEPS + 1 - offset
  {
    if offset <= MAX_PROBE_STEPS {
      if !Probed(preferred, offset) {
        SearchFinds(bind, clock, preferred, offset + 1);
      } else {
        SearchFinds(bind, clock + 1, preferred, offset + 1);
      }
    }
  }

  /** How many ports are asked about before the one at `offset`. */
  function AskedBefore(preferred: Port, offset: nat): nat {
    if offset == 0 then 0 else AskedBefore(preferred, offset - 1) + if Probed(preferred, offset - 1) then 1 else 0
  }

  /** The port at `offset` is in use when its turn comes, or is not asked about. */
  predicate Busy(bind: Oracle, clock: nat, preferred: Port, offset: nat) {
    1024 <= preferred + offset <= 65535 ==>
      bind(clock + AskedBefore(preferred, offset), preferred + offset) == InUse
  }

  lemma {:induction false} SearchGoesOn(bind: Oracle, clock: nat, preferred: Port, offset: nat)
    requires offset <= 21 && forall o :: 0 <= o < offset ==> Busy(bind, clock, preferred, o)
    ensures Search(bind, clock, preferred, 0)
         == Search(bind, clock + AskedBefore(preferred, offset), preferred, offset)
  {
    if offset > 0 {
      SearchGoesOn(bind, clock, preferred, offset - 1);
      assert Busy(bind, clock, preferred, offset - 1);
    }
  }

  /**
    The first of the 21 ports from the preferred one on that is not in use decides: it is taken if it is
    free, and any other failure ends the search. Ports below 1024 are passed over.
  */
  lemma FirstNotInUseDecides(bind: Oracle, clock: nat, preferred: Port, offset: nat)
    requires offset <= 21 && forall o :: 0 <= o < offset ==> Busy(bind, clock, preferred, o)
    requires offset == 21 || !Busy(bind, clock, preferred, offset)
    ensures Search(bind, clock, preferred, 0).0 ==
      if offset == 21 then Err(NoFreeWithin(preferred))
      else if bind(clock + AskedBefore(preferred, offset), preferred + offset) == Free then Ok(preferred + offset)
      else Err(BindFailed(preferred + offset))
  {
    SearchGoesOn(bind, clock, preferred, offset);
  }

  /** A host that is not a loopback address is refused without asking about any port. */
  lemma OnlyLoopbackIsProbed(host: Host, bind: Oracle, clock: nat, preferred: Port, avoid: seq<Port>)
    ensures host == Unparsable ==>
      Available(host, bind, clock, preferred) == (Err(InvalidHost), clock)
      && Rounds(host, bind, clock, preferred, preferred, avoid, 10) == (Err(InvalidHost), clock)
    ensures host == NotLoopback ==>
      Available(host, bind, clock, preferred) == (Err(RefusedHost), clock)
      && Rounds(host, bind, clock, preferred, preferred, avoid, 10) == (Err(RefusedHost), clock)
  {
  }

  // ---------- avoiding ports ----------

  /** The rounds left of a search that began at `preferred` and has come to `start`. */
  function Rounds(
    host: Host, bind: Oracle, clock: nat, preferred: Port, start: Port, avoid: seq<Port>, left: nat
  ): (Picked<Port>, nat)
    decreases left
  {
    if left == 0 then (Err(NoFreeNear(preferred)), clock)
    else
      var (r, after) := Available(host, bind, clock, start);
      if r.Err? || r.value !in avoid then (r, after)
      else if r.value == HIGHEST then (Err(NoFreeAbove(preferred)), after)
      else Rounds(host, bind, after, preferred, r.value + 1, avoid, left - 1)
  }

  method PickFreePortAvoiding(host: Host, bind: Oracle, clock: nat, preferred: Port, avoid: seq<Port>)
    returns (r: Picked<Port>, after: nat)
    ensures (r, after) == Rounds(host, bind, clock, preferred, preferred, avoid, MAX_ALTERNATE_ROUNDS)
  {
    hide Available;
    var start: Port := preferred;
    after := clock;
    for round := 0 to MAX_ALTERNATE_ROUNDS
      invariant Rounds(host, bind, after, preferred, start, avoid, MAX_ALTERNATE_ROUNDS - round)
             == Rounds(host, bind, clock, preferred, preferred, avoid, MAX_ALTERNATE_ROUNDS)
    {
      r, after := PickAvailablePort(host, bind, after, start);
      if r.Err? || r.value !in avoid {
        return;
      }
      if r.value == HIGHEST {
        return Err(NoFreeAbove(preferred)), after;
      }
      start := r.value + 1;
    }
    r := Err(NoFreeNear(preferred));
  }

  /** The avoided ports at or above `start`. */
  ghost function AvoidedFrom(avoid: seq<Port>, start: nat): set<Port> {
    set p | p in avoid && p >= start
  }

  ghost predicate RanOut(r: Picked<Port>) {
    r.Err? && (r.error.NoFreeNear? || r.error.NoFreeAbove?)
  }

  /** The candidates climb, so each round uses up an avoided port of its own. */
  lemma {:induction false} RoundsSuffice(
      host: Host, bind: Oracle, clock: nat, preferred: Port, start: Port, avoid: seq<Port>, left: nat)
    requires |AvoidedFrom(avoid, start)| < left
    ensures var r := Rounds(host, bind, clock, preferred, start, avoid, left).0; !(r.Err? && r.error.NoFreeNear?)
    decreases left
  {
    hide Search;
    var (r, after) := Available(host, bind, clock, start);
    SearchFinds(bind, clock, start, 0);
    if r.Ok? && r.value in avoid && r.value != HIGHEST {
      var next := AvoidedFrom(avoid, r.value + 1);
      assert next + {r.value} <= AvoidedFrom(avoid, start) && r.value !in next;
      CardinalityOfSubset(next + {r.value}, AvoidedFrom(avoid, start));
      RoundsSuffice(host, bind, after, preferred, r.value + 1, avoid, left - 1);
    }
  }

  /** Twenty-one ports per round never reach the top from a start this low. */
  lemma {:induction false} RoundsStayLow(
      host: Host, bind: Oracle, clock: nat, preferred: Port, start: Port, avoid: seq<Port>, left: nat)
    requires start + left * (MAX_PROBE_STEPS + 1) <= HIGHEST
    ensures var r := Rounds(host, bind, clock, preferred, start, avoid, left).0; !(r.Err? && r.error.NoFreeAbove?)
    decreases left
  {
    hide Search;
    var (r, after) := Available(host, bind, clock, start);
    SearchFinds(bind, clock, start, 0);
    if left > 0 && r.Ok? && r.value in avoid {
      RoundsStayLow(host, bind, after, preferred, r.value + 1, avoid, left - 1);
    }
  }

  lemma {:induction false} RoundsAvoid(
      host: Host, bind: Oracle, clock: nat, preferred: Port, start: Port, avoid: seq<Port>, left: nat)
    ensures var r := Rounds(host, bind, clock, preferred, start, avoid, left).0;
            r.Ok? ==> r.value !in avoid && LOWEST <= r.value && start <= r.value <= start + left * (MAX_PROBE_STEPS + 1)
    decreases left
  {
    hide Search;
    var (r, after) := Available(host, bind, clock, start);
    SearchFinds(bind, clock, start, 0);
    if left > 0 && r.Ok? && r.value in avoid && r.value != HIGHEST {
      RoundsAvoid(host, bind, after, preferred, r.value + 1, avoid, left - 1);
    }
  }

  lemma DistinctPorts(avoid: seq<Port>, start: nat)
    ensures |AvoidedFrom(avoid, start)| <= |avoid|
  {
    DistinctCount(AvoidedFrom(avoid, start), avoid);
  }

  /**
    Whatever the bind calls answer, ten rounds are enough for up to nine avoided ports: the search
    ends with a port, or because no port could be bound, never for want of rounds.
  */
  lemma NineAvoidedPortsAreFew(host: Host, bind: Oracle, clock: nat, preferred: Port, avoid: seq<Port>)
    requires |avoid| < MAX_ALTERNATE_ROUNDS
    requires preferred + MAX_ALTERNATE_ROUNDS * (MAX_PROBE_STEPS + 1) <= HIGHEST
    ensures !RanOut(Rounds(host, bind, clock, preferred, preferred, avoid, MAX_ALTERNATE_ROUNDS).0)
  {
    hide Rounds;
    DistinctPorts(avoid, preferred);
    RoundsSuffice(host, bind, clock, preferred, preferred, avoid, MAX_ALTERNATE_ROUNDS);
    RoundsStayLow(host, bind, clock, preferred, preferred, avoid, MAX_ALTERNATE_ROUNDS);
  }

  function Upward(start: Port, n: nat): seq<Port>
    requires start + n <= HIGHEST
    decreases n
  {
    if n == 0 then [] else [start] + Upward(start + 1, n - 1)
  }

  lemma {:induction false} UpwardHas(start: Port, n: nat, p: Port)
    requires start + n <= HIGHEST
    ensures p in Upward(start, n) <==> start <= p < start + n
    decreases n
  {
    if n > 0 { UpwardHas(start + 1, n - 1, p); }
  }

  /** The bound is tight: with ten consecutive ports to avoid, the rounds run out although every port is free. */
  lemma TenAvoidedPortsAreTooMany(bind: Oracle, clock: nat, preferred: Port)
    requires LOWEST <= preferred && preferred + MAX_ALTERNATE_ROUNDS <= HIGHEST
    requires forall n, p :: bind(n, p) == Free
    ensures var avoid := Upward(preferred, MAX_ALTERNATE_ROUNDS);
            Rounds(Loopback, bind, clock, preferred, preferred, avoid, MAX_ALTERNATE_ROUNDS).0
              == Err(NoFreeNear(preferred))
  {
    hide Rounds, Upward;
    ClimbToTheEnd(bind, clock, preferred, preferred, MAX_ALTERNATE_ROUNDS, Upward(preferred, MAX_ALTERNATE_ROUNDS));
  }

  lemma {:induction false} ClimbToTheEnd(
      bind: Oracle, clock: nat, preferred: Port, start: Port, left: nat, avoid: seq<Port>)
    requires LOWEST <= preferred <= start && start + left == preferred + MAX_ALTERNATE_ROUNDS <= HIGHEST
    requires avoid == Upward(preferred, MAX_ALTERNATE_ROUNDS)
    requires forall n, p :: bind(n, p) == Free
    ensures Rounds(Loopback, bind, clock, preferred, start, avoid, left).0 == Err(NoFreeNear(preferred))
    decreases left
  {
    hide Upward;
    if left > 0 {
      assert bind(clock, start) == Free;
      assert Search(bind, clock, start, 0) == (Picked.Ok(start), clock + 1);
      UpwardHas(preferred, MAX_ALTERNATE_ROUNDS, start);
      ClimbToTheEnd(bind, clock + 1, preferred, start + 1, left - 1, avoid);
    }
  }

  // ---------- ports that stay as they are ----------

  /** Every port stays free or in use for the whole search. */
  ghost predicate Stable(bind: Oracle, free: Port -> bool) {
    forall n, p :: bind(n, p) == if free(p) then Free else InUse
  }

  lemma {:induction false} StableSearch(bind: Oracle, free: Port -> bool, clock: nat, preferred: Port, offset: nat)
    requires Stable(bind, free) && offset <= 21
    ensures var r := Search(bind, clock, preferred, offset).0;
      && (r.Ok? ==> free(r.value) && 1024 <= r.value && preferred + offset <= r.value <= preferred + 20
                    && forall q: Port :: 1024 <= q && preferred + offset <= q < r.value ==> !free(q))
      && (r.Err? ==> forall q: Port :: 1024 <= q && preferred + offset <= q <= preferred + 20 ==> !free(q))
    decreases 21 - offset
  {
    if offset <= 20 {
      StableSearch(bind, free, clock, preferred, offset + 1);
      StableSearch(bind, free, clock + 1, preferred, offset + 1);
    }
  }

  /** While ports stay as they are, the port found is the first one that is free and not to be avoided. */
  lemma {:induction false} FoundIsFirst(bind: Oracle, free: Port -> bool, clock: nat, preferred: Port, start: Port,
      avoid: seq<Port>, left: nat)
    requires Stable(bind, free)
    ensures var r := Rounds(Loopback, bind, clock, preferred, start, avoid, left).0;
      && (r.Ok? ==> free(r.value) && r.value !in avoid && 1024 <= r.value && start <= r.value)
      && (r.Ok? ==> forall q: Port :: 1024 <= q && start <= q < r.value ==> !free(q) || q in avoid)
    decreases left
  {
    hide Stable, Search;
    if left > 0 {
      var (r, after) := Search(bind, clock, start, 0);
      StableSearch(bind, free, clock, start, 0);
      if r.Ok? && r.value in avoid && r.value < 65535 {
        FoundIsFirst(bind, free, after, preferred, r.value + 1, avoid, left - 1);
      }
    }
  }

  /** A port within twenty of the start that is free and not to be avoided keeps the search from failing. */
  lemma {:induction false} NearPortIsFound(bind: Oracle, free: Port -> bool, clock: nat, preferred: Port, start: Port,
      avoid: seq<Port>, left: nat, q: Port)
    requires Stable(bind, free) && free(q) && q !in avoid && 1024 <= q && start <= q <= start + 20
    requires |AvoidedFrom(avoid, start)| < left
    ensures var r := Rounds(Loopback, bind, clock, preferred, start, avoid, left).0; r.Ok? && r.value <= q
    decreases left
  {
    hide Stable, Search;
    var (r, after) := Search(bind, clock, start, 0);
    StableSearch(bind, free, clock, start, 0);
    if r.Ok? && r.value in avoid {
      var next := AvoidedFrom(avoid, r.value + 1);
      assert next + {r.value} <= AvoidedFrom(avoid, start) && r.value !in next;
      CardinalityOfSubset(next + {r.value}, AvoidedFrom(avoid, start));
      NearPortIsFound(bind, free, after, preferred, r.value + 1, avoid, left - 1, q);
    }
  }

  // ---------- the alternate pair ----------

  const IMAP_SLOT: nat := 0
  const SMTP_SLOT: nat := 2

  /** The configured ports, in the order the search lists them. */
  function Configured(c: seq<Port>): seq<Port>
    requires |c| == SLOTS
  {
    [c[0], c[2], c[1], c[3], c[4], c[5], c[6], c[7]]
  }

  /** For every behaviour of the bind calls, the pair is new, distinct and outside the configured ports. */
  method PickAlternatePorts(host: Host, bind: Oracle, clock: nat, config: seq<Port>) returns (r: Picked<(Port, Port)>)
    requires |config| == SLOTS
    ensures r.Ok? ==> r.value.0 != r.value.1 && r.value.0 !in config && r.value.1 !in config
    ensures r.Ok? ==> ALTERNATE_IMAP_PORT <= r.value.0 <= ALTERNATE_IMAP_PORT + 210
    ensures r.Ok? ==> ALTERNATE_SMTP_PORT <= r.value.1 <= ALTERNATE_SMTP_PORT + 210
    ensures r.Err? ==> !r.error.NoFreeNear? && !r.error.NoFreeAbove?
  {
    hide Rounds;
    var avoid := Configured(config);
    assert forall p :: p in config ==> p in avoid;
    NineAvoidedPortsAreFew(host, bind, clock, ALTERNATE_IMAP_PORT, avoid);
    RoundsAvoid(host, bind, clock, ALTERNATE_IMAP_PORT, ALTERNATE_IMAP_PORT, avoid, MAX_ALTERNATE_ROUNDS);
    var forImap, after := PickFreePortAvoiding(host, bind, clock, ALTERNATE_IMAP_PORT, avoid);
    if forImap.Err? {
      return Err(forImap.error);
    }
    avoid := avoid + [forImap.value];
    NineAvoidedPortsAreFew(host, bind, after, ALTERNATE_SMTP_PORT, avoid);
    RoundsAvoid(host, bind, after, ALTERNATE_SMTP_PORT, ALTERNATE_SMTP_PORT, avoid, MAX_ALTERNATE_ROUNDS);
    var forSmtp, _ := PickFreePortAvoiding(host, bind, after, ALTERNATE_SMTP_PORT, avoid);
    if forSmtp.Err? {
      return Err(forSmtp.error);
    }
    r := Ok((forImap.value, forSmtp.value));
  }

  /** The ports the alternate pair does not replace. */
  function Others(c: seq<Port>): seq<Port>
    requires |c| == SLOTS
  {
    [c[1], c[3], c[4], c[5], c[6], c[7]]
  }

  lemma PairFits(c: seq<Port>, forImap: Port, forSmtp: Port)
    requires |c| == SLOTS && forImap !in c && forSmtp !in c && forImap != forSmtp
    requires forImap >= LOWEST && forSmtp >= LOWEST
    ensures ValidPorts(c[IMAP_SLOT := forImap][SMTP_SLOT := forSmtp]) <==> ValidPorts(Others(c))
    ensures ValidPorts(c) ==> ValidPorts(Others(c))
  {
    var w, o := c[IMAP_SLOT := forImap][SMTP_SLOT := forSmtp], Others(c);
    assert o == [w[1], w[3], w[4], w[5], w[6], w[7]];
    if ValidPorts(o) {
      assert forall i :: 0 <= i < SLOTS && i != IMAP_SLOT && i != SMTP_SLOT ==> w[i] == c[i] && c[i] in c;
      assert o[0] == w[1] && o[1] == w[3] && o[2] == w[4] && o[3] == w[5] && o[4] == w[6] && o[5] == w[7];
    }
  }

  /**
    Moving to the alternate pair. The check before saving passes exactly when the six other ports
    are valid among themselves, so it never refuses a configuration that was valid before.
  */
  method UseAlternatePorts(host: Host, bind: Oracle, clock: nat, slots: array<Port>) returns (r: Picked<Outcome>)
    requires slots.Length == SLOTS
    modifies slots
    ensures r.Err? ==> !r.error.NoFreeNear? && !r.error.NoFreeAbove?
    ensures r != Ok(Accepted) ==> slots[..] == old(slots[..])
    ensures r.Ok? ==> (r.value == Accepted <==> ValidPorts(Others(old(slots[..]))))
    ensures r.Ok? && ValidPorts(old(slots[..])) ==> r.value == Accepted
    ensures r == Ok(Accepted) ==> ValidPorts(slots[..]) && Others(slots[..]) == Others(old(slots[..]))
    ensures r == Ok(Accepted) ==> slots[IMAP_SLOT] !in old(slots[..]) && slots[SMTP_SLOT] !in old(slots[..])
  {
    var pair := PickAlternatePorts(host, bind, clock, slots[..]);
    if pair.Err? {
      return Err(pair.error);
    }
    var candidate := slots[..][IMAP_SLOT := pair.value.0][SMTP_SLOT := pair.value.1];
    PairFits(slots[..], pair.value.0, pair.value.1);
    var checked := ValidatePorts(candidate);
    if checked == Accepted {
      slots[IMAP_SLOT], slots[SMTP_SLOT] := pair.value.0, pair.value.1;
      assert slots[..] == candidate;
    }
    r := Ok(checked);
  }
}
