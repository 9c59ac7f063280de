/**
  The eight listener ports: what makes a configuration valid, and the repair of an invalid one.
  Slots stand in the order imap, imap over TLS, smtp, smtp over TLS, jmap, pop3, pop3 over TLS, carddav.
*/
module PortRepair {
  import opened Text

  type Port = n: nat | n < 0x1_0000

  const SLOTS: nat := 8
  const LOWEST: Port := 1024
  const HIGHEST: Port := 65535
  const DEFAULTS: seq<Port> := [1143, 1993, 1025, 1465, 1080, 1110, 1995, 1081]

  ghost predicate ValidPorts(v: seq<Port>) {
    && (forall i :: 0 <= i < |v| ==> v[i] >= LOWEST)
    && Distinct(v)
  }

  lemma DefaultsAreValid()
    ensures |DEFAULTS| == SLOTS && ValidPorts(DEFAULTS)
  {
  }

  // ---------- validation ----------

  datatype PortError = TooLow(slot: nat) | Shared(port: Port)

  datatype Outcome = Accepted | Rejected(error: PortError)

  ghost predicate Twice(v: seq<Port>, p: Port) {
    exists i, j :: 0 <= i < j < |v| && v[i] == p && v[j] == p
  }

  predicate Ordered(v: seq<Port>) {
    forall i, j :: 0 <= i < j < |v| ==> v[i] <= v[j]
  }

  function Insert(v: seq<Port>, p: Port): seq<Port> {
    if v == [] || p <= v[0] then [p] + v else [v[0]] + Insert(v[1..], p)
  }

  function SortPorts(v: seq<Port>): seq<Port> {
    if v == [] then [] else Insert(SortPorts(v[1..]), v[0])
  }

  lemma {:induction false} InsertAdds(v: seq<Port>, p: Port)
    ensures multiset(Insert(v, p)) == multiset(v) + multiset{p}
    ensures forall x :: x in Insert(v, p) ==> x in v || x == p
  {
    if v != [] && v[0] < p {
      InsertAdds(v[1..], p);
      assert v == [v[0]] + v[1..];
    }
  }

  lemma {:induction false} InsertOrders(v: seq<Port>, p: Port)
    requires Ordered(v)
    ensures Ordered(Insert(v, p))
  {
    if v != [] && v[0] < p {
      InsertOrders(v[1..], p);
      InsertAdds(v[1..], p);
      var r := Insert(v[1..], p);
      forall j | 0 <= j < |r| ensures v[0] <= r[j] {
        assert r[j] in r;
      }
      assert Insert(v, p) == [v[0]] + r;
    }
  }

  /** The sort is a rearrangement of the ports into ascending order. */
  lemma {:induction false} SortPortsSorts(v: seq<Port>)
    ensures Ordered(SortPorts(v)) && multiset(SortPorts(v)) == multiset(v)
  {
    if v != [] {
      SortPortsSorts(v[1..]);
      InsertAdds(SortPorts(v[1..]), v[0]);
      InsertOrders(SortPorts(v[1..]), v[0]);
      assert v == [v[0]] + v[1..];
    }
  }

  lemma DistinctIffNothingTwice(v: seq<Port>)
    ensures Distinct(v) <==> forall p :: !Twice(v, p)
  {
    forall i, j | 0 <= i < j < |v| && v[i] == v[j] ensures Twice(v, v[i]) {
    }
  }

  lemma {:induction false} TwiceByCount(v: seq<Port>, p: Port)
    ensures Twice(v, p) <==> multiset(v)[p] >= 2
  {
    if v != [] {
      var rest := v[1..];
      assert v == [v[0]] + rest;
      TwiceByCount(rest, p);
      if Twice(rest, p) {
        var i, j :| 0 <= i < j < |rest| && rest[i] == p && rest[j] == p;
        assert v[i + 1] == p && v[j + 1] == p;
      }
      if v[0] == p && p in multiset(rest) {
        assert p in rest;
        var j :| 0 <= j < |rest| && rest[j] == p;
        assert v[0] == p && v[j + 1] == p;
      }
      if Twice(v, p) {
        var i, j :| 0 <= i < j < |v| && v[i] == p && v[j] == p;
        assert rest[j - 1] == p && p in multiset(rest);
        if i > 0 { assert rest[i - 1] == p && Twice(rest, p); }
      }
    }
  }

  /** The smallest port that two slots share, if there is one. */
  method SharedPort(v: seq<Port>) returns (r: Option<Port>)
    ensures r.None? <==> Distinct(v)
    ensures r.Some? ==> Twice(v, r.value) && forall p :: Twice(v, p) ==> r.value <= p
  {
    var ports := SortPorts(v);
    SortPortsSorts(v);
    DistinctIffNothingTwice(v);
    forall p ensures Twice(v, p) <==> Twice(ports, p) {
      TwiceByCount(v, p);
      TwiceByCount(ports, p);
    }
    var k := 0;
    while k + 1 < |ports|
      invariant 0 <= k && (|ports| > 0 ==> k < |ports|)
      invariant forall i :: 0 <= i < k && i + 1 < |ports| ==> ports[i] < ports[i + 1]
    {
      if ports[k] == ports[k + 1] {
        assert Twice(ports, ports[k]);
        forall p | Twice(ports, p) ensures ports[k] <= p {
          TwiceIsPastTheRise(ports, k, p);
        }
        return Some(ports[k]);
      }
      k := k + 1;
    }
    forall p | Twice(ports, p) ensures false {
      TwiceIsPastTheRise(ports, k, p);
    }
    return None;
  }

  lemma TwiceIsPastTheRise(ports: seq<Port>, k: nat, p: Port)
    requires Ordered(ports) && Twice(ports, p)
    requires k < |ports| && forall i :: 0 <= i < k ==> ports[i] < ports[i + 1]
    ensures p >= ports[k] && k + 1 < |ports|
  {
    var i, j :| 0 <= i < j < |ports| && ports[i] == p && ports[j] == p;
    RiseSeparates(ports, k, i, j);
  }

  lemma RiseSeparates(ports: seq<Port>, k: nat, i: nat, j: nat)
    requires Ordered(ports) && i < j < |ports|
    requires k < |ports| && forall n :: 0 <= n < k ==> ports[n] < ports[n + 1]
    ensures i < k ==> ports[i] < ports[j]
  {
    if i < k {
      assert ports[i] < ports[i + 1] <= ports[j];
    }
  }

  /** The first port below 1024 is the fault reported; then the smallest shared one. */
  method ValidatePorts(v: seq<Port>) returns (r: Outcome)
    ensures r == Accepted <==> ValidPorts(v)
    ensures forall i: nat ::
      r == Rejected(TooLow(i)) <==> i < |v| && v[i] < LOWEST && forall j :: 0 <= j < i ==> v[j] >= LOWEST
    ensures r.Rejected? && r.error.Shared? ==> Twice(v, r.error.port) && forall p :: Twice(v, p) ==> r.error.port <= p
  {
    for k := 0 to |v|
      invariant forall j :: 0 <= j < k ==> v[j] >= LOWEST
    {
      if v[k] < LOWEST {
        return Rejected(TooLow(k));
      }
    }
    var shared := SharedPort(v);
    match shared {
      case Some(p) => return Rejected(Shared(p));
      case None => return Accepted;
    }
  }

  // ---------- which slots keep their port ----------

  /** The first slot from `i` on that holds `p`, only counting slots whose default it is when `own`. */
  function HolderFrom(v: seq<Port>, p: Port, own: bool, i: nat): (r: Option<nat>)
    requires |v| == SLOTS && i <= SLOTS
    ensures r.Some? ==> i <= r.value < SLOTS && v[r.value] == p && (own ==> DEFAULTS[r.value] == p)
    ensures r.None? ==> forall j :: i <= j < SLOTS && v[j] == p ==> own && DEFAULTS[j] != p
    decreases SLOTS - i
  {
    if i == SLOTS then None
    else if v[i] == p && (own ==> DEFAULTS[i] == p) then Some(i)
    else HolderFrom(v, p, own, i + 1)
  }

  /** Among the slots that share a port: the one whose default it is, or else the first. */
  function Owner(v: seq<Port>, p: Port): (r: nat)
    requires |v| == SLOTS && p in v
    ensures r < SLOTS && v[r] == p
  {
    match HolderFrom(v, p, true, 0)
    case Some(j) => j
    case None =>
      var first := HolderFrom(v, p, false, 0);
      assert first.Some?;
      first.value
  }

  predicate Keeps(v: seq<Port>, i: nat)
    requires |v| == SLOTS && i < SLOTS
  {
    v[i] >= LOWEST && Owner(v, v[i]) == i
  }

  lemma OwnDefaultKeeps(v: seq<Port>, i: nat)
    requires |v| == SLOTS && i < SLOTS && v[i] == DEFAULTS[i]
    ensures Keeps(v, i)
  {
    DefaultsAreValid();
    assert HolderFrom(v, v[i], true, 0).Some?;
  }

  // ---------- the search for a free port ----------

  /** The k-th port tried after `d`: upward, and from the highest port round to 1024. */
  function After(d: Port, k: nat): Port
    requires d >= LOWEST && k <= HIGHEST - LOWEST
  {
    if d + k <= HIGHEST then d + k else d + k - (HIGHEST - LOWEST + 1)
  }

  function FreeFrom(used: seq<Port>, d: Port, k: nat): Port
    requires d >= LOWEST && k <= |used| <= HIGHEST - LOWEST
    decreases |used| - k
  {
    if After(d, k) !in used || k == |used| then After(d, k) else FreeFrom(used, d, k + 1)
  }

  function Tried(d: Port, k: nat): (r: set<Port>)
    requires d >= LOWEST && k <= HIGHEST - LOWEST + 1
    ensures |r| == k
    ensures forall p :: p in r <==> exists i :: 0 <= i < k && p == After(d, i)
  {
    if k == 0 then {}
    else
      var r := Tried(d, k - 1);
      assert After(d, k - 1) !in r;
      r + {After(d, k - 1)}
  }

  lemma {:induction false} DistinctCount(s: set<Port>, used: seq<Port>)
    requires forall p :: p in s ==> p in used
    ensures |s| <= |used|
  {
    if used == [] {
      assert s == {};
    } else {
      var u := used[0];
      DistinctCount(s - {u}, used[1..]);
    }
  }

  /** With fewer ports in use than there are, the search ends at a free one within |used| steps. */
  lemma {:induction false} SearchSucceeds(used: seq<Port>, d: Port, k: nat)
    requires d >= LOWEST && k <= |used| <= HIGHEST - LOWEST
    requires forall i :: 0 <= i < k ==> After(d, i) in used
    ensures FreeFrom(used, d, k) !in used && FreeFrom(used, d, k) >= LOWEST
    decreases |used| - k
  {
    if After(d, k) in used {
      if k == |used| {
        DistinctCount(Tried(d, k + 1), used);
      } else {
        SearchSucceeds(used, d, k + 1);
      }
    }
  }

  function Larger(p: Port, q: Port): Port {
    if p < q then q else p
  }

  method NextFree(used: seq<Port>, default: Port) returns (candidate: Port)
    requires default >= LOWEST && |used| <= HIGHEST - LOWEST
    ensures candidate == FreeFrom(used, default, 0)
  {
    candidate := default;
    ghost var k := 0;
    while candidate in used
      invariant k <= |used| && candidate == After(default, k)
      invariant forall i :: 0 <= i < k ==> After(default, i) in used
      invariant FreeFrom(used, default, k) == FreeFrom(used, default, 0)
      decreases |used| - k
    {
      if k == |used| {
        DistinctCount(Tried(default, k + 1), used);
        assert false;
      }
      candidate := Larger(if candidate == HIGHEST then LOWEST else candidate + 1, LOWEST);
      k := k + 1;
    }
  }

  // ---------- the repair ----------

  function KeptFrom(v: seq<Port>, i: nat): seq<Port>
    requires |v| == SLOTS && i <= SLOTS
    ensures |KeptFrom(v, i)| <= SLOTS - i
    ensures forall j :: i <= j < SLOTS && Keeps(v, j) ==> v[j] in KeptFrom(v, i)
    decreases SLOTS - i
  {
    if i == SLOTS then [] else (if Keeps(v, i) then [v[i]] else []) + KeptFrom(v, i + 1)
  }

  /** The repaired values of the slots from `i` on, with `used` taken. */
  function FixFrom(v: seq<Port>, used: seq<Port>, i: nat): (r: seq<Port>)
    requires |v| == SLOTS && i <= SLOTS && |used| <= SLOTS + i
    ensures |r| == SLOTS - i
    decreases SLOTS - i
  {
    if i == SLOTS then []
    else if Keeps(v, i) then [v[i]] + FixFrom(v, used, i + 1)
    else
      var candidate := FreeFrom(used, DEFAULTS[i], 0);
      [candidate] + FixFrom(v, used + [candidate], i + 1)
  }

  function Repaired(v: seq<Port>): (r: seq<Port>)
    requires |v| == SLOTS
    ensures |r| == SLOTS
  {
    FixFrom(v, KeptFrom(v, 0), 0)
  }

  function ChangedFrom(v: seq<Port>, w: seq<Port>, i: nat): seq<nat>
    requires |v| == |w| && i <= |v|
    decreases |v| - i
  {
    if i == |v| then [] else (if v[i] != w[i] then [i] else []) + ChangedFrom(v, w, i + 1)
  }

  ghost predicate CoversKept(v: seq<Port>, used: seq<Port>)
    requires |v| == SLOTS
  {
    forall j :: 0 <= j < SLOTS && Keeps(v, j) ==> v[j] in used
  }

  /** A kept slot is as it was, and any other has a port that is not in use. */
  ghost predicate SlotFixed(v: seq<Port>, used: seq<Port>, i: nat, p: Port)
    requires |v| == SLOTS && i < SLOTS
  {
    p >= LOWEST && if Keeps(v, i) then p == v[i] else p !in used
  }

  ghost predicate AllFixed(v: seq<Port>, used: seq<Port>, i: nat, r: seq<Port>)
    requires |v| == SLOTS && i + |r| == SLOTS
  {
    forall j {:trigger r[j]} :: 0 <= j < |r| ==> SlotFixed(v, used, i + j, r[j])
  }

  lemma FixedWithFewerUsed(v: seq<Port>, used: seq<Port>, p: Port, i: nat, r: seq<Port>)
    requires |v| == SLOTS && i + |r| == SLOTS && CoversKept(v, used) && p !in used
    requires AllFixed(v, used + [p], i, r)
    ensures AllFixed(v, used, i, r) && p !in r
  {
    hide Keeps;
    forall j | 0 <= j < |r| ensures SlotFixed(v, used, i + j, r[j]) && r[j] != p {
      assert SlotFixed(v, used + [p], i + j, r[j]);
      assert p in used + [p];
    }
  }

  lemma KeptPortStaysAlone(v: seq<Port>, used: seq<Port>, i: nat, r: seq<Port>)
    requires |v| == SLOTS && i + 1 + |r| == SLOTS && Keeps(v, i) && v[i] in used
    requires AllFixed(v, used, i + 1, r)
    ensures v[i] !in r
  {
    forall j | 0 <= j < |r| ensures r[j] != v[i] {
      assert SlotFixed(v, used, i + 1 + j, r[j]);
    }
  }

  lemma FixedCons(v: seq<Port>, used: seq<Port>, i: nat, p: Port, r: seq<Port>)
    requires |v| == SLOTS && i + 1 + |r| == SLOTS && SlotFixed(v, used, i, p) && AllFixed(v, used, i + 1, r)
    requires Distinct(r) && p !in r
    ensures AllFixed(v, used, i, [p] + r) && Distinct([p] + r)
  {
    hide SlotFixed;
    var s := [p] + r;
    forall j | 0 <= j < |s| ensures SlotFixed(v, used, i + j, s[j]) {
      if j > 0 { assert s[j] == r[j - 1] && i + j == i + 1 + (j - 1); }
    }
  }

  /** Slot by slot: kept slots are as they were, and the others have new ports that nothing else uses. */
  lemma {:induction false} FixedSlots(v: seq<Port>, used: seq<Port>, i: nat)
    requires |v| == SLOTS && i <= SLOTS && |used| <= SLOTS + i && CoversKept(v, used)
    ensures AllFixed(v, used, i, FixFrom(v, used, i)) && Distinct(FixFrom(v, used, i))
    decreases SLOTS - i
  {
    hide Keeps, FreeFrom, AllFixed, Distinct;
    if i == SLOTS {
      NothingToFix(v, used);
    } else if Keeps(v, i) {
      var rest := FixFrom(v, used, i + 1);
      KeptIsHigh(v, i);
      FixedSlots(v, used, i + 1);
      KeptPortStaysAlone(v, used, i, rest);
      FixedCons(v, used, i, v[i], rest);
    } else {
      var candidate := FreeFrom(used, DEFAULTS[i], 0);
      var rest := FixFrom(v, used + [candidate], i + 1);
      SearchSucceeds(used, DEFAULTS[i], 0);
      CoversMore(v, used, candidate);
      FixedSlots(v, used + [candidate], i + 1);
      FixedWithFewerUsed(v, used, candidate, i + 1, rest);
      FixedCons(v, used, i, candidate, rest);
    }
  }

  lemma NothingToFix(v: seq<Port>, used: seq<Port>)
    requires |v| == SLOTS
    ensures AllFixed(v, used, SLOTS, []) && Distinct<Port>([])
  {
  }

  lemma CoversMore(v: seq<Port>, used: seq<Port>, p: Port)
    requires |v| == SLOTS && CoversKept(v, used)
    ensures CoversKept(v, used + [p])
  {
    hide Keeps;
  }

  lemma KeptIsHigh(v: seq<Port>, i: nat)
    requires |v| == SLOTS && i < SLOTS
    ensures Keeps(v, i) ==> v[i] >= LOWEST
  {
  }

  lemma RepairedSlot(v: seq<Port>, i: nat)
    requires |v| == SLOTS && i < SLOTS
    ensures SlotFixed(v, KeptFrom(v, 0), i, Repaired(v)[i])
  {
    hide SlotFixed, FixFrom, KeptFrom;
    FixedSlots(v, KeptFrom(v, 0), 0);
    assert SlotFixed(v, KeptFrom(v, 0), 0 + i, Repaired(v)[i]);
  }

  /** Whatever eight values the file holds, the repaired configuration passes validation. */
  lemma RepairedIsValid(v: seq<Port>)
    requires |v| == SLOTS
    ensures ValidPorts(Repaired(v))
  {
    hide Keeps, FixFrom, KeptFrom;
    FixedSlots(v, KeptFrom(v, 0), 0);
    forall i | 0 <= i < SLOTS ensures Repaired(v)[i] >= LOWEST { RepairedSlot(v, i); }
  }

  /** A slot changes exactly when it does not keep its port. */
  lemma ChangedIffNotKept(v: seq<Port>, i: nat)
    requires |v| == SLOTS && i < SLOTS
    ensures Repaired(v)[i] == v[i] <==> Keeps(v, i)
  {
    hide FixFrom, KeptFrom, HolderFrom, Repaired;
    RepairedSlot(v, i);
    if v[i] >= LOWEST && !Keeps(v, i) {
      KeeperOfValue(v, i);
    }
  }

  /** Every acceptable value that some slot holds is kept by one of its holders. */
  lemma KeeperOfValue(v: seq<Port>, i: nat)
    requires |v| == SLOTS && i < SLOTS && v[i] >= LOWEST
    ensures Keeps(v, Owner(v, v[i])) && v[i] in KeptFrom(v, 0)
  {
    var o := Owner(v, v[i]);
    assert v[o] == v[i];
  }

  lemma NoAcceptablePortIsLost(v: seq<Port>, p: Port)
    requires |v| == SLOTS && p in v && p >= LOWEST
    ensures p in Repaired(v)
  {
    hide Keeps, FixFrom, KeptFrom, HolderFrom;
    var i :| 0 <= i < SLOTS && v[i] == p;
    KeeperOfValue(v, i);
    ChangedIffNotKept(v, Owner(v, p));
  }

  lemma ValidConfigurationIsKept(v: seq<Port>)
    requires |v| == SLOTS
    ensures Repaired(v) == v <==> ValidPorts(v)
  {
    hide FixFrom, KeptFrom, HolderFrom;
    RepairedIsValid(v);
    if ValidPorts(v) {
      forall i | 0 <= i < SLOTS ensures Repaired(v)[i] == v[i] {
        assert v[Owner(v, v[i])] == v[i];
        ChangedIffNotKept(v, i);
      }
    }
  }

  /** A slot that already has its own default is never the one moved. */
  lemma OwnDefaultIsKept(v: seq<Port>, i: nat)
    requires |v| == SLOTS && i < SLOTS && v[i] == DEFAULTS[i]
    ensures Repaired(v)[i] == v[i]
  {
    OwnDefaultKeeps(v, i);
    ChangedIffNotKept(v, i);
  }

  // ---------- the repair is minimal ----------

  ghost function Unchanged(v: seq<Port>, w: seq<Port>): set<nat>
    requires |v| == |w|
  {
    set i: nat | i < |v| && w[i] == v[i]
  }

  lemma {:induction false} ImageFits(s: set<nat>, v: seq<Port>, k: set<nat>)
    requires |v| == SLOTS && forall i :: i in s ==> i < SLOTS && Owner(v, v[i]) in k
    requires forall i, j :: i in s && j in s && v[i] == v[j] ==> i == j
    ensures |s| <= |k|
    decreases |s|
  {
    if s != {} {
      var i :| i in s;
      var o := Owner(v, v[i]);
      forall j | j in s - {i} ensures Owner(v, v[j]) in k - {o} {
        assert v[Owner(v, v[j])] == v[j];
      }
      ImageFits(s - {i}, v, k - {o});
    }
  }

  /** No valid configuration agrees with the given one in more slots than the repaired one does. */
  lemma RepairIsMinimal(v: seq<Port>, w: seq<Port>)
    requires |v| == SLOTS && |w| == SLOTS && ValidPorts(w)
    ensures |Unchanged(v, w)| <= |Unchanged(v, Repaired(v))|
  {
    hide FixFrom, KeptFrom, HolderFrom, Keeps, Repaired;
    forall i | i in Unchanged(v, w) ensures Owner(v, v[i]) in Unchanged(v, Repaired(v)) {
      KeeperOfValue(v, i);
      ChangedIffNotKept(v, Owner(v, v[i]));
    }
    ImageFits(Unchanged(v, w), v, Unchanged(v, Repaired(v)));
  }

  // ---------- the code ----------

  lemma ChangedStep(v: seq<Port>, w: seq<Port>, i: nat, done: seq<nat>, whole: seq<nat>)
    requires |v| == |w| && i < |v| && done + ChangedFrom(v, w, i) == whole
    ensures (if v[i] != w[i] then done + [i] else done) + ChangedFrom(v, w, i + 1) == whole
  {
    assert v[i] != w[i] ==> done + ([i] + ChangedFrom(v, w, i + 1)) == (done + [i]) + ChangedFrom(v, w, i + 1);
    assert [] + ChangedFrom(v, w, i + 1) == ChangedFrom(v, w, i + 1);
  }

  lemma FixStep(v: seq<Port>, used: seq<Port>, i: nat, goal: seq<Port>)
    requires |v| == SLOTS && |goal| == SLOTS && i < SLOTS && |used| <= SLOTS + i
    requires goal[i..] == FixFrom(v, used, i)
    ensures Keeps(v, i) ==> goal[i] == v[i] && goal[i + 1..] == FixFrom(v, used, i + 1)
    ensures !Keeps(v, i) ==>
      goal[i] == FreeFrom(used, DEFAULTS[i], 0) && goal[i + 1..] == FixFrom(v, used + [goal[i]], i + 1)
  {
    hide Keeps, FreeFrom;
    assert goal[i..][0] == goal[i] && goal[i..][1..] == goal[i + 1..];
  }

  /** Rewrites the slots in place, and names those it has moved. */
  method RepairPorts(slots: array<Port>) returns (reset: seq<nat>)
    requires slots.Length == SLOTS
    modifies slots
    ensures slots[..] == Repaired(old(slots[..]))
    ensures reset == ChangedFrom(old(slots[..]), slots[..], 0)
  {
    hide HolderFrom, Owner, Keeps, FreeFrom, KeptFrom, FixFrom, ChangedFrom;
    var values := slots[..];
    var keep := seq(SLOTS, i requires 0 <= i < SLOTS => Keeps(values, i));
    var used := KeptFrom(values, 0);
    reset := [];
    ghost var goal := Repaired(values);
    ghost var names := ChangedFrom(values, goal, 0);
    assert goal[0..] == goal;
    for i := 0 to SLOTS
      invariant |used| <= SLOTS + i
      invariant forall j :: 0 <= j < SLOTS ==> slots[j] == if j < i then goal[j] else values[j]
      invariant goal[i..] == FixFrom(values, used, i)
      invariant reset + ChangedFrom(values, goal, i) == names
    {
      ChangedStep(values, goal, i, reset, names);
      ChangedIffNotKept(values, i);
      FixStep(values, used, i, goal);
      if !keep[i] {
        var candidate := NextFree(used, DEFAULTS[i]);
        slots[i] := candidate;
        used := used + [candidate];
        reset := reset + [i];
      }
    }
    NothingFurther(values, goal);
    assert slots[..] == goal;
  }

  lemma NothingFurther(v: seq<Port>, w: seq<Port>)
    requires |v| == |w|
    ensures ChangedFrom(v, w, |v|) == []
  {
  }

  /** The port part of loading a configuration: the second validation cannot fail. */
  method LoadPorts(slots: array<Port>) returns (r: Outcome, reset: seq<nat>)
    requires slots.Length == SLOTS
    modifies slots
    ensures r == Accepted
    ensures slots[..] == Repaired(old(slots[..])) && ValidPorts(slots[..])
    ensures reset == ChangedFrom(old(slots[..]), slots[..], 0)
  {
    ghost var before := slots[..];
    reset := [];
    ValidConfigurationIsKept(before);
    RepairedIsValid(before);
    r := ValidatePorts(slots[..]);
    if r.Rejected? {
      reset := RepairPorts(slots);
      r := ValidatePorts(slots[..]);
    } else {
      NothingChanged(before, 0);
    }
  }

  lemma {:induction false} NothingChanged(v: seq<Port>, i: nat)
    requires i <= |v|
    ensures ChangedFrom(v, v, i) == []
    decreases |v| - i
  {
    if i < |v| { NothingChanged(v, i + 1); }
  }

  // ---------- the repaired configuration, slot by slot ----------

  /** The one slot that keeps a port: that with this default, or else the first that holds it. */
  ghost predicate KeepsIt(v: seq<Port>, i: nat)
    requires |v| == 8 && i < 8
  {
    && v[i] >= 1024
    && (v[i] == DEFAULTS[i]
        || forall j :: 0 <= j < 8 && v[j] == v[i] ==> DEFAULTS[j] != v[j] && i <= j)
  }

  lemma {:induction false} HolderIsFirst(v: seq<Port>, p: Port, own: bool, i: nat)
    requires |v| == SLOTS && i <= SLOTS
    ensures var r := HolderFrom(v, p, own, i);
      r.Some? ==> forall j :: i <= j < r.value && v[j] == p ==> own && DEFAULTS[j] != p
    decreases SLOTS - i
  {
    if i < SLOTS { HolderIsFirst(v, p, own, i + 1); }
  }

  lemma KeepsIff(v: seq<Port>, i: nat)
    requires |v| == 8 && i < 8
    ensures Keeps(v, i) <==> KeepsIt(v, i)
  {
    HolderIsFirst(v, v[i], true, 0);
    HolderIsFirst(v, v[i], false, 0);
    if v[i] == DEFAULTS[i] { OwnDefaultKeeps(v, i); }
  }

  /** The port `k` places behind `d`, going round from 65535 to 1024. */
  function Behind(d: Port, k: nat): int {
    1024 + (d - 1024 + k) % 64512
  }

  lemma BehindIs(d: Port, k: nat)
    requires d >= 1024 && k <= HIGHEST - LOWEST
    ensures After(d, k) == Behind(d, k)
  {
  }

  /** The port is held by a slot that keeps it, or has been given to an earlier slot. */
  ghost predicate Gone(v: seq<Port>, w: seq<Port>, i: nat, p: int)
    requires |v| == |w| == 8 && i < 8
  {
    || (exists j :: 0 <= j < 8 && KeepsIt(v, j) && v[j] == p)
    || (exists j :: 0 <= j < i && w[j] == p)
  }

  lemma {:induction false} FreeIsFirst(used: seq<Port>, d: Port, k: nat) returns (n: nat)
    requires d >= LOWEST && k <= |used| <= HIGHEST - LOWEST
    ensures k <= n <= |used| && FreeFrom(used, d, k) == After(d, n)
    ensures forall i :: k <= i < n ==> After(d, i) in used
    decreases |used| - k
  {
    n := k;
    if After(d, k) in used && k < |used| { n := FreeIsFirst(used, d, k + 1); }
  }

  lemma {:induction false} KeptAre(v: seq<Port>, i: nat, p: Port)
    requires |v| == SLOTS && i <= SLOTS
    ensures p in KeptFrom(v, i) <==> exists j :: i <= j < SLOTS && Keeps(v, j) && v[j] == p
    decreases SLOTS - i
  {
    hide Keeps;
    if i < SLOTS { KeptAre(v, i + 1, p); }
  }

  /** Some slot from `i` on and before `n` has been given this port. */
  ghost predicate GivenIn(v: seq<Port>, whole: seq<Port>, i: nat, n: nat, p: Port)
    requires |v| == SLOTS && i <= n <= SLOTS && |whole| == SLOTS - i
  {
    exists j :: i <= j < n && !Keeps(v, j) && whole[j - i] == p
  }

  lemma GivenStep(v: seq<Port>, first: Port, rest: seq<Port>, i: nat, n: nat, p: Port)
    requires |v| == SLOTS && i < n <= SLOTS && |rest| == SLOTS - i - 1
    ensures GivenIn(v, [first] + rest, i, n, p) <==>
      ((!Keeps(v, i) && first == p) || GivenIn(v, rest, i + 1, n, p))
  {
    hide Keeps;
    var whole := [first] + rest;
    if j :| i + 1 <= j < n && !Keeps(v, j) && rest[j - (i + 1)] == p { assert whole[j - i] == p; }
    if !Keeps(v, i) && first == p { assert whole[i - i] == p; }
  }

  function GivenTo(v: seq<Port>, used: seq<Port>, i: nat): Port
    requires |v| == SLOTS && i < SLOTS && |used| <= SLOTS + i
  {
    if Keeps(v, i) then v[i] else FreeFrom(used, DEFAULTS[i], 0)
  }

  function UsedAfter(v: seq<Port>, used: seq<Port>, i: nat): (u: seq<Port>)
    requires |v| == SLOTS && i < SLOTS && |used| <= SLOTS + i
    ensures |u| <= SLOTS + i + 1
  {
    if Keeps(v, i) then used else used + [GivenTo(v, used, i)]
  }

  lemma FixUnfolds(v: seq<Port>, used: seq<Port>, i: nat)
    requires |v| == SLOTS && i < SLOTS && |used| <= SLOTS + i
    ensures FixFrom(v, used, i) == [GivenTo(v, used, i)] + FixFrom(v, UsedAfter(v, used, i), i + 1)
  {
    hide Keeps, FreeFrom;
  }

  lemma TailOfCons(first: Port, rest: seq<Port>, k: nat)
    requires 0 < k <= |rest| + 1
    ensures ([first] + rest)[k..] == rest[k - 1..]
  {
  }

  /** What is in use when the `n`-th slot's turn comes: what was before, and what was given away since. */
  lemma {:induction false} UsedAt(v: seq<Port>, used: seq<Port>, i: nat, n: nat) returns (u: seq<Port>)
    requires |v| == SLOTS && i <= n < SLOTS && |used| <= SLOTS + i
    ensures |u| <= SLOTS + n && FixFrom(v, used, i)[n - i..] == FixFrom(v, u, n)
    ensures forall p :: p in u <==> (p in used || GivenIn(v, FixFrom(v, used, i), i, n, p))
    decreases n - i
  {
    hide Keeps, FreeFrom, FixFrom;
    u := used;
    if i < n {
      hide GivenIn, GivenTo;
      u := UsedAt(v, UsedAfter(v, used, i), i + 1, n);
      FixUnfolds(v, used, i);
      var rest := FixFrom(v, UsedAfter(v, used, i), i + 1);
      TailOfCons(GivenTo(v, used, i), rest, n - i);
      forall p ensures p in u <==> (p in used || GivenIn(v, FixFrom(v, used, i), i, n, p)) {
        GivenStep(v, GivenTo(v, used, i), rest, i, n, p);
      }
    }
  }

  lemma GoneIff(v: seq<Port>, u: seq<Port>, i: nat, p: Port)
    requires |v| == 8 && i < 8
    requires p in u <==> (p in KeptFrom(v, 0) || GivenIn(v, Repaired(v), 0, i, p))
    ensures p in u <==> Gone(v, Repaired(v), i, p)
  {
    hide Keeps, KeepsIt, Repaired, KeptFrom;
    KeptAre(v, 0, p);
    forall j | 0 <= j < 8 ensures Keeps(v, j) <==> KeepsIt(v, j) { KeepsIff(v, j); }
    if j :| 0 <= j < i && Repaired(v)[j] == p && Keeps(v, j) {
      ChangedIffNotKept(v, j);
    }
    assert forall j :: 0 <= j < i ==> Repaired(v)[j - 0] == Repaired(v)[j];
  }

  /** Each slot that does not keep its port gets the first one from its default on that is not gone. */
  lemma RepairedSlotIs(v: seq<Port>, i: nat) returns (n: nat)
    requires |v| == 8 && i < 8
    ensures var w := Repaired(v);
      if KeepsIt(v, i) then w[i] == v[i]
      else w[i] == Behind(DEFAULTS[i], n) && !Gone(v, w, i, w[i])
           && forall k: nat :: k < n ==> Gone(v, w, i, Behind(DEFAULTS[i], k))
  {
    n := 0;
    var w, used := Repaired(v), KeptFrom(v, 0);
    KeepsIff(v, i);
    var u := UsedAt(v, used, 0, i);
    assert w[i] == w[i..][0];
    hide Keeps, KeepsIt, Gone, Repaired, KeptFrom, HolderFrom, Owner;
    if !Keeps(v, i) {
      DefaultsAreValid();
      n := FreeIsFirst(u, DEFAULTS[i], 0);
      SearchSucceeds(u, DEFAULTS[i], 0);
      assert w[i] == FreeFrom(u, DEFAULTS[i], 0);
      BehindIs(DEFAULTS[i], n);
      GoneIff(v, u, i, w[i]);
      forall k: nat | k < n ensures Gone(v, w, i, Behind(DEFAULTS[i], k)) {
        BehindIs(DEFAULTS[i], k);
        GoneIff(v, u, i, After(DEFAULTS[i], k));
      }
    }
  }

  /** The names of the changed slots, each once, in order. */
  lemma {:induction false} ChangedAre(v: seq<Port>, w: seq<Port>, i: nat)
    requires |v| == |w| && i <= |v|
    ensures forall k :: k in ChangedFrom(v, w, i) <==> i <= k < |v| && v[k] != w[k]
    ensures forall a, b :: 0 <= a < b < |ChangedFrom(v, w, i)| ==> ChangedFrom(v, w, i)[a] < ChangedFrom(v, w, i)[b]
    decreases |v| - i
  {
    if i < |v| {
      ChangedAre(v, w, i + 1);
      var rest := ChangedFrom(v, w, i + 1);
      forall b | 0 <= b < |rest| ensures i < rest[b] { assert rest[b] in rest; }
    }
  }
}
