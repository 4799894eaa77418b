/** The gateway's admission limiter: first come first served, resizable, cancellable. */
module Limiter {

  /** What the mutex protects. Waiting requests are named by their order of arrival. */
  datatype Gate = Gate(capacity: int, inUse: nat, waiters: seq<nat>)

  /** How many waiters the granting loop admits. */
  function GrantCount(g: Gate): (k: nat)
    ensures k <= |g.waiters|
  {
    if g.inUse >= g.capacity then 0
    else if g.capacity - g.inUse < |g.waiters| then g.capacity - g.inUse
    else |g.waiters|
  }

  function AfterGrants(g: Gate): Gate {
    g.(inUse := g.inUse + GrantCount(g), waiters := g.waiters[GrantCount(g)..])
  }

  predicate FastPath(g: Gate) {
    g.waiters == [] && g.inUse < g.capacity
  }

  function Enqueued(g: Gate, t: nat): Gate {
    g.(waiters := g.waiters + [t])
  }

  /** The queue without the first occurrence of t. */
  function Without(waiters: seq<nat>, t: nat): seq<nat> {
    if waiters == [] then []
    else if waiters[0] == t then waiters[1..]
    else [waiters[0]] + Without(waiters[1..], t)
  }

  function Left(g: Gate, t: nat): Gate {
    g.(waiters := Without(g.waiters, t))
  }

  function Freed(g: Gate): Gate {
    g.(inUse := if g.inUse > 0 then g.inUse - 1 else g.inUse)
  }

  function Resized(g: Gate, capacity: int): Gate {
    g.(capacity := if capacity <= 0 then 1 else capacity)
  }

  // ---------- the implementation ----------

  class Waiter {
    const ticket: nat
    var granted: bool

    constructor (ticket: nat)
      ensures this.ticket == ticket && !granted
    {
      this.ticket, this.granted := ticket, false;
    }
  }

  ghost function Tickets(waiters: seq<Waiter>): (r: seq<nat>)
    ensures |r| == |waiters|
    ensures forall i :: 0 <= i < |waiters| ==> r[i] == waiters[i].ticket
  {
    seq(|waiters|, i requires 0 <= i < |waiters| => waiters[i].ticket)
  }

  lemma NobodyWaiting(waiters: seq<Waiter>)
    ensures Tickets(waiters) == [] <==> waiters == []
  {}

  lemma ArrivalTickets(waiters: seq<Waiter>, waiter: Waiter)
    ensures Tickets(waiters + [waiter]) == Tickets(waiters) + [waiter.ticket]
    ensures forall i :: 0 <= i < |waiters| ==> waiters[i].ticket in Tickets(waiters)
  {
    forall i | 0 <= i < |waiters| ensures waiters[i].ticket in Tickets(waiters) {
      assert Tickets(waiters)[i] == waiters[i].ticket;
    }
  }

  /** The last in a queue of distinct tickets is among the first k exactly when it is not behind them. */
  lemma LastIsGranted(queue: seq<Waiter>, k: nat, waiter: Waiter)
    requires k <= |queue| && queue != [] && queue[|queue| - 1] == waiter
    requires forall i, j :: 0 <= i < j < |queue| ==> queue[i].ticket != queue[j].ticket
    ensures k == |queue| <==> waiter.ticket !in Tickets(queue[k..])
  {
    var rest := queue[k..];
    if k < |queue| {
      assert rest[|rest| - 1] == waiter && Tickets(rest)[|rest| - 1] == waiter.ticket;
    }
  }

  class GatewayLimiter {
    var capacity: int
    var inUse: nat
    var waiters: seq<Waiter>

    /** Distinct waiters, none of them granted. */
    ghost predicate Valid()
      reads this, waiters
    {
      && (forall i, j :: 0 <= i < j < |waiters| ==> waiters[i].ticket != waiters[j].ticket)
      && (forall i :: 0 <= i < |waiters| ==> !waiters[i].granted)
    }

    ghost function View(): Gate
      reads this
    {
      Gate(capacity, inUse, Tickets(waiters))
    }

    constructor (capacity: int)
      ensures Valid() && View() == Gate(if capacity <= 0 then 1 else capacity, 0, [])
    {
      this.capacity, this.inUse, this.waiters := if capacity <= 0 then 1 else capacity, 0, [];
    }

    /** Admits waiters from the front while there is room. */
    method GrantLocked()
      requires Valid()
      modifies this`inUse, this`waiters, waiters
      ensures Valid() && View() == AfterGrants(old(View()))
      ensures waiters == old(waiters)[GrantCount(old(View()))..]
      ensures forall i :: 0 <= i < |old(waiters)| ==> (old(waiters)[i].granted <==> i < GrantCount(old(View())))
    {
      ghost var k := 0;
      while inUse < capacity && |waiters| > 0
        invariant k <= |old(waiters)| && waiters == old(waiters)[k..]
        invariant inUse == old(inUse) + k && (k > 0 ==> inUse <= capacity)
        invariant forall i :: 0 <= i < |old(waiters)| ==> (old(waiters)[i].granted <==> i < k)
        decreases |waiters|
      {
        var waiter := waiters[0];
        assert waiter == old(waiters)[k];
        waiters := waiters[1..];
        waiter.granted := true;
        inUse := inUse + 1;
        k := k + 1;
      }
      assert k == GrantCount(old(View()));
    }

    /** The locked part of acquire: admits at once and returns null, or queues the request. */
    method Enter(ticket: nat) returns (waiter: Waiter?)
      requires Valid() && ticket !in Tickets(waiters)
      modifies this, waiters
      ensures Valid()
      ensures waiter == null <==> FastPath(old(View()))
      ensures View() == if FastPath(old(View()))
          then old(View()).(inUse := old(inUse) + 1) else AfterGrants(Enqueued(old(View()), ticket))
      ensures waiter != null ==>
          fresh(waiter) && waiter.ticket == ticket && (waiter.granted <==> ticket !in Tickets(waiters))
    {
      if |waiters| == 0 && inUse < capacity {
        inUse := inUse + 1;
        return null;
      }
      hide GrantCount, AfterGrants, Tickets;
      assert !FastPath(View()) by {
        NobodyWaiting(waiters);
      }
      hide FastPath;
      waiter := new Waiter(ticket);
      var queue := waiters + [waiter];
      ArrivalTickets(waiters, waiter);
      waiters := queue;
      assert Valid() && View() == Enqueued(old(View()), ticket);
      GrantLocked();
      hide Enqueued;
      LastIsGranted(queue, GrantCount(Enqueued(old(View()), ticket)), waiter);
    }

    /** The locked part of a cancellation: keeps a slot that was granted meanwhile, leaves the queue otherwise. */
    method Leave(waiter: Waiter) returns (kept: bool)
      requires Valid()
      requires !waiter.granted ==> waiter in waiters
      requires waiter.granted ==> waiter !in waiters
      modifies this, waiters
      ensures Valid()
      ensures kept == old(waiter.granted)
      ensures View() == if kept then old(View()) else AfterGrants(Left(old(View()), waiter.ticket))
    {
      if waiter.granted {
        return true;
      }
      for i := 0 to |waiters|
        invariant waiter !in waiters[..i] && unchanged(this) && unchanged(waiters)
      {
        if waiters[i] == waiter {
          RemovedAt(waiters, i, waiter);
          waiters := waiters[..i] + waiters[i + 1..];
          break;
        }
      }
      GrantLocked();
      return false;
    }

    /** The locked part of a release. */
    method Free()
      requires Valid()
      modifies this`inUse, this`waiters, waiters
      ensures Valid() && View() == AfterGrants(Freed(old(View())))
    {
      if inUse > 0 {
        inUse := inUse - 1;
      }
      GrantLocked();
    }

    method SetCapacity(capacity: int)
      requires Valid()
      modifies this, waiters
      ensures Valid() && View() == AfterGrants(Resized(old(View()), capacity))
      ensures this.capacity == if capacity >= 1 then capacity else 1
    {
      this.capacity := if capacity <= 0 then 1 else capacity;
      GrantLocked();
    }
  }

  lemma RemovedAt(waiters: seq<Waiter>, i: nat, waiter: Waiter)
    requires i < |waiters| && waiters[i] == waiter
    requires forall j, k :: 0 <= j < k < |waiters| ==> waiters[j].ticket != waiters[k].ticket
    ensures Tickets(waiters[..i] + waiters[i + 1..]) == Without(Tickets(waiters), waiter.ticket)
  {
    var ts := Tickets(waiters);
    WithoutAt(ts, i);
    assert Tickets(waiters[..i] + waiters[i + 1..]) == ts[..i] + ts[i + 1..];
  }

  lemma {:induction false} WithoutAt(ts: seq<nat>, i: nat)
    requires i < |ts| && forall j, k :: 0 <= j < k < |ts| ==> ts[j] != ts[k]
    ensures Without(ts, ts[i]) == ts[..i] + ts[i + 1..]
  {
    if i > 0 {
      WithoutAt(ts[1..], i - 1);
      assert ts[1..][i - 1] == ts[i];
      assert [ts[0]] + (ts[1..][..i - 1] + ts[1..][i..]) == ts[..i] + ts[i + 1..];
    }
  }

  /** A release function: however often it is called, it frees one slot. */
  class Release {
    const limiter: GatewayLimiter
    var done: bool

    constructor (limiter: GatewayLimiter)
      ensures this.limiter == limiter && !done
    {
      this.limiter, this.done := limiter, false;
    }

    method Call()
      requires limiter.Valid()
      modifies this, limiter`inUse, limiter`waiters, limiter.waiters
      ensures limiter.Valid() && done
      ensures limiter.View() == if old(done) then old(limiter.View()) else AfterGrants(Freed(old(limiter.View())))
    {
      if !done {
        done := true;
        limiter.Free();
      }
    }
  }

  // ---------- many clients ----------

  /** Where the request of one acquire call stands. Granted: admitted by the queue, acquire has not returned yet. */
  datatype Phase = Queued | Granted | Holding | Released | Withdrawn

  predicate HasSlot(p: Phase) {
    p.Granted? || p.Holding?
  }

  predicate Admitted(p: Phase) {
    p.Granted? || p.Holding? || p.Released?
  }

  /** The gate, and the phase of every request in order of arrival. */
  datatype System = System(gate: Gate, phases: seq<Phase>)

  datatype Event =
    | Acquire
    /** The select of request t takes its ready branch. */
    | Ready(t: nat)
    /** The select of request t takes its cancellation branch. */
    | Cancel(t: nat)
    | CallRelease(t: nat)
    | Resize(capacity: int)

  /** An event that the phase of its request allows. */
  predicate Enabled(s: System, ev: Event) {
    match ev
    case Acquire => true
    case Ready(t) => t < |s.phases| && s.phases[t].Granted?
    case Cancel(t) => t < |s.phases| && (s.phases[t].Queued? || s.phases[t].Granted?)
    case CallRelease(t) => t < |s.phases| && (s.phases[t].Holding? || s.phases[t].Released?)
    case Resize(_) => true
  }

  /** The phases after the requests ts have been granted. */
  function Grant(phases: seq<Phase>, ts: seq<nat>): (r: seq<Phase>)
    ensures |r| == |phases|
    ensures forall t :: 0 <= t < |phases| ==> r[t] == if t in ts then Granted else phases[t]
  {
    if ts == [] then phases
    else
      var rest := Grant(phases, ts[..|ts| - 1]);
      var t := ts[|ts| - 1];
      assert ts == ts[..|ts| - 1] + [t];
      if t < |phases| then rest[t := Granted] else rest
  }

  /** Leaving the lock through the granting loop. */
  function Settle(g: Gate, phases: seq<Phase>): System {
    System(AfterGrants(g), Grant(phases, g.waiters[..GrantCount(g)]))
  }

  function Next(s: System, ev: Event): System
    requires Enabled(s, ev)
  {
    match ev
    case Acquire =>
      if FastPath(s.gate) then System(s.gate.(inUse := s.gate.inUse + 1), s.phases + [Holding])
      else Settle(Enqueued(s.gate, |s.phases|), s.phases + [Queued])
    case Ready(t) => s.(phases := s.phases[t := Holding])
    case Cancel(t) =>
      if s.phases[t].Granted? then s.(phases := s.phases[t := Holding])
      else Settle(Left(s.gate, t), s.phases[t := Withdrawn])
    case CallRelease(t) =>
      if s.phases[t].Released? then s
      else Settle(Freed(s.gate), s.phases[t := Released])
    case Resize(capacity) => Settle(Resized(s.gate, capacity), s.phases)
  }

  function SlotsHeld(phases: seq<Phase>): nat {
    if phases == [] then 0
    else SlotsHeld(phases[..|phases| - 1]) + if HasSlot(phases[|phases| - 1]) then 1 else 0
  }

  /** Nobody is admitted before someone who arrived earlier and still waits. */
  ghost predicate NoOvertaking(phases: seq<Phase>) {
    forall t, u :: 0 <= t < u < |phases| && Admitted(phases[u]) ==> !phases[t].Queued?
  }

  /** The queue is exactly the waiting requests, in order of arrival. */
  ghost predicate QueueMatches(waiters: seq<nat>, phases: seq<Phase>) {
    && (forall i, j :: 0 <= i < j < |waiters| ==> waiters[i] < waiters[j])
    && (forall t: nat :: t in waiters <==> t < |phases| && phases[t].Queued?)
  }

  ghost predicate Orderly(s: System) {
    && s.gate.capacity >= 1
    && QueueMatches(s.gate.waiters, s.phases)
    && NoOvertaking(s.phases)
    && s.gate.inUse == SlotsHeld(s.phases)
    && (s.gate.waiters != [] ==> s.gate.inUse >= s.gate.capacity)
  }

  lemma {:induction false} SlotsHeldUpdate(phases: seq<Phase>, t: nat, p: Phase)
    requires t < |phases|
    ensures SlotsHeld(phases[t := p])
        == SlotsHeld(phases) - (if HasSlot(phases[t]) then 1 else 0) + (if HasSlot(p) then 1 else 0)
  {
    var last := |phases| - 1;
    if t == last {
      assert phases[t := p][..last] == phases[..last];
    } else {
      SlotsHeldUpdate(phases[..last], t, p);
      assert phases[t := p][..last] == phases[..last][t := p];
    }
  }

  lemma SlotsHeldSnoc(phases: seq<Phase>, p: Phase)
    ensures SlotsHeld(phases + [p]) == SlotsHeld(phases) + if HasSlot(p) then 1 else 0
  {
    assert (phases + [p])[..|phases|] == phases;
  }

  lemma {:induction false} SlotsAfterGrant(phases: seq<Phase>, ts: seq<nat>)
    requires forall i, j :: 0 <= i < j < |ts| ==> ts[i] < ts[j]
    requires forall i :: 0 <= i < |ts| ==> ts[i] < |phases| && phases[ts[i]].Queued?
    ensures SlotsHeld(Grant(phases, ts)) == SlotsHeld(phases) + |ts|
  {
    if ts != [] {
      var init, t := ts[..|ts| - 1], ts[|ts| - 1];
      SlotsAfterGrant(phases, init);
      assert t !in init;
      SlotsHeldUpdate(Grant(phases, init), t, Granted);
    }
  }

  /** In a queue without repetitions, what lies behind the first k is everything but those. */
  lemma BehindTheFirst(waiters: seq<nat>, k: nat, t: nat)
    requires k <= |waiters| && forall i, j :: 0 <= i < j < |waiters| ==> waiters[i] < waiters[j]
    ensures t in waiters[k..] <==> t in waiters && t !in waiters[..k]
  {
    if t in waiters[k..] {
      var j :| 0 <= j < |waiters[k..]| && waiters[k..][j] == t;
      assert waiters[k + j] == t;
      assert forall i :: 0 <= i < k ==> waiters[..k][i] < t;
    }
    assert waiters == waiters[..k] + waiters[k..];
  }

  lemma QueueAfterGrant(waiters: seq<nat>, phases: seq<Phase>, k: nat)
    requires k <= |waiters| && QueueMatches(waiters, phases)
    ensures QueueMatches(waiters[k..], Grant(phases, waiters[..k]))
  {
    hide Grant;
    forall t: nat ensures t in waiters[k..] <==> t < |phases| && Grant(phases, waiters[..k])[t].Queued? {
      BehindTheFirst(waiters, k, t);
    }
  }

  lemma FairAfterGrant(waiters: seq<nat>, phases: seq<Phase>, k: nat)
    requires k <= |waiters| && QueueMatches(waiters, phases) && NoOvertaking(phases)
    ensures NoOvertaking(Grant(phases, waiters[..k]))
  {
    hide Grant;
    var first := waiters[..k];
    var phases' := Grant(phases, first);
    forall t: nat, u: nat | t < u < |phases'| && Admitted(phases'[u]) ensures !phases'[t].Queued? {
      if u in first && phases[t].Queued? {
        assert t in waiters;
        var i :| 0 <= i < |waiters| && waiters[i] == t;
        var j :| 0 <= j < k && waiters[j] == u;
        assert i < j;
        assert first[i] == t;
      }
    }
  }

  /** Granting the first k waiters keeps the queue matching and nobody overtaken, and takes k slots. */
  lemma GrantKeepsOrder(waiters: seq<nat>, phases: seq<Phase>, k: nat)
    requires k <= |waiters| && QueueMatches(waiters, phases) && NoOvertaking(phases)
    ensures var phases' := Grant(phases, waiters[..k]);
      QueueMatches(waiters[k..], phases') && NoOvertaking(phases') && SlotsHeld(phases') == SlotsHeld(phases) + k
  {
    QueueAfterGrant(waiters, phases, k);
    FairAfterGrant(waiters, phases, k);
    var first := waiters[..k];
    forall i | 0 <= i < |first| ensures first[i] < |phases| && phases[first[i]].Queued? {
      assert first[i] in waiters;
    }
    SlotsAfterGrant(phases, first);
  }

  lemma SettleKeepsOrderly(g: Gate, phases: seq<Phase>)
    requires g.capacity >= 1 && QueueMatches(g.waiters, phases) && NoOvertaking(phases) && g.inUse == SlotsHeld(phases)
    ensures Orderly(Settle(g, phases))
    ensures Settle(g, phases).gate.inUse > g.inUse ==> Settle(g, phases).gate.inUse <= g.capacity
  {
    GrantKeepsOrder(g.waiters, phases, GrantCount(g));
  }

  lemma {:induction false} WithoutMembers(ts: seq<nat>, t: nat)
    requires forall i, j :: 0 <= i < j < |ts| ==> ts[i] < ts[j]
    ensures forall i, j :: 0 <= i < j < |Without(ts, t)| ==> Without(ts, t)[i] < Without(ts, t)[j]
    ensures forall u :: u in Without(ts, t) <==> u in ts && u != t
  {
    if ts != [] {
      assert ts == [ts[0]] + ts[1..];
      if ts[0] == t {
        assert t !in ts[1..];
      } else {
        WithoutMembers(ts[1..], t);
        var r := Without(ts[1..], t);
        forall j | 0 <= j < |r| ensures ts[0] < r[j] {
          assert r[j] in r;
        }
      }
    }
  }

  lemma QueueAfterArrival(waiters: seq<nat>, phases: seq<Phase>)
    requires QueueMatches(waiters, phases)
    ensures QueueMatches(waiters + [|phases|], phases + [Queued])
  {
    var queue, later := waiters + [|phases|], phases + [Queued];
    forall i | 0 <= i < |waiters| ensures waiters[i] < |phases| {
      assert waiters[i] in waiters;
    }
    forall t: nat ensures t in queue <==> t < |later| && later[t].Queued? {
      assert t in queue <==> t in waiters || t == |phases|;
    }
  }

  lemma AcquireKeepsOrderly(s: System)
    requires Orderly(s)
    ensures Orderly(Next(s, Acquire))
  {
    SlotsHeldSnoc(s.phases, if FastPath(s.gate) then Holding else Queued);
    if FastPath(s.gate) {
      assert forall t: nat :: t < |s.phases| ==> t !in s.gate.waiters && !s.phases[t].Queued?;
    } else {
      QueueAfterArrival(s.gate.waiters, s.phases);
      assert NoOvertaking(s.phases + [Queued]);
      hide Settle, SlotsHeld, QueueMatches, NoOvertaking;
      SettleKeepsOrderly(Enqueued(s.gate, |s.phases|), s.phases + [Queued]);
    }
  }

  lemma WithdrawKeepsOrderly(s: System, t: nat)
    requires Orderly(s) && t < |s.phases| && s.phases[t].Queued?
    ensures Orderly(Next(s, Cancel(t)))
  {
    hide Settle, Without;
    SlotsHeldUpdate(s.phases, t, Withdrawn);
    WithoutMembers(s.gate.waiters, t);
    var phases := s.phases[t := Withdrawn];
    assert QueueMatches(Without(s.gate.waiters, t), phases);
    SettleKeepsOrderly(Left(s.gate, t), phases);
  }

  lemma SlotCounted(phases: seq<Phase>, t: nat)
    requires t < |phases| && HasSlot(phases[t])
    ensures SlotsHeld(phases) > 0
  {
    SlotsHeldUpdate(phases, t, Released);
  }

  lemma ReleaseKeepsOrderly(s: System, t: nat)
    requires Orderly(s) && t < |s.phases| && s.phases[t].Holding?
    ensures Orderly(Next(s, CallRelease(t)))
  {
    hide Settle;
    SlotsHeldUpdate(s.phases, t, Released);
    SlotCounted(s.phases, t);
    var phases := s.phases[t := Released];
    assert QueueMatches(s.gate.waiters, phases);
    SettleKeepsOrderly(Freed(s.gate), phases);
  }

  /** Every step of every client keeps the limiter orderly. */
  lemma StepKeepsOrderly(s: System, ev: Event)
    requires Orderly(s) && Enabled(s, ev)
    ensures Orderly(Next(s, ev))
  {
    match ev
    case Acquire => AcquireKeepsOrderly(s);
    case Ready(t) => SlotsHeldUpdate(s.phases, t, Holding);
    case Cancel(t) =>
      if s.phases[t].Granted? {
        SlotsHeldUpdate(s.phases, t, Holding);
      } else {
        WithdrawKeepsOrderly(s, t);
      }
    case CallRelease(t) =>
      if s.phases[t].Holding? {
        ReleaseKeepsOrderly(s, t);
      }
    case Resize(capacity) => SettleKeepsOrderly(Resized(s.gate, capacity), s.phases);
  }

  /** No step takes the number of slots in use above the capacity it leaves. */
  lemma StepRespectsCapacity(s: System, ev: Event)
    requires Orderly(s) && Enabled(s, ev)
    ensures Next(s, ev).gate.inUse > s.gate.inUse ==> Next(s, ev).gate.inUse <= Next(s, ev).gate.capacity
  {
  }

  /** A request's phase only moves forward: it is admitted or withdrawn once, and released once. */
  lemma PhasesOnlyAdvance(s: System, ev: Event, t: nat)
    requires Orderly(s) && Enabled(s, ev) && t < |s.phases|
    ensures t < |Next(s, ev).phases|
    ensures var before, after := s.phases[t], Next(s, ev).phases[t];
      || after == before
      || (before.Queued? && (after.Granted? || after.Withdrawn?))
      || (before.Granted? && after.Holding?)
      || (before.Holding? && after.Released?)
  {
    hide Grant, Without;
    if ev.Cancel? && s.phases[ev.t].Queued? {
      WithoutMembers(s.gate.waiters, ev.t);
    }
    assert t in s.gate.waiters <==> s.phases[t].Queued?;
  }

  /** A release always finds a slot to free, and frees exactly one: what stays in use is held by others or newly
      granted. */
  lemma ReleaseFreesOneSlot(s: System, t: nat)
    requires Orderly(s) && t < |s.phases| && s.phases[t].Holding?
    ensures s.gate.inUse > 0
    ensures Next(s, CallRelease(t)).gate.inUse == s.gate.inUse - 1 + GrantCount(Freed(s.gate))
    ensures Next(Next(s, CallRelease(t)), CallRelease(t)) == Next(s, CallRelease(t))
  {
    SlotsHeldUpdate(s.phases, t, Released);
    assert t !in s.gate.waiters;
  }

  /** The state after the events, from an unused limiter; an event that is not enabled cannot happen. */
  function Run(events: seq<Event>, capacity: int): System {
    if events == [] then System(Gate(if capacity <= 0 then 1 else capacity, 0, []), [])
    else
      var before, ev := Run(events[..|events| - 1], capacity), events[|events| - 1];
      if Enabled(before, ev) then Next(before, ev) else before
  }

  /** Every reachable state is orderly: no overtaking, exact accounting, nobody waits while there is room. */
  lemma {:induction false} ReachableIsOrderly(events: seq<Event>, capacity: int)
    ensures Orderly(Run(events, capacity))
  {
    if events != [] {
      var before, ev := Run(events[..|events| - 1], capacity), events[|events| - 1];
      ReachableIsOrderly(events[..|events| - 1], capacity);
      if Enabled(before, ev) {
        StepKeepsOrderly(before, ev);
      }
    }
  }

  /** At the step that admits u, every earlier request has been admitted or withdrawn. */
  lemma AdmissionIsFair(events: seq<Event>, capacity: int, ev: Event, t: nat, u: nat)
    requires Enabled(Run(events, capacity), ev)
    requires var phases := Next(Run(events, capacity), ev).phases; t < u < |phases| && Admitted(phases[u])
    ensures var after := Next(Run(events, capacity), ev).phases[t]; Admitted(after) || after.Withdrawn?
  {
    ReachableIsOrderly(events, capacity);
    StepKeepsOrderly(Run(events, capacity), ev);
  }

  /** Once every admitted request has released its slot, nobody is left waiting. */
  lemma DrainedMeansServed(events: seq<Event>, capacity: int)
    requires forall t :: 0 <= t < |Run(events, capacity).phases| ==> !HasSlot(Run(events, capacity).phases[t])
    ensures Run(events, capacity).gate.waiters == []
    ensures forall t :: 0 <= t < |Run(events, capacity).phases| ==>
      Run(events, capacity).phases[t].Released? || Run(events, capacity).phases[t].Withdrawn?
  {
    hide Run;
    ReachableIsOrderly(events, capacity);
    var s := Run(events, capacity);
    NoSlots(s.phases);
    forall t: nat | t < |s.phases| ensures !s.phases[t].Queued? {
      assert t !in s.gate.waiters;
    }
  }

  lemma {:induction false} NoSlots(phases: seq<Phase>)
    requires forall t :: 0 <= t < |phases| ==> !HasSlot(phases[t])
    ensures SlotsHeld(phases) == 0
  {
    if phases != [] {
      NoSlots(phases[..|phases| - 1]);
    }
  }

  // ---------- what each event does ----------

  /** The capacity asked for, at least one. */
  function Wanted(capacity: int): int {
    if capacity >= 1 then capacity else 1
  }

  /** The capacity the last resize of the run asked for, or the first one. */
  function LastCapacity(events: seq<Event>, capacity: int): int {
    if events == [] then Wanted(capacity)
    else match events[|events| - 1]
         case Resize(c) => Wanted(c)
         case _ => LastCapacity(events[..|events| - 1], capacity)
  }

  /** Only a resize changes the capacity, and it sets what it asks for. */
  lemma {:induction false} CapacityIsLastResize(events: seq<Event>, capacity: int)
    ensures Run(events, capacity).gate.capacity == LastCapacity(events, capacity)
  {
    if events != [] {
      CapacityIsLastResize(events[..|events| - 1], capacity);
      hide Grant, GrantCount, Without;
    }
  }

  /** The smaller of the room and the number of waiters. */
  function Admissions(room: int, waiting: nat): nat {
    if room <= 0 then 0 else if room <= waiting then room else waiting
  }

  /** A resize admits, from the front of the queue, as many as then fit, and changes nothing else. */
  lemma ResizeAdmits(s: System, capacity: int)
    ensures var after := Next(s, Resize(capacity));
      var n := Admissions(Wanted(capacity) - s.gate.inUse, |s.gate.waiters|);
      && after.gate.capacity == Wanted(capacity)
      && after.gate.inUse == s.gate.inUse + n
      && after.gate.waiters == s.gate.waiters[n..]
      && |after.phases| == |s.phases|
      && forall t: nat :: t < |s.phases| ==>
          after.phases[t] == if t in s.gate.waiters[..n] then Granted else s.phases[t]
  {
    hide Grant;
  }

  /** A request that arrives holds a slot at once when nobody waits and there is room, and waits otherwise. */
  lemma ArrivalDecides(s: System)
    requires Orderly(s)
    ensures var after := Next(s, Acquire);
      && |after.phases| == |s.phases| + 1
      && after.phases[..|s.phases|] == s.phases
      && after.phases[|s.phases|]
          == (if s.gate.waiters == [] && s.gate.inUse < s.gate.capacity then Holding else Queued)
  {
    hide Grant, QueueMatches, NoOvertaking, SlotsHeld;
    var g := Enqueued(s.gate, |s.phases|);
    assert GrantCount(g) == 0 || (s.gate.waiters == [] && s.gate.inUse < s.gate.capacity);
    assert g.waiters[..0] == [];
    NobodyGranted(s.phases + [Queued]);
  }

  lemma NobodyGranted(phases: seq<Phase>)
    ensures Grant(phases, []) == phases
  {}

  /** The other events: a ready request holds its slot, a cancelled one that waits withdraws, a cancelled one that was
      granted keeps its slot, and a held slot is released. */
  lemma EventTakesEffect(s: System, t: nat)
    requires Orderly(s) && t < |s.phases|
    ensures s.phases[t].Granted? ==> Next(s, Ready(t)) == s.(phases := s.phases[t := Holding])
    ensures s.phases[t].Granted? ==> Next(s, Cancel(t)) == s.(phases := s.phases[t := Holding])
    ensures s.phases[t].Queued? ==> Next(s, Cancel(t)).phases[t] == Withdrawn && t !in Next(s, Cancel(t)).gate.waiters
    ensures s.phases[t].Holding? ==> Next(s, CallRelease(t)).phases[t] == Released
    ensures s.phases[t].Released? ==> Next(s, CallRelease(t)) == s
  {
    hide Grant, Without;
    WithoutMembers(s.gate.waiters, t);
    if s.phases[t].Holding? {
      assert t !in s.gate.waiters;
    }
  }
}
