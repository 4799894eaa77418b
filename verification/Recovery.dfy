/** Crash recovery as a step machine over memory, store and log. */
module Recovery {
  import opened DagTypes
  import opened Graph
  import opened Validator
  import opened Mutations
  import opened Idempotence

  /** The DAG a manager starts from: a stored document without nodes is ignored. */
  function Base(stored: Option<DagData>, ceiling: nat): DagData {
    if stored.Some? && |stored.value.nodes| > 0 then stored.value else NewDagData(ceiling)
  }

  function Recovered(stored: Option<DagData>, log: seq<WalEntry>, ceiling: nat): DagData {
    Replay(Base(stored, ceiling), log)
  }

  /** memory is None while no manager is running; the rest survives a crash. store is the document in the region, None
      if its bytes are none. odd is the parity of the region's counter while nobody writes. */
  datatype System = System(memory: Option<DagData>, store: Option<DagData>, odd: bool, log: seq<WalEntry>)

  /** What a manager can read from the store: nothing while the counter is odd. */
  function Readable(s: System): Option<DagData> {
    if s.odd then None else s.store
  }

  datatype Event =
    | Submit(command: Command, times: Times)
    | Close
    /** The store refuses the document. */
    | CloseRefused
    | Crash
    | Open
    /** The process dies in Close after the store is written and before the log is truncated. */
    | CrashInClose
    /** The process dies in Open after the store is written and before the log is truncated. */
    | CrashInOpen
    /** The process dies in Close while it writes the store; left is what the region's bytes then say. */
    | TornInClose(left: Option<DagData>)
    /** The process dies in Open while it writes the store. */
    | TornInOpen(left: Option<DagData>)

  ghost function Next(s: System, ev: Event, ceiling: nat): System {
    match ev
    case Submit(c, t) =>
      if s.memory.Some? && Accepts(s.memory.value, c)
      then s.(memory := Some(LiveEffect(s.memory.value, c, ceiling, t)), log := s.log + [LogEntry(c, ceiling, t)])
      else s
    case Close => if s.memory.Some? then System(None, s.memory, s.odd, []) else s
    case CloseRefused => if s.memory.Some? then s.(memory := None, log := []) else s
    case Crash => s.(memory := None)
    case Open =>
      if s.memory.Some? then s
      else
        var dag := Recovered(Readable(s), s.log, ceiling);
        if s.log == [] then s.(memory := Some(dag)) else System(Some(dag), Some(dag), s.odd, [])
    case CrashInClose => if s.memory.Some? then s.(memory := None, store := s.memory) else s
    case CrashInOpen =>
      if Reopening(s) then s.(store := Some(Recovered(Readable(s), s.log, ceiling))) else s.(memory := None)
    case TornInClose(left) => if s.memory.Some? then Torn(s, left) else s
    case TornInOpen(left) => if Reopening(s) then Torn(s, left) else s.(memory := None)
  }

  /** No manager runs, and the next one will store what it recovers. */
  predicate Reopening(s: System) {
    s.memory.None? && s.log != []
  }

  /** After a death inside a store write the counter has the other parity. */
  function Torn(s: System, left: Option<DagData>): System {
    System(None, left, !s.odd, s.log)
  }

  ghost function Run(s: System, events: seq<Event>, ceiling: nat): System {
    if events == [] then s else Next(Run(s, events[..|events| - 1], ceiling), events[|events| - 1], ceiling)
  }

  /** A manager that never stops, fed the commands that arrive while the real one is up. */
  ghost function IdealNext(ideal: DagData, up: bool, ev: Event, ceiling: nat): DagData {
    if ev.Submit? && up && Accepts(ideal, ev.command) then LiveEffect(ideal, ev.command, ceiling, ev.times) else ideal
  }

  ghost function Ideal(s: System, events: seq<Event>, ceiling: nat): DagData {
    if events == [] then NewDagData(ceiling)
    else
      var init := events[..|events| - 1];
      IdealNext(Ideal(s, init, ceiling), Run(s, init, ceiling).memory.Some?, events[|events| - 1], ceiling)
  }

  const FRESH: System := System(None, None, false, [])

  /** The first opening starts from nothing, with version 1 and the configured ceiling. */
  lemma FreshOpening(ceiling: nat)
    ensures Next(FRESH, Open, ceiling) == FRESH.(memory := Some(DagData(DagHeader(1, 0, ceiling, 0), [], [])))
  {}

  // ---------- what each step may do ----------

  /** The step loses nothing and doubles nothing. Each clause can be checked before the step. Submitting is always safe:
      edges accepted before the first node are lost only if a document is stored while there is still none. */
  ghost predicate Safe(s: System, ideal: DagData, ev: Event, ceiling: nat) {
    match ev
    case Submit(_, _) => true
    case Close => s.memory.Some? ==> Keepable(s, ideal)
    case CloseRefused => s.memory.Some? ==> ChangesNothing(Base(Readable(s), ceiling), s.log)
    case Crash => true
    case Open => Reopening(s) ==> Keepable(s, ideal)
    case CrashInClose => s.memory.Some? && !s.odd ==> ideal.nodes == [] || ReplaysTwice(s.log)
    case CrashInOpen => Reopening(s) && !s.odd ==> ideal.nodes == [] || ReplaysTwice(s.log)
    case TornInClose(left) => s.memory.Some? ==> TearIsHarmless(s, left, ceiling)
    case TornInOpen(left) => Reopening(s) ==> TearIsHarmless(s, left, ceiling)
  }

  /** The store alone can give this content back: a readable document with a node can, no document only an empty DAG. */
  predicate Keepable(s: System, ideal: DagData) {
    (ideal.nodes == [] && ideal.edges == []) || (ideal.nodes != [] && !s.odd)
  }

  /** The log makes up for the document: it bulk-loads, or no node is readable before or after the tear. */
  ghost predicate TearIsHarmless(s: System, left: Option<DagData>, ceiling: nat) {
    HasBulkLoad(s.log) || Base(if s.odd then left else s.store, ceiling).nodes == []
  }

  ghost predicate Disciplined(events: seq<Event>, ceiling: nat) {
    forall k :: 0 <= k < |events| ==>
      Safe(Run(FRESH, events[..k], ceiling), Ideal(FRESH, events[..k], ceiling), events[k], ceiling)
  }

  /** A stored document gives back its content unless it has no node and something to lose. */
  lemma StoredDocumentCriterion(dag: DagData, ceiling: nat)
    ensures SameContent(Base(Some(dag), ceiling), dag) <==>
      || dag.nodes != []
      || (dag.edges == [] && dag.header.maxNodes == ceiling && dag.header.schemaVersion == CURRENT_SCHEMA_VERSION)
  {}

  /** The header every manager with this ceiling writes. */
  predicate Configured(dag: DagData, ceiling: nat) {
    dag.header.maxNodes == ceiling && dag.header.schemaVersion == CURRENT_SCHEMA_VERSION
  }

  /** What would be recovered now, and what is in memory, both have the content of the ideal manager. */
  ghost predicate Consistent(s: System, ideal: DagData, ceiling: nat) {
    && SameContent(Recovered(Readable(s), s.log, ceiling), ideal)
    && (s.memory.Some? ==> SameContent(s.memory.value, ideal))
  }

  lemma ContentOfStored(a: DagData, b: DagData, ceiling: nat)
    requires SameContent(a, b) && Configured(b, ceiling)
    ensures SameContent(Base(Some(a), ceiling), b) <==> b.nodes != [] || b.edges == []
  {
    StoredDocumentCriterion(a, ceiling);
  }

  lemma NothingToReplay(stored: Option<DagData>, ceiling: nat)
    ensures Recovered(stored, [], ceiling) == Base(stored, ceiling)
  {}

  /** A log that leaves no node recovers the same content from no document as from the one before it. */
  lemma NodelessNeedsNoDocument(s: System, ideal: DagData, ceiling: nat)
    requires Consistent(s, ideal, ceiling) && ideal.nodes == []
    ensures SameContent(Replay(NewDagData(ceiling), s.log), ideal)
  {
    hide Replay;
    var base := Base(Readable(s), ceiling);
    if HasBulkLoad(s.log) {
      BulkLoadForgets(base, NewDagData(ceiling), s.log);
    } else {
      NodeCountAfter(base, s.log);
    }
  }

  /** With the document readable, recovery after a whole store write replays the log over its own result. */
  lemma WindowReplaysTwice(s: System, stored: DagData, ideal: DagData, ceiling: nat)
    requires Consistent(s, ideal, ceiling) && Configured(ideal, ceiling) && SameContent(stored, ideal) && !s.odd
    ensures SameContent(Recovered(Some(stored), s.log, ceiling), ideal) <==> ideal.nodes == [] || ReplaysTwice(s.log)
  {
    if ideal.nodes == [] {
      NodelessNeedsNoDocument(s, ideal, ceiling);
    } else {
      ContentOfStored(stored, ideal, ceiling);
      var once := Recovered(s.store, s.log, ceiling);
      ReplayRespectsContent(Base(Some(stored), ceiling), once, s.log);
      ReplayTwiceCriterion(Base(s.store, ceiling), s.log);
    }
  }

  /** An empty ideal is the only one that needs no stored document. */
  lemma OnlyEmptyNeedsNothing(ideal: DagData, ceiling: nat)
    requires Configured(ideal, ceiling)
    ensures SameContent(NewDagData(ceiling), ideal) <==> ideal.nodes == [] && ideal.edges == []
  {}

  lemma SubmitStep(s: System, ideal: DagData, c: Command, t: Times, ceiling: nat)
    requires Consistent(s, ideal, ceiling)
    ensures Consistent(Next(s, Submit(c, t), ceiling), IdealNext(ideal, s.memory.Some?, Submit(c, t), ceiling), ceiling)
  {
    hide Accepts, SameContent, LiveEffect, LogEntry, Replay, Base;
    if s.memory.Some? {
      SameContentIsBisimulation(s.memory.value, ideal, c, ceiling, t);
      if Accepts(ideal, c) {
        var base := Base(Readable(s), ceiling);
        ReplayOne(base, s.log, LogEntry(c, ceiling, t));
        SameContentSwaps(Recovered(Readable(s), s.log, ceiling), ideal);
        ReplayMatchesLive(ideal, Recovered(Readable(s), s.log, ceiling), c, ceiling, t);
        SameContentSwaps(LiveEffect(ideal, c, ceiling, t), Replay(base, s.log + [LogEntry(c, ceiling, t)]));
      }
    }
  }

  lemma SameContentSwaps(a: DagData, b: DagData)
    ensures SameContent(a, b) <==> SameContent(b, a)
  {}

  lemma SameContentChains(a: DagData, b: DagData, c: DagData)
    requires SameContent(b, c)
    ensures SameContent(a, b) <==> SameContent(a, c)
  {}

  lemma CloseStep(s: System, ideal: DagData, ceiling: nat)
    requires Consistent(s, ideal, ceiling) && Configured(ideal, ceiling) && s.memory.Some?
    ensures Consistent(Next(s, Close, ceiling), ideal, ceiling) <==> Safe(s, ideal, Close, ceiling)
  {
    hide SameContent, Configured, Replay;
    NothingToReplay(s.memory, ceiling);
    NothingToReplay(None, ceiling);
    ContentOfStored(s.memory.value, ideal, ceiling);
    OnlyEmptyNeedsNothing(ideal, ceiling);
  }

  lemma OpenStep(s: System, ideal: DagData, ceiling: nat)
    requires Consistent(s, ideal, ceiling) && Configured(ideal, ceiling) && s.memory.None?
    ensures Consistent(Next(s, Open, ceiling), ideal, ceiling) <==> Safe(s, ideal, Open, ceiling)
  {
    hide SameContent, Configured, Replay;
    var dag := Recovered(Readable(s), s.log, ceiling);
    NothingToReplay(Some(dag), ceiling);
    NothingToReplay(None, ceiling);
    ContentOfStored(dag, ideal, ceiling);
    OnlyEmptyNeedsNothing(ideal, ceiling);
  }

  /** A close whose store write is refused still empties the log: harmless exactly when the log made no difference. */
  lemma RefusedCloseCriterion(s: System, ideal: DagData, ceiling: nat)
    requires Consistent(s, ideal, ceiling) && s.memory.Some?
    ensures Consistent(Next(s, CloseRefused, ceiling), ideal, ceiling)
       <==> ChangesNothing(Base(Readable(s), ceiling), s.log)
  {
    hide SameContent, Configured, Replay, ChangesNothing;
    var base := Base(Readable(s), ceiling);
    NothingToReplay(Readable(s), ceiling);
    ChangesNothingCriterion(base, s.log);
    SameContentChains(base, Replay(base, s.log), ideal);
    SameContentSwaps(base, Replay(base, s.log));
  }

  /** A store write cut short leaves the log alone to recover from: harmless exactly when that makes up for the
      document. */
  lemma TornWriteCriterion(s: System, ideal: DagData, left: Option<DagData>, ceiling: nat)
    requires Consistent(s, ideal, ceiling)
    ensures !s.odd ==> Recovered(Readable(Torn(s, left)), s.log, ceiling) == Replay(NewDagData(ceiling), s.log)
    ensures Consistent(Torn(s, left), ideal, ceiling) <==> TearIsHarmless(s, left, ceiling)
  {
    hide SameContent, Configured, Replay;
    var before, after := Base(Readable(s), ceiling), Base(Readable(Torn(s, left)), ceiling);
    SameContentChains(Replay(after, s.log), Replay(before, s.log), ideal);
    if s.odd {
      FreshStartCriterion(after, s.log, ceiling);
      SameContentSwaps(Replay(before, s.log), Replay(after, s.log));
    } else {
      FreshStartCriterion(before, s.log, ceiling);
    }
  }

  /** A step from a consistent state leaves a consistent one exactly when it is safe. */
  lemma StepCriterion(s: System, ideal: DagData, ev: Event, ceiling: nat)
    requires Consistent(s, ideal, ceiling) && Configured(ideal, ceiling)
    ensures Consistent(Next(s, ev, ceiling), IdealNext(ideal, s.memory.Some?, ev, ceiling), ceiling)
       <==> Safe(s, ideal, ev, ceiling)
  {
    hide Accepts, SameContent, Configured, Keepable, Replay, ReplaysTwice, ChangesNothing, TearIsHarmless;
    match ev
    case Submit(c, t) => SubmitStep(s, ideal, c, t, ceiling);
    case Close => if s.memory.Some? { CloseStep(s, ideal, ceiling); }
    case CloseRefused => if s.memory.Some? { RefusedCloseCriterion(s, ideal, ceiling); }
    case Crash =>
    case Open => if s.memory.None? { OpenStep(s, ideal, ceiling); }
    case CrashInClose =>
      if s.memory.Some? && !s.odd {
        WindowReplaysTwice(s, s.memory.value, ideal, ceiling);
      }
    case CrashInOpen =>
      if Reopening(s) && !s.odd {
        WindowReplaysTwice(s, Recovered(s.store, s.log, ceiling), ideal, ceiling);
      }
    case TornInClose(left) => TornWriteCriterion(s, ideal, left, ceiling);
    case TornInOpen(left) => TornWriteCriterion(s, ideal, left, ceiling);
  }

  lemma {:induction false} IdealIsConfigured(s: System, events: seq<Event>, ceiling: nat)
    ensures Configured(Ideal(s, events, ceiling), ceiling)
  {
    if events != [] {
      hide Run, Accepts, CountActive;
      IdealIsConfigured(s, events[..|events| - 1], ceiling);
    }
  }

  lemma EmptyIsConsistent(ceiling: nat)
    ensures Consistent(FRESH, NewDagData(ceiling), ceiling)
  {}

  ghost predicate ConsistentAt(events: seq<Event>, k: nat, ceiling: nat)
    requires k <= |events|
  {
    Consistent(Run(FRESH, events[..k], ceiling), Ideal(FRESH, events[..k], ceiling), ceiling)
  }

  /** No acknowledged mutation is lost or doubled anywhere in a run exactly when each of its steps is safe. */
  lemma {:induction false} NothingLostNothingDoubled(events: seq<Event>, ceiling: nat)
    ensures (forall k :: 0 <= k <= |events| ==> ConsistentAt(events, k, ceiling)) <==> Disciplined(events, ceiling)
  {
    hide Consistent, Safe, Next, IdealNext;
    if events == [] {
      EmptyIsConsistent(ceiling);
    } else {
      var last := |events| - 1;
      var init := events[..last];
      assert events[..|events|] == events;
      forall k | 0 <= k <= last
          ensures init[..k] == events[..k] && (ConsistentAt(init, k, ceiling) <==> ConsistentAt(events, k, ceiling)) {
        assert init[..k] == events[..k];
      }
      NothingLostNothingDoubled(init, ceiling);
      if ConsistentAt(events, last, ceiling) {
        assert init[..last] == init;
        IdealIsConfigured(FRESH, init, ceiling);
        StepCriterion(Run(FRESH, init, ceiling), Ideal(FRESH, init, ceiling), events[last], ceiling);
        assert ConsistentAt(events, |events|, ceiling)
          <==> Safe(Run(FRESH, init, ceiling), Ideal(FRESH, init, ceiling), events[last], ceiling);
      }
      DisciplinedInit(events, ceiling);
    }
  }

  lemma DisciplinedInit(events: seq<Event>, ceiling: nat)
    requires events != []
    ensures var init := events[..|events| - 1];
      Disciplined(events, ceiling) <==>
        Disciplined(init, ceiling)
            && Safe(Run(FRESH, init, ceiling), Ideal(FRESH, init, ceiling), events[|events| - 1], ceiling)
  {
    hide Safe, Run, Ideal;
    var init := events[..|events| - 1];
    assert forall k :: 0 <= k < |init| ==> init[..k] == events[..k] && init[k] == events[k];
  }

  lemma DisciplinedIsConsistent(events: seq<Event>, ceiling: nat)
    requires Disciplined(events, ceiling)
    ensures Consistent(Run(FRESH, events, ceiling), Ideal(FRESH, events, ceiling), ceiling)
  {
    hide Consistent, Run, Ideal;
    NothingLostNothingDoubled(events, ceiling);
    assert ConsistentAt(events, |events|, ceiling);
    assert events[..|events|] == events;
  }

  /** A client cannot tell the crashing system from the ideal one: while it is up it gives the same answers. */
  lemma SameAnswersAsIdeal(events: seq<Event>, c: Command, ceiling: nat)
    requires Disciplined(events, ceiling)
    requires Run(FRESH, events, ceiling).memory.Some?
    ensures Accepts(Run(FRESH, events, ceiling).memory.value, c) <==> Accepts(Ideal(FRESH, events, ceiling), c)
  {
    DisciplinedIsConsistent(events, ceiling);
    SameAnswers(Run(FRESH, events, ceiling).memory.value, Ideal(FRESH, events, ceiling), c);
  }

  /** In every state a disciplined run reaches with a readable store, a crash between store write and truncation is
      harmless exactly for logs that replay twice, and while there is no node. */
  lemma WindowCriterion(events: seq<Event>, ceiling: nat)
    requires Disciplined(events, ceiling)
    requires Run(FRESH, events, ceiling).memory.Some? && !Run(FRESH, events, ceiling).odd
    ensures Consistent(Next(Run(FRESH, events, ceiling), CrashInClose, ceiling), Ideal(FRESH, events, ceiling), ceiling)
       <==> Ideal(FRESH, events, ceiling).nodes == [] || ReplaysTwice(Run(FRESH, events, ceiling).log)
  {
    hide Accepts, ReplaysTwice, Disciplined, Run, Ideal, Consistent;
    DisciplinedIsConsistent(events, ceiling);
    IdealIsConfigured(FRESH, events, ceiling);
    StepCriterion(Run(FRESH, events, ceiling), Ideal(FRESH, events, ceiling), CrashInClose, ceiling);
  }

  // ---------- runs that lose or double something ----------

  const CLOCK: Times := Times(1, 1, 1)

  function Plain(id: string): DagNode {
    DagNode(id, "d", "", STATUS_PENDING, "", [], 0, 1, 1, 0, 0, 0, 0)
  }

  /** One node is accepted, stored and loaded again. */
  const STORED_ONCE: seq<Event> := [Open, Submit(AddNode(Plain("a")), CLOCK), Close, Open]

  const STARTING: Command := UpdateNode("a", "", STATUS_IN_PROGRESS, None, false)

  function OneNode(): DagData {
    LiveEffect(NewDagData(2), AddNode(Plain("a")), 2, CLOCK)
  }

  lemma RunMore(s: System, events: seq<Event>, ev: Event, ceiling: nat)
    ensures Run(s, events + [ev], ceiling) == Next(Run(s, events, ceiling), ev, ceiling)
  {
    assert (events + [ev])[..|events|] == events;
  }

  lemma RunOfTwo(first: Event, second: Event)
    ensures Run(FRESH, [first, second], 2) == Next(Next(FRESH, first, 2), second, 2)
  {
    hide Next;
    RunMore(FRESH, [], first, 2);
    RunMore(FRESH, [first], second, 2);
    assert Run(FRESH, [], 2) == FRESH;
    hide Run;
    assert [] + [first] == [first] && [first] + [second] == [first, second];
  }

  /** A fresh manager that has accepted one command. */
  lemma FirstCommand(c: Command)
    requires Accepts(NewDagData(2), c)
    ensures Run(FRESH, [Open, Submit(c, CLOCK)], 2)
         == System(Some(LiveEffect(NewDagData(2), c, 2, CLOCK)), None, false, [LogEntry(c, 2, CLOCK)])
  {
    hide Run, Accepts, LiveEffect, LogEntry;
    RunOfTwo(Open, Submit(c, CLOCK));
    FreshOpening(2);
    assert [] + [LogEntry(c, 2, CLOCK)] == [LogEntry(c, 2, CLOCK)];
  }

  lemma FirstNodeIsAccepted()
    ensures Accepts(NewDagData(2), AddNode(Plain("a"))) && OneNode().nodes == [Plain("a")]
  {
    assert [] + [Plain("a")] == [Plain("a")];
    assert CountActive([Plain("a")]) <= 2;
  }

  lemma StoredAndLoaded(s: System, ceiling: nat)
    requires s.memory.Some? && s.memory.value.nodes != [] && !s.odd
    ensures Next(Next(s, Close, ceiling), Open, ceiling) == System(s.memory, s.memory, false, [])
  {
    NothingToReplay(s.memory, ceiling);
    hide Replay;
  }

  lemma StoredOnce()
    ensures Run(FRESH, STORED_ONCE, 2) == System(Some(OneNode()), Some(OneNode()), false, [])
    ensures OneNode().nodes == [Plain("a")]
  {
    var two := [Open, Submit(AddNode(Plain("a")), CLOCK)];
    assert Run(FRESH, STORED_ONCE, 2) == Next(Next(Run(FRESH, two, 2), Close, 2), Open, 2) by {
      RunMore(FRESH, two, Close, 2);
      RunMore(FRESH, two + [Close], Open, 2);
      assert two + [Close] + [Open] == STORED_ONCE;
      hide Next;
    }
    FirstNodeIsAccepted();
    FirstCommand(AddNode(Plain("a")));
    hide Run, Accepts, LiveEffect, Replay;
    StoredAndLoaded(Run(FRESH, two, 2), 2);
  }

  lemma ReplayedOnce(dag: DagData, e: WalEntry)
    ensures Replay(dag, [e]) == ApplyMutation(dag, e)
  {
    assert [e][..0] == [];
  }

  const EDGE_AB: DagEdge := DagEdge("a", "b", Dependency, "")

  /** An edge accepted before the first node is lost when the document is stored without a node. */
  lemma NodelessCloseLosesEdge()
    ensures var s := Run(FRESH, [Open, Submit(AddEdge(EDGE_AB), CLOCK)], 2); var after := Next(s, Close, 2);
      && s.memory.Some? && s.memory.value.edges == [EDGE_AB]
      && Recovered(Readable(after), after.log, 2) == NewDagData(2)
  {
    assert Accepts(NewDagData(2), AddEdge(EDGE_AB)) by {
      assert Ids([]) == {};
      EmptyGraphIsAcyclic([] + [EDGE_AB]);
    }
    FirstCommand(AddEdge(EDGE_AB));
    NothingToReplay(Some(LiveEffect(NewDagData(2), AddEdge(EDGE_AB), 2, CLOCK)), 2);
    hide Run, Accepts, Replay;
    assert [] + [EDGE_AB] == [EDGE_AB];
  }

  /** A process that dies between storing its document and truncating the log comes back with its node twice. */
  lemma CrashInCloseDoublesNode()
    ensures var s := Run(FRESH, [Open, Submit(AddNode(Plain("a")), CLOCK)], 2); var after := Next(s, CrashInClose, 2);
      && s.memory.Some? && s.memory.value.nodes == [Plain("a")]
      && Recovered(Readable(after), after.log, 2).nodes == [Plain("a"), Plain("a")]
  {
    FirstNodeIsAccepted();
    FirstCommand(AddNode(Plain("a")));
    ReplayedOnce(OneNode(), LogEntry(AddNode(Plain("a")), 2, CLOCK));
    assert [Plain("a")] + [Plain("a")] == [Plain("a"), Plain("a")];
    hide Run, Accepts, Replay, CountActive;
  }

  const MISCOUNTED: DagData := DagData(DagHeader(1, 0, 2, 0), [Plain("a")], [])

  /** A bulk load with a wrong count: counted right while the manager lives, wrong after a crash. */
  lemma CrashMiscountsLoad()
    ensures var s := Run(FRESH, [Open, Submit(BulkLoad(MISCOUNTED), CLOCK)], 2); var after := Next(s, Crash, 2);
      && s.memory.Some? && s.memory.value.header.activeNodeCount == CountActive(s.memory.value.nodes) == 1
      && Recovered(Readable(after), after.log, 2).header.activeNodeCount == 0
      && Recovered(Readable(after), after.log, 2).nodes == s.memory.value.nodes
  {
    var d := MISCOUNTED;
    assert CountActive(d.nodes) == 1 by {
      assert d.nodes[..0] == [];
    }
    assert Admissible(d) by {
      assert d.nodes[0].targetFiles == [];
      NoEdgesNoCycle(Ids(d.nodes));
    }
    FirstCommand(BulkLoad(d));
    ReplayedOnce(NewDagData(2), LogEntry(BulkLoad(d), 2, CLOCK));
    hide Run, Accepts, Replay, CountActive;
  }

  lemma NoEdgesNoCycle(vs: set<string>)
    ensures Acyclic(vs, [])
  {
    forall c ensures !Cycle(vs, [], c) {
      assert |c| > 1 ==> !HasEdge([], c[0], c[1]);
    }
  }

  function OneStarted(): DagNode {
    Plain("a").(status := STATUS_IN_PROGRESS)
  }

  lemma StartingIsAccepted(s: System)
    requires s == System(Some(OneNode()), Some(OneNode()), false, []) && OneNode().nodes == [Plain("a")]
    ensures var after := Next(s, Submit(STARTING, CLOCK), 2);
      && after
          == System(Some(LiveEffect(OneNode(), STARTING, 2, CLOCK)), Some(OneNode()), false,
              [LogEntry(STARTING, 2, CLOCK)])
      && after.memory.value.nodes == [OneStarted()]
  {
    FirstIndexIs(OneNode().nodes, "a", 0);
    hide OneNode, CountActive, FirstIndex;
    assert [] + [LogEntry(STARTING, 2, CLOCK)] == [LogEntry(STARTING, 2, CLOCK)];
  }

  /** After a refused close the accepted status change is gone, although the log had added no node. */
  lemma RefusedCloseLosesUpdate()
    ensures var s := Run(FRESH, STORED_ONCE + [Submit(STARTING, CLOCK)], 2);
      && s.memory.Some? && s.memory.value.nodes == [OneStarted()] && NodesAdded(s.log) == 0
      && Recovered(Readable(Next(s, CloseRefused, 2)), Next(s, CloseRefused, 2).log, 2).nodes == [Plain("a")]
  {
    StoredOnce();
    RunMore(FRESH, STORED_ONCE, Submit(STARTING, CLOCK), 2);
    StartingIsAccepted(Run(FRESH, STORED_ONCE, 2));
    NothingToReplay(Some(OneNode()), 2);
    hide Run, Accepts, LiveEffect, Replay, OneNode;
    var e := LogEntry(STARTING, 2, CLOCK);
    assert [e][..0] == [];
  }

  /** A process that dies in its second store write leaves a document nobody reads: the accepted node is gone. */
  lemma TornWriteLosesDocument(left: Option<DagData>)
    ensures var s := Run(FRESH, STORED_ONCE + [TornInClose(left)], 2);
      Recovered(Readable(s), s.log, 2) == NewDagData(2) && OneNode().nodes == [Plain("a")]
  {
    StoredOnce();
    RunMore(FRESH, STORED_ONCE, TornInClose(left), 2);
    NothingToReplay(None, 2);
    hide Run, Accepts, LiveEffect, Replay, OneNode;
  }
}
