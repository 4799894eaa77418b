/** Agent generations and the capability tokens issued for them. */
module Capabilities {
  import opened DagTypes
  import opened Text

  /** The server's record of one supervised generation; the model keeps the fields that identify it. */
  datatype Policy = Policy(agentID: string, domainID: string, generation: nat)

  datatype RegistryEvent = Issued(token: string, policy: Policy) | Cleared

  /** The token last issued to the agent since the registry was last cleared. */
  function CurrentToken(history: seq<RegistryEvent>, agentID: string): Option<string> {
    if history == [] then None
    else
      match history[|history| - 1]
      case Cleared => None
      case Issued(token, policy) =>
        if policy.agentID == agentID then Some(token) else CurrentToken(history[..|history| - 1], agentID)
  }

  ghost predicate NeverIssued(history: seq<RegistryEvent>, token: string) {
    forall k :: 0 <= k < |history| && history[k].Issued? ==> history[k].token != token
  }

  function Trimmed(p: Policy): Policy {
    p.(agentID := TrimSpace(p.agentID), domainID := TrimSpace(p.domainID))
  }

  /** The token was issued with this policy and is still its agent's current one. */
  ghost predicate Resolves(history: seq<RegistryEvent>, token: string, policy: Policy) {
    CurrentToken(history, policy.agentID) == Some(token) && Issued(token, policy) in history
  }

  ghost predicate DistinctTokens(history: seq<RegistryEvent>) {
    forall j, k :: 0 <= j < k < |history| && history[j].Issued? && history[k].Issued? ==>
        history[j].token != history[k].token
  }

  /** The two tables are inverse to each other and hold exactly the current tokens. */
  ghost predicate Tables(byToken: map<string, Policy>, byAgent: map<string, string>, history: seq<RegistryEvent>) {
    && (forall a :: (if a in byAgent then Some(byAgent[a]) else None) == CurrentToken(history, a))
    && (forall a :: a in byAgent ==> byAgent[a] in byToken && byToken[byAgent[a]].agentID == a)
    && (forall t :: t in byToken ==> byToken[t].agentID in byAgent && byAgent[byToken[t].agentID] == t)
    && (forall t :: t in byToken ==> Issued(t, byToken[t]) in history)
  }

  lemma CurrentAfterIssue(history: seq<RegistryEvent>, token: string, p: Policy, a: string)
    ensures CurrentToken(history + [Issued(token, p)], a) == if a == p.agentID
        then Some(token) else CurrentToken(history, a)
  {
    assert (history + [Issued(token, p)])[..|history|] == history;
  }

  /** Replacing the agent's token keeps the tables right. */
  lemma TablesAfterIssue(byToken: map<string, Policy>, byAgent: map<string, string>, history: seq<RegistryEvent>,
                         token: string, p: Policy)
    requires Tables(byToken, byAgent, history) && NeverIssued(history, token)
    ensures Tables((if p.agentID in byAgent then byToken - {byAgent[p.agentID]} else byToken)[token := p],
                   byAgent[p.agentID := token], history + [Issued(token, p)])
  {
    hide CurrentToken;
    var pruned := if p.agentID in byAgent then byToken - {byAgent[p.agentID]} else byToken;
    var byToken', byAgent' := pruned[token := p], byAgent[p.agentID := token];
    var history' := history + [Issued(token, p)];
    assert forall t :: t in byToken ==> t != token;
    forall a ensures (if a in byAgent' then Some(byAgent'[a]) else None) == CurrentToken(history', a) {
      CurrentAfterIssue(history, token, p, a);
    }
    forall a | a in byAgent' ensures byAgent'[a] in byToken' && byToken'[byAgent'[a]].agentID == a {
      if a != p.agentID {
        assert byToken[byAgent[a]].agentID == a;
      }
    }
    forall t | t in byToken'
        ensures byToken'[t].agentID in byAgent' && byAgent'[byToken'[t].agentID] == t
            && Issued(t, byToken'[t]) in history' {
    }
  }

  /** The policies of the live tokens, and the live token of each agent. Tokens stand for their hashes. */
  class AgentCapabilityRegistry {
    var byToken: map<string, Policy>
    var byAgent: map<string, string>
    ghost var history: seq<RegistryEvent>

    ghost predicate Valid()
      reads this
    {
      Tables(byToken, byAgent, history) && DistinctTokens(history)
    }

    constructor ()
      ensures Valid() && history == []
    {
      byToken, byAgent, history := map[], map[], [];
    }

    /** Issues a fresh token; whatever the agent held before stops resolving. */
    method IssuePolicy(policy: Policy, token: string) returns (ok: bool)
      requires Valid() && NeverIssued(history, token)
      modifies this
      ensures Valid()
      ensures ok <==> TrimSpace(policy.agentID) != ""
      ensures history == if ok then old(history) + [Issued(token, Trimmed(policy))] else old(history)
      ensures ok ==>
        history[|history| - 1]
        == Issued(token, Policy(TrimSpace(policy.agentID), TrimSpace(policy.domainID), policy.generation))
    {
      hide TrimSpace, Tables;
      var p := policy.(agentID := TrimSpace(policy.agentID), domainID := TrimSpace(policy.domainID));
      if p.agentID == "" {
        return false;
      }
      TablesAfterIssue(byToken, byAgent, history, token, p);
      if p.agentID in byAgent {
        byToken := byToken - {byAgent[p.agentID]};
      }
      byToken := byToken[token := p];
      byAgent := byAgent[p.agentID := token];
      history := history + [Issued(token, p)];
      return true;
    }

    /** Finds the policy of a live token. */
    method ResolvePolicy(token: string) returns (r: Option<Policy>)
      requires Valid()
      ensures r.Some? ==> Resolves(history, TrimSpace(token), r.value)
      ensures r.None? ==> TrimSpace(token) == "" || forall p :: !Resolves(history, TrimSpace(token), p)
    {
      hide TrimSpace, CurrentToken;
      var t := TrimSpace(token);
      if t == "" || t !in byToken {
        return None;
      }
      return Some(byToken[t]);
    }

    method Clear()
      requires Valid()
      modifies this
      ensures Valid() && history == old(history) + [Cleared]
    {
      byToken := map[];
      byAgent := map[];
      history := history + [Cleared];
    }
  }

  /** Event k issued the token, and nothing later cleared the registry or issued another token for the agent. */
  ghost predicate LastIssuedAt(history: seq<RegistryEvent>, k: nat, token: string, policy: Policy) {
    && k < |history| && history[k] == Issued(token, policy)
    && (forall j :: k < j < |history| ==> history[j].Issued? && history[j].policy.agentID != policy.agentID)
  }

  lemma {:induction false} CurrentIsLastIssued(history: seq<RegistryEvent>, k: nat, token: string, policy: Policy)
    requires LastIssuedAt(history, k, token, policy)
    ensures CurrentToken(history, policy.agentID) == Some(token)
  {
    var last := |history| - 1;
    if k < last {
      assert forall j :: k < j < last ==> history[..last][j] == history[j];
      CurrentIsLastIssued(history[..last], k, token, policy);
    }
  }

  lemma {:induction false} CurrentWasIssued(history: seq<RegistryEvent>, agentID: string)
    returns (k: nat, policy: Policy)
    requires CurrentToken(history, agentID).Some?
    ensures policy.agentID == agentID && LastIssuedAt(history, k, CurrentToken(history, agentID).value, policy)
  {
    var last := |history| - 1;
    if history[last].policy.agentID == agentID {
      k, policy := last, history[last].policy;
    } else {
      k, policy := CurrentWasIssued(history[..last], agentID);
    }
  }

  /** With fresh tokens, a token resolves to a policy exactly when it is the last one issued to its agent since the
      registry was last cleared, and was issued with that policy. */
  lemma ResolvesIffLastIssued(history: seq<RegistryEvent>, token: string, policy: Policy)
    requires DistinctTokens(history)
    ensures Resolves(history, token, policy) <==> exists k: nat :: LastIssuedAt(history, k, token, policy)
  {
    if exists k: nat :: LastIssuedAt(history, k, token, policy) {
      var k: nat :| LastIssuedAt(history, k, token, policy);
      CurrentIsLastIssued(history, k, token, policy);
    }
    if Resolves(history, token, policy) {
      var k, p := CurrentWasIssued(history, policy.agentID);
      var i :| 0 <= i < |history| && history[i] == Issued(token, policy);
      assert i == k;
    }
  }

  /** At most one token was last issued to an agent: no two resolve for it. */
  lemma OneTokenPerAgent(history: seq<RegistryEvent>, j: nat, k: nat, s: string, t: string, p: Policy, q: Policy)
    requires LastIssuedAt(history, j, s, p) && LastIssuedAt(history, k, t, q) && p.agentID == q.agentID
    ensures s == t && p == q && j == k
  {
    CurrentIsLastIssued(history, j, s, p);
    CurrentIsLastIssued(history, k, t, q);
  }

  // ---------- generations ----------

  /** How one attempt to spawn an agent ends. A failed persist may have replaced the file before failing. */
  datatype SpawnOutcome =
    | PrepareFails
    | PersistFails(written: bool)
    | EnvironmentFails
    | LaunchFails
    | Launches

  /** memory is None while no supervisor lives; stored is the generation file; launched lists the generations whose
      process ran. */
  datatype Agent = Agent(memory: Option<nat>, stored: nat, launched: seq<nat>)

  /** All agents by their trimmed names, as the registry knows them, and everything the registry went through. No two
      domains of a validated plan share a trimmed name. */
  datatype Fleet = Fleet(agents: map<string, Agent>, history: seq<RegistryEvent>)

  datatype FleetEvent =
    /** A supervisor is created and loads the stored generation. */
    | Supervise(agentID: string)
    | SupervisorGone(agentID: string)
    /** name and domainID as the supervisor passes them on. */
    | Spawn(name: string, domainID: string, outcome: SpawnOutcome, token: string)
    | ClearRegistry

  function AgentAt(f: Fleet, agentID: string): Agent {
    if agentID in f.agents then f.agents[agentID] else Agent(None, 0, [])
  }

  ghost predicate Enabled(f: Fleet, ev: FleetEvent) {
    match ev
    case Supervise(agentID) => AgentAt(f, agentID).memory.None?
    case SupervisorGone(agentID) => AgentAt(f, agentID).memory.Some?
    case Spawn(name, _, _, token) =>
      AgentAt(f, TrimSpace(name)).memory.Some? && NeverIssued(f.history, token) && TrimSpace(name) != ""
    case ClearRegistry => true
  }

  /** What the spawn does to the agent's counters. */
  function Spawned(a: Agent, outcome: SpawnOutcome): Agent
    requires a.memory.Some?
  {
    var generation := a.memory.value + 1;
    match outcome
    case PrepareFails => a.(memory := Some(generation))
    case PersistFails(written) => a.(memory := Some(generation), stored := if written then generation else a.stored)
    case EnvironmentFails => a.(memory := Some(generation), stored := generation)
    case LaunchFails => a.(memory := Some(generation), stored := generation)
    case Launches => Agent(Some(generation), generation, a.launched + [generation])
  }

  /** The generation file of one agent, and the launches it has seen. */
  class GenerationFile {
    var generation: nat
    ghost var launched: seq<nat>

    constructor ()
      ensures generation == 0 && launched == []
    {
      generation, launched := 0, [];
    }

    method Save(generation: nat)
      modifies this`generation
      ensures this.generation == generation
    {
      this.generation := generation;
    }

    /** Starts a process of this generation, which the file must hold by then. */
    method Launch(ghost started: nat)
      requires generation == started
      modifies this`launched
      ensures launched == old(launched) + [started]
    {
      launched := launched + [started];
    }
  }

  class AgentSupervisor {
    const file: GenerationFile
    var workspaceGen: nat

    ghost function View(): Agent
      reads this, file
    {
      Agent(Some(workspaceGen), file.generation, file.launched)
    }

    /** A new supervisor continues from the stored generation. */
    constructor (file: GenerationFile)
      ensures this.file == file && View() == Agent(Some(file.generation), file.generation, file.launched)
    {
      this.file, this.workspaceGen := file, file.generation;
    }

    /** One spawn; the arguments say which of its steps outside the model succeed. */
    method SpawnAgent(prepared: bool, persisted: bool, written: bool, environment: bool, launched: bool)
      returns (ok: bool)
      modifies this, file
      ensures View() == Spawned(old(View()), OutcomeOf(prepared, persisted, written, environment, launched))
      ensures ok == (prepared && persisted && environment && launched)
      ensures workspaceGen == old(workspaceGen) + 1
      ensures file.generation == if prepared && (persisted || written) then workspaceGen else old(file.generation)
      ensures file.launched == if ok then old(file.launched) + [workspaceGen] else old(file.launched)
    {
      workspaceGen := workspaceGen + 1;
      var generation := workspaceGen;
      if !prepared {
        return false;
      }
      if persisted || written {
        file.Save(generation);
      }
      if !persisted || !environment || !launched {
        return false;
      }
      file.Launch(generation);
      return true;
    }
  }

  function OutcomeOf(prepared: bool, persisted: bool, written: bool, environment: bool, launched: bool): SpawnOutcome {
    if !prepared then PrepareFails
    else if !persisted then PersistFails(written)
    else if !environment then EnvironmentFails
    else if !launched then LaunchFails
    else Launches
  }

  function Next(f: Fleet, ev: FleetEvent): Fleet
    requires Enabled(f, ev)
  {
    match ev
    case Supervise(agentID) =>
      f.(agents := f.agents[agentID := AgentAt(f, agentID).(memory := Some(AgentAt(f, agentID).stored))])
    case SupervisorGone(agentID) => f.(agents := f.agents[agentID := AgentAt(f, agentID).(memory := None)])
    case Spawn(name, domainID, outcome, token) =>
      var a := AgentAt(f, TrimSpace(name));
      var issued := Issued(token, Trimmed(Policy(name, domainID, a.memory.value + 1)));
      Fleet(f.agents[TrimSpace(name) := Spawned(a, outcome)],
            if outcome.LaunchFails? || outcome.Launches? then f.history + [issued] else f.history)
    case ClearRegistry => f.(history := f.history + [Cleared])
  }

  /** Launched generations ascend and never exceed the stored one, which never exceeds the one in memory. */
  ghost predicate AgentOrderly(a: Agent) {
    && (forall i, j :: 0 <= i < j < |a.launched| ==> a.launched[i] < a.launched[j])
    && (forall i :: 0 <= i < |a.launched| ==> a.launched[i] <= a.stored)
    && (a.memory.Some? ==> a.stored <= a.memory.value)
  }

  ghost predicate FleetOrderly(f: Fleet) {
    && (forall id :: AgentOrderly(AgentAt(f, id)))
    && (forall k :: 0 <= k < |f.history| && f.history[k].Issued? ==>
          f.history[k].policy.generation <= AgentAt(f, f.history[k].policy.agentID).stored)
    && DistinctTokens(f.history)
    && (forall t, p :: Resolves(f.history, t, p) ==> NoNewerLaunch(AgentAt(f, p.agentID), p.generation))
  }

  ghost predicate NoNewerLaunch(a: Agent, generation: nat) {
    forall i :: 0 <= i < |a.launched| ==> a.launched[i] <= generation
  }

  lemma SpawnedIsOrderly(a: Agent, outcome: SpawnOutcome)
    requires AgentOrderly(a) && a.memory.Some?
    ensures AgentOrderly(Spawned(a, outcome))
    ensures Spawned(a, outcome).stored >= a.stored
    ensures NoNewerLaunch(Spawned(a, outcome), a.memory.value + 1)
    ensures !outcome.Launches? ==> Spawned(a, outcome).launched == a.launched
  {}

  lemma ResolvesAfterIssue(history: seq<RegistryEvent>, token: string, policy: Policy, t: string, p: Policy)
    requires NeverIssued(history, token) && Resolves(history + [Issued(token, policy)], t, p)
    ensures p.agentID == policy.agentID ==> t == token && p == policy
    ensures p.agentID != policy.agentID ==> Resolves(history, t, p)
  {
    assert (history + [Issued(token, policy)])[..|history|] == history;
    assert p.agentID == policy.agentID && p != policy ==> Issued(t, p) in history;
  }

  lemma SpawnKeepsFleet(f: Fleet, name: string, domainID: string, outcome: SpawnOutcome, token: string)
    requires FleetOrderly(f) && Enabled(f, Spawn(name, domainID, outcome, token))
    ensures FleetOrderly(Next(f, Spawn(name, domainID, outcome, token)))
  {
    hide Resolves, TrimSpace;
    var g := Next(f, Spawn(name, domainID, outcome, token));
    var agentID := TrimSpace(name);
    var a := AgentAt(f, agentID);
    assert AgentOrderly(a);
    SpawnedIsOrderly(a, outcome);
    forall id ensures AgentOrderly(AgentAt(g, id)) {
      assert AgentOrderly(AgentAt(f, id));
    }
    forall t, p | Resolves(g.history, t, p) ensures NoNewerLaunch(AgentAt(g, p.agentID), p.generation) {
      if outcome.LaunchFails? || outcome.Launches? {
        ResolvesAfterIssue(f.history, token, Trimmed(Policy(name, domainID, a.memory.value + 1)), t, p);
      }
      assert p.agentID != agentID || !(outcome.LaunchFails? || outcome.Launches?) ==> Resolves(f.history, t, p);
    }
  }

  lemma MemoryKeepsFleet(f: Fleet, agentID: string, memory: Option<nat>)
    requires FleetOrderly(f) && (memory.Some? ==> AgentAt(f, agentID).stored <= memory.value)
    ensures FleetOrderly(f.(agents := f.agents[agentID := AgentAt(f, agentID).(memory := memory)]))
  {
    hide Resolves;
    var g := f.(agents := f.agents[agentID := AgentAt(f, agentID).(memory := memory)]);
    forall id
        ensures AgentOrderly(AgentAt(g, id)) && AgentAt(g, id).stored == AgentAt(f, id).stored
            && AgentAt(g, id).launched == AgentAt(f, id).launched {
      assert AgentOrderly(AgentAt(f, id));
    }
    forall t, p | Resolves(g.history, t, p) ensures NoNewerLaunch(AgentAt(g, p.agentID), p.generation) {
      assert NoNewerLaunch(AgentAt(f, p.agentID), p.generation);
    }
  }

  lemma ClearKeepsFleet(f: Fleet)
    requires FleetOrderly(f)
    ensures FleetOrderly(Next(f, ClearRegistry))
  {
    var g := Next(f, ClearRegistry);
    assert forall id :: AgentAt(g, id) == AgentAt(f, id);
    assert forall t, p :: !Resolves(g.history, t, p);
  }

  /** Spawns, failed spawns, respawns, restarts and clears keep the fleet orderly. */
  lemma StepKeepsFleet(f: Fleet, ev: FleetEvent)
    requires FleetOrderly(f) && Enabled(f, ev)
    ensures FleetOrderly(Next(f, ev))
  {
    hide FleetOrderly;
    match ev
    case Supervise(agentID) => MemoryKeepsFleet(f, agentID, Some(AgentAt(f, agentID).stored));
    case SupervisorGone(agentID) => MemoryKeepsFleet(f, agentID, None);
    case Spawn(name, domainID, outcome, token) => SpawnKeepsFleet(f, name, domainID, outcome, token);
    case ClearRegistry => ClearKeepsFleet(f);
  }

  /** The fleet after the events; an event that is not enabled cannot happen. */
  ghost function Run(events: seq<FleetEvent>): Fleet {
    if events == [] then Fleet(map[], [])
    else
      var before, ev := Run(events[..|events| - 1]), events[|events| - 1];
      if Enabled(before, ev) then Next(before, ev) else before
  }

  lemma {:induction false} ReachableIsOrderly(events: seq<FleetEvent>)
    ensures FleetOrderly(Run(events))
  {
    if events != [] {
      var before, ev := Run(events[..|events| - 1]), events[|events| - 1];
      ReachableIsOrderly(events[..|events| - 1]);
      if Enabled(before, ev) {
        StepKeepsFleet(before, ev);
      }
    }
  }

  /** A new supervisor goes on from the stored generation; every spawn uses up one more, launched or not. */
  lemma SpawnsCount(f: Fleet, name: string, domainID: string, outcome: SpawnOutcome, token: string)
    requires Enabled(f, Spawn(name, domainID, outcome, token))
    ensures var agentID := TrimSpace(name);
      var before, after := AgentAt(f, agentID), AgentAt(Next(f, Spawn(name, domainID, outcome, token)), agentID);
      && before.memory.Some? && after.memory == Some(before.memory.value + 1)
      && after.launched == before.launched + (if outcome.Launches? then [before.memory.value + 1] else [])
    ensures var g := Next(f, Spawn(name, domainID, outcome, token));
      var issued := Issued(token,
          Policy(TrimSpace(name), TrimSpace(domainID), AgentAt(f, TrimSpace(name)).memory.value + 1));
      g.history == f.history + (if outcome.LaunchFails? || outcome.Launches? then [issued] else [])
  {
    hide TrimSpace;
  }

  lemma SupervisorContinues(f: Fleet, agentID: string)
    requires Enabled(f, Supervise(agentID))
    ensures AgentAt(Next(f, Supervise(agentID)), agentID)
        == AgentAt(f, agentID).(memory := Some(AgentAt(f, agentID).stored))
  {}

  /** Launched generations strictly increase over every run. */
  lemma LaunchesIncrease(events: seq<FleetEvent>, agentID: string, i: nat, j: nat)
    requires i < j < |AgentAt(Run(events), agentID).launched|
    ensures AgentAt(Run(events), agentID).launched[i] < AgentAt(Run(events), agentID).launched[j]
  {
    ReachableIsOrderly(events);
    assert AgentOrderly(AgentAt(Run(events), agentID));
  }

  /** A token that resolves was not issued before any later launch of its agent: an outlived process holds no live
      token. */
  lemma OutlivedTokensAreDead(events: seq<FleetEvent>, token: string, p: Policy, i: nat)
    requires Resolves(Run(events).history, token, p) && i < |AgentAt(Run(events), p.agentID).launched|
    ensures AgentAt(Run(events), p.agentID).launched[i] <= p.generation
  {
    ReachableIsOrderly(events);
  }
}
