/**
 What holds of the tables in every reachable state, and what no request undoes.
 */
module AgentInvariants {
  import opened Options
  import opened AgentTables

  ghost predicate HasActiveAgent(agents: seq<Agent>, p: nat) {
    exists i :: 0 <= i < |agents| && agents[i].project == p && agents[i].active
  }

  ghost predicate SameActiveProject(a: Agent, b: Agent) { a.project == b.project && a.active && b.active }

  ghost predicate AgentsOk(agents: seq<Agent>, next: nat) {
    && (forall i :: 0 <= i < |agents| ==> NO_AGENT < agents[i].id < next && agents[i].project < next)
    && (forall i, j :: 0 <= i < j < |agents| ==> agents[i].id != agents[j].id)
    && (forall i, j :: 0 <= i < j < |agents| && SameActiveProject(agents[i], agents[j]) ==>
          agents[i].name != agents[j].name)
  }

  ghost predicate KeysOk(keys: seq<Key>, agents: seq<Agent>, next: nat) {
    && (forall i :: 0 <= i < |keys| ==> keys[i].id < next && keys[i].project < next && keys[i].agent < next)
    && (forall i, j :: 0 <= i < j < |keys| ==> keys[i].id != keys[j].id)
    && (forall i, j :: 0 <= i < j < |keys| && keys[i].project == keys[j].project && keys[i].agent == keys[j].agent ==>
          !(keys[i].active && keys[j].active))
    && (forall i :: 0 <= i < |keys| && keys[i].active ==>
          keys[i].agent == NO_AGENT || IsActiveAgent(agents, keys[i].project, keys[i].agent))
  }

  ghost predicate ProjectsOk(projects: seq<Project>, agents: seq<Agent>, next: nat) {
    && (forall i :: 0 <= i < |projects| ==> projects[i].id < next && HasActiveAgent(agents, projects[i].id))
    && (forall i, j :: 0 <= i < j < |projects| ==> projects[i].id != projects[j].id)
  }

  /**
   The invariant: identifiers are unique; the active agents of a project have distinct names;
   an agent, or the project itself, has at most one active key; an active key belongs to an
   active agent, or to the project itself; every project has an active agent.
   */
  ghost predicate Ok(t: Tables) {
    && t.next > NO_AGENT
    && AgentsOk(t.agents, t.next)
    && KeysOk(t.keys, t.agents, t.next)
    && ProjectsOk(t.projects, t.agents, t.next)
  }

  /**
   `after` may follow `before`: rows are only added, they keep their identity, and neither a
   revoked key nor a deleted agent becomes active again.
   */
  ghost predicate Evolves(before: Tables, after: Tables) {
    && before.projects <= after.projects
    && |before.agents| <= |after.agents|
    && |before.keys| <= |after.keys|
    && (forall i :: 0 <= i < |before.agents| ==>
          && after.agents[i].id == before.agents[i].id && after.agents[i].project == before.agents[i].project
          && (after.agents[i].active ==> before.agents[i].active))
    && (forall i :: 0 <= i < |before.keys| ==>
          && after.keys[i].id == before.keys[i].id && after.keys[i].project == before.keys[i].project
          && after.keys[i].agent == before.keys[i].agent
          && (after.keys[i].active ==> before.keys[i].active))
  }

  // ---- statements ----

  lemma InsertKeyOk(t: Tables, p: nat, a: nat)
    requires Ok(t) && p < t.next && !HasActiveKey(t.keys, p, a)
    requires a == NO_AGENT || IsActiveAgent(t.agents, p, a)
    ensures Ok(InsertKey(t, p, a)) && Evolves(t, InsertKey(t, p, a))
  {
    AgentIdBelow(t.agents, p, a, t.next);
    InsertedKeyOk(t.keys, t.agents, t.next, p, a);
    hide KeysOk, IsActiveAgent, HasActiveAgent, HasActiveKey;
    assert AgentsOk(t.agents, t.next + 1);
    assert ProjectsOk(t.projects, t.agents, t.next + 1);
  }

  lemma AgentIdBelow(agents: seq<Agent>, p: nat, a: nat, next: nat)
    requires AgentsOk(agents, next) && next > NO_AGENT
    requires a == NO_AGENT || IsActiveAgent(agents, p, a)
    ensures a < next
  {
  }

  lemma InsertedKeyOk(keys: seq<Key>, agents: seq<Agent>, next: nat, p: nat, a: nat)
    requires KeysOk(keys, agents, next) && p < next && a < next && !HasActiveKey(keys, p, a)
    requires a == NO_AGENT || IsActiveAgent(agents, p, a)
    ensures KeysOk(keys + [Key(next, p, a, true, true)], agents, next + 1)
  {
    hide IsActiveAgent;
    var more := keys + [Key(next, p, a, true, true)];
    assert forall i :: 0 <= i < |keys| ==> more[i] == keys[i];
  }

  lemma RevokeKeysOk(t: Tables, p: nat, a: nat)
    requires Ok(t)
    ensures Ok(RevokeKeys(t, p, a)) && Evolves(t, RevokeKeys(t, p, a))
    ensures !HasActiveKey(RevokeKeys(t, p, a).keys, p, a)
  {
  }

  lemma RevokeKeyOk(t: Tables, p: nat, k: nat)
    requires Ok(t)
    ensures Ok(RevokeKey(t, p, k)) && Evolves(t, RevokeKey(t, p, k))
  {
  }

  lemma StillActive(agents: seq<Agent>, agent: Agent)
    ensures forall p: nat, a: nat :: IsActiveAgent(agents, p, a) ==> IsActiveAgent(agents + [agent], p, a)
    ensures forall p: nat :: HasActiveAgent(agents, p) ==> HasActiveAgent(agents + [agent], p)
    ensures agent.active ==> IsActiveAgent(agents + [agent], agent.project, agent.id)
    ensures agent.active ==> HasActiveAgent(agents + [agent], agent.project)
  {
    var more := agents + [agent];
    assert more[|agents|] == agent;
    forall p: nat, a: nat | IsActiveAgent(agents, p, a) ensures IsActiveAgent(more, p, a) {
      var i :| 0 <= i < |agents| && agents[i].project == p && agents[i].id == a && agents[i].active;
      assert more[i] == agents[i];
    }
    forall p: nat | HasActiveAgent(agents, p) ensures HasActiveAgent(more, p) {
      var i :| 0 <= i < |agents| && agents[i].project == p && agents[i].active;
      assert more[i] == agents[i];
    }
  }

  lemma InsertAgentOk(t: Tables, p: nat, name: string)
    requires Ok(t) && p < t.next && !NameTaken(t.agents, p, name, None)
    ensures Ok(InsertAgent(t, p, name)) && Evolves(t, InsertAgent(t, p, name))
    ensures IsActiveAgent(InsertAgent(t, p, name).agents, p, t.next)
    ensures !HasActiveKey(t.keys, p, t.next)
  {
    StillActive(t.agents, Agent(t.next, p, name, true));
  }

  /** Renaming moves no agent, and neither adds nor deletes any. */
  lemma RenamedStillActive(t: Tables, p: nat, a: nat, name: string)
    ensures var agents := SetName(t, p, a, name).agents;
      && (forall q: nat, b: nat :: IsActiveAgent(t.agents, q, b) ==> IsActiveAgent(agents, q, b))
      && (forall q: nat :: HasActiveAgent(t.agents, q) ==> HasActiveAgent(agents, q))
  {
    var agents := SetName(t, p, a, name).agents;
    forall q: nat, b: nat | IsActiveAgent(t.agents, q, b) ensures IsActiveAgent(agents, q, b) {
      var i :| 0 <= i < |t.agents| && t.agents[i].project == q && t.agents[i].id == b && t.agents[i].active;
      assert agents[i].id == b;
    }
    forall q: nat | HasActiveAgent(t.agents, q) ensures HasActiveAgent(agents, q) {
      var i :| 0 <= i < |t.agents| && t.agents[i].project == q && t.agents[i].active;
      assert agents[i].project == q;
    }
  }

  lemma RenamedAgentsOk(t: Tables, p: nat, a: nat, name: string)
    requires AgentsOk(t.agents, t.next) && !NameTaken(t.agents, p, name, Some(a))
    ensures AgentsOk(SetName(t, p, a, name).agents, t.next)
  {
    var agents := SetName(t, p, a, name).agents;
    forall i, j | 0 <= i < j < |agents| && SameActiveProject(agents[i], agents[j])
      ensures agents[i].name != agents[j].name
    {
      assert SameActiveProject(t.agents[i], t.agents[j]);
      assert t.agents[i].id != t.agents[j].id;
    }
  }

  lemma SetNameOk(t: Tables, p: nat, a: nat, name: string)
    requires Ok(t) && !NameTaken(t.agents, p, name, Some(a))
    ensures Ok(SetName(t, p, a, name)) && Evolves(t, SetName(t, p, a, name))
  {
    RenamedStillActive(t, p, a, name);
    RenamedAgentsOk(t, p, a, name);
    hide AgentsOk, IsActiveAgent, HasActiveAgent, NameTaken;
  }

  lemma {:induction false} ActiveAgentsAre(agents: seq<Agent>, p: nat)
    ensures forall x :: x in ActiveAgents(agents, p) <==> x in agents && x.project == p && x.active
  {
    if agents != [] {
      ActiveAgentsAre(agents[1..], p);
      assert agents == [agents[0]] + agents[1..];
    }
  }

  /** With two active agents, one is left when one goes. */
  lemma {:induction false} AnotherAgent(agents: seq<Agent>, p: nat, a: nat)
    requires |ActiveAgents(agents, p)| > 1
    requires forall i, j :: 0 <= i < j < |agents| ==> agents[i].id != agents[j].id
    ensures exists i :: 0 <= i < |agents| && agents[i].project == p && agents[i].active && agents[i].id != a
  {
    var rest := agents[1..];
    if |ActiveAgents(rest, p)| > 1 {
      AnotherAgent(rest, p, a);
      var i :| 0 <= i < |rest| && rest[i].project == p && rest[i].active && rest[i].id != a;
      assert agents[i + 1] == rest[i];
    } else {
      ActiveAgentsAre(rest, p);
      var x := ActiveAgents(rest, p)[0];
      assert x in rest;
      var i :| 0 <= i < |rest| && rest[i] == x;
      assert agents[i + 1] == x && agents[0].project == p && agents[0].active;
      assert agents[0].id != agents[i + 1].id;
    }
  }

  lemma OthersStillActive(t: Tables, p: nat, a: nat)
    requires Ok(t) && |ActiveAgents(t.agents, p)| > 1
    ensures var agents := MarkDeleted(t, p, a).agents;
      && (forall q: nat, b: nat :: IsActiveAgent(t.agents, q, b) && !(q == p && b == a) ==> IsActiveAgent(agents, q, b))
      && (forall q: nat :: HasActiveAgent(t.agents, q) ==> HasActiveAgent(agents, q))
      && !IsActiveAgent(agents, p, a)
  {
    hide KeysOk, ProjectsOk, ActiveAgents;
    var agents := MarkDeleted(t, p, a).agents;
    forall q: nat, b: nat | IsActiveAgent(t.agents, q, b) && !(q == p && b == a) ensures IsActiveAgent(agents, q, b) {
      var i :| 0 <= i < |t.agents| && t.agents[i].project == q && t.agents[i].id == b && t.agents[i].active;
      assert agents[i] == t.agents[i];
    }
    forall q: nat | HasActiveAgent(t.agents, q) ensures HasActiveAgent(agents, q) {
      AnotherAgent(t.agents, p, a);
      var i :| 0 <= i < |t.agents| && t.agents[i].project == q && t.agents[i].active
        && (q == p ==> t.agents[i].id != a);
      assert agents[i] == t.agents[i];
    }
  }

  lemma MarkDeletedOk(t: Tables, p: nat, a: nat)
    requires Ok(t) && !HasActiveKey(t.keys, p, a) && |ActiveAgents(t.agents, p)| > 1
    ensures Ok(MarkDeleted(t, p, a)) && Evolves(t, MarkDeleted(t, p, a))
    ensures !IsActiveAgent(MarkDeleted(t, p, a).agents, p, a)
  {
    hide IsActiveAgent, HasActiveAgent, ActiveAgents;
    OthersStillActive(t, p, a);
  }

  // ---- operations ----

  lemma EvolvesTransitive(a: Tables, b: Tables, c: Tables)
    requires Evolves(a, b) && Evolves(b, c)
    ensures Evolves(a, c)
  {
  }

  lemma RegenerateApiKeyOk(t: Tables, p: nat)
    requires Ok(t) && p < t.next
    ensures Ok(RegenerateApiKey(t, p)) && Evolves(t, RegenerateApiKey(t, p))
  {
    hide Ok, Evolves, InsertKey, RevokeKeys, HasActiveKey;
    RevokeKeysOk(t, p, NO_AGENT);
    NextUnchanged(t, p, NO_AGENT);
    InsertKeyOk(RevokeKeys(t, p, NO_AGENT), p, NO_AGENT);
    EvolvesTransitive(t, RevokeKeys(t, p, NO_AGENT), RegenerateApiKey(t, p));
  }

  lemma NextUnchanged(t: Tables, p: nat, a: nat)
    ensures RevokeKeys(t, p, a).next == t.next && RevokeKeys(t, p, a).agents == t.agents
    ensures RevokeKeys(t, p, a).projects == t.projects
  {
  }

  lemma RegenerateAgentKeyOk(t: Tables, p: nat, a: nat)
    requires Ok(t)
    ensures var t' := RegenerateAgentKey(t, p, a).0;
      Ok(t') && Evolves(t, t') && t'.next >= t.next && t'.projects == t.projects
  {
    hide HasActiveKey;
    if Found(t, p, a) {
      var i :| 0 <= i < |t.agents| && t.agents[i].project == p && t.agents[i].id == a;
      RevokeKeysOk(t, p, a);
      InsertKeyOk(RevokeKeys(t, p, a), p, a);
      EvolvesTransitive(t, RevokeKeys(t, p, a), RegenerateAgentKey(t, p, a).0);
    }
  }

  lemma CreateAgentOk(t: Tables, p: nat, name: string)
    requires Ok(t) && p < t.next
    ensures Ok(CreateAgent(t, p, name).0) && Evolves(t, CreateAgent(t, p, name).0)
  {
    hide Ok, Evolves, HasActiveKey, IsActiveAgent, NameTaken;
    if CreateAgent(t, p, name).1.None? {
      InsertAgentOk(t, p, name);
      InsertKeyOk(InsertAgent(t, p, name), p, t.next);
      EvolvesTransitive(t, InsertAgent(t, p, name), CreateAgent(t, p, name).0);
    } else {
      EvolvesReflexive(t);
    }
  }

  lemma EvolvesReflexive(t: Tables)
    ensures Evolves(t, t)
  {
  }

  lemma RenameAgentOk(t: Tables, p: nat, a: nat, name: string)
    requires Ok(t)
    ensures Ok(RenameAgent(t, p, a, name).0) && Evolves(t, RenameAgent(t, p, a, name).0)
  {
    hide Ok, Evolves, NameTaken, Found;
    EvolvesReflexive(t);
    if RenameAgent(t, p, a, name).1.None? { SetNameOk(t, p, a, name); }
  }

  lemma DeleteAgentOk(t: Tables, p: nat, a: nat)
    requires Ok(t)
    ensures var (t', error) := DeleteAgent(t, p, a);
      && Ok(t') && Evolves(t, t')
      && (error.None? ==> !IsActiveAgent(t'.agents, p, a) && !HasActiveKey(t'.keys, p, a))
  {
    hide Ok, Evolves, HasActiveKey, IsActiveAgent, ActiveAgents;
    EvolvesReflexive(t);
    if DeleteAgent(t, p, a).1.None? {
      var revoked := RevokeKeys(t, p, a);
      RevokeKeysOk(t, p, a);
      MarkDeletedOk(revoked, p, a);
      EvolvesTransitive(t, revoked, MarkDeleted(revoked, p, a));
      assert RevokeKeys(MarkDeleted(t, p, a), p, a) == MarkDeleted(revoked, p, a);
    }
  }

  lemma HasProjectId(t: Tables, p: nat)
    requires Ok(t) && HasProject(t, p)
    ensures p < t.next
  {
  }

  lemma {:induction false} FallbackIsActive(agents: seq<Agent>, p: nat)
    ensures var a := Fallback(ActiveAgents(agents, p));
      && (a.Some? ==> IsActiveAgent(agents, p, a.value.id))
      && (a.None? ==> forall name :: !NameTaken(agents, p, name, None))
  {
    hide ActiveAgents;
    ActiveAgentsAre(agents, p);
    var active := ActiveAgents(agents, p);
    var a := Fallback(active);
    if a.Some? {
      assert a.value in active;
      var i :| 0 <= i < |agents| && agents[i] == a.value;
    } else {
      forall name ensures !NameTaken(agents, p, name, None) {
        assert forall i :: 0 <= i < |agents| ==> agents[i] in agents && agents[i] !in active;
      }
    }
  }

  /** Afterwards the default agent is active and has an active key. */
  lemma EnsureDefaultAgentOk(t: Tables, p: nat)
    requires Ok(t) && p < t.next
    ensures var (t', a) := EnsureDefaultAgent(t, p);
      && Ok(t') && Evolves(t, t') && t'.next >= t.next && t'.projects == t.projects
      && IsActiveAgent(t'.agents, p, a) && HasActiveKey(t'.keys, p, a)
  {
    hide Ok, Evolves, ActiveAgents, Fallback, IsActiveAgent, NameTaken;
    var agent := Fallback(ActiveAgents(t.agents, p));
    FallbackIsActive(t.agents, p);
    EvolvesReflexive(t);
    var t1 := if agent.Some? then t else InsertAgent(t, p, "default");
    var a := if agent.Some? then agent.value.id else t.next;
    if agent.None? { InsertAgentOk(t, p, "default"); }
    if !HasActiveKey(t1.keys, p, a) {
      InsertKeyOk(t1, p, a);
      EvolvesTransitive(t, t1, InsertKey(t1, p, a));
      var keys := InsertKey(t1, p, a).keys;
      assert keys[|t1.keys|].agent == a;
    }
  }

  lemma {:induction false} ShowKeysOk(t: Tables, p: nat, agents: seq<Agent>)
    requires Ok(t)
    ensures var t' := ShowKeys(t, p, agents); Ok(t') && Evolves(t, t') && t'.next >= t.next && t'.projects == t.projects
  {
    hide Ok, Evolves, RegenerateAgentKey, HasShownKey;
    if agents == [] {
      EvolvesReflexive(t);
    } else {
      var front := agents[..|agents| - 1];
      ShowKeysOk(t, p, front);
      var t1 := ShowKeys(t, p, front);
      RegenerateAgentKeyOk(t1, p, agents[|agents| - 1].id);
      EvolvesTransitive(t, t1, RegenerateAgentKey(t1, p, agents[|agents| - 1].id).0);
    }
  }

  lemma CreateProjectOk(t: Tables, owner: string)
    requires Ok(t)
    ensures Ok(CreateProject(t, owner)) && Evolves(t, CreateProject(t, owner))
    ensures HasProject(CreateProject(t, owner), t.next)
  {
    var p := t.next;
    var bare := t.(next := t.next + 1);
    InsertKeyOk(bare, p, NO_AGENT);
    var t2 := InsertKey(bare, p, NO_AGENT);
    CreateAgentOk(t2, p, "default");
    assert !NameTaken(t2.agents, p, "default", None);
    NewProjectOk(t, t2, owner);
  }

  /** The project row goes first, but nothing between it and the default agent looks at it. */
  lemma NewProjectOk(t: Tables, t2: Tables, owner: string)
    requires Ok(t) && t2 == InsertKey(t.(next := t.next + 1), t.next, NO_AGENT)
    requires !NameTaken(t2.agents, t.next, "default", None)
    requires Ok(CreateAgent(t2, t.next, "default").0) && Evolves(t2, CreateAgent(t2, t.next, "default").0)
    ensures Ok(CreateProject(t, owner)) && Evolves(t, CreateProject(t, owner))
    ensures HasProject(CreateProject(t, owner), t.next)
  {
    hide IsActiveAgent, HasActiveKey, NameTaken, KeysOk, AgentsOk;
    var t' := CreateProject(t, owner);
    var done := CreateAgent(t2, t.next, "default").0;
    assert t' == done.(projects := t.projects + [Project(t.next, owner)]);
    assert done.projects == t.projects && done.agents == t.agents + [Agent(t2.next, t.next, "default", true)];
    assert done.agents[|t.agents|].project == t.next;
    assert t'.projects[|t.projects|].id == t.next;
    assert HasActiveAgent(t'.agents, t.next);
  }

  lemma {:induction false} NameForIs(agents: seq<Agent>, p: nat, a: nat)
    requires IsActiveAgent(agents, p, a)
    ensures IsNamed(agents, p, a, NameFor(agents, p, a))
  {
    if !(agents[0].project == p && agents[0].id == a && agents[0].active) {
      var i :| 0 <= i < |agents| && agents[i].project == p && agents[i].id == a && agents[i].active;
      assert agents[1..][i - 1] == agents[i];
      NameForIs(agents[1..], p, a);
      var j :| 0 <= j < |agents| - 1 && agents[1..][j] == Agent(a, p, NameFor(agents, p, a), true);
      assert agents[j + 1] == agents[1..][j];
    }
  }

  /** The name is that of an active agent of the project, and of the very agent that the key names. */
  ghost predicate Attributed(agents: seq<Agent>, who: Context) {
    exists a: nat :: (who.agent == NO_AGENT || who.agent == a) && IsNamed(agents, who.project, a, who.agentName)
  }

  lemma AuthenticateOk(t: Tables, k: nat)
    requires Ok(t)
    ensures var (t', who) := Authenticate(t, k);
      && Ok(t') && Evolves(t, t')
      && (who.Some? ==> HasProject(t', who.value.project) && Attributed(t'.agents, who.value))
  {
    hide Evolves, EnsureDefaultAgent, HasActiveKey, AgentsOk, ProjectsOk, IsActiveAgent, NameFor, IsNamed;
    EvolvesReflexive(t);
    if exists i :: 0 <= i < |t.keys| && t.keys[i].id == k && t.keys[i].active {
      var key := KeyRow(t.keys, k);
      var i :| 0 <= i < |t.keys| && t.keys[i] == key;
      EnsureDefaultAgentOk(t, key.project);
      var (t1, a) := EnsureDefaultAgent(t, key.project);
      if key.agent == NO_AGENT {
        NameForIs(t1.agents, key.project, a);
        assert IsNamed(t1.agents, key.project, a, NameFor(t1.agents, key.project, a));
      } else {
        NameForIs(t.agents, key.project, key.agent);
        assert IsNamed(t.agents, key.project, key.agent, NameFor(t.agents, key.project, key.agent));
      }
    }
  }

  lemma StepOk(t: Tables, r: Request)
    requires Ok(t)
    ensures Ok(Step(t, r)) && Evolves(t, Step(t, r))
  {
    hide Ok, Evolves, HasProject, CreateProject, Authenticate, RegenerateApiKey, RegenerateAgentKey, CreateAgent,
         RenameAgent, DeleteAgent, RevokeKey, ShowKeys, EnsureDefaultAgent;
    EvolvesReflexive(t);
    match r
    case NewProject(owner) => CreateProjectOk(t, owner);
    case Ingest(k) => AuthenticateOk(t, k);
    case _ =>
      if HasProject(t, r.p) {
        HasProjectId(t, r.p);
        match r
        case NewKey(p) => RegenerateApiKeyOk(t, p);
        case NewAgentKey(p, a) => RegenerateAgentKeyOk(t, p, a);
        case NewAgent(p, name) => CreateAgentOk(t, p, name);
        case Rename(p, a, name) => RenameAgentOk(t, p, a, name);
        case Delete(p, a) => DeleteAgentOk(t, p, a);
        case Revoke(p, k) => RevokeKeyOk(t, p, k);
        case List(p) =>
          EnsureDefaultAgentOk(t, p);
          var t1 := EnsureDefaultAgent(t, p).0;
          ShowKeysOk(t1, p, ActiveAgents(t1.agents, p));
          EvolvesTransitive(t, t1, ListAgents(t, p));
        case EnsureDefault(p) => EnsureDefaultAgentOk(t, p);
      }
  }

  /** The invariant holds after every sequence of requests. */
  lemma {:induction false} ReachableOk(requests: seq<Request>)
    ensures Ok(Run(requests))
  {
    hide Step;
    if requests == [] {
    } else {
      var before := Run(requests[..|requests| - 1]);
      ReachableOk(requests[..|requests| - 1]);
      StepOk(before, requests[|requests| - 1]);
    }
  }

  /** Over every run, rows keep their identity, and a key once revoked or an agent once deleted stays so. */
  lemma {:induction false} NothingIsRevived(requests: seq<Request>, more: seq<Request>)
    ensures Evolves(Run(requests), Run(requests + more))
    decreases |more|
  {
    hide Ok, Evolves, Step;
    if more == [] {
      assert requests + more == requests;
      EvolvesReflexive(Run(requests));
    } else {
      var n := |more| - 1;
      var mid := requests + more[..n];
      assert (requests + more)[..|requests + more| - 1] == mid;
      NothingIsRevived(requests, more[..n]);
      ReachableOk(mid);
      StepOk(Run(mid), more[n]);
      EvolvesTransitive(Run(requests), Run(mid), Run(requests + more));
    }
  }

  /** In a reachable state an accepted key stands for an existing project and the name of an active agent of it. */
  lemma AcceptedKeyHasActiveAgent(requests: seq<Request>, k: nat)
    ensures var (t', who) := Authenticate(Run(requests), k);
      who.Some? ==> HasProject(t', who.value.project) && Attributed(t'.agents, who.value)
  {
    ReachableOk(requests);
    AuthenticateOk(Run(requests), k);
  }

  lemma {:induction false} ShownStays(keys: seq<Key>, p: nat, a: nat, b: nat)
    requires HasShownKey(keys, p, a) && a != b
    ensures HasShownKey(RevokeKeys(Tables([], [], keys, 0), p, b).keys, p, a)
  {
    var revoked := RevokeKeys(Tables([], [], keys, 0), p, b).keys;
    var n := |keys| - 1;
    assert revoked[..n] == RevokeKeys(Tables([], [], keys[..n], 0), p, b).keys;
    var k := keys[n];
    if !(k.project == p && k.agent == a && k.active) { ShownStays(keys[..n], p, a, b); }
  }

  /** Rotating the key of one agent leaves every agent that had a key to show with one, and gives that agent one. */
  lemma RotationShows(t: Tables, p: nat, a: nat, b: nat)
    requires HasShownKey(t.keys, p, a) || (a == b && Found(t, p, b))
    ensures HasShownKey(RegenerateAgentKey(t, p, b).0.keys, p, a)
  {
    if Found(t, p, b) {
      var revoked := RevokeKeys(t, p, b);
      var added := InsertKey(revoked, p, b);
      assert added.keys[..|revoked.keys|] == revoked.keys;
      if a != b {
        ShownStays(t.keys, p, a, b);
        assert revoked.keys == RevokeKeys(Tables([], [], t.keys, 0), p, b).keys;
      }
    }
  }

  lemma RotationKeepsAgents(t: Tables, p: nat, b: nat)
    ensures RegenerateAgentKey(t, p, b).0.agents == t.agents
  {
  }

  /** After listing, every listed agent has a key that can be shown. */
  lemma {:induction false} ListedAgentsShowKeys(t: Tables, p: nat, agents: seq<Agent>)
    requires forall x :: x in agents ==> Found(t, p, x.id)
    ensures ShowKeys(t, p, agents).agents == t.agents
    ensures forall x :: x in agents ==> HasShownKey(ShowKeys(t, p, agents).keys, p, x.id)
  {
    hide RegenerateAgentKey, HasShownKey, IsActiveAgent;
    if agents != [] {
      var n := |agents| - 1;
      assert agents == agents[..n] + [agents[n]];
      ListedAgentsShowKeys(t, p, agents[..n]);
      var t1 := ShowKeys(t, p, agents[..n]);
      RotationKeepsAgents(t1, p, agents[n].id);
      forall x | x in agents ensures HasShownKey(ShowKeys(t, p, agents).keys, p, x.id) {
        if !HasShownKey(t1.keys, p, agents[n].id) { RotationShows(t1, p, x.id, agents[n].id); }
      }
    }
  }

  /**
   Listing shows a key for every active agent of the project, and there is at least one; keys
   whose text was not kept, as those of earlier versions, are rotated for this.
   */
  lemma ListingShowsKeys(t: Tables, p: nat)
    requires Ok(t) && HasProject(t, p)
    ensures var t' := ListAgents(t, p);
      && ActiveAgents(t'.agents, p) != []
      && forall x :: x in ActiveAgents(t'.agents, p) ==> HasShownKey(t'.keys, p, x.id)
  {
    hide EnsureDefaultAgent, ActiveAgents, HasShownKey, ShowKeys, KeysOk, ProjectsOk;
    HasProjectId(t, p);
    EnsureDefaultAgentOk(t, p);
    var (t1, a) := EnsureDefaultAgent(t, p);
    var active := ActiveAgents(t1.agents, p);
    ActiveAgentsAre(t1.agents, p);
    forall x | x in active ensures Found(t1, p, x.id) {
      var i :| 0 <= i < |t1.agents| && t1.agents[i] == x;
    }
    ListedAgentsShowKeys(t1, p, active);
    var i :| 0 <= i < |t1.agents| && t1.agents[i].project == p && t1.agents[i].id == a && t1.agents[i].active;
    assert t1.agents[i] in active;
  }
}
