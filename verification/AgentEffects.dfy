/**
 What the operations on agents and keys come to: the active agents of a project are a set of
 names, the active keys of an agent a set of identifiers, and each operation is one on these sets.
 */
module AgentEffects {
  import opened Options
  import opened AgentTables
  import opened AgentInvariants

  /** The names of the active agents of a project. */
  function ActiveNames(agents: seq<Agent>, p: nat): set<string> {
    set a | a in agents && a.project == p && a.active :: a.name
  }

  /** The active keys of an agent, or of the project itself. */
  function ActiveKeys(keys: seq<Key>, p: nat, a: nat): set<nat> {
    set k | k in keys && k.project == p && k.agent == a && k.active :: k.id
  }

  lemma TakenIsActive(agents: seq<Agent>, p: nat, name: string)
    ensures NameTaken(agents, p, name, None) <==> name in ActiveNames(agents, p)
  {
    if NameTaken(agents, p, name, None) {
      var i :| 0 <= i < |agents| && agents[i].project == p && agents[i].name == name && agents[i].active;
      assert agents[i] in agents;
    }
  }

  lemma OneMoreName(agents: seq<Agent>, agent: Agent, q: nat)
    ensures ActiveNames(agents + [agent], q) ==
      ActiveNames(agents, q) + if agent.project == q && agent.active then {agent.name} else {}
  {
    assert forall x :: x in agents + [agent] <==> x in agents || x == agent;
  }

  lemma OneMoreKey(keys: seq<Key>, key: Key, q: nat, b: nat)
    ensures ActiveKeys(keys + [key], q, b) ==
      ActiveKeys(keys, q, b) + if key.project == q && key.agent == b && key.active then {key.id} else {}
  {
    assert forall x :: x in keys + [key] <==> x in keys || x == key;
  }

  lemma RevokedKeys(t: Tables, p: nat, a: nat, q: nat, b: nat)
    ensures ActiveKeys(RevokeKeys(t, p, a).keys, q, b) == if q == p && b == a then {} else ActiveKeys(t.keys, q, b)
  {
    var keys := RevokeKeys(t, p, a).keys;
    forall id ensures id in ActiveKeys(keys, q, b) <==> id in ActiveKeys(t.keys, q, b) && !(q == p && b == a) {
      if id in ActiveKeys(keys, q, b) {
        var k :| k in keys && k.project == q && k.agent == b && k.active && k.id == id;
        var i :| 0 <= i < |keys| && keys[i] == k;
        assert t.keys[i] in t.keys;
      }
      if id in ActiveKeys(t.keys, q, b) && !(q == p && b == a) {
        var k :| k in t.keys && k.project == q && k.agent == b && k.active && k.id == id;
        var i :| 0 <= i < |t.keys| && t.keys[i] == k;
        assert keys[i] == k && keys[i] in keys;
      }
    }
  }

  // ---- agents ----

  /**
   Creating: it succeeds iff the name is not empty and not among the active names; then the name
   is added to those of this project, those of other projects stay, and the new agent has the
   new key as its only one. On failure nothing changes.
   */
  lemma CreateAddsName(t: Tables, p: nat, name: string, q: nat)
    requires Ok(t) && p < t.next
    ensures var (t', error) := CreateAgent(t, p, name);
      && (error.None? <==> name != "" && name !in ActiveNames(t.agents, p))
      && (error.Some? ==> t' == t)
      && (error.None? ==>
            && ActiveNames(t'.agents, q) == ActiveNames(t.agents, q) + (if q == p then {name} else {})
            && IsNamed(t'.agents, p, t.next, name)
            && ActiveKeys(t'.keys, p, t.next) == {t.next + 1})
  {
    hide ActiveNames, ActiveKeys, NameTaken, Ok;
    TakenIsActive(t.agents, p, name);
    var agent, key := Agent(t.next, p, name, true), Key(t.next + 1, p, t.next, true, true);
    OneMoreName(t.agents, agent, q);
    OneMoreKey(t.keys, key, p, t.next);
    assert (t.agents + [agent])[|t.agents|] == agent;
    NoKeysYet(t, p);
  }

  lemma NoKeysYet(t: Tables, p: nat)
    requires Ok(t)
    ensures ActiveKeys(t.keys, p, t.next) == {}
  {
    hide AgentsOk, ProjectsOk;
  }

  /** Nothing that a table does to the row of one agent shows in the names of other agents. */
  lemma NamesWithout(agents: seq<Agent>, agents': seq<Agent>, next: nat, p: nat, a: nat, name: string, i: nat)
    requires AgentsOk(agents, next) && i < |agents| == |agents'| && agents[i] == Agent(a, p, name, true)
    requires forall j :: 0 <= j < |agents| && j != i ==> agents'[j] == agents[j]
    requires agents'[i].project == p
    ensures forall q: nat :: q != p ==> ActiveNames(agents', q) == ActiveNames(agents, q)
    ensures ActiveNames(agents', p) ==
      ActiveNames(agents, p) - {name} + if agents'[i].active then {agents'[i].name} else {}
  {
    forall q: nat, x
      ensures x in ActiveNames(agents', q) <==>
        (x in ActiveNames(agents, q) && !(q == p && x == name)) || (q == p && agents'[i].active && x == agents'[i].name)
    {
      if x in ActiveNames(agents', q) {
        var b :| b in agents' && b.project == q && b.active && b.name == x;
        var j :| 0 <= j < |agents'| && agents'[j] == b;
        OtherRow(agents, next, i, j);
        assert agents[j] in agents;
      }
      if x in ActiveNames(agents, q) && !(q == p && x == name) {
        var b :| b in agents && b.project == q && b.active && b.name == x;
        var j :| 0 <= j < |agents| && agents[j] == b;
        assert agents'[j] in agents';
      }
      assert agents'[i] in agents';
    }
  }

  lemma OtherRow(agents: seq<Agent>, next: nat, i: nat, j: nat)
    requires AgentsOk(agents, next) && i < |agents| && j < |agents|
    ensures i != j && SameActiveProject(agents[i], agents[j]) ==> agents[i].name != agents[j].name
  {
    if j < i { assert SameActiveProject(agents[j], agents[i]) == SameActiveProject(agents[i], agents[j]); }
  }

  /**
   Renaming: it succeeds iff the agent is active and the new name is not empty and not that of
   another active agent; then the new name takes the place of the former one.
   */
  lemma RenameReplacesName(t: Tables, p: nat, a: nat, name: string)
    requires Ok(t)
    ensures var (t', error) := RenameAgent(t, p, a, name);
      && (error.Some? ==> t' == t)
      && (error.None? ==> Found(t, p, a) && name != "")
      && (Found(t, p, a) && name != "" ==> exists was ::
            && IsNamed(t.agents, p, a, was)
            && (error.None? <==> name !in ActiveNames(t.agents, p) - {was})
            && (error.None? ==>
                  && ActiveNames(t'.agents, p) == ActiveNames(t.agents, p) - {was} + {name}
                  && (forall q: nat :: q != p ==> ActiveNames(t'.agents, q) == ActiveNames(t.agents, q))
                  && IsNamed(t'.agents, p, a, name) && t'.keys == t.keys))
  {
    if Found(t, p, a) && name != "" {
      var i :| 0 <= i < |t.agents| && t.agents[i].project == p && t.agents[i].id == a && t.agents[i].active;
      var was := t.agents[i].name;
      RenamedRow(t, p, a, name, i);
      assert IsNamed(t.agents, p, a, was);
    }
  }

  lemma RenamedRow(t: Tables, p: nat, a: nat, name: string, i: nat)
    requires Ok(t) && i < |t.agents| && t.agents[i] == Agent(a, p, t.agents[i].name, true)
    requires a != NO_AGENT && name != ""
    ensures var (t', error) := RenameAgent(t, p, a, name);
      && (error.None? <==> name !in ActiveNames(t.agents, p) - {t.agents[i].name})
      && (error.None? ==>
            && ActiveNames(t'.agents, p) == ActiveNames(t.agents, p) - {t.agents[i].name} + {name}
            && (forall q: nat :: q != p ==> ActiveNames(t'.agents, q) == ActiveNames(t.agents, q))
            && IsNamed(t'.agents, p, a, name) && t'.keys == t.keys)
  {
    hide ActiveNames, NameTaken, KeysOk, ProjectsOk;
    var agents := SetName(t, p, a, name).agents;
    TakenByAnother(t.agents, t.next, p, a, name, i);
    OnlyRow(t.agents, t.next, i);
    assert agents[i] == Agent(a, p, name, true);
    NamesWithout(t.agents, agents, t.next, p, a, t.agents[i].name, i);
  }

  lemma OnlyRow(agents: seq<Agent>, next: nat, i: nat)
    requires AgentsOk(agents, next) && i < |agents|
    ensures forall j :: 0 <= j < |agents| && j != i ==> agents[j].id != agents[i].id
  {
  }

  lemma TakenByAnother(agents: seq<Agent>, next: nat, p: nat, a: nat, name: string, i: nat)
    requires AgentsOk(agents, next) && i < |agents| && agents[i] == Agent(a, p, agents[i].name, true)
    ensures NameTaken(agents, p, name, Some(a)) <==> name in ActiveNames(agents, p) - {agents[i].name}
  {
    if NameTaken(agents, p, name, Some(a)) {
      var j :| 0 <= j < |agents| && agents[j].project == p && agents[j].name == name && agents[j].active
        && agents[j].id != a;
      assert agents[j] in agents;
      OtherRow(agents, next, i, j);
    }
    if name in ActiveNames(agents, p) - {agents[i].name} {
      var b :| b in agents && b.project == p && b.active && b.name == name;
      var j :| 0 <= j < |agents| && agents[j] == b;
      OnlyRow(agents, next, i);
    }
  }

  /** With distinct names there are as many active names as active agents. */
  lemma {:induction false} NamesCountAgents(agents: seq<Agent>, p: nat, next: nat)
    requires AgentsOk(agents, next)
    ensures |ActiveNames(agents, p)| == |ActiveAgents(agents, p)|
  {
    if agents != [] {
      var first, rest := agents[0], agents[1..];
      assert agents == [first] + rest;
      RestOk(agents, next);
      NamesCountAgents(rest, p, next);
      if first.project == p && first.active {
        assert ActiveNames(agents, p) == ActiveNames(rest, p) + {first.name};
        FirstNameIsNew(agents, p, next);
      } else {
        assert ActiveNames(agents, p) == ActiveNames(rest, p);
      }
    }
  }

  lemma RestOk(agents: seq<Agent>, next: nat)
    requires AgentsOk(agents, next) && agents != []
    ensures AgentsOk(agents[1..], next)
  {
    var rest := agents[1..];
    assert forall i :: 0 <= i < |rest| ==> rest[i] == agents[i + 1];
  }

  lemma FirstNameIsNew(agents: seq<Agent>, p: nat, next: nat)
    requires AgentsOk(agents, next) && agents != [] && agents[0].project == p && agents[0].active
    ensures agents[0].name !in ActiveNames(agents[1..], p)
  {
    forall b | b in agents[1..] && b.project == p && b.active ensures b.name != agents[0].name {
      var j :| 0 <= j < |agents| - 1 && agents[1..][j] == b;
      assert SameActiveProject(agents[0], agents[j + 1]);
    }
  }

  /**
   Deleting: it succeeds iff the agent is active and not the last one; then its name and its keys
   are gone, and the names and keys of all others stay.
   */
  lemma DeleteRemovesName(t: Tables, p: nat, a: nat)
    requires Ok(t)
    ensures var (t', error) := DeleteAgent(t, p, a);
      && (error.None? <==> Found(t, p, a) && |ActiveNames(t.agents, p)| > 1)
      && (error.Some? ==> t' == t)
      && (error.None? ==> exists was ::
            && IsNamed(t.agents, p, a, was)
            && ActiveNames(t'.agents, p) == ActiveNames(t.agents, p) - {was}
            && (forall q: nat :: q != p ==> ActiveNames(t'.agents, q) == ActiveNames(t.agents, q))
            && (forall q: nat, b: nat ::
                  ActiveKeys(t'.keys, q, b) == if q == p && b == a then {} else ActiveKeys(t.keys, q, b)))
  {
    hide ActiveNames, ActiveKeys, ActiveAgents, KeysOk, ProjectsOk;
    NamesCountAgents(t.agents, p, t.next);
    if DeleteAgent(t, p, a).1.None? {
      var i :| 0 <= i < |t.agents| && t.agents[i].project == p && t.agents[i].id == a && t.agents[i].active;
      var was := t.agents[i].name;
      assert IsNamed(t.agents, p, a, was);
      OnlyRow(t.agents, t.next, i);
      NamesWithout(t.agents, MarkDeleted(t, p, a).agents, t.next, p, a, was, i);
      forall q: nat, b: nat
        ensures ActiveKeys(DeleteAgent(t, p, a).0.keys, q, b) ==
          if q == p && b == a then {} else ActiveKeys(t.keys, q, b)
      {
        RevokedKeys(MarkDeleted(t, p, a), p, a, q, b);
      }
    }
  }

  // ---- keys ----

  /** Rotating: afterwards the agent's only key is the new one, and all other agents keep theirs. */
  lemma RotateReplacesKeys(t: Tables, p: nat, a: nat, q: nat, b: nat)
    ensures var (t', error) := RegenerateAgentKey(t, p, a);
      && (error.None? <==> Found(t, p, a))
      && (error.Some? ==> t' == t)
      && (error.None? ==>
            && ActiveKeys(t'.keys, q, b) == (if q == p && b == a then {t.next} else ActiveKeys(t.keys, q, b))
            && HasShownKey(t'.keys, p, a) && t'.agents == t.agents)
  {
    hide ActiveKeys;
    RevokedKeys(t, p, a, q, b);
    OneMoreKey(RevokeKeys(t, p, a).keys, Key(t.next, p, a, true, true), q, b);
  }

  /** Revoking one key removes that key and no other. */
  lemma RevokeRemovesKey(t: Tables, p: nat, k: nat, q: nat, b: nat)
    requires Ok(t)
    ensures ActiveKeys(RevokeKey(t, p, k).keys, q, b) == ActiveKeys(t.keys, q, b) - if q == p then {k} else {}
    ensures RevokeKey(t, p, k).agents == t.agents
  {
    var keys := RevokeKey(t, p, k).keys;
    forall id ensures id in ActiveKeys(keys, q, b) <==> id in ActiveKeys(t.keys, q, b) && !(q == p && id == k) {
      if id in ActiveKeys(keys, q, b) {
        var key :| key in keys && key.project == q && key.agent == b && key.active && key.id == id;
        var i :| 0 <= i < |keys| && keys[i] == key;
        assert t.keys[i] in t.keys;
      }
      if id in ActiveKeys(t.keys, q, b) && !(q == p && id == k) {
        var key :| key in t.keys && key.project == q && key.agent == b && key.active && key.id == id;
        var i :| 0 <= i < |t.keys| && t.keys[i] == key;
        assert keys[i] == key && keys[i] in keys;
      }
    }
  }

  // ---- the default agent ----

  /**
   The default agent: it is made, with that name, only when the project has no active agent;
   an active agent of that name is preferred; and an agent that has a key keeps it.
   */
  lemma DefaultAgentIs(t: Tables, p: nat)
    requires Ok(t) && p < t.next
    ensures var (t', a) := EnsureDefaultAgent(t, p);
      && ActiveNames(t'.agents, p) == (if ActiveNames(t.agents, p) == {} then {"default"} else ActiveNames(t.agents, p))
      && ("default" in ActiveNames(t'.agents, p) ==> IsNamed(t'.agents, p, a, "default"))
      && (ActiveKeys(t.keys, p, a) != {} ==> t' == t)
      && |ActiveKeys(t'.keys, p, a)| > 0
  {
    hide ActiveNames, ActiveKeys, ActiveAgents, KeysOk, ProjectsOk;
    var active := ActiveAgents(t.agents, p);
    NoNames(t.agents, p);
    if active == [] {
      var agent, key := Agent(t.next, p, "default", true), Key(t.next + 1, p, t.next, true, true);
      OneMoreName(t.agents, agent, p);
      assert (t.agents + [agent])[|t.agents|] == agent;
      NoKeysYet(t, p);
      HasKeyIs(t.keys, p, t.next);
      OneMoreKey(t.keys, key, p, t.next);
    } else {
      var agent := Fallback(active).value;
      FallbackName(t.agents, p);
      HasKeyIs(t.keys, p, agent.id);
      OneMoreKey(t.keys, Key(t.next, p, agent.id, true, true), p, agent.id);
    }
  }

  lemma HasKeyIs(keys: seq<Key>, p: nat, a: nat)
    ensures HasActiveKey(keys, p, a) <==> ActiveKeys(keys, p, a) != {}
  {
    if HasActiveKey(keys, p, a) {
      var i :| 0 <= i < |keys| && keys[i].project == p && keys[i].agent == a && keys[i].active;
      assert keys[i] in keys && keys[i].id in ActiveKeys(keys, p, a);
    }
    if ActiveKeys(keys, p, a) != {} {
      var id :| id in ActiveKeys(keys, p, a);
      var k :| k in keys && k.project == p && k.agent == a && k.active && k.id == id;
      var i :| 0 <= i < |keys| && keys[i] == k;
    }
  }

  lemma NoNames(agents: seq<Agent>, p: nat)
    ensures ActiveNames(agents, p) == {} <==> ActiveAgents(agents, p) == []
  {
    hide ActiveAgents;
    ActiveAgentsAre(agents, p);
    var active := ActiveAgents(agents, p);
    if active != [] {
      assert active[0] in active && active[0].name in ActiveNames(agents, p);
    }
  }

  lemma FallbackName(agents: seq<Agent>, p: nat)
    requires ActiveAgents(agents, p) != []
    ensures var a := Fallback(ActiveAgents(agents, p)).value;
      "default" in ActiveNames(agents, p) ==> IsNamed(agents, p, a.id, "default")
  {
    hide ActiveAgents;
    ActiveAgentsAre(agents, p);
    var active := ActiveAgents(agents, p);
    if "default" in ActiveNames(agents, p) {
      var b :| b in agents && b.project == p && b.active && b.name == "default";
      assert b in active;
      var j :| 0 <= j < |active| && active[j] == b;
      var a := Fallback(active).value;
      DefaultIsNamed(active);
      assert a in active && a in agents;
      var i :| 0 <= i < |agents| && agents[i] == a;
    }
  }

  lemma {:induction false} DefaultIsNamed(active: seq<Agent>)
    requires exists i :: 0 <= i < |active| && active[i].name == "default"
    ensures FirstDefault(active).name == "default"
  {
    if active[0].name != "default" {
      var i :| 0 <= i < |active| && active[i].name == "default";
      assert active[1..][i - 1].name == "default";
      DefaultIsNamed(active[1..]);
    }
  }

  // ---- authentication ----

  /** A key that is accepted: active, and of an existing project. */
  ghost predicate Accepted(t: Tables, k: nat, i: nat) {
    i < |t.keys| && t.keys[i].id == k && t.keys[i].active && HasProject(t, t.keys[i].project)
  }

  /**
   A key stands for its own project and agent, with the name of that agent. A key of the project
   itself names no agent; it goes by the name of the default agent, which may have to be made.
   */
  lemma AcceptedKeyStandsFor(t: Tables, k: nat, i: nat)
    requires Ok(t) && Accepted(t, k, i)
    ensures var (t', who) := Authenticate(t, k); var (p, a) := (t.keys[i].project, t.keys[i].agent);
      && who.Some? && who.value.project == p && who.value.agent == a
      && (a != NO_AGENT ==> t' == t && IsNamed(t.agents, p, a, who.value.agentName))
      && (a == NO_AGENT ==>
            var (t1, default) := EnsureDefaultAgent(t, p);
            t' == t1 && IsNamed(t1.agents, p, default, who.value.agentName))
  {
    hide EnsureDefaultAgent, AgentsOk, ProjectsOk, HasProject, IsActiveAgent, IsNamed, NameFor;
    var key := KeyRow(t.keys, k);
    var j :| 0 <= j < |t.keys| && t.keys[j] == key;
    OnlyKey(t, j);
    if key.agent == NO_AGENT {
      ProjectIsKnown(t, key.project);
      EnsureDefaultAgentOk(t, key.project);
      var (t1, a) := EnsureDefaultAgent(t, key.project);
      NameForIs(t1.agents, key.project, a);
    } else {
      NameForIs(t.agents, key.project, key.agent);
    }
  }

  lemma ProjectIsKnown(t: Tables, p: nat)
    requires Ok(t) && HasProject(t, p)
    ensures p < t.next
  {
  }

  lemma OnlyKey(t: Tables, j: nat)
    requires Ok(t) && j < |t.keys|
    ensures forall i :: 0 <= i < |t.keys| && t.keys[i].id == t.keys[j].id ==> i == j
  {
  }

  /** A key is accepted iff it is active and its project exists; otherwise nothing changes. */
  lemma AcceptedIff(t: Tables, k: nat)
    requires Ok(t)
    ensures Authenticate(t, k).1.Some? <==> exists i: nat :: Accepted(t, k, i)
    ensures Authenticate(t, k).1.None? ==> Authenticate(t, k).0 == t
  {
    hide EnsureDefaultAgent, Ok, HasProject, IsActiveAgent, Found;
    if Authenticate(t, k).1.Some? {
      var key := KeyRow(t.keys, k);
      var j :| 0 <= j < |t.keys| && t.keys[j] == key;
      assert Accepted(t, k, j);
    } else if i: nat :| Accepted(t, k, i) {
      AcceptedKeyStandsFor(t, k, i);
    }
  }
}
