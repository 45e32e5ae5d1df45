/**
 The backend's operations on agents and keys as statements on tables that are updated in place.
 */
module AgentStore {
  import opened Options
  import opened AgentTables
  import opened AgentInvariants

  class Store {
    var projects: seq<Project>
    var agents: seq<Agent>
    var keys: seq<Key>
    var next: nat

    ghost function T(): Tables
      reads this
    {
      Tables(projects, agents, keys, next)
    }

    constructor ()
      ensures T() == EMPTY && Ok(T())
    {
      projects, agents, keys, next := [], [], [], 1;
    }

    method InsertKeyRow(p: nat, a: nat)
      modifies this
      ensures T() == InsertKey(old(T()), p, a)
    {
      keys := keys + [Key(next, p, a, true, true)];
      next := next + 1;
    }

    method InsertAgentRow(p: nat, name: string) returns (a: nat)
      modifies this
      ensures T() == InsertAgent(old(T()), p, name) && a == old(next)
    {
      a := next;
      agents := agents + [Agent(next, p, name, true)];
      next := next + 1;
    }

    method RevokeKeyRows(p: nat, a: nat)
      modifies this
      ensures T() == RevokeKeys(old(T()), p, a)
    {
      var i := 0;
      while i < |keys|
        invariant i <= |keys| == |old(keys)|
        invariant projects == old(projects) && agents == old(agents) && next == old(next)
        invariant forall j :: 0 <= j < i ==> keys[j] == RevokeKeys(old(T()), p, a).keys[j]
        invariant forall j :: i <= j < |keys| ==> keys[j] == old(keys)[j]
      {
        if keys[i].project == p && keys[i].agent == a && keys[i].active {
          keys := keys[i := keys[i].(active := false)];
        }
        i := i + 1;
      }
    }

    /** `create_agent`: on an error nothing is written. */
    method CreateAgentRow(p: nat, name: string) returns (error: Option<Error>)
      modifies this
      ensures (T(), error) == CreateAgent(old(T()), p, name)
      ensures Ok(old(T())) && p < old(next) ==> Ok(T()) && Evolves(old(T()), T())
    {
      hide Ok, Evolves;
      if Ok(T()) && p < next { CreateAgentOk(T(), p, name); }
      if name == "" {
        return Some(AgentNameRequired);
      }
      if NameTaken(agents, p, name, None) {
        return Some(AgentNameExists);
      }
      var a := InsertAgentRow(p, name);
      InsertKeyRow(p, a);
      error := None;
    }

    /** `rename_agent`. */
    method RenameAgentRow(p: nat, a: nat, name: string) returns (error: Option<Error>)
      modifies this
      ensures (T(), error) == RenameAgent(old(T()), p, a, name)
      ensures Ok(old(T())) ==> Ok(T()) && Evolves(old(T()), T())
    {
      hide Ok, Evolves;
      if Ok(T()) { RenameAgentOk(T(), p, a, name); }
      if name == "" {
        return Some(AgentNameRequired);
      }
      if a == NO_AGENT || !IsActiveAgent(agents, p, a) {
        return Some(AgentNotFound);
      }
      if NameTaken(agents, p, name, Some(a)) {
        return Some(AgentNameExists);
      }
      agents := SetName(Tables(projects, agents, keys, next), p, a, name).agents;
      error := None;
    }

    /** `delete_agent`: mark the agent, then revoke its keys; the last agent stays. */
    method DeleteAgentRow(p: nat, a: nat) returns (error: Option<Error>)
      modifies this
      ensures (T(), error) == DeleteAgent(old(T()), p, a)
      ensures Ok(old(T())) ==> Ok(T()) && Evolves(old(T()), T())
      ensures Ok(old(T())) && error.None? ==> !IsActiveAgent(agents, p, a) && !HasActiveKey(keys, p, a)
    {
      hide Ok, Evolves;
      if Ok(T()) { DeleteAgentOk(T(), p, a); }
      if a == NO_AGENT || !IsActiveAgent(agents, p, a) {
        return Some(AgentNotFound);
      }
      var active := ActiveAgents(agents, p);
      if |active| <= 1 {
        return Some(CannotDeleteLastAgent);
      }
      agents := MarkDeleted(Tables(projects, agents, keys, next), p, a).agents;
      RevokeKeyRows(p, a);
      error := None;
    }

    /** `regenerate_agent_api_key`. */
    method RegenerateAgentKeyRow(p: nat, a: nat) returns (error: Option<Error>)
      modifies this
      ensures (T(), error) == RegenerateAgentKey(old(T()), p, a)
      ensures Ok(old(T())) ==> Ok(T()) && Evolves(old(T()), T())
    {
      hide Ok, Evolves;
      if Ok(T()) { RegenerateAgentKeyOk(T(), p, a); }
      if a == NO_AGENT || !IsActiveAgent(agents, p, a) {
        return Some(AgentNotFound);
      }
      RevokeKeyRows(p, a);
      InsertKeyRow(p, a);
      error := None;
    }

    /** `regenerate_api_key`: the keys of the project itself. */
    method RegenerateApiKeyRow(p: nat)
      modifies this
      ensures T() == RegenerateApiKey(old(T()), p)
      ensures Ok(old(T())) && p < old(next) ==> Ok(T()) && Evolves(old(T()), T())
    {
      hide Ok, Evolves;
      if Ok(T()) && p < next { RegenerateApiKeyOk(T(), p); }
      RevokeKeyRows(p, NO_AGENT);
      InsertKeyRow(p, NO_AGENT);
    }

    /** Revoke one key by its identifier. */
    method RevokeKeyRow(p: nat, k: nat)
      modifies this
      ensures T() == RevokeKey(old(T()), p, k)
      ensures Ok(old(T())) ==> Ok(T()) && Evolves(old(T()), T())
    {
      hide Ok, Evolves;
      if Ok(T()) { RevokeKeyOk(T(), p, k); }
      var i := 0;
      while i < |keys|
        invariant i <= |keys| == |old(keys)|
        invariant projects == old(projects) && agents == old(agents) && next == old(next)
        invariant forall j :: 0 <= j < i ==> keys[j] == RevokeKey(old(T()), p, k).keys[j]
        invariant forall j :: i <= j < |keys| ==> keys[j] == old(keys)[j]
      {
        if keys[i].project == p && keys[i].id == k {
          keys := keys[i := keys[i].(active := false)];
        }
        i := i + 1;
      }
    }

    /** `create_project`: the project, its own key, and the default agent with a key. */
    method CreateProjectRow(owner: string) returns (p: nat)
      modifies this
      ensures T() == CreateProject(old(T()), owner) && p == old(next)
      ensures Ok(old(T())) ==> Ok(T()) && Evolves(old(T()), T()) && HasProject(T(), p)
    {
      hide Ok, Evolves, HasProject;
      if Ok(T()) { CreateProjectOk(T(), owner); }
      p := next;
      projects, next := projects + [Project(p, owner)], next + 1;
      InsertKeyRow(p, NO_AGENT);
      var _ := CreateAgentRow(p, "default");
    }

    /** `ensure_default_agent`. */
    method EnsureDefaultAgentRow(p: nat) returns (a: nat)
      modifies this
      ensures (T(), a) == EnsureDefaultAgent(old(T()), p)
      ensures Ok(old(T())) && p < old(next) ==>
        Ok(T()) && Evolves(old(T()), T()) && IsActiveAgent(agents, p, a) && HasActiveKey(keys, p, a)
    {
      hide Ok, Evolves;
      if Ok(T()) && p < next { EnsureDefaultAgentOk(T(), p); }
      var agent := Fallback(ActiveAgents(agents, p));
      if agent.Some? {
        a := agent.value.id;
      } else {
        a := InsertAgentRow(p, "default");
      }
      if !HasActiveKey(keys, p, a) {
        InsertKeyRow(p, a);
      }
    }

    /** `authenticate_api_key`, once the key is found by its hash. */
    method AuthenticateRow(k: nat) returns (who: Option<Context>)
      modifies this
      ensures (T(), who) == Authenticate(old(T()), k)
      ensures Ok(old(T())) ==> Ok(T()) && Evolves(old(T()), T()) && (who.Some? ==> Attributed(agents, who.value))
    {
      hide Ok, Evolves, EnsureDefaultAgent, IsActiveAgent, NameFor, Attributed;
      if Ok(T()) { AuthenticateOk(T(), k); }
      if !(exists i :: 0 <= i < |keys| && keys[i].id == k && keys[i].active) {
        return None;
      }
      var key := KeyRow(keys, k);
      if !(exists i :: 0 <= i < |projects| && projects[i].id == key.project) {
        return None;
      }
      var a := key.agent;
      if key.agent == NO_AGENT {
        a := EnsureDefaultAgentRow(key.project);
      }
      who := Some(Context(key.project, key.agent, NameFor(agents, key.project, a)));
    }

    /** `list_agents`: every listed agent ends up with a key that can be shown. */
    method ListAgentRows(p: nat) returns (listed: seq<Agent>)
      modifies this
      ensures T() == ListAgents(old(T()), p)
      ensures listed == ActiveAgents(EnsureDefaultAgent(old(T()), p).0.agents, p)
    {
      hide RegenerateAgentKey, EnsureDefaultAgent, HasShownKey, ActiveAgents, Ok, Evolves;
      var _ := EnsureDefaultAgentRow(p);
      label Ensured:
      listed := ActiveAgents(agents, p);
      for i := 0 to |listed|
        invariant T() == ShowKeys(old@Ensured(T()), p, listed[..i])
      {
        assert listed[..i + 1][..i] == listed[..i];
        if !HasShownKey(keys, p, listed[i].id) {
          var _ := RegenerateAgentKeyRow(p, listed[i].id);
        }
      }
      assert listed[..|listed|] == listed;
    }
  }
}
