/**
 The tables of projects, agents and API keys, and the operations on them. A table is the
 sequence of its rows in order of creation; an UPDATE rewrites the rows that match.
 Identifiers that the program draws at random are taken from a counter that never repeats.
 */
module AgentTables {
  import opened Options

  /** The agent identifier of a key that belongs to the project as a whole. */
  const NO_AGENT: nat := 0

  datatype Agent = Agent(id: nat, project: nat, name: string, active: bool)

  /** A key; `shown` tells whether its text was kept, as it was not for keys of earlier versions. */
  datatype Key = Key(id: nat, project: nat, agent: nat, shown: bool, active: bool)

  datatype Project = Project(id: nat, owner: string)

  datatype Tables = Tables(projects: seq<Project>, agents: seq<Agent>, keys: seq<Key>, next: nat)

  datatype Error = AgentNameRequired | AgentNameExists | AgentNotFound | CannotDeleteLastAgent

  // ---- queries ----

  predicate HasProject(t: Tables, p: nat) {
    exists i :: 0 <= i < |t.projects| && t.projects[i].id == p
  }

  function ActiveAgents(agents: seq<Agent>, p: nat): seq<Agent> {
    if agents == [] then []
    else
      (if agents[0].project == p && agents[0].active then [agents[0]] else []) + ActiveAgents(agents[1..], p)
  }

  predicate IsActiveAgent(agents: seq<Agent>, p: nat, a: nat) {
    exists i :: 0 <= i < |agents| && agents[i].project == p && agents[i].id == a && agents[i].active
  }

  /** Some active agent, other than the excepted one, has the name. */
  predicate NameTaken(agents: seq<Agent>, p: nat, name: string, except: Option<nat>) {
    exists i :: 0 <= i < |agents| && agents[i].project == p && agents[i].name == name && agents[i].active
      && Some(agents[i].id) != except
  }

  predicate HasActiveKey(keys: seq<Key>, p: nat, a: nat) {
    exists i :: 0 <= i < |keys| && keys[i].project == p && keys[i].agent == a && keys[i].active
  }

  /** The latest active key of an agent was kept in a form that can be shown. */
  predicate HasShownKey(keys: seq<Key>, p: nat, a: nat) {
    if keys == [] then false
    else
      var k := keys[|keys| - 1];
      if k.project == p && k.agent == a && k.active then k.shown else HasShownKey(keys[..|keys| - 1], p, a)
  }

  // ---- statements ----

  function InsertKey(t: Tables, p: nat, a: nat): Tables {
    t.(keys := t.keys + [Key(t.next, p, a, true, true)], next := t.next + 1)
  }

  function InsertAgent(t: Tables, p: nat, name: string): Tables {
    t.(agents := t.agents + [Agent(t.next, p, name, true)], next := t.next + 1)
  }

  /** Revoke the active keys of an agent, or of the project itself. */
  function RevokeKeys(t: Tables, p: nat, a: nat): Tables {
    t.(keys := seq(|t.keys|, i requires 0 <= i < |t.keys| =>
      if t.keys[i].project == p && t.keys[i].agent == a && t.keys[i].active then t.keys[i].(active := false)
      else t.keys[i]))
  }

  function RevokeKey(t: Tables, p: nat, k: nat): Tables {
    t.(keys := seq(|t.keys|, i requires 0 <= i < |t.keys| =>
      if t.keys[i].project == p && t.keys[i].id == k then t.keys[i].(active := false) else t.keys[i]))
  }

  function SetName(t: Tables, p: nat, a: nat, name: string): Tables {
    t.(agents := seq(|t.agents|, i requires 0 <= i < |t.agents| =>
      if t.agents[i].project == p && t.agents[i].id == a then t.agents[i].(name := name) else t.agents[i]))
  }

  function MarkDeleted(t: Tables, p: nat, a: nat): Tables {
    t.(agents := seq(|t.agents|, i requires 0 <= i < |t.agents| =>
      if t.agents[i].project == p && t.agents[i].id == a then t.agents[i].(active := false) else t.agents[i]))
  }

  // ---- operations ----

  function RegenerateApiKey(t: Tables, p: nat): Tables {
    InsertKey(RevokeKeys(t, p, NO_AGENT), p, NO_AGENT)
  }

  /** `agent_for_project`: an empty identifier names no agent. */
  predicate Found(t: Tables, p: nat, a: nat) { a != NO_AGENT && IsActiveAgent(t.agents, p, a) }

  function RegenerateAgentKey(t: Tables, p: nat, a: nat): (Tables, Option<Error>) {
    if !Found(t, p, a) then (t, Some(AgentNotFound))
    else (InsertKey(RevokeKeys(t, p, a), p, a), None)
  }

  function CreateAgent(t: Tables, p: nat, name: string): (Tables, Option<Error>) {
    if name == "" then (t, Some(AgentNameRequired))
    else if NameTaken(t.agents, p, name, None) then (t, Some(AgentNameExists))
    else (InsertKey(InsertAgent(t, p, name), p, t.next), None)
  }

  function RenameAgent(t: Tables, p: nat, a: nat, name: string): (Tables, Option<Error>) {
    if name == "" then (t, Some(AgentNameRequired))
    else if !Found(t, p, a) then (t, Some(AgentNotFound))
    else if NameTaken(t.agents, p, name, Some(a)) then (t, Some(AgentNameExists))
    else (SetName(t, p, a, name), None)
  }

  function DeleteAgent(t: Tables, p: nat, a: nat): (Tables, Option<Error>) {
    if !Found(t, p, a) then (t, Some(AgentNotFound))
    else if |ActiveAgents(t.agents, p)| <= 1 then (t, Some(CannotDeleteLastAgent))
    else (RevokeKeys(MarkDeleted(t, p, a), p, a), None)
  }

  function CreateProject(t: Tables, owner: string): Tables {
    var p := t.next;
    var t1 := t.(projects := t.projects + [Project(p, owner)], next := t.next + 1);
    CreateAgent(InsertKey(t1, p, NO_AGENT), p, "default").0
  }

  /** The agent that stands in when none is named: the one called default, else the oldest active one. */
  function Fallback(active: seq<Agent>): Option<Agent> {
    if active == [] then None
    else if exists i :: 0 <= i < |active| && active[i].name == "default" then Some(FirstDefault(active))
    else Some(active[0])
  }

  function FirstDefault(active: seq<Agent>): (a: Agent)
    requires exists i :: 0 <= i < |active| && active[i].name == "default"
    ensures a in active
  {
    if active[0].name == "default" then active[0] else FirstDefault(active[1..])
  }

  /** `ensure_default_agent`: afterwards the returned agent exists and has an active key. */
  function EnsureDefaultAgent(t: Tables, p: nat): (Tables, nat) {
    var agent := Fallback(ActiveAgents(t.agents, p));
    var t1 := if agent.Some? then t else InsertAgent(t, p, "default");
    var a := if agent.Some? then agent.value.id else t.next;
    (if HasActiveKey(t1.keys, p, a) then t1 else InsertKey(t1, p, a), a)
  }

  /** Rotate the key of every listed agent that has none that can be shown. */
  function ShowKeys(t: Tables, p: nat, agents: seq<Agent>): Tables {
    if agents == [] then t
    else
      var t1 := ShowKeys(t, p, agents[..|agents| - 1]);
      var a := agents[|agents| - 1].id;
      if HasShownKey(t1.keys, p, a) then t1 else RegenerateAgentKey(t1, p, a).0
  }

  function ListAgents(t: Tables, p: nat): Tables {
    var t1 := EnsureDefaultAgent(t, p).0;
    ShowKeys(t1, p, ActiveAgents(t1.agents, p))
  }

  /** The active agent that an identifier stands for has this name. */
  ghost predicate IsNamed(agents: seq<Agent>, p: nat, a: nat, name: string) {
    exists i :: 0 <= i < |agents| && agents[i] == Agent(a, p, name, true)
  }

  /** The name of an active agent; without one, requests go by the name of the default agent. */
  function NameFor(agents: seq<Agent>, p: nat, a: nat): string {
    if agents == [] then "default"
    else if agents[0].project == p && agents[0].id == a && agents[0].active then agents[0].name
    else NameFor(agents[1..], p, a)
  }

  /** Whom a request is attributed to: a project, the agent its key names, if any, and the name of an agent. */
  datatype Context = Context(project: nat, agent: nat, agentName: string)

  /** `authenticate_api_key` with the text of key `k`. */
  function Authenticate(t: Tables, k: nat): (Tables, Option<Context>) {
    if !(exists i :: 0 <= i < |t.keys| && t.keys[i].id == k && t.keys[i].active) then (t, None)
    else
      var key := KeyRow(t.keys, k);
      if !HasProject(t, key.project) then (t, None)
      else if key.agent == NO_AGENT then
        var (t1, a) := EnsureDefaultAgent(t, key.project);
        (t1, Some(Context(key.project, key.agent, NameFor(t1.agents, key.project, a))))
      else (t, Some(Context(key.project, key.agent, NameFor(t.agents, key.project, key.agent))))
  }

  function KeyRow(keys: seq<Key>, k: nat): (key: Key)
    requires exists i :: 0 <= i < |keys| && keys[i].id == k && keys[i].active
    ensures key in keys && key.id == k && key.active
  {
    if keys[0].id == k && keys[0].active then keys[0] else KeyRow(keys[1..], k)
  }

  datatype Request =
    | NewProject(owner: string)
    | NewKey(p: nat)
    | NewAgentKey(p: nat, a: nat)
    | NewAgent(p: nat, name: string)
    | Rename(p: nat, a: nat, name: string)
    | Delete(p: nat, a: nat)
    | Revoke(p: nat, k: nat)
    | List(p: nat)
    | EnsureDefault(p: nat)
    | Ingest(k: nat)

  /** One request; those about a project are refused unless it exists. */
  function Step(t: Tables, r: Request): Tables {
    match r
    case NewProject(owner) => CreateProject(t, owner)
    case Ingest(k) => Authenticate(t, k).0
    case _ =>
      if !HasProject(t, r.p) then t
      else
        match r
        case NewKey(p) => RegenerateApiKey(t, p)
        case NewAgentKey(p, a) => RegenerateAgentKey(t, p, a).0
        case NewAgent(p, name) => CreateAgent(t, p, name).0
        case Rename(p, a, name) => RenameAgent(t, p, a, name).0
        case Delete(p, a) => DeleteAgent(t, p, a).0
        case Revoke(p, k) => RevokeKey(t, p, k)
        case List(p) => ListAgents(t, p)
        case EnsureDefault(p) => EnsureDefaultAgent(t, p).0
  }

  const EMPTY := Tables([], [], [], 1)

  function Run(requests: seq<Request>): Tables {
    if requests == [] then EMPTY else Step(Run(requests[..|requests| - 1]), requests[|requests| - 1])
  }
}
