/**
 Feature gates: the rules of the four stages, and the command-line flag that prints and parses
 the state of a registry.
 */
module FeatureGates {
  import opened Options
  import opened Text
  import opened Sorting

  /** `Unknown` stands for every number that is none of the four stages. */
  datatype Stage = Alpha | Beta | Stable | Deprecated | Unknown

  datatype GateState = GateState(stage: Stage, enabled: bool)

  type State = map<string, GateState>

  datatype Error =
    | EmptyId | InvalidId | OptionFailed | UnknownStage | NoRemovalVersion | RemovedBeforeAdded
    | AlreadyRegistered | NoSuchGate | StableCannotBeDisabled | DeprecatedCannotBeEnabled

  /**
   What the options of a registration come to: whether one fails, whether a removal version is
   given, and whether it is before the version the gate was added in.
   */
  datatype RegisterOptions = RegisterOptions(fail: bool, hasToVersion: bool, toBeforeFrom: bool)

  predicate IdChar(c: char) { '0' <= c <= '9' || 'a' <= c <= 'z' || 'A' <= c <= 'Z' || c == '.' }

  predicate ValidId(id: string) { id != "" && forall c :: c in id ==> IdChar(c) }

  /** Why a registration is refused, apart from the identifier being taken. */
  function Refusal(id: string, stage: Stage, opts: RegisterOptions): Option<Error> {
    if id == "" then Some(EmptyId)
    else if !ValidId(id) then Some(InvalidId)
    else if opts.fail then Some(OptionFailed)
    else if stage.Unknown? then Some(UnknownStage)
    else if (stage.Stable? || stage.Deprecated?) && !opts.hasToVersion then Some(NoRemovalVersion)
    else if opts.hasToVersion && opts.toBeforeFrom then Some(RemovedBeforeAdded)
    else None
  }

  function Register(s: State, id: string, stage: Stage, opts: RegisterOptions): (State, Option<Error>) {
    var refusal := Refusal(id, stage, opts);
    if refusal.Some? then (s, refusal)
    else if id in s then (s, Some(AlreadyRegistered))
    else (s[id := GateState(stage, stage.Beta? || stage.Stable?)], None)
  }

  function Set(s: State, id: string, enabled: bool): (State, Option<Error>) {
    if id !in s then (s, Some(NoSuchGate))
    else
      match s[id].stage
      case Stable => (s, if enabled then None else Some(StableCannotBeDisabled))
      case Deprecated => (s, if enabled then Some(DeprecatedCannotBeEnabled) else None)
      case _ => (s[id := s[id].(enabled := enabled)], None)
  }

  /** Stable gates are on, deprecated gates are off, and identifiers are well formed. */
  ghost predicate Ok(s: State) {
    forall id :: id in s ==>
      && ValidId(id) && !s[id].stage.Unknown?
      && (s[id].stage.Stable? ==> s[id].enabled)
      && (s[id].stage.Deprecated? ==> !s[id].enabled)
  }

  /** Every gate of `a` is still in `b`, of the same stage. */
  ghost predicate KeepsGates(a: State, b: State) {
    forall id :: id in a ==> id in b && b[id].stage == a[id].stage
  }

  datatype Op = RegisterOp(id: string, stage: Stage, opts: RegisterOptions) | SetOp(id: string, enabled: bool)

  function Step(s: State, op: Op): State {
    match op
    case RegisterOp(id, stage, opts) => Register(s, id, stage, opts).0
    case SetOp(id, enabled) => Set(s, id, enabled).0
  }

  function Run(s: State, ops: seq<Op>): State
    decreases |ops|
  {
    if ops == [] then s else Run(Step(s, ops[0]), ops[1..])
  }

  /**
   Over all interleavings of registrations and settings: stable gates stay enabled, deprecated
   gates stay disabled, and an identifier keeps the gate it was first registered with.
   */
  lemma {:induction false} GatesKeepTheirRules(s: State, ops: seq<Op>)
    requires Ok(s)
    ensures Ok(Run(s, ops)) && KeepsGates(s, Run(s, ops))
    ensures forall id :: id in s ==> id in Run(s, ops) && Run(s, ops)[id] == GateAfter(s[id], ops, id)
    decreases |ops|
  {
    hide GateAfter;
    forall id | id in s ensures id in Run(s, ops) && Run(s, ops)[id] == GateAfter(s[id], ops, id) {
      GateOverRun(s, ops, id);
    }
    if ops != [] {
      StepKeepsRules(s, ops[0]);
      GatesKeepTheirRules(Step(s, ops[0]), ops[1..]);
    }
  }

  lemma StepKeepsRules(s: State, op: Op)
    requires Ok(s)
    ensures Ok(Step(s, op)) && KeepsGates(s, Step(s, op))
  {
    hide ValidId;
    if op.RegisterOp? { RefusalOfInvalid(op.id, op.stage, op.opts); }
  }

  lemma RefusalOfInvalid(id: string, stage: Stage, opts: RegisterOptions)
    ensures Refusal(id, stage, opts).None? ==> ValidId(id)
  {
  }

  // ---- the gate behind an identifier ----

  /** A registration of the identifier that nothing speaks against. */
  predicate Admissible(op: Op, id: string) {
    && op.RegisterOp? && op.id == id && ValidId(id)
    && !op.opts.fail && !op.stage.Unknown?
    && (op.stage.Stable? || op.stage.Deprecated? ==> op.opts.hasToVersion)
    && !(op.opts.hasToVersion && op.opts.toBeforeFrom)
  }

  ghost predicate FirstAdmissible(ops: seq<Op>, id: string, i: nat) {
    i < |ops| && Admissible(ops[i], id) && forall j :: 0 <= j < i ==> !Admissible(ops[j], id)
  }

  /** The last setting of an identifier in a list of steps, or `enabled` if there is none. */
  function LastSetting(ops: seq<Op>, id: string, enabled: bool): bool {
    if ops == [] then enabled
    else
      var op := ops[|ops| - 1];
      if op.SetOp? && op.id == id then op.enabled else LastSetting(ops[..|ops| - 1], id, enabled)
  }

  /** A new gate is on iff its stage is Beta or Stable. */
  function NewGate(stage: Stage): GateState { GateState(stage, stage in {Beta, Stable}) }

  /** What a run makes of a gate: it keeps its stage, and only an alpha or beta gate follows the settings. */
  function GateAfter(g: GateState, ops: seq<Op>, id: string): GateState {
    if g.stage.Stable? || g.stage.Deprecated? then g else GateState(g.stage, LastSetting(ops, id, g.enabled))
  }

  lemma StepOnGate(s: State, op: Op, id: string)
    ensures id in s ==> id in Step(s, op) && Step(s, op)[id] == GateAfter(s[id], [op], id)
    ensures id !in s ==> (id in Step(s, op) <==> Admissible(op, id))
    ensures id !in s && Admissible(op, id) ==>
      Step(s, op)[id] == NewGate(op.stage)
  {
    hide ValidId;
    if op.RegisterOp? { AdmissibleIff(op); }
    if id in s { OneSetting(op, id, s[id].enabled); }
  }

  lemma OneSetting(op: Op, id: string, enabled: bool)
    ensures LastSetting([op], id, enabled) == if op.SetOp? && op.id == id then op.enabled else enabled
  {
    assert [op][..0] == [];
  }

  lemma AdmissibleIff(op: Op)
    requires op.RegisterOp?
    ensures Refusal(op.id, op.stage, op.opts).None? <==> Admissible(op, op.id)
  {
  }

  lemma {:induction false} LastSettingAfter(first: Op, rest: seq<Op>, id: string, enabled: bool)
    ensures LastSetting([first] + rest, id, enabled) == LastSetting(rest, id, LastSetting([first], id, enabled))
    decreases |rest|
  {
    var ops, n := [first] + rest, |rest|;
    if n == 0 {
      assert ops == [first];
    } else {
      assert ops[..|ops| - 1] == [first] + rest[..n - 1] && ops[|ops| - 1] == rest[n - 1];
      LastSettingAfter(first, rest[..n - 1], id, enabled);
    }
  }

  /** A registered identifier keeps its gate: its stage for ever, and its switch as last set where that is allowed. */
  lemma {:induction false} GateOverRun(s: State, ops: seq<Op>, id: string)
    requires id in s
    ensures id in Run(s, ops) && Run(s, ops)[id] == GateAfter(s[id], ops, id)
    decreases |ops|
  {
    hide Step, Admissible;
    if ops != [] {
      StepOnGate(s, ops[0], id);
      GateOverRun(Step(s, ops[0]), ops[1..], id);
      assert ops == [ops[0]] + ops[1..];
      LastSettingAfter(ops[0], ops[1..], id, s[id].enabled);
    }
  }

  /**
   The first admissible registration decides. After any interleaving, an identifier that was not
   registered before is registered iff some admissible registration of it occurred, and its gate is
   that of the first one, with the switch as last set since.
   */
  lemma {:induction false} FirstRegistrationDecides(s: State, ops: seq<Op>, id: string)
    requires id !in s
    ensures id in Run(s, ops) <==> exists i: nat :: FirstAdmissible(ops, id, i)
    ensures forall i: nat :: FirstAdmissible(ops, id, i) ==>
      id in Run(s, ops) && Run(s, ops)[id] == GateAfter(NewGate(ops[i].stage), ops[i + 1..], id)
    decreases |ops|
  {
    hide Step, Admissible, GateAfter;
    if ops != [] {
      var rest := ops[1..];
      StepOnGate(s, ops[0], id);
      if Admissible(ops[0], id) {
        assert FirstAdmissible(ops, id, 0);
        GateOverRun(Step(s, ops[0]), rest, id);
      } else {
        FirstRegistrationDecides(Step(s, ops[0]), rest, id);
        forall i: nat | FirstAdmissible(ops, id, i) ensures i > 0 && FirstAdmissible(rest, id, i - 1) {
          assert forall j :: 0 <= j < i - 1 ==> rest[j] == ops[j + 1];
        }
        forall i: nat | FirstAdmissible(rest, id, i) ensures FirstAdmissible(ops, id, i + 1) {
          assert forall j :: 0 < j < i + 1 ==> ops[j] == rest[j - 1];
        }
      }
    }
  }

  /** There is a first admissible registration iff there is one at all. */
  lemma {:induction false} FirstOfSome(ops: seq<Op>, id: string, k: nat) returns (i: nat)
    requires k < |ops| && Admissible(ops[k], id)
    ensures i <= k && FirstAdmissible(ops, id, i)
  {
    if j :| 0 <= j < k && Admissible(ops[j], id) {
      i := FirstOfSome(ops, id, j);
    } else {
      i := k;
    }
  }

  /** An identifier is registered after a run iff it was before, or some admissible registration of it occurred. */
  lemma RegisteredAfterRun(s: State, ops: seq<Op>, id: string)
    ensures id in Run(s, ops) <==> id in s || exists k :: 0 <= k < |ops| && Admissible(ops[k], id)
  {
    hide Step, Admissible;
    if id in s {
      GateOverRun(s, ops, id);
    } else {
      FirstRegistrationDecides(s, ops, id);
      if k :| 0 <= k < |ops| && Admissible(ops[k], id) { var i := FirstOfSome(ops, id, k); }
    }
  }

  // ---- the flag ----

  /** How one gate is printed: a minus sign in front of a disabled one. */
  function Item(s: State, id: string): string
    requires id in s
  {
    if s[id].enabled then id else "-" + id
  }

  function Items(s: State, ids: seq<string>): (items: seq<string>)
    requires forall id :: id in ids ==> id in s
    ensures |items| == |ids|
  {
    if ids == [] then [] else [Item(s, ids[0])] + Items(s, ids[1..])
  }

  /** The order in which a map is ranged over: any list of its keys, each once. */
  ghost predicate Enumerates(order: seq<string>, s: State) {
    && (forall i, j :: 0 <= i < j < |order| ==> order[i] != order[j])
    && (set id | id in order) == s.Keys
  }

  lemma SortedKeys(order: seq<string>, s: State)
    requires Enumerates(order, s)
    ensures Enumerates(Sort(order, Leq), s)
  {
    hide Sort, Leq;
    var sorted := Sort(order, Leq);
    SortElements(order, Leq);
    assert forall id :: id in sorted <==> id in multiset(sorted);
    assert forall id :: id in order <==> id in multiset(order);
    forall i, j | 0 <= i < j < |sorted| ensures sorted[i] != sorted[j] {
      if sorted[i] == sorted[j] {
        Twice(sorted, i, j);
        Once(order, sorted[i]);
        assert false;
      }
    }
  }

  lemma Twice(s: seq<string>, i: nat, j: nat)
    requires i < j < |s| && s[i] == s[j]
    ensures multiset(s)[s[i]] >= 2
  {
    assert s == s[..i] + [s[i]] + s[i + 1..j] + [s[j]] + s[j + 1..];
  }

  lemma {:induction false} Once(s: seq<string>, x: string)
    requires forall i, j :: 0 <= i < j < |s| ==> s[i] != s[j]
    ensures multiset(s)[x] <= 1
  {
    if s != [] {
      Once(s[1..], x);
      assert s == [s[0]] + s[1..];
      if x == s[0] { assert x !in s[1..]; }
    }
  }

  /** `flagValue.String`: the gates in lexicographical order, separated by commas. */
  function FlagString(s: State, order: seq<string>): string
    requires Enumerates(order, s)
  {
    SortedKeys(order, s);
    Join(Items(s, Sort(order, Leq)), ',')
  }

  /** The printed flag does not depend on the order in which the map is ranged over. */
  lemma FlagStringIsUnique(s: State, order1: seq<string>, order2: seq<string>)
    requires Enumerates(order1, s) && Enumerates(order2, s)
    ensures FlagString(s, order1) == FlagString(s, order2)
  {
    hide Sort, Leq, Join, Items;
    StringOrder();
    SameElements(order1, order2);
    StringsAntisymmetric(order1);
    SortOfPermutation(order1, order2, Leq);
    SortedKeys(order1, s);
    SortedKeys(order2, s);
  }

  lemma SameElements(a: seq<string>, b: seq<string>)
    requires forall i, j :: 0 <= i < j < |a| ==> a[i] != a[j]
    requires forall i, j :: 0 <= i < j < |b| ==> b[i] != b[j]
    requires (set x | x in a) == (set x | x in b)
    ensures multiset(a) == multiset(b)
  {
    forall x ensures multiset(a)[x] == multiset(b)[x] {
      Once(a, x);
      Once(b, x);
      var members := set y | y in a;
      assert x in multiset(a) <==> x in members;
      assert x in multiset(b) <==> x in members;
    }
  }

  /** An empty item between commas makes the program panic when its first character is looked at. */
  datatype FlagResult = Done(state: State, errors: seq<Error>) | Panicked(state: State)

  function SetItem(s: State, item: string): (State, Option<Error>)
    requires item != ""
  {
    if item[0] == '-' then Set(s, item[1..], false)
    else if item[0] == '+' then Set(s, item[1..], true)
    else Set(s, item, true)
  }

  /** Apply the items in turn; an error does not stop the others. */
  function SetItems(s: State, items: seq<string>): FlagResult {
    if items == [] then Done(s, [])
    else if items[0] == "" then Panicked(s)
    else
      var (s1, error) := SetItem(s, items[0]);
      var rest := SetItems(s1, items[1..]);
      if rest.Panicked? then rest
      else Done(rest.state, (if error.Some? then [error.value] else []) + rest.errors)
  }

  /** `flagValue.Set`. */
  function FlagSet(s: State, text: string): FlagResult {
    if text == "" then Done(s, []) else SetItems(s, Split(text, ','))
  }

  lemma {:induction false} PanicsOnEmptyItem(s: State, items: seq<string>)
    ensures SetItems(s, items).Panicked? <==> "" in items
  {
    if items != [] {
      assert items == [items[0]] + items[1..];
      if items[0] != "" { PanicsOnEmptyItem(SetItem(s, items[0]).0, items[1..]); }
    }
  }

  predicate DoubledComma(text: string) {
    exists i :: 0 <= i < |text| - 1 && text[i] == ',' && text[i + 1] == ','
  }

  /** There is nothing between two commas, or between a comma and an end of the text. */
  predicate StrayComma(text: string) {
    && text != ""
    && (text[0] == ',' || text[|text| - 1] == ',' || DoubledComma(text))
  }

  lemma SplitUnfolded(text: string)
    ensures var i := Index(text, ',');
      "" in Split(text, ',') <==> if i < 0 then text == "" else i == 0 || "" in Split(text[i + 1..], ',')
  {
    hide IndexFrom;
  }

  lemma {:induction false} EmptyPart(text: string)
    ensures "" in Split(text, ',') <==> text == "" || StrayComma(text)
    decreases |text|
  {
    hide Split, Index, StrayComma;
    var i := Index(text, ',');
    SplitUnfolded(text);
    if i < 0 {
      assert ',' !in text;
      NoStray(text);
    } else {
      EmptyPart(text[i + 1..]);
      StrayInRest(text, i);
    }
  }

  lemma StrayInRest(text: string, i: nat)
    requires i < |text| && text[i] == ',' && forall k :: 0 <= k < i ==> text[k] != ','
    ensures var rest := text[i + 1..]; StrayComma(text) <==> i == 0 || rest == "" || StrayComma(rest)
  {
    var rest := text[i + 1..];
    assert forall k :: 0 <= k < |rest| ==> rest[k] == text[i + 1 + k];
    if rest != "" {
      if rest[0] == ',' { assert text[i] == ',' && text[i + 1] == ','; }
      if k :| 0 <= k < |rest| - 1 && rest[k] == ',' && rest[k + 1] == ',' {
        assert text[i + 1 + k] == ',' && text[i + 1 + k + 1] == ',';
      }
      if k :| 0 <= k < |text| - 1 && text[k] == ',' && text[k + 1] == ',' && k > i {
        assert rest[k - i - 1] == ',' && rest[k - i - 1 + 1] == ',';
      }
    }
  }

  /** Applying a flag panics iff its text has a leading, trailing or doubled comma. */
  lemma FlagPanicsIff(s: State, text: string)
    ensures FlagSet(s, text).Panicked? <==> StrayComma(text)
  {
    hide Split, SetItems, StrayComma;
    if text != "" {
      PanicsOnEmptyItem(s, Split(text, ','));
      EmptyPart(text);
    } else {
      NoStray(text);
    }
  }

  lemma NoStray(text: string)
    requires ',' !in text
    ensures !StrayComma(text)
  {
  }

  ghost predicate SameGates(a: State, b: State) {
    a.Keys == b.Keys && forall id :: id in a ==> a[id].stage == b[id].stage
  }

  /** `s` with the enablement of `r` for the listed gates. */
  function Copied(s: State, r: State, ids: seq<string>): State {
    map id | id in s :: if id in ids && id in r then r[id] else s[id]
  }

  lemma SetPrinted(s: State, r: State, id: string)
    requires Ok(s) && Ok(r) && SameGates(s, r) && id in s
    ensures Item(r, id) != "" && SetItem(s, Item(r, id)) == (s[id := r[id]], None)
  {
    var item := Item(r, id);
    assert id[0] in id && IdChar(id[0]);
    if r[id].enabled {
      assert item == id;
    } else {
      assert item[0] == '-' && item[1..] == id;
    }
    assert s[id := r[id]] ==
      if s[id].stage.Stable? || s[id].stage.Deprecated? then s else s[id := s[id].(enabled := r[id].enabled)];
  }

  /** Applying printed items one after the other copies the enablement of each gate, without an error. */
  lemma {:induction false} SetPrintedItems(s: State, r: State, ids: seq<string>)
    requires Ok(s) && Ok(r) && SameGates(s, r) && forall id :: id in ids ==> id in s
    ensures SetItems(s, Items(r, ids)) == Done(Copied(s, r, ids), [])
    decreases |ids|
  {
    hide SetItem, Item;
    if ids == [] {
      assert Copied(s, r, []) == s;
    } else {
      assert ids == [ids[0]] + ids[1..];
      SetPrinted(s, r, ids[0]);
      var s1 := s[ids[0] := r[ids[0]]];
      SetPrintedItems(s1, r, ids[1..]);
      assert Items(r, ids)[1..] == Items(r, ids[1..]);
      assert Copied(s1, r, ids[1..]) == Copied(s, r, ids);
    }
  }

  lemma {:induction false} ItemsHoldNoComma(r: State, ids: seq<string>)
    requires Ok(r) && forall id :: id in ids ==> id in r
    ensures forall item :: item in Items(r, ids) ==> ',' !in item && item != ""
  {
    if ids != [] {
      ItemsHoldNoComma(r, ids[1..]);
      var id := ids[0];
      assert id in ids && id in r && ValidId(id);
      forall c | c in id ensures c != ',' { assert IdChar(c); }
    }
  }

  /**
   The flag round trip: applying the printed flag of `r` to a registry with the same gates
   succeeds without an error and makes it equal to `r`.
   */
  lemma FlagRoundTrip(s: State, r: State, order: seq<string>)
    requires Ok(s) && Ok(r) && SameGates(s, r) && Enumerates(order, r)
    ensures FlagSet(s, FlagString(r, order)) == Done(r, [])
  {
    hide Sort, Leq, Split, SetItems, Items, ValidId;
    var ids := Sort(order, Leq);
    SortedKeys(order, r);
    var items := Items(r, ids);
    ItemsHoldNoComma(r, ids);
    if ids == [] {
      assert s.Keys == {} && r.Keys == {};
      assert s == r;
    } else {
      assert items != [] && items[0] in items;
      SplitJoin(items, ',');
      SetPrintedItems(s, r, ids);
      assert forall id :: id in s ==> id in ids;
      assert Copied(s, r, ids) == r;
    }
  }
}
