/**
 Which answer each registration and each setting of a feature gate gets, and what a flag does item
 by item.
 */
module GateOutcomes {
  import opened Options
  import opened Text
  import opened FeatureGates

  /** The characters an identifier may hold: letters, digits and dots. */
  ghost predicate WellFormed(id: string) {
    forall c :: c in id ==> 'a' <= c <= 'z' || 'A' <= c <= 'Z' || '0' <= c <= '9' || c == '.'
  }

  ghost predicate NeedsRemoval(stage: Stage) { stage == Stable || stage == Deprecated }

  /**
   Registering: the first thing that speaks against it is the error, in this order, and then nothing
   changes; otherwise the gate is added, on in the stages Beta and Stable.
   */
  lemma RegisterIs(s: State, id: string, stage: Stage, opts: RegisterOptions)
    ensures var (s', error) := Register(s, id, stage, opts);
      && (error == Some(EmptyId) <==> id == "")
      && (error == Some(InvalidId) <==> id != "" && !WellFormed(id))
      && (error == Some(OptionFailed) <==> id != "" && WellFormed(id) && opts.fail)
      && (error == Some(UnknownStage) <==> id != "" && WellFormed(id) && !opts.fail && stage == Unknown)
      && (error == Some(NoRemovalVersion) <==>
            id != "" && WellFormed(id) && !opts.fail && NeedsRemoval(stage) && !opts.hasToVersion)
      && (error == Some(RemovedBeforeAdded) <==>
            id != "" && WellFormed(id) && !opts.fail && stage != Unknown && opts.hasToVersion && opts.toBeforeFrom)
      && (error == Some(AlreadyRegistered) <==> Admissible(RegisterOp(id, stage, opts), id) && id in s)
      && (error == None <==> Admissible(RegisterOp(id, stage, opts), id) && id !in s)
      && s' == if error == None then s[id := GateState(stage, stage == Beta || stage == Stable)] else s
  {
    assert ValidId(id) <==> id != "" && WellFormed(id) by {
      forall c ensures IdChar(c) <==> 'a' <= c <= 'z' || 'A' <= c <= 'Z' || '0' <= c <= '9' || c == '.' {}
    }
    hide ValidId, WellFormed;
  }

  /** What setting a gate does: only those in the stages Alpha and Beta can be switched. */
  ghost predicate Switches(s: State, id: string, enabled: bool, s': State, error: Option<Error>) {
    if id !in s then s' == s && error == Some(NoSuchGate)
    else if s[id].stage == Stable then s' == s && error == if enabled then None else Some(StableCannotBeDisabled)
    else if s[id].stage == Deprecated then s' == s && error == if enabled then Some(DeprecatedCannotBeEnabled) else None
    else s' == s[id := GateState(s[id].stage, enabled)] && error == None
  }

  lemma SetIs(s: State, id: string, enabled: bool)
    ensures Switches(s, id, enabled, Set(s, id, enabled).0, Set(s, id, enabled).1)
  {
  }

  // ---- the flag ----

  /** An item names a gate, with a minus in front to switch it off, and with or without a plus to switch it on. */
  ghost predicate ItemAsks(item: string, id: string, enabled: bool) {
    || (item == "-" + id && !enabled)
    || (item == "+" + id && enabled)
    || (item == id && enabled && (id == "" || id[0] !in {'-', '+'}))
  }

  ghost predicate ItemDoes(item: string, s: State, s': State, error: Option<Error>) {
    exists id, enabled :: ItemAsks(item, id, enabled) && Switches(s, id, enabled, s', error)
  }

  lemma SetItemIs(s: State, item: string)
    requires item != ""
    ensures ItemDoes(item, s, SetItem(s, item).0, SetItem(s, item).1)
  {
    hide Set;
    var enabled := item[0] != '-';
    var id := if item[0] in {'-', '+'} then item[1..] else item;
    assert item[0] in {'-', '+'} ==> item == [item[0]] + id;
    assert ItemAsks(item, id, enabled);
    SetIs(s, id, enabled);
  }

  /** The first `k` items are applied one after the other. */
  ghost predicate Applied(items: seq<string>, k: nat, states: seq<State>, errors: seq<Option<Error>>) {
    && k <= |items| && |states| == k + 1 && |errors| == k
    && forall j :: 0 <= j < k ==> items[j] != "" && ItemDoes(items[j], states[j], states[j + 1], errors[j])
  }

  /** The errors among these. */
  function Errors(errors: seq<Option<Error>>): seq<Error> {
    if errors == [] then []
    else (if errors[0].Some? then [errors[0].value] else []) + Errors(errors[1..])
  }

  lemma AppliedCons(
      item: string, items: seq<string>, s: State, error: Option<Error>, k: nat, states: seq<State>,
      errors: seq<Option<Error>>)
    requires item != "" && Applied(items, k, states, errors) && ItemDoes(item, s, states[0], error)
    ensures Applied([item] + items, k + 1, [s] + states, [error] + errors)
  {
    hide ItemDoes;
    var items', states', errors' := [item] + items, [s] + states, [error] + errors;
    forall j | 0 <= j < k + 1
      ensures items'[j] != "" && ItemDoes(items'[j], states'[j], states'[j + 1], errors'[j])
    {
      if j > 0 { assert ItemDoes(items[j - 1], states[j - 1], states[j - 1 + 1], errors[j - 1]); }
    }
  }

  lemma {:induction false} SetItemsIs(s: State, items: seq<string>)
      returns (k: nat, states: seq<State>, errors: seq<Option<Error>>)
    ensures Applied(items, k, states, errors) && states[0] == s
    ensures if k < |items| then items[k] == "" && SetItems(s, items) == Panicked(states[k])
      else SetItems(s, items) == FlagResult.Done(states[k], Errors(errors))
    decreases |items|
  {
    hide SetItem, ItemDoes;
    k, states, errors := 0, [s], [];
    if items != [] && items[0] != "" {
      var (s1, error) := SetItem(s, items[0]);
      SetItemIs(s, items[0]);
      k, states, errors := SetItemsIs(s1, items[1..]);
      assert items == [items[0]] + items[1..];
      AppliedCons(items[0], items[1..], s, error, k, states, errors);
      assert ([error] + errors)[1..] == errors;
      k, states, errors := k + 1, [s] + states, [error] + errors;
    }
  }

  /**
   A flag, item by item: its text is cut at the commas and the items are applied in order, each as
   setting the gate it names, and errors do not stop the ones after it; an empty item makes the
   program panic, with those before it applied.
   */
  lemma FlagIs(s: State, text: string)
      returns (items: seq<string>, k: nat, states: seq<State>, errors: seq<Option<Error>>)
    ensures Join(items, ',') == text && (text == "" <==> items == []) && forall item :: item in items ==> ',' !in item
    ensures Applied(items, k, states, errors) && states[0] == s
    ensures if k < |items| then items[k] == "" && FlagSet(s, text) == Panicked(states[k])
      else FlagSet(s, text) == FlagResult.Done(states[k], Errors(errors))
  {
    hide Split, SetItems;
    if text == "" {
      items, k, states, errors := [], 0, [s], [];
    } else {
      items := Split(text, ',');
      JoinSplit(text, ',');
      k, states, errors := SetItemsIs(s, items);
    }
  }
}
