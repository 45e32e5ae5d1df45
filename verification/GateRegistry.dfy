/**
 The registry as an object that owns gates, each with a switch that is set in place.
 */
module GateRegistry {
  import opened Options
  import opened Text
  import opened Sorting
  import opened FeatureGates

  class Gate {
    const id: string
    const stage: Stage
    var enabled: bool

    constructor (id: string, stage: Stage, enabled: bool)
      ensures this.id == id && this.stage == stage && this.enabled == enabled
    {
      this.id, this.stage, this.enabled := id, stage, enabled;
    }
  }

  class Registry {
    var gates: map<string, Gate>

    ghost predicate Valid()
      reads this, gates.Values
    {
      forall id :: id in gates ==> gates[id].id == id
    }

    ghost function S(): State
      reads this, gates.Values
    {
      map id | id in gates :: GateState(gates[id].stage, gates[id].enabled)
    }

    constructor ()
      ensures Valid() && S() == map[] && Ok(S())
    {
      gates := map[];
    }

    /** `Register`: an identifier that is taken keeps the gate it has. */
    method RegisterGate(id: string, stage: Stage, opts: RegisterOptions) returns (g: Gate?, error: Option<Error>)
      requires Valid()
      modifies this
      ensures Valid()
      ensures (S(), error) == Register(old(S()), id, stage, opts)
      ensures error.None? ==> g != null && fresh(g) && gates == old(gates)[id := g]
      ensures error.Some? ==> g == null && gates == old(gates)
    {
      hide ValidId;
      g, error := null, Refusal(id, stage, opts);
      if error.Some? {
        return;
      }
      if id in gates {
        return null, Some(AlreadyRegistered);
      }
      g := new Gate(id, stage, stage.Beta? || stage.Stable?);
      gates := gates[id := g];
      assert S() == old(S())[id := GateState(stage, g.enabled)];
    }

    /** `Set`: only the switch of the named gate can change. */
    method SetGate(id: string, enabled: bool) returns (error: Option<Error>)
      requires Valid()
      modifies gates.Values
      ensures Valid() && gates == old(gates)
      ensures (S(), error) == Set(old(S()), id, enabled)
    {
      if id !in gates {
        return Some(NoSuchGate);
      }
      var g := gates[id];
      match g.stage {
        case Stable =>
          if !enabled {
            return Some(StableCannotBeDisabled);
          }
        case Deprecated =>
          if enabled {
            return Some(DeprecatedCannotBeEnabled);
          }
        case _ =>
          g.enabled := enabled;
          assert S() == old(S())[id := old(S())[id].(enabled := enabled)];
      }
      error := None;
    }

    /** `VisitAll`: collect the gates in whatever order the map yields them, and sort by identifier. */
    method VisitAll() returns (ids: seq<string>)
      requires Valid()
      ensures Enumerates(ids, S()) && Sorted(ids, Leq)
    {
      hide Sort, Leq, Sorted;
      var keys, collected := gates.Keys, [];
      while keys != {}
        invariant keys <= gates.Keys
        invariant (set id | id in collected) == gates.Keys - keys
        invariant forall i, j :: 0 <= i < j < |collected| ==> collected[i] != collected[j]
        decreases keys
      {
        var id :| id in keys;
        assert id !in (set x | x in collected);
        assert (set x | x in collected + [id]) == (set x | x in collected) + {id};
        keys := keys - {id};
        collected := collected + [id];
      }
      SortedKeys(collected, S());
      StringOrder();
      SortSorts(collected, Leq);
      ids := Sort(collected, Leq);
    }

    /** `flagValue.String`: the printed flag, which is the same for every order of the map. */
    method PrintFlag() returns (text: string)
      requires Valid()
      ensures forall order :: Enumerates(order, S()) ==> text == FlagString(S(), order)
    {
      hide Sort, Leq, Sorted;
      var ids := VisitAll();
      var items: seq<string> := [];
      ghost var s := S();
      for i := 0 to |ids|
        invariant S() == s
        invariant items + Items(s, ids[i..]) == Items(s, ids)
      {
        assert ids[i..][0] == ids[i] && ids[i..][1..] == ids[i + 1..];
        assert ids[i] in s;
        var item := if gates[ids[i]].enabled then ids[i] else "-" + ids[i];
        assert items + ([item] + Items(s, ids[i + 1..])) == items + [item] + Items(s, ids[i + 1..]);
        items := items + [item];
      }
      assert ids[|ids|..] == [] && items + [] == items;
      text := Join(items, ',');
      SortedIsFlag(s, ids);
    }

    /** `flagValue.Set`: the items one after the other, errors collected; `None` stands for the panic. */
    method ApplyFlag(text: string) returns (errors: Option<seq<Error>>)
      requires Valid()
      modifies gates.Values
      ensures Valid() && gates == old(gates)
      ensures (if errors.Some? then Done(S(), errors.value) else Panicked(S())) == FlagSet(old(S()), text)
    {
      hide Split, Set, Valid;
      if text == "" {
        return Some([]);
      }
      var items := Split(text, ',');
      var collected: seq<Error> := [];
      for i := 0 to |items|
        invariant Valid() && gates == old(gates)
        invariant SetItems(old(S()), items) == Prefixed(collected, SetItems(S(), items[i..]))
      {
        assert items[i..][0] == items[i] && items[i..][1..] == items[i + 1..];
        var item := items[i];
        if item == "" {
          return None;
        }
        var id, val := item, true;
        if item[0] == '-' {
          id, val := item[1..], false;
        } else if item[0] == '+' {
          id := item[1..];
        }
        var error := SetGate(id, val);
        PrefixedTwice(collected, error, SetItems(S(), items[i + 1..]));
        if error.Some? {
          collected := collected + [error.value];
        }
      }
      assert items[|items|..] == [] && collected + [] == collected;
      errors := Some(collected);
    }
  }

  /** A sorted enumeration of the gates is printed as the flag. */
  lemma SortedIsFlag(s: State, ids: seq<string>)
    requires Enumerates(ids, s) && Sorted(ids, Leq)
    ensures forall order :: Enumerates(order, s) ==> FlagString(s, order) == Join(Items(s, ids), ',')
  {
    hide Sort, Leq, Join, Items;
    StringOrder();
    StringsAntisymmetric(Sort(ids, Leq));
    SortSorts(ids, Leq);
    SortElements(ids, Leq);
    SortedIsUnique(Sort(ids, Leq), ids, Leq);
    forall order | Enumerates(order, s) ensures FlagString(s, order) == Join(Items(s, ids), ',') {
      FlagStringIsUnique(s, order, ids);
    }
  }

  ghost function Prefixed(errors: seq<Error>, r: FlagResult): FlagResult {
    if r.Panicked? then r else Done(r.state, errors + r.errors)
  }

  lemma PrefixedTwice(errors: seq<Error>, e: Option<Error>, r: FlagResult)
    ensures var later := if r.Panicked? then r else Done(r.state, (if e.Some? then [e.value] else []) + r.errors);
      Prefixed(errors, later) == Prefixed(if e.Some? then errors + [e.value] else errors, r)
  {
    if r.Done? {
      if e.Some? {
        assert errors + ([e.value] + r.errors) == errors + [e.value] + r.errors;
      } else {
        assert [] + r.errors == r.errors;
      }
    }
  }
}
