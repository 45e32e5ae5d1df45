/**
 Redaction as the program performs it: the maps and slices of the raw configuration are nodes of
 a tree that is overwritten in place, and the result is what masking the value gives.
 */
module RedactionInPlace {
  import opened Options
  import opened ConfTree
  import opened Redaction

  /** A raw value: a leaf, or a reference to a map or a slice. */
  datatype Any = Leaf(value: Value) | Ref(node: Node)

  ghost function Footprint(v: Any): set<Node> {
    if v.Leaf? then {} else v.node.Repr
  }

  ghost function Footprints(vs: seq<Any>): set<Node> {
    if vs == [] then {} else Footprint(vs[0]) + Footprints(vs[1..])
  }

  /** The value that a raw value stands for. */
  ghost function View(v: Any): Value
    reads if v.Leaf? then {} else {v.node}
  {
    if v.Leaf? then v.value else v.node.view
  }

  /** The storage of a map, with one element for each key, or of a slice. */
  class Node {
    const isMap: bool
    const keys: seq<string>
    var elems: seq<Any>
    ghost const Repr: set<Node>
    ghost var view: Value

    constructor (isMap: bool, keys: seq<string>, elems: seq<Any>, ghost view: Value)
      requires Forest(elems)
      requires if isMap then view.Map? && |view.entries| == |elems| == |keys| else view.List? && |view.items| == |elems|
      requires forall i :: 0 <= i < |elems| ==>
        if isMap then view.entries[i] == Entry(keys[i], View(elems[i])) else view.items[i] == View(elems[i])
      ensures Valid() && Repr == {this} + Footprints(elems) && this.isMap == isMap && this.view == view
    {
      forall i | 0 <= i < |elems| ensures Footprint(elems[i]) <= Footprints(elems) && Good(elems[i]) {
        InForest(elems, i);
      }
      forall i, j | 0 <= i < j < |elems| ensures Footprint(elems[i]) !! Footprint(elems[j]) {
        ApartInForest(elems, i, j);
      }
      hide Footprints, Forest;
      this.isMap, this.keys, this.elems, this.view := isMap, keys, elems, view;
      this.Repr := {this} + Footprints(elems);
      new;
      assert Shaped();
      forall i | 0 <= i < |elems| ensures ElemValid(i) && ShowsAt(i) {
        assert old(Good(elems[i]));
      }
    }

    /** Below every element is a tree of its own, none of these trees overlap, and `view` is what is stored. */
    ghost predicate Valid()
      reads this, Repr
      decreases Repr, 1
    {
      Shaped() && forall i :: 0 <= i < |elems| ==> ElemValid(i) && ShowsAt(i)
    }

    /** What does not look below the elements. */
    ghost predicate Shaped()
      reads this
    {
      && this in Repr
      && (if isMap then view.Map? && |view.entries| == |elems| == |keys| else view.List? && |view.items| == |elems|)
      && (forall i :: 0 <= i < |elems| ==> Footprint(elems[i]) <= Repr - {this})
      && (forall i, j :: 0 <= i < j < |elems| ==> Footprint(elems[i]) !! Footprint(elems[j]))
    }

    ghost predicate ElemValid(i: nat)
      requires i < |elems| && Footprint(elems[i]) <= Repr - {this} && this in Repr
      reads this, Repr
      decreases Repr, 0
    {
      match elems[i]
      case Leaf(v) => !v.Map? && !v.List?
      case Ref(n) => n in Repr && n in n.Repr && n.Valid()
    }

    ghost predicate ShowsAt(i: nat)
      requires i < |elems| && Shaped()
      reads this, Repr
    {
      (elems[i].Ref? ==> elems[i].node in Repr) &&
      if isMap then view.entries[i] == Entry(keys[i], View(elems[i])) else view.items[i] == View(elems[i])
    }
  }

  ghost predicate Good(v: Any)
    reads Footprint(v)
  {
    if v.Leaf? then !v.value.Map? && !v.value.List? else v.node in v.node.Repr && v.node.Valid()
  }

  /** Separate trees, one next to the other. */
  ghost predicate Forest(elems: seq<Any>)
    reads Footprints(elems)
  {
    elems == [] || (Good(elems[0]) && Footprint(elems[0]) !! Footprints(elems[1..]) && Forest(elems[1..]))
  }

  lemma {:induction false} InForest(elems: seq<Any>, i: nat)
    requires i < |elems|
    ensures Footprint(elems[i]) <= Footprints(elems)
    ensures Forest(elems) ==> Good(elems[i])
  {
    if i > 0 { InForest(elems[1..], i - 1); }
  }

  lemma {:induction false} ApartInForest(elems: seq<Any>, i: nat, j: nat)
    requires i < j < |elems| && Forest(elems)
    ensures Footprint(elems[i]) !! Footprint(elems[j])
  {
    if i > 0 { ApartInForest(elems[1..], i - 1, j - 1); } else { InForest(elems[1..], j - 1); }
  }

  lemma ForestCons(e: Any, rest: seq<Any>)
    requires Good(e) && Forest(rest) && Footprint(e) !! Footprints(rest)
    ensures Forest([e] + rest) && Footprints([e] + rest) == Footprint(e) + Footprints(rest)
  {
    assert ([e] + rest)[1..] == rest;
  }

  /** `applyMask`: whatever is overwritten lies below the raw value, and the result is that value or the mask. */
  method Mask(raw: Any, redacted: Value) returns (r: Any)
    requires Good(raw)
    modifies Footprint(raw)
    ensures r == raw || r == Leaf(Str(MASK))
    ensures Good(r) && View(r) == ApplyMask(old(View(raw)), redacted)
    decreases Footprint(raw), 2
  {
    hide IsReference, MaskEntries, MaskItems;
    match redacted {
      case Map(redVal) =>
        if raw.Ref? && raw.node.isMap {
          MaskMap(raw.node, redVal);
        }
      case List(redVal) =>
        if raw.Ref? && !raw.node.isMap {
          MaskSlice(raw.node, redVal);
        }
      case Str(redVal) =>
        if redVal == MASK && !(raw.Leaf? && Exempt(raw.value)) {
          return Leaf(Str(MASK));
        }
      case _ =>
    }
    r := raw;
  }

  /** Put a value in the place of an element from which it was made. */
  method Store(m: Node, i: nat, r: Any)
    requires m.Shaped() && i < |m.elems|
    requires forall j :: 0 <= j < |m.elems| && j != i ==> m.ElemValid(j) && m.ShowsAt(j)
    requires Good(r) && Footprint(r) <= Footprint(m.elems[i])
    modifies m
    ensures m.Valid() && m.elems == old(m.elems)[i := r]
    ensures m.isMap ==> m.view.entries == old(m.view.entries)[i := Entry(m.keys[i], old(View(r)))]
    ensures !m.isMap ==> m.view.items == old(m.view.items)[i := old(View(r))]
  {
    m.elems := m.elems[i := r];
    m.view := if m.isMap then Map(m.view.entries[i := Entry(m.keys[i], View(r))]) else List(m.view.items[i := View(r)]);
    assert forall j :: 0 <= j < |m.elems| ==> m.elems[j] == if j == i then r else old(m.elems)[j];
    assert m.Shaped();
    forall j | 0 <= j < |m.elems| ensures m.ElemValid(j) && m.ShowsAt(j) {
      if j != i { assert old(m.ElemValid(j) && m.ShowsAt(j)); }
    }
  }

  /** Overwrite one element of a map or slice; all others stay. */
  method MaskElem(m: Node, i: nat, redacted: Value)
    requires m.Valid() && i < |m.elems|
    modifies m.Repr
    ensures m.Valid() && |m.elems| == old(|m.elems|)
    ensures m.isMap ==>
      m.view.entries == old(m.view.entries)[i := Entry(m.keys[i], ApplyMask(old(m.view.entries[i].value), redacted))]
    ensures !m.isMap ==> m.view.items == old(m.view.items)[i := ApplyMask(old(m.view.items[i]), redacted)]
    decreases m.Repr, 0
  {
    hide ApplyMask;
    assert m.ElemValid(i) && m.ShowsAt(i);
    assert forall j :: 0 <= j < |m.elems| ==> m.ElemValid(j) && m.ShowsAt(j);
    var r := Mask(m.elems[i], redacted);
    forall j | 0 <= j < |m.elems| && j != i ensures m.ElemValid(j) && m.ShowsAt(j) {
      assert Footprint(m.elems[j]) !! Footprint(m.elems[i]);
      assert old(m.ElemValid(j) && m.ShowsAt(j));
    }
    Store(m, i, r);
  }

  /** The loop over the entries of a raw map that overwrites those the view has too. */
  method MaskMap(m: Node, redVal: seq<Entry>)
    requires m.Valid() && m.isMap
    modifies m.Repr
    ensures m.Valid() && m.view == Map(MaskEntries(old(m.view.entries), redVal))
    decreases m.Repr, 1
  {
    hide ApplyMask, Find, MaskEntries;
    ghost var raw := m.view.entries;
    EntryMasked(raw, redVal);
    forall j | 0 <= j < |raw| ensures m.keys[j] == raw[j].key {
      assert m.ShowsAt(j);
    }
    for k := 0 to |m.elems|
      invariant m.Valid() && |m.elems| == |raw|
      invariant forall j :: 0 <= j < k ==> m.view.entries[j] == MaskEntries(raw, redVal)[j]
      invariant forall j :: k <= j < |raw| ==> m.view.entries[j] == raw[j]
    {
      var redMapVal := Find(redVal, m.keys[k]);
      assert m.keys[k] == raw[k].key && MaskEntries(raw, redVal)[k] == MaskedEntry(raw[k], redVal);
      if redMapVal.Some? {
        MaskElem(m, k, redMapVal.value);
      }
    }
  }

  /** The loop over the indices that both lists have. */
  method MaskSlice(m: Node, redVal: seq<Value>)
    requires m.Valid() && !m.isMap
    modifies m.Repr
    ensures m.Valid() && m.view == List(MaskItems(old(m.view.items), redVal))
    decreases m.Repr, 1
  {
    hide ApplyMask, MaskItems;
    ghost var raw := m.view.items;
    ItemsMasked(raw, redVal);
    var n := if |m.elems| < |redVal| then |m.elems| else |redVal|;
    for i := 0 to n
      invariant m.Valid() && |m.elems| == |raw|
      invariant forall j :: 0 <= j < i ==> m.view.items[j] == MaskItems(raw, redVal)[j]
      invariant forall j :: i <= j < |raw| ==> m.view.items[j] == raw[j]
    {
      MaskElem(m, i, redVal[i]);
    }
  }

  /** `redactByMirroring`: an absent view leaves the configuration as it is. */
  method RedactConf(raw: Option<Any>, redacted: Option<Value>) returns (r: Option<Any>)
    requires raw.Some? ==> Good(raw.value)
    modifies if raw.Some? then Footprint(raw.value) else {}
    ensures r.Some? ==> Good(r.value)
    ensures Shown(r) == RedactByMirroring(old(Shown(raw)), redacted)
  {
    if raw.None? || redacted.None? {
      return raw;
    }
    var masked := Mask(raw.value, redacted.value);
    r := Some(masked);
  }

  ghost function Shown(v: Option<Any>): Option<Value>
    reads if v.Some? && v.value.Ref? then {v.value.node} else {}
  {
    if v.None? then None else Some(View(v.value))
  }

  /** Every value can be stored, in storage of its own. */
  method Build(v: Value) returns (r: Any)
    ensures Good(r) && View(r) == v && fresh(Footprint(r))
    decreases v
  {
    match v {
      case Map(entries) =>
        var elems := BuildEntries(entries);
        var m := new Node(true, seq(|entries|, i requires 0 <= i < |entries| => entries[i].key), elems, v);
        r := Ref(m);
      case List(items) =>
        var elems := BuildItems(items);
        var m := new Node(false, [], elems, v);
        r := Ref(m);
      case _ =>
        r := Leaf(v);
    }
  }

  method BuildItems(items: seq<Value>) returns (elems: seq<Any>)
    ensures Forest(elems) && fresh(Footprints(elems))
    ensures |elems| == |items| && forall i :: 0 <= i < |items| ==> View(elems[i]) == items[i]
    decreases items
  {
    elems := [];
    if items != [] {
      var e := Build(items[0]);
      var rest := BuildItems(items[1..]);
      hide Forest, Footprints;
      ForestCons(e, rest);
      elems := [e] + rest;
    }
  }

  method BuildEntries(entries: seq<Entry>) returns (elems: seq<Any>)
    ensures Forest(elems) && fresh(Footprints(elems))
    ensures |elems| == |entries| && forall i :: 0 <= i < |entries| ==> View(elems[i]) == entries[i].value
    decreases entries
  {
    elems := [];
    if entries != [] {
      var e := Build(entries[0].value);
      var rest := BuildEntries(entries[1..]);
      hide Forest, Footprints;
      ForestCons(e, rest);
      elems := [e] + rest;
    }
  }
}
