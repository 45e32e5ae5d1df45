/**
 Configuration values: what a YAML document decodes to, plus the pair of a parsed value and
 its original text that the expansion of a reference leaves behind.
 */
module ConfTree {
  import opened Text

  /** A map is the list of its entries in the order in which an iteration happens to visit them. */
  datatype Value =
    | Null
    | Scalar(id: int)
    | Str(text: string)
    | List(items: seq<Value>)
    | Map(entries: seq<Entry>)
    | Expanded(value: Value, original: string)

  datatype Entry = Entry(key: string, value: Value)

  /** No pair holds a string or another pair as its parsed value. Plain documents hold no pair at all. */
  ghost predicate Settled(v: Value) {
    match v
    case List(items) => forall x :: x in items ==> Settled(x)
    case Map(entries) => forall e :: e in entries ==> Settled(e.value)
    case Expanded(x, _) => !x.Str? && !x.Expanded? && Settled(x)
    case _ => true
  }

  /** The closing brackets of all strings of a value, originals included. */
  function Brackets(v: Value): nat {
    match v
    case Str(s) => Count(s, '}')
    case List(items) => BracketsOfItems(items)
    case Map(entries) => BracketsOfEntries(entries)
    case Expanded(x, original) => Brackets(x) + Count(original, '}')
    case _ => 0
  }

  function BracketsOfItems(items: seq<Value>): nat {
    if items == [] then 0 else Brackets(items[0]) + BracketsOfItems(items[1..])
  }

  function BracketsOfEntries(entries: seq<Entry>): nat {
    if entries == [] then 0 else Brackets(entries[0].value) + BracketsOfEntries(entries[1..])
  }
}
