/** The parsed settings document: a tree of scalars, lists and mappings.
    A mapping keeps its entries in document order, as a Python dict does. */
module Document {

  datatype Node =
    | Str(text: string)
    | Int(value: int)
    | Flt                       // a float; its value is never inspected
    | Bool(flag: bool)
    | Null
    | List(items: seq<Node>)
    | Map(entries: seq<(string, Node)>)

  /** Size measures used for termination of the tree walks. */
  function NodeSize(n: Node): nat {
    match n
    case List(items) => 1 + ItemsSize(items)
    case Map(es) => 1 + EntriesSize(es)
    case _ => 1
  }

  function ItemsSize(items: seq<Node>): nat {
    if items == [] then 0 else NodeSize(items[0]) + ItemsSize(items[1..])
  }

  function EntriesSize(es: seq<(string, Node)>): nat {
    if es == [] then 0
    else
      EntrySize(es[0]) + EntriesSize(es[1..])
  }

  function EntrySize(e: (string, Node)): (r: nat)
    ensures r > NodeSize(e.1)
  {
    1 + NodeSize(e.1)
  }

  /** Every entry's value is strictly smaller than the mapping it sits in,
      and a suffix of a mapping is no larger than the mapping. */
  lemma {:induction false} EntrySmaller(es: seq<(string, Node)>, i: nat)
    requires i < |es|
    ensures NodeSize(es[i].1) < EntriesSize(es)
    ensures EntriesSize(es[i..]) <= EntriesSize(es)
  {
    if i > 0 {
      EntrySmaller(es[1..], i - 1);
      assert es[1..][i - 1] == es[i];
      assert es[1..][i - 1..] == es[i..];
    }
  }

  /** The YAML loader's comment-carrying maps and lists, converted to plain ones.
      In this model the tree already holds plain values, so the conversion is the identity. */
  function Normalize(n: Node): (r: Node)
    ensures r == n
    decreases NodeSize(n), 0
  {
    match n
    case List(items) => List(NormalizeItems(items))
    case Map(es) => Map(NormalizeEntries(es))
    case _ => n
  }

  function NormalizeItems(items: seq<Node>): (r: seq<Node>)
    ensures r == items
    decreases ItemsSize(items), 1
  {
    if items == [] then [] else [Normalize(items[0])] + NormalizeItems(items[1..])
  }

  function NormalizeEntries(es: seq<(string, Node)>): (r: seq<(string, Node)>)
    ensures r == es
    decreases EntriesSize(es), 1
  {
    if es == [] then [] else [(es[0].0, Normalize(es[0].1))] + NormalizeEntries(es[1..])
  }
}
