/** The raw document tree the engine consumes: a DOM node with a type code, a name and its
    child nodes in document order. */
module RawTree {

  datatype RawNode = RawNode(nodeType: nat, nodeName: string, childNodes: seq<RawNode>)

  /** Number of nodes in the raw tree rooted at `raw`. */
  function RawSize(raw: RawNode): (n: nat)
    ensures n >= 1
    decreases raw
  {
    1 + RawForestSize(raw.childNodes)
  }

  /** Number of nodes in a sequence of raw trees. */
  function RawForestSize(raws: seq<RawNode>): nat
    decreases raws
  {
    if raws == [] then 0 else RawSize(raws[0]) + RawForestSize(raws[1..])
  }
}
