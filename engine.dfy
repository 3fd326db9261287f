/** The registry of node definitions, the converter from raw trees to semantic trees, and the
    breadth-first whole-tree validator. */
module Engine {
  import opened Wrappers
  import opened RawTree
  import opened ChildrenConstraints
  import opened Nodes
  import opened Validation

  /** "No definition found for <node>". */
  datatype ConvertError = UnmatchedNode(domNode: RawNode)

  // ---------------------------------------------------------------------------
  // Matching

  /** `i` is the earliest registered definition whose matcher accepts `raw`. */
  ghost predicate IsFirstMatch(defs: seq<Definition>, raw: RawNode, i: nat)
  {
    i < |defs| && defs[i].matcher(raw) && forall j :: 0 <= j < i ==> !defs[j].matcher(raw)
  }

  /** Some registered definition accepts `raw`. */
  ghost predicate Matched(defs: seq<Definition>, raw: RawNode)
  {
    exists i :: 0 <= i < |defs| && defs[i].matcher(raw)
  }

  /** `nodeDefinitions.find(def => def.matcher(domNode))`, as the position found. */
  function FindDefinition(defs: seq<Definition>, raw: RawNode): (r: Option<nat>)
    ensures r.Some? ==> IsFirstMatch(defs, raw, r.value)
    ensures r.None? <==> !Matched(defs, raw)
    decreases |defs|
  {
    if defs == [] then None
    else if defs[0].matcher(raw) then Some(0)
    else
      match FindDefinition(defs[1..], raw)
      case None => None
      case Some(i) =>
        assert forall j :: 0 < j <= i ==> defs[j] == defs[1..][j - 1];
        Some(i + 1)
  }

  // ---------------------------------------------------------------------------
  // Conversion

  /** `convert`: pick the first definition that accepts the raw node, then convert its
      children in document order; the first unmatched node aborts the whole conversion. */
  function ConvertNode<C>(defs: seq<Definition>, config: C, raw: RawNode): (r: Result<Node<C>, ConvertError>)
    ensures r.Ok? ==> FindDefinition(defs, raw).Some? && r.value.definition == defs[FindDefinition(defs, raw).value]
    ensures r.Ok? ==> r.value.domNode == raw && r.value.config == config
    ensures r.Ok? ==> |r.value.children| == |raw.childNodes|
    decreases raw
  {
    match FindDefinition(defs, raw)
    case None => Err(UnmatchedNode(raw))
    case Some(i) =>
      match ConvertChildren(defs, config, raw.childNodes)
      case Err(e) => Err(e)
      case Ok(children) => Ok(Node(defs[i], children, raw, config))
  }

  /** `Array.from(domNode.childNodes).map(child => this.convert(child))`. */
  function ConvertChildren<C>(defs: seq<Definition>, config: C, raws: seq<RawNode>): (r: Result<seq<Node<C>>, ConvertError>)
    ensures r.Ok? ==> |r.value| == |raws|
    ensures r.Ok? ==> forall i :: 0 <= i < |raws| ==> ConvertNode(defs, config, raws[i]) == Ok(r.value[i])
    decreases raws
  {
    if raws == [] then Ok([])
    else
      match ConvertNode(defs, config, raws[0])
      case Err(e) => Err(e)
      case Ok(n) =>
        match ConvertChildren(defs, config, raws[1..])
        case Err(e) => Err(e)
        case Ok(ns) =>
          assert forall i :: 0 < i < |raws| ==> raws[i] == raws[1..][i - 1];
          Ok([n] + ns)
  }

  /** The converted tree, described without the converter: every node carries the first
      definition accepting its raw node, that raw node, the shared config, and one child per
      raw child, each converted from the raw child at the same position. */
  ghost predicate ConvertedFrom<C>(defs: seq<Definition>, config: C, n: Node<C>, raw: RawNode)
    decreases raw
  {
    && (exists i: nat :: IsFirstMatch(defs, raw, i) && n.definition == defs[i])
    && n.domNode == raw
    && n.config == config
    && |n.children| == |raw.childNodes|
    && forall i :: 0 <= i < |raw.childNodes| ==> ConvertedFrom(defs, config, n.children[i], raw.childNodes[i])
  }

  lemma FirstMatchUnique(defs: seq<Definition>, raw: RawNode, i: nat, j: nat)
    requires IsFirstMatch(defs, raw, i) && IsFirstMatch(defs, raw, j)
    ensures i == j
  {
  }

  /** A successful conversion yields exactly the tree `ConvertedFrom` describes, and that
      tree is the only one it can yield. */
  lemma {:induction false} ConvertNodeIsConvertedFrom<C>(defs: seq<Definition>, config: C, n: Node<C>, raw: RawNode)
    ensures ConvertNode(defs, config, raw) == Ok(n) <==> ConvertedFrom(defs, config, n, raw)
    decreases raw
  {
    forall i | 0 <= i < |raw.childNodes| && i < |n.children| {
      ConvertNodeIsConvertedFrom(defs, config, n.children[i], raw.childNodes[i]);
    }
    if ConvertedFrom(defs, config, n, raw) {
      var k: nat :| IsFirstMatch(defs, raw, k) && n.definition == defs[k];
      FirstMatchUnique(defs, raw, k, FindDefinition(defs, raw).value);
      ConvertChildrenOfConvertedFrom(defs, config, n.children, raw.childNodes);
      assert n == Node(defs[k], n.children, raw, config);
    }
  }

  lemma {:induction false} ConvertChildrenOfConvertedFrom<C>(defs: seq<Definition>, config: C, ns: seq<Node<C>>, raws: seq<RawNode>)
    requires |ns| == |raws|
    requires forall i :: 0 <= i < |raws| ==> ConvertNode(defs, config, raws[i]) == Ok(ns[i])
    ensures ConvertChildren(defs, config, raws) == Ok(ns)
    decreases raws
  {
    if raws != [] {
      ConvertsPointwiseTail(defs, config, ns, raws);
      ConvertChildrenOfConvertedFrom(defs, config, ns[1..], raws[1..]);
      ConvertChildrenCons(defs, config, raws, ns[0], ns[1..]);
      assert ns == [ns[0]] + ns[1..];
    }
  }

  /** Converting a non-empty sequence: the head's conversion followed by the tail's. */
  lemma ConvertChildrenCons<C>(defs: seq<Definition>, config: C, raws: seq<RawNode>, n: Node<C>, ns: seq<Node<C>>)
    requires raws != []
    requires ConvertNode(defs, config, raws[0]) == Ok(n)
    requires ConvertChildren(defs, config, raws[1..]) == Ok(ns)
    ensures ConvertChildren(defs, config, raws) == Ok([n] + ns)
  {
  }

  /** Pointwise conversion of a sequence carries over to its tail. */
  lemma ConvertsPointwiseTail<C>(defs: seq<Definition>, config: C, ns: seq<Node<C>>, raws: seq<RawNode>)
    requires |ns| == |raws| > 0
    requires forall i :: 0 <= i < |raws| ==> ConvertNode(defs, config, raws[i]) == Ok(ns[i])
    ensures forall i :: 0 <= i < |raws[1..]| ==> ConvertNode(defs, config, raws[1..][i]) == Ok(ns[1..][i])
  {
    forall i | 0 <= i < |raws[1..]|
      ensures ConvertNode(defs, config, raws[1..][i]) == Ok(ns[1..][i])
    {
      assert raws[1..][i] == raws[i + 1];
    }
  }

  /** The raw nodes of the trees in `raws`, in document order. */
  ghost function RawPreorder(raws: seq<RawNode>): seq<RawNode>
    decreases raws
  {
    if raws == [] then [] else [raws[0]] + RawPreorder(raws[0].childNodes) + RawPreorder(raws[1..])
  }

  /** The first raw node in `s` that no definition accepts. */
  ghost function FirstUnmatched(defs: seq<Definition>, s: seq<RawNode>): (r: Option<RawNode>)
    ensures r.None? <==> forall i :: 0 <= i < |s| ==> Matched(defs, s[i])
    ensures r.Some? ==> r.value in s && !Matched(defs, r.value)
    decreases s
  {
    if s == [] then None
    else if !Matched(defs, s[0]) then Some(s[0])
    else
      assert forall i :: 0 < i < |s| ==> s[i] == s[1..][i - 1];
      FirstUnmatched(defs, s[1..])
  }

  lemma {:induction false} FirstUnmatchedAppend(defs: seq<Definition>, a: seq<RawNode>, b: seq<RawNode>)
    ensures FirstUnmatched(defs, a + b)
         == if FirstUnmatched(defs, a).Some? then FirstUnmatched(defs, a) else FirstUnmatched(defs, b)
    decreases a
  {
    if a == [] {
      assert a + b == b;
    } else {
      assert (a + b)[0] == a[0] && (a + b)[1..] == a[1..] + b;
      FirstUnmatchedAppend(defs, a[1..], b);
    }
  }

  /** The node a failed conversion reports, if any. */
  function Unmatched<T>(r: Result<T, ConvertError>): Option<RawNode>
  {
    if r.Err? then Some(r.error.domNode) else None
  }

  /** Conversion fails exactly when some raw node of the tree is unmatched, and then it
      reports the first such node in document order. */
  lemma {:induction false} ConvertReportsFirstUnmatched<C>(defs: seq<Definition>, config: C, raw: RawNode)
    ensures Unmatched(ConvertNode(defs, config, raw)) == FirstUnmatched(defs, RawPreorder([raw]))
    decreases raw, 1
  {
    assert [raw][1..] == [];
    assert RawPreorder([raw]) == [raw] + RawPreorder(raw.childNodes);
    ConvertChildrenReportsFirstUnmatched(defs, config, raw.childNodes);
    assert FirstUnmatched(defs, [raw] + RawPreorder(raw.childNodes)) ==
      if !Matched(defs, raw) then Some(raw) else FirstUnmatched(defs, RawPreorder(raw.childNodes)) by {
      assert ([raw] + RawPreorder(raw.childNodes))[1..] == RawPreorder(raw.childNodes);
    }
  }

  lemma {:induction false} ConvertChildrenReportsFirstUnmatched<C>(defs: seq<Definition>, config: C, raws: seq<RawNode>)
    ensures Unmatched(ConvertChildren(defs, config, raws)) == FirstUnmatched(defs, RawPreorder(raws))
    decreases raws, 0
  {
    if raws != [] {
      ConvertReportsFirstUnmatched(defs, config, raws[0]);
      ConvertChildrenReportsFirstUnmatched(defs, config, raws[1..]);
      assert [raws[0]][1..] == [];
      assert RawPreorder([raws[0]]) == [raws[0]] + RawPreorder(raws[0].childNodes);
      assert RawPreorder(raws) == RawPreorder([raws[0]]) + RawPreorder(raws[1..]);
      FirstUnmatchedAppend(defs, RawPreorder([raws[0]]), RawPreorder(raws[1..]));
    }
  }

  /** Conversion preserves the shape: the semantic tree has as many nodes as the raw tree. */
  lemma {:induction false} ConvertPreservesSize<C>(defs: seq<Definition>, config: C, n: Node<C>, raw: RawNode)
    requires ConvertedFrom(defs, config, n, raw)
    ensures ForestSize([n]) == RawSize(raw)
    decreases raw, 1
  {
    ChildrenPreserveSize(defs, config, n.children, raw.childNodes);
    assert [n][1..] == [];
  }

  lemma {:induction false} ChildrenPreserveSize<C>(defs: seq<Definition>, config: C, ns: seq<Node<C>>, raws: seq<RawNode>)
    requires |ns| == |raws|
    requires forall i :: 0 <= i < |raws| ==> ConvertedFrom(defs, config, ns[i], raws[i])
    ensures ForestSize(ns) == RawForestSize(raws)
    decreases raws, 0
  {
    if raws != [] {
      ConvertPreservesSize(defs, config, ns[0], raws[0]);
      ChildrenPreserveSize(defs, config, ns[1..], raws[1..]);
      assert [ns[0]][1..] == [];
    }
  }

  /** Every node of a converted tree carries the shared config. */
  lemma {:induction false} ConvertedTreeSharesConfig<C>(defs: seq<Definition>, config: C, n: Node<C>, raw: RawNode)
    requires ConvertedFrom(defs, config, n, raw)
    ensures forall d :: d in Preorder([n]) ==> d.config == config
    decreases raw, 1
  {
    PreorderSingle(n);
    ChildrenShareConfig(defs, config, n.children, raw.childNodes);
  }

  lemma {:induction false} ChildrenShareConfig<C>(defs: seq<Definition>, config: C, ns: seq<Node<C>>, raws: seq<RawNode>)
    requires |ns| == |raws|
    requires forall i :: 0 <= i < |raws| ==> ConvertedFrom(defs, config, ns[i], raws[i])
    ensures forall d :: d in Preorder(ns) ==> d.config == config
    decreases raws, 0
  {
    if raws != [] {
      ConvertedTreeSharesConfig(defs, config, ns[0], raws[0]);
      ChildrenShareConfig(defs, config, ns[1..], raws[1..]);
      PreorderSingle(ns[0]);
      assert Preorder(ns) == Preorder([ns[0]]) + Preorder(ns[1..]);
    }
  }

  /** When two registered matchers both accept a node, the one registered first wins. */
  lemma TieBreakFollowsRegistrationOrder<C>(d1: Definition, d2: Definition, config: C, raw: RawNode)
    requires d1.matcher(raw) && d2.matcher(raw)
    ensures ConvertNode([d1, d2], config, raw).Ok? ==> ConvertNode([d1, d2], config, raw).value.definition == d1
    ensures ConvertNode([d2, d1], config, raw).Ok? ==> ConvertNode([d2, d1], config, raw).value.definition == d2
  {
  }

  /** Definitions registered later are never consulted for a node an earlier one accepts:
      a tree that converts keeps converting to the same semantic tree after more commits. */
  lemma {:induction false} LaterCommitsKeepConversions<C>(defs: seq<Definition>, more: seq<Definition>, config: C, raw: RawNode)
    requires ConvertNode(defs, config, raw).Ok?
    ensures ConvertNode(defs + more, config, raw) == ConvertNode(defs, config, raw)
    decreases raw, 1
  {
    var i := FindDefinition(defs, raw).value;
    assert IsFirstMatch(defs + more, raw, i) by {
      assert forall j :: 0 <= j <= i ==> (defs + more)[j] == defs[j];
    }
    FirstMatchUnique(defs + more, raw, i, FindDefinition(defs + more, raw).value);
    LaterCommitsKeepChildConversions(defs, more, config, raw.childNodes);
  }

  lemma {:induction false} LaterCommitsKeepChildConversions<C>(defs: seq<Definition>, more: seq<Definition>, config: C, raws: seq<RawNode>)
    requires ConvertChildren(defs, config, raws).Ok?
    ensures ConvertChildren(defs + more, config, raws) == ConvertChildren(defs, config, raws)
    decreases raws, 0
  {
    if raws != [] {
      LaterCommitsKeepConversions(defs, more, config, raws[0]);
      LaterCommitsKeepChildConversions(defs, more, config, raws[1..]);
    }
  }

  // ---------------------------------------------------------------------------
  // Whole-tree validation

  /** The outcome of checking `nodes` one after the other, stopping at the first failure. */
  function FirstFailure<C>(nodes: seq<Node<C>>): (r: Outcome<ValidationError<C>>)
    ensures r.Pass? ==> forall i :: 0 <= i < |nodes| ==> CheckNode(nodes[i]).Pass?
    ensures nodes != [] && CheckNode(nodes[0]).Fail? ==> r == CheckNode(nodes[0])
    decreases nodes
  {
    if nodes == [] then Pass
    else
      match CheckNode(nodes[0])
      case Fail(e) => Fail(e)
      case Pass =>
        assert forall i :: 0 < i < |nodes| ==> nodes[i] == nodes[1..][i - 1];
        FirstFailure(nodes[1..])
  }

  /** Checking a sequence passes iff every node passes, and otherwise reports the failure of
      the first node that fails. */
  lemma {:induction false} FirstFailureMeaning<C>(nodes: seq<Node<C>>)
    ensures FirstFailure(nodes).Pass? <==> forall i :: 0 <= i < |nodes| ==> CheckNode(nodes[i]).Pass?
    ensures FirstFailure(nodes).Fail? ==>
      exists i :: 0 <= i < |nodes| && CheckNode(nodes[i]) == FirstFailure(nodes)
               && forall j :: 0 <= j < i ==> CheckNode(nodes[j]).Pass?
    decreases nodes
  {
    if nodes != [] {
      FirstFailureMeaning(nodes[1..]);
      assert forall i :: 0 < i < |nodes| ==> nodes[i] == nodes[1..][i - 1];
      if CheckNode(nodes[0]).Pass? && FirstFailure(nodes).Fail? {
        var i :| 0 <= i < |nodes[1..]| && CheckNode(nodes[1..][i]) == FirstFailure(nodes[1..])
               && forall j :: 0 <= j < i ==> CheckNode(nodes[1..][j]).Pass?;
        assert CheckNode(nodes[i + 1]) == FirstFailure(nodes);
      }
    }
  }

  /** One step of the validation walk. */
  lemma ValidateStep<C>(queue: seq<Node<C>>)
    requires queue != []
    ensures ForestSize(queue[1..] + queue[0].children) < ForestSize(queue)
    ensures FirstFailure(Bfs(queue))
         == if CheckNode(queue[0]).Fail? then CheckNode(queue[0]) else FirstFailure(Bfs(queue[1..] + queue[0].children))
  {
    ForestSizeAppend(queue[1..], queue[0].children);
    var rest := Bfs(queue[1..] + queue[0].children);
    assert Bfs(queue) == [queue[0]] + rest;
    assert ([queue[0]] + rest)[1..] == rest;
  }

  /** Validating the tree under `root` visits every node once, root first and level by
      level; it passes iff every node of the tree passes its own check, and otherwise fails
      with the failure of the first failing node in breadth-first order. */
  lemma ValidateTreeMeaning<C>(root: Node<C>)
    ensures Bfs([root])[0] == root
    ensures Bfs([root]) == LevelOrder([root])
    ensures multiset(Bfs([root])) == multiset(Preorder([root]))
    ensures FirstFailure(Bfs([root])).Pass? <==> forall d :: d in Preorder([root]) ==> CheckNode(d).Pass?
    ensures FirstFailure(Bfs([root])).Fail? ==>
      exists i :: 0 <= i < |LevelOrder([root])| && CheckNode(LevelOrder([root])[i]) == FirstFailure(Bfs([root]))
               && forall j :: 0 <= j < i ==> CheckNode(LevelOrder([root])[j]).Pass?
  {
    BfsFromRoot(root);
    BfsIsLevelOrder([root]);
    BfsVisitsEachNodeOnce([root]);
    var s := Bfs([root]);
    FirstFailureMeaning(s);
    forall d | d in Preorder([root]) ensures d in s {
      assert d in multiset(Preorder([root]));
    }
    forall i | 0 <= i < |s| ensures s[i] in Preorder([root]) {
      assert s[i] in multiset(s);
    }
  }

  /** A tree whose definitions all say `NoConstraints` always validates. */
  lemma NoConstraintsTreeValidates<C>(root: Node<C>)
    requires forall d :: d in Preorder([root]) ==> d.definition.childrenConstraints == Some(NoConstraints)
    ensures FirstFailure(Bfs([root])) == Pass
  {
    ValidateTreeMeaning(root);
  }

  // ---------------------------------------------------------------------------
  // The engine object

  /** The engine: an ordered registry of node definitions and the shared config. */
  class Bliss<C> {
    var nodeDefinitions: seq<Definition>
    const config: C

    constructor(config: C)
      ensures this.config == config && nodeDefinitions == []
    {
      this.config := config;
      nodeDefinitions := [];
    }

    /** `commit`: append a definition at the end of the registry. */
    method Commit(definition: Definition)
      modifies this
      ensures nodeDefinitions == old(nodeDefinitions) + [definition]
    {
      nodeDefinitions := nodeDefinitions + [definition];
    }

    /** `convert` against the current registry. */
    method Convert(domNode: RawNode) returns (r: Result<Node<C>, ConvertError>)
      ensures r == ConvertNode(nodeDefinitions, config, domNode)
      ensures r.Ok? ==> ConvertedFrom(nodeDefinitions, config, r.value, domNode)
      ensures r.Err? <==> FirstUnmatched(nodeDefinitions, RawPreorder([domNode])).Some?
      ensures r.Err? ==> FirstUnmatched(nodeDefinitions, RawPreorder([domNode])) == Some(r.error.domNode)
    {
      r := ConvertNode(nodeDefinitions, config, domNode);
      if r.Ok? {
        ConvertNodeIsConvertedFrom(nodeDefinitions, config, r.value, domNode);
      }
      ConvertReportsFirstUnmatched(nodeDefinitions, config, domNode);
    }

    /** `validate`: a breadth-first queue walk that checks every node and stops at the
        first failure. */
    method Validate(root: Node<C>) returns (r: Outcome<ValidationError<C>>)
      ensures r == FirstFailure(Bfs([root]))
    {
      var queue := [root];
      while queue != []
        invariant FirstFailure(Bfs(queue)) == FirstFailure(Bfs([root]))
        decreases ForestSize(queue)
      {
        var node := queue[0];
        ValidateStep(queue);
        var v := ValidateNode(node);
        if v.Fail? {
          return v;
        }
        queue := queue[1..] + node.children;
      }
      return Pass;
    }
  }
}
