/** The semantic node produced by conversion, the breadth-first order its lookups follow,
    and its accessors. */
module Nodes {
  import opened Wrappers
  import opened RawTree
  import opened ChildrenConstraints

  /** A semantic node: its definition, its converted children, the raw node it came from
      and the configuration shared by the whole tree. Nodes are never changed once built. */
  datatype Node<C> = Node(definition: Definition, children: seq<Node<C>>, domNode: RawNode, config: C)

  /** Errors raised by the accessors. */
  datatype AccessError =
    | ChildCardinality(found: nat, name: string)        // "Found N children of name"
    | DescendantCardinality(found: nat, name: string)   // "Found N descendants of name"
    | NoParserDefined(name: string)

  /** The parser invocation `parse` performs: the node as receiver, the state and the config. */
  datatype ParserCall<C, S> = ParserCall(receiver: Node<C>, state: S, config: C)

  /** The node's kind name, which is its definition's name. */
  function Name<C>(n: Node<C>): (r: string)
    ensures r == n.definition.name
  {
    n.definition.name
  }

  // ---------------------------------------------------------------------------
  // Sizes and traversal orders

  /** Number of nodes in a sequence of trees: the termination measure of every queue walk. */
  ghost function ForestSize<C>(q: seq<Node<C>>): nat
    decreases q
  {
    if q == [] then 0 else 1 + ForestSize(q[0].children) + ForestSize(q[1..])
  }

  lemma {:induction false} ForestSizeAppend<C>(a: seq<Node<C>>, b: seq<Node<C>>)
    ensures ForestSize(a + b) == ForestSize(a) + ForestSize(b)
    decreases a
  {
    if a != [] {
      assert (a + b)[0] == a[0] && (a + b)[1..] == a[1..] + b;
      ForestSizeAppend(a[1..], b);
    } else {
      assert a + b == b;
    }
  }

  /** The nodes a FIFO queue walk visits: take the head, append its children at the back. */
  ghost function Bfs<C>(queue: seq<Node<C>>): seq<Node<C>>
    decreases ForestSize(queue)
  {
    if queue == [] then []
    else
      ForestSizeAppend(queue[1..], queue[0].children);
      [queue[0]] + Bfs(queue[1..] + queue[0].children)
  }

  /** Every tree of `q` listed in document order (each node before its descendants). */
  ghost function Preorder<C>(q: seq<Node<C>>): seq<Node<C>>
    decreases q
  {
    if q == [] then [] else [q[0]] + Preorder(q[0].children) + Preorder(q[1..])
  }

  /** The children of every node of `q`, in order: the next level down. */
  ghost function AllChildren<C>(q: seq<Node<C>>): seq<Node<C>>
    decreases q
  {
    if q == [] then [] else q[0].children + AllChildren(q[1..])
  }

  lemma {:induction false} ForestSizeLevels<C>(q: seq<Node<C>>)
    ensures ForestSize(q) == |q| + ForestSize(AllChildren(q))
    decreases q
  {
    if q != [] {
      ForestSizeLevels(q[1..]);
      ForestSizeAppend(q[0].children, AllChildren(q[1..]));
    }
  }

  /** The level-by-level listing: the whole first level, then the level below it, and so on. */
  ghost function LevelOrder<C>(q: seq<Node<C>>): seq<Node<C>>
    decreases ForestSize(q)
  {
    if q == [] then []
    else
      ForestSizeLevels(q);
      q + LevelOrder(AllChildren(q))
  }

  /** The proper descendants of `n`, in document order. */
  ghost function Descendants<C>(n: Node<C>): seq<Node<C>>
  {
    Preorder(n.children)
  }

  lemma {:induction false} PreorderAppend<C>(a: seq<Node<C>>, b: seq<Node<C>>)
    ensures Preorder(a + b) == Preorder(a) + Preorder(b)
    decreases a
  {
    if a != [] {
      assert (a + b)[0] == a[0] && (a + b)[1..] == a[1..] + b;
      PreorderAppend(a[1..], b);
    } else {
      assert a + b == b;
    }
  }

  /** Draining a queue `q + r` first emits all of `q`, after which the queue holds `r`
      followed by the children of `q`. */
  lemma {:induction false} BfsDrainsPrefix<C>(q: seq<Node<C>>, r: seq<Node<C>>)
    ensures Bfs(q + r) == q + Bfs(r + AllChildren(q))
    decreases |q|
  {
    if q == [] {
      assert q + r == r;
      assert r + AllChildren(q) == r;
    } else {
      var r' := r + q[0].children;
      assert (q + r)[0] == q[0] && (q + r)[1..] + q[0].children == q[1..] + r';
      assert Bfs(q + r) == [q[0]] + Bfs(q[1..] + r');
      BfsDrainsPrefix(q[1..], r');
      assert r' + AllChildren(q[1..]) == r + AllChildren(q);
      assert [q[0]] + q[1..] == q;
    }
  }

  /** The queue walk visits the nodes level by level: it is a breadth-first traversal. */
  lemma {:induction false} BfsIsLevelOrder<C>(q: seq<Node<C>>)
    ensures Bfs(q) == LevelOrder(q)
    decreases ForestSize(q)
  {
    if q != [] {
      assert q + [] == q;
      BfsDrainsPrefix(q, []);
      assert [] + AllChildren(q) == AllChildren(q);
      ForestSizeLevels(q);
      BfsIsLevelOrder(AllChildren(q));
    }
  }

  /** The queue walk visits every node of the trees in `q` exactly once: its output is a
      permutation of their document-order listing. */
  lemma {:induction false} BfsVisitsEachNodeOnce<C>(q: seq<Node<C>>)
    ensures multiset(Bfs(q)) == multiset(Preorder(q))
    ensures |Bfs(q)| == ForestSize(q)
    decreases ForestSize(q)
  {
    if q != [] {
      var rest := q[1..] + q[0].children;
      ForestSizeAppend(q[1..], q[0].children);
      BfsVisitsEachNodeOnce(rest);
      PreorderAppend(q[1..], q[0].children);
      PreorderSize(q);
    }
  }

  lemma {:induction false} PreorderSize<C>(q: seq<Node<C>>)
    ensures |Preorder(q)| == ForestSize(q)
    decreases q
  {
    if q != [] {
      PreorderSize(q[0].children);
      PreorderSize(q[1..]);
    }
  }

  /** A walk from a single root starts at the root and then walks its children. */
  lemma BfsFromRoot<C>(n: Node<C>)
    ensures Bfs([n]) == [n] + Bfs(n.children)
  {
    assert [n][1..] + n.children == n.children;
  }

  // ---------------------------------------------------------------------------
  // Filtering by kind name

  /** The elements of `s` whose kind name is `k`, in order. */
  function OfKind<C>(s: seq<Node<C>>, k: string): (r: seq<Node<C>>)
    ensures |r| <= |s|
    ensures forall i :: 0 <= i < |r| ==> Name(r[i]) == k
    decreases s
  {
    if s == [] then []
    else (if Name(s[0]) == k then [s[0]] else []) + OfKind(s[1..], k)
  }

  /** Filtering keeps exactly the occurrences of nodes named `k`. */
  lemma {:induction false} OfKindCount<C>(s: seq<Node<C>>, k: string, x: Node<C>)
    ensures multiset(OfKind(s, k))[x] == if Name(x) == k then multiset(s)[x] else 0
    decreases s
  {
    if s != [] {
      OfKindCount(s[1..], k, x);
      var head := if Name(s[0]) == k then [s[0]] else [];
      assert OfKind(s, k) == head + OfKind(s[1..], k);
      assert s == [s[0]] + s[1..];
      assert multiset(s) == multiset([s[0]]) + multiset(s[1..]);
      assert multiset(OfKind(s, k)) == multiset(head) + multiset(OfKind(s[1..], k));
    }
  }

  /** Filtering two permutations of each other yields permutations of each other. */
  lemma OfKindPermutation<C>(a: seq<Node<C>>, b: seq<Node<C>>, k: string)
    requires multiset(a) == multiset(b)
    ensures multiset(OfKind(a, k)) == multiset(OfKind(b, k))
    ensures |OfKind(a, k)| == |OfKind(b, k)|
  {
    var fa, fb := OfKind(a, k), OfKind(b, k);
    forall x ensures multiset(fa)[x] == multiset(fb)[x] {
      OfKindCount(a, k, x);
      OfKindCount(b, k, x);
    }
    MultisetExt(multiset(fa), multiset(fb));
    MultisetSize(fa);
    MultisetSize(fb);
  }

  lemma MultisetExt<T>(p: multiset<T>, q: multiset<T>)
    requires forall x :: p[x] == q[x]
    ensures p == q
  {
  }

  lemma {:induction false} MultisetSize<T>(s: seq<T>)
    ensures |multiset(s)| == |s|
    decreases s
  {
    if s != [] {
      MultisetSize(s[1..]);
      assert s == [s[0]] + s[1..];
    }
  }

  /** Exactly one element of `s` is named `k`. */
  ghost predicate ExactlyOne<C>(s: seq<Node<C>>, k: string)
  {
    exists i :: OnlyAt(s, k, i)
  }

  /** Element `i` is the one element of `s` named `k`. */
  ghost predicate OnlyAt<C>(s: seq<Node<C>>, k: string, i: int)
  {
    0 <= i < |s| && Name(s[i]) == k && forall j :: 0 <= j < |s| && j != i ==> Name(s[j]) != k
  }

  lemma {:induction false} OfKindEmpty<C>(s: seq<Node<C>>, k: string)
    ensures OfKind(s, k) == [] <==> forall j :: 0 <= j < |s| ==> Name(s[j]) != k
    decreases s
  {
    if s != [] {
      OfKindEmpty(s[1..], k);
      if Name(s[0]) != k {
        forall j | 0 < j < |s| ensures Name(s[j]) == Name(s[1..][j - 1]) { }
      }
    }
  }

  lemma ExactlyOneHead<C>(s: seq<Node<C>>, k: string)
    requires s != [] && Name(s[0]) == k
    ensures ExactlyOne(s, k) <==> forall j :: 0 <= j < |s[1..]| ==> Name(s[1..][j]) != k
  {
    var t := s[1..];
    if ExactlyOne(s, k) {
      var i :| OnlyAt(s, k, i);
      assert i == 0;
      forall j | 0 <= j < |t| ensures Name(t[j]) != k { assert t[j] == s[j + 1]; }
    }
    if forall j :: 0 <= j < |t| ==> Name(t[j]) != k {
      forall j | 0 < j < |s| ensures Name(s[j]) != k { assert s[j] == t[j - 1]; }
      assert OnlyAt(s, k, 0);
    }
  }

  lemma ExactlyOneTail<C>(s: seq<Node<C>>, k: string)
    requires s != [] && Name(s[0]) != k
    ensures ExactlyOne(s, k) <==> ExactlyOne(s[1..], k)
  {
    if ExactlyOne(s, k) {
      ExactlyOneDrop(s, k);
    }
    if ExactlyOne(s[1..], k) {
      ExactlyOneAdd(s, k);
    }
  }

  lemma ExactlyOneDrop<C>(s: seq<Node<C>>, k: string)
    requires s != [] && Name(s[0]) != k && ExactlyOne(s, k)
    ensures ExactlyOne(s[1..], k)
  {
    var i :| OnlyAt(s, k, i);
    OnlyAtDown(s, k, i);
  }

  lemma ExactlyOneAdd<C>(s: seq<Node<C>>, k: string)
    requires s != [] && Name(s[0]) != k && ExactlyOne(s[1..], k)
    ensures ExactlyOne(s, k)
  {
    var i :| OnlyAt(s[1..], k, i);
    OnlyAtUp(s, k, i);
  }

  lemma OnlyAtDown<C>(s: seq<Node<C>>, k: string, i: int)
    requires OnlyAt(s, k, i) && i > 0
    ensures OnlyAt(s[1..], k, i - 1)
  {
    var t := s[1..];
    assert t[i - 1] == s[i];
    forall j | 0 <= j < |t| && j != i - 1 ensures Name(t[j]) != k {
      assert t[j] == s[j + 1];
    }
  }

  lemma OnlyAtUp<C>(s: seq<Node<C>>, k: string, i: int)
    requires s != [] && Name(s[0]) != k && OnlyAt(s[1..], k, i)
    ensures OnlyAt(s, k, i + 1)
  {
    var t := s[1..];
    assert s[i + 1] == t[i];
    forall j | 0 <= j < |s| && j != i + 1 ensures Name(s[j]) != k {
      if j > 0 { assert s[j] == t[j - 1]; }
    }
  }

  /** Filtering finds a single node exactly when one element of `s` has that name. */
  lemma {:induction false} OfKindSingleton<C>(s: seq<Node<C>>, k: string)
    ensures |OfKind(s, k)| == 1 <==> ExactlyOne(s, k)
    decreases s
  {
    if s != [] {
      if Name(s[0]) == k {
        OfKindEmpty(s[1..], k);
        ExactlyOneHead(s, k);
      } else {
        OfKindSingleton(s[1..], k);
        ExactlyOneTail(s, k);
      }
    }
  }

  lemma OfKindElement<C>(s: seq<Node<C>>, k: string, i: nat)
    requires i < |OfKind(s, k)|
    ensures OfKind(s, k)[i] in s
  {
    OfKindCount(s, k, OfKind(s, k)[i]);
    assert OfKind(s, k)[i] in multiset(OfKind(s, k));
  }

  // ---------------------------------------------------------------------------
  // Accessors

  /** `parse`: without a parser it raises NoParserDefined; otherwise it calls the parser with
      this node as receiver and the state and the shared config as arguments. */
  function Parse<C, S>(n: Node<C>, state: S): (r: Result<ParserCall<C, S>, AccessError>)
    ensures r.Err? <==> !n.definition.hasParser
    ensures r.Err? ==> r.error == NoParserDefined(Name(n))
    ensures r.Ok? ==> r.value.receiver == n && r.value.state == state && r.value.config == n.config
  {
    if !n.definition.hasParser then Err(NoParserDefined(n.definition.name))
    else Ok(ParserCall(n, state, n.config))
  }

  /** `getChild`: the unique direct child named `k`. */
  function GetChild<C>(n: Node<C>, k: string): (r: Result<Node<C>, AccessError>)
    ensures r.Ok? <==> ExactlyOne(n.children, k)
    ensures r.Ok? ==> r.value in n.children && Name(r.value) == k
    ensures r.Err? ==> r.error == ChildCardinality(|OfKind(n.children, k)|, k)
  {
    var found := OfKind(n.children, k);
    OfKindSingleton(n.children, k);
    if |found| != 1 then Err(ChildCardinality(|found|, k))
    else
      OfKindElement(n.children, k, 0);
      Ok(found[0])
  }

  /** The specification of `getAllDescendants`: the proper descendants named `k`, in the
      order of a queue walk that starts from the children. */
  ghost function AllDescendants<C>(n: Node<C>, k: string): seq<Node<C>>
  {
    OfKind(Bfs(n.children), k)
  }

  /** The number of proper descendants named `k`. */
  ghost function DescendantCount<C>(n: Node<C>, k: string): nat
  {
    |OfKind(Descendants(n), k)|
  }

  /** What `getAllDescendants` returns: exactly the proper descendants named `k` (as a
      permutation of their document-order listing), in breadth-first order. */
  lemma AllDescendantsAreTheMatchingDescendants<C>(n: Node<C>, k: string)
    ensures multiset(AllDescendants(n, k)) == multiset(OfKind(Descendants(n), k))
    ensures AllDescendants(n, k) == OfKind(LevelOrder(n.children), k)
    ensures |AllDescendants(n, k)| == DescendantCount(n, k)
    ensures AllDescendants(n, k) == [] <==> forall d :: d in Descendants(n) ==> Name(d) != k
  {
    BfsVisitsEachNodeOnce(n.children);
    BfsIsLevelOrder(n.children);
    OfKindPermutation(Bfs(n.children), Descendants(n), k);
    OfKindEmpty(Descendants(n), k);
  }

  /** One step of the queue walk: the head is visited and its children join the queue, so
      the matches already found plus those still to come stay the same. */
  lemma BfsStep<C>(found: seq<Node<C>>, queue: seq<Node<C>>, k: string)
    requires queue != []
    ensures ForestSize(queue[1..] + queue[0].children) < ForestSize(queue)
    ensures found + OfKind(Bfs(queue), k)
         == (found + if Name(queue[0]) == k then [queue[0]] else []) + OfKind(Bfs(queue[1..] + queue[0].children), k)
  {
    ForestSizeAppend(queue[1..], queue[0].children);
    var rest := Bfs(queue[1..] + queue[0].children);
    var head := if Name(queue[0]) == k then [queue[0]] else [];
    assert Bfs(queue) == [queue[0]] + rest;
    assert ([queue[0]] + rest)[0] == queue[0] && ([queue[0]] + rest)[1..] == rest;
    assert OfKind(Bfs(queue), k) == head + OfKind(rest, k);
    assert found + (head + OfKind(rest, k)) == (found + head) + OfKind(rest, k);
  }

  /** `getAllDescendants`: walks a queue that starts as a copy of the children, collecting
      every node named `k`. It never fails. */
  method GetAllDescendants<C>(n: Node<C>, k: string) returns (found: seq<Node<C>>)
    ensures found == AllDescendants(n, k)
  {
    ghost var all := AllDescendants(n, k);
    found := [];
    var queue := n.children;
    assert found + OfKind(Bfs(queue), k) == all;
    while queue != []
      invariant found + OfKind(Bfs(queue), k) == all
      decreases ForestSize(queue)
    {
      var child := queue[0];
      BfsStep(found, queue, k);
      queue := queue[1..] + child.children;
      if child.definition.name == k {
        found := found + [child];
      }
    }
    assert Bfs(queue) == [];
  }

  /** `getDescendant`: the unique descendant named `k`. */
  method GetDescendant<C>(n: Node<C>, k: string) returns (r: Result<Node<C>, AccessError>)
    ensures r.Ok? <==> DescendantCount(n, k) == 1
    ensures r.Ok? ==> r.value in Descendants(n) && Name(r.value) == k
    ensures r.Err? ==> r.error == DescendantCardinality(DescendantCount(n, k), k)
  {
    var found := GetAllDescendants(n, k);
    AllDescendantsAreTheMatchingDescendants(n, k);
    if |found| != 1 {
      return Err(DescendantCardinality(|found|, k));
    }
    DescendantMember(n, k, found[0]);
    r := Ok(found[0]);
  }

  /** `getDescendantOrNull`: nothing for no match, the match for one, an error for more. */
  method GetDescendantOrNull<C>(n: Node<C>, k: string) returns (r: Result<Option<Node<C>>, AccessError>)
    ensures r == Ok(None) <==> DescendantCount(n, k) == 0
    ensures (r.Ok? && r.value.Some?) <==> DescendantCount(n, k) == 1
    ensures r.Ok? && r.value.Some? ==> r.value.value in Descendants(n) && Name(r.value.value) == k
    ensures r.Err? <==> DescendantCount(n, k) >= 2
    ensures r.Err? ==> r.error == DescendantCardinality(DescendantCount(n, k), k)
  {
    var found := GetAllDescendants(n, k);
    AllDescendantsAreTheMatchingDescendants(n, k);
    if |found| == 0 {
      return Ok(None);
    }
    if |found| != 1 {
      return Err(DescendantCardinality(|found|, k));
    }
    DescendantMember(n, k, found[0]);
    r := Ok(Some(found[0]));
  }

  lemma DescendantMember<C>(n: Node<C>, k: string, x: Node<C>)
    requires |AllDescendants(n, k)| > 0 && x == AllDescendants(n, k)[0]
    ensures x in Descendants(n) && Name(x) == k
  {
    OfKindElement(Bfs(n.children), k, 0);
    BfsVisitsEachNodeOnce(n.children);
    assert x in multiset(Bfs(n.children));
  }

  // ---------------------------------------------------------------------------
  // Rendering

  /** `parts.join(sep)`. */
  function Join(parts: seq<string>, sep: string): (r: string)
    ensures parts != [] ==> |r| == TotalLength(parts) + |sep| * (|parts| - 1)
    ensures parts != [] ==> r[..|parts[0]|] == parts[0]
    decreases parts
  {
    if parts == [] then ""
    else if |parts| == 1 then parts[0]
    else parts[0] + sep + Join(parts[1..], sep)
  }

  /** `toString`: `<name [c1, c2, ...]>`. The name and the bracketed list are joined by a
      space after dropping falsy parts, so an empty name disappears and a leaf has no list. */
  function ToString<C>(n: Node<C>): (r: string)
    ensures |r| >= 2 && r[0] == '<' && r[|r| - 1] == '>'
    ensures n.children == [] ==> r == "<" + Name(n) + ">"
    ensures n.children != [] ==> r[|r| - 2] == ']'
    ensures Name(n) != "" ==> |r| >= |Name(n)| + 2 && r[1..|Name(n)| + 1] == Name(n)
    decreases n
  {
    Shell(Name(n), RenderAll(n.children))
  }

  /** The text around a node's already rendered children: `<`, the name if non-empty, the
      bracketed comma-separated list if there are children, `>`. */
  function Shell(name: string, rendered: seq<string>): (r: string)
    ensures |r| >= 2 && r[0] == '<' && r[|r| - 1] == '>'
    ensures rendered == [] ==> r == "<" + name + ">"
    ensures rendered != [] ==> r[|r| - 2] == ']'
    ensures name != "" ==> |r| >= |name| + 2 && r[1..|name| + 1] == name
  {
    var list := "[" + Join(rendered, ", ") + "]";
    var parts := (if name != "" then [name] else [])
                 + (if |rendered| > 0 then [list] else []);
    JoinNameAndList(name, list, |rendered| > 0);
    "<" + Join(parts, " ") + ">"
  }

  /** The summed lengths of `parts`. */
  ghost function TotalLength(parts: seq<string>): nat
    decreases parts
  {
    if parts == [] then 0 else |parts[0]| + TotalLength(parts[1..])
  }

  /** `children.map(c => c.toString())`. */
  function RenderAll<C>(s: seq<Node<C>>): (r: seq<string>)
    ensures |r| == |s|
    decreases s
  {
    if s == [] then [] else [ToString(s[0])] + RenderAll(s[1..])
  }

  /** The i-th rendered child is the rendering of the i-th child: order is kept. */
  lemma {:induction false} RenderAllAt<C>(s: seq<Node<C>>)
    ensures forall i :: 0 <= i < |s| ==> RenderAll(s)[i] == ToString(s[i])
    decreases s
  {
    if s != [] {
      RenderAllAt(s[1..]);
    }
  }

  /** A node with children renders as `<name [c1, c2, ...]>`: its name (dropped when empty),
      a space, and the children's renderings joined by ", " inside brackets; `RenderAllAt`
      says those renderings are the children's, in order. */
  lemma ToStringShape<C>(n: Node<C>)
    requires n.children != []
    ensures Name(n) != "" ==>
      ToString(n) == "<" + (Name(n) + " " + ("[" + Join(RenderAll(n.children), ", ") + "]")) + ">"
    ensures Name(n) == "" ==>
      ToString(n) == "<" + ("[" + Join(RenderAll(n.children), ", ") + "]") + ">"
  {
    JoinNameAndList(Name(n), "[" + Join(RenderAll(n.children), ", ") + "]", true);
  }

  /** A node whose two children are leaves renders as `<name [<X>, <Y>]>`. */
  lemma ToStringTwoLeaves<C>(n: Node<C>)
    requires |n.children| == 2 && Name(n) != ""
    requires n.children[0].children == [] && Name(n.children[0]) != ""
    requires n.children[1].children == [] && Name(n.children[1]) != ""
    ensures ToString(n)
         == "<" + (Name(n) + " " + ("[" + (("<" + Name(n.children[0]) + ">") + ", " + ("<" + Name(n.children[1]) + ">")) + "]")) + ">"
  {
    var x, y := n.children[0], n.children[1];
    RenderTwo(n.children);
    ShellOfTwo(Name(n), ToString(x), ToString(y));
  }

  /** The shell around two rendered children: `<name [a, b]>`. */
  lemma ShellOfTwo(name: string, a: string, b: string)
    requires name != ""
    ensures Shell(name, [a, b]) == "<" + (name + " " + ("[" + (a + ", " + b) + "]")) + ">"
  {
    assert Join([a, b], ", ") == a + ", " + b by {
      assert [a, b][1..] == [b];
    }
    JoinNameAndList(name, "[" + (a + ", " + b) + "]", true);
  }

  lemma RenderTwo<C>(s: seq<Node<C>>)
    requires |s| == 2
    ensures RenderAll(s) == [ToString(s[0]), ToString(s[1])]
  {
    assert s[1..][0] == s[1] && s[1..][1..] == [];
  }

  /** The number of occurrences of `c` in `s`. */
  ghost function Occurrences(s: string, c: char): nat
    decreases s
  {
    if s == [] then 0 else (if s[0] == c then 1 else 0) + Occurrences(s[1..], c)
  }

  lemma {:induction false} OccurrencesAppend(a: string, b: string, c: char)
    ensures Occurrences(a + b, c) == Occurrences(a, c) + Occurrences(b, c)
    decreases a
  {
    if a == [] {
      assert a + b == b;
    } else {
      assert (a + b)[0] == a[0] && (a + b)[1..] == a[1..] + b;
      OccurrencesAppend(a[1..], b, c);
    }
  }

  lemma {:induction false} OccurrencesAbsent(s: string, c: char)
    requires c !in s
    ensures Occurrences(s, c) == 0
    decreases s
  {
    if s != [] {
      assert s[0] != c && forall i :: 0 <= i < |s[1..]| ==> s[1..][i] == s[i + 1];
      OccurrencesAbsent(s[1..], c);
    }
  }

  /** The number of occurrences of `c` across all of `parts`. */
  ghost function CountIn(parts: seq<string>, c: char): nat
    decreases parts
  {
    if parts == [] then 0 else Occurrences(parts[0], c) + CountIn(parts[1..], c)
  }

  lemma {:induction false} JoinCount(parts: seq<string>, sep: string, c: char)
    requires c !in sep
    ensures Occurrences(Join(parts, sep), c) == CountIn(parts, c)
    decreases parts
  {
    if |parts| > 1 {
      JoinCount(parts[1..], sep, c);
      OccurrencesAbsent(sep, c);
      OccurrencesAppend(parts[0], sep, c);
      OccurrencesAppend(parts[0] + sep, Join(parts[1..], sep), c);
    } else if |parts| == 1 {
      assert parts[1..] == [];
    }
  }

  /** Every node of the tree is rendered exactly once: when no kind name contains '<' or
      '>', the rendering has one '<' and one '>' per node. */
  lemma {:induction false} ToStringRendersEachNodeOnce<C>(n: Node<C>, c: char)
    requires c == '<' || c == '>'
    requires forall d :: d in Preorder([n]) ==> c !in Name(d)
    ensures Occurrences(ToString(n), c) == ForestSize([n])
    decreases n
  {
    PreorderSingle(n);
    assert n in Preorder([n]);
    ShellCount(Name(n), RenderAll(n.children), c);
    forall d | d in Preorder(n.children) ensures c !in Name(d) {
      assert d in Preorder([n]);
    }
    RenderAllCount(n.children, c);
    assert [n][1..] == [];
    assert ForestSize([n]) == 1 + ForestSize(n.children);
  }

  /** The shell adds exactly one `<` and one `>` to what the rendered children hold, provided
      the name holds neither. */
  lemma ShellCount(name: string, rendered: seq<string>, c: char)
    requires c == '<' || c == '>'
    requires c !in name
    ensures Occurrences(Shell(name, rendered), c) == 1 + CountIn(rendered, c)
  {
    JoinCount(rendered, ", ", c);
    BracketCount(name, Join(rendered, ", "), |rendered| > 0, c);
  }

  /** `<`, the name, the bracketed list and `>`: one `c` besides those inside the list. */
  lemma BracketCount(name: string, inner: string, hasList: bool, c: char)
    requires c == '<' || c == '>'
    requires c !in name
    requires !hasList ==> inner == ""
    ensures Occurrences("<" + Join((if name != "" then [name] else []) + (if hasList then ["[" + inner + "]"] else []), " ") + ">", c)
         == 1 + Occurrences(inner, c)
  {
    var list := "[" + inner + "]";
    var body := Join((if name != "" then [name] else []) + (if hasList then [list] else []), " ");
    OccurrencesAppend("[", inner, c);
    OccurrencesAppend("[" + inner, "]", c);
    OccurrencesSingle('[', c);
    OccurrencesSingle(']', c);
    OccurrencesAbsent(name, c);
    JoinNameAndList(name, list, hasList);
    if name != "" && hasList {
      OccurrencesAppend(name, " ", c);
      OccurrencesAppend(name + " ", list, c);
      OccurrencesSingle(' ', c);
    }
    OccurrencesAppend("<", body, c);
    OccurrencesAppend("<" + body, ">", c);
    OccurrencesSingle('<', c);
    OccurrencesSingle('>', c);
  }

  /** Joining the name and the list with a space after dropping the empty parts. */
  lemma JoinNameAndList(name: string, list: string, hasList: bool)
    ensures Join((if name != "" then [name] else []) + (if hasList then [list] else []), " ")
         == if name != "" && hasList then name + " " + list
            else if name != "" then name
            else if hasList then list
            else ""
  {
    if name != "" && hasList {
      assert [name] + [list] == [name, list] && [name, list][1..] == [list];
    } else if name != "" {
      assert [name] + [] == [name];
    } else if hasList {
      assert [] + [list] == [list];
    }
  }

  lemma OccurrencesSingle(x: char, c: char)
    ensures Occurrences([x], c) == if x == c then 1 else 0
  {
    assert [x][1..] == [];
  }

  lemma PreorderSingle<C>(n: Node<C>)
    ensures Preorder([n]) == [n] + Preorder(n.children)
  {
    assert [n][1..] == [];
  }

  lemma {:induction false} RenderAllCount<C>(s: seq<Node<C>>, c: char)
    requires c == '<' || c == '>'
    requires forall d :: d in Preorder(s) ==> c !in Name(d)
    ensures CountIn(RenderAll(s), c) == ForestSize(s)
    decreases s
  {
    if s != [] {
      PreorderSingle(s[0]);
      assert Preorder(s) == Preorder([s[0]]) + Preorder(s[1..]);
      ToStringRendersEachNodeOnce(s[0], c);
      RenderAllCount(s[1..], c);
      assert ForestSize([s[0]]) == 1 + ForestSize(s[0].children) + ForestSize([s[0]][1..]);
      assert [s[0]][1..] == [];
    }
  }
}
