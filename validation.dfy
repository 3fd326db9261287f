/** The per-node children validator and the truncation helper used in its messages. */
module Validation {
  import opened Wrappers
  import opened ChildrenConstraints
  import opened Nodes

  /** How a node's children break its constraint (the "actual" part of the message). */
  datatype Violation =
    | HasChildren(count: nat)                                          // `None` saw children
    | CountOutOfRange(kind: string, actual: nat, min: nat, max: Bound) // an entry's bounds failed
    | UnexpectedKinds(kinds: set<string>)                              // kinds no entry names

  /** The errors the validator raises. */
  datatype ValidationError<C> =
    | MissingConstraint(name: string)                          // the definition has no constraint
    | ChildrenCardinality(node: Node<C>, violation: Violation) // a BlissValidationError

  // ---------------------------------------------------------------------------
  // Counting children by kind name

  /** The kind names of `children`, in order. */
  function ChildNames<C>(children: seq<Node<C>>): (names: seq<string>)
    ensures |names| == |children|
    ensures forall i :: 0 <= i < |children| ==> names[i] == Name(children[i])
  {
    seq(|children|, i requires 0 <= i < |children| => Name(children[i]))
  }

  /** The count map after counting `names` in order: each name bumps its own count. */
  function CountMap(names: seq<string>): (m: map<string, nat>)
    ensures forall x :: x in m ==> x in names && m[x] >= 1
  {
    if names == [] then map[]
    else
      var m := CountMap(names[..|names| - 1]);
      var name := names[|names| - 1];
      m[name := Lookup(m, name) + 1]
  }

  /** `count.get(name) ?? 0`. */
  function Lookup(m: map<string, nat>, name: string): nat
  {
    if name in m then m[name] else 0
  }

  /** The count map has exactly the names that occur as keys, and looks up each name's number
      of occurrences (0 for a name that does not occur). */
  lemma {:induction false} CountMapCounts(names: seq<string>)
    ensures forall x :: x in CountMap(names) <==> x in names
    ensures forall x :: Lookup(CountMap(names), x) == multiset(names)[x]
  {
    if names != [] {
      var prefix := names[..|names| - 1];
      var last := names[|names| - 1];
      CountMapCounts(prefix);
      assert names == prefix + [last];
      assert multiset(names) == multiset(prefix) + multiset{last};
      forall x ensures x in names <==> x in prefix || x == last {
        assert x in names <==> x in multiset(names);
      }
    }
  }

  // ---------------------------------------------------------------------------
  // The `Contains` check, as the source performs it on the count map

  /** The entry loop from entry `i` on: check the looked-up count against [min, max], then
      delete the key; the first entry out of bounds fails. On success it yields what is left
      of the map. */
  function CheckEntries(counts: map<string, nat>, entries: seq<Appearance>, i: nat): (r: Result<map<string, nat>, Violation>)
    requires i <= |entries|
    ensures r.Ok? ==> forall x :: x in r.value ==> x in counts && r.value[x] == counts[x]
    ensures r.Ok? ==> forall j :: i <= j < |entries| ==> entries[j].node.Name() !in r.value
    ensures r.Err? ==> r.error.CountOutOfRange?
    decreases |entries| - i
  {
    if i == |entries| then Ok(counts)
    else
      var e := entries[i];
      var name := e.node.Name();
      var actual := Lookup(counts, name);
      if !Admits(e, actual) then Err(CountOutOfRange(name, actual, e.min, e.max))
      else CheckEntries(counts - {name}, entries, i + 1)
  }

  /** The `Contains` verdict on a node whose children have the kind names `names`: the entry
      loop, then a failure naming every kind left in the map. */
  function ContainsVerdict(names: seq<string>, entries: seq<Appearance>): (r: Outcome<Violation>)
    ensures r.Fail? && r.error.UnexpectedKinds? ==>
      r.error.kinds != {} && forall x :: x in r.error.kinds ==> x in names && forall j :: 0 <= j < |entries| ==> entries[j].node.Name() != x
    ensures r.Fail? ==> r.error.CountOutOfRange? || r.error.UnexpectedKinds?
  {
    match CheckEntries(CountMap(names), entries, 0)
    case Err(v) => Fail(v)
    case Ok(rest) => if |rest| > 0 then Fail(UnexpectedKinds(rest.Keys)) else Pass
  }

  // ---------------------------------------------------------------------------
  // What the `Contains` check means

  /** The kind names of the first `i` entries: the keys deleted before entry `i` is checked. */
  ghost function Listed(entries: seq<Appearance>, i: nat): set<string>
    requires i <= |entries|
  {
    set j | 0 <= j < i :: entries[j].node.Name()
  }

  /** The count entry `j` is checked against: 0 when an earlier entry named the same kind
      (its key was deleted), otherwise the number of children of that kind. */
  ghost function Observed(names: seq<string>, entries: seq<Appearance>, j: nat): nat
    requires j < |entries|
  {
    if entries[j].node.Name() in Listed(entries, j) then 0 else multiset(names)[entries[j].node.Name()]
  }

  /** Every entry from `i` on admits the count it is checked against. */
  ghost predicate EntriesHoldFrom(names: seq<string>, entries: seq<Appearance>, i: nat)
  {
    forall j :: i <= j < |entries| ==> Admits(entries[j], Observed(names, entries, j))
  }

  /** Entry `j` is the first one from `i` on that rejects its count. */
  ghost predicate FirstFailingFrom(names: seq<string>, entries: seq<Appearance>, i: nat, j: nat)
  {
    && i <= j < |entries|
    && !Admits(entries[j], Observed(names, entries, j))
    && forall l :: i <= l < j ==> Admits(entries[l], Observed(names, entries, l))
  }

  /** The child kinds no entry names. */
  ghost function Unlisted(names: seq<string>, entries: seq<Appearance>): set<string>
  {
    (set x | x in names) - Listed(entries, |entries|)
  }

  lemma ListedStep(entries: seq<Appearance>, i: nat)
    requires i < |entries|
    ensures Listed(entries, i + 1) == Listed(entries, i) + {entries[i].node.Name()}
  {
  }

  /** The entry loop started on the count map with the keys of entries before `i` deleted
      fails at the first entry whose observed count is out of bounds, and otherwise leaves
      the counts of the kinds no entry names. */
  lemma {:induction false} CheckEntriesMeaning(names: seq<string>, entries: seq<Appearance>, i: nat)
    requires i <= |entries|
    ensures EntriesHoldFrom(names, entries, i) ==>
      CheckEntries(CountMap(names) - Listed(entries, i), entries, i) == Ok(CountMap(names) - Listed(entries, |entries|))
    ensures forall j: nat :: FirstFailingFrom(names, entries, i, j) ==>
      CheckEntries(CountMap(names) - Listed(entries, i), entries, i)
        == Err(CountOutOfRange(entries[j].node.Name(), Observed(names, entries, j), entries[j].min, entries[j].max))
    decreases |entries| - i
  {
    if i < |entries| {
      var counts := CountMap(names) - Listed(entries, i);
      RemainingCounts(names, entries, i);
      CheckEntriesMeaning(names, entries, i + 1);
      forall j: nat | FirstFailingFrom(names, entries, i, j)
        ensures CheckEntries(counts, entries, i)
             == Err(CountOutOfRange(entries[j].node.Name(), Observed(names, entries, j), entries[j].min, entries[j].max))
      {
        if j > i {
          assert FirstFailingFrom(names, entries, i + 1, j);
        }
      }
    }
  }

  /** Before entry `i` the map holds the counts of the kinds not yet listed: entry `i` looks up
      its observed count, and deleting its key leaves the map entry `i + 1` starts from. */
  lemma RemainingCounts(names: seq<string>, entries: seq<Appearance>, i: nat)
    requires i < |entries|
    ensures Lookup(CountMap(names) - Listed(entries, i), entries[i].node.Name()) == Observed(names, entries, i)
    ensures (CountMap(names) - Listed(entries, i)) - {entries[i].node.Name()} == CountMap(names) - Listed(entries, i + 1)
  {
    CountMapCounts(names);
    ListedStep(entries, i);
  }

  /** Some entry fails first whenever not every entry admits its count. */
  lemma FirstFailingExists(names: seq<string>, entries: seq<Appearance>, i: nat)
    requires i <= |entries| && !EntriesHoldFrom(names, entries, i)
    ensures exists j :: FirstFailingFrom(names, entries, i, j)
    decreases |entries| - i
  {
    if Admits(entries[i], Observed(names, entries, i)) {
      FirstFailingExists(names, entries, i + 1);
      var j :| FirstFailingFrom(names, entries, i + 1, j);
      assert FirstFailingFrom(names, entries, i, j);
    } else {
      assert FirstFailingFrom(names, entries, i, i);
    }
  }

  /** The `Contains` verdict: the first entry whose observed count is out of bounds fails;
      if none is, any child kind no entry names fails; otherwise the node passes. */
  lemma ContainsVerdictMeaning(names: seq<string>, entries: seq<Appearance>)
    ensures forall j: nat :: FirstFailingFrom(names, entries, 0, j) ==>
      ContainsVerdict(names, entries)
        == Fail(CountOutOfRange(entries[j].node.Name(), Observed(names, entries, j), entries[j].min, entries[j].max))
    ensures EntriesHoldFrom(names, entries, 0) ==>
      ContainsVerdict(names, entries)
        == if Unlisted(names, entries) != {} then Fail(UnexpectedKinds(Unlisted(names, entries))) else Pass
    ensures ContainsVerdict(names, entries).Pass? <==>
      EntriesHoldFrom(names, entries, 0) && forall x :: x in names ==> x in Listed(entries, |entries|)
  {
    assert Listed(entries, 0) == {};
    assert CountMap(names) - {} == CountMap(names);
    CheckEntriesMeaning(names, entries, 0);
    CountMapCounts(names);
    var rest := CountMap(names) - Listed(entries, |entries|);
    assert rest.Keys == Unlisted(names, entries);
    if rest.Keys == {} {
      assert |rest| == 0;
    } else {
      assert |rest| > 0;
    }
    if !EntriesHoldFrom(names, entries, 0) {
      FirstFailingExists(names, entries, 0);
    }
  }

  /** With distinct kind names in the list, a node passes exactly when every listed kind
      occurs within its bounds and every child's kind is listed: a closed whitelist. */
  lemma ContainsIsClosedWhitelist(names: seq<string>, entries: seq<Appearance>)
    requires forall j, l :: 0 <= j < l < |entries| ==> entries[j].node.Name() != entries[l].node.Name()
    ensures ContainsVerdict(names, entries).Pass? <==>
      && (forall j :: 0 <= j < |entries| ==> Admits(entries[j], multiset(names)[entries[j].node.Name()]))
      && (forall x :: x in names ==> exists j :: 0 <= j < |entries| && entries[j].node.Name() == x)
  {
    ContainsVerdictMeaning(names, entries);
    forall j | 0 <= j < |entries|
      ensures Observed(names, entries, j) == multiset(names)[entries[j].node.Name()]
    {
      assert entries[j].node.Name() !in Listed(entries, j);
    }
  }

  /** A second entry for a kind is checked against 0, because the first deleted its key: a
      duplicate whose minimum is positive rejects every node. */
  lemma DuplicateEntrySeesZero(names: seq<string>, entries: seq<Appearance>, l: nat, j: nat)
    requires l < j < |entries| && entries[l].node.Name() == entries[j].node.Name()
    ensures Observed(names, entries, j) == 0
    ensures entries[j].min > 0 ==> ContainsVerdict(names, entries).Fail?
  {
    assert entries[j].node.Name() in Listed(entries, j);
    ContainsVerdictMeaning(names, entries);
  }

  // ---------------------------------------------------------------------------
  // The validator

  /** One step of the entry loop: entry `i` either fails on the count it looks up, or its key
      is deleted and the loop moves on. */
  lemma CheckEntriesStep(counts: map<string, nat>, entries: seq<Appearance>, i: nat)
    requires i < |entries|
    ensures var e := entries[i];
            var actual := Lookup(counts, e.node.Name());
            CheckEntries(counts, entries, i)
            == if actual < e.min || (e.max.Finite? && actual > e.max.n)
               then Err(CountOutOfRange(e.node.Name(), actual, e.min, e.max))
               else CheckEntries(counts - {e.node.Name()}, entries, i + 1)
  {
  }

  /** `validateContains`: count the children per kind name, check and delete each entry in
      order, then reject whatever kinds remain. */
  method ValidateContains<C>(node: Node<C>, entries: seq<Appearance>) returns (r: Outcome<Violation>)
    ensures r == ContainsVerdict(ChildNames(node.children), entries)
  {
    var count := CountKinds(node.children);
    var i := 0;
    while i < |entries|
      invariant i <= |entries|
      invariant CheckEntries(count, entries, i) == CheckEntries(CountMap(ChildNames(node.children)), entries, 0)
    {
      CheckEntriesStep(count, entries, i);
      var name := entries[i].node.Name();
      var actual := Lookup(count, name);
      if actual < entries[i].min || (entries[i].max.Finite? && actual > entries[i].max.n) {
        return Fail(CountOutOfRange(name, actual, entries[i].min, entries[i].max));
      }
      count := count - {name};
      i := i + 1;
    }
    if |count| > 0 {
      return Fail(UnexpectedKinds(count.Keys));
    }
    return Pass;
  }

  /** The counting loop of `validateContains`: one pass over the children bumping the count
      of each child's kind name. */
  method CountKinds<C>(children: seq<Node<C>>) returns (count: map<string, nat>)
    ensures count == CountMap(ChildNames(children))
  {
    ghost var names := ChildNames(children);
    count := map[];
    assert names[..0] == [];
    for i := 0 to |children|
      invariant count == CountMap(names[..i])
    {
      var name := children[i].definition.name;
      assert names[..i + 1][..i] == names[..i] && names[..i + 1][i] == name;
      count := count[name := Lookup(count, name) + 1];
    }
    assert names[..|children|] == names;
  }

  /** `validateNone`: a node under `None` must have no children. */
  function ValidateNone<C>(node: Node<C>): (r: Outcome<ValidationError<C>>)
    ensures r.Pass? <==> node.children == []
    ensures r.Fail? ==> r.error == ChildrenCardinality(node, HasChildren(|node.children|))
  {
    if |node.children| > 0 then Fail(ChildrenCardinality(node, HasChildren(|node.children|))) else Pass
  }

  /** The per-node check: a missing constraint is rejected before anything else; then an
      exhaustive match over the three constraint cases. */
  function CheckNode<C>(node: Node<C>): (r: Outcome<ValidationError<C>>)
    ensures node.definition.childrenConstraints.None? ==> r == Fail(MissingConstraint(Name(node)))
    ensures node.definition.childrenConstraints == Some(NoConstraints) ==> r == Pass
    ensures node.definition.childrenConstraints == Some(NoChildren) ==> (r.Pass? <==> node.children == [])
    ensures node.definition.childrenConstraints.Some? && node.definition.childrenConstraints.value.Contains? ==>
      (r.Pass? <==> ContainsVerdict(ChildNames(node.children), node.definition.childrenConstraints.value.contains).Pass?)
    ensures node.definition.childrenConstraints == Some(NoChildren) && r.Fail? ==>
      r.error == ChildrenCardinality(node, HasChildren(|node.children|))
    ensures node.definition.childrenConstraints.Some? && node.definition.childrenConstraints.value.Contains? && r.Fail? ==>
      r.error == ChildrenCardinality(node, ContainsVerdict(ChildNames(node.children), node.definition.childrenConstraints.value.contains).error)
    ensures r.Fail? && r.error.ChildrenCardinality? ==> r.error.node == node
  {
    match node.definition.childrenConstraints
    case None => Fail(MissingConstraint(node.definition.name))
    case Some(NoConstraints) => Pass
    case Some(NoChildren) => ValidateNone(node)
    case Some(Contains(entries)) =>
      match ContainsVerdict(ChildNames(node.children), entries)
      case Pass => Pass
      case Fail(v) => Fail(ChildrenCardinality(node, v))
  }

  /** `validate` for one node. */
  method ValidateNode<C>(node: Node<C>) returns (r: Outcome<ValidationError<C>>)
    ensures r == CheckNode(node)
  {
    match node.definition.childrenConstraints
    case None =>
      r := Fail(MissingConstraint(node.definition.name));
    case Some(NoConstraints) =>
      r := Pass;
    case Some(NoChildren) =>
      r := ValidateNone(node);
    case Some(Contains(entries)) =>
      var v := ValidateContains(node, entries);
      r := if v.Pass? then Pass else Fail(ChildrenCardinality(node, v.error));
  }

  // ---------------------------------------------------------------------------
  // Truncation of rendered nodes in messages

  /** JavaScript's `s.slice(0, end)`: a negative end counts back from the end of `s`. */
  function SliceTo(s: string, end: int): (r: string)
    ensures |r| <= |s| && r == s[..|r|]
    ensures 0 <= end <= |s| ==> |r| == end
    ensures end < 0 ==> |r| == (if |s| + end < 0 then 0 else |s| + end)
    ensures end > |s| ==> r == s
  {
    var e := if end < 0 then (if |s| + end < 0 then 0 else |s| + end) else if end > |s| then |s| else end;
    s[..e]
  }

  /** `truncate(s, len)`: `s` itself when it fits, otherwise a prefix followed by "...". */
  function Truncate(s: string, len: int): (r: string)
    ensures |s| <= len ==> r == s
    ensures |s| > len ==> 3 <= |r| <= |s| + 3 && r[|r| - 3..] == "..." && r[..|r| - 3] == s[..|r| - 3]
    ensures |s| > len && len >= 3 ==> |r| == len && r == s[..len - 3] + "..."
    ensures len >= 3 ==> |r| <= len
  {
    if |s| > len then SliceTo(s, len - 3) + "..." else s
  }

}
