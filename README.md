# bliss schema engine — a verified Dafny model

bliss turns a weakly typed markup tree (a DOM) into a typed "semantic" tree. The application
registers node definitions. Each definition has a name, a matcher that recognises raw nodes,
a children constraint and, optionally, a parser. The engine then does two things:

- **conversion** gives every raw node the first registered definition whose matcher accepts it;
- **validation** walks the semantic tree breadth-first and checks each node's children
  against its definition's constraint.

This project models that core in Dafny and proves what the code promises about it.

- `wrappers.dfy`: `Option`, `Result` and `Outcome`. A `throw` in the source becomes an
  `Err`/`Fail` value here.
- `raw_tree.dfy`: the raw DOM node. It has a type code, a name and its child nodes in
  document order.
- `children_constraints.dfy`: the closed three-case `ChildrenConstraint`:
  - `NoConstraints`;
  - `NoChildren`, which is the source's `None` constant;
  - `Contains(list)`.

  Each list entry is an `Appearance` `{node, min, max}`, and `max` is `Finite(n)` or
  `Unbounded`. The file also holds the four builders and the `Definition` record
  `{name, matcher, childrenConstraints?, hasParser}`. Its matcher is a total
  `RawNode -> bool` function. A kind reference is either a definition or a bare name
  (`KindRef`). The source's accessors accept a definition or a name and use only its name
  (lib/node.ts:42, 60, 81, 95). So `GetChild`, `GetDescendant`, `GetDescendantOrNull` and
  `GetAllDescendants` take that name `k: string`.
- `node.dfy`: the semantic `Node`, with `toString`, `parse`, `getChild`, `getDescendant`,
  `getDescendantOrNull` and `getAllDescendants`.
  - `getAllDescendants` is a method with a queue loop, proved against `Bfs`. `Bfs` is a
    function that describes the walk: take the head, append its children at the back.
  - `Bfs` is proved to be the level-by-level order (`LevelOrder`).
  - `Bfs` is also proved to be a permutation of the document-order listing (`Preorder`), so
    it visits each node exactly once.
- `validation.dfy`: the per-node validator.
  - `validateContains` is a method that fills a count map in a loop and then checks and
    deletes keys in a second loop. It is proved equal to the function `ContainsVerdict`.
  - Lemmas then state what that verdict means: the first out-of-bounds entry fails; after
    that, unlisted kinds fail; with distinct entry names the list is a closed whitelist.
  - The file also holds `truncate`, with JavaScript's `slice` modelled for negative ends.
- `engine.dfy`: the pure converter `ConvertNode`/`ConvertChildren` and the class `Bliss`.
  - `Bliss` has the `nodeDefinitions` registry. `Commit` appends to it, `Convert` runs the
    converter on it, and `Validate` is a breadth-first loop proved equal to `FirstFailure`
    over `Bfs([root])`.
  - `FirstFailure` checks the nodes in order and stops at the first failure.

The shared configuration is a type parameter `C`. Each node's raw node (`domNode`) and the
configuration are plain fields of the value.

Three behaviours of the code that the model keeps:

- Each entry's key is deleted right after its check (lib/validation.ts:52), so a later
  duplicate entry is checked against 0 (`DuplicateEntrySeesZero`).
- `validateNone` reports the expectation "has no children" (lib/validation.ts:28); only the
  failure data (the node and its number of children) is modelled.
- `toString` drops falsy parts before joining (lib/node.ts:23), so an empty name renders as
  `<>` or `<[..]>`.

## Model

| member | source | states |
|---|---|---|
| ChildrenConstraints.Any | lib/children-constraints.ts:12-16 | returns the given kind unchanged with min 0 and an unbounded max |
| ChildrenConstraints.One | lib/children-constraints.ts:19-23 | returns the given kind unchanged with min 1 and max 1 |
| ChildrenConstraints.AtMostOne | lib/children-constraints.ts:26-30 | returns the given kind unchanged with min 0 and max 1 |
| ChildrenConstraints.AtLeastOne | lib/children-constraints.ts:33-37 | returns the given kind unchanged with min 1 and an unbounded max |
| ChildrenConstraints.BuildersMeaning | lib/children-constraints.ts:4-37 | every builder has min <= max; Any admits every count, One exactly 1, AtMostOne at most 1, AtLeastOne at least 1 |
| ChildrenConstraints.WellFormedIffSatisfiable | lib/children-constraints.ts:4-9 | an appearance is well formed (min <= max) iff it admits its minimum; an ill-formed one admits no count |
| ChildrenConstraints.KindRef.Name | lib/validation.ts:41 | a bare name is its own kind name; a definition stands for its definition's name |
| Validation.CountMapCounts | lib/validation.ts:34-38 | the count map built child by child has exactly the children's kind names as keys and looks up each name's number of occurrences (0 when absent) |
| Validation.CountMap | lib/validation.ts:34-38 | the count map built child by child holds only names that occur, each with a count of at least 1 |
| Validation.CountKinds | lib/validation.ts:34-38 | the counting loop builds exactly the count map of the children's kind names |
| Validation.CheckEntries | lib/validation.ts:40-53 | the entry loop only deletes: on success what is left is a part of the counts it started from, unchanged, with no key of an entry it checked; it fails only with an out-of-range count |
| Validation.ContainsVerdict | lib/validation.ts:33-62 | a Contains failure is an out-of-range count or a non-empty set of kinds that occur among the children and that no entry names |
| Validation.CheckEntriesMeaning | lib/validation.ts:40-53 | the entry loop fails at the first entry whose observed count (0 after an earlier entry deleted the key) is outside [min, max], reporting kind, count, min and max; otherwise it leaves the counts of the unlisted kinds |
| Validation.ContainsVerdictMeaning | lib/validation.ts:33-62 | Contains fails at the first out-of-bounds entry; if all entries pass, it fails naming the unlisted child kinds; it passes iff all entries pass and every child kind is listed |
| Validation.ContainsIsClosedWhitelist | lib/validation.ts:40-61 | with distinct entry names, a node passes iff every listed kind's count is in bounds and every child's kind is listed |
| Validation.DuplicateEntrySeesZero | lib/validation.ts:40-53 | a later entry for an already-listed kind is checked against 0, so a duplicate with positive min rejects every node |
| Validation.ValidateContains | lib/validation.ts:33-62 | the count-map and delete loops compute exactly ContainsVerdict of the children's kind names |
| Validation.ValidateNone | lib/validation.ts:23-31 | passes iff the node has no children, otherwise fails for that node with its number of children |
| Validation.CheckNode | lib/validation.ts:5-21 | a missing constraint fails first; NoConstraints always passes; None passes iff there are no children and otherwise reports the number of children; Contains passes iff its verdict does and otherwise reports that verdict's violation; failures name the node |
| Validation.ValidateNode | lib/validation.ts:5-21 | the per-node validator computes CheckNode |
| Validation.SliceTo | lib/validation.ts:64 | JavaScript slice(0, end): a prefix of the string, of length end when 0 <= end <= length, of length max(0, length + end) for a negative end, the whole string for an end past the length |
| Validation.Truncate | lib/validation.ts:64 | unchanged when it fits; otherwise a prefix of the input followed by "...", exactly len long when len >= 3 |
| Nodes.Parse | lib/node.ts:29-35 | fails with NoParserDefined(name) iff the definition has no parser; otherwise invokes it with the node as receiver and the state and the node's config as arguments |
| Nodes.Name | lib/node.ts:12-14 | a node's kind name is its definition's name |
| Nodes.OfKind | lib/node.ts:43 | the filter keeps only nodes of the given kind name and is no longer than its input |
| Nodes.OfKindSingleton | lib/node.ts:43-49 | the filter finds exactly one node iff exactly one element has that kind name |
| Nodes.GetChild | lib/node.ts:41-50 | succeeds iff exactly one direct child has the kind name, returning that child; otherwise reports the number found |
| Nodes.BfsStep | lib/node.ts:98-107 | one step of the queue walk visits the head, enqueues its children and shrinks the remaining work |
| Nodes.GetAllDescendants | lib/node.ts:92-110 | the queue loop over a copy of the children returns the matching nodes of the breadth-first walk, and never fails |
| Nodes.AllDescendantsAreTheMatchingDescendants | lib/node.ts:88-110 | the result is a permutation of the proper descendants with that name (the node itself excluded), in level order, and empty iff none has that name |
| Nodes.BfsFromRoot | lib/index.ts:31 | a walk from a root visits the root and then walks its children |
| Nodes.BfsIsLevelOrder | lib/node.ts:96-107 | the queue walk `Bfs` (take the head, append its children at the back) equals the level-by-level listing: breadth-first order |
| Nodes.BfsVisitsEachNodeOnce | lib/node.ts:96-107 | the queue walk is a permutation of the document-order listing of the trees, so it visits each node exactly once |
| Nodes.GetDescendant | lib/node.ts:56-65 | succeeds iff exactly one proper descendant has the kind name, returning it; otherwise reports the number found |
| Nodes.GetDescendantOrNull | lib/node.ts:71-86 | nothing for zero matching descendants, the match for one, an error with the count for two or more |
| Nodes.Join | lib/node.ts:21-24 | joining non-empty parts gives their summed length plus one separator between each pair, and starts with the first part |
| Nodes.ToString | lib/node.ts:16-27 | a rendering is bracketed by `<` and `>`; it starts with `<name` when the name is non-empty; a childless node renders as `<name>`; a node with children ends with `]>`; `ToStringShape` gives the full `<name [c1, c2, ...]>` form |
| Nodes.RenderAllAt | lib/node.ts:21 | the children's renderings keep the children's order: the i-th rendered string is the rendering of the i-th child |
| Nodes.ToStringShape | lib/node.ts:16-27 | a node with children renders as `<name [c1, c2, ...]>`, or `<[c1, c2, ...]>` when its name is empty: between the brackets, the rendered children (`RenderAll`, one per child and in order by `RenderAllAt`) are joined by ", " |
| Nodes.ToStringTwoLeaves | lib/node.ts:16-27 | a node with two leaf children renders as `<name [<X>, <Y>]>` |
| Nodes.ToStringRendersEachNodeOnce | lib/node.ts:16-27 | when no name contains '<' (or '>'), the rendering contains exactly one '<' (and one '>') per node of the tree |
| Engine.FindDefinition | lib/index.ts:19 | returns the earliest registered definition whose matcher accepts the node, and nothing iff no matcher accepts it |
| Engine.ConvertNode | lib/index.ts:18-28 | a converted node carries the first matching definition, its raw node, the shared config and one child per raw child |
| Engine.ConvertChildren | lib/index.ts:25 | children are converted position by position, each child being the conversion of the raw child at the same index |
| Engine.ConvertNodeIsConvertedFrom | lib/index.ts:18-28 | conversion yields a tree iff that tree has, at every node, the first matching definition, the raw node, the config and children converted in order |
| Engine.ConvertReportsFirstUnmatched | lib/index.ts:19-25 | conversion fails iff some raw node of the tree is unmatched, and reports the first such node in document order |
| Engine.ConvertPreservesSize | lib/index.ts:25-27 | a converted tree has as many nodes as the raw tree |
| Engine.ConvertedTreeSharesConfig | lib/index.ts:27 | every node of a converted tree carries the registry's config |
| Engine.TieBreakFollowsRegistrationOrder | lib/index.ts:19 | when two matchers accept a node, the earlier registered definition is chosen, in either registration order |
| Engine.LaterCommitsKeepConversions | lib/index.ts:14-19 | definitions committed later are never consulted for a tree that already converts; its conversion is unchanged |
| Engine.FirstFailureMeaning | lib/index.ts:33-42 | checking a sequence passes iff every node passes, and otherwise reports the failure of the first failing node |
| Engine.ValidateStep | lib/index.ts:33-41 | one step of the validation walk fails with the head's failure or continues with its children enqueued |
| Engine.ValidateTreeMeaning | lib/index.ts:30-43 | validation visits every node once, root first, in level order; it passes iff every node of the tree passes, and otherwise fails with the first failing node in breadth-first order |
| Engine.NoConstraintsTreeValidates | lib/index.ts:30-43 | a tree whose definitions all say NoConstraints always validates |
| Engine.FirstFailure | lib/index.ts:31-42 | checking nodes in order passes only if every node passes, and a failing first node is what it reports |
| Engine.Bliss.constructor | lib/index.ts:5-8 | a new engine has the given config and an empty registry |
| Engine.Bliss.Commit | lib/index.ts:14-16 | appends the definition at the end of the registry and leaves the earlier entries and their order unchanged |
| Engine.Bliss.Convert | lib/index.ts:18-28 | converts against the current registry: the ConvertedFrom tree on success, the first unmatched raw node on failure |
| Engine.Bliss.Validate | lib/index.ts:30-43 | the queue loop computes FirstFailure over the breadth-first walk from the root |

## Left out

- `defineNode` and the definition builder: lib/node-definition.ts is not part of this model. Definitions are given as finished records and registered with `Commit`.
- lib/dom.ts (node-type predicates over the browser DOM): a matcher is any total predicate on `RawNode`. `nodeType` is carried but not interpreted.
- The bodies of user parsers and the `Reflect.apply` call: `Parse` returns the call it would make (receiver, state, config), not the parser's result or its effects on the state.
- The message text of `BlissValidationError` (the rendered node, the rendered DOM node, the line number, the actual and expected strings): errors carry structured data instead (node, kind, count, min, max).
- Validation.UnexpectedKinds: carries the set of leftover kinds. The order in which the message lists them (`Map` insertion order) is not modelled.
- Numeric bounds: `min` is a natural number and `max` is a natural number or `Unbounded`. Negative, fractional or NaN bounds in hand-written appearances are not modelled.
- A constraint value that is present but falsy cannot occur in the types here, so only an absent constraint yields `MissingConstraint`.
- A missing `childNodes` (`|| []`) is modelled as an empty child sequence. The unused `depth` parameter of `convert` is dropped.
- Type-level machinery (`ChildrenTypes`, `DefOrNameToBlissNode`) has no runtime behaviour.
- Object identity: semantic nodes are immutable values, so aliasing is not modelled. That `getAllDescendants` walks a copy and leaves the children untouched holds trivially. "Exactly once" is stated as a multiset permutation of the tree's node occurrences.
- Conversion stays recursive as in the source; stack depth is not modelled.
- Truncate: lengths count Unicode scalar values (Dafny's `char`), while JavaScript's `length` counts UTF-16 code units. A rendering with characters outside the Basic Multilingual Plane can be over 200 code units long and still fit in the model, and the model never cuts a surrogate pair in half as `slice` can. For example, 150 × U+1F600 is 300 code units: JavaScript truncates it, leaving a lone high surrogate before "...", while the model returns it unchanged.
- SliceTo: counts Unicode scalar values, not UTF-16 code units, for the same reason.
