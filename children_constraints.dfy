/** The children-cardinality constraint model, and the node-definition record that the
    constraints refer to. */
module ChildrenConstraints {
  import opened Wrappers
  import opened RawTree

  /** An upper bound on a count: a natural number or +infinity. */
  datatype Bound = Finite(n: nat) | Unbounded

  /** A node kind: its name, the matcher that recognises its raw nodes, its (optional)
      children constraint and whether it declares a parser. */
  datatype Definition = Definition(
    name: string,
    matcher: RawNode -> bool,
    childrenConstraints: Option<ChildrenConstraint>,
    hasParser: bool)

  /** A kind named either by its definition or by the bare name. */
  datatype KindRef = ByName(name: string) | ByDefinition(def: Definition)
  {
    function Name(): (r: string)
      ensures this.ByName? ==> r == this.name
      ensures this.ByDefinition? ==> r == this.def.name
    {
      match this
      case ByName(n) => n
      case ByDefinition(d) => d.name
    }
  }

  /** A kind that must appear n times among the children, where min <= n <= max. */
  datatype Appearance = Appearance(node: KindRef, min: nat, max: Bound)

  /** The closed three-case constraint. `NoChildren` is the source's `None` constant
      (renamed to keep it apart from `Option.None`). */
  datatype ChildrenConstraint =
    | NoConstraints
    | NoChildren
    | Contains(contains: seq<Appearance>)

  /** Whether `count` lies in [min, max]: the negation of the validator's
      `actual < min || actual > max`. */
  predicate Admits(a: Appearance, count: nat)
  {
    a.min <= count && (a.max.Unbounded? || count <= a.max.n)
  }

  /** The documented meaning "min <= max": some count is admitted. */
  predicate WellFormed(a: Appearance)
  {
    a.max.Unbounded? || a.min <= a.max.n
  }

  /** The kind may appear any number of times. */
  function Any(node: KindRef): (a: Appearance)
    ensures a.node == node && a.min == 0 && a.max == Unbounded
  {
    Appearance(node, 0, Unbounded)
  }

  /** The kind must appear exactly once. */
  function One(node: KindRef): (a: Appearance)
    ensures a.node == node && a.min == 1 && a.max == Finite(1)
  {
    Appearance(node, 1, Finite(1))
  }

  /** The kind may appear at most once. */
  function AtMostOne(node: KindRef): (a: Appearance)
    ensures a.node == node && a.min == 0 && a.max == Finite(1)
  {
    Appearance(node, 0, Finite(1))
  }

  /** The kind must appear at least once. */
  function AtLeastOne(node: KindRef): (a: Appearance)
    ensures a.node == node && a.min == 1 && a.max == Unbounded
  {
    Appearance(node, 1, Unbounded)
  }

  /** What each builder admits, and that each is well formed (min <= max). */
  lemma BuildersMeaning(node: KindRef, count: nat)
    ensures WellFormed(Any(node)) && Admits(Any(node), count)
    ensures WellFormed(One(node)) && (Admits(One(node), count) <==> count == 1)
    ensures WellFormed(AtMostOne(node)) && (Admits(AtMostOne(node), count) <==> count <= 1)
    ensures WellFormed(AtLeastOne(node)) && (Admits(AtLeastOne(node), count) <==> count >= 1)
  {
  }

  /** A well-formed appearance admits its own minimum, and an ill-formed one admits nothing. */
  lemma WellFormedIffSatisfiable(a: Appearance)
    ensures WellFormed(a) <==> Admits(a, a.min)
    ensures !WellFormed(a) ==> forall count: nat :: !Admits(a, count)
  {
  }
}
