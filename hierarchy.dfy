/** The target ontology's class hierarchy, as the generator sees it: the
    immediate super- and sub-classes of a class (used by the search) and its
    transitive ancestors and descendants (used by the validation query).
    Class names and ontology entities are taken to be in one-to-one
    correspondence, so a class is identified by its abbreviated name. */
module Hierarchy {

  type Name = string

  /** The subsumption direction: "<" (broader, walk to super-classes) or
      ">" (narrower, walk to sub-classes). */
  datatype Relation = Broader | Narrower

  /** The symbol the generator is configured with for each direction. */
  function Symbol(r: Relation): string {
    match r
    case Broader => "<"
    case Narrower => ">"
  }

  /** An ontology: its class index (in index order) and, per class, its
      immediate super- and sub-classes (in the accessor's order) and its
      transitive ancestors and descendants. */
  datatype Ontology = Ontology(
    classIndex: seq<Name>,
    supers: map<Name, seq<Name>>,
    subs: map<Name, seq<Name>>,
    ancestors: map<Name, set<Name>>,
    descendants: map<Name, set<Name>>)

  /** The classes a name lookup can find. */
  function Classes(o: Ontology): set<Name> {
    set n | n in o.classIndex
  }

  /** One move in the search direction: the immediate super-classes for
      Broader, the immediate sub-classes for Narrower. */
  function Move(o: Ontology, rel: Relation, x: Name): seq<Name> {
    match rel
    case Broader => if x in o.supers then o.supers[x] else []
    case Narrower => if x in o.subs then o.subs[x] else []
  }

  /** The transitive counterpart of Move: ancestors for Broader,
      descendants for Narrower. */
  function Related(o: Ontology, rel: Relation, x: Name): set<Name> {
    match rel
    case Broader => if x in o.ancestors then o.ancestors[x] else {}
    case Narrower => if x in o.descendants then o.descendants[x] else {}
  }

  /** Everything one move away from some member of `xs`. */
  function Step(o: Ontology, rel: Relation, xs: set<Name>): set<Name> {
    set z, y | z in xs && y in Move(o, rel, z) :: y
  }

  /** The classes reached from `x` by exactly `k` moves (a walk, not
      necessarily a shortest one). */
  function Reach(o: Ontology, rel: Relation, x: Name, k: nat): set<Name> {
    if k == 0 then {x} else Step(o, rel, Reach(o, rel, x, k - 1))
  }

  /** Stepping from one more class adds exactly its neighbours. */
  lemma StepAdd(o: Ontology, rel: Relation, xs: set<Name>, x: Name)
    ensures Step(o, rel, xs + {x}) == Step(o, rel, xs) + (set y | y in Move(o, rel, x))
  {
    forall y | y in Move(o, rel, x) ensures y in Step(o, rel, xs + {x}) {
      assert x in xs + {x};
    }
  }

  /** Stepping from a single class reaches exactly its neighbours. */
  lemma StepSingle(o: Ontology, rel: Relation, x: Name)
    ensures Step(o, rel, {x}) == set y | y in Move(o, rel, x)
  {
    StepAdd(o, rel, {}, x);
    assert {} + {x} == {x};
  }

  /** Stepping from more classes reaches more. */
  lemma StepMono(o: Ontology, rel: Relation, xs: set<Name>, ys: set<Name>)
    requires xs <= ys
    ensures Step(o, rel, xs) <= Step(o, rel, ys)
  {
    forall y | y in Step(o, rel, xs) ensures y in Step(o, rel, ys) {
      var z :| z in xs && y in Move(o, rel, z);
      assert z in ys;
    }
  }

  /** A neighbour of a class reached in `k` moves is reached in `k + 1`. */
  lemma ReachStep(o: Ontology, rel: Relation, x: Name, k: nat, z: Name)
    requires z in Reach(o, rel, x, k)
    ensures forall y :: y in Move(o, rel, z) ==> y in Reach(o, rel, x, k + 1)
  {
    forall y | y in Move(o, rel, z) ensures y in Reach(o, rel, x, k + 1) {
      assert y in Step(o, rel, Reach(o, rel, x, k));
    }
  }

  /** The transitive sets agree with the immediate ones: every immediate
      neighbour is related, and relatedness is transitive. */
  ghost predicate Coherent(o: Ontology, rel: Relation) {
    && (forall x, y :: y in Move(o, rel, x) ==> y in Related(o, rel, x))
    && (forall x, z, y :: z in Related(o, rel, x) && y in Related(o, rel, z) ==> y in Related(o, rel, x))
  }

  /** In a coherent hierarchy every class reached by one or more moves is
      among the ancestors (Broader) or descendants (Narrower). */
  lemma {:induction false} ReachWithinRelated(o: Ontology, rel: Relation, x: Name, k: nat)
    requires Coherent(o, rel)
    requires 1 <= k
    ensures Reach(o, rel, x, k) <= Related(o, rel, x)
  {
    if k > 1 {
      ReachWithinRelated(o, rel, x, k - 1);
    }
    forall y | y in Reach(o, rel, x, k) ensures y in Related(o, rel, x) {
      var z :| z in Reach(o, rel, x, k - 1) && y in Move(o, rel, z);
      assert y in Related(o, rel, z);
      if k == 1 {
        assert z == x;
      } else {
        assert z in Related(o, rel, x);
      }
    }
  }
}
