/** The subsumption-mapping generator: from equivalence pairs (src, tgt) it
    derives subsumption pairs (src, n), finding each n by a hop-bounded
    breadth-first walk from tgt through the target hierarchy, and keeps a
    per-run generation record (pairs, hop record, delete and construct
    status).  Two policies decide which target classes are marked deleted:
    static (all marks up front) and online (marks made pair by pair). */
module SubsMaps {
  import opened Collections
  import opened Hierarchy

  /** A mapping between a source class and a target class. */
  type Pair = (Name, Name)

  /** Why constructing a generator fails. */
  datatype InitError =
    | UnknownRelation(rel: string)   // the relation is neither "<" nor ">"
    | NoEquivalences                 // nothing to sample the sanity check from
    | CheckFailed(pair: Pair)        // the sampled pair has an endpoint outside its class index

  datatype Result<+T, +E> = Success(value: T) | Failure(error: E)

  /** The order in which each round of a search visited its frontier. */
  type Visits = seq<seq<Name>>

  /** The relation check of the constructor: only "<" and ">" are known. */
  function ParseRelation(rel: string): (r: Result<Relation, InitError>)
    ensures r.Success? <==> rel == "<" || rel == ">"
    ensures r.Success? ==> Symbol(r.value) == rel
    ensures r.Failure? ==> r.error == UnknownRelation(rel)
  {
    if rel == "<" then Success(Broader)
    else if rel == ">" then Success(Narrower)
    else Failure(UnknownRelation(rel))
  }

  // ---------------------------------------------------------------------
  // Status maps.  A status map defaults to false: a name that is absent
  // reads as not marked.

  predicate Marked(status: map<Name, bool>, n: Name) {
    n in status && status[n]
  }

  /** The names a status map marks. */
  function MarkedSet(status: map<Name, bool>): set<Name> {
    set n | n in status && status[n]
  }

  /** A status map whose entries are all true marks exactly its keys. */
  lemma MarkedSetAllTrue(status: map<Name, bool>)
    requires forall n :: n in status ==> status[n]
    ensures MarkedSet(status) == status.Keys
  {
  }

  /** The names of `ns`, in order, that `status` does not mark. */
  function Unmarked(ns: seq<Name>, status: map<Name, bool>): (r: seq<Name>)
    ensures forall n :: n in r <==> n in ns && !Marked(status, n)
    ensures |r| <= |ns|
  {
    if ns == [] then []
    else
      var init := ns[..|ns| - 1];
      var last := ns[|ns| - 1];
      assert ns == init + [last];
      Unmarked(init, status) + (if Marked(status, last) then [] else [last])
  }

  /** With no marks in place every class is kept, in index order. */
  lemma {:induction false} NothingMarkedKeepsAll(ns: seq<Name>, status: map<Name, bool>)
    requires forall n :: n in ns ==> !Marked(status, n)
    ensures Unmarked(ns, status) == ns
  {
    if ns != [] {
      var init := ns[..|ns| - 1];
      var last := ns[|ns| - 1];
      assert ns == init + [last];
      NothingMarkedKeepsAll(init, status);
      assert !Marked(status, last);
      assert Unmarked(ns, status) == Unmarked(init, status) + [last];
    }
  }

  // ---------------------------------------------------------------------
  // Value-level descriptions of one neighbour scan.

  /** A neighbour may be accepted unless deletion is enabled and it is marked
      deleted. */
  predicate Eligible(isDelete: bool, deleted: set<Name>, n: Name) {
    !(isDelete && n in deleted)
  }

  /** The neighbours of `ns` that may be accepted, in order. */
  function Admitted(ns: seq<Name>, isDelete: bool, deleted: set<Name>): seq<Name> {
    if ns == [] then []
    else
      var last := ns[|ns| - 1];
      Admitted(ns[..|ns| - 1], isDelete, deleted) + (if Eligible(isDelete, deleted, last) then [last] else [])
  }

  /** The admitted neighbours are exactly the eligible ones. */
  lemma {:induction false} AdmittedMembers(ns: seq<Name>, isDelete: bool, deleted: set<Name>)
    ensures forall n :: n in Admitted(ns, isDelete, deleted) <==> n in ns && Eligible(isDelete, deleted, n)
  {
    if ns != [] {
      var init := ns[..|ns| - 1];
      AdmittedMembers(init, isDelete, deleted);
      assert ns == init + [ns[|ns| - 1]];
    }
  }

  lemma AdmittedSnoc(ns: seq<Name>, n: Name, isDelete: bool, deleted: set<Name>)
    ensures Admitted(ns + [n], isDelete, deleted)
         == Admitted(ns, isDelete, deleted) + (if Eligible(isDelete, deleted, n) then [n] else [])
  {
    assert (ns + [n])[..|ns|] == ns;
  }

  /** Admitting a prefix admits a prefix. */
  lemma {:induction false} AdmittedPrefix(ns: seq<Name>, j: nat, isDelete: bool, deleted: set<Name>)
    requires j <= |ns|
    ensures Admitted(ns[..j], isDelete, deleted) <= Admitted(ns, isDelete, deleted)
  {
    if j < |ns| {
      var init := ns[..|ns| - 1];
      assert init[..j] == ns[..j];
      AdmittedPrefix(init, j, isDelete, deleted);
    } else {
      assert ns[..j] == ns;
    }
  }

  /** The first `k` elements of `s` (all of them when `s` is shorter, none
      when `k` is not positive). */
  function Take(s: seq<Name>, k: int): (r: seq<Name>)
    ensures r <= s
    ensures |r| == if k <= 0 then 0 else if k < |s| then k else |s|
  {
    if k <= 0 then [] else if k < |s| then s[..k] else s
  }

  /** What one neighbour scan accepts from the admitted neighbours when
      `count` neighbours were accepted before it.  The scan stops when the
      running count becomes EQUAL to the ratio, so below the ratio it takes
      just enough to reach it, and at or above the ratio it takes everything. */
  function Accepted(count: int, admitted: seq<Name>, ratio: int): (r: seq<Name>)
    ensures count < ratio ==> |r| == if ratio - count < |admitted| then ratio - count else |admitted|
    ensures count >= ratio ==> r == admitted
    ensures r <= admitted
  {
    if count < ratio then Take(admitted, ratio - count) else admitted
  }

  /** A scan that leaves the count below the ratio accepted every admitted
      neighbour. */
  lemma AcceptedAll(count: int, admitted: seq<Name>, ratio: int)
    requires count + |Accepted(count, admitted, ratio)| < ratio
    ensures Accepted(count, admitted, ratio) == admitted
  {
  }

  /** `src` paired with each of `ns`, in order. */
  function PairWith(src: Name, ns: seq<Name>): (r: seq<Pair>)
    ensures |r| == |ns|
    ensures forall p :: p in r <==> p.0 == src && p.1 in ns
  {
    if ns == [] then []
    else
      var init := ns[..|ns| - 1];
      assert ns == init + [ns[|ns| - 1]];
      PairWith(src, init) + [(src, ns[|ns| - 1])]
  }

  /** The target sides of a list of pairs. */
  function Targets(ps: seq<Pair>): set<Name> {
    set p | p in ps :: p.1
  }

  lemma TargetsAppend(a: seq<Pair>, b: seq<Pair>)
    ensures Targets(a + b) == Targets(a) + Targets(b)
  {
    forall n | n in Targets(a) + Targets(b) ensures n in Targets(a + b) {
      if n in Targets(a) {
        var p :| p in a && p.1 == n;
        assert p in a + b;
      } else {
        var p :| p in b && p.1 == n;
        assert p in a + b;
      }
    }
  }

  lemma UniqifyKeepsSets(ps: seq<Pair>)
    ensures Elems(Uniqify(ps)) == Elems(ps)
    ensures Targets(Uniqify(ps)) == Targets(ps)
  {
    forall n | n in Targets(ps) ensures n in Targets(Uniqify(ps)) {
      var p :| p in ps && p.1 == n;
      assert p in Uniqify(ps);
    }
  }

  /** `hops` is `h0` with a hop recorded for (src, n) for every n of `ns`,
      and with every other entry left as it was. */
  ghost predicate HopsFor(hops: map<Pair, int>, h0: map<Pair, int>, src: Name, ns: seq<Name>) {
    && (forall p :: p in hops <==> p in h0 || (p.0 == src && p.1 in ns))
    && (forall p :: p in h0 && !(p.0 == src && p.1 in ns) ==> hops[p] == h0[p])
  }

  /** `built` is `b0` with every name of `ns` marked, and with every other
      entry left as it was. */
  ghost predicate MarksFor(built: map<Name, bool>, b0: map<Name, bool>, ns: seq<Name>) {
    && (forall n :: n in built <==> n in b0 || n in ns)
    && (forall n :: n in built ==> built[n] == (n in ns || b0[n]))
  }

  lemma HopsForTrans(h2: map<Pair, int>, h1: map<Pair, int>, h0: map<Pair, int>, src: Name, a: seq<Name>, b: seq<Name>)
    requires HopsFor(h1, h0, src, a) && HopsFor(h2, h1, src, b)
    ensures HopsFor(h2, h0, src, a + b)
  {
  }

  lemma MarksForTrans(m2: map<Name, bool>, m1: map<Name, bool>, m0: map<Name, bool>, a: seq<Name>, b: seq<Name>)
    requires MarksFor(m1, m0, a) && MarksFor(m2, m1, b)
    ensures MarksFor(m2, m0, a + b)
  {
  }

  /** Accepting one more neighbour `n` at `hop` extends the scan's record. */
  lemma AcceptOne(hops': map<Pair, int>, hops: map<Pair, int>, built': map<Name, bool>, built: map<Name, bool>,
                  src: Name, added: seq<Name>, n: Name, hop: int)
    requires HopsFor(hops', hops, src, added) && MarksFor(built', built, added)
    requires forall x :: x in added ==> hops'[(src, x)] == hop
    ensures HopsFor(hops'[(src, n) := hop], hops, src, added + [n])
    ensures MarksFor(built'[n := true], built, added + [n])
    ensures forall x :: x in added + [n] ==> hops'[(src, n) := hop][(src, x)] == hop
  {
  }

  /** What holds once the scan has looked at the first `i` neighbours:
      `added` are the admitted ones among them, appended to the accepted
      list and counted, each with its hop recorded and marked constructed.
      The parameters come in three groups: the scan itself (`src` to
      `deleted`), the loop variables when the scan began (`valid` to
      `built`), and the same variables now, primed, with `added`. */
  ghost predicate ScanInv(src: Name, hop: int, neighbours: seq<Name>, i: int, isDelete: bool, deleted: set<Name>,
                          valid: seq<Name>, numAdded: int, hops: map<Pair, int>, built: map<Name, bool>,
                          added: seq<Name>, valid': seq<Name>, numAdded': int, hops': map<Pair, int>,
                          built': map<Name, bool>) {
    && 0 <= i <= |neighbours|
    && added == Admitted(neighbours[..i], isDelete, deleted)
    && valid' == valid + added && numAdded' == numAdded + |added|
    && HopsFor(hops', hops, src, added)
    && (forall n :: n in added ==> hops'[(src, n)] == hop)
    && MarksFor(built', built, added)
  }

  /** Skipping a neighbour that may not be accepted keeps ScanInv. */
  lemma ScanSkip(src: Name, hop: int, neighbours: seq<Name>, i: int, isDelete: bool, deleted: set<Name>,
                 valid: seq<Name>, numAdded: int, hops: map<Pair, int>, built: map<Name, bool>,
                 added: seq<Name>, valid': seq<Name>, numAdded': int, hops': map<Pair, int>,
                 built': map<Name, bool>)
    requires ScanInv(src, hop, neighbours, i, isDelete, deleted, valid, numAdded, hops, built,
                     added, valid', numAdded', hops', built')
    requires i < |neighbours| && !Eligible(isDelete, deleted, neighbours[i])
    ensures ScanInv(src, hop, neighbours, i + 1, isDelete, deleted, valid, numAdded, hops, built,
                    added, valid', numAdded', hops', built')
  {
    assert neighbours[..i + 1] == neighbours[..i] + [neighbours[i]];
    AdmittedSnoc(neighbours[..i], neighbours[i], isDelete, deleted);
  }

  /** Accepting an admissible neighbour keeps ScanInv with the neighbour
      appended, its hop recorded and its construct mark set. */
  lemma ScanAccept(src: Name, hop: int, neighbours: seq<Name>, i: int, isDelete: bool, deleted: set<Name>,
                   valid: seq<Name>, numAdded: int, hops: map<Pair, int>, built: map<Name, bool>,
                   added: seq<Name>, valid': seq<Name>, numAdded': int, hops': map<Pair, int>,
                   built': map<Name, bool>)
    requires ScanInv(src, hop, neighbours, i, isDelete, deleted, valid, numAdded, hops, built,
                     added, valid', numAdded', hops', built')
    requires i < |neighbours| && Eligible(isDelete, deleted, neighbours[i])
    ensures ScanInv(src, hop, neighbours, i + 1, isDelete, deleted, valid, numAdded, hops, built,
                    added + [neighbours[i]], valid' + [neighbours[i]], numAdded' + 1,
                    hops'[(src, neighbours[i]) := hop], built'[neighbours[i] := true])
  {
    var n := neighbours[i];
    assert neighbours[..i + 1] == neighbours[..i] + [n];
    AdmittedSnoc(neighbours[..i], n, isDelete, deleted);
    AcceptOne(hops', hops, built', built, src, added, n, hop);
  }

  /** Where the scan ends -- after the last neighbour without reaching the
      ratio, or as soon as the running count equals it -- what it accepted
      is Accepted of the admitted neighbours. */
  lemma ScanResult(src: Name, hop: int, neighbours: seq<Name>, i: int, isDelete: bool, deleted: set<Name>,
                   ratio: int, valid: seq<Name>, numAdded: int, hops: map<Pair, int>, built: map<Name, bool>,
                   added: seq<Name>, valid': seq<Name>, numAdded': int, hops': map<Pair, int>,
                   built': map<Name, bool>)
    requires ScanInv(src, hop, neighbours, i, isDelete, deleted, valid, numAdded, hops, built,
                     added, valid', numAdded', hops', built')
    requires (i == |neighbours| && (numAdded < ratio ==> numAdded' < ratio)) || (numAdded < ratio && numAdded' == ratio)
    ensures added == Accepted(numAdded, Admitted(neighbours, isDelete, deleted), ratio)
    ensures forall n :: n in added ==> n in neighbours && Eligible(isDelete, deleted, n)
    ensures numAdded' < ratio ==> forall n :: n in neighbours && Eligible(isDelete, deleted, n) ==> n in added
  {
    var admitted := Admitted(neighbours, isDelete, deleted);
    AdmittedPrefix(neighbours, i, isDelete, deleted);
    AdmittedMembers(neighbours, isDelete, deleted);
    if i == |neighbours| {
      assert neighbours[..i] == neighbours;
    }
    if numAdded < ratio && numAdded' == ratio && ratio - numAdded < |admitted| {
      assert added == admitted[..ratio - numAdded];
    }
  }

  /** The scan of one frontier node's neighbours (the inner loop of the
      search), on the hop record `hops` and construct status `built` it
      receives: it skips neighbours that deletion is on for and that `status`
      marks deleted, records the hop of and marks constructed each accepted
      one, and stops once the running count equals `ratio`.  It returns the
      accepted list and count and the two updated maps. */
  method AcceptNeighbours(src: Name, hop: int, neighbours: seq<Name>, isDelete: bool, status: map<Name, bool>,
                          ratio: int, valid: seq<Name>, numAdded: int, hops: map<Pair, int>, built: map<Name, bool>)
    returns (valid': seq<Name>, numAdded': int, hops': map<Pair, int>, built': map<Name, bool>, ghost added: seq<Name>)
    requires numAdded == |valid|
    ensures added == Accepted(numAdded, Admitted(neighbours, isDelete, MarkedSet(status)), ratio)
    ensures valid' == valid + added && numAdded' == |valid'|
    ensures forall n :: n in added ==> n in neighbours && Eligible(isDelete, MarkedSet(status), n)
    ensures numAdded' < ratio ==>
              forall n :: n in neighbours && Eligible(isDelete, MarkedSet(status), n) ==> n in added
    ensures HopsFor(hops', hops, src, added)
    ensures forall n :: n in added ==> hops'[(src, n)] == hop
    ensures MarksFor(built', built, added)
  {
    ghost var deleted := MarkedSet(status);
    added := [];
    valid' := valid;
    numAdded' := numAdded;
    hops' := hops;
    built' := built;
    for i := 0 to |neighbours|
      invariant ScanInv(src, hop, neighbours, i, isDelete, deleted, valid, numAdded, hops, built,
                        added, valid', numAdded', hops', built')
      invariant numAdded < ratio ==> numAdded' < ratio
    {
      var neighbour := neighbours[i];
      if isDelete && Marked(status, neighbour) {
        ScanSkip(src, hop, neighbours, i, isDelete, deleted, valid, numAdded, hops, built,
                 added, valid', numAdded', hops', built');
        continue;
      }
      ScanAccept(src, hop, neighbours, i, isDelete, deleted, valid, numAdded, hops, built,
                 added, valid', numAdded', hops', built');
      hops' := hops'[(src, neighbour) := hop];
      valid' := valid' + [neighbour];
      built' := built'[neighbour := true];
      numAdded' := numAdded' + 1;
      added := added + [neighbour];
      if numAdded' == ratio {
        // The break of the scan: nothing follows the loop, so it ends here.
        ScanResult(src, hop, neighbours, i + 1, isDelete, deleted, ratio, valid, numAdded, hops, built,
                   added, valid', numAdded', hops', built');
        return;
      }
    }
    ScanResult(src, hop, neighbours, |neighbours|, isDelete, deleted, ratio, valid, numAdded, hops, built,
               added, valid', numAdded', hops', built');
  }

  // ---------------------------------------------------------------------

  class Generator {
    const srcOnto: Ontology
    const tgtOnto: Ontology
    const rel: Relation
    /** The equivalence pairs, in store order. */
    const equivPairs: seq<Pair>
    /** For each source class, its equivalent target classes in rank order. */
    const ranked: map<Name, seq<Name>>
    /** The number of accepted neighbours at which a search stops. */
    const maxSubsRatio: int
    const isDeleteEquivTgt: bool
    const maxHop: int

    // The generation record.
    var subPairs: seq<Pair>
    var hopRecord: map<Pair, int>
    var deleteStatus: map<Name, bool>
    var constructStatus: map<Name, bool>

    /** The record holds nothing: no pairs, no hops, no marks. */
    predicate RecordEmpty()
      reads this
    {
      subPairs == [] && hopRecord == map[] && deleteStatus == map[] && constructStatus == map[]
    }

    constructor (srcOnto: Ontology, tgtOnto: Ontology, rel: Relation, equivPairs: seq<Pair>,
                 ranked: map<Name, seq<Name>>, maxSubsRatio: int, isDeleteEquivTgt: bool, maxHop: int)
      ensures this.srcOnto == srcOnto && this.tgtOnto == tgtOnto && this.rel == rel
      ensures this.equivPairs == equivPairs && this.ranked == ranked
      ensures this.maxSubsRatio == maxSubsRatio && this.isDeleteEquivTgt == isDeleteEquivTgt
      ensures this.maxHop == maxHop
      ensures RecordEmpty()
    {
      this.srcOnto := srcOnto;
      this.tgtOnto := tgtOnto;
      this.rel := rel;
      this.equivPairs := equivPairs;
      this.ranked := ranked;
      this.maxSubsRatio := maxSubsRatio;
      this.isDeleteEquivTgt := isDeleteEquivTgt;
      this.maxHop := maxHop;
      subPairs := [];
      hopRecord := map[];
      deleteStatus := map[];
      constructStatus := map[];
    }

    /** Construction with its checks: the relation must be "<" or ">", and
        one equivalence pair, chosen by `pick` (the random choice), must have
        its source in the source class index and its target in the target
        class index.  Choosing from an empty list of pairs fails too. */
    static method Create(srcOnto: Ontology, tgtOnto: Ontology, rel: string, equivPairs: seq<Pair>,
                         ranked: map<Name, seq<Name>>, maxSubsRatio: int, isDeleteEquivTgt: bool,
                         maxHop: int, pick: nat)
      returns (r: Result<Generator, InitError>)
      ensures ParseRelation(rel).Failure? ==> r == Failure(UnknownRelation(rel))
      ensures ParseRelation(rel).Success? && equivPairs == [] ==> r == Failure(NoEquivalences)
      ensures ParseRelation(rel).Success? && equivPairs != [] ==>
                var check := equivPairs[pick % |equivPairs|];
                (r.Failure? <==> !(check.0 in Classes(srcOnto) && check.1 in Classes(tgtOnto))) &&
                (r.Failure? ==> r.error == CheckFailed(check))
      ensures r.Success? ==>
                && fresh(r.value)
                && r.value.rel == ParseRelation(rel).value && Symbol(r.value.rel) == rel
                && r.value.srcOnto == srcOnto && r.value.tgtOnto == tgtOnto
                && r.value.equivPairs == equivPairs && r.value.ranked == ranked
                && r.value.maxSubsRatio == maxSubsRatio && r.value.isDeleteEquivTgt == isDeleteEquivTgt
                && r.value.maxHop == maxHop
                && r.value.RecordEmpty()
    {
      var parsed := ParseRelation(rel);
      if parsed.Failure? {
        return Failure(parsed.error);
      }
      if equivPairs == [] {
        return Failure(NoEquivalences);
      }
      var check := equivPairs[pick % |equivPairs|];
      if !(check.0 in srcOnto.classIndex && check.1 in tgtOnto.classIndex) {
        return Failure(CheckFailed(check));
      }
      var g := new Generator(srcOnto, tgtOnto, parsed.value, equivPairs, ranked, maxSubsRatio,
                             isDeleteEquivTgt, maxHop);
      return Success(g);
    }

    /** Every equivalence target can be looked up in the target ontology. */
    predicate LookupsSucceed() {
      forall e :: e in equivPairs ==> e.1 in Classes(tgtOnto)
    }

    /** Clears the generation record for a fresh pass. */
    method RenewSubs()
      modifies this`subPairs, this`hopRecord, this`deleteStatus, this`constructStatus
      ensures RecordEmpty()
      ensures forall n :: !Marked(deleteStatus, n) && !Marked(constructStatus, n)
    {
      subPairs := [];
      hopRecord := map[];
      deleteStatus := map[];
      constructStatus := map[];
    }

    // -------------------------------------------------------------------
    // Specification of one search.

    /** `n` is reached from `tgt` by between 1 and maxHop moves. */
    ghost predicate WithinHops(tgt: Name, n: Name) {
      exists h :: 1 <= h <= maxHop && n in Reach(tgtOnto, rel, tgt, h)
    }

    /** What the first round of a search accepts: the first maxSubsRatio
        admitted immediate neighbours of `tgt`. */
    function FirstRound(tgt: Name, deleted: set<Name>): seq<Name> {
      Take(Admitted(Move(tgtOnto, rel, tgt), isDeleteEquivTgt, deleted), maxSubsRatio)
    }

    /** The frontier (first) and the explored set (second) before round `r`
        of a search from `tgt`: round 1 has frontier {tgt} and nothing
        explored; each round explores its frontier, and the next frontier is
        the neighbours of the frontier that are not yet explored. */
    function Layers(tgt: Name, r: nat): (set<Name>, set<Name>)
      requires 1 <= r
    {
      if r == 1 then ({tgt}, {})
      else
        var prev := Layers(tgt, r - 1);
        (Step(tgtOnto, rel, prev.0) - (prev.1 + prev.0), prev.1 + prev.0)
    }

    /** What one round accepts when it visits its frontier in the order
        `order`, `count` neighbours having been accepted before it: the
        neighbour scan of each visited class in turn, each one starting from
        the count the scans before it left. */
    function RoundAccepted(order: seq<Name>, count: int, deleted: set<Name>): seq<Name> {
      if order == [] then []
      else
        var before := RoundAccepted(order[..|order| - 1], count, deleted);
        var last := order[|order| - 1];
        before + Accepted(count + |before|, Admitted(Move(tgtOnto, rel, last), isDeleteEquivTgt, deleted), maxSubsRatio)
    }

    /** What the rounds of a search accept, in order, when round r + 1
        visits its frontier in the order visits[r]. */
    function RunAccepted(visits: Visits, deleted: set<Name>): seq<Name> {
      if visits == [] then []
      else
        var before := RunAccepted(visits[..|visits| - 1], deleted);
        before + RoundAccepted(visits[|visits| - 1], |before|, deleted)
    }

    /** Every round recorded in `visits` (round r + 1 in visits[r]) visited
        each class of its frontier exactly once, and ran because the loop
        condition held when it began: fewer than maxSubsRatio accepted, and
        its hop at most maxHop. */
    ghost predicate RoundsRan(tgt: Name, deleted: set<Name>, visits: Visits)
      decreases |visits|
    {
      visits == [] ||
      var k := |visits| - 1;
      && RoundsRan(tgt, deleted, visits[..k])
      && Enumerates(visits[k], Layers(tgt, k + 1).0)
      && |RunAccepted(visits[..k], deleted)| < maxSubsRatio
      && k + 1 <= maxHop
    }

    /** The result `pairs` of a search from the equivalence pair (src, tgt)
        run while `deleted` are the classes marked deleted, when round r + 1
        visits its frontier (a set, iterated in no particular order) in the
        order visits[r]: rounds ran while the loop condition held and stop
        when it fails, and the result is what they accepted, paired with src
        and de-duplicated. */
    ghost predicate SearchOutcome(src: Name, tgt: Name, deleted: set<Name>, visits: Visits, pairs: seq<Pair>) {
      var accepted := RunAccepted(visits, deleted);
      && RoundsRan(tgt, deleted, visits)
      && !(|accepted| < maxSubsRatio && |visits| + 1 <= maxHop)
      && pairs == Uniqify(PairWith(src, accepted))
    }

    /** What each round of a search accepts, round by round, when round
        r + 1 visits its frontier in the order visits[r]. */
    function Rounds(visits: Visits, deleted: set<Name>): (r: seq<seq<Name>>)
      ensures |r| == |visits|
    {
      if visits == [] then []
      else
        var init := visits[..|visits| - 1];
        Rounds(init, deleted) + [RoundAccepted(visits[|visits| - 1], |RunAccepted(init, deleted)|, deleted)]
    }

    /** The last round of a search, visiting its frontiers in the orders
        `visits`, that accepted `n`, or 0 when no round did.  Every
        acceptance overwrites n's hop entry with the round's hop, so this is
        the value the search leaves recorded for n. */
    function LastRound(visits: Visits, deleted: set<Name>, n: Name): nat {
      LastIn(Rounds(visits, deleted), n)
    }

    /** The result `pairs` of a search from (src, tgt) run while `deleted`
        are marked deleted, visiting the frontiers in the orders `visits`,
        and the hop record `hops` and construct status `built` it leaves
        behind when it started from `h0` and `b0`: the outcome is
        SearchOutcome; the record gains exactly the result pairs, each with
        the last round that accepted its target as its hop, which is the
        length of a walk to it within maxHop (1 when the first round met the
        ratio); the construct status gains exactly the result targets;
        nothing else changes. */
    ghost predicate SearchRecorded(src: Name, tgt: Name, deleted: set<Name>, visits: Visits, pairs: seq<Pair>,
                                   hops: map<Pair, int>, h0: map<Pair, int>,
                                   built: map<Name, bool>, b0: map<Name, bool>) {
      && SearchOutcome(src, tgt, deleted, visits, pairs)
      && (forall p :: p in hops <==> p in h0 || p in pairs)
      && (forall p :: p in pairs ==> 1 <= hops[p] <= maxHop && p.1 in Reach(tgtOnto, rel, tgt, hops[p]))
      && (forall p :: p in pairs ==> hops[p] == LastRound(visits, deleted, p.1))
      && (forall p :: p in h0 && p !in pairs ==> hops[p] == h0[p])
      && (forall n :: n in built <==> n in b0 || (src, n) in pairs)
      && (forall n :: n in built ==> built[n] == ((src, n) in pairs || b0[n]))
      && (maxHop >= 1 && |FirstRound(tgt, deleted)| == maxSubsRatio ==> forall p :: p in pairs ==> hops[p] == 1)
    }

    /** A map that keeps `h0` outside `ps` and agrees with `m` on `ps`,
        where `m` has entries exactly for `ps`, is `h0` overwritten by `m`. */
    lemma Overwrite(hops: map<Pair, int>, h0: map<Pair, int>, ps: seq<Pair>, m: map<Pair, int>)
      requires forall p :: p in hops <==> p in h0 || p in ps
      requires forall p :: p in h0 && p !in ps ==> hops[p] == h0[p]
      requires forall p :: p in m <==> p in ps
      requires forall p :: p in ps ==> hops[p] == m[p]
      ensures hops == h0 + m
    {
    }

    /** The hop entries a search leaves for its result `pairs`, visiting
        its frontiers in the orders `visits` while `deleted` are marked: each
        pair with the last round that accepted its target. */
    function SearchHops(visits: Visits, deleted: set<Name>, pairs: seq<Pair>): map<Pair, int> {
      map p | p in pairs :: LastRound(visits, deleted, p.1)
    }

    /** A search's hop record is the one it started from, overwritten by
        the entries of its result. */
    lemma SearchRecordedHops(src: Name, tgt: Name, deleted: set<Name>, visits: Visits, pairs: seq<Pair>,
                             hops: map<Pair, int>, h0: map<Pair, int>, built: map<Name, bool>, b0: map<Name, bool>)
      requires SearchRecorded(src, tgt, deleted, visits, pairs, hops, h0, built, b0)
      ensures hops == h0 + SearchHops(visits, deleted, pairs)
    {
      var m := SearchHops(visits, deleted, pairs);
      assert forall p :: p in pairs ==> hops[p] == m[p];
      Overwrite(hops, h0, pairs, m);
    }

    // -------------------------------------------------------------------
    // What the search's specification implies.

    lemma {:induction false} RoundAcceptedSnoc(order: seq<Name>, y: Name, count: int, deleted: set<Name>)
      ensures RoundAccepted(order + [y], count, deleted)
           == RoundAccepted(order, count, deleted)
              + Accepted(count + |RoundAccepted(order, count, deleted)|,
                         Admitted(Move(tgtOnto, rel, y), isDeleteEquivTgt, deleted), maxSubsRatio)
    {
      var ext := order + [y];
      assert ext[..|ext| - 1] == order;
      assert ext[|ext| - 1] == y;
    }

    lemma {:induction false} RunAcceptedSnoc(visits: Visits, order: seq<Name>, deleted: set<Name>)
      ensures RunAccepted(visits + [order], deleted)
           == RunAccepted(visits, deleted) + RoundAccepted(order, |RunAccepted(visits, deleted)|, deleted)
    {
      assert (visits + [order])[..|visits|] == visits;
    }

    /** The accepted list of the first rounds leads the accepted list. */
    lemma {:induction false} RunAcceptedPrefix(visits: Visits, k: nat, deleted: set<Name>)
      requires k <= |visits|
      ensures RunAccepted(visits[..k], deleted) <= RunAccepted(visits, deleted)
    {
      if k < |visits| {
        var init := visits[..|visits| - 1];
        assert init[..k] == visits[..k];
        RunAcceptedPrefix(init, k, deleted);
      } else {
        assert visits[..k] == visits;
      }
    }

    lemma {:induction false} LastRoundSnoc(visits: Visits, order: seq<Name>, deleted: set<Name>, n: Name)
      ensures LastRound(visits + [order], deleted, n)
           == if n in RoundAccepted(order, |RunAccepted(visits, deleted)|, deleted) then |visits| + 1
              else LastRound(visits, deleted, n)
    {
      var ext := visits + [order];
      assert ext[..|ext| - 1] == visits;
      assert ext[|ext| - 1] == order;
      LastInSnoc(Rounds(visits, deleted), RoundAccepted(order, |RunAccepted(visits, deleted)|, deleted), n);
    }

    /** Round k + 1 of the rounds is what that round accepts. */
    lemma {:induction false} RoundsAt(visits: Visits, k: nat, deleted: set<Name>)
      requires k < |visits|
      ensures Rounds(visits, deleted)[k] == RoundAccepted(visits[k], |RunAccepted(visits[..k], deleted)|, deleted)
    {
      var last := |visits| - 1;
      var init := visits[..last];
      var rs := Rounds(init, deleted);
      assert Rounds(visits, deleted) == rs + [RoundAccepted(visits[last], |RunAccepted(init, deleted)|, deleted)];
      if k < last {
        RoundsAt(init, k, deleted);
        assert init[..k] == visits[..k] && init[k] == visits[k];
      }
    }

    /** The first of the rounds is what the first round accepts. */
    lemma RoundsFirst(visits: Visits, deleted: set<Name>)
      requires visits != []
      ensures Rounds(visits, deleted)[0] == RunAccepted(visits[..1], deleted)
    {
      RoundsAt(visits, 0, deleted);
      var none := visits[..0];
      assert none == [] && none + [visits[0]] == visits[..1];
      RunAcceptedSnoc(none, visits[0], deleted);
    }

    /** The rounds' acceptances, one after the other, are what the search
        accepts. */
    lemma {:induction false} RoundsFlatten(visits: Visits, deleted: set<Name>)
      ensures Flatten(Rounds(visits, deleted)) == RunAccepted(visits, deleted)
    {
      if visits != [] {
        var init := visits[..|visits| - 1];
        var rs := Rounds(visits, deleted);
        RoundsFlatten(init, deleted);
        assert rs[..|rs| - 1] == Rounds(init, deleted);
      }
    }

    /** A class has a positive LastRound exactly when the search accepted
        it; that round accepted it, and no later round did. */
    lemma LastRoundAccepted(visits: Visits, deleted: set<Name>, n: Name)
      ensures 1 <= LastRound(visits, deleted, n) <==> n in RunAccepted(visits, deleted)
      ensures var r := LastRound(visits, deleted, n);
              1 <= r ==> r <= |visits| && n in Rounds(visits, deleted)[r - 1]
      ensures forall k :: LastRound(visits, deleted, n) <= k < |visits| ==> n !in Rounds(visits, deleted)[k]
    {
      var rs := Rounds(visits, deleted);
      assert LastRound(visits, deleted, n) == LastIn(rs, n) && |rs| == |visits|;
      LastInMeaning(rs, n);
      LastInFlatten(rs, n);
      RoundsFlatten(visits, deleted);
    }

    /** A round visiting its frontier, begun while the loop condition held,
        extends the rounds run. */
    lemma RoundsRanSnoc(tgt: Name, deleted: set<Name>, visits: Visits, order: seq<Name>)
      requires RoundsRan(tgt, deleted, visits)
      requires Enumerates(order, Layers(tgt, |visits| + 1).0)
      requires |RunAccepted(visits, deleted)| < maxSubsRatio && |visits| + 1 <= maxHop
      ensures RoundsRan(tgt, deleted, visits + [order])
    {
      assert (visits + [order])[..|visits|] == visits;
    }

    /** What RoundsRan says of any one round r + 1. */
    lemma {:induction false} RoundsRanAt(tgt: Name, deleted: set<Name>, visits: Visits, r: nat)
      requires RoundsRan(tgt, deleted, visits) && r < |visits|
      ensures Enumerates(visits[r], Layers(tgt, r + 1).0)
      ensures |RunAccepted(visits[..r], deleted)| < maxSubsRatio && r + 1 <= maxHop
    {
      var k := |visits| - 1;
      if r < k {
        RoundsRanAt(tgt, deleted, visits[..k], r);
        assert visits[..k][r] == visits[r] && visits[..k][..r] == visits[..r];
      }
    }

    /** Every class a round accepts is an eligible neighbour of a class the
        round visited. */
    lemma {:induction false} RoundAcceptedMembers(order: seq<Name>, count: int, deleted: set<Name>)
      ensures forall n :: n in RoundAccepted(order, count, deleted) ==>
                Eligible(isDeleteEquivTgt, deleted, n) && n in Step(tgtOnto, rel, Elems(order))
    {
      if order != [] {
        var init, y := order[..|order| - 1], order[|order| - 1];
        assert order == init + [y];
        assert Elems(order) == Elems(init) + {y};
        RoundAcceptedMembers(init, count, deleted);
        RoundAcceptedSnoc(init, y, count, deleted);
        AdmittedMembers(Move(tgtOnto, rel, y), isDeleteEquivTgt, deleted);
        StepAdd(tgtOnto, rel, Elems(init), y);
      }
    }

    /** A round that ends below the ratio accepted every eligible neighbour
        of every class it visited. */
    lemma {:induction false} RoundAcceptedAll(order: seq<Name>, count: int, deleted: set<Name>)
      ensures count + |RoundAccepted(order, count, deleted)| < maxSubsRatio ==>
                forall y, n :: y in order && n in Move(tgtOnto, rel, y) && Eligible(isDeleteEquivTgt, deleted, n) ==>
                  n in RoundAccepted(order, count, deleted)
    {
      if order != [] {
        var init, y := order[..|order| - 1], order[|order| - 1];
        assert order == init + [y];
        RoundAcceptedAll(init, count, deleted);
        RoundAcceptedSnoc(init, y, count, deleted);
        var before := RoundAccepted(init, count, deleted);
        var admitted := Admitted(Move(tgtOnto, rel, y), isDeleteEquivTgt, deleted);
        if count + |RoundAccepted(order, count, deleted)| < maxSubsRatio {
          AcceptedAll(count + |before|, admitted, maxSubsRatio);
          AdmittedMembers(Move(tgtOnto, rel, y), isDeleteEquivTgt, deleted);
        }
      }
    }

    /** The frontier before round `r` is reached from `tgt` in r - 1 moves. */
    lemma {:induction false} LayersReach(tgt: Name, r: nat)
      requires 1 <= r
      ensures Layers(tgt, r).0 <= Reach(tgtOnto, rel, tgt, r - 1)
    {
      if r > 1 {
        LayersReach(tgt, r - 1);
        StepMono(tgtOnto, rel, Layers(tgt, r - 1).0, Reach(tgtOnto, rel, tgt, r - 2));
      }
    }

    /** The breadth-first layering before each round, with `explored` the
        classes whose neighbours were scanned: the neighbours of an explored
        class are explored or on the frontier; every class reached in fewer
        than hop - 1 moves is explored, and every class reached in hop - 1
        moves is explored or on the frontier; while below the ratio, every
        eligible neighbour of an explored class was accepted; and every
        eligible class reached in 1 to hop - 2 moves was accepted. */
    ghost predicate SearchCover(tgt: Name, deleted: set<Name>, hop: int, frontier: set<Name>,
                                explored: set<Name>, valid: seq<Name>) {
      && 1 <= hop
      && (forall y, n :: y in explored && n in Move(tgtOnto, rel, y) ==> n in explored || n in frontier)
      && (forall k: nat, y :: k < hop - 1 && y in Reach(tgtOnto, rel, tgt, k) ==> y in explored)
      && (forall y :: y in Reach(tgtOnto, rel, tgt, hop - 1) ==> y in explored || y in frontier)
      && ScannedAccepted(deleted, explored, valid)
      && (forall n, h :: 1 <= h < hop - 1 && n in Reach(tgtOnto, rel, tgt, h) && Eligible(isDeleteEquivTgt, deleted, n) ==>
            n in valid)
    }

    /** While fewer than maxSubsRatio were accepted in `valid`, every eligible
        neighbour of every class of `scanned` is among them. */
    ghost predicate ScannedAccepted(deleted: set<Name>, scanned: set<Name>, valid: seq<Name>) {
      |valid| < maxSubsRatio ==>
        forall y, n :: y in scanned && n in Move(tgtOnto, rel, y) && Eligible(isDeleteEquivTgt, deleted, n) ==> n in valid
    }

    /** A round that scanned the whole frontier, run while below the ratio,
        keeps the layering with the frontier moved into the explored set and
        the unexplored neighbours as the new frontier. */
    lemma SearchCoverStep(tgt: Name, deleted: set<Name>, hop: int, frontier: set<Name>, explored: set<Name>,
                          valid: seq<Name>, grown: seq<Name>, valid': seq<Name>)
      requires SearchCover(tgt, deleted, hop, frontier, explored, valid)
      requires |valid| < maxSubsRatio
      requires valid' == valid + grown
      requires ScannedAccepted(deleted, frontier, valid')
      ensures SearchCover(tgt, deleted, hop + 1, Step(tgtOnto, rel, frontier) - (explored + frontier),
                          explored + frontier, valid')
    {
      var explored', frontier' := explored + frontier, Step(tgtOnto, rel, frontier) - (explored + frontier);
      forall y, n | y in explored' && n in Move(tgtOnto, rel, y) ensures n in explored' || n in frontier' {
        if y in frontier {
          assert n in Step(tgtOnto, rel, frontier);
        }
      }
      forall y | y in Reach(tgtOnto, rel, tgt, hop) ensures y in explored' || y in frontier' {
        var z :| z in Reach(tgtOnto, rel, tgt, hop - 1) && y in Move(tgtOnto, rel, z);
        if z in frontier {
          assert y in Step(tgtOnto, rel, frontier);
        }
      }
      forall n, h | 1 <= h < hop && n in Reach(tgtOnto, rel, tgt, h) && Eligible(isDeleteEquivTgt, deleted, n)
        ensures n in valid'
      {
        var z :| z in Reach(tgtOnto, rel, tgt, h - 1) && n in Move(tgtOnto, rel, z);
        assert z in explored;
      }
    }

    /** The layering holds before the round after the ones in `visits`. */
    lemma {:induction false} RunCover(tgt: Name, deleted: set<Name>, visits: Visits)
      requires RoundsRan(tgt, deleted, visits)
      ensures SearchCover(tgt, deleted, |visits| + 1, Layers(tgt, |visits| + 1).0, Layers(tgt, |visits| + 1).1,
                          RunAccepted(visits, deleted))
    {
      if visits != [] {
        var k := |visits| - 1;
        var init, order := visits[..k], visits[k];
        assert visits == init + [order];
        RunCover(tgt, deleted, init);
        var before := RunAccepted(init, deleted);
        var grown := RoundAccepted(order, |before|, deleted);
        RunAcceptedSnoc(init, order, deleted);
        assert Enumerates(order, Layers(tgt, k + 1).0) && |before| < maxSubsRatio;
        RoundAcceptedAll(order, |before|, deleted);
        SearchCoverStep(tgt, deleted, k + 1, Layers(tgt, k + 1).0, Layers(tgt, k + 1).1, before, grown, before + grown);
      }
    }

    /** Every class a search accepts is eligible and reached within maxHop
        moves. */
    lemma {:induction false} RunSound(tgt: Name, deleted: set<Name>, visits: Visits)
      requires RoundsRan(tgt, deleted, visits)
      ensures forall n :: n in RunAccepted(visits, deleted) ==>
                Eligible(isDeleteEquivTgt, deleted, n) && WithinHops(tgt, n)
    {
      if visits != [] {
        var k := |visits| - 1;
        var init, order := visits[..k], visits[k];
        assert visits == init + [order];
        RunSound(tgt, deleted, init);
        var before := RunAccepted(init, deleted);
        RunAcceptedSnoc(init, order, deleted);
        RoundAcceptedMembers(order, |before|, deleted);
        LayersReach(tgt, k + 1);
        assert Enumerates(order, Layers(tgt, k + 1).0) && k + 1 <= maxHop;
        forall n | n in RoundAccepted(order, |before|, deleted) ensures WithinHops(tgt, n) {
          var z :| z in Elems(order) && n in Move(tgtOnto, rel, z);
          ReachStep(tgtOnto, rel, tgt, k, z);
        }
      }
    }

    /** Soundness: every result pair pairs src with an eligible class
        reached within maxHop moves. */
    lemma SearchSound(src: Name, tgt: Name, deleted: set<Name>, visits: Visits, pairs: seq<Pair>)
      requires SearchOutcome(src, tgt, deleted, visits, pairs)
      ensures forall p :: p in pairs ==>
                p.0 == src && Eligible(isDeleteEquivTgt, deleted, p.1) && WithinHops(tgt, p.1)
    {
      RunSound(tgt, deleted, visits);
      forall p | p in pairs ensures p.0 == src && p.1 in RunAccepted(visits, deleted) {
        assert p in PairWith(src, RunAccepted(visits, deleted));
      }
    }

    /** Completeness: every eligible class reached in fewer moves than the
        number of rounds run is in the result, and when the search ends
        below the ratio so is every eligible class within maxHop moves. */
    lemma SearchComplete(src: Name, tgt: Name, deleted: set<Name>, visits: Visits, pairs: seq<Pair>)
      requires SearchOutcome(src, tgt, deleted, visits, pairs)
      ensures forall n, h ::
                1 <= h < |visits| && n in Reach(tgtOnto, rel, tgt, h) && Eligible(isDeleteEquivTgt, deleted, n)
                ==> (src, n) in pairs
      ensures |RunAccepted(visits, deleted)| < maxSubsRatio ==>
                forall n, h ::
                  1 <= h <= maxHop && n in Reach(tgtOnto, rel, tgt, h) && Eligible(isDeleteEquivTgt, deleted, n)
                  ==> (src, n) in pairs
    {
      var accepted := RunAccepted(visits, deleted);
      var hop := |visits| + 1;
      var layers := Layers(tgt, hop);
      RunCover(tgt, deleted, visits);
      if visits != [] {
        assert |visits| <= maxHop;
      }
      forall n | n in accepted ensures (src, n) in pairs {
        assert (src, n) in PairWith(src, accepted);
      }
      if |accepted| < maxSubsRatio {
        forall n, h | 1 <= h <= maxHop && n in Reach(tgtOnto, rel, tgt, h) && Eligible(isDeleteEquivTgt, deleted, n)
          ensures n in accepted
        {
          var z :| z in Reach(tgtOnto, rel, tgt, h - 1) && n in Move(tgtOnto, rel, z);
          assert z in layers.1;
        }
      }
    }

    /** The search stops only when the ratio is met or maxHop rounds ran,
        and never runs more than maxHop rounds. */
    lemma SearchStop(src: Name, tgt: Name, deleted: set<Name>, visits: Visits, pairs: seq<Pair>)
      requires SearchOutcome(src, tgt, deleted, visits, pairs)
      ensures |visits| <= maxHop || visits == []
      ensures |visits| < maxHop ==> maxSubsRatio <= |RunAccepted(visits, deleted)|
    {
      if visits != [] {
        RoundsRanAt(tgt, deleted, visits, |visits| - 1);
      }
    }

    /** When exactly one eligible class `n` lies within maxHop moves of
        `tgt` (and the ratio allows one pair), the search produces exactly
        (src, n), however many rounds it takes to reach it. */
    lemma SearchSingleCandidate(src: Name, tgt: Name, deleted: set<Name>, visits: Visits, pairs: seq<Pair>, n: Name)
      requires SearchOutcome(src, tgt, deleted, visits, pairs)
      requires maxSubsRatio >= 1
      requires forall m :: Eligible(isDeleteEquivTgt, deleted, m) && WithinHops(tgt, m) <==> m == n
      ensures pairs == [(src, n)]
    {
      SearchSound(src, tgt, deleted, visits, pairs);
      var accepted := RunAccepted(visits, deleted);
      if |accepted| < maxSubsRatio {
        assert WithinHops(tgt, n);
        var h :| 1 <= h <= maxHop && n in Reach(tgtOnto, rel, tgt, h);
        SearchComplete(src, tgt, deleted, visits, pairs);
      } else {
        assert (src, accepted[0]) in PairWith(src, accepted);
      }
      assert Elems(pairs) == {(src, n)};
      EnumeratesSingle(pairs, (src, n));
    }

    /** The first round visits {tgt} alone and accepts FirstRound. */
    lemma RunFirstRound(tgt: Name, deleted: set<Name>, visits: Visits)
      requires RoundsRan(tgt, deleted, visits) && visits != []
      ensures RunAccepted(visits[..1], deleted) == FirstRound(tgt, deleted)
    {
      RoundsRanAt(tgt, deleted, visits, 0);
      EnumeratesSingle(visits[0], tgt);
      assert visits[..1] == [] + [[tgt]];
      RunAcceptedSnoc([], [tgt], deleted);
      RoundAcceptedSnoc([], tgt, 0, deleted);
    }

    /** The first round: nothing is accepted and no round runs when the
        ratio or maxHop is below 1; otherwise the first round's acceptances
        lead the accepted list, and are all of it, with no further round,
        when they meet the ratio. */
    lemma SearchFirstRound(src: Name, tgt: Name, deleted: set<Name>, visits: Visits, pairs: seq<Pair>)
      requires SearchOutcome(src, tgt, deleted, visits, pairs)
      ensures maxSubsRatio <= 0 || maxHop < 1 ==> visits == [] && pairs == []
      ensures maxHop >= 1 ==> FirstRound(tgt, deleted) <= RunAccepted(visits, deleted)
      ensures maxHop >= 1 && |FirstRound(tgt, deleted)| == maxSubsRatio ==>
                |visits| <= 1 && pairs == Uniqify(PairWith(src, FirstRound(tgt, deleted)))
    {
      if visits != [] {
        RunFirstRound(tgt, deleted, visits);
        RunAcceptedPrefix(visits, 1, deleted);
        if |visits| > 1 {
          RoundsRanAt(tgt, deleted, visits, 1);
        } else {
          assert visits[..1] == visits;
        }
      }
    }

    // -------------------------------------------------------------------
    // The search.

    /** Every accepted neighbour in `ns` has a hop value in `hops` in
        1..bound that is the length of a walk from `tgt` to it. */
    ghost predicate RecordedWithin(src: Name, tgt: Name, hops: map<Pair, int>, ns: seq<Name>, bound: int) {
      forall n :: n in ns ==>
        && (src, n) in hops
        && 1 <= hops[(src, n)] <= bound
        && n in Reach(tgtOnto, rel, tgt, hops[(src, n)])
    }

    /** A larger bound keeps RecordedWithin. */
    lemma RecordedWithinWeaken(src: Name, tgt: Name, hops: map<Pair, int>, ns: seq<Name>, bound: int, bound': int)
      requires RecordedWithin(src, tgt, hops, ns, bound) && bound <= bound'
      ensures RecordedWithin(src, tgt, hops, ns, bound')
    {
    }

    /** What holds of a round after some of its frontier was scanned: the
        accepted list grew by `grown`, names recorded with walks of at most
        `hop` moves, the maps are extended by `grown`, and every class of
        `grown` has the current hop as its hop entry. */
    ghost predicate RoundInv(src: Name, tgt: Name, hop: int, valid: seq<Name>,
                             hops: map<Pair, int>, built: map<Name, bool>, curHop: set<Name>,
                             valid': seq<Name>, hops': map<Pair, int>, built': map<Name, bool>, grown: seq<Name>) {
      && 1 <= hop
      && valid' == valid + grown
      && curHop <= Reach(tgtOnto, rel, tgt, hop)
      && RecordedWithin(src, tgt, hops', valid', hop)
      && HopsFor(hops', hops, src, grown)
      && (forall n :: n in grown ==> hops'[(src, n)] == hop)
      && MarksFor(built', built, grown)
    }

    /** Scanning the neighbours of one more node reached in hop - 1 moves
        keeps RoundInv. */
    lemma RoundStep(src: Name, tgt: Name, hop: int, valid: seq<Name>,
                    hops: map<Pair, int>, built: map<Name, bool>, curHop: set<Name>,
                    valid': seq<Name>, hops': map<Pair, int>, built': map<Name, bool>, grown: seq<Name>,
                    ent: Name, added: seq<Name>, valid'': seq<Name>, hops'': map<Pair, int>, built'': map<Name, bool>)
      requires 1 <= hop
      requires RoundInv(src, tgt, hop, valid, hops, built, curHop, valid', hops', built', grown)
      requires ent in Reach(tgtOnto, rel, tgt, hop - 1)
      requires valid'' == valid' + added
      requires forall n :: n in added ==> n in Move(tgtOnto, rel, ent)
      requires HopsFor(hops'', hops', src, added)
      requires forall n :: n in added ==> hops''[(src, n)] == hop
      requires MarksFor(built'', built', added)
      ensures RoundInv(src, tgt, hop, valid, hops, built, curHop + Elems(Move(tgtOnto, rel, ent)),
                       valid'', hops'', built'', grown + added)
    {
      ReachStep(tgtOnto, rel, tgt, hop - 1, ent);
      HopsForTrans(hops'', hops', hops, src, grown, added);
      MarksForTrans(built'', built', built, grown, added);
    }

    /** What holds of a round after the classes frontier - todo were
        visited, in the order `order`: RoundInv, the neighbours met so far
        are `curHop`, and what the round accepted is RoundAccepted of the
        order.  The parameters come in three groups: the round itself
        (`src` to `deleted`), the loop variables when the round began
        (`valid` to `built`), and the round's own variables now (`todo` to
        `order`, primed where they shadow a starting value). */
    ghost predicate VisitInv(src: Name, tgt: Name, hop: int, frontier: set<Name>, deleted: set<Name>,
                             valid: seq<Name>, numAdded: int, hops: map<Pair, int>, built: map<Name, bool>,
                             todo: set<Name>, curHop: set<Name>, valid': seq<Name>, numAdded': int,
                             hops': map<Pair, int>, built': map<Name, bool>, grown: seq<Name>, order: seq<Name>) {
      && todo <= frontier
      && curHop == Step(tgtOnto, rel, frontier - todo)
      && numAdded' == |valid'|
      && RoundInv(src, tgt, hop, valid, hops, built, curHop, valid', hops', built', grown)
      && Enumerates(order, frontier - todo)
      && grown == RoundAccepted(order, numAdded, deleted)
    }

    /** Visiting one more frontier class `ent` extends the visit order, and
        what the round accepted by the scan of ent's neighbours. */
    lemma {:induction false} VisitOrderStep(order: seq<Name>, scanned: set<Name>, ent: Name, count: int, deleted: set<Name>,
                         grown: seq<Name>, added: seq<Name>)
      requires Enumerates(order, scanned) && ent !in scanned
      requires grown == RoundAccepted(order, count, deleted)
      requires added == Accepted(count + |grown|, Admitted(Move(tgtOnto, rel, ent), isDeleteEquivTgt, deleted), maxSubsRatio)
      ensures Enumerates(order + [ent], scanned + {ent})
      ensures grown + added == RoundAccepted(order + [ent], count, deleted)
    {
      var ext := order + [ent];
      assert ext[..|ext| - 1] == order;
      assert ext[|ext| - 1] == ent;
      EnumeratesSnoc(order, scanned, ent);
    }

    /** Visiting one more frontier class `ent`, whose neighbour scan
        accepted `added`, keeps VisitInv.  The parameters up to `order` are
        VisitInv's; `ent` to `built''` are the visited class, its scan's
        acceptances and the loop variables after the scan. */
    lemma {:induction false} VisitStep(src: Name, tgt: Name, hop: int, frontier: set<Name>, deleted: set<Name>,
                    valid: seq<Name>, numAdded: int, hops: map<Pair, int>, built: map<Name, bool>,
                    todo: set<Name>, curHop: set<Name>, valid': seq<Name>, numAdded': int,
                    hops': map<Pair, int>, built': map<Name, bool>, grown: seq<Name>, order: seq<Name>,
                    ent: Name, added: seq<Name>, valid'': seq<Name>, numAdded'': int,
                    hops'': map<Pair, int>, built'': map<Name, bool>)
      requires 1 <= hop && numAdded == |valid|
      requires frontier <= Reach(tgtOnto, rel, tgt, hop - 1)
      requires VisitInv(src, tgt, hop, frontier, deleted, valid, numAdded, hops, built,
                        todo, curHop, valid', numAdded', hops', built', grown, order)
      requires ent in todo
      requires added == Accepted(numAdded', Admitted(Move(tgtOnto, rel, ent), isDeleteEquivTgt, deleted), maxSubsRatio)
      requires valid'' == valid' + added && numAdded'' == |valid''|
      requires forall n :: n in added ==> n in Move(tgtOnto, rel, ent)
      requires HopsFor(hops'', hops', src, added)
      requires forall n :: n in added ==> hops''[(src, n)] == hop
      requires MarksFor(built'', built', added)
      ensures VisitInv(src, tgt, hop, frontier, deleted, valid, numAdded, hops, built,
                       todo - {ent}, curHop + Elems(Move(tgtOnto, rel, ent)), valid'', numAdded'',
                       hops'', built'', grown + added, order + [ent])
    {
      var scanned := frontier - todo;
      StepAdd(tgtOnto, rel, scanned, ent);
      assert frontier - (todo - {ent}) == scanned + {ent};
      RoundStep(src, tgt, hop, valid, hops, built, curHop, valid', hops', built', grown,
                ent, added, valid'', hops'', built'');
      VisitOrderStep(order, scanned, ent, numAdded, deleted, grown, added);
    }

    /** One round of the search (the walk over the current frontier): scans
        the neighbours of every frontier node, which is reached from `tgt` in
        hop - 1 moves, and returns the set of those neighbours together with
        the accepted list, count and maps as the scans leave them.  `order`
        is the order in which it visited the frontier, and what it accepted,
        `grown`, is RoundAccepted of that order. */
    method ExpandHop(src: Name, tgt: Name, hop: int, frontier: set<Name>, ghost deleted: set<Name>,
                     valid: seq<Name>, numAdded: int, hops: map<Pair, int>, built: map<Name, bool>)
      returns (curHop: set<Name>, valid': seq<Name>, numAdded': int,
               hops': map<Pair, int>, built': map<Name, bool>, ghost grown: seq<Name>, ghost order: seq<Name>)
      requires 1 <= hop && deleted == MarkedSet(deleteStatus)
      requires numAdded == |valid|
      requires frontier <= Reach(tgtOnto, rel, tgt, hop - 1)
      requires RecordedWithin(src, tgt, hops, valid, hop - 1)
      ensures numAdded' == |valid'|
      ensures RoundInv(src, tgt, hop, valid, hops, built, curHop, valid', hops', built', grown)
      ensures curHop == Step(tgtOnto, rel, frontier)
      ensures Enumerates(order, frontier) && grown == RoundAccepted(order, numAdded, deleted)
    {
      curHop := {};
      valid' := valid;
      numAdded' := numAdded;
      hops' := hops;
      built' := built;
      grown := [];
      order := [];
      RecordedWithinWeaken(src, tgt, hops, valid, hop - 1, hop);
      var todo := frontier;
      while todo != {}
        invariant VisitInv(src, tgt, hop, frontier, deleted, valid, numAdded, hops, built,
                           todo, curHop, valid', numAdded', hops', built', grown, order)
        decreases todo
      {
        var ent :| ent in todo;
        var neighboursOfEnt := Move(tgtOnto, rel, ent);
        ghost var todo0, curHop0, valid0, numAdded0, hops0, built0 := todo, curHop, valid', numAdded', hops', built';
        ghost var added;
        valid', numAdded', hops', built', added :=
          AcceptNeighbours(src, hop, neighboursOfEnt, isDeleteEquivTgt, deleteStatus, maxSubsRatio,
                           valid', numAdded', hops', built');
        VisitStep(src, tgt, hop, frontier, deleted, valid, numAdded, hops, built,
                  todo0, curHop0, valid0, numAdded0, hops0, built0, grown, order,
                  ent, added, valid', numAdded', hops', built');
        todo := todo - {ent};
        grown := grown + added;
        order := order + [ent];
        curHop := curHop + Elems(neighboursOfEnt);
      }
      assert frontier - todo == frontier;
    }

    /** What holds of the search before each round: `valid` was accepted
        within hop - 1 moves of `tgt` (nothing before the first round), the
        frontier is reached in hop - 1 moves, and the two maps are their
        starting values extended by `valid`. */
    ghost predicate SearchInv(src: Name, tgt: Name, valid: seq<Name>, hop: int,
                              frontier: set<Name>, hops: map<Pair, int>, h0: map<Pair, int>,
                              built: map<Name, bool>, b0: map<Name, bool>) {
      && 1 <= hop
      && (hop == 1 ==> valid == [])
      && (hop > 1 ==> hop <= maxHop + 1)
      && frontier <= Reach(tgtOnto, rel, tgt, hop - 1)
      && RecordedWithin(src, tgt, hops, valid, hop - 1)
      && HopsFor(hops, h0, src, valid)
      && MarksFor(built, b0, valid)
    }

    /** Before the first round: nothing accepted, the frontier is {tgt}. */
    lemma SearchInvInit(src: Name, tgt: Name, h0: map<Pair, int>, b0: map<Name, bool>)
      ensures SearchInv(src, tgt, [], 1, {tgt}, h0, h0, b0, b0)
    {
    }

    /** A round run while the loop condition holds keeps SearchInv. */
    lemma SearchInvStep(src: Name, tgt: Name, valid: seq<Name>, hop: int,
                        frontier: set<Name>, hops: map<Pair, int>, h0: map<Pair, int>,
                        built: map<Name, bool>, b0: map<Name, bool>,
                        grown: seq<Name>, curHop: set<Name>, valid': seq<Name>, frontier': set<Name>,
                        hops': map<Pair, int>, built': map<Name, bool>)
      requires SearchInv(src, tgt, valid, hop, frontier, hops, h0, built, b0)
      requires hop <= maxHop
      requires RoundInv(src, tgt, hop, valid, hops, built, curHop, valid', hops', built', grown)
      requires frontier' <= curHop
      ensures SearchInv(src, tgt, valid', hop + 1, frontier', hops', h0, built', b0)
    {
      HopsForTrans(hops', hops, h0, src, valid, grown);
      MarksForTrans(built', built, b0, valid, grown);
    }

    /** At the end of the search every result pair has a recorded hop in
        1..maxHop that is the length of a walk to its target, and that hop
        is 1 when at most one round ran. */
    lemma SearchEndHops(src: Name, tgt: Name, valid: seq<Name>, hop: int, hops: map<Pair, int>, pairs: seq<Pair>)
      requires RecordedWithin(src, tgt, hops, valid, hop - 1)
      requires valid == [] || hop - 1 <= maxHop
      requires pairs == Uniqify(PairWith(src, valid))
      ensures forall p :: p in pairs ==> 1 <= hops[p] <= maxHop && p.1 in Reach(tgtOnto, rel, tgt, hops[p])
      ensures hop <= 2 ==> forall p :: p in pairs ==> hops[p] == 1
    {
      forall p | p in pairs ensures p.0 == src && p.1 in valid {
        assert p in PairWith(src, valid);
      }
    }

    /** The hop record and construct status at the end of the search are
        their starting values extended by exactly the result pairs. */
    lemma SearchEndRecord(src: Name, valid: seq<Name>, hops: map<Pair, int>, h0: map<Pair, int>,
                          built: map<Name, bool>, b0: map<Name, bool>, pairs: seq<Pair>)
      requires pairs == Uniqify(PairWith(src, valid))
      requires HopsFor(hops, h0, src, valid) && MarksFor(built, b0, valid)
      ensures forall p :: p in hops <==> p in h0 || p in pairs
      ensures forall p :: p in h0 && p !in pairs ==> hops[p] == h0[p]
      ensures forall n :: n in built <==> n in b0 || (src, n) in pairs
      ensures forall n :: n in built ==> built[n] == ((src, n) in pairs || b0[n])
    {
      assert forall p :: p in pairs <==> p.0 == src && p.1 in valid;
    }

    /** After one more round, visiting its frontier in the order `order`,
        every accepted class still has LastRound as its hop entry: the
        round's acceptances have the round's hop, the others kept theirs. */
    lemma SearchHopStep(src: Name, valid: seq<Name>, hops: map<Pair, int>, visits: Visits, deleted: set<Name>,
                        order: seq<Name>, grown: seq<Name>, valid': seq<Name>, hops': map<Pair, int>)
      requires valid == RunAccepted(visits, deleted)
      requires forall n :: n in valid ==> (src, n) in hops && hops[(src, n)] == LastRound(visits, deleted, n)
      requires grown == RoundAccepted(order, |valid|, deleted) && valid' == valid + grown
      requires HopsFor(hops', hops, src, grown)
      requires forall n :: n in grown ==> hops'[(src, n)] == |visits| + 1
      ensures forall n :: n in valid' ==> hops'[(src, n)] == LastRound(visits + [order], deleted, n)
    {
      forall n | n in valid' ensures hops'[(src, n)] == LastRound(visits + [order], deleted, n) {
        LastRoundSnoc(visits, order, deleted, n);
      }
    }

    /** What the search has established when its loop ends, turned into the
        promises of SubsFromAnEquiv about its result `pairs`. */
    lemma SearchEpilogue(src: Name, tgt: Name, deleted: set<Name>, valid: seq<Name>, hop: int,
                         frontier: set<Name>, hops: map<Pair, int>, h0: map<Pair, int>,
                         built: map<Name, bool>, b0: map<Name, bool>, visits: Visits, pairs: seq<Pair>)
      requires SearchInv(src, tgt, valid, hop, frontier, hops, h0, built, b0)
      requires |visits| == hop - 1 && valid == RunAccepted(visits, deleted) && RoundsRan(tgt, deleted, visits)
      requires !(|valid| < maxSubsRatio && hop <= maxHop)
      requires pairs == Uniqify(PairWith(src, valid))
      requires forall n :: n in valid ==> hops[(src, n)] == LastRound(visits, deleted, n)
      ensures SearchRecorded(src, tgt, deleted, visits, pairs, hops, h0, built, b0)
    {
      assert SearchOutcome(src, tgt, deleted, visits, pairs);
      assert forall p :: p in pairs ==> p == (src, p.1) && p.1 in valid;
      SearchEndHops(src, tgt, valid, hop, hops, pairs);
      SearchEndRecord(src, valid, hops, h0, built, b0, pairs);
      SearchFirstRound(src, tgt, deleted, visits, pairs);
    }

    /** The breadth-first search from one equivalence pair (src, tgt), on
        the hop record `h0` and construct status `b0` it is given: walks from
        tgt one hop per round, accepting neighbours that are not marked
        deleted, while fewer than maxSubsRatio were accepted and the hop is at
        most maxHop.  Returns the de-duplicated (src, n) pairs and the two
        maps with the accepted neighbours recorded; `visits` is the order in
        which each round visited its frontier. */
    method Search(src: Name, tgt: Name, h0: map<Pair, int>, b0: map<Name, bool>)
      returns (pairs: seq<Pair>, hops: map<Pair, int>, built: map<Name, bool>, ghost visits: Visits)
      ensures SearchRecorded(src, tgt, MarkedSet(deleteStatus), visits, pairs, hops, h0, built, b0)
    {
      ghost var deleted := MarkedSet(deleteStatus);
      var validNeighbours: seq<Name> := [];
      var frontier: set<Name> := {tgt};
      var explored: set<Name> := {};
      var hop := 1;
      var numAdded := 0;
      hops := h0;
      built := b0;
      visits := [];
      SearchInvInit(src, tgt, h0, b0);
      while |validNeighbours| < maxSubsRatio && hop <= maxHop
        invariant numAdded == |validNeighbours|
        invariant SearchInv(src, tgt, validNeighbours, hop, frontier, hops, h0, built, b0)
        invariant |visits| == hop - 1 && (frontier, explored) == Layers(tgt, hop)
        invariant validNeighbours == RunAccepted(visits, deleted) && RoundsRan(tgt, deleted, visits)
        invariant forall n :: n in validNeighbours ==> hops[(src, n)] == LastRound(visits, deleted, n)
        decreases maxHop - hop
      {
        ghost var valid0, frontier0, hops0, built0 := validNeighbours, frontier, hops, built;
        var curHopNeighbours;
        ghost var grown, order;
        curHopNeighbours, validNeighbours, numAdded, hops, built, grown, order :=
          ExpandHop(src, tgt, hop, frontier, deleted, validNeighbours, numAdded, hops, built);
        // Every frontier node was scanned this round, so all of them are
        // now explored.
        explored := explored + frontier;
        frontier := curHopNeighbours - explored;
        SearchInvStep(src, tgt, valid0, hop, frontier0, hops0, h0, built0, b0,
                      grown, curHopNeighbours, validNeighbours, frontier, hops, built);
        SearchHopStep(src, valid0, hops0, visits, deleted, order, grown, validNeighbours, hops);
        RoundsRanSnoc(tgt, deleted, visits, order);
        RunAcceptedSnoc(visits, order, deleted);
        visits := visits + [order];
        hop := hop + 1;
      }
      pairs := Uniqify(PairWith(src, validNeighbours));
      SearchEpilogue(src, tgt, deleted, validNeighbours, hop, frontier, hops, h0, built, b0, visits, pairs);
    }

    /** The search from one equivalence pair, recording its hops and
        construct marks in the generator's record. */
    method SubsFromAnEquiv(src: Name, tgt: Name) returns (pairs: seq<Pair>, ghost visits: Visits)
      requires tgt in Classes(tgtOnto)
      modifies this`hopRecord, this`constructStatus
      ensures SearchRecorded(src, tgt, MarkedSet(deleteStatus), visits, pairs,
                             hopRecord, old(hopRecord), constructStatus, old(constructStatus))
    {
      var hops, built;
      pairs, hops, built, visits := Search(src, tgt, hopRecord, constructStatus);
      hopRecord := hops;
      constructStatus := built;
    }

    // -------------------------------------------------------------------
    // The generation record.

    /** `p` could have been produced by the search from some equivalence pair
        with p's source, at hop `h`: h is within 1..maxHop and some walk of h
        moves leads from that pair's target to p's target. */
    ghost predicate Derivable(p: Pair, h: int) {
      && 1 <= h <= maxHop
      && exists j :: 0 <= j < |equivPairs| && equivPairs[j].0 == p.0 && p.1 in Reach(tgtOnto, rel, equivPairs[j].1, h)
    }

    /** The hop record and construct status agree with the pair list `ps`:
        the record has an entry exactly for each pair, each entry derivable,
        and exactly the targets of `ps` are marked constructed. */
    ghost predicate RecordMatches(ps: seq<Pair>, hops: map<Pair, int>, built: map<Name, bool>) {
      && (forall p :: p in hops <==> p in ps)
      && (forall p :: p in hops ==> Derivable(p, hops[p]))
      && built.Keys == Targets(ps)
      && (forall n :: n in built ==> built[n])
    }

    ghost predicate RecordConsistent()
      reads this
    {
      RecordMatches(subPairs, hopRecord, constructStatus)
    }

    lemma RecordMatchesEmpty()
      ensures RecordMatches([], map[], map[])
    {
    }

    /** The construct status after a search from `src` marks exactly the
        targets of the pairs so far and of the search's result. */
    lemma BuiltStep(acc: seq<Pair>, built: map<Name, bool>, src: Name, pairs: seq<Pair>, built': map<Name, bool>)
      requires built.Keys == Targets(acc)
      requires forall p :: p in pairs ==> p.0 == src
      requires forall n :: n in built' <==> n in built || (src, n) in pairs
      ensures built'.Keys == Targets(acc + pairs)
    {
      TargetsAppend(acc, pairs);
      forall n | n in built' ensures n in Targets(acc + pairs) {
        if (src, n) in pairs {
          assert n == (src, n).1;
        }
      }
      forall n | n in Targets(acc + pairs) ensures n in built' {
        var p :| p in acc + pairs && p.1 == n;
        if p in pairs {
          assert p == (src, n);
        }
      }
    }

    /** Appending the result of one search from the j-th equivalence pair
        keeps the record in agreement with the pair list. */
    lemma RecordStep(acc: seq<Pair>, hops: map<Pair, int>, built: map<Name, bool>, j: int, deleted: set<Name>,
                     t: Visits, pairs: seq<Pair>, hops': map<Pair, int>, built': map<Name, bool>)
      requires 0 <= j < |equivPairs|
      requires RecordMatches(acc, hops, built)
      requires SearchRecorded(equivPairs[j].0, equivPairs[j].1, deleted, t, pairs, hops', hops, built', built)
      ensures RecordMatches(acc + pairs, hops', built')
    {
      var src, tgt := equivPairs[j].0, equivPairs[j].1;
      assert forall p :: p in pairs ==> p.0 == src;
      forall p | p in hops' ensures Derivable(p, hops'[p]) {
        if p in pairs {
          assert p.0 == src && p.1 in Reach(tgtOnto, rel, tgt, hops'[p]);
        }
      }
      BuiltStep(acc, built, src, pairs, built');
    }

    /** Under the agreement, a class is marked constructed exactly when it
        is the target of some pair of the list. */
    lemma ConstructedIffTarget(ps: seq<Pair>, hops: map<Pair, int>, built: map<Name, bool>, t: Name)
      requires RecordMatches(ps, hops, built)
      ensures Marked(built, t) <==> t in Targets(ps)
    {
    }

    /** De-duplicating the pair list keeps the agreement. */
    lemma RecordMatchesUniqify(ps: seq<Pair>, hops: map<Pair, int>, built: map<Name, bool>)
      requires RecordMatches(ps, hops, built)
      ensures RecordMatches(Uniqify(ps), hops, built)
    {
      UniqifyKeepsSets(ps);
    }

    lemma FlattenSnoc(pp: seq<seq<Pair>>, c: seq<Pair>)
      ensures Flatten(pp + [c]) == Flatten(pp) + c
    {
      assert (pp + [c])[..|pp|] == pp;
    }

    /** The marks in place after the searches whose results are `done`:
        the pre-pass marks for the static policy, the marks the online
        policy has made for the online one. */
    ghost function MarksAfter(done: seq<seq<Pair>>, online: bool): set<Name>
      requires |done| <= |equivPairs|
    {
      if online then DeletedBy(done) else StaticDeleted()
    }

    /** The hop record a run leaves when search j yields perPair[j],
        visiting its frontiers in the orders perVisits[j]: each search, in
        order, overwrites the entries of its result pairs. */
    ghost function RunHops(perPair: seq<seq<Pair>>, perVisits: seq<Visits>, online: bool): map<Pair, int>
      requires |perPair| == |perVisits| <= |equivPairs|
    {
      if perPair == [] then map[]
      else
        var k := |perPair| - 1;
        RunHops(perPair[..k], perVisits[..k], online)
          + SearchHops(perVisits[k], MarksAfter(perPair[..k], online), perPair[k])
    }

    /** One more search overwrites the run's hop record with its entries. */
    lemma RunHopsSnoc(perPair: seq<seq<Pair>>, perVisits: seq<Visits>, online: bool, cur: seq<Pair>, t: Visits)
      requires |perPair| == |perVisits| < |equivPairs|
      ensures RunHops(perPair + [cur], perVisits + [t], online)
           == RunHops(perPair, perVisits, online) + SearchHops(t, MarksAfter(perPair, online), cur)
    {
      assert (perPair + [cur])[..|perPair|] == perPair;
      assert (perVisits + [t])[..|perVisits|] == perVisits;
    }

    /** The run's hop record has an entry exactly for the pairs some search
        produced, and the entry of each is what the last search that
        produced it recorded: the last round of that search that accepted
        the pair's target. */
    lemma {:induction false} RunHopsLast(perPair: seq<seq<Pair>>, perVisits: seq<Visits>, online: bool, p: Pair)
      requires |perPair| == |perVisits| <= |equivPairs|
      ensures p in RunHops(perPair, perVisits, online) <==> 1 <= LastIn(perPair, p)
      ensures var j := LastIn(perPair, p);
              1 <= j ==> RunHops(perPair, perVisits, online)[p]
                         == LastRound(perVisits[j - 1], MarksAfter(perPair[..j - 1], online), p.1)
    {
      if perPair != [] {
        var k := |perPair| - 1;
        var before := RunHops(perPair[..k], perVisits[..k], online);
        var last := SearchHops(perVisits[k], MarksAfter(perPair[..k], online), perPair[k]);
        assert RunHops(perPair, perVisits, online) == before + last;
        RunHopsLast(perPair[..k], perVisits[..k], online, p);
        if p in perPair[k] {
          assert LastIn(perPair, p) == k + 1;
          assert (before + last)[p] == last[p];
        } else {
          var j := LastIn(perPair[..k], p);
          assert LastIn(perPair, p) == j && p !in last;
          if 1 <= j {
            assert (before + last)[p] == before[p];
            assert perPair[..k][..j - 1] == perPair[..j - 1];
            assert perVisits[..k][j - 1] == perVisits[j - 1];
          }
        }
      }
    }

    /** A skipped pair leaves the hop record as it was. */
    lemma HopSkip(perPair: seq<seq<Pair>>, perVisits: seq<Visits>)
      requires |perPair| == |perVisits| < |equivPairs|
      ensures RunHops(perPair + [[]], perVisits + [[]], true) == RunHops(perPair, perVisits, true)
    {
      var h := RunHops(perPair, perVisits, true);
      RunHopsSnoc(perPair, perVisits, true, [], []);
      assert SearchHops([], DeletedBy(perPair), []) == map[];
      assert h + map[] == h;
    }

    /** A search from the next pair under the run's marks, started from
        the run's hop record, leaves the hop record of the run extended by
        it. */
    lemma HopStep(perPair: seq<seq<Pair>>, perVisits: seq<Visits>, online: bool, deleted: set<Name>,
                  t: Visits, cur: seq<Pair>, hops: map<Pair, int>, h0: map<Pair, int>,
                  built: map<Name, bool>, b0: map<Name, bool>)
      requires |perPair| == |perVisits| < |equivPairs|
      requires h0 == RunHops(perPair, perVisits, online) && deleted == MarksAfter(perPair, online)
      requires SearchRecorded(equivPairs[|perPair|].0, equivPairs[|perPair|].1, deleted, t, cur, hops, h0, built, b0)
      ensures hops == RunHops(perPair + [cur], perVisits + [t], online)
    {
      SearchRecordedHops(equivPairs[|perPair|].0, equivPairs[|perPair|].1, deleted, t, cur, hops, h0, built, b0);
      RunHopsSnoc(perPair, perVisits, online, cur, t);
    }

    // -------------------------------------------------------------------
    // The static policy.

    /** The targets the static pre-pass marks deleted among the first `i`
        equivalence pairs: those with at least one neighbour to move to. */
    ghost function PrePassMarks(i: int): set<Name>
      requires 0 <= i <= |equivPairs|
    {
      set j | 0 <= j < i && Move(tgtOnto, rel, equivPairs[j].1) != [] :: equivPairs[j].1
    }

    lemma PrePassStep(i: int)
      requires 0 <= i < |equivPairs|
      ensures PrePassMarks(i + 1)
           == PrePassMarks(i) + (if Move(tgtOnto, rel, equivPairs[i].1) != [] then {equivPairs[i].1} else {})
    {
      var t := equivPairs[i].1;
      if Move(tgtOnto, rel, t) != [] {
        assert t == equivPairs[i].1;
      }
      forall n | n in PrePassMarks(i + 1) ensures n in PrePassMarks(i) || n == t {
        var j :| 0 <= j < i + 1 && Move(tgtOnto, rel, equivPairs[j].1) != [] && equivPairs[j].1 == n;
        if j < i {
          assert n in PrePassMarks(i);
        }
      }
    }

    /** The classes the static policy marks deleted. */
    ghost function StaticDeleted(): set<Name> {
      if isDeleteEquivTgt then PrePassMarks(|equivPairs|) else {}
    }

    /** `perPair[j]` is the outcome, with trace `perVisits[j]`, of searching
        from the j-th equivalence pair with the pre-pass marks in place, for
        the first |perPair| pairs. */
    ghost predicate StaticPrefix(perPair: seq<seq<Pair>>, perVisits: seq<Visits>) {
      && |perPair| == |perVisits| <= |equivPairs|
      && forall j {:trigger perVisits[j]} :: 0 <= j < |perPair| ==>
           SearchOutcome(equivPairs[j].0, equivPairs[j].1, StaticDeleted(), perVisits[j], perPair[j])
    }

    /** A whole static run, one search per equivalence pair. */
    ghost predicate StaticRun(perPair: seq<seq<Pair>>, perVisits: seq<Visits>) {
      StaticPrefix(perPair, perVisits) && |perPair| == |equivPairs|
    }

    lemma StaticPrefixSnoc(perPair: seq<seq<Pair>>, perVisits: seq<Visits>, cur: seq<Pair>, t: Visits)
      requires StaticPrefix(perPair, perVisits) && |perPair| < |equivPairs|
      requires SearchOutcome(equivPairs[|perPair|].0, equivPairs[|perPair|].1, StaticDeleted(), t, cur)
      ensures StaticPrefix(perPair + [cur], perVisits + [t])
    {
      var pp, pv := perPair + [cur], perVisits + [t];
      forall j | 0 <= j < |pp|
        ensures SearchOutcome(equivPairs[j].0, equivPairs[j].1, StaticDeleted(), pv[j], pp[j])
      {
        SnocAt(perPair, cur, j);
        SnocAt(perVisits, t, j);
        if j < |perPair| {
          assert SearchOutcome(equivPairs[j].0, equivPairs[j].1, StaticDeleted(), perVisits[j], perPair[j]);
        }
      }
    }

    /** One static search extends the run and keeps the generation record
        in agreement with the concatenated results. */
    lemma StaticStep(perPair: seq<seq<Pair>>, perVisits: seq<Visits>, acc: seq<Pair>,
                     hops: map<Pair, int>, built: map<Name, bool>,
                     t: Visits, cur: seq<Pair>, hops': map<Pair, int>, built': map<Name, bool>)
      requires StaticPrefix(perPair, perVisits) && |perPair| < |equivPairs|
      requires acc == Flatten(perPair) && RecordMatches(acc, hops, built)
      requires hops == RunHops(perPair, perVisits, false)
      requires SearchRecorded(equivPairs[|perPair|].0, equivPairs[|perPair|].1, StaticDeleted(), t, cur,
                              hops', hops, built', built)
      ensures StaticPrefix(perPair + [cur], perVisits + [t])
      ensures acc + cur == Flatten(perPair + [cur]) && RecordMatches(acc + cur, hops', built')
      ensures hops' == RunHops(perPair + [cur], perVisits + [t], false)
    {
      HopStep(perPair, perVisits, false, StaticDeleted(), t, cur, hops', hops, built', built);
      RecordStep(acc, hops, built, |perPair|, StaticDeleted(), t, cur, hops', built');
      StaticPrefixSnoc(perPair, perVisits, cur, t);
      FlattenSnoc(perPair, cur);
    }

    /** Every pair that the static searches produce targets a class that is
        not marked deleted when deletion is on. */
    lemma OutcomesAvoidDeleted(perPair: seq<seq<Pair>>, perVisits: seq<Visits>)
      requires StaticPrefix(perPair, perVisits)
      ensures forall p :: p in Flatten(perPair) ==> Eligible(isDeleteEquivTgt, StaticDeleted(), p.1)
    {
      forall p | p in Flatten(perPair) ensures Eligible(isDeleteEquivTgt, StaticDeleted(), p.1) {
        var j :| 0 <= j < |perPair| && p in perPair[j];
        assert SearchOutcome(equivPairs[j].0, equivPairs[j].1, StaticDeleted(), perVisits[j], perPair[j]);
        SearchSound(equivPairs[j].0, equivPairs[j].1, StaticDeleted(), perVisits[j], perPair[j]);
      }
    }

    /** The static pre-pass: on a clear delete status, marks deleted every
        equivalence target that has a neighbour to move to. */
    method MarkEquivTargets()
      requires deleteStatus == map[]
      modifies this`deleteStatus
      ensures deleteStatus.Keys == PrePassMarks(|equivPairs|)
      ensures forall n :: n in deleteStatus ==> deleteStatus[n]
    {
      for i := 0 to |equivPairs|
        invariant deleteStatus.Keys == PrePassMarks(i)
        invariant forall n :: n in deleteStatus ==> deleteStatus[n]
      {
        var tgt := equivPairs[i].1;
        PrePassStep(i);
        if Move(tgtOnto, rel, tgt) != [] {
          deleteStatus := deleteStatus[tgt := true];
        }
      }
    }

    /** The static policy: clear the record, mark deleted (when deletion is
        on) every equivalence target that has a neighbour to move to, then
        search from every equivalence pair in order and de-duplicate the
        concatenated results.  `perPair` holds each search's result and
        `perVisits` its trace. */
    method StaticSubsConstruct() returns (ghost perPair: seq<seq<Pair>>, ghost perVisits: seq<Visits>)
      requires LookupsSucceed()
      modifies this`subPairs, this`hopRecord, this`deleteStatus, this`constructStatus
      ensures MarkedSet(deleteStatus) == StaticDeleted()
      ensures StaticRun(perPair, perVisits)
      ensures subPairs == Uniqify(Flatten(perPair)) && NoDup(subPairs)
      ensures RecordConsistent() && hopRecord == RunHops(perPair, perVisits, false)
      ensures isDeleteEquivTgt ==> forall p :: p in subPairs ==> p.1 !in MarkedSet(deleteStatus)
      ensures !isDeleteEquivTgt ==> MarkedSet(deleteStatus) == {}
      ensures !isDeleteEquivTgt ==> Unmarked(tgtOnto.classIndex, deleteStatus) == tgtOnto.classIndex
    {
      RenewSubs();
      if isDeleteEquivTgt {
        MarkEquivTargets();
      }
      ghost var marks := deleteStatus;
      assert MarkedSet(marks) == StaticDeleted();
      perPair, perVisits := [], [];
      RecordMatchesEmpty();
      for i := 0 to |equivPairs|
        invariant deleteStatus == marks
        invariant |perPair| == i
        invariant StaticPrefix(perPair, perVisits)
        invariant subPairs == Flatten(perPair)
        invariant RecordConsistent() && hopRecord == RunHops(perPair, perVisits, false)
      {
        var src, tgt := equivPairs[i].0, equivPairs[i].1;
        ghost var h0, b0 := hopRecord, constructStatus;
        assert MarkedSet(deleteStatus) == StaticDeleted();
        var cur, t := SubsFromAnEquiv(src, tgt);
        StaticStep(perPair, perVisits, subPairs, h0, b0, t, cur, hopRecord, constructStatus);
        subPairs := subPairs + cur;
        perPair, perVisits := perPair + [cur], perVisits + [t];
      }
      OutcomesAvoidDeleted(perPair, perVisits);
      RecordMatchesUniqify(subPairs, hopRecord, constructStatus);
      subPairs := Uniqify(subPairs);
      if !isDeleteEquivTgt {
        NothingMarkedKeepsAll(tgtOnto.classIndex, deleteStatus);
      }
    }

    // -------------------------------------------------------------------
    // The online policy.

    /** The classes the online policy has marked deleted after the steps
        whose results are `done` (one per equivalence pair, in order): with
        deletion on, the target of every pair whose search produced
        something. */
    ghost function DeletedBy(done: seq<seq<Pair>>): set<Name>
      requires |done| <= |equivPairs|
    {
      if isDeleteEquivTgt then set i | 0 <= i < |done| && done[i] != [] :: equivPairs[i].1 else {}
    }

    /** The step of an online run for the next equivalence pair, after the
        steps whose results are `done`: the pair is skipped exactly when
        deletion is on and its target is already a target of an earlier
        result; a skipped pair yields nothing, any other yields the outcome
        `pairs` of a search, visiting its frontiers in the orders `visits`,
        under the marks made so far. */
    ghost predicate OnlineStep(done: seq<seq<Pair>>, pairs: seq<Pair>, visits: Visits, skip: bool)
      requires |done| < |equivPairs|
    {
      var src, tgt := equivPairs[|done|].0, equivPairs[|done|].1;
      && skip == (isDeleteEquivTgt && tgt in Targets(Flatten(done)))
      && (skip ==> pairs == [])
      && (!skip ==> SearchOutcome(src, tgt, DeletedBy(done), visits, pairs))
    }

    /** The first |perPair| steps of an online run: step j yields perPair[j],
        its search visits its frontiers in the orders perVisits[j], and
        skipped[j] says whether it was skipped. */
    ghost predicate OnlinePrefix(perPair: seq<seq<Pair>>, perVisits: seq<Visits>, skipped: seq<bool>) {
      && |perPair| == |perVisits| == |skipped| <= |equivPairs|
      && forall j {:trigger perVisits[j]} :: 0 <= j < |perPair| ==> OnlineStep(perPair[..j], perPair[j], perVisits[j], skipped[j])
    }

    /** A whole online run, one step per equivalence pair. */
    ghost predicate OnlineRun(perPair: seq<seq<Pair>>, perVisits: seq<Visits>, skipped: seq<bool>) {
      OnlinePrefix(perPair, perVisits, skipped) && |perPair| == |equivPairs|
    }

    /** A proof helper: an online step is a property of its arguments
        alone, so it carries over to equal arguments. */
    lemma OnlineStepSame(done: seq<seq<Pair>>, pairs: seq<Pair>, visits: Visits, skip: bool,
                         done': seq<seq<Pair>>, pairs': seq<Pair>, visits': Visits, skip': bool)
      requires |done| < |equivPairs| && done == done' && pairs == pairs' && visits == visits' && skip == skip'
      requires OnlineStep(done, pairs, visits, skip)
      ensures OnlineStep(done', pairs', visits', skip')
    {
    }

    /** A step that behaves as OnlineStep says extends an online prefix. */
    lemma OnlinePrefixSnoc(perPair: seq<seq<Pair>>, perVisits: seq<Visits>, skipped: seq<bool>,
                           cur: seq<Pair>, t: Visits, skip: bool)
      requires OnlinePrefix(perPair, perVisits, skipped) && |perPair| < |equivPairs|
      requires OnlineStep(perPair, cur, t, skip)
      ensures OnlinePrefix(perPair + [cur], perVisits + [t], skipped + [skip])
    {
      var i := |perPair|;
      var pp, pv, sk := perPair + [cur], perVisits + [t], skipped + [skip];
      forall j | 0 <= j < |pp| ensures OnlineStep(pp[..j], pp[j], pv[j], sk[j]) {
        SnocPrefix(perPair, cur, j);
        SnocAt(perPair, cur, j);
        SnocAt(perVisits, t, j);
        SnocAt(skipped, skip, j);
        if j < i {
          OnlineStepSame(perPair[..j], perPair[j], perVisits[j], skipped[j], pp[..j], pp[j], pv[j], sk[j]);
        } else {
          OnlineStepSame(perPair, cur, t, skip, pp[..j], pp[j], pv[j], sk[j]);
        }
      }
    }

    /** The marks after one more step: those before it, plus its target when
        deletion is on and its result is not empty. */
    lemma DeletedBySnoc(done: seq<seq<Pair>>, c: seq<Pair>)
      requires |done| < |equivPairs|
      ensures DeletedBy(done + [c])
           == DeletedBy(done) + (if isDeleteEquivTgt && c != [] then {equivPairs[|done|].1} else {})
    {
      var ext := done + [c];
      if isDeleteEquivTgt {
        forall n | n in DeletedBy(ext) ensures n in DeletedBy(done) || (c != [] && n == equivPairs[|done|].1) {
          var i :| 0 <= i < |ext| && ext[i] != [] && equivPairs[i].1 == n;
          if i < |done| {
            assert ext[i] == done[i];
          }
        }
        forall n | n in DeletedBy(done) ensures n in DeletedBy(ext) {
          var i :| 0 <= i < |done| && done[i] != [] && equivPairs[i].1 == n;
          assert ext[i] == done[i];
        }
        if c != [] {
          assert ext[|done|] == c;
        }
      }
    }

    /** A search from the next pair under the online marks yields an online
        step's outcome, keeps the record in agreement, and determines the
        marks after the step. */
    lemma OnlineSearchStep(perPair: seq<seq<Pair>>, perVisits: seq<Visits>, acc: seq<Pair>,
                           h0: map<Pair, int>, b0: map<Name, bool>,
                           status: map<Name, bool>, t: Visits, cur: seq<Pair>, hops: map<Pair, int>,
                           built: map<Name, bool>)
      requires |perPair| == |perVisits| < |equivPairs|
      requires acc == Flatten(perPair)
      requires RecordMatches(acc, h0, b0) && h0 == RunHops(perPair, perVisits, true)
      requires status.Keys == DeletedBy(perPair) && forall n :: n in status ==> status[n]
      requires SearchRecorded(equivPairs[|perPair|].0, equivPairs[|perPair|].1, MarkedSet(status), t, cur,
                              hops, h0, built, b0)
      ensures SearchOutcome(equivPairs[|perPair|].0, equivPairs[|perPair|].1, DeletedBy(perPair), t, cur)
      ensures RecordMatches(acc + cur, hops, built)
      ensures hops == RunHops(perPair + [cur], perVisits + [t], true)
      ensures acc + cur == Flatten(perPair + [cur])
    {
      MarkedSetAllTrue(status);
      RecordStep(acc, h0, b0, |perPair|, MarkedSet(status), t, cur, hops, built);
      HopStep(perPair, perVisits, true, MarkedSet(status), t, cur, hops, h0, built, b0);
      FlattenSnoc(perPair, cur);
    }

    /** Marking the pair's target deleted when deletion is on and its step
        produced something keeps the delete status equal to DeletedBy. */
    lemma MarkStep(done: seq<seq<Pair>>, cur: seq<Pair>, status: map<Name, bool>, status': map<Name, bool>)
      requires |done| < |equivPairs|
      requires status.Keys == DeletedBy(done) && forall n :: n in status ==> status[n]
      requires status' == if isDeleteEquivTgt && cur != [] then status[equivPairs[|done|].1 := true] else status
      ensures status'.Keys == DeletedBy(done + [cur]) && forall n :: n in status' ==> status'[n]
    {
      DeletedBySnoc(done, cur);
    }

    /** One online iteration: the pair at index `i` is skipped or searched,
        and its target is marked deleted when deletion is on and the search
        produced something.  `t` is the order in which the search visited
        its frontiers (empty when skipped). */
    method OnlineVisit(i: int, ghost perPair: seq<seq<Pair>>, ghost perVisits: seq<Visits>)
      returns (cur: seq<Pair>, skip: bool, ghost t: Visits)
      requires 0 <= i < |equivPairs| && |perPair| == |perVisits| == i
      requires LookupsSucceed()
      requires subPairs == Flatten(perPair)
      requires RecordConsistent() && hopRecord == RunHops(perPair, perVisits, true)
      requires deleteStatus.Keys == DeletedBy(perPair) && forall n :: n in deleteStatus ==> deleteStatus[n]
      modifies this`subPairs, this`hopRecord, this`deleteStatus, this`constructStatus
      ensures OnlineStep(perPair, cur, t, skip)
      ensures subPairs == Flatten(perPair + [cur])
      ensures RecordConsistent() && hopRecord == RunHops(perPair + [cur], perVisits + [t], true)
      ensures deleteStatus.Keys == DeletedBy(perPair + [cur])
      ensures forall n :: n in deleteStatus ==> deleteStatus[n]
    {
      var src, tgt := equivPairs[i].0, equivPairs[i].1;
      ConstructedIffTarget(subPairs, hopRecord, constructStatus, tgt);
      if isDeleteEquivTgt && Marked(constructStatus, tgt) {
        FlattenSnoc(perPair, []);
        DeletedBySnoc(perPair, []);
        HopSkip(perPair, perVisits);
        return [], true, [];
      }
      skip := false;
      ghost var h0, b0 := hopRecord, constructStatus;
      cur, t := SubsFromAnEquiv(src, tgt);
      ghost var acc, status := subPairs, deleteStatus;
      if isDeleteEquivTgt && cur != [] {
        deleteStatus := deleteStatus[tgt := true];
      }
      subPairs := subPairs + cur;
      OnlineSearchStep(perPair, perVisits, acc, h0, b0, status, t, cur, hopRecord, constructStatus);
      MarkStep(perPair, cur, status, deleteStatus);
    }

    /** The online policy: clear the record, then for each equivalence pair
        in order skip it when deletion is on and its target is already
        marked constructed, otherwise search from it and, when deletion is on
        and the search produced something, mark its target deleted; finally
        de-duplicate the concatenated results.  `perPair` holds each pair's
        result, `perVisits` the orders its search visited its frontiers in,
        and `skipped` whether it was skipped. */
    method OnlineSubsConstruct()
      returns (ghost perPair: seq<seq<Pair>>, ghost perVisits: seq<Visits>, ghost skipped: seq<bool>)
      requires LookupsSucceed()
      modifies this`subPairs, this`hopRecord, this`deleteStatus, this`constructStatus
      ensures OnlineRun(perPair, perVisits, skipped)
      ensures MarkedSet(deleteStatus) == DeletedBy(perPair)
      ensures !isDeleteEquivTgt ==> MarkedSet(deleteStatus) == {}
      ensures !isDeleteEquivTgt ==> Unmarked(tgtOnto.classIndex, deleteStatus) == tgtOnto.classIndex
      ensures subPairs == Uniqify(Flatten(perPair)) && NoDup(subPairs)
      ensures RecordConsistent() && hopRecord == RunHops(perPair, perVisits, true)
    {
      RenewSubs();
      perPair, perVisits, skipped := [], [], [];
      RecordMatchesEmpty();
      for i := 0 to |equivPairs|
        invariant |perPair| == i
        invariant OnlinePrefix(perPair, perVisits, skipped)
        invariant subPairs == Flatten(perPair)
        invariant RecordConsistent() && hopRecord == RunHops(perPair, perVisits, true)
        invariant deleteStatus.Keys == DeletedBy(perPair)
        invariant forall n :: n in deleteStatus ==> deleteStatus[n]
      {
        var cur, skip, t := OnlineVisit(i, perPair, perVisits);
        OnlinePrefixSnoc(perPair, perVisits, skipped, cur, t, skip);
        perPair, perVisits, skipped := perPair + [cur], perVisits + [t], skipped + [skip];
      }
      assert MarkedSet(deleteStatus) == deleteStatus.Keys;
      RecordMatchesUniqify(subPairs, hopRecord, constructStatus);
      subPairs := Uniqify(subPairs);
      if !isDeleteEquivTgt {
        NothingMarkedKeepsAll(tgtOnto.classIndex, deleteStatus);
      }
    }

    /** No equivalence target lies on a cycle of at most maxHop moves. */
    ghost predicate NoShortCycles() {
      forall j, h :: 0 <= j < |equivPairs| && 1 <= h <= maxHop ==>
        equivPairs[j].1 !in Reach(tgtOnto, rel, equivPairs[j].1, h)
    }

    /** The targets of a step's result are not marked before the step and
        are reached from its equivalence target within maxHop moves. */
    lemma OnlineStepTargets(perPair: seq<seq<Pair>>, perVisits: seq<Visits>, skipped: seq<bool>, i: int)
      requires OnlinePrefix(perPair, perVisits, skipped) && 0 <= i < |perPair|
      ensures forall q :: q in perPair[i] ==>
                Eligible(isDeleteEquivTgt, DeletedBy(perPair[..i]), q.1) && WithinHops(equivPairs[i].1, q.1)
    {
      assert OnlineStep(perPair[..i], perPair[i], perVisits[i], skipped[i]);
      if !skipped[i] {
        SearchSound(equivPairs[i].0, equivPairs[i].1, DeletedBy(perPair[..i]), perVisits[i], perPair[i]);
      }
    }

    /** With deletion on, a step that produced something was not skipped:
        its target is not a target of an earlier result. */
    lemma OnlineProducerFresh(perPair: seq<seq<Pair>>, perVisits: seq<Visits>, skipped: seq<bool>, k: int)
      requires OnlinePrefix(perPair, perVisits, skipped) && 0 <= k < |perPair| && perPair[k] != []
      ensures isDeleteEquivTgt ==> equivPairs[k].1 !in Targets(Flatten(perPair[..k]))
    {
      assert OnlineStep(perPair[..k], perPair[k], perVisits[k], skipped[k]);
    }

    /** With deletion on, a target the online policy marks deleted is never
        the target of a produced pair: a pair produced before the mark was
        made would have caused the marking pair to be skipped, a pair
        produced after it avoided the mark, and a pair produced by the
        marking search itself would close a cycle through its target. */
    lemma OnlineNeverTargetsDeleted(perPair: seq<seq<Pair>>, perVisits: seq<Visits>, skipped: seq<bool>)
      requires OnlineRun(perPair, perVisits, skipped)
      requires isDeleteEquivTgt && NoShortCycles()
      ensures forall p :: p in Flatten(perPair) ==> p.1 !in DeletedBy(perPair)
    {
      forall p | p in Flatten(perPair) ensures p.1 !in DeletedBy(perPair) {
        var i :| 0 <= i < |perPair| && p in perPair[i];
        OnlineStepTargets(perPair, perVisits, skipped, i);
        var h :| 1 <= h <= maxHop && p.1 in Reach(tgtOnto, rel, equivPairs[i].1, h);
        forall k | 0 <= k < |perPair| && perPair[k] != [] ensures equivPairs[k].1 != p.1 {
          if k < i {
            assert perPair[..i][k] == perPair[k];
            assert equivPairs[k].1 in DeletedBy(perPair[..i]);
          } else if k > i {
            OnlineProducerFresh(perPair, perVisits, skipped, k);
            assert perPair[..k][i] == perPair[i];
            assert p in Flatten(perPair[..k]);
            assert p.1 in Targets(Flatten(perPair[..k]));
          }
        }
      }
    }

    // -------------------------------------------------------------------
    // Queries on the record.

    /** The target classes, in index order, that are not marked deleted. */
    method PreservedTgtIris() returns (preserved: seq<Name>)
      ensures preserved == Unmarked(tgtOnto.classIndex, deleteStatus)
      ensures forall n :: n in preserved <==> n in tgtOnto.classIndex && !Marked(deleteStatus, n)
    {
      preserved := [];
      var names := tgtOnto.classIndex;
      for i := 0 to |names|
        invariant preserved == Unmarked(names[..i], deleteStatus)
      {
        assert names[..i + 1][..i] == names[..i];
        if !Marked(deleteStatus, names[i]) {
          preserved := preserved + [names[i]];
        }
      }
      assert names[..|names|] == names;
    }

    /** The equivalent target classes of `src`, in rank order (none when
        `src` has no equivalence). */
    function RankedTargets(src: Name): seq<Name> {
      if src in ranked then ranked[src] else []
    }

    /** A subsumption pair follows from the equivalences: its target is
        related (an ancestor for "<", a descendant for ">") to one of the
        equivalent target classes of its source. */
    ghost predicate Entailed(p: Pair) {
      exists e :: e in RankedTargets(p.0) && p.1 in Related(tgtOnto, rel, e)
    }

    /** None of the first `k` equivalent target classes of the pair's source
        has the pair's target among its related classes. */
    ghost predicate NoMatchBefore(subsPair: Pair, k: int)
      requires 0 <= k <= |RankedTargets(subsPair.0)|
    {
      forall i :: 0 <= i < k ==> subsPair.1 !in Related(tgtOnto, rel, RankedTargets(subsPair.0)[i])
    }

    /** Checks a subsumption pair against the equivalences: true as soon as
        one equivalent target class of its source has the pair's target
        among its ancestors (for "<") or descendants (for ">"). */
    method ValidateSubs(subsPair: Pair) returns (valid: bool)
      requires subsPair.1 in Classes(tgtOnto)
      requires forall k :: 0 <= k < |RankedTargets(subsPair.0)| && NoMatchBefore(subsPair, k) ==>
                 RankedTargets(subsPair.0)[k] in Classes(tgtOnto)
      ensures valid <==> Entailed(subsPair)
    {
      var src, tgt := subsPair.0, subsPair.1;
      var equivTgts := RankedTargets(src);
      for i := 0 to |equivTgts|
        invariant NoMatchBefore(subsPair, i)
      {
        assert equivTgts[i] in Classes(tgtOnto);
        if tgt in Related(tgtOnto, rel, equivTgts[i]) {
          return true;
        }
      }
      return false;
    }

    /** Every equivalence pair is among the ranked equivalences of its
        source. */
    ghost predicate EquivalencesRanked() {
      forall j :: 0 <= j < |equivPairs| ==> equivPairs[j].1 in RankedTargets(equivPairs[j].0)
    }

    /** In a coherent hierarchy, a pair derivable by the search is entailed
        by the equivalences, so ValidateSubs accepts it. */
    lemma DerivedPairIsEntailed(p: Pair, h: int)
      requires Coherent(tgtOnto, rel) && EquivalencesRanked()
      requires Derivable(p, h)
      ensures Entailed(p)
    {
      var j :| 0 <= j < |equivPairs| && equivPairs[j].0 == p.0 && p.1 in Reach(tgtOnto, rel, equivPairs[j].1, h);
      ReachWithinRelated(tgtOnto, rel, equivPairs[j].1, h);
      assert equivPairs[j].1 in RankedTargets(p.0);
    }

    /** Every generated pair of a consistent record validates. */
    lemma GeneratedPairsValidate()
      requires Coherent(tgtOnto, rel) && EquivalencesRanked()
      requires RecordConsistent()
      ensures forall p :: p in subPairs ==> Entailed(p)
    {
      forall p | p in subPairs ensures Entailed(p) {
        DerivedPairIsEntailed(p, hopRecord[p]);
      }
    }
  }

  /** The hierarchy of the worked example: B's only super-class is C. */
  function ExampleTarget(): Ontology {
    Ontology(["B", "C"], map["B" := ["C"]], map["C" := ["B"]], map["B" := {"C"}], map["C" := {"B"}])
  }

  /** In the worked example, with B marked deleted, the search from (A, B)
      can only produce (A, C). */
  lemma ExampleSearch(g: Generator, t: Visits, r: seq<Pair>)
    requires g.tgtOnto == ExampleTarget() && g.rel == Broader
    requires g.maxSubsRatio == 1 && g.isDeleteEquivTgt && g.maxHop == 3
    requires g.SearchOutcome("A", "B", {"B"}, t, r)
    ensures r == [("A", "C")]
  {
    g.SearchFirstRound("A", "B", {"B"}, t, r);
    assert Move(ExampleTarget(), Broader, "B") == ["C"];
    assert Admitted(["C"], true, {"B"}) == ["C"];
    assert g.FirstRound("B", {"B"}) == ["C"];
    assert PairWith("A", ["C"]) == [("A", "C")];
    UniqifyDistinct([("A", "C")]);
  }

  /** A chain hierarchy: B's only super-class is C, and C's is D. */
  function ChainTarget(): Ontology {
    Ontology(["B", "C", "D"], map["B" := ["C"], "C" := ["D"]], map["C" := ["B"], "D" := ["C"]],
             map["B" := {"C", "D"}, "C" := {"D"}], map["C" := {"B"}, "D" := {"B", "C"}])
  }

  /** In the chain, one move from B reaches C and two reach D. */
  lemma ChainReach()
    ensures Reach(ChainTarget(), Broader, "B", 1) == {"C"}
    ensures Reach(ChainTarget(), Broader, "B", 2) == {"D"}
  {
    var o := ChainTarget();
    StepSingle(o, Broader, "B");
    assert Reach(o, Broader, "B", 1) == {"C"};
    StepSingle(o, Broader, "C");
  }

  /** In the chain with C marked deleted and two hops, D is the only
      eligible class within reach of B. */
  lemma ChainCandidates(g: Generator)
    requires g.tgtOnto == ChainTarget() && g.rel == Broader && g.maxHop == 2
    ensures forall m :: Eligible(true, {"C"}, m) && g.WithinHops("B", m) <==> m == "D"
  {
    ChainReach();
    assert "D" in Reach(g.tgtOnto, g.rel, "B", 2);
  }

  /** In the chain with C marked deleted, a ratio of 1 and two hops, the
      first round accepts nothing, so the search goes on to the second hop
      and produces (A, D). */
  lemma ChainSearchPastDeleted(g: Generator, t: Visits, r: seq<Pair>)
    requires g.tgtOnto == ChainTarget() && g.rel == Broader
    requires g.maxSubsRatio == 1 && g.isDeleteEquivTgt && g.maxHop == 2
    requires g.SearchOutcome("A", "B", {"C"}, t, r)
    ensures r == [("A", "D")]
  {
    ChainCandidates(g);
    g.SearchSingleCandidate("A", "B", {"C"}, t, r, "D");
  }

  /** In the chain, the second round's frontier from B is {C}. */
  lemma ChainSecondFrontier(g: Generator)
    requires g.tgtOnto == ChainTarget() && g.rel == Broader
    ensures g.Layers("B", 2).0 == {"C"}
  {
    StepSingle(ChainTarget(), Broader, "B");
  }

  /** In the chain with nothing deleted and a ratio of 5, the first round
      accepts C only. */
  lemma ChainFirstRound(g: Generator, t: Visits)
    requires g.tgtOnto == ChainTarget() && g.rel == Broader
    requires g.maxSubsRatio == 5 && !g.isDeleteEquivTgt
    requires g.RoundsRan("B", {}, t) && t != []
    ensures g.RunAccepted(t[..1], {}) == ["C"]
  {
    g.RunFirstRound("B", {}, t);
    assert Move(ChainTarget(), Broader, "B") == ["C"];
    assert Admitted(["C"], false, {}) == ["C"];
  }

  /** In the chain with nothing deleted and a ratio of 5, a round that
      visits C after one acceptance accepts D. */
  lemma ChainSecondRound(g: Generator)
    requires g.tgtOnto == ChainTarget() && g.rel == Broader
    requires g.maxSubsRatio == 5 && !g.isDeleteEquivTgt
    ensures forall order, count :: order == ["C"] && count == 1 ==> g.RoundAccepted(order, count, {}) == ["D"]
  {
    g.RoundAcceptedSnoc([], "C", 1, {});
    assert Move(ChainTarget(), Broader, "C") == ["D"];
    assert Admitted(["D"], false, {}) == ["D"];
  }

  /** In the chain, a second round of a search from B visits C alone. */
  lemma ChainSecondVisit(g: Generator, t: Visits)
    requires g.tgtOnto == ChainTarget() && g.rel == Broader
    requires g.RoundsRan("B", {}, t) && |t| == 2
    ensures t[1] == ["C"]
  {
    g.RoundsRanAt("B", {}, t, 1);
    ChainSecondFrontier(g);
    EnumeratesSingle(t[1], "C");
  }

  /** In the chain with nothing deleted and a ratio of 5, two rounds
      accept C and then D. */
  lemma ChainTwoRounds(g: Generator, t: Visits)
    requires g.tgtOnto == ChainTarget() && g.rel == Broader
    requires g.maxSubsRatio == 5 && !g.isDeleteEquivTgt
    requires g.RoundsRan("B", {}, t) && |t| == 2
    ensures g.RunAccepted(t, {}) == ["C", "D"]
  {
    ChainFirstRound(g, t);
    ChainSecondVisit(g, t);
    ChainSecondRound(g);
    var first, second := t[..1], t[1];
    assert first + [second] == t;
    g.RunAcceptedSnoc(first, second, {});
  }

  /** In the chain with nothing deleted, a ratio of 5 and two hops, the
      first round accepts C only, so the second round runs as well and
      accepts D: the search produces (A, C) and then (A, D). */
  lemma ChainSearchBelowRatio(g: Generator, t: Visits, r: seq<Pair>)
    requires g.tgtOnto == ChainTarget() && g.rel == Broader
    requires g.maxSubsRatio == 5 && !g.isDeleteEquivTgt && g.maxHop == 2
    requires g.SearchOutcome("A", "B", {}, t, r)
    ensures r == [("A", "C"), ("A", "D")]
  {
    ChainBelowRatioRounds(g, t, r);
    ChainTwoRounds(g, t);
    ChainPairs(g.RunAccepted(t, {}));
  }

  /** In the chain with nothing deleted, a ratio of 5 and two hops, the
      search runs both rounds. */
  lemma ChainBelowRatioRounds(g: Generator, t: Visits, r: seq<Pair>)
    requires g.tgtOnto == ChainTarget() && g.rel == Broader
    requires g.maxSubsRatio == 5 && !g.isDeleteEquivTgt && g.maxHop == 2
    requires g.SearchOutcome("A", "B", {}, t, r)
    ensures |t| == 2
  {
    g.SearchStop("A", "B", {}, t, r);
    if |t| < 2 {
      ChainFirstRound(g, t);
    }
  }

  /** Pairing A with C and D gives two distinct pairs. */
  lemma ChainPairs(accepted: seq<Name>)
    requires accepted == ["C", "D"]
    ensures Uniqify(PairWith("A", accepted)) == [("A", "C"), ("A", "D")]
  {
    UniqifyDistinct(PairWith("A", accepted));
  }

  /** A diamond hierarchy: B's super-classes are C and D, and C's is D. */
  function DiamondTarget(): Ontology {
    Ontology(["B", "C", "D"], map["B" := ["C", "D"], "C" := ["D"]], map["C" := ["B"], "D" := ["B", "C"]],
             map["B" := {"C", "D"}, "C" := {"D"}], map["C" := {"B"}, "D" := {"B", "C"}])
  }

  /** In the diamond with nothing deleted and a ratio of 5, the first round
      accepts C and D. */
  lemma DiamondFirstRound(g: Generator, t: Visits)
    requires g.tgtOnto == DiamondTarget() && g.rel == Broader
    requires g.maxSubsRatio == 5 && !g.isDeleteEquivTgt
    requires g.RoundsRan("B", {}, t) && t != []
    ensures g.RunAccepted(t[..1], {}) == ["C", "D"]
  {
    g.RunFirstRound("B", {}, t);
    assert Move(DiamondTarget(), Broader, "B") == ["C", "D"];
    assert Admitted(["C", "D"], false, {}) == ["C", "D"];
  }

  /** In the diamond with nothing deleted, a ratio of 5 and two hops, the
      search runs both rounds. */
  lemma DiamondRoundsRun(g: Generator, t: Visits, r: seq<Pair>)
    requires g.tgtOnto == DiamondTarget() && g.rel == Broader
    requires g.maxSubsRatio == 5 && !g.isDeleteEquivTgt && g.maxHop == 2
    requires g.SearchOutcome("A", "B", {}, t, r)
    ensures |t| == 2
  {
    g.SearchStop("A", "B", {}, t, r);
    if |t| < 2 {
      DiamondFirstRound(g, t);
    }
  }

  /** In the diamond, a second round of a search from B visits C and D,
      in one order or the other. */
  lemma DiamondSecondVisit(g: Generator, t: Visits)
    requires g.tgtOnto == DiamondTarget() && g.rel == Broader
    requires g.RoundsRan("B", {}, t) && |t| == 2
    ensures t[1] == ["C", "D"] || t[1] == ["D", "C"]
  {
    g.RoundsRanAt("B", {}, t, 1);
    StepSingle(DiamondTarget(), Broader, "B");
    assert g.Layers("B", 2).0 == {"C", "D"};
    EnumeratesPair(t[1], "C", "D");
  }

  /** In the diamond with nothing deleted and a ratio of 5, a round that
      visits C and D, in either order, after two acceptances accepts D
      alone: C's scan finds D again, D's scan finds nothing. */
  lemma DiamondSecondRound(g: Generator)
    requires g.tgtOnto == DiamondTarget() && g.rel == Broader
    requires g.maxSubsRatio == 5 && !g.isDeleteEquivTgt
    ensures forall order, count :: (order == ["C", "D"] || order == ["D", "C"]) && count == 2 ==>
              g.RoundAccepted(order, count, {}) == ["D"]
  {
    assert Move(DiamondTarget(), Broader, "C") == ["D"];
    assert Move(DiamondTarget(), Broader, "D") == [];
    assert Admitted(["D"], false, {}) == ["D"];
    assert Admitted([], false, {}) == [];
    g.RoundAcceptedSnoc([], "C", 2, {});
    g.RoundAcceptedSnoc([], "D", 2, {});
    g.RoundAcceptedSnoc(["C"], "D", 2, {});
    g.RoundAcceptedSnoc(["D"], "C", 2, {});
  }

  /** In the diamond, the two rounds of a search from B accept C and D,
      then D again. */
  lemma DiamondRounds(g: Generator, t: Visits)
    requires g.tgtOnto == DiamondTarget() && g.rel == Broader
    requires g.maxSubsRatio == 5 && !g.isDeleteEquivTgt
    requires g.RoundsRan("B", {}, t) && |t| == 2
    ensures g.Rounds(t, {})[0] == ["C", "D"] && g.Rounds(t, {})[1] == ["D"]
  {
    DiamondFirstRound(g, t);
    DiamondSecondVisit(g, t);
    DiamondSecondRound(g);
    g.RoundsFirst(t, {});
    g.RoundsAt(t, 1, {});
  }

  /** The search from the equivalence (A, B) in the diamond, with nothing
      deleted, a ratio of 5 and two hops: D is accepted in the first round
      and again in the second, and its hop entry is the later round's, 2,
      while C keeps hop 1. */
  lemma DiamondHops(g: Generator, t: Visits, r: seq<Pair>, hops: map<Pair, int>, h0: map<Pair, int>,
                    built: map<Name, bool>, b0: map<Name, bool>)
    requires g.tgtOnto == DiamondTarget() && g.rel == Broader
    requires g.maxSubsRatio == 5 && !g.isDeleteEquivTgt && g.maxHop == 2
    requires g.SearchRecorded("A", "B", {}, t, r, hops, h0, built, b0)
    ensures ("A", "C") in r && hops[("A", "C")] == 1
    ensures ("A", "D") in r && hops[("A", "D")] == 2
  {
    DiamondRoundsRun(g, t, r);
    DiamondLastRounds(g, t);
    assert ("A", "C") in PairWith("A", g.RunAccepted(t, {}));
    assert ("A", "D") in PairWith("A", g.RunAccepted(t, {}));
  }

  /** In the diamond, the search from B last accepted C in round 1 and D
      in round 2. */
  lemma DiamondLastRounds(g: Generator, t: Visits)
    requires g.tgtOnto == DiamondTarget() && g.rel == Broader
    requires g.maxSubsRatio == 5 && !g.isDeleteEquivTgt
    requires g.RoundsRan("B", {}, t) && |t| == 2
    ensures g.LastRound(t, {}, "C") == 1 && g.LastRound(t, {}, "D") == 2
    ensures "C" in g.RunAccepted(t, {}) && "D" in g.RunAccepted(t, {})
  {
    DiamondRounds(g, t);
    var rs := g.Rounds(t, {});
    assert "D" in rs[1] && "C" !in rs[1];
    assert rs[..1][0] == rs[0];
    assert LastIn(rs, "C") == LastIn(rs[..1], "C") == 1;
    g.LastRoundAccepted(t, {}, "C");
    g.LastRoundAccepted(t, {}, "D");
  }

  /** A worked example of the static policy: with the equivalence (A, B),
      B's only super-class C and a ratio of 1, B is marked deleted and the
      single subsumption produced is (A, C). */
  method StaticExample() returns (pairs: seq<Pair>, deleted: set<Name>)
    ensures pairs == [("A", "C")]
    ensures deleted == {"B"}
  {
    var srcOnto := Ontology(["A"], map[], map[], map[], map[]);
    var g := new Generator(srcOnto, ExampleTarget(), Broader, [("A", "B")], map["A" := ["B"]], 1, true, 3);
    ghost var perPair, perVisits := g.StaticSubsConstruct();
    assert g.StaticDeleted() == {"B"};
    assert g.SearchOutcome("A", "B", {"B"}, perVisits[0], perPair[0]);
    ExampleSearch(g, perVisits[0], perPair[0]);
    FlattenSingle(perPair);
    UniqifyDistinct(Flatten(perPair));
    pairs := g.subPairs;
    deleted := MarkedSet(g.deleteStatus);
  }
}
