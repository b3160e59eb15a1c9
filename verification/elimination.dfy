/** The elimination step run after every deduction check: pairs the acting
    person would have recognised are ruled out, because that person stayed
    silent (or, when they did speak, the pair is resolved). */
module Elimination {
  import opened Model
  import opened Deduction

  /** First pass over the acting index: the keys it deletes are exactly the
      singleton buckets, and their occupants are exactly the pairs someone
      holding `m` could name. */
  function DropSingletons(m: PairMap): (r: PairMap)
    ensures forall k | k in r :: k in m && r[k] == m[k] && |r[k]| != 1
    ensures forall k | k in m && k !in r :: |m[k]| == 1
    ensures forall p :: p in SoleOccupants(m) <==> exists k | k in m && k !in r :: p in m[k]
  {
    var r := map k | k in m && |m[k]| != 1 :: m[k];
    forall p
      ensures p in SoleOccupants(m) <==> exists k | k in m && k !in r :: p in m[k]
    {
      if p in SoleOccupants(m) {
        var k :| k in m && m[k] == {p};
        assert k !in r && p in m[k];
      }
      if exists k | k in m && k !in r :: p in m[k] {
        var k :| k in m && k !in r && p in m[k];
        SingletonSize(m[k], p);
      }
    }
    r
  }

  /** Sweep of one index: every pair of `removed` leaves every bucket, every
      other pair stays where it was, nothing is added, and buckets left empty
      are deleted. */
  function Sweep(m: PairMap, removed: set<Pair>): (r: PairMap)
    ensures forall k | k in r :: r[k] != {} && r[k] !! removed
    ensures forall k, p | k in m && p in m[k] && p !in removed :: k in r && p in r[k]
    ensures forall k, p | k in r && p in r[k] :: k in m && p in m[k]
  {
    var r := map k | k in m && m[k] - removed != {} :: m[k] - removed;
    forall k, p | k in m && p in m[k] && p !in removed
      ensures k in r && p in r[k]
    {
      assert p in m[k] - removed;
    }
    r
  }

  /** One turn's elimination with `from` the acting index and `other` the
      other person's: the sole occupants of `from`'s singleton buckets leave
      the candidates and both indexes, and emptied keys are pruned.
      The result is (from', other', candidates'). */
  function RemoveCandidates(from: PairMap, other: PairMap, candidates: set<Pair>): (r: (PairMap, PairMap, set<Pair>))
    ensures forall p :: p in r.2 <==> p in candidates && !Deducible(from, p)
    ensures forall k | k in from && |from[k]| == 1 :: k !in r.0
    ensures forall k | k in r.0 :: r.0[k] != {} && forall p | p in r.0[k] :: !Deducible(from, p)
    ensures forall k | k in r.1 :: r.1[k] != {} && forall p | p in r.1[k] :: !Deducible(from, p)
    ensures forall k, p | k in from && p in from[k] && !Deducible(from, p) :: k in r.0 && p in r.0[k]
    ensures forall k, p | k in other && p in other[k] && !Deducible(from, p) :: k in r.1 && p in r.1[k]
    ensures forall k, p | k in r.0 && p in r.0[k] :: k in from && p in from[k]
    ensures forall k, p | k in r.1 && p in r.1[k] :: k in other && p in other[k]
  {
    var removed := SoleOccupants(from);
    var from' := Sweep(DropSingletons(from), removed);
    var other' := Sweep(other, removed);
    assert forall k, p | k in from && p in from[k] && !Deducible(from, p) :: |from[k]| != 1 by {
      forall k, p | k in from && p in from[k] && !Deducible(from, p)
        ensures |from[k]| != 1
      {
        SingletonSize(from[k], p);
      }
    }
    (from', other', candidates - removed)
  }

  /** One turn's elimination on the whole state, with `who` acting: the
      driver's two call sites, with the indexes swapped for Sandy. */
  function Turn(s: State, who: Person): (r: State)
    ensures forall p :: p in r.pairs <==> p in s.pairs && !Deducible(Acting(s, who), p)
    ensures r.pairs <= s.pairs
  {
    match who
    case Peter =>
      var (products, sums, pairs) := RemoveCandidates(s.products, s.sums, s.pairs);
      State(products, sums, pairs)
    case Sandy =>
      var (sums, products, pairs) := RemoveCandidates(s.sums, s.products, s.pairs);
      State(products, sums, pairs)
  }

  /** Elimination keeps each index in step with the candidate set: a pair sits
      in the bucket of its own key iff it is still a candidate, and no bucket is empty. */
  lemma RemoveCandidatesPreservesIndexes(from: PairMap, other: PairMap, candidates: set<Pair>, w: Person, v: Person)
    requires Indexes(from, candidates, w)
    requires Indexes(other, candidates, v)
    ensures var r := RemoveCandidates(from, other, candidates);
            Indexes(r.0, r.2, w) && Indexes(r.1, r.2, v)
  {
    ActingIndexPreserved(from, other, candidates, w);
    OtherIndexPreserved(from, other, candidates, v);
  }

  lemma ActingIndexPreserved(from: PairMap, other: PairMap, candidates: set<Pair>, w: Person)
    requires Indexes(from, candidates, w)
    ensures var r := RemoveCandidates(from, other, candidates); Indexes(r.0, r.2, w)
  {
    var r := RemoveCandidates(from, other, candidates);
    SurvivorsIndexed(from, candidates, r.0, r.2, from, w);
  }

  lemma OtherIndexPreserved(from: PairMap, other: PairMap, candidates: set<Pair>, v: Person)
    requires Indexes(other, candidates, v)
    ensures var r := RemoveCandidates(from, other, candidates); Indexes(r.1, r.2, v)
  {
    var r := RemoveCandidates(from, other, candidates);
    SurvivorsIndexed(other, candidates, r.1, r.2, from, v);
  }

  /** An index of `pairs` narrowed to the pairs not deducible from `from` --
      each survivor kept in its original bucket, nothing added, no bucket
      left empty -- indexes the surviving candidates. */
  lemma SurvivorsIndexed(m: PairMap, pairs: set<Pair>, m': PairMap, pairs': set<Pair>, from: PairMap, who: Person)
    requires Indexes(m, pairs, who)
    requires forall p :: p in pairs' <==> p in pairs && !Deducible(from, p)
    requires forall k | k in m' :: m'[k] != {} && forall p | p in m'[k] :: !Deducible(from, p)
    requires forall k, p | k in m && p in m[k] && !Deducible(from, p) :: k in m' && p in m'[k]
    requires forall k, p | k in m' && p in m'[k] :: k in m && p in m[k]
    ensures Indexes(m', pairs', who)
  {
    forall k, p | k in m' && p in m'[k]
      ensures p in pairs' && Observe(who, p) == k
    {
      assert k in m && p in m[k] && !Deducible(from, p);
    }
    forall p | p in pairs'
      ensures Observe(who, p) in m' && p in m'[Observe(who, p)]
    {
      var k := Observe(who, p);
      assert p in pairs && !Deducible(from, p);
      assert k in m && p in m[k];
    }
  }

  /** Consistency of the whole state survives a turn. */
  lemma TurnPreservesConsistency(s: State, who: Person)
    requires Consistent(s)
    ensures Consistent(Turn(s, who))
  {
    match who
    case Peter => RemoveCandidatesPreservesIndexes(s.products, s.sums, s.pairs, Peter, Sandy);
    case Sandy => RemoveCandidatesPreservesIndexes(s.sums, s.products, s.pairs, Sandy, Peter);
  }

  /** The in-place maintenance of both indexes gives exactly the indexes one
      would build from scratch over the surviving candidates. */
  lemma TurnIsRebuild(s: State, who: Person)
    requires Consistent(s)
    ensures Turn(s, who) == Rebuild(s.pairs - SoleOccupants(Acting(s, who)))
  {
    var r := Turn(s, who);
    TurnPreservesConsistency(s, who);
    ConsistentIsRebuild(r);
    assert r.pairs == s.pairs - SoleOccupants(Acting(s, who));
  }

  /** Every pair the acting person could name is a candidate, so it is
      eliminated by the turn. */
  lemma DeducibleAreCandidates(s: State, who: Person)
    requires Consistent(s)
    ensures SoleOccupants(Acting(s, who)) <= s.pairs
    ensures Turn(s, who).pairs == s.pairs - SoleOccupants(Acting(s, who))
    ensures |Turn(s, who).pairs| == |s.pairs| - |SoleOccupants(Acting(s, who))|
  {
    var m := Acting(s, who);
    forall p | p in SoleOccupants(m)
      ensures p in s.pairs
    {
      var k :| k in m && m[k] == {p};
      assert p in m[k];
    }
  }

  /** A turn shrinks the candidate set iff the acting index has a singleton bucket. */
  lemma TurnShrinksIff(s: State, who: Person)
    requires Consistent(s)
    ensures |Turn(s, who).pairs| < |s.pairs| <==> exists k :: k in Acting(s, who) && |Acting(s, who)[k]| == 1
  {
    var m := Acting(s, who);
    DeducibleAreCandidates(s, who);
    if exists k :: k in m && |m[k]| == 1 {
      var k :| k in m && |m[k]| == 1;
      var p :| p in m[k];
      SingletonSize(m[k], p);
      assert p in SoleOccupants(m);
    }
    if |Turn(s, who).pairs| < |s.pairs| {
      var p :| p in SoleOccupants(m);
      var k :| k in m && m[k] == {p};
    }
  }

  /** A pair announced in a round is no longer a candidate after that round's elimination. */
  lemma SolvedPairEliminated(s: State, who: Person, round: int)
    requires Consistent(s)
    ensures var o := FindPossibleSolution(round, Acting(s, who), who);
            o.result.Some? ==> o.result.value.numbers in s.pairs && o.result.value.numbers !in Turn(s, who).pairs
  {
    DeducibleAreCandidates(s, who);
  }
}
