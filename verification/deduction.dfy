/** The single-round deduction check: could the acting person name the pair? */
module Deduction {
  import opened Model

  /** `p` is the sole occupant of some bucket of `m`: someone observing that
      bucket's key would know the pair is `p`. */
  ghost predicate Deducible(m: PairMap, p: Pair) {
    exists k :: k in m && m[k] == {p}
  }

  /** `p` is deducible and no other pair is. */
  ghost predicate UniquelyDeducible(m: PairMap, p: Pair) {
    Deducible(m, p) && forall q | Deducible(m, q) :: q == p
  }

  /** The sole occupants of the singleton buckets of `m`. */
  function SoleOccupants(m: PairMap): (r: set<Pair>)
    ensures forall p :: p in r <==> Deducible(m, p)
  {
    var r := set k, p | k in m && p in m[k] && |m[k]| == 1 :: p;
    assert forall p :: p in r <==> Deducible(m, p) by {
      forall p
        ensures p in r <==> Deducible(m, p)
      {
        if p in r {
          var k :| k in m && p in m[k] && |m[k]| == 1;
          SingletonSize(m[k], p);
        }
        if Deducible(m, p) {
          var k :| k in m && m[k] == {p};
          assert p in m[k] && |m[k]| == 1;
        }
      }
    }
    r
  }

  /** The only element of a one-element set. */
  function First(s: set<Pair>): (x: Pair)
    requires |s| == 1
    ensures s == {x}
  {
    var x :| x in s;
    SingletonSize(s, x);
    x
  }

  /** The round's outcome when `person`, holding index `m`, is asked whether
      they know the pair: a solution exactly when one distinct pair is the
      sole occupant of some bucket. */
  function FindPossibleSolution(round: int, m: PairMap, person: Person): (r: RoundResult)
    ensures r.round == round
    ensures r.result.Some? <==> exists p :: UniquelyDeducible(m, p)
    ensures r.result.Some? ==> r.result.value.person == person && UniquelyDeducible(m, r.result.value.numbers)
  {
    var possible := SoleOccupants(m);
    if |possible| == 1 then
      var p := First(possible);
      assert UniquelyDeducible(m, p);
      RoundResult(round, Some(Solution(person, p)))
    else
      assert forall p | UniquelyDeducible(m, p) :: possible == {p};
      RoundResult(round, None)
  }

  /** Against a consistent index, a pair is deducible exactly when it is still a
      candidate and no other candidate shows `who` the same product (or sum). */
  lemma DeducibleIffObservationUnique(m: PairMap, pairs: set<Pair>, who: Person, p: Pair)
    requires Indexes(m, pairs, who)
    ensures Deducible(m, p) <==>
              p in pairs && forall q | q in pairs && Observe(who, q) == Observe(who, p) :: q == p
  {
    var k := Observe(who, p);
    if Deducible(m, p) {
      var j :| j in m && m[j] == {p};
      assert p in m[j] && j == k;
      forall q | q in pairs && Observe(who, q) == k
        ensures q == p
      {
        assert q in m[k];
      }
    }
    if p in pairs && forall q | q in pairs && Observe(who, q) == k :: q == p {
      assert k in m && p in m[k];
      forall q | q in m[k]
        ensures q == p
      {
        assert q in pairs && Observe(who, q) == k;
      }
      assert m[k] == {p};
    }
  }

  /** `who`, told the product (or sum) of `p`, could name `p`: no other
      candidate has the same product (or sum). */
  ghost predicate Recognisable(pairs: set<Pair>, who: Person, p: Pair) {
    p in pairs && forall q | q in pairs && Observe(who, q) == Observe(who, p) :: q == p
  }

  /** Against a consistent index, a round is solved exactly when one candidate
      alone is recognisable by the acting person, and that candidate is the answer. */
  lemma SolvedIffOneRecognisable(m: PairMap, pairs: set<Pair>, who: Person, round: int)
    requires Indexes(m, pairs, who)
    ensures var r := FindPossibleSolution(round, m, who);
            (r.result.Some? <==> exists p :: Recognisable(pairs, who, p) && forall q | Recognisable(pairs, who, q) :: q == p)
            && (r.result.Some? ==> Recognisable(pairs, who, r.result.value.numbers))
  {
    forall p
      ensures Deducible(m, p) <==> Recognisable(pairs, who, p)
    {
      DeducibleIffObservationUnique(m, pairs, who, p);
    }
    var r := FindPossibleSolution(round, m, who);
    if r.result.Some? {
      var p := r.result.value.numbers;
      assert Recognisable(pairs, who, p) && forall q | Recognisable(pairs, who, q) :: q == p;
    }
    if exists p :: Recognisable(pairs, who, p) && forall q | Recognisable(pairs, who, q) :: q == p {
      var p :| Recognisable(pairs, who, p) && forall q | Recognisable(pairs, who, q) :: q == p;
      assert UniquelyDeducible(m, p);
    }
  }
}
