/** The round driver: Peter (products) and Sandy (sums) take turns; each round
    reports whether the acting person could name the pair, then eliminates,
    and the run stops at the first round that eliminates nothing. */
module Rounds {
  import opened Model
  import opened IndexBuilder
  import opened Deduction
  import opened Elimination

  /** The state the driver starts from for bound n. */
  function Initial(n: int): (s: State)
    ensures Consistent(s)
    ensures s.pairs == AllPairs(n)
  {
    Rebuild(AllPairs(n))
  }

  /** Who acts `i` rounds after `who`: turns alternate. */
  function ActingAfter(who: Person, i: nat): (w: Person) {
    if i % 2 == 0 then who else Other(who)
  }

  lemma ActingAfterShift(who: Person, i: nat)
    requires i >= 1
    ensures ActingAfter(Other(who), i - 1) == ActingAfter(who, i)
  {
    assert Other(Other(who)) == who;
  }

  /** Results in which every announcement is made by the person whose turn it is, `who` acting first. */
  ghost predicate Alternates(r: seq<RoundResult>, who: Person) {
    forall i | 0 <= i < |r| && r[i].result.Some? :: r[i].result.value.person == ActingAfter(who, i)
  }

  lemma AlternationExtends(outcome: RoundResult, rest: seq<RoundResult>, who: Person)
    requires outcome.result.Some? ==> outcome.result.value.person == who
    requires Alternates(rest, Other(who))
    ensures Alternates([outcome] + rest, who)
  {
    var r := [outcome] + rest;
    forall i | 1 <= i < |r| && r[i].result.Some?
      ensures r[i].result.value.person == ActingAfter(who, i)
    {
      assert r[i] == rest[i - 1];
      ActingAfterShift(who, i);
    }
  }

  /** Results numbered consecutively, the first being `round`. */
  ghost predicate NumberedFrom(r: seq<RoundResult>, round: int) {
    forall i | 0 <= i < |r| :: r[i].round == round + i
  }

  lemma NumberingExtends(outcome: RoundResult, rest: seq<RoundResult>, round: int)
    requires outcome.round == round
    requires NumberedFrom(rest, round + 1)
    ensures NumberedFrom([outcome] + rest, round)
  {
    var r := [outcome] + rest;
    forall i | 1 <= i < |r|
      ensures r[i].round == round + i
    {
      assert r[i] == rest[i - 1];
    }
  }

  /** The outcomes of the rounds played from state `s`, `who` acting in the
      first of them, which is numbered `round`. */
  function Play(s: State, who: Person, round: int): (r: seq<RoundResult>)
    ensures NumberedFrom(r, round)
    ensures Alternates(r, who)
    decreases |s.pairs|
  {
    var outcome := FindPossibleSolution(round, Acting(s, who), who);
    var next := Turn(s, who);
    SubsetSize(next.pairs, s.pairs);
    if |next.pairs| == |s.pairs| then
      [outcome]
    else
      var rest := Play(next, Other(who), round + 1);
      var r := [outcome] + rest;
      NumberingExtends(outcome, rest, round);
      AlternationExtends(outcome, rest, who);
      r
  }

  /** A run has at least one round, and at most one more round than there
      are candidates: every round but the last eliminates at least one pair. */
  lemma {:induction false} PlayLength(s: State, who: Person, round: int)
    ensures 1 <= |Play(s, who, round)| <= |s.pairs| + 1
    decreases |s.pairs|
  {
    var next := Turn(s, who);
    SubsetSize(next.pairs, s.pairs);
    if |next.pairs| != |s.pairs| {
      PlayLength(next, Other(who), round + 1);
    }
  }

  /** Every outcome of a run for bound n, Peter acting first in round 1. */
  function Rounds(n: int): (r: seq<RoundResult>) {
    Play(Initial(n), Peter, 1)
  }

  /** The driver: build the indexes, then play rounds until one eliminates nothing. */
  method GenerateSolutions(n: int) returns (results: seq<RoundResult>)
    ensures results == Rounds(n)
  {
    var products, sums, pairs := Initialise(n);
    ConsistentIsRebuild(State(products, sums, pairs));
    results := PlayRounds(State(products, sums, pairs));
  }

  /** The round loop: a flag for whose turn it is, a round counter,
      and the candidate count of the previous round as the stop test. */
  method PlayRounds(start: State) returns (results: seq<RoundResult>)
    ensures results == Play(start, Peter, 1)
  {
    var products, sums, pairs := start.products, start.sums, start.pairs;
    var isPeter := true;
    var round := 0;
    var pairsLastRound := |pairs|;
    results := [];
    ghost var state := start;
    ghost var who := Peter;
    AppendEmpty(Play(start, Peter, 1));
    assert results + Play(state, who, round + 1) == Play(start, Peter, 1);
    while true
      invariant state == State(products, sums, pairs)
      invariant who == if isPeter then Peter else Sandy
      invariant results + Play(state, who, round + 1) == Play(start, Peter, 1)
      invariant pairsLastRound == |pairs|
      decreases |pairs|
    {
      round := round + 1;
      ghost var done := results;
      ghost var outcome := FindPossibleSolution(round, Acting(state, who), who);
      if isPeter {
        results := results + [FindPossibleSolution(round, products, Peter)];
        var r := RemoveCandidates(products, sums, pairs);
        products, sums, pairs := r.0, r.1, r.2;
      } else {
        results := results + [FindPossibleSolution(round, sums, Sandy)];
        var r := RemoveCandidates(sums, products, pairs);
        sums, products, pairs := r.0, r.1, r.2;
      }
      assert results == done + [outcome];
      ghost var after := Turn(state, who);
      assert after == State(products, sums, pairs);
      PlayStep(state, who, round);
      if pairsLastRound == |pairs| {
        return;
      }
      SubsetSize(pairs, state.pairs);
      ghost var rest := Play(after, Other(who), round + 1);
      AppendAssociates(done, [outcome], rest);
      isPeter := !isPeter;
      pairsLastRound := |pairs|;
      state, who := after, Other(who);
    }
  }

  lemma AppendAssociates<T>(a: seq<T>, b: seq<T>, c: seq<T>)
    ensures (a + b) + c == a + (b + c)
  {
  }

  lemma AppendEmpty<T>(a: seq<T>)
    ensures [] + a == a
  {
  }

  /** One round of a run: its outcome, then either the end of the run (nothing
      was eliminated) or the run continuing from the eliminated state. */
  lemma PlayStep(s: State, who: Person, round: int)
    ensures var outcome := FindPossibleSolution(round, Acting(s, who), who);
            var next := Turn(s, who);
            Play(s, who, round) == if |next.pairs| == |s.pairs| then [outcome] else [outcome] + Play(next, Other(who), round + 1)
  {
  }

  /** The state after `i` turns from `s`, `who` acting first. */
  function After(s: State, who: Person, i: nat): (t: State)
    ensures i == 0 ==> t == s
    decreases i
  {
    if i == 0 then s else After(Turn(s, who), Other(who), i - 1)
  }

  /** Every outcome in `r` is what the person acting then can deduce from
      their own index, in the state left by the turns before it, the first
      outcome being `who`'s in `s` and numbered `round`. */
  ghost predicate Traced(r: seq<RoundResult>, s: State, who: Person, round: int) {
    forall i | 0 <= i < |r| ::
      r[i] == FindPossibleSolution(round + i, Acting(After(s, who, i), ActingAfter(who, i)), ActingAfter(who, i))
  }

  lemma AfterShift(s: State, who: Person, i: nat)
    requires 1 <= i
    ensures After(s, who, i) == After(Turn(s, who), Other(who), i - 1)
    ensures ActingAfter(who, i) == ActingAfter(Other(who), i - 1)
  {
    ActingAfterShift(who, i);
  }

  lemma TraceExtends(outcome: RoundResult, rest: seq<RoundResult>, s: State, who: Person, round: int)
    requires outcome == FindPossibleSolution(round, Acting(s, who), who)
    requires Traced(rest, Turn(s, who), Other(who), round + 1)
    ensures Traced([outcome] + rest, s, who, round)
  {
    var r := [outcome] + rest;
    forall i | 1 <= i < |r|
      ensures r[i] == FindPossibleSolution(round + i, Acting(After(s, who, i), ActingAfter(who, i)), ActingAfter(who, i))
    {
      assert r[i] == rest[i - 1];
      AfterShift(s, who, i);
    }
  }

  /** Every round of a run reports what the person acting in it can deduce
      from their own index, in the state left by the turns before it. */
  lemma {:induction false} PlayTrace(s: State, who: Person, round: int)
    ensures Traced(Play(s, who, round), s, who, round)
    decreases |s.pairs|
  {
    var next := Turn(s, who);
    if |next.pairs| == |s.pairs| {
      TraceLast(s, who, round);
    } else {
      SubsetSize(next.pairs, s.pairs);
      PlayTrace(next, Other(who), round + 1);
      TraceMore(s, who, round);
    }
  }

  /** A run whose first round eliminates nothing is traced by that round alone. */
  lemma TraceLast(s: State, who: Person, round: int)
    requires |Turn(s, who).pairs| == |s.pairs|
    ensures Traced(Play(s, who, round), s, who, round)
  {
    var outcome := FindPossibleSolution(round, Acting(s, who), who);
    PlayStep(s, who, round);
    assert Play(s, who, round) == [outcome];
    assert After(s, who, 0) == s && ActingAfter(who, 0) == who;
  }

  /** A traced continuation, after a first round that eliminates something,
      traces the whole run. */
  lemma TraceMore(s: State, who: Person, round: int)
    requires |Turn(s, who).pairs| != |s.pairs|
    requires Traced(Play(Turn(s, who), Other(who), round + 1), Turn(s, who), Other(who), round + 1)
    ensures Traced(Play(s, who, round), s, who, round)
  {
    var outcome := FindPossibleSolution(round, Acting(s, who), who);
    PlayStep(s, who, round);
    TraceExtends(outcome, Play(Turn(s, who), Other(who), round + 1), s, who, round);
  }

  /** The run stops after one round exactly when the acting person's index has
      no singleton bucket, i.e. that round eliminates nothing. */
  lemma PlayStopsIff(s: State, who: Person, round: int)
    requires Consistent(s)
    ensures |Play(s, who, round)| == 1 <==> forall k | k in Acting(s, who) :: |Acting(s, who)[k]| != 1
  {
    var next := Turn(s, who);
    PlayStep(s, who, round);
    TurnShrinksIff(s, who);
    SubsetSize(next.pairs, s.pairs);
    if |next.pairs| != |s.pairs| {
      PlayLength(next, Other(who), round + 1);
    }
  }

  /** Every announcement in `r` names a pair of `pairs`. */
  ghost predicate AnnouncesWithin(r: seq<RoundResult>, pairs: set<Pair>) {
    forall i | 0 <= i < |r| && r[i].result.Some? :: r[i].result.value.numbers in pairs
  }

  /** No pair is announced in two rounds of `r`. */
  ghost predicate AnnouncesOnce(r: seq<RoundResult>) {
    forall i, j | 0 <= i < j < |r| && r[i].result.Some? && r[j].result.Some? ::
      r[i].result.value.numbers != r[j].result.value.numbers
  }

  lemma WithinExtends(outcome: RoundResult, rest: seq<RoundResult>, later: set<Pair>, pairs: set<Pair>)
    requires later <= pairs
    requires outcome.result.Some? ==> outcome.result.value.numbers in pairs
    requires AnnouncesWithin(rest, later)
    ensures AnnouncesWithin([outcome] + rest, pairs)
  {
    var r := [outcome] + rest;
    forall i | 1 <= i < |r| && r[i].result.Some?
      ensures r[i].result.value.numbers in pairs
    {
      assert r[i] == rest[i - 1];
    }
  }

  lemma OnceExtends(outcome: RoundResult, rest: seq<RoundResult>, later: set<Pair>)
    requires outcome.result.Some? ==> outcome.result.value.numbers !in later
    requires AnnouncesWithin(rest, later)
    requires AnnouncesOnce(rest)
    ensures AnnouncesOnce([outcome] + rest)
  {
    var r := [outcome] + rest;
    forall i, j | 0 <= i < j < |r| && r[i].result.Some? && r[j].result.Some?
      ensures r[i].result.value.numbers != r[j].result.value.numbers
    {
      assert r[j] == rest[j - 1];
      if i > 0 {
        assert r[i] == rest[i - 1];
      }
    }
  }

  /** Every pair announced in a run from a consistent state was a candidate of that state. */
  lemma {:induction false} AnnouncedAreCandidates(s: State, who: Person, round: int)
    requires Consistent(s)
    ensures AnnouncesWithin(Play(s, who, round), s.pairs)
    decreases |s.pairs|
  {
    var outcome := FindPossibleSolution(round, Acting(s, who), who);
    var next := Turn(s, who);
    SolvedPairEliminated(s, who, round);
    if |next.pairs| == |s.pairs| {
      assert Play(s, who, round) == [outcome];
    } else {
      TurnPreservesConsistency(s, who);
      AnnouncedAreCandidates(next, Other(who), round + 1);
      WithinExtends(outcome, Play(next, Other(who), round + 1), next.pairs, s.pairs);
    }
  }

  /** No pair is announced in two different rounds: an announced pair is
      eliminated in the round it is announced. */
  lemma {:induction false} NoPairAnnouncedTwice(s: State, who: Person, round: int)
    requires Consistent(s)
    ensures AnnouncesOnce(Play(s, who, round))
    decreases |s.pairs|
  {
    var outcome := FindPossibleSolution(round, Acting(s, who), who);
    var next := Turn(s, who);
    SolvedPairEliminated(s, who, round);
    if |next.pairs| == |s.pairs| {
      assert Play(s, who, round) == [outcome];
    } else {
      TurnPreservesConsistency(s, who);
      NoPairAnnouncedTwice(next, Other(who), round + 1);
      AnnouncedAreCandidates(next, Other(who), round + 1);
      OnceExtends(outcome, Play(next, Other(who), round + 1), next.pairs);
    }
  }

  /** Every pair announced in a run for bound n lies in the universe 1 <= a <= b < n. */
  lemma AnnouncedWithinBound(n: int)
    ensures forall i | 0 <= i < |Rounds(n)| && Rounds(n)[i].result.Some? ::
              var p := Rounds(n)[i].result.value.numbers; 1 <= p.a <= p.b < n
  {
    AnnouncedAreCandidates(Initial(n), Peter, 1);
  }

  /** For n = 2 the only candidate is (1, 1), filed under product 1. */
  lemma InitialForTwo()
    ensures Initial(2).pairs == {Pair(1, 1)}
    ensures Initial(2).products == map[1 := {Pair(1, 1)}]
    ensures |Initial(2).pairs| == 1
  {
    var one := Pair(1, 1);
    assert AllPairs(2) == {one};
    assert Indexes(map[1 := {one}], {one}, Peter);
    IndexesUnique(map[1 := {one}], {one}, Peter);
  }

  /** Round 1 for n = 2: the product index is {1: {(1, 1)}}, so Peter names (1, 1). */
  lemma FirstOutcomeForTwo()
    ensures FindPossibleSolution(1, Initial(2).products, Peter) == RoundResult(1, Some(Solution(Peter, Pair(1, 1))))
  {
    InitialForTwo();
    assert SoleOccupants(Initial(2).products) == {Pair(1, 1)};
  }

  /** Round 1 for n = 2 eliminates (1, 1), leaving no candidates. */
  lemma FirstTurnForTwo()
    ensures Turn(Initial(2), Peter) == Rebuild({})
  {
    var s := Initial(2);
    InitialForTwo();
    TurnIsRebuild(s, Peter);
    assert Pair(1, 1) in SoleOccupants(s.products) by {
      assert s.products[1] == {Pair(1, 1)};
    }
    assert s.pairs - SoleOccupants(Acting(s, Peter)) == {};
  }

  /** Round 2 for n = 2: with no candidates Sandy's index is empty, so there
      is no result and nothing is eliminated. */
  lemma SecondRoundForTwo()
    ensures FindPossibleSolution(2, Rebuild({}).sums, Sandy) == RoundResult(2, None)
    ensures |Turn(Rebuild({}), Sandy).pairs| == 0
  {
    var e := Rebuild({});
    assert e.sums == map[];
    assert SoleOccupants(e.sums) == {};
  }

  /** With n = 2 the only pair is (1, 1): Peter names it in round 1, the
      candidates run out, and round 2 (Sandy) ends the run with no result. */
  lemma RoundsForTwo()
    ensures Rounds(2) == [RoundResult(1, Some(Solution(Peter, Pair(1, 1)))), RoundResult(2, None)]
  {
    InitialForTwo();
    FirstOutcomeForTwo();
    FirstTurnForTwo();
    SecondRoundForTwo();
    PlayTwoRounds(Initial(2), Peter, 1);
  }

  /** A run that eliminates something in its first round and nothing in its
      second has exactly two outcomes. */
  lemma PlayTwoRounds(s: State, who: Person, round: int)
    requires |Turn(s, who).pairs| != |s.pairs|
    requires |Turn(Turn(s, who), Other(who)).pairs| == |Turn(s, who).pairs|
    ensures Play(s, who, round) ==
              [FindPossibleSolution(round, Acting(s, who), who),
               FindPossibleSolution(round + 1, Acting(Turn(s, who), Other(who)), Other(who))]
  {
    PlayStep(s, who, round);
    PlayStep(Turn(s, who), Other(who), round + 1);
  }

  lemma PeterActsInOddRounds(r: seq<RoundResult>)
    requires forall i | 0 <= i < |r| :: r[i].round == i + 1
    requires Alternates(r, Peter)
    ensures forall i | 0 <= i < |r| && r[i].result.Some? ::
              r[i].result.value.person == if r[i].round % 2 == 1 then Peter else Sandy
  {
  }

  /** Round i + 1 of a run for bound n: in an odd round Peter consults the
      product index, in an even round Sandy consults the sum index, each in
      the state left by the i rounds before it. */
  lemma RoundConsults(n: int, i: nat)
    ensures i < |Rounds(n)| ==>
              var t := After(Initial(n), Peter, i);
              Rounds(n)[i] ==
                if (i + 1) % 2 == 1 then FindPossibleSolution(i + 1, t.products, Peter)
                else FindPossibleSolution(i + 1, t.sums, Sandy)
  {
    if i < |Rounds(n)| {
      var t, w := After(Initial(n), Peter, i), ActingAfter(Peter, i);
      PlayTrace(Initial(n), Peter, 1);
      assert Rounds(n)[i] == FindPossibleSolution(i + 1, Acting(t, w), w);
      PeterActsInOddRound(i);
    }
  }

  /** With Peter first, round i + 1 is Peter's exactly when it is odd. */
  lemma PeterActsInOddRound(i: nat)
    ensures ActingAfter(Peter, i) == if (i + 1) % 2 == 1 then Peter else Sandy
  {
    assert (i + 1) % 2 == 1 <==> i % 2 == 0;
  }

  /** The shape of a run for bound n: rounds are numbered 1, 2, 3, ...; odd
      rounds are Peter's and consult the product index, even rounds are
      Sandy's and consult the sum index; and there are at most n(n-1)/2 + 1
      of them. */
  lemma RoundsShape(n: int)
    ensures 1 <= |Rounds(n)| <= (if n <= 1 then 0 else n * (n - 1) / 2) + 1
    ensures forall i | 0 <= i < |Rounds(n)| :: Rounds(n)[i].round == i + 1
    ensures forall i | 0 <= i < |Rounds(n)| && Rounds(n)[i].result.Some? ::
              Rounds(n)[i].result.value.person == if Rounds(n)[i].round % 2 == 1 then Peter else Sandy
    ensures forall i | 0 <= i < |Rounds(n)| ::
              Rounds(n)[i] ==
                if (i + 1) % 2 == 1 then FindPossibleSolution(i + 1, After(Initial(n), Peter, i).products, Peter)
                else FindPossibleSolution(i + 1, After(Initial(n), Peter, i).sums, Sandy)
  {
    PlayLength(Initial(n), Peter, 1);
    AllPairsSize(n);
    PeterActsInOddRounds(Rounds(n));
    forall i | 0 <= i < |Rounds(n)|
      ensures Rounds(n)[i] ==
                if (i + 1) % 2 == 1 then FindPossibleSolution(i + 1, After(Initial(n), Peter, i).products, Peter)
                else FindPossibleSolution(i + 1, After(Initial(n), Peter, i).sums, Sandy)
    {
      RoundConsults(n, i);
    }
  }
}
