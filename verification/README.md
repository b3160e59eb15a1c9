# "I don't know the numbers": the elimination engine, in Dafny

This project models the engine of `numbers.ts`, which simulates the two-person
puzzle about a hidden pair (a, b) with 1 <= a <= b < n. Peter is told the
product a·b and Sandy the sum a+b. They take turns saying whether they could
name the pair. Peter goes first.

The engine keeps three structures:

- the set of candidate pairs;
- a map from each product to the set of candidates with that product (Peter's index);
- a map from each sum to the set of candidates with that sum (Sandy's index).

Each round has two steps:

1. The deduction check asks whether exactly one distinct pair is the sole
   occupant of a bucket in the acting person's index.
2. The elimination step removes every such sole occupant from the candidates
   and from both indexes, and deletes emptied keys.

The run stops at the first round that removes nothing.

Modules, one per part of the engine:

- `Model` (model.dfy): the value types `Pair`, `Person`, `Solution`,
  `RoundResult`, `PairMap` and `State`. It also holds the index invariant
  `Indexes`/`Consistent` and a from-scratch reference index, `Index`/`Rebuild`.
- `IndexBuilder` (index_builder.dfy): `initialise` and `upsert`. The nested
  enumeration loop is kept as a pair of methods, the inner loop being `FillRow`.
- `Deduction` (deduction.dfy): `findPossibleSolution` and `first`.
- `Elimination` (elimination.dfy): `removeCandidates`, and `Turn`, which
  models its two call sites in the driver.
- `Rounds` (rounds.dfy): `generateSolutions`. `Play` is a recursive function
  giving the whole finite sequence of outcomes, measured by the candidate
  count. `PlayRounds` is the source's `while (true)` loop, proved equal to `Play`.

Pairs are values. The source creates each pair object exactly once and shares
it between the candidate set and both maps, so comparing by reference is the
same as comparing by value. Map and set iteration order does not affect any
result, because `first` is only ever applied to one-element sets. So each pass
over a map is modelled as a comprehension over the map as it was when the pass
began. Deleting keys during `for…of` matches this: the first pass over the
acting map only deletes the key it is visiting.

## Model

| member | source | states |
|---|---|---|
| IndexBuilder.Initialise | numbers.ts:181-192 | Returns exactly the pairs (a, b) with 1 <= a <= b < n. There are n(n-1)/2 of them, and none when n <= 1. Both returned maps index exactly those pairs, by product and by sum: each pair is in the bucket of its own key, every bucket holds only pairs with that key, and no bucket is empty. |
| IndexBuilder.Upsert | numbers.ts:194-201 | After filing p under key, the key is present, and a pair is in a bucket iff it was there before or it is p in bucket key. No other key appears. |
| IndexBuilder.UpsertExtendsIndex | numbers.ts:187-188 | Filing a new pair under its own product (or sum) turns an index of `pairs` into an index of `pairs + {p}`. In particular, no bucket is ever created empty. |
| IndexBuilder.FillRow | numbers.ts:184-189 | The inner loop completes row a: afterwards the candidates are exactly the pairs of rows 1..a, and both maps still index them. |
| IndexBuilder.FileStep | numbers.ts:185-188 | One step of the enumeration keeps both maps consistent with the grown candidate set. |
| IndexBuilder.AllPairsSize | numbers.ts:183-186 | The loops enumerate n(n-1)/2 distinct pairs for n >= 2, and none for n <= 1. |
| Model.IndexesUnique | numbers.ts:181-201 | Any map satisfying the index invariant for a candidate set is equal to the index built from scratch for that set. |
| Deduction.SoleOccupants | numbers.ts:125-130 | A pair is collected iff it is the sole member of some bucket of the map. |
| Deduction.First | numbers.ts:115-117 | On a one-element set, returns that element. |
| Deduction.FindPossibleSolution | numbers.ts:119-139 | Echoes the round. The result is non-null iff exactly one distinct pair is the sole occupant of some bucket, and then it names that pair and the given person. The map is a value, so it cannot change. |
| Deduction.DeducibleIffObservationUnique | numbers.ts:126-129 | For a consistent index, a pair is a sole occupant iff it is a candidate and no other candidate shows the acting person the same product (or sum). |
| Deduction.SolvedIffOneRecognisable | numbers.ts:132-138 | For a consistent index, a round is solved iff exactly one candidate can be recognised from its product (or sum) alone, and the announced pair is such a candidate. |
| Elimination.DropSingletons | numbers.ts:152-159 | The first pass deletes only singleton keys, and keeps every other bucket unchanged. The occupants of the deleted buckets are exactly the pairs someone holding the map could name, which are the pairs collected into `removed`. |
| Elimination.Sweep | numbers.ts:162-178 | After a sweep, no bucket is empty or holds a pair of `removed`. Every other pair stays in its original bucket. No pair or key is added. |
| Elimination.RemoveCandidates | numbers.ts:141-179 | Let `removed` be the sole occupants of the acting map. The new candidates are the old ones minus `removed`. Every singleton key of the acting map is gone. No bucket of either map is empty or holds a pair of `removed`. Every other pair stays in its original buckets of both maps. Nothing is added. |
| Elimination.Turn | numbers.ts:92-104 | With either person acting, the candidates after the turn are those not recognisable from the acting index. |
| Elimination.RemoveCandidatesPreservesIndexes | numbers.ts:151-178 | If both maps index the candidates before elimination, they index the surviving candidates afterwards. |
| Elimination.SurvivorsIndexed | numbers.ts:162-178 | Narrowing an index to the surviving pairs indexes the survivors. Each survivor must stay in its original bucket, nothing may be added, and no bucket may be left empty. |
| Elimination.TurnPreservesConsistency | numbers.ts:97-103 | Index consistency of the whole state is preserved by a turn of either person. |
| Elimination.TurnIsRebuild | numbers.ts:151-178 | From a consistent state, the maps maintained in place equal the indexes rebuilt from scratch over the old candidates minus the eliminated pairs. |
| Elimination.DeducibleAreCandidates | numbers.ts:153-157 | From a consistent state, every eliminated pair is a candidate, so the candidate count drops by exactly the number of eliminated pairs. |
| Elimination.TurnShrinksIff | numbers.ts:106-108 | From a consistent state, a turn shrinks the candidate set iff the acting index has a bucket of size one. |
| Elimination.SolvedPairEliminated | numbers.ts:94-97 | A pair announced in a round was a candidate, and it is no longer a candidate after that round's elimination. |
| Rounds.Play | numbers.ts:85-112 | Rounds are numbered consecutively from the first round. Every non-null result is announced by the person whose turn it is, and turns alternate. |
| Rounds.PlayLength | numbers.ts:88-111 | A run has at least one round, and at most one more round than there are candidates, because every round but the last removes a pair. |
| Rounds.PlayTrace | numbers.ts:89-111 | In a run from any state, the outcome of round `round + i` is exactly what the person acting then can deduce from their own index. It is read in the state left by the i turns before it. |
| Rounds.RoundConsults | numbers.ts:92-104 | For bound n, round i + 1 is Peter's check of the product index when odd and Sandy's check of the sum index when even, in the state after i turns. |
| Rounds.PlayRounds | numbers.ts:85-112 | The source's loop (turn flag, round counter, previous candidate count as the stop test) yields exactly the outcomes of `Play` from the start state with Peter acting first. |
| Rounds.GenerateSolutions | numbers.ts:78-113 | Building the indexes and then running the loop yields exactly `Rounds(n)`. |
| Rounds.PlayStopsIff | numbers.ts:105-108 | From a consistent state, the run ends after its first round iff the acting index has no bucket of size one, that is, iff the round eliminates nothing. |
| Rounds.AnnouncedAreCandidates | numbers.ts:94-103 | Every pair announced in a run from a consistent state was a candidate of that state. |
| Rounds.NoPairAnnouncedTwice | numbers.ts:94-103 | No pair is announced in two different rounds, because an announced pair is eliminated in the round it is announced. |
| Rounds.AnnouncedWithinBound | numbers.ts:181-191 | Every pair announced for bound n satisfies 1 <= a <= b < n. |
| Rounds.RoundsShape | numbers.ts:85-111 | For bound n, rounds are numbered 1, 2, 3, …. Round i + 1 is exactly the deduction check of the state left by the i rounds before it. Odd rounds are Peter's and consult the product index; even rounds are Sandy's and consult the sum index. This holds whether or not the round has a result. There are at most n(n-1)/2 + 1 rounds. |
| Rounds.RoundsForTwo | numbers.ts:78-113 | For n = 2 the outcomes are exactly: round 1, Peter names (1, 1); then round 2 with no result. |

## Left out

- `main` and `usage` (numbers.ts:3-65): flag parsing, console output and process exit codes. These are I/O around the engine. The "target round" mode is a consumer reading a prefix of `Rounds(n)`.
- Generator laziness: `Play` returns the whole finite sequence of outcomes. A consumer that stops early sees a prefix of it.
- `Number.isSafeInteger` and floating-point number limits: all integers are unbounded `int`. The source's checks only reject inputs before the engine runs.
- Iteration order of `Map`/`Set`, and deleting during iteration: no result depends on them, so each pass is a comprehension over the map as it was when the pass began.
- JavaScript reference identity of pair arrays: pairs are compared by value (see above).
- The classic n = 100 case (first non-null result in round 3, Sandy) is not proved. Evaluating about 4,950 pairs through several rounds is beyond what the verifier can unfold.
- Deduction.First: requires a one-element set. The source returns the first element, in iteration order, of any set. It is only ever called on one-element sets, so the model states that case alone.
- Rounds.PlayLength: the bound is the candidate count plus one, not the candidate count. The loop's last round always removes nothing, so a run can have one more round than there are candidates. For n = 2 there is one candidate and two rounds.
