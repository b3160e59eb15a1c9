/** Data model of the "I don't know the numbers" elimination engine.

    Two people are told, respectively, the product (Peter) and the sum (Sandy)
    of a hidden pair (a, b) with 1 <= a <= b < n. The engine keeps the set of
    still-possible pairs plus two indexes that group those pairs by product and
    by sum, and removes pairs round by round.
 */
module Model {

  datatype Option<+T> = None | Some(value: T)

  /** A candidate answer. Each pair is created once and shared by the
      candidate set and both indexes, so identity is equality. */
  datatype Pair = Pair(a: int, b: int)

  /** Peter is told the product of the pair, Sandy the sum. */
  datatype Person = Peter | Sandy

  function Other(who: Person): (r: Person)
    ensures r != who
  {
    match who
    case Peter => Sandy
    case Sandy => Peter
  }

  /** The quantity `who` is told about the hidden pair. */
  function Observe(who: Person, p: Pair): (k: int) {
    match who
    case Peter => p.a * p.b
    case Sandy => p.a + p.b
  }

  /** A non-null round outcome: `person` could name `numbers`. */
  datatype Solution = Solution(person: Person, numbers: Pair)

  /** One round's outcome; `result` is None when nobody could name the pair. */
  datatype RoundResult = RoundResult(round: int, result: Option<Solution>)

  /** Observed key (a product or a sum) to the pairs sharing it: one bucket per key. */
  type PairMap = map<int, set<Pair>>

  /** The engine's whole state: the product index, the sum index and the candidates. */
  datatype State = State(products: PairMap, sums: PairMap, pairs: set<Pair>)

  /** The index belonging to the person whose turn it is. */
  function Acting(s: State, who: Person): (m: PairMap) {
    match who
    case Peter => s.products
    case Sandy => s.sums
  }

  /** `m` groups exactly the pairs of `pairs` by what `who` observes of them,
      and no key maps to an empty bucket. */
  ghost predicate Indexes(m: PairMap, pairs: set<Pair>, who: Person) {
    && (forall k | k in m :: m[k] != {})
    && (forall k, p | k in m && p in m[k] :: p in pairs && Observe(who, p) == k)
    && (forall p | p in pairs :: Observe(who, p) in m && p in m[Observe(who, p)])
  }

  /** Both indexes agree with the candidate set. */
  ghost predicate Consistent(s: State) {
    Indexes(s.products, s.pairs, Peter) && Indexes(s.sums, s.pairs, Sandy)
  }

  /** The index of `pairs` by `who`'s observation, computed from scratch. */
  function Index(pairs: set<Pair>, who: Person): (m: PairMap)
    ensures Indexes(m, pairs, who)
  {
    var keys := set p | p in pairs :: Observe(who, p);
    var m := map k | k in keys :: set p | p in pairs && Observe(who, p) == k;
    assert forall p | p in pairs :: Observe(who, p) in keys && p in m[Observe(who, p)];
    assert forall k | k in m :: m[k] != {} by {
      forall k | k in m
        ensures m[k] != {}
      {
        var p :| p in pairs && Observe(who, p) == k;
        assert p in m[k];
      }
    }
    m
  }

  /** The state in which both indexes are rebuilt from the candidates alone. */
  function Rebuild(pairs: set<Pair>): (s: State)
    ensures Consistent(s)
    ensures s.pairs == pairs
  {
    State(Index(pairs, Peter), Index(pairs, Sandy), pairs)
  }

  /** An index is determined by the pairs it indexes: any map satisfying
      `Indexes` is the one `Index` builds. */
  lemma IndexesUnique(m: PairMap, pairs: set<Pair>, who: Person)
    requires Indexes(m, pairs, who)
    ensures m == Index(pairs, who)
  {
    var r := Index(pairs, who);
    forall k | k in m
      ensures k in r && m[k] == r[k]
    {
      var p :| p in m[k];
      assert p in pairs && Observe(who, p) == k;
      forall q | q in r[k]
        ensures q in m[k]
      {
        assert q in pairs && Observe(who, q) == k;
      }
      forall q | q in m[k]
        ensures q in r[k]
      {
        assert q in pairs && Observe(who, q) == k;
      }
    }
    forall k | k in r
      ensures k in m
    {
      var p :| p in r[k];
      assert p in pairs && Observe(who, p) == k;
    }
    assert m.Keys == r.Keys;
  }

  /** A consistent state is exactly the rebuild of its own candidates. */
  lemma ConsistentIsRebuild(s: State)
    requires Consistent(s)
    ensures s == Rebuild(s.pairs)
  {
    IndexesUnique(s.products, s.pairs, Peter);
    IndexesUnique(s.sums, s.pairs, Sandy);
  }

  lemma SingletonSize<T>(s: set<T>, x: T)
    requires x in s
    ensures |s| == 1 <==> s == {x}
  {
    if |s| == 1 {
      assert |s - {x}| == 0;
      assert s - {x} == {};
    }
  }

  lemma SubsetSize<T>(a: set<T>, b: set<T>)
    requires a <= b
    ensures |a| <= |b|
  {
    assert b == a + (b - a);
  }
}
