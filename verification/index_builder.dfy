/** Building the candidate set and the two indexes from the bound n. */
module IndexBuilder {
  import opened Model

  /** Every pair (a, b) with 1 <= a <= b < n: the puzzle's universe. */
  function AllPairs(n: int): (r: set<Pair>)
    ensures forall p :: p in r <==> 1 <= p.a <= p.b < n
  {
    set a, b | 1 <= a <= b < n :: Pair(a, b)
  }

  /** Files `p` under `key`, creating the bucket when the key is new. */
  function Upsert(m: PairMap, key: int, p: Pair): (r: PairMap)
    ensures r.Keys == m.Keys + {key}
    ensures forall k, q | k in r :: q in r[k] <==> (k in m && q in m[k]) || (k == key && q == p)
  {
    if key in m then m[key := m[key] + {p}] else m[key := {p}]
  }

  /** Filing a new pair under its own observed key extends an index of
      `pairs` to an index of `pairs + {p}`; in particular no bucket is empty. */
  lemma UpsertExtendsIndex(m: PairMap, pairs: set<Pair>, who: Person, p: Pair)
    requires Indexes(m, pairs, who)
    ensures Indexes(Upsert(m, Observe(who, p), p), pairs + {p}, who)
  {
    var r := Upsert(m, Observe(who, p), p);
    forall k | k in r
      ensures r[k] != {}
    {
      if k in m {
        var q :| q in m[k];
        assert q in r[k];
      } else {
        assert p in r[k];
      }
    }
  }

  /** One step of the inner loop: filing a fresh pair under its product and its
      sum keeps both indexes consistent with the grown candidate set. */
  lemma FileStep(products: PairMap, sums: PairMap, pairs: set<Pair>, p: Pair)
    requires Consistent(State(products, sums, pairs))
    ensures Consistent(State(Upsert(products, p.a * p.b, p), Upsert(sums, p.a + p.b, p), pairs + {p}))
  {
    UpsertExtendsIndex(products, pairs, Peter, p);
    UpsertExtendsIndex(sums, pairs, Sandy, p);
  }

  /** The pairs enumerated once rows 1 .. a-1 are complete and row a has
      reached column b. */
  ghost predicate EnumeratedUpTo(pairs: set<Pair>, a: int, b: int, n: int) {
    forall p :: p in pairs <==> (1 <= p.a < a && p.a <= p.b < n) || (p.a == a && a <= p.b < b)
  }

  /** The pairs (a, n) with 1 <= a < k: the first k - 1 pairs of column n. */
  function Column(n: int, k: int): (r: set<Pair>)
    ensures forall p :: p in r <==> p.b == n && 1 <= p.a < k
  {
    set a | 1 <= a < k :: Pair(a, n)
  }

  lemma {:induction false} ColumnSize(n: int, k: int)
    requires k >= 1
    ensures |Column(n, k)| == k - 1
  {
    if k == 1 {
      assert Column(n, k) == {};
    } else {
      ColumnSize(n, k - 1);
      assert Column(n, k) == Column(n, k - 1) + {Pair(k - 1, n)};
    }
  }

  /** The pairs with b < n are the pairs with b < n - 1 plus column n - 1. */
  lemma AllPairsGrow(n: int)
    ensures AllPairs(n) == AllPairs(n - 1) + Column(n - 1, n)
    ensures AllPairs(n - 1) !! Column(n - 1, n)
  {
  }

  /** Twice the number of pairs 1 <= a <= b < n is n(n-1), and there are none when n <= 1. */
  lemma {:induction false} AllPairsDoubleSize(n: int)
    ensures 2 * |AllPairs(n)| == if n <= 1 then 0 else n * (n - 1)
  {
    if n <= 1 {
      assert AllPairs(n) == {};
    } else {
      AllPairsDoubleSize(n - 1);
      ColumnSize(n - 1, n);
      AllPairsGrow(n);
      assert |AllPairs(n)| == |AllPairs(n - 1)| + (n - 1);
      assert (n - 1) * (n - 2) + 2 * (n - 1) == n * (n - 1);
    }
  }

  /** There are n(n-1)/2 pairs 1 <= a <= b < n, and none when n <= 1. */
  lemma AllPairsSize(n: int)
    ensures |AllPairs(n)| == if n <= 1 then 0 else n * (n - 1) / 2
  {
    AllPairsDoubleSize(n);
  }

  /** Filing (a, b) advances the enumeration of row a by one column. */
  lemma NextColumn(pairs: set<Pair>, a: int, b: int, n: int)
    requires 1 <= a <= b < n
    requires EnumeratedUpTo(pairs, a, b, n)
    ensures EnumeratedUpTo(pairs + {Pair(a, b)}, a, b + 1, n)
  {
  }

  /** Row a is complete: the enumeration continues with row a + 1. */
  lemma NextRow(pairs: set<Pair>, a: int, n: int)
    requires 1 <= a < n
    requires EnumeratedUpTo(pairs, a, n, n)
    ensures EnumeratedUpTo(pairs, a + 1, a + 1, n)
  {
  }

  /** Once every row is complete the enumeration is the whole universe. */
  lemma Enumerated(pairs: set<Pair>, a: int, n: int)
    requires 1 <= a && n <= a
    requires EnumeratedUpTo(pairs, a, a, n)
    ensures pairs == AllPairs(n)
  {
  }

  /** The inner loop: files (a, a), (a, a + 1), …, (a, n - 1), completing row a. */
  method FillRow(products: PairMap, sums: PairMap, pairs: set<Pair>, a: int, n: int)
    returns (products': PairMap, sums': PairMap, pairs': set<Pair>)
    requires 1 <= a < n
    requires EnumeratedUpTo(pairs, a, a, n)
    requires Consistent(State(products, sums, pairs))
    ensures EnumeratedUpTo(pairs', a + 1, a + 1, n)
    ensures Consistent(State(products', sums', pairs'))
  {
    products', sums', pairs' := products, sums, pairs;
    var b := a;
    while b < n
      invariant a <= b <= n
      invariant EnumeratedUpTo(pairs', a, b, n)
      invariant Consistent(State(products', sums', pairs'))
    {
      var pair := Pair(a, b);
      FileStep(products', sums', pairs', pair);
      NextColumn(pairs', a, b, n);
      pairs' := pairs' + {pair};
      products' := Upsert(products', pair.a * pair.b, pair);
      sums' := Upsert(sums', pair.a + pair.b, pair);
      b := b + 1;
    }
    NextRow(pairs', a, n);
  }

  /** Enumerates the pairs (a, b), 1 <= a <= b < n, files each under its
      product and its sum, and returns both indexes and the candidate set. */
  method Initialise(n: int) returns (products: PairMap, sums: PairMap, pairs: set<Pair>)
    ensures pairs == AllPairs(n)
    ensures |pairs| == if n <= 1 then 0 else n * (n - 1) / 2
    ensures Indexes(products, pairs, Peter) && Indexes(sums, pairs, Sandy)
  {
    products, sums, pairs := map[], map[], {};
    var a := 1;
    while a < n
      invariant 1 <= a && (a <= n || a == 1)
      invariant EnumeratedUpTo(pairs, a, a, n)
      invariant Consistent(State(products, sums, pairs))
    {
      products, sums, pairs := FillRow(products, sums, pairs, a, n);
      a := a + 1;
    }
    Enumerated(pairs, a, n);
    AllPairsSize(n);
  }
}
