/** An optional value: a Python result that may be missing or may fail. */
module Wrappers {
  datatype Option<T> = None | Some(value: T)
}

/** Small facts about finite sets. */
module Sets {

  /** The element of a one-element set (`next(iter(s))`). */
  function Only<T>(d: set<T>): (v: T)
    requires |d| == 1
    ensures d == {v}
  {
    OnlyExists(d);
    var v :| d == {v};
    v
  }

  lemma OnlyExists<T>(d: set<T>)
    requires |d| == 1
    ensures exists v :: d == {v}
  {
    var v :| v in d;
    assert d == {v} by {
      if exists w :: w in d && w != v {
        var w :| w in d && w != v;
        SubsetCard({v, w}, d);
      }
    }
  }

  /** A member of a non-empty set. */
  lemma Member<T>(s: set<T>) returns (x: T)
    requires s != {}
    ensures x in s
  {
    x :| x in s;
  }

  lemma SubsetCard<T>(a: set<T>, b: set<T>)
    requires a <= b
    ensures |a| <= |b|
  {
    assert b == a + (b - a);
  }

  /** The elements of a sequence with no repeats are as many as its length. */
  lemma {:induction false} DistinctCard<T>(xs: seq<T>)
    requires forall i, j | 0 <= i < j < |xs| :: xs[i] != xs[j]
    ensures |set i | 0 <= i < |xs| :: xs[i]| == |xs|
    decreases |xs|
  {
    if xs != [] {
      var n := |xs| - 1;
      var ys := xs[..n];
      DistinctCard(ys);
      var a := set i | 0 <= i < |ys| :: ys[i];
      assert (set i | 0 <= i < |xs| :: xs[i]) == a + {xs[n]} by {
        forall i | 0 <= i < n ensures xs[i] == ys[i] {}
      }
      assert xs[n] !in a by {
        forall i | 0 <= i < |ys| ensures ys[i] != xs[n] {
          assert ys[i] == xs[i];
        }
      }
    }
  }

  /** A part of a finite set as large as the set is the whole set. */
  lemma FullSubset<T>(a: set<T>, b: set<T>)
    requires a <= b && |a| == |b|
    ensures a == b
  {
    if a != b {
      var x :| x in b && x !in a;
      SubsetCard(a, b - {x});
    }
  }

  /** A non-empty part of a one-element set is the whole set. */
  lemma SingletonSubset<T>(a: set<T>, b: set<T>)
    requires a != {} && a <= b && |b| == 1
    ensures a == b
  {
    var x :| x in a;
    assert b == {Only(b)};
  }
}

/** The parts of Python's itertools that the solver relies on, as functions
    on sequences: `product` (lexicographic, the first factor varying slowest)
    and `combinations` (index-lexicographic k-subsequences). */
module Itertools {

  /** Prefix every tuple of ts with x. */
  function Prefixed<T>(x: T, ts: seq<seq<T>>): (r: seq<seq<T>>)
    ensures |r| == |ts|
    ensures forall i | 0 <= i < |ts| :: r[i] == [x] + ts[i]
  {
    seq(|ts|, i requires 0 <= i < |ts| => [x] + ts[i])
  }

  /** For each x of xs in turn, every tuple of tails prefixed with x. */
  function Cross<T>(xs: seq<T>, tails: seq<seq<T>>): seq<seq<T>>
  {
    if xs == [] then [] else Prefixed(xs[0], tails) + Cross(xs[1..], tails)
  }

  /** itertools.product(*doms). */
  function Product<T>(doms: seq<seq<T>>): seq<seq<T>>
  {
    if doms == [] then [[]] else Cross(doms[0], Product(doms[1..]))
  }

  lemma {:induction false} CrossMember<T>(xs: seq<T>, tails: seq<seq<T>>, t: seq<T>)
    ensures t in Cross(xs, tails) <==> |t| >= 1 && t[0] in xs && t[1..] in tails
  {
    if xs != [] {
      CrossMember(xs[1..], tails, t);
      var p := Prefixed(xs[0], tails);
      assert Cross(xs, tails) == p + Cross(xs[1..], tails);
      if t in p {
        var i :| 0 <= i < |p| && p[i] == t;
        assert t[1..] == tails[i];
      }
      if |t| >= 1 && t[0] == xs[0] && t[1..] in tails {
        var i :| 0 <= i < |tails| && tails[i] == t[1..];
        assert p[i] == [t[0]] + t[1..] == t;
      }
      assert xs == [xs[0]] + xs[1..];
    }
  }

  /** The tuples of the product are exactly those with one entry drawn from
      each factor, in order. */
  lemma {:induction false} ProductMember<T>(doms: seq<seq<T>>, t: seq<T>)
    ensures t in Product(doms) <==>
            |t| == |doms| && forall i | 0 <= i < |t| :: t[i] in doms[i]
  {
    if doms == [] {
      assert Product(doms) == [[]];
    } else {
      CrossMember(doms[0], Product(doms[1..]), t);
      if |t| >= 1 {
        ProductMember(doms[1..], t[1..]);
        if |t| == |doms| && t[0] in doms[0] && t[1..] in Product(doms[1..]) {
          forall i | 0 <= i < |t| ensures t[i] in doms[i] {
            if i > 0 { assert t[i] == t[1..][i - 1]; }
          }
        }
        if |t| == |doms| && forall i | 0 <= i < |t| :: t[i] in doms[i] {
          forall i | 0 <= i < |t| - 1 ensures t[1..][i] in doms[1..][i] {
            assert t[1..][i] == t[i + 1];
          }
        }
      }
    }
  }

  /** itertools.combinations(xs, k): the k-element subsequences of xs in
      index-lexicographic order. */
  function Combinations<T>(xs: seq<T>, k: nat): seq<seq<T>>
  {
    if k == 0 then [[]]
    else if xs == [] then []
    else Prefixed(xs[0], Combinations(xs[1..], k - 1)) + Combinations(xs[1..], k)
  }

  /** Fewer than k elements have no k-element combination. */
  lemma {:induction false} CombinationsShort<T>(xs: seq<T>, k: nat)
    requires |xs| < k
    ensures Combinations(xs, k) == []
  {
    if xs != [] {
      var p := Prefixed(xs[0], Combinations(xs[1..], k - 1));
      assert Combinations(xs, k) == p + Combinations(xs[1..], k);
      CombinationsShort(xs[1..], k - 1);
      CombinationsShort(xs[1..], k);
      assert |p| == 0;
    }
  }

  /** Every combination has k entries, each drawn from xs. */
  lemma CombinationsShape<T>(xs: seq<T>, k: nat, c: seq<T>)
    requires c in Combinations(xs, k)
    ensures |c| == k && forall i | 0 <= i < k :: c[i] in xs
  {
    var n :| 0 <= n < |Combinations(xs, k)| && Combinations(xs, k)[n] == c;
    CombinationAt(xs, k, n);
  }

  /** The n-th combination has k entries, each drawn from xs. */
  lemma {:induction false} CombinationAt<T>(xs: seq<T>, k: nat, n: nat)
    requires n < |Combinations(xs, k)|
    ensures var c := Combinations(xs, k)[n];
      |c| == k && forall i | 0 <= i < k :: c[i] in xs
    decreases |xs|, 1
  {
    if k == 0 {
      assert Combinations(xs, k)[n] == [];
    } else if xs != [] {
      var tails := Combinations(xs[1..], k - 1);
      CombinationsSplit(xs, k);
      if n < |tails| {
        HeadedAt(xs, k, n);
      } else {
        SkippedAt(xs, k, n - |tails|);
      }
    }
  }

  /** A combination of the tail of xs is drawn from xs. */
  lemma {:induction false} SkippedAt<T>(xs: seq<T>, k: nat, m: nat)
    requires xs != [] && m < |Combinations(xs[1..], k)|
    ensures var c := Combinations(xs[1..], k)[m];
      |c| == k && forall i | 0 <= i < k :: c[i] in xs
    decreases |xs|, 0
  {
    CombinationAt(xs[1..], k, m);
    TailIn(xs, Combinations(xs[1..], k)[m]);
  }

  /** The combinations that take the first element, then those that do
      not. */
  lemma CombinationsSplit<T>(xs: seq<T>, k: nat)
    requires xs != [] && k != 0
    ensures var tails, rest := Combinations(xs[1..], k - 1), Combinations(xs[1..], k);
      && |Combinations(xs, k)| == |tails| + |rest|
      && (forall n | 0 <= n < |tails| :: Combinations(xs, k)[n] == [xs[0]] + tails[n])
      && (forall n | |tails| <= n < |Combinations(xs, k)| :: Combinations(xs, k)[n] == rest[n - |tails|])
  {
    var tails := Combinations(xs[1..], k - 1);
    assert Combinations(xs, k) == Prefixed(xs[0], tails) + Combinations(xs[1..], k);
  }

  /** A combination that takes the first element: the rest of it is a
      combination of the tail. */
  lemma {:induction false} HeadedAt<T>(xs: seq<T>, k: nat, n: nat)
    requires xs != [] && k != 0 && n < |Combinations(xs[1..], k - 1)|
    ensures var c := [xs[0]] + Combinations(xs[1..], k - 1)[n];
      |c| == k && forall i | 0 <= i < k :: c[i] in xs
    decreases |xs|, 0
  {
    CombinationAt(xs[1..], k - 1, n);
    ConsIn(xs, Combinations(xs[1..], k - 1)[n]);
  }

  /** Entries drawn from the tail of xs, headed by its first element, are
      all drawn from xs. */
  lemma ConsIn<T>(xs: seq<T>, t: seq<T>)
    requires xs != [] && forall i | 0 <= i < |t| :: t[i] in xs[1..]
    ensures forall i | 0 <= i < |t| + 1 :: ([xs[0]] + t)[i] in xs
  {
    forall i | 0 <= i < |t| + 1 ensures ([xs[0]] + t)[i] in xs {
      if i > 0 {
        TailIn(xs, t);
      }
    }
  }

  /** Entries drawn from the tail of xs are drawn from xs. */
  lemma TailIn<T>(xs: seq<T>, c: seq<T>)
    requires xs != [] && forall i | 0 <= i < |c| :: c[i] in xs[1..]
    ensures forall i | 0 <= i < |c| :: c[i] in xs
  {
    forall i | 0 <= i < |c| ensures c[i] in xs {
      var q :| 0 <= q < |xs[1..]| && xs[1..][q] == c[i];
      assert xs[q + 1] == c[i];
    }
  }

  /** A pair is a combination exactly when it picks two positions in order. */
  lemma PairsComplete<T>(xs: seq<T>, i: nat, j: nat)
    requires i < j < |xs|
    ensures [xs[i], xs[j]] in Combinations(xs, 2)
  {
    var n := PairIndex(xs, 2, i, j);
  }

  /** Where the pair of positions i and j sits among the pairs (k is 2). */
  lemma {:induction false} PairIndex<T>(xs: seq<T>, k: nat, i: nat, j: nat) returns (n: nat)
    requires k == 2 && i < j < |xs|
    ensures n < |Combinations(xs, k)| && Combinations(xs, k)[n] == [xs[i], xs[j]]
  {
    if i == 0 {
      n := PairWithHead(xs, k, j);
    } else {
      var q := PairIndex(xs[1..], k, i - 1, j - 1);
      n := PairInTail(xs, k, i, j, q);
    }
  }

  /** The pair of the first element and the one at j. */
  lemma PairWithHead<T>(xs: seq<T>, k: nat, j: nat) returns (n: nat)
    requires k == 2 && 0 < j < |xs|
    ensures n < |Combinations(xs, k)| && Combinations(xs, k)[n] == [xs[0], xs[j]]
  {
    SinglesAt(xs[1..], k - 1, j - 1);
    assert xs[1..][j - 1] == xs[j];
    n := j - 1;
    CombinationsSplit(xs, k);
    assert [xs[0]] + [xs[j]] == [xs[0], xs[j]];
  }

  /** A pair of the tail, found at q among the tail's pairs. */
  lemma PairInTail<T>(xs: seq<T>, k: nat, i: nat, j: nat, q: nat) returns (n: nat)
    requires k == 2 && 0 < i < j < |xs|
    requires q < |Combinations(xs[1..], k)| && Combinations(xs[1..], k)[q] == [xs[1..][i - 1], xs[1..][j - 1]]
    ensures n < |Combinations(xs, k)| && Combinations(xs, k)[n] == [xs[i], xs[j]]
  {
    assert xs[1..][i - 1] == xs[i] && xs[1..][j - 1] == xs[j];
    CombinationsSplit(xs, k);
    n := |Combinations(xs[1..], k - 1)| + q;
  }

  /** The one-element combinations (k is 1) are the elements, in order. */
  lemma {:induction false} SinglesAt<T>(xs: seq<T>, k: nat, j: nat)
    requires k == 1 && j < |xs|
    ensures |Combinations(xs, k)| == |xs| && Combinations(xs, k)[j] == [xs[j]]
    decreases |xs|
  {
    var p := Prefixed(xs[0], Combinations(xs[1..], k - 1));
    var rest := Combinations(xs[1..], k);
    assert Combinations(xs, k) == p + rest;
    assert Combinations(xs[1..], k - 1) == [[]];
    assert |p| == 1 && p[0] == [xs[0]] + [];
    assert [xs[0]] + [] == [xs[0]];
    if |xs| == 1 {
      assert rest == [];
    } else if j == 0 {
      SinglesAt(xs[1..], k, 0);
    } else {
      SinglesAt(xs[1..], k, j - 1);
    }
  }

  /** `itertools.chain(*ls)`: the lists one after another. */
  function Flatten<T>(ls: seq<seq<T>>): (r: seq<T>)
  {
    if ls == [] then [] else Flatten(ls[..|ls| - 1]) + ls[|ls| - 1]
  }

  /** `reversed(xs)`. */
  function Reversed<T>(xs: seq<T>): (r: seq<T>)
    ensures |r| == |xs|
    ensures forall k | 0 <= k < |xs| :: r[k] == xs[|xs| - 1 - k]
  {
    if xs == [] then [] else [xs[|xs| - 1]] + Reversed(xs[..|xs| - 1])
  }

  /** `filter(f, xs)`: the elements f accepts, in order. */
  function Filter<T>(xs: seq<T>, f: T -> bool): (r: seq<T>)
    ensures |r| <= |xs|
    ensures forall x | x in r :: x in xs && f(x)
    ensures forall x | x in xs && f(x) :: x in r
  {
    if xs == [] then []
    else
      var r := Filter(xs[..|xs| - 1], f);
      assert xs == xs[..|xs| - 1] + [xs[|xs| - 1]];
      if f(xs[|xs| - 1]) then r + [xs[|xs| - 1]] else r
  }
}

/** Python's `sorted(xs, key=len)`: a stable sort by length. */
module Sorting {

  predicate SortedByLength<T>(xs: seq<seq<T>>)
  {
    forall i, j | 0 <= i < j < |xs| :: |xs[i]| <= |xs[j]|
  }

  /** The elements of xs of length n, in their order in xs. */
  function OfLength<T>(xs: seq<seq<T>>, n: nat): seq<seq<T>>
  {
    if xs == [] then []
    else (if |xs[0]| == n then [xs[0]] else []) + OfLength(xs[1..], n)
  }

  /** Insert x before the first element that is at least as long. */
  function Insert<T>(x: seq<T>, ys: seq<seq<T>>): seq<seq<T>>
  {
    if ys == [] then [x]
    else if |x| <= |ys[0]| then [x] + ys
    else [ys[0]] + Insert(x, ys[1..])
  }

  function SortByLength<T>(xs: seq<seq<T>>): seq<seq<T>>
  {
    if xs == [] then [] else Insert(xs[0], SortByLength(xs[1..]))
  }

  lemma {:induction false} InsertMultiset<T>(x: seq<T>, ys: seq<seq<T>>)
    ensures multiset(Insert(x, ys)) == multiset([x] + ys)
  {
    if ys != [] && |x| > |ys[0]| {
      InsertMultiset(x, ys[1..]);
      assert ys == [ys[0]] + ys[1..];
    }
  }

  lemma {:induction false} InsertSorted<T>(x: seq<T>, ys: seq<seq<T>>)
    requires SortedByLength(ys)
    ensures SortedByLength(Insert(x, ys))
  {
    if ys != [] && |x| > |ys[0]| {
      InsertSorted(x, ys[1..]);
      InsertLower(x, ys[1..], |ys[0]|);
      assert Insert(x, ys) == [ys[0]] + Insert(x, ys[1..]);
    }
  }

  /** Inserting keeps a lower bound on the lengths that x and ys both meet. */
  lemma {:induction false} InsertLower<T>(x: seq<T>, ys: seq<seq<T>>, m: nat)
    requires m <= |x| && forall i | 0 <= i < |ys| :: m <= |ys[i]|
    ensures forall i | 0 <= i < |Insert(x, ys)| :: m <= |Insert(x, ys)[i]|
  {
    if ys != [] && |x| > |ys[0]| {
      InsertLower(x, ys[1..], m);
      assert Insert(x, ys) == [ys[0]] + Insert(x, ys[1..]);
    }
  }

  function Pick<T>(x: seq<T>, n: nat): seq<seq<T>> { if |x| == n then [x] else [] }

  lemma OfLengthCons<T>(x: seq<T>, ys: seq<seq<T>>, n: nat)
    ensures OfLength([x] + ys, n) == Pick(x, n) + OfLength(ys, n)
  {
    assert ([x] + ys)[1..] == ys;
  }

  lemma {:induction false} InsertOfLength<T>(x: seq<T>, ys: seq<seq<T>>, n: nat)
    ensures OfLength(Insert(x, ys), n) == OfLength([x] + ys, n)
  {
    if ys != [] && |x| > |ys[0]| {
      InsertOfLength(x, ys[1..], n);
      var r := Insert(x, ys[1..]);
      calc {
        OfLength(Insert(x, ys), n);
        { OfLengthCons(ys[0], r, n); }
        Pick(ys[0], n) + OfLength(r, n);
        { OfLengthCons(x, ys[1..], n); }
        Pick(ys[0], n) + (Pick(x, n) + OfLength(ys[1..], n));
        { assert Pick(ys[0], n) == [] || Pick(x, n) == []; }
        Pick(x, n) + (Pick(ys[0], n) + OfLength(ys[1..], n));
        { OfLengthCons(ys[0], ys[1..], n); assert [ys[0]] + ys[1..] == ys; }
        Pick(x, n) + OfLength(ys, n);
        { OfLengthCons(x, ys, n); }
        OfLength([x] + ys, n);
      }
    }
  }

  lemma InsertHead<T>(x: seq<T>, ys: seq<seq<T>>)
    ensures Insert(x, ys)[0] == if ys != [] && |ys[0]| < |x| then ys[0] else x
  {
  }

  /** The sort yields a permutation, ordered by length, which keeps equal-length
      elements in their original order (stability). */
  lemma {:induction false} SortFacts<T>(xs: seq<seq<T>>)
    ensures SortedByLength(SortByLength(xs))
    ensures multiset(SortByLength(xs)) == multiset(xs)
    ensures forall n: nat :: OfLength(SortByLength(xs), n) == OfLength(xs, n)
  {
    if xs != [] {
      SortFacts(xs[1..]);
      var s := SortByLength(xs[1..]);
      InsertSorted(xs[0], s);
      InsertMultiset(xs[0], s);
      assert xs == [xs[0]] + xs[1..];
      forall n: nat ensures OfLength(SortByLength(xs), n) == OfLength(xs, n) {
        InsertOfLength(xs[0], s, n);
        assert ([xs[0]] + s)[1..] == s;
        assert ([xs[0]] + xs[1..])[1..] == xs[1..];
      }
    }
  }

  /** The position of the first element of least length. */
  function FirstShortest<T>(xs: seq<seq<T>>): (i: nat)
    requires xs != []
    ensures i < |xs|
    ensures forall j | 0 <= j < |xs| :: |xs[i]| <= |xs[j]|
    ensures forall j | 0 <= j < i :: |xs[j]| > |xs[i]|
  {
    if |xs| == 1 then 0
    else
      var t := FirstShortest(xs[1..]);
      assert forall j | 1 <= j < |xs| :: xs[j] == xs[1..][j - 1];
      if |xs[0]| <= |xs[t + 1]| then 0 else t + 1
  }

  /** The head of the sorted list is the first shortest element. */
  lemma {:induction false} SortHead<T>(xs: seq<seq<T>>)
    requires xs != []
    ensures SortByLength(xs) != [] && SortByLength(xs)[0] == xs[FirstShortest(xs)]
  {
    if |xs| == 1 {
    } else {
      SortHead(xs[1..]);
      InsertHead(xs[0], SortByLength(xs[1..]));
      var t := FirstShortest(xs[1..]);
      assert xs[1..][t] == xs[t + 1];
    }
  }
}
