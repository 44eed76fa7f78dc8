/** The two pandas aggregations the dashboard uses: `value_counts()` and
    `nlargest(n)` on its result. */
module Tally {
  import opened Sequences

  /** The distinct values of `s`, in order of first occurrence. */
  function Distinct<T(==)>(s: seq<T>): (r: seq<T>)
    ensures forall i :: 0 <= i < |r| ==> r[i] in s
    ensures forall i :: 0 <= i < |s| ==> s[i] in r
    ensures NoDuplicates(r)
  {
    if s == [] then []
    else
      var d := Distinct(s[..|s| - 1]);
      if s[|s| - 1] in d then d else d + [s[|s| - 1]]
  }

  /** The value column of a table of (key, count) pairs. */
  function Keys<K, V>(es: seq<(K, V)>): (ks: seq<K>)
    ensures |ks| == |es|
    ensures forall i :: 0 <= i < |es| ==> ks[i] == es[i].0
  {
    seq(|es|, i requires 0 <= i < |es| => es[i].0)
  }

  function Tabulate<T(==)>(ds: seq<T>, s: seq<T>): (r: seq<(T, nat)>)
    ensures |r| == |ds|
    ensures forall i :: 0 <= i < |ds| ==> r[i] == (ds[i], Count(s, ds[i]))
  {
    if ds == [] then [] else [(ds[0], Count(s, ds[0]))] + Tabulate(ds[1..], s)
  }

  /** pandas `value_counts()`: one (value, occurrences) pair for every value
      that occurs, and for no other. */
  function ValueCounts<T(==)>(s: seq<T>): (r: seq<(T, nat)>)
    ensures forall i :: 0 <= i < |r| ==> r[i].0 in s && r[i].1 == Count(s, r[i].0) && r[i].1 > 0
    ensures forall i :: 0 <= i < |s| ==> s[i] in Keys(r)
    ensures NoDuplicates(Keys(r))
  {
    var ds := Distinct(s);
    var r := Tabulate(ds, s);
    assert Keys(r) == ds;
    assert forall i :: 0 <= i < |r| ==> r[i].1 > 0 by {
      forall i | 0 <= i < |r| ensures r[i].1 > 0 {
        CountPositive(s, ds[i]);
      }
    }
    r
  }

  /** A single row gives a single pair with count one. */
  lemma ValueCountsSingle<T>(x: T)
    ensures ValueCounts([x]) == [(x, 1)]
  {
    assert [x][..0] == [];
    assert Distinct([x]) == [x];
    assert Count([x], x) == 1 by {
      assert [x][1..] == [];
    }
    assert Tabulate([x], [x]) == [(x, 1)];
  }

  function SumCounts<K>(es: seq<(K, nat)>): nat {
    if es == [] then 0 else es[0].1 + SumCounts(es[1..])
  }

  lemma {:induction false} TabulateCons<T>(ds: seq<T>, x: T, t: seq<T>)
    ensures SumCounts(Tabulate(ds, [x] + t)) == Count(ds, x) + SumCounts(Tabulate(ds, t))
  {
    if ds != [] {
      assert ([x] + t)[1..] == t;
      assert Tabulate(ds, [x] + t)[1..] == Tabulate(ds[1..], [x] + t);
      assert Tabulate(ds, t)[1..] == Tabulate(ds[1..], t);
      TabulateCons(ds[1..], x, t);
    }
  }

  lemma {:induction false} TabulateSum<T>(ds: seq<T>, s: seq<T>)
    requires NoDuplicates(ds)
    requires forall i :: 0 <= i < |s| ==> s[i] in ds
    ensures SumCounts(Tabulate(ds, s)) == |s|
  {
    if s == [] {
      assert Tabulate(ds, s) == Tabulate(ds, []);
      assert forall es: seq<(T, nat)> :: (forall i :: 0 <= i < |es| ==> es[i].1 == 0) ==> SumCounts(es) == 0 by {
        forall es: seq<(T, nat)> | forall i :: 0 <= i < |es| ==> es[i].1 == 0 ensures SumCounts(es) == 0 {
          ZeroCountsSum(es);
        }
      }
      forall i | 0 <= i < |ds| ensures Tabulate(ds, s)[i].1 == 0 { }
    } else {
      assert s == [s[0]] + s[1..];
      TabulateCons(ds, s[0], s[1..]);
      CountOfDistinct(ds, s[0]);
      TabulateSum(ds, s[1..]);
    }
  }

  lemma {:induction false} ZeroCountsSum<K>(es: seq<(K, nat)>)
    requires forall i :: 0 <= i < |es| ==> es[i].1 == 0
    ensures SumCounts(es) == 0
  {
    if es != [] {
      ZeroCountsSum(es[1..]);
    }
  }

  /** The counts of `value_counts()` add up to the number of rows counted. */
  lemma ValueCountsSum<T>(s: seq<T>)
    ensures SumCounts(ValueCounts(s)) == |s|
  {
    TabulateSum(Distinct(s), s);
  }


  /** The first position holding a largest count. */
  function ArgMax<K>(es: seq<(K, nat)>): (i: nat)
    requires es != []
    ensures i < |es|
  {
    if |es| == 1 then 0
    else
      var j := ArgMax(es[1..]);
      if es[0].1 >= es[j + 1].1 then 0 else j + 1
  }

  /** `ArgMax` finds a largest count, and no earlier position holds one. */
  lemma {:induction false} ArgMaxSpec<K>(es: seq<(K, nat)>)
    requires es != []
    ensures forall k :: 0 <= k < |es| ==> es[k].1 <= es[ArgMax(es)].1
    ensures forall k :: 0 <= k < ArgMax(es) ==> es[k].1 < es[ArgMax(es)].1
  {
    if |es| > 1 {
      ArgMaxSpec(es[1..]);
      assert forall k :: 1 <= k < |es| ==> es[k] == es[1..][k - 1];
    }
  }

  function RemoveAt<T>(s: seq<T>, i: nat): (r: seq<T>)
    requires i < |s|
    ensures |r| == |s| - 1
  {
    s[..i] + s[i + 1..]
  }

  /** pandas `nlargest(n)`: repeatedly takes the first entry with the
      largest count. */
  function Largest<K>(es: seq<(K, nat)>, n: nat): (r: seq<(K, nat)>)
    ensures |r| == Min(n, |es|)
    decreases n
  {
    if n == 0 || es == [] then []
    else
      var i := ArgMax(es);
      [es[i]] + Largest(RemoveAt(es, i), n - 1)
  }

  /** One step of `Largest`: the first pick, then the rest of the ranking. */
  lemma LargestStep<K>(es: seq<(K, nat)>, n: nat)
    requires n > 0 && es != []
    ensures Largest(es, n) == [es[ArgMax(es)]] + Largest(RemoveAt(es, ArgMax(es)), n - 1)
  {
  }

  lemma RemoveAtMultiset<T>(s: seq<T>, i: nat)
    requires i < |s|
    ensures multiset(s) == multiset(RemoveAt(s, i)) + multiset{s[i]}
  {
    assert s == s[..i] + [s[i]] + s[i + 1..];
  }

  lemma LargestSubset<K>(es: seq<(K, nat)>, n: nat)
    ensures DrawnFrom(Largest(es, n), es)
    decreases n
  {
    if n != 0 && es != [] {
      var i := ArgMax(es);
      LargestStep(es, n);
      RemoveAtMultiset(es, i);
      LargestSubset(RemoveAt(es, i), n - 1);
    }
  }

  /** Every entry of the table is bounded by the one `ArgMax` picks. */
  lemma BelowMax<K>(es: seq<(K, nat)>, e: (K, nat))
    requires e in multiset(es)
    ensures es != [] && e.1 <= es[ArgMax(es)].1
  {
    assert e in es;
    var q :| 0 <= q < |es| && es[q] == e;
    ArgMaxSpec(es);
  }

  /** Putting the first pick in front of a ranking drawn from the rest of the
      table keeps counts non-increasing. */
  lemma NonIncreasingCons<K>(es: seq<(K, nat)>, r': seq<(K, nat)>, r: seq<(K, nat)>)
    requires es != []
    requires DrawnFrom(r', RemoveAt(es, ArgMax(es)))
    requires NonIncreasing(r')
    requires r == [es[ArgMax(es)]] + r'
    ensures NonIncreasing(r)
  {
    RemoveAtMultiset(es, ArgMax(es));
    forall a, b | 0 <= a < b < |r| ensures r[b].1 <= r[a].1 {
      assert r[b] == r'[b - 1];
      if a == 0 {
        assert r'[b - 1] in multiset(r');
        BelowMax(es, r'[b - 1]);
      } else {
        assert r[a] == r'[a - 1];
      }
    }
  }

  lemma LargestNonIncreasing<K>(es: seq<(K, nat)>, n: nat)
    ensures NonIncreasing(Largest(es, n))
    decreases n
  {
    if n != 0 && es != [] {
      LargestNonIncreasing(RemoveAt(es, ArgMax(es)), n - 1);
      LargestNonIncreasingStep(es, n);
    }
  }

  lemma LargestNonIncreasingStep<K>(es: seq<(K, nat)>, n: nat)
    requires n != 0 && es != []
    requires NonIncreasing(Largest(RemoveAt(es, ArgMax(es)), n - 1))
    ensures NonIncreasing(Largest(es, n))
  {
    var rest := RemoveAt(es, ArgMax(es));
    assert DrawnFrom(Largest(rest, n - 1), rest) by {
      LargestSubset(rest, n - 1);
    }
    assert Largest(es, n) == [es[ArgMax(es)]] + Largest(rest, n - 1) by {
      LargestStep(es, n);
    }
    NonIncreasingCons(es, Largest(rest, n - 1), Largest(es, n));
  }

  /** No entry of `es` left out of `r` has a count above any count in `r`. */
  ghost predicate LeftOutBounded<K>(es: seq<(K, nat)>, r: seq<(K, nat)>) {
    forall e :: e in multiset(es) - multiset(r) ==> forall k :: 0 <= k < |r| ==> e.1 <= r[k].1
  }

  /** Putting the first pick in front of a ranking of the rest of the table
      keeps every left-out entry at or below every ranked one. */
  lemma LeftOutCons<K>(es: seq<(K, nat)>, r': seq<(K, nat)>, r: seq<(K, nat)>)
    requires es != []
    requires LeftOutBounded(RemoveAt(es, ArgMax(es)), r')
    requires r == [es[ArgMax(es)]] + r'
    ensures LeftOutBounded(es, r)
  {
    forall e | e in multiset(es) - multiset(r) ensures forall k :: 0 <= k < |r| ==> e.1 <= r[k].1 {
      LeftOutConsEntry(es, r', r, e);
    }
  }

  lemma LeftOutConsEntry<K>(es: seq<(K, nat)>, r': seq<(K, nat)>, r: seq<(K, nat)>, e: (K, nat))
    requires es != []
    requires LeftOutBounded(RemoveAt(es, ArgMax(es)), r')
    requires r == [es[ArgMax(es)]] + r'
    requires e in multiset(es) - multiset(r)
    ensures forall k :: 0 <= k < |r| ==> e.1 <= r[k].1
  {
    var rest := RemoveAt(es, ArgMax(es));
    var x := es[ArgMax(es)];
    assert e in multiset(rest) - multiset(r') by {
      RemoveAtMultiset(es, ArgMax(es));
      assert multiset(r) == multiset(r') + multiset{x};
      assert multiset(es)[e] == multiset(rest)[e] + multiset{x}[e];
      assert multiset(r)[e] == multiset(r')[e] + multiset{x}[e];
    }
    assert e.1 <= x.1 by {
      BelowMax(es, e);
    }
    forall k | 0 <= k < |r| ensures e.1 <= r[k].1 {
      if k > 0 {
        assert r[k] == r'[k - 1];
      }
    }
  }

  lemma LargestLeftOut<K>(es: seq<(K, nat)>, n: nat)
    ensures LeftOutBounded(es, Largest(es, n))
    decreases n
  {
    if n != 0 && es != [] {
      LargestStep(es, n);
      LargestLeftOut(RemoveAt(es, ArgMax(es)), n - 1);
      LeftOutCons(es, Largest(RemoveAt(es, ArgMax(es)), n - 1), Largest(es, n));
    }
  }

  /** In a table with distinct keys every entry occurs once. */
  lemma EntryOnce<K>(es: seq<(K, nat)>, p: nat)
    requires p < |es| && NoDuplicates(Keys(es))
    ensures multiset(es)[es[p]] == 1
  {
    var x := es[p];
    assert es == es[..p] + [x] + es[p + 1..];
    assert x !in es[..p] by {
      forall q | 0 <= q < p ensures es[..p][q] != x {
        assert Keys(es)[q] != Keys(es)[p];
      }
    }
    assert x !in es[p + 1..] by {
      forall q | p < q < |es| ensures es[q] != x {
        assert Keys(es)[p] != Keys(es)[q];
      }
    }
  }

  /** An entry at two positions occurs at least twice. */
  lemma EntryTwice<T>(r: seq<T>, a: nat, b: nat)
    requires a < b < |r| && r[a] == r[b]
    ensures multiset(r)[r[a]] >= 2
  {
    assert r == r[..b] + r[b..];
    assert r[a] == r[..b][a];
    assert r[b] == r[b..][0];
  }

  /** Entries drawn from a table with distinct keys have distinct keys. */
  lemma SubTableDistinctKeys<K>(es: seq<(K, nat)>, r: seq<(K, nat)>)
    requires NoDuplicates(Keys(es)) && DrawnFrom(r, es)
    ensures NoDuplicates(Keys(r))
  {
    forall a, b | 0 <= a < b < |r| ensures Keys(r)[a] != Keys(r)[b] {
      if r[a].0 == r[b].0 {
        assert r[a] in multiset(r) && r[b] in multiset(r);
        var p :| 0 <= p < |es| && es[p] == r[a];
        var q :| 0 <= q < |es| && es[q] == r[b];
        assert Keys(es)[p] == Keys(es)[q];
        EntryTwice(r, a, b);
        EntryOnce(es, p);
        assert false;
      }
    }
  }

  lemma LargestDistinctKeys<K>(es: seq<(K, nat)>, n: nat)
    requires NoDuplicates(Keys(es))
    ensures NoDuplicates(Keys(Largest(es, n)))
  {
    LargestSubset(es, n);
    SubTableDistinctKeys(es, Largest(es, n));
  }

  /** `nlargest(n)` returns entries of the table, with non-increasing counts,
      and none of the entries it leaves out has a larger count than one it
      returns; when the table's keys are distinct, so are those returned. */
  lemma LargestSpec<K>(es: seq<(K, nat)>, n: nat)
    ensures multiset(Largest(es, n)) <= multiset(es)
    ensures NonIncreasing(Largest(es, n))
    ensures forall e :: e in multiset(es) - multiset(Largest(es, n))
                        ==> forall k :: 0 <= k < |Largest(es, n)| ==> e.1 <= Largest(es, n)[k].1
    ensures NoDuplicates(Keys(es)) ==> NoDuplicates(Keys(Largest(es, n)))
  {
    LargestSubset(es, n);
    LargestNonIncreasing(es, n);
    LargestLeftOut(es, n);
    if NoDuplicates(Keys(es)) {
      LargestDistinctKeys(es, n);
    }
  }

  /** A key whose count is strictly larger than every other key's count is
      ranked first. */
  lemma StrictLeaderFirst<K>(es: seq<(K, nat)>, n: nat, leader: nat)
    requires n > 0 && leader < |es|
    requires forall k :: 0 <= k < |es| && k != leader ==> es[k].1 < es[leader].1
    ensures Largest(es, n)[0] == es[leader]
  {
    ArgMaxSpec(es);
  }

  /** A value counted strictly more often than every other value of the
      column heads the ranking, with its count. */
  lemma CountLeaderFirst<T>(s: seq<T>, n: nat, leader: T)
    requires n > 0 && leader in s
    requires forall d :: d in s && d != leader ==> Count(s, d) < Count(s, leader)
    ensures Largest(ValueCounts(s), n)[0] == (leader, Count(s, leader))
  {
    var es := ValueCounts(s);
    var p :| 0 <= p < |s| && s[p] == leader;
    assert leader in Keys(es);
    var q :| 0 <= q < |es| && Keys(es)[q] == leader;
    assert es[q] == (leader, Count(s, leader));
    forall k | 0 <= k < |es| && k != q ensures es[k].1 < es[q].1 {
      assert Keys(es)[k] != Keys(es)[q];
      assert es[k].0 in s && es[k].0 != leader;
    }
    StrictLeaderFirst(es, n, q);
  }

  /** Entries drawn from `value_counts()` name values of the column and carry
      their exact counts. */
  lemma DrawnCountsExact<T>(s: seq<T>, r: seq<(T, nat)>)
    requires DrawnFrom(r, ValueCounts(s))
    ensures forall i :: 0 <= i < |r| ==> r[i].0 in s && r[i].1 == Count(s, r[i].0)
  {
    var es := ValueCounts(s);
    forall i | 0 <= i < |r| ensures r[i].0 in s && r[i].1 == Count(s, r[i].0) {
      assert r[i] in multiset(r);
      var q :| 0 <= q < |es| && es[q] == r[i];
    }
  }

  /** An entry whose key is not among the keys of `r` is not in `r`. */
  lemma NotKeyNotEntry<K, V>(r: seq<(K, V)>, e: (K, V))
    requires e.0 !in Keys(r)
    ensures e !in multiset(r)
  {
    forall t | 0 <= t < |r| ensures r[t] != e {
      assert Keys(r)[t] == r[t].0;
    }
    assert e !in r;
  }

  lemma LeftOutEntry<K>(es: seq<(K, nat)>, r: seq<(K, nat)>, e: (K, nat), k: nat)
    requires LeftOutBounded(es, r)
    requires e in multiset(es) && e.0 !in Keys(r) && k < |r|
    ensures e.1 <= r[k].1
  {
    NotKeyNotEntry(r, e);
    assert e in multiset(es) - multiset(r);
  }

  /** A value of the column whose pair `r` leaves out occurs no more often
      than any value `r` keeps, when `r` bounds everything it leaves out. */
  lemma LeftOutCounts<T>(s: seq<T>, r: seq<(T, nat)>)
    requires LeftOutBounded(ValueCounts(s), r)
    ensures forall d :: d in s && d !in Keys(r) ==> forall k :: 0 <= k < |r| ==> Count(s, d) <= r[k].1
  {
    forall d | d in s && d !in Keys(r) ensures forall k :: 0 <= k < |r| ==> Count(s, d) <= r[k].1 {
      var es := ValueCounts(s);
      var p :| 0 <= p < |s| && s[p] == d;
      assert d in Keys(es);
      var q :| 0 <= q < |es| && Keys(es)[q] == d;
      assert es[q] in multiset(es);
      forall k | 0 <= k < |r| ensures Count(s, d) <= r[k].1 {
        LeftOutEntry(es, r, es[q], k);
      }
    }
  }
}
