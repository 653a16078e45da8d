/**
 * Frequency tables: what `Series.value_counts()` produces, written out as
 * explicit counting. A table is a sequence of (value, count) entries with
 * distinct values; `Tally` lists the values in order of first appearance,
 * `SortByCount` orders a table by non-increasing count (stably, so equal
 * counts keep their table order), and `TopK` is `value_counts().head(k)`.
 */
module FrequencyTables {

  type Table<K> = seq<(K, nat)>

  /** How often `k` occurs in `xs`. */
  function Count<K(==)>(xs: seq<K>, k: K): nat {
    if xs == [] then 0
    else Count(xs[..|xs| - 1], k) + (if xs[|xs| - 1] == k then 1 else 0)
  }

  /** No value has two entries. */
  predicate DistinctKeys<K(==)>(t: Table<K>) {
    forall i, j :: 0 <= i < j < |t| ==> t[i].0 != t[j].0
  }

  /** `k` has an entry. */
  predicate HasKey<K(==)>(t: Table<K>, k: K) {
    exists i :: 0 <= i < |t| && t[i].0 == k
  }

  /** The total of all counts. */
  function Sum<K>(t: Table<K>): nat {
    if t == [] then 0 else t[0].1 + Sum(t[1..])
  }

  // ---------------------------------------------------------------------------
  // Counting
  // ---------------------------------------------------------------------------

  /** Counts one more occurrence of `k`: its entry goes up by one, or a new entry is appended. */
  function AddOne<K(==)>(t: Table<K>, k: K): Table<K> {
    if t == [] then [(k, 1)]
    else if t[0].0 == k then [(k, t[0].1 + 1)] + t[1..]
    else [t[0]] + AddOne(t[1..], k)
  }

  /** The frequency table of `xs`, values in order of first appearance. */
  function Tally<K(==)>(xs: seq<K>): Table<K> {
    if xs == [] then [] else AddOne(Tally(xs[..|xs| - 1]), xs[|xs| - 1])
  }

  /** Counting a value that already has an entry adds one to that entry and changes nothing else. */
  lemma {:induction false} AddOneExisting<K>(t: Table<K>, k: K)
    requires DistinctKeys(t) && HasKey(t, k)
    ensures |AddOne(t, k)| == |t|
    ensures forall i :: 0 <= i < |t| ==> AddOne(t, k)[i] == (t[i].0, t[i].1 + (if t[i].0 == k then 1 else 0))
  {
    var r := AddOne(t, k);
    if t[0].0 == k {
      forall i | 0 < i < |t| ensures r[i] == t[i] {
        assert t[i].0 != t[0].0;
      }
    } else {
      var tail := t[1..];
      var j :| 0 <= j < |t| && t[j].0 == k;
      assert tail[j - 1].0 == k;
      assert DistinctKeys(tail) by {
        forall a, b | 0 <= a < b < |tail| ensures tail[a].0 != tail[b].0 {
          assert tail[a] == t[a + 1] && tail[b] == t[b + 1];
        }
      }
      AddOneExisting(tail, k);
      forall i | 0 < i < |t| ensures r[i] == (t[i].0, t[i].1 + (if t[i].0 == k then 1 else 0)) {
        assert r[i] == AddOne(tail, k)[i - 1] && tail[i - 1] == t[i];
      }
    }
  }

  /** Counting a value without an entry appends a new entry with count one. */
  lemma {:induction false} AddOneNew<K>(t: Table<K>, k: K)
    requires !HasKey(t, k)
    ensures AddOne(t, k) == t + [(k, 1)]
  {
    if t != [] {
      assert !HasKey(t[1..], k) by {
        forall j | 0 <= j < |t| - 1 ensures t[1..][j].0 != k {
          assert t[1..][j] == t[j + 1];
        }
      }
      AddOneNew(t[1..], k);
      assert t == [t[0]] + t[1..];
    }
  }

  /**
   * Adding one occurrence changes only the entry of `k`, by one, and creates
   * that entry at the end if there was none; keys stay distinct.
   */
  lemma AddOneFacts<K>(t: Table<K>, k: K)
    requires DistinctKeys(t)
    ensures HasKey(t, k) ==> |AddOne(t, k)| == |t|
    ensures HasKey(t, k) ==>
      forall i :: 0 <= i < |t| ==> AddOne(t, k)[i] == (t[i].0, t[i].1 + (if t[i].0 == k then 1 else 0))
    ensures !HasKey(t, k) ==> AddOne(t, k) == t + [(k, 1)]
    ensures DistinctKeys(AddOne(t, k))
  {
    var r := AddOne(t, k);
    if HasKey(t, k) {
      AddOneExisting(t, k);
      forall i, j | 0 <= i < j < |r| ensures r[i].0 != r[j].0 {
        assert r[i].0 == t[i].0 && r[j].0 == t[j].0;
      }
    } else {
      AddOneNew(t, k);
      forall i, j | 0 <= i < j < |r| ensures r[i].0 != r[j].0 {
        if j == |t| {
          assert r[i] == t[i];
        } else {
          assert r[i] == t[i] && r[j] == t[j];
        }
      }
    }
  }

  /** Counting one more occurrence adds one to the total. */
  lemma {:induction false} AddOneSum<K>(t: Table<K>, k: K)
    ensures Sum(AddOne(t, k)) == Sum(t) + 1
  {
    if t != [] {
      if t[0].0 == k {
        assert ([(k, t[0].1 + 1)] + t[1..])[1..] == t[1..];
      } else {
        AddOneSum(t[1..], k);
        assert ([t[0]] + AddOne(t[1..], k))[1..] == AddOne(t[1..], k);
      }
    }
  }

  /**
   * The frequency table is exact: one entry per distinct value of `xs`, and
   * the entry of a value holds its number of occurrences, at least one.
   */
  lemma {:induction false} TallyCounts<K>(xs: seq<K>)
    ensures DistinctKeys(Tally(xs))
    ensures forall i :: 0 <= i < |Tally(xs)| ==>
      Tally(xs)[i].0 in xs && Tally(xs)[i].1 == Count(xs, Tally(xs)[i].0) && Tally(xs)[i].1 >= 1
    ensures forall k :: k in xs ==> HasKey(Tally(xs), k)
  {
    if xs != [] {
      var init, x := xs[..|xs| - 1], xs[|xs| - 1];
      assert xs == init + [x];
      TallyCounts(init);
      var t := Tally(init);
      AddOneFacts(t, x);
      var r := Tally(xs);
      assert r == AddOne(t, x);
      forall i | 0 <= i < |r| ensures r[i].0 in xs && r[i].1 == Count(xs, r[i].0) && r[i].1 >= 1 {
        if i < |t| {
          assert r[i].0 == t[i].0;
        } else {
          assert r[i] == (x, 1);
          CountAbsent(init, x);
        }
      }
      forall k | k in xs ensures HasKey(r, k) {
        if k in init {
          var j :| 0 <= j < |t| && t[j].0 == k;
          assert r[j].0 == k;
        } else {
          assert k == x;
          if !HasKey(t, x) { assert r[|t|].0 == x; }
        }
      }
    }
  }

  /** A value that does not occur has count zero. */
  lemma {:induction false} CountAbsent<K>(xs: seq<K>, k: K)
    requires k !in xs
    ensures Count(xs, k) == 0
  {
    if xs != [] {
      assert k !in xs[..|xs| - 1];
      CountAbsent(xs[..|xs| - 1], k);
    }
  }

  /** The counts of a frequency table add up to the number of values counted. */
  lemma {:induction false} TallySum<K>(xs: seq<K>)
    ensures Sum(Tally(xs)) == |xs|
  {
    if xs != [] {
      TallySum(xs[..|xs| - 1]);
      AddOneSum(Tally(xs[..|xs| - 1]), xs[|xs| - 1]);
    }
  }

  /** Where `k` first occurs in `xs`. */
  function FirstIndex<K(==)>(xs: seq<K>, k: K): (i: nat)
    requires k in xs
    ensures i < |xs| && xs[i] == k && k !in xs[..i]
  {
    if xs[0] == k then 0
    else
      var i := 1 + FirstIndex(xs[1..], k);
      assert xs[..i] == [xs[0]] + xs[1..][..i - 1];
      i
  }

  /** Appending a value does not move where earlier values first occur. */
  lemma FirstIndexAppend<K>(xs: seq<K>, x: K, k: K)
    requires k in xs
    ensures FirstIndex(xs + [x], k) == FirstIndex(xs, k)
  {
    var i, j := FirstIndex(xs + [x], k), FirstIndex(xs, k);
    assert (xs + [x])[j] == k;
    assert (xs + [x])[..j] == xs[..j];
  }

  /** The entries of the frequency table follow the order in which their values first occur. */
  lemma {:induction false} TallyOrder<K>(xs: seq<K>)
    ensures forall i, j :: 0 <= i < j < |Tally(xs)| ==>
      Tally(xs)[i].0 in xs && Tally(xs)[j].0 in xs &&
      FirstIndex(xs, Tally(xs)[i].0) < FirstIndex(xs, Tally(xs)[j].0)
  {
    TallyCounts(xs);
    if xs != [] {
      var init, x := xs[..|xs| - 1], xs[|xs| - 1];
      assert xs == init + [x];
      TallyOrder(init);
      TallyCounts(init);
      var t := Tally(init);
      AddOneFacts(t, x);
      var r := Tally(xs);
      forall i, j | 0 <= i < j < |r|
        ensures FirstIndex(xs, r[i].0) < FirstIndex(xs, r[j].0)
      {
        assert r[i].0 == t[i].0;
        FirstIndexAppend(init, x, r[i].0);
        if j < |t| {
          assert r[j].0 == t[j].0;
          FirstIndexAppend(init, x, r[j].0);
        } else {
          assert !HasKey(t, x);
          assert r[j] == (x, 1);
          assert x !in init;
          assert FirstIndex(xs, x) == |init| by {
            assert xs[..|init|] == init;
          }
        }
      }
    }
  }

  /** The number of entries is the number of distinct values (`nunique`). */
  lemma TallySize<K>(xs: seq<K>)
    ensures |Tally(xs)| == |set x | x in xs|
  {
    TallyCounts(xs);
    var t := Tally(xs);
    var keys := seq(|t|, i requires 0 <= i < |t| => t[i].0);
    assert (set k | k in keys) == (set x | x in xs) by {
      forall k | k in xs ensures k in keys {
        var j :| 0 <= j < |t| && t[j].0 == k;
        assert keys[j] == k;
      }
    }
    DistinctCard(keys);
  }

  /** A sequence has at most as many distinct values as elements. */
  lemma {:induction false} UniqueBound<K>(xs: seq<K>)
    ensures |set x | x in xs| <= |xs|
  {
    if xs != [] {
      UniqueBound(xs[1..]);
      assert (set x | x in xs) == (set x | x in xs[1..]) + {xs[0]};
    }
  }

  /** A sequence without repetitions has as many elements as its set. */
  lemma {:induction false} DistinctCard<K>(ks: seq<K>)
    requires forall i, j :: 0 <= i < j < |ks| ==> ks[i] != ks[j]
    ensures |set k | k in ks| == |ks|
  {
    if ks != [] {
      var rest := ks[1..];
      DistinctCard(rest);
      assert ks[0] !in rest by {
        forall j | 0 <= j < |rest| ensures rest[j] != ks[0] {
          assert rest[j] == ks[j + 1];
        }
      }
      assert (set k | k in ks) == (set k | k in rest) + {ks[0]};
    }
  }

  // ---------------------------------------------------------------------------
  // Ordering by count
  // ---------------------------------------------------------------------------

  /** Counts never increase along the table. */
  predicate SortedByCount<K>(t: Table<K>) {
    forall i, j :: 0 <= i < j < |t| ==> t[i].1 >= t[j].1
  }

  /** Places `e` before the first entry whose count is not larger than its own. */
  function Insert<K>(e: (K, nat), s: Table<K>): Table<K> {
    if s == [] then [e]
    else if s[0].1 <= e.1 then [e] + s
    else [s[0]] + Insert(e, s[1..])
  }

  /** `value_counts()` order: by non-increasing count; entries of equal count keep their order. */
  function SortByCount<K>(t: Table<K>): Table<K> {
    if t == [] then [] else Insert(t[0], SortByCount(t[1..]))
  }

  /** The entries of a table whose count is `c`, in table order. */
  function WithCount<K>(t: Table<K>, c: nat): Table<K> {
    if t == [] then []
    else (if t[0].1 == c then [t[0]] else []) + WithCount(t[1..], c)
  }

  /** The tail of a sorted table is sorted. */
  lemma SortedTail<K>(s: Table<K>)
    requires SortedByCount(s) && s != []
    ensures SortedByCount(s[1..])
  {
    forall i, j | 0 <= i < j < |s| - 1 ensures s[1..][i].1 >= s[1..][j].1 {
      assert s[1..][i] == s[i + 1] && s[1..][j] == s[j + 1];
    }
  }

  /** Inserting adds exactly the one entry. */
  lemma {:induction false} InsertPerm<K>(e: (K, nat), s: Table<K>)
    ensures multiset(Insert(e, s)) == multiset(s) + multiset{e}
  {
    if s != [] && s[0].1 > e.1 {
      InsertPerm(e, s[1..]);
      assert s == [s[0]] + s[1..];
    }
  }

  /** Inserting keeps every count within a bound the table and the new entry respect. */
  lemma {:induction false} InsertBound<K>(e: (K, nat), s: Table<K>, b: nat)
    requires e.1 <= b && forall i :: 0 <= i < |s| ==> s[i].1 <= b
    ensures forall i :: 0 <= i < |Insert(e, s)| ==> Insert(e, s)[i].1 <= b
  {
    if s != [] && s[0].1 > e.1 {
      InsertBound(e, s[1..], b);
      var r := [s[0]] + Insert(e, s[1..]);
      forall i | 0 < i < |r| ensures r[i].1 <= b {
        assert r[i] == Insert(e, s[1..])[i - 1];
      }
    }
  }

  /** Inserting into a sorted table keeps it sorted. */
  lemma {:induction false} InsertSorted<K>(e: (K, nat), s: Table<K>)
    requires SortedByCount(s)
    ensures SortedByCount(Insert(e, s))
  {
    if s != [] && s[0].1 > e.1 {
      var r' := Insert(e, s[1..]);
      var r := [s[0]] + r';
      SortedTail(s);
      InsertSorted(e, s[1..]);
      InsertBound(e, s[1..], s[0].1);
      forall i, j | 0 <= i < j < |r| ensures r[i].1 >= r[j].1 {
        assert r[j] == r'[j - 1];
        if i > 0 {
          assert r[i] == r'[i - 1];
        }
      }
    }
  }

  /** Inserting into a sorted table puts the new entry first among those of equal count. */
  lemma {:induction false} InsertWithCount<K>(e: (K, nat), s: Table<K>, c: nat)
    requires SortedByCount(s)
    ensures WithCount(Insert(e, s), c) == (if c == e.1 then [e] else []) + WithCount(s, c)
  {
    if s == [] {
    } else if s[0].1 <= e.1 {
      var r := [e] + s;
      assert r[1..] == s;
      if c == e.1 && s[0].1 < c {
        AboveNone(s, c);
      }
    } else {
      SortedTail(s);
      InsertWithCount(e, s[1..], c);
      var r := [s[0]] + Insert(e, s[1..]);
      assert r[1..] == Insert(e, s[1..]);
      if c == e.1 {
        assert s[0].1 != c;
        assert WithCount(s, c) == WithCount(s[1..], c);
      }
    }
  }

  /** In a sorted table whose first count is below `c`, no entry has count `c`. */
  lemma {:induction false} AboveNone<K>(s: Table<K>, c: nat)
    requires SortedByCount(s) && s != [] && s[0].1 < c
    ensures WithCount(s, c) == []
  {
    if |s| > 1 {
      assert s[1..][0] == s[1];
      SortedTail(s);
      AboveNone(s[1..], c);
    }
  }

  /**
   * Ordering by count is a sorting permutation: the same entries, counts
   * never increasing, and entries of equal count in their original order.
   */
  lemma {:induction false} SortByCountFacts<K>(t: Table<K>)
    ensures SortedByCount(SortByCount(t))
    ensures multiset(SortByCount(t)) == multiset(t)
    ensures forall c :: WithCount(SortByCount(t), c) == WithCount(t, c)
  {
    if t != [] {
      var s := SortByCount(t[1..]);
      SortByCountFacts(t[1..]);
      InsertSorted(t[0], s);
      InsertPerm(t[0], s);
      assert t == [t[0]] + t[1..];
      forall c ensures WithCount(SortByCount(t), c) == WithCount(t, c) {
        InsertWithCount(t[0], s, c);
      }
    }
  }

  /** Inserting an entry adds its count to the total. */
  lemma {:induction false} InsertSum<K>(e: (K, nat), s: Table<K>)
    ensures Sum(Insert(e, s)) == e.1 + Sum(s)
  {
    if s != [] {
      if s[0].1 <= e.1 {
        assert ([e] + s)[1..] == s;
      } else {
        InsertSum(e, s[1..]);
        assert ([s[0]] + Insert(e, s[1..]))[1..] == Insert(e, s[1..]);
      }
    }
  }

  /** Ordering by count keeps the total. */
  lemma {:induction false} SortSum<K>(t: Table<K>)
    ensures Sum(SortByCount(t)) == Sum(t)
  {
    if t != [] {
      SortSum(t[1..]);
      InsertSum(t[0], SortByCount(t[1..]));
    }
  }

  /** An entry of a table whose keys are distinct has a key nobody else in the table has. */
  lemma {:induction false} InsertDistinct<K>(e: (K, nat), s: Table<K>)
    requires DistinctKeys(s) && !HasKey(s, e.0)
    ensures DistinctKeys(Insert(e, s))
  {
    if s != [] {
      if s[0].1 <= e.1 {
        var r := [e] + s;
        forall i, j | 0 <= i < j < |r| ensures r[i].0 != r[j].0 {
          assert r[j] == s[j - 1];
          if i > 0 { assert r[i] == s[i - 1]; }
        }
      } else {
        var tail := s[1..];
        assert DistinctKeys(tail) by {
          forall i, j | 0 <= i < j < |tail| ensures tail[i].0 != tail[j].0 {
            assert tail[i] == s[i + 1] && tail[j] == s[j + 1];
          }
        }
        assert !HasKey(tail, e.0) by {
          forall i | 0 <= i < |tail| ensures tail[i].0 != e.0 {
            assert tail[i] == s[i + 1];
          }
        }
        InsertDistinct(e, tail);
        InsertPerm(e, tail);
        var r' := Insert(e, tail);
        var r := [s[0]] + r';
        forall i, j | 0 <= i < j < |r| ensures r[i].0 != r[j].0 {
          assert r[j] == r'[j - 1];
          if i > 0 {
            assert r[i] == r'[i - 1];
          } else {
            assert r[j] in multiset(r');
            if r[j] != e {
              assert r[j] in multiset(tail);
              var p :| 0 <= p < |tail| && tail[p] == r[j];
              assert s[p + 1] == r[j];
            }
          }
        }
      }
    }
  }

  /** Ordering by count keeps the keys distinct. */
  lemma {:induction false} SortDistinct<K>(t: Table<K>)
    requires DistinctKeys(t)
    ensures DistinctKeys(SortByCount(t))
  {
    if t != [] {
      var tail := t[1..];
      assert DistinctKeys(tail) by {
        forall i, j | 0 <= i < j < |tail| ensures tail[i].0 != tail[j].0 {
          assert tail[i] == t[i + 1] && tail[j] == t[j + 1];
        }
      }
      SortDistinct(tail);
      SortByCountFacts(tail);
      var s := SortByCount(tail);
      assert !HasKey(s, t[0].0) by {
        forall i | 0 <= i < |s| ensures s[i].0 != t[0].0 {
          assert s[i] in multiset(s);
          var p :| 0 <= p < |tail| && tail[p] == s[i];
          assert t[p + 1] == s[i];
        }
      }
      InsertDistinct(t[0], s);
    }
  }

  // ---------------------------------------------------------------------------
  // value_counts() and value_counts().head(k)
  // ---------------------------------------------------------------------------

  /** `xs.value_counts()`: the frequency table of `xs` ordered by count. */
  function ValueCounts<K(==)>(xs: seq<K>): (v: Table<K>)
    ensures Sum(v) == |xs|
  {
    TallySum(xs);
    SortSum(Tally(xs));
    SortByCount(Tally(xs))
  }

  /**
   * `value_counts()` is exact: one entry per distinct value (`nunique` of
   * them), each with its number of occurrences, counts summing to `len(xs)`,
   * in non-increasing count order.
   */
  lemma ValueCountsFacts<K>(xs: seq<K>)
    ensures DistinctKeys(ValueCounts(xs)) && SortedByCount(ValueCounts(xs))
    ensures forall i :: 0 <= i < |ValueCounts(xs)| ==>
      ValueCounts(xs)[i].0 in xs && ValueCounts(xs)[i].1 == Count(xs, ValueCounts(xs)[i].0) && ValueCounts(xs)[i].1 >= 1
    ensures forall k :: k in xs ==> HasKey(ValueCounts(xs), k)
    ensures Sum(ValueCounts(xs)) == |xs|
    ensures |ValueCounts(xs)| == |set x | x in xs|
  {
    var t := Tally(xs);
    var v := ValueCounts(xs);
    TallyCounts(xs);
    TallySum(xs);
    TallySize(xs);
    SortByCountFacts(t);
    SortSum(t);
    SortDistinct(t);
    assert |v| == |t| by {
      assert |multiset(v)| == |multiset(t)|;
    }
    forall i | 0 <= i < |v| ensures v[i].0 in xs && v[i].1 == Count(xs, v[i].0) && v[i].1 >= 1 {
      assert v[i] in multiset(v);
      var p :| 0 <= p < |t| && t[p] == v[i];
    }
    forall k | k in xs ensures HasKey(v, k) {
      var p :| 0 <= p < |t| && t[p].0 == k;
      assert t[p] in multiset(t);
      var i :| 0 <= i < |v| && v[i] == t[p];
    }
  }

  /** `xs.value_counts().head(k)`: the `k` most frequent values with their counts. */
  function TopK<K(==)>(xs: seq<K>, k: nat): (top: Table<K>)
    ensures top <= ValueCounts(xs) && |top| <= k
  {
    var v := ValueCounts(xs);
    v[..if k < |v| then k else |v|]
  }

  /**
   * The top `k`: `min(k, nunique)` entries, each a value of `xs` with its exact
   * count, in non-increasing count order, and no value left out occurs more
   * often than one kept.
   */
  lemma TopKFacts<K>(xs: seq<K>, k: nat)
    ensures var n := |set x | x in xs|; |TopK(xs, k)| == if k < n then k else n
    ensures TopK(xs, k) <= ValueCounts(xs)
    ensures DistinctKeys(TopK(xs, k)) && SortedByCount(TopK(xs, k))
    ensures forall i :: 0 <= i < |TopK(xs, k)| ==>
      TopK(xs, k)[i].0 in xs && TopK(xs, k)[i].1 == Count(xs, TopK(xs, k)[i].0)
    ensures forall x, i :: x in xs && !HasKey(TopK(xs, k), x) && 0 <= i < |TopK(xs, k)| ==>
      TopK(xs, k)[i].1 >= Count(xs, x)
  {
    var v := ValueCounts(xs);
    var r := TopK(xs, k);
    ValueCountsFacts(xs);
    forall i | 0 <= i < |r| ensures r[i] == v[i] {
    }
    forall x, i | x in xs && !HasKey(r, x) && 0 <= i < |r| ensures r[i].1 >= Count(xs, x) {
      var p :| 0 <= p < |v| && v[p].0 == x;
    }
  }
}
