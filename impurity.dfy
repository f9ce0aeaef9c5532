/**
 * Gini impurity of a list of records (Gini.java). Impurity is computed over
 * exact rationals; the source uses doubles.
 */
module Impurity {
  import opened Data

  /** The distinct labels of `ls`, in order of first occurrence. */
  function Distinct(ls: seq<string>): (d: seq<string>)
    ensures NoDups(d)
    ensures forall l :: l in d <==> l in ls
  {
    if ls == [] then []
    else
      var d := Distinct(ls[..|ls| - 1]);
      var l := ls[|ls| - 1];
      assert ls == ls[..|ls| - 1] + [l];
      if l in d then d else d + [l]
  }

  /** Appending a label adds it to the distinct labels unless already there. */
  lemma DistinctSnoc(p: seq<string>, l: string)
    ensures Distinct(p + [l]) == if l in Distinct(p) then Distinct(p) else Distinct(p) + [l]
  {
    assert (p + [l])[..|p|] == p;
  }

  /** The prefix of length i + 1 extends the prefix of length i by one element. */
  lemma PrefixStep<T>(s: seq<T>, i: nat)
    requires i < |s|
    ensures s[..i + 1] == s[..i] + [s[i]]
    ensures multiset(s[..i + 1]) == multiset(s[..i]) + multiset{s[i]}
  {
    assert s[..i + 1] == s[..i] + [s[i]];
  }

  /** Sum of the counts `m[k]` over `keys`. */
  function CountSum(keys: seq<string>, m: multiset<string>): nat
  {
    if keys == [] then 0
    else CountSum(keys[..|keys| - 1], m) + m[keys[|keys| - 1]]
  }

  /** Sum of the squared counts `m[k] * m[k]` over `keys`. */
  function SquareSum(keys: seq<string>, m: multiset<string>): nat
  {
    if keys == [] then 0
    else SquareSum(keys[..|keys| - 1], m) + m[keys[|keys| - 1]] * m[keys[|keys| - 1]]
  }

  function Sq(x: real): real
  {
    x * x
  }

  /** Sum over `keys` of the squared relative frequency (m[k] / n)^2. */
  function SquaredFrequencies(keys: seq<string>, m: multiset<string>, n: nat): (r: real)
    requires n > 0
    ensures r >= 0.0
  {
    if keys == [] then 0.0
    else SquaredFrequencies(keys[..|keys| - 1], m, n) + Sq((m[keys[|keys| - 1]] as real) / (n as real))
  }

  /** 1 - sum_j p_j^2 over the distinct labels of `data`; 0 for no data. */
  function Gini(data: seq<Record>): (g: real)
    ensures g <= 1.0
  {
    if |data| == 0 then 0.0
    else 1.0 - SquaredFrequencies(Distinct(Labels(data)), multiset(Labels(data)), |data|)
  }

  /** Every record carries the label of the first one. */
  predicate AllSameLabel(data: seq<Record>)
  {
    forall i :: 0 <= i < |data| ==> data[i].category == data[0].category
  }

  /**
   * The label-count loop: the distinct labels in the order the count map
   * first receives them, and the number of records carrying each.
   */
  method CountLabels(data: seq<Record>) returns (keys: seq<string>, counts: map<string, nat>)
    ensures keys == Distinct(Labels(data))
    ensures forall l :: l in counts <==> l in keys
    ensures forall l :: l in counts ==> counts[l] == multiset(Labels(data))[l]
  {
    ghost var ls := Labels(data);
    ghost var m: multiset<string> := multiset{};
    keys, counts := [], map[];
    for i := 0 to |data|
      invariant m == multiset(ls[..i])
      invariant keys == Distinct(ls[..i])
      invariant forall l :: l in counts <==> l in keys
      invariant forall l :: l in counts ==> counts[l] == m[l]
    {
      var l := data[i].category;
      PrefixStep(ls, i);
      DistinctSnoc(ls[..i], l);
      m := m + multiset{l};
      if l !in counts {
        counts := counts[l := 0];
        keys := keys + [l];
      }
      counts := counts[l := counts[l] + 1];
    }
    assert ls[..|data|] == ls;
  }

  /** calculateGini: 0 for no data, otherwise 1 minus each label's squared frequency. */
  method CalculateGini(data: seq<Record>) returns (res: real)
    ensures res == Gini(data)
  {
    res := 0.0;
    if |data| == 0 {
      return;
    }
    var keys, counts := CountLabels(data);
    res := 1.0;
    ghost var m := multiset(Labels(data));
    for j := 0 to |keys|
      invariant res == 1.0 - SquaredFrequencies(keys[..j], m, |data|)
    {
      assert keys[..j + 1][..j] == keys[..j];
      res := res - Sq((counts[keys[j]] as real) / (|data| as real));
    }
    assert keys[..|keys|] == keys;
  }

  // ---------------------------------------------------------------------
  // Label counts

  lemma {:induction false} CountSumAdd(keys: seq<string>, m: multiset<string>, x: string)
    requires NoDups(keys)
    ensures CountSum(keys, m + multiset{x}) == CountSum(keys, m) + (if x in keys then 1 else 0)
  {
    if keys != [] {
      var p := keys[..|keys| - 1];
      assert keys == p + [keys[|keys| - 1]];
      CountSumAdd(p, m, x);
    }
  }

  /** Each distinct label occurs at least once, and the counts add up to the number of records. */
  lemma {:induction false} CountsSumToSize(ls: seq<string>)
    ensures forall l :: l in Distinct(ls) ==> multiset(ls)[l] >= 1
    ensures CountSum(Distinct(ls), multiset(ls)) == |ls|
  {
    if ls != [] {
      var p, x := ls[..|ls| - 1], ls[|ls| - 1];
      assert ls == p + [x];
      CountsSumToSize(p);
      CountSumAdd(Distinct(p), multiset(p), x);
      if x !in Distinct(p) {
        assert Distinct(ls) == Distinct(p) + [x];
        assert (Distinct(p) + [x])[..|Distinct(p)|] == Distinct(p);
      }
    }
  }

  // ---------------------------------------------------------------------
  // Arithmetic on the sums

  lemma SqDiv(c: nat, n: nat)
    requires n > 0
    ensures Sq((c as real) / (n as real)) == ((c * c) as real) / ((n * n) as real)
  {
    var x := (c as real) / (n as real);
    assert x * (n as real) == c as real;
    assert (x * x) * ((n * n) as real) == (x * (n as real)) * (x * (n as real));
  }

  lemma AddFractions(a: nat, b: nat, d: nat)
    requires d > 0
    ensures (a as real) / (d as real) + (b as real) / (d as real) == ((a + b) as real) / (d as real)
  {
  }

  lemma SquareGrowth(s: nat, c: nat, q: nat)
    requires q <= s * s
    ensures c <= c * c
    ensures q + c * c <= (s + c) * (s + c)
    ensures s >= 1 && c >= 1 ==> q + c * c < (s + c) * (s + c)
  {
    assert (s + c) * (s + c) == s * s + 2 * (s * c) + c * c;
    if s >= 1 && c >= 1 {
      assert s * c >= 1;
    }
  }

  lemma RatioBounds(q: nat, n: nat)
    requires 1 <= n <= q <= n * n
    ensures 0.0 < (q as real) / ((n * n) as real) <= 1.0
    ensures q < n * n ==> (q as real) / ((n * n) as real) < 1.0
  {
  }

  /** The squared frequencies are the squared counts over n^2. */
  lemma {:induction false} SquaredFrequenciesScaled(keys: seq<string>, m: multiset<string>, n: nat)
    requires n > 0
    ensures SquaredFrequencies(keys, m, n) == (SquareSum(keys, m) as real) / ((n * n) as real)
  {
    if keys != [] {
      var p, k := keys[..|keys| - 1], keys[|keys| - 1];
      SquaredFrequenciesScaled(p, m, n);
      SqDiv(m[k], n);
      AddFractions(SquareSum(p, m), m[k] * m[k], n * n);
    }
  }

  lemma {:induction false} SquareSumBounds(keys: seq<string>, m: multiset<string>)
    ensures CountSum(keys, m) <= SquareSum(keys, m) <= CountSum(keys, m) * CountSum(keys, m)
  {
    if keys != [] {
      var p, c := keys[..|keys| - 1], m[keys[|keys| - 1]];
      SquareSumBounds(p, m);
      SquareGrowth(CountSum(p, m), c, SquareSum(p, m));
    }
  }

  /** With two or more keys of positive count, the squared counts sum to strictly less than the squared total. */
  lemma SquareSumStrict(keys: seq<string>, m: multiset<string>)
    requires |keys| >= 2
    requires forall k :: k in keys ==> m[k] >= 1
    ensures SquareSum(keys, m) < CountSum(keys, m) * CountSum(keys, m)
  {
    var p, c := keys[..|keys| - 1], m[keys[|keys| - 1]];
    SquareSumBounds(p, m);
    var s := CountSum(p, m);
    assert p[|p| - 1] in keys;
    assert s >= m[p[|p| - 1]] >= 1;
    SquareGrowth(s, c, SquareSum(p, m));
  }

  /** For a non-empty list, Gini is 1 - (sum of squared label counts) / n^2. */
  lemma GiniFromCounts(data: seq<Record>)
    requires |data| > 0
    ensures var ls := Labels(data);
            Gini(data) == 1.0 - (SquareSum(Distinct(ls), multiset(ls)) as real) / ((|data| * |data|) as real)
  {
    var ls := Labels(data);
    SquaredFrequenciesScaled(Distinct(ls), multiset(ls), |data|);
  }

  // ---------------------------------------------------------------------
  // Properties of the impurity

  /** The impurity lies in [0, 1). */
  lemma GiniBounds(data: seq<Record>)
    ensures 0.0 <= Gini(data) < 1.0
  {
    if |data| > 0 {
      var ls := Labels(data);
      var d, m, n := Distinct(ls), multiset(ls), |data|;
      GiniFromCounts(data);
      CountsSumToSize(ls);
      SquareSumBounds(d, m);
      RatioBounds(SquareSum(d, m), n);
    }
  }

  /** With two or more distinct labels the impurity is strictly positive. */
  lemma GiniPositive(data: seq<Record>)
    requires |Distinct(Labels(data))| >= 2
    ensures Gini(data) > 0.0
  {
    var ls := Labels(data);
    var d, m, n := Distinct(ls), multiset(ls), |data|;
    GiniFromCounts(data);
    CountsSumToSize(ls);
    SquareSumBounds(d, m);
    assert forall k :: k in d ==> m[k] >= 1;
    SquareSumStrict(d, m);
    RatioBounds(SquareSum(d, m), n);
  }

  lemma {:induction false} DistinctOfSame(ls: seq<string>)
    requires |ls| > 0
    requires forall i :: 0 <= i < |ls| ==> ls[i] == ls[0]
    ensures Distinct(ls) == [ls[0]]
  {
    var p := ls[..|ls| - 1];
    if |p| > 0 {
      DistinctOfSame(p);
    }
  }

  /** A sequence holding two different elements has at least two positions. */
  lemma TwoMembers(d: seq<string>, a: string, b: string)
    requires a in d && b in d && a != b
    ensures |d| >= 2
  {
    var ia :| 0 <= ia < |d| && d[ia] == a;
    var ib :| 0 <= ib < |d| && d[ib] == b;
    assert ia != ib;
  }

  lemma GiniOfPure(data: seq<Record>)
    requires |data| > 0 && AllSameLabel(data)
    ensures Gini(data) == 0.0
  {
    var ls := Labels(data);
    var m, n := multiset(ls), |data|;
    var x := ls[0];
    assert forall i :: 0 <= i < |ls| ==> ls[i] == x;
    DistinctOfSame(ls);
    CountsSumToSize(ls);
    assert m[x] == n by {
      assert [x][..0] == [];
    }
    assert SquareSum([x], m) == n * n by {
      assert [x][..0] == [];
    }
    GiniFromCounts(data);
    RatioOne(n * n);
  }

  lemma RatioOne(q: nat)
    requires q > 0
    ensures (q as real) / (q as real) == 1.0
  {
  }

  /** The impurity is 0 exactly when every record carries the same label (vacuously for no data). */
  lemma GiniZeroIffPure(data: seq<Record>)
    ensures Gini(data) == 0.0 <==> AllSameLabel(data)
  {
    if |data| > 0 {
      if AllSameLabel(data) {
        GiniOfPure(data);
      } else {
        var ls := Labels(data);
        var i :| 0 <= i < |data| && data[i].category != data[0].category;
        var d := Distinct(ls);
        assert ls[0] in d && ls[i] in d;
        TwoMembers(d, ls[0], ls[i]);
        GiniPositive(data);
      }
    }
  }

  lemma {:induction false} EqualCountSums(keys: seq<string>, m: multiset<string>, c: nat)
    requires forall k :: k in keys ==> m[k] == c
    ensures CountSum(keys, m) == |keys| * c
    ensures SquareSum(keys, m) == |keys| * c * c
  {
    if keys != [] {
      var p := keys[..|keys| - 1];
      assert forall k :: k in p ==> k in keys;
      EqualCountSums(p, m, c);
      OneMore(|p|, c);
    }
  }

  lemma OneMore(n: nat, c: nat)
    ensures n * c + c == (n + 1) * c
    ensures n * c * c + c * c == (n + 1) * c * c
  {
  }

  lemma EqualRatio(k: nat, c: nat)
    requires k > 0 && c > 0
    ensures ((k * c * c) as real) / (((k * c) * (k * c)) as real) == 1.0 / (k as real)
  {
    var kr, cr := k as real, c as real;
    assert ((k * c * c) as real) == kr * (cr * cr);
    assert (((k * c) * (k * c)) as real) == kr * (kr * (cr * cr));
    assert cr * cr > 0.0;
  }

  /** K distinct labels of equal frequency give impurity 1 - 1/K. */
  lemma GiniEqualFrequencies(data: seq<Record>, c: nat)
    requires |data| > 0
    requires forall l :: l in Distinct(Labels(data)) ==> multiset(Labels(data))[l] == c
    ensures Gini(data) == 1.0 - 1.0 / (|Distinct(Labels(data))| as real)
  {
    var ls := Labels(data);
    var d, m := Distinct(ls), multiset(ls);
    CountsSumToSize(ls);
    EqualCountSums(d, m, c);
    GiniFromCounts(data);
    assert |d| > 0 && c > 0 by {
      assert ls[0] in d;
    }
    EqualRatio(|d|, c);
  }

  // ---------------------------------------------------------------------
  // Independence from record order

  lemma {:induction false} SquareSumConcat(p: seq<string>, q: seq<string>, m: multiset<string>)
    ensures SquareSum(p + q, m) == SquareSum(p, m) + SquareSum(q, m)
  {
    if q != [] {
      var q', k := q[..|q| - 1], q[|q| - 1];
      assert (p + q)[..|p + q| - 1] == p + q';
      assert (p + q)[|p + q| - 1] == k;
      SquareSumConcat(p, q', m);
    } else {
      assert p + q == p;
    }
  }

  lemma {:induction false} SquareSumOfAbsent(b: seq<string>, m: multiset<string>)
    requires forall x :: x in b ==> m[x] == 0
    ensures SquareSum(b, m) == 0
  {
    if b != [] {
      var b' := b[..|b| - 1];
      assert forall x :: x in b' ==> x in b;
      SquareSumOfAbsent(b', m);
    }
  }

  lemma SquareSumRemove(s: seq<string>, j: nat, m: multiset<string>)
    requires j < |s|
    ensures SquareSum(s, m) == SquareSum(s[..j] + s[j + 1..], m) + m[s[j]] * m[s[j]]
  {
    assert s == s[..j] + [s[j]] + s[j + 1..];
    SquareSumConcat(s[..j] + [s[j]], s[j + 1..], m);
    SquareSumConcat(s[..j], [s[j]], m);
    SquareSumConcat(s[..j], s[j + 1..], m);
    assert SquareSum([s[j]], m) == m[s[j]] * m[s[j]];
  }

  /** Removing the element at `j` from a repeat-free sequence leaves exactly the other elements, still without repeats. */
  lemma RemoveAt(b: seq<string>, j: nat)
    requires NoDups(b) && j < |b|
    ensures NoDups(b[..j] + b[j + 1..])
    ensures forall y :: y in b[..j] + b[j + 1..] <==> y in b && y != b[j]
  {
    var b' := b[..j] + b[j + 1..];
    assert forall t :: 0 <= t < |b'| ==> b'[t] == b[if t < j then t else t + 1];
    forall u, v | 0 <= u < v < |b'|
      ensures b'[u] != b'[v]
    {
      var u' := if u < j then u else u + 1;
      var v' := if v < j then v else v + 1;
      assert b'[u] == b[u'] && b'[v] == b[v'];
    }
    forall y | y in b && y != b[j] ensures y in b' {
      var t :| 0 <= t < |b| && b[t] == y;
      if t < j {
        assert b'[t] == y;
      } else {
        assert b'[t - 1] == y;
      }
    }
  }

  /** Two repeat-free listings of the same labels have the same sum of squared counts. */
  lemma {:induction false} SquareSumPermutation(a: seq<string>, b: seq<string>, m: multiset<string>)
    requires NoDups(a) && NoDups(b)
    requires forall x :: x in a <==> x in b
    ensures SquareSum(a, m) == SquareSum(b, m)
    decreases |a|
  {
    if a == [] {
      assert forall x :: x in b ==> m[x] == 0;
      SquareSumOfAbsent(b, m);
    } else {
      var a', x := a[..|a| - 1], a[|a| - 1];
      assert x in b;
      var j :| 0 <= j < |b| && b[j] == x;
      var b' := b[..j] + b[j + 1..];
      RemoveAt(b, j);
      RemoveAt(a, |a| - 1);
      assert a[..|a| - 1] + a[|a| - 1 + 1..] == a';
      forall y ensures y in a' <==> y in b' {
        assert y in a' <==> y in a && y != x;
        assert y in b' <==> y in b && y != x;
      }
      SquareSumPermutation(a', b', m);
      SquareSumRemove(b, j, m);
    }
  }

  /** The impurity depends only on the multiset of labels: not on record order, nor on attributes. */
  lemma GiniDependsOnlyOnLabels(d1: seq<Record>, d2: seq<Record>)
    requires multiset(Labels(d1)) == multiset(Labels(d2))
    ensures Gini(d1) == Gini(d2)
  {
    var l1, l2 := Labels(d1), Labels(d2);
    assert |l1| == |multiset(l1)| == |multiset(l2)| == |l2|;
    if |d1| > 0 {
      forall x
        ensures x in Distinct(l1) <==> x in Distinct(l2)
      {
        assert x in l1 <==> x in multiset(l1);
        assert x in l2 <==> x in multiset(l2);
      }
      SquareSumPermutation(Distinct(l1), Distinct(l2), multiset(l1));
      GiniFromCounts(d1);
      GiniFromCounts(d2);
    }
  }
}
