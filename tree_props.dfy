/**
 * What the learner guarantees about the trees it builds and the answers it
 * gives: the shape of every split, consistency of every node with its
 * records, features never reused along a path, bounded depth, pure leaves,
 * and a built tree classifying every training record it covers correctly.
 */
module TreeProps {
  import opened Wrappers
  import opened Data
  import opened Impurity
  import opened Nodes
  import opened Tree

  // ---------------------------------------------------------------------
  // Subsets

  /** The filter keeps the input order: filtering a concatenation concatenates the filtered parts. */
  lemma {:induction false} SubsetAppend(a: seq<Record>, b: seq<Record>, attribute: string, value: string)
    ensures Subset(a + b, attribute, value) == Subset(a, attribute, value) + Subset(b, attribute, value)
    decreases |b|
  {
    if b == [] {
      assert a + b == a;
    } else {
      var p, x := b[..|b| - 1], b[|b| - 1];
      assert (a + b)[..|a + b| - 1] == a + p;
      assert (a + b)[|a + b| - 1] == x;
      SubsetAppend(a, p, attribute, value);
    }
  }

  /** A single record survives the filter exactly when it carries the value. */
  lemma SubsetSingle(r: Record, attribute: string, value: string)
    ensures Subset([r], attribute, value) == if Matches(r, attribute, value) then [r] else []
  {
    assert [r][..0] == [];
  }

  // ---------------------------------------------------------------------
  // Feature selection

  /** Unfolding the score once: the score of all but the last value plus the last value's subset impurity. */
  lemma ScoreLast(data: seq<Record>, feature: string, values: seq<string>)
    requires values != []
    ensures Score(data, feature, values)
         == Score(data, feature, values[..|values| - 1]) + Gini(Subset(data, feature, values[|values| - 1]))
  {
  }

  /** Removing an element other than the last commutes with dropping the last. */
  lemma RemoveBeforeLast(values: seq<string>, j: nat)
    requires j < |values| - 1
    ensures var n, q, p := |values| - 1, values[..j] + values[j + 1..], values[..|values| - 1];
            && q != [] && q[..|q| - 1] == p[..j] + p[j + 1..] && q[|q| - 1] == values[n] && p[j] == values[j]
  {
  }

  /** A feature's score is the score without one of its values plus that value's subset impurity. */
  lemma {:induction false} ScoreRemove(data: seq<Record>, feature: string, values: seq<string>, j: nat)
    requires j < |values|
    ensures Score(data, feature, values)
         == Score(data, feature, values[..j] + values[j + 1..]) + Gini(Subset(data, feature, values[j]))
    decreases |values|
  {
    var n := |values| - 1;
    var q := values[..j] + values[j + 1..];
    ScoreLast(data, feature, values);
    if j < n {
      var p := values[..n];
      RemoveBeforeLast(values, j);
      ScoreRemove(data, feature, p, j);
      ScoreLast(data, feature, q);
    } else {
      assert q == values[..n];
    }
  }

  /** Dropping the last of `a` and an equal element of `b` keeps two equal multisets equal. */
  lemma DropMatching(a: seq<string>, b: seq<string>, j: nat)
    requires multiset(a) == multiset(b) && a != [] && j < |b| && b[j] == a[|a| - 1]
    ensures multiset(a[..|a| - 1]) == multiset(b[..j] + b[j + 1..])
  {
    var x, p, l, r := b[j], a[..|a| - 1], b[..j], b[j + 1..];
    assert multiset(b) == multiset(l) + multiset([x]) + multiset(r) by {
      assert b == l + [x] + r;
    }
    assert multiset(a) == multiset(p) + multiset([x]) by {
      assert a == p + [x];
    }
    assert multiset(l + r) == multiset(l) + multiset(r);
    forall y ensures multiset(p)[y] == multiset(l + r)[y] {
      assert multiset(p)[y] + multiset([x])[y] == multiset(a)[y] == multiset(b)[y];
      assert multiset(b)[y] == multiset(l)[y] + multiset([x])[y] + multiset(r)[y];
    }
  }

  /**
   * The order in which a feature's values are visited (a HashSet's, hence
   * unspecified) does not change its score.
   */
  lemma {:induction false} ScorePermutation(data: seq<Record>, feature: string, a: seq<string>, b: seq<string>)
    requires multiset(a) == multiset(b)
    ensures Score(data, feature, a) == Score(data, feature, b)
    decreases |a|
  {
    if a == [] {
      assert |multiset(b)| == 0;
    } else {
      var n := |a| - 1;
      var x := a[n];
      assert x in multiset(b) by {
        assert x in multiset(a);
      }
      var j :| 0 <= j < |b| && b[j] == x;
      var b' := b[..j] + b[j + 1..];
      DropMatching(a, b, j);
      var g := Gini(Subset(data, feature, x));
      assert Score(data, feature, b) == Score(data, feature, b') + g by {
        ScoreRemove(data, feature, b, j);
      }
      assert Score(data, feature, a) == Score(data, feature, a[..n]) + g by {
        ScoreLast(data, feature, a);
      }
      ScorePermutation(data, feature, a[..n], b');
    }
  }

  // ---------------------------------------------------------------------
  // One step of the builder

  /**
   * A built tree over impure records splits on the first catalogue entry of
   * least score, and holds one built subtree per value of that entry, over
   * the catalogue without it.
   */
  lemma InduceSplit(data: seq<Record>, cat: Catalogue) returns (i: nat)
    requires Induce(data, cat).Some? && Gini(data) != 0.0
    ensures i < |cat|
    ensures forall j :: 0 <= j < |cat| ==> Score(data, cat[i].feature, cat[i].values) <= Score(data, cat[j].feature, cat[j].values)
    ensures forall j :: 0 <= j < i ==> Score(data, cat[i].feature, cat[i].values) < Score(data, cat[j].feature, cat[j].values)
    ensures |Without(cat, cat[i].feature)| < |cat|
    ensures forall v :: v in cat[i].values ==> Induce(Subset(data, cat[i].feature, v), Without(cat, cat[i].feature)).Some?
    ensures Induce(data, cat).value == NodeValue(data, Gini(data), Some(cat[i].feature),
              Children(data, cat[i].feature, cat[i].values, Without(cat, cat[i].feature)))
  {
    var s := Scores(data, cat);
    assert |s| == |cat|;
    assert forall j :: 0 <= j < |cat| ==> s[j] == Score(data, cat[j].feature, cat[j].values);
    i := FirstMin(s).value;
    assert Names(cat)[i] == cat[i].feature;
  }

  /** The children of a successful split are keyed by exactly the entry's values, each over its subset. */
  lemma ChildrenOfSplit(data: seq<Record>, feature: string, values: seq<string>, rest: Catalogue)
    requires forall v :: v in values ==> Induce(Subset(data, feature, v), rest).Some?
    ensures forall v :: v in Children(data, feature, values, rest) <==> v in values
    ensures forall v :: v in values ==>
              Children(data, feature, values, rest)[v] == Induce(Subset(data, feature, v), rest).value
  {
  }

  /**
   * Pure records (one label, or none) stop the builder at a leaf holding them;
   * impure records are always split on some feature.
   */
  lemma InduceStops(data: seq<Record>, cat: Catalogue)
    ensures AllSameLabel(data) ==> Induce(data, cat) == Some(NodeValue(data, 0.0, None, map[]))
    ensures Induce(data, cat).Some? && !AllSameLabel(data) ==> Induce(data, cat).value.feature.Some?
  {
    GiniZeroIffPure(data);
    if Induce(data, cat).Some? && !AllSameLabel(data) {
      var i := InduceSplit(data, cat);
    }
  }

  /** With no feature left, the builder succeeds exactly on pure records; on impure ones the source throws. */
  lemma InduceEmptyCatalogue(data: seq<Record>)
    ensures Induce(data, []).Some? <==> AllSameLabel(data)
  {
    GiniZeroIffPure(data);
  }

  // ---------------------------------------------------------------------
  // Whole trees

  /**
   * Every node's impurity is that of its records, a node with children has a
   * feature, and the child under `v` holds the parent's records whose value
   * for that feature is `v`.
   */
  predicate Consistent(t: NodeValue)
  {
    && t.gini == Gini(t.data)
    && forall v :: v in t.children ==>
         && t.feature.Some?
         && t.children[v].data == Subset(t.data, t.feature.value, v)
         && Consistent(t.children[v])
  }

  /** Every split feature is drawn from `avail`, and is no longer available below it. */
  predicate SplitsFrom(t: NodeValue, avail: set<string>)
  {
    && (t.feature.Some? ==> t.feature.value in avail)
    && forall v :: v in t.children ==> t.feature.Some? && SplitsFrom(t.children[v], avail - {t.feature.value})
  }

  /** No root-to-leaf path has more than `k` splits. */
  predicate HeightAtMost(t: NodeValue, k: nat)
  {
    t.children != map[] ==> k > 0 && forall v :: v in t.children ==> HeightAtMost(t.children[v], k - 1)
  }

  /** Every childless node holds records of a single label. */
  predicate LeavesPure(t: NodeValue)
  {
    if t.children == map[] then AllSameLabel(t.data)
    else forall v :: v in t.children ==> LeavesPure(t.children[v])
  }

  /** The features a catalogue has entries for. */
  function Features(cat: Catalogue): (fs: set<string>)
    ensures forall f :: f in fs <==> f in Names(cat)
  {
    var fs := set e | e in cat :: e.feature;
    assert forall f :: f in Names(cat) ==> f in fs by {
      forall f | f in Names(cat) ensures f in fs {
        var i :| 0 <= i < |cat| && Names(cat)[i] == f;
        assert cat[i] in cat;
      }
    }
    fs
  }

  /** Removing a feature's entry removes exactly that feature. */
  lemma FeaturesWithout(cat: Catalogue, feature: string)
    ensures Features(Without(cat, feature)) == Features(cat) - {feature}
  {
    var r := Without(cat, feature);
    forall f | f in Features(cat) - {feature} ensures f in Features(r) {
      var i :| 0 <= i < |cat| && Names(cat)[i] == f;
      assert cat[i] in r;
      assert f in set e | e in r :: e.feature;
    }
    forall f | f in Features(r) ensures f in Features(cat) - {feature} {
      var e :| e in r && e.feature == f;
      assert e in cat;
      assert f in set e | e in cat :: e.feature;
    }
  }

  /** The root holds the given records, and every node is consistent with its records. */
  lemma {:induction false} InduceConsistent(data: seq<Record>, cat: Catalogue)
    requires Induce(data, cat).Some?
    ensures Induce(data, cat).value.data == data
    ensures Consistent(Induce(data, cat).value)
    decreases |cat|
  {
    if Gini(data) != 0.0 {
      var i := InduceSplit(data, cat);
      var f, rest := cat[i].feature, Without(cat, cat[i].feature);
      ChildrenOfSplit(data, f, cat[i].values, rest);
      var t := Induce(data, cat).value;
      forall v | v in t.children ensures t.children[v].data == Subset(data, f, v) && Consistent(t.children[v]) {
        InduceConsistent(Subset(data, f, v), rest);
      }
    }
  }

  /** Splits use catalogue features only, and never the same one twice on a path. */
  lemma {:induction false} InduceFeatures(data: seq<Record>, cat: Catalogue)
    requires Induce(data, cat).Some?
    ensures SplitsFrom(Induce(data, cat).value, Features(cat))
    decreases |cat|
  {
    var t := Induce(data, cat).value;
    if Gini(data) != 0.0 {
      var i := InduceSplit(data, cat);
      var f, rest := cat[i].feature, Without(cat, cat[i].feature);
      ChildrenOfSplit(data, f, cat[i].values, rest);
      forall v | v in t.children ensures SplitsFrom(t.children[v], Features(rest)) {
        InduceFeatures(Subset(data, f, v), rest);
      }
      FeaturesWithout(cat, f);
    }
  }

  /** No path of a built tree has more splits than the catalogue has features. */
  lemma {:induction false} InduceHeight(data: seq<Record>, cat: Catalogue)
    requires Induce(data, cat).Some?
    ensures forall k: nat :: k >= |cat| ==> HeightAtMost(Induce(data, cat).value, k)
    decreases |cat|
  {
    var t := Induce(data, cat).value;
    if Gini(data) != 0.0 {
      var i := InduceSplit(data, cat);
      var f, rest := cat[i].feature, Without(cat, cat[i].feature);
      assert cat[i] in cat;
      ChildrenOfSplit(data, f, cat[i].values, rest);
      forall v | v in t.children ensures forall k: nat :: k >= |rest| ==> HeightAtMost(t.children[v], k) {
        InduceHeight(Subset(data, f, v), rest);
      }
      forall k: nat | k >= |cat| ensures HeightAtMost(t, k) {
        forall v | v in t.children ensures HeightAtMost(t.children[v], k - 1) {
        }
      }
    }
  }

  /** When every feature has a value, every leaf of a built tree holds records of one label. */
  lemma {:induction false} InduceLeavesPure(data: seq<Record>, cat: Catalogue)
    requires ValuesNonEmpty(cat)
    requires Induce(data, cat).Some?
    ensures LeavesPure(Induce(data, cat).value)
    decreases |cat|
  {
    GiniZeroIffPure(data);
    var t := Induce(data, cat).value;
    if Gini(data) != 0.0 {
      var i := InduceSplit(data, cat);
      var f, rest := cat[i].feature, Without(cat, cat[i].feature);
      assert cat[i] in cat;
      ChildrenOfSplit(data, f, cat[i].values, rest);
      var v0 := cat[i].values[0];
      assert v0 in t.children;
      forall v | v in t.children ensures LeavesPure(t.children[v]) {
        InduceLeavesPure(Subset(data, f, v), rest);
      }
    }
  }

  // ---------------------------------------------------------------------
  // Prediction

  /**
   * getMajorityVoteFromData: no label for no records; otherwise a label that
   * occurs, counted at least as often as any label, and the first such in
   * first-seen order.
   */
  lemma MajorityLabelSpec(data: seq<Record>)
    ensures MajorityLabel(data).None? <==> data == []
    ensures MajorityLabel(data).Some? ==>
              var l, m := MajorityLabel(data).value, multiset(Labels(data));
              && (exists r :: r in data && r.category == l)
              && (forall x :: m[x] <= m[l])
              && (exists i :: 0 <= i < |Distinct(Labels(data))| && Distinct(Labels(data))[i] == l
                    && forall j :: 0 <= j < i ==> m[Distinct(Labels(data))[j]] < m[l])
  {
    var ls := Labels(data);
    var keys := Distinct(ls);
    var m := multiset(ls);
    if data != [] {
      assert ls[0] in keys;
      var i := FirstMax(keys, m);
      var l := keys[i];
      assert l in ls;
      var k :| 0 <= k < |ls| && ls[k] == l;
      assert data[k] in data;
      forall x ensures m[x] <= m[l] {
        if x in ls {
          var j :| 0 <= j < |keys| && keys[j] == x;
        }
      }
    }
  }

  /** A record's label is the majority label of records that all share it. */
  lemma MajorityOfPure(data: seq<Record>, r: Record)
    requires AllSameLabel(data) && r in data
    ensures MajorityLabel(data) == Some(r.category)
  {
    var ls := Labels(data);
    DistinctOfSame(ls);
    assert Distinct(ls) == [ls[0]];
  }

  /** The feature values of `r` are among those the catalogue lists. */
  predicate Covers(cat: Catalogue, r: Record)
  {
    forall e :: e in cat ==> e.feature in r.attributes && r.attributes[e.feature] in e.values
  }

  /**
   * A built tree classifies each of its training records correctly, when the
   * catalogue lists the record's value of every feature.
   */
  lemma {:induction false} FitsTrainingData(data: seq<Record>, cat: Catalogue, r: Record)
    requires Induce(data, cat).Some? && r in data && Covers(cat, r)
    ensures Classify(r, Induce(data, cat).value) == Some(r.category)
    decreases |cat|
  {
    GiniZeroIffPure(data);
    if Gini(data) == 0.0 {
      MajorityOfPure(data, r);
    } else {
      var i := InduceSplit(data, cat);
      var f, rest := cat[i].feature, Without(cat, cat[i].feature);
      assert cat[i] in cat;
      var v := r.attributes[f];
      ChildrenOfSplit(data, f, cat[i].values, rest);
      var t := Induce(data, cat).value;
      assert v in t.children;
      assert r in Subset(data, f, v);
      assert Covers(rest, r);
      FitsTrainingData(Subset(data, f, v), rest, r);
    }
  }

  /** Any label a built tree predicts is the label of one of its training records. */
  lemma {:induction false} PredictionOccurs(data: seq<Record>, cat: Catalogue, r: Record)
    requires Induce(data, cat).Some?
    requires Classify(r, Induce(data, cat).value).Some?
    ensures exists x :: x in data && x.category == Classify(r, Induce(data, cat).value).value
    decreases |cat|
  {
    var t := Induce(data, cat).value;
    var l := Classify(r, t).value;
    if t.children == map[] {
      InduceConsistent(data, cat);
      MajorityLabelSpec(data);
    } else {
      var i := InduceSplit(data, cat);
      var f, rest := cat[i].feature, Without(cat, cat[i].feature);
      ChildrenOfSplit(data, f, cat[i].values, rest);
      var v := r.attributes[f];
      PredictionOccurs(Subset(data, f, v), rest, r);
      var x :| x in Subset(data, f, v) && x.category == l;
    }
  }
}
