/**
 * The learner (Tree.java): the subset filter, the greedy recursive builder and
 * the predictor with its majority vote. Each operation is a method following
 * the source's loops, proved equal to a function that states what it computes.
 */
module Tree {
  import opened Wrappers
  import opened Data
  import opened Impurity
  import opened Nodes

  // ---------------------------------------------------------------------
  // Subsets

  /** The record has `attribute`, with value `value`. */
  predicate Matches(r: Record, attribute: string, value: string)
  {
    attribute in r.attributes && r.attributes[attribute] == value
  }

  /** The records of `data` whose `attribute` equals `value`, in their original order. */
  function Subset(data: seq<Record>, attribute: string, value: string): (res: seq<Record>)
    ensures |res| <= |data|
    ensures forall r :: r in res <==> r in data && Matches(r, attribute, value)
  {
    if data == [] then []
    else
      var r := data[|data| - 1];
      assert data == data[..|data| - 1] + [r];
      var rest := Subset(data[..|data| - 1], attribute, value);
      if Matches(r, attribute, value) then rest + [r] else rest
  }

  /** createDataSubset: one pass over the records, appending the matching ones. */
  method CreateDataSubset(data: seq<Record>, attribute: string, value: string) returns (res: seq<Record>)
    ensures res == Subset(data, attribute, value)
  {
    res := [];
    for i := 0 to |data|
      invariant res == Subset(data[..i], attribute, value)
    {
      assert data[..i + 1][..i] == data[..i];
      if attribute in data[i].attributes && data[i].attributes[attribute] == value {
        res := res + [data[i]];
      }
    }
    assert data[..|data|] == data;
  }

  // ---------------------------------------------------------------------
  // Feature selection

  /** A feature's score: the unweighted sum, over its values, of the impurity of each value's subset. */
  function Score(data: seq<Record>, feature: string, values: seq<string>): (r: real)
    ensures 0.0 <= r <= |values| as real
  {
    if values == [] then 0.0
    else
      GiniBounds(Subset(data, feature, values[|values| - 1]));
      Score(data, feature, values[..|values| - 1]) + Gini(Subset(data, feature, values[|values| - 1]))
  }

  /** The score of every catalogue entry, in catalogue order. */
  function Scores(data: seq<Record>, cat: Catalogue): seq<real>
  {
    seq(|cat|, i requires 0 <= i < |cat| => Score(data, cat[i].feature, cat[i].values))
  }

  /**
   * The position of the first strict minimum of `s`: the source starts from
   * +infinity and replaces its choice only on a strictly smaller score.
   */
  function FirstMin(s: seq<real>): (r: Option<nat>)
    ensures r.None? <==> s == []
    ensures r.Some? ==> r.value < |s|
    ensures r.Some? ==> forall j :: 0 <= j < |s| ==> s[r.value] <= s[j]
    ensures r.Some? ==> forall j :: 0 <= j < r.value ==> s[r.value] < s[j]
  {
    if s == [] then None
    else
      var p := FirstMin(s[..|s| - 1]);
      if p.None? || s[|s| - 1] < s[p.value] then Some(|s| - 1) else p
  }

  /** The loop filling giniIndices: each feature's score, in catalogue order. */
  method FeatureScores(data: seq<Record>, cat: Catalogue) returns (scores: seq<real>)
    ensures scores == Scores(data, cat)
  {
    scores := [];
    for i := 0 to |cat|
      invariant |scores| == i
      invariant forall k :: 0 <= k < i ==> scores[k] == Score(data, cat[k].feature, cat[k].values)
    {
      var total := FeatureScore(data, cat[i].feature, cat[i].values);
      scores := scores + [total];
    }
  }

  /** The inner loop filling giniIndices: one feature's score, summed value by value. */
  method FeatureScore(data: seq<Record>, feature: string, values: seq<string>) returns (total: real)
    ensures total == Score(data, feature, values)
  {
    total := 0.0;
    for j := 0 to |values|
      invariant total == Score(data, feature, values[..j])
    {
      assert values[..j + 1][..j] == values[..j];
      var subset := CreateDataSubset(data, feature, values[j]);
      var g := CalculateGini(subset);
      total := total + g;
    }
    assert values[..|values|] == values;
  }

  /** The loop choosing bestFeature; None plays the source's null. */
  method SelectBestFeature(scores: seq<real>) returns (best: Option<nat>)
    ensures best == FirstMin(scores)
  {
    best := None;
    var minGini := 0.0;
    for i := 0 to |scores|
      invariant best == FirstMin(scores[..i])
      invariant best.Some? ==> best.value < i && minGini == scores[best.value]
    {
      assert scores[..i + 1][..i] == scores[..i];
      if best.None? || scores[i] < minGini {
        minGini := scores[i];
        best := Some(i);
      }
    }
    assert scores[..|scores|] == scores;
  }

  /** The catalogue without the entry for `feature`; every other entry kept, in order. */
  function Without(cat: Catalogue, feature: string): (r: Catalogue)
    ensures forall e :: e in r <==> e in cat && e.feature != feature
    ensures |r| <= |cat|
    ensures feature in Names(cat) ==> |r| < |cat|
  {
    if cat == [] then []
    else
      var p, e := cat[..|cat| - 1], cat[|cat| - 1];
      assert cat == p + [e];
      assert Names(cat) == Names(p) + [e.feature];
      var rest := Without(p, feature);
      if e.feature == feature then rest else rest + [e]
  }

  /** The loop building newFeatureKeyValues. */
  method WithoutFeature(cat: Catalogue, feature: string) returns (rest: Catalogue)
    ensures rest == Without(cat, feature)
  {
    rest := [];
    for i := 0 to |cat|
      invariant rest == Without(cat[..i], feature)
    {
      assert cat[..i + 1][..i] == cat[..i];
      if cat[i].feature != feature {
        rest := rest + [cat[i]];
      }
    }
    assert cat[..|cat|] == cat;
  }

  // ---------------------------------------------------------------------
  // Building

  /**
   * The tree constructTree builds for `data` and `cat`, or None where the
   * source throws: impure records with no feature left to split on leave
   * bestFeature null, and the loop over its values dereferences it.
   */
  function Induce(data: seq<Record>, cat: Catalogue): (t: Option<NodeValue>)
    ensures t.Some? ==> t.value.data == data && t.value.gini == Gini(data)
    ensures t.Some? && t.value.children != map[] ==> t.value.feature.Some?
    decreases |cat|, 1
  {
    var g := Gini(data);
    if g == 0.0 then Some(NodeValue(data, g, None, map[]))
    else
      var best := FirstMin(Scores(data, cat));
      if best.None? then None
      else
        var e := cat[best.value];
        assert Names(cat)[best.value] == e.feature;
        var rest := Without(cat, e.feature);
        if forall v :: v in e.values ==> Induce(Subset(data, e.feature, v), rest).Some? then
          Some(NodeValue(data, g, Some(e.feature), Children(data, e.feature, e.values, rest)))
        else None
  }

  /** The subtrees built for those of `values` whose construction succeeds, keyed by value. */
  function Children(data: seq<Record>, feature: string, values: seq<string>, rest: Catalogue): (c: map<string, NodeValue>)
    ensures forall v :: v in c ==> v in values && c[v].data == Subset(data, feature, v) && c[v].gini == Gini(c[v].data)
    decreases |rest|, 2
  {
    map v | v in values && Induce(Subset(data, feature, v), rest).Some? :: Induce(Subset(data, feature, v), rest).value
  }

  /** A prefix one longer is the shorter prefix and the next element. */
  lemma PrefixSnoc(values: seq<string>, j: nat)
    requires j < |values|
    ensures values[..j + 1] == values[..j] + [values[j]]
  {
  }

  /** Building one more value's subtree adds it to the children. */
  lemma ChildrenSnoc(data: seq<Record>, feature: string, values: seq<string>, v: string, rest: Catalogue)
    requires Induce(Subset(data, feature, v), rest).Some?
    ensures Children(data, feature, values + [v], rest)
         == Children(data, feature, values, rest)[v := Induce(Subset(data, feature, v), rest).value]
  {
  }

  /**
   * constructTree on a freshly made node: stores the impurity, stops on pure
   * data, otherwise splits on the best feature and builds one child per
   * catalogue value with that feature removed. `ok` is false where the source
   * throws; the node is then left part-built.
   */
  method ConstructTree(root: Node, cat: Catalogue) returns (ok: bool)
    requires root.Valid() && root.feature.None? && root.children == map[]
    modifies root
    ensures root.Valid() && fresh(root.Repr - old(root.Repr))
    ensures ok <==> Induce(root.data, cat).Some?
    ensures ok ==> root.Value == Induce(root.data, cat).value
    decreases |cat|, 1
  {
    var g := CalculateGini(root.data);
    root.SetGini(g);
    if g == 0.0 {
      assert root.Value == NodeValue(root.data, g, None, map[]);
      return true;
    }
    var scores := FeatureScores(root.data, cat);
    var best := SelectBestFeature(scores);
    if best.None? {
      // The lookup of the values of a null feature yields null, and the loop over it throws.
      assert Induce(root.data, cat) == None;
      return false;
    }
    var feature, values := cat[best.value].feature, cat[best.value].values;
    root.SetFeature(Some(feature));
    assert Names(cat)[best.value] == feature;
    var rest := WithoutFeature(cat, feature);
    ok := AddChildren(root, feature, values, rest);
    assert Induce(root.data, cat) ==
      if ok then Some(NodeValue(root.data, g, Some(feature), Children(root.data, feature, values, rest))) else None;
  }

  /**
   * The loop of constructTree that creates, builds and attaches one child per
   * value, stopping at the first child whose construction throws.
   */
  method AddChildren(root: Node, feature: string, values: seq<string>, rest: Catalogue) returns (ok: bool)
    requires root.Valid() && root.children == map[]
    modifies root`children, root`Repr, root`Value
    ensures root.Valid() && fresh(root.Repr - old(root.Repr))
    ensures ok <==> forall v :: v in values ==> Induce(Subset(root.data, feature, v), rest).Some?
    ensures ok ==> root.Value == old(root.Value).(children := Children(root.data, feature, values, rest))
    decreases |rest|, 4
  {
    ghost var start := root.Value;
    for j := 0 to |values|
      invariant root.Valid() && fresh(root.Repr - old(root.Repr))
      invariant forall v :: v in values[..j] ==> Induce(Subset(root.data, feature, v), rest).Some?
      invariant root.Value == start.(children := Children(root.data, feature, values[..j], rest))
    {
      var value := values[j];
      var built := BuildChild(root, feature, value, rest);
      if !built {
        assert value in values;
        return false;
      }
      PrefixSnoc(values, j);
      ChildrenSnoc(root.data, feature, values[..j], value, rest);
    }
    assert values[..|values|] == values;
    return true;
  }

  /** One iteration of that loop: the subset, the child node, its construction and its attachment. */
  method BuildChild(root: Node, feature: string, value: string, rest: Catalogue) returns (ok: bool)
    requires root.Valid()
    modifies root`children, root`Repr, root`Value
    ensures root.Valid() && fresh(root.Repr - old(root.Repr))
    ensures ok <==> Induce(Subset(root.data, feature, value), rest).Some?
    ensures ok ==> root.Value == old(root.Value).(children :=
                     old(root.Value).children[value := Induce(Subset(root.data, feature, value), rest).value])
    decreases |rest|, 3
  {
    var subset := CreateDataSubset(root.data, feature, value);
    var child := new Node(subset);
    ok := ConstructTree(child, rest);
    Unchanged(root);
    if ok {
      root.AddChild(value, child);
    }
  }

  // ---------------------------------------------------------------------
  // Prediction

  /** Position of the first key with the largest count; a later key must be strictly larger to win. */
  function FirstMax(keys: seq<string>, m: multiset<string>): (i: nat)
    requires |keys| > 0
    ensures i < |keys|
    ensures forall j :: 0 <= j < |keys| ==> m[keys[j]] <= m[keys[i]]
    ensures forall j :: 0 <= j < i ==> m[keys[j]] < m[keys[i]]
  {
    if |keys| == 1 then 0
    else
      var b := FirstMax(keys[..|keys| - 1], m);
      if m[keys[b]] < m[keys[|keys| - 1]] then |keys| - 1 else b
  }

  /** The first maximum of a longer prefix: the new key when strictly larger, else the old choice. */
  lemma FirstMaxStep(keys: seq<string>, m: multiset<string>, i: nat)
    requires i < |keys|
    ensures i == 0 ==> FirstMax(keys[..i + 1], m) == 0
    ensures i > 0 ==>
      var b := FirstMax(keys[..i], m);
      FirstMax(keys[..i + 1], m) == if m[keys[b]] < m[keys[i]] then i else b
  {
    assert keys[..i + 1][..i] == keys[..i];
  }

  /** The majority label: the first-seen label of largest count, or None for no records. */
  function MajorityLabel(data: seq<Record>): (l: Option<string>)
    ensures l.None? <==> data == []
    ensures l.Some? ==> l.value in Labels(data)
  {
    var ls := Labels(data);
    var keys := Distinct(ls);
    if keys == [] then None else Some(keys[FirstMax(keys, multiset(ls))])
  }

  /** getMajorityVoteFromData: count the labels, then keep the first of largest count. */
  method MajorityVote(data: seq<Record>) returns (res: Option<string>)
    ensures res == MajorityLabel(data)
  {
    var keys, counts := CountLabels(data);
    ghost var m := multiset(Labels(data));
    var maxCount := 0;
    res := None;
    ghost var best: nat := 0;
    for i := 0 to |keys|
      invariant i == 0 ==> res == None && maxCount == 0
      invariant i > 0 ==> best < i && best == FirstMax(keys[..i], m) && res == Some(keys[best]) && maxCount == m[keys[best]]
    {
      FirstMaxStep(keys, m, i);
      var l := keys[i];
      assert l in Labels(data);
      assert counts[l] == m[l] && m[l] >= 1;
      if maxCount < counts[l] {
        maxCount := counts[l];
        res := Some(l);
        best := i;
      }
    }
    assert keys[..|keys|] == keys;
  }

  /**
   * The label predict returns for `r`: follow, from each node, the child under
   * r's value for the node's feature; at the first childless node, take the
   * majority label of its records. None when no child matches.
   */
  function Classify(r: Record, t: NodeValue): (res: Option<string>)
    ensures t.children == map[] ==> (res.Some? <==> t.data != [])
  {
    if t.children == map[] then MajorityLabel(t.data)
    else if t.feature.Some? && t.feature.value in r.attributes && r.attributes[t.feature.value] in t.children then
      Classify(r, t.children[r.attributes[t.feature.value]])
    else None
  }

  /**
   * predict: a breadth-first walk from the root. The queue never holds more
   * than one node, since at most one child's key equals the record's value.
   */
  method Predict(r: Record, root: Node) returns (res: Option<string>)
    requires root.Valid()
    ensures res == Classify(r, root.Value)
  {
    ghost var target := Classify(r, root.Value);
    var queue := [root];
    while queue != []
      invariant |queue| <= 1
      invariant queue != [] ==> queue[0].Valid() && Classify(r, queue[0].Value) == target
      invariant queue == [] ==> target == None
      decreases if queue == [] then {} else queue[0].Repr
    {
      var current := queue[0];
      queue := queue[1..];
      if current.children == map[] {
        res := MajorityVote(current.data);
        return;
      }
      var f := current.feature;
      if f.Some? && f.value in r.attributes && r.attributes[f.value] in current.children {
        var value := r.attributes[f.value];
        current.ChildOf(value);
        queue := queue + [current.children[value]];
      }
    }
    res := None;
  }
}
