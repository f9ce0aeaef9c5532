/**
 * Tree nodes (Node.java). A node holds the records that reached it, their
 * impurity, the feature it splits on and its children keyed by that feature's
 * values. The builder fills a node in place through its setters.
 */
module Nodes {
  import opened Wrappers
  import opened Data

  /** The value a node stands for; `feature` is None while unset (null in the source). */
  datatype NodeValue = NodeValue(
    data: seq<Record>,
    gini: real,
    feature: Option<string>,
    children: map<string, NodeValue>)

  class Node {
    /** Set once, by the constructor (getData). */
    const data: seq<Record>
    var gini: real
    var feature: Option<string>
    var children: map<string, Node>
    /** The objects of this subtree. */
    ghost var Repr: set<object>
    /** The value of the subtree rooted here. */
    ghost var Value: NodeValue

    /**
     * The node owns its children's subtrees, no child's subtree contains the
     * node, and the value holds the node's fields and its children's values.
     */
    ghost predicate Valid()
      reads this, Repr
      decreases Repr
    {
      && this in Repr
      && Value.data == data && Value.gini == gini && Value.feature == feature
      && Value.children.Keys == children.Keys
      && forall v :: v in children ==>
           && children[v] in Repr
           && children[v].Repr <= Repr
           && this !in children[v].Repr
           && children[v].Valid()
           && children[v].Value == Value.children[v]
    }

    /** The child under `v` is a valid subtree, strictly inside this one, whose value is the value's child under `v`. */
    lemma ChildOf(v: string)
      requires Valid() && v in children
      ensures children[v].Valid() && children[v].Repr < Repr
      ensures v in Value.children && Value.children[v] == children[v].Value
    {
    }

    /** A node holding `data`, impurity 0, no feature and no children. */
    constructor (data: seq<Record>)
      ensures this.data == data && gini == 0.0 && feature == None && children == map[]
      ensures Valid() && Repr == {this}
      ensures Value == NodeValue(data, 0.0, None, map[])
    {
      this.data := data;
      gini := 0.0;
      feature := None;
      children := map[];
      Repr := {this};
      Value := NodeValue(data, 0.0, None, map[]);
    }

    /** Sets the split feature; nothing else changes. */
    method SetFeature(f: Option<string>)
      requires Valid()
      modifies this`feature, this`Value
      ensures Valid() && feature == f
      ensures Value == old(Value).(feature := f)
    {
      feature := f;
      Value := Value.(feature := f);
    }

    /** Sets the impurity; nothing else changes. */
    method SetGini(g: real)
      requires Valid()
      modifies this`gini, this`Value
      ensures Valid() && gini == g
      ensures Value == old(Value).(gini := g)
    {
      gini := g;
      Value := Value.(gini := g);
    }

    /** Puts `n` under `value`, replacing any child there; other children are kept. */
    method AddChild(value: string, n: Node)
      requires Valid() && n.Valid() && this !in n.Repr
      modifies this`children, this`Repr, this`Value
      ensures Valid()
      ensures children == old(children)[value := n]
      ensures Repr == old(Repr) + n.Repr
      ensures Value == old(Value).(children := old(Value).children[value := n.Value])
    {
      children := children[value := n];
      Repr := Repr + n.Repr;
      Value := Value.(children := Value.children[value := n.Value]);
      forall v | v in children
        ensures children[v] in Repr && children[v].Repr <= Repr && this !in children[v].Repr
        ensures children[v].Valid() && children[v].Value == Value.children[v]
      {
        var c := children[v];
        assert old(c.Valid()) && this !in old(c.Repr) by {
          if v != value {
            assert c == old(children)[v];
          }
        }
        Unchanged(c);
      }
    }
  }

  /** A subtree none of whose objects changed is still valid. */
  twostate lemma Unchanged(c: Node)
    requires old(c.Valid()) && unchanged(old(c.Repr))
    ensures c.Valid() && c.Repr == old(c.Repr) && c.Value == old(c.Value)
  {
    assert c in old(c.Repr);
  }
}
