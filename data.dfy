/**
 * The data model shared by the learner and the decoder: records (Record.java)
 * and the feature catalogue, the feature -> values map that the decoder
 * accumulates and the builder consumes.
 */
module Data {
  import opened Wrappers

  /**
   * A labelled record; `category` is the label (getLabel). Both fields are fixed at construction; a feature maps
   * to at most one value, and may be absent.
   */
  datatype Record = Record(category: string, attributes: map<string, string>)

  /** The labels of `data`, in order. */
  function Labels(data: seq<Record>): (ls: seq<string>)
    ensures |ls| == |data|
    ensures forall i :: 0 <= i < |data| ==> ls[i] == data[i].category
  {
    seq(|data|, i requires 0 <= i < |data| => data[i].category)
  }

  /** One catalogue entry: a feature and the values it was seen with. */
  datatype Entry = Entry(feature: string, values: seq<string>)

  /**
   * The catalogue, in a fixed iteration order. The source keeps a
   * HashMap<String, Set<String>>, whose iteration order is unspecified.
   */
  type Catalogue = seq<Entry>

  predicate NoDups<T(==)>(s: seq<T>)
  {
    forall i, j :: 0 <= i < j < |s| ==> s[i] != s[j]
  }

  /** The feature names of a catalogue, in order. */
  function Names(cat: Catalogue): (ns: seq<string>)
    ensures |ns| == |cat|
    ensures forall i :: 0 <= i < |cat| ==> ns[i] == cat[i].feature
  {
    seq(|cat|, i requires 0 <= i < |cat| => cat[i].feature)
  }

  /** What the source's map-of-sets type guarantees: unique keys, sets without repeats. */
  predicate WellFormed(cat: Catalogue)
  {
    NoDups(Names(cat)) && forall i :: 0 <= i < |cat| ==> NoDups(cat[i].values)
  }

  /** The catalogue lists at least one value for every feature. */
  predicate ValuesNonEmpty(cat: Catalogue)
  {
    forall e :: e in cat ==> e.values != []
  }

  /** The values listed for `feature`, if the catalogue has an entry for it. */
  function Lookup(cat: Catalogue, feature: string): (r: Option<seq<string>>)
    ensures r.Some? <==> feature in Names(cat)
    ensures r.Some? ==> exists i :: 0 <= i < |cat| && cat[i] == Entry(feature, r.value)
  {
    if cat == [] then None
    else if cat[0].feature == feature then Some(cat[0].values)
    else Lookup(cat[1..], feature)
  }

  /** The catalogue lists `value` for `feature`. */
  predicate Lists(cat: Catalogue, feature: string, value: string)
  {
    Lookup(cat, feature).Some? && value in Lookup(cat, feature).value
  }
}
