# Decision tree learner — a Dafny model

This project models the core of a small Java learner. The learner builds a
decision tree from labelled records with the Gini impurity rule, and then
uses the tree to predict labels.

- A *record* has a label and a map from feature names to values.
- A *catalogue* (`featureKeyValues` in the source) maps each feature to
  the values it was seen with.
- The loader (`constructRecords`) decodes coded data lines into records. It
  fills the catalogue as it goes, using `extractFeatureFromString` to read a
  feature's name and values from its description.
- The builder (`constructTree`) works on a node in place:
  - it stores the node's impurity, and stops if the records are pure;
  - otherwise it scores every feature by the sum of the impurities of the
    subsets, one subset per value;
  - it splits on the feature with the least score, and builds one child per
    value of that feature over the catalogue without it.
- The predictor (`predict`) walks from the root, following the child whose
  key is the record's value for the node's feature. At the first childless
  node it returns the majority label of that node's records.

Layout:

- `wrappers.dfy`: `Option`, `Result` and the Java exceptions the core can
  raise.
- `data.dfy`: records and the catalogue.
- `impurity.dfy`: `Gini.java`.
- `node.dfy`: `Node.java`, as a class whose ghost `Value` is the tree the
  node stands for.
- `tree.dfy`: `Tree.java`. The builder is the method `ConstructTree`, proved
  equal to the function `Induce`. Prediction is `Predict`, proved equal to
  `Classify`.
- `tree_props.dfy`: properties of the trees `Induce` builds and of
  `Classify`.
- `ingest.dfy`: the decoding part of `Main.java`.

How the Java maps to Dafny:

- Java `HashMap` iteration order becomes first-insertion order. This covers
  the label counts, the catalogue and the order of feature scores.
- Ties are broken as the source breaks them in that order:
  - the first feature of strictly least score wins;
  - the first label of strictly greatest count wins.
- The builder throws a `NullPointerException` when records are impure and no
  feature is left to split on. It throws because `bestFeature` stays null and
  the loop over that feature's values dereferences null. The model returns
  `None` from `Induce` and `false` from `ConstructTree` in that case.
  `TreeProps.InduceEmptyCatalogue` says exactly when this happens.

## Model

| member | source | states |
|---|---|---|
| `Impurity.Distinct` | src/Gini.java:24-30 | The key set of the label count: no label twice, and exactly the labels that occur. |
| `Impurity.CountLabels` | src/Gini.java:24-30 | The keys are the distinct labels in first-seen order. Each key maps to its number of occurrences, and nothing else is a key. |
| `Impurity.CountsSumToSize` | src/Gini.java:24-30 | Every counted label occurs at least once, and the counts add up to the number of records. |
| `Impurity.Gini` | src/Gini.java:18-39 | The impurity of a record list, as a function: never above 1, for any records. |
| `Impurity.CalculateGini` | src/Gini.java:18-39 | Returns the impurity: 0.0 for no records, otherwise 1 minus the sum over labels of the squared relative frequency. |
| `Impurity.GiniFromCounts` | src/Gini.java:32-36 | For records present, the impurity is 1 minus the sum of squared label counts over n². |
| `Impurity.GiniBounds` | src/Gini.java:18-39 | The impurity lies in [0, 1). |
| `Impurity.GiniPositive` | src/Gini.java:32-36 | Two or more distinct labels make the impurity strictly positive. |
| `Impurity.GiniOfPure` | src/Gini.java:32-36 | Non-empty records with one label have impurity 0. |
| `Impurity.GiniZeroIffPure` | src/Gini.java:18-39 | The impurity is 0 exactly when all records share one label, which holds vacuously for no records. This is the builder's stopping test. |
| `Impurity.GiniEqualFrequencies` | src/Gini.java:32-36 | K labels occurring equally often give impurity 1 − 1/K. |
| `Impurity.SquareSumPermutation` | src/Gini.java:34-36 | Summing the squared counts over any repeat-free listing of the same labels gives the same total, so the map's iteration order does not matter. |
| `Impurity.GiniDependsOnlyOnLabels` | src/Gini.java:24-36 | Records with the same multiset of labels have the same impurity, whatever their order and attributes. |
| `Nodes.Node.constructor` | src/Node.java:16-20 | The node holds the given records, impurity 0, no feature and no children. Its value is that leaf. |
| `Nodes.Node.SetFeature` | src/Node.java:26-28 | The feature becomes the argument and nothing else changes. |
| `Nodes.Node.SetGini` | src/Node.java:38-40 | The impurity becomes the argument and nothing else changes. |
| `Nodes.Node.AddChild` | src/Node.java:42-44 | The child is put under the value, replacing any child there; other children are kept. The subtree stays valid and its value gains the child's value. |
| `Nodes.Node.ChildOf` | src/Node.java:46-48 | A child of a valid node is a valid, strictly smaller subtree, whose value is the node value's child under the same key. |
| `Tree.Subset` | src/Tree.java:70-82 | The result has no more records than the input, and holds exactly the input's records that have the attribute with the given value. |
| `Tree.CreateDataSubset` | src/Tree.java:70-82 | The filtering loop computes `Subset`. |
| `Tree.Score` | src/Tree.java:28-32 | A feature's score is the sum of its values' subset impurities. It lies between 0 and the feature's number of values. |
| `Tree.FeatureScore` | src/Tree.java:28-32 | The inner loop sums, value by value, the impurity of each value's subset. |
| `Tree.FeatureScores` | src/Tree.java:26-33 | The outer loop returns `Tree.Scores`, the model of the `giniIndices` map: one score per catalogue entry, in catalogue order, each that entry's `Score`. |
| `Tree.FirstMin` | src/Tree.java:36-43 | None exactly for no scores. Otherwise, a position whose score is no greater than any other and strictly less than every earlier one. |
| `Tree.SelectBestFeature` | src/Tree.java:36-43 | The loop that starts from +infinity and keeps only strict improvements picks `FirstMin`, or null when there are no features. |
| `Tree.Without` | src/Tree.java:47-52 | Exactly the entries of other features are kept, and removing a present feature shortens the catalogue. |
| `Tree.WithoutFeature` | src/Tree.java:47-52 | The copying loop computes `Without`. |
| `Tree.Induce` | src/Tree.java:18-60 | The tree the builder makes, or None where the source throws. A built root holds the given records and their impurity, and a root with children has a split feature. |
| `Tree.Children` | src/Tree.java:53-58 | The children of a split: each key is one of the feature's values, and its child holds that value's subset of the records with that subset's impurity. |
| `Tree.ConstructTree` | src/Tree.java:18-60 | Succeeds exactly when `Induce` does, and the node's subtree is then the tree `Induce` describes. The subtree stays valid, with new nodes only. |
| `Tree.AddChildren` | src/Tree.java:53-58 | Succeeds exactly when every value's child builds, and then the children are exactly those subtrees, keyed by value. |
| `Tree.BuildChild` | src/Tree.java:55-57 | One loop iteration: it succeeds exactly when the value's subtree builds, and then attaches that subtree under the value. |
| `Tree.MajorityLabel` | src/Tree.java:114-132 | The majority vote as a function: no label exactly for no records, and otherwise a label that occurs among them. |
| `Tree.FirstMax` | src/Tree.java:123-130 | A position whose count is no smaller than any other, and strictly greater than every earlier one. |
| `Tree.MajorityVote` | src/Tree.java:114-132 | Counting, then keeping the first strictly larger count, returns `MajorityLabel`. |
| `Tree.Classify` | src/Tree.java:91-106 | The label the walk returns from a node. At a childless node there is an answer exactly when the node holds records. |
| `Tree.Predict` | src/Tree.java:91-106 | The queue walk returns `Classify` of the root's value. |
| `TreeProps.SubsetAppend` | src/Tree.java:73-80 | Filtering a concatenation concatenates the filtered parts, so the record order is kept. |
| `TreeProps.SubsetSingle` | src/Tree.java:77-79 | One record survives the filter exactly when it carries the value. |
| `TreeProps.ScoreRemove` | src/Tree.java:29-32 | A feature's score is its score without any one of its values plus that value's subset impurity. |
| `TreeProps.ScorePermutation` | src/Tree.java:29-32 | The order in which the values of a `HashSet` are visited does not change the score: any two listings of the same values give the same sum. |
| `TreeProps.InduceSplit` | src/Tree.java:25-58 | A built tree over impure records splits on the first least-scored entry. It has a successfully built child for every value, over a strictly smaller catalogue without that feature. |
| `TreeProps.ChildrenOfSplit` | src/Tree.java:53-58 | After a successful split, the children's keys are exactly the feature's values, and each child is the tree built from that value's subset. |
| `TreeProps.InduceStops` | src/Tree.java:19-23 | Pure records give a leaf that holds them, with impurity 0. Impure records that build always split on a feature. |
| `TreeProps.InduceEmptyCatalogue` | src/Tree.java:36-54 | With no feature left, building succeeds exactly on pure records. |
| `TreeProps.FeaturesWithout` | src/Tree.java:47-52 | The reduced catalogue has exactly the old features minus the chosen one. |
| `TreeProps.InduceConsistent` | src/Tree.java:18-60 | The root holds the given records. At every node the stored impurity is that of its records, a node with children has a feature, and each child holds its parent's records with that value. |
| `TreeProps.InduceFeatures` | src/Tree.java:45-58 | Every split feature comes from the catalogue, and none repeats along a path. |
| `TreeProps.InduceHeight` | src/Tree.java:45-58 | No path has more splits than the catalogue has features. |
| `TreeProps.InduceLeavesPure` | src/Tree.java:18-60 | When every feature lists a value, every leaf of a built tree holds records of a single label. |
| `TreeProps.MajorityLabelSpec` | src/Tree.java:114-132 | No label exactly for no records. Otherwise the label occurs among the records, no label is more frequent, and it is the first such in first-seen order. |
| `TreeProps.MajorityOfPure` | src/Tree.java:114-132 | For records that all share a label, the majority vote is that label. |
| `TreeProps.FitsTrainingData` | src/Tree.java:91-106 | A built tree predicts each training record's own label, provided the catalogue lists that record's value of every feature. |
| `TreeProps.PredictionOccurs` | src/Tree.java:91-106 | Any label a built tree predicts is the label of one of its training records. |
| `Ingest.Split` | src/Main.java:125 | `String.split` on one separator character. A string without the separator is its own single piece. Otherwise the result is the pieces between separators up to the last non-empty one: a prefix of `Pieces`, ending in a non-empty piece, after which every piece is empty. |
| `Ingest.Pieces` | src/Main.java:125 | The pieces between separators, trailing empty ones included: at least one piece, none containing the separator. |
| `Ingest.JoinPieces` | src/Main.java:125 | Gluing the pieces back together with the separator gives the original string, so the pieces are exactly the text between separators. |
| `Ingest.PiecesJoin` | src/Main.java:125 | Conversely, a non-empty list of pieces without the separator, glued with it, splits back into the same list. |
| `Ingest.TrimTrailing` | src/Main.java:125 | Drops exactly the trailing empty pieces: the result is a prefix that ends in a non-empty piece or is empty, and everything dropped is empty. |
| `Ingest.ExtractFeature` | src/Main.java:124-135 | On success there are one or two values, and the last one is a single character. The only failures are the array and string index exceptions the source raises. |
| `Ingest.ExtractName` | src/Main.java:125-126 | On success the string contains `-`, and the name is the text before the first `-`. |
| `Ingest.ExtractWithoutDash` | src/Main.java:125-133 | A description without `-` fails on the missing second piece. |
| `Ingest.ExtractTwoPieces` | src/Main.java:131-133 | `name-v`, followed by any number of dashes, gives the name and one value, the first character of `v`. |
| `Ingest.ExtractThreePieces` | src/Main.java:128-130 | `name-a-b`, followed by nothing or by text starting with a dash, gives the name and two values: `a`, and the first character of `b`. |
| `Ingest.ExtractFourPieces` | src/Main.java:128-130 | `name-a-b-c` gives the same as `name-a-b`: pieces after the third are ignored. |
| `Ingest.ExtractNoValue` | src/Main.java:125-133 | `name-` followed by any run of dashes (`n-`, `n--`, …) fails on the missing second piece, because the split drops every trailing empty piece. |
| `Ingest.ExtractEmptyThird` | src/Main.java:128-130 | `name-a--rest`, where `rest` holds any character other than `-` (`n-a--b`, `n-a---b`, …), fails taking the first character of the empty third piece, which the trimming keeps. |
| `Ingest.DecodeToken` | src/Main.java:73-79 | On success the token's feature code is in the lookup table, its description parses, and the pair is that feature's name and one of its values. A null-pointer failure happens exactly when the code is missing. |
| `Ingest.SelectValue` | src/Main.java:76-79 | The second value when there are two and the code is not -1, otherwise the first; the result is always one of the values. |
| `Ingest.Insert` | src/Main.java:84 | Adding to a value set: the result lists exactly the old values plus the new one, without repeats if there were none. |
| `Ingest.AddValue` | src/Main.java:81-84 | The catalogue keeps its length, or gains one entry. |
| `Ingest.LookupAddValue` | src/Main.java:81-84 | Only the entry of the given feature changes. That entry is created if missing, and gains the value. |
| `Ingest.ListsAddValue` | src/Main.java:81-84 | After adding, the catalogue lists exactly what it listed before, plus the value under the feature. |
| `Ingest.NamesAddValue` | src/Main.java:81-83 | The feature order is unchanged when the feature is known; a new feature is appended. |
| `Ingest.AddValueWellFormed` | src/Main.java:81-84 | Adding keeps feature names unique and value sets free of repeats. |
| `Ingest.AddValueNonEmpty` | src/Main.java:81-84 | Adding keeps every feature's value set non-empty. |
| `Ingest.DecodeTokens` | src/Main.java:72-85 | Decoding a line's tokens: on success every attribute given beforehand is still a key, and the catalogue never shrinks. |
| `Ingest.DecodeTokensOk` | src/Main.java:72-85 | A line decodes exactly when each of its tokens does. |
| `Ingest.DecodeTokensCatalogue` | src/Main.java:72-85 | Decoding a line, even one that fails, only adds to the catalogue, and keeps it well formed and non-empty. |
| `Ingest.DecodeTokensListed` | src/Main.java:72-85 | On success, every attribute of the line is listed in the catalogue under its feature. |
| `Ingest.DecodeTokensAttributes` | src/Main.java:72-85 | On success, the keys are exactly the earlier attributes plus the decoded features. Each decoded feature holds the value of the last token that names it, and other attributes keep their values. |
| `Ingest.DecodeLines` | src/Main.java:67-87 | Decoding all lines: on success one record is added per line, and the catalogue never shrinks. |
| `Ingest.DecodeLinesOk` | src/Main.java:67-87 | The lines decode exactly when all their tokens do. |
| `Ingest.DecodeLinesCatalogue` | src/Main.java:67-87 | Decoding lines only adds to the catalogue, and keeps it well formed and non-empty. |
| `Ingest.DecodeLinesRecords` | src/Main.java:67-87 | On success there is one record per line, in order, labelled from the line's label code. Its attributes are exactly the features its tokens decode to, each with the value of the last token naming it. |
| `Ingest.DecodeLinesListed` | src/Main.java:67-87 | On success, every record's attributes are listed by the final catalogue. |
| `Ingest.Loader.constructor` | src/Main.java:16-29 | The lookup tables as read, and an empty catalogue. |
| `Ingest.Loader.ConstructRecords` | src/Main.java:65-89 | The nested loops return the decoded records, or the first exception, and leave the catalogue as `DecodeLines` describes. |

## Left out

- Reading files (`readData`), `main`, logging and the final percentage score are I/O around the core. Data lines come in already tokenised: a label code and `feature:code` tokens as integers.
- The splitting of a data line on spaces and of a token on `:`, and `Integer.parseInt`, are not modelled. Neither are the exceptions they raise on a malformed token, such as a token without `:`.
- Java's regular-expression `split` is modelled only for the single literal separator `-` that the feature descriptions use. That includes dropping trailing empty pieces.
- Ingest.ExtractFeature: `substring(0, 1)` takes the first UTF-16 code unit, while the model takes the first character. The two differ for characters outside the Basic Multilingual Plane, which Java stores as two code units.
- Impurities are exact reals rather than `double`s, and `Math.pow(x, 2)` is `x * x`. Rounding could break ties differently in the source.
- `HashMap` and `HashSet` iteration orders are unspecified in Java and are modelled as first-insertion order. This affects which feature wins a tied score, which label wins a tied vote, and the order of the records `constructRecords` returns.
- The `Tuple` helper class is a Dafny pair. The getters of `Node` and `Record` are field reads.
- Records are values, so reference identity and aliasing of records, and of attribute maps, are not modelled.
- Ingest.Loader.ConstructRecords: requires every label code to be in the label table. The source would store a null label for a missing code.
- Tree.ConstructTree: requires a fresh node, with no feature and no children, which is how the source calls it. When it fails, it does not say how far the node was built before the exception.
- Tree.Predict: looks up the matching child with one map lookup instead of scanning every child entry. Map keys are unique, so the scan finds at most that child.
