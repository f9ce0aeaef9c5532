/**
 * The record decoder of Main.java: feature strings of the form
 * `name-value[-value]` from the feature-names table, the choice of a value by
 * an integer code, and the loop that turns coded lines into records while
 * accumulating the feature catalogue.
 */
module Ingest {
  import opened Wrappers
  import opened Data

  // ---------------------------------------------------------------------
  // String.split on a single-character separator

  /** Position of the first occurrence of `c` in `s`. */
  function IndexOf(s: string, c: char): (k: nat)
    requires c in s
    ensures k < |s| && s[k] == c && c !in s[..k]
  {
    if s[0] == c then 0
    else
      assert s == [s[0]] + s[1..];
      var k := IndexOf(s[1..], c);
      assert s[..k + 1] == [s[0]] + s[1..][..k];
      k + 1
  }

  /** The pieces glued back together, with `sep` between neighbours. */
  function Join(ps: seq<string>, sep: char): string
  {
    if |ps| == 0 then ""
    else if |ps| == 1 then ps[0]
    else ps[0] + [sep] + Join(ps[1..], sep)
  }

  /** The pieces of `s` between occurrences of `sep`, empty pieces included: one more piece than separators. */
  function Pieces(s: string, sep: char): (ps: seq<string>)
    ensures |ps| >= 1
    ensures forall i :: 0 <= i < |ps| ==> sep !in ps[i]
    decreases |s|
  {
    if sep !in s then [s]
    else
      var k := IndexOf(s, sep);
      [s[..k]] + Pieces(s[k + 1..], sep)
  }

  /** Gluing the pieces back together with `sep` gives the string again. */
  lemma {:induction false} JoinPieces(s: string, sep: char)
    ensures Join(Pieces(s, sep), sep) == s
    decreases |s|
  {
    if sep in s {
      var k := IndexOf(s, sep);
      var rest := Pieces(s[k + 1..], sep);
      JoinPieces(s[k + 1..], sep);
      assert ([s[..k]] + rest)[1..] == rest;
      assert s == s[..k] + [sep] + s[k + 1..];
    }
  }

  /** Pieces without `sep`, glued with `sep`, split back into the same pieces. */
  lemma {:induction false} PiecesJoin(ps: seq<string>, sep: char)
    requires ps != []
    requires forall i :: 0 <= i < |ps| ==> sep !in ps[i]
    ensures Pieces(Join(ps, sep), sep) == ps
    decreases |ps|
  {
    if |ps| > 1 {
      var tail := Join(ps[1..], sep);
      var j := ps[0] + [sep] + tail;
      PiecesJoin(ps[1..], sep);
      assert j[|ps[0]|] == sep && j[..|ps[0]|] == ps[0];
      assert IndexOf(j, sep) == |ps[0]|;
      assert j[|ps[0]| + 1..] == tail;
      assert [ps[0]] + ps[1..] == ps;
    }
  }

  /** Drops the empty pieces at the end. */
  function TrimTrailing(ps: seq<string>): (r: seq<string>)
    ensures |r| <= |ps| && r == ps[..|r|]
    ensures r != [] ==> r[|r| - 1] != ""
    ensures forall i :: |r| <= i < |ps| ==> ps[i] == ""
  {
    if ps != [] && ps[|ps| - 1] == "" then TrimTrailing(ps[..|ps| - 1]) else ps
  }

  /**
   * Java's `s.split(sep)` for a separator that is not a regular-expression
   * metacharacter: the string itself when `sep` does not occur, otherwise the
   * pieces without the trailing empty ones.
   */
  function Split(s: string, sep: char): (r: seq<string>)
    ensures forall i :: 0 <= i < |r| ==> sep !in r[i]
    ensures sep !in s ==> r == [s]
    ensures sep in s ==> && |r| <= |Pieces(s, sep)| && r == Pieces(s, sep)[..|r|]
                         && (r != [] ==> r[|r| - 1] != "")
                         && forall i :: |r| <= i < |Pieces(s, sep)| ==> Pieces(s, sep)[i] == ""
  {
    if sep !in s then [s] else TrimTrailing(Pieces(s, sep))
  }

  // ---------------------------------------------------------------------
  // extractFeatureFromString

  /**
   * The feature name and its values: the second piece whole and the first
   * character of the third when there are more than two pieces, the first
   * character of the second otherwise. A missing piece is an array index
   * error and an empty piece a substring error.
   */
  function ExtractFeature(s: string): (r: Result<(string, seq<string>)>)
    ensures r.Ok? ==> 1 <= |r.value.1| <= 2 && |r.value.1[|r.value.1| - 1]| == 1
    ensures r.Err? ==> r.error == ArrayIndexOutOfBounds || r.error == StringIndexOutOfBounds
  {
    var split := Split(s, '-');
    if |split| == 0 then Err(ArrayIndexOutOfBounds)
    else if |split| > 2 then
      if split[2] == "" then Err(StringIndexOutOfBounds)
      else Ok((split[0], [split[1], split[2][..1]]))
    else if |split| < 2 then Err(ArrayIndexOutOfBounds)
    else if split[1] == "" then Err(StringIndexOutOfBounds)
    else Ok((split[0], [split[1][..1]]))
  }

  /** The name is the text before the first `-`, which must occur. */
  lemma ExtractName(s: string)
    requires ExtractFeature(s).Ok?
    ensures '-' in s
    ensures ExtractFeature(s).value.0 == s[..IndexOf(s, '-')]
  {
    var ps := Pieces(s, '-');
    var k := IndexOf(s, '-');
    assert ps[0] == s[..k];
    assert TrimTrailing(ps)[0] == ps[0];
  }

  /** With no `-` there is no second piece. */
  lemma ExtractWithoutDash(s: string)
    requires '-' !in s
    ensures ExtractFeature(s) == Err(ArrayIndexOutOfBounds)
  {
  }

  /** Splitting `n-rest`, for a name without `-`, gives the name and then the pieces of `rest`. */
  lemma PiecesAfterName(n: string, rest: string)
    requires '-' !in n
    ensures Pieces(n + "-" + rest, '-') == [n] + Pieces(rest, '-')
  {
    var s := n + "-" + rest;
    assert s[|n|] == '-';
    assert s[..|n|] == n;
    var k := IndexOf(s, '-');
    assert k == |n|;
    assert s[k + 1..] == rest;
  }

  /** Trimming keeps every piece up to the last non-empty one. */
  lemma TrimKeeps(ps: seq<string>, k: nat)
    requires 0 < k <= |ps| && ps[k - 1] != ""
    ensures k <= |TrimTrailing(ps)| && TrimTrailing(ps)[..k] == ps[..k]
  {
  }

  /** Trimming stops at the last non-empty piece. */
  lemma TrimExact(ps: seq<string>, k: nat)
    requires 0 < k <= |ps| && ps[k - 1] != ""
    requires forall i :: k <= i < |ps| ==> ps[i] == ""
    ensures TrimTrailing(ps) == ps[..k]
  {
  }

  /** A run of `-` splits into empty pieces only. */
  lemma {:induction false} PiecesOfDashes(t: string)
    requires forall i :: 0 <= i < |t| ==> t[i] == '-'
    ensures Pieces(t, '-') == seq(|t| + 1, _ => "")
    decreases |t|
  {
    if t != "" {
      PiecesOfDashes(t[1..]);
      PiecesAfterName("", t[1..]);
      assert "" + "-" + t[1..] == t;
    }
  }

  /** A piece without `-`, then a run of `-`: the piece and one empty piece per `-`. */
  lemma PiecesThenDashes(v: string, t: string)
    requires '-' !in v
    requires forall i :: 0 <= i < |t| ==> t[i] == '-'
    ensures Pieces(v + t, '-') == [v] + seq(|t|, _ => "")
  {
    if t == "" {
      assert v + t == v;
    } else {
      PiecesOfDashes(t[1..]);
      PiecesAfterName(v, t[1..]);
      assert v + t == v + "-" + t[1..];
    }
  }

  /** The pieces of `name-v` followed by a run of `-`. */
  lemma PiecesTwo(n: string, v: string, t: string)
    requires '-' !in n && '-' !in v
    requires forall i :: 0 <= i < |t| ==> t[i] == '-'
    ensures Pieces(n + "-" + v + t, '-') == [n, v] + seq(|t|, _ => "")
  {
    var u, d := v + t, seq(|t|, _ => "");
    assert Pieces(u, '-') == [v] + d by {
      PiecesThenDashes(v, t);
    }
    assert Pieces(n + "-" + u, '-') == [n] + ([v] + d) by {
      PiecesAfterName(n, u);
    }
    assert n + "-" + v + t == n + "-" + u;
    assert [n] + ([v] + d) == [n, v] + d;
  }

  /** `name-v`, then any run of `-`: the trailing empty pieces are dropped, leaving one value, the first character of `v`. */
  lemma ExtractTwoPieces(n: string, v: string, t: string)
    requires '-' !in n && '-' !in v && v != ""
    requires forall i :: 0 <= i < |t| ==> t[i] == '-'
    ensures ExtractFeature(n + "-" + v + t) == Ok((n, [v[..1]]))
  {
    var s := n + "-" + v + t;
    PiecesTwo(n, v, t);
    assert '-' in s by {
      assert s[|n|] == '-';
    }
    TrimExact(Pieces(s, '-'), 2);
  }

  /** A piece without `-`, followed by nothing or by a `-` and more, is the first piece. */
  lemma FirstPiece(b: string, t: string)
    requires '-' !in b
    requires t == "" || t[0] == '-'
    ensures Pieces(b + t, '-')[0] == b
  {
    if t == "" {
      assert b + t == b;
    } else {
      PiecesAfterName(b, t[1..]);
      assert b + t == b + "-" + t[1..];
    }
  }

  /** `name-a-b...` regrouped around its first `-`, then its second. */
  lemma RegroupThree(n: string, a: string, b: string, t: string)
    ensures n + "-" + a + "-" + b + t == n + "-" + (a + "-" + (b + t))
  {
  }

  /** The first three pieces of `name-a-b`, followed by nothing or by a `-` and more. */
  lemma PiecesThree(n: string, a: string, b: string, t: string)
    requires '-' !in n && '-' !in a && '-' !in b
    requires t == "" || t[0] == '-'
    ensures var ps := Pieces(n + "-" + a + "-" + b + t, '-');
      3 <= |ps| && ps[..3] == [n, a, b]
  {
    var u := a + "-" + (b + t);
    FirstPiece(b, t);
    PiecesAfterName(a, b + t);
    PiecesAfterName(n, u);
    RegroupThree(n, a, b, t);
  }

  /**
   * `name-a-b`, then nothing or further pieces after a `-`: two values, `a`
   * whole and the first character of `b`; later pieces are ignored.
   */
  lemma ExtractThreePieces(n: string, a: string, b: string, t: string)
    requires '-' !in n && '-' !in a && '-' !in b && b != ""
    requires t == "" || t[0] == '-'
    ensures ExtractFeature(n + "-" + a + "-" + b + t) == Ok((n, [a, b[..1]]))
  {
    var s := n + "-" + a + "-" + b + t;
    var ps := Pieces(s, '-');
    PiecesThree(n, a, b, t);
    assert '-' in s by {
      assert s[|n|] == '-';
    }
    TrimKeeps(ps, 3);
  }

  /** The four-piece description `n-a-b-c` keeps its first three pieces. */
  lemma ExtractFourPieces(n: string, a: string, b: string, c: string)
    requires '-' !in n && '-' !in a && '-' !in b && b != ""
    ensures ExtractFeature(n + "-" + a + "-" + b + "-" + c) == Ok((n, [a, b[..1]]))
  {
    ExtractThreePieces(n, a, b, "-" + c);
    assert n + "-" + a + "-" + b + "-" + c == n + "-" + a + "-" + b + ("-" + c);
  }

  /** `name-`, then any run of `-`: every piece after the name is empty and dropped, so there is no second piece. */
  lemma ExtractNoValue(n: string, t: string)
    requires '-' !in n
    requires forall i :: 0 <= i < |t| ==> t[i] == '-'
    ensures ExtractFeature(n + "-" + t) == Err(ArrayIndexOutOfBounds)
  {
    var s := n + "-" + t;
    var ps := Pieces(s, '-');
    assert ps == [n] + seq(|t| + 1, _ => "") by {
      PiecesAfterName(n, t);
      PiecesOfDashes(t);
    }
    assert '-' in s by {
      assert s[|n|] == '-';
    }
    assert |TrimTrailing(ps)| <= 1;
  }

  /** A run of empty pieces glues into a run of separators. */
  lemma {:induction false} JoinOfEmpties(ps: seq<string>, sep: char)
    requires forall i :: 0 <= i < |ps| ==> ps[i] == ""
    ensures forall i :: 0 <= i < |Join(ps, sep)| ==> Join(ps, sep)[i] == sep
    decreases |ps|
  {
    if |ps| > 1 {
      JoinOfEmpties(ps[1..], sep);
      assert Join(ps, sep) == [sep] + Join(ps[1..], sep);
    }
  }

  /** A string with a character other than `-` has a non-empty piece. */
  lemma SomePieceNonEmpty(t: string)
    requires exists i :: 0 <= i < |t| && t[i] != '-'
    ensures exists j :: 0 <= j < |Pieces(t, '-')| && Pieces(t, '-')[j] != ""
  {
    var pt := Pieces(t, '-');
    if forall j :: 0 <= j < |pt| ==> pt[j] == "" {
      JoinPieces(t, '-');
      JoinOfEmpties(pt, '-');
      assert false;
    }
  }

  /** `name-a--rest` regrouped around its first `-`, then its second. */
  lemma RegroupEmptyThird(n: string, a: string, t: string)
    ensures n + "-" + a + "--" + t == n + "-" + (a + "-" + ("-" + t))
  {
  }

  /** The pieces of `a--rest`, for `a` without `-`: `a`, an empty piece, then the pieces of `rest`. */
  lemma PiecesEmptySecond(a: string, t: string)
    requires '-' !in a
    ensures Pieces(a + "-" + ("-" + t), '-') == [a, ""] + Pieces(t, '-')
  {
    var pt := Pieces(t, '-');
    var d := "-" + t;
    assert Pieces(d, '-') == [""] + pt by {
      PiecesAfterName("", t);
      assert "" + "-" + t == d;
    }
    PiecesAfterName(a, d);
    assert [a] + ([""] + pt) == [a, ""] + pt;
  }

  /** The pieces of `name-a--rest`, for a name and second piece without `-`: the name, `a`, an empty piece, then the pieces of `rest`. */
  lemma PiecesEmptyThird(n: string, a: string, t: string)
    requires '-' !in n && '-' !in a
    ensures Pieces(n + "-" + a + "--" + t, '-') == [n, a, ""] + Pieces(t, '-')
  {
    var pt := Pieces(t, '-');
    var u := a + "-" + ("-" + t);
    assert Pieces(u, '-') == [a, ""] + pt by {
      PiecesEmptySecond(a, t);
    }
    assert Pieces(n + "-" + u, '-') == [n] + ([a, ""] + pt) by {
      PiecesAfterName(n, u);
    }
    RegroupEmptyThird(n, a, t);
    ConsThree(n, a, "", pt);
  }

  /** One element in front of two others and a tail. */
  lemma ConsThree<T>(x: T, y: T, z: T, rest: seq<T>)
    ensures [x] + ([y, z] + rest) == [x, y, z] + rest
  {
  }

  /**
   * `name-a--rest`, where `rest` holds something other than `-`: the empty
   * third piece survives the trimming, and its first character is out of bounds.
   */
  lemma ExtractEmptyThird(n: string, a: string, t: string)
    requires '-' !in n && '-' !in a
    requires exists i :: 0 <= i < |t| && t[i] != '-'
    ensures ExtractFeature(n + "-" + a + "--" + t) == Err(StringIndexOutOfBounds)
  {
    var s := n + "-" + a + "--" + t;
    var pt := Pieces(t, '-');
    var ps := Pieces(s, '-');
    PiecesEmptyThird(n, a, t);
    SomePieceNonEmpty(t);
    var j :| 0 <= j < |pt| && pt[j] != "";
    assert ps[3 + j] == pt[j];
    TrimKeeps(ps, 4 + j);
    assert TrimTrailing(ps)[2] == ps[2] == "";
    assert '-' in s by {
      assert s[|n|] == '-';
    }
  }

  // ---------------------------------------------------------------------
  // Decoding one token

  /** A coded token `feature:code` of a data line. */
  datatype Token = Token(feature: int, code: int)

  /** A coded data line: the label code and the tokens after it. */
  datatype Line = Line(labelCode: int, tokens: seq<Token>)

  /** The value a code selects: the second value when there are two and the code is not -1, else the first. */
  function SelectValue(values: seq<string>, code: int): (v: string)
    requires |values| >= 1
    ensures v in values
    ensures |values| == 2 && code != -1 ==> v == values[1]
    ensures |values| != 2 || code == -1 ==> v == values[0]
  {
    if |values| == 2 && code != -1 then values[1] else values[0]
  }

  /** The feature name and value a token stands for; a code missing from the lookup table dereferences null. */
  function DecodeToken(t: Token, featureLookup: map<int, string>): (d: Result<(string, string)>)
    ensures d.Ok? ==> && t.feature in featureLookup
                      && var kv := ExtractFeature(featureLookup[t.feature]);
                         kv.Ok? && d.value.0 == kv.value.0 && d.value.1 in kv.value.1
    ensures d.Err? ==> (d.error == NullPointer <==> t.feature !in featureLookup)
  {
    if t.feature !in featureLookup then Err(NullPointer)
    else
      var kv := ExtractFeature(featureLookup[t.feature]);
      if kv.Err? then Err(kv.error)
      else Ok((kv.value.0, SelectValue(kv.value.1, t.code)))
  }

  // ---------------------------------------------------------------------
  // The catalogue

  /** A value set with `v` added. */
  function Insert(values: seq<string>, v: string): (r: seq<string>)
    ensures v in r
    ensures forall x :: x in r <==> x in values || x == v
    ensures NoDups(values) ==> NoDups(r)
  {
    if v in values then values else values + [v]
  }

  /** featureKeyValues after adding `value` under `feature`, creating the entry when it is missing. */
  function AddValue(cat: Catalogue, feature: string, value: string): (r: Catalogue)
    ensures |r| == |cat| || |r| == |cat| + 1
  {
    if cat == [] then [Entry(feature, [value])]
    else if cat[0].feature == feature then [Entry(feature, Insert(cat[0].values, value))] + cat[1..]
    else [cat[0]] + AddValue(cat[1..], feature, value)
  }

  /** Adding changes only the entry for `feature`, whose values become its old ones plus `value`. */
  lemma {:induction false} LookupAddValue(cat: Catalogue, feature: string, value: string, g: string)
    ensures Lookup(AddValue(cat, feature, value), g) ==
              if g != feature then Lookup(cat, g)
              else Some(Insert(if Lookup(cat, g).Some? then Lookup(cat, g).value else [], value))
    decreases |cat|
  {
    var r := AddValue(cat, feature, value);
    if cat == [] {
      assert Insert([], value) == [value];
      assert r[1..] == [];
    } else if cat[0].feature != feature {
      LookupAddValue(cat[1..], feature, value, g);
      assert r[1..] == AddValue(cat[1..], feature, value);
    } else {
      assert r[1..] == cat[1..];
    }
  }

  /** After adding, the catalogue lists exactly what it listed before plus `value` under `feature`. */
  lemma ListsAddValue(cat: Catalogue, feature: string, value: string)
    ensures forall g, v :: Lists(AddValue(cat, feature, value), g, v) <==> Lists(cat, g, v) || (g == feature && v == value)
  {
    forall g, v ensures Lists(AddValue(cat, feature, value), g, v) <==> Lists(cat, g, v) || (g == feature && v == value) {
      LookupAddValue(cat, feature, value, g);
    }
  }

  /** The names after adding: unchanged when the feature had an entry, else the feature appended. */
  lemma {:induction false} NamesAddValue(cat: Catalogue, feature: string, value: string)
    ensures Names(AddValue(cat, feature, value)) == if feature in Names(cat) then Names(cat) else Names(cat) + [feature]
    decreases |cat|
  {
    if cat != [] {
      var e, tail := cat[0], cat[1..];
      NamesCons(e, tail);
      assert [e] + tail == cat;
      if e.feature != feature {
        NamesAddValue(tail, feature, value);
        NamesCons(e, AddValue(tail, feature, value));
      } else {
        NamesCons(Entry(feature, Insert(e.values, value)), tail);
      }
    }
  }

  /** The names of a catalogue with one more entry in front. */
  lemma NamesCons(e: Entry, cat: Catalogue)
    ensures Names([e] + cat) == [e.feature] + Names(cat)
  {
  }

  /** Each entry after adding is the old entry, the old entry of `feature` with `value` added, or a new last entry. */
  lemma {:induction false} AddValueAt(cat: Catalogue, feature: string, value: string, i: nat)
    requires i < |AddValue(cat, feature, value)|
    ensures var r := AddValue(cat, feature, value);
      if i < |cat| then r[i] == cat[i] || (cat[i].feature == feature && r[i] == Entry(feature, Insert(cat[i].values, value)))
      else r[i] == Entry(feature, [value])
    decreases |cat|
  {
    var r := AddValue(cat, feature, value);
    if cat != [] && cat[0].feature != feature && i > 0 {
      AddValueAt(cat[1..], feature, value, i - 1);
      assert r[i] == AddValue(cat[1..], feature, value)[i - 1];
      if i < |cat| {
        assert cat[i] == cat[1..][i - 1];
      }
    } else if cat != [] && cat[0].feature == feature && i > 0 {
      assert r[i] == cat[1..][i - 1];
    }
  }

  /** Adding keeps feature names unique and value sets without repeats. */
  lemma AddValueWellFormed(cat: Catalogue, feature: string, value: string)
    requires WellFormed(cat)
    ensures WellFormed(AddValue(cat, feature, value))
  {
    var r := AddValue(cat, feature, value);
    NamesAddValue(cat, feature, value);
    forall i | 0 <= i < |r| ensures NoDups(r[i].values) {
      AddValueAt(cat, feature, value, i);
    }
  }

  /** Adding keeps every value set non-empty. */
  lemma AddValueNonEmpty(cat: Catalogue, feature: string, value: string)
    requires ValuesNonEmpty(cat)
    ensures ValuesNonEmpty(AddValue(cat, feature, value))
  {
    var r := AddValue(cat, feature, value);
    forall e | e in r ensures e.values != [] {
      var i :| 0 <= i < |r| && r[i] == e;
      AddValueAt(cat, feature, value, i);
      if i < |cat| {
        assert cat[i] in cat;
      }
    }
  }

  // ---------------------------------------------------------------------
  // constructRecords

  /**
   * The tokens of one line decoded into `attrs` and the catalogue, left to
   * right; a later token for the same feature overwrites the attribute. The
   * first token that fails ends the line, keeping the catalogue as it is by then.
   */
  function DecodeTokens(tokens: seq<Token>, attrs: map<string, string>, cat: Catalogue, featureLookup: map<int, string>)
    : (r: (Result<map<string, string>>, Catalogue))
    ensures r.0.Ok? ==> attrs.Keys <= r.0.value.Keys
    ensures |cat| <= |r.1|
  {
    if tokens == [] then (Ok(attrs), cat)
    else
      var d := DecodeToken(tokens[0], featureLookup);
      if d.Err? then (Err(d.error), cat)
      else DecodeTokens(tokens[1..], attrs[d.value.0 := d.value.1], AddValue(cat, d.value.0, d.value.1), featureLookup)
  }

  /**
   * The lines decoded into records appended to `records`, with the catalogue
   * accumulated across them; the first failing line ends the decoding.
   */
  function DecodeLines(lines: seq<Line>, records: seq<Record>, cat: Catalogue,
                       featureLookup: map<int, string>, labelLookup: map<int, string>): (r: (Result<seq<Record>>, Catalogue))
    requires forall i :: 0 <= i < |lines| ==> lines[i].labelCode in labelLookup
    ensures r.0.Ok? ==> |r.0.value| == |records| + |lines|
    ensures |cat| <= |r.1|
  {
    if lines == [] then (Ok(records), cat)
    else
      var (attrs, c) := DecodeTokens(lines[0].tokens, map[], cat, featureLookup);
      if attrs.Err? then (Err(attrs.error), c)
      else DecodeLines(lines[1..], records + [Record(labelLookup[lines[0].labelCode], attrs.value)], c, featureLookup, labelLookup)
  }

  /** Every attribute of `r` is listed by the catalogue. */
  predicate Listed(cat: Catalogue, r: Record)
  {
    forall f :: f in r.attributes ==> Lists(cat, f, r.attributes[f])
  }

  /** The catalogue only grows: what it listed before, it lists after. */
  ghost predicate Grows(before: Catalogue, after: Catalogue)
  {
    forall f, v :: Lists(before, f, v) ==> Lists(after, f, v)
  }

  /** A line decodes exactly when each of its tokens does. */
  lemma {:induction false} DecodeTokensOk(tokens: seq<Token>, attrs: map<string, string>, cat: Catalogue, featureLookup: map<int, string>)
    ensures DecodeTokens(tokens, attrs, cat, featureLookup).0.Ok?
        <==> forall i :: 0 <= i < |tokens| ==> DecodeToken(tokens[i], featureLookup).Ok?
    decreases |tokens|
  {
    if tokens != [] {
      var d := DecodeToken(tokens[0], featureLookup);
      if d.Ok? {
        DecodeTokensOk(tokens[1..], attrs[d.value.0 := d.value.1], AddValue(cat, d.value.0, d.value.1), featureLookup);
        assert forall i :: 1 <= i < |tokens| ==> tokens[i] == tokens[1..][i - 1];
      }
    }
  }

  /** Decoding a line, even one that fails, only adds to the catalogue, and keeps it well formed. */
  lemma {:induction false} DecodeTokensCatalogue(tokens: seq<Token>, attrs: map<string, string>, cat: Catalogue, featureLookup: map<int, string>)
    ensures Grows(cat, DecodeTokens(tokens, attrs, cat, featureLookup).1)
    ensures WellFormed(cat) ==> WellFormed(DecodeTokens(tokens, attrs, cat, featureLookup).1)
    ensures ValuesNonEmpty(cat) ==> ValuesNonEmpty(DecodeTokens(tokens, attrs, cat, featureLookup).1)
    decreases |tokens|
  {
    if tokens != [] {
      var d := DecodeToken(tokens[0], featureLookup);
      if d.Ok? {
        var (f, v) := d.value;
        ListsAddValue(cat, f, v);
        if WellFormed(cat) {
          AddValueWellFormed(cat, f, v);
        }
        if ValuesNonEmpty(cat) {
          AddValueNonEmpty(cat, f, v);
        }
        DecodeTokensCatalogue(tokens[1..], attrs[f := v], AddValue(cat, f, v), featureLookup);
      }
    }
  }

  /** On success every attribute, old or decoded, is listed by the catalogue, when the old ones were. */
  lemma {:induction false} DecodeTokensListed(tokens: seq<Token>, attrs: map<string, string>, cat: Catalogue, featureLookup: map<int, string>)
    requires forall f :: f in attrs ==> Lists(cat, f, attrs[f])
    requires DecodeTokens(tokens, attrs, cat, featureLookup).0.Ok?
    ensures var (r, c) := DecodeTokens(tokens, attrs, cat, featureLookup);
      forall f :: f in r.value ==> Lists(c, f, r.value[f])
    decreases |tokens|
  {
    if tokens != [] {
      var (f, v) := DecodeToken(tokens[0], featureLookup).value;
      ListsAddValue(cat, f, v);
      DecodeTokensListed(tokens[1..], attrs[f := v], AddValue(cat, f, v), featureLookup);
    }
  }

  /** The token decodes to feature `f`. */
  predicate Decodes(t: Token, featureLookup: map<int, string>, f: string)
  {
    DecodeToken(t, featureLookup).Ok? && DecodeToken(t, featureLookup).value.0 == f
  }

  /** No token after position `i` decodes to feature `f`. */
  predicate LastFor(tokens: seq<Token>, featureLookup: map<int, string>, i: nat, f: string)
  {
    forall j :: i < j < |tokens| ==> !Decodes(tokens[j], featureLookup, f)
  }

  /** The features of `a` are those of `attrs` and the decoded ones, and no others. */
  ghost predicate KeysOf(tokens: seq<Token>, featureLookup: map<int, string>, attrs: map<string, string>, a: map<string, string>)
  {
    forall f :: f in a <==> f in attrs || exists i :: 0 <= i < |tokens| && Decodes(tokens[i], featureLookup, f)
  }

  /** An attribute of `attrs` that no token names keeps its value in `a`. */
  ghost predicate KeepsUnnamed(tokens: seq<Token>, featureLookup: map<int, string>, attrs: map<string, string>, a: map<string, string>)
  {
    forall f :: f in attrs && (forall i :: 0 <= i < |tokens| ==> !Decodes(tokens[i], featureLookup, f)) ==>
      f in a && a[f] == attrs[f]
  }

  /** Each decoded feature holds, in `a`, the value of the last token naming it. */
  ghost predicate LastWins(tokens: seq<Token>, featureLookup: map<int, string>, a: map<string, string>)
  {
    forall i :: 0 <= i < |tokens| && DecodeToken(tokens[i], featureLookup).Ok? ==>
      var (f, v) := DecodeToken(tokens[i], featureLookup).value;
      LastFor(tokens, featureLookup, i, f) ==> f in a && a[f] == v
  }

  /**
   * `a` is what the tokens leave of `attrs`: the features of `attrs` and the
   * decoded ones and nothing else; an attribute no token names keeps its
   * value, and a decoded feature holds the value of the last token naming it.
   */
  ghost predicate Attributes(tokens: seq<Token>, featureLookup: map<int, string>, attrs: map<string, string>, a: map<string, string>)
  {
    KeysOf(tokens, featureLookup, attrs, a) && KeepsUnnamed(tokens, featureLookup, attrs, a) && LastWins(tokens, featureLookup, a)
  }

  /** The keys after one more token in front. */
  lemma KeysStep(tokens: seq<Token>, featureLookup: map<int, string>, attrs: map<string, string>, a: map<string, string>)
    requires tokens != [] && DecodeToken(tokens[0], featureLookup).Ok?
    requires var (f0, v0) := DecodeToken(tokens[0], featureLookup).value;
             KeysOf(tokens[1..], featureLookup, attrs[f0 := v0], a)
    ensures KeysOf(tokens, featureLookup, attrs, a)
  {
    var (f0, v0) := DecodeToken(tokens[0], featureLookup).value;
    assert Decodes(tokens[0], featureLookup, f0);
    var tail := tokens[1..];
    forall f ensures f in a <==> f in attrs || exists i :: 0 <= i < |tokens| && Decodes(tokens[i], featureLookup, f) {
      if exists i :: 0 <= i < |tokens| && Decodes(tokens[i], featureLookup, f) {
        var i :| 0 <= i < |tokens| && Decodes(tokens[i], featureLookup, f);
        if i > 0 {
          assert tail[i - 1] == tokens[i];
        }
      }
      if exists k :: 0 <= k < |tail| && Decodes(tail[k], featureLookup, f) {
        var k :| 0 <= k < |tail| && Decodes(tail[k], featureLookup, f);
        assert tokens[k + 1] == tail[k];
      }
    }
  }

  /** The unnamed attributes after one more token in front. */
  lemma KeepsStep(tokens: seq<Token>, featureLookup: map<int, string>, attrs: map<string, string>, a: map<string, string>)
    requires tokens != [] && DecodeToken(tokens[0], featureLookup).Ok?
    requires var (f0, v0) := DecodeToken(tokens[0], featureLookup).value;
             KeepsUnnamed(tokens[1..], featureLookup, attrs[f0 := v0], a)
    ensures KeepsUnnamed(tokens, featureLookup, attrs, a)
  {
    var (f0, v0) := DecodeToken(tokens[0], featureLookup).value;
    assert Decodes(tokens[0], featureLookup, f0);
    var tail := tokens[1..];
    forall f | f in attrs && (forall i :: 0 <= i < |tokens| ==> !Decodes(tokens[i], featureLookup, f))
      ensures f in a && a[f] == attrs[f]
    {
      forall k | 0 <= k < |tail| ensures !Decodes(tail[k], featureLookup, f) {
        assert tail[k] == tokens[k + 1];
      }
    }
  }

  /** The last-token values after one more token in front. */
  lemma LastStep(tokens: seq<Token>, featureLookup: map<int, string>, attrs: map<string, string>, a: map<string, string>)
    requires tokens != [] && DecodeToken(tokens[0], featureLookup).Ok?
    requires var (f0, v0) := DecodeToken(tokens[0], featureLookup).value;
             KeepsUnnamed(tokens[1..], featureLookup, attrs[f0 := v0], a) && LastWins(tokens[1..], featureLookup, a)
    ensures LastWins(tokens, featureLookup, a)
  {
    var tail := tokens[1..];
    forall i | 0 <= i < |tokens| && DecodeToken(tokens[i], featureLookup).Ok?
      ensures var (f, v) := DecodeToken(tokens[i], featureLookup).value;
              LastFor(tokens, featureLookup, i, f) ==> f in a && a[f] == v
    {
      var (f, v) := DecodeToken(tokens[i], featureLookup).value;
      if LastFor(tokens, featureLookup, i, f) {
        forall j | i <= j < |tail| ensures !Decodes(tail[j], featureLookup, f) {
          assert tail[j] == tokens[j + 1];
        }
        if i > 0 {
          assert tail[i - 1] == tokens[i];
          assert LastFor(tail, featureLookup, i - 1, f);
        }
      }
    }
  }

  /** On success the attribute map is exactly what `Attributes` describes: a later token for a feature overwrites an earlier one. */
  lemma {:induction false} DecodeTokensAttributes(tokens: seq<Token>, attrs: map<string, string>, cat: Catalogue, featureLookup: map<int, string>)
    requires DecodeTokens(tokens, attrs, cat, featureLookup).0.Ok?
    ensures Attributes(tokens, featureLookup, attrs, DecodeTokens(tokens, attrs, cat, featureLookup).0.value)
    decreases |tokens|
  {
    if tokens != [] {
      var (f0, v0) := DecodeToken(tokens[0], featureLookup).value;
      DecodeTokensAttributes(tokens[1..], attrs[f0 := v0], AddValue(cat, f0, v0), featureLookup);
      var a := DecodeTokens(tokens, attrs, cat, featureLookup).0.value;
      KeysStep(tokens, featureLookup, attrs, a);
      KeepsStep(tokens, featureLookup, attrs, a);
      LastStep(tokens, featureLookup, attrs, a);
    }
  }

  /** The lines decode exactly when all their tokens do. */
  lemma {:induction false} DecodeLinesOk(lines: seq<Line>, records: seq<Record>, cat: Catalogue,
                                         featureLookup: map<int, string>, labelLookup: map<int, string>)
    requires forall i :: 0 <= i < |lines| ==> lines[i].labelCode in labelLookup
    ensures DecodeLines(lines, records, cat, featureLookup, labelLookup).0.Ok?
        <==> forall i, j :: 0 <= i < |lines| && 0 <= j < |lines[i].tokens| ==> DecodeToken(lines[i].tokens[j], featureLookup).Ok?
    decreases |lines|
  {
    if lines != [] {
      var (attrs, c) := DecodeTokens(lines[0].tokens, map[], cat, featureLookup);
      DecodeTokensOk(lines[0].tokens, map[], cat, featureLookup);
      if attrs.Ok? {
        var records' := records + [Record(labelLookup[lines[0].labelCode], attrs.value)];
        DecodeLinesOk(lines[1..], records', c, featureLookup, labelLookup);
        assert forall i :: 1 <= i < |lines| ==> lines[i] == lines[1..][i - 1];
      }
    }
  }

  /** Decoding lines, even when one fails, only adds to the catalogue, and keeps it well formed. */
  lemma {:induction false} DecodeLinesCatalogue(lines: seq<Line>, records: seq<Record>, cat: Catalogue,
                                                featureLookup: map<int, string>, labelLookup: map<int, string>)
    requires forall i :: 0 <= i < |lines| ==> lines[i].labelCode in labelLookup
    ensures Grows(cat, DecodeLines(lines, records, cat, featureLookup, labelLookup).1)
    ensures WellFormed(cat) ==> WellFormed(DecodeLines(lines, records, cat, featureLookup, labelLookup).1)
    ensures ValuesNonEmpty(cat) ==> ValuesNonEmpty(DecodeLines(lines, records, cat, featureLookup, labelLookup).1)
    decreases |lines|
  {
    if lines != [] {
      var (attrs, c) := DecodeTokens(lines[0].tokens, map[], cat, featureLookup);
      DecodeTokensCatalogue(lines[0].tokens, map[], cat, featureLookup);
      if attrs.Ok? {
        var records' := records + [Record(labelLookup[lines[0].labelCode], attrs.value)];
        DecodeLinesCatalogue(lines[1..], records', c, featureLookup, labelLookup);
      }
    }
  }

  /** On success there is one record per line, after the given ones, labelled by the line's label code, with the attributes its tokens decode to. */
  lemma {:induction false} DecodeLinesRecords(lines: seq<Line>, records: seq<Record>, cat: Catalogue,
                                              featureLookup: map<int, string>, labelLookup: map<int, string>)
    requires forall i :: 0 <= i < |lines| ==> lines[i].labelCode in labelLookup
    requires DecodeLines(lines, records, cat, featureLookup, labelLookup).0.Ok?
    ensures var r := DecodeLines(lines, records, cat, featureLookup, labelLookup).0.value;
      && |r| == |records| + |lines| && r[..|records|] == records
      && forall i :: 0 <= i < |lines| ==>
           && r[|records| + i].category == labelLookup[lines[i].labelCode]
           && Attributes(lines[i].tokens, featureLookup, map[], r[|records| + i].attributes)
    decreases |lines|
  {
    if lines != [] {
      var (attrs, c) := DecodeTokens(lines[0].tokens, map[], cat, featureLookup);
      var records' := records + [Record(labelLookup[lines[0].labelCode], attrs.value)];
      DecodeTokensAttributes(lines[0].tokens, map[], cat, featureLookup);
      DecodeLinesRecords(lines[1..], records', c, featureLookup, labelLookup);
      var r := DecodeLines(lines, records, cat, featureLookup, labelLookup).0.value;
      assert r[..|records|] == r[..|records'|][..|records|];
      assert r[|records|] == r[..|records'|][|records|];
      forall i | 1 <= i < |lines|
        ensures r[|records| + i].category == labelLookup[lines[i].labelCode]
        ensures Attributes(lines[i].tokens, featureLookup, map[], r[|records| + i].attributes)
      {
        var j := i - 1;
        assert lines[i] == lines[1..][j];
        assert |records| + i == |records'| + j;
        var t, a := lines[1..][j].tokens, r[|records'| + j].attributes;
        assert Attributes(t, featureLookup, map[], a);
      }
    }
  }

  /** On success every record's attributes are listed by the final catalogue, when the given records' were. */
  lemma {:induction false} DecodeLinesListed(lines: seq<Line>, records: seq<Record>, cat: Catalogue,
                                             featureLookup: map<int, string>, labelLookup: map<int, string>)
    requires forall i :: 0 <= i < |lines| ==> lines[i].labelCode in labelLookup
    requires forall k :: 0 <= k < |records| ==> Listed(cat, records[k])
    requires DecodeLines(lines, records, cat, featureLookup, labelLookup).0.Ok?
    ensures var (r, c) := DecodeLines(lines, records, cat, featureLookup, labelLookup);
      forall k :: 0 <= k < |r.value| ==> Listed(c, r.value[k])
    decreases |lines|
  {
    if lines != [] {
      var (attrs, c) := DecodeTokens(lines[0].tokens, map[], cat, featureLookup);
      DecodeTokensListed(lines[0].tokens, map[], cat, featureLookup);
      DecodeTokensCatalogue(lines[0].tokens, map[], cat, featureLookup);
      var rec := Record(labelLookup[lines[0].labelCode], attrs.value);
      var records' := records + [rec];
      forall k | 0 <= k < |records'| ensures Listed(c, records'[k]) {
        if k < |records| {
          assert records'[k] == records[k];
        }
      }
      DecodeLinesListed(lines[1..], records', c, featureLookup, labelLookup);
    }
  }

  // ---------------------------------------------------------------------
  // The decoder's state

  /** The static state constructRecords works on: the two lookup tables and the catalogue it fills. */
  class Loader {
    const featureLookup: map<int, string>
    const labelLookup: map<int, string>
    var catalogue: Catalogue

    /** The lookup tables as read, and an empty catalogue. */
    constructor (featureLookup: map<int, string>, labelLookup: map<int, string>)
      ensures this.featureLookup == featureLookup && this.labelLookup == labelLookup && catalogue == []
    {
      this.featureLookup := featureLookup;
      this.labelLookup := labelLookup;
      catalogue := [];
    }

    /**
     * constructRecords over already-tokenised lines: one record per line,
     * labelled by its label code, with attributes decoded token by token,
     * each decoded value added to the catalogue.
     */
    method ConstructRecords(lines: seq<Line>) returns (res: Result<seq<Record>>)
      requires forall i :: 0 <= i < |lines| ==> lines[i].labelCode in labelLookup
      modifies this`catalogue
      ensures (res, catalogue) == DecodeLines(lines, [], old(catalogue), featureLookup, labelLookup)
    {
      var records: seq<Record> := [];
      for i := 0 to |lines|
        invariant DecodeLines(lines, [], old(catalogue), featureLookup, labelLookup)
               == DecodeLines(lines[i..], records, catalogue, featureLookup, labelLookup)
      {
        var line := lines[i];
        assert lines[i..][0] == line && lines[i..][1..] == lines[i + 1..];
        var category := labelLookup[line.labelCode];
        var attributes: map<string, string> := map[];
        ghost var before := catalogue;
        for j := 0 to |line.tokens|
          invariant DecodeTokens(line.tokens, map[], before, featureLookup)
                 == DecodeTokens(line.tokens[j..], attributes, catalogue, featureLookup)
        {
          var token := line.tokens[j];
          assert line.tokens[j..][0] == token && line.tokens[j..][1..] == line.tokens[j + 1..];
          if token.feature !in featureLookup {
            return Err(NullPointer);
          }
          var kv := ExtractFeature(featureLookup[token.feature]);
          if kv.Err? {
            return Err(kv.error);
          }
          var (name, values) := kv.value;
          var value := values[0];
          if |values| == 2 && token.code != -1 {
            value := values[1];
          }
          attributes := attributes[name := value];
          catalogue := AddValue(catalogue, name, value);
        }
        records := records + [Record(category, attributes)];
      }
      res := Ok(records);
    }
  }
}
