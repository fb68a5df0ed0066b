/** The one-hot encoding used by the evaluation script: the encoder is fitted on
    the distinct truth labels (examples/run_pipeline_evaluation.py, lines 21-22),
    which lists its categories in ascending code-point order; a label is then
    encoded as a 0/1 row over those categories, and a prediction's probability
    map is read out as a row in the same category order. */
module Encoder {
  import opened Wrappers
  import opened Collections

  /** Strict lexicographic order on strings, comparing characters by code point. */
  predicate Less(a: string, b: string)
    decreases |a|
  {
    |b| > 0 && (|a| == 0 || a[0] < b[0] || (a[0] == b[0] && Less(a[1..], b[1..])))
  }

  lemma {:induction false} LessIrreflexive(a: string)
    ensures !Less(a, a)
    decreases |a|
  {
    if |a| > 0 {
      LessIrreflexive(a[1..]);
    }
  }

  lemma {:induction false} LessTransitive(a: string, b: string, c: string)
    requires Less(a, b) && Less(b, c)
    ensures Less(a, c)
    decreases |a|
  {
    if |a| > 0 && a[0] == b[0] && b[0] == c[0] {
      LessTransitive(a[1..], b[1..], c[1..]);
    }
  }

  lemma {:induction false} LessTotal(a: string, b: string)
    requires a != b
    ensures Less(a, b) || Less(b, a)
    decreases |a|
  {
    if |a| > 0 && |b| > 0 && a[0] == b[0] {
      assert a == [a[0]] + a[1..];
      assert b == [b[0]] + b[1..];
      LessTotal(a[1..], b[1..]);
    }
  }

  predicate StrictlySorted(s: seq<string>)
  {
    forall i, j :: 0 <= i < j < |s| ==> Less(s[i], s[j])
  }

  lemma SortedIsDistinct(s: seq<string>)
    requires StrictlySorted(s)
    ensures Distinct(s)
  {
    forall i, j | 0 <= i < j < |s|
      ensures s[i] != s[j]
    {
      LessIrreflexive(s[i]);
    }
  }

  /** Everything in a sorted sequence is above anything below its head. */
  lemma BelowHead(x: string, s: seq<string>)
    requires StrictlySorted(s) && s != [] && Less(x, s[0])
    ensures forall y :: y in s ==> Less(x, y)
  {
    forall y | y in s
      ensures Less(x, y)
    {
      if y != s[0] {
        var j :| 0 <= j < |s| && s[j] == y;
        LessTransitive(x, s[0], y);
      }
    }
  }

  lemma SortedCons(x: string, s: seq<string>)
    requires StrictlySorted(s)
    requires forall y :: y in s ==> Less(x, y)
    ensures StrictlySorted([x] + s)
  {
    var r := [x] + s;
    forall i, j | 0 <= i < j < |r|
      ensures Less(r[i], r[j])
    {
      if i > 0 {
        assert r[i] == s[i - 1] && r[j] == s[j - 1];
      } else {
        assert r[j] in s;
      }
    }
  }

  /** Adds `x` to a sorted list of distinct categories, keeping it sorted. */
  function Insert(cats: seq<string>, x: string): (r: seq<string>)
    requires StrictlySorted(cats)
    ensures StrictlySorted(r)
    ensures forall c :: c in r <==> c in cats || c == x
    decreases |cats|
  {
    if cats == [] then [x]
    else if x == cats[0] then cats
    else if Less(x, cats[0]) then
      BelowHead(x, cats);
      SortedCons(x, cats);
      [x] + cats
    else
      LessTotal(x, cats[0]);
      assert StrictlySorted(cats[1..]) by {
        forall i, j | 0 <= i < j < |cats[1..]|
          ensures Less(cats[1..][i], cats[1..][j])
        {
          assert cats[1..][i] == cats[i + 1] && cats[1..][j] == cats[j + 1];
        }
      }
      var rest := Insert(cats[1..], x);
      assert forall y :: y in cats[1..] ==> Less(cats[0], y);
      SortedCons(cats[0], rest);
      assert cats == [cats[0]] + cats[1..];
      [cats[0]] + rest
  }

  /** The distinct labels of `labels`, in ascending order. */
  function SortedDistinct(labels: seq<string>): (r: seq<string>)
    ensures StrictlySorted(r)
    ensures forall c :: c in r <==> c in labels
    decreases |labels|
  {
    if labels == [] then []
    else
      assert labels == labels[..|labels| - 1] + [labels[|labels| - 1]];
      Insert(SortedDistinct(labels[..|labels| - 1]), labels[|labels| - 1])
  }

  /** Two sorted lists of distinct strings with the same members are equal, so
      the fitted categories do not depend on the order in which the set of
      truth labels happened to be listed. */
  lemma {:induction false} SortedUnique(s: seq<string>, t: seq<string>)
    requires StrictlySorted(s) && StrictlySorted(t)
    requires forall c :: c in s <==> c in t
    ensures s == t
    decreases |s|
  {
    if s != [] {
      assert s[0] in s;
    }
    if t != [] {
      assert t[0] in t;
    }
    if s != [] && t != [] {
      assert s[0] in t && t[0] in s;
      if s[0] != t[0] {
        var i :| 0 <= i < |s| && s[i] == t[0];
        var j :| 0 <= j < |t| && t[j] == s[0];
        assert Less(s[0], t[0]) && Less(t[0], s[0]);
        LessTransitive(s[0], t[0], s[0]);
        LessIrreflexive(s[0]);
      }
      SortedTail(s);
      SortedTail(t);
      forall c
        ensures c in s[1..] <==> c in t[1..]
      {
        assert s == [s[0]] + s[1..] && t == [t[0]] + t[1..];
        assert c in s <==> c == s[0] || c in s[1..];
        assert c in t <==> c == t[0] || c in t[1..];
      }
      SortedUnique(s[1..], t[1..]);
      assert s == [s[0]] + s[1..] && t == [t[0]] + t[1..];
    }
  }

  /** The tail of a sorted list is sorted and no longer holds the head. */
  lemma SortedTail(s: seq<string>)
    requires StrictlySorted(s) && s != []
    ensures StrictlySorted(s[1..])
    ensures s[0] !in s[1..]
  {
    forall i, j | 0 <= i < j < |s[1..]|
      ensures Less(s[1..][i], s[1..][j])
    {
      assert s[1..][i] == s[i + 1] && s[1..][j] == s[j + 1];
    }
    if s[0] in s[1..] {
      var k :| 0 <= k < |s[1..]| && s[1..][k] == s[0];
      assert Less(s[0], s[k + 1]);
      LessIrreflexive(s[0]);
    }
  }

  /** Fitting the encoder: None when there is no label to fit on (the encoder
      refuses an empty sample), otherwise the distinct labels in ascending order. */
  function FitCategories(labels: seq<string>): (cats: Option<seq<string>>)
    ensures cats.None? <==> labels == []
    ensures cats.Some? ==> StrictlySorted(cats.value) && Distinct(cats.value)
    ensures cats.Some? ==> forall c :: c in cats.value <==> c in labels
  {
    if labels == [] then None
    else
      var r := SortedDistinct(labels);
      SortedIsDistinct(r);
      Some(r)
  }

  /** Encoding one label: None when the label is not a fitted category (the
      encoder raises on an unknown category). */
  function OneHot(cats: seq<string>, name: string): (r: Option<seq<real>>)
    ensures r.Some? <==> name in cats
    ensures r.Some? ==> |r.value| == |cats|
  {
    if name in cats then
      Some(seq(|cats|, j requires 0 <= j < |cats| => if cats[j] == name then 1.0 else 0.0))
    else None
  }

  /** Reads a one-hot row back: the category of the first column holding 1. */
  function DecodeOneHot(cats: seq<string>, v: seq<real>): (r: Option<string>)
    requires |v| == |cats|
    ensures r.Some? ==> exists j :: 0 <= j < |v| && v[j] == 1.0 && cats[j] == r.value
    ensures r.None? ==> forall j :: 0 <= j < |v| ==> v[j] != 1.0
    decreases |v|
  {
    if v == [] then None
    else if v[0] == 1.0 then Some(cats[0])
    else
      var r := DecodeOneHot(cats[1..], v[1..]);
      assert forall j :: 1 <= j < |v| ==> v[j] == v[1..][j - 1] && cats[j] == cats[1..][j - 1];
      r
  }

  /** An encoded label is a 0/1 row whose single 1 stands in the label's column,
      and decoding it gives the label back. */
  lemma OneHotRoundTrip(cats: seq<string>, name: string)
    requires Distinct(cats) && name in cats
    ensures OneHot(cats, name).Some?
    ensures var v := OneHot(cats, name).value;
      (forall j :: 0 <= j < |cats| ==> (v[j] == 1.0 <==> cats[j] == name))
      && (forall j :: 0 <= j < |cats| ==> v[j] == 0.0 || v[j] == 1.0)
      && (exists k :: 0 <= k < |cats| && v[k] == 1.0 && forall j :: 0 <= j < |cats| && j != k ==> v[j] == 0.0)
      && DecodeOneHot(cats, v) == Some(name)
  {
    var v := OneHot(cats, name).value;
    var k :| 0 <= k < |cats| && cats[k] == name;
    assert v[k] == 1.0;
    forall j | 0 <= j < |cats| && j != k
      ensures v[j] == 0.0
    {
      if j < k {
        assert cats[j] != cats[k];
      } else {
        assert cats[k] != cats[j];
      }
    }
  }

  /** Reading a probability map as a row in category order (selecting the
      categories as columns of a one-row frame): None when some category is not
      a key of the map, otherwise column j holds the probability of category j. */
  function ColumnsInOrder(prob: map<string, real>, cats: seq<string>): (r: Option<seq<real>>)
    ensures r.Some? <==> forall c :: c in cats ==> c in prob
    ensures r.Some? ==> |r.value| == |cats| && forall j :: 0 <= j < |cats| ==> r.value[j] == prob[cats[j]]
    decreases |cats|
  {
    if cats == [] then Some([])
    else
      assert forall c :: c in cats <==> c == cats[0] || c in cats[1..] by {
        assert cats == [cats[0]] + cats[1..];
      }
      if cats[0] !in prob then None
      else
        match ColumnsInOrder(prob, cats[1..])
        case None => None
        case Some(rest) =>
          assert forall j :: 1 <= j < |cats| ==> cats[j] == cats[1..][j - 1];
          Some([prob[cats[0]]] + rest)
  }
}
