/** The similarity comparators of feature.py: `authorCmp` and `paperCmp`
    compare one pair, `coauthorCmp` and `publicationCmp` average a
    comparator over a candidate list, component by component. */
module Comparator {
  import opened Util
  import opened Metrics

  /** `getAuthorInfo`'s one-element tuple: the author's normalised
      publish-count map, venue id -> count. */
  datatype AuthorInfo = AuthorInfo(publishCount: map<int, real>)

  /** `getPaperInfo`'s pair: normalised title and venue name. */
  datatype PaperInfo = PaperInfo(title: string, publish: string)

  // ---------------------------------------------------------------------
  // Component-wise means

  /** Component `j` of a vector; every vector here has the full width, so
      the 0 for a missing component is never read. */
  function At(v: seq<real>, j: nat): real {
    if j < |v| then v[j] else 0.0
  }

  /** Component `j` of every vector. */
  function Column(vs: seq<seq<real>>, j: nat): (col: seq<real>)
    ensures |col| == |vs|
  {
    seq(|vs|, k requires 0 <= k < |vs| => At(vs[k], j))
  }

  /** `sum / cnt` when `cnt > 0`; the untouched `0.0` accumulator otherwise. */
  function Mean(xs: seq<real>): real {
    if |xs| == 0 then 0.0 else SumReals(xs) / |xs| as real
  }

  /** What `coauthorCmp` and `publicationCmp` return for a list of comparator
      results of width `n`: the mean of each component, dividing by the full
      length of the list. */
  function MeanVector(vs: seq<seq<real>>, n: nat): (m: seq<real>)
    ensures |m| == n
  {
    seq(n, j requires 0 <= j < n => Mean(Column(vs, j)))
  }

  lemma ColumnPrefix(vs: seq<seq<real>>, j: nat, k: nat)
    requires k < |vs|
    ensures Column(vs[..k + 1], j) == Column(vs[..k], j) + [At(vs[k], j)]
  {
    assert Column(vs[..k + 1], j)[..k] == Column(vs[..k], j);
  }

  /** Adding one more vector to the running component sums. */
  lemma ColumnSumsStep(vs: seq<seq<real>>, n: nat, k: nat)
    requires k < |vs| && |vs[k]| == n
    ensures forall j :: 0 <= j < n ==>
      SumReals(Column(vs[..k + 1], j)) == SumReals(Column(vs[..k], j)) + vs[k][j]
  {
    forall j | 0 <= j < n
      ensures SumReals(Column(vs[..k + 1], j)) == SumReals(Column(vs[..k], j)) + vs[k][j]
    {
      ColumnPrefix(vs, j, k);
      SumRealsAppend(Column(vs[..k], j), vs[k][j]);
    }
  }

  /** The shared accumulator loop of `coauthorCmp` and `publicationCmp`
      (feature.py:59-70, 109-120): start from `n` zeros, add each vector
      component-wise (`map(operator.add, mean, ret)`), then divide by the
      number of vectors if there is at least one. */
  method AverageColumns(vs: seq<seq<real>>, n: nat) returns (mean: seq<real>)
    requires forall k :: 0 <= k < |vs| ==> |vs[k]| == n
    ensures mean == MeanVector(vs, n)
  {
    mean := seq(n, j => 0.0);
    var cnt := |vs|;
    var k := 0;
    while k < cnt
      invariant 0 <= k <= cnt
      invariant |mean| == n
      invariant forall j :: 0 <= j < n ==> mean[j] == SumReals(Column(vs[..k], j))
    {
      ColumnSumsStep(vs, n, k);
      mean := seq(n, j requires 0 <= j < n => mean[j] + vs[k][j]);
      k := k + 1;
    }
    assert vs[..cnt] == vs;
    if cnt > 0 {
      mean := seq(n, j requires 0 <= j < n => mean[j] / cnt as real);
    }
  }

  /** Every component of the mean lies between 0 and `hi` when every input
      component does; in particular the mean of an empty list is all zeros. */
  lemma MeanVectorBounds(vs: seq<seq<real>>, n: nat, hi: real)
    requires 0.0 <= hi
    requires forall k :: 0 <= k < |vs| ==> |vs[k]| == n
    requires forall k, j :: 0 <= k < |vs| && 0 <= j < n ==> 0.0 <= vs[k][j] <= hi
    ensures forall j :: 0 <= j < n ==> 0.0 <= MeanVector(vs, n)[j] <= hi
  {
    forall j | 0 <= j < n
      ensures 0.0 <= MeanVector(vs, n)[j] <= hi
    {
      MeanBounds(Column(vs, j), hi);
    }
  }

  lemma MeanBounds(xs: seq<real>, hi: real)
    requires 0.0 <= hi
    requires forall i :: 0 <= i < |xs| ==> 0.0 <= xs[i] <= hi
    ensures 0.0 <= Mean(xs) <= hi
  {
    if |xs| > 0 {
      SumBounds(xs, hi);
      var n := |xs| as real;
      var s := SumReals(xs);
      assert s / n <= hi by {
        assert s <= n * hi;
        assert s / n <= (n * hi) / n;
      }
    }
  }

  lemma {:induction false} SumBounds(xs: seq<real>, hi: real)
    requires forall i :: 0 <= i < |xs| ==> 0.0 <= xs[i] <= hi
    ensures 0.0 <= SumReals(xs) <= |xs| as real * hi
    decreases |xs|
  {
    if xs != [] {
      SumBounds(xs[..|xs| - 1], hi);
    }
  }

  /** With a single candidate the mean is that candidate's result. */
  lemma MeanVectorSingle(v: seq<real>)
    ensures MeanVector([v], |v|) == v
  {
    forall j | 0 <= j < |v|
      ensures MeanVector([v], |v|)[j] == v[j]
    {
      assert Column([v], j) == [v[j]];
      assert SumReals([v[j]]) == SumReals([]) + v[j];
    }
  }

  // ---------------------------------------------------------------------
  // Authors

  /** `authorCmp` (feature.py:44-52): the Euclidean distance of the two
      publish-count maps, as a one-component vector. */
  method AuthorCmp(ext: Ext, author1: AuthorInfo, author2: AuthorInfo) returns (r: seq<real>)
    ensures r == [Distance(ext, author1.publishCount, author2.publishCount)]
  {
    var countDistance := EuclideanDistance(ext, author1.publishCount, author2.publishCount);
    r := [countDistance];
  }

  /** The results of `authorCmp` against each co-author. */
  ghost function AuthorResults(ext: Ext, author: AuthorInfo, coauthors: seq<AuthorInfo>): (vs: seq<seq<real>>)
    ensures |vs| == |coauthors|
  {
    seq(|coauthors|, k requires 0 <= k < |coauthors| =>
      [Distance(ext, author.publishCount, coauthors[k].publishCount)])
  }

  /** `coauthorCmp` (feature.py:55-70). */
  method CoauthorCmp(ext: Ext, author: AuthorInfo, coauthors: seq<AuthorInfo>) returns (mean: seq<real>)
    ensures mean == MeanVector(AuthorResults(ext, author, coauthors), 1)
  {
    var results: seq<seq<real>> := [];
    ghost var vs := AuthorResults(ext, author, coauthors);
    for k := 0 to |coauthors|
      invariant results == vs[..k]
      invariant forall i :: 0 <= i < k ==> |results[i]| == 1
    {
      var ret := AuthorCmp(ext, author, coauthors[k]);
      results := results + [ret];
    }
    assert vs[..|coauthors|] == vs;
    mean := AverageColumns(results, 1);
  }

  /** `coauthorCmp` returns one non-negative component, 0 when there are no
      co-authors. */
  lemma CoauthorCmpFacts(ext: Ext, author: AuthorInfo, coauthors: seq<AuthorInfo>)
    requires ext.Valid()
    ensures |MeanVector(AuthorResults(ext, author, coauthors), 1)| == 1
    ensures 0.0 <= MeanVector(AuthorResults(ext, author, coauthors), 1)[0]
    ensures coauthors == [] ==> MeanVector(AuthorResults(ext, author, coauthors), 1) == [0.0]
  {
    var vs := AuthorResults(ext, author, coauthors);
    var col := Column(vs, 0);
    forall k | 0 <= k < |col|
      ensures 0.0 <= col[k]
    {
      assert col[k] == Distance(ext, author.publishCount, coauthors[k].publishCount);
      DistanceSquared(ext, author.publishCount, coauthors[k].publishCount);
    }
    MeanNonNegative(col);
  }

  lemma MeanNonNegative(xs: seq<real>)
    requires forall i :: 0 <= i < |xs| ==> 0.0 <= xs[i]
    ensures 0.0 <= Mean(xs)
  {
    if |xs| > 0 {
      SumNonNegative(xs);
      var s, n := SumReals(xs), |xs| as real;
      assert 0.0 <= s / n;
    }
  }

  lemma {:induction false} SumNonNegative(xs: seq<real>)
    requires forall i :: 0 <= i < |xs| ==> 0.0 <= xs[i]
    ensures 0.0 <= SumReals(xs)
    decreases |xs|
  {
    if xs != [] {
      SumNonNegative(xs[..|xs| - 1]);
    }
  }

  // ---------------------------------------------------------------------
  // Papers

  /** `paperCmp` (feature.py:94-102): title and venue-name string distances,
      each in [0,1]. */
  function PaperCmp(ext: Ext, paper1: PaperInfo, paper2: PaperInfo): (r: seq<real>)
    requires ext.Valid()
    ensures |r| == 2
    ensures 0.0 <= r[0] <= 1.0 && 0.0 <= r[1] <= 1.0
    ensures paper1.title == [] || paper2.title == [] ==> r[0] == 0.0
    ensures paper1.publish == [] || paper2.publish == [] ==> r[1] == 0.0
  {
    [StringDistance(ext, paper1.title, paper2.title),
     StringDistance(ext, paper1.publish, paper2.publish)]
  }

  /** The results of `paperCmp` against each publication. */
  function PaperResults(ext: Ext, paper: PaperInfo, publications: seq<PaperInfo>): (vs: seq<seq<real>>)
    requires ext.Valid()
    ensures |vs| == |publications|
  {
    seq(|publications|, k requires 0 <= k < |publications| => PaperCmp(ext, paper, publications[k]))
  }

  /** `publicationCmp` (feature.py:105-120). */
  method PublicationCmp(ext: Ext, paper: PaperInfo, publications: seq<PaperInfo>) returns (mean: seq<real>)
    requires ext.Valid()
    ensures mean == MeanVector(PaperResults(ext, paper, publications), 2)
  {
    var results: seq<seq<real>> := [];
    ghost var vs := PaperResults(ext, paper, publications);
    for k := 0 to |publications|
      invariant results == vs[..k]
      invariant forall i :: 0 <= i < k ==> |results[i]| == 2
    {
      var ret := PaperCmp(ext, paper, publications[k]);
      results := results + [ret];
    }
    assert vs[..|publications|] == vs;
    mean := AverageColumns(results, 2);
  }

  /** `publicationCmp` returns two components in [0,1], both 0 when the
      author has no publications. */
  lemma PublicationCmpBounds(ext: Ext, paper: PaperInfo, publications: seq<PaperInfo>)
    requires ext.Valid()
    ensures var m := MeanVector(PaperResults(ext, paper, publications), 2);
      |m| == 2 && 0.0 <= m[0] <= 1.0 && 0.0 <= m[1] <= 1.0
    ensures publications == [] ==> MeanVector(PaperResults(ext, paper, publications), 2) == [0.0, 0.0]
  {
    MeanVectorBounds(PaperResults(ext, paper, publications), 2, 1.0);
  }
}
