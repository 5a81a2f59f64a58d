/** `readTestFull` (feature.py:527-596): each test author is scored against
    every labelled author by affiliation, mean paper year and venue counts,
    and the five best-scoring labelled authors are picked by popping the
    maximum of the score dict five times. */
module Neighbours {
  import opened Util
  import opened Metrics
  import opened Catalog

  /** A row of Test.csv: the author and the paper ids of its second column. */
  datatype TestRow = TestRow(aid: int, pids: seq<int>)

  /** A row written by `readTestFull`: the test author followed by the picked
      `(labelled author, score)` pairs. */
  datatype NeighbourRow = NeighbourRow(aid: int, picked: seq<(int, real)>)

  /** The tables `readTestFull` reads: the catalog's affiliations, years and
      venues, the labelled authors (the keys of `confirmed`), and their mean
      year and venue counts from `readTrain`. */
  datatype Learned = Learned(
    authorAffiliation: map<int, string>,
    paperYear: map<int, real>,
    paperPublish: map<int, int>,
    learned: set<int>,
    trainYear: map<int, real>,
    trainCount: map<int, map<int, real>>)

  /** The weight of each of the three similarity terms (feature.py:577, 585). */
  const Weight: real := 0.33

  // ---------------------------------------------------------------------
  // Scores

  /** `nyear`: the mean stored year of the test author's papers, a missing
      year counting as 0. */
  function UnknownYear(k: Learned, pids: seq<int>): real
    requires pids != []
  {
    SumReals(YearsOf(pids, k.paperYear)) / |pids| as real
  }

  /** `ncount`: how many of the test author's papers appeared in each venue. */
  function UnknownCounts(k: Learned, pids: seq<int>): map<int, real> {
    Bump(map[], Venues(pids, k.paperPublish))
  }

  /** `yearDistance` for labelled author `caid`: `sqrt((trainYear - nyear) ** 2)`,
      the absolute difference of the two mean years (see `SqrtOfSquare`). */
  function YearDistance(k: Learned, nyear: real, caid: int): (d: real)
    ensures 0.0 <= d
  {
    Abs(Get(k.trainYear, caid, 0.0) - nyear)
  }

  /** The non-negative square root of `x * x` is `|x|`. */
  lemma SqrtOfSquare(ext: Ext, x: real)
    requires ext.Valid()
    ensures ext.sqrt(Square(x)) == Abs(x)
  {
    var s := ext.sqrt(Square(x));
    var a := Abs(x);
    assert 0.0 <= s && s * s == x * x;
    assert (s - a) * (s + a) == 0.0;
    if s + a == 0.0 {
      assert s == 0.0 && a == 0.0;
    } else {
      assert s - a == ((s - a) * (s + a)) / (s + a);
    }
  }

  /** `countDistance` for labelled author `caid`: the Euclidean distance of
      the two venue-count maps, computed by the same two passes as
      `euclidean_distance`. */
  ghost function CountDistance(ext: Ext, k: Learned, ncount: map<int, real>, caid: int): (d: real)
    requires ext.Valid()
    ensures 0.0 <= d
  {
    Distance(ext, ncount, Get(k.trainCount, caid, map[]))
  }

  /** `neighbority` after the first labelled-author loop: the weighted
      affiliation similarity of each labelled author. */
  function Affinities(ext: Ext, k: Learned, naff: string): (m: map<int, real>)
    requires ext.Valid()
    ensures m.Keys == k.learned
    ensures forall caid :: caid in m ==> 0.0 <= m[caid] <= Weight
  {
    map caid | caid in k.learned :: Affinity(ext, k, naff, caid)
  }

  /** `0.33 * stringDistance(naff, caff)` for labelled author `caid`. */
  function Affinity(ext: Ext, k: Learned, naff: string, caid: int): (a: real)
    requires ext.Valid()
    ensures 0.0 <= a <= Weight
  {
    Weight * StringDistance(ext, naff, Get(k.authorAffiliation, caid, ""))
  }

  /** `neighborYear` once every labelled author is visited. */
  function YearDistances(ext: Ext, k: Learned, nyear: real): (m: map<int, real>)
    requires ext.Valid()
    ensures m.Keys == k.learned
    ensures forall caid :: caid in m ==> 0.0 <= m[caid]
  {
    map caid | caid in k.learned :: YearDistance(k, nyear, caid)
  }

  /** `neighborCount` once every labelled author is visited. */
  ghost function CountDistances(ext: Ext, k: Learned, ncount: map<int, real>): (m: map<int, real>)
    requires ext.Valid()
    ensures m.Keys == k.learned
    ensures forall caid :: caid in m ==> 0.0 <= m[caid]
  {
    map caid | caid in k.learned :: CountDistance(ext, k, ncount, caid)
  }

  /** The second labelled-author loop's result: each score grown by the year
      and count distances scaled by their maxima. */
  function Combine(base: map<int, real>, years: map<int, real>, counts: map<int, real>, maxYear: real, maxCount: real): (scores: map<int, real>)
    requires years.Keys == base.Keys && counts.Keys == base.Keys
    requires maxYear != 0.0 && maxCount != 0.0
    ensures scores.Keys == base.Keys
  {
    map caid | caid in base :: Rescored(base, years, counts, maxYear, maxCount, caid)
  }

  /** The second loop's new score for one labelled author. */
  function Rescored(base: map<int, real>, years: map<int, real>, counts: map<int, real>, maxYear: real, maxCount: real, caid: int): real
    requires caid in base && caid in years && caid in counts
    requires maxYear != 0.0 && maxCount != 0.0
  {
    base[caid] + (Weight * years[caid] / maxYear + Weight * counts[caid] / maxCount)
  }

  /** Scaling by the maxima keeps each of the three terms within its
      weight, so every combined score lies in [0, 3 * 0.33]. */
  lemma CombineInRange(base: map<int, real>, years: map<int, real>, counts: map<int, real>, maxYear: real, maxCount: real)
    requires years.Keys == base.Keys && counts.Keys == base.Keys
    requires maxYear > 0.0 && maxCount > 0.0
    requires forall caid :: caid in base ==> 0.0 <= base[caid] <= Weight
    requires forall caid :: caid in years ==> 0.0 <= years[caid] <= maxYear
    requires forall caid :: caid in counts ==> 0.0 <= counts[caid] <= maxCount
    ensures forall caid :: caid in base ==>
      0.0 <= Combine(base, years, counts, maxYear, maxCount)[caid] <= 3.0 * Weight
  {
    forall caid | caid in base
      ensures 0.0 <= Combine(base, years, counts, maxYear, maxCount)[caid] <= 3.0 * Weight
    {
      UnitRatio(years[caid], maxYear);
      UnitRatio(counts[caid], maxCount);
      assert Weight * years[caid] / maxYear == Weight * (years[caid] / maxYear);
      assert Weight * counts[caid] / maxCount == Weight * (counts[caid] / maxCount);
    }
  }

  /** The test rows `readTestFull` can process: the divisions by
      `len(pids)`, `max_year` and `max_count` need some paper, some
      labelled author, and some labelled author at a non-zero year distance
      and at a non-zero count distance (`max` of an empty dict raises). */
  ghost predicate TestFullRowOk(ext: Ext, k: Learned, pids: seq<int>)
    requires ext.Valid()
  {
    && pids != []
    && (exists caid :: caid in k.learned && YearDistance(k, UnknownYear(k, pids), caid) != 0.0)
    && (exists caid :: caid in k.learned && CountDistance(ext, k, UnknownCounts(k, pids), caid) != 0.0)
  }

  /** Both maxima are positive on a row `readTestFull` can process. */
  lemma MaximaPositive(ext: Ext, k: Learned, pids: seq<int>)
    requires ext.Valid() && TestFullRowOk(ext, k, pids)
    ensures YearDistances(ext, k, UnknownYear(k, pids)) != map[]
    ensures CountDistances(ext, k, UnknownCounts(k, pids)) != map[]
    ensures MaxOf(YearDistances(ext, k, UnknownYear(k, pids))) > 0.0
    ensures MaxOf(CountDistances(ext, k, UnknownCounts(k, pids))) > 0.0
  {
    var years := YearDistances(ext, k, UnknownYear(k, pids));
    var counts := CountDistances(ext, k, UnknownCounts(k, pids));
    var c :| c in k.learned && YearDistance(k, UnknownYear(k, pids), c) != 0.0;
    assert c in years;
    var d :| d in k.learned && CountDistance(ext, k, UnknownCounts(k, pids), d) != 0.0;
    assert d in counts;
  }

  /** `neighbority` before the selection: for each labelled author,
      `0.33 * stringDistance(affiliations) + 0.33 * yearDistance / max_year
      + 0.33 * countDistance / max_count`. */
  ghost function Scores(ext: Ext, k: Learned, aid: int, pids: seq<int>): (scores: map<int, real>)
    requires ext.Valid() && TestFullRowOk(ext, k, pids)
    ensures scores.Keys == k.learned
  {
    var years := YearDistances(ext, k, UnknownYear(k, pids));
    var counts := CountDistances(ext, k, UnknownCounts(k, pids));
    MaximaPositive(ext, k, pids);
    Combine(Affinities(ext, k, Get(k.authorAffiliation, aid, "")), years, counts, MaxOf(years), MaxOf(counts))
  }

  /** How many neighbours a test author gets (`range(5)`). */
  const NeighbourCount: nat := 5

  /** Every score lies between 0 and `3 * 0.33`: each of the three terms is
      a weight times a number in [0,1]. */
  lemma ScoresInRange(ext: Ext, k: Learned, aid: int, pids: seq<int>)
    requires ext.Valid() && TestFullRowOk(ext, k, pids)
    ensures forall caid :: caid in Scores(ext, k, aid, pids) ==>
      0.0 <= Scores(ext, k, aid, pids)[caid] <= 3.0 * Weight
  {
    var years := YearDistances(ext, k, UnknownYear(k, pids));
    var counts := CountDistances(ext, k, UnknownCounts(k, pids));
    MaximaPositive(ext, k, pids);
    CombineInRange(Affinities(ext, k, Get(k.authorAffiliation, aid, "")), years, counts, MaxOf(years), MaxOf(counts));
  }

  /** One more paper's year added to the total. */
  lemma YearTotalStep(pids: seq<int>, j: nat, paperYear: map<int, real>)
    requires j < |pids|
    ensures SumReals(YearsOf(pids[..j + 1], paperYear)) == SumReals(YearsOf(pids[..j], paperYear)) + Get(paperYear, pids[j], 0.0)
  {
    assert YearsOf(pids[..j + 1], paperYear) == YearsOf(pids[..j], paperYear) + [Get(paperYear, pids[j], 0.0)];
    SumRealsAppend(YearsOf(pids[..j], paperYear), Get(paperYear, pids[j], 0.0));
  }

  /** The unknown author's loop (feature.py:549-560): the total stored year
      of the papers and the venue counts. */
  method ScanUnknown(k: Learned, pids: seq<int>) returns (nyear: real, ncount: map<int, real>)
    ensures nyear == SumReals(YearsOf(pids, k.paperYear))
    ensures ncount == UnknownCounts(k, pids)
  {
    nyear, ncount := 0.0, map[];
    for j := 0 to |pids|
      invariant nyear == SumReals(YearsOf(pids[..j], k.paperYear))
      invariant ncount == Bump(map[], Venues(pids[..j], k.paperPublish))
    {
      var pid := pids[j];
      VenueCountStep(map[], pids, j, k.paperPublish);
      if pid in k.paperPublish {
        var cid := k.paperPublish[pid];
        ncount := ncount[cid := Get(ncount, cid, 0.0) + 1.0];
      }
      YearTotalStep(pids, j, k.paperYear);
      nyear := nyear + Get(k.paperYear, pid, 0.0);
    }
    TakeAll(pids);
  }

  /** The labelled-author loop (feature.py:563-579): for each labelled
      author, the weighted affiliation similarity, the year distance and
      the count distance. */
  method ScanLearned(ext: Ext, k: Learned, naff: string, nyear: real, ncount: map<int, real>)
    returns (base: map<int, real>, years: map<int, real>, counts: map<int, real>)
    requires ext.Valid()
    ensures base == Affinities(ext, k, naff)
    ensures years == YearDistances(ext, k, nyear)
    ensures counts == CountDistances(ext, k, ncount)
  {
    base, years, counts := map[], map[], map[];
    var todo := k.learned;
    while todo != {}
      invariant Scanned(ext, k, naff, nyear, ncount, todo, base, years, counts)
      decreases |todo|
    {
      Inhabited(todo);
      var caid :| caid in todo;
      var affinity, yearDistance, countDistance := Neighbour(ext, k, naff, nyear, ncount, caid);
      ScannedStep(ext, k, naff, nyear, ncount, todo, base, years, counts, caid);
      base := base[caid := affinity];
      years := years[caid := yearDistance];
      counts := counts[caid := countDistance];
      todo := todo - {caid};
    }
    ScanLearnedComplete(ext, k, naff, nyear, ncount, base, years, counts);
  }

  /** The three maps of the labelled-author loop while the authors of
      `todo` are still to be visited. */
  ghost predicate Scanned(ext: Ext, k: Learned, naff: string, nyear: real, ncount: map<int, real>,
                          todo: set<int>, base: map<int, real>, years: map<int, real>, counts: map<int, real>)
    requires ext.Valid()
  {
    var done := k.learned - todo;
    && todo <= k.learned
    && base.Keys == done && years.Keys == done && counts.Keys == done
    && (forall caid :: caid in done ==> base[caid] == Affinity(ext, k, naff, caid))
    && (forall caid :: caid in done ==> years[caid] == YearDistance(k, nyear, caid))
    && (forall caid :: caid in done ==> counts[caid] == CountDistance(ext, k, ncount, caid))
  }

  /** Visiting one more labelled author. */
  lemma ScannedStep(ext: Ext, k: Learned, naff: string, nyear: real, ncount: map<int, real>,
                    todo: set<int>, base: map<int, real>, years: map<int, real>, counts: map<int, real>, caid: int)
    requires ext.Valid() && Scanned(ext, k, naff, nyear, ncount, todo, base, years, counts) && caid in todo
    ensures Scanned(ext, k, naff, nyear, ncount, todo - {caid},
      base[caid := Affinity(ext, k, naff, caid)], years[caid := YearDistance(k, nyear, caid)],
      counts[caid := CountDistance(ext, k, ncount, caid)])
  {
  }

  /** The body of the labelled-author loop for `caid`. */
  method Neighbour(ext: Ext, k: Learned, naff: string, nyear: real, ncount: map<int, real>, caid: int)
    returns (affinity: real, yearDistance: real, countDistance: real)
    requires ext.Valid()
    ensures affinity == Affinity(ext, k, naff, caid)
    ensures yearDistance == YearDistance(k, nyear, caid)
    ensures countDistance == CountDistance(ext, k, ncount, caid)
  {
    var caff := Get(k.authorAffiliation, caid, "");
    yearDistance := ext.sqrt(Square(Get(k.trainYear, caid, 0.0) - nyear));
    SqrtOfSquare(ext, Get(k.trainYear, caid, 0.0) - nyear);
    countDistance := EuclideanDistance(ext, ncount, Get(k.trainCount, caid, map[]));
    affinity := Weight * StringDistance(ext, naff, caff);
  }

  /** Maps that agree with the three per-author values on every labelled
      author are the three maps of the loop. */
  lemma ScanLearnedComplete(ext: Ext, k: Learned, naff: string, nyear: real, ncount: map<int, real>,
                            base: map<int, real>, years: map<int, real>, counts: map<int, real>)
    requires ext.Valid() && Scanned(ext, k, naff, nyear, ncount, {}, base, years, counts)
    ensures base == Affinities(ext, k, naff)
    ensures years == YearDistances(ext, k, nyear)
    ensures counts == CountDistances(ext, k, ncount)
  {
    assert k.learned - {} == k.learned;
    AffinitiesComplete(ext, k, naff, base);
    YearDistancesComplete(ext, k, nyear, years);
    CountDistancesComplete(ext, k, ncount, counts);
  }

  lemma AffinitiesComplete(ext: Ext, k: Learned, naff: string, base: map<int, real>)
    requires ext.Valid() && base.Keys == k.learned
    requires forall caid :: caid in k.learned ==> base[caid] == Affinity(ext, k, naff, caid)
    ensures base == Affinities(ext, k, naff)
  {
  }

  lemma YearDistancesComplete(ext: Ext, k: Learned, nyear: real, years: map<int, real>)
    requires ext.Valid() && years.Keys == k.learned
    requires forall caid :: caid in k.learned ==> years[caid] == YearDistance(k, nyear, caid)
    ensures years == YearDistances(ext, k, nyear)
  {
  }

  lemma CountDistancesComplete(ext: Ext, k: Learned, ncount: map<int, real>, counts: map<int, real>)
    requires ext.Valid() && counts.Keys == k.learned
    requires forall caid :: caid in k.learned ==> counts[caid] == CountDistance(ext, k, ncount, caid)
    ensures counts == CountDistances(ext, k, ncount)
  {
  }

  /** The second labelled-author loop (feature.py:582-585): each score grows
      by the year and count distances scaled by their maxima. */
  method AddScaled(base: map<int, real>, years: map<int, real>, counts: map<int, real>, maxYear: real, maxCount: real)
    returns (scores: map<int, real>)
    requires years.Keys == base.Keys == counts.Keys
    requires maxYear != 0.0 && maxCount != 0.0
    ensures scores == Combine(base, years, counts, maxYear, maxCount)
  {
    scores := base;
    var todo := base.Keys;
    while todo != {}
      invariant todo <= base.Keys && scores.Keys == base.Keys
      invariant forall caid :: caid in todo ==> scores[caid] == base[caid]
      invariant forall caid :: caid in base.Keys - todo ==> scores[caid] == Rescored(base, years, counts, maxYear, maxCount, caid)
      decreases |todo|
    {
      Inhabited(todo);
      var caid :| caid in todo;
      scores := scores[caid := scores[caid] + (Weight * years[caid] / maxYear + Weight * counts[caid] / maxCount)];
      todo := todo - {caid};
    }
    assert forall caid :: caid in scores ==> scores[caid] == Combine(base, years, counts, maxYear, maxCount)[caid];
  }

  /** The maps of the labelled-author loop decide whether the row can be
      processed: past the division by `len(pids)`, the row fails exactly when
      the maps are empty (`max` of an empty dict) or all year or all count
      distances are 0 (a division by a zero maximum). */
  lemma RowOkIff(ext: Ext, k: Learned, pids: seq<int>, years: map<int, real>, counts: map<int, real>)
    requires ext.Valid() && pids != []
    requires years == YearDistances(ext, k, UnknownYear(k, pids))
    requires counts == CountDistances(ext, k, UnknownCounts(k, pids))
    ensures TestFullRowOk(ext, k, pids) <==>
      (exists caid :: caid in years && years[caid] != 0.0) && (exists caid :: caid in counts && counts[caid] != 0.0)
  {
    if TestFullRowOk(ext, k, pids) {
      RowOkWitnesses(ext, k, pids, years, counts);
    }
    if (exists caid :: caid in years && years[caid] != 0.0) && (exists caid :: caid in counts && counts[caid] != 0.0) {
      WitnessesRowOk(ext, k, pids, years, counts);
    }
  }

  lemma RowOkWitnesses(ext: Ext, k: Learned, pids: seq<int>, years: map<int, real>, counts: map<int, real>)
    requires ext.Valid() && TestFullRowOk(ext, k, pids)
    requires years == YearDistances(ext, k, UnknownYear(k, pids))
    requires counts == CountDistances(ext, k, UnknownCounts(k, pids))
    ensures exists caid :: caid in years && years[caid] != 0.0
    ensures exists caid :: caid in counts && counts[caid] != 0.0
  {
    var c :| c in k.learned && YearDistance(k, UnknownYear(k, pids), c) != 0.0;
    assert c in years && years[c] != 0.0;
    var d :| d in k.learned && CountDistance(ext, k, UnknownCounts(k, pids), d) != 0.0;
    assert d in counts && counts[d] != 0.0;
  }

  lemma WitnessesRowOk(ext: Ext, k: Learned, pids: seq<int>, years: map<int, real>, counts: map<int, real>)
    requires ext.Valid() && pids != []
    requires years == YearDistances(ext, k, UnknownYear(k, pids))
    requires counts == CountDistances(ext, k, UnknownCounts(k, pids))
    requires exists caid :: caid in years && years[caid] != 0.0
    requires exists caid :: caid in counts && counts[caid] != 0.0
    ensures TestFullRowOk(ext, k, pids)
  {
    var c :| c in years && years[c] != 0.0;
    assert YearDistance(k, UnknownYear(k, pids), c) != 0.0;
    var d :| d in counts && counts[d] != 0.0;
    assert CountDistance(ext, k, UnknownCounts(k, pids), d) != 0.0;
  }

  /** One Test.csv row of `readTestFull`: the author and the best five
      labelled authors by score for its deduplicated paper ids, or `None`
      where the source raises (`ZeroDivisionError` or `ValueError`). */
  method ReadTestFullRow(ext: Ext, k: Learned, row: TestRow) returns (nrow: Option<NeighbourRow>)
    requires ext.Valid()
    ensures nrow.None? <==> !TestFullRowOk(ext, k, Dedup(row.pids))
    ensures nrow.Some? ==> IsNeighbourRow(ext, k, row, nrow.value)
  {
    var aid, pids := row.aid, Dedup(row.pids);
    var naff := Get(k.authorAffiliation, aid, "");
    var nyear, ncount := ScanUnknown(k, pids);
    if |pids| == 0 {
      return None;
    }
    nyear := nyear / |pids| as real;
    var neighbority, neighborYear, neighborCount := ScanLearned(ext, k, naff, nyear, ncount);
    RowOkIff(ext, k, pids, neighborYear, neighborCount);
    if neighborYear == map[] {
      return None;
    }
    var _, maxYear := MaxItem(neighborYear);
    var _, maxCount := MaxItem(neighborCount);
    if maxYear == 0.0 || maxCount == 0.0 {
      return None;
    }
    MaxOfIsMax(neighborYear, maxYear);
    MaxOfIsMax(neighborCount, maxCount);
    var scores := AddScaled(neighbority, neighborYear, neighborCount, maxYear, maxCount);
    assert scores == Scores(ext, k, aid, pids);
    var picked := SelectNearest(scores);
    nrow := Some(NeighbourRow(aid, picked));
  }

  /** The largest value of a map is the one `MaxItem` finds. */
  lemma MaxOfIsMax(m: map<int, real>, v: real)
    requires m != map[]
    requires (exists k :: k in m && m[k] == v) && forall j :: j in m ==> m[j] <= v
    ensures MaxOf(m) == v
  {
    var k :| IsMaxKey(m, k) && m[k] == MaxOf(m);
    var j :| j in m && m[j] == v;
  }

  /** `nrow` is what `readTestFull` writes for `row`: the row can be
      processed, and `nrow` holds the row's author and a best-five selection
      of its scores. */
  ghost predicate IsNeighbourRow(ext: Ext, k: Learned, row: TestRow, nrow: NeighbourRow)
    requires ext.Valid()
  {
    && TestFullRowOk(ext, k, Dedup(row.pids))
    && nrow.aid == row.aid
    && IsTopK(Scores(ext, k, row.aid, Dedup(row.pids)), nrow.picked)
  }

  /** `out` is what `readTestFull` writes for the first `|out|` of `rows`,
      row by row. */
  ghost predicate IsNeighbourOutput(ext: Ext, k: Learned, rows: seq<TestRow>, out: seq<NeighbourRow>)
    requires ext.Valid()
    decreases |out|
  {
    |out| <= |rows| &&
    (out == [] ||
     (IsNeighbourOutput(ext, k, rows, out[..|out| - 1]) && IsNeighbourRow(ext, k, rows[|out| - 1], out[|out| - 1])))
  }

  /** Row `i` of the output is the neighbour row of input row `i`. */
  lemma {:induction false} NeighbourOutputIndex(ext: Ext, k: Learned, rows: seq<TestRow>, out: seq<NeighbourRow>, i: nat)
    requires ext.Valid()
    requires IsNeighbourOutput(ext, k, rows, out) && i < |out|
    ensures IsNeighbourRow(ext, k, rows[i], out[i])
    decreases |out|
  {
    if i < |out| - 1 {
      NeighbourOutputIndex(ext, k, rows, out[..|out| - 1], i);
      assert out[..|out| - 1][i] == out[i];
    }
  }

  /** Writing the neighbour row of the next input row extends the output. */
  lemma NeighbourOutputAppend(ext: Ext, k: Learned, rows: seq<TestRow>, out: seq<NeighbourRow>, nrow: NeighbourRow)
    requires ext.Valid() && IsNeighbourOutput(ext, k, rows, out) && |out| < |rows|
    requires IsNeighbourRow(ext, k, rows[|out|], nrow)
    ensures IsNeighbourOutput(ext, k, rows, out + [nrow])
  {
    assert (out + [nrow])[..|out|] == out;
  }

  /** `readTestFull` (feature.py:527-596) on parsed Test.csv rows: the rows
      written, one per input row, up to the first row the source cannot
      process, where it raises and stops (`failed`). */
  method ReadTestFullRows(ext: Ext, k: Learned, rows: seq<TestRow>) returns (out: seq<NeighbourRow>, failed: bool)
    requires ext.Valid()
    ensures IsNeighbourOutput(ext, k, rows, out)
    ensures !failed ==> |out| == |rows|
    ensures failed ==> |out| < |rows| && !TestFullRowOk(ext, k, Dedup(rows[|out|].pids))
  {
    out, failed := [], false;
    while |out| < |rows|
      invariant IsNeighbourOutput(ext, k, rows, out)
      decreases |rows| - |out|
    {
      var nrow := ReadTestFullRow(ext, k, rows[|out|]);
      if nrow.None? {
        return out, true;
      }
      NeighbourOutputAppend(ext, k, rows, out, nrow.value);
      out := out + [nrow.value];
    }
  }

  // ---------------------------------------------------------------------
  // Selection

  /** The ids already taken. */
  function PickedIds(picked: seq<(int, real)>): set<int> {
    set i | 0 <= i < |picked| :: picked[i].0
  }

  /** `picked` is a best-`NeighbourCount` selection of `scores`, best first:
      as many pairs as possible up to the limit, each a distinct entry of
      `scores`, scores non-increasing, and no unselected author scoring
      higher than any selected one. */
  predicate IsTopK(scores: map<int, real>, picked: seq<(int, real)>) {
    && |picked| == Min(NeighbourCount, |scores|)
    && (forall i :: 0 <= i < |picked| ==> picked[i].0 in scores && scores[picked[i].0] == picked[i].1)
    && (forall i, j :: 0 <= i < j < |picked| ==> picked[i].0 != picked[j].0)
    && (forall i, j :: 0 <= i < j < |picked| ==> picked[i].1 >= picked[j].1)
    && (forall i, k :: 0 <= i < |picked| && k in scores && k !in PickedIds(picked) ==> scores[k] <= picked[i].1)
  }

  /** The state of the selection loop: `picked` holds the best entries so
      far, best first, and `rest` is what is left of `scores`. */
  predicate Selection(scores: map<int, real>, picked: seq<(int, real)>, rest: map<int, real>) {
    && Remaining(scores, picked, rest)
    && Picked(scores, picked)
    && (forall j, k :: 0 <= j < |picked| && k in rest ==> rest[k] <= picked[j].1)
  }

  /** `rest` is `scores` without the picked ids. */
  predicate Remaining(scores: map<int, real>, picked: seq<(int, real)>, rest: map<int, real>) {
    && rest.Keys == scores.Keys - PickedIds(picked)
    && (forall k :: k in rest ==> rest[k] == scores[k])
    && |rest| + |picked| == |scores|
  }

  /** The picked pairs are distinct entries of `scores`, best first. */
  predicate Picked(scores: map<int, real>, picked: seq<(int, real)>) {
    && (forall j :: 0 <= j < |picked| ==> picked[j].0 in scores && scores[picked[j].0] == picked[j].1)
    && (forall j, l :: 0 <= j < l < |picked| ==> picked[j].0 != picked[l].0)
    && (forall j, l :: 0 <= j < l < |picked| ==> picked[j].1 >= picked[l].1)
  }

  lemma PickedIdsAppend(picked: seq<(int, real)>, p: (int, real))
    ensures PickedIds(picked + [p]) == PickedIds(picked) + {p.0}
  {
    var after := picked + [p];
    assert forall i :: 0 <= i < |picked| ==> after[i] == picked[i];
    assert after[|picked|] == p;
  }

  lemma RemainingStep(scores: map<int, real>, picked: seq<(int, real)>, rest: map<int, real>, id: int)
    requires Remaining(scores, picked, rest) && id in rest
    ensures Remaining(scores, picked + [(id, rest[id])], rest - {id})
  {
    PickedIdsAppend(picked, (id, rest[id]));
    assert (rest - {id}).Keys == rest.Keys - {id};
  }

  lemma PickedStep(scores: map<int, real>, picked: seq<(int, real)>, rest: map<int, real>, id: int)
    requires Selection(scores, picked, rest) && IsMaxKey(rest, id)
    ensures Picked(scores, picked + [(id, rest[id])])
  {
    var after := picked + [(id, rest[id])];
    assert id !in PickedIds(picked);
    assert forall j :: 0 <= j < |picked| ==> picked[j].0 in PickedIds(picked);
    assert forall j :: 0 <= j < |picked| ==> after[j] == picked[j];
  }

  /** Popping a best remaining entry keeps the selection state. */
  lemma PickBest(scores: map<int, real>, picked: seq<(int, real)>, rest: map<int, real>, id: int)
    requires Selection(scores, picked, rest) && IsMaxKey(rest, id)
    ensures Selection(scores, picked + [(id, rest[id])], rest - {id})
  {
    RemainingStep(scores, picked, rest, id);
    PickedStep(scores, picked, rest, id);
  }

  /** When the loop stops, the selection is a best-`NeighbourCount` one. */
  lemma SelectionComplete(scores: map<int, real>, picked: seq<(int, real)>, rest: map<int, real>)
    requires Selection(scores, picked, rest)
    requires |picked| == NeighbourCount || (|picked| < NeighbourCount && rest == map[])
    ensures IsTopK(scores, picked)
  {
    assert forall k :: k in scores && k !in PickedIds(picked) ==> k in rest;
  }

  /** The top-5 loop (feature.py:587-594): take the best remaining entry,
      record it, pop it; stop early when nothing is left (the `ValueError`
      of `max` on an empty dict). */
  method SelectNearest(scores: map<int, real>) returns (picked: seq<(int, real)>)
    ensures IsTopK(scores, picked)
  {
    var neighbority := scores;
    picked := [];
    assert PickedIds(picked) == {};
    for i := 0 to NeighbourCount
      invariant |picked| == i
      invariant Selection(scores, picked, neighbority)
    {
      if neighbority == map[] {
        break;
      }
      var id, score := MaxItem(neighbority);
      PickBest(scores, picked, neighbority, id);
      picked := picked + [(id, score)];
      neighbority := neighbority - {id};
    }
    SelectionComplete(scores, picked, neighbority);
  }
}
