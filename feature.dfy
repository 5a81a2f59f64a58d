/** The `Data` class of feature.py (feature.py:125-651): the catalog tables
    its readers fill, the training tables `readTrain` fills, and the feature
    rows `readTrain` and `readTestFull` emit. CSV files arrive
    as already-parsed rows and written files leave as returned rows. */
module Feature {
  import opened Util
  import opened Text
  import opened Metrics
  import opened Comparator
  import opened Catalog
  import opened Neighbours

  /** A row of Train.csv: `Short` when it has fewer than three columns
      (`readTrain` skips it); otherwise the author and the paper ids of its
      confirmed and deleted columns, as split. */
  datatype TrainRow = Short | TrainRow(aid: int, confirmed: seq<int>, deleted: seq<int>)

  /** The header row of the preprocess file of `readTrain` (feature.py:418-419). */
  const TrainHeader: seq<string> := ["AuthorId", "PaperId", "PaperYear", "PublishCount", "PaperTitle", "Publish", "mark"]

  /** The header row of the neighbour file of `readTestFull` (feature.py:534),
      spelling included. */
  const TestFullHeader: seq<string> := ["AuthorId", "PaperId", "KnonwAuthorId", "Similarity"]

  /** A written preprocess row: `[aid, pid, yearNorm] + authorSimilarity +
      paperSimilarity + [mark]`. */
  datatype FeatureRow = FeatureRow(aid: int, pid: int, year: real, author: seq<real>, paper: seq<real>, mark: int)

  /** The tables `readTrain` fills. */
  datatype TrainTables = TrainTables(
    confirmed: map<int, seq<int>>,
    deleted: map<int, seq<int>>,
    trainYear: map<int, real>,
    trainCount: map<int, map<int, real>>)

  /** `for v in venues: d[k][v] += 1` on a defaultdict of defaultdicts: the
      author's map appears only once a venue is counted. */
  function TallyVenues(m: map<int, map<int, real>>, k: int, venues: seq<int>): map<int, map<int, real>> {
    if venues == [] then m else m[k := Bump(Get(m, k, map[]), venues)]
  }

  /** Counting one more venue. */
  lemma TallyStep(m: map<int, map<int, real>>, k: int, venues: seq<int>, v: int)
    ensures TallyVenues(m, k, venues + [v])
      == TallyVenues(m, k, venues)[k := Get(TallyVenues(m, k, venues), k, map[])[v := Get(Get(TallyVenues(m, k, venues), k, map[]), v, 0.0) + 1.0]]
  {
    BumpStep(Get(m, k, map[]), venues, v);
  }

  /** `trainYear[aid] += year` for each of `pids` on a defaultdict: the
      author's entry grows by the papers' total year, and appears only with
      the first paper. */
  function YearTotal(years: map<int, real>, aid: int, pids: seq<int>, paperYear: map<int, real>): map<int, real> {
    if pids == [] then years else years[aid := Get(years, aid, 0.0) + SumReals(YearsOf(pids, paperYear))]
  }

  /** One pass of the confirmed-paper loop of `readTrain` (feature.py:437-442)
      on the training tables: the paper appended to the author's list, its
      venue counted when it has one, its year added to the author's year. */
  function ConfirmStep(t: TrainTables, aid: int, pid: int, paperYear: map<int, real>, paperPublish: map<int, int>): TrainTables {
    var authorCounts := Get(t.trainCount, aid, map[]);
    t.(confirmed := t.confirmed[aid := Get(t.confirmed, aid, []) + [pid]],
       trainYear := t.trainYear[aid := Get(t.trainYear, aid, 0.0) + Get(paperYear, pid, 0.0)],
       trainCount := if pid in paperPublish
                     then t.trainCount[aid := authorCounts[paperPublish[pid] := Get(authorCounts, paperPublish[pid], 0.0) + 1.0]]
                     else t.trainCount)
  }

  /** The training tables once the confirmed-paper loop has met `cs`. */
  function ConfirmedTables(t: TrainTables, aid: int, cs: seq<int>, paperYear: map<int, real>, paperPublish: map<int, int>): TrainTables
    decreases |cs|
  {
    if cs == [] then t
    else ConfirmStep(ConfirmedTables(t, aid, cs[..|cs| - 1], paperYear, paperPublish), aid, cs[|cs| - 1], paperYear, paperPublish)
  }

  /** What the confirmed-paper loop leaves, table by table: the ids appended
      to the author's list, the author's year grown by the papers' years (the
      defaultdict entry appears with the first paper), their venues tallied,
      and the deleted table untouched. */
  lemma ConfirmedTablesClosed(t: TrainTables, aid: int, cs: seq<int>, paperYear: map<int, real>, paperPublish: map<int, int>)
    ensures var c := ConfirmedTables(t, aid, cs, paperYear, paperPublish);
      && c.confirmed == AppendAll(t.confirmed, aid, cs)
      && c.deleted == t.deleted
      && c.trainYear == YearTotal(t.trainYear, aid, cs, paperYear)
      && c.trainCount == TallyVenues(t.trainCount, aid, Venues(cs, paperPublish))
  {
    ConfirmedTablesLists(t, aid, cs, paperYear, paperPublish);
    ConfirmedTablesYears(t, aid, cs, paperYear, paperPublish);
    ConfirmedTablesCounts(t, aid, cs, paperYear, paperPublish);
  }

  lemma {:induction false} ConfirmedTablesLists(t: TrainTables, aid: int, cs: seq<int>, paperYear: map<int, real>, paperPublish: map<int, int>)
    ensures ConfirmedTables(t, aid, cs, paperYear, paperPublish).confirmed == AppendAll(t.confirmed, aid, cs)
    ensures ConfirmedTables(t, aid, cs, paperYear, paperPublish).deleted == t.deleted
    decreases |cs|
  {
    if cs != [] {
      var init, pid := cs[..|cs| - 1], cs[|cs| - 1];
      assert cs == init + [pid];
      ConfirmedTablesLists(t, aid, init, paperYear, paperPublish);
      AppendAllStep(t.confirmed, aid, init, pid);
    }
  }

  lemma {:induction false} ConfirmedTablesYears(t: TrainTables, aid: int, cs: seq<int>, paperYear: map<int, real>, paperPublish: map<int, int>)
    ensures ConfirmedTables(t, aid, cs, paperYear, paperPublish).trainYear == YearTotal(t.trainYear, aid, cs, paperYear)
    decreases |cs|
  {
    if cs != [] {
      var init, pid := cs[..|cs| - 1], cs[|cs| - 1];
      assert cs == init + [pid];
      var before := ConfirmedTables(t, aid, init, paperYear, paperPublish);
      assert ConfirmedTables(t, aid, cs, paperYear, paperPublish).trainYear
        == before.trainYear[aid := Get(before.trainYear, aid, 0.0) + Get(paperYear, pid, 0.0)];
      ConfirmedTablesYears(t, aid, init, paperYear, paperPublish);
      YearsStep(t.trainYear, aid, init, pid, paperYear);
    }
  }

  lemma {:induction false} ConfirmedTablesCounts(t: TrainTables, aid: int, cs: seq<int>, paperYear: map<int, real>, paperPublish: map<int, int>)
    ensures ConfirmedTables(t, aid, cs, paperYear, paperPublish).trainCount == TallyVenues(t.trainCount, aid, Venues(cs, paperPublish))
    decreases |cs|
  {
    if cs != [] {
      var init, pid := cs[..|cs| - 1], cs[|cs| - 1];
      assert cs == init + [pid];
      ConfirmedTablesCounts(t, aid, init, paperYear, paperPublish);
      CountStep(t.trainCount, aid, init, pid, paperPublish);
    }
  }

  /** One more paper's year added to the author's year. */
  lemma YearsStep(years: map<int, real>, aid: int, init: seq<int>, pid: int, paperYear: map<int, real>)
    ensures var before := YearTotal(years, aid, init, paperYear);
      before[aid := Get(before, aid, 0.0) + Get(paperYear, pid, 0.0)] == YearTotal(years, aid, init + [pid], paperYear)
  {
    assert YearsOf(init + [pid], paperYear) == YearsOf(init, paperYear) + [Get(paperYear, pid, 0.0)];
    SumRealsAppend(YearsOf(init, paperYear), Get(paperYear, pid, 0.0));
  }

  /** One more paper's venue tallied. */
  lemma CountStep(counts: map<int, map<int, real>>, aid: int, init: seq<int>, pid: int, paperPublish: map<int, int>)
    ensures var before := TallyVenues(counts, aid, Venues(init, paperPublish));
      var authorCounts := Get(before, aid, map[]);
      (if pid in paperPublish
       then before[aid := authorCounts[paperPublish[pid] := Get(authorCounts, paperPublish[pid], 0.0) + 1.0]]
       else before)
        == TallyVenues(counts, aid, Venues(init + [pid], paperPublish))
  {
    assert (init + [pid])[..|init|] == init;
    if pid in paperPublish {
      TallyStep(counts, aid, Venues(init, paperPublish), paperPublish[pid]);
    }
  }

  /** The tables after one more paper of `cs`. */
  lemma ConfirmedTablesPrefix(t: TrainTables, aid: int, cs: seq<int>, k: nat, paperYear: map<int, real>, paperPublish: map<int, int>)
    requires k < |cs|
    ensures ConfirmedTables(t, aid, cs[..k + 1], paperYear, paperPublish)
      == ConfirmStep(ConfirmedTables(t, aid, cs[..k], paperYear, paperPublish), aid, cs[k], paperYear, paperPublish)
  {
    assert cs[..k + 1][..k] == cs[..k];
  }

  /** One pass of the confirmed-paper loop of `readTrain`. */
  method CountConfirmed(t: TrainTables, aid: int, pid: int, paperYear: map<int, real>, paperPublish: map<int, int>)
    returns (r: TrainTables)
    ensures r == ConfirmStep(t, aid, pid, paperYear, paperPublish)
  {
    var yearNorm := if pid in paperYear then paperYear[pid] else 0.0;
    var counts := t.trainCount;
    if pid in paperPublish {
      var cid := paperPublish[pid];
      var authorCounts := Get(counts, aid, map[]);
      counts := counts[aid := authorCounts[cid := Get(authorCounts, cid, 0.0) + 1.0]];
    }
    var years := t.trainYear[aid := Get(t.trainYear, aid, 0.0) + yearNorm];
    var labelled := t.confirmed[aid := Get(t.confirmed, aid, []) + [pid]];
    r := TrainTables(labelled, t.deleted, years, counts);
  }

  /** One Train.csv row applied to the training tables (feature.py:425-458):
      after the confirmed loop the author's year is divided by the number of
      confirmed papers, and the deleted ids are appended to the author's
      list. */
  function ReadTrainRowTables(t: TrainTables, aid: int, cs: seq<int>, ds: seq<int>,
                              paperYear: map<int, real>, paperPublish: map<int, int>): TrainTables
    requires cs != []
  {
    var c := ConfirmedTables(t, aid, cs, paperYear, paperPublish);
    ConfirmedTablesClosed(t, aid, cs, paperYear, paperPublish);
    c.(trainYear := c.trainYear[aid := c.trainYear[aid] / |cs| as real],
       deleted := AppendAll(t.deleted, aid, ds))
  }

  /** A Train.csv row `readTrain` can process: short, or with at least one
      confirmed paper (otherwise the division by `len(confirmed)` fails). */
  predicate TrainRowOk(row: TrainRow) {
    row.TrainRow? ==> row.confirmed != []
  }

  /** `readTrain`'s effect on the training tables, row by row. */
  function ReadTrainTables(t: TrainTables, rows: seq<TrainRow>, paperYear: map<int, real>, paperPublish: map<int, int>): TrainTables
    requires forall i :: 0 <= i < |rows| ==> TrainRowOk(rows[i])
    decreases |rows|
  {
    if rows == [] then t
    else
      var before := ReadTrainTables(t, rows[..|rows| - 1], paperYear, paperPublish);
      assert TrainRowOk(rows[|rows| - 1]);
      match rows[|rows| - 1]
      case Short => before
      case TrainRow(aid, confirmed, deleted) =>
        DedupFacts(confirmed);
        ReadTrainRowTables(before, aid, Dedup(confirmed), Dedup(deleted), paperYear, paperPublish)
  }

  /** The tables of a `Data` object that the feature rows read: the
      catalog the readers fill. */
  datatype View = View(
    authorAffiliation: map<int, string>,
    paperTitle: map<int, string>,
    paperYear: map<int, real>,
    paperPublish: map<int, int>,
    publishName: map<int, string>,
    paperCoAuthors: map<int, seq<int>>,
    authorPublications: map<int, seq<int>>,
    authorPublishCount: map<int, map<int, real>>)
  {
    /** `getAuthorInfo` (feature.py:599-603). */
    function GetAuthorInfo(aid: int): (info: AuthorInfo)
      ensures aid in authorPublishCount ==> info.publishCount == authorPublishCount[aid]
      ensures aid !in authorPublishCount ==> info.publishCount == map[]
    {
      AuthorInfo(Get(authorPublishCount, aid, map[]))
    }

    /** The co-authors `getCoAuthorsInfo` visits: the authors of `paper`
        other than `author`, in order. */
    function CoAuthorIds(author: int, paper: int): seq<int> {
      Without(Get(paperCoAuthors, paper, []), author)
    }

    /** `getCoAuthorsInfo` (feature.py:606-616). */
    function GetCoAuthorsInfo(author: int, paper: int): (infos: seq<AuthorInfo>)
      ensures |infos| == |CoAuthorIds(author, paper)|
    {
      AuthorInfos(CoAuthorIds(author, paper))
    }

    /** `getAuthorInfo` of each author of `ids`, in order. */
    function AuthorInfos(ids: seq<int>): (infos: seq<AuthorInfo>)
      ensures |infos| == |ids|
      decreases |ids|
    {
      if ids == [] then [] else AuthorInfos(ids[..|ids| - 1]) + [GetAuthorInfo(ids[|ids| - 1])]
    }

    lemma {:induction false} AuthorInfosIndex(ids: seq<int>)
      ensures forall i :: 0 <= i < |ids| ==> AuthorInfos(ids)[i] == GetAuthorInfo(ids[i])
      decreases |ids|
    {
      if ids != [] {
        AuthorInfosIndex(ids[..|ids| - 1]);
      }
    }

    /** `getCoAuthorsInfo` describes, in the paper's order, exactly the
        paper's authors other than the queried one. */
    lemma CoAuthorsInfoFacts(author: int, paper: int)
      ensures author !in CoAuthorIds(author, paper)
      ensures forall a :: a in CoAuthorIds(author, paper) <==> a in Get(paperCoAuthors, paper, []) && a != author
      ensures IsSubsequence(CoAuthorIds(author, paper), Get(paperCoAuthors, paper, []))
      ensures forall i :: 0 <= i < |CoAuthorIds(author, paper)| ==>
        GetCoAuthorsInfo(author, paper)[i] == GetAuthorInfo(CoAuthorIds(author, paper)[i])
    {
      WithoutFacts(Get(paperCoAuthors, paper, []), author);
      AuthorInfosIndex(CoAuthorIds(author, paper));
    }

    /** `getPaperInfo` (feature.py:619-630): the stored title and, when the
        paper has a venue, the venue's stored name; "" where missing. */
    function GetPaperInfo(pid: int): (info: PaperInfo)
      ensures info.title == Get(paperTitle, pid, "")
      ensures pid !in paperPublish ==> info.publish == ""
      ensures pid in paperPublish ==> info.publish == Get(publishName, paperPublish[pid], "")
    {
      var publish := if pid in paperPublish then Get(publishName, paperPublish[pid], "") else "";
      PaperInfo(Get(paperTitle, pid, ""), publish)
    }

    /** `getPublicationsInfo` (feature.py:633-643). */
    function GetPublicationsInfo(author: int): (infos: seq<PaperInfo>)
      ensures |infos| == |Get(authorPublications, author, [])|
    {
      if author in authorPublications then PaperInfos(authorPublications[author]) else []
    }

    /** `getPaperInfo` of each paper of `pids`, in order. */
    function PaperInfos(pids: seq<int>): (infos: seq<PaperInfo>)
      ensures |infos| == |pids|
      decreases |pids|
    {
      if pids == [] then [] else PaperInfos(pids[..|pids| - 1]) + [GetPaperInfo(pids[|pids| - 1])]
    }

    lemma {:induction false} PaperInfosIndex(pids: seq<int>)
      ensures forall i :: 0 <= i < |pids| ==> PaperInfos(pids)[i] == GetPaperInfo(pids[i])
      decreases |pids|
    {
      if pids != [] {
        PaperInfosIndex(pids[..|pids| - 1]);
      }
    }

    /** `getPublicationsInfo` describes the author's papers in the order
        they were listed; an unknown author has none. */
    lemma PublicationsInfoFacts(author: int)
      ensures forall i :: 0 <= i < |Get(authorPublications, author, [])| ==>
        GetPublicationsInfo(author)[i] == GetPaperInfo(authorPublications[author][i])
    {
      if author in authorPublications {
        PaperInfosIndex(authorPublications[author]);
      }
    }

    // -----------------------------------------------------------------
    // Feature rows

    /** The author-similarity columns of a row: `coauthorCmp` of the author
        against the paper's other authors. */
    ghost function AuthorSimilarity(ext: Ext, aid: int, pid: int): seq<real> {
      MeanVector(AuthorResults(ext, GetAuthorInfo(aid), GetCoAuthorsInfo(aid, pid)), 1)
    }

    /** The paper-similarity columns of a row: `publicationCmp` of the paper
        against the author's publications. */
    function PaperSimilarity(ext: Ext, aid: int, pid: int): seq<real>
      requires ext.Valid()
    {
      MeanVector(PaperResults(ext, GetPaperInfo(pid), GetPublicationsInfo(aid)), 2)
    }

    /** The row written for `aid` and `pid` with label `mark`. */
    ghost function Features(ext: Ext, aid: int, pid: int, mark: int): FeatureRow
      requires ext.Valid()
    {
      FeatureRow(aid, pid, Get(paperYear, pid, 0.0), AuthorSimilarity(ext, aid, pid), PaperSimilarity(ext, aid, pid), mark)
    }

    /** The row written for a deleted paper (feature.py:455-470): label -1
        and, as written, the author-similarity columns `stale` left over from
        the last confirmed paper rather than the paper's own. */
    ghost function DeletedRow(ext: Ext, aid: int, stale: seq<real>, pid: int): FeatureRow
      requires ext.Valid()
    {
      FeatureRow(aid, pid, Get(paperYear, pid, 0.0), stale, PaperSimilarity(ext, aid, pid), -1)
    }

    /** `out` is what one Train.csv row writes (feature.py:432-470): a row
        labelled 1 for each confirmed paper of `cs`, in order, then a row for
        each deleted paper of `ds`, in order, whose author-similarity columns
        are those of the last confirmed paper. */
    ghost predicate IsTrainBlock(ext: Ext, aid: int, cs: seq<int>, ds: seq<int>, out: seq<FeatureRow>)
      requires ext.Valid() && cs != []
    {
      && |out| == |cs| + |ds|
      && (forall j :: 0 <= j < |cs| ==> out[j] == Features(ext, aid, cs[j], 1))
      && (forall j :: |cs| <= j < |out| ==>
            out[j] == DeletedRow(ext, aid, AuthorSimilarity(ext, aid, cs[|cs| - 1]), ds[j - |cs|]))
    }

    /** `out` is what `readTrain` writes for `rows`: the blocks of the rows
        that are not short, in order. */
    ghost predicate IsTrainOutput(ext: Ext, rows: seq<TrainRow>, out: seq<FeatureRow>)
      requires ext.Valid()
      requires forall i :: 0 <= i < |rows| ==> TrainRowOk(rows[i])
      decreases |rows|
    {
      if rows == [] then out == []
      else
        var init := rows[..|rows| - 1];
        assert TrainRowOk(rows[|rows| - 1]);
        match rows[|rows| - 1]
        case Short => IsTrainOutput(ext, init, out)
        case TrainRow(aid, confirmed, deleted) =>
          var n := |Dedup(confirmed)| + |Dedup(deleted)|;
          DedupFacts(confirmed);
          && n <= |out|
          && IsTrainOutput(ext, init, out[..|out| - n])
          && IsTrainBlock(ext, aid, Dedup(confirmed), Dedup(deleted), out[|out| - n..])
    }
  }

  /** How many rows `readTrain` gets through: all of them, or those before
      the row where it raises. */
  function Processed(rows: seq<TrainRow>, failedAt: Option<nat>): nat {
    if failedAt.Some? then failedAt.value else |rows|
  }

  /** After the first `n` rows, all of which can be processed: the rows
      written and the training tables. */
  ghost predicate TrainPrefix(ext: Ext, v: View, rows: seq<TrainRow>, t: TrainTables, n: nat, out: seq<FeatureRow>, r: TrainTables)
    requires ext.Valid()
  {
    && n <= |rows|
    && (forall i :: 0 <= i < n ==> TrainRowOk(rows[i]))
    && v.IsTrainOutput(ext, rows[..n], out)
    && r == ReadTrainTables(t, rows[..n], v.paperYear, v.paperPublish)
  }

  /** A short row is skipped. */
  lemma TrainPrefixShort(ext: Ext, v: View, rows: seq<TrainRow>, t: TrainTables, n: nat, out: seq<FeatureRow>, r: TrainTables)
    requires ext.Valid() && TrainPrefix(ext, v, rows, t, n, out, r) && n < |rows| && rows[n].Short?
    ensures TrainPrefix(ext, v, rows, t, n + 1, out, r)
  {
    assert rows[..n + 1][..n] == rows[..n];
  }

  /** A processed row appends its block and updates the tables. */
  lemma TrainPrefixStep(ext: Ext, v: View, rows: seq<TrainRow>, t: TrainTables, n: nat, out: seq<FeatureRow>, r: TrainTables,
                        block: seq<FeatureRow>, r2: TrainTables)
    requires ext.Valid() && TrainPrefix(ext, v, rows, t, n, out, r) && n < |rows|
    requires rows[n].TrainRow? && rows[n].confirmed != [] && Dedup(rows[n].confirmed) != []
    requires v.IsTrainBlock(ext, rows[n].aid, Dedup(rows[n].confirmed), Dedup(rows[n].deleted), block)
    requires r2 == ReadTrainRowTables(r, rows[n].aid, Dedup(rows[n].confirmed), Dedup(rows[n].deleted), v.paperYear, v.paperPublish)
    ensures TrainPrefix(ext, v, rows, t, n + 1, out + block, r2)
  {
    assert rows[..n + 1][..n] == rows[..n];
    var after := out + block;
    assert after[..|after| - |block|] == out;
    assert after[|after| - |block|..] == block;
  }

  /** The loop of `readTrain` over the rows, on the tables `v`, from the
      training tables `t`: the rows written and the new training tables, up
      to the first row without a confirmed paper, where the source raises
      `ZeroDivisionError` (`failedAt`). */
  method ReadTrainRows(ext: Ext, v: View, rows: seq<TrainRow>, t: TrainTables)
    returns (out: seq<FeatureRow>, r: TrainTables, failedAt: Option<nat>)
    requires ext.Valid()
    ensures TrainPrefix(ext, v, rows, t, Processed(rows, failedAt), out, r)
    ensures failedAt.Some? ==> failedAt.value < |rows| && !TrainRowOk(rows[failedAt.value])
  {
    out, r, failedAt := [], t, None;
    var i := 0;
    while i < |rows|
      invariant TrainPrefix(ext, v, rows, t, i, out, r)
    {
      if rows[i].Short? {
        TrainPrefixShort(ext, v, rows, t, i, out, r);
      } else {
        var TrainRow(aid, confirmedIds, deletedIds) := rows[i];
        if confirmedIds == [] {
          return out, r, Some(i);
        }
        DedupFacts(confirmedIds);
        var block, r2 := ReadTrainRow(ext, v, aid, Dedup(confirmedIds), Dedup(deletedIds), r);
        TrainPrefixStep(ext, v, rows, t, i, out, r, block, r2);
        out, r := out + block, r2;
      }
      i := i + 1;
    }
  }

  /** The body of the `readTrain` loop for one row with its ids
      deduplicated, from the training tables `t`. */
  method ReadTrainRow(ext: Ext, v: View, aid: int, cs: seq<int>, ds: seq<int>, t: TrainTables)
    returns (out: seq<FeatureRow>, r: TrainTables)
    requires ext.Valid() && cs != []
    ensures v.IsTrainBlock(ext, aid, cs, ds, out)
    ensures r == ReadTrainRowTables(t, aid, cs, ds, v.paperYear, v.paperPublish)
  {
    var authorInfo := v.GetAuthorInfo(aid);
    var publicationInfo := v.GetPublicationsInfo(aid);
    var first, authorSimilarity, c := ReadConfirmed(ext, v, aid, cs, authorInfo, publicationInfo, t);
    ConfirmedTablesClosed(t, aid, cs, v.paperYear, v.paperPublish);
    var years := c.trainYear[aid := c.trainYear[aid] / |cs| as real];
    var rest, labelled := ReadDeleted(ext, v, aid, ds, authorSimilarity, publicationInfo, t.deleted);
    out := first + rest;
    TrainBlockJoin(ext, v, aid, cs, ds, first, rest);
    r := TrainTables(c.confirmed, labelled, years, c.trainCount);
  }

  /** The confirmed rows followed by the deleted rows form the row's block. */
  lemma TrainBlockJoin(ext: Ext, v: View, aid: int, cs: seq<int>, ds: seq<int>, first: seq<FeatureRow>, rest: seq<FeatureRow>)
    requires ext.Valid() && cs != []
    requires |first| == |cs| && forall j :: 0 <= j < |cs| ==> first[j] == v.Features(ext, aid, cs[j], 1)
    requires |rest| == |ds| && forall j :: 0 <= j < |ds| ==> rest[j] == v.DeletedRow(ext, aid, v.AuthorSimilarity(ext, aid, cs[|cs| - 1]), ds[j])
    ensures v.IsTrainBlock(ext, aid, cs, ds, first + rest)
  {
  }

  /** The confirmed-paper loop of `readTrain` (feature.py:431-453), from
      the training tables `t`: the rows written, the author similarity of
      the last paper, and the new tables. */
  method ReadConfirmed(ext: Ext, v: View, aid: int, cs: seq<int>, authorInfo: AuthorInfo, publicationInfo: seq<PaperInfo>, t: TrainTables)
    returns (out: seq<FeatureRow>, authorSimilarity: seq<real>, r: TrainTables)
    requires ext.Valid() && cs != []
    requires authorInfo == v.GetAuthorInfo(aid) && publicationInfo == v.GetPublicationsInfo(aid)
    ensures |out| == |cs|
    ensures forall j :: 0 <= j < |cs| ==> out[j] == v.Features(ext, aid, cs[j], 1)
    ensures authorSimilarity == v.AuthorSimilarity(ext, aid, cs[|cs| - 1])
    ensures r == ConfirmedTables(t, aid, cs, v.paperYear, v.paperPublish)
  {
    ghost var spec := seq(|cs|, j requires 0 <= j < |cs| => v.Features(ext, aid, cs[j], 1));
    r := t;
    out, authorSimilarity := [], [];
    for k := 0 to |cs|
      invariant out == spec[..k]
      invariant k > 0 ==> authorSimilarity == out[k - 1].author
      invariant r == ConfirmedTables(t, aid, cs[..k], v.paperYear, v.paperPublish)
    {
      var pid := cs[k];
      ConfirmedTablesPrefix(t, aid, cs, k, v.paperYear, v.paperPublish);
      r := CountConfirmed(r, aid, pid, v.paperYear, v.paperPublish);
      var row;
      row, authorSimilarity := Describe(ext, v, aid, pid, 1, authorInfo, publicationInfo);
      TakeNext(spec, k, out, row);
      out := out + [row];
    }
    TakeAll(cs);
    TakeAll(spec);
  }

  /** The row written for one paper (feature.py:444-453, and the copy in
      the test readers): the paper's stored year and the two comparators'
      results. Also returns the author similarity. */
  method Describe(ext: Ext, v: View, aid: int, pid: int, mark: int, authorInfo: AuthorInfo, publicationInfo: seq<PaperInfo>)
    returns (row: FeatureRow, authorSimilarity: seq<real>)
    requires ext.Valid()
    requires authorInfo == v.GetAuthorInfo(aid) && publicationInfo == v.GetPublicationsInfo(aid)
    ensures row == v.Features(ext, aid, pid, mark)
    ensures authorSimilarity == v.AuthorSimilarity(ext, aid, pid)
  {
    var yearNorm := if pid in v.paperYear then v.paperYear[pid] else 0.0;
    var coauthorInfo := v.GetCoAuthorsInfo(aid, pid);
    authorSimilarity := CoauthorCmp(ext, authorInfo, coauthorInfo);
    var paperInfo := v.GetPaperInfo(pid);
    var paperSimilarity := PublicationCmp(ext, paperInfo, publicationInfo);
    row := FeatureRow(aid, pid, yearNorm, authorSimilarity, paperSimilarity, mark);
  }

  /** The deleted-paper loop of `readTrain` (feature.py:455-470), on the
      deleted table `labelled`; the author-similarity columns written are
      `stale`. */
  method ReadDeleted(ext: Ext, v: View, aid: int, ds: seq<int>, stale: seq<real>, publicationInfo: seq<PaperInfo>, labelled: map<int, seq<int>>)
    returns (out: seq<FeatureRow>, r: map<int, seq<int>>)
    requires ext.Valid() && publicationInfo == v.GetPublicationsInfo(aid)
    ensures |out| == |ds|
    ensures forall j :: 0 <= j < |ds| ==> out[j] == v.DeletedRow(ext, aid, stale, ds[j])
    ensures r == AppendAll(labelled, aid, ds)
  {
    ghost var spec := seq(|ds|, j requires 0 <= j < |ds| => v.DeletedRow(ext, aid, stale, ds[j]));
    r := labelled;
    out := [];
    for k := 0 to |ds|
      invariant out == spec[..k]
      invariant r == AppendAll(labelled, aid, ds[..k])
    {
      var pid := ds[k];
      TakeStep(ds, k);
      AppendAllStep(labelled, aid, ds[..k], pid);
      r := r[aid := Get(r, aid, []) + [pid]];
      var row := DescribeDeleted(ext, v, aid, pid, stale, publicationInfo);
      TakeNext(spec, k, out, row);
      out := out + [row];
    }
    TakeAll(ds);
    TakeAll(spec);
  }

  /** The row written for one deleted paper. */
  method DescribeDeleted(ext: Ext, v: View, aid: int, pid: int, stale: seq<real>, publicationInfo: seq<PaperInfo>)
    returns (row: FeatureRow)
    requires ext.Valid() && publicationInfo == v.GetPublicationsInfo(aid)
    ensures row == v.DeletedRow(ext, aid, stale, pid)
  {
    var paperInfo := v.GetPaperInfo(pid);
    var paperSimilarity := PublicationCmp(ext, paperInfo, publicationInfo);
    var yearNorm := if pid in v.paperYear then v.paperYear[pid] else 0.0;
    row := FeatureRow(aid, pid, yearNorm, stale, paperSimilarity, -1);
  }

  class Data {
    var stopword: set<string>

    var authorAffiliation: map<int, string>

    var paperTitle: map<int, string>
    var paperYear: map<int, real>
    var paperPublish: map<int, int>

    var publishName: map<int, string>
    var journalPad: int

    var paperCoAuthors: map<int, seq<int>>
    var authorPublications: map<int, seq<int>>
    var authorPublishCount: map<int, map<int, real>>

    var confirmed: map<int, seq<int>>
    var deleted: map<int, seq<int>>
    var trainYear: map<int, real>
    var trainCount: map<int, map<int, real>>

    var unknown: map<int, seq<int>>

    /** `Data.__init__` (feature.py:126-167): every table empty, `journalPad`
        0; the stop-word list is given. */
    constructor (stopword: set<string>)
      ensures this.stopword == stopword
      ensures authorAffiliation == map[] && paperTitle == map[] && paperYear == map[]
      ensures paperPublish == map[] && publishName == map[] && journalPad == 0
      ensures paperCoAuthors == map[] && authorPublications == map[] && authorPublishCount == map[]
      ensures confirmed == map[] && deleted == map[] && trainYear == map[] && trainCount == map[]
      ensures unknown == map[]
    {
      this.stopword := stopword;
      authorAffiliation := map[];
      paperTitle, paperYear, paperPublish := map[], map[], map[];
      publishName, journalPad := map[], 0;
      paperCoAuthors, authorPublications, authorPublishCount := map[], map[], map[];
      confirmed, deleted, trainYear, trainCount := map[], map[], map[], map[];
      unknown := map[];
    }

    // -------------------------------------------------------------------
    // Readers

    /** `readAuthor` (feature.py:189-196). */
    method ReadAuthor(rows: seq<AuthorRow>)
      modifies this`authorAffiliation
      ensures authorAffiliation == ReadAuthorRows(old(authorAffiliation), rows, stopword)
    {
      for i := 0 to |rows|
        invariant authorAffiliation == ReadAuthorRows(old(authorAffiliation), rows[..i], stopword)
      {
        assert rows[..i + 1][..i] == rows[..i];
        var aid := rows[i].aid;
        var aff := Lower(rows[i].affiliation);
        if |aff| > 0 {
          authorAffiliation := authorAffiliation[aid := Normalize(rows[i].affiliation, stopword)];
        }
      }
      assert rows[..|rows|] == rows;
    }

    /** `readPaper` (feature.py:225-250), with `journalPad` as left by the
        venue readers. */
    method ReadPaper(rows: seq<PaperRow>)
      modifies this`paperTitle, this`paperYear, this`paperPublish
      ensures PaperTables(paperTitle, paperYear, paperPublish)
        == ReadPaperRows(old(PaperTables(paperTitle, paperYear, paperPublish)), rows, journalPad, stopword)
    {
      for i := 0 to |rows|
        invariant PaperTables(paperTitle, paperYear, paperPublish)
          == ReadPaperRows(old(PaperTables(paperTitle, paperYear, paperPublish)), rows[..i], journalPad, stopword)
      {
        assert rows[..i + 1][..i] == rows[..i];
        var t := ReadPaperStep(PaperTables(paperTitle, paperYear, paperPublish), rows[i], journalPad, stopword);
        paperTitle, paperYear, paperPublish := t.title, t.year, t.publish;
      }
      assert rows[..|rows|] == rows;
    }

    /** `readConference` (feature.py:274-293). */
    method ReadConference(rows: seq<VenueRow>)
      modifies this`publishName, this`journalPad
      ensures VenueTables(publishName, journalPad)
        == ReadConferenceRows(old(VenueTables(publishName, journalPad)), rows, stopword)
    {
      var stopwordConference := ConferenceStopwords + stopword;
      for i := 0 to |rows|
        invariant VenueTables(publishName, journalPad)
          == ReadConferenceRows(old(VenueTables(publishName, journalPad)), rows[..i], stopword)
      {
        assert rows[..i + 1][..i] == rows[..i];
        var cid := rows[i].id;
        if cid > journalPad {
          journalPad := cid;
        }
        if |Lower(rows[i].name)| > 0 {
          publishName := publishName[cid := Normalize(rows[i].name, stopwordConference)];
        }
      }
      assert rows[..|rows|] == rows;
    }

    /** `readJournal` (feature.py:305-321). */
    method ReadJournal(rows: seq<VenueRow>)
      modifies this`publishName
      ensures VenueTables(publishName, journalPad)
        == ReadJournalRows(old(VenueTables(publishName, journalPad)), rows, stopword)
    {
      var stopwordJournal := JournalStopwords + stopword;
      for i := 0 to |rows|
        invariant VenueTables(publishName, journalPad)
          == ReadJournalRows(old(VenueTables(publishName, journalPad)), rows[..i], stopword)
      {
        assert rows[..i + 1][..i] == rows[..i];
        var jid := rows[i].id + journalPad;
        if |Lower(rows[i].name)| > 0 {
          publishName := publishName[jid := Normalize(rows[i].name, stopwordJournal)];
        }
      }
      assert rows[..|rows|] == rows;
    }

    /** `readPaperAuthor` (feature.py:354-392). */
    method ReadPaperAuthor(rows: seq<PaperAuthorRow>)
      modifies this`authorAffiliation, this`paperCoAuthors, this`authorPublications, this`authorPublishCount
      ensures AuthorTables(authorAffiliation, paperCoAuthors, authorPublications, authorPublishCount)
        == ReadPaperAuthorRows(old(AuthorTables(authorAffiliation, paperCoAuthors, authorPublications, authorPublishCount)),
                               rows, paperPublish, stopword)
    {
      ghost var start := AuthorTables(authorAffiliation, paperCoAuthors, authorPublications, authorPublishCount);
      for i := 0 to |rows|
        invariant AuthorTables(authorAffiliation, paperCoAuthors, authorPublications, authorPublishCount)
          == ReadPaperAuthorRows(start, rows[..i], paperPublish, stopword)
      {
        assert rows[..i + 1][..i] == rows[..i];
        var t := ReadPaperAuthorStep(AuthorTables(authorAffiliation, paperCoAuthors, authorPublications, authorPublishCount),
                                     rows[i], paperPublish, stopword);
        authorAffiliation, paperCoAuthors, authorPublications, authorPublishCount
          := t.affiliation, t.coAuthors, t.publications, t.publishCount;
      }
      assert rows[..|rows|] == rows;
    }

    /** The tables the feature rows read. */
    function Snapshot(): View
      reads this`authorAffiliation, this`paperTitle, this`paperYear, this`paperPublish, this`publishName
      reads this`paperCoAuthors, this`authorPublications, this`authorPublishCount
    {
      View(authorAffiliation, paperTitle, paperYear, paperPublish, publishName,
           paperCoAuthors, authorPublications, authorPublishCount)
    }

    // -------------------------------------------------------------------
    // Train.csv

    /** `readTrain` (feature.py:401-478) on parsed rows: returns the header
        and the rows written to the preprocess file and fills the training
        tables, up to the first row without a confirmed paper, where the
        source raises (`failedAt`); the header is written before any row. */
    method ReadTrain(ext: Ext, rows: seq<TrainRow>) returns (header: seq<string>, out: seq<FeatureRow>, failedAt: Option<nat>)
      requires ext.Valid()
      modifies this`confirmed, this`deleted, this`trainYear, this`trainCount
      ensures header == TrainHeader
      ensures failedAt.Some? ==> failedAt.value < |rows| && !TrainRowOk(rows[failedAt.value])
      ensures TrainPrefix(ext, Snapshot(), rows, old(TrainTables(confirmed, deleted, trainYear, trainCount)),
                          Processed(rows, failedAt), out, TrainTables(confirmed, deleted, trainYear, trainCount))
    {
      header := TrainHeader;
      var t;
      out, t, failedAt := ReadTrainRows(ext, Snapshot(), rows, TrainTables(confirmed, deleted, trainYear, trainCount));
      confirmed, deleted, trainYear, trainCount := t.confirmed, t.deleted, t.trainYear, t.trainCount;
    }

    /** The tables `readTestFull` reads: the catalog's affiliations, years
        and venues, the labelled authors and their training tables. */
    function Learning(): Learned
      reads this`authorAffiliation, this`paperYear, this`paperPublish
      reads this`confirmed, this`trainYear, this`trainCount
    {
      Learned(authorAffiliation, paperYear, paperPublish, confirmed.Keys, trainYear, trainCount)
    }

    /** `readTestFull` (feature.py:527-596) on parsed Test.csv rows: the
        header, then the rows written, one per test row, up to the first row
        the source cannot process (`failed`); no table changes. */
    method ReadTestFull(ext: Ext, rows: seq<TestRow>) returns (header: seq<string>, out: seq<NeighbourRow>, failed: bool)
      requires ext.Valid()
      ensures header == TestFullHeader
      ensures IsNeighbourOutput(ext, Learning(), rows, out)
      ensures !failed ==> |out| == |rows|
      ensures failed ==> |out| < |rows| && !TestFullRowOk(ext, Learning(), Dedup(rows[|out|].pids))
    {
      header := TestFullHeader;
      out, failed := ReadTestFullRows(ext, Learning(), rows);
    }

    /** `TrainTestClear` (feature.py:646-651): empties the training and test
        tables and keeps the catalog. */
    method TrainTestClear()
      modifies this`confirmed, this`deleted, this`trainYear, this`trainCount, this`unknown
      ensures confirmed == map[] && deleted == map[] && trainYear == map[]
      ensures trainCount == map[] && unknown == map[]
    {
      confirmed := map[];
      deleted := map[];
      trainYear := map[];
      trainCount := map[];
      unknown := map[];
    }
  }
}
