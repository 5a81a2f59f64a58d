/** split_valid.py: turns the validation set (Valid.csv and its solution
    ValidSolution.csv) into extra training rows. Paper ids stay the strings
    `split()` returns. */
module SplitValid {
  import opened Util

  /** A parsed row of ValidSolution.csv or Valid.csv: the author and the
      paper ids of its second column. */
  datatype ValidRow = ValidRow(aid: int, pids: seq<string>)

  /** A cell of a written CSV row. */
  datatype Cell = Num(n: int) | Text(s: string)

  /** The authors of `rows`, in row order. */
  function RowAids(rows: seq<ValidRow>): (r: seq<int>)
    ensures |r| == |rows| && forall i :: 0 <= i < |rows| ==> r[i] == rows[i].aid
  {
    seq(|rows|, i requires 0 <= i < |rows| => rows[i].aid)
  }

  /** All paper ids listed for author `aid`, row after row. */
  function PidsOf(rows: seq<ValidRow>, aid: int): seq<string>
    decreases |rows|
  {
    if rows == [] then []
    else
      var last := rows[|rows| - 1];
      PidsOf(rows[..|rows| - 1], aid) + (if last.aid == aid then last.pids else [])
  }

  // ---------------------------------------------------------------------
  // readValidSolution

  /** `confirmed` after the rows of ValidSolution.csv: each row makes sure
      its author has a list and appends the paper ids the list lacks
      (split_valid.py:41-46). */
  function ConfirmedAfter(confirmed: map<int, seq<string>>, rows: seq<ValidRow>): map<int, seq<string>>
    decreases |rows|
  {
    if rows == [] then confirmed
    else
      var before := ConfirmedAfter(confirmed, rows[..|rows| - 1]);
      var r := rows[|rows| - 1];
      before[r.aid := AppendNew(Get(before, r.aid, []), r.pids)]
  }

  /** An author's confirmed list is the duplicate-free list of every paper
      id given for them, in first-seen order, after what they had. */
  lemma {:induction false} ConfirmedPerAuthor(confirmed: map<int, seq<string>>, rows: seq<ValidRow>, aid: int)
    ensures Get(ConfirmedAfter(confirmed, rows), aid, []) == AppendNew(Get(confirmed, aid, []), PidsOf(rows, aid))
    decreases |rows|
  {
    if rows != [] {
      var init, r := rows[..|rows| - 1], rows[|rows| - 1];
      ConfirmedPerAuthor(confirmed, init, aid);
      AppendNewConcat(Get(confirmed, aid, []), PidsOf(init, aid), if r.aid == aid then r.pids else []);
    }
  }

  /** An author's confirmed list keeps every paper id at most once, and
      holds exactly the ids they had or were given. */
  lemma ConfirmedNoDuplicates(confirmed: map<int, seq<string>>, rows: seq<ValidRow>, aid: int)
    requires NoDuplicates(Get(confirmed, aid, []))
    ensures NoDuplicates(Get(ConfirmedAfter(confirmed, rows), aid, []))
    ensures forall p :: p in Get(ConfirmedAfter(confirmed, rows), aid, []) <==>
      p in Get(confirmed, aid, []) || p in PidsOf(rows, aid)
  {
    ConfirmedPerAuthor(confirmed, rows, aid);
    AppendNewFacts(Get(confirmed, aid, []), PidsOf(rows, aid));
  }

  // ---------------------------------------------------------------------
  // readValid

  /** The paper ids of one Valid.csv row appended to author `aid`'s deleted
      list `acc`: every id when the author has no confirmed list (`or` binds
      looser than `and`), otherwise the ids neither confirmed nor already
      deleted (split_valid.py:78-81). */
  function KeepDeleted(confirmed: map<int, seq<string>>, aid: int, acc: seq<string>, pids: seq<string>): seq<string>
    decreases |pids|
  {
    if pids == [] then acc
    else
      var before := KeepDeleted(confirmed, aid, acc, pids[..|pids| - 1]);
      var pid := pids[|pids| - 1];
      if aid !in confirmed || (pid !in confirmed[aid] && pid !in before) then before + [pid] else before
  }

  /** `deleted` after the rows of Valid.csv (split_valid.py:68-81). */
  function DeletedAfter(confirmed: map<int, seq<string>>, deleted: map<int, seq<string>>, rows: seq<ValidRow>): map<int, seq<string>>
    decreases |rows|
  {
    if rows == [] then deleted
    else
      var before := DeletedAfter(confirmed, deleted, rows[..|rows| - 1]);
      var r := rows[|rows| - 1];
      before[r.aid := KeepDeleted(confirmed, r.aid, Get(before, r.aid, []), r.pids)]
  }

  /** Without a confirmed list every id is appended, duplicates included;
      with one, the list stays duplicate-free and disjoint from it. */
  lemma {:induction false} KeepDeletedFacts(confirmed: map<int, seq<string>>, aid: int, acc: seq<string>, pids: seq<string>)
    ensures aid !in confirmed ==> KeepDeleted(confirmed, aid, acc, pids) == acc + pids
    ensures aid in confirmed && NoDuplicates(acc) && (forall p :: p in acc ==> p !in confirmed[aid]) ==>
      NoDuplicates(KeepDeleted(confirmed, aid, acc, pids))
      && forall p :: p in KeepDeleted(confirmed, aid, acc, pids) ==> p !in confirmed[aid]
    decreases |pids|
  {
    if pids != [] {
      var init := pids[..|pids| - 1];
      KeepDeletedFacts(confirmed, aid, acc, init);
      assert pids == init + [pids[|pids| - 1]];
    }
  }

  /** A deleted list is "clean" for an author with a confirmed list: no
      duplicates and nothing confirmed. */
  predicate CleanDeleted(confirmed: map<int, seq<string>>, deleted: map<int, seq<string>>, aid: int)
    requires aid in confirmed && aid in deleted
  {
    NoDuplicates(deleted[aid]) && forall p :: p in deleted[aid] ==> p !in confirmed[aid]
  }

  /** An author without a confirmed list gets every id listed for them in
      Valid.csv appended, duplicates included. */
  lemma {:induction false} DeletedUnconfirmed(confirmed: map<int, seq<string>>, deleted: map<int, seq<string>>, rows: seq<ValidRow>, aid: int)
    requires aid !in confirmed
    ensures Get(DeletedAfter(confirmed, deleted, rows), aid, []) == Get(deleted, aid, []) + PidsOf(rows, aid)
    decreases |rows|
  {
    if rows != [] {
      var init, r := rows[..|rows| - 1], rows[|rows| - 1];
      DeletedUnconfirmed(confirmed, deleted, init, aid);
      var before := DeletedAfter(confirmed, deleted, init);
      assert PidsOf(rows, aid) == PidsOf(init, aid) + (if r.aid == aid then r.pids else []);
      if r.aid == aid {
        KeepDeletedFacts(confirmed, aid, Get(before, aid, []), r.pids);
        assert DeletedAfter(confirmed, deleted, rows)[aid] == Get(before, aid, []) + r.pids;
      } else {
        assert Get(DeletedAfter(confirmed, deleted, rows), aid, []) == Get(before, aid, []);
      }
    }
  }

  /** An author with a confirmed list keeps a deleted list without
      duplicates and without a confirmed paper id. */
  lemma {:induction false} DeletedClean(confirmed: map<int, seq<string>>, deleted: map<int, seq<string>>, rows: seq<ValidRow>, aid: int)
    requires aid in confirmed
    requires aid in deleted ==> CleanDeleted(confirmed, deleted, aid)
    ensures aid in DeletedAfter(confirmed, deleted, rows) ==> CleanDeleted(confirmed, DeletedAfter(confirmed, deleted, rows), aid)
    decreases |rows|
  {
    if rows != [] {
      var init, r := rows[..|rows| - 1], rows[|rows| - 1];
      DeletedClean(confirmed, deleted, init, aid);
      if r.aid == aid {
        KeepDeletedFacts(confirmed, aid, Get(DeletedAfter(confirmed, deleted, init), aid, []), r.pids);
      }
    }
  }

  // ---------------------------------------------------------------------
  // writeValidToTrain

  /** `" ".join(xs)`. */
  function Join(xs: seq<string>): string
    decreases |xs|
  {
    if xs == [] then ""
    else if |xs| == 1 then xs[0]
    else Join(xs[..|xs| - 1]) + " " + xs[|xs| - 1]
  }

  /** The header of ValidToTrain.csv. */
  const Header: seq<Cell> := [Text("AuthorId"), Text("ConfirmedPaperIds"), Text("DeletedPaperIds")]

  /** The row written for `aid`: the author, then the joined confirmed list
      if the author has one, then the joined deleted list if the author has
      one (split_valid.py:93-103). */
  function TrainRowOf(aid: int, confirmed: map<int, seq<string>>, deleted: map<int, seq<string>>): (row: seq<Cell>)
    ensures |row| == 1 + (if aid in confirmed then 1 else 0) + (if aid in deleted then 1 else 0)
    ensures row[0] == Num(aid)
  {
    [Num(aid)]
    + (if aid in confirmed then [Text(Join(confirmed[aid]))] else [])
    + (if aid in deleted then [Text(Join(deleted[aid]))] else [])
  }

  /** The ids and lists `split_valid.py` keeps (split_valid.py:5-15). */
  class Data {
    var confirmed: map<int, seq<string>>
    var deleted: map<int, seq<string>>
    var aids: seq<int>

    /** `Data.__init__`: empty tables (the data directory is not modelled). */
    constructor ()
      ensures confirmed == map[] && deleted == map[] && aids == []
    {
      confirmed, deleted, aids := map[], map[], [];
    }

    /** `readValidSolution` (split_valid.py:18-51): with a cached table it
        replaces `confirmed` and leaves `aids` alone; otherwise each row
        adds its author to `aids` once, in first-appearance order, and its
        new paper ids to the author's confirmed list. */
    method ReadValidSolution(rows: seq<ValidRow>, cache: Option<map<int, seq<string>>>)
      modifies this`confirmed, this`aids
      ensures cache.Some? ==> confirmed == cache.value && aids == old(aids)
      ensures cache.None? ==> aids == AppendNew(old(aids), RowAids(rows))
      ensures cache.None? ==> confirmed == ConfirmedAfter(old(confirmed), rows)
    {
      if cache.Some? {
        confirmed := cache.value;
        return;
      }
      for i := 0 to |rows|
        invariant aids == AppendNew(old(aids), RowAids(rows[..i]))
        invariant confirmed == ConfirmedAfter(old(confirmed), rows[..i])
      {
        var aid, pids := rows[i].aid, rows[i].pids;
        RowAidsStep(rows, i);
        aids := AddOnce(aids, aid);
        var list := AppendMissing(Get(confirmed, aid, []), pids);
        assert rows[..i + 1][..i] == rows[..i];
        confirmed := confirmed[aid := list];
      }
      assert rows[..|rows|] == rows;
    }

    /** `readValid` (split_valid.py:54-84): with a cached table it replaces
        `deleted`; otherwise each row adds its author to `aids` once and
        appends its paper ids to the author's deleted list as `KeepDeleted`
        says. */
    method ReadValid(rows: seq<ValidRow>, cache: Option<map<int, seq<string>>>)
      modifies this`deleted, this`aids
      ensures cache.Some? ==> deleted == cache.value && aids == old(aids)
      ensures cache.None? ==> aids == AppendNew(old(aids), RowAids(rows))
      ensures cache.None? ==> deleted == DeletedAfter(confirmed, old(deleted), rows)
    {
      if cache.Some? {
        deleted := cache.value;
        return;
      }
      for i := 0 to |rows|
        invariant aids == AppendNew(old(aids), RowAids(rows[..i]))
        invariant deleted == DeletedAfter(confirmed, old(deleted), rows[..i])
      {
        var aid, pids := rows[i].aid, rows[i].pids;
        RowAidsStep(rows, i);
        aids := AddOnce(aids, aid);
        var list := Get(deleted, aid, []);
        for j := 0 to |pids|
          invariant list == KeepDeleted(confirmed, aid, Get(deleted, aid, []), pids[..j])
        {
          var pid := pids[j];
          assert pids[..j + 1][..j] == pids[..j];
          if aid !in confirmed || (pid !in confirmed[aid] && pid !in list) {
            list := list + [pid];
          }
        }
        assert pids[..|pids|] == pids;
        assert rows[..i + 1][..i] == rows[..i];
        deleted := deleted[aid := list];
      }
      assert rows[..|rows|] == rows;
    }

    /** `writeValidToTrain` (split_valid.py:87-103): the header, then one
        row per author of `aids`, in order. */
    method WriteValidToTrain() returns (out: seq<seq<Cell>>)
      ensures |out| == |aids| + 1 && out[0] == Header
      ensures forall i :: 0 <= i < |aids| ==> out[i + 1] == TrainRowOf(aids[i], confirmed, deleted)
    {
      out := [Header];
      for i := 0 to |aids|
        invariant |out| == i + 1 && out[0] == Header
        invariant forall j :: 0 <= j < i ==> out[j + 1] == TrainRowOf(aids[j], confirmed, deleted)
      {
        var aid := aids[i];
        var writeConfirm: seq<Cell> := if aid !in confirmed then [] else [Text(Join(confirmed[aid]))];
        var writeDelete: seq<Cell> := if aid !in deleted then [] else [Text(Join(deleted[aid]))];
        out := out + [[Num(aid)] + writeConfirm + writeDelete];
      }
    }
  }

  lemma RowAidsStep(rows: seq<ValidRow>, i: nat)
    requires i < |rows|
    ensures RowAids(rows[..i + 1]) == RowAids(rows[..i]) + [rows[i].aid]
  {
  }

  /** The inner loop of `readValidSolution`: each paper id not yet in the
      list is appended. */
  method AppendMissing(list: seq<string>, pids: seq<string>) returns (r: seq<string>)
    ensures r == AppendNew(list, pids)
  {
    r := list;
    for j := 0 to |pids|
      invariant r == AppendNew(list, pids[..j])
    {
      assert pids[..j + 1][..j] == pids[..j];
      if pids[j] !in r {
        r := r + [pids[j]];
      }
    }
    assert pids[..|pids|] == pids;
  }

  /** `main` (split_valid.py:105-115) with no cached tables: the rows of
      ValidToTrain.csv. Every author appears once, in first-appearance
      order over ValidSolution.csv then Valid.csv; the confirmed cell is
      present exactly for the authors of ValidSolution.csv and the deleted
      cell exactly for those of Valid.csv. */
  method Run(solutionRows: seq<ValidRow>, validRows: seq<ValidRow>) returns (out: seq<seq<Cell>>)
    ensures |out| == |AppendNew([], RowAids(solutionRows) + RowAids(validRows))| + 1
    ensures out[0] == Header
    ensures forall i :: 1 <= i < |out| ==> |out[i]| >= 1 && out[i][0].Num?
    ensures forall i :: 1 <= i < |out| ==>
      |out[i]| == 1 + (if out[i][0].n in RowAids(solutionRows) then 1 else 0)
                    + (if out[i][0].n in RowAids(validRows) then 1 else 0)
    ensures forall i, j :: 1 <= i < j < |out| ==> out[i][0] != out[j][0]
    ensures forall a :: a in RowAids(solutionRows) || a in RowAids(validRows) <==>
      exists i :: 1 <= i < |out| && out[i][0] == Num(a)
    ensures forall i :: 1 <= i < |out| ==>
      out[i] == TrainRowOf(AppendNew([], RowAids(solutionRows) + RowAids(validRows))[i - 1],
                           ConfirmedAfter(map[], solutionRows),
                           DeletedAfter(ConfirmedAfter(map[], solutionRows), map[], validRows))
    ensures forall i :: 1 <= i < |out| ==>
      var aid := AppendNew([], RowAids(solutionRows) + RowAids(validRows))[i - 1];
      out[i] == [Num(aid)]
                + (if aid in RowAids(solutionRows) then [Text(Join(Get(ConfirmedAfter(map[], solutionRows), aid, [])))] else [])
                + (if aid in RowAids(validRows)
                   then [Text(Join(Get(DeletedAfter(ConfirmedAfter(map[], solutionRows), map[], validRows), aid, [])))]
                   else [])
  {
    var data := new Data();
    data.ReadValidSolution(solutionRows, None);
    data.ReadValid(validRows, None);
    out := data.WriteValidToTrain();
    RunOutput(solutionRows, validRows, data.aids, data.confirmed, data.deleted, out);
    RunAuthors(solutionRows, validRows, data.aids, out);
  }

  /** The rows written from the tables of `main`: one per author, with a
      confirmed cell exactly when the author is in ValidSolution.csv and a
      deleted cell exactly when the author is in Valid.csv. */
  lemma RunOutput(solutionRows: seq<ValidRow>, validRows: seq<ValidRow>, aids: seq<int>,
                  confirmed: map<int, seq<string>>, deleted: map<int, seq<string>>, out: seq<seq<Cell>>)
    requires aids == AppendNew(AppendNew([], RowAids(solutionRows)), RowAids(validRows))
    requires confirmed == ConfirmedAfter(map[], solutionRows)
    requires deleted == DeletedAfter(confirmed, map[], validRows)
    requires |out| == |aids| + 1 && out[0] == Header
    requires forall i :: 0 <= i < |aids| ==> out[i + 1] == TrainRowOf(aids[i], confirmed, deleted)
    ensures |out| == |AppendNew([], RowAids(solutionRows) + RowAids(validRows))| + 1
    ensures aids == AppendNew([], RowAids(solutionRows) + RowAids(validRows))
    ensures forall i :: 1 <= i < |out| ==> |out[i]| >= 1 && out[i][0] == Num(aids[i - 1])
    ensures forall i :: 1 <= i < |out| ==>
      |out[i]| == 1 + (if out[i][0].n in RowAids(solutionRows) then 1 else 0)
                    + (if out[i][0].n in RowAids(validRows) then 1 else 0)
    ensures forall i :: 1 <= i < |out| ==>
      out[i] == [Num(aids[i - 1])]
                + (if aids[i - 1] in RowAids(solutionRows) then [Text(Join(Get(confirmed, aids[i - 1], [])))] else [])
                + (if aids[i - 1] in RowAids(validRows) then [Text(Join(Get(deleted, aids[i - 1], [])))] else [])
  {
    RunFacts(solutionRows, validRows, aids, confirmed, deleted);
    forall i | 1 <= i < |out|
      ensures |out[i]| >= 1 && out[i][0] == Num(aids[i - 1])
      ensures |out[i]| == 1 + (if aids[i - 1] in RowAids(solutionRows) then 1 else 0)
                            + (if aids[i - 1] in RowAids(validRows) then 1 else 0)
      ensures out[i] == [Num(aids[i - 1])]
                + (if aids[i - 1] in RowAids(solutionRows) then [Text(Join(Get(confirmed, aids[i - 1], [])))] else [])
                + (if aids[i - 1] in RowAids(validRows) then [Text(Join(Get(deleted, aids[i - 1], [])))] else [])
    {
      assert out[i] == TrainRowOf(aids[i - 1], confirmed, deleted);
    }
  }

  /** The written rows name each author of either file exactly once. */
  lemma RunAuthors(solutionRows: seq<ValidRow>, validRows: seq<ValidRow>, aids: seq<int>, out: seq<seq<Cell>>)
    requires aids == AppendNew([], RowAids(solutionRows) + RowAids(validRows))
    requires |out| == |aids| + 1
    requires forall i :: 1 <= i < |out| ==> |out[i]| >= 1 && out[i][0] == Num(aids[i - 1])
    ensures forall i, j :: 1 <= i < j < |out| ==> out[i][0] != out[j][0]
    ensures forall a :: a in RowAids(solutionRows) || a in RowAids(validRows) <==>
      exists i :: 1 <= i < |out| && out[i][0] == Num(a)
  {
    AppendNewFacts([], RowAids(solutionRows) + RowAids(validRows));
    assert NoDuplicates(aids);
    forall i, j | 1 <= i < j < |out|
      ensures out[i][0] != out[j][0]
    {
      assert out[i][0] == Num(aids[i - 1]) && out[j][0] == Num(aids[j - 1]);
    }
    forall a | a in RowAids(solutionRows) || a in RowAids(validRows)
      ensures exists i :: 1 <= i < |out| && out[i][0] == Num(a)
    {
      assert a in RowAids(solutionRows) + RowAids(validRows);
      var k :| 0 <= k < |aids| && aids[k] == a;
      assert out[k + 1][0] == Num(a);
    }
    forall a | exists i :: 1 <= i < |out| && out[i][0] == Num(a)
      ensures a in RowAids(solutionRows) || a in RowAids(validRows)
    {
      var i :| 1 <= i < |out| && out[i][0] == Num(a);
      assert aids[i - 1] == a;
      assert a in RowAids(solutionRows) + RowAids(validRows);
    }
  }

  /** The author list and the key sets of the two tables after `main`. */
  lemma RunFacts(solutionRows: seq<ValidRow>, validRows: seq<ValidRow>, aids: seq<int>,
                 confirmed: map<int, seq<string>>, deleted: map<int, seq<string>>)
    requires aids == AppendNew(AppendNew([], RowAids(solutionRows)), RowAids(validRows))
    requires confirmed == ConfirmedAfter(map[], solutionRows)
    requires deleted == DeletedAfter(confirmed, map[], validRows)
    ensures aids == AppendNew([], RowAids(solutionRows) + RowAids(validRows))
    ensures forall a :: a in confirmed <==> a in RowAids(solutionRows)
    ensures forall a :: a in deleted <==> a in RowAids(validRows)
  {
    AppendNewConcat([], RowAids(solutionRows), RowAids(validRows));
    ConfirmedKeys(map[], solutionRows);
    DeletedKeys(confirmed, map[], validRows);
  }

  lemma {:induction false} ConfirmedKeys(confirmed: map<int, seq<string>>, rows: seq<ValidRow>)
    ensures forall a :: a in ConfirmedAfter(confirmed, rows) <==> a in confirmed || a in RowAids(rows)
    decreases |rows|
  {
    if rows != [] {
      ConfirmedKeys(confirmed, rows[..|rows| - 1]);
      RowAidsStep(rows, |rows| - 1);
      assert rows[..|rows|] == rows;
    }
  }

  lemma {:induction false} DeletedKeys(confirmed: map<int, seq<string>>, deleted: map<int, seq<string>>, rows: seq<ValidRow>)
    ensures forall a :: a in DeletedAfter(confirmed, deleted, rows) <==> a in deleted || a in RowAids(rows)
    decreases |rows|
  {
    if rows != [] {
      DeletedKeys(confirmed, deleted, rows[..|rows| - 1]);
      RowAidsStep(rows, |rows| - 1);
      assert rows[..|rows|] == rows;
    }
  }
}
