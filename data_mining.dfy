/** data_mining.py: the script that shrinks the raw KDD Cup 2013 tables to
    the papers that carry enough information, and the venues, authorships
    and label lists that refer to them. Each section reads one CSV file,
    fills module-level tables and writes the kept rows. */
module DataMining {
  import opened Util

  /** A row of Paper.csv: id, title, year, conference id, journal id. The
      Keyword column is not read, and written rows leave it empty. */
  datatype PaperRow = PaperRow(pid: int, title: string, year: int, cid: int, jid: int)

  /** A row of Conference.csv or Journal.csv: id and full name. ShortName
      and HomePage are not read, and written rows leave them empty. */
  datatype VenueRow = VenueRow(id: int, full: string)

  /** A row of PaperAuthor.csv: paper and author. Name and Affiliation are
      not read, and written rows leave them empty. */
  datatype AuthorshipRow = AuthorshipRow(pid: int, aid: int)

  /** A row of Valid.csv, ValidSolution.csv or Test.csv: an author and the
      paper ids of its second column. */
  datatype ListRow = ListRow(aid: int, pids: seq<int>)

  /** A CSV file: its header row, copied as it is, and its data rows. */
  datatype CsvFile<T> = CsvFile(header: seq<string>, rows: seq<T>)

  /** The five paper tables of the Paper.csv section. `paperId` is a dict
      whose values are all 1; only its keys matter. */
  datatype PaperTables = PaperTables(
    paperId: set<int>,
    title: map<int, string>,
    year: map<int, int>,
    cid: map<int, int>,
    jid: map<int, int>)

  // ---------------------------------------------------------------------
  // Paper.csv (data_mining.py:21-62)

  /** A paper is kept when it has a title, a year in 1900..2013 and a
      conference or a journal (data_mining.py:46). */
  predicate KeepPaper(r: PaperRow) {
    |r.title| > 0 && 1900 <= r.year <= 2013 && (r.cid > 0 || r.jid > 0)
  }

  /** The rows written to the reduced Paper.csv, in input order. */
  function KeptPapers(rows: seq<PaperRow>): seq<PaperRow>
    decreases |rows|
  {
    if rows == [] then []
    else
      var last := rows[|rows| - 1];
      KeptPapers(rows[..|rows| - 1]) + (if KeepPaper(last) then [last] else [])
  }

  /** The tables after the rows: each kept row (re)defines its paper in all
      five tables (data_mining.py:47-51). */
  function PaperTablesAfter(t: PaperTables, rows: seq<PaperRow>): PaperTables
    decreases |rows|
  {
    if rows == [] then t
    else
      var before := PaperTablesAfter(t, rows[..|rows| - 1]);
      var r := rows[|rows| - 1];
      if KeepPaper(r) then
        PaperTables(before.paperId + {r.pid}, before.title[r.pid := r.title], before.year[r.pid := r.year],
                    before.cid[r.pid := r.cid], before.jid[r.pid := r.jid])
      else before
  }

  const NoPapers := PaperTables({}, map[], map[], map[], map[])

  /** The record the tables hold for `pid`. */
  function Stored(t: PaperTables, pid: int): PaperRow
    requires pid in t.title && pid in t.year && pid in t.cid && pid in t.jid
  {
    PaperRow(pid, t.title[pid], t.year[pid], t.cid[pid], t.jid[pid])
  }

  /** The five tables share their keys, and each paper's record is a kept
      row of the input. */
  predicate Coherent(t: PaperTables, rows: seq<PaperRow>) {
    t.title.Keys == t.paperId && t.year.Keys == t.paperId && t.cid.Keys == t.paperId && t.jid.Keys == t.paperId
    && forall pid :: pid in t.paperId ==> Stored(t, pid) in rows && KeepPaper(Stored(t, pid))
  }

  /** The written rows are exactly the input rows that pass the filter. */
  lemma {:induction false} KeptPapersMembers(rows: seq<PaperRow>)
    ensures forall r :: r in KeptPapers(rows) <==> r in rows && KeepPaper(r)
    decreases |rows|
  {
    if rows != [] {
      KeptPapersMembers(rows[..|rows| - 1]);
      assert rows == rows[..|rows| - 1] + [rows[|rows| - 1]];
    }
  }

  /** The written rows keep the input's order. */
  lemma {:induction false} KeptPapersOrder(rows: seq<PaperRow>)
    ensures IsSubsequence(KeptPapers(rows), rows)
    decreases |rows|
  {
    if rows != [] {
      var init, last := rows[..|rows| - 1], rows[|rows| - 1];
      KeptPapersOrder(init);
      var kept := KeptPapers(init);
      if KeepPaper(last) {
        assert KeptPapers(rows) == kept + [last];
        assert (kept + [last])[..|kept|] == kept;
      } else if kept != [] {
        KeptPapersMembers(init);
        assert kept[|kept| - 1] in kept;
        assert KeptPapers(rows) == kept;
        assert kept[|kept| - 1] != last;
      }
    }
  }

  /** Starting empty, a paper is in `paperId` exactly when some row for it
      passes the filter, the five tables share their keys and each holds the
      values of a kept row. */
  lemma {:induction false} PaperTablesFacts(rows: seq<PaperRow>)
    ensures forall pid :: pid in PaperTablesAfter(NoPapers, rows).paperId <==>
      exists i :: 0 <= i < |rows| && rows[i].pid == pid && KeepPaper(rows[i])
    ensures Coherent(PaperTablesAfter(NoPapers, rows), rows)
    decreases |rows|
  {
    if rows != [] {
      var init, r := rows[..|rows| - 1], rows[|rows| - 1];
      PaperTablesFacts(init);
      var before := PaperTablesAfter(NoPapers, init);
      var after := PaperTablesAfter(NoPapers, rows);
      forall pid | pid in after.paperId
        ensures Stored(after, pid) in rows && KeepPaper(Stored(after, pid))
      {
        if pid != r.pid || !KeepPaper(r) {
          assert Stored(after, pid) == Stored(before, pid);
        }
      }
      forall pid
        ensures pid in after.paperId <==> exists i :: 0 <= i < |rows| && rows[i].pid == pid && KeepPaper(rows[i])
      {
        if exists i :: 0 <= i < |rows| && rows[i].pid == pid && KeepPaper(rows[i]) {
          var i :| 0 <= i < |rows| && rows[i].pid == pid && KeepPaper(rows[i]);
          if i < |init| {
            assert init[i] == rows[i];
          }
        }
        if pid in before.paperId {
          var i :| 0 <= i < |init| && init[i].pid == pid && KeepPaper(init[i]);
          assert rows[i] == init[i];
        }
      }
    }
  }

  // ---------------------------------------------------------------------
  // Conference.csv and Journal.csv (data_mining.py:64-124)

  /** A venue is kept when it has a full name and its id is the venue id of
      some kept paper (data_mining.py:83-84, 114-115). */
  predicate KeepVenue(r: VenueRow, ids: set<int>) {
    |r.full| > 0 && r.id in ids
  }

  /** The rows written to the reduced venue file, in input order. */
  function KeptVenues(rows: seq<VenueRow>, ids: set<int>): seq<VenueRow>
    decreases |rows|
  {
    if rows == [] then []
    else
      var last := rows[|rows| - 1];
      KeptVenues(rows[..|rows| - 1], ids) + (if KeepVenue(last, ids) then [last] else [])
  }

  /** The name table after the rows: each kept venue's name under its own
      id (data_mining.py:85; the intended reading of line 116). */
  function VenueNamesAfter(names: map<int, string>, rows: seq<VenueRow>, ids: set<int>): map<int, string>
    decreases |rows|
  {
    if rows == [] then names
    else
      var before := VenueNamesAfter(names, rows[..|rows| - 1], ids);
      var r := rows[|rows| - 1];
      if KeepVenue(r, ids) then before[r.id := r.full] else before
  }

  /** Starting empty, a venue id has a name exactly when some row for it is
      kept, and every stored name is the non-empty name of such a row. */
  lemma {:induction false} VenueNamesFacts(rows: seq<VenueRow>, ids: set<int>)
    ensures forall id :: id in VenueNamesAfter(map[], rows, ids) <==>
      exists i :: 0 <= i < |rows| && rows[i].id == id && KeepVenue(rows[i], ids)
    ensures forall id :: id in VenueNamesAfter(map[], rows, ids) ==>
      VenueRow(id, VenueNamesAfter(map[], rows, ids)[id]) in KeptVenues(rows, ids)
    decreases |rows|
  {
    if rows != [] {
      var init, r := rows[..|rows| - 1], rows[|rows| - 1];
      VenueNamesFacts(init, ids);
      var before := VenueNamesAfter(map[], init, ids);
      forall id
        ensures id in VenueNamesAfter(map[], rows, ids) <==>
          exists i :: 0 <= i < |rows| && rows[i].id == id && KeepVenue(rows[i], ids)
      {
        if exists i :: 0 <= i < |rows| && rows[i].id == id && KeepVenue(rows[i], ids) {
          var i :| 0 <= i < |rows| && rows[i].id == id && KeepVenue(rows[i], ids);
          if i < |init| {
            assert init[i] == rows[i];
          }
        }
        if id in before {
          var i :| 0 <= i < |init| && init[i].id == id && KeepVenue(init[i], ids);
          assert rows[i] == init[i];
        }
      }
    }
  }

  /** The Journal.csv loop as written (data_mining.py:110-118): the name of
      a kept journal is stored under `cid`, a module-level variable left
      over from an earlier loop, not under `jid`. `stale` is that variable:
      the conference id of the last row of Conference.csv, or failing that
      of Paper.csv, or unbound when both sections loaded their caches, in
      which case the first kept journal raises NameError (None). */
  function JournalNamesAsWritten(names: map<int, string>, rows: seq<VenueRow>, ids: set<int>, stale: Option<int>): Option<map<int, string>>
    decreases |rows|
  {
    if rows == [] then Some(names)
    else
      var before := JournalNamesAsWritten(names, rows[..|rows| - 1], ids, stale);
      var r := rows[|rows| - 1];
      if before.None? || !KeepVenue(r, ids) then before
      else if stale.None? then None
      else Some(before.value[stale.value := r.full])
  }

  /** As written, the journal table never gains a key other than the stale
      conference id, however many journals are kept. */
  lemma {:induction false} JournalKeysAsWritten(names: map<int, string>, rows: seq<VenueRow>, ids: set<int>, stale: Option<int>)
    ensures JournalNamesAsWritten(names, rows, ids, stale).Some? ==>
      forall id :: id in JournalNamesAsWritten(names, rows, ids, stale).value ==>
        id in names || (stale.Some? && id == stale.value)
    decreases |rows|
  {
    if rows != [] {
      JournalKeysAsWritten(names, rows[..|rows| - 1], ids, stale);
    }
  }

  /** Two kept journals 5 and 6, with the leftover conference id 1: as
      written the table maps only 1 (to the last name), while the intended
      table maps 5 and 6 to their own names. */
  lemma JournalKeyDiscrepancy()
    ensures JournalNamesAsWritten(map[], [VenueRow(5, "A"), VenueRow(6, "B")], {5, 6}, Some(1)) == Some(map[1 := "B"])
    ensures VenueNamesAfter(map[], [VenueRow(5, "A"), VenueRow(6, "B")], {5, 6}) == map[5 := "A", 6 := "B"]
  {
    var rows := [VenueRow(5, "A"), VenueRow(6, "B")];
    assert rows[..1] == [VenueRow(5, "A")] && rows[..1][..0] == [];
    assert map[1 := "A"][1 := "B"] == map[1 := "B"];
  }

  // ---------------------------------------------------------------------
  // PaperAuthor.csv (data_mining.py:126-165)

  /** The authorship rows written: those of kept papers, in input order. */
  function KeptAuthorships(rows: seq<AuthorshipRow>, paperId: set<int>): seq<AuthorshipRow>
    decreases |rows|
  {
    if rows == [] then []
    else
      var last := rows[|rows| - 1];
      KeptAuthorships(rows[..|rows| - 1], paperId) + (if last.pid in paperId then [last] else [])
  }

  /** `p2amap`: each kept row appends its author to its paper's list
      (data_mining.py:150). */
  function PaperAuthorsAfter(m: map<int, seq<int>>, rows: seq<AuthorshipRow>, paperId: set<int>): map<int, seq<int>>
    decreases |rows|
  {
    if rows == [] then m
    else
      var before := PaperAuthorsAfter(m, rows[..|rows| - 1], paperId);
      var r := rows[|rows| - 1];
      if r.pid in paperId then before[r.pid := Get(before, r.pid, []) + [r.aid]] else before
  }

  /** `a2pmap`: each kept row appends its paper to its author's list
      (data_mining.py:153). */
  function AuthorPapersAfter(m: map<int, seq<int>>, rows: seq<AuthorshipRow>, paperId: set<int>): map<int, seq<int>>
    decreases |rows|
  {
    if rows == [] then m
    else
      var before := AuthorPapersAfter(m, rows[..|rows| - 1], paperId);
      var r := rows[|rows| - 1];
      if r.pid in paperId then before[r.aid := Get(before, r.aid, []) + [r.pid]] else before
  }

  /** The authors of `pid` in the rows, in row order, duplicates kept. */
  function AuthorsOf(rows: seq<AuthorshipRow>, pid: int): seq<int>
    decreases |rows|
  {
    if rows == [] then []
    else
      var last := rows[|rows| - 1];
      AuthorsOf(rows[..|rows| - 1], pid) + (if last.pid == pid then [last.aid] else [])
  }

  /** The papers of `aid` in the rows, in row order, duplicates kept. */
  function PapersOf(rows: seq<AuthorshipRow>, aid: int): seq<int>
    decreases |rows|
  {
    if rows == [] then []
    else
      var last := rows[|rows| - 1];
      PapersOf(rows[..|rows| - 1], aid) + (if last.aid == aid then [last.pid] else [])
  }

  /** Starting empty, `p2amap` has only kept papers as keys, and each
      paper's list is its authors in row order, duplicates kept. */
  lemma {:induction false} PaperAuthorsFacts(rows: seq<AuthorshipRow>, paperId: set<int>, pid: int)
    ensures pid in PaperAuthorsAfter(map[], rows, paperId) ==> pid in paperId
    ensures Get(PaperAuthorsAfter(map[], rows, paperId), pid, []) ==
      (if pid in paperId then AuthorsOf(rows, pid) else [])
    decreases |rows|
  {
    if rows != [] {
      PaperAuthorsFacts(rows[..|rows| - 1], paperId, pid);
    }
  }

  /** Starting empty, each author's `a2pmap` list is their papers among the
      kept rows, in row order, duplicates kept. */
  lemma {:induction false} AuthorPapersFacts(rows: seq<AuthorshipRow>, paperId: set<int>, aid: int)
    ensures Get(AuthorPapersAfter(map[], rows, paperId), aid, []) == PapersOf(KeptAuthorships(rows, paperId), aid)
    decreases |rows|
  {
    if rows != [] {
      var init, r := rows[..|rows| - 1], rows[|rows| - 1];
      AuthorPapersFacts(init, paperId, aid);
      var kept := KeptAuthorships(init, paperId);
      if r.pid in paperId {
        assert KeptAuthorships(rows, paperId) == kept + [r];
        assert (kept + [r])[..|kept|] == kept;
        assert PapersOf(kept + [r], aid) == PapersOf(kept, aid) + (if r.aid == aid then [r.pid] else []);
      } else {
        assert KeptAuthorships(rows, paperId) == kept;
      }
    }
  }

  /** How often the pair (`pid`, `aid`) occurs among the rows. */
  function PairCount(rows: seq<AuthorshipRow>, pid: int, aid: int): nat {
    Count(rows, AuthorshipRow(pid, aid))
  }

  /** A paper's `p2amap` list holds an author as often as the kept rows
      name the pair. */
  lemma {:induction false} PaperAuthorsCount(rows: seq<AuthorshipRow>, paperId: set<int>, pid: int, aid: int)
    ensures Count(Get(PaperAuthorsAfter(map[], rows, paperId), pid, []), aid) ==
            PairCount(KeptAuthorships(rows, paperId), pid, aid)
    decreases |rows|
  {
    if rows != [] {
      var init, r := rows[..|rows| - 1], rows[|rows| - 1];
      PaperAuthorsCount(init, paperId, pid, aid);
      var kept := KeptAuthorships(init, paperId);
      if r.pid in paperId {
        assert multiset(kept + [r]) == multiset(kept) + multiset{r};
      }
    }
  }

  /** An author's `a2pmap` list holds a paper as often as the kept rows
      name the pair. */
  lemma {:induction false} AuthorPapersCount(rows: seq<AuthorshipRow>, paperId: set<int>, pid: int, aid: int)
    ensures Count(Get(AuthorPapersAfter(map[], rows, paperId), aid, []), pid) ==
            PairCount(KeptAuthorships(rows, paperId), pid, aid)
    decreases |rows|
  {
    if rows != [] {
      var init, r := rows[..|rows| - 1], rows[|rows| - 1];
      AuthorPapersCount(init, paperId, pid, aid);
      var kept := KeptAuthorships(init, paperId);
      if r.pid in paperId {
        assert multiset(kept + [r]) == multiset(kept) + multiset{r};
      }
    }
  }

  /** An author occurs in a paper's list as often as the paper occurs in the
      author's list (data_mining.py:150-153). */
  lemma AuthorshipMirrored(rows: seq<AuthorshipRow>, paperId: set<int>, pid: int, aid: int)
    ensures Count(Get(PaperAuthorsAfter(map[], rows, paperId), pid, []), aid) ==
            Count(Get(AuthorPapersAfter(map[], rows, paperId), aid, []), pid)
  {
    PaperAuthorsCount(rows, paperId, pid, aid);
    AuthorPapersCount(rows, paperId, pid, aid);
  }

  // ---------------------------------------------------------------------
  // Valid.csv, ValidSolution.csv and Test.csv (data_mining.py:208-293)

  /** The paper ids of a list that are kept papers, in order, duplicates
      kept (data_mining.py:223-225). */
  function Restrict(pids: seq<int>, paperId: set<int>): seq<int>
    decreases |pids|
  {
    if pids == [] then []
    else
      var last := pids[|pids| - 1];
      Restrict(pids[..|pids| - 1], paperId) + (if last in paperId then [last] else [])
  }

  /** `Restrict` keeps every occurrence of a kept paper and nothing else. */
  lemma {:induction false} RestrictCount(pids: seq<int>, paperId: set<int>, p: int)
    ensures Count(Restrict(pids, paperId), p) == (if p in paperId then Count(pids, p) else 0)
    decreases |pids|
  {
    if pids != [] {
      var init, last := pids[..|pids| - 1], pids[|pids| - 1];
      RestrictCount(init, paperId, p);
      assert pids == init + [last];
    }
  }

  /** `Restrict` keeps the input's order. */
  lemma {:induction false} RestrictOrder(pids: seq<int>, paperId: set<int>)
    ensures IsSubsequence(Restrict(pids, paperId), pids)
    ensures forall p :: p in Restrict(pids, paperId) ==> p in paperId
    decreases |pids|
  {
    if pids != [] {
      var init, last := pids[..|pids| - 1], pids[|pids| - 1];
      RestrictOrder(init, paperId);
      var kept := Restrict(init, paperId);
      if last in paperId {
        assert Restrict(pids, paperId) == kept + [last];
        assert (kept + [last])[..|kept|] == kept;
      } else if kept != [] {
        assert kept[|kept| - 1] in kept;
        assert Restrict(pids, paperId) == kept;
        assert kept[|kept| - 1] != last;
      }
    }
  }

  /** A list row is written when its author has papers in PaperAuthor.csv
      and some of its paper ids are kept papers. */
  predicate WritesList(r: ListRow, authorPaper: map<int, seq<int>>, paperId: set<int>) {
    r.aid in authorPaper && Restrict(r.pids, paperId) != []
  }

  /** The rows written for a label file, in input order, each with its
      list restricted to kept papers (data_mining.py:220-232). */
  function ListOutput(rows: seq<ListRow>, authorPaper: map<int, seq<int>>, paperId: set<int>): seq<ListRow>
    decreases |rows|
  {
    if rows == [] then []
    else
      var last := rows[|rows| - 1];
      ListOutput(rows[..|rows| - 1], authorPaper, paperId)
      + (if WritesList(last, authorPaper, paperId) then [ListRow(last.aid, Restrict(last.pids, paperId))] else [])
  }

  /** Every written row comes from an input row that passes the rule, with
      its list restricted; every input row that passes the rule is written. */
  lemma {:induction false} ListOutputFacts(rows: seq<ListRow>, authorPaper: map<int, seq<int>>, paperId: set<int>)
    ensures forall o :: o in ListOutput(rows, authorPaper, paperId) ==>
      o.aid in authorPaper && o.pids != []
      && exists i :: 0 <= i < |rows| && rows[i].aid == o.aid && o.pids == Restrict(rows[i].pids, paperId)
    ensures forall i :: 0 <= i < |rows| && WritesList(rows[i], authorPaper, paperId) ==>
      ListRow(rows[i].aid, Restrict(rows[i].pids, paperId)) in ListOutput(rows, authorPaper, paperId)
    ensures |ListOutput(rows, authorPaper, paperId)| <= |rows|
    decreases |rows|
  {
    if rows != [] {
      var init := rows[..|rows| - 1];
      ListOutputFacts(init, authorPaper, paperId);
      forall o | o in ListOutput(init, authorPaper, paperId)
        ensures exists i :: 0 <= i < |rows| && rows[i].aid == o.aid && o.pids == Restrict(rows[i].pids, paperId)
      {
        var i :| 0 <= i < |init| && init[i].aid == o.aid && o.pids == Restrict(init[i].pids, paperId);
        assert rows[i] == init[i];
      }
      forall i | 0 <= i < |init| && WritesList(rows[i], authorPaper, paperId)
        ensures ListRow(rows[i].aid, Restrict(rows[i].pids, paperId)) in ListOutput(rows, authorPaper, paperId)
      {
        assert rows[i] == init[i];
      }
    }
  }

  // ---------------------------------------------------------------------
  // The script's state

  /** The module-level tables of data_mining.py (data_mining.py:5-18). */
  class Mining {
    var paperId: set<int>
    var paperTitle: map<int, string>
    var paperYear: map<int, int>
    var paperCid: map<int, int>
    var paperJid: map<int, int>
    var confName: map<int, string>
    var jourName: map<int, string>
    var paperAuthor: map<int, seq<int>>
    var authorPaper: map<int, seq<int>>

    /** Module load: every table empty. */
    constructor ()
      ensures Papers() == NoPapers && confName == map[] && jourName == map[]
      ensures paperAuthor == map[] && authorPaper == map[]
    {
      paperId, paperTitle, paperYear, paperCid, paperJid := {}, map[], map[], map[], map[];
      confName, jourName := map[], map[];
      paperAuthor, authorPaper := map[], map[];
    }

    function Papers(): PaperTables
      reads this
    {
      PaperTables(paperId, paperTitle, paperYear, paperCid, paperJid)
    }

    /** The Paper.csv section (data_mining.py:21-62): the cached tables when
        there are some, with nothing written; otherwise every row passing
        `KeepPaper` is recorded and written. */
    method ReadPapers(file: CsvFile<PaperRow>, cache: Option<PaperTables>) returns (out: Option<CsvFile<PaperRow>>)
      modifies this`paperId, this`paperTitle, this`paperYear, this`paperCid, this`paperJid
      ensures cache.Some? ==> Papers() == cache.value && out == None
      ensures cache.None? ==> Papers() == PaperTablesAfter(old(Papers()), file.rows)
      ensures cache.None? ==> out == Some(CsvFile(file.header, KeptPapers(file.rows)))
    {
      if cache.Some? {
        var t := cache.value;
        paperId, paperTitle, paperYear, paperCid, paperJid := t.paperId, t.title, t.year, t.cid, t.jid;
        return None;
      }
      var rows := file.rows;
      var written := [];
      for i := 0 to |rows|
        invariant Papers() == PaperTablesAfter(old(Papers()), rows[..i])
        invariant written == KeptPapers(rows[..i])
      {
        var r := rows[i];
        assert rows[..i + 1][..i] == rows[..i];
        if |r.title| > 0 && r.year >= 1900 && r.year <= 2013 && (r.cid > 0 || r.jid > 0) {
          paperId := paperId + {r.pid};
          paperTitle := paperTitle[r.pid := r.title];
          paperYear := paperYear[r.pid := r.year];
          paperCid := paperCid[r.pid := r.cid];
          paperJid := paperJid[r.pid := r.jid];
          written := written + [r];
        }
      }
      assert rows[..|rows|] == rows;
      out := Some(CsvFile(file.header, written));
    }

    /** The Conference.csv section (data_mining.py:64-93): a venue whose id
        is the conference id of a kept paper. */
    method ReadConferences(file: CsvFile<VenueRow>, cache: Option<map<int, string>>) returns (out: Option<CsvFile<VenueRow>>)
      modifies this`confName
      ensures cache.Some? ==> confName == cache.value && out == None
      ensures cache.None? ==> confName == VenueNamesAfter(old(confName), file.rows, paperCid.Values)
      ensures cache.None? ==> out == Some(CsvFile(file.header, KeptVenues(file.rows, paperCid.Values)))
    {
      if cache.Some? {
        confName := cache.value;
        return None;
      }
      var written;
      confName, written := KeepVenues(confName, file.rows, paperCid.Values);
      out := Some(CsvFile(file.header, written));
    }

    /** The Journal.csv section (data_mining.py:95-124), with each name
        stored under its journal id as the written row has it; the script
        stores it under a stale key, see `JournalNamesAsWritten`. */
    method ReadJournals(file: CsvFile<VenueRow>, cache: Option<map<int, string>>) returns (out: Option<CsvFile<VenueRow>>)
      modifies this`jourName
      ensures cache.Some? ==> jourName == cache.value && out == None
      ensures cache.None? ==> jourName == VenueNamesAfter(old(jourName), file.rows, paperJid.Values)
      ensures cache.None? ==> out == Some(CsvFile(file.header, KeptVenues(file.rows, paperJid.Values)))
    {
      if cache.Some? {
        jourName := cache.value;
        return None;
      }
      var written;
      jourName, written := KeepVenues(jourName, file.rows, paperJid.Values);
      out := Some(CsvFile(file.header, written));
    }

    /** The PaperAuthor.csv section (data_mining.py:126-165): the authorship
        rows of kept papers fill both multimaps and are written; the
        multimaps replace `paperAuthor` and `authorPaper`. */
    method ReadPaperAuthors(file: CsvFile<AuthorshipRow>, cache: Option<(map<int, seq<int>>, map<int, seq<int>>)>)
      returns (out: Option<CsvFile<AuthorshipRow>>)
      modifies this`paperAuthor, this`authorPaper
      ensures cache.Some? ==> paperAuthor == cache.value.0 && authorPaper == cache.value.1 && out == None
      ensures cache.None? ==> paperAuthor == PaperAuthorsAfter(map[], file.rows, paperId)
      ensures cache.None? ==> authorPaper == AuthorPapersAfter(map[], file.rows, paperId)
      ensures cache.None? ==> out == Some(CsvFile(file.header, KeptAuthorships(file.rows, paperId)))
    {
      if cache.Some? {
        paperAuthor, authorPaper := cache.value.0, cache.value.1;
        return None;
      }
      var rows := file.rows;
      var p2a: map<int, seq<int>>, a2p: map<int, seq<int>>, written := map[], map[], [];
      for i := 0 to |rows|
        invariant p2a == PaperAuthorsAfter(map[], rows[..i], paperId)
        invariant a2p == AuthorPapersAfter(map[], rows[..i], paperId)
        invariant written == KeptAuthorships(rows[..i], paperId)
      {
        var pid, aid := rows[i].pid, rows[i].aid;
        assert rows[..i + 1][..i] == rows[..i];
        if pid in paperId {
          p2a := p2a[pid := Get(p2a, pid, []) + [aid]];
          a2p := a2p[aid := Get(a2p, aid, []) + [pid]];
          written := written + [rows[i]];
        }
      }
      assert rows[..|rows|] == rows;
      paperAuthor, authorPaper := p2a, a2p;
      out := Some(CsvFile(file.header, written));
    }

    /** The Valid.csv, ValidSolution.csv and Test.csv sections
        (data_mining.py:208-293), which share one rule. */
    method FilterLabels(file: CsvFile<ListRow>) returns (out: CsvFile<ListRow>)
      ensures out == CsvFile(file.header, ListOutput(file.rows, authorPaper, paperId))
    {
      var rows := file.rows;
      var written := [];
      for i := 0 to |rows|
        invariant written == ListOutput(rows[..i], authorPaper, paperId)
      {
        var aid := rows[i].aid;
        assert rows[..i + 1][..i] == rows[..i];
        if aid in authorPaper {
          var kept := RestrictList(rows[i].pids, paperId);
          if |kept| > 0 {
            written := written + [ListRow(aid, kept)];
          }
        }
      }
      assert rows[..|rows|] == rows;
      out := CsvFile(file.header, written);
    }
  }

  /** The venue loop shared by the Conference.csv and Journal.csv sections. */
  method KeepVenues(names: map<int, string>, rows: seq<VenueRow>, ids: set<int>) returns (r: map<int, string>, written: seq<VenueRow>)
    ensures r == VenueNamesAfter(names, rows, ids)
    ensures written == KeptVenues(rows, ids)
  {
    r, written := names, [];
    for i := 0 to |rows|
      invariant r == VenueNamesAfter(names, rows[..i], ids)
      invariant written == KeptVenues(rows[..i], ids)
    {
      var id, full := rows[i].id, rows[i].full;
      assert rows[..i + 1][..i] == rows[..i];
      if |full| > 0 {
        if id in ids {
          r := r[id := full];
          written := written + [rows[i]];
        }
      }
    }
    assert rows[..|rows|] == rows;
  }

  /** The inner loop of a label section: the kept papers of a list. */
  method RestrictList(pids: seq<int>, paperId: set<int>) returns (kept: seq<int>)
    ensures kept == Restrict(pids, paperId)
  {
    kept := [];
    for j := 0 to |pids|
      invariant kept == Restrict(pids[..j], paperId)
    {
      assert pids[..j + 1][..j] == pids[..j];
      if pids[j] in paperId {
        kept := kept + [pids[j]];
      }
    }
    assert pids[..|pids|] == pids;
  }

  /** The output files of a run of the script without caches. */
  datatype Outputs = Outputs(
    papers: CsvFile<PaperRow>,
    conferences: CsvFile<VenueRow>,
    journals: CsvFile<VenueRow>,
    authorships: CsvFile<AuthorshipRow>,
    valid: CsvFile<ListRow>,
    validSolution: CsvFile<ListRow>,
    test: CsvFile<ListRow>)

  /** The whole script without caches: the sections in order, each filter
      reading the tables the earlier ones filled. Every written paper passes
      `KeepPaper`, every written authorship names a written paper, and every
      written label row names an author of PaperAuthor.csv with a non-empty
      list of written papers. */
  method Run(papers: CsvFile<PaperRow>, conferences: CsvFile<VenueRow>, journals: CsvFile<VenueRow>,
             authorships: CsvFile<AuthorshipRow>, valid: CsvFile<ListRow>, validSolution: CsvFile<ListRow>,
             test: CsvFile<ListRow>)
    returns (out: Outputs)
    ensures forall r :: r in out.papers.rows ==> KeepPaper(r)
    ensures forall a :: a in out.authorships.rows ==> exists r :: r in out.papers.rows && r.pid == a.pid
    ensures forall o :: o in out.valid.rows ==> o.pids != [] && forall p :: p in o.pids ==>
      exists r :: r in out.papers.rows && r.pid == p
    ensures forall o :: o in out.validSolution.rows ==> o.pids != [] && forall p :: p in o.pids ==>
      exists r :: r in out.papers.rows && r.pid == p
    ensures forall o :: o in out.test.rows ==> o.pids != [] && forall p :: p in o.pids ==>
      exists r :: r in out.papers.rows && r.pid == p
  {
    var m := new Mining();
    var p := m.ReadPapers(papers, None);
    var c := m.ReadConferences(conferences, None);
    var j := m.ReadJournals(journals, None);
    var a := m.ReadPaperAuthors(authorships, None);
    var v := m.FilterLabels(valid);
    var vs := m.FilterLabels(validSolution);
    var t := m.FilterLabels(test);
    out := Outputs(p.value, c.value, j.value, a.value, v, vs, t);
    RunFacts(papers.rows, authorships.rows, valid.rows, m.authorPaper);
    RunFacts(papers.rows, authorships.rows, validSolution.rows, m.authorPaper);
    RunFacts(papers.rows, authorships.rows, test.rows, m.authorPaper);
  }

  /** Why `Run`'s outputs refer to written papers only; `valid` stands for
      any of the three label files. */
  lemma RunFacts(papers: seq<PaperRow>, authorships: seq<AuthorshipRow>, valid: seq<ListRow>, authorPaper: map<int, seq<int>>)
    ensures forall r :: r in KeptPapers(papers) ==> KeepPaper(r)
    ensures forall a :: a in KeptAuthorships(authorships, PaperTablesAfter(NoPapers, papers).paperId) ==>
      exists r :: r in KeptPapers(papers) && r.pid == a.pid
    ensures forall o :: o in ListOutput(valid, authorPaper, PaperTablesAfter(NoPapers, papers).paperId) ==>
      o.pids != [] && forall p :: p in o.pids ==> exists r :: r in KeptPapers(papers) && r.pid == p
  {
    var ids := PaperTablesAfter(NoPapers, papers).paperId;
    KeptPapersMembers(papers);
    PaperTablesFacts(papers);
    KeptAuthorshipsIn(authorships, ids);
    ListOutputFacts(valid, authorPaper, ids);
    forall pid | pid in ids
      ensures exists r :: r in KeptPapers(papers) && r.pid == pid
    {
      var i :| 0 <= i < |papers| && papers[i].pid == pid && KeepPaper(papers[i]);
      assert papers[i] in KeptPapers(papers);
    }
    forall o | o in ListOutput(valid, authorPaper, ids)
      ensures forall p :: p in o.pids ==> p in ids
    {
      var i :| 0 <= i < |valid| && valid[i].aid == o.aid && o.pids == Restrict(valid[i].pids, ids);
      RestrictOrder(valid[i].pids, ids);
    }
  }

  /** Written authorships are of kept papers. */
  lemma {:induction false} KeptAuthorshipsIn(rows: seq<AuthorshipRow>, paperId: set<int>)
    ensures forall a :: a in KeptAuthorships(rows, paperId) ==> a.pid in paperId
    decreases |rows|
  {
    if rows != [] {
      KeptAuthorshipsIn(rows[..|rows| - 1], paperId);
    }
  }
}
