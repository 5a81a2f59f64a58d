/** The catalog-building rules of feature.py's `Data` readers, as pure
    functions of the tables read so far and one input row: the year
    normalisation, the conference/journal id merge, the stop-word cleaning of
    every stored text, longest-affiliation-wins and the per-author
    publish-count maps with their min-max normalisation. The `Data` methods
    in module Feature apply them row by row. */
module Catalog {
  import opened Util
  import opened Text

  // ---------------------------------------------------------------------
  // Years

  const MinYear: int := 1900
  const MaxYear: int := 2013

  /** The stored year of a paper (feature.py:232-238): 0 before 1900, 1 after
      2013, the position inside [1900, 2013] otherwise. */
  function YearNorm(year: int): (r: real)
    ensures 0.0 <= r <= 1.0
    ensures year <= MinYear ==> r == 0.0
    ensures year >= MaxYear ==> r == 1.0
  {
    if year < MinYear then 0.0
    else if year > MaxYear then 1.0
    else (year - MinYear) as real / (MaxYear - MinYear) as real
  }

  /** A later year never normalises to a smaller value. */
  lemma YearNormMonotone(y1: int, y2: int)
    requires y1 <= y2
    ensures YearNorm(y1) <= YearNorm(y2)
  {
    if MinYear <= y1 && y2 <= MaxYear {
      var d := (MaxYear - MinYear) as real;
      assert (y1 - MinYear) as real <= (y2 - MinYear) as real;
      assert (y1 - MinYear) as real / d <= (y2 - MinYear) as real / d;
    }
  }

  // ---------------------------------------------------------------------
  // Venues

  /** The merged venue id of a paper (feature.py:240-244): the conference id
      if positive, else the journal id shifted past every conference id by
      `journalPad`, else none. */
  function Venue(cid: int, jid: int, journalPad: int): Option<int> {
    if cid > 0 then Some(cid)
    else if jid > 0 then Some(jid + journalPad)
    else None
  }

  /** With `journalPad` at least every conference id, a conference venue and
      a journal venue never share an id; a paper has a venue iff one of its
      ids is positive. */
  lemma VenueSeparation(cid: int, jid: int, journalPad: int)
    requires cid <= journalPad && 0 <= journalPad
    ensures Venue(cid, jid, journalPad).Some? <==> cid > 0 || jid > 0
    ensures cid > 0 ==> Venue(cid, jid, journalPad).value <= journalPad
    ensures cid <= 0 && jid > 0 ==> Venue(cid, jid, journalPad).value > journalPad
  {
  }

  // ---------------------------------------------------------------------
  // Stored text

  /** The extra stop-words of `readConference` (feature.py:274-275). */
  const ConferenceStopwords: set<string> :=
    {"conference", "international", "workshop", "systems", "ieee", "symposium"}

  /** The extra stop-words of `readJournal` (feature.py:305-306). */
  const JournalStopwords: set<string> :=
    {"journal", "international", "research", "science", "review", "engineering"}

  /** A stored text: only `[a-z ]`, and none of its tokens a stop-word. */
  predicate Clean(s: string, stop: set<string>) {
    AllKept(s) && forall w :: w in Words(s) ==> w !in stop
  }

  predicate AllClean(m: map<int, string>, stop: set<string>) {
    forall k :: k in m ==> Clean(m[k], stop)
  }

  lemma NormalizeIsClean(raw: string, stop: set<string>, stop2: set<string>)
    requires stop2 <= stop
    ensures Clean(Normalize(raw, stop), stop2)
  {
    NormalizeFacts(raw, stop);
  }

  /** `if len(s.lower()) > 0: m[k] = normalise(s)` */
  function StoreText(m: map<int, string>, k: int, raw: string, stop: set<string>): map<int, string> {
    if |Lower(raw)| > 0 then m[k := Normalize(raw, stop)] else m
  }

  // ---------------------------------------------------------------------
  // Author.csv

  datatype AuthorRow = AuthorRow(aid: int, affiliation: string)

  /** `readAuthor` (feature.py:189-196) over the rows read so far. */
  function ReadAuthorRows(m: map<int, string>, rows: seq<AuthorRow>, stop: set<string>): map<int, string>
    decreases |rows|
  {
    if rows == [] then m
    else
      var row := rows[|rows| - 1];
      StoreText(ReadAuthorRows(m, rows[..|rows| - 1], stop), row.aid, row.affiliation, stop)
  }

  /** An author's affiliation is the normalised text of the last row that
      gives them a non-empty one. */
  lemma {:induction false} ReadAuthorLastWins(m: map<int, string>, rows: seq<AuthorRow>, stop: set<string>, i: nat)
    requires i < |rows| && |rows[i].affiliation| > 0
    requires forall j :: i < j < |rows| && rows[j].aid == rows[i].aid ==> rows[j].affiliation == []
    ensures rows[i].aid in ReadAuthorRows(m, rows, stop)
    ensures ReadAuthorRows(m, rows, stop)[rows[i].aid] == Normalize(rows[i].affiliation, stop)
    decreases |rows|
  {
    var init := rows[..|rows| - 1];
    if i < |rows| - 1 {
      ReadAuthorLastWins(m, init, stop, i);
    }
  }

  /** Every affiliation `readAuthor` stores is clean. */
  lemma {:induction false} ReadAuthorClean(m: map<int, string>, rows: seq<AuthorRow>, stop: set<string>)
    requires AllClean(m, stop)
    ensures AllClean(ReadAuthorRows(m, rows, stop), stop)
    decreases |rows|
  {
    if rows != [] {
      var row := rows[|rows| - 1];
      ReadAuthorClean(m, rows[..|rows| - 1], stop);
      NormalizeIsClean(row.affiliation, stop, stop);
    }
  }

  // ---------------------------------------------------------------------
  // Paper.csv

  datatype PaperRow = PaperRow(pid: int, title: string, year: int, cid: int, jid: int)

  datatype PaperTables = PaperTables(title: map<int, string>, year: map<int, real>, publish: map<int, int>)

  /** One row of `readPaper` (feature.py:225-250). */
  function ReadPaperRow(t: PaperTables, row: PaperRow, journalPad: int, stop: set<string>): PaperTables {
    var publish := match Venue(row.cid, row.jid, journalPad)
      case Some(v) => t.publish[row.pid := v]
      case None => t.publish;
    PaperTables(StoreText(t.title, row.pid, row.title, stop), t.year[row.pid := YearNorm(row.year)], publish)
  }

  function ReadPaperRows(t: PaperTables, rows: seq<PaperRow>, journalPad: int, stop: set<string>): PaperTables
    decreases |rows|
  {
    if rows == [] then t
    else ReadPaperRow(ReadPaperRows(t, rows[..|rows| - 1], journalPad, stop), rows[|rows| - 1], journalPad, stop)
  }

  /** The body of the `readPaper` loop for one row. */
  method ReadPaperStep(t: PaperTables, row: PaperRow, journalPad: int, stop: set<string>) returns (r: PaperTables)
    ensures r == ReadPaperRow(t, row, journalPad, stop)
  {
    var PaperRow(pid, title, year, cid, jid) := row;
    r := t;
    if year < MinYear {
      r := r.(year := r.year[pid := 0.0]);
    } else if year > MaxYear {
      r := r.(year := r.year[pid := 1.0]);
    } else {
      r := r.(year := r.year[pid := (year - MinYear) as real / (MaxYear - MinYear) as real]);
    }
    if cid > 0 {
      r := r.(publish := r.publish[pid := cid]);
    } else if jid > 0 {
      r := r.(publish := r.publish[pid := jid + journalPad]);
    }
    if |Lower(title)| > 0 {
      r := r.(title := r.title[pid := Normalize(title, stop)]);
    }
  }

  predicate YearsInUnit(year: map<int, real>) {
    forall p :: p in year ==> 0.0 <= year[p] <= 1.0
  }

  /** After `readPaper` every paper read has a year, every stored year lies
      in [0,1] and every stored title is clean. */
  lemma {:induction false} ReadPaperFacts(t: PaperTables, rows: seq<PaperRow>, journalPad: int, stop: set<string>)
    requires YearsInUnit(t.year) && AllClean(t.title, stop)
    ensures YearsInUnit(ReadPaperRows(t, rows, journalPad, stop).year)
    ensures AllClean(ReadPaperRows(t, rows, journalPad, stop).title, stop)
    ensures forall i :: 0 <= i < |rows| ==> rows[i].pid in ReadPaperRows(t, rows, journalPad, stop).year
    decreases |rows|
  {
    if rows != [] {
      var init := rows[..|rows| - 1];
      ReadPaperFacts(t, init, journalPad, stop);
      NormalizeIsClean(rows[|rows| - 1].title, stop, stop);
      assert forall i :: 0 <= i < |init| ==> rows[i] == init[i];
    }
  }

  // ---------------------------------------------------------------------
  // Conference.csv and Journal.csv

  datatype VenueRow = VenueRow(id: int, name: string)

  datatype VenueTables = VenueTables(names: map<int, string>, journalPad: int)

  /** One row of `readConference` (feature.py:282-293). */
  function ReadConferenceRow(t: VenueTables, row: VenueRow, stop: set<string>): VenueTables {
    VenueTables(StoreText(t.names, row.id, row.name, ConferenceStopwords + stop),
                if row.id > t.journalPad then row.id else t.journalPad)
  }

  function ReadConferenceRows(t: VenueTables, rows: seq<VenueRow>, stop: set<string>): VenueTables
    decreases |rows|
  {
    if rows == [] then t
    else ReadConferenceRow(ReadConferenceRows(t, rows[..|rows| - 1], stop), rows[|rows| - 1], stop)
  }

  /** `journalPad` ends as the largest of its start value and every
      conference id read. */
  lemma {:induction false} ConferencePadIsMax(t: VenueTables, rows: seq<VenueRow>, stop: set<string>)
    ensures t.journalPad <= ReadConferenceRows(t, rows, stop).journalPad
    ensures forall i :: 0 <= i < |rows| ==> rows[i].id <= ReadConferenceRows(t, rows, stop).journalPad
    ensures ReadConferenceRows(t, rows, stop).journalPad == t.journalPad
      || exists i :: 0 <= i < |rows| && rows[i].id == ReadConferenceRows(t, rows, stop).journalPad
    decreases |rows|
  {
    if rows != [] {
      var init, last := rows[..|rows| - 1], rows[|rows| - 1];
      ConferencePadIsMax(t, init, stop);
      var before := ReadConferenceRows(t, init, stop).journalPad;
      var after := ReadConferenceRows(t, rows, stop).journalPad;
      assert forall i :: 0 <= i < |init| ==> rows[i] == init[i];
      if last.id > before {
        assert after == rows[|rows| - 1].id;
      } else if before != t.journalPad {
        var i :| 0 <= i < |init| && init[i].id == before;
        assert rows[i].id == after;
      }
    }
  }

  /** One row of `readJournal` (feature.py:313-321): the name is stored
      under the journal id shifted by `journalPad`. */
  function ReadJournalRow(t: VenueTables, row: VenueRow, stop: set<string>): VenueTables {
    VenueTables(StoreText(t.names, row.id + t.journalPad, row.name, JournalStopwords + stop), t.journalPad)
  }

  function ReadJournalRows(t: VenueTables, rows: seq<VenueRow>, stop: set<string>): VenueTables
    decreases |rows|
  {
    if rows == [] then t
    else ReadJournalRow(ReadJournalRows(t, rows[..|rows| - 1], stop), rows[|rows| - 1], stop)
  }

  /** Journals with positive ids never overwrite a conference name: every
      entry at or below `journalPad` is untouched. */
  lemma {:induction false} JournalsAbovePad(t: VenueTables, rows: seq<VenueRow>, stop: set<string>)
    requires forall i :: 0 <= i < |rows| ==> rows[i].id > 0
    ensures ReadJournalRows(t, rows, stop).journalPad == t.journalPad
    ensures forall k :: k <= t.journalPad ==>
      (k in ReadJournalRows(t, rows, stop).names <==> k in t.names)
    ensures forall k :: k <= t.journalPad && k in t.names ==>
      ReadJournalRows(t, rows, stop).names[k] == t.names[k]
    decreases |rows|
  {
    if rows != [] {
      JournalsAbovePad(t, rows[..|rows| - 1], stop);
    }
  }

  // ---------------------------------------------------------------------
  // PaperAuthor.csv

  /** Longest-affiliation-wins (feature.py:363-368): the stored text is kept
      only when it is strictly longer than the new one. */
  function LongerAffiliation(current: Option<string>, aff: string): (r: string)
    ensures current.None? ==> r == aff
    ensures current.Some? && |current.value| > |aff| ==> r == current.value
    ensures current.Some? && |current.value| <= |aff| ==> r == aff
  {
    match current
    case None => aff
    case Some(cur) => if |cur| > |aff| then cur else aff
  }

  /** The kept affiliation is one of the two and is the longer one; on a tie
      it is the newer. */
  lemma LongerAffiliationIsLongest(current: string, aff: string)
    ensures var r := LongerAffiliation(Some(current), aff);
      |r| == Max(|current|, |aff|) && (r == aff || (r == current && |current| > |aff|))
  {
  }

  /** The affiliation rule of `readPaperAuthor` (feature.py:361-368): a
      non-empty affiliation is stored unless a longer one is already held. */
  function StoreAffiliation(m: map<int, string>, aid: int, raw: string, stop: set<string>): map<int, string> {
    if |Lower(raw)| > 0 then
      var current := if aid in m then Some(m[aid]) else None;
      m[aid := LongerAffiliation(current, Normalize(raw, stop))]
    else m
  }

  /** The venue of each published paper of `pids`, in order. */
  function Venues(pids: seq<int>, publish: map<int, int>): (vs: seq<int>)
    ensures |vs| <= |pids|
    decreases |pids|
  {
    if pids == [] then []
    else
      var init := Venues(pids[..|pids| - 1], publish);
      var last := pids[|pids| - 1];
      if last in publish then init + [publish[last]] else init
  }

  /** The stored year of each paper, 0 for a paper `readPaper` never saw. */
  function YearsOf(pids: seq<int>, paperYear: map<int, real>): (ys: seq<real>)
    ensures |ys| == |pids|
    ensures forall i :: 0 <= i < |pids| ==> ys[i] == Get(paperYear, pids[i], 0.0)
  {
    seq(|pids|, i requires 0 <= i < |pids| => Get(paperYear, pids[i], 0.0))
  }

  /** `for v in venues: counts[v] += 1` on a defaultdict. */
  function Bump(counts: map<int, real>, venues: seq<int>): map<int, real>
    decreases |venues|
  {
    if venues == [] then counts
    else
      var c := Bump(counts, venues[..|venues| - 1]);
      var v := venues[|venues| - 1];
      c[v := Get(c, v, 0.0) + 1.0]
  }

  /** Each count grows by the number of times its venue occurs; the keys are
      the old keys and the venues met. */
  lemma {:induction false} BumpAddsOccurrences(counts: map<int, real>, venues: seq<int>)
    ensures forall v :: v in Bump(counts, venues) <==> v in counts || v in venues
    ensures forall v :: v in Bump(counts, venues) ==>
      Bump(counts, venues)[v] == Get(counts, v, 0.0) + Count(venues, v) as real
    decreases |venues|
  {
    if venues != [] {
      var init := venues[..|venues| - 1];
      BumpAddsOccurrences(counts, init);
      assert venues == init + [venues[|venues| - 1]];
      assert multiset(venues) == multiset(init) + multiset{venues[|venues| - 1]};
    }
  }

  /** The in-place min-max normalisation of an author's counts
      (feature.py:382-392): all ones when every count is equal, otherwise
      `(v - min) / (max - min)`; an empty map stays empty. */
  ghost function Normalized(m: map<int, real>): (r: map<int, real>)
    ensures r.Keys == m.Keys
  {
    if m == map[] then m
    else
      var hi, lo := MaxOf(m), MinOf(m);
      if hi == lo then map k | k in m :: 1.0
      else map k | k in m :: (m[k] - lo) / (hi - lo)
  }

  /** Normalised counts lie in [0,1]. */
  lemma NormalizedInUnit(m: map<int, real>)
    ensures forall k :: k in m ==> 0.0 <= Normalized(m)[k] <= 1.0
  {
    if m != map[] && MaxOf(m) != MinOf(m) {
      var hi, lo := MaxOf(m), MinOf(m);
      forall k | k in m
        ensures 0.0 <= Normalized(m)[k] <= 1.0
      {
        UnitRatio(m[k] - lo, hi - lo);
      }
    }
  }

  /** Normalising keeps the order of the counts. */
  lemma NormalizedMonotone(m: map<int, real>, a: int, b: int)
    requires a in m && b in m && m[a] <= m[b]
    ensures Normalized(m)[a] <= Normalized(m)[b]
  {
    var hi, lo := MaxOf(m), MinOf(m);
    if hi != lo {
      RatioMonotone(m[a] - lo, m[b] - lo, hi - lo);
    }
  }

  /** Equal counts all become 1; otherwise a smallest count becomes 0 and a
      largest becomes 1. */
  lemma NormalizedExtremes(m: map<int, real>)
    requires m != map[]
    ensures MaxOf(m) == MinOf(m) ==> forall k :: k in m ==> Normalized(m)[k] == 1.0
    ensures MaxOf(m) != MinOf(m) ==> forall k :: IsMinKey(m, k) ==> Normalized(m)[k] == 0.0
    ensures MaxOf(m) != MinOf(m) ==> forall k :: IsMaxKey(m, k) ==> Normalized(m)[k] == 1.0
  {
    var hi, lo := MaxOf(m), MinOf(m);
    if hi != lo {
      forall k | IsMaxKey(m, k)
        ensures Normalized(m)[k] == 1.0
      {
        assert m[k] == hi;
        assert (hi - lo) / (hi - lo) == 1.0;
      }
      forall k | IsMinKey(m, k)
        ensures Normalized(m)[k] == 0.0
      {
        assert m[k] == lo;
      }
    }
  }

  lemma UnitRatio(x: real, d: real)
    requires 0.0 <= x <= d && 0.0 < d
    ensures 0.0 <= x / d <= 1.0
  {
    var q := x / d;
    assert q * d == x;
  }

  lemma RatioMonotone(x: real, y: real, d: real)
    requires x <= y && 0.0 < d
    ensures x / d <= y / d
  {
  }

  lemma VenuesStep(pids: seq<int>, j: nat, publish: map<int, int>)
    requires j < |pids|
    ensures Venues(pids[..j + 1], publish)
      == Venues(pids[..j], publish) + (if pids[j] in publish then [publish[pids[j]]] else [])
  {
    assert pids[..j + 1][..j] == pids[..j];
  }

  lemma BumpStep(counts: map<int, real>, venues: seq<int>, v: int)
    ensures Bump(counts, venues + [v]) == Bump(counts, venues)[v := Get(Bump(counts, venues), v, 0.0) + 1.0]
  {
    assert (venues + [v])[..|venues|] == venues;
  }

  /** One more paper's venue counted, when it has one. */
  lemma VenueCountStep(counts: map<int, real>, pids: seq<int>, j: nat, publish: map<int, int>)
    requires j < |pids|
    ensures var before := Bump(counts, Venues(pids[..j], publish));
      Bump(counts, Venues(pids[..j + 1], publish))
        == if pids[j] in publish then before[publish[pids[j]] := Get(before, publish[pids[j]], 0.0) + 1.0] else before
  {
    VenuesStep(pids, j, publish);
    if pids[j] in publish {
      BumpStep(counts, Venues(pids[..j], publish), publish[pids[j]]);
    } else {
      assert Venues(pids[..j], publish) + [] == Venues(pids[..j], publish);
    }
  }

  /** The count loop of `readPaperAuthor` (feature.py:377-380): every
      publication with a venue adds one to that venue's count. */
  method CountVenues(counts: map<int, real>, pubs: seq<int>, publish: map<int, int>) returns (r: map<int, real>)
    ensures r == Bump(counts, Venues(pubs, publish))
  {
    r := counts;
    for j := 0 to |pubs|
      invariant r == Bump(counts, Venues(pubs[..j], publish))
    {
      VenuesStep(pubs, j, publish);
      var pid := pubs[j];
      if pid in publish {
        BumpStep(counts, Venues(pubs[..j], publish), publish[pid]);
        var cid := publish[pid];
        r := r[cid := Get(r, cid, 0.0) + 1.0];
      } else {
        assert Venues(pubs[..j], publish) + [] == Venues(pubs[..j], publish);
      }
    }
    assert pubs[..|pubs|] == pubs;
  }

  /** The normalisation loops of `readPaperAuthor` (feature.py:383-392),
      applied to one author's counts. */
  method NormalizeCounts(counts: map<int, real>) returns (r: map<int, real>)
    ensures r == Normalized(counts)
  {
    r := counts;
    if |counts| > 0 {
      var maxKey, maxCount := MaxItem(counts);
      var minKey, minCount := MinItem(counts);
      ghost var goal := Normalized(counts);
      var todo := counts.Keys;
      if maxCount == minCount {
        while todo != {}
          invariant todo <= counts.Keys && r.Keys == counts.Keys
          invariant forall k :: k in r ==> r[k] == if k in todo then counts[k] else goal[k]
          decreases |todo|
        {
          Inhabited(todo);
          var cid :| cid in todo;
          r := r[cid := 1.0];
          todo := todo - {cid};
        }
      } else {
        while todo != {}
          invariant todo <= counts.Keys && r.Keys == counts.Keys
          invariant forall k :: k in r ==> r[k] == if k in todo then counts[k] else goal[k]
          decreases |todo|
        {
          Inhabited(todo);
          var cid :| cid in todo;
          r := r[cid := r[cid] - minCount];
          r := r[cid := r[cid] / (maxCount - minCount)];
          todo := todo - {cid};
        }
      }
      assert forall k :: k in r ==> r[k] == goal[k];
      assert r.Keys == goal.Keys;
    }
  }

  datatype PaperAuthorRow = PaperAuthorRow(pid: int, aid: int, affiliation: string)

  datatype AuthorTables = AuthorTables(
    affiliation: map<int, string>,
    coAuthors: map<int, seq<int>>,
    publications: map<int, seq<int>>,
    publishCount: map<int, map<int, real>>)

  /** One row of `readPaperAuthor` (feature.py:354-392). The dicts used as
      key sets (`paperCoAuthors[pid]`, `authorPublications[aid]`) are
      duplicate-free lists in insertion order. Every publication of the author
      bumps its venue's count, then the author's counts are normalised. */
  ghost function ReadPaperAuthorRow(t: AuthorTables, row: PaperAuthorRow, publish: map<int, int>, stop: set<string>): AuthorTables {
    var pubs := AppendNew(Get(t.publications, row.aid, []), [row.pid]);
    AuthorTables(
      StoreAffiliation(t.affiliation, row.aid, row.affiliation, stop),
      t.coAuthors[row.pid := AppendNew(Get(t.coAuthors, row.pid, []), [row.aid])],
      t.publications[row.aid := pubs],
      t.publishCount[row.aid := RecountVenues(Get(t.publishCount, row.aid, map[]), pubs, publish)])
  }

  /** An author's counts after `readPaperAuthor` meets one of their rows:
      every publication's venue counted on top of the stored counts, then
      normalised (feature.py:375-392). */
  ghost function RecountVenues(counts: map<int, real>, pubs: seq<int>, publish: map<int, int>): map<int, real> {
    Normalized(Bump(counts, Venues(pubs, publish)))
  }

  ghost function ReadPaperAuthorRows(t: AuthorTables, rows: seq<PaperAuthorRow>, publish: map<int, int>, stop: set<string>): AuthorTables
    decreases |rows|
  {
    if rows == [] then t
    else ReadPaperAuthorRow(ReadPaperAuthorRows(t, rows[..|rows| - 1], publish, stop), rows[|rows| - 1], publish, stop)
  }

  /** The body of the `readPaperAuthor` loop for one row. */
  method ReadPaperAuthorStep(t: AuthorTables, row: PaperAuthorRow, publish: map<int, int>, stop: set<string>)
    returns (r: AuthorTables)
    ensures r == ReadPaperAuthorRow(t, row, publish, stop)
  {
    var PaperAuthorRow(pid, aid, raw) := row;
    var affiliation := KeepLongerAffiliation(t.affiliation, aid, raw, stop);
    var coAuthors := AddOnce(Get(t.coAuthors, pid, []), aid);
    var publications := AddOnce(Get(t.publications, aid, []), pid);
    var counts := CountVenues(Get(t.publishCount, aid, map[]), publications, publish);
    counts := NormalizeCounts(counts);
    r := AuthorTables(affiliation, t.coAuthors[pid := coAuthors], t.publications[aid := publications],
                      t.publishCount[aid := counts]);
  }

  /** The affiliation part of the `readPaperAuthor` loop. */
  method KeepLongerAffiliation(m: map<int, string>, aid: int, raw: string, stop: set<string>) returns (r: map<int, string>)
    ensures r == StoreAffiliation(m, aid, raw, stop)
  {
    r := m;
    if |Lower(raw)| > 0 {
      var aff := Normalize(raw, stop);
      if aid !in r {
        r := r[aid := aff];
      } else if |r[aid]| > |aff| {
      } else {
        r := r[aid := aff];
      }
    }
  }

  /** The co-author and publication tables mirror each other, and neither
      holds a duplicate. */
  ghost predicate Mirrored(coAuthors: map<int, seq<int>>, publications: map<int, seq<int>>) {
    && (forall p, a :: p in coAuthors && a in coAuthors[p] <==> a in publications && p in publications[a])
    && (forall p :: p in coAuthors ==> NoDuplicates(coAuthors[p]))
    && (forall a :: a in publications ==> NoDuplicates(publications[a]))
  }

  /** Every publish count lies in [0,1]. */
  predicate CountsInUnit(publishCount: map<int, map<int, real>>) {
    forall a, v :: a in publishCount && v in publishCount[a] ==> 0.0 <= publishCount[a][v] <= 1.0
  }

  /** An affiliation never gets shorter. */
  predicate NoShorter(before: map<int, string>, after: map<int, string>) {
    forall a :: a in before ==> a in after && |before[a]| <= |after[a]|
  }

  /** One row keeps the tables mirrored, the counts in [0,1], the stored
      affiliations clean, and never shortens an affiliation. */
  lemma ReadPaperAuthorRowFacts(t: AuthorTables, row: PaperAuthorRow, publish: map<int, int>, stop: set<string>)
    requires Mirrored(t.coAuthors, t.publications) && CountsInUnit(t.publishCount)
    requires AllClean(t.affiliation, stop)
    ensures var r := ReadPaperAuthorRow(t, row, publish, stop);
      && Mirrored(r.coAuthors, r.publications)
      && CountsInUnit(r.publishCount)
      && AllClean(r.affiliation, stop)
      && NoShorter(t.affiliation, r.affiliation)
  {
    MirroredStep(t.coAuthors, t.publications, row.pid, row.aid);
    var r := ReadPaperAuthorRow(t, row, publish, stop);
    var counts := Bump(Get(t.publishCount, row.aid, map[]), Venues(r.publications[row.aid], publish));
    NormalizedInUnit(counts);
    NormalizeIsClean(row.affiliation, stop, stop);
  }

  /** Recording that author `aid` wrote paper `pid` on both sides keeps the
      two tables mirrored. */
  lemma MirroredStep(coAuthors: map<int, seq<int>>, publications: map<int, seq<int>>, pid: int, aid: int)
    requires Mirrored(coAuthors, publications)
    ensures Mirrored(coAuthors[pid := AppendNew(Get(coAuthors, pid, []), [aid])],
                     publications[aid := AppendNew(Get(publications, aid, []), [pid])])
  {
    var cos := Get(coAuthors, pid, []);
    var pubs := Get(publications, aid, []);
    var co := coAuthors[pid := AppendNew(cos, [aid])];
    var pu := publications[aid := AppendNew(pubs, [pid])];
    AppendNewFacts(cos, [aid]);
    AppendNewFacts(pubs, [pid]);
    forall p, a
      ensures p in co && a in co[p] <==> a in pu && p in pu[a]
    {
      if p == pid && a == aid {
      } else if p == pid {
        assert a in co[p] <==> a in cos;
      } else if a == aid {
        assert p in pu[a] <==> p in pubs;
      }
    }
  }

  /** The same facts hold after any number of rows. */
  lemma {:induction false} ReadPaperAuthorFacts(t: AuthorTables, rows: seq<PaperAuthorRow>, publish: map<int, int>, stop: set<string>)
    requires Mirrored(t.coAuthors, t.publications) && CountsInUnit(t.publishCount)
    requires AllClean(t.affiliation, stop)
    ensures var r := ReadPaperAuthorRows(t, rows, publish, stop);
      && Mirrored(r.coAuthors, r.publications)
      && CountsInUnit(r.publishCount)
      && AllClean(r.affiliation, stop)
      && NoShorter(t.affiliation, r.affiliation)
    decreases |rows|
  {
    if rows != [] {
      var init := rows[..|rows| - 1];
      ReadPaperAuthorFacts(t, init, publish, stop);
      ReadPaperAuthorRowFacts(ReadPaperAuthorRows(t, init, publish, stop), rows[|rows| - 1], publish, stop);
    }
  }
}
