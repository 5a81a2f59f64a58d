# kddcup13 author–paper identification: a Dafny model

This project models the feature-engineering and data-preparation scripts of
the KDD Cup 2013 (track 1) author–paper identification code:

- **feature.py**: the `Data` class. Its readers build a paper/venue/author
  catalog from the competition CSV files. `readTrain` emits one labelled
  feature row per (author, paper) pair of Train.csv. `readTestFull` scores
  every test author against every labelled author and picks the five
  nearest. Around them sit the comparators: `charFilter`,
  `euclidean_distance`, `authorCmp`, `coauthorCmp`, `stringDistance`,
  `paperCmp` and `publicationCmp`.
- **split_valid.py**: turns Valid.csv and ValidSolution.csv into
  ValidToTrain.csv. It keeps an ordered list of authors with a confirmed
  list and a deleted list per author.
- **data_mining.py**: compresses the raw CSV files. It keeps the papers that
  pass a sanity filter and the venues, authorships and label lists that
  refer to kept papers.
- **merge_csv.py**: concatenates CSV files into the last file named on the
  command line. Only the first file's header is kept.

CSV files arrive as already-parsed rows, and written files leave as returned
sequences of rows. Floating point is `real`. The foreign string metrics of
`jellyfish` and `math.sqrt` are function values passed in a `Metrics.Ext`
record, together with the facts the model assumes of them (`Ext.Valid`):

- the Jaro similarity lies in [0,1] and is 1 on identical non-empty strings;
- an edit distance never exceeds the longer length and is 0 on identical
  strings;
- `sqrt` is the non-negative square root.

Modules:

| module | models |
|---|---|
| `Util` | Python list and dict idioms: `d.get`, the `if x not in xs: xs.append(x)` loop, `set()` deduplication, `max`/`min` over a dict |
| `Text` | `charFilter` and the lower → filter → split → drop stop-words → join idiom |
| `Metrics` | `stringDistance` and `euclidean_distance` |
| `Comparator` | `authorCmp`, `coauthorCmp`, `paperCmp`, `publicationCmp` |
| `Catalog` | the rules applied per row by `readAuthor`, `readPaper`, `readConference`, `readJournal` and `readPaperAuthor` |
| `Neighbours` | the scoring and top-5 selection of `readTestFull` |
| `Feature` | the `Data` class of feature.py, with the `get*Info` readers and `readTrain` |
| `SplitValid` | split_valid.py |
| `DataMining` | data_mining.py, its module-level dictionaries as a class |
| `MergeCsv` | merge_csv.py, its global `title` as a class field |

State that the source mutates in place is a class with `modifies` clauses:
`Feature.Data`, `SplitValid.Data`, `DataMining.Mining` and `MergeCsv.Merger`.
Each loop is a method proved against a specification function. The
properties of that function are then proved as lemmas.

A path where the source raises is modelled as a failure result, not as a
precondition:

- `readTrain` reports the first Train.csv row whose confirmed list is empty
  (`ZeroDivisionError` at feature.py:455).
- `readTestFull` reports the first Test.csv row it cannot process (division
  by `len(pids)`, `max` of an empty dict, or a zero `max_year`/`max_count`).
- `mergeCsv` reports a missing target file (`IOError`), and an empty file
  whose header it must skip (`StopIteration`).
- The journal section of data_mining.py as written reports its `NameError`
  (see Findings).

## Model

| member | source | states |
|---|---|---|
| `Text.LowerChar` | feature.py:191 | `str.lower()` on a byte: upper-case ASCII letters become lower-case letters, every other character is unchanged |
| `Text.Lower` | feature.py:191 | lower-casing keeps the length and maps every character through `LowerChar` |
| `Text.CharFilter` | feature.py:19-23 | the output holds only `a`–`z` and space, and is never longer than the input |
| `Text.CharFilterIsSubsequence` | feature.py:19-23 | `charFilter`'s output is a subsequence of its input |
| `Text.CharFilterKeepsKept` | feature.py:19-23 | text made only of `[a-z ]` passes `charFilter` unchanged |
| `Text.CharFilterIdempotent` | feature.py:19-23 | `charFilter` applied twice equals `charFilter` applied once |
| `Text.Words` | feature.py:195 | `split()` on filtered text yields only non-empty tokens without spaces |
| `Text.WordsOfJoin` | feature.py:195 | `split()` undoes `" ".join` on a list of non-empty space-free tokens |
| `Text.DropStopwords` | feature.py:195 | no stop-word survives; a word survives iff it was in the input and is not a stop-word; the list never grows |
| `Text.NormalizeFacts` | feature.py:191-195 | the normalise idiom's output holds only `[a-z ]`, and splitting it gives back its tokens, none empty and none a stop-word |
| `Text.NormalizeIdempotent` | feature.py:191-195 | normalising a normalised string changes nothing |
| `Metrics.StringDistance` | feature.py:73-91 | 0 when either string is empty; always within [0,1] |
| `Metrics.EditTermIsIndicator` | feature.py:87-89 | because an edit distance is at most `norm`, the integer division makes `1 - d / norm` exactly 1 when `d < norm` and 0 otherwise |
| `Metrics.StringDistanceClosedForm` | feature.py:79-91 | for non-empty strings the distance is `0.5*jaro + 0.25*[leven < norm] + 0.25*[damerau < norm]` |
| `Metrics.StringDistanceSelf` | feature.py:73-91 | a non-empty string is at distance exactly 1 from itself |
| `Metrics.SumOverSymmetric` | feature.py:30-38 | the sum of per-key terms is the same with the two maps swapped |
| `Metrics.SumOverSame` | feature.py:30-38 | the sum of per-key terms of a map against itself is 0 |
| `Metrics.SumKeysOfFirst` | feature.py:30-34 | the first loop sums, over every key of `p`, the squared difference when `q` has the key and the squared value otherwise |
| `Metrics.AddKeysOfSecond` | feature.py:36-38 | the second loop adds the squared value of every key of `q` missing from `p`, completing the sum over the union of keys |
| `Metrics.EuclideanDistance` | feature.py:26-41 | the method's result is the specification distance: the square root of the sum over the union of keys |
| `Metrics.DistanceSquared` | feature.py:26-41 | the distance is non-negative and its square is the sum over the union of keys of the squared difference, a missing key counting as 0 |
| `Metrics.DistanceSymmetric` | feature.py:26-41 | `euclidean_distance(p, q) == euclidean_distance(q, p)` |
| `Metrics.DistanceSelf` | feature.py:26-41 | a map is at distance 0 from itself, two empty maps included |
| `Metrics.SqDistanceSymmetric` | feature.py:26-41 | the squared distance is symmetric |
| `Metrics.SqDistanceSelf` | feature.py:26-41 | the squared distance of a map to itself is 0 |
| `Comparator.Column` | feature.py:64-65 | component `j` is read from every vector, one entry per vector |
| `Comparator.MeanVector` | feature.py:59-70 | the mean vector has exactly `n` components |
| `Comparator.AverageColumns` | feature.py:59-70 | the accumulator loop of `coauthorCmp` and `publicationCmp` gives the component-wise sum divided by the full list length, or `n` zeros for an empty list |
| `Comparator.MeanVectorBounds` | feature.py:59-70 | when every input component lies in [0, hi], every component of the mean does too |
| `Comparator.MeanVectorSingle` | feature.py:59-70 | with one candidate, the mean is that candidate's result |
| `Comparator.AuthorCmp` | feature.py:44-52 | the result is the one-component vector holding the Euclidean distance of the two publish-count maps |
| `Comparator.AuthorResults` | feature.py:63-65 | one `authorCmp` result per co-author |
| `Comparator.CoauthorCmp` | feature.py:55-70 | the result is the mean of the `authorCmp` results against each co-author, divided by the number of co-authors |
| `Comparator.CoauthorCmpFacts` | feature.py:55-70 | `coauthorCmp` returns one non-negative component, which is `[0.0]` when there are no co-authors |
| `Comparator.PaperCmp` | feature.py:94-102 | two components, each in [0,1]; the title component is 0 when a title is empty, the venue component 0 when a venue name is empty |
| `Comparator.PaperResults` | feature.py:113-115 | one `paperCmp` result per publication |
| `Comparator.PublicationCmp` | feature.py:105-120 | the result is the mean of the `paperCmp` results against each publication |
| `Comparator.PublicationCmpBounds` | feature.py:105-120 | `publicationCmp` returns two components in [0,1], `[0.0, 0.0]` when the author has no publications |
| `Catalog.YearNorm` | feature.py:232-238 | the stored year lies in [0,1]; 0 at or below 1900, 1 at or above 2013 |
| `Catalog.YearNormMonotone` | feature.py:232-238 | a later year never normalises to a smaller value |
| `Catalog.VenueSeparation` | feature.py:240-245 | a paper has a venue iff `cid > 0` or `jid > 0`; with `journalPad` at least every conference id, conference venues stay at or below it and journal venues lie above it |
| `Catalog.NormalizeIsClean` | feature.py:290-292 | text normalised with the venue stop-words is also clean for the generic stop-words |
| `Catalog.ReadAuthorLastWins` | feature.py:189-196 | an author's stored affiliation is the normalised text of the last row that gives a non-empty one |
| `Catalog.ReadAuthorClean` | feature.py:189-196 | every affiliation `readAuthor` stores is clean: only `[a-z ]`, no stop-word |
| `Catalog.ReadPaperStep` | feature.py:225-250 | the loop body for one Paper.csv row applies the year, venue and title rules |
| `Catalog.ReadPaperFacts` | feature.py:225-250 | after `readPaper` every paper read has a year, every stored year lies in [0,1] and every stored title is clean |
| `Catalog.ConferencePadIsMax` | feature.py:282-287 | `journalPad` ends as the largest of its start value and every conference id read |
| `Catalog.JournalsAbovePad` | feature.py:313-321 | journals with positive ids leave `journalPad` alone and never overwrite a name at or below it |
| `Catalog.LongerAffiliation` | feature.py:363-368 | a new affiliation is stored unless the stored one is strictly longer |
| `Catalog.LongerAffiliationIsLongest` | feature.py:363-368 | the kept affiliation is one of the two and is at least as long as the other; a tie goes to the newer one |
| `Catalog.Venues` | feature.py:377-379 | the venues of a publication list are at most as many as the papers |
| `Catalog.YearsOf` | feature.py:433-436 | each paper's stored year, 0 for a paper without one |
| `Catalog.BumpAddsOccurrences` | feature.py:377-380 | each venue count grows by the number of times the venue occurs; the keys are the old keys plus the venues met |
| `Catalog.CountVenues` | feature.py:377-380 | the count loop adds one to the venue count of every publication that has a venue |
| `Catalog.Normalized` | feature.py:382-392 | normalisation keeps the keys of the counts |
| `Catalog.NormalizedInUnit` | feature.py:382-392 | normalised counts lie in [0,1] |
| `Catalog.NormalizedMonotone` | feature.py:382-392 | normalising keeps the order of the counts |
| `Catalog.NormalizedExtremes` | feature.py:383-392 | equal counts all become 1; otherwise every smallest count becomes 0 and every largest becomes 1 |
| `Catalog.NormalizeCounts` | feature.py:383-392 | the in-place normalisation loops give the specified min-max normalisation |
| `Catalog.ReadPaperAuthorStep` | feature.py:354-392 | the loop body for one PaperAuthor.csv row applies the affiliation, co-author, publication and count rules |
| `Catalog.KeepLongerAffiliation` | feature.py:360-368 | the affiliation part of the row stores the normalised text under the longest-wins rule, and only when the raw text is non-empty |
| `Catalog.MirroredStep` | feature.py:371-374 | recording the pair on both sides keeps `paperCoAuthors` and `authorPublications` mirror images |
| `Catalog.ReadPaperAuthorRowFacts` | feature.py:354-392 | one row keeps the two tables mirrored, every publish count in [0,1], the stored affiliations clean, and never shortens an affiliation |
| `Catalog.ReadPaperAuthorFacts` | feature.py:354-392 | the same four facts hold after any number of rows |
| `Feature.ConfirmedTablesClosed` | feature.py:431-453 | the confirmed loop appends the ids to the author's list, adds their years to the author's year, tallies their venues, and leaves the deleted table alone |
| `Feature.ConfirmedTablesLists` | feature.py:431-453 | the author's confirmed list grows by exactly the confirmed ids, in order, and the deleted table is unchanged |
| `Feature.ConfirmedTablesYears` | feature.py:433-442 | the author's year total grows by the stored years of the confirmed papers, 0 for a missing one |
| `Feature.ConfirmedTablesCounts` | feature.py:438-440 | the author's venue counts grow by one per confirmed paper with a venue |
| `Feature.CountConfirmed` | feature.py:433-445 | one pass of the confirmed loop updates the three training tables as specified |
| `Feature.View.GetAuthorInfo` | feature.py:599-604 | the author's publish-count map, or the empty map for an unknown author |
| `Feature.View.GetCoAuthorsInfo` | feature.py:606-617 | one author record per co-author id |
| `Feature.View.AuthorInfos` | feature.py:612-615 | one author record per id |
| `Feature.View.CoAuthorsInfoFacts` | feature.py:606-617 | the co-authors never include the queried author; an id is a co-author iff it wrote the paper and differs from the queried author; order is the paper's author order; each record is that author's `getAuthorInfo` |
| `Feature.View.GetPaperInfo` | feature.py:619-631 | the stored title, or "" when missing; the venue's stored name when the paper has a venue, "" otherwise |
| `Feature.View.GetPublicationsInfo` | feature.py:633-644 | one record per publication of the author |
| `Feature.View.PaperInfos` | feature.py:639-642 | one paper record per id |
| `Feature.View.PublicationsInfoFacts` | feature.py:633-644 | record `i` is `getPaperInfo` of the author's `i`-th publication; an unknown author has none |
| `Feature.ReadTrainRows` | feature.py:421-470 | the loop over Train.csv rows writes, for the processed rows, exactly the blocks of the non-short rows in order, and updates the training tables row by row; a reported failure is a row with an empty confirmed list |
| `Feature.ReadTrainRow` | feature.py:425-470 | one row writes its block (confirmed rows, then deleted rows) and divides the author's year total by the number of confirmed papers |
| `Feature.ReadConfirmed` | feature.py:431-453 | the confirmed loop writes one row labelled 1 per confirmed paper, in order, returns the author similarity of the last paper and updates the tables as specified |
| `Feature.Describe` | feature.py:444-453 | a written row holds the author, the paper, its stored year, `coauthorCmp` against the paper's other authors and `publicationCmp` against the author's publications |
| `Feature.ReadDeleted` | feature.py:457-470 | the deleted loop writes one row labelled -1 per deleted paper, in order, with the stale author similarity, and appends the ids to the author's deleted list |
| `Feature.DescribeDeleted` | feature.py:458-470 | a deleted row carries the stale author-similarity columns and the paper's own year and paper similarity |
| `Feature.TrainBlockJoin` | feature.py:431-470 | the confirmed rows followed by the deleted rows form the row's block |
| `Feature.Data.constructor` | feature.py:126-168 | every table starts empty and `journalPad` at 0 |
| `Feature.Data.ReadAuthor` | feature.py:189-196 | `authorAffiliation` becomes the specified last-non-empty-wins table |
| `Feature.Data.ReadPaper` | feature.py:225-250 | the title, year and venue tables become the specified ones, with `journalPad` as the venue readers left it |
| `Feature.Data.ReadConference` | feature.py:282-293 | the venue names and `journalPad` become the specified ones |
| `Feature.Data.ReadJournal` | feature.py:313-321 | journal names are stored under `jid + journalPad` |
| `Feature.Data.ReadPaperAuthor` | feature.py:354-392 | affiliation, co-author, publication and count tables become the specified ones |
| `Feature.Data.ReadTrain` | feature.py:401-478 | the header row, then the rows written and the new training tables are those of the specification, up to the first row it cannot process, which it reports |
| `Feature.Data.ReadTestFull` | feature.py:527-596 | the header row, then one neighbour row per test row, up to the first row it cannot process, which it reports |
| `Feature.Data.TrainTestClear` | feature.py:646-653 | the training and test tables are emptied; the catalog is kept |
| `Neighbours.YearDistance` | feature.py:565 | the year distance is non-negative |
| `Neighbours.SqrtOfSquare` | feature.py:565 | `sqrt((a - b) ** 2)` is the absolute difference |
| `Neighbours.CountDistance` | feature.py:566-575 | the count distance is non-negative |
| `Neighbours.Affinity` | feature.py:577 | the weighted affiliation similarity lies in [0, 0.33] |
| `Neighbours.Affinities` | feature.py:563-579 | one affiliation score per labelled author, each in [0, 0.33] |
| `Neighbours.YearDistances` | feature.py:563-579 | one non-negative year distance per labelled author |
| `Neighbours.CountDistances` | feature.py:563-579 | one non-negative count distance per labelled author |
| `Neighbours.Combine` | feature.py:584-585 | rescoring keeps the set of labelled authors |
| `Neighbours.CombineInRange` | feature.py:582-585 | scaling by the maxima keeps every combined score within [0, 3 * 0.33] |
| `Neighbours.MaximaPositive` | feature.py:582-585 | on a row `readTestFull` can process, both maps are non-empty and both maxima are positive |
| `Neighbours.Scores` | feature.py:563-585 | one score per labelled author |
| `Neighbours.ScoresInRange` | feature.py:563-585 | every score lies within [0, 3 * 0.33] |
| `Neighbours.ScanUnknown` | feature.py:549-560 | the unknown author's loop gives the total stored year of the papers and their venue counts |
| `Neighbours.ScanLearned` | feature.py:563-579 | the labelled-author loop gives the three specified maps |
| `Neighbours.Neighbour` | feature.py:564-579 | the loop body computes the three values for one labelled author |
| `Neighbours.ScanLearnedComplete` | feature.py:563-579 | maps that agree with the per-author values on every labelled author are the loop's maps |
| `Neighbours.AddScaled` | feature.py:582-585 | the second labelled-author loop adds each author's scaled year and count distances |
| `Neighbours.RowOkIff` | feature.py:560-585 | past the division by `len(pids)`, a row fails exactly when every year distance is 0 or every count distance is 0, an empty labelled set included |
| `Neighbours.ReadTestFullRow` | feature.py:547-594 | a row yields nothing iff `readTestFull` raises on it; otherwise the row's author and a best-five selection of its scores |
| `Neighbours.ReadTestFullRows` | feature.py:547-596 | the rows written are the neighbour rows of the input rows, one each and in order, all of them or up to the first failing row |
| `Neighbours.PickBest` | feature.py:588-592 | popping a best remaining entry keeps the selection state |
| `Neighbours.SelectionComplete` | feature.py:587-594 | when the loop stops, the selection is a best-five one |
| `Neighbours.SelectNearest` | feature.py:587-594 | the result has `min(5, number of scores)` pairs; each pair is a distinct author with its score; scores do not increase; no unpicked author scores higher than a picked one |
| `SplitValid.RowAids` | split_valid.py:34 | the authors of the rows, one per row, in row order |
| `SplitValid.ConfirmedPerAuthor` | split_valid.py:41-46 | an author's confirmed list is their old list followed by every new id given for them, each once, in first-seen order |
| `SplitValid.ConfirmedNoDuplicates` | split_valid.py:41-46 | a confirmed list stays duplicate-free and holds exactly the ids the author had or was given |
| `SplitValid.KeepDeletedFacts` | split_valid.py:78-81 | without a confirmed list every id is appended, duplicates included; with one, the list stays duplicate-free and disjoint from it |
| `SplitValid.DeletedUnconfirmed` | split_valid.py:75-81 | an author without a confirmed list ends with every id Valid.csv lists for them, duplicates included |
| `SplitValid.DeletedClean` | split_valid.py:75-81 | an author with a confirmed list keeps a deleted list without duplicates and without a confirmed id |
| `SplitValid.ConfirmedKeys` | split_valid.py:41-42 | an author has a confirmed list iff they had one or appear in ValidSolution.csv |
| `SplitValid.DeletedKeys` | split_valid.py:75-76 | an author has a deleted list, possibly empty, iff they had one or appear in Valid.csv |
| `SplitValid.TrainRowOf` | split_valid.py:93-103 | the row is the author, then the joined confirmed list if the author has one, then the joined deleted list if the author has one |
| `SplitValid.Data.constructor` | split_valid.py:5-15 | empty tables and an empty author list |
| `SplitValid.Data.ReadValidSolution` | split_valid.py:18-51 | with a cached table, `confirmed` is replaced and `aids` left alone; otherwise new authors are appended to `aids` once each and `confirmed` becomes the specified table |
| `SplitValid.Data.ReadValid` | split_valid.py:55-84 | with a cached table, `deleted` is replaced; otherwise new authors are appended to `aids` once each and `deleted` becomes the specified table |
| `SplitValid.Data.WriteValidToTrain` | split_valid.py:87-103 | the header, then one row per author of `aids`, in order |
| `Util.Get` | feature.py:603 | a read of a defaultdict (or `.get` with a default) gives the stored value when the key is present and the default otherwise |
| `Util.AppendNewFacts` | split_valid.py:38-46 | the `if x not in xs: xs.append(x)` loop only appends, ends holding exactly the old and the new values, and keeps a duplicate-free list duplicate-free |
| `Util.AppendNewConcat` | split_valid.py:38-46 | running the append-once loop over `xs + ys` is running it over `xs`, then over `ys` |
| `Util.DedupFacts` | feature.py:425-426 | the deduplicated ids hold each input id exactly once, are never longer than the input, and are non-empty when the input is |
| `Util.MaxItem` | feature.py:384 | `max(d.iteritems(), key=itemgetter(1))` on a non-empty dict gives a stored pair whose value no other value exceeds |
| `Util.MinItem` | feature.py:385 | `min(d.iteritems(), key=itemgetter(1))` on a non-empty dict gives a stored pair whose value no other value undercuts |
| `Util.WithoutFacts` | feature.py:612-613 | filtering on `author != coauthor` keeps exactly the other elements, in order, and never the author |
| `Util.AddOnce` | split_valid.py:38-39 | an element is appended, at the end, only when not yet listed; also `d[k][x] = 1` on the key-set dicts of feature.py:371-374 |
| `SplitValid.AppendMissing` | split_valid.py:44-46 | each id not yet in the list is appended, in order |
| `SplitValid.Run` | split_valid.py:105-115 | the header, then one row per author of either file; authors are distinct and in first-appearance order over ValidSolution.csv then Valid.csv; row i is the author's id, then the joined confirmed list if the author is in ValidSolution.csv, then the joined deleted list if the author is in Valid.csv, so a Valid-only author's deleted list lands in the ConfirmedPaperIds column |
| `SplitValid.RunOutput` | split_valid.py:87-115 | row i names the i-th author of the first-appearance list; it has a confirmed cell, holding that author's joined confirmed list, iff the author is in ValidSolution.csv, and then a deleted cell, holding the joined deleted list, iff the author is in Valid.csv |
| `SplitValid.RunAuthors` | split_valid.py:92-103 | the written rows name each author of either file exactly once |
| `SplitValid.RunFacts` | split_valid.py:105-115 | the author list is the first-appearance order of both files; the keys of the two tables are the authors of each file |
| `DataMining.KeptPapersMembers` | data_mining.py:39-53 | the written paper rows are exactly the input rows with a non-empty title, a year in [1900, 2013] and a conference or journal id |
| `DataMining.KeptPapersOrder` | data_mining.py:39-53 | the written paper rows keep the input's order |
| `DataMining.PaperTablesFacts` | data_mining.py:39-53 | a paper is in `paperId` iff some row for it is kept; the five tables share their keys and hold the values of such a row |
| `DataMining.VenueNamesFacts` | data_mining.py:79-88 | a venue has a name iff some row for it has a non-empty name and an id among the kept papers' ids; every stored name comes from such a row |
| `DataMining.JournalKeysAsWritten` | data_mining.py:110-118 | as written, the journal table never gains a key other than the leftover conference id |
| `DataMining.JournalKeyDiscrepancy` | data_mining.py:116 | with journals 5 and 6 kept and leftover id 1, the script stores only `{1: "B"}`, where the intended table is `{5: "A", 6: "B"}` |
| `DataMining.PaperAuthorsFacts` | data_mining.py:143-153 | `p2amap` has only kept papers as keys; a paper's list is its authors among the kept rows, in row order, duplicates kept |
| `DataMining.AuthorPapersFacts` | data_mining.py:143-153 | an author's `a2pmap` list is their papers among the kept rows, in row order, duplicates kept |
| `DataMining.PaperAuthorsCount` | data_mining.py:148-150 | a paper's list holds an author as often as the kept rows name the pair |
| `DataMining.AuthorPapersCount` | data_mining.py:148-153 | an author's list holds a paper as often as the kept rows name the pair |
| `DataMining.AuthorshipMirrored` | data_mining.py:150-153 | `aid` occurs in `p2amap[pid]` as often as `pid` occurs in `a2pmap[aid]` |
| `DataMining.KeptAuthorshipsIn` | data_mining.py:148-155 | every written authorship is of a kept paper |
| `DataMining.RestrictCount` | data_mining.py:223-225 | the filtered list holds every occurrence of a kept paper and nothing else |
| `DataMining.RestrictOrder` | data_mining.py:223-225 | the filtered list keeps the input's order and names only kept papers |
| `DataMining.ListOutputFacts` | data_mining.py:216-232 | every written label row comes from an input row whose author is in `authorPaper` and whose filtered list is non-empty, and every such input row is written |
| `DataMining.Mining.constructor` | data_mining.py:6-18 | every table starts empty |
| `DataMining.Mining.ReadPapers` | data_mining.py:21-62 | with a cache the tables are loaded and nothing is written; otherwise the kept rows are written and stored |
| `DataMining.Mining.ReadConferences` | data_mining.py:64-93 | with a cache the names are loaded; otherwise the venues whose id is a kept paper's conference id are written and stored |
| `DataMining.Mining.ReadJournals` | data_mining.py:95-124 | with a cache the names are loaded; otherwise the venues whose id is a kept paper's journal id are written and stored under their journal id |
| `DataMining.Mining.ReadPaperAuthors` | data_mining.py:126-165 | with a cache both multimaps are loaded; otherwise the authorships of kept papers are written and fill both multimaps from empty |
| `DataMining.Mining.FilterLabels` | data_mining.py:208-293 | the Valid, ValidSolution and Test sections write the header and the specified filtered rows |
| `DataMining.KeepVenues` | data_mining.py:79-88 | the venue loop gives the specified name table and written rows |
| `DataMining.RestrictList` | data_mining.py:221-225 | the inner loop keeps exactly the specified filtered list |
| `DataMining.Run` | data_mining.py:21-293 | every written paper passes the filter; every written authorship names a written paper; every written label list is non-empty and names only written papers |
| `DataMining.RunFacts` | data_mining.py:21-293 | why the outputs of a run refer to written papers only |
| `MergeCsv.Targets` | merge_csv.py:30-33 | every argument but the program name and the last one, in order; none with fewer than two arguments |
| `MergeCsv.MergeTitle` | merge_csv.py:14-17 | `title` only ever holds 0 or 1; it is 1 after a call that returns and unchanged after one that raises |
| `MergeCsv.MergeFrame` | merge_csv.py:8-11 | a call creates the destination if needed and touches no other file |
| `MergeCsv.MergeFails` | merge_csv.py:8-15 | a call raises exactly when the target does not exist, or when the header is to be skipped and the target is empty |
| `MergeCsv.MergeAppends` | merge_csv.py:14-20 | a call that returns appends the target's rows in order after the destination's rows, without the first row once `title` is set |
| `MergeCsv.Contents` | merge_csv.py:32-33 | the contents of the named files, in order |
| `MergeCsv.MergeAllSucceeds` | merge_csv.py:32-33 | a run from `title = 0` over existing targets that differ from the destination, the later ones non-empty, never raises, sets `title` to 1 and touches only the destination |
| `MergeCsv.MergeAllCombines` | merge_csv.py:14-33 | under the same conditions the destination ends as its old rows followed by the first file whole and every later file without its header |
| `MergeCsv.MergeAllAppends` | merge_csv.py:32-33 | the last call of a run whose earlier calls returned appends the last target |
| `MergeCsv.MergeAllFails` | merge_csv.py:32-33 | a run fails at target `i` only if every earlier call returned and call `i` met one of the two failures; later targets are never opened |
| `MergeCsv.CombinedLength` | merge_csv.py:14-20 | the combined row count is the sum of the files' row counts minus one per file after the first |
| `MergeCsv.RowCounts` | merge_csv.py:19-20 | one row count per file |
| `MergeCsv.Merger.constructor` | merge_csv.py:3 | `title` starts at 0 |
| `MergeCsv.Merger.MergeCsv` | merge_csv.py:5-20 | the new `title` and files and the outcome are those of the specification |
| `MergeCsv.Merger.Run` | merge_csv.py:23-35 | with one argument nothing changes; otherwise the targets are merged in order into the last argument, up to the first call that raises |

## Left out

- File and pickle I/O: reading and writing CSV files, pickle caches, directory creation. The caches that decide what split_valid.py and data_mining.py do are `Option` parameters. feature.py's caches are not modelled: its readers always parse.
- Parsing: `int()` of CSV fields, the header rows (`reader.next()`) and `split()` of id lists are taken as already done. An unparsable field is not modelled.
- Blank output columns of data_mining.py: the written rows carry empty strings in the columns the script does not keep: Keyword of Paper.csv (`[pid, title, year, cid, jid, '']`, line 53), ShortName and HomePage of Conference.csv and Journal.csv (`[id, '', full, '']`, lines 87 and 118), and Name and Affiliation of PaperAuthor.csv (`[pid, aid, '', '']`, line 155). `DataMining.PaperRow`, `DataMining.VenueRow` and `DataMining.AuthorshipRow` hold only the kept columns, so a written row of the model stands for the source's row with those columns blanked, not for a copy of the input row.
- The `runtime` decorator, every `print`, and the UTF-8 decoding inside `stringDistance`.
- `jellyfish.jaro_distance`, `levenshtein_distance`, `damerau_levenshtein_distance` and `math.sqrt`: foreign functions, passed in `Metrics.Ext` with the facts assumed of them.
- The nltk stop-word list: external data, given as a set parameter.
- Floating point: all arithmetic is on `real`. Rounding is not modelled.
- Python 2 dict and set iteration order is unspecified. `map(int, set(row.split()))` (feature.py:425-426, 549) is modelled as deduplication of the parsed ids in first-occurrence order. The source deduplicates the id strings before `int()`, so ids spelled differently are not modelled: a confirmed cell `"5 05"` gives the source `[5, 5]`, two rows labelled 1 and a year divided by 2, while the model handles 5 once. A dict used as a key set (`paperCoAuthors[pid]`, `authorPublications[aid]`) is a duplicate-free sequence in insertion order. `MaxItem` picks some pair with the largest value, so a tie among scores may be broken differently from the interpreter.
- defaultdict reads that insert a key (`self.authorAffiliation[aid]`, `paperYear[pid]`) are modelled as get-or-default. No later membership test in the scripts observes those keys.
- `readTest` (feature.py:481-523): it repeats `readTrain`'s row emission with label 0 and is not part of this model.
- `readTestFull` keeps `neighbority`, `neighborYear` and `neighborCount` across test rows. Each row overwrites every labelled author's entry, so the model starts each row afresh. With no labelled author the dicts would carry over, but that row raises in `max` first.
- `Feature.Data.ReadTrain`: the deleted loop reuses `authorSimilarity` from the last confirmed paper, because of the misspelt `authorSimilairty` at feature.py:461. This is modelled as written (`DeletedRow`'s stale columns). When the code and the intent differ only in which columns a deleted row carries, no single corrected value is evidently meant, so there is no Findings row for it.
- data_mining.py's Train.csv section (lines 168-206) sits inside a string literal and never runs.
- `threading` and `Queue` are imported by data_mining.py but never used.
- `MergeCsv.Merger.Run`: `argv` always holds the program name, so it requires at least one element. Opening the destination in append mode while it is also a target is read as a snapshot of the target before the call.

## Findings

| source | as written | input that shows it | evidently intended | confidence | as-written member | corrected member |
|---|---|---|---|---|---|---|
| data_mining.py:116 | `jourName[cid] = full` stores each kept journal under `cid`, a module-level variable left over from the Conference.csv or Paper.csv loop; when both of those sections loaded their caches, the first kept journal raises `NameError` | Journal.csv rows `(5, "A")` and `(6, "B")`, both journal ids of kept papers, with `cid` left at 1: the table becomes `{1: "B"}` | `jourName[jid] = full`, matching the row it writes at line 118: `{5: "A", 6: "B"}` | medium (not executed) | `DataMining.JournalKeyDiscrepancy` | `DataMining.Mining.ReadJournals` |
