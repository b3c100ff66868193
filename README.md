# google-scholar-save, modelled in Dafny

This project models the data-handling core of a set of scripts for the literature library `google-scholar-save`:

- **Deduplicating the library.** Both scripts plan which items of a Zotero library to delete. `zotero/dedup.py` groups items by normalised DOI; `zotero/dedup-by-title.py` groups them by fuzzy-matched normalised title. In each duplicate group the lowest itemID survives and the other ids are planned for deletion.
- **Adding abstracts to a DOI/Title TSV file.** `zotero/harvester.py` fetches abstracts from CrossRef, concurrently; `spreadscheets/add_abstract.py` scrapes the DOI landing page, one entry at a time. Both write the results out in batches.
- **Cleaning up a Google Sheet with Apps Script.**
  - `duplicates.js` colours rows whose column C repeats an earlier one.
  - `matching-words.js` deletes rows that mention "robot".
  - `remove-empty.js` deletes rows whose column C is blank.
- **Fetching paper data and PDFs.**
  - `zotero/get_paper_info.py` writes the authors, year, type and venue of the items with a given title as CSV.
  - `zotero/downloader.py` copies an item's stored PDF to `docs/`.
  - `pdf/mass_reader.py` runs the downloader for every DOI of a list and extracts each PDF's text to `docs/{sanitised DOI}.txt`, one form feed after each page.

| module | file | models |
|---|---|---|
| `Wrappers` | wrappers.dfy | `Option`, `Try` (an exception or a returned value), dictionary lookup |
| `Text` | text.dfy | ASCII `lower`, Python `strip`/`split`/`join`, JavaScript `trim` |
| `Seqs` | seqs.dfy | distinctness, permutations (a completion order), the non-None results in order |
| `DeletionPlan` | deletion_plan.dfy | the keep-the-lowest-id plan shared by both resolvers |
| `Dedup` | dedup.py | grouping by DOI and the whole resolver |
| `DedupByTitle` | dedup-by-title.py | `normalize_title`, `similar`, first-fit grouping, the plan |
| `TsvSink` | harvester.py, add_abstract.py | `write_results` on a growing file, the batching buffer |
| `Harvester` | harvester.py | CrossRef lookup, `process_entry`, the `as_completed` consumer |
| `AddAbstract` | add_abstract.py | HTML extraction, `process_entry`, the sequential loop |
| `Sheets` | the three `.js` files | the sheet's data range as a class, `deleteRow`, `setBackground`, column C |
| `Duplicates` | duplicates.js | scan for repeats, colouring |
| `MatchingWords` | matching-words.js | the back-to-front deletion loop |
| `RemoveEmpty` | remove-empty.js | the loop as written, and a corrected loop |
| `Paths` | downloader.py, mass_reader.py | `sanitize_filename`, POSIX `os.path.join`, the `docs/` paths |
| `Downloader` | downloader.py | attachment path, `main` outcome |
| `MassReader` | mass_reader.py | DOI lines, the text file's bytes, the files a run leaves on disk |
| `PaperInfo` | get_paper_info.py | author names, `parse_year`, type and venue, the rows and the output path |

Stateful parts are classes with `modifies` clauses:

- The output TSV file: `TsvSink.OutputFile`.
- The sheet: `Sheets.Sheet`. Its `rows` are cell values with a background.
- The disk of `mass_reader.py`: `MassReader.Disk`.

Loops are methods whose invariants tie them to reference functions. The database is represented by the rows its queries return, passed in as parameters. The network is represented by one reply per request, also passed in. The file system is represented by a set of existing paths or a map from paths to bytes.

## Model

| member | source | states |
|---|---|---|
| Dedup.NormalizeDoi | zotero/dedup.py:44 | the key is lower-case and no longer than the raw DOI; it is "" exactly when the raw DOI is all whitespace, so a whitespace-only DOI is grouped under "" |
| Dedup.KeyOrderSpec | zotero/dedup.py:45-48 | the dictionary's insertion order lists every normalised DOI once and nothing else |
| Dedup.DoiKeysSpec | zotero/dedup.py:41-48 | a string is a group key exactly when some row with a non-empty DOI normalises to it |
| Dedup.RowInGroup | zotero/dedup.py:45-48 | every counted row's itemID is in the group of its normalised DOI |
| Dedup.GroupMemberFromRow | zotero/dedup.py:45-48 | every group member comes from a counted row with that normalised DOI |
| Dedup.AbsentKeyHasNoIds | zotero/dedup.py:45-48 | a string that is no row's key has no members |
| Dedup.GroupsPartitionRows | zotero/dedup.py:39-48 | over distinct keys that cover every DOI key, the group sizes add up to the counted rows |
| Dedup.GroupByDoi | zotero/dedup.py:39-51 | `items_with_doi` counts the truthy DOIs; the groups are keyed by exactly the normalised DOIs; each group is the ids of its rows in input order and is not empty; the number of groups is the number of distinct keys |
| Dedup.GroupByDoiPartition | zotero/dedup.py:39-48 | the groups `GroupByDoi` returns partition the counted rows: their sizes sum to `items_with_doi` |
| Dedup.ResolveByDoi | zotero/dedup.py:39-63 | every decision is for a DOI group of more than one row and is that group's keep/delete decision; a group is planned iff it has more than one member; `total_duplicates` is the number of decisions and equals the number of normalised DOIs shared by more than one row, so no group is planned twice; `total_deleted` is the sum of the delete-set sizes |
| Dedup.ExampleKeys | zotero/dedup.py:44 | "10.1/a" and "10.1/A " normalise to "10.1/a", and "10.2/b" to itself |
| Dedup.ExampleGroups | zotero/dedup.py:39-48 | on the rows (4, "10.1/a"), (2, "10.1/A "), (9, "10.2/b") the keys are "10.1/a" and "10.2/b", their groups are [4, 2] and [9], and only "10.1/a" is a duplicate DOI |
| Dedup.ExactKeyExample | zotero/dedup.py:58-62 | on those rows, a plan meeting the resolver's contract is the single decision for "10.1/a" that keeps the lower itemID 2 and deletes 4; the third row is left alone |
| Dedup.SurvivesIffNotRemoved | zotero/dedup.py:58-62 | a row with a DOI survives (its itemID is the least of its group) exactly when it is not in its group's delete set |
| Dedup.SurvivorsShareId | zotero/dedup.py:58-62 | two surviving rows with the same normalised DOI have the same itemID, the least of the group |
| Dedup.UniqueSurvivor | zotero/dedup.py:58-62 | with distinct itemIDs, two surviving rows with the same normalised DOI are the same row |
| Dedup.SurvivorsPrefix | zotero/dedup.py:39-62 | with distinct itemIDs, among the survivors of any prefix each normalised DOI keeps at most one row |
| Dedup.SurvivorsHaveNoDuplicates | zotero/dedup.py:39-62 | idempotence: with distinct itemIDs (the query returns one DOI field per item), no normalised DOI is shared by two survivors, so resolving the survivors again plans nothing |
| DeletionPlan.MinOf | zotero/dedup.py:61 | `min` returns a member that is no greater than any member |
| DeletionPlan.Decide | zotero/dedup.py:61-62 | the survivor is the least id of the group; it is not in the delete set; survivor and delete set together are the group's ids; the delete set has one element fewer than the distinct ids |
| DeletionPlan.PlansSound | zotero/dedup.py:58-62 | every decision names a key whose group has more than one member, and is that group's decision |
| DeletionPlan.PlansComplete | zotero/dedup.py:58-59 | a key is planned exactly when its group has more than one member |
| DeletionPlan.PlansCount | zotero/dedup.py:58-60 | with distinct keys there is one decision per duplicate group |
| DeletionPlan.PlanDeletions | zotero/dedup.py:55-63 | the loop's decisions are sound and complete; `total_duplicates` equals the number of groups of size > 1; `total_deleted` is the sum of the delete-set sizes |
| DedupByTitle.StripPunctuation | zotero/dedup-by-title.py:15 | only word and whitespace characters of the input survive, and a string made only of them is unchanged |
| DedupByTitle.StripPunctuationChar | zotero/dedup-by-title.py:15 | one character is kept iff it is a word or whitespace character |
| DedupByTitle.StripPunctuationConcat | zotero/dedup-by-title.py:15 | stripping a concatenation strips each part: together with the one-character case this fixes the result as the kept characters in order |
| DedupByTitle.JoinWordsIsNormalized | zotero/dedup-by-title.py:17 | joining non-empty lower-case words with single spaces gives a normalised string |
| DedupByTitle.NormalizeTitleIsNormalized | zotero/dedup-by-title.py:11-18 | the result is lower-case, holds only word characters and single spaces, and has no space at either end |
| DedupByTitle.JoinSplitNormalized | zotero/dedup-by-title.py:17 | splitting a normalised string and joining it with " " gives it back |
| DedupByTitle.NormalizedTail | zotero/dedup-by-title.py:17 | after the first word of a normalised string comes one space, then a normalised rest that starts a word |
| DedupByTitle.SplitAfterWord | zotero/dedup-by-title.py:17 | a word, then one space, then a non-space: the split is that word followed by the split of the rest |
| DedupByTitle.NormalizedIsFixpoint | zotero/dedup-by-title.py:11-18 | a normalised title is its own normalisation |
| DedupByTitle.NormalizeTitleIdempotent | zotero/dedup-by-title.py:11-18 | `normalize_title` is idempotent |
| DedupByTitle.NormalizeTitleLower | zotero/dedup-by-title.py:11-13 | normalisation ignores case |
| DedupByTitle.NormalizeTitleTrailingMark | zotero/dedup-by-title.py:11-18 | a trailing punctuation mark does not change the normalised title |
| DedupByTitle.FuzzyTitlesNormalizeAlike | zotero/dedup-by-title.py:11-18 | "Deep Knowledge Tracing" and "deep knowledge tracing." normalise to the same title |
| DedupByTitle.FirstSimilar | zotero/dedup-by-title.py:57-61 | the scan stops at the first key whose ratio with the title exceeds 0.9; no earlier key is similar |
| DedupByTitle.FirstSimilarExtend | zotero/dedup-by-title.py:57-63 | keys added later do not change an existing first match |
| DedupByTitle.MembersAtExtend | zotero/dedup-by-title.py:52-63 | new keys do not move rows already placed, and an index past the keys holds no members |
| DedupByTitle.GroupsPartitionRows | zotero/dedup-by-title.py:52-63 | when every titled row is similar to some key, the group sizes add up to the titled rows |
| DedupByTitle.PlaceTitle | zotero/dedup-by-title.py:56-63 | the inner loop appends to the group of the first similar key, or else opens a group under the new title at the end of the key order |
| DedupByTitle.GroupTitles | zotero/dedup-by-title.py:50-63 | `items_processed` counts the truthy titles; the keys are exactly `GreedyKeys`, the keys the first fit creates, in the order it creates them (the dictionary's insertion order); they are distinct and each is dissimilar to all earlier keys; every titled row is in the group of the first key it is similar to, in input order; a key is the normalisation of its group's first member |
| DedupByTitle.GroupingDetermined | zotero/dedup-by-title.py:50-63 | two results that both meet the grouping loop's contract on the same rows have the same keys in the same order and the same groups, so that contract fixes the grouping |
| DedupByTitle.PlanTitleDeletions | zotero/dedup-by-title.py:76-81 | each decision is for a group of more than one member and keeps its lowest itemID, deleting the other ids; a group is planned iff it has more than one member; `total_duplicates` is the number of decisions and equals the number of groups of size > 1; `total_deleted` sums the delete sets |
| DedupByTitle.GreedyTraceKeys | zotero/dedup-by-title.py:57-63 | with ratio 1.0 on equal strings, a title equal to the first key matches it, and a title dissimilar to it matches only itself once it is the second key; the two keys are dissimilar |
| DedupByTitle.GreedyTrace | zotero/dedup-by-title.py:52-63 | three titles where the first two normalise alike and the third is dissimilar to the first: keyed by the first and third, every row is covered, the first group holds rows 1 and 2 and the second holds row 3 |
| DedupByTitle.GreedyTraceOrder | zotero/dedup-by-title.py:52-63 | on those three titles the first fit creates exactly two keys, the first title's then the third's |
| DedupByTitle.GreedyTraceGrouping | zotero/dedup-by-title.py:52-63 | any keys and groups meeting the grouping loop's contract on those three titles are those two keys, holding rows 1 and 2 and row 3 |
| DedupByTitle.FuzzyExample | zotero/dedup-by-title.py:52-81 | "Deep Knowledge Tracing" and "deep knowledge tracing." join one group and "Unrelated Study" (ratio to that key at most 0.9) starts its own: the greedy keys are those two, in that order; that group's plan keeps itemID 1 and deletes 2 |
| DedupByTitle.FuzzyGrouping | zotero/dedup-by-title.py:50-63 | whatever meets the grouping loop's contract on those three titles is the map from "deep knowledge tracing" to rows 1 and 2 and from "unrelated study" to row 3, with keys in that order |
| TsvSink.RowsOfConcat | zotero/harvester.py:38 | writing two batches gives the lines of the two in sequence |
| TsvSink.OutputFile.WriteResults | zotero/harvester.py:33-38 | mode 'w' truncates the file and writes the header `DOI, Title, Abstract`; mode 'a' appends without a header; then one line per result |
| TsvSink.AppendInBatches | zotero/harvester.py:49-72 | the file is the single header and then the flushed batches; the batches concatenate to the valid results in completion order; every in-loop flush holds exactly `batch_size` rows; the remainder is written once and is not empty |
| Harvester.GetAbstractCrossref | zotero/harvester.py:10-18 | a failed request, or a 200 reply without a message, raises; a 200 reply gives the message's `abstract` (None when it has none); any other status gives None |
| Harvester.ProcessEntry | zotero/harvester.py:20-31 | an entry with fewer than two columns gives no result; otherwise `(doi, title, abstract)`, with abstract None on an exception or a non-200 reply |
| Harvester.ValidResultsCount | zotero/harvester.py:21-23 | the number of valid results is the number of entries with two or more columns |
| Harvester.HarvestedRecords | zotero/harvester.py:54-60 | any completion order gives a permutation of the valid results and the same count |
| Harvester.HarvestAbstracts | zotero/harvester.py:40-72 | the file is the header, then the valid results in completion order, a permutation of those of the entries with two or more columns, in full batches plus one remainder |
| AddAbstract.GetAbstractFromHtml | spreadscheets/add_abstract.py:26-33 | a failed request raises; a 200 reply gives the extracted text; any other status gives None |
| AddAbstract.ProcessEntry | spreadscheets/add_abstract.py:35-44 | fewer than two columns give no result; otherwise `(doi, title, abstract)`, with the abstract present iff the reply was a 200 response, and equal to the extracted text then |
| AddAbstract.ValidResultsCount | spreadscheets/add_abstract.py:66-69 | the valid results are as many as the entries with two or more columns |
| AddAbstract.HarvestAbstracts | spreadscheets/add_abstract.py:53-79 | the file is the header, then the valid results in input order, in full batches plus one remainder |
| Sheets.DeleteAllSnoc | spreadscheets/remove-empty.js:7-12 | a further `deleteRow` call acts on the sheet as the earlier calls left it |
| Sheets.DeleteBetween | spreadscheets/matching-words.js:10 | `deleteRow(i + 1)` removes the row at index i |
| Sheets.Sheet.DeleteRow | spreadscheets/remove-empty.js:10 | the live sheet loses that one row |
| Sheets.Sheet.SetRowBackground | spreadscheets/duplicates.js:25 | row n gets the colour across all its columns; every other row and all cells are unchanged |
| Sheets.ColumnC | spreadscheets/duplicates.js:14 | `row[2].toLowerCase().trim()`, which fails on a row without a column C |
| Sheets.FirstShort | spreadscheets/duplicates.js:13-14 | the first row without a column C, where forEach throws; every earlier row has one |
| Sheets.ColumnKeyAt | spreadscheets/duplicates.js:14 | key i is row i's normalised column C |
| Duplicates.KeysBeforeStep | spreadscheets/duplicates.js:15-20 | row i is a repeat iff its key is among the keys of the rows before it |
| Duplicates.MarkedBeforeSpec | spreadscheets/duplicates.js:13-21 | an index is marked iff its key occurs earlier, so a first occurrence (the header row included) never is; marked indices are below the row count and strictly increasing; marked count plus distinct keys equals the row count |
| Duplicates.MarkedExactly | spreadscheets/duplicates.js:15-20 | an index is marked iff its row repeats an earlier key |
| Duplicates.MarkedAscending | spreadscheets/duplicates.js:13-21 | the marked indices are strictly increasing |
| Duplicates.MarkedOrNew | spreadscheets/duplicates.js:13-21 | each row is either marked or adds a new key |
| Duplicates.FindDuplicateRows | spreadscheets/duplicates.js:9-21 | the scan throws iff some row lacks column C; otherwise it returns exactly the repeat indices, and `seenValues` is the set of every row's key |
| Duplicates.ColorRows | spreadscheets/duplicates.js:24-26 | marked index i colours sheet row i + 1, and no other row changes |
| Duplicates.ColorDuplicateRows | spreadscheets/duplicates.js:5-26 | on a throw the sheet is unchanged; otherwise exactly the repeat rows are coloured yellow and nothing else changes |
| MatchingWords.KeepUnmatched | spreadscheets/matching-words.js:8-12 | the rows whose comma-joined cells do not contain "robot", in order |
| MatchingWords.KeepUnmatchedMembers | spreadscheets/matching-words.js:9-10 | a row survives iff it is in the sheet and does not match |
| MatchingWords.KeepUnmatchedConcat | spreadscheets/matching-words.js:8-11 | filtering distributes over concatenation, so deleting a lower row never moves a higher one |
| MatchingWords.KeepUnmatchedNone | spreadscheets/matching-words.js:9-11 | a sheet with no matching row is left as it is |
| MatchingWords.DeleteRowsStep | spreadscheets/matching-words.js:8-11 | after visiting index i from the bottom, the sheet is the untouched rows above i, then the filtered rows from i down |
| MatchingWords.DeleteRows | spreadscheets/matching-words.js:3-12 | the final sheet is the original rows, in order, minus those that match |
| RemoveEmpty.EmptyIffBlank | spreadscheets/remove-empty.js:8-9 | the empty test holds iff column C is all whitespace |
| RemoveEmpty.DeleteTargetsSnoc | spreadscheets/remove-empty.js:7-10 | each empty snapshot row at index i adds one `deleteRow(i + 1)` call, in ascending order |
| RemoveEmpty.DeleteStep | spreadscheets/remove-empty.js:7-11 | one callback of the scan as written: an empty row adds one `deleteRow(index + 1)`; a non-empty row adds nothing |
| RemoveEmpty.VisitRow | spreadscheets/remove-empty.js:7-12 | the callback throws iff the row lacks column C; otherwise it deletes live row index + 1 iff the snapshot row is empty |
| RemoveEmpty.DeleteEmpty | spreadscheets/remove-empty.js:1-15 | the script throws iff some row lacks column C; before that row, the sheet gets one `deleteRow(index + 1)` per empty snapshot row, applied in sequence |
| RemoveEmpty.NoTargets | spreadscheets/remove-empty.js:7-10 | without an empty row no `deleteRow` call is made |
| RemoveEmpty.FirstTarget | spreadscheets/remove-empty.js:7-10 | the first call is `deleteRow(j + 1)` for the first empty row j |
| RemoveEmpty.FirstDeletionRemovesFirstEmpty | spreadscheets/remove-empty.js:7-10 | the first deletion removes exactly the first empty row |
| RemoveEmpty.AsWrittenDeletesWrongRow | spreadscheets/remove-empty.js:7-12 | on an empty, empty, non-empty sheet the script as written deletes the non-empty row and leaves an empty one |
| RemoveEmpty.KeepNonEmptyMembers | spreadscheets/remove-empty.js:7-13 | reference result: every non-empty row survives and every survivor is non-empty |
| RemoveEmpty.KeptPlusDeleted | spreadscheets/remove-empty.js:7-13 | kept rows plus deletions make up all the rows |
| RemoveEmpty.CorrectedDeletesEmpty | spreadscheets/remove-empty.js:7-13 | deleting at index + 1 minus the earlier deletions removes exactly the empty rows |
| RemoveEmpty.VisitRowCorrected | spreadscheets/remove-empty.js:7-12 | the corrected callback deletes the live row that holds the tested snapshot row, and counts it |
| RemoveEmpty.DeleteEmptyCorrected | spreadscheets/remove-empty.js:1-15 | the corrected loop throws iff a row lacks column C; it leaves the shifted deletions applied to the rows before that one |
| RemoveEmpty.CorrectedKeepsNonEmpty | spreadscheets/remove-empty.js:7-13 | on a sheet where every row has column C, the corrected loop leaves exactly the non-empty rows, in order |
| Paths.Replace | zotero/downloader.py:21 | `str.replace` of one character keeps the length and replaces every occurrence, and only those |
| Paths.SanitizePointwise | zotero/downloader.py:16-21 | '/', '\\' and ':' become '_'; every other character and the length are kept |
| Paths.SanitizeSafe | zotero/downloader.py:21 | the output contains none of the three characters |
| Paths.SanitizeKeepsSafe | pdf/mass_reader.py:9-14 | a name without them is unchanged |
| Paths.SanitizeIdempotent | zotero/downloader.py:21 | sanitising twice is sanitising once |
| Paths.PathJoin | zotero/downloader.py:64 | an absolute second part replaces the first; otherwise the result starts with the first part and ends with the second, with one '/' between them when needed |
| Paths.DocsPath | zotero/downloader.py:103 | `os.path.join("docs", name)` of a sanitised name is `docs/` followed by the name |
| Paths.DocsPathInjective | pdf/mass_reader.py:28-30 | distinct sanitised names give distinct docs paths |
| Downloader.StripStoragePrefix | zotero/downloader.py:59-62 | `storage:` is removed when the path starts with it; otherwise the path is unchanged |
| Downloader.StripStoragePrefixOnce | zotero/downloader.py:61-62 | the prefix is removed only once |
| Downloader.GetPdfAttachmentPath | zotero/downloader.py:55-65 | None iff there is no attachment row |
| Downloader.AttachmentPathLayout | zotero/downloader.py:58-65 | for a usual layout, `{storage}/{key}/{filename}` |
| Downloader.OutputFile | zotero/downloader.py:100-103 | the target is `docs/{sanitize_filename(doi)}.pdf` |
| Downloader.Download | zotero/downloader.py:67-106 | the exit code is 0 or 1; status 1 iff the argument is missing or blank after stripping, or the database is missing; a copy happens iff the stripped DOI names an item (not 0) with a non-empty PDF path that exists; the source is that path and the target is `docs/{sanitised}.pdf` |
| MassReader.PagesTextSnoc | pdf/mass_reader.py:39-43 | one more page adds its bytes and one form feed at the end of the file |
| MassReader.PagesTextFormFeeds | pdf/mass_reader.py:39-43 | when no page holds a form feed, there is one form feed per page, the last page included |
| MassReader.FirstFormFeed | pdf/mass_reader.py:43 | the position of the first page delimiter |
| MassReader.SplitPagesText | pdf/mass_reader.py:39-43 | reading the file back at its form feeds gives the pages in order, when no page holds one |
| MassReader.Disk.Create | pdf/mass_reader.py:39 | opening with "wb" makes the file empty and changes nothing else |
| MassReader.Disk.Append | pdf/mass_reader.py:42-43 | a write appends its bytes to that file only |
| MassReader.WritePages | pdf/mass_reader.py:39-44 | the text file holds every page's bytes followed by a form feed, in page order; no other file changes |
| MassReader.Dois | pdf/mass_reader.py:19-22 | at most one DOI per line |
| MassReader.DoisSpec | pdf/mass_reader.py:19-22 | every DOI is a stripped, non-blank line, and every non-blank line gives one |
| MassReader.PathsOfDoi | pdf/mass_reader.py:28-30 | `docs/{safe}.pdf` and `docs/{safe}.txt` for the same sanitised DOI |
| MassReader.SameTxtSamePdf | pdf/mass_reader.py:28-30 | two DOIs share a text file only if they share the PDF |
| MassReader.ExtractedFiles | pdf/mass_reader.py:32-44 | text files appear only for DOIs with a readable PDF; no file is made for a missing PDF; others are untouched |
| MassReader.ExtractedContents | pdf/mass_reader.py:37-44 | the text file of a DOI whose PDF reads holds that PDF's pages with a delimiter after each |
| MassReader.ReadAll | pdf/mass_reader.py:17-48 | returns the DOIs of the non-blank lines in order, and leaves the disk as the extraction of their readable PDFs |
| PaperInfo.DisplayName | zotero/get_paper_info.py:57-62 | with a present, non-empty first name: the first name, one space and the last name (prefix, suffix and length); otherwise the last name alone |
| PaperInfo.GetAuthors | zotero/get_paper_info.py:41-63 | one name per author row, in row order |
| PaperInfo.AuthorsListed | zotero/get_paper_info.py:136 | every author's name occurs in the "; "-joined column at its place |
| PaperInfo.FindYearFrom | zotero/get_paper_info.py:90 | `re.search` finds the leftmost four-digit run with no word character on either side |
| PaperInfo.ParseYear | zotero/get_paper_info.py:82-93 | None for a missing or empty date; otherwise a year iff one occurs, and it is four digits |
| PaperInfo.ParseYearLeftmost | zotero/get_paper_info.py:90-92 | the year is the one at the leftmost match |
| PaperInfo.ParseYearIsoDate | zotero/get_paper_info.py:85 | "2023-05-01" gives "2023" |
| PaperInfo.ParseYearMonthYear | zotero/get_paper_info.py:85 | "May 2023" gives "2023" |
| PaperInfo.ParseYearFiveDigits | zotero/get_paper_info.py:90 | "12345" gives None |
| PaperInfo.DetermineTypeAndVenue | zotero/get_paper_info.py:95-111 | `journalArticle` gives `journal` and the publication title; `conferencePaper` gives `conference`; anything else, None included, gives `other` with no venue |
| PaperInfo.ConferenceVenue | zotero/get_paper_info.py:102-107 | a conference venue is the proceedings title, or the conference name when that title is missing or empty |
| PaperInfo.CollectRows | zotero/get_paper_info.py:132-154 | one row per matched item, in query order |
| PaperInfo.CsvCellsOfItem | zotero/get_paper_info.py:133-162 | an item's CSV line, column by column under the header: the searched title; the authors joined with "; "; the parsed year, empty exactly when no year parses and otherwise four characters; "journal"/"conference" exactly for those two item types, else "other"; the venue, empty exactly when it is missing or empty |
| PaperInfo.OutputPath | zotero/get_paper_info.py:121 | `argv[3]` when there are more than three arguments, else `output.csv` |
| PaperInfo.OutputPathIgnoresDocumentedArgument | zotero/get_paper_info.py:115-121 | the invocation the usage line documents still writes `output.csv` |
| PaperInfo.OutputPathCorrected | zotero/get_paper_info.py:115 | `argv[2]`, the argument after the title, else `output.csv` |
| PaperInfo.OutputPathCorrectedUsesArgument | zotero/get_paper_info.py:115-121 | with the corrected reading, the argument after the title is the output file, where the code as written ignores it |
| PaperInfo.GetPaperInfo | zotero/get_paper_info.py:113-162 | status 1 without a title; status 0 when no item matches; otherwise the CSV at the corrected output path, with the header and one line per matched item |

## Left out

- Database access (SQLite) is not modelled: each query is replaced by the rows it returns. This covers the DELETE statements of both resolvers, which act on the planned ids, and the `cp` backup.
- Network access and parsing libraries (aiohttp, CrossRef JSON, BeautifulSoup) are not modelled: replies are parameters, and the `abstracts` div is a field of the page.
- Concurrency and timing in `harvester.py` are not modelled: the semaphore and the `sleep`. `as_completed` is an arbitrary permutation of the entries.
- `SequenceMatcher.ratio` is not modelled: it is an arbitrary function to reals. First-fit properties rely on it giving 1.0 on identical strings.
- PyMuPDF and UTF-8 encoding are not modelled: a PDF is given by its pages' byte strings.
- The `subprocess.run` call to the downloader is not modelled: the PDFs present afterwards are a parameter.
- `os.path.expanduser`, the home directory and the hard-coded input paths are given as parameters.
- Logging, `print`, tqdm and the console messages are not modelled.
- Unicode is not modelled: `lower`, `\w`, `\d`, `\s`, `toLowerCase` and `trim` are modelled on ASCII, plus the whitespace characters of each language.
- Spreadsheet cells are modelled as strings only. A non-string cell makes `toLowerCase` throw; that is not modelled.
- MassReader.ReadAll: an exception while pages are being written has no model. Only a PDF that fails to open is modelled, and it leaves no text file. A page whose text extraction fails midway leaves a partial file, and the model does not show that.
- PaperInfo.DisplayName: a NULL last name has no model. Python would write `None` into the f-string or put None into the list, and then `join` raises.
- Downloader.Download: failures of `makedirs` and of the copy itself are not modelled.
- Sheets.DeleteRowAt: Apps Script's `deleteRow` throws for a position past the last row and for a call that would delete every remaining non-frozen row; the model does not capture that throw and treats a position outside the data range as no change. The as-written loop of `remove-empty.js` on two empty rows calls `deleteRow(2)` on a one-row sheet, where the script would stop with an exception.
- Idempotence is not claimed for the title resolver. A group's survivor is its lowest itemID, not the row whose title became the key, and the ratio is an arbitrary function; so survivors of two groups may be similar to each other, and a second run can group them again.
- PaperInfo.GetPaperInfo: the output path is the corrected `argv[2]`. The code as written reads `argv[3]`; see Findings.
- The other scripts of the repository are not part of this model: the browser automation, the LLM tools, the trash and type cleanups.

## Findings

| source | as written | input that shows it | evidently intended | confidence | as-written member | corrected member |
|---|---|---|---|---|---|---|
| spreadscheets/remove-empty.js:7-12 | each empty snapshot row `index` calls `deleteRow(index + 1)` on the live sheet; `index--` changes only the callback's parameter, so every deletion after the first lands one row lower per earlier deletion | column C values "", "", "x" (rows 1-3): calls `deleteRow(1)`, `deleteRow(2)` and leaves only one empty row, having deleted the "x" row | delete exactly the rows whose column C is blank | high, not executed | RemoveEmpty.DeleteEmpty, RemoveEmpty.AsWrittenDeletesWrongRow | RemoveEmpty.DeleteEmptyCorrected, RemoveEmpty.CorrectedKeepsNonEmpty |
| zotero/get_paper_info.py:121 | the output path is taken from `argv[3]`, the second argument after the title, and only when there are more than three arguments | `get_paper_info.py "A Title" papers.csv` writes `output.csv` | the optional output path of the usage line (line 115), `argv[2]` | medium, not executed | PaperInfo.OutputPath, PaperInfo.OutputPathIgnoresDocumentedArgument | PaperInfo.OutputPathCorrected, PaperInfo.OutputPathCorrectedUsesArgument |
