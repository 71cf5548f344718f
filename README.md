# library-sorter, ordering core, in Dafny

library-sorter reads a tab-separated catalog of books and orders it in three steps, which
`main.c:13-15` runs in turn:

1. `sort_by_author` sorts the catalog by a normalised author key. It then sorts each author's
   run of records by a normalised title key.
2. `add_collection` registers a reading-order collection. Collections are validated against
   the catalog.
3. `apply_collections` splices each collection into its author's run. The collection's titles
   end up as one block, in the order given. The author's other titles stay in title order
   around the block.

This project models that core, as found in `sorter.h`, together with the helpers it rests on:
- the title key `sanitize_title` and the comparator `alphabetic_priority_s`;
- `make_lowercase_string`, `sanitize_data` and `string_is_member`;
- the seven `get_idx_by_*` lookups;
- the header test of `verify_header`;
- `get_book_from_line`.

Modules, in dependency order:

- `Text`: the prefix test behind every `strncmp(x, y, strlen(y)) == 0`, lower-casing,
  `sanitize_data`, `string_is_member`, the header test and the output-format choice.
- `TitleKey`: `sanitize_title` and the comparator, with the quirks the code has:
  - keys that are prefixes of each other compare equal;
  - the comparator is therefore not transitive.
- `Sequences`: counting, filtering, mapping and permutation facts, used by the proofs.
- `Catalog`: the `Book` record, the generic lookup `FindFirst`, the tab tokenizer of
  `get_book_from_line` and the three comparators given to `qsort`.
- `Sorting`: what the program may rely on from `qsort`. The result is a reordering whose
  neighbouring pairs compare `<= 0`. The model realises this with an insertion sort by
  adjacent swaps, which meets the contract even for a comparator that is not transitive.
- `AuthorSort`: the two scans of `sort_by_author`. One collects the repeated authors; the
  other measures an author's run of records.
- `Runs`: a generic left-to-right run of steps that stops at the first error. It is the
  shape of the collection loop of `apply_collections`.
- `Splice`: `apply_collections` for one collection, as a function of three inputs: the
  catalog, the collection, and the order `qsort` left the non-collected titles in. It also
  holds the theorem saying what the splice does.
  - Every place where the C code would read or write out of bounds, or go on with an
    unchecked -1, is an explicit `ApplyError` here.
- `Sorter`: the `Library` class and its imperative steps, as methods with loop invariants.
  Each method is proved equal to the `Splice` functions.
- `Example`: the run of `main.c:14-15` on a six-record catalog. It takes the four novels of
  Mishima's tetralogy, in reading order.

Behaviour of the code that the model keeps:
- `sort_by_author` and `apply_collections` sort with `qsort`, which is not stable. The
  comparator is not transitive: `"ab"~"a"` and `"a"~"ac"`, but `"ab"<"ac"`
  (`TitleKey.ComparatorNotTransitive`).
- An author's run is detected with a raw, case-sensitive prefix test (sorter.h:184, 204,
  274), while the `get_idx_by_*` lookups ignore case. The first title of a collection can
  therefore lie outside the run `apply_collections` finds (`Example.FirstTitleOutsideRun`).
- The run scan of `apply_collections` has no bound (sorter.h:272-276). `sort_by_author`
  checks the bound only after reading one record past it (sorter.h:206); see Findings.
- `apply_collections` copies the record of every stitched title before it overwrites the
  run (sorter.h:328-339), so the overwrite never reads a record it has already replaced.

## Model

| member | source | states |
|---|---|---|
| Text.LowerChar | sorter.h:674-689 | `A`..`Z` become the letter 32 code points up; every other character is unchanged |
| Text.ToLower | sorter.h:674-689 | length is preserved; only `A`..`Z` change, each to its lower-case letter; no capital remains |
| Text.ToLowerIdempotent | sorter.h:674-689 | lower-casing twice equals lower-casing once |
| Text.NotPrefixAt | sorter.h:546 | strings that differ at a position both have are not prefixes of each other, either way |
| Text.ToLowerKeepsPrefix | sorter.h:542-548 | a prefix stays a prefix after both strings are lower-cased |
| Text.SanitizeData | sorter.h:514-528 | the output is no longer than the input and holds no `"` and no newline |
| Text.SanitizeDataKeepsOthers | sorter.h:514-528 | every other character occurs in the output exactly as often as in the input |
| Text.SanitizeDataAppend | sorter.h:514-528 | sanitizing distributes over concatenation, so the kept characters stay in order |
| Text.SanitizeDataKeepsClean | sorter.h:514-528 | a string without `"` and newlines is returned unchanged |
| Text.SanitizeDataIdempotent | sorter.h:514-528 | sanitizing twice equals sanitizing once |
| Text.StringIsMember | sorter.h:531-536 | true exactly when `value` is a prefix of some member, not only an equal one |
| Text.VerifyHeader | sorter.h:397-407 | the line is accepted exactly when it is a prefix of `EXPECTED_HEADER`; otherwise the line itself is returned |
| Text.HeaderAcceptsExactAndEmpty | sorter.h:402 | both the full header and the empty line pass the check |
| Text.HeaderRejectsOtherColumns | sorter.h:402 | a header with other column names fails; so does the expected header with anything appended |
| Text.SelectOutputFormat | sorter.h:128-137 | no output name means standard output; HTML is chosen exactly when the name's last five characters are `.html` |
| TitleKey.DeterminerLength | sorter.h:485-493 | 0 exactly when no determiner starts the title; otherwise the skipped prefix is a determiner, and the same length as any determiner that starts the title |
| TitleKey.DeterminersExclusive | sorter.h:490-493 | at most one of `"The "`, `"An "`, `"On "`, `"A "` starts a given title, so the order of the checks does not matter |
| TitleKey.NoDeterminer | sorter.h:490-493 | a title starting with a letter other than `T`, `A`, `O` has nothing stripped |
| TitleKey.KeyChars | sorter.h:497-508 | the key part holds only `a`..`z` and is no longer than its input |
| TitleKey.KeyCharsAppend | sorter.h:497-508 | the character loop distributes over concatenation |
| TitleKey.KeyCharsOfKey | sorter.h:497-508 | a string of `a`..`z` passes through the loop unchanged |
| TitleKey.SanitizeTitle | sorter.h:480-511 | the key holds only `a`..`z` and is no longer than the title |
| TitleKey.SanitizeTitleIdempotent | sorter.h:480-511 | the key of a key is the key itself |
| TitleKey.DeterminerStripped | sorter.h:485-508 | a title made of a determiner and a rest has the key of the rest's characters: exactly one determiner is stripped |
| TitleKey.SameKeyAfterDeterminer | sorter.h:485-508 | a title with a determiner before it has the same key as the title alone |
| TitleKey.KeyCharsIgnoresCase | sorter.h:497-508 | lower-casing the input first does not change the key part |
| TitleKey.SameKeyIgnoringCase | sorter.h:480-511 | titles without determiners that agree ignoring case have the same key |
| TitleKey.TheStrangerExample | sorter.h:477-511 | `"The Stranger"` and `"Stranger"` share a key |
| TitleKey.BeingAndTimeExample | sorter.h:477-479 | `"Being And Time"` and `"Being and Time"` share a key |
| TitleKey.DoubleDeterminerExample | sorter.h:490-493 | only one determiner is stripped: the key of `"The The Stranger"` is `"the"` followed by the key of `"Stranger"` |
| TitleKey.CompareFrom | sorter.h:458-468 | the comparison loop yields only -1, 0 or 1 |
| TitleKey.CompareKeys | sorter.h:456-468 | comparing two keys yields only -1, 0 or 1 |
| TitleKey.AlphabeticPriority | sorter.h:450-469 | the comparator yields only -1, 0 or 1 |
| TitleKey.CompareFromZeroIffPrefix | sorter.h:456-468 | the loop from a common prefix yields 0 exactly when one key is a prefix of the other |
| TitleKey.CompareKeysZeroIffPrefix | sorter.h:456-468 | two keys compare equal exactly when one is a prefix of the other |
| TitleKey.CompareFromAntisymmetric | sorter.h:458-475 | swapping the arguments of the loop negates its result |
| TitleKey.CompareKeysAntisymmetric | sorter.h:456-475 | swapping the keys negates the result |
| TitleKey.CompareFromFirstDifference | sorter.h:458-475 | the first differing character decides, by its code |
| TitleKey.CompareKeysFirstDifference | sorter.h:456-475 | with a common prefix before a differing character, that character decides |
| TitleKey.AlphabeticPriorityAntisymmetric | sorter.h:450-475 | `cmp(a, b) == -cmp(b, a)` and `cmp(a, a) == 0` |
| TitleKey.AlphabeticPriorityPrefixEqual | sorter.h:450-469 | titles whose keys are prefixes of each other compare equal both ways |
| TitleKey.BeingAndBeingness | sorter.h:450-469 | `"Being"` and `"Beingness"` compare equal |
| TitleKey.ComparatorNotTransitive | sorter.h:450-469 | `"ab"~"a"` and `"a"~"ac"`, yet `"ab"<"ac"`: "equal" is not transitive |
| Catalog.FindFrom | sorter.h:538-554 | the scan from `i` returns -1 exactly when no record from `i` on matches; otherwise the first matching record at or after `i` |
| Catalog.FindFirst | sorter.h:538-662 | -1 exactly when no record's lower-cased field starts with the lower-cased query; otherwise the smallest such index, below the record count |
| Catalog.EmptyQueryFindsFirst | sorter.h:538-554 | an empty query matches the first record |
| Catalog.FindFirstIgnoresQueryCase | sorter.h:538-554 | lower-casing the query first does not change the result |
| Catalog.FindFirstSameMatches | sorter.h:538-662 | queries that match the same records give the same index |
| Catalog.CountMatches | sorter.h:538-662 | the number of matching records is at most the record count |
| Catalog.FindFirstBeforeLast | sorter.h:199-202 | a query matching two records is found before the last record, so the read at `start_idx + 1` is in range |
| Catalog.CountMatchesPermutation | sorter.h:174 | reordering the catalog does not change how many records a query matches |
| Catalog.TwoMatches | sorter.h:184 | two matching records make a count of at least two |
| Catalog.ComparatorsAntisymmetric | sorter.h:438-448 | the author, title and string comparators handed to `qsort` are all antisymmetric |
| Catalog.AdjacentOrderIsNotGlobal | sorter.h:450-469 | a list can have every neighbouring pair in order and still hold a pair out of order |
| Catalog.TokenLength | sorter.h:409-436 | the length of the first token: no tab inside it, and a tab right after it unless the line ends |
| Catalog.Tokens | sorter.h:409-436 | every token is non-empty and free of tabs |
| Catalog.TokenLengthAppend | sorter.h:409-436 | the first token of `a`, a tab and `b` is `a` when `a` has no tab |
| Catalog.TokensAppend | sorter.h:409-436 | the tokens of two parts joined by a tab are the tokens of each part in turn |
| Catalog.TokenLengthPrefix | sorter.h:409-436 | appending text after a tab does not change the first token |
| Catalog.EmptyFieldCollapses | sorter.h:409-436 | two tabs in a row split like one: empty fields collapse and later fields shift left |
| Catalog.TokensOfField | sorter.h:409-436 | a non-empty tab-free field is one token |
| Catalog.TokensJoinTabs | sorter.h:409-436 | non-empty tab-free fields joined by tabs tokenize back to the fields |
| Catalog.GetBookFromLine | sorter.h:409-436 | a record exactly when the line has at least seven tokens; field `k` is token `k` after `sanitize_data` |
| Catalog.BookLineTokens | sorter.h:409-436 | the line of a clean record tokenizes to its seven fields |
| Catalog.GetBookFromLineRoundTrip | sorter.h:409-436 | parsing the line of a clean record gives back the record |
| Sorting.Qsort | sorter.h:303 | for any antisymmetric comparator, the result has the input's length and is a reordering of it with every neighbouring pair comparing `<= 0` |
| Sorting.Swap | sorter.h:303 | exchanging two neighbours keeps the length and the multiset, and changes no other position |
| Sorting.SwapStep | sorter.h:303 | one swap of an out-of-order pair moves the gap in the ordering one place left |
| Sorting.SinkInto | sorter.h:303 | sinking element `i` into an ordered prefix gives a reordering whose first `i + 1` elements are in neighbour order, with the tail untouched |
| Sorting.AdjacentSortedTransitive | sorter.h:174 | under a transitive comparator, a neighbour-sorted list puts every earlier element before every later one (without one it need not: Catalog.AdjacentOrderIsNotGlobal) |
| AuthorSort.CollectRepeatedAuthors | sorter.h:182-190 | every collected author heads a neighbouring pair whose second author starts with it; every such pair's author is covered by some entry; no entry is a prefix of an earlier one |
| AuthorSort.StringIsMemberAppend | sorter.h:185-187 | appending a value keeps every earlier membership and makes the value a member |
| AuthorSort.RepeatedAuthorMatchesTwice | sorter.h:184-199 | the author of a neighbouring pair is found by the author lookup at least twice |
| AuthorSort.MeasureAuthorSpan | sorter.h:201-207 | the run from `start` ends at the first later record whose author does not start with `author`, or at the end of the catalog |
| AuthorSort.MeasureAuthorSpanAsWritten | sorter.h:201-207 | the same run end; a read one past the end of the catalog happens exactly when the run reaches the end |
| AuthorSort.SpanAtEndOverReads | sorter.h:203-206 | a catalog whose last two records share an author has a run that reaches the end |
| Splice.SpanEnd | sorter.h:270-276 | the first record from `j` on whose author does not start with `author`; `None` exactly when every record to the end does |
| Splice.FieldMatchesItself | sorter.h:268-269 | every record matches a lookup of its own field, so the author lookup after a found title succeeds |
| Splice.LocateSpan | sorter.h:265-277 | an error only for a missing first title or a run reaching the end; otherwise the first title's index, at or after the run's start, and a run of at least one record that ends before the catalog does |
| Splice.LocateSpanErrors | sorter.h:265-277 | `FirstTitleMissing` exactly when the title lookup finds nothing; once it finds a record, `SpanOverrun` exactly when the case-sensitive run from the author's first record reaches the end of the catalog |
| Splice.LocateSpanRun | sorter.h:265-277 | a reported run starts at the first record matching the first title's author, ignoring case, holds the following records whose author starts with that author, case-sensitively, and ends at the first that does not |
| Splice.LocateSpanFound | sorter.h:265-277 | the three lookups, once known, determine the span reported |
| Splice.SpanTitles | sorter.h:285-286 | the run's titles, in catalog order |
| Splice.NonCollected | sorter.h:284-300 | a title is kept exactly when it is a run title that no later collection title starts with |
| Splice.Partition | sorter.h:263-300 | on success: the run `LocateSpan` finds, and the non-collected titles, exactly `span - num_titles + 1` of them; a run error is passed on |
| Splice.LastMatch | sorter.h:305-310 | the last sorted title that the first collection title is a prefix of; no later one is |
| Splice.Before | sorter.h:281-310 | the last match when there is one, otherwise the first title's distance from the run start |
| Splice.Stitch | sorter.h:313-325 | the stitched order has `|sorted| - 1 + |c|` titles |
| Splice.StitchParts | sorter.h:313-325 | the stitched order is the sorted titles before the slot, the whole collection, then the sorted titles after the slot |
| Splice.Snapshot | sorter.h:328-334 | a copy exactly when every title is found; entry `j` is the record the title lookup finds for title `j` |
| Splice.Apply | sorter.h:262-339 | success implies a non-empty collection whose partition succeeded |
| Splice.ApplyAll | sorter.h:261-342 | with no collections the catalog is unchanged |
| Splice.ApplyIsFinish | sorter.h:262-339 | once the partition succeeds, its span lies inside the catalog and one pass is the slot, stitch and copy steps on that span |
| Splice.FinishUnfold | sorter.h:305-339 | with the slot and copy known, the last steps write the copy over the run |
| Splice.TitlePrefixSameRecord | sorter.h:291 | with prefix-free titles, a title that is a prefix of another record's title belongs to the same record |
| Splice.FindTitleExact | sorter.h:333 | with prefix-free titles, looking up a record's title finds that record |
| Splice.SpanTitlesDistinct | sorter.h:285-286 | with prefix-free titles, no run title occurs twice |
| Splice.SpanTitlePrefixEqual | sorter.h:291 | with prefix-free titles, a run title that is a prefix of another run title equals it |
| Splice.TailIsMembership | sorter.h:290-292 | for a run title, the prefix test against the collection's tail is membership in the tail |
| Splice.PartitionSplits | sorter.h:279-300 | under the splice hypotheses, the run titles are exactly the non-collected titles plus the collection's tail, so the partition succeeds |
| Splice.FirstTitleSlot | sorter.h:305-310 | under the splice hypotheses, the slot search finds the first collection title itself; the sorted titles are distinct run titles |
| Splice.StitchPermutes | sorter.h:313-325 | putting the collection into the slot gives a reordering of the run titles |
| Splice.TitlesInOrder | sorter.h:303 | records carrying titles in `qsort` order are in title order |
| Splice.StitchedBlock | sorter.h:313-325 | records carrying the stitched titles hold the collection as a block at the slot; the records before the block, the block's first record and the records after it are in title order |
| Splice.StitchFacts | sorter.h:279-325 | under the splice hypotheses: the partition succeeds, the slot holds the first title, and the stitched order is a reordering of the run titles |
| Splice.ApplyRearrangesSpan | sorter.h:305-339 | under the splice hypotheses, one pass succeeds and changes only the run. The run's new records are a reordering of its old ones. The collection is a block in caller order, starting at the slot where the last-match scan finds the first title among the sorted non-collected titles. With the collection's tail taken out, the run is in title order across both edges of the block |
| Splice.SpliceAtSlot | sorter.h:305-339 | a partitioned collection whose first title holds slot `m` of the sorted titles is spliced in at `m` |
| Splice.ApplyAtSlot | sorter.h:262-339 | with the slot and the copy known, one pass writes the copy over the run |
| Splice.FinishAtSlot | sorter.h:305-339 | the slot the last-match scan finds, with the copy known, gives the catalog with the copy written over the run |
| Splice.SnapshotOfStitch | sorter.h:328-339 | the copy of the stitched order, written over the run, splices the collection in |
| Splice.SnapshotFound | sorter.h:328-334 | with prefix-free titles, a reordering of the run titles is found in full |
| Splice.SnapshotTitles | sorter.h:328-334 | each copied record carries the title it was looked up by |
| Splice.SnapshotPermutes | sorter.h:328-334 | the copied records are a reordering of the run's records |
| Splice.SpanRecords | sorter.h:328-334 | looking up the run titles in order gives back the run |
| Runs.Fold | sorter.h:261-342 | with no items the state is unchanged |
| Runs.FoldExtend | sorter.h:261-342 | one more collection is one more step from the state the earlier ones left; the choices made stay valid |
| Runs.FoldErrorPads | sorter.h:261-342 | a run that failed after `i` collections fails the same way over all of them, whatever orders the unreached ones get |
| Runs.FoldOne | sorter.h:261-342 | a run over one collection is that collection's step, with the choice made for it |
| Runs.FoldErrorPersists | sorter.h:261-342 | once a step fails, the whole run fails with that error |
| Sorter.ExitStatus | sorter.h:223 | the status the shell sees: below 256 and congruent to the code modulo 256 |
| Sorter.ExitStatuses | sorter.h:223-246 | the two exits of `add_collection` reach the shell as 43 and 67 |
| Sorter.UnsignedChar | sorter.h:212-216 | the cast is below 256, congruent to its input, and leaves every index below 256 unchanged |
| Sorter.FirstMissingTitle | sorter.h:243-248 | -1 exactly when every title is found; otherwise the first title that is not found |
| Sorter.FindAuthorSpan | sorter.h:265-277 | the scan's result is `LocateSpan` |
| Sorter.MeasureSpan | sorter.h:272-277 | the counting loop finds the run end `SpanEnd` describes, or the end of the catalog |
| Sorter.IsInCollection | sorter.h:288-292 | the flag is the collection-tail prefix test |
| Sorter.CollectNoncollected | sorter.h:279-300 | on success, the list is `NonCollected` and has `span - num_titles + 1` titles; otherwise it has some other length |
| Sorter.FillNoncollected | sorter.h:284-300 | the buffer overruns exactly when there are more non-collected titles than slots; otherwise it holds them all, in order |
| Sorter.FindSlot | sorter.h:305-310 | the slot is `Before` |
| Sorter.StitchBlock | sorter.h:313-325 | the three loops fill `collected_titles` with the stitched order, every index in range |
| Sorter.TakeSnapshot | sorter.h:328-334 | the copy loop's result is `Snapshot` |
| Sorter.PartitionCollection | sorter.h:263-300 | the result is `Partition` |
| Sorter.Library.constructor | sorter.h:43-51 | a library with the given records and no collections |
| Sorter.Library.SortByAuthor | sorter.h:172-218 | the author sort is a `qsort` outcome; the result is a reordering of the catalog; with no repeated author it is the author order itself |
| Sorter.Library.SortRepeatedAuthors | sorter.h:176-217 | the catalog stays a reordering of itself and is unchanged when no neighbouring pair shares an author |
| Sorter.Library.SortAuthorWindows | sorter.h:197-217 | the catalog stays a reordering of itself and is unchanged when no author was collected |
| Sorter.Library.SortAuthorWindow | sorter.h:197-216 | `start` is the author's first record and `count` its run. Only the window of `count` records at `start` cast to `unsigned char` changes; it becomes a title-order `qsort` outcome of its old records. For at most 256 records the window is the run |
| Sorter.Library.SortTitleWindow | sorter.h:210-216 | only the window changes; it becomes a title-order `qsort` outcome of its old contents |
| Sorter.Library.AddCollection | sorter.h:220-253 | fewer than 2 titles exits with -80085; a title not found exits with 67; otherwise the titles, in order, become the last collection. The catalog never changes, and on an exit nothing changes |
| Sorter.Library.ApplyCollection | sorter.h:262-341 | the catalog becomes `Apply` of the old catalog, given the order `qsort` chose; on an error it is unchanged; `NoTitles` exactly for an empty collection |
| Sorter.Library.FinishCollection | sorter.h:305-339 | the catalog becomes `Finish` of the old catalog; on an error it is unchanged |
| Sorter.Library.WriteBack | sorter.h:337-339 | the records from `start` on are replaced by the copy; the rest is unchanged |
| Sorter.Library.ApplyCollections | sorter.h:255-343 | the catalog becomes `ApplyAll` of the old catalog over every collection, each with a `qsort` order for the catalog the earlier collections left; with every collection registered by `add_collection` (`Valid`), no collection fails for lack of titles |
| Example.TetralogySpan | main.c:14 | in the example catalog, the run of the first title "Spring Snow" starts at record 1, has four records, and the title is at record 3 |
| Example.TetralogyNonCollected | main.c:14 | of Mishima's titles, only "Spring Snow" is non-collected |
| Example.TetralogyPartition | main.c:14 | the partition of the example finds that run and that one title |
| Example.TetralogySnapshot | main.c:14 | the copied records of the collection are the four novels in reading order |
| Example.TetralogyApply | main.c:15 | applying the collection writes the four novels over Mishima's run in reading order and leaves the other authors in place |
| Example.TetralogyOrder | main.c:15 | the only order `qsort` can leave for the one non-collected title is that title |
| Example.TetralogyRun | main.c:15 | whatever order `qsort` chose, the collection loop ends with the arranged catalog |
| Example.FirstTitleOutsideRun | sorter.h:265-277 | with the author in capitals on one record, the run found for "Spring Snow" is record 0 alone and the title is record 2 |
| Example.MishimaRun | main.c:13-15 | registering and applying the collection on the sorted catalog succeeds and gives the arranged catalog |

## Left out

- File and console I/O is not modelled: `parse_args`, the `fopen` calls of `open_files`, the
  read loop of `parse_library`, the `fgets` of `verify_header`, and the printing of
  `do_output`. The header test and the `.html` test are modelled as functions of the strings
  read.
- Memory management is not modelled: `malloc`/`realloc`/`free`, the capacities, the 256-byte
  static buffers and their overflow, and the variable-length arrays. Strings are `seq<char>`
  without length limits.
- viewer.c and nob.c are not part of this model. One is a GUI, the other a build script.
- main.c is wiring only. Its call sequence and its collection are the `Example` module.
- Example.MishimaRun: starts from the catalog as `sort_by_author` leaves it, rather than
  running `SortByAuthor`, because `qsort` may leave many orders and `SortByAuthor` does not
  fix one.
- Sorter.Library.SortByAuthor: states a reordering of the catalog, and the author order when
  no author repeats. It does not state the final order beyond that. Each title window gets an
  unspecified `qsort` order, and with truncated window starts a later window can overlap an
  earlier one. The per-window facts are stated by `Sorter.Library.SortAuthorWindow`.
- Sorter.Library.SortRepeatedAuthors: states only the reordering and the no-repeat case, for
  the same reason. The per-window facts are in `Sorter.Library.SortAuthorWindow`.
- Sorter.Library.SortAuthorWindows: states only the reordering and the empty case, for the
  same reason.
- Pointers and aliasing are not modelled. `sort_by_author` permutes an array of pointers to
  records; `apply_collections` overwrites the records they point to. The model keeps the
  catalog as one `seq<Book>` that each step reassigns. This is equivalent while every record
  has exactly one pointer to it, which `parse_library` ensures.
- `qsort` itself is not modelled. `Sorting.Qsort` is one sort meeting the contract the
  program can rely on. The class methods take its result as the order `qsort` chose.
- Runs.Fold: stops at the first `ApplyError`. The C program has no error path there; it goes
  on with undefined behaviour, and the model does not say what that behaviour is.
- Splice.Apply: an empty collection is reported as `NoTitles`. `add_collection` never
  registers one (`Sorter.Library.Valid`, which `Sorter.Library.ApplyCollections` requires),
  but `apply_collections` would read `titles[0]` of it.
- Catalog.GetBookFromLine: returns `None` for a line with fewer than seven tokens. There
  `strtok` returns NULL and `sanitize_data` and `strlen` run on it (sorter.h:412, 421-422),
  which is undefined behaviour in C; the model does not say what that behaviour is.
- The unsigned arithmetic of `num_noncollected_titles` and `num_titles_after`
  (sorter.h:279, 282, 308) is not computed modulo 2^32. Every case where it would wrap is one
  of the `ApplyError` cases.
- Text.SelectOutputFormat: requires an output name of at least five characters. `open_files` compares the five characters before the end of the name with `.html` (sorter.h:134-135). For a shorter name that read starts before the name; that case is not modelled.
- The messages printed before each `exit` are left out. An `exit` is the `Outcome` value
  `Exit(code)`.

## Findings

| source | as written | input that shows it | evidently intended | confidence | as-written member | corrected member |
|---|---|---|---|---|---|---|
| sorter.h:203-206 | after each increment the loop reads `books[start_idx + author_count]`, and only then checks `start_idx + author_count < num_books` | a catalog whose last two records share an author, e.g. two Mishima novels: the run reaches the end, and the loop reads `books[2]` of a two-record catalog | stop at the end of the catalog without reading past it | not executed | AuthorSort.MeasureAuthorSpanAsWritten, AuthorSort.SpanAtEndOverReads | AuthorSort.MeasureAuthorSpan |
