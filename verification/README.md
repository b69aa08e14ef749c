# AcademicBookJournal: search pipeline and journal store, modelled in Dafny

AcademicBookJournal is a single-user iOS reading journal. The user searches a Japanese book catalog and keeps only books from academic publishers. Related keywords are derived from the results and searched too, and reading entries are recorded against books. This project models the logic behind that in pure Dafny values and functions:

- **`BookSearchViewModel.performSearch`**. It rejects whitespace-only queries and runs the primary catalog search. It keeps the records whose publisher matches the academic allow-list and extracts up to five related keywords from titles and descriptions. Then it runs one search per keyword and appends the books that are new to the primary list.
- **`JournalStore`**. It upserts an entry by id, stores a book only when its id is absent, removes entries by id, and looks up entries by book id and a book by id.
- **`JournalView.filteredEntries`**: the reading-status filter.

Modules, leaves first:

| file | module | what it holds |
|---|---|---|
| wrappers.dfy | `Wrappers` | `Option` and `Result` |
| seqs.dfy | `Seqs` | order-preserving `Filter`, the subsequence relation, `FlatMap` (the `append(contentsOf:)` fold) and their algebra |
| text.dfy | `Text` | Foundation's `whitespacesAndNewlines` set, `Trim`, the substring test behind `String.contains` |
| books.dfy | `Books` | the `Book` record and `filterByPublishers` |
| keywords.dfy | `Keywords` | `extractRelatedKeywords` |
| fanout.dfy | `FanOut` | the merge of `searchWithRelatedKeywords`, as written and corrected |
| search.dfy | `Search` | `performSearch` as a method on the view-model state |
| journal.dfy | `Journal` | `JournalStore` and `filteredEntries` |

Modelling choices:

- **Catalog.** `JapaneseBookAPI.searchBooks` is an oracle `Catalog = string -> Outcome`. An `Outcome` holds either a sequence of records or an error.
- **Keyword extractor.** `JapaneseTextAnalyzer.extractKeywords` is an arbitrary function `string -> set<string>`.
- **Allow-list.** `Constants.academicPublishers` is an arbitrary `seq<string>`.
- **Keyword order.** `Array(keywords).prefix(5)` enumerates a Swift `Set` in an unspecified order. `Keywords.TakeAny` therefore picks each element with Dafny's nondeterministic `:|`. Its contract says only what every enumeration guarantees.
- **Fan-out.** The concurrent keyword searches append to `additionalBooks` in completion order. `Search.PerformSearch` chooses that order as an arbitrary permutation of the issued searches and folds over it. `FanOut.AdditionsCompletionOrder` proves that the merged books, counted with multiplicity, do not depend on the order.
- **Primary failure.** When the primary search fails, `books` and `relatedKeywords` keep their previous values (Book.swift:692-694). The only change is `isSearching = false`; `hasSearched` was already set to true at line 674.
- **De-duplication.** A secondary book is checked only against the primary list (Book.swift:750-752), not against earlier secondary batches. The comment at line 749 and the `ForEach(viewModel.books)` at line 197, which expects unique ids, show that a duplicate-free list was intended. `Search.PerformSearch` follows the code as written through `FanOut.Merge`; see "## Findings".

## Model

| member | source | states |
|---|---|---|
| Text.Trim | Book.swift:671 | `trimmingCharacters(in: .whitespacesAndNewlines)` returns a slice of the query with only whitespace and newlines cut from either side, and no whitespace left at either end |
| Text.TrimCharacterised | Book.swift:671 | those two properties determine the trimmed text: any slice with only whitespace outside it and none at its ends equals it |
| Text.TrimEmptyIffBlank | Book.swift:671 | trimming whitespace and newlines leaves the empty string exactly when every character of the query is whitespace or a newline, so the guard rejects exactly the blank queries |
| Text.Contains | Book.swift:703 | `publisher.contains(fragment)` holds exactly when the fragment occurs at some position of the publisher name |
| Books.FilterByPublishers | Book.swift:699-707 | the result is an order-preserving subsequence of the catalog records; a record is kept iff its publisher is present and contains some allow-list fragment; each kept record keeps its multiplicity |
| Books.NoPublisherDropped | Book.swift:702-705 | a record with no publisher never survives the filter |
| Books.FilterByPublishersIdempotent | Book.swift:699-707 | filtering an already filtered list changes nothing |
| Keywords.KeywordUnion | Book.swift:711-725 | a word is in the union iff the extractor produced it from the title or the description of some book |
| Keywords.KeywordPool | Book.swift:727-728 | the candidates are that union without the exact query string |
| Keywords.PoolComesFromText | Book.swift:713-725 | every candidate came from the extractor applied to some book's title or description |
| Keywords.NoBooksNoKeywords | Book.swift:713-729 | no books give no candidates, so no fan-out search is issued |
| Keywords.TakeAny | Book.swift:729 | any enumeration prefix: min(limit, pool size) distinct members of the pool |
| Keywords.ExtractRelatedKeywords | Book.swift:709-730 | the related keywords are distinct, come from the pool, never equal the query, and number min(5, pool size) |
| FanOut.NewBooks | Book.swift:745-758 | a failed search adds nothing; a successful one adds, in catalog order, exactly its academic records whose id is not in the primary list, each with its multiplicity in the batch |
| FanOut.Additions | Book.swift:734-763 | a book is appended to `additionalBooks` iff it is academic, shares no id with a primary book, and was returned by a successful keyword search |
| FanOut.AdditionsCompletionOrder | Book.swift:736-763 | searches completing in any permutation of one order give the same books with the same multiplicities |
| FanOut.FailuresContributeNothing | Book.swift:756-758 | removing the failed searches from the completion order leaves `additionalBooks` unchanged |
| FanOut.Merge | Book.swift:765-768 | the final list is the primary list unchanged, then exactly the academic books whose ids are absent from the primary list and that some successful search returned |
| FanOut.MergeRepeatsSharedSecondaryBook | Book.swift:749-754 | as written, a book returned by two keyword searches is appended twice, so the merged list repeats an id although the primary list did not |
| FanOut.AppendUnseen | Book.swift:749-754 | corrected append: keeps the accumulated list as a prefix, appends only candidates, and leaves every candidate id present |
| FanOut.AppendUnseenFresh | Book.swift:749-754 | corrected append: each appended book's id is absent both from the accumulated list and from the books appended before it |
| FanOut.AppendUnseenKeepsIdsUnique | Book.swift:749-754 | corrected append: unique ids stay unique |
| FanOut.MergeUnique | Book.swift:749-754 | corrected merge: the primary list stays an unchanged prefix |
| FanOut.MergeUniqueKeepsIdsUnique | Book.swift:749-754 | corrected merge: ids stay unique whenever the primary ids are unique |
| FanOut.MergeUniqueSound | Book.swift:745-754 | corrected merge: every appended book is academic, came from a successful search, and has an id absent from the primary list |
| FanOut.MergeUniqueComplete | Book.swift:745-754 | corrected merge: every academic record a successful search returned has its id in the result |
| Search.Issue | Book.swift:736-739 | one search is issued per related keyword, in keyword order: the i-th outcome is the catalog's answer for the i-th keyword |
| Search.FoundByKeyword | Book.swift:736-747 | a book found in any completion order of the issued searches was returned by the search for one of the related keywords |
| Search.KeywordFindsBook | Book.swift:736-754 | a record returned by the successful search for an issued keyword is found in every completion order of the issued searches |
| Search.PerformSearch | Book.swift:670-697 | a blank query changes nothing. A failed primary search only sets `isSearching` false and `hasSearched` true. Otherwise `books` is the filtered primary list followed by exactly the academic books whose ids are absent from it and that the search for some related keyword returned, and `isSearching` ends false. The suffix is the keyword batches, each de-duplicated against the primary list and appended whole in catalog order, in some completion order of the issued searches. The keywords are at most five, distinct, from the pool and never the query. No academic primary book means no keywords and no books |
| Journal.FirstEntryIndex | Book.swift:788 | `firstIndex(where:)` is absent iff no entry has the id, and otherwise points at the first entry with it |
| Journal.AddEntry | Book.swift:786-800 | an existing entry id is overwritten at its first index and the count and every other position are unchanged; otherwise the entry is appended. The book is appended iff no stored book has its id; stored books are never replaced |
| Journal.RemoveEntry | Book.swift:802-805 | afterwards no entry has the id; the rest keep their order and multiplicity; books are untouched |
| Journal.EntriesForBook | Book.swift:807-809 | exactly the entries with that book id, in store order, each with its multiplicity |
| Journal.GetBook | Book.swift:811-813 | absent iff no book has the id; otherwise the first book with the id |
| Journal.FilteredEntries | Book.swift:393-399 | no selection gives all entries; a selection gives the order-preserving subsequence of entries with that status, each with its multiplicity in the store, and nothing else |
| Journal.AddEntryKeepsIdsUnique | Book.swift:786-797 | unique entry ids and unique book ids stay unique after `addEntry` |
| Journal.AddEntryIdempotent | Book.swift:786-797 | adding the same entry and book twice equals adding them once |
| Journal.RemoveUndoesAdd | Book.swift:786-805 | removing an id after adding an entry with it gives the same entries as removing it before |
| Journal.GetBookAfterAdd | Book.swift:795-813 | after `addEntry`, `getBook` returns the previously stored book with that id if there was one, else the book just added |
| Journal.EntriesForBookAfterNewEntry | Book.swift:788-809 | an entry with a new id is listed last among the entries for its book |
| Journal.StatusFiltersPartition | Book.swift:393-399 | the four status filters together list every entry exactly once |

## Findings

| source | as written | input that shows it | evidently intended | confidence | as-written member | corrected member |
|---|---|---|---|---|---|---|
| Book.swift:749-754 | each keyword batch is de-duplicated only against the primary `self.books`, so a book returned by two keyword searches (or twice by one) is appended twice | primary `[p1]`, two successful keyword searches each returning academic book `s1` → final books `[p1, s1, s1]` | the comment at line 749 says only books not already in the results are added, and SwiftUI's `ForEach` expects unique ids: each secondary book should also be checked against books accepted earlier | medium, not executed | FanOut.MergeRepeatsSharedSecondaryBook | FanOut.MergeUnique |

`Search.PerformSearch` models the code as written, so it uses the as-written `FanOut.Merge`. `FanOut.MergeUnique` is the corrected merge. The lemmas `FanOut.MergeUniqueKeepsIdsUnique`, `FanOut.MergeUniqueSound` and `FanOut.MergeUniqueComplete` prove its intended properties.

## Left out

- SwiftUI views, layout and navigation (`BookSearchView`, `BookDetailView`, `BookRow`, `JournalEntryRow`, `JournalDetailView`, `FilterButton`) are user interface. Only the `filteredEntries` filter is modelled.
- `JapaneseBookAPI` is network I/O and its source is not part of this model. Only its outcome per query is an input, and the oracle answers the same query the same way.
- `JapaneseTextAnalyzer.extractKeywords` and `Constants.academicPublishers` are not part of this model. They are parameters.
- `Book(from:)` is not part of this model. One `Book` record stands for both the API record and the stored book, so the conversion is taken to preserve id, title, publisher and description.
- Concurrency is replaced by a sequential fold in an arbitrary completion order. This covers `DispatchGroup`, the main-queue `notify`, the `[weak self]` captures and the unsynchronised concurrent appends to `additionalBooks`. The data race itself, where an append could be lost, is not modelled.
- Search.PerformSearch: it returns only the final state. The intermediate published state, with `isSearching` true and `books` set to the primary list while the keyword searches run, is not exposed.
- Search.PerformSearch: it assumes the view model is not re-entered while a search is in flight. Overlapping searches and edits to `searchText` before the callback reads it at line 728 are not modelled.
- Persistence is foreign I/O. This covers `saveData`/`loadData` through `UserDefaults` and JSON coding, and the Core Data `PersistenceController`.
- The Combine debounce pipeline in `init` is not modelled, because its sink does nothing.
- `Date()`, `UUID()` and `JournalEntry.sample` are nondeterministic or dummy data. Dates are plain integers and UUIDs are natural numbers compared only for equality.
- Strings are sequences of Unicode scalar values, and every string comparison is exact sequence equality. Swift's `String ==`, `Set<String>` hashing and Foundation's `contains` compare under canonical equivalence instead, and Swift's `Character` is a grapheme cluster. So "が" written as U+304B U+3099 and "が" written as U+304C are one string to the source and two to the model. This concerns the publisher test (Book.swift:703), the keyword union (Book.swift:711-723), `keywords.remove(searchText)` (Book.swift:728), and the book-id comparisons (Book.swift:751, :795, :808 and :812). Entry ids (Book.swift:788) are `UUID`s and are unaffected.
- The `print` of the primary search error (Book.swift:693) is console output with no effect on state, so it is left out.
- Text.Contains: an empty allow-list fragment counts as contained in every publisher name. Foundation's answer for an empty needle depends on which `contains` overload resolves.
