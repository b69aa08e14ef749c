/** `JournalStore`: the user's reading entries and the books they refer to,
    kept as two lists, plus the status filter of `JournalView`. Persistence
    to `UserDefaults` is not modelled; each operation maps a store value to
    the next one. */
module Journal {
  import opened Wrappers
  import opened Seqs
  import opened Books

  datatype ReadingStatus = WantToRead | Reading | Completed | Abandoned

  /** A `UUID`, abstracted to a number; only equality is used. */
  type Uuid = nat

  /** A reading entry. The date is a timestamp; the rating is the source's
      `Int`, and no arithmetic on it is modelled. */
  datatype JournalEntry = JournalEntry(
    id: Uuid,
    bookId: string,
    date: int,
    content: string,
    rating: int,
    tags: seq<string>,
    quotes: seq<string>,
    readingStatus: ReadingStatus)

  datatype Store = Store(entries: seq<JournalEntry>, books: seq<Book>)

  /** Some entry in `entries` carries `id`. */
  predicate HasEntryId(entries: seq<JournalEntry>, id: Uuid)
  {
    exists i :: 0 <= i < |entries| && entries[i].id == id
  }

  /** No two entries share an id. */
  predicate UniqueEntryIds(entries: seq<JournalEntry>)
  {
    forall i, j :: 0 <= i < j < |entries| ==> entries[i].id != entries[j].id
  }

  /** `entries.firstIndex(where: { $0.id == id })`. */
  function FirstEntryIndex(entries: seq<JournalEntry>, id: Uuid): (r: Option<nat>)
    ensures r.None? <==> !HasEntryId(entries, id)
    ensures r.Some? ==> r.value < |entries| && entries[r.value].id == id
                        && forall j :: 0 <= j < r.value ==> entries[j].id != id
  {
    if |entries| == 0 then None
    else if entries[0].id == id then Some(0)
    else
      match FirstEntryIndex(entries[1..], id)
      case None =>
        assert forall j :: 1 <= j < |entries| ==> entries[j] == entries[1..][j - 1];
        None
      case Some(k) =>
        assert entries[k + 1] == entries[1..][k];
        assert forall j :: 1 <= j < k + 1 ==> entries[j] == entries[1..][j - 1];
        Some(k + 1)
  }

  /** `addEntry(_:for:)`: replace the first entry with the same id in place,
      or append the entry; append the book unless a book with its id is
      already stored. */
  function AddEntry(s: Store, entry: JournalEntry, book: Book): (r: Store)
    // an existing entry is overwritten in place; nothing else moves
    ensures HasEntryId(s.entries, entry.id) ==>
              var k := FirstEntryIndex(s.entries, entry.id).value;
              && |r.entries| == |s.entries|
              && r.entries[k] == entry
              && forall j :: 0 <= j < |s.entries| && j != k ==> r.entries[j] == s.entries[j]
    // a new entry goes to the end
    ensures !HasEntryId(s.entries, entry.id) ==>
              |r.entries| == |s.entries| + 1 && r.entries[..|s.entries|] == s.entries
              && r.entries[|s.entries|] == entry
    // stored books are never replaced or reordered; at most the new book is appended
    ensures |r.books| >= |s.books| && r.books[..|s.books|] == s.books
    ensures HasId(s.books, book.id) ==> r.books == s.books
    ensures !HasId(s.books, book.id) ==> r.books == s.books + [book]
  {
    var entries :=
      match FirstEntryIndex(s.entries, entry.id)
      case Some(k) => s.entries[k := entry]
      case None => s.entries + [entry];
    var books := if HasId(s.books, book.id) then s.books else s.books + [book];
    Store(entries, books)
  }

  /** `removeEntry(id:)`: drops every entry with the id, keeping the rest in order. */
  function RemoveEntry(s: Store, id: Uuid): (r: Store)
    ensures !HasEntryId(r.entries, id)
    ensures IsSubsequence(r.entries, s.entries)
    ensures forall e :: multiset(r.entries)[e] == if e.id == id then 0 else multiset(s.entries)[e]
    ensures r.books == s.books
  {
    var kept := Filter((e: JournalEntry) => e.id != id, s.entries);
    assert forall i :: 0 <= i < |kept| ==> kept[i].id != id by {
      forall i | 0 <= i < |kept| ensures kept[i].id != id {
        assert kept[i] in kept;
      }
    }
    Store(kept, s.books)
  }

  /** `entriesForBook(id:)`: the entries about one book, in store order. */
  function EntriesForBook(s: Store, bookId: string): (r: seq<JournalEntry>)
    ensures IsSubsequence(r, s.entries)
    ensures forall e :: e in r <==> e in s.entries && e.bookId == bookId
    ensures forall e :: multiset(r)[e] == if e.bookId == bookId then multiset(s.entries)[e] else 0
  {
    Filter((e: JournalEntry) => e.bookId == bookId, s.entries)
  }

  /** `getBook(id:)`: the first stored book with the id, if any. */
  function GetBook(books: seq<Book>, id: string): (r: Option<Book>)
    ensures r.None? <==> !HasId(books, id)
    ensures r.Some? ==> exists i :: 0 <= i < |books| && books[i] == r.value && r.value.id == id
                          && forall j :: 0 <= j < i ==> books[j].id != id
  {
    if |books| == 0 then None
    else if books[0].id == id then Some(books[0])
    else
      var r := GetBook(books[1..], id);
      assert forall j :: 1 <= j < |books| ==> books[j] == books[1..][j - 1];
      r
  }

  /** `JournalView.filteredEntries`: all entries, or those with the selected status. */
  function FilteredEntries(entries: seq<JournalEntry>, selected: Option<ReadingStatus>): (r: seq<JournalEntry>)
    ensures selected.None? ==> r == entries
    ensures IsSubsequence(r, entries)
    ensures forall e :: e in r <==> e in entries && (selected.None? || e.readingStatus == selected.value)
    ensures forall e :: multiset(r)[e] ==
              if selected.None? || e.readingStatus == selected.value then multiset(entries)[e] else 0
  {
    match selected
    case None =>
      assert IsSubsequence(entries, entries) by { SubsequenceReflexive(entries); }
      entries
    case Some(status) => Filter((e: JournalEntry) => e.readingStatus == status, entries)
  }

  /** `addEntry` keeps entry ids unique and book ids unique. */
  lemma AddEntryKeepsIdsUnique(s: Store, entry: JournalEntry, book: Book)
    requires UniqueEntryIds(s.entries) && UniqueIds(s.books)
    ensures UniqueEntryIds(AddEntry(s, entry, book).entries)
    ensures UniqueIds(AddEntry(s, entry, book).books)
  {
    var r := AddEntry(s, entry, book);
    if !HasEntryId(s.entries, entry.id) {
      assert forall i :: 0 <= i < |s.entries| ==> r.entries[i] == s.entries[i];
    }
    if !HasId(s.books, book.id) {
      assert forall i :: 0 <= i < |s.books| ==> r.books[i] == s.books[i];
    }
  }

  /** Adding the same entry and book twice is the same as adding them once. */
  lemma AddEntryIdempotent(s: Store, entry: JournalEntry, book: Book)
    ensures AddEntry(AddEntry(s, entry, book), entry, book) == AddEntry(s, entry, book)
  {
    var r := AddEntry(s, entry, book);
    var r2 := AddEntry(r, entry, book);
    if HasEntryId(s.entries, entry.id) {
      var k := FirstEntryIndex(s.entries, entry.id).value;
      assert FirstEntryIndex(r.entries, entry.id) == Some(k) by {
        assert forall j :: 0 <= j < k ==> r.entries[j] == s.entries[j];
      }
      assert r2.entries == r.entries;
    } else {
      assert r.entries[|s.entries|].id == entry.id;
      assert forall j :: 0 <= j < |s.entries| ==> r.entries[j] == s.entries[j];
      assert FirstEntryIndex(r.entries, entry.id).value == |s.entries|;
      assert r2.entries == r.entries;
    }
    assert HasId(r.books, book.id) by {
      if !HasId(s.books, book.id) {
        assert r.books[|s.books|] == book;
      }
    }
  }

  /** Removing an entry's id after adding it gives the same entries as
      removing it before: the add leaves no other trace in the entries. */
  lemma RemoveUndoesAdd(s: Store, entry: JournalEntry, book: Book)
    ensures RemoveEntry(AddEntry(s, entry, book), entry.id).entries == RemoveEntry(s, entry.id).entries
  {
    var p := (e: JournalEntry) => e.id != entry.id;
    var r := AddEntry(s, entry, book);
    if HasEntryId(s.entries, entry.id) {
      var k := FirstEntryIndex(s.entries, entry.id).value;
      assert r.entries == s.entries[k := entry];
      FilterUpdateRejected(p, s.entries, k, entry);
    } else {
      assert r.entries == s.entries + [entry];
      FilterAppend(p, s.entries, [entry]);
      assert Filter(p, [entry]) == [];
    }
  }

  /** After `addEntry`, `getBook` finds the book's id: the stored book if
      one was there already, otherwise the book just added. */
  lemma GetBookAfterAdd(s: Store, entry: JournalEntry, book: Book)
    ensures GetBook(AddEntry(s, entry, book).books, book.id)
            == if HasId(s.books, book.id) then GetBook(s.books, book.id) else Some(book)
  {
    var r := AddEntry(s, entry, book);
    if !HasId(s.books, book.id) {
      var g := GetBook(r.books, book.id);
      assert r.books[|s.books|] == book;
      assert forall j :: 0 <= j < |s.books| ==> r.books[j] == s.books[j];
    }
  }

  /** A new entry shows up last among the entries for its book. */
  lemma EntriesForBookAfterNewEntry(s: Store, entry: JournalEntry, book: Book)
    requires !HasEntryId(s.entries, entry.id)
    ensures EntriesForBook(AddEntry(s, entry, book), entry.bookId) == EntriesForBook(s, entry.bookId) + [entry]
  {
    var p := (e: JournalEntry) => e.bookId == entry.bookId;
    assert AddEntry(s, entry, book).entries == s.entries + [entry];
    FilterAppend(p, s.entries, [entry]);
    assert Filter(p, [entry]) == [entry];
  }

  /** Every entry is listed under exactly one status: the four filtered
      lists together are as long as the whole list. */
  lemma {:induction false} StatusFiltersPartition(entries: seq<JournalEntry>)
    ensures |FilteredEntries(entries, Some(WantToRead))| + |FilteredEntries(entries, Some(Reading))|
            + |FilteredEntries(entries, Some(Completed))| + |FilteredEntries(entries, Some(Abandoned))|
            == |entries|
    decreases |entries|
  {
    if |entries| > 0 {
      StatusFiltersPartition(entries[1..]);
      FilteredEntriesUncons(entries, WantToRead);
      FilteredEntriesUncons(entries, Reading);
      FilteredEntriesUncons(entries, Completed);
      FilteredEntriesUncons(entries, Abandoned);
    }
  }

  /** A status filter lists the first entry iff it has that status. */
  lemma FilteredEntriesUncons(entries: seq<JournalEntry>, status: ReadingStatus)
    requires |entries| > 0
    ensures |FilteredEntries(entries, Some(status))|
            == |FilteredEntries(entries[1..], Some(status))| + (if entries[0].readingStatus == status then 1 else 0)
  {
  }
}
