# Library management: store and CSV import

This project models the two parts of a small library-management app that
hold data logic:

- **The store** (`database.js`). It is one lowdb document with three
  collections: `books`, `issuance` (loan records) and `members`. The model is
  the class `Library.Database`, whose fields are three sequences of records.
  Each record is a string `id` plus its fields.
  - The queries are functions that read the object: paged book search, lookup
    by id, the list of books currently issued joined to their members, and
    member search.
  - The mutators are methods that reassign the sequences: add, update and
    delete for books and members, plus issuing and returning a book.
  - The id a new record gets and today's date are parameters.
- **The CSV importer** (`import_books.py`), in module `ImportBooks`. It:
  - cleans cells;
  - derives a category from a file name (an ordered map first, then a
    letters-only fallback);
  - finds the header line among the first ten lines;
  - maps header columns to the title, author and accession roles;
  - turns data rows into books;
  - appends the imported books to the existing ones, numbered from one past
    the largest numeric id.
  A file arrives as its name and its lines. The split of the data lines into
  rows, done by Python's CSV reader, is a function parameter.

The shared helpers live in two modules:
- `Text`: ASCII case mapping, substring search, `strip`, `split` and decimal
  digits.
- `Records`: lodash's `find({ id })`, `remove({ id })`, `filter` and `slice`
  on sequences of records.

Three behaviours of the code are worth knowing. The model states each and
asserts nothing stronger:

- A book's status is not tied to its loan records.
  - `updateBook` can set any status.
  - Issue the same book twice and return one loan: the book becomes
    `Available` while the other loan is still open.
  - So the model states each operation's effect on the books and the records,
    and no invariant linking them.
- The importer's "no title column" exit (`import_books.py:128-130`) can never
  fire after a header has been detected. Detection requires a cell that
  equals a title keyword, and column normalisation leaves every title keyword
  unchanged. `ImportBooks.HeaderHasTitleColumn` proves this.
- The repeated-header test in row extraction (`import_books.py:151`) checks
  only `TITLE`, `BOOK TITLE` and `NAME`. A repeated header row whose title
  cell is `Book Name` is therefore imported as a book titled "Book Name"
  (`ImportBooks.BookNameRowKept`).

## Model

| member | source | states |
|---|---|---|
| `Text.Lower` | database.js:23-26 | `toLowerCase` keeps the length, maps each character by ASCII case folding and leaves no upper-case letter |
| `Text.Upper` | import_books.py:120 | `upper` keeps the length, maps each character by ASCII case mapping and leaves no lower-case letter |
| `Text.UpperUnchanged` | import_books.py:120 | text without lower-case letters is unchanged by `upper` |
| `Text.Contains` | database.js:25-27 | the empty query is contained in every text, and a query longer than the text never is |
| `Text.ContainsIff` | database.js:25-27 | the substring test `includes` / `in` holds exactly when the query occurs at some position of the text |
| `Text.TrimStart` | import_books.py:49 | drops exactly the leading whitespace: the result is a suffix, everything dropped is whitespace, and the result does not start with whitespace |
| `Text.TrimEnd` | import_books.py:49 | drops exactly the trailing whitespace, symmetrically |
| `Text.Strip` | import_books.py:49 | `strip` is empty exactly when the input is all whitespace, and otherwise starts and ends with a non-space |
| `Text.StripUnchanged` | import_books.py:120 | text that starts and ends with a non-space is unchanged by `strip` |
| `Text.StripKeeps` | import_books.py:62 | stripping only removes characters, so a property of every character survives it |
| `Text.StripIdempotent` | import_books.py:49 | stripping twice is stripping once |
| `Text.Split` | import_books.py:71 | `split(',')` gives at least one piece and no piece contains the separator |
| `Text.SplitJoin` | import_books.py:71 | joining the pieces of a split with the separator gives back the line |
| `Text.Decimal` | import_books.py:170 | the decimal form of a number is non-empty and made of digits |
| `Text.DecimalRoundTrip` | import_books.py:200 | `int(str(n)) == n`: reading the digits back gives the number |
| `Text.DigitsValue` | import_books.py:200 | `int(s)` of a digit string is zero exactly when every digit is "0" |
| `Records.FindIndex` | database.js:61-63 | `find({ id })` finds the FIRST record with the id, and finds nothing exactly when no record has it |
| `Records.FindIndexAfterUpdate` | database.js:75-78 | an `assign` that keeps the id does not change which record `find({ id })` returns |
| `Records.FindIndexAppend` | database.js:66-72 | a record pushed under an id no earlier record has is the record `find` returns for that id |
| `Records.RemoveId` | database.js:81-83 | `remove({ id })` keeps exactly the records whose id differs |
| `Records.RemoveIdAppend` | database.js:81-83 | removal works record by record, so the records that stay keep their order |
| `Records.RemoveIdMissing` | database.js:180-184 | removing an id that no record carries changes nothing |
| `Records.Filter` | database.js:24-38 | `filter` keeps exactly the elements that satisfy the test |
| `Records.FilterAppend` | database.js:24-38 | filtering distributes over concatenation, so the filtered list keeps the collection order |
| `Records.FilterAll` | database.js:22 | a filter that every element passes is the identity |
| `Records.FilterCountUpdate` | database.js:133-136 | replacing one record changes a filter's count only by what the old and the new record contribute |
| `Records.CeilDiv` | database.js:42 | `Math.ceil(n / d)` is the least k with k * d >= n |
| `Records.Slice` | database.js:45-47 | lodash `slice` with bounds clamped to the sequence: the contiguous run between the clamped bounds, empty when start >= end |
| `Records.SliceWithin` | database.js:45-47 | everything a slice holds comes from the sequence |
| `Library.PatchBook` | database.js:76 | `assign` with an empty update object leaves the book as it is |
| `Library.PatchMember` | database.js:175 | `assign` with an empty update object leaves the member as it is |
| `Library.PatchTwice` | database.js:74-78 | assigning the same updates twice gives the same book or member as assigning them once |
| `Library.SearchMatches` | database.js:24-28 | the empty query matches every book |
| `Library.SearchMatchesIff` | database.js:24-28 | the search holds exactly when the query occurs in the lower-cased title, in the lower-cased author, or in a non-empty accession number |
| `Library.BookMatchesFilters` | database.js:22-38 | an active category or status filter keeps only books with that value, and a book a query keeps is still kept with that filter or the search dropped |
| `Library.MatchingBooks` | database.js:21-39 | a book passes the query exactly when it meets the search and the active category and status filters |
| `Library.MatchingBooksAppend` | database.js:21-39 | the filtered book list keeps the collection order |
| `Library.MatchingBooksNoFilter` | database.js:22-37 | with no search text, and category and status empty or "All", every book is kept |
| `Library.MatchingBooksIgnoresPaging` | database.js:17-39 | which books match does not depend on the page or the limit |
| `Library.OpenRecords` | database.js:108 | the issued list holds exactly the records whose status is "Issued" |
| `Library.Enrich` | database.js:111-122 | a loan record is kept as it is and gains member details exactly when it carries a `memberId` and a member has that id; the details come from the first such member |
| `Library.MemberMatches` | database.js:159-163 | the empty query matches every member |
| `Library.MemberMatchesIff` | database.js:159-163 | a member matches exactly when the query occurs in the lower-cased name, in the lower-cased member code, or in the contact number when there is one |
| `Library.MemberThrows` | database.js:159-163 | the search throws on a member exactly when its contact number is missing and neither name nor member code contains the query; the empty query never throws |
| `Library.Database.constructor` | database.js:12 | the store starts from the loaded collections |
| `Library.Database.GetBooks` | database.js:16-58 | the page is the run of matching books starting at (page - 1) * limit, at most `limit` long, all from the collection and all matching; `total` is the number of matches and `totalPages` is ceil(total / limit) |
| `Library.Database.PageIsSlice` | database.js:41-47 | page k shows the matching books from position (k - 1) * limit, at most `limit` of them |
| `Library.Database.PageRunPrefix` | database.js:41-47 | pages 1 to k together are the first k * limit matching books |
| `Library.Database.PagesCoverMatches` | database.js:41-57 | reading pages 1 to `totalPages` shows every matching book exactly once, in collection order |
| `Library.Database.GetBookById` | database.js:61-63 | the first book with the id, or nothing exactly when no book has it |
| `Library.Database.GetMemberById` | database.js:169-171 | the first member with the id, or nothing exactly when no member has it |
| `Library.Database.GetIssuedBooks` | database.js:107-123 | one entry per "Issued" record, in order, none dropped; member details are added exactly when the record's member exists |
| `Library.Database.GetMembers` | database.js:155-166 | an empty search returns all members; otherwise the members whose name or member code contain the query ignoring case, or whose contact number contains it, in collection order (`Filter`); the query fails with a TypeError exactly when some member without a contact number is reached unmatched |
| `Library.Database.AddBook` | database.js:66-72 | appends exactly one book, with the given fields and id, after the unchanged ones; with a fresh id, `GetBookById` then returns it |
| `Library.Database.UpdateBook` | database.js:75-78 | patches only the named fields of the first book with the id and returns it; with no such book, nothing changes and nothing is returned |
| `Library.Database.DeleteBook` | database.js:81-83 | removes every book with the id and nothing else, so no book with the id remains; with a missing id, nothing changes |
| `Library.Database.IssueBook` | database.js:86-104 | appends a record with the given id and today's date whose status is "Issued" whatever the request said, so the issued list grows by exactly that record; marks the first book with the record's book id "Checked Out" and changes nothing else |
| `Library.Database.ReturnBook` | database.js:126-145 | an unknown id changes nothing and reports failure; otherwise the first record with the id becomes "Returned" with today's return date, the issued list shrinks by one if that record was open, and the first book with its book id becomes "Available" |
| `Library.Database.AddMember` | database.js:148-152 | appends exactly one member, with the given fields and id, after the unchanged ones; with a fresh id, `GetMemberById` then returns it |
| `Library.Database.UpdateMember` | database.js:174-177 | patches only the named fields of the first member with the id and returns it; with no such member, nothing changes and nothing is returned |
| `Library.Database.DeleteMember` | database.js:180-184 | removes every member with the id and nothing else, and always reports success |
| `ImportBooks.CleanText` | import_books.py:46-50 | "NA" for a missing, empty or all-whitespace cell, otherwise the stripped cell; never empty |
| `ImportBooks.CleanTextIdempotent` | import_books.py:46-50 | cleaning a cleaned cell changes nothing |
| `ImportBooks.LastIndexOf` | import_books.py:53 | the position of the last occurrence of a character, or nothing when it does not occur |
| `ImportBooks.StripExtension` | import_books.py:53 | `splitext(name)[0]`: the name up to its last dot, unless only dots come before that dot; the extension removed has no dot of its own |
| `ImportBooks.FallbackCategory` | import_books.py:60-63 | the name's ASCII letters and whitespace, stripped, when that is non-empty; otherwise "General" |
| `ImportBooks.FirstMappedCategory` | import_books.py:56-58 | the category of the first map key, in map order, that occurs in the name, or nothing when no key occurs |
| `ImportBooks.CategoryFromFilename` | import_books.py:52-63 | a file's category is never empty |
| `ImportBooks.CategoryFromFilenameChoice` | import_books.py:52-63 | the category is the first map entry, in map order, whose key occurs in the name without its extension, otherwise the fallback |
| `ImportBooks.HeaderCells` | import_books.py:71 | one cell per comma-separated piece, each stripped and upper-cased |
| `ImportBooks.HasKeywordIff` | import_books.py:73-74 | the keyword test holds exactly when some keyword is a whole cell of the row |
| `ImportBooks.FirstHeaderUnique` | import_books.py:70-78 | at most one line is the first header line |
| `ImportBooks.FindHeader` | import_books.py:69-80 | the first line from a position on, among the first ten, whose cells include a title keyword and an author keyword, or -1 exactly when there is none |
| `ImportBooks.DetectHeaderRow` | import_books.py:65-80 | returns the first of the first ten lines whose cells include a title keyword and an author keyword, with its cells; otherwise (-1, []) when none of the first ten lines qualifies; the index is the one `FindHeader` gives |
| `ImportBooks.Without` | import_books.py:120 | `replace('.', '')` keeps exactly the characters that are not dots, in order, so it leaves no dot and never lengthens the text |
| `ImportBooks.WithoutAbsent` | import_books.py:120 | removing a character that does not occur changes nothing |
| `ImportBooks.ColumnNameShape` | import_books.py:120 | a normalised column name has no dot, no lower-case letter and no surrounding whitespace |
| `ImportBooks.ColumnNames` | import_books.py:119-120 | one normalised name per header cell: upper-cased, dots removed, stripped |
| `ImportBooks.OneOfIsIn` | import_books.py:121-125 | the keyword-list test is list membership |
| `ImportBooks.RolesDisjoint` | import_books.py:121-126 | no column name belongs to two of the title, author and accession lists |
| `ImportBooks.ColumnsOfUnique` | import_books.py:119-126 | a header has exactly one role mapping |
| `ImportBooks.LastWith` | import_books.py:119-126 | the column a role ends up with is -1 or one of the first n columns |
| `ImportBooks.LastWithIsLast` | import_books.py:119-126 | it is the last of the first n column names that is in the keyword list, or -1 exactly when none is |
| `ImportBooks.ColumnsFor` | import_books.py:114-126 | each role index is -1 or a column of the header |
| `ImportBooks.ColumnsForOf` | import_books.py:114-126 | `ColumnsFor` is the role mapping of the header: each role at the last column whose name is in its list |
| `ImportBooks.MapColumns` | import_books.py:114-126 | each role goes to the LAST column whose name is in its list, or -1 when there is none, as `ColumnsFor` gives it; no column takes two roles |
| `ImportBooks.ScanColumnNames` | import_books.py:119-126 | the same scan over already normalised names |
| `ImportBooks.TitleKeywordName` | import_books.py:121 | every title keyword is its own normalised column name |
| `ImportBooks.HeaderHasTitleColumn` | import_books.py:103-130 | a detected header always yields a title column |
| `ImportBooks.CellOrNA` | import_books.py:154-160 | "NA" when the column is missing or the row too short, otherwise the cleaned cell |
| `ImportBooks.Skipped` | import_books.py:143-152 | blank rows and rows too short for the title column are skipped; a kept row has a title cell with non-space content other than "NA" |
| `ImportBooks.RowBook` | import_books.py:162-171 | a kept row's book takes its title, author and accession from their columns, and gets the file's category, "NA" publisher, "Available" status and today's date |
| `ImportBooks.KeptBooks` | import_books.py:142-172 | the books of the rows that are kept, in row order, never more than there are rows |
| `ImportBooks.KeptBooksShape` | import_books.py:142-172 | every produced book has the file's category, "NA" publisher, "Available" status and a title that is neither "NA" nor a repeated header word |
| `ImportBooks.KeptBooksStep` | import_books.py:142-172 | one more row adds its book exactly when it is not skipped |
| `ImportBooks.BookNameRowKept` | import_books.py:151 | a row whose title cell is "Book Name" is kept, under that title |
| `ImportBooks.ExtractRow` | import_books.py:143-171 | a row gives no book exactly when it is empty, too short for the title column, or its title is "NA" or a repeated header word; otherwise it gives that row's book |
| `ImportBooks.ExtractBooks` | import_books.py:142-172 | the produced books are the kept rows' books in order, the k-th numbered `<millis>-<k>` |
| `ImportBooks.Renumber` | import_books.py:170 | the k-th kept book gets the id `<millis>-<k>` |
| `ImportBooks.CsvBooksShape` | import_books.py:82-175 | every book of a file has that file's category, "NA" publisher, "Available" status, today's date and a title that is neither "NA" nor a repeated header word |
| `ImportBooks.ParseCsv` | import_books.py:82-175 | the books `CsvBooks` gives: none from an unreadable file, from a file without a header in its first ten lines, or when there is no title column; otherwise the kept rows after the header line, mapped by the header's columns and numbered |
| `ImportBooks.ParseLines` | import_books.py:102-175 | the lines of a readable file give the books `LinesBooks` gives; none when no line among the first ten is a header |
| `ImportBooks.ParseBody` | import_books.py:114-175 | the rows after the header line give the books `ColumnBooks` gives under the header's column mapping |
| `ImportBooks.NumericIdWritten` | import_books.py:200 | an id counts as a number exactly when `str(id)` is a non-empty string of digits, and then as `int(str(id))` |
| `ImportBooks.NumericIdOfDecimal` | import_books.py:200 | a string id of decimal digits counts as the number it spells |
| `ImportBooks.NextId` | import_books.py:200-201 | one past the largest numeric existing id, or 1 when there is none; above every numeric existing id |
| `ImportBooks.AssignIds` | import_books.py:205-208 | the existing books stay unchanged at the front; the new books follow in order with consecutive ids from `NextId`, each above every numeric existing id |
| `ImportBooks.IsCsvName` | import_books.py:188 | a name passes `endswith('.csv')` only when it is some base name followed by ".csv" |
| `ImportBooks.CsvNameOf` | import_books.py:188 | every base name followed by ".csv" passes |
| `ImportBooks.ReadCsvFiles` | import_books.py:188-193 | the books of every ".csv" entry, in listing order (`CsvBooksUpTo`), with entries of any other name skipped |
| `ImportBooks.CsvBooksUpToFrom` | import_books.py:188-193 | every book read from the first n entries comes from a ".csv" entry among them and carries that file's category, "NA" publisher, "Available" status and a real title |
| `ImportBooks.WithIds` | import_books.py:205-208 | the books in order, unchanged except that the k-th gets the integer id start + k |
| `ImportBooks.AssignedWithIds` | import_books.py:205-208 | the result of `AssignIds` is exactly the existing books followed by `WithIds` of the new books from `NextId` |
| `ImportBooks.FileBooksFrom` | import_books.py:188-193 | the books of a ".csv" entry carry that entry's category, "NA" publisher, "Available" status and a real title |
| `ImportBooks.AssignedFrom` | import_books.py:205-208 | giving the new books consecutive ids from `NextId` keeps the file each came from |
| `ImportBooks.ImportFiles` | import_books.py:177-211 | a missing import directory leaves the books as they are; otherwise the result is exactly the existing books followed by the books of every ".csv" entry in listing order (`CsvBooksUpTo`), renumbered consecutively from `NextId` (`WithIds`); each appended book comes from a ".csv" entry, with that file's category, "NA" publisher and "Available" status |

## Left out

- Persistence: lowdb's `FileSync` adapter and every `.write()` are left out. The store is the in-memory document.
- `backup_database`, `load_database` and `save_database` are left out. The existing books are a parameter and the result is the new `books` collection.
- Progress `print` output is left out.
- The clocks are parameters rather than reads: `Date.now()`, `new Date()`, `datetime.now()` and `time.time()`.
- Library.Database.AddBook, AddMember and IssueBook take the new id as a parameter. They do not promise it is fresh: the source's timestamp ids can collide within a millisecond. Their "found by id" clauses assume a fresh id.
- ImportBooks.ImportFiles takes the millisecond clock (`millis`) and the date (`today`) once per run and passes both to every file. The source reads `time.time()` and `datetime.now()` once per row. The per-file ids are overwritten by `AssignIds` in any case; a run that crosses midnight gives every book the same date.
- Directory listing and file reading are left out:
  - `os.path.exists` and `os.listdir` become an optional list of entries, each a name plus its lines;
  - a file that cannot be read has no lines;
  - the quoting rules of Python's `csv.reader` become the `reader` parameter.
- Case mapping and whitespace are ASCII only. Python's `upper`, `strip` and `\s` and JavaScript's `toLowerCase` also act on non-ASCII characters; here those characters are left unchanged and never count as whitespace.
- `isdigit` counts only ASCII digits here. Python also accepts other Unicode digits, some of which make `int()` raise.
- `getBooks` is modelled for `page >= 1` and `limit >= 1`, the values the UI sends (page size 8, page never below 1). Other values are not modelled:
  - a zero limit gives `Infinity` or `NaN` as the page count;
  - a negative limit gives a page count of zero or less and a negative end for the slice (and from page 2 on a negative start as well), which lodash `slice` counts from the end of the list.
  The defaults for missing parameters are not modelled.
- The JavaScript objects are fixed-field datatypes:
  - a text field the caller leaves out is the empty string;
  - updates are typed patches without an `id` field;
  - `accessionNo` is a string.
  So a book without `title` or `author`, and a member without `name` or `memberId`, which would make the searches throw, are not represented. The throw on a missing `contactNo` is modelled.
- `getIssuedBooks` spreads the member details into the loan record. The model keeps the record and the optional details side by side, so a record field overwritten by the spread (such as `contact`) stays visible.
- `returnBook` returns `null` or `{ success: true }`. These are the boolean `success`.
- Imported books get integer ids, while the store looks books up by string id. The model keeps the two id types apart (`ImportBooks.JsonId` and `Records.Record.id`) and does not connect the import result to `Library.Database`.
- The UI files, the dialogs, the Electron main process and the preload bridge are not part of this model. This includes the constant `{ success: true }` of the delete-book handler.
