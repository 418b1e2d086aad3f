/**
 * The CSV importer: it derives a category from each file name, finds the
 * header line among the first ten lines, maps header columns to the title,
 * author and accession roles, turns every data row into a book, and appends
 * the books to the document's `books` with consecutive numeric ids.
 *
 * Files arrive as their name and their lines (`None` when the file could not
 * be read). The split of the data lines into rows by the CSV reader is a
 * parameter, as are the current date and the millisecond clock.
 */
module ImportBooks {
  import opened Records
  import opened Text

  /** A book `id` in the JSON document: a number or a string. */
  datatype JsonId = IntId(n: int) | TextId(s: string)

  datatype ImportedBook = ImportedBook(
    title: string, author: string, category: string, accessionNo: string,
    publisher: string, status: string, dateAdded: string, id: JsonId)

  datatype CsvFile = CsvFile(name: string, lines: Option<seq<string>>)

  /** Column indices of the three roles, -1 when no column has the role. */
  datatype Columns = Columns(title: int, author: int, accession: int)

  const NA: string := "NA"
  const Available: string := "Available"
  const General: string := "General"
  /** Only this many leading lines are searched for the header. */
  const HeaderScanLimit: nat := 10

  /** File-name fragments and their categories, in the order they are tried. */
  const CategoryMap: seq<(string, string)> := [
    ("FGPG-College-Cupboard-28", "Physics"),
    ("FGPG-College-Cupboard-29", "Physics"),
    ("FGPG-College-Register-2", "Economics"),
    ("FGPG-College-Economics", "Economics"),
    ("FGPG-College-Register-3", "Botany"),
    ("PSYCHOLOGY", "Psychology"),
    ("BOTANY", "Botany"),
    ("CS", "Computer Science"),
    ("Chemistry", "Chemistry")
  ]

  const TitleKeywords: seq<string> := ["TITLE", "BOOK TITLE", "NAME", "BOOK NAME"]
  const AuthorKeywords: seq<string> := ["AUTHOR", "AUTHOR NAME"]
  const AccessionKeywords: seq<string> := ["ACC#", "SRNO", "S#", "SR#", "SR NO"]
  /** Title cells that mark a repeated header row. */
  const RepeatedHeaderTitles: seq<string> := ["TITLE", "BOOK TITLE", "NAME"]

  // ---------------------------------------------------------------- cells

  /** Normalises a cell: missing, empty or blank becomes "NA", anything else is stripped. */
  function CleanText(text: Option<string>): (r: string)
    ensures r != []
    ensures text.None? || Strip(text.value) == [] ==> r == NA
    ensures text.Some? && Strip(text.value) != [] ==> r == Strip(text.value)
  {
    if text.None? || text.value == [] then NA
    else
      var t := Strip(text.value);
      if t == [] then NA else t
  }

  /** Cleaning a cleaned cell changes nothing. */
  lemma CleanTextIdempotent(text: Option<string>)
    ensures CleanText(Some(CleanText(text))) == CleanText(text)
  {
    var r := CleanText(text);
    if r != NA {
      StripIdempotent(text.value);
    }
  }

  // ------------------------------------------------------------- category

  /** The position of the last occurrence of `c`. */
  function LastIndexOf(s: string, c: char): (r: Option<nat>)
    ensures r.Some? ==> r.value < |s| && s[r.value] == c && c !in s[r.value + 1..]
    ensures r.None? ==> c !in s
  {
    if s == [] then None
    else if s[|s| - 1] == c then Some(|s| - 1)
    else
      var r := LastIndexOf(s[..|s| - 1], c);
      assert s == s[..|s| - 1] + [s[|s| - 1]];
      r
  }

  predicate AllDots(s: string) {
    forall i :: 0 <= i < |s| ==> s[i] == '.'
  }

  /**
   * `os.path.splitext(name)[0]` for a bare file name: the text before the last
   * dot, unless only dots precede that dot (a leading-dot name has no extension).
   */
  function StripExtension(name: string): (base: string)
    ensures |base| <= |name| && base == name[..|base|]
    ensures base != name ==> name[|base|] == '.' && '.' !in name[|base| + 1..] && !AllDots(base)
    ensures base == name ==> forall d :: 0 <= d < |name| && name[d] == '.' ==> AllDots(name[..d])
  {
    match LastIndexOf(name, '.')
    case None => name
    case Some(d) =>
      if AllDots(name[..d]) then
        assert forall e :: 0 <= e < |name| && name[e] == '.' ==> e <= d by {
          forall e | d < e < |name| ensures name[e] != '.' {
            assert name[e] == name[d + 1..][e - d - 1];
          }
        }
        name
      else name[..d]
  }

  /** The characters the fallback keeps: ASCII letters and whitespace. */
  predicate KeptInFallback(c: char) {
    IsAsciiLetter(c) || IsSpace(c)
  }

  /** The category guessed from a name no map key matches: its letters and spaces, stripped, or "General". */
  function FallbackCategory(base: string): (r: string)
    ensures r != []
    ensures r == General || forall i :: 0 <= i < |r| ==> KeptInFallback(r[i])
    ensures r != General ==> r == Strip(Filter(base, KeptInFallback))
    ensures Strip(Filter(base, KeptInFallback)) != [] ==> r == Strip(Filter(base, KeptInFallback))
  {
    var kept := Filter(base, KeptInFallback);
    assert forall i :: 0 <= i < |kept| ==> KeptInFallback(kept[i]) by {
      forall i | 0 <= i < |kept| ensures KeptInFallback(kept[i]) {
        assert kept[i] in kept;
      }
    }
    StripKeeps(kept, KeptInFallback);
    var cleaned := Strip(kept);
    if cleaned == [] then General else cleaned
  }

  /** The category of the first map entry, from position `from` on, whose key occurs in `base`. */
  function FirstMappedCategory(base: string, entries: seq<(string, string)>, from: nat): (r: Option<string>)
    requires from <= |entries|
    ensures r.None? <==> forall k :: from <= k < |entries| ==> !Contains(base, entries[k].0)
    ensures r.Some? ==> exists k :: (from <= k < |entries| && Contains(base, entries[k].0) &&
      (forall j :: from <= j < k ==> !Contains(base, entries[j].0)) && r.value == entries[k].1)
    decreases |entries| - from
  {
    if from == |entries| then None
    else if Contains(base, entries[from].0) then Some(entries[from].1)
    else FirstMappedCategory(base, entries, from + 1)
  }

  /** Every category the map gives is a non-empty name. */
  lemma CategoryNamesNonEmpty()
    ensures forall k :: 0 <= k < |CategoryMap| ==> CategoryMap[k].1 != []
  {
    forall k | 0 <= k < |CategoryMap| ensures CategoryMap[k].1 != [] {
      assert CategoryMap[k] in CategoryMap;
    }
  }

  /** The category of a CSV file: the first matching map entry, else the cleaned-up name. */
  function CategoryFromFilename(filename: string): (category: string)
    ensures category != []
  {
    var base := StripExtension(filename);
    match FirstMappedCategory(base, CategoryMap, 0)
    case Some(c) => CategoryNamesNonEmpty(); c
    case None => FallbackCategory(base)
  }

  /** The category is the first map entry whose key occurs in the name without its extension, otherwise the fallback. */
  lemma CategoryFromFilenameChoice(filename: string)
    ensures var base := StripExtension(filename); var category := CategoryFromFilename(filename);
      || (exists k :: 0 <= k < |CategoryMap| && Contains(base, CategoryMap[k].0) &&
           (forall j :: 0 <= j < k ==> !Contains(base, CategoryMap[j].0)) && category == CategoryMap[k].1)
      || ((forall k :: 0 <= k < |CategoryMap| ==> !Contains(base, CategoryMap[k].0)) &&
           category == FallbackCategory(base))
  {
    var base := StripExtension(filename);
    var m := FirstMappedCategory(base, CategoryMap, 0);
    if m.None? {
      assert CategoryFromFilename(filename) == FallbackCategory(base);
    }
  }

  // --------------------------------------------------------------- header

  /** A line split on commas, each cell stripped and upper-cased. */
  function HeaderCells(line: string): (row: seq<string>)
    ensures |row| == |Split(line, ',')|
    ensures forall k :: 0 <= k < |row| ==> row[k] == Upper(Strip(Split(line, ',')[k]))
  {
    var parts := Split(line, ',');
    seq(|parts|, k requires 0 <= k < |parts| => Upper(Strip(parts[k])))
  }

  /**
   * `s` equals one of `options` (Python `s in [...]`). It is `s in options`
   * (`OneOfIsIn`); the recursive form keeps the solver from expanding every
   * literal keyword list at each use.
   */
  predicate OneOf(s: string, options: seq<string>) {
    options != [] && (s == options[0] || OneOf(s, options[1..]))
  }

  /** Some keyword is a whole cell of the row: `any(k in row for k in keywords)` (`HasKeywordIff`), recursive for the same reason as `OneOf`. */
  predicate HasKeyword(row: seq<string>, keywords: seq<string>) {
    keywords != [] && (keywords[0] in row || HasKeyword(row, keywords[1..]))
  }

  /** `HasKeyword` is Python's `any(k in row for k in keywords)`. */
  lemma {:induction false} HasKeywordIff(row: seq<string>, keywords: seq<string>)
    ensures HasKeyword(row, keywords) <==> exists k :: 0 <= k < |keywords| && keywords[k] in row
  {
    if keywords != [] {
      HasKeywordIff(row, keywords[1..]);
      if HasKeyword(row, keywords[1..]) {
        var k :| 0 <= k < |keywords[1..]| && keywords[1..][k] in row;
        assert keywords[k + 1] in row;
      }
      if exists k :: 0 <= k < |keywords| && keywords[k] in row {
        var k :| 0 <= k < |keywords| && keywords[k] in row;
        if k > 0 {
          assert keywords[1..][k - 1] in row;
        }
      }
    }
  }

  predicate IsHeader(row: seq<string>) {
    HasKeyword(row, TitleKeywords) && HasKeyword(row, AuthorKeywords)
  }

  /** Line `h` is the first header line, and lies within the scanned lines. */
  ghost predicate FirstHeader(lines: seq<string>, h: int) {
    0 <= h < |lines| && h < HeaderScanLimit && IsHeader(HeaderCells(lines[h])) &&
    forall i :: 0 <= i < h ==> !IsHeader(HeaderCells(lines[i]))
  }

  /** The index of the first header line from `from` on among the scanned lines, or -1. */
  function FindHeader(lines: seq<string>, from: nat): (h: int)
    ensures h == -1 ==> forall j :: from <= j < |lines| && j < HeaderScanLimit ==> !IsHeader(HeaderCells(lines[j]))
    ensures h != -1 ==> (from <= h < |lines| && h < HeaderScanLimit && IsHeader(HeaderCells(lines[h])) &&
      forall j :: from <= j < h ==> !IsHeader(HeaderCells(lines[j])))
    decreases |lines| - from
  {
    if from >= |lines| || from >= HeaderScanLimit then -1
    else if IsHeader(HeaderCells(lines[from])) then from
    else FindHeader(lines, from + 1)
  }


  /** There is at most one first header line. */
  lemma FirstHeaderUnique(lines: seq<string>, h: int, h': int)
    requires FirstHeader(lines, h) && FirstHeader(lines, h')
    ensures h == h'
  {
  }

  /** Finds the first of the first ten lines whose cells name a title and an author; (-1, []) when there is none. */
  method DetectHeaderRow(lines: seq<string>) returns (index: int, row: seq<string>)
    ensures index == -1 ==> (row == [] &&
      forall i :: 0 <= i < |lines| && i < HeaderScanLimit ==> !IsHeader(HeaderCells(lines[i])))
    ensures index != -1 ==> FirstHeader(lines, index) && row == HeaderCells(lines[index])
    ensures index == FindHeader(lines, 0)
  {
    var n := Min(|lines|, HeaderScanLimit);
    var i := 0;
    while i < n
      invariant 0 <= i <= n
      invariant forall j :: 0 <= j < i ==> !IsHeader(HeaderCells(lines[j]))
      invariant FindHeader(lines, i) == FindHeader(lines, 0)
    {
      var cells := HeaderCells(lines[i]);
      if IsHeader(cells) {
        return i, cells;
      }
      i := i + 1;
    }
    return -1, [];
  }

  // -------------------------------------------------------------- columns

  /** Every occurrence of `c` removed, the rest kept in order (Python `replace(c, '')`). */
  function Without(s: string, c: char): (r: string)
    ensures c !in r
    ensures |r| <= |s|
    ensures r == Filter(s, (x: char) => x != c)
  {
    if s == [] then []
    else if s[0] == c then Without(s[1..], c)
    else [s[0]] + Without(s[1..], c)
  }

  /** Removing a character that does not occur changes nothing. */
  lemma {:induction false} WithoutAbsent(s: string, c: char)
    requires c !in s
    ensures Without(s, c) == s
  {
    if s != [] {
      assert c !in s[1..];
      WithoutAbsent(s[1..], c);
    }
  }

  /** The normalised name of a header cell: upper-cased, dots removed, stripped. */
  function ColumnName(cell: string): string {
    Strip(Without(Upper(cell), '.'))
  }

  /** A column name has no dot, no lower-case letter and no surrounding whitespace. */
  lemma ColumnNameShape(cell: string)
    ensures var name := ColumnName(cell);
      && (forall i :: 0 <= i < |name| ==> name[i] != '.' && !('a' <= name[i] <= 'z'))
      && (name == [] || (!IsSpace(name[0]) && !IsSpace(name[|name| - 1])))
  {
    var u := Upper(cell);
    var w := Without(u, '.');
    forall i | 0 <= i < |w| ensures w[i] != '.' && !('a' <= w[i] <= 'z')
    {
      assert w[i] in w;
      assert w[i] in u;
    }
    StripKeeps(w, (x: char) => x != '.' && !('a' <= x <= 'z'));
  }

  /** The normalised names of all header cells. */
  function ColumnNames(header: seq<string>): (names: seq<string>)
    ensures |names| == |header|
    ensures forall j :: 0 <= j < |header| ==> names[j] == ColumnName(header[j])
  {
    seq(|header|, j requires 0 <= j < |header| => ColumnName(header[j]))
  }

  /** Among the first `n` names, `idx` is the LAST that is one of `keywords`, or -1 when none is. */
  ghost predicate LastColumnWith(names: seq<string>, n: nat, keywords: seq<string>, idx: int)
    requires n <= |names|
  {
    if idx == -1 then forall j :: 0 <= j < n ==> !OneOf(names[j], keywords)
    else (0 <= idx < n && OneOf(names[idx], keywords) &&
      forall j :: idx < j < n ==> !OneOf(names[j], keywords))
  }

  /** Scanning one more name keeps `LastColumnWith`: the new column takes over when it has the role. */
  lemma LastColumnStep(names: seq<string>, n: nat, keywords: seq<string>, idx: int)
    requires n < |names| && LastColumnWith(names, n, keywords, idx)
    ensures LastColumnWith(names, n + 1, keywords, if OneOf(names[n], keywords) then n else idx)
  {
  }

  /** The last of the first `n` names that is one of `keywords`, or -1: the column a role ends up with. */
  function LastWith(names: seq<string>, n: nat, keywords: seq<string>): (idx: int)
    requires n <= |names|
    ensures -1 <= idx < n
  {
    if n == 0 then -1
    else if OneOf(names[n - 1], keywords) then n - 1
    else LastWith(names, n - 1, keywords)
  }

  /** `LastWith` finds the last column with the role, or -1 exactly when no column has it. */
  lemma {:induction false} LastWithIsLast(names: seq<string>, n: nat, keywords: seq<string>)
    requires n <= |names|
    ensures LastColumnWith(names, n, keywords, LastWith(names, n, keywords))
  {
    if n > 0 {
      LastWithIsLast(names, n - 1, keywords);
      LastColumnStep(names, n - 1, keywords, LastWith(names, n - 1, keywords));
    }
  }

  /** `OneOf` is membership. */
  lemma {:induction false} OneOfIsIn(s: string, options: seq<string>)
    ensures OneOf(s, options) <==> s in options
  {
    if options != [] {
      OneOfIsIn(s, options[1..]);
      assert options == [options[0]] + options[1..];
    }
  }

  /** No column name has two roles: title names start with T, B or N, author names are 6 or 11 long and start with A, accession names are at most 5 long. */
  lemma RolesDisjoint(name: string)
    ensures OneOf(name, TitleKeywords) ==> !OneOf(name, AuthorKeywords) && !OneOf(name, AccessionKeywords)
    ensures OneOf(name, AuthorKeywords) ==> !OneOf(name, AccessionKeywords)
  {
    OneOfIsIn(name, TitleKeywords);
    OneOfIsIn(name, AuthorKeywords);
    OneOfIsIn(name, AccessionKeywords);
    if name in TitleKeywords {
      assert name[0] == 'T' || name[0] == 'B' || name[0] == 'N';
    }
    if name in AuthorKeywords {
      assert name[0] == 'A' && (|name| == 6 || |name| == 11);
    }
    if name in AccessionKeywords {
      assert name[0] == 'A' || name[0] == 'S';
      assert |name| <= 5;
    }
  }

  /** `cols` is the role mapping of `header`: for each role, the last column whose name has it. */
  ghost predicate ColumnsOf(header: seq<string>, cols: Columns) {
    var names := ColumnNames(header);
    LastColumnWith(names, |header|, TitleKeywords, cols.title) &&
    LastColumnWith(names, |header|, AuthorKeywords, cols.author) &&
    LastColumnWith(names, |header|, AccessionKeywords, cols.accession)
  }

  /** The role mapping of a header, as a function. */
  function ColumnsFor(header: seq<string>): (cols: Columns)
    ensures -1 <= cols.title < |header| && -1 <= cols.author < |header| && -1 <= cols.accession < |header|
  {
    var names := ColumnNames(header);
    Columns(LastWith(names, |header|, TitleKeywords), LastWith(names, |header|, AuthorKeywords),
      LastWith(names, |header|, AccessionKeywords))
  }

  /** `ColumnsFor` gives the role mapping of the header. */
  lemma ColumnsForOf(header: seq<string>)
    ensures ColumnsOf(header, ColumnsFor(header))
  {
    var names := ColumnNames(header);
    LastWithIsLast(names, |header|, TitleKeywords);
    LastWithIsLast(names, |header|, AuthorKeywords);
    LastWithIsLast(names, |header|, AccessionKeywords);
  }

  /** The role mapping of a header is unique. */
  lemma ColumnsOfUnique(header: seq<string>, c: Columns, c': Columns)
    requires ColumnsOf(header, c) && ColumnsOf(header, c')
    ensures c == c'
  {
  }

  /** Assigns each header column at most one role; a later column with a role overrides an earlier one. */
  method MapColumns(header: seq<string>) returns (cols: Columns)
    ensures ColumnsOf(header, cols) && cols == ColumnsFor(header)
    ensures cols.title != -1 ==> cols.title != cols.author && cols.title != cols.accession
    ensures cols.author != -1 ==> cols.author != cols.accession
  {
    cols := ScanColumnNames(ColumnNames(header));
    ColumnsForOf(header);
    ColumnsOfUnique(header, cols, ColumnsFor(header));
  }

  /** Names that column normalisation leaves as they are: non-empty, no lower-case letter, no dot, no space at either end. */
  predicate PlainName(k: string) {
    k != [] && !IsSpace(k[0]) && !IsSpace(k[|k| - 1]) && '.' !in k &&
    forall i :: 0 <= i < |k| ==> !('a' <= k[i] <= 'z')
  }

  lemma PlainNameFixed(k: string)
    requires PlainName(k)
    ensures ColumnName(k) == k
  {
    UpperUnchanged(k);
    WithoutAbsent(k, '.');
    StripUnchanged(k);
  }

  /** A title keyword is already its own normalised column name. */
  lemma TitleKeywordName(k: string)
    requires k in TitleKeywords
    ensures ColumnName(k) == k
  {
    assert k == "TITLE" || k == "BOOK TITLE" || k == "NAME" || k == "BOOK NAME";
    assert PlainName(k);
    PlainNameFixed(k);
  }

  /** A header line found by `DetectHeaderRow` always yields a title column, so the "no title column" exit never fires after it. */
  lemma HeaderHasTitleColumn(header: seq<string>, cols: Columns)
    requires HasKeyword(header, TitleKeywords) && ColumnsOf(header, cols)
    ensures cols.title >= 0
  {
    HasKeywordIff(header, TitleKeywords);
    var k :| 0 <= k < |TitleKeywords| && TitleKeywords[k] in header;
    var j :| 0 <= j < |header| && header[j] == TitleKeywords[k];
    TitleKeywordName(header[j]);
    OneOfIsIn(header[j], TitleKeywords);
    assert ColumnNames(header)[j] == header[j];
  }

  /** The scan behind `MapColumns`, over the already normalised names. */
  method ScanColumnNames(names: seq<string>) returns (cols: Columns)
    ensures LastColumnWith(names, |names|, TitleKeywords, cols.title)
    ensures LastColumnWith(names, |names|, AuthorKeywords, cols.author)
    ensures LastColumnWith(names, |names|, AccessionKeywords, cols.accession)
    ensures cols.title != -1 ==> cols.title != cols.author && cols.title != cols.accession
    ensures cols.author != -1 ==> cols.author != cols.accession
  {
    var titleIdx, authorIdx, accIdx := -1, -1, -1;
    var idx := 0;
    while idx < |names|
      invariant 0 <= idx <= |names|
      invariant LastColumnWith(names, idx, TitleKeywords, titleIdx)
      invariant LastColumnWith(names, idx, AuthorKeywords, authorIdx)
      invariant LastColumnWith(names, idx, AccessionKeywords, accIdx)
    {
      var col := names[idx];
      RolesDisjoint(col);
      LastColumnStep(names, idx, TitleKeywords, titleIdx);
      LastColumnStep(names, idx, AuthorKeywords, authorIdx);
      LastColumnStep(names, idx, AccessionKeywords, accIdx);
      if OneOf(col, TitleKeywords) {
        titleIdx := idx;
      } else if OneOf(col, AuthorKeywords) {
        authorIdx := idx;
      } else if OneOf(col, AccessionKeywords) {
        accIdx := idx;
      }
      idx := idx + 1;
    }
    if titleIdx != -1 {
      RolesDisjoint(names[titleIdx]);
    }
    if authorIdx != -1 {
      RolesDisjoint(names[authorIdx]);
    }
    cols := Columns(titleIdx, authorIdx, accIdx);
  }

  // ----------------------------------------------------------------- rows

  /** The cleaned cell at `idx`, or "NA" when the column is missing or the row too short. */
  function CellOrNA(row: seq<string>, idx: int): (r: string)
    ensures r != []
    ensures idx == -1 || |row| <= idx ==> r == NA
    ensures 0 <= idx < |row| ==> r == CleanText(Some(row[idx]))
  {
    if idx != -1 && |row| > idx && idx >= 0 then CleanText(Some(row[idx])) else NA
  }

  /** A row is skipped when it is empty, lacks the title column, or its title is "NA" or a repeated header word. */
  function Skipped(row: seq<string>, titleIdx: nat): (r: bool)
    ensures row == [] || |row| <= titleIdx ==> r
    ensures !r ==> titleIdx < |row| && !AllSpace(row[titleIdx]) && row[titleIdx] != NA
  {
    row == [] || |row| <= titleIdx ||
    CleanText(Some(row[titleIdx])) == NA || OneOf(Upper(CleanText(Some(row[titleIdx]))), RepeatedHeaderTitles)
  }

  /** The book one kept row yields, before it is given its id. */
  function RowBook(row: seq<string>, cols: Columns, category: string, today: string): (b: ImportedBook)
    requires cols.title >= 0 && !Skipped(row, cols.title)
    ensures b.title == CleanText(Some(row[cols.title])) && b.title != NA
    ensures b.author == CellOrNA(row, cols.author) && b.accessionNo == CellOrNA(row, cols.accession)
    ensures b.category == category && b.publisher == NA && b.status == Available && b.dateAdded == today
  {
    ImportedBook(CleanText(Some(row[cols.title])), CellOrNA(row, cols.author), category,
      CellOrNA(row, cols.accession), NA, Available, today, TextId(""))
  }

  /** The books the kept rows yield, in row order, before ids. */
  function KeptBooks(rows: seq<seq<string>>, cols: Columns, category: string, today: string): (r: seq<ImportedBook>)
    requires cols.title >= 0
    ensures |r| <= |rows|
  {
    if rows == [] then []
    else
      var init := KeptBooks(rows[..|rows| - 1], cols, category, today);
      var last := rows[|rows| - 1];
      if Skipped(last, cols.title) then init else init + [RowBook(last, cols, category, today)]
  }

  /** Every book from the kept rows carries the file's category, "NA" publisher, "Available" status and a real title. */
  lemma {:induction false} KeptBooksShape(rows: seq<seq<string>>, cols: Columns, category: string, today: string)
    requires cols.title >= 0
    ensures forall b :: b in KeptBooks(rows, cols, category, today) ==> Shaped(b, category, today)
  {
    if rows != [] {
      KeptBooksShape(rows[..|rows| - 1], cols, category, today);
    }
  }

  /** The kept books of one more row: the earlier ones, then this row's book unless it is skipped. */
  lemma KeptBooksStep(rows: seq<seq<string>>, i: nat, cols: Columns, category: string, today: string)
    requires cols.title >= 0 && i < |rows|
    ensures KeptBooks(rows[..i + 1], cols, category, today) ==
      if Skipped(rows[i], cols.title) then KeptBooks(rows[..i], cols, category, today)
      else KeptBooks(rows[..i], cols, category, today) + [RowBook(rows[i], cols, category, today)]
  {
    assert rows[..i + 1][..i] == rows[..i];
  }

  /**
   * A repeated header row whose title cell reads "Book Name" is not skipped:
   * the repeated-header test knows only three of the four title keywords, so
   * such a row becomes a book titled "Book Name".
   */
  lemma BookNameRowKept(row: seq<string>, titleIdx: nat)
    requires titleIdx < |row| && row[titleIdx] == "Book Name"
    ensures !Skipped(row, titleIdx)
    ensures CleanText(Some(row[titleIdx])) == "Book Name"
  {
    BookNameNotRepeated();
  }

  /** "Book Name" survives cleaning and is not one of the repeated header titles. */
  lemma BookNameNotRepeated()
    ensures CleanText(Some("Book Name")) == "Book Name"
    ensures !OneOf(Upper("Book Name"), RepeatedHeaderTitles)
  {
    StripUnchanged("Book Name");
    NineLettersNotRepeated(Upper("Book Name"));
  }

  /** No repeated header title has nine characters. */
  lemma NineLettersNotRepeated(u: string)
    requires |u| == 9
    ensures !OneOf(u, RepeatedHeaderTitles)
  {
    var t := RepeatedHeaderTitles;
    assert |t[0]| == 5 && |t[1]| == 10 && |t[2]| == 4;
    assert !OneOf(u, t[2..]) by { assert t[2..][1..] == []; }
    assert !OneOf(u, t[1..]) by { assert t[1..][1..] == t[2..]; }
  }

  /** The per-file id `<millis>-<position>`. */
  function RowId(millis: nat, k: nat): JsonId {
    TextId(Decimal(millis) + "-" + Decimal(k))
  }

  /** `books` are `kept` in order, the k-th carrying the id `RowId(millis, k)`. */
  predicate Numbered(books: seq<ImportedBook>, kept: seq<ImportedBook>, millis: nat) {
    |books| == |kept| && forall k :: 0 <= k < |books| ==> books[k] == kept[k].(id := RowId(millis, k))
  }

  /** Appending a book with the next position as its id keeps the numbering. */
  lemma NumberedAppend(books: seq<ImportedBook>, kept: seq<ImportedBook>, b: ImportedBook, millis: nat)
    requires Numbered(books, kept, millis)
    ensures Numbered(books + [b.(id := RowId(millis, |books|))], kept + [b], millis)
  {
  }

  /** One data row: `None` when the row is skipped, else its book under the given id. */
  method ExtractRow(row: seq<string>, cols: Columns, category: string, today: string, id: JsonId)
    returns (book: Option<ImportedBook>)
    requires cols.title >= 0 && cols.author >= -1 && cols.accession >= -1
    ensures book.None? <==> Skipped(row, cols.title)
    ensures book.Some? ==> !Skipped(row, cols.title) && book.value == RowBook(row, cols, category, today).(id := id)
  {
    if row == [] || |row| <= cols.title {
      return None;
    }
    var title := CleanText(Some(row[cols.title]));
    if title == NA || OneOf(Upper(title), RepeatedHeaderTitles) {
      return None;
    }
    var author := NA;
    if cols.author != -1 && |row| > cols.author {
      author := CleanText(Some(row[cols.author]));
    }
    var accNo := NA;
    if cols.accession != -1 && |row| > cols.accession {
      accNo := CleanText(Some(row[cols.accession]));
    }
    return Some(ImportedBook(title, author, category, accNo, NA, Available, today, id));
  }

  /** Turns the data rows into books, skipping empty, short, blank-title and repeated-header rows. */
  method ExtractBooks(rows: seq<seq<string>>, cols: Columns, category: string, today: string, millis: nat)
    returns (books: seq<ImportedBook>)
    requires cols.title >= 0 && cols.author >= -1 && cols.accession >= -1
    ensures Numbered(books, KeptBooks(rows, cols, category, today), millis)
  {
    books := [];
    var i := 0;
    while i < |rows|
      invariant 0 <= i <= |rows|
      invariant Numbered(books, KeptBooks(rows[..i], cols, category, today), millis)
    {
      var book := ExtractRow(rows[i], cols, category, today, RowId(millis, |books|));
      ghost var kept := KeptBooks(rows[..i], cols, category, today);
      KeptBooksStep(rows, i, cols, category, today);
      if book.Some? {
        ghost var b := RowBook(rows[i], cols, category, today);
        assert KeptBooks(rows[..i + 1], cols, category, today) == kept + [b];
        NumberedAppend(books, kept, b, millis);
        books := books + [book.value];
      } else {
        assert KeptBooks(rows[..i + 1], cols, category, today) == kept;
      }
      i := i + 1;
    }
    assert rows[..i] == rows;
  }

  /** The kept books, the k-th carrying the id `RowId(millis, k)`. */
  function Renumber(kept: seq<ImportedBook>, millis: nat): (books: seq<ImportedBook>)
    ensures Numbered(books, kept, millis)
  {
    seq(|kept|, k requires 0 <= k < |kept| => kept[k].(id := RowId(millis, k)))
  }

  /** A numbering of the kept books is the one `Renumber` gives. */
  lemma NumberedIsRenumber(books: seq<ImportedBook>, kept: seq<ImportedBook>, millis: nat)
    requires Numbered(books, kept, millis)
    ensures books == Renumber(kept, millis)
  {
    var r := Renumber(kept, millis);
    assert |books| == |r|;
    forall k | 0 <= k < |books| ensures books[k] == r[k] {}
  }

  /**
   * The books of one CSV file: none from an unreadable file; otherwise those
   * of its lines, under the category its name gives.
   */
  function CsvBooks(file: CsvFile, reader: seq<string> -> seq<seq<string>>, today: string, millis: nat): seq<ImportedBook> {
    match file.lines
    case None => []
    case Some(lines) => LinesBooks(lines, CategoryFromFilename(file.name), reader, today, millis)
  }

  /**
   * None when no line among the first ten is a header, or when the header
   * has no title column; otherwise the kept rows after the header line,
   * numbered.
   */
  function LinesBooks(lines: seq<string>, category: string, reader: seq<string> -> seq<seq<string>>, today: string, millis: nat): seq<ImportedBook> {
    var h := FindHeader(lines, 0);
    if h == -1 then []
    else ColumnBooks(ColumnsFor(HeaderCells(lines[h])), reader(lines[h + 1..]), category, today, millis)
  }

  /** The kept rows, numbered; none when the header has no title column. */
  function ColumnBooks(cols: Columns, rows: seq<seq<string>>, category: string, today: string, millis: nat): seq<ImportedBook> {
    if cols.title < 0 then [] else Renumber(KeptBooks(rows, cols, category, today), millis)
  }

  /** The fields every imported book shares: its file's category, "NA" publisher, "Available" status, today's date and a real title. */
  predicate Shaped(b: ImportedBook, category: string, today: string) {
    && b.category == category && b.publisher == NA && b.status == Available && b.dateAdded == today
    && b.title != NA && !OneOf(Upper(b.title), RepeatedHeaderTitles)
  }

  /** Every book of a file has that file's category, "NA" publisher, "Available" status and a real title. */
  lemma CsvBooksShape(file: CsvFile, reader: seq<string> -> seq<seq<string>>, today: string, millis: nat)
    ensures forall b :: b in CsvBooks(file, reader, today, millis) ==> Shaped(b, CategoryFromFilename(file.name), today)
  {
    if file.lines.Some? {
      LinesBooksShape(file.lines.value, CategoryFromFilename(file.name), reader, today, millis);
    }
  }

  lemma LinesBooksShape(lines: seq<string>, category: string, reader: seq<string> -> seq<seq<string>>, today: string, millis: nat)
    ensures forall b :: b in LinesBooks(lines, category, reader, today, millis) ==> Shaped(b, category, today)
  {
    var h := FindHeader(lines, 0);
    if h != -1 {
      ColumnBooksShape(ColumnsFor(HeaderCells(lines[h])), reader(lines[h + 1..]), category, today, millis);
    }
  }

  lemma ColumnBooksShape(cols: Columns, rows: seq<seq<string>>, category: string, today: string, millis: nat)
    ensures forall b :: b in ColumnBooks(cols, rows, category, today, millis) ==> Shaped(b, category, today)
  {
    if cols.title >= 0 {
      KeptBooksShape(rows, cols, category, today);
      RenumberShaped(KeptBooks(rows, cols, category, today), category, today, millis);
    }
  }

  /** Renumbering changes ids only, so the shared fields stay. */
  lemma RenumberShaped(kept: seq<ImportedBook>, category: string, today: string, millis: nat)
    requires forall b :: b in kept ==> Shaped(b, category, today)
    ensures forall b :: b in Renumber(kept, millis) ==> Shaped(b, category, today)
  {
    var r := Renumber(kept, millis);
    forall b | b in r ensures Shaped(b, category, today)
    {
      var k :| 0 <= k < |r| && r[k] == b;
      assert kept[k] in kept;
    }
  }

  /** One CSV file to books, as `CsvBooks` describes them. */
  method ParseCsv(file: CsvFile, reader: seq<string> -> seq<seq<string>>, today: string, millis: nat)
    returns (books: seq<ImportedBook>)
    ensures books == CsvBooks(file, reader, today, millis)
    ensures file.lines.None? ==> books == []
    ensures (file.lines.Some? && forall i :: 0 <= i < |file.lines.value| && i < HeaderScanLimit ==>
      !IsHeader(HeaderCells(file.lines.value[i]))) ==> books == []
  {
    if file.lines.None? {
      return [];
    }
    var lines := file.lines.value;
    var category := CategoryFromFilename(file.name);
    books := ParseLines(lines, category, reader, today, millis);
  }

  /** The lines of a readable file to books, as `LinesBooks` describes them. */
  method ParseLines(lines: seq<string>, category: string, reader: seq<string> -> seq<seq<string>>, today: string, millis: nat)
    returns (books: seq<ImportedBook>)
    ensures books == LinesBooks(lines, category, reader, today, millis)
    ensures (forall i :: 0 <= i < |lines| && i < HeaderScanLimit ==> !IsHeader(HeaderCells(lines[i]))) ==> books == []
  {
    var headerIdx, headerRow := DetectHeaderRow(lines);
    if headerIdx == -1 {
      return [];
    }
    books := ParseBody(headerRow, reader(lines[headerIdx + 1..]), category, today, millis);
  }

  /** The rows after a header line to books, as `ColumnBooks` describes them under the header's columns. */
  method ParseBody(header: seq<string>, rows: seq<seq<string>>, category: string, today: string, millis: nat)
    returns (books: seq<ImportedBook>)
    ensures books == ColumnBooks(ColumnsFor(header), rows, category, today, millis)
  {
    var cols := MapColumns(header);
    if cols.title == -1 {
      return [];
    }
    books := ExtractBooks(rows, cols, category, today, millis);
    NumberedIsRenumber(books, KeptBooks(rows, cols, category, today), millis);
  }

  // ------------------------------------------------------------------ ids

  /** Python `str(id)`: the digits of a number, after a minus sign when it is negative, or the string itself. */
  function Written(id: JsonId): string {
    match id
    case IntId(n) => if n >= 0 then Decimal(n) else "-" + Decimal(-n)
    case TextId(s) => s
  }

  /** The value of an id whose written form passes `isdigit()`, otherwise nothing. */
  function NumericId(id: JsonId): Option<nat> {
    match id
    case IntId(n) => if n >= 0 then Some(n) else None
    case TextId(s) => if s != [] && AllDigits(s) then Some(DigitsValue(s)) else None
  }

  /** `NumericId` is `int(str(id))` exactly when `str(id).isdigit()`. */
  lemma NumericIdWritten(id: JsonId)
    ensures NumericId(id).Some? <==> Written(id) != [] && AllDigits(Written(id))
    ensures NumericId(id).Some? ==> NumericId(id).value == DigitsValue(Written(id))
  {
    if id.IntId? {
      if id.n >= 0 {
        DecimalRoundTrip(id.n);
      } else {
        assert Written(id)[0] == '-';
      }
    }
  }

  /** A string id holding a number's decimal digits (as the store's timestamp ids do) reads back as that number. */
  lemma NumericIdOfDecimal(n: nat)
    ensures NumericId(TextId(Decimal(n))) == Some(n)
  {
    DecimalRoundTrip(n);
  }

  /** The first id `main` hands out: one past the largest numeric id, or 1 when there is none. */
  function NextId(books: seq<ImportedBook>): (r: nat)
    ensures r >= 1
    ensures forall j :: 0 <= j < |books| && NumericId(books[j].id).Some? ==> NumericId(books[j].id).value < r
    ensures r == 1 || exists j :: 0 <= j < |books| && NumericId(books[j].id) == Some(r - 1)
  {
    if books == [] then 1
    else
      var prefix := books[..|books| - 1];
      assert forall j :: 0 <= j < |prefix| ==> prefix[j] == books[j];
      var rest := NextId(prefix);
      var last := NumericId(books[|books| - 1].id);
      if last.Some? && last.value + 1 > rest then last.value + 1 else rest
  }

  /** `books` in order, the k-th carrying the id `start + k`. */
  function WithIds(books: seq<ImportedBook>, start: nat): (r: seq<ImportedBook>)
    ensures |r| == |books|
    ensures forall k :: 0 <= k < |r| ==> r[k].id == IntId(start + k) && r[k] == books[k].(id := r[k].id)
  {
    seq(|books|, k requires 0 <= k < |books| => books[k].(id := IntId(start + k)))
  }

  /** What `AssignIds` leaves behind is the existing books followed by `WithIds(incoming, start)`. */
  lemma AssignedWithIds(existing: seq<ImportedBook>, incoming: seq<ImportedBook>, all: seq<ImportedBook>, start: nat)
    requires |all| == |existing| + |incoming| && all[..|existing|] == existing
    requires forall k :: 0 <= k < |incoming| ==> all[|existing| + k] == incoming[k].(id := IntId(start + k))
    ensures all == existing + WithIds(incoming, start)
  {
    var w := WithIds(incoming, start);
    forall i | 0 <= i < |all| ensures all[i] == (existing + w)[i] {
      if i >= |existing| {
        assert w[i - |existing|] == incoming[i - |existing|].(id := IntId(start + (i - |existing|)));
      }
    }
  }

  /** Appends the new books after the unchanged existing ones, numbering them consecutively from `NextId`. */
  method AssignIds(existing: seq<ImportedBook>, incoming: seq<ImportedBook>) returns (all: seq<ImportedBook>)
    ensures |all| == |existing| + |incoming|
    ensures all[..|existing|] == existing
    ensures forall k :: 0 <= k < |incoming| ==> all[|existing| + k] == incoming[k].(id := IntId(NextId(existing) + k))
    ensures forall k, j :: |existing| <= k < |all| && 0 <= j < |existing| && NumericId(existing[j].id).Some? ==>
      all[k].id.IntId? && all[k].id.n > NumericId(existing[j].id).value
  {
    all := existing;
    var nextId := NextId(existing);
    var i := 0;
    while i < |incoming|
      invariant 0 <= i <= |incoming|
      invariant nextId == NextId(existing) + i
      invariant |all| == |existing| + i && all[..|existing|] == existing
      invariant forall k :: 0 <= k < i ==> all[|existing| + k] == incoming[k].(id := IntId(NextId(existing) + k))
    {
      all := all + [incoming[i].(id := IntId(nextId))];
      nextId := nextId + 1;
      i := i + 1;
    }
    forall k, j | |existing| <= k < |all| && 0 <= j < |existing| && NumericId(existing[j].id).Some?
      ensures all[k].id.IntId? && all[k].id.n > NumericId(existing[j].id).value
    {
      var m := k - |existing|;
      assert all[|existing| + m] == incoming[m].(id := IntId(NextId(existing) + m));
    }
  }

  /** The directory entries the import reads: names ending in ".csv". */
  function IsCsvName(name: string): (r: bool)
    ensures r ==> |name| >= 4 && name[..|name| - 4] + ".csv" == name
  {
    |name| >= 4 && name[|name| - 4..] == ".csv"
  }

  /** Every name that ends in ".csv" passes. */
  lemma CsvNameOf(base: string)
    ensures IsCsvName(base + ".csv")
  {
    var name := base + ".csv";
    assert name[|name| - 4..] == ".csv";
  }

  /** `b` is a well-formed book of one of the first `n` CSV entries: that file's category, "NA" publisher, "Available" status, a real title. */
  ghost predicate ImportedFrom(b: ImportedBook, files: seq<CsvFile>, n: nat) {
    && b.publisher == NA && b.status == Available && b.title != NA
    && exists f :: 0 <= f < n && f < |files| && IsCsvName(files[f].name) && b.category == CategoryFromFilename(files[f].name)
  }

  lemma ImportedFromGrows(books: seq<ImportedBook>, files: seq<CsvFile>, n: nat)
    requires forall b :: b in books ==> ImportedFrom(b, files, n)
    ensures forall b :: b in books ==> ImportedFrom(b, files, n + 1)
  {
  }

  /** The books of the ".csv" entries among the first `n` entries, in entry order. */
  function CsvBooksUpTo(files: seq<CsvFile>, n: nat, reader: seq<string> -> seq<seq<string>>, today: string, millis: nat): seq<ImportedBook>
    requires n <= |files|
  {
    if n == 0 then []
    else
      CsvBooksUpTo(files, n - 1, reader, today, millis) +
        (if IsCsvName(files[n - 1].name) then CsvBooks(files[n - 1], reader, today, millis) else [])
  }

  /** The books of the ".csv" entry `f` come from one of the first `f + 1` entries. */
  lemma FileBooksFrom(files: seq<CsvFile>, f: nat, reader: seq<string> -> seq<seq<string>>, today: string, millis: nat)
    requires f < |files| && IsCsvName(files[f].name)
    ensures forall b :: b in CsvBooks(files[f], reader, today, millis) ==> ImportedFrom(b, files, f + 1)
  {
    var category := CategoryFromFilename(files[f].name);
    CsvBooksShape(files[f], reader, today, millis);
    forall b | b in CsvBooks(files[f], reader, today, millis) ensures ImportedFrom(b, files, f + 1)
    {
      assert Shaped(b, category, today);
      assert 0 <= f < f + 1 && IsCsvName(files[f].name) && b.category == CategoryFromFilename(files[f].name);
    }
  }

  /**
   * The import run over the import directory (`None` when it does not exist,
   * which ends the run with the books unchanged): every ".csv" entry's books
   * in entry order, appended after the existing books with fresh numeric ids.
   */
  method ImportFiles(existing: seq<ImportedBook>, listing: Option<seq<CsvFile>>,
                     reader: seq<string> -> seq<seq<string>>, today: string, millis: nat)
    returns (all: seq<ImportedBook>)
    ensures listing.None? ==> all == existing
    ensures |all| >= |existing| && all[..|existing|] == existing
    ensures listing.Some? ==>
      all == existing + WithIds(CsvBooksUpTo(listing.value, |listing.value|, reader, today, millis), NextId(existing))
    ensures forall k :: |existing| <= k < |all| ==> all[k].id == IntId(NextId(existing) + (k - |existing|))
    ensures forall k :: |existing| <= k < |all| ==>
      listing.Some? && ImportedFrom(all[k], listing.value, |listing.value|)
  {
    if listing.None? {
      return existing;
    }
    var files := listing.value;
    var newBooks := ReadCsvFiles(files, reader, today, millis);
    CsvBooksUpToFrom(files, |files|, reader, today, millis);
    all := AssignIds(existing, newBooks);
    AssignedFrom(existing, newBooks, all, files, NextId(existing));
    AssignedWithIds(existing, newBooks, all, NextId(existing));
  }

  /** The books of every ".csv" entry, in entry order. */
  method ReadCsvFiles(files: seq<CsvFile>, reader: seq<string> -> seq<seq<string>>, today: string, millis: nat)
    returns (newBooks: seq<ImportedBook>)
    ensures newBooks == CsvBooksUpTo(files, |files|, reader, today, millis)
  {
    newBooks := [];
    var f := 0;
    while f < |files|
      invariant 0 <= f <= |files|
      invariant newBooks == CsvBooksUpTo(files, f, reader, today, millis)
    {
      if IsCsvName(files[f].name) {
        var parsed := ParseCsv(files[f], reader, today, millis);
        newBooks := newBooks + parsed;
      }
      f := f + 1;
    }
  }

  /** Every book of the first `n` entries comes from a ".csv" entry among them, with that file's category. */
  lemma {:induction false} CsvBooksUpToFrom(files: seq<CsvFile>, n: nat, reader: seq<string> -> seq<seq<string>>, today: string, millis: nat)
    requires n <= |files|
    ensures forall b :: b in CsvBooksUpTo(files, n, reader, today, millis) ==> ImportedFrom(b, files, n)
  {
    if n > 0 {
      var before := CsvBooksUpTo(files, n - 1, reader, today, millis);
      CsvBooksUpToFrom(files, n - 1, reader, today, millis);
      if IsCsvName(files[n - 1].name) {
        ReadStep(before, CsvBooks(files[n - 1], reader, today, millis), files, n - 1, reader, today, millis);
      } else {
        ImportedFromGrows(before, files, n - 1);
      }
    }
  }

  /** Appending the books of the ".csv" entry `f` keeps every book traced to one of the first `f + 1` entries. */
  lemma ReadStep(before: seq<ImportedBook>, parsed: seq<ImportedBook>, files: seq<CsvFile>, f: nat,
                 reader: seq<string> -> seq<seq<string>>, today: string, millis: nat)
    requires f < |files| && IsCsvName(files[f].name)
    requires parsed == CsvBooks(files[f], reader, today, millis)
    requires forall b :: b in before ==> ImportedFrom(b, files, f)
    ensures forall b :: b in before + parsed ==> ImportedFrom(b, files, f + 1)
  {
    ImportedFromGrows(before, files, f);
    FileBooksFrom(files, f, reader, today, millis);
  }

  /** Giving the incoming books consecutive ids from `start` keeps where they come from. */
  lemma AssignedFrom(existing: seq<ImportedBook>, incoming: seq<ImportedBook>, all: seq<ImportedBook>, files: seq<CsvFile>, start: nat)
    requires |all| == |existing| + |incoming|
    requires forall k :: 0 <= k < |incoming| ==> all[|existing| + k] == incoming[k].(id := IntId(start + k))
    requires forall b :: b in incoming ==> ImportedFrom(b, files, |files|)
    ensures forall k :: |existing| <= k < |all| ==> all[k].id == IntId(start + (k - |existing|))
    ensures forall k :: |existing| <= k < |all| ==> ImportedFrom(all[k], files, |files|)
  {
    forall k | |existing| <= k < |all|
      ensures all[k].id == IntId(start + (k - |existing|)) && ImportedFrom(all[k], files, |files|)
    {
      var m := k - |existing|;
      var b := incoming[m];
      assert all[k] == b.(id := IntId(start + m));
      assert b in incoming;
      ImportedFromIgnoresId(b, IntId(start + m), files, |files|);
      assert ImportedFrom(b.(id := IntId(start + m)), files, |files|);
    }
  }

  /** Where a book comes from does not depend on its id. */
  lemma ImportedFromIgnoresId(b: ImportedBook, id: JsonId, files: seq<CsvFile>, n: nat)
    requires ImportedFrom(b, files, n)
    ensures ImportedFrom(b.(id := id), files, n)
  {
    var f :| 0 <= f < n && f < |files| && IsCsvName(files[f].name) && b.category == CategoryFromFilename(files[f].name);
    assert b.(id := id).category == b.category;
  }

}
