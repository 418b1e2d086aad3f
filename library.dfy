/**
 * The library store: one document with three collections (`books`,
 * `issuance`, `members`) held in memory, queried by filter, slice, map and
 * find pipelines and changed in place by the add, update, delete, issue and
 * return operations.
 *
 * Every record is a `Record` (its string `id` plus its fields). A text field
 * the caller left out is the empty string, which the store treats like a
 * missing value; the fields whose absence changes behaviour (`memberId` and
 * `returnDateActual` of an issuance record, `contact` and `contactNo` of a
 * member) are `Option`s. The id a new record receives and the current date
 * are parameters.
 */
module Library {
  import opened Records
  import opened Text

  const Available: string := "Available"
  const CheckedOut: string := "Checked Out"
  const Issued: string := "Issued"
  const Returned: string := "Returned"
  /** The filter value that means "no filter". */
  const All: string := "All"

  datatype BookFields = BookFields(
    title: string, author: string, accessionNo: string, category: string, status: string,
    publisher: string, year: string, subject: string, bookClass: string, quantity: string,
    shelfNo: string, description: string)

  type Book = Record<BookFields>

  /** The fields an update names; `None` leaves a field as it is. */
  datatype BookPatch = BookPatch(
    title: Option<string>, author: Option<string>, accessionNo: Option<string>,
    category: Option<string>, status: Option<string>, publisher: Option<string>,
    year: Option<string>, subject: Option<string>, bookClass: Option<string>,
    quantity: Option<string>, shelfNo: Option<string>, description: Option<string>)

  datatype MemberFields = MemberFields(
    memberId: string, name: string, memberType: string, memberClass: string, rollNo: string,
    contact: Option<string>, contactNo: Option<string>)

  type Member = Record<MemberFields>

  datatype MemberPatch = MemberPatch(
    memberId: Option<string>, name: Option<string>, memberType: Option<string>,
    memberClass: Option<string>, rollNo: Option<string>,
    contact: Option<string>, contactNo: Option<string>)

  /** An issuance record; `memberId` is the internal id of a member, absent on records made by the issue form. */
  datatype IssuanceFields = IssuanceFields(
    bookId: string, bookTitle: string, memberId: Option<string>, studentName: string,
    studentId: string, returnDate: string, status: string, issueDate: string,
    returnDateActual: Option<string>)

  type Issuance = Record<IssuanceFields>

  datatype BookParams = BookParams(page: int, limit: int, search: string, category: string, status: string)

  datatype Pagination = Pagination(page: int, limit: int, total: nat, totalPages: nat)

  datatype BookPage = BookPage(data: seq<Book>, pagination: Pagination)

  /** The member details an open issuance record is shown with. */
  datatype Enrichment = Enrichment(memberName: string, memberDisplayId: string, contact: Option<string>)

  /** An open issuance record, with the member details when its member exists. */
  datatype IssuedEntry = IssuedEntry(record: Issuance, member: Option<Enrichment>)

  /** The TypeError raised by reading `includes` of a member's missing `contactNo`. */
  datatype QueryError = ContactNoUndefined

  /** An update object with no fields. */
  const NoBookChanges := BookPatch(None, None, None, None, None, None, None, None, None, None, None, None)
  const NoMemberChanges := MemberPatch(None, None, None, None, None, None, None)

  function Patch(current: string, update: Option<string>): string {
    match update
    case None => current
    case Some(v) => v
  }

  function PatchOption(current: Option<string>, update: Option<string>): Option<string> {
    if update.Some? then update else current
  }

  /** `Object.assign(book, updates)`. */
  function PatchBook(b: BookFields, u: BookPatch): (r: BookFields)
    ensures u == NoBookChanges ==> r == b
  {
    BookFields(
      Patch(b.title, u.title), Patch(b.author, u.author), Patch(b.accessionNo, u.accessionNo),
      Patch(b.category, u.category), Patch(b.status, u.status), Patch(b.publisher, u.publisher),
      Patch(b.year, u.year), Patch(b.subject, u.subject), Patch(b.bookClass, u.bookClass),
      Patch(b.quantity, u.quantity), Patch(b.shelfNo, u.shelfNo), Patch(b.description, u.description))
  }

  /** `Object.assign(member, updates)`. */
  function PatchMember(m: MemberFields, u: MemberPatch): (r: MemberFields)
    ensures u == NoMemberChanges ==> r == m
  {
    MemberFields(
      Patch(m.memberId, u.memberId), Patch(m.name, u.name), Patch(m.memberType, u.memberType),
      Patch(m.memberClass, u.memberClass), Patch(m.rollNo, u.rollNo),
      PatchOption(m.contact, u.contact), PatchOption(m.contactNo, u.contactNo))
  }

  /** Applying the same updates twice is applying them once. */
  lemma PatchTwice(b: BookFields, u: BookPatch, m: MemberFields, v: MemberPatch)
    ensures PatchBook(PatchBook(b, u), u) == PatchBook(b, u)
    ensures PatchMember(PatchMember(m, v), v) == PatchMember(m, v)
  {
  }

  /** A category or status filter is applied unless it is empty or "All". */
  predicate FilterActive(f: string) {
    f != "" && f != All
  }

  /** The search test, with the query already lower-cased: title or author contain it ignoring case, or a non-empty accession number contains it as written. */
  function SearchMatches(b: Book, q: string): (r: bool)
    ensures q == "" ==> r
  {
    Contains(Lower(b.fields.title), q) || Contains(Lower(b.fields.author), q) ||
    (b.fields.accessionNo != "" && Contains(b.fields.accessionNo, q))
  }

  /** The search holds exactly when the query occurs in the lower-cased title or author, or in a non-empty accession number. */
  lemma SearchMatchesIff(b: Book, q: string)
    ensures SearchMatches(b, q) <==> (Occurs(Lower(b.fields.title), q) || Occurs(Lower(b.fields.author), q) ||
      (b.fields.accessionNo != "" && Occurs(b.fields.accessionNo, q)))
  {
    ContainsIff(Lower(b.fields.title), q);
    ContainsIff(Lower(b.fields.author), q);
    ContainsIff(b.fields.accessionNo, q);
  }


  /** All filters of a book query. */
  predicate BookMatches(b: Book, p: BookParams) {
    && (p.search == "" || SearchMatches(b, Lower(p.search)))
    && (!FilterActive(p.category) || b.fields.category == p.category)
    && (!FilterActive(p.status) || b.fields.status == p.status)
  }

  /** An active category or status filter keeps only books with that value, and dropping a filter never loses a book. */
  lemma BookMatchesFilters(b: Book, p: BookParams)
    ensures BookMatches(b, p) && FilterActive(p.category) ==> b.fields.category == p.category
    ensures BookMatches(b, p) && FilterActive(p.status) ==> b.fields.status == p.status
    ensures BookMatches(b, p) ==> BookMatches(b, p.(category := All)) && BookMatches(b, p.(status := All))
    ensures BookMatches(b, p) ==> BookMatches(b, p.(search := ""))
  {
  }

  /** The books a query keeps, in collection order. */
  function MatchingBooks(books: seq<Book>, p: BookParams): (r: seq<Book>)
    ensures forall b :: b in r <==> b in books && BookMatches(b, p)
  {
    Filter(books, (b: Book) => BookMatches(b, p))
  }

  /** Matching is decided book by book, so the filtered list keeps the collection's order. */
  lemma MatchingBooksAppend(a: seq<Book>, b: seq<Book>, p: BookParams)
    ensures MatchingBooks(a + b, p) == MatchingBooks(a, p) + MatchingBooks(b, p)
  {
    FilterAppend(a, b, (x: Book) => BookMatches(x, p));
  }

  /** With no search text and no active filter every book is kept. */
  lemma MatchingBooksNoFilter(books: seq<Book>, p: BookParams)
    requires p.search == "" && !FilterActive(p.category) && !FilterActive(p.status)
    ensures MatchingBooks(books, p) == books
  {
    FilterAll(books, (x: Book) => BookMatches(x, p));
  }

  /** Filtering looks only at the search text and the two filters, never at the page or the limit. */
  lemma {:induction false} MatchingBooksIgnoresPaging(books: seq<Book>, p: BookParams, q: BookParams)
    requires p.search == q.search && p.category == q.category && p.status == q.status
    ensures MatchingBooks(books, p) == MatchingBooks(books, q)
  {
    if books != [] {
      MatchingBooksIgnoresPaging(books[1..], p, q);
    }
  }

  predicate IsOpen(r: Issuance) {
    r.fields.status == Issued
  }

  /** The `Issued` records, in collection order. */
  function OpenRecords(s: seq<Issuance>): (r: seq<Issuance>)
    ensures forall x :: x in r <==> x in s && IsOpen(x)
  {
    Filter(s, IsOpen)
  }

  /** Joins one record to the first member whose internal id is the record's `memberId`. */
  function Enrich(rec: Issuance, members: seq<Member>): (e: IssuedEntry)
    ensures e.record == rec
    ensures e.member.Some? <==> rec.fields.memberId.Some? && exists j :: 0 <= j < |members| && members[j].id == rec.fields.memberId.value
    ensures e.member.Some? ==> exists j :: (0 <= j < |members| && members[j].id == rec.fields.memberId.value &&
      (forall i :: 0 <= i < j ==> members[i].id != members[j].id) &&
      e.member.value == Enrichment(members[j].fields.name, members[j].fields.memberId, members[j].fields.contact))
  {
    match rec.fields.memberId
    case None => IssuedEntry(rec, None)
    case Some(mid) =>
      match FindIndex(members, mid)
      case None => IssuedEntry(rec, None)
      case Some(j) =>
        var m := members[j].fields;
        IssuedEntry(rec, Some(Enrichment(m.name, m.memberId, m.contact)))
  }

  /** A member record with `contactNo` missing makes the search throw once its name and member code have not matched. */
  function MemberThrows(m: Member, q: string): (r: bool)
    ensures r <==> m.fields.contactNo.None? && !MemberMatches(m, q)
    ensures r ==> q != ""
  {
    !Contains(Lower(m.fields.name), q) && !Contains(Lower(m.fields.memberId), q) && m.fields.contactNo.None?
  }

  /** The member search test, with the query already lower-cased. */
  function MemberMatches(m: Member, q: string): (r: bool)
    ensures q == "" ==> r
  {
    Contains(Lower(m.fields.name), q) || Contains(Lower(m.fields.memberId), q) ||
    (m.fields.contactNo.Some? && Contains(m.fields.contactNo.value, q))
  }

  /** A member matches exactly when the query occurs in the lower-cased name or member code, or in the contact number when there is one. */
  lemma MemberMatchesIff(m: Member, q: string)
    ensures MemberMatches(m, q) <==> (Occurs(Lower(m.fields.name), q) || Occurs(Lower(m.fields.memberId), q) ||
      (m.fields.contactNo.Some? && Occurs(m.fields.contactNo.value, q)))
  {
    ContainsIff(Lower(m.fields.name), q);
    ContainsIff(Lower(m.fields.memberId), q);
    if m.fields.contactNo.Some? {
      ContainsIff(m.fields.contactNo.value, q);
    }
  }


  class Database {
    var books: seq<Book>
    var issuance: seq<Issuance>
    var members: seq<Member>

    /** The document as loaded (empty collections for a new file). */
    constructor (books0: seq<Book>, issuance0: seq<Issuance>, members0: seq<Member>)
      ensures books == books0 && issuance == issuance0 && members == members0
    {
      books := books0;
      issuance := issuance0;
      members := members0;
    }

    /** Search, filter and paginate the books. */
    function GetBooks(p: BookParams): (r: BookPage)
      reads this
      requires p.page >= 1 && p.limit >= 1
      ensures r.pagination.page == p.page && r.pagination.limit == p.limit
      ensures r.pagination.total == |MatchingBooks(books, p)|
      ensures r.pagination.totalPages * p.limit >= r.pagination.total
      ensures r.pagination.totalPages == 0 || (r.pagination.totalPages - 1) * p.limit < r.pagination.total
      ensures |r.data| <= p.limit
      ensures var m := MatchingBooks(books, p); var offset := (p.page - 1) * p.limit;
        r.data == m[Min(offset, |m|)..Min(offset + p.limit, |m|)]
      ensures forall b :: b in r.data ==> b in books && BookMatches(b, p)
    {
      var m := MatchingBooks(books, p);
      var offset: nat := (p.page - 1) * p.limit;
      SliceWithin(m, offset, offset + p.limit);
      BookPage(Slice(m, offset, offset + p.limit), Pagination(p.page, p.limit, |m|, CeilDiv(|m|, p.limit)))
    }

    /** Pages 1 to k of a query, concatenated. */
    ghost function PageRun(p: BookParams, k: nat): seq<Book>
      reads this
      requires p.limit >= 1
    {
      if k == 0 then [] else PageRun(p, k - 1) + GetBooks(p.(page := k)).data
    }

    /** Page k shows the matching books from (k - 1) * limit on, at most limit of them. */
    lemma PageIsSlice(p: BookParams, k: nat)
      requires p.limit >= 1 && k >= 1
      ensures var m := MatchingBooks(books, p); var off := (k - 1) * p.limit;
        0 <= off && GetBooks(p.(page := k)).data == m[Min(off, |m|)..Min(off + p.limit, |m|)]
    {
      MatchingBooksIgnoresPaging(books, p, p.(page := k));
    }

    /** The first k pages together are the first k * limit matching books. */
    lemma {:induction false} PageRunPrefix(p: BookParams, k: nat)
      requires p.limit >= 1
      ensures var m := MatchingBooks(books, p); PageRun(p, k) == m[..Min(k * p.limit, |m|)]
    {
      if k > 0 {
        var m := MatchingBooks(books, p);
        var off, end := (k - 1) * p.limit, k * p.limit;
        PageOffsets(k, p.limit);
        var lo, hi := Min(off, |m|), Min(end, |m|);
        PageRunPrefix(p, k - 1);
        PageIsSlice(p, k);
        PageRunStep(p, k, m, lo, hi);
      }
    }

    /** One more page extends the run of pages by the slice it shows. */
    lemma PageRunStep(p: BookParams, k: nat, m: seq<Book>, lo: nat, hi: nat)
      requires p.limit >= 1 && k >= 1 && lo <= hi <= |m|
      requires PageRun(p, k - 1) == m[..lo] && GetBooks(p.(page := k)).data == m[lo..hi]
      ensures PageRun(p, k) == m[..hi]
    {
      PrefixThenRun(m, lo, hi);
    }

    /** Reading pages 1 to totalPages shows every matching book exactly once, in order. */
    lemma PagesCoverMatches(p: BookParams)
      requires p.page >= 1 && p.limit >= 1
      ensures PageRun(p, GetBooks(p).pagination.totalPages) == MatchingBooks(books, p)
    {
      PageRunPrefix(p, GetBooks(p).pagination.totalPages);
    }

    /** The first book with this id, if any. */
    function GetBookById(id: string): (r: Option<Book>)
      reads this
      ensures r.None? <==> forall j :: 0 <= j < |books| ==> books[j].id != id
      ensures r.Some? ==> exists i :: (0 <= i < |books| && books[i] == r.value && r.value.id == id &&
        forall j :: 0 <= j < i ==> books[j].id != id)
    {
      match FindIndex(books, id)
      case None => None
      case Some(i) => Some(books[i])
    }

    /** The first member with this internal id, if any. */
    function GetMemberById(id: string): (r: Option<Member>)
      reads this
      ensures r.None? <==> forall j :: 0 <= j < |members| ==> members[j].id != id
      ensures r.Some? ==> exists i :: (0 <= i < |members| && members[i] == r.value && r.value.id == id &&
        forall j :: 0 <= j < i ==> members[j].id != id)
    {
      match FindIndex(members, id)
      case None => None
      case Some(i) => Some(members[i])
    }

    /** The open issuance records, each joined to its member when that member exists; no record is dropped. */
    function GetIssuedBooks(): (r: seq<IssuedEntry>)
      reads this
      ensures |r| == |OpenRecords(issuance)|
      ensures forall k :: 0 <= k < |r| ==> r[k].record == OpenRecords(issuance)[k]
      ensures forall k :: 0 <= k < |r| ==> IsOpen(r[k].record) && r[k].record in issuance
      ensures forall k :: 0 <= k < |r| ==>
        (r[k].member.Some? <==> (r[k].record.fields.memberId.Some? &&
          exists j :: 0 <= j < |members| && members[j].id == r[k].record.fields.memberId.value))
      ensures forall k :: 0 <= k < |r| && r[k].member.Some? ==>
        exists j :: 0 <= j < |members| && members[j].id == r[k].record.fields.memberId.value &&
          (forall i :: 0 <= i < j ==> members[i].id != members[j].id) &&
          r[k].member.value == Enrichment(members[j].fields.name, members[j].fields.memberId, members[j].fields.contact)
    {
      var open := OpenRecords(issuance);
      var ms := members;
      assert forall k :: 0 <= k < |open| ==> open[k] in open;
      seq(|open|, k requires 0 <= k < |open| => Enrich(open[k], ms))
    }

    /** Members whose name or member code contain the search text ignoring case, or whose contact number contains it; fails when it reaches a member without a contact number. */
    function GetMembers(search: string): (r: Result<seq<Member>, QueryError>)
      reads this
      ensures search == "" ==> r == Success(members)
      ensures r.Failure? <==> search != "" && exists j :: 0 <= j < |members| && MemberThrows(members[j], Lower(search))
      ensures r.Success? ==> forall m :: m in r.value <==> m in members && (search == "" || MemberMatches(m, Lower(search)))
      ensures r.Success? && search != "" ==> r.value == Filter(members, (m: Member) => MemberMatches(m, Lower(search)))
    {
      if search == "" then Success(members)
      else
        var q := Lower(search);
        if exists j | 0 <= j < |members| :: MemberThrows(members[j], q) then Failure(ContactNoUndefined)
        else Success(Filter(members, (m: Member) => MemberMatches(m, q)))
    }

    /** Appends the book with the given id; a fresh id makes it the book found by that id. */
    method AddBook(book: BookFields, id: string) returns (newBook: Book)
      modifies this
      ensures newBook == Record(id, book)
      ensures books == old(books) + [newBook]
      ensures issuance == old(issuance) && members == old(members)
      ensures (forall j :: 0 <= j < |old(books)| ==> old(books)[j].id != id) ==> GetBookById(id) == Some(newBook)
    {
      newBook := Record(id, book);
      if forall j :: 0 <= j < |books| ==> books[j].id != id {
        FindIndexAppend(books, newBook);
      }
      books := books + [newBook];
    }

    /** Applies the update to the first book with this id and returns that book; no such book, no change. */
    method UpdateBook(id: string, updates: BookPatch) returns (r: Option<Book>)
      modifies this
      ensures issuance == old(issuance) && members == old(members)
      ensures match FindIndex(old(books), id)
        case None => books == old(books) && r == None
        case Some(i) => (books == old(books)[i := Record(id, PatchBook(old(books)[i].fields, updates))] &&
          r == Some(books[i]))
    {
      match FindIndex(books, id) {
        case None =>
        case Some(i) =>
          FindIndexAfterUpdate(books, i, PatchBook(books[i].fields, updates), id);
          books := books[i := Record(id, PatchBook(books[i].fields, updates))];
      }
      r := GetBookById(id);
    }

    /** Removes every book with this id. */
    method DeleteBook(id: string)
      modifies this
      ensures books == RemoveId(old(books), id)
      ensures issuance == old(issuance) && members == old(members)
      ensures GetBookById(id).None?
      ensures (forall j :: 0 <= j < |old(books)| ==> old(books)[j].id != id) ==> books == old(books)
    {
      if forall j :: 0 <= j < |books| ==> books[j].id != id {
        RemoveIdMissing(books, id);
      }
      books := RemoveId(books, id);
      assert forall j :: 0 <= j < |books| ==> books[j] in books;
    }

    /** Appends an `Issued` record dated today and marks the first book with the record's book id `Checked Out`. */
    method IssueBook(request: IssuanceFields, id: string, today: string) returns (rec: Issuance)
      modifies this
      ensures rec == Record(id, request.(status := Issued, issueDate := today))
      ensures issuance == old(issuance) + [rec]
      ensures OpenRecords(issuance) == OpenRecords(old(issuance)) + [rec]
      ensures (forall j :: 0 <= j < |old(issuance)| ==> old(issuance)[j].id != id) ==>
        FindIndex(issuance, id) == Some(|old(issuance)|)
      ensures members == old(members)
      ensures match FindIndex(old(books), request.bookId)
        case None => books == old(books)
        case Some(i) => books == old(books)[i := old(books)[i].(fields := old(books)[i].fields.(status := CheckedOut))]
    {
      rec := Record(id, request.(status := Issued, issueDate := today));
      FilterAppend(issuance, [rec], IsOpen);
      if forall j :: 0 <= j < |issuance| ==> issuance[j].id != id {
        FindIndexAppend(issuance, rec);
      }
      issuance := issuance + [rec];
      match FindIndex(books, request.bookId)
      case None =>
      case Some(i) =>
        books := books[i := books[i].(fields := books[i].fields.(status := CheckedOut))];
    }

    /** Marks the first record with this id `Returned` today and its book `Available`; reports false and changes nothing when no record has the id. */
    method ReturnBook(issuanceId: string, today: string) returns (success: bool)
      modifies this
      ensures members == old(members)
      ensures match FindIndex(old(issuance), issuanceId)
        case None => !success && books == old(books) && issuance == old(issuance)
        case Some(i) =>
          && success
          && issuance == old(issuance)[i := old(issuance)[i].(fields :=
               old(issuance)[i].fields.(status := Returned, returnDateActual := Some(today)))]
          && |OpenRecords(issuance)| == |OpenRecords(old(issuance))| - (if IsOpen(old(issuance)[i]) then 1 else 0)
          && match FindIndex(old(books), old(issuance)[i].fields.bookId)
             case None => books == old(books)
             case Some(k) => books == old(books)[k := old(books)[k].(fields := old(books)[k].fields.(status := Available))]
    {
      match FindIndex(issuance, issuanceId)
      case None =>
        success := false;
      case Some(i) =>
        var record := issuance[i];
        var closed := record.(fields := record.fields.(status := Returned, returnDateActual := Some(today)));
        FilterCountUpdate(issuance, i, closed, IsOpen);
        issuance := issuance[i := closed];
        match FindIndex(books, record.fields.bookId) {
          case None =>
          case Some(k) =>
            books := books[k := books[k].(fields := books[k].fields.(status := Available))];
        }
        success := true;
    }

    /** Appends the member with the given id; a fresh id makes it the member found by that id. */
    method AddMember(member: MemberFields, id: string) returns (newMember: Member)
      modifies this
      ensures newMember == Record(id, member)
      ensures members == old(members) + [newMember]
      ensures books == old(books) && issuance == old(issuance)
      ensures (forall j :: 0 <= j < |old(members)| ==> old(members)[j].id != id) ==> GetMemberById(id) == Some(newMember)
    {
      newMember := Record(id, member);
      if forall j :: 0 <= j < |members| ==> members[j].id != id {
        FindIndexAppend(members, newMember);
      }
      members := members + [newMember];
    }

    /** Applies the update to the first member with this id and returns that member; no such member, no change. */
    method UpdateMember(id: string, updates: MemberPatch) returns (r: Option<Member>)
      modifies this
      ensures books == old(books) && issuance == old(issuance)
      ensures match FindIndex(old(members), id)
        case None => members == old(members) && r == None
        case Some(i) => (members == old(members)[i := Record(id, PatchMember(old(members)[i].fields, updates))] &&
          r == Some(members[i]))
    {
      match FindIndex(members, id) {
        case None =>
        case Some(i) =>
          FindIndexAfterUpdate(members, i, PatchMember(members[i].fields, updates), id);
          members := members[i := Record(id, PatchMember(members[i].fields, updates))];
      }
      r := GetMemberById(id);
    }

    /** Removes every member with this id and reports success whether or not one existed. */
    method DeleteMember(id: string) returns (ok: bool)
      modifies this
      ensures ok
      ensures members == RemoveId(old(members), id)
      ensures books == old(books) && issuance == old(issuance)
      ensures GetMemberById(id).None?
      ensures (forall j :: 0 <= j < |old(members)| ==> old(members)[j].id != id) ==> members == old(members)
    {
      if forall j :: 0 <= j < |members| ==> members[j].id != id {
        RemoveIdMissing(members, id);
      }
      members := RemoveId(members, id);
      assert forall j :: 0 <= j < |members| ==> members[j] in members;
      ok := true;
    }
  }
}
