/** The catalog entities: books with their borrow/return state machine,
    patrons with the books they hold, authors with the books they wrote, and
    the state the three classes keep in static fields (the id counters and
    the per-ISBN count of copies on the shelf), gathered in an `IdCounters`
    and an `Inventory` object that are passed to whatever reads or updates
    them. Dates are day
    numbers. */
module Catalog {
  import opened Lists

  datatype Status = Available | CheckedOut | Overdue

  datatype Option<T> = None | Some(value: T)

  /** What `borrowBook`/`returnBook` report on the console: the transition
      happened, or the book was unavailable / not held by the patron. */
  datatype Outcome = Succeeded | Refused

  /** `plusWeeks(2)`: the loan period in days. */
  const LoanDays := 14

  /** `copiesByISBN.getOrDefault(isbn, 0)`. */
  function CopiesOf(copies: map<string, int>, isbn: string): int
  {
    if isbn in copies then copies[isbn] else 0
  }

  /** One constructed book as the copy count sees it: its ISBN and whether it
      is on the shelf. */
  datatype ShelfEntry = ShelfEntry(isbn: string, available: bool)

  function Counted(e: ShelfEntry, isbn: string): nat
  {
    if e == ShelfEntry(isbn, true) then 1 else 0
  }

  /** How many entries are available copies of `isbn`. */
  function OnShelf(entries: seq<ShelfEntry>, isbn: string): nat
  {
    if entries == [] then 0
    else OnShelf(entries[..|entries| - 1], isbn) + Counted(entries[|entries| - 1], isbn)
  }

  /** A newly constructed book adds its own entry to the count. */
  lemma OnShelfAppend(entries: seq<ShelfEntry>, e: ShelfEntry, isbn: string)
    ensures OnShelf(entries + [e], isbn) == OnShelf(entries, isbn) + Counted(e, isbn)
  {
    assert (entries + [e])[..|entries|] == entries;
  }

  /** Changing one entry changes the count by what that entry contributes. */
  lemma {:induction false} OnShelfUpdate(entries: seq<ShelfEntry>, k: nat, e: ShelfEntry, isbn: string)
    requires k < |entries|
    ensures OnShelf(entries[k := e], isbn)
         == OnShelf(entries, isbn) - Counted(entries[k], isbn) + Counted(e, isbn)
    decreases |entries|
  {
    var n := |entries| - 1;
    if k < n {
      assert entries[k := e][..n] == entries[..n][k := e];
      OnShelfUpdate(entries[..n], k, e, isbn);
    } else {
      assert entries[k := e][..n] == entries[..n];
    }
  }

  /** The copy map agrees with the shelf: for every ISBN, the map's count
      (0 when absent) is the number of available entries with that ISBN. */
  ghost predicate Agrees(copies: map<string, int>, entries: seq<ShelfEntry>)
  {
    forall isbn {:trigger CopiesOf(copies, isbn)} :: CopiesOf(copies, isbn) == OnShelf(entries, isbn)
  }

  /** How a copy count moves when an entry goes from `was` to `now`
      available. */
  function Delta(was: bool, now: bool): int
  {
    (if now then 1 else 0) - (if was then 1 else 0)
  }

  /** The constructor's `putIfAbsent`/`put` pair: a new copy of `isbn` on
      the shelf and one more in the map for `isbn` keep a map that agreed
      with the count in agreement. */
  lemma CopiesFollowNewCopy(copies: map<string, int>, entries: seq<ShelfEntry>, isbn: string)
    requires Agrees(copies, entries)
    ensures Agrees(copies[isbn := CopiesOf(copies, isbn) + 1], entries + [ShelfEntry(isbn, true)])
  {
    var copies' := copies[isbn := CopiesOf(copies, isbn) + 1];
    forall i
      ensures CopiesOf(copies', i) == OnShelf(entries + [ShelfEntry(isbn, true)], i)
    {
      OnShelfAppend(entries, ShelfEntry(isbn, true), i);
      assert CopiesOf(copies, i) == OnShelf(entries, i);
    }
  }

  /** Borrowing or returning: when one entry changes availability and the
      map entry for its ISBN moves by the same amount, a map that agreed with
      the count still agrees with it. */
  lemma CopiesFollowFlip(copies: map<string, int>, entries: seq<ShelfEntry>, k: nat, available: bool)
    requires k < |entries| && entries[k].isbn in copies
    requires Agrees(copies, entries)
    ensures Agrees(copies[entries[k].isbn := copies[entries[k].isbn] + Delta(entries[k].available, available)],
                   entries[k := ShelfEntry(entries[k].isbn, available)])
  {
    var isbn := entries[k].isbn;
    var copies' := copies[isbn := copies[isbn] + Delta(entries[k].available, available)];
    var entries' := entries[k := ShelfEntry(isbn, available)];
    forall i
      ensures CopiesOf(copies', i) == OnShelf(entries', i)
    {
      OnShelfUpdate(entries, k, ShelfEntry(isbn, available), i);
      assert CopiesOf(copies, i) == OnShelf(entries, i);
    }
  }

  /** No object appears twice in `s`. */
  ghost predicate Distinct<T>(s: seq<T>)
  {
    forall i, j :: 0 <= i < j < |s| ==> s[i] != s[j]
  }

  /** Every book's ISBN is a key of the copy map. */
  ghost predicate IsbnsListed(copies: map<string, int>, books: seq<Book>)
  {
    forall k :: 0 <= k < |books| ==> books[k].isbn in copies
  }

  /** `shelf` lists each book's ISBN and whether it is AVAILABLE, in order. */
  ghost predicate Mirrors(shelf: seq<ShelfEntry>, books: seq<Book>)
    reads books
  {
    && |shelf| == |books|
    && forall k :: 0 <= k < |books| ==> shelf[k] == ShelfEntry(books[k].isbn, books[k].status == Available)
  }

  /** Appending an object not yet listed keeps a list free of repeats. */
  lemma DistinctAppend<T>(s: seq<T>, x: T)
    requires Distinct(s) && x !in s
    ensures Distinct(s + [x])
  {
  }

  /** Recording a new book's ISBN in the map keeps every listed ISBN a key. */
  lemma IsbnsListedAppend(copies: map<string, int>, books: seq<Book>, b: Book, n: int)
    requires IsbnsListed(copies, books)
    ensures IsbnsListed(copies[b.isbn := n], books + [b])
  {
  }

  /** Appending a book and its own entry keeps the shelf mirroring the books. */
  lemma MirrorsAppend(shelf: seq<ShelfEntry>, books: seq<Book>, b: Book)
    requires Mirrors(shelf, books)
    ensures Mirrors(shelf + [ShelfEntry(b.isbn, b.status == Available)], books + [b])
  {
  }

  /** `ids` were handed out in increasing order and all lie below `next`. */
  ghost predicate IssuedBelow(ids: seq<int>, next: int)
  {
    && (forall i, j :: 0 <= i < j < |ids| ==> ids[i] < ids[j])
    && (forall i :: 0 <= i < |ids| ==> ids[i] < next)
  }

  /** Handing out `next` and moving the counter on keeps the ids in order. */
  lemma IssueNext(ids: seq<int>, next: int)
    requires IssuedBelow(ids, next)
    ensures next !in ids
    ensures IssuedBelow(ids + [next], next + 1)
  {
  }

  /** The static `nextId` fields of Book, Author and Patron, with the ids
      each has handed out so far. */
  class IdCounters {
    var nextBookId: int
    var nextAuthorId: int
    var nextPatronId: int
    ghost var bookIds: seq<int>
    ghost var authorIds: seq<int>
    ghost var patronIds: seq<int>

    constructor ()
      ensures nextBookId == 1 && nextAuthorId == 1 && nextPatronId == 1
      ensures bookIds == [] && authorIds == [] && patronIds == []
      ensures Valid()
    {
      nextBookId, nextAuthorId, nextPatronId := 1, 1, 1;
      bookIds, authorIds, patronIds := [], [], [];
    }

    /** No counter has handed out the same id twice. */
    ghost predicate Valid()
      reads this
    {
      && IssuedBelow(bookIds, nextBookId)
      && IssuedBelow(authorIds, nextAuthorId)
      && IssuedBelow(patronIds, nextPatronId)
    }

    /** `this.bookId = nextId++` in Book's constructor. */
    method IssueBookId() returns (id: int)
      modifies this`nextBookId, this`bookIds
      ensures id == old(nextBookId) && nextBookId == id + 1
      ensures bookIds == old(bookIds) + [id]
      ensures old(Valid()) ==> Valid() && id !in old(bookIds)
    {
      if Valid() {
        IssueNext(bookIds, nextBookId);
      }
      id := nextBookId;
      nextBookId := nextBookId + 1;
      bookIds := bookIds + [id];
    }

    /** `this.authorId = nextId++` in Author's constructor. */
    method IssueAuthorId() returns (id: int)
      modifies this`nextAuthorId, this`authorIds
      ensures id == old(nextAuthorId) && nextAuthorId == id + 1
      ensures authorIds == old(authorIds) + [id]
      ensures old(Valid()) ==> Valid() && id !in old(authorIds)
    {
      if Valid() {
        IssueNext(authorIds, nextAuthorId);
      }
      id := nextAuthorId;
      nextAuthorId := nextAuthorId + 1;
      authorIds := authorIds + [id];
    }

    /** `this.patronId = nextId++` in Patron's constructor. */
    method IssuePatronId() returns (id: int)
      modifies this`nextPatronId, this`patronIds
      ensures id == old(nextPatronId) && nextPatronId == id + 1
      ensures patronIds == old(patronIds) + [id]
      ensures old(Valid()) ==> Valid() && id !in old(patronIds)
    {
      if Valid() {
        IssueNext(patronIds, nextPatronId);
      }
      id := nextPatronId;
      nextPatronId := nextPatronId + 1;
      patronIds := patronIds + [id];
    }
  }

  /** The static `copiesByISBN` map of Book. The ghost sequences list the
      books constructed against it, in construction order, and what each
      of them contributes to the count. */
  class Inventory {
    var copiesByISBN: map<string, int>
    ghost var books: seq<Book>
    ghost var shelf: seq<ShelfEntry>

    constructor ()
      ensures copiesByISBN == map[] && books == [] && shelf == []
      ensures Valid()
    {
      copiesByISBN := map[];
      books := [];
      shelf := [];
    }

    /** The constructed books are distinct objects, every constructed ISBN
        has an entry, and the copy count of every ISBN is the number of
        constructed books with that ISBN that are AVAILABLE. */
    ghost predicate Valid()
      reads this, books
    {
      && Distinct(books)
      && IsbnsListed(copiesByISBN, books)
      && Mirrors(shelf, books)
      && Agrees(copiesByISBN, shelf)
    }

    /** The `putIfAbsent(isbn, 0)` / `put(isbn, get(isbn) + 1)` pair in Book's
        constructor: one more copy of a new AVAILABLE book's ISBN. */
    method Register(b: Book)
      modifies this`copiesByISBN, this`books, this`shelf
      ensures copiesByISBN == old(copiesByISBN)[b.isbn := CopiesOf(old(copiesByISBN), b.isbn) + 1]
      ensures books == old(books) + [b]
      ensures shelf == old(shelf) + [ShelfEntry(b.isbn, true)]
      ensures old(Valid()) && b !in old(books) && b.status == Available ==> Valid()
    {
      if Valid() && b !in books && b.status == Available {
        CopiesFollowNewCopy(copiesByISBN, shelf, b.isbn);
        DistinctAppend(books, b);
        IsbnsListedAppend(copiesByISBN, books, b, CopiesOf(copiesByISBN, b.isbn) + 1);
        MirrorsAppend(shelf, books, b);
      }
      copiesByISBN := copiesByISBN[b.isbn := CopiesOf(copiesByISBN, b.isbn) + 1];
      books := books + [b];
      shelf := shelf + [ShelfEntry(b.isbn, true)];
    }

    /** The invariant held until `b`, one of the constructed books, changed
        its status to or from AVAILABLE (`nowAvailable` says which), and
        neither the map nor the shelf has followed yet. */
    ghost predicate Lagging(b: Book, nowAvailable: bool)
      reads this, books
    {
      && Distinct(books)
      && IsbnsListed(copiesByISBN, books)
      && Agrees(copiesByISBN, shelf)
      && b in books
      && |shelf| == |books|
      && shelf[IndexOf(books, b)] == ShelfEntry(b.isbn, !nowAvailable)
      && (b.status == Available) == nowAvailable
      && forall k :: 0 <= k < |books| && books[k] != b ==>
           shelf[k] == ShelfEntry(books[k].isbn, books[k].status == Available)
    }

    /** The count update after `b` changed status: `put(isbn, get(isbn) - 1)`
        when it left the shelf, `+ 1` when it came back. */
    method Follow(b: Book, nowAvailable: bool)
      requires b.isbn in copiesByISBN
      modifies this`copiesByISBN, this`shelf
      ensures copiesByISBN == old(copiesByISBN)[b.isbn := old(copiesByISBN)[b.isbn] + Delta(!nowAvailable, nowAvailable)]
      ensures shelf == if old(Lagging(b, nowAvailable))
                       then old(shelf)[IndexOf(books, b) := ShelfEntry(b.isbn, nowAvailable)]
                       else old(shelf)
      ensures old(Lagging(b, nowAvailable)) ==> Valid()
    {
      if Lagging(b, nowAvailable) {
        var k := IndexOf(books, b);
        CopiesFollowFlip(copiesByISBN, shelf, k, nowAvailable);
        shelf := shelf[k := ShelfEntry(b.isbn, nowAvailable)];
      }
      copiesByISBN := copiesByISBN[b.isbn := copiesByISBN[b.isbn] + Delta(!nowAvailable, nowAvailable)];
    }
  }

  /** Under the invariant no copy count is negative. */
  lemma CopiesNeverNegative(inv: Inventory, isbn: string)
    requires inv.Valid()
    ensures isbn in inv.copiesByISBN ==> inv.copiesByISBN[isbn] >= 0
  {
    assert CopiesOf(inv.copiesByISBN, isbn) == OnShelf(inv.shelf, isbn);
  }

  class Book {
    const bookId: int
    const title: string
    const author: Author?
    const isbn: string
    const publisher: string
    var status: Status
    var dueDate: Option<int>

    /** Takes the next book id, starts AVAILABLE with no due date, and puts
        one more copy of its ISBN on the shelf. */
    constructor (title: string, author: Author?, isbn: string, publisher: string,
                 ids: IdCounters, inv: Inventory)
      modifies ids`nextBookId, ids`bookIds, inv`copiesByISBN, inv`books, inv`shelf
      ensures this.title == title && this.author == author
      ensures this.isbn == isbn && this.publisher == publisher
      ensures bookId == old(ids.nextBookId) && ids.nextBookId == old(ids.nextBookId) + 1
      ensures old(ids.Valid()) ==> bookId !in old(ids.bookIds)
      ensures status == Available && dueDate == None
      ensures inv.copiesByISBN == old(inv.copiesByISBN)[isbn := CopiesOf(old(inv.copiesByISBN), isbn) + 1]
      ensures ids.bookIds == old(ids.bookIds) + [bookId] && inv.books == old(inv.books) + [this]
      ensures inv.shelf == old(inv.shelf) + [ShelfEntry(isbn, true)]
      ensures old(ids.Valid()) ==> ids.Valid()
      ensures old(inv.Valid()) ==> inv.Valid()
    {
      var id := ids.IssueBookId();
      bookId := id;
      this.title := title;
      this.author := author;
      this.isbn := isbn;
      this.publisher := publisher;
      status := Available;
      dueDate := None;
      new;
      inv.Register(this);
    }

    /** A patron borrows this book: only an AVAILABLE book moves to
        CHECKED_OUT, due in two weeks, joins the patron's list, and takes one
        copy of its ISBN off the shelf. Otherwise nothing changes. */
    method BorrowBook(patron: Patron, today: int, inv: Inventory) returns (outcome: Outcome)
      requires status == Available ==> isbn in inv.copiesByISBN
      modifies this`status, this`dueDate, patron`borrowedBooks, inv`copiesByISBN, inv`shelf
      ensures outcome == Succeeded <==> old(status) == Available
      ensures outcome == Succeeded ==>
                && status == CheckedOut
                && dueDate == Some(today + LoanDays)
                && patron.borrowedBooks == old(patron.borrowedBooks) + [this]
                && inv.copiesByISBN == old(inv.copiesByISBN)[isbn := old(inv.copiesByISBN)[isbn] - 1]
      ensures outcome == Refused ==>
                && status == old(status) && dueDate == old(dueDate)
                && patron.borrowedBooks == old(patron.borrowedBooks)
                && inv.copiesByISBN == old(inv.copiesByISBN)
      ensures inv.shelf == if outcome == Succeeded && old(inv.Valid()) && this in inv.books
                           then old(inv.shelf)[IndexOf(inv.books, this) := ShelfEntry(isbn, false)]
                           else old(inv.shelf)
      ensures old(inv.Valid()) && this in inv.books ==> inv.Valid()
    {
      if status == Available {
        status := CheckedOut;
        dueDate := Some(today + LoanDays);
        patron.AddBorrowedBook(this);
        inv.Follow(this, false);
        outcome := Succeeded;
      } else {
        outcome := Refused;
      }
    }

    /** The holding patron returns this book: a CHECKED_OUT or OVERDUE book
        the patron holds becomes AVAILABLE, leaves the patron's list once,
        and puts one copy of its ISBN back; its due date is kept. Otherwise
        nothing changes. */
    method ReturnBook(patron: Patron, inv: Inventory) returns (outcome: Outcome)
      requires (status == CheckedOut || status == Overdue) && patron.HasBook(this) ==> isbn in inv.copiesByISBN
      modifies this`status, patron`borrowedBooks, inv`copiesByISBN, inv`shelf
      ensures outcome == Succeeded <==>
                (old(status) == CheckedOut || old(status) == Overdue) && this in old(patron.borrowedBooks)
      ensures outcome == Succeeded ==>
                && status == Available
                && patron.borrowedBooks == RemoveFirst(old(patron.borrowedBooks), this)
                && inv.copiesByISBN == old(inv.copiesByISBN)[isbn := old(inv.copiesByISBN)[isbn] + 1]
      ensures outcome == Refused ==>
                && status == old(status)
                && patron.borrowedBooks == old(patron.borrowedBooks)
                && inv.copiesByISBN == old(inv.copiesByISBN)
      ensures dueDate == old(dueDate)
      ensures inv.shelf == if outcome == Succeeded && old(inv.Valid()) && this in inv.books
                           then old(inv.shelf)[IndexOf(inv.books, this) := ShelfEntry(isbn, true)]
                           else old(inv.shelf)
      ensures old(inv.Valid()) && this in inv.books ==> inv.Valid()
    {
      if (status == CheckedOut || status == Overdue) && patron.HasBook(this) {
        status := Available;
        patron.RemoveBorrowedBook(this);
        inv.Follow(this, true);
        outcome := Succeeded;
      } else {
        outcome := Refused;
      }
    }

    /** `setStatus`: a raw write that bypasses the copy count. */
    method SetStatus(s: Status)
      modifies this`status
      ensures status == s
    {
      status := s;
    }

    /** `setDueDate`: a raw write. */
    method SetDueDate(d: Option<int>)
      modifies this`dueDate
      ensures dueDate == d
    {
      dueDate := d;
    }
  }

  class Patron {
    const patronId: int
    const name: string
    const address: string
    const city: string
    const province: string
    const postalCode: string
    const phone: string
    var borrowedBooks: seq<Book>

    /** Takes the next patron id and starts with no borrowed books. */
    constructor (name: string, address: string, city: string, province: string,
                 postalCode: string, phone: string, ids: IdCounters)
      modifies ids`nextPatronId, ids`patronIds
      ensures this.name == name && this.address == address && this.city == city
      ensures this.province == province && this.postalCode == postalCode && this.phone == phone
      ensures patronId == old(ids.nextPatronId) && ids.nextPatronId == old(ids.nextPatronId) + 1
      ensures old(ids.Valid()) ==> patronId !in old(ids.patronIds)
      ensures borrowedBooks == []
      ensures ids.patronIds == old(ids.patronIds) + [patronId]
      ensures old(ids.Valid()) ==> ids.Valid()
    {
      var id := ids.IssuePatronId();
      patronId := id;
      this.name := name;
      this.address := address;
      this.city := city;
      this.province := province;
      this.postalCode := postalCode;
      this.phone := phone;
      borrowedBooks := [];
    }

    /** Appends `book` to the borrowed list. */
    method AddBorrowedBook(book: Book)
      modifies this`borrowedBooks
      ensures borrowedBooks == old(borrowedBooks) + [book]
    {
      borrowedBooks := borrowedBooks + [book];
    }

    /** Removes the first occurrence of `book`, if any. */
    method RemoveBorrowedBook(book: Book)
      modifies this`borrowedBooks
      ensures borrowedBooks == RemoveFirst(old(borrowedBooks), book)
    {
      borrowedBooks := RemoveFirst(borrowedBooks, book);
    }

    /** The patron holds `book` exactly when removing it would shorten the
        borrowed list. */
    predicate HasBook(book: Book)
      reads this`borrowedBooks
      ensures HasBook(book) <==> |RemoveFirst(borrowedBooks, book)| < |borrowedBooks|
    {
      book in borrowedBooks
    }
  }

  class Author {
    const authorId: int
    const name: string
    const dateOfBirth: string
    var writtenBooks: seq<Book>

    /** Takes the next author id and starts with no written books. */
    constructor (name: string, dateOfBirth: string, ids: IdCounters)
      modifies ids`nextAuthorId, ids`authorIds
      ensures this.name == name && this.dateOfBirth == dateOfBirth
      ensures authorId == old(ids.nextAuthorId) && ids.nextAuthorId == old(ids.nextAuthorId) + 1
      ensures old(ids.Valid()) ==> authorId !in old(ids.authorIds)
      ensures writtenBooks == []
      ensures ids.authorIds == old(ids.authorIds) + [authorId]
      ensures old(ids.Valid()) ==> ids.Valid()
    {
      var id := ids.IssueAuthorId();
      authorId := id;
      this.name := name;
      this.dateOfBirth := dateOfBirth;
      writtenBooks := [];
    }

    /** Appends `book` to the written list. */
    method AddWrittenBook(book: Book)
      modifies this`writtenBooks
      ensures writtenBooks == old(writtenBooks) + [book]
    {
      writtenBooks := writtenBooks + [book];
    }

    /** Removes the first occurrence of `book`, if any. */
    method DeleteWrittenBook(book: Book)
      modifies this`writtenBooks
      ensures writtenBooks == RemoveFirst(old(writtenBooks), book)
    {
      writtenBooks := RemoveFirst(writtenBooks, book);
    }
  }
}
