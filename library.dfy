/** The library registry: the catalog's books, authors and patrons in three
    ordered lists, with add and delete operations that keep the entities'
    back-reference lists in step, the cascade that deletes an author's books,
    the three exact-match searches, and the sweep that marks late books
    OVERDUE. `today` is a day number passed in by the caller. */
module Lending {
  import opened Lists
  import opened Catalog

  /** ASCII `Character.toLowerCase`: no upper-case letter is left, a letter
      stays a letter and anything else is kept. */
  function LowerChar(c: char): (r: char)
    ensures !('A' <= r <= 'Z')
    ensures ('a' <= r <= 'z') <==> ('A' <= c <= 'Z' || 'a' <= c <= 'z')
    ensures !('A' <= c <= 'Z' || 'a' <= c <= 'z') ==> r == c
  {
    if 'A' <= c <= 'Z' then (c as int + 32) as char else c
  }

  /** ASCII `String.toLowerCase`. */
  function Lower(s: string): (r: string)
    ensures |r| == |s|
    ensures forall i :: 0 <= i < |s| ==> r[i] == LowerChar(s[i])
  {
    if s == [] then [] else [LowerChar(s[0])] + Lower(s[1..])
  }

  /** Lower-casing a lower-cased string changes nothing. */
  lemma {:induction false} LowerIdempotent(s: string)
    ensures Lower(Lower(s)) == Lower(s)
  {
    if s != [] {
      LowerIdempotent(s[1..]);
      assert Lower(s) == [LowerChar(s[0])] + Lower(s[1..]);
    }
  }

  /** ASCII `String.equalsIgnoreCase`: same length, and each pair of
      characters is equal, equal in upper case or equal in lower case. */
  predicate EqualsIgnoreCase(a: string, b: string)
  {
    && |a| == |b|
    && forall i :: 0 <= i < |a| ==> a[i] == b[i] || LowerChar(a[i]) == LowerChar(b[i])
  }

  /** The title and author-name test of the searches:
      `x.toLowerCase().equalsIgnoreCase(y.toLowerCase())`. */
  predicate MatchesIgnoringCase(x: string, y: string)
  {
    EqualsIgnoreCase(Lower(x), Lower(y))
  }

  /** The test is exactly equality after lower-casing both sides. */
  lemma {:induction false} MatchesIgnoringCaseIsLowerEquality(x: string, y: string)
    ensures MatchesIgnoringCase(x, y) <==> Lower(x) == Lower(y)
  {
    if MatchesIgnoringCase(x, y) {
      var lx, ly := Lower(x), Lower(y);
      forall i | 0 <= i < |lx|
        ensures lx[i] == ly[i]
      {
        assert LowerChar(lx[i]) == lx[i] && LowerChar(ly[i]) == ly[i];
      }
    }
  }

  /** A title matches itself written in another case. */
  lemma TitleMatchesOtherCase()
    ensures MatchesIgnoringCase("Wish", "wISH")
  {
    assert Lower("Wish") == "wish" == Lower("wISH");
  }

  /** The search is whole-string and letter-exact: a proper part of a title
      does not match it, nor does a title one letter away. */
  lemma TitleMismatches()
    ensures !MatchesIgnoringCase("The Wish", "wish")
    ensures !MatchesIgnoringCase("Wish", "Wash")
  {
    assert Lower("Wish")[1] == 'i' && Lower("Wash")[1] == 'a';
  }

  /** A matching test that only depends on lower-cased text is symmetric. */
  lemma MatchesIgnoringCaseSymmetric(x: string, y: string)
    ensures MatchesIgnoringCase(x, y) <==> MatchesIgnoringCase(y, x)
  {
    MatchesIgnoringCaseIsLowerEquality(x, y);
    MatchesIgnoringCaseIsLowerEquality(y, x);
  }

  /** The test of `searchByTitle`. */
  function TitleMatches(title: string): Book -> bool
  {
    (b: Book) => MatchesIgnoringCase(b.title, title)
  }

  /** The test of `searchByAuthor`; the source dereferences the author. */
  function AuthorNameMatches(name: string): Book -> bool
  {
    (b: Book) => b.author != null && MatchesIgnoringCase(b.author.name, name)
  }

  /** The test of `searchByISBN`: plain, case-sensitive equality. */
  function IsbnIs(isbn: string): Book -> bool
  {
    (b: Book) => b.isbn == isbn
  }

  /** A title search finds exactly the listed books whose title is `title`
      once both are lower-cased. */
  lemma TitleSearchFinds(books: seq<Book>, title: string)
    ensures forall b :: b in Filter(books, TitleMatches(title)) <==> b in books && Lower(b.title) == Lower(title)
  {
    FilterMembers(books, TitleMatches(title));
    forall b | b in books
      ensures MatchesIgnoringCase(b.title, title) <==> Lower(b.title) == Lower(title)
    {
      MatchesIgnoringCaseIsLowerEquality(b.title, title);
    }
  }

  /** An author search finds exactly the listed books whose author's name is
      `name` once both are lower-cased. */
  lemma AuthorSearchFinds(books: seq<Book>, name: string)
    requires forall b :: b in books ==> b.author != null
    ensures forall b :: b in Filter(books, AuthorNameMatches(name)) <==>
              b in books && Lower(b.author.name) == Lower(name)
  {
    FilterMembers(books, AuthorNameMatches(name));
    forall b | b in books
      ensures MatchesIgnoringCase(b.author.name, name) <==> Lower(b.author.name) == Lower(name)
    {
      MatchesIgnoringCaseIsLowerEquality(b.author.name, name);
    }
  }

  /** An ISBN search finds exactly the listed books with that ISBN, and
      keeps them in list order across any split of the list. */
  lemma IsbnSearchFinds(books: seq<Book>, more: seq<Book>, isbn: string)
    ensures forall b :: b in Filter(books, IsbnIs(isbn)) <==> b in books && b.isbn == isbn
    ensures Filter(books + more, IsbnIs(isbn)) == Filter(books, IsbnIs(isbn)) + Filter(more, IsbnIs(isbn))
  {
    FilterMembers(books, IsbnIs(isbn));
    FilterAppend(books, more, IsbnIs(isbn));
  }

  /** The sweep's lateness test on a book's status and due date: it is on
      loan (CHECKED_OUT or OVERDUE), has a due date, and today is after it. */
  predicate PastDue(status: Status, due: Option<int>, today: int)
  {
    (status == CheckedOut || status == Overdue) && due.Some? && today > due.value
  }

  /** What the sweep does to one status: it only ever writes OVERDUE, never
      puts a copy on or takes one off the shelf (so the copy count stays
      right), and leaves lateness as it was. */
  function Swept(status: Status, due: Option<int>, today: int): (r: Status)
    ensures r == Overdue || r == status
    ensures r == Available <==> status == Available
    ensures PastDue(r, due, today) <==> PastDue(status, due, today)
  {
    if PastDue(status, due, today) then Overdue else status
  }

  /** Sweeping a status a second time changes nothing more. */
  lemma SweptIdempotent(status: Status, due: Option<int>, today: int)
    ensures Swept(Swept(status, due, today), due, today) == Swept(status, due, today)
  {
  }

  /** The books of `books` that are late today, in list order (a book listed
      twice is listed twice). This is `Filter` with a test that reads each
      book's status and due date; `Filter` takes heap-free tests only, so
      the recursion is written out here, and `Select` below is the same
      walk over lateness flags taken as a snapshot before the sweep. */
  ghost function LateIn(books: seq<Book>, today: int): (r: seq<Book>)
    reads books
    ensures forall b :: b in r ==> b in books && PastDue(b.status, b.dueDate, today)
    ensures forall b :: b in books && PastDue(b.status, b.dueDate, today) ==> b in r
  {
    if books == [] then []
    else
      var b := books[|books| - 1];
      LateIn(books[..|books| - 1], today) + if PastDue(b.status, b.dueDate, today) then [b] else []
  }

  /** `LateIn` only depends on each listed book's lateness: listing the
      flags by position gives the same sequence as `Select` on them. */
  ghost function Select(books: seq<Book>, keep: seq<bool>): seq<Book>
    requires |keep| == |books|
  {
    if books == [] then []
    else Select(books[..|books| - 1], keep[..|keep| - 1]) + if keep[|keep| - 1] then [books[|books| - 1]] else []
  }

  /** Selecting from a prefix one position longer. */
  lemma SelectOneMore(books: seq<Book>, keep: seq<bool>, i: nat)
    requires |keep| == |books| && i < |books|
    ensures Select(books[..i + 1], keep[..i + 1]) == Select(books[..i], keep[..i]) + if keep[i] then [books[i]] else []
  {
    assert books[..i + 1][..i] == books[..i] && keep[..i + 1][..i] == keep[..i];
  }

  lemma {:induction false} LateInSelects(books: seq<Book>, today: int, keep: seq<bool>)
    requires |keep| == |books|
    requires forall k :: 0 <= k < |books| ==> keep[k] == PastDue(books[k].status, books[k].dueDate, today)
    ensures LateIn(books, today) == Select(books, keep)
    decreases |books|
  {
    if books != [] {
      LateInSelects(books[..|books| - 1], today, keep[..|keep| - 1]);
    }
  }

  /** The status of each listed book, by position. */
  ghost function Statuses(books: seq<Book>): (r: seq<Status>)
    reads books
    ensures |r| == |books|
    ensures forall k :: 0 <= k < |books| ==> r[k] == books[k].status
  {
    if books == [] then [] else Statuses(books[..|books| - 1]) + [books[|books| - 1].status]
  }

  /** The due date of each listed book, by position. */
  ghost function DueDates(books: seq<Book>): (r: seq<Option<int>>)
    reads books
    ensures |r| == |books|
    ensures forall k :: 0 <= k < |books| ==> r[k] == books[k].dueDate
  {
    if books == [] then [] else DueDates(books[..|books| - 1]) + [books[|books| - 1].dueDate]
  }

  /** The lateness flag of each position, for statuses `st` and due dates
      `due`. */
  function Flags(st: seq<Status>, due: seq<Option<int>>, today: int): (r: seq<bool>)
    requires |st| == |due|
    ensures |r| == |st|
    ensures forall k :: 0 <= k < |st| ==> r[k] == PastDue(st[k], due[k], today)
  {
    if st == [] then []
    else
      var n := |st| - 1;
      Flags(st[..n], due[..n], today) + [PastDue(st[n], due[n], today)]
  }

  /** Once every book's status is swept from `st`, the books late now are
      the ones that were late with the statuses `st`. */
  lemma LateAfterSweep(books: seq<Book>, st: seq<Status>, due: seq<Option<int>>, today: int)
    requires |st| == |books| == |due|
    requires forall k :: 0 <= k < |books| ==> books[k].dueDate == due[k]
    requires forall k :: 0 <= k < |books| ==> books[k].status == Swept(st[k], due[k], today)
    ensures LateIn(books, today) == Select(books, Flags(st, due, today))
  {
    forall k | 0 <= k < |books|
      ensures PastDue(books[k].status, books[k].dueDate, today) == PastDue(st[k], due[k], today)
    {
      SweptIdempotent(st[k], due[k], today);
    }
    LateInSelects(books, today, Flags(st, due, today));
  }

  /** How far the sweep over `books` has got: due dates are still `due`,
      every status is still its `st` entry or already swept from it, and the
      first `i` are swept. A book listed twice is swept at its first
      position and left as it is at the later ones. */
  ghost predicate SweptUpTo(books: seq<Book>, st: seq<Status>, due: seq<Option<int>>, i: nat, today: int)
    reads books
  {
    && |st| == |books| == |due| && i <= |books|
    && (forall k :: 0 <= k < |books| ==> books[k].dueDate == due[k])
    && (forall k :: 0 <= k < |books| ==>
          books[k].status == st[k] || books[k].status == Swept(st[k], due[k], today))
    && (forall k :: 0 <= k < i ==> books[k].status == Swept(st[k], due[k], today))
  }

  /** The body of the sweep for the book at position `i`: if it is late it
      becomes OVERDUE, through the raw status setter. */
  method MarkIfLate(books: seq<Book>, i: nat, today: int, ghost st: seq<Status>, ghost due: seq<Option<int>>)
      returns (late: bool)
    requires i < |books| && SweptUpTo(books, st, due, i, today)
    requires forall k :: 0 <= k < |books| && books[k] == books[i] ==> st[k] == st[i]
    modifies {books[i]}`status
    ensures late == PastDue(st[i], due[i], today)
    ensures SweptUpTo(books, st, due, i + 1, today)
  {
    var book := books[i];
    SweptIdempotent(st[i], due[i], today);
    late := PastDue(book.status, book.dueDate, today);
    if late {
      book.SetStatus(Overdue);
    }
    forall k | 0 <= k < |books|
      ensures books[k].status == st[k] || books[k].status == Swept(st[k], due[k], today)
      ensures k <= i ==> books[k].status == Swept(st[k], due[k], today)
    {
      if books[k] == book {
        assert due[k] == due[i];
      }
    }
  }

  /** The loop of `OverdueBookList` over the catalog `books`. */
  method Sweep(books: seq<Book>, today: int) returns (overdue: seq<Book>)
    modifies books`status
    ensures overdue == old(LateIn(books, today))
    ensures forall b :: b in books ==>
              b.status == Swept(old(b.status), old(b.dueDate), today) && b.dueDate == old(b.dueDate)
    ensures LateIn(books, today) == overdue
  {
    ghost var st, due := Statuses(books), DueDates(books);
    ghost var keep := Flags(st, due, today);
    LateInSelects(books, today, keep);
    overdue := [];
    var i := 0;
    while i < |books|
      invariant SweptUpTo(books, st, due, i, today)
      invariant overdue == Select(books[..i], keep[..i])
    {
      SelectOneMore(books, keep, i);
      var late := MarkIfLate(books, i, today, st, due);
      if late {
        overdue := overdue + [books[i]];
      }
      i := i + 1;
    }
    assert books[..i] == books && keep[..i] == keep;
    LateAfterSweep(books, st, due, today);
    forall b | b in books
      ensures b.status == Swept(old(b.status), old(b.dueDate), today)
    {
      var k :| 0 <= k < |books| && books[k] == b;
    }
  }

  /** The cascade's test `book.getAuthor().equals(author)`; authors keep
      Object's reference equality. */
  function WrittenBy(author: Author): Book -> bool
  {
    (b: Book) => b.author == author
  }

  /** The books the cascade keeps. */
  function NotWrittenBy(author: Author): Book -> bool
  {
    (b: Book) => b.author != author
  }

  /** One more book looked at by the cascade goes to exactly one of the two
      filtered lists. */
  lemma CascadeStep(books: seq<Book>, k: nat, author: Author)
    requires k < |books|
    ensures books[k..] == [books[k]] + books[k + 1..]
    ensures Filter(books[..k + 1], WrittenBy(author))
         == Filter(books[..k], WrittenBy(author)) + if books[k].author == author then [books[k]] else []
    ensures Filter(books[..k + 1], NotWrittenBy(author))
         == Filter(books[..k], NotWrittenBy(author)) + if books[k].author == author then [] else [books[k]]
  {
    assert books[..k + 1] == books[..k] + [books[k]];
    FilterSnoc(books[..k], books[k], WrittenBy(author));
    FilterSnoc(books[..k], books[k], NotWrittenBy(author));
  }

  /** After the cascade no remaining book is by `author`, every other book
      remains, and the books removed are exactly the author's. */
  lemma CascadeSplits(books: seq<Book>, author: Author)
    ensures forall b :: b in Filter(books, NotWrittenBy(author)) <==> b in books && b.author != author
    ensures forall b :: b in Filter(books, WrittenBy(author)) <==> b in books && b.author == author
  {
    FilterMembers(books, NotWrittenBy(author));
    FilterMembers(books, WrittenBy(author));
  }

  /** How far the iterator of `deleteAuthor` has got: `k` books of `books0`
      walked, the survivors `kept` and the removed `gone` among them, and
      `books` the list as the iterator sees it. */
  ghost predicate Walked(books0: seq<Book>, k: nat, kept: seq<Book>, gone: seq<Book>, books: seq<Book>, author: Author)
  {
    k <= |books0|
    && kept == Filter(books0[..k], NotWrittenBy(author))
    && gone == Filter(books0[..k], WrittenBy(author))
    && books == kept + books0[k..]
  }

  /** One iterator step over a book that stays. */
  lemma WalkKeep(books0: seq<Book>, k: nat, kept: seq<Book>, gone: seq<Book>, books: seq<Book>, author: Author)
    requires Walked(books0, k, kept, gone, books, author) && |kept| < |books|
    requires books[|kept|].author != author
    ensures Walked(books0, k + 1, kept + [books[|kept|]], gone, books, author)
  {
    CascadeStep(books0, k, author);
  }

  /** One iterator step over a book that is removed. */
  lemma WalkDrop(books0: seq<Book>, k: nat, kept: seq<Book>, gone: seq<Book>, books: seq<Book>, author: Author)
    requires Walked(books0, k, kept, gone, books, author) && |kept| < |books|
    requires books[|kept|].author == author
    ensures Walked(books0, k + 1, kept, gone + [books[|kept|]], books[..|kept|] + books[|kept| + 1..], author)
  {
    CascadeStep(books0, k, author);
    assert books[..|kept|] == kept && books[|kept| + 1..] == books0[k + 1..];
  }

  /** The walk is over once the iterator reaches the end. */
  lemma WalkDone(books0: seq<Book>, k: nat, kept: seq<Book>, gone: seq<Book>, books: seq<Book>, author: Author)
    requires Walked(books0, k, kept, gone, books, author) && |kept| == |books|
    ensures books == Filter(books0, NotWrittenBy(author))
    ensures gone == Filter(books0, WrittenBy(author))
  {
    assert books0[..k] == books0;
  }

  /** The iterator loop of `deleteAuthor`: walks `books0`, and each book by
      `author` is dropped from the author's written books and removed from
      the walked list; the list that remains is returned. */
  method Cascade(books0: seq<Book>, author: Author) returns (books: seq<Book>)
    modifies author
    ensures books == Filter(books0, NotWrittenBy(author))
    ensures author.writtenBooks == RemoveEach(old(author.writtenBooks), Filter(books0, WrittenBy(author)))
  {
    ghost var written0 := author.writtenBooks;
    ghost var kept, gone := [], [];
    ghost var k := 0;
    books := books0;
    var i := 0;
    while i < |books|
      invariant i == |kept| && Walked(books0, k, kept, gone, books, author)
      invariant author.writtenBooks == RemoveEach(written0, gone)
      decreases |books0| - k
    {
      books, i, kept, gone := CascadeAt(books0, author, books, i, k, kept, gone, written0);
      k := k + 1;
    }
    WalkDone(books0, k, kept, gone, books, author);
  }

  /** One turn of the iterator loop of `deleteAuthor`. */
  method CascadeAt(books0: seq<Book>, author: Author, books: seq<Book>, i: nat,
                   ghost k: nat, ghost kept: seq<Book>, ghost gone: seq<Book>, ghost written0: seq<Book>)
      returns (books': seq<Book>, i': nat, ghost kept': seq<Book>, ghost gone': seq<Book>)
    requires i == |kept| < |books| && Walked(books0, k, kept, gone, books, author)
    requires author.writtenBooks == RemoveEach(written0, gone)
    modifies author
    ensures i' == |kept'| && Walked(books0, k + 1, kept', gone', books', author)
    ensures author.writtenBooks == RemoveEach(written0, gone')
  {
    var book := books[i];
    if book.author == author {
      WalkDrop(books0, k, kept, gone, books, author);
      RemoveEachSnoc(written0, gone, book);
      author.DeleteWrittenBook(book);
      books', i', kept', gone' := books[..i] + books[i + 1..], i, kept, gone + [book];
    } else {
      WalkKeep(books0, k, kept, gone, books, author);
      books', i', kept', gone' := books, i + 1, kept + [book], gone;
    }
  }

  class Library {
    var allBooks: seq<Book>
    var allAuthors: seq<Author>
    var allPatrons: seq<Patron>

    /** An empty library. */
    constructor ()
      ensures allBooks == [] && allAuthors == [] && allPatrons == []
    {
      allBooks, allAuthors, allPatrons := [], [], [];
    }

    /** Appends the book to the catalog and, when it has an author, to the
        author's written books. */
    method AddBook(book: Book)
      modifies this`allBooks, book.author
      ensures allBooks == old(allBooks) + [book]
      ensures book.author != null ==> book.author.writtenBooks == old(book.author.writtenBooks) + [book]
    {
      allBooks := allBooks + [book];
      var author := book.author;
      if author != null {
        author.AddWrittenBook(book);
      }
    }

    /** Removes the book's first occurrence from the catalog and from its
        author's written books, then asks every listed patron, in list order,
        to drop one occurrence of it: a patron listed `n` times drops `n`.
        The copy count is not touched. */
    method DeleteBook(book: Book)
      modifies this`allBooks, book.author, allPatrons
      ensures allBooks == RemoveFirst(old(allBooks), book)
      ensures book.author != null ==> book.author.writtenBooks == RemoveFirst(old(book.author.writtenBooks), book)
      ensures forall p :: p in allPatrons ==>
                p.borrowedBooks == RemoveTimes(old(p.borrowedBooks), book, Count(allPatrons, p))
    {
      allBooks := RemoveFirst(allBooks, book);
      var author := book.author;
      if author != null {
        author.DeleteWrittenBook(book);
      }
      ForgetBorrowed(book);
    }

    /** The loop of `deleteBook` over the patron list: each listed patron,
        in list order, drops one occurrence of `book`. */
    method ForgetBorrowed(book: Book)
      modifies allPatrons
      ensures forall p :: p in allPatrons ==>
                p.borrowedBooks == RemoveTimes(old(p.borrowedBooks), book, Count(allPatrons, p))
    {
      var patrons := allPatrons;
      var i := 0;
      while i < |patrons|
        invariant 0 <= i <= |patrons| && allPatrons == patrons
        invariant forall p :: p in patrons ==>
                    p.borrowedBooks == RemoveTimes(old(p.borrowedBooks), book, Count(patrons[..i], p))
      {
        var patron := patrons[i];
        patron.RemoveBorrowedBook(book);
        forall p | p in patrons
          ensures p.borrowedBooks == RemoveTimes(old(p.borrowedBooks), book, Count(patrons[..i + 1], p))
        {
          CountOneMore(patrons, i, p);
        }
        i := i + 1;
      }
      assert patrons[..i] == patrons;
      forall p | p in allPatrons
        ensures p.borrowedBooks == RemoveTimes(old(p.borrowedBooks), book, Count(allPatrons, p))
      {
        assert p in patrons;
      }
    }

    /** Appends the author to the author list. */
    method AddAuthor(author: Author)
      modifies this`allAuthors
      ensures allAuthors == old(allAuthors) + [author]
    {
      allAuthors := allAuthors + [author];
    }

    /** The cascade: walks the catalog with an iterator, and each book by
        `author` is dropped from the author's written books and removed from
        the catalog through the iterator; then the author leaves the author
        list. Every catalogued book must have an author, as the comparison
        dereferences it. */
    method DeleteAuthor(author: Author)
      requires forall b :: b in allBooks ==> b.author != null
      modifies this`allBooks, this`allAuthors, author
      ensures allBooks == Filter(old(allBooks), NotWrittenBy(author))
      ensures author.writtenBooks == RemoveEach(old(author.writtenBooks), Filter(old(allBooks), WrittenBy(author)))
      ensures allAuthors == RemoveFirst(old(allAuthors), author)
    {
      var books := Cascade(allBooks, author);
      allBooks := books;
      allAuthors := RemoveFirst(allAuthors, author);
    }

    /** Appends the patron to the patron list. */
    method AddPatron(patron: Patron)
      modifies this`allPatrons
      ensures allPatrons == old(allPatrons) + [patron]
    {
      allPatrons := allPatrons + [patron];
    }

    /** Marks every book the patron holds OVERDUE, through the raw status
        setter, and removes the patron's first occurrence from the patron
        list. The patron keeps the books in its list; due dates and the copy
        count are not touched. */
    method DeletePatron(patron: Patron)
      modifies this`allPatrons, patron.borrowedBooks
      ensures forall b :: b in old(patron.borrowedBooks) ==> b.status == Overdue && b.dueDate == old(b.dueDate)
      ensures allPatrons == RemoveFirst(old(allPatrons), patron)
    {
      var held := patron.borrowedBooks;
      if held != [] {
        var i := 0;
        while i < |held|
          invariant 0 <= i <= |held|
          invariant forall b :: b in held ==> b.dueDate == old(b.dueDate)
          invariant forall j :: 0 <= j < i ==> held[j].status == Overdue
          invariant allPatrons == old(allPatrons)
        {
          held[i].SetStatus(Overdue);
          i := i + 1;
        }
      }
      allPatrons := RemoveFirst(allPatrons, patron);
    }

    /** The catalogued books whose title matches `title` ignoring case, in
        catalog order. */
    method SearchByTitle(title: string) returns (result: seq<Book>)
      ensures result == Filter(allBooks, TitleMatches(title))
    {
      result := [];
      var i := 0;
      while i < |allBooks|
        invariant 0 <= i <= |allBooks|
        invariant result == Filter(allBooks[..i], TitleMatches(title))
      {
        var book := allBooks[i];
        assert allBooks[..i + 1][..i] == allBooks[..i];
        if MatchesIgnoringCase(book.title, title) {
          result := result + [book];
        }
        i := i + 1;
      }
      assert allBooks[..i] == allBooks;
    }

    /** The catalogued books whose author's name matches `name` ignoring
        case, in catalog order. Every catalogued book must have an author. */
    method SearchByAuthor(name: string) returns (result: seq<Book>)
      requires forall b :: b in allBooks ==> b.author != null
      ensures result == Filter(allBooks, AuthorNameMatches(name))
    {
      result := [];
      var i := 0;
      while i < |allBooks|
        invariant 0 <= i <= |allBooks|
        invariant result == Filter(allBooks[..i], AuthorNameMatches(name))
      {
        var book := allBooks[i];
        assert allBooks[..i + 1][..i] == allBooks[..i];
        if MatchesIgnoringCase(book.author.name, name) {
          result := result + [book];
        }
        i := i + 1;
      }
      assert allBooks[..i] == allBooks;
    }

    /** The catalogued books whose ISBN is exactly `isbn` (case counts), in
        catalog order. */
    method SearchByIsbn(isbn: string) returns (result: seq<Book>)
      ensures result == Filter(allBooks, IsbnIs(isbn))
    {
      result := [];
      var i := 0;
      while i < |allBooks|
        invariant 0 <= i <= |allBooks|
        invariant result == Filter(allBooks[..i], IsbnIs(isbn))
      {
        var book := allBooks[i];
        assert allBooks[..i + 1][..i] == allBooks[..i];
        if book.isbn == isbn {
          result := result + [book];
        }
        i := i + 1;
      }
      assert allBooks[..i] == allBooks;
    }

    /** Hands over to the book's own borrow transition. */
    method BorrowBook(patron: Patron, book: Book, today: int, inv: Inventory) returns (outcome: Outcome)
      requires book.status == Available ==> book.isbn in inv.copiesByISBN
      modifies book`status, book`dueDate, patron`borrowedBooks, inv`copiesByISBN, inv`shelf
      ensures outcome == Succeeded <==> old(book.status) == Available
      ensures outcome == Succeeded ==>
                && book.status == CheckedOut
                && book.dueDate == Some(today + LoanDays)
                && patron.borrowedBooks == old(patron.borrowedBooks) + [book]
                && inv.copiesByISBN == old(inv.copiesByISBN)[book.isbn := old(inv.copiesByISBN)[book.isbn] - 1]
      ensures outcome == Refused ==>
                && book.status == old(book.status) && book.dueDate == old(book.dueDate)
                && patron.borrowedBooks == old(patron.borrowedBooks)
                && inv.copiesByISBN == old(inv.copiesByISBN)
      ensures old(inv.Valid()) && book in inv.books ==> inv.Valid()
    {
      outcome := book.BorrowBook(patron, today, inv);
    }

    /** Hands over to the book's own return transition. */
    method ReturnBook(patron: Patron, book: Book, inv: Inventory) returns (outcome: Outcome)
      requires (book.status == CheckedOut || book.status == Overdue) && patron.HasBook(book) ==> book.isbn in inv.copiesByISBN
      modifies book`status, patron`borrowedBooks, inv`copiesByISBN, inv`shelf
      ensures outcome == Succeeded <==>
                (old(book.status) == CheckedOut || old(book.status) == Overdue) && book in old(patron.borrowedBooks)
      ensures outcome == Succeeded ==>
                && book.status == Available
                && patron.borrowedBooks == RemoveFirst(old(patron.borrowedBooks), book)
                && inv.copiesByISBN == old(inv.copiesByISBN)[book.isbn := old(inv.copiesByISBN)[book.isbn] + 1]
      ensures outcome == Refused ==>
                && book.status == old(book.status)
                && patron.borrowedBooks == old(patron.borrowedBooks)
                && inv.copiesByISBN == old(inv.copiesByISBN)
      ensures book.dueDate == old(book.dueDate)
      ensures old(inv.Valid()) && book in inv.books ==> inv.Valid()
    {
      outcome := book.ReturnBook(patron, inv);
    }

    /** The sweep of `OverdueBookList`: every catalogued book that is late
        today becomes OVERDUE and is collected, in catalog order; no other
        status and no due date changes. Afterwards the books that are late
        are exactly the ones collected. */
    method OverdueBookList(today: int) returns (overdue: seq<Book>)
      modifies allBooks
      ensures overdue == old(LateIn(allBooks, today))
      ensures forall b :: b in allBooks ==>
                b.status == Swept(old(b.status), old(b.dueDate), today) && b.dueDate == old(b.dueDate)
      ensures LateIn(allBooks, today) == overdue
    {
      overdue := Sweep(allBooks, today);
    }
  }

  /** Running the sweep twice on the same day: the second run collects the
      same books, and leaves every book as the first run left it. */
  method SweepTwice(library: Library, today: int) returns (first: seq<Book>, second: seq<Book>)
    modifies library.allBooks
    ensures second == first
    ensures forall b :: b in library.allBooks ==>
              b.status == Swept(old(b.status), old(b.dueDate), today) && b.dueDate == old(b.dueDate)
  {
    first := library.OverdueBookList(today);
    second := library.OverdueBookList(today);
    forall b | b in library.allBooks
      ensures b.status == Swept(old(b.status), old(b.dueDate), today)
    {
      SweptIdempotent(old(b.status), old(b.dueDate), today);
    }
  }
}
