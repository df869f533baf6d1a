# Lending library core, modelled in Dafny

This project models the core of a small Java lending library:

- `Book`: a three-state loan life cycle (AVAILABLE, CHECKED_OUT, OVERDUE). A borrow sets a due date two weeks ahead.
- `Patron`: the list of books the patron holds.
- `Author`: the list of books the author wrote.
- `Library`: the registry that keeps three ordered lists of books, authors and patrons.

The Java code keeps two kinds of shared state in static fields: the per-ISBN count of copies on the shelf (`copiesByISBN`) and the three `nextId` counters. The model makes that state explicit:

- The copy count is `Catalog.Inventory`.
- The counters are `Catalog.IdCounters`.

Each is an object passed to the constructors and transitions that read or update it.

The model is imperative, like the source. Books, patrons, authors and the library are classes whose fields the methods update in place, and the Java loops are `while` loops with invariants. Each loop is proved against a function on sequences:

- `Lists.RemoveFirst` is `ArrayList.remove(Object)`.
- `Lists.RemoveTimes` is that removal repeated.
- `Lists.RemoveEach` removes each listed element in turn.
- `Lists.Filter` keeps the elements that pass a test, in order.
- `Lending.LateIn` lists the books that are late.

Lemmas then prove what the functions promise.

The copy-count invariant is `Catalog.Inventory.Valid`. It says that, for every ISBN, the map holds the number of constructed books with that ISBN that are AVAILABLE. The constructor, borrow and return keep it; the raw `setStatus` does not.

Modules and files:
- `lists.dfy` (`Lists`): the `ArrayList` operations.
- `catalog.dfy` (`Catalog`): the entities, the copy count and the id counters.
- `library.dfy` (`Lending`): the registry, the searches, the author cascade and the overdue sweep.

The model follows the code as written:
- `returnBook` leaves the due date as it was; it is not cleared.
- `searchByISBN` compares ISBNs case-sensitively.
- A book's copy is counted when it is constructed, not when it is added to the library.

## Model

| member | source | states |
|---|---|---|
| Lists.RemoveFirst | Patron.java:202-204 | `remove(Object)` returns the list unchanged when the element is absent, and one element shorter when it is present |
| Lists.RemoveFirstCounts | Patron.java:202-204 | removal takes away exactly one occurrence of the element, if there is one, and nothing else (as multisets) |
| Lists.RemoveFirstSplits | Author.java:98-100 | removal cuts the list at the first occurrence, and the elements before and after keep their order |
| Lists.AppendThenRemove | Patron.java:192-204 | adding a book that was not in the list and then removing it gives back the original list |
| Lists.CountIsMultiplicity | Library.java:84-86 | the number of times a patron is listed is its multiplicity in the patron list |
| Lists.RemoveTimesCounts | Library.java:84-86 | removing a book n times takes away n occurrences (all of them when there are no more than n) and leaves every other book's count alone |
| Lists.RemoveEachCounts | Library.java:110-116 | removing each book of a list in turn takes away one occurrence per listed book, as far as occurrences remain |
| Lists.FilterMembers | Library.java:155-163 | the books kept are exactly the listed books that pass the test |
| Lists.FilterAppend | Library.java:157-161 | filtering a concatenation is the concatenation of the filtered parts, so list order is preserved |
| Catalog.CopiesFollowNewCopy | Book.java:40-41 | adding a new available copy of an ISBN and adding 1 to its map entry (0 if absent) keeps the map equal to the per-ISBN shelf count |
| Catalog.CopiesFollowFlip | Book.java:199 | when one book's availability flips and its ISBN's entry moves by the same ±1, the map still equals the per-ISBN shelf count |
| Catalog.IssueNext | Book.java:13 | handing out `nextId` and incrementing it gives an id not handed out before, and the issued ids stay strictly increasing and below the counter |
| Catalog.IdCounters.constructor | Book.java:13 | every counter starts at 1 with no ids issued, and the no-repeat invariant holds |
| Catalog.IdCounters.IssueBookId | Book.java:33 | returns the old `nextId` and increments it; the id was not issued before, and the invariant is kept |
| Catalog.IdCounters.IssueAuthorId | Author.java:25 | the same for authors |
| Catalog.IdCounters.IssuePatronId | Patron.java:36 | the same for patrons |
| Catalog.Inventory.constructor | Book.java:11 | the map starts empty and the copy-count invariant holds |
| Catalog.Inventory.Register | Book.java:40-41 | the ISBN's count goes up by exactly 1, from 0 if unseen, and the invariant is kept for a new AVAILABLE book |
| Catalog.Inventory.Follow | Book.java:218 | the ISBN's count moves by exactly −1 or +1, and the invariant is restored after the book's status changed |
| Catalog.CopiesNeverNegative | Book.java:199 | under the invariant no ISBN's count is negative, even though the decrement has no guard |
| Catalog.Book.constructor | Book.java:31-42 | the fields are stored, the book gets the next id (fresh, one more than the last), starts AVAILABLE with no due date, adds 1 to its ISBN's count, and both invariants are kept |
| Catalog.Book.BorrowBook | Book.java:193-204 | succeeds iff the book was AVAILABLE; it then becomes CHECKED_OUT, is due today + 14, is appended to the patron's list and its ISBN's count drops by 1; otherwise status, due date, patron list and map are unchanged; the copy-count invariant is kept |
| Catalog.Book.ReturnBook | Book.java:213-223 | succeeds iff the book was CHECKED_OUT or OVERDUE and the patron held it; it then becomes AVAILABLE, one occurrence leaves the patron's list and the count rises by 1; otherwise nothing changes; the due date is kept either way; the invariant is kept |
| Catalog.Book.SetStatus | Book.java:160-162 | a raw status write |
| Catalog.Book.SetDueDate | Book.java:180-182 | a raw due-date write |
| Catalog.Patron.constructor | Patron.java:34-44 | the fields are stored, the patron gets a fresh id from the counter, which is incremented, and the borrowed list starts empty |
| Catalog.Patron.AddBorrowedBook | Patron.java:192-194 | the book is appended at the end and the earlier entries are unchanged |
| Catalog.Patron.RemoveBorrowedBook | Patron.java:202-204 | only the first occurrence is removed; the list is unchanged if the book is absent |
| Catalog.Patron.HasBook | Patron.java:213-215 | true iff removing the book would shorten the borrowed list, that is, iff the book is in it |
| Catalog.Author.constructor | Author.java:23-29 | the fields are stored, the author gets a fresh id from the counter, which is incremented, and the written list starts empty |
| Catalog.Author.AddWrittenBook | Author.java:87-89 | the book is appended at the end and the earlier entries are unchanged |
| Catalog.Author.DeleteWrittenBook | Author.java:98-100 | only the first occurrence is removed; the list is unchanged if the book is absent |
| Lending.LowerChar | Library.java:158 | ASCII `toLowerCase` on one character leaves no upper-case letter, keeps a letter a letter, and keeps every non-letter as it is |
| Lending.Lower | Library.java:158 | lower-casing keeps the length and lower-cases each position |
| Lending.LowerIdempotent | Library.java:158 | lower-casing an already lower-cased string changes nothing |
| Lending.MatchesIgnoringCaseIsLowerEquality | Library.java:158 | the title test holds iff the two strings are equal once both are lower-cased |
| Lending.MatchesIgnoringCaseSymmetric | Library.java:175 | the name test does not depend on which side is the query |
| Lending.TitleMatchesOtherCase | Library.java:155-163 | "Wish" matches "wISH" |
| Lending.TitleMismatches | Library.java:155-163 | the substring "wish" does not match "The Wish", and "Wash" does not match "Wish" |
| Lending.TitleSearchFinds | Library.java:155-163 | a title search finds exactly the listed books whose lower-cased title equals the lower-cased query |
| Lending.AuthorSearchFinds | Library.java:172-180 | an author search finds exactly the listed books whose author's lower-cased name equals the lower-cased query |
| Lending.IsbnSearchFinds | Library.java:189-197 | an ISBN search finds exactly the listed books with that exact ISBN, and keeps list order |
| Lending.Swept | Library.java:228-229 | the sweep writes only OVERDUE, never turns a status into or out of AVAILABLE (so the copy count is unaffected), and a status is late after the sweep iff it was late before |
| Lending.SweptIdempotent | Library.java:225-232 | sweeping again on the same day changes nothing |
| Lending.LateIn | Library.java:227-231 | the books collected are exactly the listed books that are late today |
| Lending.LateAfterSweep | Library.java:225-232 | once every book is swept, the books late now are the ones that were late before the sweep |
| Lending.MarkIfLate | Library.java:228-230 | a book reported late was late, and it is then OVERDUE; otherwise it is unchanged |
| Lending.Sweep | Library.java:226-232 | collects the late books in catalog order, sweeps every status, leaves due dates alone, and afterwards the late books are exactly the ones collected |
| Lending.SweepTwice | Library.java:225-232 | a second sweep on the same day collects the same list, and every status is as one sweep left it |
| Lending.CascadeSplits | Library.java:107-116 | after the cascade no remaining book is by the author and every other book remains; the books removed are exactly the author's |
| Lending.Cascade | Library.java:109-116 | the iterator loop leaves the books not by the author, in order, and removes each removed book from the author's list once |
| Lending.CascadeAt | Library.java:111-115 | one iterator step keeps the walk's invariant, whether the book is kept or removed |
| Lending.Library.constructor | Library.java:22-26 | the three lists start empty |
| Lending.Library.AddBook | Library.java:64-70 | the book is appended to the catalog and, when it has an author, to that author's written list; nothing else changes |
| Lending.Library.DeleteBook | Library.java:78-87 | the first occurrence leaves the catalog and the author's list; each patron drops one occurrence per time it is listed; the copy count is untouched |
| Lending.Library.ForgetBorrowed | Library.java:84-86 | each listed patron drops the book once per listing, in list order |
| Lending.Library.AddAuthor | Library.java:95-97 | the author is appended |
| Lending.Library.DeleteAuthor | Library.java:107-120 | the catalog keeps exactly the books not by the author, in order; the author's list loses each removed book once; the author's first occurrence leaves the author list |
| Lending.Library.AddPatron | Library.java:128-130 | the patron is appended |
| Lending.Library.DeletePatron | Library.java:138-146 | every book the patron held is OVERDUE with its due date unchanged, and the patron's first occurrence leaves the patron list; the patron's own list and the copy count are untouched |
| Lending.Library.SearchByTitle | Library.java:155-163 | the result is the catalog filtered by the case-insensitive whole-title test, in catalog order |
| Lending.Library.SearchByAuthor | Library.java:172-180 | the result is the catalog filtered by the case-insensitive author-name test, in catalog order |
| Lending.Library.SearchByIsbn | Library.java:189-197 | the result is the catalog filtered by exact, case-sensitive ISBN equality, in catalog order |
| Lending.Library.BorrowBook | Library.java:206-208 | exactly the book's borrow transition, with no other effect |
| Lending.Library.ReturnBook | Library.java:217-219 | exactly the book's return transition, with no other effect |
| Lending.Library.OverdueBookList | Library.java:225-232 | the returned list is the catalog's late books in catalog order; late books become OVERDUE and nothing else changes; afterwards the late books are exactly the ones returned |

## Left out

- The console driver (`TestLibrary.java`) is not modelled. It is input and output only.
- The `toString` methods and the printing half of `OverdueBookList` are not modelled. They only format text.
- The messages that `borrowBook`/`returnBook` print become the `Outcome` result (`Succeeded` or `Refused`).
- `LocalDate.now()` becomes an integer day-number parameter `today`. `plusWeeks(2)` is `+ 14` days, and `isAfter` is `>` on day numbers.
- Java's Unicode `toLowerCase`/`equalsIgnoreCase` is replaced by ASCII lower-casing. Case mappings outside A–Z are not modelled.
- Plain string getters and setters (names, addresses, publisher, date of birth) are not modelled. Those fields are constants in the model.
- `setISBN` and `setAuthor` are not modelled, so a book's ISBN and author are constants. `setTitle` and `setPublisher` are left out the same way.
- The getters that return live `ArrayList`s (`getBorrowedBooks`, `getWrittenBooks`, `getAllBooks` and the others) are plain field reads. Changes made through an aliased list are not modelled.
- `getCopiesByISBN` is a read of `Inventory.copiesByISBN`.
- The `int` id counters are unbounded. The 32-bit wrap-around after 2^31 − 1 ids is not modelled.
- Null arguments to the `Library` methods are excluded by Dafny's non-null types. Only a book's author may be null in the model. The entity constructors also take non-null strings, although Java would accept a null title, name or ISBN and then throw later in `searchByTitle`, `searchByAuthor` or `searchByISBN`.
- Lending.Library.DeleteAuthor: requires every catalogued book to have an author. The source throws a NullPointerException at the first book without one, after removing the earlier matches; that partial run is not modelled.
- Lending.Library.SearchByAuthor: requires every catalogued book to have an author, because the source dereferences it.
- Catalog.Book.BorrowBook: requires the ISBN to be in the map when the book is AVAILABLE, because the source unboxes a missing entry and throws.
- Catalog.Book.ReturnBook: requires the ISBN to be in the map when the return would go ahead, for the same reason.
- Catalog.Inventory.Valid: the copy-count invariant covers books built through `Catalog.Book.constructor` against the same `Inventory`, and only borrow and return. `SetStatus` bypasses it, as in the source.
- The entity classes do not override `equals`, so every list operation compares by reference, as the model does.
