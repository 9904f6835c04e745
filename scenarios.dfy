/**
 * Concrete request sequences against a fresh database, checked from the
 * handlers' contracts alone.
 */
module Scenarios {
  import opened Php
  import opened Config
  import opened Tables
  import MemberPage
  import AdminPage

  /** A fresh database with one title of the given number of copies, added
      by the admin; it gets id 1. */
  method OneTitle(copies: int) returns (db: LibraryDb)
    requires 0 < copies
    ensures fresh(db) && db.Valid()
    ensures db.books == map[1 := Book("Dune", "Herbert", "Fiction", "", copies, copies)]
    ensures db.borrows == map[]
    ensures db.nextBookId == 2 && db.nextLoanId == 1
  {
    db := new LibraryDb();
    TrimKeepsTrimmed("Dune");
    TrimKeepsTrimmed("Herbert");
    TrimKeepsTrimmed("Fiction");
    TrimKeepsTrimmed("");
    var n := AdminPage.AddBook(db, Session(Some(1), Some("admin")), "Dune", "Herbert", "Fiction", "", copies, false);
  }

  /** One copy and two members: the first borrow takes the copy with a due
      date a week out, the second finds none; the other member cannot return
      the loan; returning it three days late costs 15; returning it again
      changes nothing. */
  method OneCopyTwoMembers(today: Day, now: Timestamp)
  {
    var db := OneTitle(1);
    var alice := Session(Some(2), Some("user"));
    var bob := Session(Some(3), Some("user"));

    var m := MemberPage.Borrow(db, alice, 1, today, now, false);
    assert m == MemberPage.BookIssued;
    assert db.books[1].availableCopies == 0;
    assert db.borrows[1].status == Issued && db.borrows[1].dueDate == today + 7;

    m := MemberPage.Borrow(db, bob, 1, today, now, false);
    assert m == MemberPage.NoCopiesAvailable && db.books[1].availableCopies == 0;

    m := MemberPage.MemberReturn(db, bob, 1, today + 10, now, false);
    assert m == MemberPage.NoNotice && db.borrows[1].status == Issued;

    m := MemberPage.MemberReturn(db, alice, 1, today + 10, now, false);
    assert m == MemberPage.ReturnedLate(15);
    assert db.books[1].availableCopies == 1 && db.borrows[1].fineAmount == 15;

    m := MemberPage.MemberReturn(db, alice, 1, today + 11, now, false);
    assert m == MemberPage.NoNotice && db.books[1].availableCopies == 1;
  }

  /** A failing store rolls the borrow back whole, and the admin cannot
      borrow at all. */
  method RolledBackBorrow(today: Day, now: Timestamp)
  {
    var db := OneTitle(2);
    var m := MemberPage.Borrow(db, Session(Some(2), Some("user")), 1, today, now, true);
    assert m == MemberPage.IssueFailed && db.borrows == map[] && db.books[1].availableCopies == 2;
    m := MemberPage.Borrow(db, Session(Some(1), Some("admin")), 1, today, now, false);
    assert m == MemberPage.NoNotice && db.borrows == map[];
  }

  /** The admin sets a book's available count back to its total while a copy
      is out; when that copy is returned the book shows more copies
      available than it has. */
  method EditThenReturn(today: Day, now: Timestamp)
  {
    var db := OneTitle(1);
    var admin := Session(Some(1), Some("admin"));
    var m := MemberPage.Borrow(db, Session(Some(2), Some("user")), 1, today, now, false);
    assert db.books[1].availableCopies == 0;

    var a := AdminPage.UpdateBook(db, admin, 1, "Dune", "Herbert", "Fiction", "", 1, 1, false);
    assert a == AdminPage.BookUpdated && db.books[1].availableCopies == 1;

    a := AdminPage.AdminReturn(db, admin, 1, today, now, false);
    assert a == AdminPage.MarkedAsReturned(0);
    assert db.books[1].availableCopies == 2 && db.books[1].totalCopies == 1;
  }

  /** Deleting a book with a copy out leaves the loan; returning it later
      still closes the loan and touches no book. */
  method DeleteWithLoanOut(today: Day, now: Timestamp)
  {
    var db := OneTitle(1);
    var alice := Session(Some(2), Some("user"));
    var m := MemberPage.Borrow(db, alice, 1, today, now, false);
    var a := AdminPage.DeleteBook(db, Session(Some(1), Some("admin")), 1, false);
    assert db.books == map[] && 1 in db.borrows && db.borrows[1].bookId == 1;

    m := MemberPage.MemberReturn(db, alice, 1, today + 7, now, false);
    assert m == MemberPage.ReturnedOnTime && db.borrows[1].status == Returned && db.books == map[];
  }

  /** A DELETE that fails still shows "Book deleted.", and the book is still
      there to borrow. */
  method FailedDeleteReported(today: Day, now: Timestamp)
  {
    var db := OneTitle(1);
    var a := AdminPage.DeleteBook(db, Session(Some(1), Some("admin")), 1, true);
    assert a == AdminPage.BookDeleted && 1 in db.books;
    var m := MemberPage.Borrow(db, Session(Some(2), Some("user")), 1, today, now, false);
    assert m == MemberPage.BookIssued;
  }
}
