/**
 * index.php, the member page: the borrow handler and the member's own return
 * handler. Each request is one call; `today` and `now` are the clock's date
 * and timestamp, and `fault` stands for the store raising an error inside the
 * transaction, which the page catches and rolls back.
 */
module MemberPage {
  import opened Php
  import opened Config
  import opened Tables

  /** The `$msg` the page ends up with, by branch; NoNotice is `$msg = null`. */
  datatype Notice =
    | NoNotice
    | BookIssued
    | IssueFailed
    | NoCopiesAvailable
    | ReturnedOnTime
    | ReturnedLate(fine: nat)
    | ReturnFailed

  /** The message's 'type' is 'error'; a late return is shown as one. */
  predicate IsError(n: Notice) {
    n.IssueFailed? || n.NoCopiesAvailable? || n.ReturnedLate? || n.ReturnFailed?
  }

  /** The fine a notice reports. */
  function ReportedFine(n: Notice): nat {
    if n.ReturnedLate? then n.fine else 0
  }

  /** Both handlers run only for a logged-in member who is not the admin. */
  predicate MayCirculate(s: Session) {
    IsLoggedIn(s) && !IsAdmin(s)
  }

  /** The handler for `?borrow_id=bookId`. */
  method Borrow(db: LibraryDb, session: Session, bookId: int, today: Day, now: Timestamp, fault: bool)
    returns (notice: Notice)
    requires db.Valid()
    modifies db
    ensures db.Valid()
    ensures notice == NoNotice <==> !MayCirculate(session) || bookId !in old(db.books)
    ensures notice == NoCopiesAvailable <==>
      MayCirculate(session) && bookId in old(db.books) && old(db.books)[bookId].availableCopies <= 0
    ensures notice == IssueFailed <==>
      MayCirculate(session) && bookId in old(db.books) && old(db.books)[bookId].availableCopies > 0 && fault
    ensures notice == BookIssued <==>
      MayCirculate(session) && bookId in old(db.books) && old(db.books)[bookId].availableCopies > 0 && !fault
    ensures IsError(notice) <==>
      MayCirculate(session) && bookId in old(db.books) && (old(db.books)[bookId].availableCopies <= 0 || fault)
    ensures notice != BookIssued ==> db.books == old(db.books) && db.borrows == old(db.borrows)
    ensures db.nextBookId == old(db.nextBookId)
    ensures db.nextLoanId == old(db.nextLoanId) + (if notice == BookIssued || notice == IssueFailed then 1 else 0)
    ensures notice == BookIssued ==>
      var id := old(db.nextLoanId);
      && id !in old(db.borrows)
      && db.borrows == old(db.borrows)[id := NewLoan(session.userId.value, bookId, today + LoanPeriodDays, now)]
      && db.books == Bump(old(db.books), bookId, -1)
    ensures forall b :: b in old(db.books) ==>
      b in db.books && Stock(db.books, db.borrows, b) == Stock(old(db.books), old(db.borrows), b)
    ensures SumFines(db.borrows) == SumFines(old(db.borrows))
  {
    notice := NoNotice;
    if !IsAdmin(session) && IsLoggedIn(session) {
      var available := db.AvailableCopies(bookId);
      if available.Some? {
        if available.value > 0 {
          var userId := session.userId.value;
          var due := today + LoanPeriodDays;
          var books0, borrows0 := db.books, db.borrows;
          var id := db.InsertLoan(userId, bookId, due, now);
          db.AddAvailable(bookId, -1);
          if fault {
            db.Rollback(books0, borrows0);
            notice := IssueFailed;
          } else {
            notice := BookIssued;
            var l := NewLoan(userId, bookId, due, now);
            forall b | b in books0
              ensures Stock(db.books, db.borrows, b) == Stock(books0, borrows0, b)
            {
              IssuedCountAfterInsert(borrows0, id, l, b);
            }
            SumFinesAfterInsert(borrows0, id, l);
          }
        } else {
          notice := NoCopiesAvailable;
        }
      }
    }
  }

  /** The handler for `?return_borrow_id=loanId` on the member page: only the
      member's own loans, and only while they are out. */
  method MemberReturn(db: LibraryDb, session: Session, loanId: int, today: Day, now: Timestamp, fault: bool)
    returns (notice: Notice)
    requires db.Valid()
    modifies db
    ensures db.Valid()
    ensures notice == NoNotice <==> !MayCirculate(session) || !IsOpen(old(db.borrows), loanId, session.userId)
    ensures notice == ReturnFailed <==>
      MayCirculate(session) && IsOpen(old(db.borrows), loanId, session.userId) && fault
    ensures notice.ReturnedOnTime? || notice.ReturnedLate? <==>
      MayCirculate(session) && IsOpen(old(db.borrows), loanId, session.userId) && !fault
    ensures IsError(notice) <==>
      MayCirculate(session) && IsOpen(old(db.borrows), loanId, session.userId)
      && (fault || CalculateFine(old(db.borrows)[loanId].dueDate, today) > 0)
    ensures !(notice.ReturnedOnTime? || notice.ReturnedLate?) ==>
      db.books == old(db.books) && db.borrows == old(db.borrows)
    ensures db.nextBookId == old(db.nextBookId) && db.nextLoanId == old(db.nextLoanId)
    ensures notice.ReturnedOnTime? || notice.ReturnedLate? ==>
      var l := old(db.borrows)[loanId];
      var fine := CalculateFine(l.dueDate, today);
      && db.borrows == old(db.borrows)[loanId := MarkedReturned(l, now, fine)]
      && db.books == Bump(old(db.books), l.bookId, 1)
      && notice == (if fine > 0 then ReturnedLate(fine) else ReturnedOnTime)
    ensures forall b :: b in old(db.books) ==>
      b in db.books && Stock(db.books, db.borrows, b) == Stock(old(db.books), old(db.borrows), b)
    ensures SumFines(db.borrows) == SumFines(old(db.borrows)) + ReportedFine(notice)
  {
    notice := NoNotice;
    if IsLoggedIn(session) && !IsAdmin(session) {
      var userId := session.userId.value;
      var found := db.FindIssued(loanId, Some(userId));
      if found.Some? {
        var fine := CalculateFine(found.value.dueDate, today);
        var committed := ReturnTransaction(db, loanId, fine, now, fault);
        if committed {
          notice := if fine > 0 then ReturnedLate(fine) else ReturnedOnTime;
        } else {
          notice := ReturnFailed;
        }
      }
    }
  }
}
