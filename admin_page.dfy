/**
 * admin.php, the admin panel: catalog edits (add, delete, update a book), the
 * admin's mark-as-returned, and the dashboard's aggregate counts. The page
 * redirects anyone who is not a logged-in admin before any handler runs.
 */
module AdminPage {
  import opened Php
  import opened Config
  import opened Tables

  /** The `$msg` the panel ends up with, by branch; NoNotice is `$msg = null`. */
  datatype Notice =
    | NoNotice
    | BookAdded
    | AddRejected
    | AddFailed
    | BookDeleted
    | BookUpdated
    | UpdateRejected
    | UpdateFailed
    | MarkedAsReturned(fine: nat)
    | MarkFailed

  /** The message's 'type' is 'error'. */
  predicate IsError(n: Notice) {
    n.AddRejected? || n.AddFailed? || n.UpdateRejected? || n.UpdateFailed? || n.MarkFailed?
  }

  /** The session the panel lets through; everyone else is redirected to the
      member page. */
  predicate MayManage(s: Session) {
    IsLoggedIn(s) && IsAdmin(s)
  }

  /** The add form's check: title, author and category are not blank once
      trimmed, and at least one copy is given. */
  predicate AddFormValid(title: string, author: string, category: string, copies: int) {
    Trim(title) != [] && Trim(author) != [] && Trim(category) != [] && 0 < copies
  }

  /** The update form's check: the same three fields, at least one copy in
      total and a non-negative number available. Nothing compares the two
      counts. */
  predicate UpdateFormValid(title: string, author: string, category: string, total: int, available: int) {
    Trim(title) != [] && Trim(author) != [] && Trim(category) != [] && 0 < total && 0 <= available
  }

  /** The handler for the add-book form. There is no transaction here:
      `fault` is the INSERT's `execute()` returning false. */
  method AddBook(db: LibraryDb, session: Session, title: string, author: string, category: string,
                 description: string, copies: int, fault: bool)
    returns (notice: Notice)
    requires db.Valid()
    modifies db
    ensures db.Valid()
    ensures db.borrows == old(db.borrows)
    ensures notice == NoNotice <==> !MayManage(session)
    ensures notice == AddRejected <==> MayManage(session) && !AddFormValid(title, author, category, copies)
    ensures notice == AddFailed <==> MayManage(session) && AddFormValid(title, author, category, copies) && fault
    ensures notice == BookAdded <==> MayManage(session) && AddFormValid(title, author, category, copies) && !fault
    ensures IsError(notice) <==> MayManage(session) && (!AddFormValid(title, author, category, copies) || fault)
    ensures notice != BookAdded ==> db.books == old(db.books)
    ensures db.nextBookId == old(db.nextBookId) + (if notice == BookAdded then 1 else 0)
    ensures db.nextLoanId == old(db.nextLoanId)
    ensures notice == BookAdded ==>
      var id := old(db.nextBookId);
      && id !in old(db.books)
      && db.books == old(db.books)[id := Book(Trim(title), Trim(author), Trim(category), Trim(description), copies, copies)]
      && IssuedCount(db.borrows, id) == 0
      && Stock(db.books, db.borrows, id) == db.books[id].totalCopies
  {
    notice := NoNotice;
    if MayManage(session) {
      var t, a, c, d := Trim(title), Trim(author), Trim(category), Trim(description);
      if t == [] || a == [] || c == [] || copies <= 0 {
        notice := AddRejected;
      } else if fault {
        notice := AddFailed;
      } else {
        ghost var newId := db.nextBookId;
        assert forall x :: x in db.borrows ==> db.borrows[x].bookId != newId;
        var id := db.InsertBook(Book(t, a, c, d, copies, copies));
        assert IssuedIds(db.borrows, id) == {};
        notice := BookAdded;
      }
    }
  }

  /** The handler for `?delete_id=id`: the row goes, whether or not it was
      there, and the loans that name it stay. The page never looks at the
      statement's result: `fault` is the DELETE failing (returning false),
      which leaves the row in place and still reports success. */
  method DeleteBook(db: LibraryDb, session: Session, id: int, fault: bool) returns (notice: Notice)
    requires db.Valid()
    modifies db
    ensures db.Valid()
    ensures db.borrows == old(db.borrows)
    ensures notice == (if MayManage(session) then BookDeleted else NoNotice)
    ensures !IsError(notice)
    ensures db.books == if MayManage(session) && !fault then old(db.books) - {id} else old(db.books)
    ensures db.nextBookId == old(db.nextBookId) && db.nextLoanId == old(db.nextLoanId)
    ensures forall b :: b in db.books ==>
      b in old(db.books) && Stock(db.books, db.borrows, b) == Stock(old(db.books), old(db.borrows), b)
  {
    notice := NoNotice;
    if MayManage(session) {
      if !fault {
        db.DeleteBookRow(id);
      }
      notice := BookDeleted;
    }
  }

  /** The handler for the edit form: every column of the row is overwritten
      with what was submitted; an unknown id updates nothing and still
      reports success. `fault` is the UPDATE's `execute()` returning false. */
  method UpdateBook(db: LibraryDb, session: Session, id: int, title: string, author: string,
                    category: string, description: string, total: int, available: int, fault: bool)
    returns (notice: Notice)
    requires db.Valid()
    modifies db
    ensures db.Valid()
    ensures db.borrows == old(db.borrows)
    ensures notice == NoNotice <==> !MayManage(session)
    ensures notice == UpdateRejected <==>
      MayManage(session) && !UpdateFormValid(title, author, category, total, available)
    ensures notice == UpdateFailed <==>
      MayManage(session) && UpdateFormValid(title, author, category, total, available) && fault
    ensures notice == BookUpdated <==>
      MayManage(session) && UpdateFormValid(title, author, category, total, available) && !fault
    ensures IsError(notice) <==>
      MayManage(session) && (!UpdateFormValid(title, author, category, total, available) || fault)
    ensures notice != BookUpdated ==> db.books == old(db.books)
    ensures db.nextBookId == old(db.nextBookId) && db.nextLoanId == old(db.nextLoanId)
    ensures notice == BookUpdated ==>
      db.books == if id in old(db.books)
                  then old(db.books)[id := Book(Trim(title), Trim(author), Trim(category), Trim(description), total, available)]
                  else old(db.books)
  {
    notice := NoNotice;
    if MayManage(session) {
      var t, a, c, d := Trim(title), Trim(author), Trim(category), Trim(description);
      if t == [] || a == [] || c == [] || total <= 0 || available < 0 {
        notice := UpdateRejected;
      } else if fault {
        notice := UpdateFailed;
      } else {
        db.UpdateBookRow(id, Book(t, a, c, d, total, available));
        notice := BookUpdated;
      }
    }
  }

  /** The handler for `?return_borrow_id=loanId` on the panel: any loan that
      is still out, whoever borrowed it. */
  method AdminReturn(db: LibraryDb, session: Session, loanId: int, today: Day, now: Timestamp, fault: bool)
    returns (notice: Notice)
    requires db.Valid()
    modifies db
    ensures db.Valid()
    ensures notice == NoNotice <==> !MayManage(session) || !IsOpen(old(db.borrows), loanId, None)
    ensures notice == MarkFailed <==> MayManage(session) && IsOpen(old(db.borrows), loanId, None) && fault
    ensures notice.MarkedAsReturned? <==> MayManage(session) && IsOpen(old(db.borrows), loanId, None) && !fault
    ensures IsError(notice) <==> MayManage(session) && IsOpen(old(db.borrows), loanId, None) && fault
    ensures !notice.MarkedAsReturned? ==> db.books == old(db.books) && db.borrows == old(db.borrows)
    ensures db.nextBookId == old(db.nextBookId) && db.nextLoanId == old(db.nextLoanId)
    ensures notice.MarkedAsReturned? ==>
      var l := old(db.borrows)[loanId];
      && notice.fine == CalculateFine(l.dueDate, today)
      && db.borrows == old(db.borrows)[loanId := MarkedReturned(l, now, notice.fine)]
      && db.books == Bump(old(db.books), l.bookId, 1)
    ensures forall b :: b in old(db.books) ==>
      b in db.books && Stock(db.books, db.borrows, b) == Stock(old(db.books), old(db.borrows), b)
    ensures SumFines(db.borrows) == SumFines(old(db.borrows)) + (if notice.MarkedAsReturned? then notice.fine else 0)
  {
    notice := NoNotice;
    if MayManage(session) {
      var found := db.FindIssued(loanId, None);
      if found.Some? {
        var fine := CalculateFine(found.value.dueDate, today);
        var committed := ReturnTransaction(db, loanId, fine, now, fault);
        notice := if committed then MarkedAsReturned(fine) else MarkFailed;
      }
    }
  }

  /** The dashboard's figures (the member count comes from the users table,
      which is not part of this model). The returned and pending counts are
      `SUM`s with no `IFNULL` around them, so over an empty borrows table they
      are NULL and the page prints nothing for them. */
  datatype Stats = Stats(
    totalBooks: nat,
    totalIssued: nat,
    totalReturned: Option<nat>,
    pendingReturns: Option<nat>,
    totalFine: nat)

  /** SQL's `IFNULL(x, d)`. */
  function IfNull(x: Option<nat>, d: nat): nat {
    if x.Some? then x.value else d
  }

  function ReturnedIds(loans: map<int, Loan>): set<int> {
    set id | id in loans && loans[id].status == Returned
  }

  function PendingIds(loans: map<int, Loan>): set<int> {
    set id | id in loans && loans[id].status == Issued
  }

  /** `SUM` over the rows of `loans`: NULL when there are none. */
  function SumOrNull(loans: map<int, Loan>, n: nat): Option<nat> {
    if loans == map[] then None else Some(n)
  }

  /** The dashboard queries: COUNT(*) of books; COUNT(*), the two
      `SUM(CASE WHEN status=...)` counts and `IFNULL(SUM(fine_amount),0)`
      over borrows. Every loan is either returned or pending, so once there
      is a loan the two counts add up to the number of loans ever issued;
      before that, both are NULL and no loan has been issued. */
  ghost function Dashboard(books: map<int, Book>, loans: map<int, Loan>): (s: Stats)
    ensures s.totalBooks == |books|
    ensures s.totalReturned.None? <==> loans == map[]
    ensures s.pendingReturns.None? <==> loans == map[]
    ensures loans == map[] ==> s.totalIssued == 0 && s.totalFine == 0
    ensures loans != map[] ==> s.totalIssued == s.totalReturned.value + s.pendingReturns.value
  {
    StatusPartition(loans);
    Stats(|books|, |loans|, SumOrNull(loans, |ReturnedIds(loans)|), SumOrNull(loans, |PendingIds(loans)|), SumFines(loans))
  }

  /** Every loan is counted once, as returned or as pending. */
  lemma StatusPartition(loans: map<int, Loan>)
    ensures |loans| == |ReturnedIds(loans)| + |PendingIds(loans)|
  {
    forall id | id in loans
      ensures id in ReturnedIds(loans) + PendingIds(loans)
    {
      if loans[id].status == Returned {
        assert id in ReturnedIds(loans);
      } else {
        assert id in PendingIds(loans);
      }
    }
    assert loans.Keys == ReturnedIds(loans) + PendingIds(loans);
    assert ReturnedIds(loans) !! PendingIds(loans);
  }

  /** Inserting an issued loan adds it to the pending rows and to no other
      count. */
  lemma CountsAfterInsert(loans: map<int, Loan>, id: int, l: Loan)
    requires id !in loans && l.status == Issued
    ensures |loans[id := l]| == |loans| + 1
    ensures ReturnedIds(loans[id := l]) == ReturnedIds(loans)
    ensures |PendingIds(loans[id := l])| == |PendingIds(loans)| + 1
  {
    var after := loans[id := l];
    assert after.Keys == loans.Keys + {id};
    assert |after.Keys| == |loans.Keys| + 1;
    forall x | x in after && x != id
      ensures after[x] == loans[x]
    {
    }
    assert ReturnedIds(after) == ReturnedIds(loans);
    assert id !in PendingIds(loans);
    assert PendingIds(after) == PendingIds(loans) + {id};
  }

  /** A borrow adds one issued and one pending loan and leaves the fine
      total where it was. */
  lemma DashboardAfterBorrow(books: map<int, Book>, loans: map<int, Loan>, id: int, l: Loan)
    requires id !in loans && l.status == Issued && l.fineAmount == 0
    ensures var before, after := Dashboard(books, loans), Dashboard(books, loans[id := l]);
      && after.totalIssued == before.totalIssued + 1
      && after.pendingReturns == Some(IfNull(before.pendingReturns, 0) + 1)
      && after.totalReturned == Some(IfNull(before.totalReturned, 0))
      && after.totalFine == before.totalFine
  {
    CountsAfterInsert(loans, id, l);
    SumFinesAfterInsert(loans, id, l);
    assert loans[id := l] != map[] by {
      assert id in loans[id := l];
    }
    if loans == map[] {
      assert PendingIds(loans) == {} && ReturnedIds(loans) == {};
    }
  }

  /** A return moves one loan from pending to returned and adds its fine to
      the total. */
  lemma DashboardAfterReturn(books: map<int, Book>, loans: map<int, Loan>, id: int, now: Timestamp, fine: nat)
    requires id in loans && loans[id].status == Issued && loans[id].fineAmount == 0
    ensures var before := Dashboard(books, loans);
      var after := Dashboard(books, loans[id := MarkedReturned(loans[id], now, fine)]);
      && after.totalIssued == before.totalIssued
      && before.pendingReturns.Some? && after.pendingReturns == Some(before.pendingReturns.value - 1)
      && before.totalReturned.Some? && after.totalReturned == Some(before.totalReturned.value + 1)
      && after.totalFine == before.totalFine + fine
  {
    var after := loans[id := MarkedReturned(loans[id], now, fine)];
    assert after.Keys == loans.Keys;
    assert loans != map[] && after != map[];
    assert id !in ReturnedIds(loans) && id in PendingIds(loans);
    assert ReturnedIds(after) == ReturnedIds(loans) + {id};
    assert |ReturnedIds(after)| == |ReturnedIds(loans)| + 1;
    assert PendingIds(after) == PendingIds(loans) - {id};
    assert |PendingIds(after)| == |PendingIds(loans)| - 1;
    SumFinesAfterUpdate(loans, id, MarkedReturned(loans[id], now, fine));
  }
}
