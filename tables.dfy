/**
 * The two tables the circulation core works on, `books` and `borrows`, and
 * the SQL statements the page scripts run against them. A row is a value;
 * the database is one object whose tables the statements rewrite in place.
 * Ids come from AUTO_INCREMENT counters, which (as in InnoDB) a rolled-back
 * transaction does not give back.
 */
module Tables {
  import opened Php
  import opened Config

  datatype Status = Issued | Returned

  /** A row of `books`. */
  datatype Book = Book(
    title: string,
    author: string,
    category: string,
    description: string,
    totalCopies: int,
    availableCopies: int)

  /** A row of `borrows`. */
  datatype Loan = Loan(
    userId: int,
    bookId: int,
    issuedAt: Timestamp,
    dueDate: Day,
    status: Status,
    returnedAt: Option<Timestamp>,
    fineAmount: nat)

  /** The borrow INSERT names only user_id, book_id and due_date; the other
      columns take the schema's defaults. The return paths only ever find a
      new loan by `status='issued'`, so the default status is taken to be
      'issued', the default fine 0, `returned_at` NULL and `issued_at` the
      moment of the insert. */
  const DefaultStatus: Status := Issued
  const DefaultFine: nat := 0

  /** The loan period added to today to make the due date. */
  const LoanPeriodDays: int := 7

  /** A loan row as the borrow INSERT leaves it. */
  function NewLoan(userId: int, bookId: int, due: Day, now: Timestamp): Loan {
    Loan(userId, bookId, now, due, DefaultStatus, None, DefaultFine)
  }

  /** A loan row after `UPDATE borrows SET status='returned', returned_at=?,
      fine_amount=?`. */
  function MarkedReturned(l: Loan, now: Timestamp, fine: nat): Loan {
    l.(status := Returned, returnedAt := Some(now), fineAmount := fine)
  }

  /** An issued loan has not been returned and owes nothing yet; a returned
      loan has a return time. */
  predicate WellFormed(l: Loan) {
    && (l.status == Issued ==> l.returnedAt == None && l.fineAmount == 0)
    && (l.status == Returned ==> l.returnedAt.Some?)
  }

  /** The loan is on file, still out and, when an owner is given, that
      user's: what the return SELECTs look for. */
  predicate IsOpen(loans: map<int, Loan>, loanId: int, owner: Option<int>) {
    loanId in loans && loans[loanId].status == Issued &&
    (owner.Some? ==> loans[loanId].userId == owner.value)
  }

  /** `UPDATE books SET available_copies = available_copies + delta WHERE id =
      bookId`: the one book's count moves by delta, and an id with no row
      matches nothing. */
  function Bump(books: map<int, Book>, bookId: int, delta: int): (r: map<int, Book>)
    ensures r.Keys == books.Keys
    ensures forall b :: b in books && b != bookId ==> r[b] == books[b]
    ensures bookId in books ==>
      r[bookId].availableCopies == books[bookId].availableCopies + delta &&
      r[bookId] == books[bookId].(availableCopies := r[bookId].availableCopies)
  {
    if bookId in books
    then books[bookId := books[bookId].(availableCopies := books[bookId].availableCopies + delta)]
    else books
  }

  /** Ids of the loans of one book that are still out. */
  function IssuedIds(loans: map<int, Loan>, bookId: int): set<int> {
    set id | id in loans && loans[id].bookId == bookId && loans[id].status == Issued
  }

  function IssuedCount(loans: map<int, Loan>, bookId: int): nat {
    |IssuedIds(loans, bookId)|
  }

  /** The copies of a book that the library holds, on the shelf or on loan;
      borrowing and returning move copies between the two and keep this. */
  function Stock(books: map<int, Book>, loans: map<int, Loan>, bookId: int): int
    requires bookId in books
  {
    books[bookId].availableCopies + IssuedCount(loans, bookId)
  }

  /** Inserting an issued loan puts one more copy of its book out and leaves
      every other book's count alone. */
  lemma IssuedCountAfterInsert(loans: map<int, Loan>, id: int, l: Loan, bookId: int)
    requires id !in loans && l.status == Issued
    ensures IssuedCount(loans[id := l], bookId)
         == IssuedCount(loans, bookId) + (if l.bookId == bookId then 1 else 0)
  {
    if l.bookId == bookId {
      assert IssuedIds(loans[id := l], bookId) == IssuedIds(loans, bookId) + {id};
    } else {
      assert IssuedIds(loans[id := l], bookId) == IssuedIds(loans, bookId);
    }
  }

  /** Turning an issued loan into a returned one brings one copy of its book
      back and leaves every other book's count alone. */
  lemma IssuedCountAfterReturn(loans: map<int, Loan>, id: int, l: Loan, bookId: int)
    requires id in loans && loans[id].status == Issued
    requires l.status == Returned && l.bookId == loans[id].bookId
    ensures IssuedCount(loans[id := l], bookId)
         == IssuedCount(loans, bookId) - (if l.bookId == bookId then 1 else 0)
  {
    if l.bookId == bookId {
      assert IssuedIds(loans[id := l], bookId) == IssuedIds(loans, bookId) - {id};
    } else {
      assert IssuedIds(loans[id := l], bookId) == IssuedIds(loans, bookId);
    }
  }

  /** `SUM(fine_amount)` over the loans with the given ids. */
  ghost function SumFinesOver(loans: map<int, Loan>, ids: set<int>): nat
    requires ids <= loans.Keys
    decreases ids
  {
    if !exists id :: id in ids then 0
    else
      var id :| id in ids;
      loans[id].fineAmount + SumFinesOver(loans, ids - {id})
  }

  /** `SUM(fine_amount)` over a whole table of loans (0 when it is empty, as
      `IFNULL(..., 0)` makes it). */
  ghost function SumFines(loans: map<int, Loan>): nat {
    SumFinesOver(loans, loans.Keys)
  }

  /** The loan the definition happens to start from. */
  lemma SumFinesOverUnfold(loans: map<int, Loan>, ids: set<int>) returns (k: int)
    requires ids <= loans.Keys && exists id :: id in ids
    ensures k in ids
    ensures SumFinesOver(loans, ids) == loans[k].fineAmount + SumFinesOver(loans, ids - {k})
  {
    k :| k in ids && SumFinesOver(loans, ids) == loans[k].fineAmount + SumFinesOver(loans, ids - {k});
  }

  /** The sum may be taken starting from any of the loans. */
  lemma {:induction false} SumFinesOverRemove(loans: map<int, Loan>, ids: set<int>, id: int)
    requires ids <= loans.Keys && id in ids
    ensures SumFinesOver(loans, ids) == loans[id].fineAmount + SumFinesOver(loans, ids - {id})
    decreases ids
  {
    var k := SumFinesOverUnfold(loans, ids);
    if k != id {
      SumFinesOverRemove(loans, ids - {k}, id);
      SumFinesOverRemove(loans, ids - {id}, k);
      assert ids - {k} - {id} == ids - {id} - {k};
    }
  }

  /** Two tables whose loans owe the same on the given ids have the same sum
      over them. */
  lemma {:induction false} SumFinesOverAgree(m1: map<int, Loan>, m2: map<int, Loan>, ids: set<int>)
    requires ids <= m1.Keys && ids <= m2.Keys
    requires forall k :: k in ids ==> m1[k].fineAmount == m2[k].fineAmount
    ensures SumFinesOver(m1, ids) == SumFinesOver(m2, ids)
    decreases ids
  {
    if exists id :: id in ids {
      var k := SumFinesOverUnfold(m1, ids);
      SumFinesOverRemove(m2, ids, k);
      SumFinesOverAgree(m1, m2, ids - {k});
    }
  }

  /** Rewriting one loan changes the total fine by the change in that loan's
      fine and nothing else. */
  lemma SumFinesAfterUpdate(loans: map<int, Loan>, id: int, l: Loan)
    requires id in loans
    ensures SumFines(loans[id := l]) == SumFines(loans) - loans[id].fineAmount + l.fineAmount
  {
    var after := loans[id := l];
    assert after.Keys == loans.Keys;
    SumFinesOverRemove(loans, loans.Keys, id);
    SumFinesOverRemove(after, after.Keys, id);
    SumFinesOverAgree(loans, after, loans.Keys - {id});
  }

  /** Inserting a loan adds its fine to the total. */
  lemma SumFinesAfterInsert(loans: map<int, Loan>, id: int, l: Loan)
    requires id !in loans
    ensures SumFines(loans[id := l]) == SumFines(loans) + l.fineAmount
  {
    var after := loans[id := l];
    assert after.Keys - {id} == loans.Keys;
    SumFinesOverRemove(after, after.Keys, id);
    SumFinesOverAgree(loans, after, loans.Keys);
  }

  /**
   * The database behind `$conn`: the `books` and `borrows` tables keyed by
   * id, and their AUTO_INCREMENT counters.
   */
  class LibraryDb {
    var books: map<int, Book>
    var borrows: map<int, Loan>
    var nextBookId: int
    var nextLoanId: int

    /** Ids are positive and below their counters, every loan names a book id
        that has been handed out, every loan row is well formed, no count of
        available copies is negative and every book has at least one copy. */
    ghost predicate Valid()
      reads this
    {
      && 0 < nextBookId && 0 < nextLoanId
      && (forall id :: id in books ==> 0 < id < nextBookId)
      && (forall id :: id in borrows ==> 0 < id < nextLoanId)
      && (forall id :: id in borrows ==> borrows[id].bookId < nextBookId && WellFormed(borrows[id]))
      && (forall id :: id in books ==> 0 <= books[id].availableCopies && 0 < books[id].totalCopies)
    }

    /** An empty database. */
    constructor ()
      ensures Valid()
      ensures books == map[] && borrows == map[]
      ensures nextBookId == 1 && nextLoanId == 1
    {
      books, borrows := map[], map[];
      nextBookId, nextLoanId := 1, 1;
    }

    /** `SELECT available_copies FROM books WHERE id=?`, read as one row or
        none. */
    function AvailableCopies(bookId: int): (r: Option<int>)
      reads this
    {
      if bookId in books then Some(books[bookId].availableCopies) else None
    }

    /** `SELECT * FROM borrows WHERE id=? [AND user_id=?] AND status='issued'`:
        the loan, if it exists, is still out and, when an owner is given,
        belongs to that user. */
    function FindIssued(loanId: int, owner: Option<int>): (r: Option<Loan>)
      reads this
    {
      if IsOpen(borrows, loanId, owner) then Some(borrows[loanId])
      else None
    }

    /** `INSERT INTO borrows(user_id, book_id, due_date) VALUES(?,?,?)`. */
    method InsertLoan(userId: int, bookId: int, due: Day, now: Timestamp) returns (id: int)
      requires Valid() && bookId in books
      modifies this
      ensures Valid()
      ensures id == old(nextLoanId) && id !in old(borrows)
      ensures borrows == old(borrows)[id := NewLoan(userId, bookId, due, now)]
      ensures books == old(books) && nextBookId == old(nextBookId) && nextLoanId == id + 1
    {
      id := nextLoanId;
      borrows := borrows[id := NewLoan(userId, bookId, due, now)];
      nextLoanId := nextLoanId + 1;
    }

    /** `UPDATE books SET available_copies = available_copies + delta WHERE
        id=bookId`, for the two deltas the scripts use: -1 after a check that
        a copy is available, +1 on a return. */
    method AddAvailable(bookId: int, delta: int)
      requires Valid()
      requires delta == 1 || (delta == -1 && bookId in books && books[bookId].availableCopies > 0)
      modifies this
      ensures Valid()
      ensures books == Bump(old(books), bookId, delta)
      ensures borrows == old(borrows)
      ensures nextBookId == old(nextBookId) && nextLoanId == old(nextLoanId)
    {
      books := Bump(books, bookId, delta);
    }

    /** `UPDATE borrows SET status='returned', returned_at=?, fine_amount=?
        WHERE id=?`. */
    method SetReturned(loanId: int, now: Timestamp, fine: nat)
      requires Valid()
      modifies this
      ensures Valid()
      ensures borrows == if loanId in old(borrows)
                         then old(borrows)[loanId := MarkedReturned(old(borrows)[loanId], now, fine)]
                         else old(borrows)
      ensures books == old(books)
      ensures nextBookId == old(nextBookId) && nextLoanId == old(nextLoanId)
    {
      if loanId in borrows {
        borrows := borrows[loanId := MarkedReturned(borrows[loanId], now, fine)];
      }
    }

    /** `INSERT INTO books(...) VALUES(...)`. */
    method InsertBook(b: Book) returns (id: int)
      requires Valid()
      requires 0 <= b.availableCopies && 0 < b.totalCopies
      modifies this
      ensures Valid()
      ensures id == old(nextBookId) && id !in old(books)
      ensures books == old(books)[id := b]
      ensures borrows == old(borrows) && nextBookId == id + 1 && nextLoanId == old(nextLoanId)
    {
      id := nextBookId;
      books := books[id := b];
      nextBookId := nextBookId + 1;
    }

    /** `DELETE FROM books WHERE id=...`; the loans of that book stay. */
    method DeleteBookRow(id: int)
      requires Valid()
      modifies this
      ensures Valid()
      ensures books == old(books) - {id}
      ensures borrows == old(borrows)
      ensures nextBookId == old(nextBookId) && nextLoanId == old(nextLoanId)
    {
      books := books - {id};
    }

    /** `UPDATE books SET title=?, ..., available_copies=? WHERE id=?`: every
        column of the one row is replaced; an unknown id matches nothing. */
    method UpdateBookRow(id: int, b: Book)
      requires Valid()
      requires 0 <= b.availableCopies && 0 < b.totalCopies
      modifies this
      ensures Valid()
      ensures books == if id in old(books) then old(books)[id := b] else old(books)
      ensures borrows == old(borrows)
      ensures nextBookId == old(nextBookId) && nextLoanId == old(nextLoanId)
    {
      if id in books {
        books := books[id := b];
      }
    }

    /** `$conn->rollback()`: both tables go back to the snapshot taken at
        `begin_transaction`; the AUTO_INCREMENT counters keep their values. */
    method Rollback(books0: map<int, Book>, borrows0: map<int, Loan>)
      requires Valid()
      requires forall id :: id in books0 ==> 0 < id < nextBookId
      requires forall id :: id in borrows0 ==> 0 < id < nextLoanId
      requires forall id :: id in borrows0 ==> borrows0[id].bookId < nextBookId && WellFormed(borrows0[id])
      requires forall id :: id in books0 ==> 0 <= books0[id].availableCopies && 0 < books0[id].totalCopies
      modifies this
      ensures Valid()
      ensures books == books0 && borrows == borrows0
      ensures nextBookId == old(nextBookId) && nextLoanId == old(nextLoanId)
    {
      books, borrows := books0, borrows0;
    }
  }

  /**
   * The transaction both return handlers run once their SELECT has found the
   * open loan and the fine is computed: mark the loan returned, put the copy
   * back, then commit, or roll both back when the store raises an error.
   */
  method ReturnTransaction(db: LibraryDb, loanId: int, fine: nat, now: Timestamp, fault: bool)
    returns (committed: bool)
    requires db.Valid() && IsOpen(db.borrows, loanId, None)
    modifies db
    ensures db.Valid()
    ensures committed == !fault
    ensures db.nextBookId == old(db.nextBookId) && db.nextLoanId == old(db.nextLoanId)
    ensures committed ==>
      var l := old(db.borrows)[loanId];
      && db.borrows == old(db.borrows)[loanId := MarkedReturned(l, now, fine)]
      && db.books == Bump(old(db.books), l.bookId, 1)
    ensures !committed ==> db.books == old(db.books) && db.borrows == old(db.borrows)
    ensures forall b :: b in old(db.books) ==>
      b in db.books && Stock(db.books, db.borrows, b) == Stock(old(db.books), old(db.borrows), b)
    ensures SumFines(db.borrows) == SumFines(old(db.borrows)) + (if committed then fine else 0)
  {
    var books0, borrows0 := db.books, db.borrows;
    var bookId := db.borrows[loanId].bookId;
    db.SetReturned(loanId, now, fine);
    db.AddAvailable(bookId, 1);
    if fault {
      db.Rollback(books0, borrows0);
      committed := false;
    } else {
      committed := true;
      var l := MarkedReturned(borrows0[loanId], now, fine);
      forall b | b in books0
        ensures Stock(db.books, db.borrows, b) == Stock(books0, borrows0, b)
      {
        IssuedCountAfterReturn(borrows0, loanId, l, b);
      }
      SumFinesAfterUpdate(borrows0, loanId, l);
    }
  }
}
