# Digital library: the borrow/return lifecycle in Dafny

This project models the circulation core of a small PHP library system. The
catalog is the `books` table, where each book has `total_copies` and
`available_copies`. Loans are the `borrows` table, where each loan has a
`status` of `'issued'` or `'returned'`, a `due_date`, a `returned_at` and a
`fine_amount`. The model covers the handlers that change these two tables:

- the member page (`index.php`) lets a member borrow a copy and return one of their own loans;
- the admin panel (`admin.php`) adds, deletes and edits books, and marks any open loan returned;
- the admin panel also shows aggregate counts over the loans;
- `config.php` holds the late-fine rule and the two session checks.

Module layout, one module per source file plus the shared pieces:

- `Php` (php.dfy): `Option` and PHP's `trim`, which every form field goes through.
- `Config` (config.dfy): `FinePerDay`, `CalculateFine`, `IsLoggedIn` and `IsAdmin`.
  Dates are day numbers and timestamps are opaque integers.
- `Tables` (tables.dfy): the row types, the column defaults and the class
  `LibraryDb`. Its map fields `books` and `borrows` are the two tables, and two
  counter fields model AUTO_INCREMENT. Each SQL statement the scripts run is a
  method that rewrites those fields. The module also holds the counting and
  summing functions with their lemmas, and the return transaction that both
  return handlers share.
- `MemberPage` (member_page.dfy): the handlers `Borrow` and `MemberReturn`.
- `AdminPage` (admin_page.dfy): the handlers `AddBook`, `DeleteBook`,
  `UpdateBook` and `AdminReturn`, and the dashboard as ghost functions.
- `Scenarios` (scenarios.dfy): request sequences on a fresh database, checked
  only from the handlers' contracts. One copy with two members. A rolled-back
  borrow. An admin edit followed by a return that leaves more copies available
  than the book has. A deleted book whose loan is still returned.

Each handler is a method on the shared database (`modifies db`). Its contract
covers four things:

- which branch runs, as an if-and-only-if on the session, the row lookup and
  the form validation;
- the whole new state of both tables;
- the notice it leaves in `$msg`;
- what it preserves.

For every existing book, borrow and both returns preserve `Stock`, which is
`available_copies` plus the number of that book's `'issued'` loans. They also
change the total fine by exactly the fine they report.

A transaction becomes one method body. In the borrow and the two returns, a
`fault` parameter stands for the store raising an error inside the `try`. On a
fault the page rolls back, so both tables return to their state at
`begin_transaction`. The AUTO_INCREMENT counter keeps any advance made by an
INSERT that ran before the fault, as InnoDB does. In `AddBook` and `UpdateBook`, which have no `try`, `fault` stands for
`execute()` returning `false` instead (see "## Left out").

Each handler's contract also says exactly when its notice has type `'error'`
(`MemberPage.IsError`, `AdminPage.IsError`). The member page shows a late
return as an error.

The model keeps these behaviours as the code has them, although a stricter
circulation design would reject them:

- The admin return has no ownership check.
- A member return finds nothing, and says nothing, for an unknown loan id,
  another member's loan or a loan already returned. There is no separate
  "forbidden" or "already returned" error.
- A borrow of an unknown book id sets no message.
- A return increments `available_copies` with no cap at `total_copies`.
- `UpdateBook` sets both counts exactly as submitted. It requires only
  `total > 0` and `available >= 0`, so `available_copies <= total_copies` and
  `available = total - issued` are not invariants of the model.
  `Scenarios.EditThenReturn` shows a book that ends with more copies available
  than it has.
- `UpdateBook` on an unknown id changes nothing and still reports success.
- `DeleteBook` leaves the loans that name the deleted book, taking the schema
  to have no foreign key on `borrows.book_id`. Returning such a loan later
  closes it and changes no book.
- `DeleteBook` reports success even when the DELETE fails and the row stays.
  `Scenarios.FailedDeleteReported` shows this.
- The borrow INSERT names only `user_id`, `book_id` and `due_date`. The model
  takes the column defaults to be `status = 'issued'`, `fine_amount = 0`,
  `returned_at = NULL` and `issued_at` = the time of the insert
  (`Tables.DefaultStatus`, `Tables.DefaultFine`). Both return paths look up a
  new loan by `status='issued'`, which is why the default is taken to be
  `'issued'`.

## Model

| member | source | states |
|---|---|---|
| `Php.Trim` | admin.php:12-15 | the trimmed field neither starts nor ends with a trim character and is no longer than the input |
| `Php.SkipLeading` | admin.php:12-15 | the index where the leading run of trim characters ends: everything before it is a trim character and the character at it is not |
| `Php.SkipTrailing` | admin.php:12-15 | the index where the trailing run of trim characters starts: everything from it on is a trim character and the one before it is not |
| `Php.TrimIsInfix` | admin.php:50-53 | trim keeps a contiguous middle of the input and removes only trim characters on either side |
| `Php.TrimEmptyIff` | admin.php:18 | a field counts as empty after trim exactly when it holds only trim characters (both directions) |
| `Php.TrimKeepsTrimmed` | admin.php:12-14 | a string that neither starts nor ends with a trim character comes back unchanged |
| `Php.TrimIdempotent` | admin.php:50-53 | trimming an already trimmed value changes nothing |
| `Config.CalculateFine` | config.php:32-38 | the fine is 0 when the return date is on or before the due date; otherwise it is a multiple of FINE_PER_DAY whose quotient is the number of whole days late |
| `Config.FineMonotone` | config.php:35-37 | for a fixed due date the fine never decreases as the return date moves later |
| `Config.FineDependsOnLateness` | config.php:35-37 | the fine depends only on the difference between return date and due date |
| `Config.ThreeDaysLate` | config.php:17 | with FINE_PER_DAY = 5, a return three days after the due date costs 15 |
| `Tables.Bump` | index.php:75 | `available_copies + delta` on the matching row: only that book's count moves, by exactly delta, and its other columns and every other book stay; an unknown id changes nothing |
| `Tables.IssuedCountAfterInsert` | index.php:71-73 | inserting an issued loan raises that book's count of issued loans by exactly one and leaves every other book's count unchanged |
| `Tables.IssuedCountAfterReturn` | index.php:110-112 | marking an issued loan returned lowers that book's count of issued loans by exactly one and leaves every other book's count unchanged |
| `Tables.SumFinesOverRemove` | admin.php:121 | `SUM(fine_amount)` does not depend on the order of rows: it equals any one loan's fine plus the sum over the rest |
| `Tables.SumFinesOverAgree` | admin.php:121 | the sum depends only on the fines of the rows summed |
| `Tables.SumFinesAfterUpdate` | index.php:110-112 | rewriting one loan changes the total fine by exactly the change in that loan's fine |
| `Tables.SumFinesAfterInsert` | index.php:71-73 | inserting a loan adds exactly its fine to the total |
| `Tables.LibraryDb.InsertLoan` | index.php:71-73 | adds exactly one loan under a fresh id, with the given user, book and due date and the column defaults; the books table is unchanged |
| `Tables.LibraryDb.AddAvailable` | index.php:114 | the book's available count moves by delta, nothing else changes, and the count stays non-negative |
| `Tables.LibraryDb.SetReturned` | index.php:110-112 | the loan becomes `'returned'` with the given return time and fine; every other loan and the books table are unchanged |
| `Tables.LibraryDb.InsertBook` | admin.php:21-23 | adds exactly one book under a fresh id; loans are unchanged |
| `Tables.LibraryDb.DeleteBookRow` | admin.php:34 | removes only the row with that id; the loans table is untouched |
| `Tables.LibraryDb.UpdateBookRow` | admin.php:60-62 | replaces every column of the row with that id; an unknown id changes nothing |
| `Tables.LibraryDb.Rollback` | index.php:80-82 | both tables return to the snapshot taken at `begin_transaction`; the AUTO_INCREMENT counters keep their values |
| `Tables.ReturnTransaction` | index.php:108-125 | on commit, the loan is marked returned with the fine and time and its book gets one copy back; on a fault, both tables are unchanged; each existing book's stock is preserved; the total fine grows by exactly the fine committed |
| `MemberPage.Borrow` | index.php:54-88 | the branches are exact. No notice, with nothing changed, unless a logged-in non-admin asks for an existing book. "No copies", with nothing changed, when its available count is 0 or less. On success, exactly one new loan for the session user and that book, due today + 7, and exactly that book's available count drops by one. On a fault, nothing changes. Each book's stock and the total fine are preserved |
| `MemberPage.MemberReturn` | index.php:91-127 | acts only for a logged-in non-admin whose own loan with that id is still `'issued'`; otherwise nothing changes and there is no notice. On success the loan becomes `'returned'` with `returned_at = now` and `fine = calculateFine(due, today)`, its book gets one copy back, and the notice is "late" exactly when the fine is positive. A fault changes nothing. Stock is preserved and the total fine grows by the reported fine |
| `AdminPage.AddBook` | admin.php:11-29 | rejects a blank trimmed title, author or category, or copies ≤ 0, and adds nothing. Otherwise adds exactly one book under a fresh id, with the trimmed fields and available = total = copies. No loan counts against the new book, so its stock equals its total. The loans table is never touched |
| `AdminPage.DeleteBook` | admin.php:31-36 | always reports success, because the page never checks the DELETE. When the DELETE goes through, only the book with that id is removed; when it fails (`fault`), nothing changes. Loans are untouched either way, including those naming the deleted book, and every remaining book keeps its stock |
| `AdminPage.UpdateBook` | admin.php:48-68 | rejects a blank trimmed field, total ≤ 0 or available < 0. Otherwise every column of that row is set exactly as submitted, with nothing comparing available to total. An unknown id changes nothing but still reports success. Loans are untouched |
| `AdminPage.AdminReturn` | admin.php:71-99 | acts on any `'issued'` loan whoever borrowed it. Does nothing for an unknown id or a loan already returned. On success the loan is marked returned with the computed fine, its book gets one copy back, and the notice carries the fine. A fault changes nothing. Stock is preserved and the total fine grows by the reported fine |
| `AdminPage.Dashboard` | admin.php:117-127 | over an empty borrows table the returned and pending counts are NULL (the `SUM`s at admin.php:119-120 have no `IFNULL`) and the issued count and total fine are 0; once there is a loan, the number of loans ever issued equals returned plus pending; the book count is the size of the books table |
| `AdminPage.StatusPartition` | admin.php:117-120 | every loan is counted exactly once, as returned or as pending |
| `AdminPage.CountsAfterInsert` | admin.php:117-120 | inserting an issued loan adds one row, adds it to the pending rows and leaves the returned rows as they were |
| `AdminPage.DashboardAfterBorrow` | admin.php:117-122 | a new issued loan raises total issued by one and pending by one (from NULL read as 0), turns a NULL returned count into 0 and otherwise leaves it, and leaves the total fine unchanged |
| `AdminPage.DashboardAfterReturn` | admin.php:117-122 | a return (so the table is not empty and neither count is NULL) moves one loan from pending to returned, leaves total issued unchanged and adds the loan's fine to the total fine |

## Left out

- HTML output and message text are not modelled. Only the branch that sets `$msg`, and its error or success type, is kept (`MemberPage.Notice`, `MemberPage.IsError`, `AdminPage.Notice`, `AdminPage.IsError`).
- Registration, login, SHA-256 hashing, session writes and redirects (index.php:7-51, config.php:27-30) are left out: they are library calls and I/O. The admin panel's redirect of non-admins (admin.php:4-6) is kept as the `MayManage` guard on every admin handler.
- `IsLoggedIn` and `IsAdmin` are predicates that the handlers' contracts use; they carry no contract of their own. The session is reduced to its `user_id` and `role` keys.
- The search and category filter (index.php:129-161) is left out. SQL `LIKE` with unknown collation and unescaped wildcards cannot be stated here.
- Read-only listings are left out: the member's own loan list and stats (index.php:165-189), the admin's book and loan lists (admin.php:129-138), and the edit-form prefill (admin.php:39-46).
- The dashboard's `total_users` is left out, because the `users` table is not part of this model.
- The mysqli connection, prepare/bind plumbing and the `(int)` casts of request parameters are left out; ids and counts arrive as integers. A request that carries several handler parameters runs those handlers in order, which is the methods called in sequence.
- Store errors are a `fault` flag on these statements only: the statements inside the borrow and return transactions (index.php:71-75, index.php:110-114, admin.php:86-91), the add and update statements (admin.php:21-23, admin.php:60-62) and the DELETE (admin.php:34). The SELECTs that run before a transaction (index.php:58-61, index.php:96-99, admin.php:74-77) and the dashboard queries are assumed to succeed. In the transactions, `fault` is an error raised as an exception and caught. A failed statement there that returns `false` without raising, and would then be committed half-done, is not modelled.
- AdminPage.DeleteBook: `fault` means the DELETE returned `false`; the page still reports success and the row stays. Under exception mode the uncaught exception is not modelled. The model assumes no foreign key from `borrows.book_id` to `books`: the schema is not part of this model, and with such a key (InnoDB's default `RESTRICT`) deleting a book that has loans would fail, which is the `fault` case here. `Scenarios.DeleteWithLoanOut` takes the no-key reading.
- MemberPage.Borrow: `fault` is taken to be raised after the INSERT has run, so a failed borrow always consumes a loan id (`nextLoanId` advances on `IssueFailed`). A fault raised by the INSERT itself (a failed `prepare`, say, at index.php:71-73), which may consume no AUTO_INCREMENT value, is not modelled separately.
- AdminPage.AddBook: `fault` means the INSERT's `execute()` returned `false` (admin.php:23-27), a different mysqli error mode from the exceptions the transactions assume. The two modes cannot hold at once; under exception mode `AddFailed` cannot happen and the page ends with an uncaught exception, which is not modelled. A failed INSERT does not advance `nextBookId` in the model; whether InnoDB has already consumed an AUTO_INCREMENT value depends on where the statement failed, and that gap in the ids is not modelled.
- AdminPage.UpdateBook: `fault` means the UPDATE's `execute()` returned `false` (admin.php:62-66), the same error mode as in `AddBook` and not the one the transactions assume; under exception mode `UpdateFailed` cannot happen and the uncaught exception is not modelled.
- Concurrency is not modelled. The availability check (index.php:58-65) runs before the transaction, so concurrent borrows could both pass it. The model is sequential and has no locking or isolation.
- Date parsing and time zones are not modelled. Dates are day numbers and the due date is today + 7. `returned_at` and `issued_at` are opaque timestamps, separate from the date used for the fine.
- Fines are naturals, not the doubles bound with `"sdi"` (index.php:111); every value is a whole multiple of 5.
- Integer columns are unbounded; there is no 32-bit overflow of ids or counts.
- AUTO_INCREMENT never reuses an id in the model. A server restart that resets the counter to the largest remaining id plus one is not modelled.
- The dashboard aggregates are ghost functions, because the fine sum chooses its rows in no fixed order. `total_fine` is stated through `SumFines` and the lemmas above.
