/**
 * config.php: the late-return fine and the two session predicates that guard
 * every page. Dates are day numbers: the scripts only ever compare two
 * 'Y-m-d' dates, take whole days between them, or add seven days to today.
 */
module Config {
  import opened Php

  /** A calendar date as a day number (any fixed origin). */
  type Day = int

  /** A 'Y-m-d H:i:s' timestamp; the core only stores it, never inspects it. */
  type Timestamp = int

  /** FINE_PER_DAY, in rupees. */
  const FinePerDay: nat := 5

  /** `calculateFine($dueDate, $returnDate)`: nothing when the book comes back
      on or before the due date, otherwise FinePerDay for each whole day
      between the due date and the return date. */
  function CalculateFine(due: Day, ret: Day): (fine: nat)
    ensures ret <= due ==> fine == 0
    ensures due < ret ==> fine % FinePerDay == 0 && fine / FinePerDay == ret - due
  {
    if ret <= due then 0 else (ret - due) * FinePerDay
  }

  /** For a fixed due date the fine never decreases as the return date moves
      later. */
  lemma FineMonotone(due: Day, ret1: Day, ret2: Day)
    requires ret1 <= ret2
    ensures CalculateFine(due, ret1) <= CalculateFine(due, ret2)
  {
  }

  /** The fine depends only on how late the return is. */
  lemma FineDependsOnLateness(due: Day, ret: Day, shift: int)
    ensures CalculateFine(due + shift, ret + shift) == CalculateFine(due, ret)
  {
  }

  /** A loan due on 2025-01-08 and returned on 2025-01-11 is three days late
      and costs 15. */
  lemma ThreeDaysLate(due: Day)
    ensures CalculateFine(due, due + 3) == 15
  {
  }

  /** The two keys of `$_SESSION` the core reads; `None` is an unset key. */
  datatype Session = Session(userId: Option<int>, role: Option<string>)

  /** `isLoggedIn()`: `isset($_SESSION['user_id'])`. */
  predicate IsLoggedIn(s: Session) {
    s.userId.Some?
  }

  /** `isAdmin()`: the role is set and is, strictly, the string 'admin'. */
  predicate IsAdmin(s: Session) {
    s.role.Some? && s.role.value == "admin"
  }
}
