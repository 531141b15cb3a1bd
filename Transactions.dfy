/** A loan record: identifier, the two foreign keys, the dates, the state
    ACTIVE -> OVERDUE -> RETURNED and the fine settled at return time.
    Dates are day numbers. */
module Transactions {
  import opened LibraryCommon

  /** `borrowDate.plusDays(14)`. */
  const LoanPeriodDays: int := 14
  /** Fine per day late ("Rs. 5 per day"). */
  const FinePerDay: nat := 5
  /** Width of the zero-padded counter in an identifier (`%06d`). */
  const IdWidth: nat := 6
  const IdPrefix: string := "TXN"

  datatype TransactionStatus = Active | Returned | Overdue

  // ---------------------------------------------------------------------
  // Identifiers: "TXN" + String.format("%06d", counter)

  function DigitChar(d: nat): (c: char)
    requires d < 10
    ensures '0' <= c <= '9'
  {
    ('0' as int + d) as char
  }

  function DigitValue(c: char): (d: nat)
    ensures d < 10
  {
    if '0' <= c <= '9' then c as int - '0' as int else 0
  }

  /** Decimal digits of `n`, most significant first, no leading zero. */
  function Decimal(n: nat): (s: string)
    ensures |s| >= 1
    ensures forall i :: 0 <= i < |s| ==> '0' <= s[i] <= '9'
  {
    if n < 10 then [DigitChar(n)] else Decimal(n / 10) + [DigitChar(n % 10)]
  }

  /** The rendering is canonical: only 0 itself starts with '0'. */
  lemma {:induction false} DecimalNoLeadingZero(n: nat)
    ensures Decimal(n)[0] == '0' <==> n == 0
  {
    if n >= 10 {
      DecimalNoLeadingZero(n / 10);
    }
  }

  /** Left padding with '0' up to `width` characters; longer strings are
      left as they are, as `%0Nd` does. */
  function PadZeros(s: string, width: nat): (r: string)
    ensures |r| == if |s| >= width then |s| else width
    ensures r[|r| - |s|..] == s
    ensures forall i :: 0 <= i < |r| - |s| ==> r[i] == '0'
  {
    if |s| >= width then s else seq(width - |s|, _ => '0') + s
  }

  /** The identifier given to the `serial`-th transaction. */
  function TransactionId(serial: nat): string {
    IdPrefix + PadZeros(Decimal(serial), IdWidth)
  }

  /** An identifier is "TXN" followed by at least six decimal digits. */
  lemma TransactionIdFormat(serial: nat)
    ensures |TransactionId(serial)| >= |IdPrefix| + IdWidth
    ensures TransactionId(serial)[..|IdPrefix|] == IdPrefix
    ensures forall i :: |IdPrefix| <= i < |TransactionId(serial)| ==> '0' <= TransactionId(serial)[i] <= '9'
  {
    var d := Decimal(serial);
    var p := PadZeros(d, IdWidth);
    forall i | 0 <= i < |p| ensures '0' <= p[i] <= '9' {
      if i >= |p| - |d| {
        assert p[i] == p[|p| - |d|..][i - (|p| - |d|)];
      }
    }
  }

  /** Reads a string of decimal digits back as a number. */
  function ParseDecimal(s: string): nat {
    if s == [] then 0 else ParseDecimal(s[..|s| - 1]) * 10 + DigitValue(s[|s| - 1])
  }

  function ParseTransactionId(id: string): nat {
    if |id| < |IdPrefix| then 0 else ParseDecimal(id[|IdPrefix|..])
  }

  lemma {:induction false} ParseDecimalOfDecimal(n: nat)
    ensures ParseDecimal(Decimal(n)) == n
  {
    if n >= 10 {
      var s := Decimal(n / 10) + [DigitChar(n % 10)];
      assert s[..|s| - 1] == Decimal(n / 10);
      ParseDecimalOfDecimal(n / 10);
    }
  }

  /** Leading zeros do not change the number read. */
  lemma {:induction false} ParseDecimalLeadingZeros(z: nat, s: string)
    ensures ParseDecimal(seq(z, _ => '0') + s) == ParseDecimal(s)
    decreases z, |s|
  {
    var zs := seq(z, _ => '0');
    if s == [] {
      assert zs + s == zs;
      if z > 0 {
        assert zs[..z - 1] == seq(z - 1, _ => '0') + [];
        ParseDecimalLeadingZeros(z - 1, []);
      }
    } else {
      var t := zs + s;
      assert t[..|t| - 1] == zs + s[..|s| - 1];
      ParseDecimalLeadingZeros(z, s[..|s| - 1]);
    }
  }

  /** Round trip: the number can be read back from its identifier. */
  lemma ParseTransactionIdOfTransactionId(serial: nat)
    ensures ParseTransactionId(TransactionId(serial)) == serial
  {
    var d := Decimal(serial);
    var p := PadZeros(d, IdWidth);
    assert TransactionId(serial)[|IdPrefix|..] == p;
    if |d| < IdWidth {
      ParseDecimalLeadingZeros(IdWidth - |d|, d);
    }
    ParseDecimalOfDecimal(serial);
  }

  /** Different counter values give different identifiers. */
  lemma TransactionIdInjective(a: nat, b: nat)
    ensures TransactionId(a) == TransactionId(b) <==> a == b
  {
    if TransactionId(a) == TransactionId(b) {
      ParseTransactionIdOfTransactionId(a);
      ParseTransactionIdOfTransactionId(b);
    }
  }

  // ---------------------------------------------------------------------
  // Dates, fines and the overdue check

  /** The fine for a loan due on `dueDate` and returned on `returnDate`:
      nothing when returned on or before the due day, otherwise 5 for every
      day after it. */
  function Fine(dueDate: int, returnDate: int): (f: nat)
    ensures f == 0 <==> returnDate <= dueDate
    ensures returnDate > dueDate ==> f == FinePerDay * (returnDate - dueDate)
  {
    if returnDate > dueDate then FinePerDay * (returnDate - dueDate) else 0
  }

  /** Returning later never costs less. */
  lemma FineMonotone(dueDate: int, r1: int, r2: int)
    requires r1 <= r2
    ensures Fine(dueDate, r1) <= Fine(dueDate, r2)
  {
  }

  /** The state `checkOverdue` leaves behind. */
  function OverdueCheck(status: TransactionStatus, dueDate: int, today: int): (r: TransactionStatus)
    ensures status != Active ==> r == status
    ensures status == Active ==> (r == Overdue <==> today > dueDate)
  {
    if status == Active && today > dueDate then Overdue else status
  }

  /** Checking twice on the same day is the same as checking once, and a
      later check keeps an overdue loan overdue. */
  lemma OverdueCheckIdempotent(status: TransactionStatus, dueDate: int, day1: int, day2: int)
    requires day1 <= day2
    ensures OverdueCheck(OverdueCheck(status, dueDate, day1), dueDate, day1) == OverdueCheck(status, dueDate, day1)
    ensures OverdueCheck(OverdueCheck(status, dueDate, day1), dueDate, day2) == OverdueCheck(status, dueDate, day2)
  {
  }

  // ---------------------------------------------------------------------

  class Transaction {
    const transactionId: string
    /** The counter value the identifier was formatted from. */
    ghost const serial: nat
    const userId: string
    const isbn: string
    const borrowDate: int
    const dueDate: int
    var returnDate: Option<int>
    var status: TransactionStatus
    var fine: int

    /** The loan-record invariant: the due date follows the loan period,
        the fine is never negative, and an unreturned loan has neither a
        return date nor a fine. */
    ghost predicate Valid()
      reads this
    {
      && transactionId == TransactionId(serial)
      && dueDate == borrowDate + LoanPeriodDays
      && fine >= 0
      && (status != Returned ==> returnDate == None && fine == 0)
      && (status == Returned ==> returnDate.Some?)
    }

    /** `new Transaction(userId, isbn)` given the incremented counter and
        the current day. */
    constructor (serial: nat, userId: string, isbn: string, today: int)
      ensures Valid()
      ensures this.serial == serial && transactionId == TransactionId(serial)
      ensures this.userId == userId && this.isbn == isbn
      ensures borrowDate == today && dueDate == today + LoanPeriodDays
      ensures status == Active && returnDate == None && fine == 0
    {
      this.serial := serial;
      this.transactionId := TransactionId(serial);
      this.userId := userId;
      this.isbn := isbn;
      this.borrowDate := today;
      this.dueDate := today + LoanPeriodDays;
      this.returnDate := None;
      this.status := Active;
      this.fine := 0;
    }

    /** `returnBook` followed by `calculateFine`: the fine is only written
        when the return is late, so a loan that was not yet returned ends
        with exactly `Fine(dueDate, today)`. */
    method ReturnBook(today: int)
      requires Valid()
      modifies this
      ensures Valid()
      ensures status == Returned && returnDate == Some(today)
      ensures fine == if today > dueDate then Fine(dueDate, today) else old(fine)
      ensures old(status) != Returned ==> fine == Fine(dueDate, today)
    {
      returnDate := Some(today);
      status := Returned;
      CalculateFine();
    }

    method CalculateFine()
      requires returnDate.Some? && status == Returned
      requires fine >= 0 && transactionId == TransactionId(serial) && dueDate == borrowDate + LoanPeriodDays
      modifies this`fine
      ensures Valid()
      ensures fine == if returnDate.value > dueDate then Fine(dueDate, returnDate.value) else old(fine)
    {
      if returnDate.value > dueDate {
        var daysOverdue := returnDate.value - dueDate;
        fine := daysOverdue * FinePerDay;
      }
    }

    /** `checkOverdue`: an active loan past its due day becomes overdue;
        nothing else changes. */
    method CheckOverdue(today: int)
      requires Valid()
      modifies this`status
      ensures Valid()
      ensures status == OverdueCheck(old(status), dueDate, today)
    {
      if status == Active && today > dueDate {
        status := Overdue;
      }
    }
  }
}
