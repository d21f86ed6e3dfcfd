/**
 * Cell values of the clinical-score tables and the order pandas sorts them in.
 *
 * Every number (patient id, score, visit count, month, year) is a `Num`;
 * NaN and NaT are both `Null`. Dates are already-parsed calendar triples.
 */
module Values {

  /** A calendar date, ordered by year, then month, then day. */
  datatype Date = Date(year: int, month: int, day: int)

  predicate IsLeapYear(y: int) {
    y % 4 == 0 && (y % 100 != 0 || y % 400 == 0)
  }

  function DaysInMonth(y: int, m: int): (n: int)
    requires 1 <= m <= 12
    ensures 28 <= n <= 31
  {
    if m == 2 then (if IsLeapYear(y) then 29 else 28)
    else if m == 4 || m == 6 || m == 9 || m == 11 then 30
    else 31
  }

  /** A date that exists on the Gregorian calendar. */
  predicate ValidDate(d: Date) {
    1 <= d.month <= 12 && 1 <= d.day <= DaysInMonth(d.year, d.month)
  }

  predicate DateLt(a: Date, b: Date) {
    || a.year < b.year
    || (a.year == b.year && a.month < b.month)
    || (a.year == b.year && a.month == b.month && a.day < b.day)
  }

  /** One cell of a table. */
  datatype Value =
    | Num(x: real)                     // any numeric cell
    | Day(date: Date)                  // a calendar date (time of day discarded)
    | Stamp(date: Date, secs: nat)     // a parsed timestamp: a date and the seconds into it
    | Period(year: int, month: int)    // a monthly period such as 2020-03
    | Null                             // NaN or NaT

  /**
   * Cells of different kinds are ordered by kind; Null comes last, which is
   * where pandas puts missing values when it sorts.
   */
  function Rank(v: Value): nat {
    match v
    case Num(_) => 0
    case Day(_) => 1
    case Stamp(_, _) => 2
    case Period(_, _) => 3
    case Null => 4
  }

  /** The strict order used to sort cells (group keys, pivot labels, dates). */
  predicate ValueLt(a: Value, b: Value) {
    if Rank(a) != Rank(b) then Rank(a) < Rank(b)
    else match a
      case Num(x) => x < b.x
      case Day(d) => DateLt(d, b.date)
      case Stamp(d, s) => DateLt(d, b.date) || (d == b.date && s < b.secs)
      case Period(y, m) => y < b.year || (y == b.year && m < b.month)
      case Null => false
  }

  predicate ValueLe(a: Value, b: Value) {
    a == b || ValueLt(a, b)
  }

  lemma ValueLtIrreflexive(a: Value)
    ensures !ValueLt(a, a)
  {
  }

  lemma ValueLtTransitive(a: Value, b: Value, c: Value)
    requires ValueLt(a, b) && ValueLt(b, c)
    ensures ValueLt(a, c)
  {
  }

  lemma ValueLtTotal(a: Value, b: Value)
    requires a != b
    ensures ValueLt(a, b) || ValueLt(b, a)
  {
  }

  /** Cell subtraction: NaN unless both cells are numbers. */
  function Sub(a: Value, b: Value): Value {
    if a.Num? && b.Num? then Num(a.x - b.x) else Null
  }

  datatype Option<T> = None | Some(value: T)
}
