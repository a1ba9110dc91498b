/** Calendar dates (`DateOnly`) with the two operations the core uses:
    `AddYears` and the age computation of `DateTimeExtensions`. */
module Dates {

  datatype Date = Date(year: int, month: int, day: int)

  predicate IsLeapYear(y: int) {
    y % 4 == 0 && (y % 100 != 0 || y % 400 == 0)
  }

  function DaysInMonth(y: int, m: int): int
    requires 1 <= m <= 12
  {
    if m == 2 then (if IsLeapYear(y) then 29 else 28)
    else if m == 4 || m == 6 || m == 9 || m == 11 then 30
    else 31
  }

  predicate Valid(d: Date) {
    1 <= d.month <= 12 && 1 <= d.day <= DaysInMonth(d.year, d.month)
  }

  /** Chronological order: year, then month, then day. */
  predicate Before(a: Date, b: Date) {
    a.year < b.year
    || (a.year == b.year && a.month < b.month)
    || (a.year == b.year && a.month == b.month && a.day < b.day)
  }

  predicate OnOrBefore(a: Date, b: Date) {
    a == b || Before(a, b)
  }

  /** `AddYears(n)`: same month and day `n` years away; 29 February becomes
      28 February when the target year is not a leap year. */
  function AddYears(d: Date, n: int): (r: Date)
    ensures r.year == d.year + n && r.month == d.month
    ensures Valid(d) ==> Valid(r)
    ensures Valid(d) && !(d.month == 2 && d.day == 29) ==> r.day == d.day
    ensures d.month == 2 && d.day == 29 ==> r.day == if IsLeapYear(d.year + n) then 29 else 28
  {
    var y := d.year + n;
    if d.month == 2 && d.day == 29 && !IsLeapYear(y) then Date(y, 2, 28) else Date(y, d.month, d.day)
  }

  /** `CalculateAge`: the year difference, less one when the birthday has
      not yet come round this year. */
  function CalculateAge(dob: Date, today: Date): (age: int)
    ensures age == today.year - dob.year || age == today.year - dob.year - 1
    ensures age == today.year - dob.year - 1 <==> Before(AddYears(today, -(today.year - dob.year)), dob)
  {
    var age := today.year - dob.year;
    if Before(AddYears(today, -age), dob) then age - 1 else age
  }

  /** The birthday of `dob` has not yet been reached in `today`'s year:
      month and day of `dob` come after those of `today`. */
  predicate BirthdayStillAhead(dob: Date, today: Date) {
    dob.month > today.month || (dob.month == today.month && dob.day > today.day)
  }

  /** For valid dates the decrement happens exactly when the birthday is
      still ahead this year; a 29 February `today` clamped to 28 February
      in a common year changes nothing because `dob` cannot be 29 February
      in that year. */
  lemma AgeDecrementIffBirthdayAhead(dob: Date, today: Date)
    requires Valid(dob) && Valid(today)
    ensures CalculateAge(dob, today) == today.year - dob.year - (if BirthdayStillAhead(dob, today) then 1 else 0)
  {
  }

  /** On the birthday itself the age is the full year difference. */
  lemma AgeOnBirthday(dob: Date, today: Date)
    requires Valid(dob) && Valid(today)
    requires dob.month == today.month && dob.day == today.day
    ensures CalculateAge(dob, today) == today.year - dob.year
  {
    AgeDecrementIffBirthdayAhead(dob, today);
  }

  /** Nobody born on or before today has a negative age. */
  lemma AgeNonNegative(dob: Date, today: Date)
    requires Valid(dob) && Valid(today)
    requires OnOrBefore(dob, today)
    ensures CalculateAge(dob, today) >= 0
  {
    AgeDecrementIffBirthdayAhead(dob, today);
  }

  /** Age thresholds as date bounds: someone is at least `k` years old
      exactly when they were born on or before `today.AddYears(-k)`. */
  lemma AgeAtLeastIffBornBy(dob: Date, today: Date, k: int)
    requires Valid(dob) && Valid(today)
    ensures CalculateAge(dob, today) >= k <==> OnOrBefore(dob, AddYears(today, -k))
  {
    AgeDecrementIffBirthdayAhead(dob, today);
  }
}
