/** `days_from_civil`: days from 1970-01-01 to a proleptic-Gregorian date. Years are unbounded here;
    the i64 arithmetic agrees for every year whose day number fits. */
module Calendar {
  import opened Nonlinear

  datatype Date = Date(y: int, m: int, d: int)

  predicate Leap(y: int) { y % 4 == 0 && (y % 100 != 0 || y % 400 == 0) }

  function DaysInMonth(y: int, m: int): int {
    if m == 2 then (if Leap(y) then 29 else 28)
    else if m == 4 || m == 6 || m == 9 || m == 11 then 30
    else 31
  }

  predicate Valid(t: Date) { 1 <= t.m <= 12 && 1 <= t.d <= DaysInMonth(t.y, t.m) }

  function NextDay(t: Date): (n: Date)
    requires Valid(t)
    ensures Valid(n)
  {
    if t.d < DaysInMonth(t.y, t.m) then Date(t.y, t.m, t.d + 1)
    else if t.m < 12 then Date(t.y, t.m + 1, 1)
    else Date(t.y + 1, 1, 1)
  }

  predicate Before(a: Date, b: Date) {
    a.y < b.y || (a.y == b.y && (a.m < b.m || (a.m == b.m && a.d < b.d)))
  }

  /** `/` on i64 truncates toward zero. */
  function Quot(a: int, b: int): int
    requires b > 0
  {
    if a >= 0 then a / b else -(-a / b)
  }

  function Era(y: int): int { Quot(if y >= 0 then y else y - 399, 400) }

  function DaysFromCivil(y0: int, m: int, d: int): int {
    var y := if m <= 2 then y0 - 1 else y0;
    var era := Era(y);
    var yoe := y - era * 400;
    var mp := (m + 9) % 12;
    var doy := Quot(153 * mp + 2, 5) + d - 1;
    var doe := yoe * 365 + Quot(yoe, 4) - Quot(yoe, 100) + doy;
    era * 146097 + doe - 719468
  }

  function Day(t: Date): int { DaysFromCivil(t.y, t.m, t.d) }

  /** The truncating quotient of the shifted year is the floor of y / 400, for negative years too. */
  lemma EraIsFloor(y: int)
    ensures 0 <= y - Era(y) * 400 < 400
  {
  }

  /** The first day of a computational year, which starts in March. */
  function MarchFirst(y: int): int {
    var era := Era(y);
    var yoe := y - era * 400;
    era * 146097 + yoe * 365 + Quot(yoe, 4) - Quot(yoe, 100) - 719468
  }

  lemma LeapInEra(e: int, k: int)
    ensures Leap(400 * e + k) == Leap(k)
  {
    ModShift(k, 100 * e, 4);
    ModShift(k, 4 * e, 100);
    ModShift(k, e, 400);
  }

  lemma NextQuot(k: int, n: int)
    requires k >= 0 && (n == 4 || n == 100)
    ensures Quot(k + 1, n) == Quot(k, n) + (if (k + 1) % n == 0 then 1 else 0)
  {
    if n == 4 { assert (k + 1) / 4 == k / 4 + (if (k + 1) % 4 == 0 then 1 else 0); }
    else { assert (k + 1) / 100 == k / 100 + (if (k + 1) % 100 == 0 then 1 else 0); }
  }

  lemma EraStep(y: int)
    ensures Era(y + 1) == if y - Era(y) * 400 == 399 then Era(y) + 1 else Era(y)
  {
  }

  lemma NextMarchFirst(y: int)
    ensures MarchFirst(y + 1) == MarchFirst(y) + (if Leap(y + 1) then 366 else 365)
  {
    EraIsFloor(y);
    EraStep(y);
    var k := y - Era(y) * 400;
    LeapInEra(Era(y), k + 1);
    NextQuot(k, 4);
    NextQuot(k, 100);
    hide Era, Quot;
    assert y + 1 == 400 * Era(y) + (k + 1);
    if k == 399 {
      CenturyDays();
    } else {
      assert Leap(k + 1) == ((k + 1) % 4 == 0 && (k + 1) % 100 != 0);
      assert (k + 1) % 100 == 0 ==> (k + 1) % 4 == 0;
    }
  }

  lemma CenturyDays()
    ensures Leap(400) && Quot(399, 4) == 99 && Quot(399, 100) == 3 && Quot(0, 4) == 0 && Quot(0, 100) == 0
  {
  }

  lemma DaySplit(t: Date)
    requires Valid(t)
    ensures Day(t) == if t.m <= 2 then MarchFirst(t.y - 1) + (if t.m == 1 then 306 else 337) + t.d - 1
                      else MarchFirst(t.y) + (153 * (t.m - 3) + 2) / 5 + t.d - 1
  {
    assert (t.m + 9) % 12 == if t.m <= 2 then t.m + 9 else t.m - 3;
  }

  lemma MonthLength(y: int, m: int)
    requires 3 <= m < 12
    ensures (153 * (m - 2) + 2) / 5 - (153 * (m - 3) + 2) / 5 == DaysInMonth(y, m)
  {
  }

  /** The day after a valid date of any year has the next number. */
  lemma NextDayIsOneMore(t: Date)
    requires Valid(t)
    ensures Day(NextDay(t)) == Day(t) + 1
  {
    hide Day, MarchFirst, Leap;
    var n := NextDay(t);
    DaySplit(t);
    DaySplit(n);
    if t.m == 2 && n.m == 3 { NextMarchFirst(t.y - 1); }
    if t.m >= 3 && n.m == t.m + 1 { MonthLength(t.y, t.m); }
  }

  lemma EpochIsZero()
    ensures Day(Date(1970, 1, 1)) == 0
  {
  }

  lemma NextDayIsLeast(a: Date, b: Date)
    requires Valid(a) && Valid(b) && Before(a, b)
    ensures NextDay(a) == b || Before(NextDay(a), b)
  {
  }

  /** Later dates have larger numbers, so no two dates share one. */
  lemma {:induction false} StrictlyMonotone(a: Date, b: Date)
    requires Valid(a) && Valid(b) && Before(a, b)
    ensures Day(a) < Day(b)
    decreases b.y - a.y, 12 - a.m, 31 - a.d
  {
    NextDayIsOneMore(a);
    NextDayIsLeast(a, b);
    if NextDay(a) != b { StrictlyMonotone(NextDay(a), b); }
  }

  lemma Injective(a: Date, b: Date)
    requires Valid(a) && Valid(b) && Day(a) == Day(b)
    ensures a == b
  {
    if Before(a, b) { StrictlyMonotone(a, b); }
    if Before(b, a) { StrictlyMonotone(b, a); }
  }
}
