/** The date resolver shared by the Crossref scraper and the Crossref refiner:
    choosing among candidate date fields, deriving the precision from the
    number of components, padding with 1s and building the calendar date. */
module Dates {
  import opened Wrappers
  import opened Model

  /** The first present candidate: the scan that stops at its first hit. */
  function FirstPresent<T>(cs: seq<Option<T>>): (r: Option<T>)
    ensures r.None? <==> forall i :: 0 <= i < |cs| ==> cs[i].None?
    ensures forall k :: 0 <= k < |cs| && cs[k].Some? && (forall i :: 0 <= i < k ==> cs[i].None?) ==> r == cs[k]
  {
    if cs == [] then None
    else if cs[0].Some? then cs[0]
    else
      var r := FirstPresent(cs[1..]);
      assert forall k :: 1 <= k < |cs| ==> cs[k] == cs[1..][k - 1];
      r
  }

  /** The last present candidate: the scan that keeps overwriting without `break`. */
  function LastPresent<T>(cs: seq<Option<T>>): (r: Option<T>)
    ensures r.None? <==> forall i :: 0 <= i < |cs| ==> cs[i].None?
    ensures forall k :: 0 <= k < |cs| && cs[k].Some? && (forall i :: k < i < |cs| ==> cs[i].None?) ==> r == cs[k]
  {
    if cs == [] then None
    else if cs[|cs| - 1].Some? then cs[|cs| - 1]
    else
      var p := cs[..|cs| - 1];
      assert forall k :: 0 <= k < |p| ==> p[k] == cs[k];
      assert cs == p + [cs[|cs| - 1]];
      LastPresent(p)
  }

  /** The table `[year, month, day][n - 1]`, with Python's reading of index -1
      when there are no components, and an IndexError past three. */
  function PrecisionOf(n: nat): Option<DatePrecision>
  {
    if n == 1 then Some(Year)
    else if n == 2 then Some(Month)
    else if n == 3 || n == 0 then Some(Day)
    else None
  }

  /** `parts += [1] * (3 - len(parts))`: a negative repeat count adds nothing. */
  function Pad(parts: seq<int>): (r: seq<int>)
    ensures |parts| <= 3 ==> |r| == 3
    ensures |parts| <= |r| && r[..|parts|] == parts
    ensures forall i :: |parts| <= i < |r| ==> r[i] == 1
    decreases 3 - |parts|
  {
    if |parts| >= 3 then parts else Pad(parts + [1])
  }

  predicate IsLeapYear(y: int)
  {
    y % 4 == 0 && (y % 100 != 0 || y % 400 == 0)
  }

  function DaysInMonth(y: int, m: int): int
    requires 1 <= m <= 12
  {
    if m == 2 then (if IsLeapYear(y) then 29 else 28)
    else if m == 4 || m == 6 || m == 9 || m == 11 then 30
    else 31
  }

  /** What `datetime(year, month, day)` accepts without raising ValueError. */
  predicate IsValidDate(d: Date)
  {
    1 <= d.year <= 9999 && 1 <= d.month <= 12 && 1 <= d.day <= DaysInMonth(d.year, d.month)
  }

  /** Precision from the component count, padding, then `datetime(*parts)`. */
  function ResolveParts(parts: seq<int>): (r: Result<DateInfo, Failure>)
    ensures |parts| > 3 <==> r == Err(PrecisionIndex(|parts|))
    ensures r.Ok? ==> IsValidDate(r.value.date)
    ensures r.Ok? ==> r.value.date.year == (if |parts| >= 1 then parts[0] else 1)
    ensures r.Ok? ==> r.value.date.month == (if |parts| >= 2 then parts[1] else 1)
    ensures r.Ok? ==> r.value.date.day == (if |parts| >= 3 then parts[2] else 1)
    ensures r.Ok? ==> (r.value.precision == Year <==> |parts| == 1)
    ensures r.Ok? ==> (r.value.precision == Month <==> |parts| == 2)
    ensures r.Ok? ==> (r.value.precision == Day <==> |parts| == 3 || |parts| == 0)
    ensures |parts| <= 3 && r.Err? ==> r.error.InvalidDate? && !IsValidDate(r.error.date)
    ensures |parts| <= 3 ==> (r.Ok? <==> IsValidDate(Date(Pad(parts)[0], Pad(parts)[1], Pad(parts)[2])))
    ensures |parts| <= 3 && r.Err? ==> r.error == InvalidDate(Date(Pad(parts)[0], Pad(parts)[1], Pad(parts)[2]))
  {
    match PrecisionOf(|parts|)
    case None => Err(PrecisionIndex(|parts|))
    case Some(precision) =>
      var padded := Pad(parts);
      var date := Date(padded[0], padded[1], padded[2]);
      if IsValidDate(date) then Ok(DateInfo(date, precision)) else Err(InvalidDate(date))
  }
}
