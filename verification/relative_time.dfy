/** `formatRelativeTime` (src/lib/utils.ts) as a function of the whole-day
    difference between today and the given date. */
module RelativeTime {
  import opened Numerals

  /** "`n` `unit` ago", with the unit pluralised unless `n` is one. */
  function CountAgo(n: int, unit: string): string
  {
    IntToString(n) + " " + (if n == 1 then unit else unit + "s") + " ago"
  }

  /** The label shown for a date `days` whole days in the past (negative
      for dates in the future). */
  function FormatRelativeTime(days: int): (r: string)
    ensures days == 0 <==> r == "today"
    ensures days == 1 <==> r == "yesterday"
  {
    if days == 0 then "today"
    else if days == 1 then "yesterday"
    else if days < 7 then CountAgo(days, "day")
    else if days < 30 then CountAgo(days / 7, "week")
    else if days < 365 then CountAgo(days / 30, "month")
    else CountAgo(days / 365, "year")
  }

  /** Every day difference below a week other than 0 and 1, negative ones
      included, is reported in plural days: the singular "day" branch is
      never taken. */
  lemma DaysBucket(days: int)
    requires days < 7 && days != 0 && days != 1
    ensures FormatRelativeTime(days) == IntToString(days) + " days ago"
  {
  }

  /** The count reported in a bucket of `size` days is the number of whole
      units elapsed; `CountAgo` makes the unit singular exactly when that
      number is one. */
  lemma UnitBucket(days: int, n: int)
    requires 7 <= days
    requires var size := BucketSize(days); n * size <= days < (n + 1) * size
    ensures n >= 1
    ensures FormatRelativeTime(days) == CountAgo(n, BucketUnit(days))
  {
    if days < 30 {
      assert days / 7 == n;
    } else if days < 365 {
      assert days / 30 == n;
    } else {
      assert days / 365 == n;
    }
  }

  /** Days per unit for the bucket `days` falls in (at least a week). */
  function BucketSize(days: int): nat
  {
    if days < 30 then 7 else if days < 365 then 30 else 365
  }

  function BucketUnit(days: int): string
  {
    if days < 30 then "week" else if days < 365 then "month" else "year"
  }
}
