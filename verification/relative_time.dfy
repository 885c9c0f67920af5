/** `formatDate` of the inbox and trash pages: how long ago an instant was,
    in whole minutes, hours or days, or the calendar date once a week has
    passed. The current time and the locale's date rendering are
    parameters. */
module RelativeTime {
  import opened Primitives
  import opened Text

  const MsPerMinute: int := 60000
  const MsPerHour: int := 3600000
  const MsPerDay: int := 86400000
  /** Days after which the page stops counting and shows the date. */
  const DaysShown: int := 7

  /** The bucket an elapsed time falls in. */
  datatype Label =
    | JustNow
    | MinutesAgo(minutes: nat)
    | HoursAgo(hours: nat)
    | DaysAgo(days: nat)
    | CalendarDate(date: Instant)

  /** `Math.floor(diff / unit)`: Dafny's division already rounds down for a
      positive divisor, also when `date` lies in the future. */
  function Floor(diff: int, unit: int): (q: int)
    requires unit > 0
    ensures q * unit <= diff < (q + 1) * unit
  {
    diff / unit
  }

  /** The bucket for `date` seen at `now`. The tests run in the page's
      order: minutes, then hours, then days, each on its own floor. */
  function Classify(date: Instant, now: Instant): (l: Label)
    ensures l == JustNow <==> now - date < MsPerMinute
    ensures l.MinutesAgo? <==> MsPerMinute <= now - date < MsPerHour
    ensures l.HoursAgo? <==> MsPerHour <= now - date < MsPerDay
    ensures l.DaysAgo? <==> MsPerDay <= now - date < DaysShown * MsPerDay
    ensures l.CalendarDate? <==> now - date >= DaysShown * MsPerDay
    ensures l.MinutesAgo? ==> && 1 <= l.minutes < 60
                              && l.minutes * MsPerMinute <= now - date < (l.minutes + 1) * MsPerMinute
    ensures l.HoursAgo? ==> && 1 <= l.hours < 24
                            && l.hours * MsPerHour <= now - date < (l.hours + 1) * MsPerHour
    ensures l.DaysAgo? ==> && 1 <= l.days < DaysShown
                           && l.days * MsPerDay <= now - date < (l.days + 1) * MsPerDay
    ensures l.CalendarDate? ==> l.date == date
  {
    var diff := now - date;
    var mins := Floor(diff, MsPerMinute);
    var hours := Floor(diff, MsPerHour);
    var days := Floor(diff, MsPerDay);
    if mins < 1 then JustNow
    else if mins < 60 then MinutesAgo(mins)
    else if hours < 24 then HoursAgo(hours)
    else if days < DaysShown then DaysAgo(days)
    else CalendarDate(date)
  }

  /** The text shown; `localeDate` stands for `toLocaleDateString`. */
  function Render(l: Label, localeDate: Instant -> string): string
  {
    match l
    case JustNow => "Just now"
    case MinutesAgo(n) => NatToString(n) + "m ago"
    case HoursAgo(n) => NatToString(n) + "h ago"
    case DaysAgo(n) => NatToString(n) + "d ago"
    case CalendarDate(d) => localeDate(d)
  }

  /** `formatDate(date)` at `now`. */
  function FormatDate(date: Instant, now: Instant, localeDate: Instant -> string): (s: string)
    ensures now - date < MsPerMinute ==> s == "Just now"
    ensures now - date >= DaysShown * MsPerDay ==> s == localeDate(date)
    ensures MsPerMinute <= now - date < DaysShown * MsPerDay ==>
              && |s| >= 6 && s[|s| - 4..] == " ago"
              && (forall i | 0 <= i < |s| - 5 :: IsDigit(s[i]))
              && ParseNat(s[..|s| - 5]) == match Classify(date, now)
                                           case MinutesAgo(n) => n
                                           case HoursAgo(n) => n
                                           case DaysAgo(n) => n
                                           case _ => 0
    ensures Classify(date, now).MinutesAgo? ==> s == NatToString(Classify(date, now).minutes) + "m ago"
    ensures Classify(date, now).HoursAgo? ==> s == NatToString(Classify(date, now).hours) + "h ago"
    ensures Classify(date, now).DaysAgo? ==> s == NatToString(Classify(date, now).days) + "d ago"
  {
    var l := Classify(date, now);
    var s := Render(l, localeDate);
    match l
    case MinutesAgo(n) => ReadBack(n, "m ago"); s
    case HoursAgo(n) => ReadBack(n, "h ago"); s
    case DaysAgo(n) => ReadBack(n, "d ago"); s
    case _ => s
  }

  /** The count in front of a unit suffix reads back as the count. */
  lemma ReadBack(n: nat, suffix: string)
    requires |suffix| == 5
    ensures var s := NatToString(n) + suffix;
            && s[..|s| - 5] == NatToString(n)
            && s[|s| - 4..] == suffix[1..]
            && ParseNat(s[..|s| - 5]) == n
  {
    var s := NatToString(n) + suffix;
    assert s[..|s| - 5] == NatToString(n);
    ParseNatToString(n);
  }

  /** Coarseness of a bucket: 0 for "Just now" up to 4 for the date. */
  function Rank(l: Label): nat
  {
    match l
    case JustNow => 0
    case MinutesAgo(_) => 1
    case HoursAgo(_) => 2
    case DaysAgo(_) => 3
    case CalendarDate(_) => 4
  }

  /** As time passes, a memo's label only ever moves to the same or a
      coarser bucket, and within a bucket the count never goes down. */
  lemma LaterNeverLooksNewer(date: Instant, now: Instant, later: Instant)
    requires now <= later
    ensures Rank(Classify(date, now)) <= Rank(Classify(date, later))
    ensures Classify(date, now).MinutesAgo? && Classify(date, later).MinutesAgo? ==>
              Classify(date, now).minutes <= Classify(date, later).minutes
    ensures Classify(date, now).HoursAgo? && Classify(date, later).HoursAgo? ==>
              Classify(date, now).hours <= Classify(date, later).hours
    ensures Classify(date, now).DaysAgo? && Classify(date, later).DaysAgo? ==>
              Classify(date, now).days <= Classify(date, later).days
  {
  }

  /** The boundaries: 59 999 ms is still "Just now", one minute is "1m ago",
      59 min 59.999 s is "59m ago", an hour is "1h ago", a day "1d ago", and
      seven days switch to the date. */
  lemma Boundaries(date: Instant)
    ensures Classify(date, date + 59999) == JustNow
    ensures Classify(date, date + MsPerMinute) == MinutesAgo(1)
    ensures Classify(date, date + MsPerHour - 1) == MinutesAgo(59)
    ensures Classify(date, date + MsPerHour) == HoursAgo(1)
    ensures Classify(date, date + MsPerDay) == DaysAgo(1)
    ensures Classify(date, date + DaysShown * MsPerDay - 1) == DaysAgo(6)
    ensures Classify(date, date + DaysShown * MsPerDay) == CalendarDate(date)
  {
  }

  /** An instant in the future (a clock ahead of the browser's) reads as
      "Just now". */
  lemma FutureIsJustNow(date: Instant, now: Instant, localeDate: Instant -> string)
    requires now < date
    ensures FormatDate(date, now, localeDate) == "Just now"
  {
  }
}
