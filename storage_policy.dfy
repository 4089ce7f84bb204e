/** Per-document-type policy: the storage mode with its one-letter path
    segment, and the inactive lifetime with the offset a Temporary document's
    folder date (and expiration) is projected forward by. */
module StoragePolicy {
  import opened Failures
  import opened CivilTime
  import opened DecimalText

  /** EnumStorageMode. `Unnamed(raw)` is an integer cast to the enum that
      names none of its members, such as `(EnumStorageMode)0`. */
  datatype StorageMode =
    | Replaceable
    | Editable
    | WriteOnceReadMany
    | Temporary
    | Versioned
    | Unnamed(raw: int)

  /** EnumDocumentLifetimes. `Unnamed(raw)` is a stored tinyint that names
      none of its members. */
  datatype Lifetime =
    | HoursOne | HoursFour | HoursTwelve
    | DayOne | WeekOne
    | MonthOne | MonthsThree | MonthsSix
    | YearOne | YearsTwo | YearsThree | YearsFour | YearsSeven | YearsTen
    | Never
    | ParentDetermined
    | Unnamed(raw: int)

  // ---------------------------------------------------------------------
  // Mode letters

  /** The mode whose path segment is `letter`, if any: the inverse table. */
  function ModeOfLetter(letter: string): Option<StorageMode> {
    if letter == "W" then Some(WriteOnceReadMany)
    else if letter == "E" then Some(Editable)
    else if letter == "T" then Some(Temporary)
    else if letter == "V" then Some(Versioned)
    else if letter == "R" then Some(Replaceable)
    else None
  }

  /** GetModeLetter: the one-letter path segment of a storage mode; a value
      outside the five named modes fails. The letter determines the mode. */
  function ModeLetter(mode: StorageMode): (r: Result<string>)
    ensures r.Success? <==> !mode.Unnamed?
    ensures r.Failure? ==> r.error == InvalidMode
    ensures r.Success? ==> |r.value| == 1 && ModeOfLetter(r.value) == Some(mode)
  {
    match mode
    case WriteOnceReadMany => Success("W")
    case Editable => Success("E")
    case Temporary => Success("T")
    case Versioned => Success("V")
    case Replaceable => Success("R")
    case Unnamed(_) => Failure(InvalidMode)
  }

  /** No two modes share a letter. */
  lemma ModeLetterInjective(a: StorageMode, b: StorageMode)
    requires ModeLetter(a).Success? && ModeLetter(a) == ModeLetter(b)
    ensures a == b
  {
  }

  /** Every letter the inverse table knows comes from exactly its mode. */
  lemma ModeOfLetterRoundTrip(letter: string)
    requires ModeOfLetter(letter).Some?
    ensures ModeLetter(ModeOfLetter(letter).value) == Success(letter)
  {
  }

  // ---------------------------------------------------------------------
  // Lifetime offsets

  /** How a lifetime moves "now": a number of hours or days, of calendar
      months or of calendar years, or straight to DateTime.MaxValue. */
  datatype Offset =
    | ByHours(hours: nat)
    | ByDays(days: nat)
    | ByMonths(months: nat)
    | ByYears(years: nat)
    | ToMaximum

  /** The one offset table shared by the folder date and the expiration
      date. ParentDetermined and unnamed values have no entry, and only
      Never goes to DateTime.MaxValue. */
  function LifetimeOffset(lifetime: Lifetime): (r: Option<Offset>)
    ensures r.None? <==> lifetime == ParentDetermined || lifetime.Unnamed?
    ensures r == Some(ToMaximum) <==> lifetime == Never
  {
    match lifetime
    case HoursOne => Some(ByHours(1))
    case HoursFour => Some(ByHours(4))
    case HoursTwelve => Some(ByHours(12))
    case DayOne => Some(ByDays(1))
    case WeekOne => Some(ByDays(7))
    case MonthOne => Some(ByMonths(1))
    case MonthsThree => Some(ByMonths(3))
    case MonthsSix => Some(ByMonths(6))
    case YearOne => Some(ByYears(1))
    case YearsTwo => Some(ByYears(2))
    case YearsThree => Some(ByYears(3))
    case YearsFour => Some(ByYears(4))
    case YearsSeven => Some(ByYears(7))
    case YearsTen => Some(ByYears(10))
    case Never => Some(ToMaximum)
    case ParentDetermined => None
    case Unnamed(_) => None
  }

  /** The span of an hour or day offset, in ticks. */
  function FixedSpan(offset: Offset): nat {
    match offset
    case ByHours(h) => h * TicksPerHour
    case ByDays(n) => n * TicksPerDay
    case _ => 0
  }

  /** Moves "now" by an offset: never backwards, and None exactly where .NET
      throws for passing DateTime.MaxValue. */
  function ApplyOffset(now: Instant, offset: Offset): (r: Option<Instant>)
    requires WellFormed(now)
    ensures r.Some? ==> WellFormed(r.value) && Ticks(now) <= Ticks(r.value)
    ensures offset.ByHours? || offset.ByDays? ==>
              && (r.Some? ==> Ticks(r.value) == Ticks(now) + FixedSpan(offset))
              && (r.None? <==> Ticks(now) + FixedSpan(offset) > Ticks(MaxValue))
    ensures offset == ToMaximum ==> r == Some(MaxValue)
  {
    match offset
    case ByHours(h) => AddHours(now, h)
    case ByDays(n) => AddDays(now, n)
    case ByMonths(n) =>
      if AddMonths(now, n).Some? then AddMonthsNotBefore(now, n); AddMonths(now, n)
      else None
    case ByYears(n) =>
      AddYearsIsTwelveMonths(now, n);
      if AddYears(now, n).Some? then AddMonthsNotBefore(now, 12 * n); AddYears(now, n)
      else None
    case ToMaximum =>
      MaxValueTicks();
      DayNumberAtMost(now);
      Some(MaxValue)
  }

  /** The instant whose year and month name a document's folder: "now" for
      every mode but Temporary, which projects "now" by its lifetime's offset.
      For a Temporary document it is also its expiration instant. */
  function FolderInstant(mode: StorageMode, lifetime: Lifetime, now: Instant): (r: Result<Instant>)
    requires WellFormed(now)
    ensures r.Success? ==> WellFormed(r.value) && Ticks(now) <= Ticks(r.value)
    ensures mode != Temporary ==> r == Success(now)
    ensures mode == Temporary && LifetimeOffset(lifetime).None? ==> r == Failure(UnsupportedLifetime)
    ensures mode == Temporary && LifetimeOffset(lifetime).Some? && r.Failure? ==> r.error == DateOutOfRange
  {
    if mode != Temporary then Success(now)
    else
      match LifetimeOffset(lifetime)
      case None => Failure(UnsupportedLifetime)
      case Some(offset) =>
        MaxValueTicks();
        match ApplyOffset(now, offset)
        case None => Failure(DateOutOfRange)
        case Some(u) => Success(u)
  }

  /** The two-level temporal segment "yyyy", "MM" of an instant. */
  function YearMonth(t: Instant): seq<string>
    requires WellFormed(t)
  {
    [Pad(t.year, 4), Pad(t.month, 2)]
  }

  /** DatePath: the temporal segment of a document's folder. */
  function DatePath(mode: StorageMode, lifetime: Lifetime, now: Instant): (r: Result<seq<string>>)
    requires WellFormed(now)
    ensures r.Success? <==> FolderInstant(mode, lifetime, now).Success?
    ensures r.Failure? ==> r.error == FolderInstant(mode, lifetime, now).error
    ensures r.Success? ==> |r.value| == 2 && |r.value[0]| == 4 && |r.value[1]| == 2
                           && AllDigits(r.value[0]) && AllDigits(r.value[1])
  {
    var u :- FolderInstant(mode, lifetime, now);
    Success(YearMonth(u))
  }

  // ---------------------------------------------------------------------
  // Properties of the temporal segment

  /** The segment is a four-digit year and a two-digit month, and reads back
      as the year and month of the folder instant. */
  lemma DatePathReadsBack(mode: StorageMode, lifetime: Lifetime, now: Instant)
    requires WellFormed(now)
    requires DatePath(mode, lifetime, now).Success?
    ensures var s := DatePath(mode, lifetime, now).value;
            var u := FolderInstant(mode, lifetime, now).value;
            && |s| == 2 && |s[0]| == 4 && |s[1]| == 2
            && AllDigits(s[0]) && AllDigits(s[1])
            && Value(s[0]) == u.year && Value(s[1]) == u.month
  {
    var u := FolderInstant(mode, lifetime, now).value;
    PadRoundTrip(u.year, 4);
    PadRoundTrip(u.month, 2);
  }

  /** Every mode but Temporary uses the unprojected current instant, and never fails. */
  lemma DatePathNotTemporary(mode: StorageMode, lifetime: Lifetime, now: Instant)
    requires WellFormed(now) && mode != Temporary
    ensures DatePath(mode, lifetime, now) == Success(YearMonth(now))
  {
  }

  /** A Temporary lifetime of Never files under DateTime.MaxValue: 9999/12. */
  lemma DatePathNever(now: Instant)
    requires WellFormed(now)
    ensures FolderInstant(Temporary, Never, now) == Success(MaxValue)
    ensures DatePath(Temporary, Never, now) == Success(["9999", "12"])
  {
    MaxValueTicks();
    assert Pad(9999, 4) == "9999";
    assert Pad(12, 2) == "12";
  }

  /** ParentDetermined and unnamed lifetimes have no offset, so a Temporary
      type with one fails. */
  lemma DatePathParentDetermined(lifetime: Lifetime, now: Instant)
    requires WellFormed(now)
    requires lifetime == ParentDetermined || lifetime.Unnamed?
    ensures DatePath(Temporary, lifetime, now) == Failure(UnsupportedLifetime)
  {
  }

  /** Hour, day and week lifetimes move "now" forward by exactly their span
      (HoursOne: one hour, so the expiration lies in [now+59min, now+60min]),
      failing only when that passes DateTime.MaxValue. */
  lemma TickLifetimeExact(lifetime: Lifetime, now: Instant)
    requires WellFormed(now)
    requires lifetime in {HoursOne, HoursFour, HoursTwelve, DayOne, WeekOne}
    ensures var span := FixedSpan(LifetimeOffset(lifetime).value);
            var r := FolderInstant(Temporary, lifetime, now);
            && (r.Success? ==> Ticks(r.value) == Ticks(now) + span)
            && (r.Failure? <==> Ticks(now) + span > Ticks(MaxValue))
            && (r.Failure? ==> r.error == DateOutOfRange)
    ensures lifetime == HoursOne ==>
              var r := FolderInstant(Temporary, lifetime, now);
              r.Success? ==> Ticks(now) + 59 * TicksPerMinute <= Ticks(r.value) <= Ticks(now) + 60 * TicksPerMinute
  {
  }

  /** Month and year lifetimes move the calendar month forward by exactly
      their count of months (twelve per year). */
  lemma CalendarLifetimeExact(lifetime: Lifetime, now: Instant)
    requires WellFormed(now)
    requires LifetimeOffset(lifetime).Some?
    requires LifetimeOffset(lifetime).value.ByMonths? || LifetimeOffset(lifetime).value.ByYears?
    ensures var o := LifetimeOffset(lifetime).value;
            var months := if o.ByMonths? then o.months else 12 * o.years;
            var r := FolderInstant(Temporary, lifetime, now);
            && (r.Success? ==> MonthIndex(r.value) == MonthIndex(now) + months && r.value.tick == now.tick)
            && (r.Failure? <==> MonthIndex(now) + months > MonthIndex(MaxValue))
  {
  }

  /** A Temporary folder date is strictly after "now" for every lifetime but
      Never (that it is never before "now" is part of FolderInstant's contract). */
  lemma TemporaryFolderNotBefore(lifetime: Lifetime, now: Instant)
    requires WellFormed(now)
    requires FolderInstant(Temporary, lifetime, now).Success?
    ensures lifetime != Never ==> Ticks(now) < Ticks(FolderInstant(Temporary, lifetime, now).value)
  {
    var u := FolderInstant(Temporary, lifetime, now).value;
    var o := LifetimeOffset(lifetime).value;
    match o
    case ByHours(_) =>
      TickLifetimeExact(lifetime, now);
    case ByDays(_) =>
      TickLifetimeExact(lifetime, now);
    case ByMonths(_) =>
      CalendarLifetimeExact(lifetime, now);
      EarlierMonthEarlierTicks(now, u);
    case ByYears(_) =>
      CalendarLifetimeExact(lifetime, now);
      EarlierMonthEarlierTicks(now, u);
    case ToMaximum =>
  }
}
