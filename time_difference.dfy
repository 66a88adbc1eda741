/** The elapsed-time utility: the absolute difference between two instants,
    split into whole hours and the whole minutes left over, and the fixed
    sentence that reports them. Instants are integer millisecond counts. */
module TimeDifference {
  import opened Decimal

  const MsPerMinute: nat := 1000 * 60
  const MsPerHour: nat := 1000 * 60 * 60

  /** Whole hours and leftover whole minutes of an elapsed time. */
  datatype Duration = Duration(hours: nat, minutes: nat)

  function Abs(x: int): nat {
    if x < 0 then -x else x
  }

  /** `d` is the truncated decomposition of `ms` milliseconds: fewer than 60
      minutes, and what it accounts for falls short of `ms` by less than one
      minute. */
  predicate Decomposes(d: Duration, ms: nat) {
    var covered := d.hours * MsPerHour + d.minutes * MsPerMinute;
    d.minutes < 60 && covered <= ms < covered + MsPerMinute
  }

  /** Whole hours and leftover whole minutes between two instants, in either
      order; seconds and milliseconds are dropped, never rounded. */
  function CalculateTimeDifference(date1: int, date2: int): (d: Duration)
    ensures Decomposes(d, Abs(date2 - date1))
  {
    var diffInMs := Abs(date2 - date1);
    Duration(diffInMs / MsPerHour, (diffInMs % MsPerHour) / MsPerMinute)
  }

  /** The decomposition is the only one: any duration that accounts for the
      elapsed time to within a minute, with fewer than 60 minutes, is the
      one computed. */
  lemma DecompositionUnique(date1: int, date2: int, d: Duration)
    requires Decomposes(d, Abs(date2 - date1))
    ensures CalculateTimeDifference(date1, date2) == d
  {
    var ms := Abs(date2 - date1);
    var rest := ms - d.hours * MsPerHour;
    assert 0 <= rest < MsPerHour;
    assert ms / MsPerHour == d.hours && ms % MsPerHour == rest;
  }

  /** Only the absolute difference matters, so the argument order does not. */
  lemma OrderIndependent(date1: int, date2: int)
    ensures CalculateTimeDifference(date1, date2) == CalculateTimeDifference(date2, date1)
  {
  }

  /** An instant compared with itself is zero hours and zero minutes apart. */
  lemma SameInstant(date: int)
    ensures CalculateTimeDifference(date, date) == Duration(0, 0)
  {
  }

  /** Hours and minutes together count the whole minutes elapsed. */
  lemma TotalWholeMinutes(date1: int, date2: int)
    ensures var d := CalculateTimeDifference(date1, date2);
      d.hours * 60 + d.minutes == Abs(date2 - date1) / MsPerMinute
  {
  }

  /** A whole number of hours apart gives those hours and no minutes. */
  lemma WholeHours(date: int, k: nat)
    ensures CalculateTimeDifference(date, date + k * MsPerHour) == Duration(k, 0)
    ensures CalculateTimeDifference(date + k * MsPerHour, date) == Duration(k, 0)
  {
    DecompositionUnique(date, date + k * MsPerHour, Duration(k, 0));
    OrderIndependent(date, date + k * MsPerHour);
  }

  /** Leftover seconds are dropped: hours, minutes below 60 and a sub-minute
      remainder decompose back into those hours and minutes. */
  lemma RemainderTruncated(date: int, h: nat, m: nat, rest: nat)
    requires m < 60 && rest < MsPerMinute
    ensures CalculateTimeDifference(date, date + h * MsPerHour + m * MsPerMinute + rest) == Duration(h, m)
  {
    DecompositionUnique(date, date + h * MsPerHour + m * MsPerMinute + rest, Duration(h, m));
  }

  /** 59,999 milliseconds is still zero minutes; 1 h 59 min 59 s is 1 h 59 min;
      exactly a day apart is 24 hours. */
  lemma TruncationExamples(date: int)
    ensures CalculateTimeDifference(date, date + 59_999) == Duration(0, 0)
    ensures CalculateTimeDifference(date, date + 3_600_000 + 59 * 60_000 + 59_000) == Duration(1, 59)
    ensures CalculateTimeDifference(date, date + 24 * 3_600_000) == Duration(24, 0)
  {
    RemainderTruncated(date, 0, 0, 59_999);
    RemainderTruncated(date, 1, 59, 59_000);
    WholeHours(date, 24);
  }

  /** The fixed text around the two numbers of the sentence. The words do
      not change with the count, so one hour reads "1 hours". */
  const Opening := "The difference is "
  const Between := " hours and "
  const Closing := " minutes."

  /** The fixed sentence with the given numerals filled in. */
  function Template(hours: string, minutes: string): string {
    Opening + hours + Between + minutes + Closing
  }

  function Render(d: Duration): string {
    Template(NatToDecimal(d.hours), NatToDecimal(d.minutes))
  }

  /** The sentence reporting the time between two instants. */
  function GenerateTimeDifferenceMessage(date1: int, date2: int): (s: string)
    ensures var d := CalculateTimeDifference(date1, date2);
      s == Opening + NatToDecimal(d.hours) + Between + NatToDecimal(d.minutes) + Closing
  {
    Render(CalculateTimeDifference(date1, date2))
  }

  /** The template can be filled with two digit runs in only one way. */
  lemma TemplateSplit(h1: string, m1: string, h2: string, m2: string)
    requires AllDigits(h1) && AllDigits(m1) && AllDigits(h2) && AllDigits(m2)
    requires Template(h1, m1) == Template(h2, m2)
    ensures h1 == h2 && m1 == m2
  {
    var prefix, middle, suffix := Opening, Between, Closing;
    var tail1, tail2 := middle + m1 + suffix, middle + m2 + suffix;
    assert h1 + tail1 == (prefix + h1 + middle + m1 + suffix)[|prefix|..];
    assert h2 + tail2 == (prefix + h2 + middle + m2 + suffix)[|prefix|..];
    DigitRunSplit(h1, tail1, h2, tail2);
    assert m1 + suffix == tail1[|middle|..];
    assert m2 + suffix == tail2[|middle|..];
    DigitRunSplit(m1, suffix, m2, suffix);
  }

  /** Different durations give different sentences, so the sentence reports
      the duration exactly. */
  lemma RenderInjective(d1: Duration, d2: Duration)
    requires Render(d1) == Render(d2)
    ensures d1 == d2
  {
    TemplateSplit(NatToDecimal(d1.hours), NatToDecimal(d1.minutes),
                  NatToDecimal(d2.hours), NatToDecimal(d2.minutes));
    NatToDecimalInjective(d1.hours, d2.hours);
    NatToDecimalInjective(d1.minutes, d2.minutes);
  }

  /** Two pairs of instants get the same sentence exactly when they are the
      same whole hours and minutes apart. */
  lemma MessageDeterminesDuration(a1: int, b1: int, a2: int, b2: int)
    ensures GenerateTimeDifferenceMessage(a1, b1) == GenerateTimeDifferenceMessage(a2, b2)
      <==> CalculateTimeDifference(a1, b1) == CalculateTimeDifference(a2, b2)
  {
    if GenerateTimeDifferenceMessage(a1, b1) == GenerateTimeDifferenceMessage(a2, b2) {
      RenderInjective(CalculateTimeDifference(a1, b1), CalculateTimeDifference(a2, b2));
    }
  }

  /** Swapping the instants leaves the sentence unchanged. */
  lemma MessageOrderIndependent(date1: int, date2: int)
    ensures GenerateTimeDifferenceMessage(date1, date2) == GenerateTimeDifferenceMessage(date2, date1)
  {
    OrderIndependent(date1, date2);
  }

  /** Midnight to 02:15:30 reads "2 hours and 15 minutes". */
  lemma MessageTwoHoursFifteen(date: int)
    ensures GenerateTimeDifferenceMessage(date, date + 2 * 3_600_000 + 15 * 60_000 + 30_000)
      == "The difference is 2 hours and 15 minutes."
  {
    RemainderTruncated(date, 2, 15, 30_000);
  }

  /** One hour and one minute, in reverse order, reads "1 hours and
      1 minutes": no singular form. */
  lemma MessageNoSingular(date: int)
    ensures GenerateTimeDifferenceMessage(date + 3_600_000 + 60_000, date)
      == "The difference is 1 hours and 1 minutes."
  {
    RemainderTruncated(date, 1, 1, 0);
    OrderIndependent(date + 3_600_000 + 60_000, date);
  }
}
