/** The age of a pod as the status table shows it, in the largest unit that fits. */
module Duration {
  datatype Unit = Seconds | Minutes | Hours | Days | Years
  datatype Shown = Invalid | Age(value: int, unit: Unit)

  const SECOND := 1_000_000_000
  const MINUTE := 60 * SECOND
  const HOUR := 60 * MINUTE
  const DAY := 24 * HOUR
  const YEAR := 365 * DAY

  function Nanoseconds(unit: Unit): int {
    match unit
    case Seconds => SECOND
    case Minutes => MINUTE
    case Hours => HOUR
    case Days => DAY
    case Years => YEAR
  }

  /** Conversion to an integer truncates toward zero. */
  function Truncate(d: int, unit: int): int
    requires unit > 0
  {
    if d < 0 then -(-d / unit) else d / unit
  }

  /** The duration is in nanoseconds. */
  function ShortHumanDuration(d: int): Shown {
    var seconds, minutes, hours := Truncate(d, SECOND), Truncate(d, MINUTE), Truncate(d, HOUR);
    if seconds < -1 then Invalid
    else if seconds < 0 then Age(0, Seconds)
    else if seconds < 60 then Age(seconds, Seconds)
    else if minutes < 60 then Age(minutes, Minutes)
    else if hours < 24 then Age(hours, Hours)
    else if hours < 24 * 364 then Age(hours / 24, Days)
    else Age(Truncate(d, YEAR), Years)
  }

  /** An age is shown as the number of whole units it contains. */
  lemma ShownAgeFits(d: int)
    requires d >= 0
    ensures var s := ShortHumanDuration(d);
            s.Age? && s.value * Nanoseconds(s.unit) <= d < (s.value + 1) * Nanoseconds(s.unit)
  {
    assert d / DAY == d / HOUR / 24;
  }

  /** The length of time that is shown. */
  function Denoted(d: int): int
    requires d >= 0
  {
    var s := ShortHumanDuration(d);
    if s.Age? then s.value * Nanoseconds(s.unit) else 0
  }

  /** Which unit is shown, and at least how much of it. */
  lemma UnitShown(d: int)
    requires d >= 0
    ensures var s := ShortHumanDuration(d);
            && s.Age? && s.unit == (if d < MINUTE then Seconds else if d < HOUR then Minutes else if d < DAY then Hours
                          else if d < 364 * DAY then Days else Years)
            && (s.value == 0 <==> d < SECOND || 364 * DAY <= d < 365 * DAY)
  {
    assert d / DAY == d / HOUR / 24;
  }

  lemma SameUnitGrows(u: int, v: int, w: int, d: int, later: int)
    requires u > 0 && v * u <= d <= later < (w + 1) * u
    ensures v * u <= w * u
  {
    assert v > w ==> (v - (w + 1)) * u >= 0;
  }

  lemma AtLeastOneUnit(v: int, u: int)
    requires v > 0 && u > 0
    ensures v * u >= u
  {
    assert (v - 1) * u >= 0;
  }

  /** The shown age never goes down as a pod gets older, with one exception: between 364 and 365 days
      the table shows no years, which is less than it showed for any age of a second or more. */
  lemma ShownAgeGrows(d: int, later: int)
    requires 0 <= d <= later
    ensures Denoted(d) <= Denoted(later) <==> !(SECOND <= d < 364 * DAY <= later < 365 * DAY)
  {
    UnitShown(d);
    UnitShown(later);
    var s, t := ShortHumanDuration(d), ShortHumanDuration(later);
    ShownAgeFits(d);
    ShownAgeFits(later);
    if s.unit == t.unit {
      SameUnitGrows(Nanoseconds(s.unit), s.value, t.value, d, later);
    } else if t.value > 0 {
      AtLeastOneUnit(t.value, Nanoseconds(t.unit));
    } else {
      assert Denoted(later) == 0;
      if s.value > 0 { AtLeastOneUnit(s.value, Nanoseconds(s.unit)); }
    }
  }

  /** A negative age of two seconds or more is invalid, and a shorter one is shown as no seconds. */
  lemma NegativeAge(d: int)
    requires d < 0
    ensures ShortHumanDuration(d) == if d <= -2_000_000_000 then Invalid else Age(0, Seconds)
  {
  }

  /** The units and where they begin, in nanoseconds. */
  lemma ShownAge(d: int)
    requires d >= 0
    ensures ShortHumanDuration(d) ==
            if d < 60_000_000_000 then Age(d / 1_000_000_000, Seconds)
            else if d < 3_600_000_000_000 then Age(d / 60_000_000_000, Minutes)
            else if d < 86_400_000_000_000 then Age(d / 3_600_000_000_000, Hours)
            else if d < 31_449_600_000_000_000 then Age(d / 86_400_000_000_000, Days)
            else Age(d / 31_536_000_000_000_000, Years)
  {
    UnitShown(d);
    assert d / DAY == d / HOUR / 24;
  }
}
