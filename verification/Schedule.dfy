/** When a schedule is active: the `is_active_at` of both providers, and how it depends on the
    time zone. Instants are nanoseconds since the Unix epoch, in UTC. */
module Schedule {
  import opened Base
  import opened Ranges

  const NS_PER_SEC: int := 1_000_000_000
  const NS_PER_HOUR: int := 3_600_000_000_000

  /** Offset from UTC, in seconds, at each UTC instant. */
  type Zone = int -> int

  /** What the library code around the providers knows: the time zones by name, the
      `YYYY-MM-DD` text of a day counted from the epoch, and the RFC 3339 text of an instant. */
  datatype World = World(zones: map<string, Zone>, dateText: int -> string, stamp: int -> string)

  datatype ProviderError =
    | InvalidTimezone(name: string)
    | BadWindow(error: RangeError)

  datatype Session = Session(days: seq<string>, hours: seq<string>)

  datatype EarlyClose = EarlyClose(date: string, closeHour: int)

  /** The specs of the two providers. */
  datatype Spec =
    | TimeBased(days: seq<string>, hours: seq<string>, timezone: string, enabled: bool)
    | Market(timezone: string, sessions: seq<Session>, holidays: seq<string>, earlyCloses: seq<EarlyClose>)

  /** Whole hours since the epoch, in UTC. */
  function UtcHour(t: int): int { t / NS_PER_HOUR }

  function HourStart(h: int): int { h * NS_PER_HOUR }

  lemma HourBounds(t: int)
    ensures HourStart(UtcHour(t)) <= t < HourStart(UtcHour(t) + 1)
    ensures forall h :: HourStart(h) <= t < HourStart(h + 1) ==> h == UtcHour(t)
  {
  }

  /** Whole hours since the epoch, on the local clock. */
  function LocalHour(zone: Zone, t: int): int {
    (t + zone(t) * NS_PER_SEC) / NS_PER_HOUR
  }

  function DayOf(localHour: int): int { localHour / 24 }

  function HourOfDay(localHour: int): int { localHour % 24 }

  /** Days from Monday; the epoch was a Thursday. */
  function Weekday(localHour: int): int { (localHour / 24 + 3) % 7 }

  function InSession(sessions: seq<Session>, weekday: int, hour: int): Result<bool, ProviderError> {
    if sessions == [] then Ok(false)
    else
      var days := ParseRanges(Days, sessions[0].days);
      var hours := ParseRanges(Hours, sessions[0].hours);
      if days.Err? then Err(BadWindow(days.error))
      else if hours.Err? then Err(BadWindow(hours.error))
      else if weekday in days.value && hour in hours.value then Ok(true)
      else InSession(sessions[1..], weekday, hour)
  }

  /** The close hour of the first early close on `date`; later ones are not consulted. */
  function FirstClose(closes: seq<EarlyClose>, date: string): (r: Option<int>)
    ensures r.None? <==> forall i :: 0 <= i < |closes| ==> closes[i].date != date
    ensures r.Some? ==> exists i :: 0 <= i < |closes| && closes[i] == EarlyClose(date, r.value)
                                    && forall j :: 0 <= j < i ==> closes[j].date != date
  {
    if closes == [] then None
    else if closes[0].date == date then Some(closes[0].closeHour)
    else
      var rest := FirstClose(closes[1..], date);
      assert forall i :: 0 < i < |closes| ==> closes[i] == closes[1..][i - 1];
      assert rest.Some? ==>
          exists i :: 0 <= i < |closes| && closes[i] == EarlyClose(date, rest.value)
                      && forall j :: 0 <= j < i ==> closes[j].date != date by {
        if rest.Some? {
          var i :| 0 <= i < |closes[1..]| && closes[1..][i] == EarlyClose(date, rest.value)
                   && forall j :: 0 <= j < i ==> closes[1..][j].date != date;
          assert closes[i + 1] == EarlyClose(date, rest.value);
        }
      }
      rest
  }

  /** Activity as a function of the local hour alone. */
  function LocalActive(w: World, spec: Spec, localHour: int): Result<bool, ProviderError> {
    match spec
    case TimeBased(days, hours, _, _) =>
      var ds := ParseRanges(Days, days);
      var hs := ParseRanges(Hours, hours);
      if ds.Err? then Err(BadWindow(ds.error))
      else if hs.Err? then Err(BadWindow(hs.error))
      else Ok(Weekday(localHour) in ds.value && HourOfDay(localHour) in hs.value)
    case Market(_, sessions, holidays, earlyCloses) =>
      var date := w.dateText(DayOf(localHour));
      if date in holidays then Ok(false)
      else
        var open := InSession(sessions, Weekday(localHour), HourOfDay(localHour));
        if open.Err? || !open.value then open
        else
          var close := FirstClose(earlyCloses, date);
          Ok(!(close.Some? && HourOfDay(localHour) > close.value))
  }

  /** `is_active_at` of both providers. */
  function IsActiveAt(w: World, spec: Spec, t: int): Result<bool, ProviderError> {
    if spec.TimeBased? && !spec.enabled then Ok(false)
    else if spec.timezone !in w.zones then Err(InvalidTimezone(spec.timezone))
    else LocalActive(w, spec, LocalHour(w.zones[spec.timezone], t))
  }

  ghost predicate ValidSession(s: Session) {
    ParseRanges(Days, s.days).Ok? && ParseRanges(Hours, s.hours).Ok?
  }

  /** The zone is known and every range parses; a disabled time-based spec is never looked at. */
  ghost predicate Valid(w: World, spec: Spec) {
    match spec
    case TimeBased(days, hours, timezone, enabled) =>
      enabled ==> timezone in w.zones && ParseRanges(Days, days).Ok? && ParseRanges(Hours, hours).Ok?
    case Market(timezone, sessions, _, _) =>
      timezone in w.zones && forall i :: 0 <= i < |sessions| ==> ValidSession(sessions[i])
  }

  lemma {:induction false} ValidSessionsNeverErr(sessions: seq<Session>, weekday: int, hour: int)
    requires forall i :: 0 <= i < |sessions| ==> ValidSession(sessions[i])
    ensures InSession(sessions, weekday, hour).Ok?
  {
    if sessions != [] {
      assert ValidSession(sessions[0]);
      forall i | 0 <= i < |sessions[1..]| ensures ValidSession(sessions[1..][i]) {
        assert sessions[1..][i] == sessions[i + 1];
      }
      ValidSessionsNeverErr(sessions[1..], weekday, hour);
    }
  }

  /** A valid spec evaluates at every instant; an invalid time-based one fails at every instant
      with one and the same error. */
  lemma ValidMeansEvaluable(w: World, spec: Spec, t: int)
    ensures Valid(w, spec) ==> IsActiveAt(w, spec, t).Ok?
    ensures spec.TimeBased? && !Valid(w, spec) ==>
              IsActiveAt(w, spec, t).Err? && forall u :: IsActiveAt(w, spec, u) == IsActiveAt(w, spec, t)
  {
    if spec.Market? && Valid(w, spec) {
      var lh := LocalHour(w.zones[spec.timezone], t);
      ValidSessionsNeverErr(spec.sessions, Weekday(lh), HourOfDay(lh));
    }
  }

  /** The activity of a valid spec. */
  ghost function Active(w: World, spec: Spec, t: int): bool
    requires Valid(w, spec)
  {
    ValidMeansEvaluable(w, spec, t);
    IsActiveAt(w, spec, t).value
  }

  /** A weekly schedule is active exactly when it is enabled and lists the local weekday and hour; a
      disabled one is inactive whatever else it says, its zone and lists unread. */
  lemma WeeklyActiveExactly(w: World, spec: Spec, t: int)
    requires spec.TimeBased?
    ensures !spec.enabled ==> IsActiveAt(w, spec, t) == Ok(false)
    ensures spec.enabled && Valid(w, spec) ==>
              var lh := LocalHour(w.zones[spec.timezone], t);
              Active(w, spec, t) <==>
              Weekday(lh) in ParseRanges(Days, spec.days).value && HourOfDay(lh) in ParseRanges(Hours, spec.hours).value
  {
    hide ParseRanges, LocalHour, Weekday, HourOfDay;
  }

  /** Which error an enabled weekly schedule fails with: the zone first, then the days, then the hours. An
      exchange fails for an unknown zone, and, on a date that is no holiday, for the first session that
      does not parse, unless an earlier one already covers the instant. */
  lemma EvaluationErrors(w: World, spec: Spec, t: int)
    ensures (spec.TimeBased? ==> spec.enabled) && spec.timezone !in w.zones ==>
              IsActiveAt(w, spec, t) == Err(InvalidTimezone(spec.timezone))
    ensures spec.TimeBased? && spec.enabled && spec.timezone in w.zones ==>
              && (ParseRanges(Days, spec.days).Err? ==>
                    IsActiveAt(w, spec, t) == Err(BadWindow(ParseRanges(Days, spec.days).error)))
              && (ParseRanges(Days, spec.days).Ok? && ParseRanges(Hours, spec.hours).Err? ==>
                    IsActiveAt(w, spec, t) == Err(BadWindow(ParseRanges(Hours, spec.hours).error)))
    ensures spec.Market? && spec.timezone in w.zones ==>
              var lh := LocalHour(w.zones[spec.timezone], t);
              && (w.dateText(DayOf(lh)) in spec.holidays ==> IsActiveAt(w, spec, t) == Ok(false))
              && (w.dateText(DayOf(lh)) !in spec.holidays ==>
                    forall i :: 0 <= i < |spec.sessions| && FailsFirst(spec.sessions, Weekday(lh), HourOfDay(lh), i) ==>
                                  IsActiveAt(w, spec, t) == Err(SessionError(spec.sessions[i])))
  {
    hide ParseRanges, LocalHour, Weekday, HourOfDay, DayOf, ValidSession, SessionCovers, SessionError;
    if spec.Market? && spec.timezone in w.zones {
      var lh := LocalHour(w.zones[spec.timezone], t);
      forall i | 0 <= i < |spec.sessions| && FailsFirst(spec.sessions, Weekday(lh), HourOfDay(lh), i)
        ensures InSession(spec.sessions, Weekday(lh), HourOfDay(lh)) == Err(SessionError(spec.sessions[i]))
      {
        InSessionFails(spec.sessions, Weekday(lh), HourOfDay(lh), i);
      }
    }
  }

  /** Session `i` is the first that does not parse, and none before it covers the weekday and hour. */
  ghost predicate FailsFirst(sessions: seq<Session>, weekday: int, hour: int, i: nat) {
    && i < |sessions| && !ValidSession(sessions[i])
    && forall j :: 0 <= j < i ==> ValidSession(sessions[j]) && !SessionCovers(sessions[j], weekday, hour)
  }

  /** Its days are read before its hours. */
  ghost function SessionError(s: Session): ProviderError
    requires !ValidSession(s)
  {
    BadWindow(if ParseRanges(Days, s.days).Err? then ParseRanges(Days, s.days).error else ParseRanges(Hours, s.hours).error)
  }

  lemma {:induction false} InSessionFails(sessions: seq<Session>, weekday: int, hour: int, i: nat)
    requires FailsFirst(sessions, weekday, hour, i)
    ensures InSession(sessions, weekday, hour) == Err(SessionError(sessions[i]))
    decreases sessions
  {
    hide ParseRanges;
    if i > 0 {
      assert ValidSession(sessions[0]) && !SessionCovers(sessions[0], weekday, hour);
      var rest := sessions[1..];
      forall j | 0 <= j < |rest| ensures rest[j] == sessions[j + 1] {}
      InSessionFails(rest, weekday, hour, i - 1);
    }
  }

  /** The local calendar: hours count up to 24 and roll over into the next weekday, weekdays up to 7,
      and the epoch, 1970-01-01, is a Thursday at midnight. */
  lemma LocalClockRolls(lh: int)
    ensures HourOfDay(0) == 0 && DayOf(0) == 0 && Weekday(0) == 3
    ensures 0 <= HourOfDay(lh) < 24 && 0 <= Weekday(lh) < 7
    ensures if HourOfDay(lh) < 23
            then HourOfDay(lh + 1) == HourOfDay(lh) + 1 && DayOf(lh + 1) == DayOf(lh) && Weekday(lh + 1) == Weekday(lh)
            else HourOfDay(lh + 1) == 0 && DayOf(lh + 1) == DayOf(lh) + 1
                 && Weekday(lh + 1) == (if Weekday(lh) < 6 then Weekday(lh) + 1 else 0)
  {
  }

  /** The local clock, for every zone and every sign of its offset: the local hour is the one in which
      the instant lies once the offset is added; no offset leaves the UTC hour, an hour more of offset
      is an hour later, and a larger offset is never earlier. */
  lemma LocalHourFollowsOffset(zone: Zone, other: Zone, t: int, k: int)
    ensures HourStart(LocalHour(zone, t)) <= t + zone(t) * NS_PER_SEC < HourStart(LocalHour(zone, t) + 1)
    ensures zone(t) == 0 ==> LocalHour(zone, t) == UtcHour(t)
    ensures other(t) == zone(t) + 3600 * k ==> LocalHour(other, t) == LocalHour(zone, t) + k
    ensures zone(t) <= other(t) ==> LocalHour(zone, t) <= LocalHour(other, t)
  {
    var a, b := t + zone(t) * NS_PER_SEC, t + other(t) * NS_PER_SEC;
    if other(t) == zone(t) + 3600 * k {
      assert b == a + k * NS_PER_HOUR;
    }
    DivMonotone(a, b);
  }

  lemma DivMonotone(a: int, b: int)
    ensures a <= b ==> a / NS_PER_HOUR <= b / NS_PER_HOUR
  {
  }

  /** A weekly spec written out from a set of days and a set of hours is active exactly on them. */
  lemma WrittenWindowMeans(w: World, days: set<int>, hours: set<int>, timezone: string, t: int)
    requires timezone in w.zones && days != {} && hours != {}
    requires (forall d :: d in days ==> 0 <= d < 7) && (forall h :: h in hours ==> 0 <= h < 24)
    ensures var spec := TimeBased([PrintSet(Days, days)], [PrintSet(Hours, hours)], timezone, true);
            var lh := LocalHour(w.zones[timezone], t);
            Valid(w, spec) && (Active(w, spec, t) <==> Weekday(lh) in days && HourOfDay(lh) in hours)
  {
    PrintParseRoundTrip(Days, days);
    PrintParseRoundTrip(Hours, hours);
    hide ParseRanges, PrintSet, LocalHour, Weekday, HourOfDay;
  }

  /** So in a zone that is a whole number of hours off, the window is open at exactly the UTC hours that
      lie the offset earlier, east of Greenwich, or later, west of it. */
  lemma WindowInUtc(w: World, days: set<int>, hours: set<int>, timezone: string, east: int, h: int)
    requires timezone in w.zones && days != {} && hours != {}
    requires (forall d :: d in days ==> 0 <= d < 7) && (forall x :: x in hours ==> 0 <= x < 24)
    requires w.zones[timezone](HourStart(h)) == 3600 * east
    ensures var spec := TimeBased([PrintSet(Days, days)], [PrintSet(Hours, hours)], timezone, true);
            Valid(w, spec) && (Active(w, spec, HourStart(h)) <==> Weekday(h + east) in days && HourOfDay(h + east) in hours)
  {
    hide PrintSet, LocalHour, Weekday, HourOfDay, Active, Valid;
    WrittenWindowMeans(w, days, hours, timezone, HourStart(h));
    LocalHourFollowsOffset(_ => 0, w.zones[timezone], HourStart(h), east);
    HourBounds(HourStart(h));
  }

  /** Fourteen hours UTC on the day of the epoch, five hours west of Greenwich: a Thursday, at nine. */
  lemma WestOfGreenwich(zone: Zone)
    requires zone(HourStart(14)) == -18_000
    ensures Weekday(LocalHour(zone, HourStart(14))) == 3 && HourOfDay(LocalHour(zone, HourStart(14))) == 9
  {
  }

  ghost predicate SessionCovers(s: Session, weekday: int, hour: int)
    requires ValidSession(s)
  {
    weekday in ParseRanges(Days, s.days).value && hour in ParseRanges(Hours, s.hours).value
  }

  lemma {:induction false} InSessionMeans(sessions: seq<Session>, weekday: int, hour: int)
    requires forall i :: 0 <= i < |sessions| ==> ValidSession(sessions[i])
    ensures InSession(sessions, weekday, hour) ==
            Ok(exists i :: 0 <= i < |sessions| && SessionCovers(sessions[i], weekday, hour))
  {
    if sessions != [] {
      assert ValidSession(sessions[0]);
      var rest := sessions[1..];
      forall i | 0 <= i < |rest| ensures rest[i] == sessions[i + 1] {}
      InSessionMeans(rest, weekday, hour);
      if i :| 0 <= i < |rest| && SessionCovers(rest[i], weekday, hour) {
        assert SessionCovers(sessions[i + 1], weekday, hour);
      }
      if i :| 0 <= i < |sessions| && SessionCovers(sessions[i], weekday, hour) {
        if i > 0 { assert SessionCovers(rest[i - 1], weekday, hour); }
      }
    }
  }

  /** An exchange is open exactly when the local date is no holiday, some session covers the
      local weekday and hour, and the first early close listed for the date is not yet past. */
  lemma MarketOpenExactly(w: World, spec: Spec, t: int)
    requires spec.Market? && Valid(w, spec)
    ensures
      var lh := LocalHour(w.zones[spec.timezone], t);
      var date := w.dateText(DayOf(lh));
      Active(w, spec, t) <==>
        && date !in spec.holidays
        && (exists i :: 0 <= i < |spec.sessions| && SessionCovers(spec.sessions[i], Weekday(lh), HourOfDay(lh)))
        && !(exists i :: 0 <= i < |spec.earlyCloses| && spec.earlyCloses[i].date == date
                         && (forall j :: 0 <= j < i ==> spec.earlyCloses[j].date != date)
                         && HourOfDay(lh) > spec.earlyCloses[i].closeHour)
  {
    hide InSession, SessionCovers, ValidSession, LocalHour, Weekday, HourOfDay, DayOf, FirstClose;
    var lh := LocalHour(w.zones[spec.timezone], t);
    InSessionMeans(spec.sessions, Weekday(lh), HourOfDay(lh));
    var close := FirstClose(spec.earlyCloses, w.dateText(DayOf(lh)));
  }

  /** `is_active_at` of the exchange provider: the session loop with its early exit. */
  method EvaluateMarket(w: World, spec: Spec, t: int) returns (r: Result<bool, ProviderError>)
    requires spec.Market?
    ensures r == IsActiveAt(w, spec, t)
  {
    if spec.timezone !in w.zones {
      return Err(InvalidTimezone(spec.timezone));
    }
    var local := LocalHour(w.zones[spec.timezone], t);
    var date := w.dateText(DayOf(local));
    if date in spec.holidays {
      return Ok(false);
    }
    var weekday, hour := Weekday(local), HourOfDay(local);
    var inSession := false;
    for i := 0 to |spec.sessions|
      invariant !inSession
      invariant InSession(spec.sessions, weekday, hour) == InSession(spec.sessions[i..], weekday, hour)
    {
      assert spec.sessions[i..][1..] == spec.sessions[i + 1..];
      var days := ParseDayRanges(spec.sessions[i].days);
      if days.Err? { return Err(BadWindow(days.error)); }
      var hours := ParseHourRanges(spec.sessions[i].hours);
      if hours.Err? { return Err(BadWindow(hours.error)); }
      if weekday in days.value && hour in hours.value {
        inSession := true;
        break;
      }
    }
    if !inSession {
      return Ok(false);
    }
    var close := FirstClose(spec.earlyCloses, date);
    if close.Some? && hour > close.value {
      return Ok(false);
    }
    return Ok(true);
  }

  // ---------------------------------------------------------------------------------------
  // Zones

  /** Offsets are whole hours and change only on whole UTC hours. */
  ghost predicate WholeHour(zone: Zone) {
    forall t :: zone(t) % 3600 == 0 && zone(t) == zone(HourStart(UtcHour(t)))
  }

  /** The offset never changes. */
  ghost predicate Fixed(zone: Zone, offset: int) {
    forall t :: zone(t) == offset
  }

  /** Activity is constant over every UTC hour. */
  ghost predicate HourConstant(w: World, spec: Spec)
    requires Valid(w, spec)
  {
    forall t :: Active(w, spec, t) == Active(w, spec, HourStart(UtcHour(t)))
  }

  /** In a whole-hour zone the local hour only changes when the UTC hour does. */
  lemma WholeHourIsHourConstant(w: World, spec: Spec)
    requires Valid(w, spec)
    requires spec.timezone in w.zones ==> WholeHour(w.zones[spec.timezone])
    ensures HourConstant(w, spec)
  {
    if spec.timezone in w.zones {
      var zone := w.zones[spec.timezone];
      forall t ensures LocalHour(zone, t) == LocalHour(zone, HourStart(UtcHour(t))) {
        var t0 := HourStart(UtcHour(t));
        HourBounds(t);
        assert zone(t) == zone(t0) && zone(t) % 3600 == 0;
        var k := zone(t) / 3600;
        assert zone(t) * NS_PER_SEC == k * NS_PER_HOUR;
      }
    }
  }
}
