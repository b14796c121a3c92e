/** `next_transition` of both providers: the hour-by-hour scan, what it finds, when its horizon
    is complete, and when a whole-UTC-hour scan can see every flip. */
module Transition {
  import opened Base
  import opened Ranges
  import opened Schedule

  const HORIZON_HOURS: int := 192

  type Next = Result<Option<int>, ProviderError>

  /** Look at `n` consecutive whole UTC hours, starting with hour `h`, for one whose activity
      is not `current`. */
  function Scan(w: World, spec: Spec, current: bool, h: int, n: nat): Next
    decreases n
  {
    if n == 0 then Ok(None)
    else
      var here := IsActiveAt(w, spec, HourStart(h));
      if here.Err? then Err(here.error)
      else if here.value != current then Ok(Some(HourStart(h)))
      else Scan(w, spec, current, h + 1, n - 1)
  }

  function NextTransition(w: World, spec: Spec, from: int): Next {
    var current := IsActiveAt(w, spec, from);
    if current.Err? then Err(current.error)
    else Scan(w, spec, current.value, UtcHour(from) + 1, HORIZON_HOURS)
  }

  /** The source's loop: truncate to the hour, step one hour, test, up to the horizon. */
  method FindNextTransition(w: World, spec: Spec, from: int) returns (r: Next)
    ensures r == NextTransition(w, spec, from)
  {
    hide IsActiveAt;
    var current := IsActiveAt(w, spec, from);
    if current.Err? {
      return Err(current.error);
    }
    var candidate := from - from % NS_PER_HOUR + NS_PER_HOUR;
    for i := 0 to HORIZON_HOURS
      invariant candidate == HourStart(UtcHour(from) + 1 + i)
      invariant NextTransition(w, spec, from) ==
                Scan(w, spec, current.value, UtcHour(from) + 1 + i, HORIZON_HOURS - i)
    {
      var here := IsActiveAt(w, spec, candidate);
      if here.Err? { return Err(here.error); }
      if here.value != current.value { return Ok(Some(candidate)); }
      candidate := candidate + NS_PER_HOUR;
    }
    return Ok(None);
  }

  ghost predicate ActiveAtHour(w: World, spec: Spec, h: int)
    requires Valid(w, spec)
  {
    Active(w, spec, HourStart(h))
  }

  ghost predicate SameOver(w: World, spec: Spec, current: bool, lo: int, hi: int)
    requires Valid(w, spec)
  {
    forall h :: lo <= h < hi ==> ActiveAtHour(w, spec, h) == current
  }

  /** The scan returns the first differing hour, or none when all `n` agree. */
  lemma {:induction false} ScanFindsFirst(w: World, spec: Spec, current: bool, h: int, n: nat)
    requires Valid(w, spec)
    ensures
      var r := Scan(w, spec, current, h, n);
      && r.Ok?
      && (r.value.None? ==> SameOver(w, spec, current, h, h + n))
      && (r.value.Some? ==>
            exists k :: h <= k < h + n && r.value.value == HourStart(k)
                        && ActiveAtHour(w, spec, k) != current && SameOver(w, spec, current, h, k))
    decreases n
  {
    hide IsActiveAt, Valid;
    if n > 0 {
      ValidMeansEvaluable(w, spec, HourStart(h));
      if ActiveAtHour(w, spec, h) == current {
        ScanFindsFirst(w, spec, current, h + 1, n - 1);
        var r := Scan(w, spec, current, h + 1, n - 1);
        if r.value.Some? {
          var k :| h + 1 <= k < h + n && r.value.value == HourStart(k)
                   && ActiveAtHour(w, spec, k) != current && SameOver(w, spec, current, h + 1, k);
          assert SameOver(w, spec, current, h, k);
        }
      } else {
        assert SameOver(w, spec, current, h, h);
      }
    }
  }

  /** For every spec, valid or not: the first hour that does not evaluate to `current` decides, with its
      instant or with its error; without one there is none. */
  lemma {:induction false} ScanExactly(w: World, spec: Spec, current: bool, h: int, n: nat, k: int)
    requires h <= k <= h + n
    requires forall j :: h <= j < k ==> IsActiveAt(w, spec, HourStart(j)) == Ok(current)
    requires k < h + n ==> IsActiveAt(w, spec, HourStart(k)) != Ok(current)
    ensures Scan(w, spec, current, h, n) ==
            if k == h + n then Ok(None)
            else if IsActiveAt(w, spec, HourStart(k)).Err? then Err(IsActiveAt(w, spec, HourStart(k)).error)
            else Ok(Some(HourStart(k)))
    decreases n
  {
    hide IsActiveAt;
    if h < k { ScanExactly(w, spec, current, h + 1, n - 1, k); }
  }

  /** What `next_transition` promises on whole UTC hours, for every valid spec and any zone. */
  lemma NextTransitionOnHours(w: World, spec: Spec, from: int)
    requires Valid(w, spec)
    ensures
      var r := NextTransition(w, spec, from);
      var current := Active(w, spec, from);
      var h0 := UtcHour(from) + 1;
      && r.Ok?
      && (r.value.None? ==> SameOver(w, spec, current, h0, h0 + HORIZON_HOURS))
      && (r.value.Some? ==>
            var k := UtcHour(r.value.value);
            && h0 <= k < h0 + HORIZON_HOURS && r.value.value == HourStart(k) > from
            && ActiveAtHour(w, spec, k) != current && SameOver(w, spec, current, h0, k))
  {
    ValidMeansEvaluable(w, spec, from);
    var current := Active(w, spec, from);
    var h0 := UtcHour(from) + 1;
    ScanFindsFirst(w, spec, current, h0, HORIZON_HOURS);
    HourBounds(from);
    var r := NextTransition(w, spec, from);
    if r.value.Some? {
      var k :| h0 <= k < h0 + HORIZON_HOURS && r.value.value == HourStart(k)
               && ActiveAtHour(w, spec, k) != current && SameOver(w, spec, current, h0, k);
      HourBounds(HourStart(k));
      assert UtcHour(r.value.value) == k;
    }
  }

  /** Where activity is constant over UTC hours, a found transition is the first flip among all
      instants, not only among whole hours; and finding none rules out a flip up to the horizon. */
  lemma NextTransitionIsFirstFlip(w: World, spec: Spec, from: int)
    requires Valid(w, spec) && HourConstant(w, spec)
    ensures
      var r := NextTransition(w, spec, from);
      && r.Ok?
      && (r.value.Some? ==>
            && from < r.value.value <= HourStart(UtcHour(from) + 192)
            && Active(w, spec, r.value.value) != Active(w, spec, from)
            && forall t :: from <= t < r.value.value ==> Active(w, spec, t) == Active(w, spec, from))
      && (r.value.None? ==>
            forall t :: from <= t < HourStart(UtcHour(from) + 193) ==>
                          Active(w, spec, t) == Active(w, spec, from))
  {
    NextTransitionOnHours(w, spec, from);
    var r := NextTransition(w, spec, from).value;
    var end := if r.Some? then r.value else HourStart(UtcHour(from) + 1 + HORIZON_HOURS);
    forall t | from <= t < end ensures Active(w, spec, t) == Active(w, spec, from) {
      HourBounds(from);
      HourBounds(t);
      var h := UtcHour(t);
      assert Active(w, spec, t) == ActiveAtHour(w, spec, h);
      assert Active(w, spec, from) == ActiveAtHour(w, spec, UtcHour(from));
      HourBounds(end);
      assert UtcHour(from) <= h < UtcHour(end);
    }
    if r.Some? { assert Active(w, spec, r.value) == ActiveAtHour(w, spec, UtcHour(r.value)); }
  }

  // ---------------------------------------------------------------------------------------
  // The horizon is complete for weekly schedules

  ghost predicate NeverFlips(w: World, spec: Spec)
    requires Valid(w, spec)
  {
    forall t, u :: Active(w, spec, t) == Active(w, spec, u)
  }

  /** Read off the spec: disabled, no days, no hours, or every hour of the week. */
  ghost predicate Degenerate(spec: Spec)
    requires spec.TimeBased?
    requires spec.enabled ==> ParseRanges(Days, spec.days).Ok? && ParseRanges(Hours, spec.hours).Ok?
  {
    !spec.enabled ||
    var days := ParseRanges(Days, spec.days).value;
    var hours := ParseRanges(Hours, spec.hours).value;
    days == {} || hours == {} || (Run(0, 7) <= days && Run(0, 24) <= hours)
  }

  /** Every weekday and hour occurs among any 168 consecutive local hours. */
  lemma WeekCoversAll(base: int, day: int, hour: int) returns (lh: int)
    requires 0 <= day < 7 && 0 <= hour < 24
    ensures base <= lh < base + 168 && Weekday(lh) == day && HourOfDay(lh) == hour
  {
    var d0 := base / 24;
    var d := d0 + (day - 3 - d0) % 7;
    if 24 * d + hour < base { d := d + 7; }
    lh := 24 * d + hour;
    assert lh / 24 == d && lh % 24 == hour;
  }

  /** Days and hours that are neither empty nor everything leave an hour of each kind. */
  lemma BothKinds(days: set<int>, hours: set<int>) returns (onDay: int, onHour: int, offDay: int, offHour: int)
    requires days != {} && hours != {} && !(Run(0, 7) <= days && Run(0, 24) <= hours)
    ensures onDay in days && onHour in hours
    ensures 0 <= offDay < 7 && 0 <= offHour < 24 && !(offDay in days && offHour in hours)
  {
    onDay :| onDay in days;
    onHour :| onHour in hours;
    if !(Run(0, 7) <= days) {
      offDay :| offDay in Run(0, 7) && offDay !in days;
      offHour := 0;
    } else {
      offDay := 0;
      offHour :| offHour in Run(0, 24) && offHour !in hours;
    }
  }

  lemma DegenerateNeverFlips(w: World, spec: Spec)
    requires spec.TimeBased? && Valid(w, spec) && Degenerate(spec)
    ensures NeverFlips(w, spec)
  {
    hide ParseRanges;
    if spec.enabled {
      var zone := w.zones[spec.timezone];
      forall t ensures HourOfDay(LocalHour(zone, t)) in Run(0, 24) && Weekday(LocalHour(zone, t)) in Run(0, 7) {}
    }
  }

  /** The instants a scan from `from` looks at. */
  ghost predicate Sampled(from: int, t: int) {
    t == from || exists h :: UtcHour(from) < h <= UtcHour(from) + HORIZON_HOURS && t == HourStart(h)
  }

  /** At one of them the local clock shows this weekday and hour. */
  ghost predicate Shows(zone: Zone, from: int, day: int, hour: int) {
    exists t :: Sampled(from, t) && Weekday(LocalHour(zone, t)) == day && HourOfDay(LocalHour(zone, t)) == hour
  }

  ghost predicate CoversWeek(zone: Zone, from: int) {
    forall day, hour :: 0 <= day < 7 && 0 <= hour < 24 ==> Shows(zone, from, day, hour)
  }

  /** If nothing is found, all instants looked at agree. */
  lemma NoneMeansAgreement(w: World, spec: Spec, from: int, t: int)
    requires Valid(w, spec)
    ensures NextTransition(w, spec, from) == Ok(None) && Sampled(from, t) ==> Active(w, spec, t) == Active(w, spec, from)
  {
    hide NextTransition, Active, Valid, UtcHour;
    NextTransitionOnHours(w, spec, from);
    if NextTransition(w, spec, from) == Ok(None) && Sampled(from, t) && t != from {
      var h :| UtcHour(from) < h <= UtcHour(from) + HORIZON_HOURS && t == HourStart(h);
      assert ActiveAtHour(w, spec, h) == Active(w, spec, from);
    }
  }

  lemma ShownAgrees(w: World, spec: Spec, from: int, day: int, hour: int)
    requires spec.TimeBased? && spec.enabled && Valid(w, spec)
    ensures NextTransition(w, spec, from) == Ok(None) && Shows(w.zones[spec.timezone], from, day, hour) ==>
              (day in ParseRanges(Days, spec.days).value && hour in ParseRanges(Hours, spec.hours).value) == Active(w, spec, from)
  {
    var zone := w.zones[spec.timezone];
    hide NextTransition, Active, Sampled, ParseRanges, Weekday, HourOfDay, LocalHour;
    if NextTransition(w, spec, from) == Ok(None) && Shows(zone, from, day, hour) {
      var t :| Sampled(from, t) && Weekday(LocalHour(zone, t)) == day && HourOfDay(LocalHour(zone, t)) == hour;
      NoneMeansAgreement(w, spec, from, t);
      WeeklyActiveExactly(w, spec, t);
    }
  }

  /** Where the scan sees the whole week, finding nothing leaves no room for both kinds of hour. */
  lemma CoveredMeansDegenerate(w: World, spec: Spec, from: int)
    requires spec.TimeBased? && Valid(w, spec) && NextTransition(w, spec, from) == Ok(None)
    requires spec.enabled ==> CoversWeek(w.zones[spec.timezone], from)
    ensures Degenerate(spec)
  {
    if !Degenerate(spec) {
      ParsedIsUnionOfPieces(Days, Pieces(spec.days));
      ParsedIsUnionOfPieces(Hours, Pieces(spec.hours));
      var days, hours := ParseRanges(Days, spec.days).value, ParseRanges(Hours, spec.hours).value;
      hide ParseRanges, Pieces, Part, FoldPieces, NextTransition, Active, Shows;
      var onDay, onHour, offDay, offHour := BothKinds(days, hours);
      ShownAgrees(w, spec, from, onDay, onHour);
      ShownAgrees(w, spec, from, offDay, offHour);
      assert false;
    }
  }

  /** The schedule of one hour of the week. */
  function OneHour(day: int, hour: int, timezone: string): Spec
    requires 0 <= day < 7 && 0 <= hour < 24
  {
    TimeBased([PrintSet(Days, {day})], [PrintSet(Hours, {hour})], timezone, true)
  }

  lemma OneHourMeans(w: World, day: int, hour: int, timezone: string, t: int)
    requires timezone in w.zones && 0 <= day < 7 && 0 <= hour < 24
    ensures var spec := OneHour(day, hour, timezone);
            var lh := LocalHour(w.zones[timezone], t);
            Valid(w, spec) && (Active(w, spec, t) <==> Weekday(lh) == day && HourOfDay(lh) == hour)
  {
    hide ParseRanges, PrintSet, LocalHour, Weekday, HourOfDay, Active, Valid;
    WrittenWindowMeans(w, {day}, {hour}, timezone, t);
  }

  lemma OneHourIsProper(w: World, day: int, hour: int, timezone: string)
    requires timezone in w.zones && 0 <= day < 7 && 0 <= hour < 24
    ensures Valid(w, OneHour(day, hour, timezone)) && !Degenerate(OneHour(day, hour, timezone))
  {
    hide ParseRanges, PrintSet;
    PrintParseRoundTrip(Days, {day});
    PrintParseRoundTrip(Hours, {hour});
    assert (if day == 0 then 1 else 0) in Run(0, 7) - {day};
    hide Run;
  }

  /** If the scan does not see that hour, it finds nothing. */
  lemma MissedHour(w: World, timezone: string, from: int, day: int, hour: int)
    requires timezone in w.zones && 0 <= day < 7 && 0 <= hour < 24 && !Shows(w.zones[timezone], from, day, hour)
    ensures Valid(w, OneHour(day, hour, timezone))
    ensures NextTransition(w, OneHour(day, hour, timezone), from) == Ok(None)
  {
    var spec := OneHour(day, hour, timezone);
    hide OneHour, LocalHour, Weekday, HourOfDay, NextTransition, Active, UtcHour, Valid, Degenerate;
    OneHourMeans(w, day, hour, timezone, from);
    NextTransitionOnHours(w, spec, from);
    assert Sampled(from, from);
    var next := NextTransition(w, spec, from).value;
    if next.Some? {
      assert Sampled(from, next.value);
      OneHourMeans(w, day, hour, timezone, next.value);
    }
  }

  /** In any zone, daylight saving or not: from a given instant the eight-day scan suffices for all
      weekly schedules, in that it finds nothing only for degenerate ones, exactly when the local clock
      shows every hour of the week at one of the instants it looks at. */
  lemma HorizonSufficesExactly(w: World, timezone: string, from: int)
    requires timezone in w.zones
    ensures CoversWeek(w.zones[timezone], from) <==>
            forall spec: Spec | spec.TimeBased? && spec.enabled && spec.timezone == timezone && Valid(w, spec) ::
              NextTransition(w, spec, from) == Ok(None) ==> Degenerate(spec)
  {
    var zone := w.zones[timezone];
    if CoversWeek(zone, from) {
      forall spec: Spec | spec.TimeBased? && spec.enabled && spec.timezone == timezone && Valid(w, spec) && NextTransition(w, spec, from) == Ok(None)
        ensures Degenerate(spec)
      {
        hide Degenerate, NextTransition, Shows, ParseRanges;
        CoveredMeansDegenerate(w, spec, from);
      }
    } else {
      hide Degenerate, NextTransition, Valid, Shows;
      var day, hour :| 0 <= day < 7 && 0 <= hour < 24 && !Shows(zone, from, day, hour);
      OneHourIsProper(w, day, hour, timezone);
      MissedHour(w, timezone, from, day, hour);
    }
  }

  /** For that it is enough that the offset stays the same over some 168 of the 192 hours: a change on
      the first or the last day of the scan does no harm. */
  lemma SteadyWeekCovers(zone: Zone, offset: int, from: int, h: int)
    requires UtcHour(from) < h <= UtcHour(from) + 1 + HORIZON_HOURS - 168
    requires forall k :: h <= k < h + 168 ==> zone(HourStart(k)) == offset
    ensures CoversWeek(zone, from)
  {
    var shift := offset * NS_PER_SEC / NS_PER_HOUR;
    forall day, hour | 0 <= day < 7 && 0 <= hour < 24 ensures Shows(zone, from, day, hour) {
      hide UtcHour, Weekday, HourOfDay;
      var lh := WeekCoversAll(h + shift, day, hour);
      var k := lh - shift;
      assert zone(HourStart(k)) == offset;
      assert LocalHour(zone, HourStart(k)) == lh;
      assert Sampled(from, HourStart(k));
    }
  }

  /** A zone whose clock is put forward by an hour on the first Sunday after the epoch, at two. */
  ghost predicate SkipsSundayAtTwo(zone: Zone) {
    forall t :: zone(t) == if t < HourStart(74) then 0 else 3600
  }

  lemma LocalHourSkips(zone: Zone, h: int)
    requires SkipsSundayAtTwo(zone)
    ensures LocalHour(zone, HourStart(h)) == if h < 74 then h else h + 1
  {
    assert zone(HourStart(h)) == if h < 74 then 0 else 3600;
  }

  lemma SundayAtTwoUnseen(zone: Zone)
    requires SkipsSundayAtTwo(zone)
    ensures !Shows(zone, 0, 6, 2)
  {
    hide SkipsSundayAtTwo, LocalHour;
    forall t | Sampled(0, t) ensures !(Weekday(LocalHour(zone, t)) == 6 && HourOfDay(LocalHour(zone, t)) == 2) {
      var h :| 0 <= h <= HORIZON_HOURS && t == HourStart(h);
      LocalHourSkips(zone, h);
    }
  }

  /** A clock put forward inside the scan can defeat it: Sundays at two, and the Sunday on which that
      hour is skipped. Nothing is found, although a week later the schedule is active. */
  lemma SkippedHourIsMissed(w: World, timezone: string)
    requires timezone in w.zones && SkipsSundayAtTwo(w.zones[timezone])
    ensures var spec := OneHour(6, 2, timezone);
            && Valid(w, spec) && NextTransition(w, spec, 0) == Ok(None)
            && !Active(w, spec, HourStart(0)) && Active(w, spec, HourStart(241))
  {
    hide OneHour, NextTransition, Active, Valid, Shows, LocalHour, SkipsSundayAtTwo;
    var zone := w.zones[timezone];
    LocalHourSkips(zone, 0);
    LocalHourSkips(zone, 241);
    SundayAtTwoUnseen(zone);
    OneHourMeans(w, 6, 2, timezone, HourStart(0));
    OneHourMeans(w, 6, 2, timezone, HourStart(241));
    MissedHour(w, timezone, 0, 6, 2);
  }

  /** In a zone with a fixed offset (whole hours or not) the eight-day scan misses nothing: it
      finds no transition exactly when the schedule never flips at all, which is exactly when
      the spec is degenerate. */
  lemma HorizonIsComplete(w: World, spec: Spec, offset: int, from: int)
    requires spec.TimeBased? && Valid(w, spec)
    requires spec.enabled ==> Fixed(w.zones[spec.timezone], offset)
    ensures NextTransition(w, spec, from) == Ok(None) <==> NeverFlips(w, spec)
    ensures NeverFlips(w, spec) <==> Degenerate(spec)
  {
    hide NextTransition, ParseRanges, Active, CoversWeek, UtcHour;
    NextTransitionOnHours(w, spec, from);
    if Degenerate(spec) {
      DegenerateNeverFlips(w, spec);
    }
    if spec.enabled { SteadyWeekCovers(w.zones[spec.timezone], offset, from, UtcHour(from) + 1); }
    hide Degenerate;
    if NextTransition(w, spec, from) == Ok(None) {
      CoveredMeansDegenerate(w, spec, from);
    }
  }

  // ---------------------------------------------------------------------------------------
  // Which fixed offsets line up with the scan

  /** Activity as seen on the local clock. */
  ghost predicate LocalSignal(w: World, spec: Spec, lh: int)
    requires Valid(w, spec) && spec.timezone in w.zones
  {
    (spec.TimeBased? ==> spec.enabled) && LocalActive(w, spec, lh) == Ok(true)
  }

  lemma ActiveIsLocal(w: World, spec: Spec, t: int)
    requires Valid(w, spec) && spec.timezone in w.zones
    ensures Active(w, spec, t) == LocalSignal(w, spec, LocalHour(w.zones[spec.timezone], t))
  {
    ValidMeansEvaluable(w, spec, t);
  }

  /** A signal that differs at two points differs at two neighbours. */
  lemma {:induction false} NeighboursDiffer(w: World, spec: Spec, a: int, b: int) returns (m: int)
    requires Valid(w, spec) && spec.timezone in w.zones
    requires a < b && LocalSignal(w, spec, a) != LocalSignal(w, spec, b)
    ensures a <= m < b && LocalSignal(w, spec, m) != LocalSignal(w, spec, m + 1)
    decreases b - a
  {
    hide *;
    if LocalSignal(w, spec, a) != LocalSignal(w, spec, a + 1) {
      m := a;
    } else {
      m := NeighboursDiffer(w, spec, a + 1, b);
    }
  }

  /** With a fixed offset, activity is constant over UTC hours exactly when the offset is a whole
      number of hours or the schedule never flips. */
  lemma FixedOffsetHourConstant(w: World, spec: Spec, offset: int)
    requires Valid(w, spec) && spec.timezone in w.zones && Fixed(w.zones[spec.timezone], offset)
    ensures HourConstant(w, spec) <==> offset % 3600 == 0 || NeverFlips(w, spec)
  {
    hide Active, LocalSignal, Valid;
    var zone := w.zones[spec.timezone];
    forall t ensures Active(w, spec, t) == LocalSignal(w, spec, LocalHour(zone, t)) {
      ActiveIsLocal(w, spec, t);
    }
    if offset % 3600 == 0 {
      WholeHourIsHourConstant(w, spec);
    } else if !NeverFlips(w, spec) {
      var t, u :| Active(w, spec, t) != Active(w, spec, u);
      var a, b := LocalHour(zone, t), LocalHour(zone, u);
      assert LocalSignal(w, spec, a) != LocalSignal(w, spec, b);
      var m;
      if a < b {
        m := NeighboursDiffer(w, spec, a, b);
      } else {
        m := NeighboursDiffer(w, spec, b, a);
      }
      var flip := HourStart(m + 1) - offset * NS_PER_SEC;
      var before := HourStart(UtcHour(flip));
      HourBounds(flip);
      assert LocalHour(zone, flip) == m + 1;
      assert before != flip;
      assert LocalHour(zone, before) == m;
      assert Active(w, spec, flip) != Active(w, spec, before);
    }
  }
}
