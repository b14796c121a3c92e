/** The provider controllers: the status they publish by merge patch, their single timed requeue,
    and what a run of such sparse wake-ups publishes at every instant. */
module Provider {
  import opened Base
  import opened Json
  import opened Schedule
  import opened Transition
  import opened SpotSchedule

  const FALLBACK_REQUEUE: int := 6 * NS_PER_HOUR
  const ERROR_REQUEUE: int := 30 * NS_PER_SEC

  /** `previous.map(|status| status.active)`, with the field's default of false. */
  function PreviousActive(stored: Option<Json>): Option<bool> {
    if stored.None? then None else Some(Get(stored.value, "active") == Some(Bool(true)))
  }

  function PreviousTransition(stored: Option<Json>): Option<string> {
    if stored.None? then None
    else
      var text := Get(stored.value, "lastTransitionTime");
      if text.Some? && text.value.Str? then Some(text.value.s) else None
  }

  function Reason(spec: Spec, active: bool): string {
    match spec
    case TimeBased(_, _, _, _) => if active then "WindowOpen" else "WindowClosed"
    case Market(_, _, _, _) => if active then "SessionOpen" else "SessionClosed"
  }

  function Message(spec: Spec, active: bool): string {
    match spec
    case TimeBased(_, _, _, _) => if active then "schedule window open" else "schedule window closed"
    case Market(_, _, _, _) => if active then "market session open" else "market session closed"
  }

  /** The patch body for known values. The next transition is a member only when there is one. */
  function StatusBody(w: World, spec: Spec, active: bool, next: Option<int>, generation: Option<int>, since: string): Json {
    var condition := Obj(map[
      "type" := Str("Ready"),
      "status" := Str("True"),
      "reason" := Str(Reason(spec, active)),
      "message" := Str(Message(spec, active)),
      "lastTransitionTime" := Str(since)]);
    var body := map[
      "active" := Bool(active),
      "observedGeneration" := (if generation.Some? then Num(generation.value) else Null),
      "lastTransitionTime" := Str(since),
      "conditions" := Arr([condition])];
    Obj(if next.Some? then body["nextTransitionTime" := Str(w.stamp(next.value))] else body)
  }

  /** The time stamp of the last change of `active`: now, unless the stored status already says
      the same. */
  function Since(w: World, previous: Option<Json>, active: bool, now: int): string {
    if PreviousActive(previous) != Some(active) || PreviousTransition(previous).None? then w.stamp(now)
    else PreviousTransition(previous).value
  }

  function ComputeStatus(w: World, spec: Spec, previous: Option<Json>, generation: Option<int>, now: int)
    : Result<Json, ProviderError>
  {
    var active := IsActiveAt(w, spec, now);
    if active.Err? then Err(active.error)
    else
      var next := NextTransition(w, spec, now);
      if next.Err? then Err(next.error)
      else Ok(StatusBody(w, spec, active.value, next.value, generation, Since(w, previous, active.value, now)))
  }

  /** The stored status after one reconcile; an error leaves it alone. */
  function Reconciled(w: World, spec: Spec, stored: Option<Json>, generation: Option<int>, now: int): Option<Json> {
    var patch := ComputeStatus(w, spec, stored, generation, now);
    if patch.Err? then stored
    else Some(MergePatch(if stored.Some? then stored.value else Null, patch.value))
  }

  /** How long until the next wake-up. */
  function Requeue(w: World, spec: Spec, now: int): int {
    var next := NextTransition(w, spec, now);
    if next.Err? then ERROR_REQUEUE
    else if next.value.Some? && next.value.value >= now then next.value.value - now
    else FALLBACK_REQUEUE
  }

  /** The same, when the status PATCH may fail and the error policy takes over. */
  function Delay(w: World, spec: Spec, now: int, lands: bool): int {
    if lands then Requeue(w, spec, now) else ERROR_REQUEUE
  }

  /** `reconcile`: evaluate, patch the stored status, requeue at the boundary. */
  class Controller {
    var stored: Option<Json>
    var wakeAt: int

    constructor (stored: Option<Json>, wakeAt: int)
      ensures this.stored == stored && this.wakeAt == wakeAt
    {
      this.stored := stored;
      this.wakeAt := wakeAt;
    }

    method Reconcile(w: World, spec: Spec, generation: Option<int>, now: int, lands: bool)
      modifies this
      ensures stored == if lands then Reconciled(w, spec, old(stored), generation, now) else old(stored)
      ensures wakeAt == now + Delay(w, spec, now, lands)
      ensures !lands ==> wakeAt == now + 30_000_000_000
      ensures now < wakeAt
    {
      hide IsActiveAt, MergePatch, StatusBody;
      RequeueIsPositive(w, spec, now);
      var active := IsActiveAt(w, spec, now);
      var next := FindNextTransition(w, spec, now);
      if active.Err? || next.Err? {
        wakeAt := now + ERROR_REQUEUE;
        return;
      }
      var transitioned := PreviousActive(stored) != Some(active.value);
      var since := w.stamp(now);
      if !transitioned && PreviousTransition(stored).Some? {
        since := PreviousTransition(stored).value;
      }
      var patch := StatusBody(w, spec, active.value, next.value, generation, since);
      if !lands {
        wakeAt := now + ERROR_REQUEUE;
        return;
      }
      stored := Some(MergePatch(if stored.Some? then stored.value else Null, patch));
      var delay := FALLBACK_REQUEUE;
      if next.value.Some? && next.value.value - now >= 0 {
        delay := next.value.value - now;
      }
      wakeAt := now + delay;
    }
  }

  /** A scan that starts at hour `h` never answers before that hour. */
  lemma {:induction false} ScanIsLater(w: World, spec: Spec, current: bool, h: int, n: nat)
    ensures var r := Scan(w, spec, current, h, n); r.Ok? && r.value.Some? ==> r.value.value >= HourStart(h)
    decreases n
  {
    hide IsActiveAt;
    if n > 0 {
      ScanIsLater(w, spec, current, h + 1, n - 1);
    }
  }

  /** Every requeue lies strictly in the future, for every spec, valid or not. */
  lemma RequeueIsPositive(w: World, spec: Spec, now: int)
    ensures Requeue(w, spec, now) > 0
    ensures var next := NextTransition(w, spec, now);
            if next.Err? then Requeue(w, spec, now) == 30_000_000_000
            else if next.value.Some? then now + Requeue(w, spec, now) == next.value.value
            else Requeue(w, spec, now) == 21_600_000_000_000
  {
    hide IsActiveAt, Scan;
    HourBounds(now);
    var current := IsActiveAt(w, spec, now);
    if current.Ok? {
      ScanIsLater(w, spec, current.value, UtcHour(now) + 1, HORIZON_HOURS);
    }
  }

  // ---------------------------------------------------------------------------------------
  // One reconcile

  /** The member names are pairwise distinct. */
  lemma MemberNames()
    ensures var names := ["active", "conditions", "observedGeneration", "lastTransitionTime", "nextTransitionTime"];
            forall i, j :: 0 <= i < j < 5 ==> names[i] != names[j]
    ensures var names := ["type", "status", "reason", "message", "lastTransitionTime"];
            forall i, j :: 0 <= i < j < 5 ==> names[i] != names[j]
  {
    assert "observedGeneration"[0] == 'o' && "lastTransitionTime"[0] == 'l' && "nextTransitionTime"[0] == 'n';
    assert "status"[0] == 's' && "reason"[0] == 'r';
  }

  /** The members of the patch body. */
  lemma BodyMembers(w: World, spec: Spec, active: bool, next: Option<int>, generation: Option<int>, since: string)
    ensures
      var body := StatusBody(w, spec, active, next, generation, since);
      && body.Obj?
      && Get(body, "active") == Some(Bool(active))
      && Get(body, "observedGeneration") == Some(if generation.Some? then Num(generation.value) else Null)
      && Get(body, "lastTransitionTime") == Some(Str(since))
      && Get(body, "nextTransitionTime") == (if next.Some? then Some(Str(w.stamp(next.value))) else None)
      && (var c := Get(body, "conditions");
          && c.Some? && c.value.Arr? && |c.value.items| == 1 && !ReadyBlocks(c.value.items)
          && Get(c.value.items[0], "lastTransitionTime") == Some(Str(since))
          && Get(c.value.items[0], "reason") == Some(Str(Reason(spec, active)))
          && Get(c.value.items[0], "message") == Some(Str(Message(spec, active))))
  {
    hide Reason, Message;
    MemberNames();
    var c := Get(StatusBody(w, spec, active, next, generation, since), "conditions");
    assert Get(c.value.items[0], "type") == Some(Str("Ready"));
    assert Get(c.value.items[0], "status") == Some(Str("True"));
  }

  lemma SinceExactly(w: World, stored: Option<Json>, active: bool, now: int)
    ensures forall text :: SaysSince(stored, active, text) ==> Since(w, stored, active, now) == text
    ensures (forall text :: !SaysSince(stored, active, text)) ==> Since(w, stored, active, now) == w.stamp(now)
  {
    if PreviousActive(stored) == Some(active) && PreviousTransition(stored).Some? {
      assert SaysSince(stored, active, PreviousTransition(stored).value);
    }
  }

  /** A schedule that does not evaluate, now or at an hour its scan reaches, publishes nothing. */
  lemma ErrorsPublishNothing(w: World, spec: Spec, stored: Option<Json>, generation: Option<int>, now: int)
    ensures IsActiveAt(w, spec, now).Err? || NextTransition(w, spec, now).Err? ==>
              Reconciled(w, spec, stored, generation, now) == stored && Requeue(w, spec, now) == 30_000_000_000
  {
    hide IsActiveAt, Scan, StatusBody, Since;
  }

  /** A stored status that says `active` and since when: an absent member counts as inactive. */
  ghost predicate SaysSince(stored: Option<Json>, active: bool, since: string) {
    && stored.Some? && (Get(stored.value, "active") == Some(Bool(true)) <==> active)
    && Get(stored.value, "lastTransitionTime") == Some(Str(since))
  }

  /** The members of the stored status after a reconcile, by what the patch body holds. */
  lemma MergedMembers(w: World, spec: Spec, stored: Option<Json>, generation: Option<int>, now: int)
    requires Valid(w, spec)
    ensures
      var after := Reconciled(w, spec, stored, generation, now);
      var next := NextTransition(w, spec, now);
      var active := Active(w, spec, now);
      && next.Ok? && after.Some? && after.value.Obj?
      && Get(after.value, "active") == Some(Bool(active))
      && Get(after.value, "lastTransitionTime") == Some(Str(Since(w, stored, active, now)))
      && Get(after.value, "observedGeneration") == (if generation.Some? then Some(Num(generation.value)) else None)
      && Get(after.value, "nextTransitionTime") ==
         (if next.value.Some? then Some(Str(w.stamp(next.value.value)))
          else if stored.Some? then Get(stored.value, "nextTransitionTime") else None)
      && (var c := Get(after.value, "conditions");
          && c.Some? && c.value.Arr? && |c.value.items| == 1 && !ReadyBlocks(c.value.items)
          && Get(c.value.items[0], "lastTransitionTime") == Some(Str(Since(w, stored, active, now)))
          && Get(c.value.items[0], "reason") == Some(Str(Reason(spec, active)))
          && Get(c.value.items[0], "message") == Some(Str(Message(spec, active))))
  {
    hide IsActiveAt, NextTransition, StatusBody, Since, ReadyBlocks, Reason, Message;
    ValidMeansEvaluable(w, spec, now);
    NextTransitionOnHours(w, spec, now);
    var active, next := Active(w, spec, now), NextTransition(w, spec, now).value;
    var since := Since(w, stored, active, now);
    BodyMembers(w, spec, active, next, generation, since);
    var body := StatusBody(w, spec, active, next, generation, since);
    var base := if stored.Some? then stored.value else Null;
    MergedMember(base, body, "active");
    MergedMember(base, body, "lastTransitionTime");
    MergedMember(base, body, "observedGeneration");
    MergedMember(base, body, "nextTransitionTime");
    MergedMember(base, body, "conditions");
  }

  /** The members of the stored status after a reconcile, whatever was stored before. The time of the
      last transition is kept if the status already said the same and since when, and is now
      otherwise: if it said the opposite, did not say since when, or there was none. */
  lemma PublishedMembers(w: World, spec: Spec, stored: Option<Json>, generation: Option<int>, now: int)
    requires Valid(w, spec)
    ensures
      var after := Reconciled(w, spec, stored, generation, now);
      var next := NextTransition(w, spec, now);
      && next.Ok? && after.Some? && after.value.Obj?
      && Get(after.value, "active") == Some(Bool(Active(w, spec, now)))
      && (forall text :: SaysSince(stored, Active(w, spec, now), text) ==>
                           Get(after.value, "lastTransitionTime") == Some(Str(text)))
      && ((forall text :: !SaysSince(stored, Active(w, spec, now), text)) ==>
            Get(after.value, "lastTransitionTime") == Some(Str(w.stamp(now))))
      && Get(after.value, "observedGeneration") == (if generation.Some? then Some(Num(generation.value)) else None)
      && Get(after.value, "nextTransitionTime") ==
         (if next.value.Some? then Some(Str(w.stamp(next.value.value)))
          else if stored.Some? then Get(stored.value, "nextTransitionTime") else None)
      && (var c := Get(after.value, "conditions");
          && c.Some? && c.value.Arr? && |c.value.items| == 1 && !ReadyBlocks(c.value.items)
          && Get(c.value.items[0], "lastTransitionTime") == Get(after.value, "lastTransitionTime")
          && Get(c.value.items[0], "reason") == Some(Str(
               match (spec.TimeBased?, Active(w, spec, now))
               case (true, true) => "WindowOpen"
               case (true, false) => "WindowClosed"
               case (false, true) => "SessionOpen"
               case (false, false) => "SessionClosed"))
          && Get(c.value.items[0], "message") == Some(Str(
               match (spec.TimeBased?, Active(w, spec, now))
               case (true, true) => "schedule window open"
               case (true, false) => "schedule window closed"
               case (false, true) => "market session open"
               case (false, false) => "market session closed")))
  {
    hide Reconciled, Active, Valid, NextTransition, Since, ReadyBlocks, SaysSince;
    MergedMembers(w, spec, stored, generation, now);
    SinceExactly(w, stored, Active(w, spec, now), now);
  }

  /** A reader of the stored status gets exactly the schedule's activity and the generation,
      whatever the status held before. */
  lemma ReadersSeeTheSchedule(w: World, spec: Spec, stored: Option<Json>, generation: Option<int>, now: int)
    requires Valid(w, spec)
    requires generation.Some? ==> I64_MIN <= generation.value <= I64_MAX
    ensures VerdictFromStatus(Reconciled(w, spec, stored, generation, now)) ==
            if Active(w, spec, now) then SaysActive(generation) else SaysInactive(generation)
  {
    hide Reconciled, ReadyBlocks;
    PublishedMembers(w, spec, stored, generation, now);
  }

  /** The published next transition is right exactly when there is one or none was stored: the
      patch omits the member when there is none, and a merge patch keeps what it omits. */
  lemma NextTransitionMemberExactly(w: World, spec: Spec, stored: Option<Json>, generation: Option<int>, now: int)
    requires Valid(w, spec)
    ensures
      var next := NextTransition(w, spec, now);
      && next.Ok?
      && var after := Reconciled(w, spec, stored, generation, now);
         after.Some?
         && (Get(after.value, "nextTransitionTime") ==
               (if next.value.Some? then Some(Str(w.stamp(next.value.value))) else None)
             <==> next.value.Some? || stored.None? || Get(stored.value, "nextTransitionTime").None?)
  {
    hide Reconciled, NextTransition;
    PublishedMembers(w, spec, stored, generation, now);
  }

  // ---------------------------------------------------------------------------------------
  // Repeated reconciles

  /** The stored status after reconciles at the given instants. */
  function Replay(w: World, spec: Spec, stored: Option<Json>, generation: Option<int>, times: seq<int>): Option<Json>
    decreases times
  {
    if times == [] then stored
    else Replay(w, spec, Reconciled(w, spec, stored, generation, times[0]), generation, times[1..])
  }

  lemma {:induction false} ReplayAppend(w: World, spec: Spec, stored: Option<Json>, generation: Option<int>, times: seq<int>, t: int)
    ensures Replay(w, spec, stored, generation, times + [t]) ==
            Reconciled(w, spec, Replay(w, spec, stored, generation, times), generation, t)
    decreases times
  {
    hide Reconciled;
    if times == [] {
      assert times + [t] == [t] && [t][1..] == [];
    } else {
      assert (times + [t])[1..] == times[1..] + [t];
      ReplayAppend(w, spec, Reconciled(w, spec, stored, generation, times[0]), generation, times[1..], t);
    }
  }

  /** The reconciles from the `k`-th on all saw the same activity, and the one before them, if any, saw
      the other. */
  ghost predicate Stretch(w: World, spec: Spec, times: seq<int>, k: nat)
    requires Valid(w, spec)
  {
    && k < |times|
    && (forall i :: k <= i < |times| ==> Active(w, spec, times[i]) == Active(w, spec, times[k]))
    && (k > 0 ==> Active(w, spec, times[k - 1]) != Active(w, spec, times[k]))
  }

  /** Over every sequence of reconciles, at whatever instants: the published time of the last transition
      is that of the reconcile with which the current unbroken stretch of equal activity began; if it
      began before the first of them, the stored time stays. */
  lemma {:induction false} TransitionTimeOfStretch(w: World, spec: Spec, stored: Option<Json>, generation: Option<int>, times: seq<int>, k: nat)
    requires Valid(w, spec) && Stretch(w, spec, times, k)
    ensures
      var after := Replay(w, spec, stored, generation, times);
      && after.Some? && Get(after.value, "active") == Some(Bool(Active(w, spec, times[k])))
      && (k == 0 ==> forall text :: SaysSince(stored, Active(w, spec, times[0]), text) ==>
                                      Get(after.value, "lastTransitionTime") == Some(Str(text)))
      && (k > 0 || (forall text :: !SaysSince(stored, Active(w, spec, times[0]), text)) ==>
            Get(after.value, "lastTransitionTime") == Some(Str(w.stamp(times[k]))))
    decreases |times|
  {
    hide Reconciled, Active, Valid, NextTransition, Replay, ReadyBlocks;
    var n := |times| - 1;
    var init, t := times[..n], times[n];
    assert times == init + [t];
    ReplayAppend(w, spec, stored, generation, init, t);
    var before := Replay(w, spec, stored, generation, init);
    PublishedTime(w, spec, before, generation, t);
    if n == 0 {
      assert init == [];
      ReplayNothing(w, spec, stored, generation);
    } else if k < n {
      TransitionTimeOfStretch(w, spec, stored, generation, init, k);
      KeptTime(before, Active(w, spec, t));
    } else {
      var k0 := StretchOf(w, spec, init);
      TransitionTimeOfStretch(w, spec, stored, generation, init, k0);
      assert Active(w, spec, init[k0]) == Active(w, spec, init[n - 1]);
    }
  }

  lemma ReplayNothing(w: World, spec: Spec, stored: Option<Json>, generation: Option<int>)
    ensures Replay(w, spec, stored, generation, []) == stored
  {
  }

  /** Activity and time of the last transition after one reconcile. */
  lemma PublishedTime(w: World, spec: Spec, stored: Option<Json>, generation: Option<int>, now: int)
    requires Valid(w, spec)
    ensures
      var after := Reconciled(w, spec, stored, generation, now);
      && after.Some? && Get(after.value, "active") == Some(Bool(Active(w, spec, now)))
      && (forall text :: SaysSince(stored, Active(w, spec, now), text) ==>
                           Get(after.value, "lastTransitionTime") == Some(Str(text)))
      && ((forall text :: !SaysSince(stored, Active(w, spec, now), text)) ==>
            Get(after.value, "lastTransitionTime") == Some(Str(w.stamp(now))))
  {
    hide Reconciled, Active, Valid, NextTransition, ReadyBlocks, SaysSince;
    PublishedMembers(w, spec, stored, generation, now);
  }

  /** A status that says so, and says since when, keeps its time. */
  lemma KeptTime(stored: Option<Json>, active: bool)
    requires stored.Some? && Get(stored.value, "active") == Some(Bool(active))
    ensures forall text :: Get(stored.value, "lastTransitionTime") == Some(Str(text)) ==> SaysSince(stored, active, text)
  {
  }

  /** Every sequence ends in such a stretch. */
  lemma {:induction false} StretchOf(w: World, spec: Spec, times: seq<int>) returns (k: nat)
    requires Valid(w, spec) && times != []
    ensures Stretch(w, spec, times, k)
    decreases |times|
  {
    hide Active, Valid;
    var n := |times| - 1;
    if n == 0 || Active(w, spec, times[n - 1]) != Active(w, spec, times[n]) {
      k := n;
    } else {
      k := StretchOf(w, spec, times[..n]);
    }
  }

  /** While the activity and the next transition stay what they were, another reconcile sends the
      very same patch. */
  lemma SamePatchAgain(w: World, spec: Spec, stored: Option<Json>, generation: Option<int>, now: int, t: int)
    requires Valid(w, spec)
    requires Active(w, spec, t) == Active(w, spec, now)
    requires NextTransition(w, spec, t) == NextTransition(w, spec, now)
    ensures var after := Reconciled(w, spec, stored, generation, now);
            Reconciled(w, spec, after, generation, t) == after
  {
    hide IsActiveAt, NextTransition, StatusBody, MergePatch;
    ValidMeansEvaluable(w, spec, now);
    ValidMeansEvaluable(w, spec, t);
    MergedMembers(w, spec, stored, generation, now);
    var after := Reconciled(w, spec, stored, generation, now);
    assert PreviousActive(after) == Some(Active(w, spec, now));
    var patch := ComputeStatus(w, spec, stored, generation, now);
    assert ComputeStatus(w, spec, after, generation, t) == patch;
    MergeIdempotent(if stored.Some? then stored.value else Null, patch.value);
  }

  lemma {:induction false} ReplayIsFixed(w: World, spec: Spec, stored: Option<Json>, generation: Option<int>, now: int, times: seq<int>)
    requires Valid(w, spec)
    requires forall i :: 0 <= i < |times| ==>
               Active(w, spec, times[i]) == Active(w, spec, now)
               && NextTransition(w, spec, times[i]) == NextTransition(w, spec, now)
    ensures var after := Reconciled(w, spec, stored, generation, now);
            Replay(w, spec, after, generation, times) == after
    decreases times
  {
    hide Active, NextTransition, Reconciled;
    if times != [] {
      SamePatchAgain(w, spec, stored, generation, now, times[0]);
      ReplayIsFixed(w, spec, stored, generation, now, times[1..]);
    }
  }

  lemma HoursOrdered(a: int, b: int, c: int, s: int, t: int)
    requires HourStart(a) <= s < HourStart(a + 1) && HourStart(b) <= t < HourStart(b + 1)
    requires s <= t < HourStart(c)
    ensures a <= b < c
  {
  }

  /** Until the transition it found, a later scan finds the same one. */
  lemma NextTransitionIsStable(w: World, spec: Spec, now: int, t: int)
    requires Valid(w, spec) && HourConstant(w, spec)
    requires NextTransition(w, spec, now).Ok? && NextTransition(w, spec, now).value.Some?
    requires now <= t < NextTransition(w, spec, now).value.value
    ensures NextTransition(w, spec, t) == NextTransition(w, spec, now)
    ensures Active(w, spec, t) == Active(w, spec, now)
  {
    hide NextTransition, Valid, Active, HourConstant, UtcHour, ActiveAtHour;
    NextTransitionIsFirstFlip(w, spec, now);
    NextTransitionOnHours(w, spec, now);
    NextTransitionOnHours(w, spec, t);
    HourBounds(now);
    HourBounds(t);
    var k := UtcHour(NextTransition(w, spec, now).value.value);
    HoursOrdered(UtcHour(now), UtcHour(t), k, now, t);
    var again := NextTransition(w, spec, t).value;
    var k' := if again.Some? then UtcHour(again.value) else k + 1;
    assert k' <= k ==> ActiveAtHour(w, spec, k') != Active(w, spec, t);
    assert ActiveAtHour(w, spec, k) != Active(w, spec, t);
  }

  /** A provider cannot re-trigger itself: any number of reconciles strictly before the published
      transition, each fed the stored status, leave the stored status unchanged. */
  lemma NoSelfTrigger(w: World, spec: Spec, stored: Option<Json>, generation: Option<int>, now: int, times: seq<int>)
    requires Valid(w, spec) && HourConstant(w, spec)
    requires NextTransition(w, spec, now).Ok? && NextTransition(w, spec, now).value.Some?
    requires forall i :: 0 <= i < |times| ==> now <= times[i] < NextTransition(w, spec, now).value.value
    ensures var after := Reconciled(w, spec, stored, generation, now);
            Replay(w, spec, after, generation, times) == after
  {
    hide NextTransition, Reconciled, Active, Valid, HourConstant;
    forall i | 0 <= i < |times|
      ensures Active(w, spec, times[i]) == Active(w, spec, now)
              && NextTransition(w, spec, times[i]) == NextTransition(w, spec, now)
    {
      NextTransitionIsStable(w, spec, now, times[i]);
    }
    ReplayIsFixed(w, spec, stored, generation, now, times);
  }

  /** A degenerate weekly schedule settles after one reconcile, for good. */
  lemma DegenerateSettles(w: World, spec: Spec, offset: int, stored: Option<Json>, generation: Option<int>, now: int, times: seq<int>)
    requires spec.TimeBased? && Valid(w, spec) && Degenerate(spec)
    requires spec.enabled ==> Fixed(w.zones[spec.timezone], offset)
    ensures var after := Reconciled(w, spec, stored, generation, now);
            Replay(w, spec, after, generation, times) == after
  {
    hide NextTransition, Reconciled, Active, Valid, Degenerate;
    HorizonIsComplete(w, spec, offset, now);
    forall i | 0 <= i < |times|
      ensures Active(w, spec, times[i]) == Active(w, spec, now)
              && NextTransition(w, spec, times[i]) == NextTransition(w, spec, now)
    {
      HorizonIsComplete(w, spec, offset, times[i]);
    }
    ReplayIsFixed(w, spec, stored, generation, now, times);
  }

  /** A next transition stored earlier outlives the schedule's transitions: as long as no reconcile
      finds one, the stored text stays, however many reconciles follow. */
  lemma {:induction false} StaleNextTransitionSurvives(w: World, spec: Spec, stored: Option<Json>, generation: Option<int>, times: seq<int>)
    requires Valid(w, spec) && stored.Some?
    requires forall i :: 0 <= i < |times| ==> NextTransition(w, spec, times[i]) == Ok(None)
    ensures var after := Replay(w, spec, stored, generation, times);
            after.Some? && Get(after.value, "nextTransitionTime") == Get(stored.value, "nextTransitionTime")
    decreases times
  {
    hide Reconciled, NextTransition;
    if times != [] {
      PublishedMembers(w, spec, stored, generation, times[0]);
      StaleNextTransitionSurvives(w, spec, Reconciled(w, spec, stored, generation, times[0]), generation, times[1..]);
    }
  }

  // ---------------------------------------------------------------------------------------
  // Runs: sparse wake-ups against continuous evaluation

  /** What happens to a controller besides its own timer: at which instants a status PATCH succeeds,
      and how long after an instant the next watch event comes (none, if not positive). */
  datatype Env = Env(lands: int -> bool, event: int -> int)

  /** How long until the next reconcile: the requeue, or a watch event before it. */
  function Gap(w: World, spec: Spec, env: Env, now: int): (d: int)
    ensures 0 < d <= Delay(w, spec, now, env.lands(now))
  {
    RequeueIsPositive(w, spec, now);
    var timer := Delay(w, spec, now, env.lands(now));
    if 0 < env.event(now) < timer then env.event(now) else timer
  }

  /** What is stored at instant `t` by a controller that reconciles at `t0` and then whenever a watch
      event or its requeue calls for it. */
  function RunStatus(w: World, spec: Spec, generation: Option<int>, stored: Option<Json>, env: Env, t0: int, t: int): Option<Json>
    requires t0 <= t
    decreases t - t0
  {
    var after := if env.lands(t0) then Reconciled(w, spec, stored, generation, t0) else stored;
    var t1 := t0 + Gap(w, spec, env, t0);
    if t < t1 then after else RunStatus(w, spec, generation, after, env, t1, t)
  }

  /** The last wake-up not after `t`. */
  function LastWakeUp(w: World, spec: Spec, env: Env, t0: int, t: int): int
    requires t0 <= t
    decreases t - t0
  {
    var t1 := t0 + Gap(w, spec, env, t0);
    if t < t1 then t0 else LastWakeUp(w, spec, env, t1, t)
  }

  function PublishedActive(w: World, spec: Spec, generation: Option<int>, stored: Option<Json>, env: Env, t0: int, t: int): Option<Json>
    requires t0 <= t
  {
    var status := RunStatus(w, spec, generation, stored, env, t0, t);
    if status.None? then None else Get(status.value, "active")
  }

  /** The wake-ups up to `t` whose PATCH landed. */
  function LandedWakeUps(w: World, spec: Spec, env: Env, t0: int, t: int): seq<int>
    requires t0 <= t
    decreases t - t0
  {
    var t1 := t0 + Gap(w, spec, env, t0);
    (if env.lands(t0) then [t0] else []) + (if t < t1 then [] else LandedWakeUps(w, spec, env, t1, t))
  }

  /** A run is the sequence of its landed reconciles; so what holds of every such sequence holds of every
      run, the time of the last transition among it. */
  lemma {:induction false} RunIsReplay(w: World, spec: Spec, generation: Option<int>, stored: Option<Json>, env: Env, t0: int, t: int)
    requires t0 <= t
    ensures RunStatus(w, spec, generation, stored, env, t0, t) ==
            Replay(w, spec, stored, generation, LandedWakeUps(w, spec, env, t0, t))
    decreases t - t0
  {
    hide Reconciled, Gap, Delay, Replay;
    var t1 := t0 + Gap(w, spec, env, t0);
    var after := if env.lands(t0) then Reconciled(w, spec, stored, generation, t0) else stored;
    var rest := if t < t1 then [] else LandedWakeUps(w, spec, env, t1, t);
    assert LandedWakeUps(w, spec, env, t0, t) == (if env.lands(t0) then [t0] else []) + rest;
    ReplayFirst(w, spec, stored, generation, env.lands(t0), t0, rest);
    if t < t1 {
      ReplayNothing(w, spec, after, generation);
    } else {
      RunIsReplay(w, spec, generation, after, env, t1, t);
    }
  }

  lemma ReplayFirst(w: World, spec: Spec, stored: Option<Json>, generation: Option<int>, lands: bool, t0: int, rest: seq<int>)
    ensures Replay(w, spec, stored, generation, (if lands then [t0] else []) + rest) ==
            Replay(w, spec, if lands then Reconciled(w, spec, stored, generation, t0) else stored, generation, rest)
  {
    hide Reconciled;
    if lands {
      assert ([t0] + rest)[1..] == rest;
    } else {
      assert [] + rest == rest;
    }
  }

  /** In every run, watch events and failed PATCHes included: the published time of the last transition
      is that of the landed wake-up with which the current stretch of equal published activity began. */
  lemma TransitionTimeOfRun(w: World, spec: Spec, generation: Option<int>, stored: Option<Json>, env: Env, t0: int, t: int)
    returns (k: nat)
    requires Valid(w, spec) && t0 <= t && LandedWakeUps(w, spec, env, t0, t) != []
    ensures var times := LandedWakeUps(w, spec, env, t0, t);
            var status := RunStatus(w, spec, generation, stored, env, t0, t);
            && Stretch(w, spec, times, k) && status.Some?
            && (k == 0 ==> forall text :: SaysSince(stored, Active(w, spec, times[0]), text) ==>
                                            Get(status.value, "lastTransitionTime") == Some(Str(text)))
            && (k > 0 || (forall text :: !SaysSince(stored, Active(w, spec, times[0]), text)) ==>
                  Get(status.value, "lastTransitionTime") == Some(Str(w.stamp(times[k]))))
  {
    hide Replay, RunStatus, LandedWakeUps, Active, Valid;
    var times := LandedWakeUps(w, spec, env, t0, t);
    RunIsReplay(w, spec, generation, stored, env, t0, t);
    k := StretchOf(w, spec, times);
    TransitionTimeOfStretch(w, spec, stored, generation, times, k);
  }

  /** Between two wake-ups the activity at the last wake-up still agrees with some instant of the
      current UTC hour. */
  lemma BetweenWakeUps(w: World, spec: Spec, t0: int, t: int) returns (t': int)
    requires Valid(w, spec)
    requires t0 <= t < t0 + Requeue(w, spec, t0)
    ensures HourStart(UtcHour(t)) <= t' <= t && Active(w, spec, t') == Active(w, spec, t0)
  {
    hide Valid, Active, NextTransition;
    NextTransitionOnHours(w, spec, t0);
    HourBounds(t0);
    HourBounds(t);
    var h := UtcHour(t);
    if h == UtcHour(t0) {
      t' := t0;
    } else {
      t' := HourStart(h);
      assert ActiveAtHour(w, spec, h) == Active(w, spec, t0);
    }
  }

  /** In any zone whatever, and whatever PATCHes failed before: once the last one landed, what is
      published at `t` is the activity at some instant of the same UTC hour not after `t`, so it is
      never stale by as much as an hour; and a reader gets that activity. */
  lemma {:induction false} StaleWithinTheHour(w: World, spec: Spec, generation: Option<int>, stored: Option<Json>, env: Env, t0: int, t: int)
    returns (t': int)
    requires Valid(w, spec) && t0 <= t
    requires env.lands(LastWakeUp(w, spec, env, t0, t))
    ensures HourStart(UtcHour(t)) <= t' <= t
    ensures PublishedActive(w, spec, generation, stored, env, t0, t) == Some(Bool(Active(w, spec, t')))
    ensures (generation.Some? ==> I64_MIN <= generation.value <= I64_MAX) ==>
              VerdictFromStatus(RunStatus(w, spec, generation, stored, env, t0, t)) ==
              if Active(w, spec, t') then SaysActive(generation) else SaysInactive(generation)
    decreases t - t0
  {
    hide Valid, Active, NextTransition, Reconciled, Requeue, UtcHour, VerdictFromStatus;
    var after := if env.lands(t0) then Reconciled(w, spec, stored, generation, t0) else stored;
    var t1 := t0 + Gap(w, spec, env, t0);
    if t < t1 {
      PublishedMembers(w, spec, stored, generation, t0);
      if generation.Some? ==> I64_MIN <= generation.value <= I64_MAX {
        ReadersSeeTheSchedule(w, spec, stored, generation, t0);
      }
      t' := BetweenWakeUps(w, spec, t0, t);
    } else {
      t' := StaleWithinTheHour(w, spec, generation, after, env, t1, t);
    }
  }

  /** The published activity is right at every instant of every run, except after a failed PATCH
      until the next one. */
  ghost predicate AlwaysCurrent(w: World, spec: Spec)
    requires Valid(w, spec)
  {
    forall generation, stored, env: Env, t0, t | t0 <= t && env.lands(LastWakeUp(w, spec, env, t0, t)) ::
      PublishedActive(w, spec, generation, stored, env, t0, t) == Some(Bool(Active(w, spec, t)))
  }

  /** Sparse wake-ups equal continuous evaluation exactly when activity is constant over every
      UTC hour, whatever watch events add to them. */
  lemma SparseEqualsContinuous(w: World, spec: Spec)
    requires Valid(w, spec)
    ensures AlwaysCurrent(w, spec) <==> HourConstant(w, spec)
  {
    hide Valid, Active, PublishedActive, UtcHour, LastWakeUp;
    if HourConstant(w, spec) {
      forall generation, stored, env: Env, t0, t | t0 <= t && env.lands(LastWakeUp(w, spec, env, t0, t))
        ensures PublishedActive(w, spec, generation, stored, env, t0, t) == Some(Bool(Active(w, spec, t)))
      {
        var t' := StaleWithinTheHour(w, spec, generation, stored, env, t0, t);
        SameHour(t', t);
        assert Active(w, spec, t') == Active(w, spec, HourStart(UtcHour(t')));
      }
    }
    if !HourConstant(w, spec) {
      var t :| Active(w, spec, t) != Active(w, spec, HourStart(UtcHour(t)));
      HourBounds(t);
      var always := Env((_: int) => true, (_: int) => 0);
      PublishedUnchangedInHour(w, spec, None, None, always, HourStart(UtcHour(t)), t);
      assert always.lands(LastWakeUp(w, spec, always, HourStart(UtcHour(t)), t));
      assert PublishedActive(w, spec, None, None, always, HourStart(UtcHour(t)), t) != Some(Bool(Active(w, spec, t)));
    }
  }

  lemma SameHour(t': int, t: int)
    requires HourStart(UtcHour(t)) <= t' <= t
    ensures UtcHour(t') == UtcHour(t)
  {
  }

  /** Without watch events no wake-up falls due before the next whole UTC hour. */
  lemma PublishedUnchangedInHour(w: World, spec: Spec, generation: Option<int>, stored: Option<Json>, env: Env, t0: int, t: int)
    requires Valid(w, spec)
    requires t0 == HourStart(UtcHour(t)) <= t && env.lands(t0) && env.event(t0) <= 0
    ensures PublishedActive(w, spec, generation, stored, env, t0, t) == Some(Bool(Active(w, spec, t0)))
  {
    hide Valid, Active, NextTransition, Reconciled;
    PublishedMembers(w, spec, stored, generation, t0);
    NextTransitionOnHours(w, spec, t0);
    RequeueIsPositive(w, spec, t0);
    HourBounds(t);
    HourBounds(t0);
    assert t < t0 + Requeue(w, spec, t0);
  }

  /** With a fixed offset: the published activity is always right exactly when the offset is a whole
      number of hours or the schedule never flips. */
  lemma CurrentForFixedOffsets(w: World, spec: Spec, offset: int)
    requires Valid(w, spec) && spec.timezone in w.zones && Fixed(w.zones[spec.timezone], offset)
    ensures AlwaysCurrent(w, spec) <==> offset % 3600 == 0 || NeverFlips(w, spec)
  {
    hide *;
    SparseEqualsContinuous(w, spec);
    FixedOffsetHourConstant(w, spec, offset);
  }

  /** With offsets of whole hours that change on whole UTC hours, the published activity is always
      right. */
  lemma CurrentInWholeHourZones(w: World, spec: Spec)
    requires Valid(w, spec)
    requires spec.timezone in w.zones ==> WholeHour(w.zones[spec.timezone])
    ensures AlwaysCurrent(w, spec)
  {
    hide *;
    WholeHourIsHourConstant(w, spec);
    SparseEqualsContinuous(w, spec);
  }
}
