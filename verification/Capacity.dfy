/** The capacity decision (`src/reconcilers/capacity_decision.rs`) and the reconcile around it
    (`src/reconcilers/scheduled_capacity.rs`), iterated over runs with faults and spec edits. */
module Capacity {
  import opened Base
  import opened SpotSchedule

  const INACTIVE_VALUE: int := 0

  datatype Phase = Pending | Active | HandingBack | HandbackTimedOut | Inactive | Disabled | Terminated | Error

  datatype Reason =
    | ScheduleActive | ScheduleInactive | WaitingForDrain | HandbackDeadlinePassed
    | NoDrainSignalConfigured | TargetNotActuable | AlsoGovernedByScheduledMachine

  datatype Input = Input(
    enabled: bool,
    killSwitch: bool,
    activeValue: int,
    verdict: Verdict,
    lastKnownActive: Option<bool>,
    lastWritten: Option<int>,
    targetResolved: bool,
    hasDrainSignal: bool,
    observedDrained: Option<int>,
    handbackTimeout: int,
    handbackDeadline: Option<int>,
    conflict: bool,
    now: int)

  datatype Decision = Decision(
    phase: Phase,
    write: Option<int>,
    handbackDeadline: Option<int>,
    reason: Reason,
    ready: bool,
    handbackComplete: bool,
    conflict: bool)

  function WriteIfChanged(lastWritten: Option<int>, desired: int): Option<int> {
    if lastWritten == Some(desired) then None else Some(desired)
  }

  /** `decide`: the guard clauses in their order of precedence. */
  function Decide(i: Input): Decision {
    if i.conflict then
      Decision(Error, WriteIfChanged(i.lastWritten, INACTIVE_VALUE), None, AlsoGovernedByScheduledMachine, false, false, true)
    else if !i.targetResolved then
      Decision(Pending, None, None, TargetNotActuable, false, false, false)
    else if i.killSwitch then
      Decision(Terminated, WriteIfChanged(i.lastWritten, INACTIVE_VALUE), None, ScheduleInactive, false, true, false)
    else if i.enabled && ComposeShouldBeActive(i.verdict, i.lastKnownActive) then
      Decision(Active, WriteIfChanged(i.lastWritten, i.activeValue), None, ScheduleActive, true, false, false)
    else
      var write := WriteIfChanged(i.lastWritten, INACTIVE_VALUE);
      var settled := if i.enabled then Inactive else Disabled;
      if !i.hasDrainSignal then
        Decision(settled, write, None, NoDrainSignalConfigured, false, true, false)
      else if i.observedDrained == Some(INACTIVE_VALUE) then
        Decision(settled, write, None, ScheduleInactive, false, true, false)
      else
        var deadline := if i.handbackDeadline.Some? then i.handbackDeadline.value else i.now + i.handbackTimeout;
        if i.now >= deadline then
          Decision(HandbackTimedOut, write, Some(deadline), HandbackDeadlinePassed, false, false, false)
        else
          Decision(HandingBack, write, Some(deadline), WaitingForDrain, false, false, false)
  }

  /** Capacity is to be conceded: nothing stands against it and the composed schedule says so. */
  predicate Concedes(i: Input) {
    !i.conflict && i.targetResolved && !i.killSwitch && i.enabled
    && ComposeShouldBeActive(i.verdict, i.lastKnownActive)
  }

  /** The value the target ought to hold after this reconcile; none while it may not be touched. */
  function Intended(i: Input): Option<int> {
    if !i.conflict && !i.targetResolved then None
    else Some(if Concedes(i) then i.activeValue else INACTIVE_VALUE)
  }

  /** Zero is on and the consumer has not reported itself drained. */
  predicate Waits(i: Input) {
    !i.conflict && i.targetResolved && !i.killSwitch && !Concedes(i)
    && i.hasDrainSignal && i.observedDrained != Some(INACTIVE_VALUE)
  }

  /** What the decision means, clause by clause and in no particular order. */
  lemma DecideMeans(i: Input)
    ensures var d := Decide(i);
      // the write is the intended value, suppressed exactly when it is the recorded one
      && (forall v :: d.write == Some(v) <==> Intended(i) == Some(v) && i.lastWritten != Some(v))
      // the active value is never written under conflict, kill switch, or while disabled
      && (i.conflict || i.killSwitch || !i.enabled ==> d.write in {None, Some(INACTIVE_VALUE)})
      // phases
      && (d.phase.Active? <==> Concedes(i)) && (d.ready <==> d.phase.Active?)
      && (d.phase.Error? <==> i.conflict) && (d.conflict <==> d.phase.Error?)
      && (d.phase.Pending? <==> Intended(i).None?)
      && (d.phase.Terminated? <==> !i.conflict && i.targetResolved && i.killSwitch)
      && (d.phase.HandingBack? || d.phase.HandbackTimedOut? <==> Waits(i))
      && (d.phase.Inactive? || d.phase.Disabled? ==> (d.phase.Inactive? <==> i.enabled))
      && (d.handbackComplete <==> d.phase in {Terminated, Inactive, Disabled})
      // a deadline is recorded exactly while waiting, and the phase says which side of it we are
      && (d.handbackDeadline.Some? <==> Waits(i))
      && (Waits(i) ==>
            && (i.handbackDeadline.Some? ==> d.handbackDeadline == i.handbackDeadline)
            && (i.handbackDeadline.None? ==> d.handbackDeadline == Some(i.now + i.handbackTimeout))
            && (d.phase.HandbackTimedOut? <==> i.now >= d.handbackDeadline.value))
      && d.reason == (match d.phase
                      case Pending => TargetNotActuable
                      case Active => ScheduleActive
                      case HandingBack => WaitingForDrain
                      case HandbackTimedOut => HandbackDeadlinePassed
                      case Terminated => ScheduleInactive
                      case Error => AlsoGovernedByScheduledMachine
                      case _ => if i.hasDrainSignal then ScheduleInactive else NoDrainSignalConfigured)
  {
  }

  // ---------------------------------------------------------------------------------------
  // One reconcile

  /** The owned object: what it was built from (template and field), and the value in the field. */
  datatype Owned = Owned(shape: string, value: int)

  datatype Status = Status(phase: Option<Phase>, written: Option<int>, deadline: Option<int>, spotActive: Option<bool>)

  datatype State = State(target: Option<Owned>, status: Status)

  /** What can go wrong: an error before anything is written, a failed apply, a failed status patch. */
  datatype Fault = NoFault | EarlyError | ApplyFails | PatchFails

  /** Everything one reconcile reads besides its own status. */
  datatype Observation = Observation(
    enabled: bool,
    killSwitch: bool,
    activeValue: int,
    shape: string,
    hasDrainSignal: bool,
    timeout: int,
    verdict: Verdict,
    resolved: bool,
    conflict: bool,
    counter: Option<int>,
    now: int,
    fault: Fault)

  function InputOf(s: State, o: Observation): Input {
    Input(o.enabled, o.killSwitch, o.activeValue, o.verdict, s.status.spotActive, s.status.written, o.resolved,
          o.hasDrainSignal, if o.resolved && s.target.Some? && o.hasDrainSignal then o.counter else None,
          o.timeout, s.status.deadline, o.conflict, o.now)
  }

  /** The reconcile stops before the status patch. A target that did not resolve is not applied at
      all, so its apply cannot fail. */
  predicate StopsEarly(s: State, o: Observation) {
    o.fault.EarlyError? || (o.fault.ApplyFails? && o.resolved && Decide(InputOf(s, o)).write.Some?)
  }

  /** The reconcile ran to the end and its status patch landed. */
  predicate Recorded(s: State, o: Observation) {
    !StopsEarly(s, o) && !o.fault.PatchFails?
  }

  /** The state after one reconcile: write first, then status. */
  function Next(s: State, o: Observation): State {
    var d := Decide(InputOf(s, o));
    if StopsEarly(s, o) then s
    else
      var target := if d.write.Some? && o.resolved then Some(Owned(o.shape, d.write.value)) else s.target;
      if o.fault.PatchFails? then State(target, s.status)
      else
        var written := if d.write.Some? then d.write else s.status.written;
        State(target, Status(Some(d.phase), written, d.handbackDeadline, o.verdict.Value()))
  }

  /** `reconcile`, with the API objects as fields. */
  class Controller {
    var target: Option<Owned>
    var status: Status

    constructor (s: State)
      ensures target == s.target && status == s.status
    {
      target := s.target;
      status := s.status;
    }

    method Reconcile(o: Observation) returns (ok: bool)
      modifies this
      ensures State(target, status) == Next(old(State(target, status)), o)
      ensures ok <==> old(Recorded(State(target, status), o))
    {
      if o.fault.EarlyError? { return false; }
      var decision := Decide(InputOf(State(target, status), o));
      var written := status.written;
      if decision.write.Some? {
        if o.resolved {
          if o.fault.ApplyFails? { return false; }
          target := Some(Owned(o.shape, decision.write.value));
        }
        written := decision.write;
      }
      if o.fault.PatchFails? { return false; }
      status := Status(Some(decision.phase), written, decision.handbackDeadline, o.verdict.Value());
      return true;
    }
  }

  // ---------------------------------------------------------------------------------------
  // Suppressed writes against always writing

  /** The reconcile puts its object on the cluster. */
  predicate Applies(s: State, o: Observation) {
    var intended := Intended(InputOf(s, o));
    && intended.Some? && intended != s.status.written
    && o.resolved && o.fault !in {EarlyError, ApplyFails}
  }

  /** The object is replaced as a whole by an applying reconcile, and touched by no other. */
  lemma TargetAfterExactly(s: State, o: Observation)
    ensures Next(s, o).target ==
            if Applies(s, o) then Some(Owned(o.shape, Intended(InputOf(s, o)).value)) else s.target
  {
  }

  predicate Holds(target: Option<Owned>, value: int) {
    target.Some? && target.value.value == value
  }

  /** What was recorded as written is the value the object holds. */
  predicate RecordTrue(s: State) {
    s.status.written.Some? ==> Holds(s.target, s.status.written.value)
  }

  /** Besides, the object was built from this template and field. */
  predicate InSync(s: State, shape: string) {
    s.status.written.Some? ==> s.target == Some(Owned(shape, s.status.written.value))
  }

  /** A sound reconcile: it ran to the end against a resolved target. */
  predicate Sound(o: Observation) {
    o.resolved && o.fault.NoFault?
  }

  /** After the reconcile the target holds the intended value. */
  predicate HoldsIntended(s: State, o: Observation) {
    var intended := Intended(InputOf(s, o));
    intended.Some? && Holds(Next(s, o).target, intended.value)
  }

  /** The target is exactly what a controller that writes its intended value every time would have
      put there, template and field included. */
  predicate Settled(s: State, o: Observation) {
    var intended := Intended(InputOf(s, o));
    intended.Some? && Next(s, o).target == Some(Owned(o.shape, intended.value))
  }

  /** When a reconcile settles the whole object: it applies, or the object is already the one. So a
      sound reconcile misses an edit of template or field exactly when the intended value is the one
      on record and the object was built from something else. */
  lemma SettledExactly(s: State, o: Observation)
    ensures Settled(s, o) <==>
            var intended := Intended(InputOf(s, o));
            intended.Some? && (Applies(s, o) || s.target == Some(Owned(o.shape, intended.value)))
    ensures Sound(o) ==>
              var intended := Intended(InputOf(s, o));
              && intended.Some?
              && (Settled(s, o) <==>
                    intended != s.status.written || s.target == Some(Owned(o.shape, intended.value)))
  {
  }

  /** A true record is exactly what makes write suppression harmless for the value: every sound
      reconcile leaves the intended value, whatever it observes. */
  lemma RecordTrueExactly(s: State)
    ensures RecordTrue(s) <==> forall o :: Sound(o) ==> HoldsIntended(s, o)
  {
    if !RecordTrue(s) {
      var o := Suppressed(s.status.written.value, "");
      assert Sound(o) && !HoldsIntended(s, o);
    }
  }

  /** And for the whole object: every sound reconcile under a spec of this shape settles it. */
  lemma InSyncExactly(s: State, shape: string)
    ensures InSync(s, shape) <==> forall o :: Sound(o) && o.shape == shape ==> Settled(s, o)
  {
    if !InSync(s, shape) {
      var o := Suppressed(s.status.written.value, shape);
      assert Sound(o) && !Settled(s, o);
    }
  }

  /** An observation that intends `value`. */
  function Suppressed(value: int, shape: string): Observation {
    var verdict := if value == INACTIVE_VALUE then SaysInactive(None) else SaysActive(None);
    var activeValue := if value == INACTIVE_VALUE then 1 else value;
    Observation(true, false, activeValue, shape, false, 0, verdict, true, false, None, 0, NoFault)
  }

  /** The schedule, as this reconcile composes it, says active: a resolved verdict as it is, an unresolved
      one as the last recorded verdict. */
  predicate SaysSo(s: State, o: Observation) {
    o.verdict.SaysActive? || (o.verdict.Unresolved? && s.status.spotActive == Some(true))
  }

  /** What a sound reconcile does, from what it observes: it wants the active value exactly without
      conflict and kill switch, enabled and with the schedule active, and zero otherwise; it leaves the
      object alone if that is on record, and replaces it if not; so from a true record the value is
      there. */
  lemma SoundReconcileMeans(s: State, o: Observation)
    requires Sound(o)
    ensures var value := if !o.conflict && !o.killSwitch && o.enabled && SaysSo(s, o) then o.activeValue else 0;
            && (RecordTrue(s) ==> Holds(Next(s, o).target, value))
            && Next(s, o).target == if s.status.written == Some(value) then s.target else Some(Owned(o.shape, value))
  {
  }

  /** Every fault, by what the same reconcile does without it: an early error leaves everything; a failed
      apply leaves everything if there was something to apply, and does not show otherwise; a failed
      patch loses the status alone. And a target that does not resolve is not touched. */
  lemma FaultsExactly(s: State, o: Observation)
    ensures var clean := Next(s, o.(fault := NoFault));
            match o.fault
            case NoFault => Next(s, o) == clean
            case EarlyError => Next(s, o) == s
            case ApplyFails => Next(s, o) == if o.resolved && clean.status.written != s.status.written then s else clean
            case PatchFails => Next(s, o) == State(clean.target, s.status)
    ensures !o.resolved ==> Next(s, o).target == s.target
  {
  }

  /** The status a recorded reconcile leaves, field by field and from what it observes. */
  lemma StatusAfterExactly(s: State, o: Observation)
    requires Recorded(s, o)
    ensures
      var after := Next(s, o).status;
      var active := o.enabled && SaysSo(s, o);
      var drained := !o.hasDrainSignal || (s.target.Some? && o.counter == Some(0));
      var waits := !o.conflict && o.resolved && !o.killSwitch && !active && !drained;
      var deadline := if s.status.deadline.Some? then s.status.deadline.value else o.now + o.timeout;
      && after.phase == Some(if o.conflict then Error
                             else if !o.resolved then Pending
                             else if o.killSwitch then Terminated
                             else if active then Active
                             else if drained then (if o.enabled then Inactive else Disabled)
                             else if o.now >= deadline then HandbackTimedOut else HandingBack)
      && after.deadline == (if waits then Some(deadline) else None)
      && after.written == (if !o.conflict && !o.resolved then s.status.written
                           else Some(if !o.conflict && !o.killSwitch && active then o.activeValue else 0))
      && after.spotActive == (match o.verdict
                              case SaysActive(_) => Some(true)
                              case SaysInactive(_) => Some(false)
                              case Unresolved => None)
  {
  }

  /** The two ways a reconcile breaks the record: a write over a recorded value whose status patch
      fails, and a conflict on a target that did not resolve, where a zero is recorded although
      nothing was applied. All of it can be read off before the call. */
  predicate BreaksRecord(s: State, o: Observation) {
    if o.resolved then
      && o.fault.PatchFails?
      && s.status.written.Some? && s.status.written != Intended(InputOf(s, o))
    else
      && o.fault !in {EarlyError, PatchFails}
      && o.conflict && s.status.written != Some(INACTIVE_VALUE) && !Holds(s.target, INACTIVE_VALUE)
  }

  /** One reconcile keeps the record true exactly when it is not one of those two, whatever becomes
      of template and field. */
  lemma StepKeepsRecordExactly(s: State, o: Observation)
    requires RecordTrue(s)
    ensures RecordTrue(Next(s, o)) <==> !BreaksRecord(s, o)
  {
  }

  /** What one reconcile of a run does to the target. */
  ghost predicate StepFollows(s: State, o: Observation) {
    var i := InputOf(s, o);
    var after := Next(s, o).target;
    if StopsEarly(s, o) || Intended(i).None? || (!o.resolved && o.fault.PatchFails?) then after == s.target
    else
      // the intended value, in an object built by this reconcile if it applies and left alone if
      // not; and applying over a recorded value really changes the value
      && HoldsIntended(s, o)
      && (if Applies(s, o) then Settled(s, o) else after == s.target)
      && (Applies(s, o) && s.status.written.Some? ==> !Holds(s.target, Intended(i).value))
  }

  ghost predicate RunFollows(s: State, obs: seq<Observation>)
    decreases obs
  {
    obs == [] || (StepFollows(s, obs[0]) && RunFollows(Next(s, obs[0]), obs[1..]))
  }

  ghost predicate RunKeepsRecord(s: State, obs: seq<Observation>)
    decreases obs
  {
    obs == [] || (!BreaksRecord(s, obs[0]) && RunKeepsRecord(Next(s, obs[0]), obs[1..]))
  }

  function Exec(s: State, obs: seq<Observation>): State
    decreases obs
  {
    if obs == [] then s else Exec(Next(s, obs[0]), obs[1..])
  }

  lemma StepHolds(s: State, o: Observation)
    requires RecordTrue(s) && !BreaksRecord(s, o)
    ensures StepFollows(s, o)
  {
  }

  /** Over every run that never breaks the record, whatever the verdicts, conflicts, counters, clocks,
      edits of every part of the spec, and failed writes: after every completed reconcile the target
      holds the intended value, and no write is wasted. */
  lemma {:induction false} RunKeepsTarget(s: State, obs: seq<Observation>)
    requires RecordTrue(s)
    requires RunKeepsRecord(s, obs)
    ensures RunFollows(s, obs) && RecordTrue(Exec(s, obs))
    decreases obs
  {
    hide Next, BreaksRecord, StepFollows, RecordTrue;
    if obs != [] {
      StepHolds(s, obs[0]);
      StepKeepsRecordExactly(s, obs[0]);
      RunKeepsTarget(Next(s, obs[0]), obs[1..]);
    }
  }

  /** Wherever the run is interrupted, any sound reconcile leaves the intended value. */
  ghost predicate HoldsThroughout(s: State, obs: seq<Observation>)
    decreases obs
  {
    && (forall o :: Sound(o) ==> HoldsIntended(s, o))
    && (obs == [] || HoldsThroughout(Next(s, obs[0]), obs[1..]))
  }

  /** Never breaking the record is not only enough but needed, for every run from every state. */
  lemma {:induction false} HoldsThroughoutExactly(s: State, obs: seq<Observation>)
    ensures HoldsThroughout(s, obs) <==> RecordTrue(s) && RunKeepsRecord(s, obs)
    decreases obs
  {
    hide Next, BreaksRecord, RecordTrue, HoldsIntended, Sound;
    RecordTrueExactly(s);
    if obs != [] && RecordTrue(s) {
      StepKeepsRecordExactly(s, obs[0]);
      HoldsThroughoutExactly(Next(s, obs[0]), obs[1..]);
    }
  }

  // ---------------------------------------------------------------------------------------
  // Edits of template and field

  /** A value is on record and the object was not built from `shape`: then an edit to `shape` waits
      until the value changes. To be read off before the reconcile `o` it follows. */
  predicate LeavesOtherShape(s: State, o: Observation, shape: string) {
    && (s.status.written.Some? || (Recorded(s, o) && Intended(InputOf(s, o)).Some?))
    && (if Applies(s, o) then o.shape != shape
        else s.target.None? || s.target.value.shape != shape)
  }

  /** After one reconcile the record matches the whole object as a spec of `shape` wants it exactly
      when the record was kept and the object has that shape. */
  lemma StepKeepsSyncExactly(s: State, o: Observation, shape: string)
    requires RecordTrue(s)
    ensures InSync(Next(s, o), shape) <==> !BreaksRecord(s, o) && !LeavesOtherShape(s, o, shape)
  {
    TargetAfterExactly(s, o);
    StepKeepsRecordExactly(s, o);
    assert Next(s, o).status.written.Some? <==>
           s.status.written.Some? || (Recorded(s, o) && Intended(InputOf(s, o)).Some?);
    hide BreaksRecord, Next, Intended, Recorded, Applies;
  }

  /** The shape in force at the start of a run that ends under a spec of shape `last`. */
  function ShapeAt(obs: seq<Observation>, last: string): string {
    if obs == [] then last else obs[0].shape
  }

  /** Wherever the run is interrupted, any sound reconcile under the spec then in force settles the
      whole object. */
  ghost predicate SettlesThroughout(s: State, obs: seq<Observation>, last: string)
    decreases obs
  {
    && (forall o :: Sound(o) && o.shape == ShapeAt(obs, last) ==> Settled(s, o))
    && (obs == [] || SettlesThroughout(Next(s, obs[0]), obs[1..], last))
  }

  ghost predicate RunKeepsObject(s: State, obs: seq<Observation>, last: string)
    decreases obs
  {
    obs == [] ||
    (&& !BreaksRecord(s, obs[0]) && !LeavesOtherShape(s, obs[0], ShapeAt(obs[1..], last))
     && RunKeepsObject(Next(s, obs[0]), obs[1..], last))
  }

  /** For every run from every state, template and field edited at will: suppression is harmless for
      the whole object throughout exactly when the record starts true, is never broken, and no edit
      of template or field finds a value on record in an object of another shape. */
  lemma {:induction false} SettlesThroughoutExactly(s: State, obs: seq<Observation>, last: string)
    ensures SettlesThroughout(s, obs, last) <==> InSync(s, ShapeAt(obs, last)) && RunKeepsObject(s, obs, last)
    decreases obs
  {
    InSyncExactly(s, ShapeAt(obs, last));
    if obs != [] && InSync(s, ShapeAt(obs, last)) {
      assert RecordTrue(s);
      hide Next, BreaksRecord, LeavesOtherShape, InSync, Settled, Sound, RecordTrue;
      StepKeepsSyncExactly(s, obs[0], ShapeAt(obs[1..], last));
      SettlesThroughoutExactly(Next(s, obs[0]), obs[1..], last);
    }
  }

  lemma {:induction false} ExecAppend(s: State, obs: seq<Observation>, o: Observation)
    ensures Exec(s, obs + [o]) == Next(Exec(s, obs), o)
    decreases obs
  {
    hide Next;
    if obs == [] {
      assert obs + [o] == [o] && [o][1..] == [];
    } else {
      assert (obs + [o])[1..] == obs[1..] + [o];
      ExecAppend(Next(s, obs[0]), obs[1..], o);
    }
  }

  /** The `k`-th reconcile of the run applies. */
  predicate AppliesAt(s: State, obs: seq<Observation>, k: nat)
    requires k < |obs|
  {
    Applies(Exec(s, obs[..k]), obs[k])
  }

  lemma AppliesAtPrefix(s: State, obs: seq<Observation>)
    requires obs != []
    ensures var init := obs[..|obs| - 1];
            forall k :: 0 <= k < |init| ==>
              obs[..k] == init[..k] && obs[k] == init[k] && AppliesAt(s, obs, k) == AppliesAt(s, init, k)
  {
    hide Exec, Applies;
    var init := obs[..|obs| - 1];
    forall k | 0 <= k < |init| ensures obs[..k] == init[..k] {}
  }

  /** Over every run: the object is, template, field and value, the one the last applying reconcile
      put there, and untouched if there was none. So an edit of template or field reaches the
      object exactly with the first reconcile after it that applies. */
  lemma {:induction false} ObjectIsOfLastApplied(s: State, obs: seq<Observation>)
    ensures (forall k :: 0 <= k < |obs| ==> !AppliesAt(s, obs, k)) ==> Exec(s, obs).target == s.target
    ensures forall k :: 0 <= k < |obs| && AppliesAt(s, obs, k)
                        && (forall j :: k < j < |obs| ==> !AppliesAt(s, obs, j)) ==>
              && Intended(InputOf(Exec(s, obs[..k]), obs[k])).Some?
              && Exec(s, obs).target ==
                 Some(Owned(obs[k].shape, Intended(InputOf(Exec(s, obs[..k]), obs[k])).value))
    decreases |obs|
  {
    if obs != [] {
      var n := |obs| - 1;
      var init := obs[..n];
      assert obs == init + [obs[n]];
      ExecAppend(s, init, obs[n]);
      TargetAfterExactly(Exec(s, init), obs[n]);
      ObjectIsOfLastApplied(s, init);
      AppliesAtPrefix(s, obs);
      assert AppliesAt(s, obs, n) == Applies(Exec(s, init), obs[n]);
      hide Exec, Next, Intended, InputOf, Applies, AppliesAt;
    }
  }

  /** The deadline, if one is running, is not reached at `later`. */
  predicate BeforeDeadline(s: State, later: int) {
    s.status.phase == Some(HandingBack) ==> s.status.deadline.Some? && later < s.status.deadline.value
  }

  /** The same observation again writes nothing and leaves the status as it is, so the no-op guard
      skips the patch. */
  predicate Quiet(s: State, o: Observation, later: int) {
    var again := o.(now := later);
    Decide(InputOf(s, again)).write.None? && Next(s, again) == s
  }

  /** The controller does not feed itself. One sound reconcile settles it, until the deadline if one is
      running, unless it holds a state that the next one will not, or creates an object whose drain
      signal only the next one can read. */
  lemma QuietAfterOne(s: State, o: Observation, now: int, later: int)
    requires Sound(o) && now <= later
    requires o.verdict.Unresolved? ==> s.status.spotActive != Some(true)
    requires o.hasDrainSignal && s.target.None? ==> !Applies(s, o)
    requires BeforeDeadline(Next(s, o.(now := now)), later)
    ensures Quiet(Next(s, o.(now := now)), o, later)
  {
  }

  /** What the first reconcile leaves for the second. */
  lemma FirstReconcile(s: State, o: Observation, now: int)
    requires Sound(o)
    ensures var s1 := Next(s, o.(now := now));
            && (o.verdict.Unresolved? ==> s1.status.spotActive.None?)
            && (s1.target.None? ==> s.target.None? && s.status.written.Some? && s1.status.written == s.status.written)
            && (s1.target.None? && !(o.verdict.Unresolved? && s.status.spotActive == Some(true)) ==> !Applies(s1, o))
  {
  }

  /** In those cases the second one settles it, if the record was true before; and from any state
      whatever the third one does. */
  lemma QuietAfterThree(s: State, o: Observation, times: seq<int>, later: int)
    requires Sound(o) && |times| == (if RecordTrue(s) then 2 else 3) && times[|times| - 1] <= later
    requires BeforeDeadline(Exec(s, Repeated(o, times)), later)
    ensures Quiet(Exec(s, Repeated(o, times)), o, later)
  {
    var s1 := Next(s, o.(now := times[0]));
    var s2 := Next(s1, o.(now := times[1]));
    FirstReconcile(s, o, times[0]);
    FirstReconcile(s1, o, times[1]);
    RepeatedExec(s, o, times);
    hide Exec, Next, Decide, InputOf, Applies, Quiet, BeforeDeadline;
    if |times| == 2 {
      QuietAfterOne(s1, o, times[1], later);
    } else {
      QuietAfterOne(s2, o, times[2], later);
    }
  }

  /** The same observation at several instants. */
  function Repeated(o: Observation, times: seq<int>): seq<Observation> {
    seq(|times|, k requires 0 <= k < |times| => o.(now := times[k]))
  }

  lemma RepeatedExec(s: State, o: Observation, times: seq<int>)
    requires 2 <= |times| <= 3
    ensures var s2 := Next(Next(s, o.(now := times[0])), o.(now := times[1]));
            Exec(s, Repeated(o, times)) == if |times| == 2 then s2 else Next(s2, o.(now := times[2]))
  {
    hide Next;
    var a, b := o.(now := times[0]), o.(now := times[1]);
    ExecAppend(s, [], a);
    ExecAppend(s, [a], b);
    assert [] + [a] == [a] && [a] + [b] == [a, b];
    if |times| == 2 {
      assert Repeated(o, times) == [a, b];
    } else {
      var c := o.(now := times[2]);
      ExecAppend(s, [a, b], c);
      assert Repeated(o, times) == [a, b] + [c];
    }
  }

  /** An edit of template or field over a recorded value: it is on the object after a reconcile
      exactly when that reconcile applies, that is, when the value changes too and can be written. */
  lemma ShapeEditAppliedExactly(s: State, o: Observation, oldShape: string)
    requires InSync(s, oldShape) && s.status.written.Some? && o.shape != oldShape
    ensures Settled(s, o) <==> Applies(s, o)
    ensures !Applies(s, o) ==> Next(s, o).target == s.target
  {
    TargetAfterExactly(s, o);
  }

  /** The conflict case at run length: capacity conceded before a conflict that first shows while
      the target does not resolve is never taken back, for as long as the conflict lasts. */
  lemma {:induction false} ConflictLeavesCapacity(s: State, shape: string, value: int, first: Observation, rest: seq<Observation>)
    requires value != INACTIVE_VALUE
    requires s.target == Some(Owned(shape, value)) && s.status.written == Some(value)
    requires first.conflict && !first.resolved && first.fault.NoFault?
    requires forall k :: 0 <= k < |rest| ==> rest[k].conflict
    ensures var after := Exec(Next(s, first), rest);
            after.target == Some(Owned(shape, value)) && after.status.written == Some(INACTIVE_VALUE)
  {
    ZeroOnRecordSuppresses(Next(s, first), rest);
  }

  /** With a zero on record, reconciles under conflict write nothing. */
  lemma {:induction false} ZeroOnRecordSuppresses(s: State, obs: seq<Observation>)
    requires s.status.written == Some(INACTIVE_VALUE)
    requires forall k :: 0 <= k < |obs| ==> obs[k].conflict
    ensures Exec(s, obs).target == s.target && Exec(s, obs).status.written == Some(INACTIVE_VALUE)
    decreases obs
  {
    if obs != [] {
      ZeroOnRecordSuppresses(Next(s, obs[0]), obs[1..]);
    }
  }

  // ---------------------------------------------------------------------------------------
  // The handback clock

  /** Deadline and phase in the stored status agree. */
  predicate ClockMatchesPhase(s: State) {
    s.status.deadline.Some? <==> s.status.phase in {Some(HandingBack), Some(HandbackTimedOut)}
  }

  /** In every run, faults included, a deadline is on record exactly in the two waiting phases. */
  lemma {:induction false} DeadlineExactlyWhileWaiting(s: State, obs: seq<Observation>)
    requires ClockMatchesPhase(s)
    ensures ClockMatchesPhase(Exec(s, obs))
    decreases obs
  {
    if obs != [] {
      DecideMeans(InputOf(s, obs[0]));
      DeadlineExactlyWhileWaiting(Next(s, obs[0]), obs[1..]);
    }
  }

  /** The observations of a run whose reconcile was recorded. */
  function Recordings(s: State, obs: seq<Observation>): seq<Observation>
    decreases obs
  {
    if obs == [] then []
    else (if Recorded(s, obs[0]) then [obs[0]] else []) + Recordings(Next(s, obs[0]), obs[1..])
  }

  /** An unbroken stretch of waiting reconciles on a clock that does not run backwards; writes and
      status patches may fail. */
  ghost predicate Waiting(s: State, obs: seq<Observation>, from: int)
    decreases obs
  {
    obs == [] ||
    var o := obs[0];
    && from <= o.now
    && Waits(InputOf(s, o))
    && Waiting(Next(s, o), obs[1..], o.now)
  }

  /** The phase a waiting reconcile shows. */
  function Side(now: int, deadline: int): Option<Phase> {
    Some(if now >= deadline then HandbackTimedOut else HandingBack)
  }

  /** Along such a stretch a deadline on record never moves, whatever the timeout is edited to and
      whatever fails; the phase tells on which side of it the last recorded reconcile was; and once
      timed out it stays timed out. */
  lemma {:induction false} DeadlineNeverMoves(s: State, obs: seq<Observation>, from: int, deadline: int)
    requires s.status.deadline == Some(deadline)
    requires Waiting(s, obs, from)
    ensures Exec(s, obs).status.deadline == Some(deadline)
    ensures var r := Recordings(s, obs);
            Exec(s, obs).status.phase == if r == [] then s.status.phase else Side(r[|r| - 1].now, deadline)
    ensures from >= deadline && (Recordings(s, obs) != [] || s.status.phase == Some(HandbackTimedOut)) ==>
              Exec(s, obs).status.phase == Some(HandbackTimedOut)
    decreases obs
  {
    if obs != [] {
      var o, rest := obs[0], obs[1..];
      WaitingStep(s, o);
      hide Waits, Recorded, Next;
      DeadlineNeverMoves(Next(s, o), rest, o.now, deadline);
    }
  }

  /** One waiting reconcile. */
  lemma WaitingStep(s: State, o: Observation)
    requires Waits(InputOf(s, o))
    ensures var after := Next(s, o).status;
            if !Recorded(s, o) then after == s.status
            else
              && after.deadline == Some(if s.status.deadline.Some? then s.status.deadline.value else o.now + o.timeout)
              && after.phase == Side(o.now, after.deadline.value)
  {
    DecideMeans(InputOf(s, o));
  }

  /** The first recorded reconcile of a stretch sets the clock, to its own instant plus the timeout
      then in force; until one is recorded there is none. */
  lemma {:induction false} FirstRecordedWaitSetsTheClock(s: State, obs: seq<Observation>, from: int)
    requires s.status.deadline.None? && Waiting(s, obs, from)
    ensures var r := Recordings(s, obs);
            if r == [] then Exec(s, obs).status == s.status
            else
              && Exec(s, obs).status.deadline == Some(r[0].now + r[0].timeout)
              && Exec(s, obs).status.phase == Side(r[|r| - 1].now, r[0].now + r[0].timeout)
    decreases obs
  {
    if obs != [] {
      var o, rest := obs[0], obs[1..];
      WaitingStep(s, o);
      hide Waits, Recorded, Next;
      if Recorded(s, o) {
        DeadlineNeverMoves(Next(s, o), rest, o.now, o.now + o.timeout);
      } else {
        FirstRecordedWaitSetsTheClock(Next(s, o), rest, o.now);
      }
    }
  }

  /** So the deadline is the beginning of the wait plus the timeout exactly when the first reconcile was
      recorded, or the first recorded one names the same instant by accident; with the first one lost,
      the clock starts over. */
  lemma ClockStartsWithTheWaitExactly(s: State, obs: seq<Observation>, from: int)
    requires s.status.deadline.None? && obs != [] && Waiting(s, obs, from)
    ensures var start := obs[0].now + obs[0].timeout;
            var r := Recordings(Next(s, obs[0]), obs[1..]);
            Exec(s, obs).status.deadline == Some(start) <==>
            Recorded(s, obs[0]) || (r != [] && r[0].now + r[0].timeout == start)
  {
    hide Waits, Recorded, Next, Exec;
    FirstRecordedWaitSetsTheClock(s, obs, from);
  }

  // ---------------------------------------------------------------------------------------
  // Holding the last state while the provider is unresolved

  /** The hold lasts one recorded reconcile: after a stretch of unresolved verdicts, whatever failed
      in it, the next unresolved verdict composes to active exactly when the last resolved verdict was
      active and no reconcile of the stretch was recorded. */
  lemma {:induction false} HoldLastsOneReconcile(s: State, obs: seq<Observation>)
    requires forall k :: 0 <= k < |obs| ==> obs[k].verdict.Unresolved?
    ensures ComposeShouldBeActive(Unresolved, Exec(s, obs).status.spotActive) <==>
            s.status.spotActive == Some(true) && Recordings(s, obs) == []
    decreases obs
  {
    if obs != [] {
      UnresolvedForgets(s, obs[0]);
      hide Recorded, Next;
      HoldLastsOneReconcile(Next(s, obs[0]), obs[1..]);
    }
  }

  /** Over every run the stored value is that of the last recorded verdict; so an unresolved verdict
      composes to active exactly when that one said so. */
  lemma {:induction false} LastRecordedVerdict(s: State, obs: seq<Observation>)
    ensures var r := Recordings(s, obs);
            Exec(s, obs).status.spotActive ==
            if r == [] then s.status.spotActive
            else match r[|r| - 1].verdict
                 case SaysActive(_) => Some(true)
                 case SaysInactive(_) => Some(false)
                 case Unresolved => None
    decreases obs
  {
    if obs != [] {
      var o := obs[0];
      assert Recorded(s, o) ==> Next(s, o).status.spotActive == o.verdict.Value();
      assert !Recorded(s, o) ==> Next(s, o).status == s.status;
      hide Recorded, Next;
      LastRecordedVerdict(Next(s, o), obs[1..]);
    }
  }

  /** A sound reconcile with an unresolved verdict, after any run that left a true record: the active
      value stays conceded exactly when the last recorded verdict said active. */
  lemma HeldValue(s: State, obs: seq<Observation>, o: Observation)
    requires RecordTrue(Exec(s, obs)) && Recordings(s, obs) != []
    requires Sound(o) && o.verdict.Unresolved? && !o.conflict && !o.killSwitch && o.enabled
    ensures var r := Recordings(s, obs);
            Holds(Next(Exec(s, obs), o).target, if r[|r| - 1].verdict.SaysActive? then o.activeValue else 0)
  {
    LastRecordedVerdict(s, obs);
    hide Exec, Recordings;
    SoundReconcileMeans(Exec(s, obs), o);
    hide Next;
  }

  lemma UnresolvedForgets(s: State, o: Observation)
    requires o.verdict.Unresolved?
    ensures Next(s, o).status.spotActive == if Recorded(s, o) then None else s.status.spotActive
  {
  }

  /** Two unresolved reconciles in a row take conceded capacity away. */
  lemma SecondUnresolvedZeroes(s: State, first: Observation, second: Observation)
    requires RecordTrue(s)
    requires Sound(first) && Sound(second) && !first.conflict && !second.conflict
    requires first.verdict.Unresolved? && second.verdict.Unresolved?
    requires first.enabled && !first.killSwitch && s.status.spotActive == Some(true)
    ensures Holds(Next(s, first).target, first.activeValue)
    ensures Holds(Exec(s, [first, second]).target, INACTIVE_VALUE)
  {
    var s1 := Next(s, first);
    assert RecordTrue(s1);
    assert Exec(s, [first, second]) == Exec(s1, [second]) by { assert [first, second][1..] == [second]; }
    assert Exec(s1, [second]) == Next(s1, second) by { assert [second][1..] == []; }
  }

  /** What the machine controller persists instead. */
  function HeldByMachineController(previous: Option<bool>, verdict: Verdict): Option<bool> {
    if verdict.Value().Some? then verdict.Value() else previous
  }

  function HeldAfter(previous: Option<bool>, verdicts: seq<Verdict>): Option<bool>
    decreases verdicts
  {
    if verdicts == [] then previous else HeldAfter(HeldByMachineController(previous, verdicts[0]), verdicts[1..])
  }

  /** The machine controller holds through any number of unresolved verdicts: what it composes is
      the last resolved verdict, or inactive before there is one. */
  lemma {:induction false} MachineControllerHolds(previous: Option<bool>, verdicts: seq<Verdict>, n: nat)
    requires n <= |verdicts|
    requires forall k :: n <= k < |verdicts| ==> verdicts[k].Unresolved?
    requires n > 0 ==> !verdicts[n - 1].Unresolved?
    ensures ComposeShouldBeActive(Unresolved, HeldAfter(previous, verdicts)) <==>
            if n == 0 then previous == Some(true) else verdicts[n - 1].SaysActive?
    decreases verdicts
  {
    if verdicts != [] {
      var held := HeldByMachineController(previous, verdicts[0]);
      MachineControllerHolds(held, verdicts[1..], if n == 0 then 0 else n - 1);
    }
  }
}
