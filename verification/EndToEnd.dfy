/** From the schedule's text to the number on the owned object: the provider's sparse run, the
    capacity controller's reading of it, and the write. */
module EndToEnd {
  import opened Base
  import Schedule
  import Json
  import Provider
  import SpotSchedule
  import opened Capacity

  /** In a whole-hour zone: whenever the capacity controller runs soundly at an instant `t` of a
      provider's run, without conflict, kill switch or disablement, the owned object holds the active
      value exactly when the schedule is active at `t`, and zero otherwise; and if it was built from
      the current template and field before, it is afterwards. */
  lemma ScheduleReachesTheObject(w: Schedule.World, spec: Schedule.Spec, generation: Option<int>, stored: Option<Json.Json>, env: Provider.Env, t0: int, s: State, o: Observation)
    requires Schedule.Valid(w, spec)
    requires spec.timezone in w.zones ==> Schedule.WholeHour(w.zones[spec.timezone])
    requires generation.Some? ==> Json.I64_MIN <= generation.value <= Json.I64_MAX
    requires t0 <= o.now && env.lands(Provider.LastWakeUp(w, spec, env, t0, o.now))
    requires o.verdict == SpotSchedule.VerdictFromStatus(Provider.RunStatus(w, spec, generation, stored, env, t0, o.now))
    requires RecordTrue(s) && Sound(o) && o.enabled && !o.killSwitch && !o.conflict
    ensures var value := if Schedule.Active(w, spec, o.now) then o.activeValue else INACTIVE_VALUE;
            && Holds(Next(s, o).target, value)
            && (InSync(s, o.shape) ==> Next(s, o).target == Some(Owned(o.shape, value)))
    ensures Next(s, o).status.phase == Some(Phase.Active) <==> Schedule.Active(w, spec, o.now)
  {
    hide Schedule.Valid, Schedule.Active, Schedule.UtcHour, Provider.RunStatus, Provider.LastWakeUp, SpotSchedule.VerdictFromStatus;
    Schedule.WholeHourIsHourConstant(w, spec);
    var t' := Provider.StaleWithinTheHour(w, spec, generation, stored, env, t0, o.now);
    Provider.SameHour(t', o.now);
    assert Schedule.Active(w, spec, t') == Schedule.Active(w, spec, Schedule.HourStart(Schedule.UtcHour(t')));
    assert Schedule.Active(w, spec, t') == Schedule.Active(w, spec, o.now);
  }
}
