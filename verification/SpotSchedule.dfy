/** How a controller reads a provider: `verdict_from_status` of `src/reconcilers/spot_schedule.rs`,
    and the composition rule of `src/reconcilers/helpers.rs`. */
module SpotSchedule {
  import opened Base
  import opened Json

  datatype Verdict =
    | SaysActive(generation: Option<int>)
    | SaysInactive(generation: Option<int>)
    | Unresolved
  {
    /** The provider's boolean when resolved. */
    function Value(): Option<bool> {
      match this
      case SaysActive(_) => Some(true)
      case SaysInactive(_) => Some(false)
      case Unresolved => None
    }
  }

  /** The first `Ready` condition is present and not `"True"`. */
  predicate ReadyBlocks(conditions: seq<Json>) {
    conditions != [] &&
    if Get(conditions[0], "type") == Some(Str("Ready"))
    then Get(conditions[0], "status") != Some(Str("True"))
    else ReadyBlocks(conditions[1..])
  }

  function VerdictFromStatus(status: Option<Json>): Verdict {
    if status.None? then Unresolved
    else
      var active := Get(status.value, "active");
      if active.None? || !active.value.Bool? then Unresolved
      else
        var conditions := Get(status.value, "conditions");
        if conditions.Some? && conditions.value.Arr? && ReadyBlocks(conditions.value.items) then Unresolved
        else
          var observed := Get(status.value, "observedGeneration");
          var generation := if observed.Some? then AsI64(observed.value) else None;
          if active.value.b then SaysActive(generation) else SaysInactive(generation)
  }

  /** The first condition of type `Ready`, if any, is not `"True"`. */
  ghost predicate FirstReadyNotTrue(conditions: seq<Json>) {
    exists i :: 0 <= i < |conditions|
      && Get(conditions[i], "type") == Some(Str("Ready")) && Get(conditions[i], "status") != Some(Str("True"))
      && forall j :: 0 <= j < i ==> Get(conditions[j], "type") != Some(Str("Ready"))
  }

  lemma {:induction false} ReadyBlocksExactly(conditions: seq<Json>)
    ensures ReadyBlocks(conditions) <==> FirstReadyNotTrue(conditions)
    decreases conditions
  {
    hide Get;
    if conditions != [] && Get(conditions[0], "type") != Some(Str("Ready")) {
      var rest := conditions[1..];
      ReadyBlocksExactly(rest);
      forall i | 0 <= i < |rest| ensures rest[i] == conditions[i + 1] {}
      if i :| 0 <= i < |rest| && Get(rest[i], "type") == Some(Str("Ready")) && Get(rest[i], "status") != Some(Str("True"))
              && forall j :: 0 <= j < i ==> Get(rest[j], "type") != Some(Str("Ready"))
      {
        assert Get(conditions[i + 1], "type") == Some(Str("Ready")) && Get(conditions[i + 1], "status") != Some(Str("True"));
        forall j | 0 <= j < i + 1 ensures Get(conditions[j], "type") != Some(Str("Ready")) {
          if j > 0 { assert conditions[j] == rest[j - 1]; }
        }
      }
      if i :| 0 <= i < |conditions| && Get(conditions[i], "type") == Some(Str("Ready")) && Get(conditions[i], "status") != Some(Str("True"))
              && forall j :: 0 <= j < i ==> Get(conditions[j], "type") != Some(Str("Ready"))
      {
        assert rest[i - 1] == conditions[i];
        forall j | 0 <= j < i - 1 ensures Get(rest[j], "type") != Some(Str("Ready")) {
          assert rest[j] == conditions[j + 1];
        }
      }
    }
  }

  /** A provider is unresolved exactly when it publishes no boolean `active`, or its first `Ready`
      condition is anything but `"True"`; otherwise its boolean and generation are taken as they are. */
  lemma VerdictExactly(status: Option<Json>)
    ensures
      var active := if status.Some? then Get(status.value, "active") else None;
      var conditions := if status.Some? then Get(status.value, "conditions") else None;
      && (VerdictFromStatus(status).Unresolved? <==>
            || active.None? || !active.value.Bool?
            || (conditions.Some? && conditions.value.Arr? && FirstReadyNotTrue(conditions.value.items)))
      && (!VerdictFromStatus(status).Unresolved? ==> VerdictFromStatus(status).Value() == Some(active.value.b))
  {
    var conditions := if status.Some? then Get(status.value, "conditions") else None;
    if conditions.Some? && conditions.value.Arr? { ReadyBlocksExactly(conditions.value.items); }
  }

  /** Resolved verdicts pass through; an unresolved one takes the last known value, and counts as
      inactive when there is none. */
  function ComposeShouldBeActive(verdict: Verdict, lastKnown: Option<bool>): bool {
    match verdict
    case SaysActive(_) => true
    case SaysInactive(_) => false
    case Unresolved => lastKnown == Some(true)
  }
}
