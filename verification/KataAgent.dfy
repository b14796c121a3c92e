/** The Kata config agent's protocol (`src/cmd/kata_config_agent.rs`): one tick as small steps over
    the host file and the Node, with a crash possible between any two of them and the world changing
    underneath. */
module KataAgent {
  import opened Base
  import opened HostFile

  /** The reference annotation's payload: which object to read, and the unit to restart. */
  datatype KataRef = KataRef(source: string, service: string)

  /** The controller's annotation on the Node: absent, unparseable, or a valid reference. */
  datatype RefAnnotation = NoRef | BadRef | GoodRef(kref: KataRef)

  /** Where the agent is inside a tick. `applied` is the hash read at the start of the tick. */
  datatype Pc =
    | Idle
    | TearDown
    | TornDown
    | Fetch(kref: KataRef, applied: Option<string>)
    | Sync(kref: KataRef, applied: Option<string>, content: Option<Bytes>)
    | Record(applied: Option<string>, intended: string)
    | Restart

  /** The Node, the source objects, the host file, what the host service last loaded of it, the agent;
      and two counters: host restarts issued, and changes of the applied annotation. */
  datatype World = World(
    ref: RefAnnotation,
    applied: Option<string>,
    optIn: bool,
    sources: map<string, Bytes>,
    host: Option<Bytes>,
    loaded: Option<Bytes>,
    pc: Pc,
    restarts: nat,
    changes: nat)

  /** `Work` is the agent's next step. `Abandon` is a kill, a failed read, a failed PATCH or a failed
      sync: the tick is abandoned and the next one starts afresh. `Misfire` is a restart that is issued
      and fails. The rest is the environment. */
  datatype Action =
    | Work
    | Abandon
    | Misfire
    | EditHost(content: Option<Bytes>)
    | SetRef(ref: RefAnnotation)
    | SetSource(name: string, content: Option<Bytes>)

  function SourceOf(w: World, kref: KataRef): Option<Bytes> {
    if kref.source in w.sources then Some(w.sources[kref.source]) else None
  }

  function SetApplied(w: World, applied: Option<string>): World {
    w.(applied := applied, changes := if w.applied == applied then w.changes else w.changes + 1)
  }

  /** The agent's next step. */
  function AgentStep(sha: Hash, w: World): World {
    match w.pc
    case Idle =>
      (match w.ref
       case NoRef => w.(pc := TearDown)
       case BadRef => w
       case GoodRef(kref) => w.(pc := Fetch(kref, w.applied)))
    case TearDown => w.(host := SyncedContent(sha, None, w.host), pc := TornDown)
    case TornDown => SetApplied(w, None).(optIn := false, pc := Idle)
    case Fetch(kref, applied) => w.(pc := Sync(kref, applied, SourceOf(w, kref)))
    case Sync(kref, applied, content) =>
      var intended := IntendedHash(SyncReport(sha, content, w.host));
      w.(host := SyncedContent(sha, content, w.host),
         pc := if NeedsRestart(applied, intended) then Record(applied, intended) else Idle)
    case Record(_, intended) => SetApplied(w, Some(intended)).(pc := Restart)
    case Restart => w.(restarts := w.restarts + 1, loaded := w.host, pc := Idle)
  }

  function Next(sha: Hash, w: World, a: Action): World {
    match a
    case Work => AgentStep(sha, w)
    case Abandon => w.(pc := Idle)
    case Misfire => if w.pc.Restart? then w.(restarts := w.restarts + 1, pc := Idle) else w
    case EditHost(content) => w.(host := content)
    case SetRef(ref) => w.(ref := ref, optIn := w.optIn || ref.GoodRef?)
    case SetSource(name, content) =>
      w.(sources := if content.Some? then w.sources[name := content.value] else w.sources - {name})
  }

  function Exec(sha: Hash, w: World, actions: seq<Action>): World
    decreases actions
  {
    if actions == [] then w else Exec(sha, Next(sha, w, actions[0]), actions[1..])
  }

  lemma {:induction false} ExecAppend(sha: Hash, w: World, actions: seq<Action>, a: Action)
    ensures Exec(sha, w, actions + [a]) == Next(sha, Exec(sha, w, actions), a)
    decreases actions
  {
    hide Next;
    if actions == [] {
      assert actions + [a] == [a] && [a][1..] == [];
    } else {
      assert (actions + [a])[1..] == actions[1..] + [a];
      ExecAppend(sha, Next(sha, w, actions[0]), actions[1..], a);
    }
  }

  lemma {:induction false} ExecConcat(sha: Hash, w: World, a: seq<Action>, b: seq<Action>)
    ensures Exec(sha, w, a + b) == Exec(sha, Exec(sha, w, a), b)
    decreases a
  {
    hide Next;
    if a == [] {
      assert a + b == b;
    } else {
      assert (a + b)[1..] == a[1..] + b;
      ExecConcat(sha, Next(sha, w, a[0]), a[1..], b);
    }
  }

  /** No reference or source is edited; the host file may be. */
  ghost predicate KeepsSource(actions: seq<Action>) {
    forall k :: 0 <= k < |actions| ==> !actions[k].SetRef? && !actions[k].SetSource?
  }

  predicate InTearDown(w: World) {
    w.pc.TearDown? || w.pc.TornDown?
  }

  // ---------------------------------------------------------------------------------------
  // Restarts

  /** The hash a tick remembers is still the recorded one, and a pending record would change it. */
  predicate Remembers(w: World) {
    match w.pc
    case Fetch(_, applied) => applied == w.applied
    case Sync(_, applied, _) => applied == w.applied
    case Record(applied, intended) => applied == w.applied && applied != Some(intended)
    case _ => true
  }

  /** What every reachable state keeps: besides, every restart issued or about to be issued has its
      own change of the record. */
  predicate Inv(w: World, restarts0: int, changes0: int) {
    && Remembers(w)
    && (w.restarts - restarts0) + (if w.pc.Restart? then 1 else 0) <= w.changes - changes0
  }

  lemma InvStep(sha: Hash, w: World, a: Action, restarts0: int, changes0: int)
    requires Inv(w, restarts0, changes0)
    ensures Inv(Next(sha, w, a), restarts0, changes0)
  {
    hide SyncReport, SyncedContent, IntendedHash;
  }

  /** In every run, with crashes anywhere and the world changing underneath, no more restarts are
      issued than the applied annotation changes value. */
  lemma {:induction false} RestartsAtMostChanges(sha: Hash, w: World, actions: seq<Action>, restarts0: int, changes0: int)
    requires Inv(w, restarts0, changes0)
    ensures Inv(Exec(sha, w, actions), restarts0, changes0)
    ensures Exec(sha, w, actions).restarts - restarts0 <= Exec(sha, w, actions).changes - changes0
    decreases actions
  {
    hide Next;
    if actions != [] {
      InvStep(sha, w, actions[0], restarts0, changes0);
      RestartsAtMostChanges(sha, Next(sha, w, actions[0]), actions[1..], restarts0, changes0);
    }
  }

  /** The mark the current reference and source call for. */
  function Mark(sha: Hash, w: World): string {
    if w.ref.GoodRef? then SourceMark(sha, SourceOf(w, w.ref.kref)) else ABSENT_HASH_MARKER
  }

  /** What the running tick will leave on record, if reference and source stay put. */
  function AppliedAfter(sha: Hash, w: World): Option<string> {
    match w.pc
    case Fetch(kref, _) => Some(SourceMark(sha, SourceOf(w, kref)))
    case Sync(_, _, content) => Some(SourceMark(sha, content))
    case Record(_, intended) => Some(intended)
    case TearDown => None
    case TornDown => None
    case _ => w.applied
  }

  /** The running tick still has a restart to issue. */
  predicate Owes(sha: Hash, w: World) {
    w.pc.Restart? || (!InTearDown(w) && AppliedAfter(sha, w) != w.applied)
  }

  /** With this on record, a fresh tick restarts. */
  predicate CallsForRestart(sha: Hash, w: World, applied: Option<string>) {
    w.ref.GoodRef? && applied != Some(Mark(sha, w))
  }

  function Count(b: bool): nat { if b then 1 else 0 }

  /** Restarts still to come: the one the running tick owes, and the one that what it leaves on record
      calls for. */
  function Outstanding(sha: Hash, w: World): nat {
    Count(Owes(sha, w)) + Count(CallsForRestart(sha, w, AppliedAfter(sha, w)))
  }

  /** How many of them are gone if the tick is abandoned here. */
  function Surplus(sha: Hash, w: World): int {
    Outstanding(sha, w) - Count(CallsForRestart(sha, w, w.applied))
  }

  /** That is: a restart recorded and not issued; a tick that restarts for something else than the
      reference and source now call for; a tear-down that clears a mark which is the one called for. */
  lemma SurplusExactly(sha: Hash, w: World)
    requires Remembers(w)
    ensures 0 <= Surplus(sha, w) <= 2
    ensures Surplus(sha, w) > 0 <==>
            || w.pc.Restart?
            || (Owes(sha, w) && !(w.ref.GoodRef? && AppliedAfter(sha, w) == Some(Mark(sha, w))))
            || (InTearDown(w) && w.ref.GoodRef? && w.applied == Some(Mark(sha, w)))
  {
    hide SourceMark;
  }

  /** One step of the agent moves the outstanding restarts along without losing or doubling one. */
  lemma OutstandingWork(sha: Hash, w: World)
    requires Remembers(w)
    ensures var w' := AgentStep(sha, w);
            && Remembers(w') && w'.ref == w.ref && w'.sources == w.sources && w.restarts <= w'.restarts
            && w'.restarts + Outstanding(sha, w') == w.restarts + Outstanding(sha, w)
  {
    hide SyncReport, SyncedContent, IntendedHash, SourceMark;
    if w.pc.Sync? {
      DriftNeverRestarts(sha, w.pc.content, w.host, w.applied);
    }
  }

  lemma OutstandingStep(sha: Hash, w: World, a: Action)
    requires Remembers(w) && !a.SetRef? && !a.SetSource?
    ensures var w' := Next(sha, w, a);
            && Remembers(w') && w'.ref == w.ref && w'.sources == w.sources && w.restarts <= w'.restarts
            && w'.restarts + Outstanding(sha, w') + (if a.Abandon? then Surplus(sha, w) else 0)
               == w.restarts + Outstanding(sha, w)
  {
    if a.Work? {
      OutstandingWork(sha, w);
      hide Remembers, Outstanding;
    } else {
      hide AgentStep, SourceMark;
    }
  }

  /** The restarts a run gives up by abandoning ticks. */
  function Forgone(sha: Hash, w: World, actions: seq<Action>): int
    decreases actions
  {
    if actions == [] then 0
    else (if actions[0].Abandon? then Surplus(sha, w) else 0) + Forgone(sha, Next(sha, w, actions[0]), actions[1..])
  }

  /** The conservation law of restarts, from every reachable state, in the middle of a tick or not,
      stale or not: while reference and source stay fixed, restarts issued, outstanding and given up
      always add up to the same. */
  lemma {:induction false} RestartsConserved(sha: Hash, w: World, actions: seq<Action>)
    requires Remembers(w) && KeepsSource(actions)
    ensures var after := Exec(sha, w, actions);
            && Remembers(after) && w.restarts <= after.restarts && 0 <= Forgone(sha, w, actions)
            && after.restarts + Outstanding(sha, after) + Forgone(sha, w, actions)
               == w.restarts + Outstanding(sha, w)
    decreases actions
  {
    hide Remembers, Outstanding, Surplus;
    if actions != [] {
      OutstandingStep(sha, w, actions[0]);
      SurplusExactly(sha, w);
      hide Next;
      RestartsConserved(sha, Next(sha, w, actions[0]), actions[1..]);
    }
  }

  /** How far the running tick is from its end. */
  function StepsLeft(sha: Hash, w: World): nat {
    match w.pc
    case Idle => 5
    case Fetch(_, _) => if Owes(sha, w) then 4 else 7
    case Sync(_, _, _) => if Owes(sha, w) then 3 else 6
    case Record(_, _) => 2
    case Restart => 1
    case TearDown => 7
    case TornDown => 6
  }

  lemma WorkAdvances(sha: Hash, w: World)
    requires Remembers(w) && Outstanding(sha, w) > 0
    ensures var w' := AgentStep(sha, w);
            Outstanding(sha, w') < Outstanding(sha, w) || StepsLeft(sha, w') < StepsLeft(sha, w)
  {
    hide SyncReport, SyncedContent, IntendedHash, SourceMark;
    if w.pc.Sync? {
      DriftNeverRestarts(sha, w.pc.content, w.host, w.applied);
    }
  }

  /** Left alone, the agent issues every outstanding restart. */
  lemma {:induction false} LeftAlone(sha: Hash, w: World) returns (actions: seq<Action>)
    requires Remembers(w)
    ensures forall k :: 0 <= k < |actions| ==> actions[k].Work?
    ensures Exec(sha, w, actions).restarts == w.restarts + Outstanding(sha, w)
    decreases Outstanding(sha, w), StepsLeft(sha, w)
  {
    hide Outstanding, StepsLeft, AgentStep, Remembers;
    if Outstanding(sha, w) == 0 {
      actions := [];
    } else {
      OutstandingWork(sha, w);
      WorkAdvances(sha, w);
      var rest := LeftAlone(sha, AgentStep(sha, w));
      actions := [Work] + rest;
      assert actions[1..] == rest;
    }
  }

  /** So the outstanding restarts are exactly the most that can happen, and the promise of at most one
      while reference and source stay fixed holds exactly unless the running tick still owes a restart
      for something else than they call for; none happens exactly if none is owed and what the tick
      leaves on record is what they call for. */
  lemma MostRestartsExactly(sha: Hash, w: World)
    requires Remembers(w)
    ensures forall actions | KeepsSource(actions) ::
              w.restarts <= Exec(sha, w, actions).restarts <= w.restarts + Outstanding(sha, w)
    ensures exists actions :: KeepsSource(actions) && Exec(sha, w, actions).restarts == w.restarts + Outstanding(sha, w)
    ensures (forall actions | KeepsSource(actions) :: Exec(sha, w, actions).restarts <= w.restarts + 1) <==>
            !(Owes(sha, w) && CallsForRestart(sha, w, AppliedAfter(sha, w)))
    ensures (forall actions | KeepsSource(actions) :: Exec(sha, w, actions).restarts == w.restarts) <==>
            !Owes(sha, w) && !CallsForRestart(sha, w, AppliedAfter(sha, w))
  {
    hide Exec, Remembers, Owes, CallsForRestart, AppliedAfter;
    forall actions | KeepsSource(actions)
      ensures w.restarts <= Exec(sha, w, actions).restarts <= w.restarts + Outstanding(sha, w)
    {
      RestartsConserved(sha, w, actions);
    }
    var all := LeftAlone(sha, w);
    assert KeepsSource(all);
  }

  /** The case that breaks the promise: the source is edited to what is already on record after a tick
      has fetched something else. Nothing is called for any more, and two restarts follow. */
  lemma StaleTickRestartsTwice(sha: Hash, w: World, content: Bytes)
    requires w.pc.Idle? && w.ref.GoodRef?
    requires w.applied == Some(sha(content)) && w.applied != Some(Mark(sha, w))
    ensures var edited := Exec(sha, w, [Work, Work, SetSource(w.ref.kref.source, Some(content))]);
            && Remembers(edited) && edited.ref == w.ref && edited.applied == Some(Mark(sha, edited))
            && exists actions :: KeepsSource(actions) && Exec(sha, edited, actions).restarts == w.restarts + 2
  {
    var edit := SetSource(w.ref.kref.source, Some(content));
    var w1 := AgentStep(sha, w);
    var w2 := AgentStep(sha, w1);
    var w3 := Next(sha, w2, edit);
    assert w2.pc == Sync(w.ref.kref, w.applied, SourceOf(w, w.ref.kref));
    assert Outstanding(sha, w3) == 2;
    assert Exec(sha, w, [Work, Work, edit]) == w3 by {
      hide AgentStep;
      assert [] + [Work] == [Work] && [Work] + [Work] == [Work, Work] && [Work, Work] + [edit] == [Work, Work, edit];
      ExecAppend(sha, w, [], Work);
      ExecAppend(sha, w, [Work], Work);
      ExecAppend(sha, w, [Work, Work], edit);
    }
    hide Exec;
    MostRestartsExactly(sha, w3);
  }

  /** Restarts due, in a tick that started under the current reference and source: one while the mark
      is not on record (or its restart is pending), none after. */
  function Due(sha: Hash, w: World): nat {
    Count(w.ref.GoodRef? && (w.pc.Restart? || w.applied != Some(Mark(sha, w))))
  }

  /** A tick that started under the current reference and source. */
  predicate Current(sha: Hash, w: World) {
    match w.pc
    case Idle => true
    case TearDown => w.ref.NoRef?
    case TornDown => w.ref.NoRef?
    case Fetch(kref, applied) => w.ref == GoodRef(kref) && applied == w.applied
    case Sync(kref, applied, content) =>
      w.ref == GoodRef(kref) && applied == w.applied && content == SourceOf(w, kref)
    case Record(applied, intended) =>
      w.ref.GoodRef? && applied == w.applied && applied != Some(intended) && intended == Mark(sha, w)
    case Restart => w.ref.GoodRef? && w.applied == Some(Mark(sha, w))
  }

  /** In such a tick only a restart recorded and not issued can be given up. */
  lemma CurrentOutstanding(sha: Hash, w: World)
    requires Current(sha, w)
    ensures Remembers(w) && Outstanding(sha, w) == Due(sha, w) && Surplus(sha, w) == Count(w.pc.Restart?)
  {
    hide SourceMark;
  }

  lemma CurrentStep(sha: Hash, w: World, a: Action)
    requires Current(sha, w) && !a.SetRef? && !a.SetSource?
    ensures Current(sha, Next(sha, w, a))
  {
    hide SyncReport, SyncedContent, IntendedHash, SourceMark;
    if a.Work? && w.pc.Sync? {
      DriftNeverRestarts(sha, w.pc.content, w.host, w.applied);
    }
  }

  /** Some tick of the run is killed between the record and the restart. */
  predicate LosesRestart(sha: Hash, w: World, actions: seq<Action>)
    decreases actions
  {
    actions != [] &&
    ((actions[0].Abandon? && w.pc.Restart?) || LosesRestart(sha, Next(sha, w, actions[0]), actions[1..]))
  }

  lemma {:induction false} CurrentRun(sha: Hash, w: World, actions: seq<Action>)
    requires Current(sha, w) && KeepsSource(actions)
    ensures Current(sha, Exec(sha, w, actions))
    ensures 0 <= Forgone(sha, w, actions) && (Forgone(sha, w, actions) > 0 <==> LosesRestart(sha, w, actions))
    decreases actions
  {
    if actions != [] {
      CurrentOutstanding(sha, w);
      CurrentStep(sha, w, actions[0]);
      hide Next, Current, Surplus;
      CurrentRun(sha, Next(sha, w, actions[0]), actions[1..]);
    }
  }

  /** From such a tick, while reference and source content stay fixed, at most one restart is issued,
      and none if the mark is already on record, whatever crashes and host-file edits happen. */
  lemma AtMostOneRestart(sha: Hash, w: World, actions: seq<Action>)
    requires Current(sha, w) && KeepsSource(actions)
    ensures w.restarts <= Exec(sha, w, actions).restarts <= w.restarts + Due(sha, w)
    ensures Current(sha, Exec(sha, w, actions))
  {
    hide Exec, Current, Due, Outstanding;
    CurrentOutstanding(sha, w);
    CurrentRun(sha, w, actions);
    RestartsConserved(sha, w, actions);
  }

  /** And the one due is lost exactly when a tick is killed between record and restart. */
  lemma RestartLostExactly(sha: Hash, w: World, actions: seq<Action>)
    requires Current(sha, w) && KeepsSource(actions)
    ensures var after := Exec(sha, w, actions);
            if LosesRestart(sha, w, actions)
            then after.restarts == w.restarts && Due(sha, w) == 1 && Due(sha, after) == 0
            else after.restarts + Due(sha, after) == w.restarts + Due(sha, w)
  {
    CurrentOutstanding(sha, w);
    CurrentRun(sha, w, actions);
    CurrentOutstanding(sha, Exec(sha, w, actions));
    RestartsConserved(sha, w, actions);
    assert Due(sha, w) <= 1;
    hide Exec, Current, Due, Outstanding, Forgone, LosesRestart;
  }

  /** An undisturbed tick: five steps. */
  const TICK: seq<Action> := [Work, Work, Work, Work, Work]

  /** From rest, some run without reference or source edits issues a restart exactly when the mark is
      not on record; then one undisturbed tick does it, and records the mark. */
  lemma RestartExactlyWhenDue(sha: Hash, w: World)
    requires w.pc.Idle? && w.ref.GoodRef?
    ensures (exists actions :: KeepsSource(actions) && Exec(sha, w, actions).restarts > w.restarts)
            <==> w.applied != Some(Mark(sha, w))
    ensures w.applied != Some(Mark(sha, w)) ==>
              Exec(sha, w, TICK).restarts == w.restarts + 1 && Exec(sha, w, TICK).applied == Some(Mark(sha, w))
  {
    if w.applied != Some(Mark(sha, w)) {
      UndisturbedTick(sha, w);
      assert KeepsSource(TICK);
    } else {
      forall actions | KeepsSource(actions) ensures Exec(sha, w, actions).restarts <= w.restarts {
        AtMostOneRestart(sha, w, actions);
      }
    }
  }

  lemma UndisturbedTick(sha: Hash, w: World)
    requires w.pc.Idle? && w.ref.GoodRef? && w.applied != Some(Mark(sha, w))
    ensures Exec(sha, w, TICK).restarts == w.restarts + 1 && Exec(sha, w, TICK).applied == Some(Mark(sha, w))
  {
    hide Exec, SyncReport, SyncedContent, IntendedHash;
    var w1 := AgentStep(sha, w);
    var w2 := AgentStep(sha, w1);
    DriftNeverRestarts(sha, w2.pc.content, w2.host, w.applied);
    var w3 := AgentStep(sha, w2);
    var w4 := AgentStep(sha, w3);
    var w5 := AgentStep(sha, w4);
    FiveSteps(sha, w, w1, w2, w3, w4, w5);
  }

  lemma FiveSteps(sha: Hash, w: World, w1: World, w2: World, w3: World, w4: World, w5: World)
    requires w1 == AgentStep(sha, w) && w2 == AgentStep(sha, w1) && w3 == AgentStep(sha, w2)
    requires w4 == AgentStep(sha, w3) && w5 == AgentStep(sha, w4)
    ensures Exec(sha, w, TICK) == w5
  {
    hide AgentStep;
    assert TICK[1..] == [Work, Work, Work, Work];
    assert [Work, Work, Work, Work][1..] == [Work, Work, Work];
    assert [Work, Work, Work][1..] == [Work, Work];
    assert [Work, Work][1..] == [Work];
    assert [Work][1..] == [];
  }

  /** A restart is issued at most once and not at least once: killed between the record and the
      restart, the agent never restarts for that content, however many ticks follow. */
  lemma LostRestartStaysLost(sha: Hash, w: World, actions: seq<Action>)
    requires Current(sha, w) && w.pc.Restart? && KeepsSource(actions)
    ensures Exec(sha, w, [Abandon] + actions).restarts == w.restarts
  {
    assert ([Abandon] + actions)[1..] == actions;
    AtMostOneRestart(sha, Next(sha, w, Abandon), actions);
  }

  /** A restart that was issued, even if the command failed, is not retried either. */
  lemma IssuedRestartIsNotRetried(sha: Hash, w: World, issue: Action, actions: seq<Action>)
    requires Current(sha, w) && w.pc.Restart? && KeepsSource(actions) && issue in {Work, Misfire}
    ensures Exec(sha, w, [issue] + actions).restarts == w.restarts + 1
  {
    assert ([issue] + actions)[1..] == actions;
    AtMostOneRestart(sha, Next(sha, w, issue), actions);
  }

  // ---------------------------------------------------------------------------------------
  // Tear-down

  /** The drop-in after these actions, as far as others edit it. */
  function LastHost(host: Option<Bytes>, actions: seq<Action>): Option<Bytes> {
    if actions == [] then host
    else
      var a := actions[|actions| - 1];
      if a.EditHost? then a.content else LastHost(host, actions[..|actions| - 1])
  }

  /** The agent's next step writes the drop-in. */
  predicate Syncs(w: World) {
    w.pc.TearDown? || w.pc.Sync?
  }

  /** After the `m`-th action the agent does not write the drop-in any more. */
  ghost predicate NoSyncSince(sha: Hash, w: World, actions: seq<Action>, m: nat) {
    m < |actions| && forall k :: m < k < |actions| ==> !Syncs(Exec(sha, w, actions[..k]))
  }

  /** Then it is as that action left it, or as somebody last edited it since. */
  lemma {:induction false} HostSince(sha: Hash, w: World, actions: seq<Action>, m: nat)
    requires NoSyncSince(sha, w, actions, m)
    ensures Exec(sha, w, actions).host == LastHost(Exec(sha, w, actions[..m + 1]).host, actions[m + 1..])
    decreases |actions|
  {
    var last := |actions| - 1;
    if m == last {
      assert actions[..m + 1] == actions;
    } else {
      var init, a := actions[..last], actions[last];
      assert actions == init + [a];
      ExecAppend(sha, w, init, a);
      forall k | m < k <= last ensures actions[..k] == init[..k] {}
      assert !Syncs(Exec(sha, w, actions[..last]));
      HostSince(sha, w, init, m);
      assert actions[m + 1..][..|actions[m + 1..]| - 1] == init[m + 1..];
      hide Exec, SyncReport, SyncedContent, IntendedHash;
    }
  }

  /** The tear-down under way unlinked the drop-in with the `m`-th action. */
  ghost predicate UnlinkedAt(sha: Hash, w: World, actions: seq<Action>, m: nat) {
    && m < |actions| && actions[m].Work? && Exec(sha, w, actions[..m]).pc.TearDown?
    && forall k :: m < k <= |actions| ==> Exec(sha, w, actions[..k]).pc.TornDown?
  }

  lemma {:induction false} TornDownUnlinked(sha: Hash, w: World, actions: seq<Action>) returns (m: nat)
    requires !w.pc.TornDown? && Exec(sha, w, actions).pc.TornDown?
    ensures UnlinkedAt(sha, w, actions, m)
    decreases |actions|
  {
    assert actions != [];
    var last := |actions| - 1;
    var init, a := actions[..last], actions[last];
    assert actions == init + [a];
    ExecAppend(sha, w, init, a);
    var before := Exec(sha, w, init);
    assert !before.pc.TornDown? ==> a.Work? && before.pc.TearDown?;
    hide Exec, Next;
    if before.pc.TornDown? {
      m := TornDownUnlinked(sha, w, init);
      forall k | m < k <= |actions| ensures Exec(sha, w, actions[..k]).pc.TornDown? {
        if k <= last { assert actions[..k] == init[..k]; } else { assert actions[..k] == actions; }
      }
      assert actions[..m] == init[..m];
    } else {
      m := last;
      assert actions[..|actions|] == actions;
    }
  }

  /** In every run the opt-in label falls only together with the applied hash and only as the last
      step of a tear-down, after its unlink; and then the drop-in is what somebody else last put there
      since the unlink, and gone if nobody did. */
  lemma LabelFallsLast(sha: Hash, w: World, actions: seq<Action>, a: Action) returns (m: nat)
    requires !w.pc.TornDown?
    requires var before := Exec(sha, w, actions); before.optIn && !Next(sha, before, a).optIn
    ensures UnlinkedAt(sha, w, actions, m)
    ensures var after := Next(sha, Exec(sha, w, actions), a);
            after.applied.None? && after.host == LastHost(None, actions[m + 1..])
  {
    m := TornDownUnlinked(sha, w, actions);
    HostSince(sha, w, actions, m);
    assert Exec(sha, w, actions[..m + 1]).host == None by {
      assert actions[..m + 1] == actions[..m] + [actions[m]];
      ExecAppend(sha, w, actions[..m], actions[m]);
      SyncReachesSourceExactly(sha, None, Exec(sha, w, actions[..m]).host);
    }
    hide Exec, SyncReport, SyncedContent, IntendedHash;
  }

  /** Somebody sets a reference while a tear-down is under way. */
  predicate LateReference(w: World, a: Action) {
    a.SetRef? && !a.ref.NoRef? && InTearDown(w)
  }

  ghost predicate NoLateReference(sha: Hash, w: World, actions: seq<Action>)
    decreases actions
  {
    actions == [] || (!LateReference(w, actions[0]) && NoLateReference(sha, Next(sha, w, actions[0]), actions[1..]))
  }

  /** As long as nobody does, and whatever else is edited whenever, the label falls only from a Node
      without a reference. */
  lemma {:induction false} LabelFallsWithoutReference(sha: Hash, w: World, actions: seq<Action>, a: Action)
    requires InTearDown(w) ==> w.ref.NoRef?
    requires NoLateReference(sha, w, actions)
    ensures var before := Exec(sha, w, actions);
            && (InTearDown(before) ==> before.ref.NoRef?)
            && (before.optIn && !Next(sha, before, a).optIn ==> before.ref.NoRef?)
    decreases actions
  {
    if actions != [] {
      LabelFallsWithoutReference(sha, Next(sha, w, actions[0]), actions[1..], a);
    }
  }

  /** The reference after these actions. */
  function LastRef(ref: RefAnnotation, actions: seq<Action>): RefAnnotation {
    if actions == [] then ref
    else
      var a := actions[|actions| - 1];
      if a.SetRef? then a.ref else LastRef(ref, actions[..|actions| - 1])
  }

  /** The tear-down under way at the end of the run began with the `n`-th action: the agent read the
      Node without a reference, and nothing has cut the tick short since. */
  ghost predicate BeganAt(sha: Hash, w: World, actions: seq<Action>, n: nat) {
    && n < |actions| && actions[n].Work?
    && Exec(sha, w, actions[..n]).pc.Idle? && Exec(sha, w, actions[..n]).ref.NoRef?
    && forall m :: n < m <= |actions| ==> InTearDown(Exec(sha, w, actions[..m]))
  }

  /** Which reference a Node has at the end of a run. */
  lemma {:induction false} RefIsLast(sha: Hash, w: World, actions: seq<Action>)
    ensures Exec(sha, w, actions).ref == LastRef(w.ref, actions)
    decreases |actions|
  {
    if actions != [] {
      var init, a := actions[..|actions| - 1], actions[|actions| - 1];
      assert actions == init + [a];
      ExecAppend(sha, w, init, a);
      RefIsLast(sha, w, init);
      hide SyncReport, SyncedContent, IntendedHash, Exec;
    }
  }

  /** A tear-down is entered by reading a Node without a reference. */
  lemma EntersTearDown(sha: Hash, w: World, a: Action)
    requires !InTearDown(w) && InTearDown(Next(sha, w, a))
    ensures a.Work? && w.pc.Idle? && w.ref.NoRef?
  {
  }

  /** Every tear-down began with such a read. */
  lemma {:induction false} TearDownBegan(sha: Hash, w: World, actions: seq<Action>) returns (n: nat)
    requires !InTearDown(w) && InTearDown(Exec(sha, w, actions))
    ensures BeganAt(sha, w, actions, n)
    decreases |actions|
  {
    assert actions != [];
    var last := |actions| - 1;
    var init, a := actions[..last], actions[last];
    assert actions == init + [a];
    ExecAppend(sha, w, init, a);
    hide Exec, Next, InTearDown;
    var before := Exec(sha, w, init);
    if InTearDown(before) {
      n := TearDownBegan(sha, w, init);
      forall m | n < m <= |actions| ensures InTearDown(Exec(sha, w, actions[..m])) {
        if m <= last { assert actions[..m] == init[..m]; } else { assert actions[..m] == actions; }
      }
      assert actions[..n] == init[..n];
    } else {
      n := last;
      EntersTearDown(sha, before, a);
      assert actions[..|actions|] == actions;
    }
  }

  /** The reference a tear-down acts against is the last one set since its read. */
  lemma RefSinceTheRead(sha: Hash, w: World, actions: seq<Action>, n: nat)
    requires BeganAt(sha, w, actions, n)
    ensures Exec(sha, w, actions).ref == LastRef(NoRef, actions[n + 1..])
  {
    var read := actions[..n + 1];
    assert actions == read + actions[n + 1..] && read == actions[..n] + [actions[n]];
    ExecAppend(sha, w, actions[..n], actions[n]);
    ExecConcat(sha, w, read, actions[n + 1..]);
    RefIsLast(sha, Exec(sha, w, read), actions[n + 1..]);
  }

  /** In every run the label falls from a Node that has a reference exactly when the last reference
      set since the tear-down's read is not an empty one. */
  lemma LabelFallsFromReferenceExactly(sha: Hash, w: World, actions: seq<Action>, a: Action) returns (n: nat)
    requires !InTearDown(w)
    requires var before := Exec(sha, w, actions); before.optIn && !Next(sha, before, a).optIn
    ensures BeganAt(sha, w, actions, n)
    ensures Exec(sha, w, actions).ref.NoRef? <==> LastRef(NoRef, actions[n + 1..]).NoRef?
  {
    n := TearDownBegan(sha, w, actions);
    RefSinceTheRead(sha, w, actions, n);
  }

  /** And such a tear-down does lose it, whatever was set in the meantime: with the file unlinked, the
      agent's next step drops the label and leaves the late reference standing. */
  lemma LateReferenceLosesLabel(sha: Hash, w: World, actions: seq<Action>, n: nat)
    requires BeganAt(sha, w, actions, n) && Exec(sha, w, actions).pc.TornDown?
    ensures var after := Exec(sha, w, actions + [Work]);
            && !after.optIn && after.applied.None? && after.pc.Idle?
            && after.ref == LastRef(NoRef, actions[n + 1..])
  {
    RefSinceTheRead(sha, w, actions, n);
    ExecAppend(sha, w, actions, Work);
    hide Exec;
  }

  /** Such a run from every Node at rest without a reference: any reference set after the read. */
  lemma LateReferenceRun(sha: Hash, w: World, ref: RefAnnotation)
    requires w.pc.Idle? && w.ref.NoRef?
    ensures var actions := [Work, SetRef(ref), Work];
            && BeganAt(sha, w, actions, 0) && Exec(sha, w, actions).pc.TornDown?
            && Exec(sha, w, actions + [Work]).ref == ref && !Exec(sha, w, actions + [Work]).optIn
  {
    var actions := [Work, SetRef(ref), Work];
    assert actions[..0] == [] && actions[..1] == [Work] && actions[..2] == [Work] + [SetRef(ref)];
    assert actions[..3] == actions == [Work, SetRef(ref)] + [Work];
    assert actions[1..] == [SetRef(ref), Work] && actions[1..][..1] == [SetRef(ref)];
    ExecAppend(sha, w, [], Work);
    ExecAppend(sha, w, [Work], SetRef(ref));
    ExecAppend(sha, w, [Work, SetRef(ref)], Work);
    LateReferenceLosesLabel(sha, w, actions, 0);
  }

  const TEAR_DOWN: seq<Action> := [Abandon, Work, Work, Work]

  lemma TearDownTick(sha: Hash, w: World)
    requires w.ref.NoRef?
    ensures Exec(sha, w, TEAR_DOWN) ==
            SetApplied(w, None).(host := None, optIn := false, pc := Idle)
  {
    var w0 := w.(pc := Idle);
    SyncReachesSourceExactly(sha, None, w.host);
    var w1 := w0.(pc := TearDown);
    var w2 := w0.(host := None, pc := TornDown);
    assert AgentStep(sha, w0) == w1 && AgentStep(sha, w1) == w2;
    var w3 := AgentStep(sha, w2);
    hide AgentStep;
    assert TEAR_DOWN[1..] == [Work, Work, Work];
    assert [Work, Work, Work][1..] == [Work, Work];
    assert [Work, Work][1..] == [Work];
    assert [Work][1..] == [];
    assert Exec(sha, w, TEAR_DOWN) == w3;
  }

  /** Whatever happened before, a crash included, one undisturbed tick with no reference finishes the
      tear-down; and any later delivery is then judged to need a restart. */
  lemma TearDownCompletes(sha: Hash, w: World, kref: KataRef, sources: map<string, Bytes>)
    requires w.ref.NoRef?
    ensures var done := Exec(sha, w, TEAR_DOWN);
            && done.host.None? && done.applied.None? && !done.optIn && done.pc.Idle?
            && done.restarts == w.restarts
            && var again := done.(ref := GoodRef(kref), sources := sources);
               && Due(sha, again) == 1
               && Exec(sha, again, TICK).restarts == w.restarts + 1
  {
    hide Exec, AgentStep;
    TearDownTick(sha, w);
    var again := Exec(sha, w, TEAR_DOWN).(ref := GoodRef(kref), sources := sources);
    UndisturbedTick(sha, again);
  }

  // ---------------------------------------------------------------------------------------
  // What the restarted service has loaded

  /** The `n`-th action is a restart that works. */
  ghost predicate RestartsAt(sha: Hash, w: World, actions: seq<Action>, n: nat) {
    n < |actions| && actions[n].Work? && Exec(sha, w, actions[..n]).pc.Restart?
  }

  lemma RestartsAtPrefix(sha: Hash, w: World, actions: seq<Action>)
    requires actions != []
    ensures var init := actions[..|actions| - 1];
            forall n :: 0 <= n < |init| ==> (RestartsAt(sha, w, actions, n) <==> RestartsAt(sha, w, init, n))
  {
    hide Exec;
    var init := actions[..|actions| - 1];
    forall n | 0 <= n < |init| ensures actions[..n] == init[..n] && actions[n] == init[n] {}
  }

  lemma LoadedStep(sha: Hash, w: World, a: Action)
    ensures Next(sha, w, a).loaded == if a.Work? && w.pc.Restart? then w.host else w.loaded
  {
    hide SyncReport, SyncedContent, IntendedHash;
  }

  /** Over every run the service has loaded the drop-in as it was at the last restart that worked. */
  lemma {:induction false} LoadedAtLastRestart(sha: Hash, w: World, actions: seq<Action>)
    ensures (forall n :: 0 <= n < |actions| ==> !RestartsAt(sha, w, actions, n)) ==> Exec(sha, w, actions).loaded == w.loaded
    ensures forall n :: 0 <= n < |actions| && RestartsAt(sha, w, actions, n)
                        && (forall j :: n < j < |actions| ==> !RestartsAt(sha, w, actions, j)) ==>
              Exec(sha, w, actions).loaded == Exec(sha, w, actions[..n]).host
    decreases |actions|
  {
    if actions != [] {
      var last := |actions| - 1;
      var init, a := actions[..last], actions[last];
      assert actions == init + [a];
      ExecAppend(sha, w, init, a);
      LoadedStep(sha, Exec(sha, w, init), a);
      LoadedAtLastRestart(sha, w, init);
      RestartsAtPrefix(sha, w, actions);
      assert RestartsAt(sha, w, actions, last) <==> a.Work? && Exec(sha, w, init).pc.Restart?;
      hide Exec, Next, RestartsAt;
      forall n | 0 <= n < last ensures actions[..n] == init[..n] {}
    }
  }

  /** The tick under way synced `content` with the `m`-th action and is past it: about to record its
      mark, or to restart for it. */
  ghost predicate SyncedAt(sha: Hash, w: World, actions: seq<Action>, m: nat, content: Option<Bytes>) {
    && m < |actions| && actions[m].Work?
    && Exec(sha, w, actions[..m]).pc.Sync? && Exec(sha, w, actions[..m]).pc.content == content
    && forall k :: m < k <= |actions| ==> PastSync(sha, Exec(sha, w, actions[..k]), content)
  }

  predicate PastSync(sha: Hash, w: World, content: Option<Bytes>) {
    match w.pc
    case Record(_, intended) => intended == SourceMark(sha, content)
    case Restart => w.applied == Some(SourceMark(sha, content))
    case _ => false
  }

  /** One step into, or within, the part of a tick after its sync. */
  lemma PastSyncStep(sha: Hash, w: World, a: Action, content: Option<Bytes>)
    requires Next(sha, w, a).pc.Record? || Next(sha, w, a).pc.Restart?
    ensures w.pc.Record? || w.pc.Restart? || (a.Work? && w.pc.Sync?)
    ensures PastSync(sha, w, content) ==> PastSync(sha, Next(sha, w, a), content)
    ensures w.pc.Sync? ==> PastSync(sha, Next(sha, w, a), w.pc.content)
  {
    hide SyncReport, SyncedContent, IntendedHash, SourceMark;
    if w.pc.Sync? { DriftNeverRestarts(sha, w.pc.content, w.host, w.pc.applied); }
  }

  lemma {:induction false} RecordSynced(sha: Hash, w: World, actions: seq<Action>) returns (m: nat, content: Option<Bytes>)
    requires !w.pc.Record? && !w.pc.Restart?
    requires Exec(sha, w, actions).pc.Record? || Exec(sha, w, actions).pc.Restart?
    ensures SyncedAt(sha, w, actions, m, content)
    decreases |actions|
  {
    assert actions != [];
    var last := |actions| - 1;
    var init, a := actions[..last], actions[last];
    assert actions == init + [a];
    ExecAppend(sha, w, init, a);
    hide Exec, Next, PastSync;
    var before := Exec(sha, w, init);
    PastSyncStep(sha, before, a, None);
    if before.pc.Record? || before.pc.Restart? {
      m, content := RecordSynced(sha, w, init);
      assert init[..|init|] == init;
      PastSyncStep(sha, before, a, content);
      forall k | m < k <= |actions| ensures PastSync(sha, Exec(sha, w, actions[..k]), content) {
        if k <= last { assert actions[..k] == init[..k]; } else { assert actions[..k] == actions; }
      }
      assert actions[..m] == init[..m];
    } else {
      m, content := last, before.pc.content;
      assert actions[..|actions|] == actions;
    }
  }

  /** What a tick past its sync finds on the host: what the sync left, or what somebody last put there
      since. */
  lemma HostPastSync(sha: Hash, w: World, actions: seq<Action>, m: nat, content: Option<Bytes>)
    requires SyncedAt(sha, w, actions, m, content)
    ensures Exec(sha, w, actions).host ==
            LastHost(SyncedContent(sha, content, Exec(sha, w, actions[..m]).host), actions[m + 1..])
  {
    forall k | m < k < |actions| ensures !Syncs(Exec(sha, w, actions[..k])) {
      assert PastSync(sha, Exec(sha, w, actions[..k]), content);
    }
    HostSince(sha, w, actions, m);
    assert actions[..m + 1] == actions[..m] + [actions[m]];
    ExecAppend(sha, w, actions[..m], actions[m]);
    hide Exec, SyncReport, SyncedContent, IntendedHash, LastHost;
  }

  /** Over every run with a restart that works: the service has loaded what the last one's tick synced
      and recorded, or whatever somebody put in its place between the sync and the restart. */
  lemma LoadedExactly(sha: Hash, w: World, actions: seq<Action>, n: nat) returns (m: nat, content: Option<Bytes>)
    requires !w.pc.Record? && !w.pc.Restart?
    requires RestartsAt(sha, w, actions, n) && forall j :: n < j < |actions| ==> !RestartsAt(sha, w, actions, j)
    ensures SyncedAt(sha, w, actions[..n], m, content)
    ensures Exec(sha, w, actions[..n]).applied == Some(SourceMark(sha, content))
    ensures Exec(sha, w, actions).loaded ==
            LastHost(SyncedContent(sha, content, Exec(sha, w, actions[..m]).host), actions[m + 1..n])
  {
    hide Exec, SyncedContent, LastHost;
    var run := actions[..n];
    m, content := RecordSynced(sha, w, run);
    assert run[..|run|] == run;
    HostPastSync(sha, w, run, m, content);
    LoadedAtLastRestart(sha, w, actions);
    assert run[..m] == actions[..m] && run[m + 1..] == actions[m + 1..n];
  }

  /** The `n`-th action ends a tick that has recorded its mark: with a restart that works, with one
      that fails, or with a kill. */
  ghost predicate LeavesRestartAt(sha: Hash, w: World, actions: seq<Action>, n: nat) {
    n < |actions| && Exec(sha, w, actions[..n]).pc.Restart? && actions[n] in {Work, Misfire, Abandon}
  }

  lemma CurrentAppliedStep(sha: Hash, w: World, a: Action)
    requires Current(sha, w) && w.ref.GoodRef? && !a.SetRef? && !a.SetSource?
    ensures var w' := Next(sha, w, a);
            && Mark(sha, w') == Mark(sha, w) && w'.ref == w.ref && w'.sources == w.sources
            && (w.applied == Some(Mark(sha, w)) ==> w'.applied == w.applied && (w'.pc.Restart? ==> w.pc.Restart?))
            && (w.applied != Some(Mark(sha, w)) ==> !w.pc.Restart? && (w'.applied == w.applied || w'.pc.Restart?))
            && (w.pc.Restart? && !w'.pc.Restart? ==> a in {Work, Misfire, Abandon})
            && (w.pc.Restart? && w'.pc.Restart? ==> !a.Work?)
  {
    hide SyncReport, SyncedContent, IntendedHash, SourceMark;
    if a.Work? && w.pc.Sync? { DriftNeverRestarts(sha, w.pc.content, w.host, w.applied); }
  }

  /** From rest with a mark called for and not on record, to rest with it on record: one tick has
      recorded it, and the service has loaded the drop-in as it was when that tick ended with a working
      restart, or still has what it had. */
  lemma {:induction false} RecordedMarkLoaded(sha: Hash, w: World, actions: seq<Action>) returns (n: nat)
    requires w.pc.Idle? && w.ref.GoodRef? && w.applied != Some(Mark(sha, w)) && KeepsSource(actions)
    ensures var after := Exec(sha, w, actions);
            && Current(sha, after) && after.ref == w.ref && after.sources == w.sources
            && if after.applied != Some(Mark(sha, w)) || after.pc.Restart? then after.loaded == w.loaded
               else
                 && LeavesRestartAt(sha, w, actions, n)
                 && after.loaded == if actions[n].Work? then Exec(sha, w, actions[..n]).host else w.loaded
    decreases |actions|
  {
    n := 0;
    if actions != [] {
      var last := |actions| - 1;
      var init, a := actions[..last], actions[last];
      assert actions == init + [a];
      ExecAppend(sha, w, init, a);
      n := RecordedMarkLoaded(sha, w, init);
      var before := Exec(sha, w, init);
      MarkIgnoresHost(sha, w, before);
      CurrentAppliedStep(sha, before, a);
      CurrentStep(sha, before, a);
      LoadedStep(sha, before, a);
      hide Exec, Next, Current, Mark;
      if before.pc.Restart? {
        n := last;
      } else if before.applied == Some(Mark(sha, w)) {
        assert actions[..n] == init[..n] && actions[n] == init[n];
      }
    }
  }

  /** Nobody edits the drop-in. */
  ghost predicate NoEdit(actions: seq<Action>) {
    forall k :: 0 <= k < |actions| ==> !actions[k].EditHost?
  }

  lemma {:induction false} NoEditKeepsHost(host: Option<Bytes>, actions: seq<Action>)
    requires NoEdit(actions)
    ensures LastHost(host, actions) == host
    decreases |actions|
  {
    if actions != [] { NoEditKeepsHost(host, actions[..|actions| - 1]); }
  }

  lemma {:induction false} FixedSource(sha: Hash, w: World, actions: seq<Action>)
    requires Current(sha, w) && KeepsSource(actions)
    ensures var after := Exec(sha, w, actions);
            Current(sha, after) && after.ref == w.ref && after.sources == w.sources
    decreases actions
  {
    if actions != [] {
      CurrentStep(sha, w, actions[0]);
      assert Next(sha, w, actions[0]).ref == w.ref && Next(sha, w, actions[0]).sources == w.sources;
      hide Next, Current;
      FixedSource(sha, Next(sha, w, actions[0]), actions[1..]);
    }
  }

  /** The point of the protocol. From rest with the source's mark not on record, to rest with it on
      record, and with reference and source fixed: the service has loaded the source exactly when the
      one restart was issued and worked and the drop-in then was the source, as last edited since the
      sync; which it is if nobody edited it. (A hash collision at the sync aside, and if the service had
      not loaded the source before.) */
  lemma SourceLoadedExactly(sha: Hash, w: World, actions: seq<Action>) returns (m: nat, n: nat)
    requires w.pc.Idle? && w.ref.GoodRef? && w.applied != Some(Mark(sha, w)) && KeepsSource(actions)
    requires var after := Exec(sha, w, actions); after.applied == Some(Mark(sha, w)) && !after.pc.Restart?
    ensures var source := SourceOf(w, w.ref.kref);
            && LeavesRestartAt(sha, w, actions, n) && SyncedAt(sha, w, actions[..n], m, source)
            && var synced := SyncedContent(sha, source, Exec(sha, w, actions[..m]).host);
               && Exec(sha, w, actions).loaded == (if actions[n].Work? then LastHost(synced, actions[m + 1..n]) else w.loaded)
               && (synced == source && w.loaded != source ==>
                     (Exec(sha, w, actions).loaded == source <==> actions[n].Work? && LastHost(source, actions[m + 1..n]) == source))
               && (NoEdit(actions[m + 1..n]) ==> LastHost(source, actions[m + 1..n]) == source)
  {
    n := RecordedMarkLoaded(sha, w, actions);
    var run := actions[..n];
    assert run[..|run|] == run;
    var content;
    hide Exec, SyncedContent, LastHost;
    m, content := RecordSynced(sha, w, run);
    HostPastSync(sha, w, run, m, content);
    assert run[..m] == actions[..m] && run[m + 1..] == actions[m + 1..n];
    FixedSource(sha, w, actions[..m]);
    var source := SourceOf(w, w.ref.kref);
    assert content == source;
    if NoEdit(actions[m + 1..n]) { NoEditKeepsHost(source, actions[m + 1..n]); }
  }

  /** With the mark on record nothing is ever loaded again, whatever ticks, crashes and host-file edits
      follow; a tick only puts the drop-in right. */
  lemma {:induction false} NothingLoadedAgain(sha: Hash, w: World, actions: seq<Action>)
    requires Current(sha, w) && Due(sha, w) == 0 && KeepsSource(actions)
    ensures Exec(sha, w, actions).loaded == w.loaded && Exec(sha, w, actions).restarts == w.restarts
    decreases actions
  {
    if actions != [] {
      var a := actions[0];
      CurrentOutstanding(sha, w);
      OutstandingStep(sha, w, a);
      CurrentStep(sha, w, a);
      CurrentOutstanding(sha, Next(sha, w, a));
      LoadedStep(sha, w, a);
      assert !w.pc.Restart?;
      hide Next, Due, Outstanding, Surplus, Current, Remembers;
      NothingLoadedAgain(sha, Next(sha, w, a), actions[1..]);
    }
  }

  /** So a file that somebody slips in between the sync and the restart is loaded, corrected as drift by
      the next tick, and never restarted away: from every Node at rest with a restart due. */
  lemma GapEditStaysLoaded(sha: Hash, w: World, slipped: Option<Bytes>, later: seq<Action>)
    requires w.pc.Idle? && w.ref.GoodRef? && w.applied != Some(Mark(sha, w)) && KeepsSource(later)
    ensures var source := SourceOf(w, w.ref.kref);
            var after := Exec(sha, w, [Work, Work, Work, Work, EditHost(slipped), Work]);
            && after.pc.Idle? && after.applied == Some(Mark(sha, w)) && after.loaded == slipped
            && Exec(sha, after, [Work, Work, Work]).host == SyncedContent(sha, source, slipped)
            && Exec(sha, after, later).loaded == slipped
  {
    hide Exec, SyncReport, SyncedContent, IntendedHash;
    var w2 := AgentStep(sha, AgentStep(sha, w));
    DriftNeverRestarts(sha, w2.pc.content, w2.host, w.applied);
    var w4 := AgentStep(sha, AgentStep(sha, w2));
    var w6 := AgentStep(sha, Next(sha, w4, EditHost(slipped)));
    ExecSix(sha, w, EditHost(slipped));
    assert w6.pc.Idle? && w6.applied == Some(Mark(sha, w)) && w6.loaded == slipped == w6.host;
    DriftCorrected(sha, w6);
    NothingLoadedAgain(sha, w6, later);
  }

  lemma ExecSix(sha: Hash, w: World, a: Action)
    ensures Exec(sha, w, [Work, Work, Work, Work, a, Work]) ==
            AgentStep(sha, Next(sha, AgentStep(sha, AgentStep(sha, AgentStep(sha, AgentStep(sha, w)))), a))
  {
    hide AgentStep;
    ExecAppend(sha, w, [], Work);
    ExecAppend(sha, w, [Work], Work);
    ExecAppend(sha, w, [Work, Work], Work);
    ExecAppend(sha, w, [Work, Work, Work], Work);
    ExecAppend(sha, w, [Work, Work, Work, Work], a);
    ExecAppend(sha, w, [Work, Work, Work, Work, a], Work);
    assert [] + [Work] == [Work] && [Work] + [Work] == [Work, Work] && [Work, Work] + [Work] == [Work, Work, Work];
    assert [Work, Work, Work] + [Work] == [Work, Work, Work, Work];
    assert [Work, Work, Work, Work] + [a] == [Work, Work, Work, Work, a];
    assert [Work, Work, Work, Work, a] + [Work] == [Work, Work, Work, Work, a, Work];
  }

  /** A tick that finds its mark on record corrects the drop-in and nothing else. */
  lemma DriftCorrected(sha: Hash, w: World)
    requires w.pc.Idle? && w.ref.GoodRef? && w.applied == Some(Mark(sha, w))
    ensures Exec(sha, w, [Work, Work, Work]) == w.(host := SyncedContent(sha, SourceOf(w, w.ref.kref), w.host))
  {
    hide Exec, SyncReport, SyncedContent, IntendedHash;
    ExecAppend(sha, w, [], Work);
    ExecNothing(sha, w);
    ExecAppend(sha, w, [Work], Work);
    ExecAppend(sha, w, [Work, Work], Work);
    assert [] + [Work] == [Work] && [Work] + [Work] == [Work, Work] && [Work, Work] + [Work] == [Work, Work, Work];
    DriftNeverRestarts(sha, SourceOf(w, w.ref.kref), w.host, w.applied);
  }

  // ---------------------------------------------------------------------------------------
  // The tick as code

  /** The calls of a tick at which it can fail or be killed, besides those to the file system. */
  datatype Call = ReadNode | FetchSource | ClearOptIn | RecordApplied | RestartService

  /** How a restart goes: it may kill the agent before the agent hears of its success. */
  datatype RestartResult = Restarted | RestartedUnheard | RestartFailed

  /** The agent and what it touches, as `reconcile_once` sees them: the Node, the source objects, and
      the drop-in `dest` in the host's files. */
  class Agent {
    const fs: HostFs
    const dest: string
    const pid: string
    const umask: nat
    var ref: RefAnnotation
    var applied: Option<string>
    var optIn: bool
    var sources: map<string, Bytes>
    var restarts: nat
    ghost var changes: nat
    ghost var loaded: Option<Bytes>

    constructor (fs: HostFs, dest: string, pid: string, umask: nat, w: World)
      requires w.pc.Idle? && w.host == Content(fs.files, dest)
      ensures this.fs == fs && this.dest == dest && State() == w
    {
      this.fs, this.dest, this.pid, this.umask := fs, dest, pid, umask;
      ref, applied, optIn, sources := w.ref, w.applied, w.optIn, w.sources;
      restarts, changes, loaded := w.restarts, w.changes, w.loaded;
    }

    /** The drop-in as the protocol sees it. */
    ghost function Host(): Option<Bytes>
      reads this, fs
    {
      Content(fs.files, dest)
    }

    ghost function State(): World
      reads this, fs
    {
      World(ref, applied, optIn, sources, Host(), loaded, Idle, restarts, changes)
    }

    /** No file but the drop-in and its temporary file differs. */
    ghost predicate SameElsewhere(before: map<string, File>)
      reads this, fs
    {
      forall p :: p != dest && p != TempPath(dest, pid) ==> Lookup(fs.files, p) == Lookup(before, p)
    }

    /** PATCH the applied annotation. */
    method Patch(hash: Option<string>)
      modifies this`applied, this`changes
      ensures State() == SetApplied(old(State()), hash)
    {
      if applied != hash { changes := changes + 1; }
      applied := hash;
    }

    /** The sync of either half of a tick, with everything that can go wrong in the file system: done,
        it is one step of the protocol; cut short, it is an abandoned tick before that step or after
        it. */
    method SyncDropIn(sha: Hash, source: Option<Bytes>, faults: Faults, ghost pc: Pc, ghost start: World, ghost so: seq<Action>)
      returns (done: bool, outcome: SyncOutcome, ghost trace: seq<Action>)
      requires (pc.TearDown? && source.None?) || (pc.Sync? && pc.content == source)
      requires Exec(sha, start, so) == State().(pc := pc)
      modifies fs
      ensures so <= trace && forall k :: |so| <= k < |trace| ==> trace[k] in {Work, Abandon, Misfire}
      ensures faults.None() ==> done
      ensures done ==>
                && outcome == SyncReport(sha, source, old(Host()))
                && Host() == SyncedContent(sha, source, old(Host()))
                && Exec(sha, start, trace) == AgentStep(sha, old(State()).(pc := pc))
      ensures !done ==> State() == Exec(sha, start, trace)
      ensures SameElsewhere(old(fs.files))
    {
      ghost var before := State();
      var r;
      r, outcome := fs.SyncContent(sha, source, dest, pid, umask, faults);
      hide Exec, SyncReport, SyncedContent, IntendedHash, Content, Lookup, TempPath;
      trace, done := so, r.Done?;
      ExecAppend(sha, start, so, Abandon);
      ExecAppend(sha, start, so, Work);
      ExecAppend(sha, start, so + [Work], Abandon);
      if done {
        trace := so + [Work];
      } else if Host() == before.host {
        trace := so + [Abandon];
      } else {
        trace := so + [Work] + [Abandon];
      }
    }

    /** The tear-down half of a tick: unlink, then clear hash and label in one PATCH. */
    method TearDownHost(sha: Hash, strikes: Option<Call>, faults: Faults, ghost start: World, ghost so: seq<Action>)
      returns (ok: bool, ghost trace: seq<Action>)
      requires Exec(sha, start, so) == State().(pc := TearDown)
      modifies this, fs
      ensures State() == Exec(sha, start, trace)
      ensures so <= trace && forall k :: |so| <= k < |trace| ==> trace[k] in {Work, Abandon, Misfire}
      ensures ref == old(ref) && sources == old(sources) && restarts == old(restarts)
      ensures strikes == Some(ClearOptIn) ==> !ok
      ensures faults.None() && strikes != Some(ClearOptIn) ==> ok
      ensures ok ==> Host().None? && applied.None? && !optIn
      ensures SameElsewhere(old(fs.files))
    {
      hide Exec;
      SyncReachesSourceExactly(sha, None, Host());
      hide SyncReport, SyncedContent, IntendedHash, Content, Lookup, TempPath;
      var outcome;
      ok, outcome, trace := SyncDropIn(sha, None, faults, TearDown, start, so);
      if !ok { return; }
      if strikes == Some(ClearOptIn) {
        ExecAppend(sha, start, trace, Abandon);
        return false, trace + [Abandon];
      }
      Patch(None);
      optIn := false;
      ExecAppend(sha, start, trace, Work);
      return true, trace + [Work];
    }

    /** The delivery half of a tick: fetch and sync. */
    method SyncHost(sha: Hash, strikes: Option<Call>, faults: Faults, ghost start: World, ghost so: seq<Action>)
      returns (ok: bool, intended: string, ghost trace: seq<Action>)
      requires ref.GoodRef? && Exec(sha, start, so) == State().(pc := Fetch(ref.kref, applied))
      modifies fs
      ensures so <= trace && forall k :: |so| <= k < |trace| ==> trace[k] in {Work, Abandon, Misfire}
      ensures strikes == Some(FetchSource) ==> !ok
      ensures faults.None() && strikes != Some(FetchSource) ==> ok
      ensures !ok ==> State() == Exec(sha, start, trace)
      ensures ok ==>
                && intended == Mark(sha, State())
                && Host() == SyncedContent(sha, SourceOf(State(), ref.kref), old(Host()))
                && Exec(sha, start, trace) ==
                   State().(pc := if NeedsRestart(applied, intended) then Record(applied, intended) else Idle)
      ensures SameElsewhere(old(fs.files))
    {
      hide Exec, Mark, SyncReport, SyncedContent, IntendedHash, Content, Lookup, TempPath;
      trace, intended := so, "";
      if strikes == Some(FetchSource) {
        ExecAppend(sha, start, trace, Abandon);
        return false, intended, trace + [Abandon];
      }
      var content := if ref.kref.source in sources then Some(sources[ref.kref.source]) else None;
      ExecAppend(sha, start, trace, Work);
      var outcome;
      ok, outcome, trace := SyncDropIn(sha, content, faults, Sync(ref.kref, applied, content), start, trace + [Work]);
      if !ok { return; }
      intended := IntendedHash(outcome);
      DriftNeverRestarts(sha, content, old(Host()), applied);
      MarkOfGoodRef(sha, State());
    }

    /** The last half: record the hash, and only then restart. */
    method RecordThenRestart(sha: Hash, strikes: Option<Call>, restart: RestartResult, intended: string, ghost start: World, ghost so: seq<Action>)
      returns (ok: bool, ghost trace: seq<Action>)
      requires Exec(sha, start, so) == State().(pc := Record(applied, intended))
      modifies this`applied, this`changes, this`restarts, this`loaded
      ensures State() == Exec(sha, start, trace)
      ensures so <= trace && forall k :: |so| <= k < |trace| ==> trace[k] in {Work, Abandon, Misfire}
      ensures ok <==> strikes !in {Some(RecordApplied), Some(RestartService)} && restart.Restarted?
      ensures ok ==> applied == Some(intended) && restarts == old(restarts) + 1 && loaded == Host()
    {
      hide Exec, SyncReport, SyncedContent, IntendedHash, Content;
      trace := so;
      if strikes == Some(RecordApplied) {
        ExecAppend(sha, start, trace, Abandon);
        return false, trace + [Abandon];
      }
      Patch(Some(intended));
      ExecAppend(sha, start, trace, Work);
      trace := trace + [Work];
      if strikes == Some(RestartService) {
        ExecAppend(sha, start, trace, Abandon);
        return false, trace + [Abandon];
      }
      restarts := restarts + 1;
      if restart.RestartFailed? {
        ExecAppend(sha, start, trace, Misfire);
        return false, trace + [Misfire];
      }
      loaded := Host();
      ExecAppend(sha, start, trace, Work);
      return restart.Restarted?, trace + [Work];
    }

    /** `reconcile_once`: the call `strikes`, if any, fails or the agent is killed there, and `faults`
        strike in the file system. The tick is a run of the protocol; completed, it leaves
        the host and the Node where the reference wants them. */
    method ReconcileOnce(sha: Hash, strikes: Option<Call>, faults: Faults, restart: RestartResult) returns (ok: bool, ghost trace: seq<Action>)
      modifies this, fs
      ensures State() == Exec(sha, old(State()), trace)
      ensures forall k :: 0 <= k < |trace| ==> trace[k] in {Work, Abandon, Misfire}
      ensures ref == old(ref) && sources == old(sources)
      ensures ok && ref.GoodRef? ==>
                && applied == Some(Mark(sha, State()))
                && Host() == SyncedContent(sha, SourceOf(State(), ref.kref), old(Host()))
                && restarts == old(restarts) + (if old(applied) == applied then 0 else 1)
                && loaded == (if old(applied) == applied then old(loaded) else Host())
      ensures ok && !ref.GoodRef? ==> ref.NoRef? && Host().None? && applied.None? && !optIn && restarts == old(restarts)
      ensures strikes.None? && faults.None() && restart.Restarted? ==> (ok <==> !ref.BadRef?)
      ensures SameElsewhere(old(fs.files))
    {
      ExecNothing(sha, State());
      hide Exec, SyncReport, SyncedContent, IntendedHash, SourceMark, Content, Lookup, TempPath;
      ghost var start := State();
      trace := [];
      if strikes == Some(ReadNode) || ref.BadRef? { return false, trace; }
      var prevHash := applied;
      ExecAppend(sha, start, trace, Work);
      trace := trace + [Work];
      if ref.NoRef? {
        ok, trace := TearDownHost(sha, strikes, faults, start, trace);
        return;
      }
      var intended;
      ok, intended, trace := SyncHost(sha, strikes, faults, start, trace);
      if ok && NeedsRestart(prevHash, intended) {
        ok, trace := RecordThenRestart(sha, strikes, restart, intended, start, trace);
      }
    }
  }

  lemma MarkOfGoodRef(sha: Hash, w: World)
    requires w.ref.GoodRef?
    ensures Mark(sha, w) == SourceMark(sha, SourceOf(w, w.ref.kref))
  {
  }

  lemma MarkIgnoresHost(sha: Hash, a: World, b: World)
    requires a.ref == b.ref && a.sources == b.sources
    ensures Mark(sha, a) == Mark(sha, b)
  {
  }

  lemma ExecNothing(sha: Hash, w: World)
    ensures Exec(sha, w, []) == w
  {
  }
}
