/**
 How a device gets back to idle: progress from every state, rollbacks as inverses of updates,
 the reboot verdicts, and the exact conditions under which the library gets stuck.
 */
module Recovery {
  import opened Results
  import opened BootEnv
  import opened Protocol

  // ----- Reboot verdicts -----

  /** After a boot attempt the selector has taken the head of the order, or its counter is exhausted. */
  lemma {:induction false} AttemptsChoose(e: Env, n: nat)
    ensures var r := Attempts(e, n);
      && r.order == e.order && r.orderOld == e.orderOld && r.marks == e.marks
      && r.state == e.state && r.app == e.app
      && (n >= 1 ==> r.slot == r.order || r.Left(r.order) == 0)
  {
    if n >= 1 {
      AttemptsChoose(e, n - 1);
    }
  }

  /** Once an installed firmware has been given any number of boot attempts, exactly one verdict
      holds, and it is "successful" exactly when the installed slot is the one that booted. */
  lemma VerdictAgreesWithSelector(e: Env, n: nat)
    requires e.order != e.orderOld && n >= 1
    ensures var r := Attempts(e, n);
      && !RebootMissing(r)
      && (RebootSuccessful(r) <==> r.slot == e.order)
      && (RebootFailed(r) <==> r.slot != e.order)
  {
    AttemptsChoose(e, n);
  }

  // ----- Progress -----

  /** A commit that needs a reboot first. */
  predicate NeedsReboot(s: System) {
    || (s.env.state in {IncompleteFw, IncompleteAppFw} && NotRebooted(s.env))
    || (s.env.state == IncompleteApp && s.mounted != s.env.app)
  }

  /** A failed application install whose record is hidden by an uncommitted mark of the other firmware slot. */
  predicate Hidden(e: Env) {
    e.state == FailedApp && Uncommitted(e.marks.Fw(Other(e.slot)))
  }

  /** commit_update in a rollback that waits for its reboot is accepted only when there is nothing
      to wait for: the application is mounted, or the firmware has fallen back already. In state 7
      it is also accepted where the protocol forbids it. */
  predicate RollbackIsDone(s: System) {
    match s.env.state
    case RollbackFwPending => OpenFw(s.env, false)
    case RollbackAppPending => s.mounted == s.env.app
    case RollbackAppFwPending => s.env.order != s.env.orderOld && s.env.slot == s.env.orderOld
    case _ => true
  }

  lemma CommitOfRollbackAcceptedExactly(s: System)
    requires Inv(s)
    requires RebootPending(s.env) || RollbackBooted(s.env)
    ensures Commit(s.env, s.mounted).Success? <==> !NeedsReboot(s) && RollbackIsDone(s) && !Hidden(s.env)
  {
  }

  lemma CommitOfUpdateAcceptedExactly(s: System)
    requires Inv(s) && !RebootPending(s.env)
    requires !RollbackBooted(s.env)
    ensures Commit(s.env, s.mounted).Success? <==> !NeedsReboot(s) && RollbackIsDone(s) && !Hidden(s.env)
  {
  }

  /** In every state, commit_update is accepted exactly when no reboot is missing and no failure
      record is hidden. */
  lemma CommitAcceptedExactly(s: System)
    requires Inv(s)
    ensures Commit(s.env, s.mounted).Success? <==> !NeedsReboot(s) && RollbackIsDone(s) && !Hidden(s.env)
  {
    hide Inv, Commit, NeedsReboot, RollbackIsDone, Hidden;
    if RebootPending(s.env) || RollbackBooted(s.env) {
      CommitOfRollbackAcceptedExactly(s);
    } else {
      CommitOfUpdateAcceptedExactly(s);
    }
  }

  /** A booted device without a hidden record commits into a resting idle on the slot that runs. */
  lemma BootedCommitRests(s: System)
    requires Shape(s) && !RebootPending(s.env) && s.mounted == s.env.app && !Hidden(s.env)
    requires s.env.slot == s.env.order || s.env.Left(s.env.order) == 0
    ensures var r := Commit(s.env, s.mounted);
      r.Success? && Resting(r.value) && OtherSlotKept(s.env, r.value)
  {
    if s.env.state in {IncompleteFw, IncompleteAppFw} {
      BootedUpdateRests(s);
    } else if s.env.state in {IncompleteFwRollback, IncompleteAppFwRollback} {
      BootedFirmwareRollbackRests(s);
    } else if s.env.state == IncompleteAppRollback {
      BootedApplicationRollbackRests(s);
    }
  }

  lemma BootedUpdateRests(s: System)
    requires Shape(s) && s.env.state in {IncompleteFw, IncompleteAppFw}
    requires s.env.slot == s.env.order || s.env.Left(s.env.order) == 0
    ensures var r := Commit(s.env, s.mounted);
      r.Success? && Resting(r.value) && OtherSlotKept(s.env, r.value)
  {
  }

  /** Nothing is taken from the other slot, and its mark stays or becomes bad. */
  predicate OtherSlotKept(before: Env, after: Env) {
    && after.slot == before.slot && after.Left(Other(after.slot)) >= before.Left(Other(before.slot))
    && after.marks.Fw(Other(after.slot)) in {before.marks.Fw(Other(before.slot)), BAD}
  }

  /** A booted rollback is committed whatever the marks are. */
  lemma RollbackCommit(e: Env, mounted: Slot)
    requires RollbackBooted(e)
    ensures Commit(e, mounted) == ConfirmRollback(e)
  {
  }

  lemma BootedFirmwareRollbackRests(s: System)
    requires Shape(s) && s.env.state in {IncompleteFwRollback, IncompleteAppFwRollback}
    ensures var r := Commit(s.env, s.mounted); r.Success? && Resting(r.value) && OtherSlotKept(s.env, r.value)
  {
    hide Commit, ImagesSound;
    RollbackCommit(s.env, s.mounted);
  }

  lemma BootedApplicationRollbackRests(s: System)
    requires Shape(s) && s.env.state == IncompleteAppRollback
    ensures var r := Commit(s.env, s.mounted); r.Success? && Resting(r.value) && OtherSlotKept(s.env, r.value)
  {
  }

  /** The last attempt takes a try from the slot that runs, and from no other. */
  lemma LastBootSparesOther(e: Env, n: nat)
    requires CommittedCanBoot(e) && MayBoot(e, n)
    ensures var r := Attempts(e, n);
      r.marks.Fw(Other(r.slot)) == COMMITTED ==> r.Left(Other(r.slot)) >= 1
  {
    var before := Attempts(e, n - 1);
    assert n == 1 ==> before == e;
    assert CommittedCanBoot(before);
    assert Attempts(e, n) == Select(before);
  }

  /** In idle a commit refills the counter of the running slot. */
  lemma RestingCommitSettles(e: Env, mounted: Slot)
    requires Resting(e) && (e.marks.Fw(Other(e.slot)) == COMMITTED ==> e.Left(Other(e.slot)) >= 1)
    ensures Commit(e, mounted) == Success(e.WithLeft(e.slot, 3)) && Settled(e.WithLeft(e.slot, 3))
  {
  }

  lemma CommitKeepsImages(s: System)
    requires Shape(s) && Commit(s.env, s.mounted).Success? && Resting(Commit(s.env, s.mounted).value)
    requires Commit(s.env, s.mounted).value.slot == s.env.slot
    requires Commit(s.env, s.mounted).value.marks.Fw(Other(s.env.slot)) in {s.env.marks.Fw(Other(s.env.slot)), BAD}
    requires s.env.slot in {s.env.order, s.env.orderOld}
    ensures Shape(Next(s, CommitUpdate))
  {
    hide Commit;
  }

  lemma RunsFromOrder(s: System)
    requires Shape(s) && !RebootPending(s.env)
    ensures s.env.slot in {s.env.order, s.env.orderOld}
  {
  }

  /** One reboot, which may be a single boot, and one commit lead from any state to a resting idle,
      unless a failure record is hidden; one more commit restores the whole invariant, and none is
      needed if the reboot was an allowed one. */
  lemma RebootThenCommitReachesIdle(s: System, n: nat)
    requires Inv(s) && !Hidden(s.env) && MayBoot(s.env, n)
    ensures var booted := Next(s, Reboot(n));
      var idle := Next(booted, CommitUpdate);
      && Commit(booted.env, booted.mounted).Success?
      && Resting(idle.env) && Shape(idle) && idle.env.slot == booted.env.slot
      && Inv(Next(idle, CommitUpdate)) && Settled(Next(idle, CommitUpdate).env)
      && (Allowed(s, Reboot(n)) ==> Inv(idle) && Settled(idle.env))
  {
    hide Attempts, Commit, MayBoot, CommittedCanBoot, StateInvariant, ImagesSound;
    var booted := Next(s, Reboot(n));
    RebootShapes(s, n);
    BootedSpares(s, n);
    StillNotHidden(s, n);
    BootedCommitRests(booted);
    RunsFromOrder(booted);
    CommitKeepsImages(booted);
    var idle := Next(booted, CommitUpdate);
    RestingCommitSettles(idle.env, idle.mounted);
    RestingAgain(idle);
    if Allowed(s, Reboot(n)) {
      RebootKeeps(s, n);
      CommitSettles(booted);
    }
  }

  /** Where the running slot is the only one that lost a try. */
  lemma BootedSpares(s: System, n: nat)
    requires Inv(s) && MayBoot(s.env, n)
    ensures var e := Next(s, Reboot(n)).env; e.marks.Fw(Other(e.slot)) == COMMITTED ==> e.Left(Other(e.slot)) >= 1
  {
    hide Attempts, MayBoot;
    LastBootSparesOther(s.env, n);
  }

  lemma StillNotHidden(s: System, n: nat)
    requires Inv(s) && !Hidden(s.env) && MayBoot(s.env, n)
    ensures !Hidden(Next(s, Reboot(n)).env)
  {
    hide Attempts, MayBoot;
    RebootShapes(s, n);
    AttemptsOnlyBoot(s.env, n);
  }

  lemma RestingAgain(s: System)
    requires Shape(s) && Resting(s.env)
    requires Commit(s.env, s.mounted) == Success(s.env.WithLeft(s.env.slot, 3))
    requires Settled(s.env.WithLeft(s.env.slot, 3))
    ensures Inv(Next(s, CommitUpdate)) && Settled(Next(s, CommitUpdate).env)
  {
    hide Commit;
  }

  /** A single boot is an allowed reboot exactly when the slot it takes is not committed or has a
      try to spare; the first boot of a new firmware always is. */
  lemma OneBootIsAllowed(e: Env)
    requires CommittedCanBoot(e)
    ensures CanReboot(e, 1) <==>
      e.marks.Fw(Select(e).slot) != COMMITTED || Select(e).Left(Select(e).slot) >= 1
    ensures FwSwitch(e) && NotRebooted(e) ==> CanReboot(e, 1)
  {
    assert Attempts(e, 1) == Select(Attempts(e, 0));
    if CanReboot(e, 1) {
      assert CommittedCanBoot(Attempts(e, 1));
    }
  }

  // ----- The hidden record -----

  /** Settled states of the firmware keep no uncommitted mark of the other firmware slot. */
  predicate NothingHidden(e: Env) {
    e.state in {Idle, IncompleteApp, FailedApp, RollbackAppPending, IncompleteAppRollback} ==>
      !Uncommitted(e.marks.Fw(Other(e.slot)))
  }

  /** The calls that give up an uncommitted firmware without marking it: rollback_firmware before
      the reboot of a firmware-only update, and rollback_application after a failed firmware install. */
  predicate LeavesMark(e: Env, ev: Event) {
    || (ev.RollbackFw? && e.state == IncompleteFw && RebootMissing(e))
    || (ev.RollbackApp? && e.state == FailedFw && e.marks.App(Other(e.app)) == COMMITTED)
  }

  lemma CommitOfFirmwareHidesNothing(s: System)
    requires Inv(s) && s.env.state in {IncompleteFw, IncompleteAppFw}
    ensures NothingHidden(Next(s, CommitUpdate).env)
  {
  }

  lemma CommitOfRollbackHidesNothing(s: System)
    requires Inv(s) && s.env.state in {IncompleteFwRollback, IncompleteAppFwRollback}
    ensures NothingHidden(Next(s, CommitUpdate).env)
  {
  }

  lemma CommitHidesNothing(s: System)
    requires Inv(s) && NothingHidden(s.env) && Allowed(s, CommitUpdate)
    ensures NothingHidden(Next(s, CommitUpdate).env)
  {
    if s.env.state in {IncompleteFw, IncompleteAppFw} {
      CommitOfFirmwareHidesNothing(s);
    } else if s.env.state in {IncompleteFwRollback, IncompleteAppFwRollback} {
      CommitOfRollbackHidesNothing(s);
    }
  }

  lemma RollbackHidesNothing(s: System, ev: Event)
    requires Inv(s) && NothingHidden(s.env) && (ev.RollbackFw? || ev.RollbackApp?) && Allowed(s, ev)
    ensures NothingHidden(Next(s, ev).env) <==> !LeavesMark(s.env, ev)
  {
  }

  lemma RebootHidesNothing(s: System, n: nat)
    requires Inv(s) && NothingHidden(s.env) && MayBoot(s.env, n)
    ensures NothingHidden(Next(s, Reboot(n)).env)
  {
    hide Attempts, MayBoot;
    RebootShapes(s, n);
    AttemptsOnlyBoot(s.env, n);
  }

  lemma FirmwareUpdateHidesNothing(s: System, ev: Event)
    requires Inv(s) && NothingHidden(s.env) && (ev.UpdateFirmware? || ev.UpdateBoth?) && Allowed(s, ev)
    ensures NothingHidden(Next(s, ev).env)
  {
  }

  lemma MarkHidesNothing(s: System, ev: Event)
    requires Inv(s) && NothingHidden(s.env) && (ev.UpdateApplication? || ev.MarkBad?) && Allowed(s, ev)
    ensures NothingHidden(Next(s, ev).env)
  {
  }

  lemma EventHidesNothing(s: System, ev: Event)
    requires Inv(s) && NothingHidden(s.env) && Allowed(s, ev)
    ensures NothingHidden(Next(s, ev).env) <==> !LeavesMark(s.env, ev)
  {
    hide Inv, NothingHidden, Next;
    match ev
    case CommitUpdate => CommitHidesNothing(s);
    case RollbackFw | RollbackApp => RollbackHidesNothing(s, ev);
    case Reboot(n) => RebootHidesNothing(s, n);
    case UpdateFirmware(_, _) | UpdateBoth(_, _, _, _) => FirmwareUpdateHidesNothing(s, ev);
    case UpdateApplication(_, _) | MarkBad(_, _) => MarkHidesNothing(s, ev);
  }

  /** In idle, a mark that was left makes every later rejected application update refuse its commit;
      set_update_state_bad on that firmware slot makes it acceptable again. */
  lemma LeftMarkHides(s: System, id: int)
    requires Inv(s) && s.env.state == Idle && Uncommitted(s.env.marks.Fw(Other(s.env.slot)))
    ensures var failed := Next(s, UpdateApplication(AppRejected, id));
      var marked := Next(failed, MarkBad(FirmwarePart, Other(s.env.slot)));
      && Hidden(failed.env)
      && Commit(failed.env, failed.mounted) == Failure(NotAllowedUpdateState)
      && (Bad(s.env.marks.Fw(Other(s.env.slot))) <==> Commit(marked.env, marked.mounted).Failure?)
  {
  }

  /** The undo of a firmware install before its reboot always leaves such a mark. */
  lemma UndoneInstallHides(s: System, run: AppRun, id: int)
    requires Inv(s) && LeavesMark(s.env, RollbackFw) && run.AppRejected?
    ensures var undone := Next(s, RollbackFw);
      var failed := Next(undone, UpdateApplication(run, id));
      && undone.env.state == Idle
      && Hidden(failed.env)
      && Commit(failed.env, failed.mounted) == Failure(NotAllowedUpdateState)
  {
    RollbackFwKeeps(s);
    LeftMarkHides(Next(s, RollbackFw), id);
  }

  /** So does rollback_application in state 5, after the reboot and the commit that it needs. */
  lemma ForgottenFailureHides(s: System, n: nat)
    requires Inv(s) && LeavesMark(s.env, RollbackApp) && MayBoot(Next(s, RollbackApp).env, n)
    ensures var idle := Next(Next(Next(s, RollbackApp), Reboot(n)), CommitUpdate);
      && Resting(idle.env) && Uncommitted(idle.env.marks.Fw(Other(idle.env.slot)))
      && (Allowed(Next(s, RollbackApp), Reboot(n)) ==> Inv(idle))
  {
    hide Attempts, Commit, MayBoot, Shape, CommittedCanBoot, LeavesMark, RollbackApplication;
    var rolled := Next(s, RollbackApp);
    FailureForgotten(s);
    RebootShapes(rolled, n);
    AttemptsOnlyBoot(rolled.env, n);
    RebootThenCommitReachesIdle(rolled, n);
    BootedRollbackKeepsMark(Next(rolled, Reboot(n)));
  }

  lemma FailureForgotten(s: System)
    requires Inv(s) && LeavesMark(s.env, RollbackApp)
    ensures var rolled := Next(s, RollbackApp);
      && Inv(rolled) && rolled.env.state == RollbackAppPending
      && rolled.env.order == rolled.env.slot == s.env.slot && rolled.env.marks == s.env.marks
      && s.env.marks.Fw(Other(s.env.slot)) == UNCOMMITTED && !Hidden(rolled.env)
  {
  }

  lemma BootedRollbackKeepsMark(s: System)
    requires Shape(s) && s.env.state == IncompleteAppRollback
    ensures Next(s, CommitUpdate).env.slot == s.env.slot == s.env.order
    ensures Next(s, CommitUpdate).env.marks.Fw(Other(s.env.slot)) == s.env.marks.Fw(Other(s.env.slot))
  {
  }

  /** A reboot is possible within the protocol exactly when a single boot is. */
  lemma RebootAllowedExactly(e: Env)
    requires CommittedCanBoot(e)
    ensures (exists n: nat :: CanReboot(e, n)) <==>
      e.marks.Fw(Select(e).slot) != COMMITTED || Select(e).Left(Select(e).slot) >= 1
  {
    OneBootIsAllowed(e);
    hide Select, CommittedCanBoot, Attempts;
    if n: nat :| CanReboot(e, n) {
      assert CommittedCanBoot(Attempts(e, 1));
      assert CanReboot(e, 1);
    }
  }

  /** No stuck state: on every run without such a call, one boot (or any reboot before whose last
      attempt no committed slot has run out) and one commit lead to a resting idle; a second commit
      restores the whole invariant. Where nothing waits for a reboot, the commit alone settles. */
  lemma {:induction false} RunNeverStuck(states: seq<System>, events: seq<Event>, k: nat, n: nat)
    requires IsRun(states, events) && k < |states|
    requires forall i :: 0 <= i < |events| ==> !LeavesMark(states[i].env, events[i])
    ensures var s := states[k];
      && NothingHidden(s.env)
      && (!RebootPending(s.env) && !NeedsReboot(s) ==>
            Commit(s.env, s.mounted).Success? && Settled(Next(s, CommitUpdate).env))
      && MayBoot(s.env, 1)
      && (MayBoot(s.env, n) ==>
            var idle := Next(Next(s, Reboot(n)), CommitUpdate);
            && Resting(idle.env) && Inv(Next(idle, CommitUpdate))
            && (Allowed(s, Reboot(n)) ==> Settled(idle.env)))
  {
    hide Next, Commit, Inv, NothingHidden, Settled, Resting, NeedsReboot, LeavesMark;
    NothingHiddenOnRuns(states, events, k);
    var s := states[k];
    RunKeeps(states, events, k);
    OneAttempt(s.env);
    NotHidden(s.env);
    if !RebootPending(s.env) && !NeedsReboot(s) {
      CommitAcceptedExactly(s);
      CommitSettles(s);
      CommittedEnv(s);
    }
    if MayBoot(s.env, n) {
      RebootThenCommitReachesIdle(s, n);
    }
  }

  lemma CommittedEnv(s: System)
    requires Commit(s.env, s.mounted).Success?
    ensures Next(s, CommitUpdate).env == Commit(s.env, s.mounted).value
  {
    hide Commit;
  }

  lemma NotHidden(e: Env)
    requires NothingHidden(e)
    ensures !Hidden(e)
  {
  }

  lemma {:induction false} NothingHiddenOnRuns(states: seq<System>, events: seq<Event>, k: nat)
    requires IsRun(states, events) && k < |states|
    requires forall i :: 0 <= i < |events| ==> !LeavesMark(states[i].env, events[i])
    ensures NothingHidden(states[k].env)
  {
    hide Next, Inv, Allowed, LeavesMark;
    if k > 0 {
      NothingHiddenOnRuns(states, events, k - 1);
      RunKeeps(states, events, k - 1);
      EventHidesNothing(states[k - 1], events[k - 1]);
    }
  }

  // ----- Runs on which the protocol allows no reboot -----

  /** The states of a run, event by event. */
  ghost function RunFrom(s: System, events: seq<Event>): (r: seq<System>)
    ensures |r| == |events| + 1 && r[0] == s
    decreases |events|
  {
    if events == [] then [s] else [s] + RunFrom(Next(s, events[0]), events[1..])
  }

  ghost predicate AllAllowed(s: System, events: seq<Event>)
    decreases |events|
  {
    events == [] ||
    (Allowed(s, events[0]) && !LeavesMark(s.env, events[0]) && AllAllowed(Next(s, events[0]), events[1..]))
  }

  lemma {:induction false} RunFromSteps(s: System, events: seq<Event>)
    requires AllAllowed(s, events)
    ensures var r := RunFrom(s, events);
      forall i :: 0 <= i < |events| ==>
        Allowed(r[i], events[i]) && !LeavesMark(r[i].env, events[i]) && r[i + 1] == Next(r[i], events[i])
    decreases |events|
  {
    hide Allowed, LeavesMark, Next;
    if events != [] {
      RunFromSteps(Next(s, events[0]), events[1..]);
    }
  }

  lemma RunFromIsRun(s: System, events: seq<Event>)
    requires Factory(s) && AllAllowed(s, events)
    ensures IsRun(RunFrom(s, events), events)
  {
    hide Factory, Allowed, LeavesMark, Next;
    RunFromSteps(s, events);
  }

  lemma RunOfOne(s: System, first: Event, later: seq<Event>)
    requires Allowed(s, first) && !LeavesMark(s.env, first) && AllAllowed(Next(s, first), later)
    ensures AllAllowed(s, [first] + later)
    ensures var r := RunFrom(s, [first] + later); var rest := RunFrom(Next(s, first), later);
      r[|r| - 1] == rest[|rest| - 1]
  {
    hide Allowed, LeavesMark, Next;
    assert ([first] + later)[1..] == later;
  }

  /** commit_update is refused, and the running or the next slot is committed and has one try left. */
  ghost predicate WaitsForForbiddenBoot(s: System) {
    Commit(s.env, s.mounted).Failure? && forall n: nat :: !Allowed(s, Reboot(n))
  }

  lemma OneTryLeft(s: System)
    requires CommittedCanBoot(s.env)
    requires s.env.marks.Fw(Select(s.env).slot) == COMMITTED && Select(s.env).Left(Select(s.env).slot) == 0
    ensures forall n: nat :: !Allowed(s, Reboot(n))
  {
    RebootAllowedExactly(s.env);
    hide CanReboot, Select;
    assert forall n: nat :: Allowed(s, Reboot(n)) == CanReboot(s.env, n);
  }

  lemma OneBoot(s: System)
    ensures Next(s, Reboot(1)) == s.(env := Overlay(Select(s.env)), mounted := Select(s.env).app)
  {
    OneAttempt(s.env);
    hide Attempts, Select;
  }

  lemma BootOnce(s: System)
    requires s.env.state == Idle && s.env.order == s.env.slot && s.mounted == s.env.app && s.env.Left(s.env.slot) >= 2
    requires CommittedCanBoot(s.env)
    ensures Allowed(s, Reboot(1))
    ensures Next(s, Reboot(1)) == s.(env := s.env.WithLeft(s.env.slot, s.env.Left(s.env.slot) - 1))
  {
    OneAttempt(s.env);
    OneBoot(s);
    hide Attempts, CanReboot;
  }

  /** Two boots without a commit leave one try on the running slot. */
  lemma TwiceBooted(s: System, later: seq<Event>)
    requires Factory(s) && AllAllowed(s.(env := s.env.WithLeft(s.env.slot, 1)), later)
    ensures var events := [Reboot(1)] + ([Reboot(1)] + later);
      var run := RunFrom(s, events); var end := RunFrom(s.(env := s.env.WithLeft(s.env.slot, 1)), later);
      && AllAllowed(s, events) && run[|run| - 1] == end[|end| - 1]
  {
    BootOnce(s);
    var once := s.(env := s.env.WithLeft(s.env.slot, 2));
    BootOnce(once);
    assert once.(env := once.env.WithLeft(once.env.slot, 1)) == s.(env := s.env.WithLeft(s.env.slot, 1));
    hide Next, Allowed, AllAllowed, RunFrom, Factory;
    RunOfOne(once, Reboot(1), later);
    RunOfOne(s, Reboot(1), [Reboot(1)] + later);
  }

  lemma TwiceBootedUpdate(s: System, id: int)
    requires Factory(s)
    ensures var twice := s.(env := s.env.WithLeft(s.env.slot, 1));
      var last := Next(twice, UpdateApplication(AppInstalled, id));
      && Allowed(twice, UpdateApplication(AppInstalled, id))
      && last.env.state == IncompleteApp && WaitsForForbiddenBoot(last)
  {
    var twice := s.(env := s.env.WithLeft(s.env.slot, 1));
    OneTryLeft(Next(twice, UpdateApplication(AppInstalled, id)));
  }

  lemma SingleEvent(s: System, ev: Event)
    requires Allowed(s, ev) && !LeavesMark(s.env, ev)
    ensures AllAllowed(s, [ev]) && RunFrom(s, [ev])[1] == Next(s, ev)
  {
    hide Allowed, LeavesMark, Next;
    assert [ev][1..] == [];
    assert RunFrom(s, [ev]) == [s] + RunFrom(Next(s, ev), []);
  }

  /** From every factory device: two boots, then an application update. The commit waits for a boot
      that the protocol does not allow, as it takes the last try of the running slot. */
  lemma ForbiddenBootAfterUpdate(s: System, id: int)
    requires Factory(s)
    ensures var events := [Reboot(1), Reboot(1), UpdateApplication(AppInstalled, id)];
      var states := RunFrom(s, events);
      && IsRun(states, events) && states[3].env.state == IncompleteApp && WaitsForForbiddenBoot(states[3])
      && forall i :: 0 <= i < 3 ==> !LeavesMark(states[i].env, events[i])
  {
    var ev := UpdateApplication(AppInstalled, id);
    TwiceBootedUpdate(s, id);
    SingleEvent(s.(env := s.env.WithLeft(s.env.slot, 1)), ev);
    hide Next, Allowed, AllAllowed, RunFrom, WaitsForForbiddenBoot, Factory;
    TwiceBooted(s, [ev]);
    assert [Reboot(1), Reboot(1), ev] == [Reboot(1)] + ([Reboot(1)] + [ev]);
    RunFromSteps(s, [Reboot(1), Reboot(1), ev]);
    RunFromIsRun(s, [Reboot(1), Reboot(1), ev]);
  }

  lemma CallsStayPut(s: System, ev: Event)
    requires Inv(s) && s.env.state == RollbackAppFwPending && Commit(s.env, s.mounted).Failure?
    requires Allowed(s, ev) && !ev.MarkBad? && !ev.Reboot?
    ensures Next(s, ev) == s
  {
  }

  /** A free mark changes neither the next boot nor what the commit waits for. */
  lemma MarkStillWaits(s: System, part: Part, target: Slot)
    requires Inv(s) && s.env.state == RollbackAppFwPending && Commit(s.env, s.mounted).Failure?
    requires s.env.marks.Fw(Select(s.env).slot) == COMMITTED && MarkIsFree(s.env, part, target)
    ensures var next := Next(s, MarkBad(part, target));
      && next.env.state == RollbackAppFwPending && Commit(next.env, next.mounted).Failure?
      && CommittedCanBoot(next.env) && next.env.marks.Fw(Select(next.env).slot) == COMMITTED
      && Select(next.env) == Select(s.env).(marks := next.env.marks)
  {
    MarkBadKeeps(s, part, target);
    CommitAcceptedExactly(s);
    CommitAcceptedExactly(Next(s, MarkBad(part, target)));
    MarkDoesNotBoot(s.env, part, target);
    hide Inv, Commit, Select;
  }

  lemma MarkDoesNotBoot(e: Env, part: Part, target: Slot)
    ensures var m := SetBad(e, part, target);
      && m == e.(marks := m.marks) && Select(m) == Select(e).(marks := m.marks)
      && (forall x: Slot :: (part == FirmwarePart && x == target) || m.marks.Fw(x) == e.marks.Fw(x))
  {
  }

  /** In state 9 such a wait has no end: no allowed event leaves the state. */
  lemma WaitsForEver(s: System, ev: Event)
    requires Inv(s) && s.env.state == RollbackAppFwPending && WaitsForForbiddenBoot(s) && Allowed(s, ev)
    ensures Next(s, ev).env.state == RollbackAppFwPending && WaitsForForbiddenBoot(Next(s, ev))
  {
    ForbiddenFor(s);
    hide Attempts, CanReboot, Select, Commit, Shape, Next;
    RebootAllowedExactly(s.env);
    match ev
    case MarkBad(part, target) =>
      MarkStillWaits(s, part, target);
      OneTryLeft(Next(s, ev));
    case Reboot(n) =>
      assert false;
    case _ =>
      CallsStayPut(s, ev);
  }

  lemma ForbiddenFor(s: System)
    requires forall n: nat :: !Allowed(s, Reboot(n))
    ensures forall n: nat :: !CanReboot(s.env, n)
  {
    hide CanReboot;
    forall n: nat ensures !CanReboot(s.env, n) {
      assert !Allowed(s, Reboot(n));
    }
  }

  /** A factory device after two boots, a combined update, and its boot. */
  ghost function BootedUpdate(s: System, fwId: int, appId: int): System {
    var fw, app := Other(s.env.slot), Other(s.env.app);
    s.(env := s.env.(
         marks := s.env.marks.WithFw(fw, UNCOMMITTED).WithApp(app, UNCOMMITTED), state := IncompleteAppFw,
         order := fw, slot := fw, app := app).WithLeft(s.env.slot, 1).WithLeft(fw, 2),
       mounted := app, fw := s.fw.With(fw, Complete(fwId)), app := s.app.With(app, Complete(appId)))
  }

  lemma UpdateThenBoot(s: System, fwId: int, appId: int)
    requires Factory(s)
    ensures var twice := s.(env := s.env.WithLeft(s.env.slot, 1));
      var ev := UpdateBoth(FwInstalled, fwId, AppInstalled, appId);
      && Allowed(twice, ev) && Allowed(Next(twice, ev), Reboot(1))
      && Next(Next(twice, ev), Reboot(1)) == BootedUpdate(s, fwId, appId)
  {
    var twice := s.(env := s.env.WithLeft(s.env.slot, 1));
    var updated := Next(twice, UpdateBoth(FwInstalled, fwId, AppInstalled, appId));
    OneBoot(updated);
    OneAttempt(updated.env);
    hide Attempts, CanReboot;
  }

  lemma RolledBackUpdate(s: System, fwId: int, appId: int)
    requires Factory(s)
    ensures var booted := BootedUpdate(s, fwId, appId);
      var rolled := Next(booted, RollbackFw);
      && Allowed(booted, RollbackFw) && rolled.env.state == RollbackAppFwPending
      && Commit(rolled.env, rolled.mounted).Failure? && CommittedCanBoot(rolled.env)
      && rolled.env.marks.Fw(Select(rolled.env).slot) == COMMITTED
      && Select(rolled.env).Left(Select(rolled.env).slot) == 0
  {
  }

  lemma RollbackOfBooted(s: System, fwId: int, appId: int)
    requires Factory(s)
    ensures var booted := BootedUpdate(s, fwId, appId);
      var rolled := Next(booted, RollbackFw);
      && Allowed(booted, RollbackFw) && rolled.env.state == RollbackAppFwPending && WaitsForForbiddenBoot(rolled)
  {
    RolledBackUpdate(s, fwId, appId);
    hide Factory, BootedUpdate, Commit, Next, Select;
    OneTryLeft(Next(BootedUpdate(s, fwId, appId), RollbackFw));
  }

  /** From every factory device: two boots, a combined update, its boot, and rollback_firmware. The
      device waits for ever for a boot that takes the last try of the slot to go back to. */
  lemma ForbiddenBootAfterRollback(s: System, id: int)
    requires Factory(s)
    ensures var events := [Reboot(1), Reboot(1), UpdateBoth(FwInstalled, id, AppInstalled, id), Reboot(1), RollbackFw];
      var states := RunFrom(s, events);
      && IsRun(states, events) && states[5].env.state == RollbackAppFwPending && WaitsForForbiddenBoot(states[5])
      && forall i :: 0 <= i < 5 ==> !LeavesMark(states[i].env, events[i])
  {
    var both := UpdateBoth(FwInstalled, id, AppInstalled, id);
    var twice := s.(env := s.env.WithLeft(s.env.slot, 1));
    hide Next, Allowed, AllAllowed, RunFrom, WaitsForForbiddenBoot, Factory, IsRun, CanReboot;
    UpdateThenBoot(s, id, id);
    RollbackOfBooted(s, id, id);
    assert !LeavesMark(twice.env, both) && !LeavesMark(BootedUpdate(s, id, id).env, RollbackFw);
    hide BootedUpdate, LeavesMark;
    var updated := Next(twice, both);
    SingleEvent(Next(updated, Reboot(1)), RollbackFw);
    RunOfOne(updated, Reboot(1), [RollbackFw]);
    assert [Reboot(1)] + [RollbackFw] == [Reboot(1), RollbackFw];
    RunOfOne(twice, both, [Reboot(1), RollbackFw]);
    assert [both] + [Reboot(1), RollbackFw] == [both, Reboot(1), RollbackFw];
    TwiceBooted(s, [both, Reboot(1), RollbackFw]);
    assert [Reboot(1), Reboot(1), both, Reboot(1), RollbackFw]
        == [Reboot(1)] + ([Reboot(1)] + [both, Reboot(1), RollbackFw]);
    RunFromSteps(s, [Reboot(1), Reboot(1), both, Reboot(1), RollbackFw]);
    RunFromIsRun(s, [Reboot(1), Reboot(1), both, Reboot(1), RollbackFw]);
  }

  // ----- Rollbacks -----

  /** The end of a combined rollback: the old firmware and the old application, both new slots bad. */
  predicate BackToOld(before: Env, after: System) {
    var newFw := Other(before.orderOld);
    && after.env == before.(
         marks := before.marks.WithFw(newFw, BAD).WithApp(before.app, BAD),
         state := Idle, order := before.orderOld, slot := before.orderOld,
         app := Other(before.app), leftA := 3, leftB := 3)
    && after.mounted == Other(before.app)
  }

  /** A combined rollback on its way: the old application is selected, the new firmware will not boot. */
  predicate Abandoned(before: Env, e: Env) {
    && (BothBackPending(e) || BothBackBooted(e)) && AppLeft(e)
    && e.marks == before.marks && e.app == Other(before.app) && e.orderOld == before.orderOld
  }

  lemma CombinedRollbackAbandons(s: System)
    requires Inv(s) && s.env.state == IncompleteAppFw && Allowed(s, RollbackFw)
    ensures var e := Next(s, RollbackFw).env; e.state == RollbackAppFwPending && Abandoned(s.env, e)
  {
  }

  lemma AbandonedCommit(before: Env, s: System)
    requires before.order != before.orderOld && Abandoned(before, s.env)
    requires s.env.state == IncompleteAppFwRollback && BothBackBooted(s.env) && s.mounted == s.env.app
    ensures BackToOld(before, Next(s, CommitUpdate))
  {
  }

  /** rollback_firmware on a combined update, reboot, commit: from each of the three situations
      (not rebooted with both counters at 3, booted the new firmware, fell back). */
  lemma CombinedRollback(s: System, n: nat)
    requires Inv(s) && s.env.state == IncompleteAppFw && Allowed(s, RollbackFw)
    requires MayBoot(Next(s, RollbackFw).env, n)
    ensures BackToOld(s.env, Next(Next(Next(s, RollbackFw), Reboot(n)), CommitUpdate))
  {
    hide Attempts, Commit;
    RollbackFwKeeps(s);
    CombinedRollbackAbandons(s);
    var rolled := Next(s, RollbackFw);
    AttemptsKeep(rolled.env, n);
    AbandonedCommit(s.env, Next(rolled, Reboot(n)));
  }

  lemma EarlyRollbackLeavesOrder(s: System)
    requires Inv(s) && s.env.state == IncompleteAppFw && NotRebooted(s.env) && (s.env.leftA < 3 || s.env.leftB < 3)
    ensures Next(s, RollbackFw).env == s.env.(app := Other(s.env.app), state := RollbackAppFwPending)
    ensures FwSwitch(s.env)
  {
  }

  lemma EarlyRollbackCommit(s: System)
    requires s.env.state == IncompleteAppFwRollback && FwSwitch(s.env)
    ensures var final := Next(s, CommitUpdate).env;
      final.state == Idle && (final.marks.Fw(final.slot) == COMMITTED <==> s.env.slot == s.env.orderOld)
  {
  }

  /** Before the reboot of a combined update, the rollback needs both counters at 3: with a used
      counter the boot order is not restored, and the run ends on the old firmware only if the
      new one fails to boot. Otherwise it ends idle on a firmware marked uncommitted. */
  lemma EarlyCombinedRollbackExactly(s: System, n: nat)
    requires Inv(s) && s.env.state == IncompleteAppFw && NotRebooted(s.env)
    requires MayBoot(Next(s, RollbackFw).env, n)
    ensures var booted := Next(Next(s, RollbackFw), Reboot(n));
      var final := Next(booted, CommitUpdate).env;
      && final.state == Idle
      && (final.marks.Fw(final.slot) == COMMITTED <==>
            (s.env.leftA == 3 && s.env.leftB == 3) || booted.env.slot == s.env.orderOld)
  {
    hide Attempts, MayBoot, Commit, RollbackFirmware;
    var rolled := Next(s, RollbackFw);
    if s.env.leftA == 3 && s.env.leftB == 3 {
      CombinedRollback(s, n);
    } else {
      EarlyRollbackLeavesOrder(s);
      AttemptsOnlyBoot(rolled.env, n);
      EarlyRollbackCommit(Next(rolled, Reboot(n)));
    }
  }

  /** The same rollback of a firmware-only update: with both counters at 3 it restores order and state,
      and otherwise it returns normally and has done nothing. One boot of the old slot is enough for that. */
  lemma FirmwareUndoExactly(s: System)
    requires Inv(s) && s.env.state == IncompleteFw && NotRebooted(s.env)
    ensures var full := s.env.leftA == 3 && s.env.leftB == 3;
      && RollbackFirmware(s.env, s.mounted).Success?
      && Next(s, RollbackFw) == if full then s.(env := s.env.(order := s.env.orderOld, state := Idle)) else s
    ensures Next(s, RollbackFw).env.state == Idle <==> s.env.leftA == 3 && s.env.leftB == 3
  {
  }

  /** rollback_application of an application that has not been mounted yet undoes the update
      exactly when the other application slot was marked committed before. */
  lemma ApplicationUndo(s: System, id: int)
    requires Inv(s) && s.env.state == Idle && s.mounted == s.env.app
    ensures var updated := Next(s, UpdateApplication(AppInstalled, id));
      var undone := Next(updated, RollbackApp);
      && undone.mounted == s.mounted && undone.fw == s.fw
      && undone.env == s.env.(marks := s.env.marks.WithApp(Other(s.env.app), COMMITTED))
      && (undone.env == s.env <==> s.env.marks.App(Other(s.env.app)) == COMMITTED)
  {
  }

  /** After the reboot the same rollback takes a second reboot and a commit, which condemns the new slot. */
  lemma ApplicationRollbackAfterReboot(s: System, n: nat)
    requires Inv(s) && s.env.state == IncompleteApp && s.mounted == s.env.app
    requires MayBoot(Next(s, RollbackApp).env, n)
    ensures var final := Next(Next(Next(s, RollbackApp), Reboot(n)), CommitUpdate);
      && final.env.state == Idle && final.env.slot == s.env.slot
      && final.env.app == Other(s.env.app) == final.mounted
      && final.env.marks == s.env.marks.WithApp(s.env.app, BAD)
  {
    hide Attempts;
    RollbackAppKeeps(s);
    AttemptsKeep(Next(s, RollbackApp).env, n);
  }

  /** Committing a booted firmware rollback restores the old boot order and condemns the new slot. */
  lemma FirmwareBackCommit(s: System)
    requires s.env.state == IncompleteFwRollback && FwSwitch(s.env) && FellBack(s.env)
    ensures Next(s, CommitUpdate).env ==
      s.env.(marks := s.env.marks.WithFw(s.env.order, BAD), state := Idle,
             order := s.env.orderOld, leftA := 3, leftB := 3)
  {
  }

  /** A firmware that booted and is rolled back is condemned; the old one runs again. */
  lemma FirmwareRollbackAfterReboot(s: System, n: nat)
    requires Inv(s) && s.env.state == IncompleteFw && BootedNew(s.env)
    requires MayBoot(Next(s, RollbackFw).env, n)
    ensures Next(Next(Next(s, RollbackFw), Reboot(n)), CommitUpdate).env ==
      s.env.(marks := s.env.marks.WithFw(s.env.order, BAD), state := Idle,
             order := s.env.orderOld, slot := s.env.orderOld, leftA := 3, leftB := 3)
  {
    hide Attempts, Commit;
    RollbackFwKeeps(s);
    var rolled := Next(s, RollbackFw);
    AttemptsKeep(rolled.env, n);
    FirmwareBackCommit(Next(rolled, Reboot(n)));
  }

  /** Switching between committed firmware slots: the other slot runs, nothing else changes. */
  lemma FirmwareSwitch(s: System, n: nat)
    requires Inv(s) && s.env.state == Idle
    requires s.env.marks.Fw(Other(s.env.slot)) == COMMITTED
    requires MayBoot(Next(s, RollbackFw).env, n)
    ensures var there := Next(Next(Next(s, RollbackFw), Reboot(n)), CommitUpdate);
      && Inv(there)
      && there.env == s.env.FullTries().(order := Other(s.env.slot), orderOld := Other(s.env.slot),
                                         slot := Other(s.env.slot))
  {
    hide Attempts, MayBoot, ImagesSound;
    RollbackFwKeeps(s);
    var rolled := Next(s, RollbackFw);
    RebootShapes(rolled, n);
    HeadBoots(rolled.env, n);
    RebootThenCommitReachesIdle(rolled, n);
    SwitchCommitted(Next(rolled, Reboot(n)));
  }

  /** A committed slot with a try left that heads the order is the one that boots. */
  lemma HeadBoots(e: Env, n: nat)
    requires MayBoot(e, n) && e.marks.Fw(e.order) == COMMITTED && e.Left(e.order) >= 1
    ensures SameButBoot(e, Attempts(e, n)) && Attempts(e, n).slot == e.order
  {
    AttemptsOnlyBoot(e, n - 1);
    AttemptsOnlyBoot(e, n);
    assert n > 1 ==> CommittedCanBoot(Attempts(e, n - 1));
    assert Attempts(e, n) == Select(Attempts(e, n - 1));
  }

  lemma SwitchCommitted(s: System)
    requires s.env.state == IncompleteFwRollback && s.env.slot == s.env.order
    requires s.env.marks.Fw(s.env.orderOld) == COMMITTED && s.env.orderOld != s.env.order
    ensures Next(s, CommitUpdate).env == s.env.FullTries().(orderOld := s.env.order, state := Idle)
  {
  }

  /** Doing it twice comes back to the same environment with full counters. */
  lemma FirmwareSwitchTwice(s: System, n: nat, m: nat)
    requires Inv(s) && s.env.state == Idle
    requires s.env.marks.Fw(Other(s.env.slot)) == COMMITTED
    requires MayBoot(Next(s, RollbackFw).env, n)
    requires MayBoot(Next(Next(Next(Next(s, RollbackFw), Reboot(n)), CommitUpdate), RollbackFw).env, m)
    ensures var there := Next(Next(Next(s, RollbackFw), Reboot(n)), CommitUpdate);
      Next(Next(Next(there, RollbackFw), Reboot(m)), CommitUpdate).env == s.env.FullTries()
  {
    FirmwareSwitch(s, n);
    FirmwareSwitch(Next(Next(Next(s, RollbackFw), Reboot(n)), CommitUpdate), m);
  }

  /** A slot marked bad in idle is never rolled back to, and the other marks keep their values; an
      uncommitted mark that is left from before is replaced, unless it was bad already. */
  lemma BadSlotIsNotChosen(s: System)
    requires Inv(s) && s.env.state == Idle
    ensures var spare := Other(s.env.slot);
      var bad := Next(s, MarkBad(FirmwarePart, spare)).env;
      && Bad(bad.marks.Fw(spare)) && bad == s.env.(marks := s.env.marks.WithFw(spare, bad.marks.Fw(spare)))
      && RollbackFirmware(bad, s.mounted) ==
           Failure(if s.env.marks.Fw(spare) == 3 then RollbackToUncommitted else RollbackToBad)
    ensures var spare := Other(s.env.app);
      var bad := Next(s, MarkBad(ApplicationPart, spare)).env;
      && bad == s.env.(marks := s.env.marks.WithApp(spare, BAD))
      && RollbackApplication(bad, s.mounted) == Failure(RollbackToBad)
  {
  }

  // ----- Where the code departs from its promises -----

  /** An early commit of a pending firmware rollback is accepted exactly while the firmware to be
      abandoned is running, and then makes it the only firmware of the boot order, uncommitted. */
  lemma EarlyRollbackCommitExactly(s: System)
    requires Inv(s) && s.env.state == RollbackFwPending
    ensures Commit(s.env, s.mounted).Success? <==> OpenFw(s.env, false)
    ensures var r := Commit(s.env, s.mounted);
      r.Success? ==>
        && r.value.state == Idle
        && r.value.order == r.value.orderOld == r.value.slot == s.env.slot
        && Uncommitted(r.value.marks.Fw(r.value.slot))
  {
  }

  /** An update in which "sync" fails after RAUC succeeded. */
  predicate SyncFails(ev: Event) {
    (ev.UpdateFirmware? || ev.UpdateBoth?) && ev.fwRun.SyncFailed?
  }

  /** When "sync" fails after RAUC succeeded, the failure is recorded but the new slot boots next:
      after any reboot, commit is refused exactly when the new firmware is the one that booted. */
  lemma SyncFailureExactly(s: System, ev: Event, n: nat)
    requires Inv(s) && s.env.state == Idle && SyncFails(ev) && n >= 1
    ensures var booted := Next(Next(s, ev), Reboot(n));
      && booted.env.state == FailedFw
      && (Commit(booted.env, booted.mounted).Failure? <==> booted.env.slot != s.env.slot)
  {
    AttemptsChoose(Next(s, ev).env, n);
    hide Attempts;
  }

  /** An update in which the name of an installed application cannot be stored at once. */
  predicate NameUnstored(ev: Event) {
    || (ev.UpdateApplication? && ev.appRun.AppNotStored?)
    || (ev.UpdateBoth? && ev.fwRun.FwInstalled? && ev.appRun.AppNotStored?)
  }

  /** When the name of an installed application cannot be stored at once but the failure record can,
      the record also selects the new application, and no number of reboots makes commit accept it. */
  lemma UnstoredApplicationIsStuck(s: System, ev: Event, n: nat)
    requires Inv(s) && s.env.state == Idle && NameUnstored(ev)
    ensures var booted := Next(Next(s, ev), Reboot(n));
      && booted.mounted == Other(s.env.app)
      && Commit(booted.env, booted.mounted) == Failure(NotAllowedUpdateState)
  {
    AttemptsChoose(Next(s, ev).env, n);
    hide Attempts;
  }

  /** A combined update whose application part fails leaves the new firmware, which never booted,
      marked committed, and rollback_firmware then switches to it. */
  lemma RejectedCombinedUpdate(s: System, fwId: int, appId: int)
    requires Inv(s) && s.env.state == Idle
    ensures var failed := Next(s, UpdateBoth(FwInstalled, fwId, AppRejected, appId));
      var idle := Next(failed, CommitUpdate);
      var next := Other(s.env.slot);
      && idle.env.state == Idle
      && idle.env.marks.Fw(next) == COMMITTED && idle.fw.At(next) == Complete(fwId)
      && RollbackFirmware(idle.env, idle.mounted) ==
           Success(idle.env.(order := next, orderOld := s.env.slot, state := RollbackFwPending))
  {
  }

  /** When a combined update falls back, the new application is marked committed although it is
      given up, and it stays mounted until the next boot. */
  lemma CombinedFallbackCommit(s: System)
    requires Inv(s) && s.env.state == IncompleteAppFw && FellBack(s.env)
    ensures var final := Next(s, CommitUpdate);
      && final.env == s.env.(
           marks := s.env.marks.WithFw(s.env.order, BAD).WithApp(s.env.app, COMMITTED),
           state := Idle, order := s.env.orderOld, app := Other(s.env.app), leftA := 3, leftB := 3)
      && (final.mounted == final.env.app <==> s.mounted != s.env.app)
  {
  }

  /** The rollback calls that the documentation prescribes after a failed install are refused:
      the slot they would switch to is the one that was being written. commit_update is the way out. */
  lemma DocumentedRecoveryIsRefused(s: System)
    requires Inv(s)
    ensures s.env.state == FailedFw ==> RollbackFirmware(s.env, s.mounted) == Failure(RollbackToUncommitted)
    ensures s.env.state == FailedApp ==> RollbackApplication(s.env, s.mounted) == Failure(RollbackToUncommitted)
  {
  }

  /** is_reboot_complete for firmware is to tell whether the new slot booted. While an update waits
      it also says so after a fallback, and before the reboot unless both counters are 3. While a
      rollback waits for its reboot it says so exactly if the slot to be abandoned is running, or if
      there is no firmware to go back to. In every other state it always says so. */
  lemma RebootReportExactly(s: System)
    requires Inv(s)
    ensures s.env.state in {IncompleteFw, IncompleteAppFw} ==>
      (FwRebootReported(s.env) <==>
        BootedNew(s.env) || FellBack(s.env) || (NotRebooted(s.env) && s.env.Left(s.env.slot) < 3))
    ensures s.env.state in {RollbackFwPending, RollbackAppFwPending} ==>
      (FwRebootReported(s.env) <==> s.env.order == s.env.orderOld || s.env.marks.Fw(s.env.slot) == UNCOMMITTED)
    ensures s.env.state !in {IncompleteFw, IncompleteAppFw, RollbackFwPending, RollbackAppFwPending} ==>
      FwRebootReported(s.env)
  {
  }

  // ----- Dispatch -----

  datatype Branch =
    | AppPending | FwPendingBranch | AppFwPending | FwFailed | FwRebootFailedBranch | AppFailed | Nothing | Rollback

  predicate Applies(b: Branch, e: Env, mounted: Slot) {
    match b
    case AppPending => PendingApp(e)
    case FwPendingBranch => PendingFw(e)
    case AppFwPending => PendingAppFw(e)
    case FwFailed => FailedFwUpdate(e)
    case FwRebootFailedBranch => FailedRebootFwUpdate(e)
    case AppFailed => FailedAppUpdate(e)
    case Nothing => NoUpdate(e)
    case Rollback => PendingRollback(e, mounted)
  }

  function Confirm(b: Branch, e: Env, mounted: Slot): Result<Env> {
    match b
    case AppPending => ConfirmPendingApp(e, mounted)
    case FwPendingBranch => ConfirmPendingFw(e)
    case AppFwPending => ConfirmPendingAppFw(e)
    case FwFailed => Success(ConfirmFailedFw(e))
    case FwRebootFailedBranch => Success(ConfirmFailedRebootFw(e))
    case AppFailed => Success(ConfirmFailedApp(e))
    case Nothing => Success(e.WithLeft(e.slot, 3))
    case Rollback => ConfirmRollback(e)
  }

  /** The order in which commit_update asks its questions does not matter: in every environment
      at most one condition holds, and whichever holds decides the outcome. */
  lemma DispatchIsOrderIndependent(e: Env, mounted: Slot, b: Branch)
    requires Applies(b, e, mounted)
    ensures Commit(e, mounted) == Confirm(b, e, mounted)
    ensures forall c: Branch :: Applies(c, e, mounted) ==> c == b
  {
  }
}
