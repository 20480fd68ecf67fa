/**
 The public calls seen from outside: what a whole update leaves of a device, and, for every
 environment whatever, what each call stores or which exception it throws, state by state.
 */
module Laws {
  import opened Results
  import opened BootEnv
  import opened Protocol
  import opened Recovery

  // ----- A whole update -----

  /** A call, a reboot, commit_update. */
  ghost function Settle(s: System, ev: Event, n: nat): System {
    Next(Next(Next(s, ev), Reboot(n)), CommitUpdate)
  }

  ghost function Booted(s: System, ev: Event, n: nat): Env {
    Next(Next(s, ev), Reboot(n)).env
  }

  /** A firmware update that boots is committed; one that does not is condemned. Nothing else changes. */
  lemma FirmwareUpdateLaw(s: System, id: int, n: nat)
    requires Inv(s) && s.env.state == Idle && n >= 1
    ensures var next := Other(s.env.slot); var ev := UpdateFirmware(FwInstalled, id);
      var written := s.(mounted := s.env.app, fw := s.fw.With(next, Complete(id)));
      Settle(s, ev, n) ==
        if Booted(s, ev, n).slot == next
        then written.(env := s.env.(marks := s.env.marks.WithFw(next, 0),
                                    order := next, orderOld := next, slot := next, leftA := 3, leftB := 3))
        else written.(env := s.env.(marks := s.env.marks.WithFw(next, 2), leftA := 3, leftB := 3))
  {
    var updated := Next(s, UpdateFirmware(FwInstalled, id));
    AttemptsChoose(updated.env, n);
    hide Attempts;
  }

  /** An application update is committed once it is mounted; nothing else changes but the counters. */
  lemma ApplicationUpdateLaw(s: System, id: int, n: nat)
    requires Inv(s) && s.env.state == Idle && MayBoot(Next(s, UpdateApplication(AppInstalled, id)).env, n)
    ensures var next := Other(s.env.app); var ev := UpdateApplication(AppInstalled, id);
      var booted := Booted(s, ev, n);
      Settle(s, ev, n) == s.(
        env := s.env.(marks := s.env.marks.WithApp(next, 0), app := next, leftA := booted.leftA, leftB := booted.leftB),
        mounted := next, app := s.app.With(next, Complete(id)))
  {
    var updated := Next(s, UpdateApplication(AppInstalled, id));
    HeadBoots(updated.env, n);
    hide Attempts, MayBoot;
  }

  /** Both together: either both are committed, or the firmware is condemned and both are given up. */
  lemma CombinedUpdateLaw(s: System, fwId: int, appId: int, n: nat)
    requires Inv(s) && s.env.state == Idle && n >= 1
    ensures var fw, app := Other(s.env.slot), Other(s.env.app);
      var ev := UpdateBoth(FwInstalled, fwId, AppInstalled, appId);
      var written := s.(mounted := app, fw := s.fw.With(fw, Complete(fwId)), app := s.app.With(app, Complete(appId)));
      Settle(s, ev, n) ==
        if Booted(s, ev, n).slot == fw
        then written.(env := s.env.(marks := s.env.marks.WithFw(fw, 0).WithApp(app, 0), app := app,
                                    order := fw, orderOld := fw, slot := fw, leftA := 3, leftB := 3))
        else written.(env := s.env.(marks := s.env.marks.WithFw(fw, 2).WithApp(app, 0), leftA := 3, leftB := 3))
  {
    var updated := Next(s, UpdateBoth(FwInstalled, fwId, AppInstalled, appId));
    AttemptsChoose(updated.env, n);
    hide Attempts;
  }

  /** A failed update and its commit: the slot that was written is condemned; nothing else changes but
      what RAUC did to the counter of that slot. */
  lemma FailedFirmwareLaw(s: System, ev: Event)
    requires Inv(s) && s.env.state == Idle && (ev.UpdateFirmware? || ev.UpdateBoth?) && ev.fwRun.RaucFailed?
    ensures var next := Other(s.env.slot);
      && Next(s, ev).env.state == FailedFw
      && Next(Next(s, ev), CommitUpdate) ==
           s.(env := s.env.(marks := s.env.marks.WithFw(next, 2)).WithLeft(next, ev.fwRun.left),
              fw := s.fw.With(next, Torn))
  {
  }

  lemma FailedApplicationLaw(s: System, id: int)
    requires Inv(s) && s.env.state == Idle && !Uncommitted(s.env.marks.Fw(Other(s.env.slot)))
    ensures var next := Other(s.env.app); var failed := Next(s, UpdateApplication(AppRejected, id));
      && failed.env.state == FailedApp
      && Next(failed, CommitUpdate) == s.(env := s.env.(marks := s.env.marks.WithApp(next, 2)))
  {
  }

  lemma FailedCombinedLaw(s: System, fwId: int, appId: int)
    requires Inv(s) && s.env.state == Idle
    ensures var fw, app := Other(s.env.slot), Other(s.env.app);
      var failed := Next(s, UpdateBoth(FwInstalled, fwId, AppRejected, appId));
      && failed.env.state == FailedApp
      && Next(failed, CommitUpdate) ==
           s.(env := s.env.(marks := s.env.marks.WithFw(fw, 0).WithApp(app, 2)).WithLeft(fw, 3),
              fw := s.fw.With(fw, Complete(fwId)))
  {
  }

  /** The same for the switch between committed applications: rollback_application, a reboot and the
      commit exchange the selected application, and doing so twice leaves nothing behind. */
  lemma ApplicationSwitch(s: System, n: nat)
    requires Inv(s) && s.env.state == Idle && s.env.marks.App(Other(s.env.app)) == COMMITTED
    requires MayBoot(Next(s, RollbackApp).env, n)
    ensures var next := Other(s.env.app); var booted := Booted(s, RollbackApp, n);
      Settle(s, RollbackApp, n) ==
        s.(env := s.env.(app := next, leftA := booted.leftA, leftB := booted.leftB), mounted := next)
  {
    HeadBoots(Next(s, RollbackApp).env, n);
    hide Attempts, MayBoot;
  }

  // ----- commit_update, state by state -----

  /** The outcome of every environment outside updates and rollbacks. */
  lemma CommitAfterFailure(e: Env, mounted: Slot)
    ensures var r := Commit(e, mounted); var refused := Failure(NotAllowedUpdateState);
      var fw, fwNext := e.marks.Fw(e.slot) % 2 == 1, e.marks.Fw(Other(e.slot)) % 2 == 1;
      var app, appNext := e.marks.App(e.app) % 2 == 1, e.marks.App(Other(e.app)) % 2 == 1;
      && (e.state == Idle ==> r == Success(e.WithLeft(e.slot, 3)))
      && (e.state == FwRebootFailed ==>
            r == if fw && !app then Success(e.(marks := e.marks.WithFw(e.slot, 2), state := Idle)) else refused)
      && (e.state == FailedFw ==>
            r == if fwNext && !appNext
                 then Success(e.(marks := e.marks.WithFw(Other(e.slot), 2), state := Idle)) else refused)
      && (e.state == FailedApp ==>
            r == if !fwNext && appNext
                 then Success(e.(marks := e.marks.WithApp(Other(e.app), 2), state := Idle)) else refused)
  {
  }

  /** Of an update that waits: the slot that runs decides, and the counters tell a fallback from a reboot
      that is still missing. */
  lemma CommitOfFirmware(e: Env, mounted: Slot)
    requires e.state == IncompleteFw
    ensures var r := Commit(e, mounted);
      var here := e.marks.Fw(e.slot) % 2 == 1 && e.marks.App(e.app) % 2 == 0;
      var there := e.marks.Fw(Other(e.slot)) % 2 == 1 && e.marks.App(Other(e.app)) % 2 == 0;
      r == if !here && !there then Failure(NotAllowedUpdateState)
           else if e.order == e.orderOld then Failure(RebootStateNotDefined)
           else if e.slot == e.order then
             Success(e.(marks := e.marks.WithFw(e.order, 0), orderOld := e.order,
                        state := Idle, leftA := 3, leftB := 3))
           else if e.leftA == 0 || e.leftB == 0 then
             Success(e.(marks := e.marks.WithFw(e.order, 2), order := e.orderOld,
                        state := Idle, leftA := 3, leftB := 3))
           else if e.leftA == 3 && e.leftB == 3 then Failure(MissingReboot)
           else Failure(RebootStateNotDefined)
  {
  }

  lemma CommitOfApplication(e: Env, mounted: Slot)
    requires e.state == IncompleteApp
    ensures Commit(e, mounted) ==
      if e.marks.Fw(e.slot) % 2 == 1 || e.marks.App(e.app) % 2 == 0 then Failure(NotAllowedUpdateState)
      else if mounted == e.app then Success(e.(marks := e.marks.WithApp(e.app, 0), state := Idle))
      else Failure(MissingReboot)
  {
  }

  lemma CommitOfBoth(e: Env, mounted: Slot)
    requires e.state == IncompleteAppFw
    ensures var r := Commit(e, mounted);
      var here := e.marks.Fw(e.slot) % 2 == 1 && e.marks.App(e.app) % 2 == 1;
      var there := e.marks.Fw(Other(e.slot)) % 2 == 1 && (e.marks.appA % 2 == 1 || e.marks.appB % 2 == 1);
      r == if !here && !there then Failure(NotAllowedUpdateState)
           else if e.order == e.orderOld then Failure(RebootStateNotDefined)
           else if e.slot == e.order then
             Success(e.(marks := e.marks.WithFw(e.order, 0).WithApp(e.app, 0),
                        orderOld := e.order, state := Idle, leftA := 3, leftB := 3))
           else if e.leftA == 0 || e.leftB == 0 then
             Success(e.(marks := e.marks.WithFw(e.order, 2).WithApp(e.app, 0), app := Other(e.app),
                        order := e.orderOld, state := Idle, leftA := 3, leftB := 3))
           else if e.leftA == 3 && e.leftB == 3 then Failure(MissingReboot)
           else Failure(RebootStateNotDefined)
  {
  }

  /** Of a rollback: the slot that is left is condemned and the former order restored, unless that slot
      is committed, in which case the new order stays. */
  lemma CommitOfFirmwareRollback(e: Env, mounted: Slot)
    requires e.state in {RollbackFwPending, IncompleteFwRollback}
    ensures var r := Commit(e, mounted);
      var fellBack := e.order != e.orderOld && e.slot == e.orderOld && (e.leftA == 0 || e.leftB == 0);
      r == if e.state == RollbackFwPending && !fellBack &&
                (e.marks.Fw(e.slot) % 2 == 0 || e.marks.App(e.app) % 2 == 1)
           then Failure(NotAllowedUpdateState)
           else if e.marks.Fw(Other(e.slot)) == 0
           then Success(e.(orderOld := e.order, state := Idle, leftA := 3, leftB := 3))
           else Success(e.(marks := e.marks.WithFw(Other(e.slot), 2), order := e.orderOld,
                           state := Idle, leftA := 3, leftB := 3))
  {
  }

  lemma CommitOfApplicationRollback(e: Env, mounted: Slot)
    requires e.state in {RollbackAppPending, IncompleteAppRollback}
    ensures Commit(e, mounted) ==
      if e.state == RollbackAppPending && mounted != e.app &&
           (e.marks.Fw(e.slot) % 2 == 1 || e.marks.App(e.app) % 2 == 0)
      then Failure(NotAllowedUpdateState)
      else if e.marks.App(Other(e.app)) == 1
      then Success(e.(marks := e.marks.WithApp(Other(e.app), 2), state := Idle))
      else Success(e.(state := Idle))
  {
  }

  lemma CommitOfBothRollback(e: Env, mounted: Slot)
    requires e.state in {RollbackAppFwPending, IncompleteAppFwRollback}
    ensures var r := Commit(e, mounted);
      var fellBack := e.order != e.orderOld && e.slot == e.orderOld && (e.leftA == 0 || e.leftB == 0);
      var spare := e.marks.Fw(Other(e.slot)) == 0;
      var marks := if spare then e.marks else e.marks.WithFw(Other(e.slot), 2);
      r == if e.state == RollbackAppFwPending && !fellBack &&
                (e.marks.Fw(e.slot) % 2 == 0 || e.marks.App(e.app) % 2 == 0)
           then Failure(NotAllowedUpdateState)
           else Success(e.(
             marks := if e.marks.App(Other(e.app)) == 1 then marks.WithApp(Other(e.app), 2) else marks,
             order := if spare then e.order else e.orderOld, orderOld := if spare then e.order else e.orderOld,
             state := Idle, leftA := 3, leftB := 3))
  {
  }

  /** The answer of commit_update tells whether it has changed anything. */
  lemma CommitReportsChange(e: Env, mounted: Slot)
    requires Commit(e, mounted).Success?
    ensures CommitReports(e) <==> Commit(e, mounted).value != e
  {
    CommitAfterFailure(e, mounted);
  }

  // ----- Whether the mounted application is asked for -----

  /** commit_update asks for the mounted application exactly when its outcome depends on it, and so
      does rollback_firmware. */
  lemma MountIsAskedExactly(e: Env)
    ensures PendingApp(e) || AsksMount(e) <==> Commit(e, A) != Commit(e, B)
    ensures AsksMount(e) <==> RollbackFirmware(e, A) != RollbackFirmware(e, B)
  {
  }

  // ----- The rollback calls, state by state -----

  /** A firmware update waits and can be taken back. */
  predicate FirmwareWaits(e: Env) {
    var fw, fwNext := e.marks.Fw(e.slot) % 2 == 1, e.marks.Fw(Other(e.slot)) % 2 == 1;
    var app, appNext := e.marks.App(e.app) % 2 == 1, e.marks.App(Other(e.app)) % 2 == 1;
    match e.state
    case IncompleteFw => (fw && !app) || (fwNext && !appNext)
    case IncompleteAppFw => (fw && app) || (fwNext && (app || appNext))
    case _ => false
  }

  /** Before its reboot the update is undone, after it the new firmware is not booted any more; with
      used counters neither, and then only a combined update is changed at all. */
  lemma RollbackOfFirmwareUpdate(e: Env, mounted: Slot)
    requires FirmwareWaits(e)
    ensures var both := e.state == IncompleteAppFw;
      var kept :=
        if e.order != e.orderOld && e.slot != e.order && e.leftA == 3 && e.leftB == 3
        then e.(marks := e.marks.WithFw(e.slot, 0), order := e.orderOld, state := Idle)
        else if e.order != e.orderOld && e.slot == e.order
        then e.WithLeft(e.slot, 0).(state := RollbackFwPending)
        else e;
      RollbackFirmware(e, mounted) ==
        Success(if both then kept.(app := Other(e.app), state := RollbackAppFwPending) else kept)
  {
  }

  /** Otherwise it is refused while a rollback has to be committed first, or where there is nothing
      committed to go back to, and else switches to the other firmware. */
  lemma RollbackToOtherFirmware(e: Env, mounted: Slot)
    requires !FirmwareWaits(e)
    ensures var next := e.marks.Fw(Other(e.slot));
      RollbackFirmware(e, mounted) ==
        if CommitFirst(e, mounted) then Failure(CommitRequired)
        else if next in {1, 3} then Failure(RollbackToUncommitted)
        else if next == 2 then Failure(RollbackToBad)
        else Success(e.(order := Other(e.slot), orderOld := e.slot, state := RollbackFwPending))
  {
  }

  /** A rollback that has booted, or whose commit has nothing to wait for. */
  predicate CommitFirst(e: Env, mounted: Slot) {
    var fw, app := e.marks.Fw(e.slot) % 2 == 1, e.marks.App(e.app) % 2 == 1;
    var fellBack := e.order != e.orderOld && e.slot == e.orderOld && (e.leftA == 0 || e.leftB == 0);
    match e.state
    case IncompleteFwRollback | IncompleteAppRollback | IncompleteAppFwRollback => true
    case RollbackFwPending => (fw && !app) || fellBack
    case RollbackAppPending => (!fw && app) || mounted == e.app
    case RollbackAppFwPending => (fw && app) || fellBack
    case _ => false
  }

  /** The same predicates decide about the commit. */
  lemma FirmwareWaitsExactly(e: Env, mounted: Slot)
    requires e.state in {IncompleteFw, IncompleteAppFw}
    ensures FirmwareWaits(e) <==> Commit(e, mounted) != Failure(NotAllowedUpdateState)
  {
  }

  lemma CommitFirstExactly(e: Env, mounted: Slot)
    requires RebootPending(e) || RollbackBooted(e)
    ensures CommitFirst(e, mounted) <==> Commit(e, mounted).Success?
  {
  }

  lemma RollbackOfApplication(e: Env, mounted: Slot)
    ensures var fw, app := e.marks.Fw(e.slot) % 2 == 1, e.marks.App(e.app) % 2 == 1;
      var next := e.marks.App(Other(e.app));
      RollbackApplication(e, mounted) ==
        if e.state == IncompleteApp && !fw && app && mounted == e.app
        then Success(e.(app := Other(e.app), state := RollbackAppPending))
        else if e.state == IncompleteApp && !fw && app
        then Success(e.(app := Other(e.app), marks := e.marks.WithApp(e.app, 0), state := Idle))
        else if e.state == IncompleteAppFw && FirmwareWaits(e) then Success(e)
        else if CommitFirst(e, mounted) then Failure(CommitRequired)
        else if next in {1, 3} then Failure(RollbackToUncommitted)
        else if next == 2 then Failure(RollbackToBad)
        else Success(e.(app := Other(e.app), state := RollbackAppPending))
  {
  }

  // ----- The installs, outcome by outcome -----

  lemma FirmwareInstallLeaves(e: Env, left: Tries)
    ensures var next := Other(e.slot);
      var marked := e.(marks := e.marks.WithFw(next, 1));
      && (e.state != Idle ==> forall run :: UpdateFw(e, run) == e)
      && (e.state == Idle ==>
            && UpdateFw(e, FwInstalled) == marked.(order := next, state := IncompleteFw).WithLeft(next, 3)
            && UpdateFw(e, SyncFailed) == marked.(order := next, state := FailedFw).WithLeft(next, 3)
            && UpdateFw(e, RaucFailed(left)) == marked.(order := e.orderOld, state := FailedFw).WithLeft(next, left))
  {
  }

  lemma ApplicationInstallLeaves(e: Env)
    ensures var next := Other(e.app);
      var marked := e.(marks := e.marks.WithApp(next, 1));
      && (e.state != Idle ==> forall run :: UpdateApp(e, run) == e)
      && (e.state == Idle ==>
            && UpdateApp(e, AppInstalled) == marked.(app := next, state := IncompleteApp)
            && UpdateApp(e, AppRejected) == marked.(state := FailedApp)
            && UpdateApp(e, AppNotStored) == marked.(app := next, state := FailedApp))
  {
  }

  /** A failed firmware part ends like a failed firmware update; behind an installed one, a failed
      application part gives the order back and clears the mark of the firmware. */
  lemma CombinedInstallLeaves(e: Env, fw: FwRun, app: AppRun)
    ensures var fwNext, appNext := Other(e.slot), Other(e.app);
      var installed := e.(marks := e.marks.WithFw(fwNext, 1).WithApp(appNext, 1), order := fwNext).WithLeft(fwNext, 3);
      var taken := e.(marks := e.marks.WithFw(fwNext, 0).WithApp(appNext, 1), order := e.orderOld, state := FailedApp);
      && (e.state != Idle ==> UpdateAppFw(e, fw, app) == e)
      && (e.state == Idle && !fw.FwInstalled? ==> UpdateAppFw(e, fw, app) == UpdateFw(e, fw))
      && (e.state == Idle && fw.FwInstalled? ==>
            UpdateAppFw(e, fw, app) ==
              match app
              case AppInstalled => installed.(app := appNext, state := IncompleteAppFw)
              case AppRejected => taken.WithLeft(fwNext, 3)
              case AppNotStored => taken.(app := appNext).WithLeft(fwNext, 3))
  {
  }

  // ----- The remaining calls -----

  /** A mark is made bad unless it says so already; nothing else changes. */
  lemma MarkedBad(e: Env, s: Slot)
    ensures var r := SetBad(e, FirmwarePart, s); var mark := e.marks.Fw(s);
      r == if mark == 2 || mark == 3 then e else e.(marks := e.marks.WithFw(s, 2))
    ensures var r := SetBad(e, ApplicationPart, s); var mark := e.marks.App(s);
      r == if mark == 2 || mark == 3 then e else e.(marks := e.marks.WithApp(s, 2))
  {
  }

  /** is_reboot_complete for firmware, over every environment: in the states of a rollback the head of
      the order has to run, in every other state only an untouched new head is waited for. */
  lemma RebootReport(e: Env)
    ensures FwRebootReported(e) ==
      if e.state == RollbackFwPending || e.state == RollbackAppFwPending then e.slot == e.order
      else e.slot == e.order || e.order == e.orderOld || e.leftA < 3 || e.leftB < 3
  {
  }

  /** is_reboot_complete for applications says whether the device has booted since the selection changed. */
  lemma ApplicationReport(s: System, ev: Event)
    requires s.mounted == s.env.app && !ev.Reboot?
    ensures AppRebooted(Next(s, ev).env, Next(s, ev).mounted) <==> Next(s, ev).env.app == s.env.app
    ensures forall n :: AppRebooted(Next(Next(s, ev), Reboot(n)).env, Next(Next(s, ev), Reboot(n)).mounted)
  {
    hide Attempts, Commit, RollbackFirmware, RollbackApplication, UpdateFw, UpdateApp, UpdateAppFw, SetBad;
  }

  /** With no tries left both counters are refilled, and the head boots with one of them taken. */
  lemma BootsRefill(e: Env)
    requires e.leftA == 0 && e.leftB == 0
    ensures var r := Attempts(e, 1);
      SameButBoot(e, r) && r.slot == e.order && r.Left(e.order) == 2 && r.Left(Other(e.order)) == 3
  {
    OneAttempt(e);
  }
}
