/**
 The instants of a single install: every system state a power cut can leave behind, in the
 order in which the environment and the slots are written.
 */
module Install {
  import opened Results
  import opened BootEnv
  import opened Protocol
  import opened Recovery

  /** What RAUC does on the way: the counter it leaves on the target while it writes, and whether
      it had already activated the target when it reported an error. */
  datatype RaucNoise = RaucNoise(leftDuring: Tries, activated: bool)

  /** Marked, being written, and then either activated, or an error: recovered and recorded. */
  function FwInstants(s: System, run: FwRun, id: int, noise: RaucNoise): (r: seq<System>)
    ensures |r| >= 3
  {
    var target := Other(s.env.slot);
    var marked := s.(env := MarkFw(s.env));
    var writing := marked.(fw := s.fw.With(target, Torn), env := marked.env.WithLeft(target, noise.leftDuring));
    var written := writing.(fw := s.fw.With(target, Complete(id)));
    match run
    case FwInstalled => [marked, writing, written, written.(env := InstallFw(marked.env, run))]
    case SyncFailed =>
      var active := written.(env := InstallFw(marked.env, run));
      [marked, writing, written, active, active.(env := active.env.(state := FailedFw))]
    case RaucFailed(left) =>
      var ended := if noise.activated then
          written.(env := marked.env.(order := target).WithLeft(target, left))
        else writing.(env := marked.env.WithLeft(target, left));
      var recovered := ended.(env := ended.env.(order := ended.env.orderOld));
      [marked, writing, ended, recovered, recovered.(env := recovered.env.(state := FailedFw))]
  }

  /** The application file is copied beside the slots and renamed when it is complete. */
  function AppInstants(marked: System, run: AppRun, id: int, failed: Env): (r: seq<System>)
    ensures |r| >= 2
  {
    match run
    case AppInstalled =>
      var renamed := marked.(app := marked.app.With(Other(marked.env.app), Complete(id)));
      [marked, renamed, renamed.(env := renamed.env.(app := Other(renamed.env.app)))]
    case AppRejected => [marked, marked.(env := failed)]
    case AppNotStored =>
      var renamed := marked.(app := marked.app.With(Other(marked.env.app), Complete(id)));
      [marked, renamed, renamed.(env := failed.(app := Other(failed.app)))]
  }

  function Instants(s: System, ev: Event, noise: RaucNoise): (r: seq<System>)
    requires ev.UpdateFirmware? || ev.UpdateApplication? || ev.UpdateBoth?
    ensures |r| >= 2
  {
    match ev
    case UpdateFirmware(run, id) => FwInstants(s, run, id, noise)
    case UpdateApplication(run, id) =>
      var marked := MarkApp(s.env);
      AppInstants(s.(env := marked), run, id, marked.(state := FailedApp))
    case UpdateBoth(fwRun, fwId, appRun, appId) =>
      var fw := FwInstants(s, fwRun, fwId, noise);
      if !fwRun.FwInstalled? then fw
      else
        var last := fw[|fw| - 1];
        var marked := MarkApp(last.env).(state := IncompleteAppFw);
        fw + AppInstants(last.(env := marked), appRun, appId,
               marked.(marks := marked.marks.WithFw(Other(s.env.slot), COMMITTED),
                       order := s.env.orderOld, state := FailedApp))
  }

  /** The last instant is the environment that the call leaves, and the whole device that the event
      leaves, unless RAUC reports an error after it had already finished the slot. */
  lemma InstantsEnd(s: System, ev: Event, noise: RaucNoise)
    requires ev.UpdateFirmware? || ev.UpdateApplication? || ev.UpdateBoth?
    requires s.env.state == Idle
    ensures var t := Instants(s, ev, noise); var last := t[|t| - 1];
      && last.env == Next(s, ev).env
      && (last == Next(s, ev) <==> ev.UpdateApplication? || !ev.fwRun.RaucFailed? || !noise.activated)
  {
  }

  /** The instants of an install that succeeds: mark and state first, then the slot, and only then what
      leads to it. */
  lemma InstantsOfSuccess(s: System, id: int, noise: RaucNoise)
    ensures var next := Other(s.env.slot);
      var marked := s.(env := s.env.(marks := s.env.marks.WithFw(next, 1), state := IncompleteFw));
      var writing := marked.(env := marked.env.WithLeft(next, noise.leftDuring));
      Instants(s, UpdateFirmware(FwInstalled, id), noise) ==
        [marked, writing.(fw := s.fw.With(next, Torn)), writing.(fw := s.fw.With(next, Complete(id))),
         marked.(fw := s.fw.With(next, Complete(id)), env := marked.env.(order := next).WithLeft(next, 3))]
    ensures var next := Other(s.env.app);
      var marked := s.(env := s.env.(marks := s.env.marks.WithApp(next, 1), state := IncompleteApp));
      var renamed := marked.(app := s.app.With(next, Complete(id)));
      Instants(s, UpdateApplication(AppInstalled, id), noise) ==
        [marked, renamed, renamed.(env := marked.env.(app := next))]
  {
  }

  /** In a combined install all instants of the firmware come first, and then those of the application. */
  lemma InstantsOfBoth(s: System, fwId: int, appRun: AppRun, appId: int, noise: RaucNoise)
    ensures var fw := Instants(s, UpdateFirmware(FwInstalled, fwId), noise);
      var both := Instants(s, UpdateBoth(FwInstalled, fwId, appRun, appId), noise);
      && fw <= both && |both| == 4 + (if appRun == AppRejected then 2 else 3)
      && both[4] == fw[3].(env := fw[3].env.(
           marks := fw[3].env.marks.WithApp(Other(s.env.app), 1), state := IncompleteAppFw))
  {
  }

  /** The running firmware and the selected application are still there, committed and untouched. */
  predicate FallbackSurvives(s: System, t: System) {
    && t.env.slot == s.env.slot
    && t.env.marks.Fw(s.env.slot) == COMMITTED && t.fw.At(s.env.slot) == s.fw.At(s.env.slot)
    && t.env.marks.App(s.env.app) == COMMITTED && t.app.At(s.env.app) == s.app.At(s.env.app)
  }

  /** A slot whose content has changed is the spare one and the environment is not idle; while it
      is incomplete it is marked uncommitted, and the boot order does not lead to it. */
  predicate WrittenAhead(s: System, t: System) {
    && t.env.state != Idle
    && (forall x: Slot :: t.fw.At(x) != s.fw.At(x) ==> x == Other(s.env.slot))
    && (forall x: Slot :: t.app.At(x) != s.app.At(x) ==>
          x == Other(s.env.app) && t.env.marks.App(x) == UNCOMMITTED)
    && (t.fw.At(Other(s.env.slot)) == Torn ==>
          t.env.marks.Fw(Other(s.env.slot)) != COMMITTED && t.env.order == s.env.slot)
    && (t.fw.At(Other(s.env.slot)) == Torn && s.fw.At(Other(s.env.slot)) != Torn ==>
          t.env.marks.Fw(Other(s.env.slot)) == UNCOMMITTED)
    && t.app.a != Torn && t.app.b != Torn
  }

  /** "application" changes only to a slot that already holds the whole new image. */
  predicate AppAfterFile(s: System, t: System, ev: Event) {
    t.env.app != s.env.app ==>
      (ev.UpdateApplication? || ev.UpdateBoth?) && t.app.At(t.env.app) == Complete(ev.appId)
  }

  lemma FirmwareInstantIsSafe(s: System, run: FwRun, id: int, noise: RaucNoise, k: nat)
    requires Inv(s) && s.env.state == Idle && k < |FwInstants(s, run, id, noise)|
    ensures var t := FwInstants(s, run, id, noise)[k];
      FallbackSurvives(s, t) && WrittenAhead(s, t) && t.env.app == s.env.app
  {
  }

  lemma ApplicationInstantIsSafe(s: System, run: AppRun, id: int, k: nat, noise: RaucNoise)
    requires Inv(s) && s.env.state == Idle
    requires k < |Instants(s, UpdateApplication(run, id), noise)|
    ensures var t := Instants(s, UpdateApplication(run, id), noise)[k];
      FallbackSurvives(s, t) && WrittenAhead(s, t) && AppAfterFile(s, t, UpdateApplication(run, id))
  {
  }

  /** Write-ahead marking and a surviving fallback at every instant of an install from idle. */
  lemma EveryInstantIsSafe(s: System, ev: Event, noise: RaucNoise, k: nat)
    requires ev.UpdateFirmware? || ev.UpdateApplication? || ev.UpdateBoth?
    requires Inv(s) && s.env.state == Idle
    requires k < |Instants(s, ev, noise)|
    ensures var t := Instants(s, ev, noise)[k];
      FallbackSurvives(s, t) && WrittenAhead(s, t) && AppAfterFile(s, t, ev)
  {
    match ev
    case UpdateFirmware(run, id) => FirmwareInstantIsSafe(s, run, id, noise, k);
    case UpdateApplication(run, id) => ApplicationInstantIsSafe(s, run, id, k, noise);
    case UpdateBoth(fwRun, fwId, appRun, appId) =>
      var fw := FwInstants(s, fwRun, fwId, noise);
      if k < |fw| {
        FirmwareInstantIsSafe(s, fwRun, fwId, noise, k);
      }
  }

  /** The only instant at which a changed firmware slot does not carry the uncommitted mark is the
      last one of a combined update whose application part failed. */
  lemma ChangedFirmwareIsMarkedExactly(s: System, ev: Event, noise: RaucNoise, k: nat)
    requires ev.UpdateFirmware? || ev.UpdateApplication? || ev.UpdateBoth?
    requires Inv(s) && s.env.state == Idle
    requires k < |Instants(s, ev, noise)|
    ensures var t := Instants(s, ev, noise)[k]; var spare := Other(s.env.slot);
      t.fw.At(spare) != s.fw.At(spare) ==>
        (t.env.marks.Fw(spare) != UNCOMMITTED <==>
          ev.UpdateBoth? && ev.fwRun.FwInstalled? && !ev.appRun.AppInstalled? && k == |Instants(s, ev, noise)| - 1)
  {
  }

  /** The environment has been marked for an install that has not taken effect. */
  predicate OnlyMarked(s: System, t: System) {
    (t.env.state == IncompleteFw && t.env.order == t.env.orderOld) ||
    (t.env.state == IncompleteApp && t.env.app == s.env.app)
  }

  /** A cut that commit_update does not accept while a certain slot runs. */
  predicate CutIsStuck(s: System, t: System, booted: Slot) {
    // the install was only announced
    || OnlyMarked(s, t)
    // of a combined update only the firmware is in place, and it boots
    || (t.env.state == IncompleteAppFw && t.env.app == s.env.app && booted != s.env.slot)
    // the firmware failed, but runs all the same
    || (t.env.state == FailedFw && booted != s.env.slot)
    // the failure record has selected the new application
    || (t.env.state == FailedApp && t.env.app != s.env.app)
    // the record of the application is hidden by an uncommitted firmware mark
    || (t.env.state == IncompleteApp && Uncommitted(t.env.marks.Fw(booted)))
    || (t.env.state == FailedApp && Uncommitted(t.env.marks.Fw(Other(booted))))
  }

  /** What one or more boot attempts make of the environment at an instant. */
  predicate IsBoot(e: Env, c: Env) {
    SameButBoot(e, c) && (c.slot == c.order || c.Left(c.order) == 0)
  }

  lemma CutFirmwareExactly(s: System, run: FwRun, id: int, noise: RaucNoise, k: nat, c: Env)
    requires Inv(s) && s.env.state == Idle && k < |FwInstants(s, run, id, noise)|
    requires IsBoot(FwInstants(s, run, id, noise)[k].env, c)
    ensures Commit(c, c.app).Failure? <==> CutIsStuck(s, FwInstants(s, run, id, noise)[k], c.slot)
  {
  }

  lemma CutApplicationExactly(s: System, run: AppRun, id: int, noise: RaucNoise, k: nat, c: Env)
    requires Inv(s) && s.env.state == Idle && k < |Instants(s, UpdateApplication(run, id), noise)|
    requires IsBoot(Instants(s, UpdateApplication(run, id), noise)[k].env, c)
    ensures Commit(c, c.app).Failure? <==> CutIsStuck(s, Instants(s, UpdateApplication(run, id), noise)[k], c.slot)
  {
  }

  lemma CutBothExactly(s: System, fwId: int, app: AppRun, appId: int, noise: RaucNoise, k: nat, c: Env)
    requires Inv(s) && s.env.state == Idle
    requires 4 <= k < |Instants(s, UpdateBoth(FwInstalled, fwId, app, appId), noise)|
    requires IsBoot(Instants(s, UpdateBoth(FwInstalled, fwId, app, appId), noise)[k].env, c)
    ensures Commit(c, c.app).Failure?
      <==> CutIsStuck(s, Instants(s, UpdateBoth(FwInstalled, fwId, app, appId), noise)[k], c.slot)
  {
  }

  /** A power cut inside an install and any number of boot attempts: commit_update refuses exactly
      the cuts above. */
  lemma CutInstallExactly(s: System, ev: Event, noise: RaucNoise, k: nat, n: nat)
    requires ev.UpdateFirmware? || ev.UpdateApplication? || ev.UpdateBoth?
    requires Inv(s) && s.env.state == Idle && k < |Instants(s, ev, noise)| && n >= 1
    ensures var t := Instants(s, ev, noise)[k];
      var cut := Next(t, Reboot(n));
      Commit(cut.env, cut.mounted).Failure? <==> CutIsStuck(s, t, cut.env.slot)
  {
    var t := Instants(s, ev, noise)[k];
    var c := Attempts(t.env, n);
    CutOrder(s, ev, noise, k);
    hide Attempts, Commit, Select, Inv, CutIsStuck;
    AttemptsOnlyBoot(t.env, n);
    AttemptsChoose(t.env, n);
    match ev
    case UpdateFirmware(run, id) => CutFirmwareExactly(s, run, id, noise, k, c);
    case UpdateApplication(run, id) => CutApplicationExactly(s, run, id, noise, k, c);
    case UpdateBoth(fwRun, fwId, appRun, appId) =>
      if k < |FwInstants(s, fwRun, fwId, noise)| {
        CutFirmwareExactly(s, fwRun, fwId, noise, k, c);
      } else {
        CutBothExactly(s, fwId, appRun, appId, noise, k, c);
      }
  }

  // ----- Which refusals last -----

  /** The cuts that are refused whichever slot runs. */
  predicate CutIsFinal(s: System, t: System) {
    OnlyMarked(s, t) || (t.env.state == FailedApp && t.env.app != s.env.app)
  }

  predicate RefusedAfter(t: System, n: nat) {
    var cut := Next(t, Reboot(n));
    Commit(cut.env, cut.mounted).Failure?
  }

  lemma {:induction false} AttemptsAdd(e: Env, m: nat, n: nat)
    ensures Attempts(e, m + n) == Attempts(Attempts(e, m), n)
  {
    hide Select;
    if n > 0 {
      AttemptsAdd(e, m, n - 1);
    }
  }

  /** Booted often enough without a commit, a device comes to run the slot that does not head the order. */
  lemma OtherSlotBoots(e: Env) returns (n: nat)
    ensures n >= 1 && Attempts(e, n).slot == Other(e.order)
  {
    var head := e.order;
    var m: nat := e.Left(head);
    if e.Left(Other(head)) >= 1 {
      n := m + 1;
      BootsDrain(e, n);
    } else {
      BootsDrain(e, m);
      var refilled := Attempts(e, m + 1);
      assert refilled == Select(Attempts(e, m));
      BootsDrain(refilled, 3);
      AttemptsAdd(e, m + 1, 3);
      n := m + 1 + 3;
    }
  }

  /** The head of the order boots at once while it has a try. */
  lemma HeadBootsFirst(e: Env)
    requires e.Left(e.order) >= 1
    ensures Attempts(e, 1).slot == e.order
  {
    OneAttempt(e);
  }

  /** What does not change during an install. */
  predicate CutFrame(s: System, t: System) {
    && t.env.marks.Fw(s.env.slot) == COMMITTED && t.env.Left(s.env.slot) >= 1 && !RebootPending(t.env)
    && (t.env.state in {IncompleteApp, FailedApp} ==> t.env.order == s.env.slot)
  }

  lemma FirmwareCutFrame(s: System, run: FwRun, id: int, noise: RaucNoise, k: nat)
    requires Inv(s) && s.env.state == Idle && k < |FwInstants(s, run, id, noise)|
    ensures CutFrame(s, FwInstants(s, run, id, noise)[k])
  {
  }

  lemma CutKeepsFrame(s: System, ev: Event, noise: RaucNoise, k: nat)
    requires ev.UpdateFirmware? || ev.UpdateApplication? || ev.UpdateBoth?
    requires Inv(s) && s.env.state == Idle && k < |Instants(s, ev, noise)|
    ensures CutFrame(s, Instants(s, ev, noise)[k])
  {
    match ev
    case UpdateFirmware(run, id) => FirmwareCutFrame(s, run, id, noise, k);
    case UpdateApplication(run, id) =>
    case UpdateBoth(fwRun, fwId, appRun, appId) =>
      if k < |FwInstants(s, fwRun, fwId, noise)| {
        FirmwareCutFrame(s, fwRun, fwId, noise, k);
      }
  }

  /** Commit is refused after every number of boot attempts exactly for the final cuts; every other
      refusal ends as soon as the right slot boots. */
  lemma CutIsFinalExactly(s: System, ev: Event, noise: RaucNoise, k: nat)
    requires ev.UpdateFirmware? || ev.UpdateApplication? || ev.UpdateBoth?
    requires Inv(s) && s.env.state == Idle && k < |Instants(s, ev, noise)|
    ensures var t := Instants(s, ev, noise)[k];
      (forall n: nat :: n >= 1 ==> RefusedAfter(t, n)) <==> CutIsFinal(s, t)
  {
    var t := Instants(s, ev, noise)[k];
    CutKeepsFrame(s, ev, noise, k);
    hide Attempts, Commit, Select, Instants, FwInstants, AppInstants, Next, Inv;
    if CutIsFinal(s, t) {
      forall n: nat | n >= 1 ensures RefusedAfter(t, n) {
        CutInstallExactly(s, ev, noise, k, n);
      }
    } else {
      var n := AcceptingBoot(s, t);
      CutInstallExactly(s, ev, noise, k, n);
      assert !RefusedAfter(t, n);
    }
  }

  lemma AcceptingBoot(s: System, t: System) returns (n: nat)
    requires CutFrame(s, t) && !CutIsFinal(s, t)
    ensures n >= 1 && !CutIsStuck(s, t, Next(t, Reboot(n)).env.slot)
  {
    hide Attempts, Select;
    if t.env.order == s.env.slot && !CutIsStuck(s, t, s.env.slot) {
      HeadBootsFirst(t.env);
      n := 1;
    } else {
      n := OtherSlotBoots(t.env);
    }
  }

  /** The call, a boot, and commit_update. */
  ghost function AfterRollback(t: System, call: Event): System {
    Next(Next(Next(Next(t, Reboot(1)), call), Reboot(1)), CommitUpdate)
  }

  /** What is known of the environment at a final cut. */
  predicate FinalShape(e: Env) {
    && e.order == e.orderOld == e.slot && e.marks.Fw(e.slot) == COMMITTED && e.Left(e.slot) >= 1
    && (match e.state
        case IncompleteFw =>
          e.marks.Fw(Other(e.slot)) == UNCOMMITTED && e.marks.App(e.app) == COMMITTED &&
          !Uncommitted(e.marks.App(Other(e.app)))
        case IncompleteApp => e.marks.App(e.app) == COMMITTED && e.marks.App(Other(e.app)) == UNCOMMITTED
        case FailedApp => e.marks.App(e.app) == UNCOMMITTED && e.marks.App(Other(e.app)) == COMMITTED
        case _ => false)
    && (e.state != IncompleteFw && e.marks.Fw(Other(e.slot)) == COMMITTED ==> e.Left(Other(e.slot)) >= 1)
    && e.marks.Valid()
  }

  lemma FirmwareFinalShape(s: System, run: FwRun, id: int, noise: RaucNoise, k: nat)
    requires Inv(s) && s.env.state == Idle && k < |FwInstants(s, run, id, noise)|
    requires CutIsFinal(s, FwInstants(s, run, id, noise)[k])
    ensures var t := FwInstants(s, run, id, noise)[k];
      FinalShape(t.env) && t.env.slot == s.env.slot
  {
  }

  lemma FinalCutShape(s: System, ev: Event, noise: RaucNoise, k: nat)
    requires ev.UpdateFirmware? || ev.UpdateApplication? || ev.UpdateBoth?
    requires Inv(s) && s.env.state == Idle && k < |Instants(s, ev, noise)|
    requires CutIsFinal(s, Instants(s, ev, noise)[k])
    ensures FinalShape(Instants(s, ev, noise)[k].env)
  {
    match ev
    case UpdateFirmware(run, id) => FirmwareFinalShape(s, run, id, noise, k);
    case UpdateApplication(run, id) =>
    case UpdateBoth(fwRun, fwId, appRun, appId) =>
      if k < |FwInstants(s, fwRun, fwId, noise)| {
        FirmwareFinalShape(s, fwRun, fwId, noise, k);
      }
  }

  lemma BootOfFinalShape(t: System)
    requires FinalShape(t.env)
    ensures Next(t, Reboot(1)) ==
      t.(env := t.env.WithLeft(t.env.slot, t.env.Left(t.env.slot) - 1), mounted := t.env.app)
  {
    OneBoot(t);
    hide Attempts;
  }

  /** A final cut is left for idle by rollback_firmware or by rollback_application exactly as follows;
      where the failure record has selected the new application, rollback_application is a full recovery
      unless the two boots of it change the running slot. */
  lemma FinalCutIsLeftExactly(s: System, ev: Event, noise: RaucNoise, k: nat)
    requires ev.UpdateFirmware? || ev.UpdateApplication? || ev.UpdateBoth?
    requires Inv(s) && s.env.state == Idle && k < |Instants(s, ev, noise)|
    requires CutIsFinal(s, Instants(s, ev, noise)[k])
    ensures var t := Instants(s, ev, noise)[k];
      && (AfterRollback(t, RollbackFw).env.state == Idle <==>
            t.env.state != IncompleteFw && t.env.marks.Fw(Other(t.env.slot)) == COMMITTED)
      && (AfterRollback(t, RollbackApp).env.state == Idle <==>
            t.env.state != IncompleteApp && t.env.marks.App(Other(t.env.app)) == COMMITTED)
      && (t.env.state == FailedApp ==>
            (Resting(AfterRollback(t, RollbackApp).env) <==>
              t.env.Left(t.env.slot) >= 2 || t.env.Left(Other(t.env.slot)) == 0))
  {
    var t := Instants(s, ev, noise)[k];
    FinalCutShape(s, ev, noise, k);
    hide *;
    FirmwareRollbackLeaves(t);
    ApplicationRollbackLeaves(t);
  }

  /** The device after the first boot. */
  ghost function FirstBoot(t: System): System
    requires FinalShape(t.env)
  {
    t.(env := t.env.WithLeft(t.env.slot, t.env.Left(t.env.slot) - 1), mounted := t.env.app)
  }

  lemma AfterSecondBoot(t: System, call: Event)
    requires FinalShape(t.env)
    ensures var c := Overlay(Select(Next(FirstBoot(t), call).env));
      AfterRollback(t, call).env == Kept(c, Commit(c, c.app))
  {
    hide Attempts, Select, FinalShape, Commit, Next, Overlay, Kept;
    BootOfFinalShape(t);
    var rolled := Next(FirstBoot(t), call);
    OneBoot(rolled);
    OverlayKeepsApp(Select(rolled.env));
    CommitIs(Next(rolled, Reboot(1)));
  }

  lemma OverlayKeepsApp(e: Env)
    ensures Overlay(e).app == e.app
  {
  }

  lemma CommitIs(s: System)
    ensures Next(s, CommitUpdate).env == Kept(s.env, Commit(s.env, s.mounted))
  {
    hide Commit;
  }

  lemma FirmwareRollbackOfCut(t: System)
    requires FinalShape(t.env)
    ensures var b := FirstBoot(t);
      Next(b, RollbackFw).env ==
        if t.env.state != IncompleteFw && t.env.marks.Fw(Other(t.env.slot)) == COMMITTED
        then b.env.(order := Other(b.env.slot), orderOld := b.env.slot, state := RollbackFwPending)
        else b.env
  {
  }

  lemma ApplicationRollbackOfCut(t: System)
    requires FinalShape(t.env)
    ensures var b := FirstBoot(t);
      Next(b, RollbackApp).env ==
        if t.env.state != IncompleteApp && t.env.marks.App(Other(t.env.app)) == COMMITTED
        then b.env.(app := Other(b.env.app), state := RollbackAppPending)
        else b.env
  {
  }

  /** Without the call the commit stays refused, whichever slot boots. */
  lemma CutStaysRefused(e: Env, c: Env)
    requires FinalShape(e) && SameButBoot(e, c)
    ensures Commit(c, c.app).Failure?
  {
  }

  lemma SelectOnlyBoots(e: Env)
    ensures SameButBoot(e, Select(e))
  {
  }

  lemma RollbackCommits(c: Env)
    requires c.state in {IncompleteFwRollback, IncompleteAppRollback}
    ensures Commit(c, c.app).Success? && Commit(c, c.app).value.state == Idle
  {
  }

  lemma FirmwareRollbackLeaves(t: System)
    requires FinalShape(t.env)
    ensures AfterRollback(t, RollbackFw).env.state == Idle <==>
      t.env.state != IncompleteFw && t.env.marks.Fw(Other(t.env.slot)) == COMMITTED
  {
    FirmwareRollbackOfCut(t);
    AfterSecondBoot(t, RollbackFw);
    hide AfterRollback, Attempts, Select, Commit, Next;
    var rolled := Next(FirstBoot(t), RollbackFw).env;
    SelectOnlyBoots(rolled);
    if rolled.state == RollbackFwPending {
      RollbackCommits(Overlay(Select(rolled)));
    } else {
      CutStaysRefused(t.env, Overlay(Select(rolled)));
    }
  }

  lemma ApplicationRollbackLeaves(t: System)
    requires FinalShape(t.env)
    ensures AfterRollback(t, RollbackApp).env.state == Idle <==>
      t.env.state != IncompleteApp && t.env.marks.App(Other(t.env.app)) == COMMITTED
    ensures t.env.state == FailedApp ==>
      (Resting(AfterRollback(t, RollbackApp).env) <==>
        t.env.Left(t.env.slot) >= 2 || t.env.Left(Other(t.env.slot)) == 0)
  {
    ApplicationRollbackOfCut(t);
    AfterSecondBoot(t, RollbackApp);
    hide AfterRollback, Attempts, Select, Commit, Next;
    var rolled := Next(FirstBoot(t), RollbackApp).env;
    SelectOnlyBoots(rolled);
    if rolled.state == RollbackAppPending {
      RollbackCommits(Overlay(Select(rolled)));
      if t.env.state == FailedApp {
        RecordLeft(rolled, Overlay(Select(rolled)));
        SlotAfterBoot(rolled);
      }
    } else {
      CutStaysRefused(t.env, Overlay(Select(rolled)));
    }
  }

  lemma SlotAfterBoot(e: Env)
    ensures Select(e).slot == e.order <==> e.Left(e.order) >= 1 || e.Left(Other(e.order)) == 0
  {
  }

  /** The commit that leaves the failure record rests exactly on the slot that heads the order. */
  lemma RecordLeft(e: Env, c: Env)
    requires e.state == RollbackAppPending && e.order == e.orderOld && e.marks.Fw(e.order) == COMMITTED
    requires e.marks.App(e.app) == COMMITTED && e.marks.App(Other(e.app)) == UNCOMMITTED && e.marks.Valid()
    requires SameButBoot(Overlay(e), c)
    ensures Commit(c, c.app).Success? && (Resting(Commit(c, c.app).value) <==> c.slot == e.order)
  {
  }

  /** Where no switch is under way, the committed firmware is the one that boots. */
  predicate BootsCommitted(e: Env) {
    && (e.order == e.orderOld ==> e.marks.Fw(e.order) == COMMITTED && e.Left(e.order) >= 1)
    && !RebootPending(e)
  }

  lemma FirmwareCutOrder(s: System, run: FwRun, id: int, noise: RaucNoise, k: nat)
    requires Inv(s) && s.env.state == Idle && k < |FwInstants(s, run, id, noise)|
    ensures BootsCommitted(FwInstants(s, run, id, noise)[k].env)
  {
  }

  lemma CutOrder(s: System, ev: Event, noise: RaucNoise, k: nat)
    requires ev.UpdateFirmware? || ev.UpdateApplication? || ev.UpdateBoth?
    requires Inv(s) && s.env.state == Idle && k < |Instants(s, ev, noise)|
    ensures BootsCommitted(Instants(s, ev, noise)[k].env)
  {
    match ev
    case UpdateFirmware(run, id) => FirmwareCutOrder(s, run, id, noise, k);
    case UpdateApplication(run, id) =>
    case UpdateBoth(fwRun, fwId, appRun, appId) =>
      if k < |FwInstants(s, fwRun, fwId, noise)| {
        FirmwareCutOrder(s, fwRun, fwId, noise, k);
      }
  }
}
