/**
 Whole runs of a device: public calls of the library, and reboots made of one or more boot
 attempts. The invariant below is inductive over every allowed event.
 */
module Protocol {
  import opened Results
  import opened BootEnv

  /** What a slot holds: a complete image, or the remains of an interrupted write. */
  datatype Image = Complete(id: int) | Torn

  datatype Images = Images(a: Image, b: Image) {
    function At(s: Slot): Image {
      if s == A then a else b
    }
    function With(s: Slot, i: Image): Images {
      if s == A then this.(a := i) else this.(b := i)
    }
  }

  datatype System = System(env: Env, mounted: Slot, fw: Images, app: Images)

  datatype Event =
    | UpdateFirmware(fwRun: FwRun, fwId: int)
    | UpdateApplication(appRun: AppRun, appId: int)
    | UpdateBoth(fwRun: FwRun, fwId: int, appRun: AppRun, appId: int)
    | CommitUpdate
    | RollbackFw
    | RollbackApp
    | MarkBad(part: Part, target: Slot)
    | Reboot(attempts: nat)

  function WriteFw(s: System, run: FwRun, id: int): System {
    s.(fw := s.fw.With(Other(s.env.slot), if run.RaucFailed? then Torn else Complete(id)))
  }

  function WriteApp(s: System, run: AppRun, id: int): System {
    if !run.AppRejected? then s.(app := s.app.With(Other(s.env.app), Complete(id))) else s
  }

  /** The environment after a call that may throw: nothing is stored when it throws. */
  function Kept(e: Env, r: Result<Env>): Env {
    if r.Success? then r.value else e
  }

  function Next(s: System, ev: Event): System {
    match ev
    case UpdateFirmware(run, id) =>
      if NoUpdate(s.env) then WriteFw(s, run, id).(env := UpdateFw(s.env, run)) else s
    case UpdateApplication(run, id) =>
      if NoUpdate(s.env) then WriteApp(s, run, id).(env := UpdateApp(s.env, run)) else s
    case UpdateBoth(fwRun, fwId, appRun, appId) =>
      if NoUpdate(s.env) then
        var written := WriteFw(s, fwRun, fwId);
        (if fwRun.FwInstalled? then WriteApp(written, appRun, appId) else written)
          .(env := UpdateAppFw(s.env, fwRun, appRun))
      else s
    case CommitUpdate => s.(env := Kept(s.env, Commit(s.env, s.mounted)))
    case RollbackFw => s.(env := Kept(s.env, RollbackFirmware(s.env, s.mounted)))
    case RollbackApp => s.(env := Kept(s.env, RollbackApplication(s.env, s.mounted)))
    case MarkBad(part, target) => s.(env := SetBad(s.env, part, target))
    case Reboot(n) => var booted := Attempts(s.env, n); s.(env := Overlay(booted), mounted := booted.app)
  }

  // ----- Allowed events -----

  /** A committed firmware slot has a try left. */
  predicate CommittedCanBoot(e: Env) {
    (e.marks.fwA == COMMITTED ==> e.leftA >= 1) && (e.marks.fwB == COMMITTED ==> e.leftB >= 1)
  }

  predicate RebootPending(e: Env) {
    e.state in {RollbackFwPending, RollbackAppPending, RollbackAppFwPending}
  }

  predicate RollbackBooted(e: Env) {
    e.state in {IncompleteFwRollback, IncompleteAppRollback, IncompleteAppFwRollback}
  }

  /** One or more boot attempts that leave every committed slot a try. */
  ghost predicate CanReboot(e: Env, n: nat) {
    n >= 1 && forall i: nat :: 1 <= i <= n ==> CommittedCanBoot(Attempts(e, i))
  }

  /** The states without a firmware switch. */
  predicate FwQuiet(state: RebootState) {
    state in {Idle, IncompleteApp, FailedApp, RollbackAppPending, IncompleteAppRollback}
  }

  /** One or more boot attempts before the last of which no committed slot has run out of tries. A
      single boot is always one. */
  ghost predicate MayBoot(e: Env, n: nat) {
    n >= 1 && forall i: nat :: 1 <= i < n ==> CommittedCanBoot(Attempts(e, i))
  }

  /** What waits for a reboot or a commit does not depend on the mark that set_update_state_bad changes. */
  predicate MarkIsFree(e: Env, part: Part, target: Slot) {
    match part
    case FirmwarePart =>
      target != e.slot &&
      (FwQuiet(e.state) ||
       (e.state in {RollbackAppFwPending, IncompleteFwRollback, IncompleteAppFwRollback} &&
        e.marks.Fw(target) != COMMITTED))
    case ApplicationPart =>
      target != e.app && e.state !in {IncompleteApp, IncompleteAppFw, FailedApp}
  }

  /** rollback_firmware undoes what waits, is refused, or finds the applications settled. */
  predicate FwRollbackFits(e: Env, mounted: Slot) {
    match e.state
    case IncompleteAppFw => RebootMissing(e) || RebootSuccessful(e) || RebootFailed(e)
    case IncompleteApp | FailedApp => e.marks.Fw(Other(e.slot)) != COMMITTED
    case RollbackAppPending =>
      mounted == e.app || e.marks.Fw(Other(e.slot)) != COMMITTED || !Uncommitted(e.marks.App(Other(e.app)))
    case RollbackAppFwPending => e.order == e.orderOld || e.slot != e.order
    case _ => true
  }

  /** rollback_application undoes what waits, is refused, or finds the boot order settled. */
  predicate AppRollbackFits(e: Env) {
    match e.state
    case IncompleteFw => e.marks.App(Other(e.app)) != COMMITTED
    case RollbackFwPending => OpenFw(e, false) || e.marks.App(Other(e.app)) != COMMITTED
    case _ => true
  }

  /** The protocol: what may happen next on a device. */
  ghost predicate Allowed(s: System, ev: Event) {
    match ev
    case UpdateFirmware(run, _) => NoUpdate(s.env) ==> !run.SyncFailed?
    case UpdateApplication(run, _) => NoUpdate(s.env) ==> !run.AppNotStored?
    case UpdateBoth(run, _, app, _) =>
      NoUpdate(s.env) ==> run.RaucFailed? || (run.FwInstalled? && !app.AppNotStored?)
    case CommitUpdate => !(s.env.state == RollbackFwPending && OpenFw(s.env, false))
    case RollbackFw => FwRollbackFits(s.env, s.mounted)
    case RollbackApp => AppRollbackFits(s.env)
    case MarkBad(part, target) => MarkIsFree(s.env, part, target)
    case Reboot(n) => CanReboot(s.env, n)
  }

  // ----- The invariant -----

  /** No firmware switch is under way, and the running firmware is committed. */
  predicate FwSettled(e: Env) {
    e.order == e.orderOld == e.slot && e.marks.Fw(e.slot) == COMMITTED
  }

  predicate AppSettled(e: Env) {
    e.marks.App(e.app) == COMMITTED && !Uncommitted(e.marks.App(Other(e.app)))
  }

  /** The selected application is new, the other one is the committed one it replaced. */
  predicate AppNew(e: Env) {
    e.marks.App(e.app) == UNCOMMITTED && e.marks.App(Other(e.app)) == COMMITTED
  }

  /** The selected application is committed and the other one is the new one. */
  predicate AppLeft(e: Env) {
    e.marks.App(e.app) == COMMITTED && e.marks.App(Other(e.app)) == UNCOMMITTED
  }

  /** A new firmware heads the boot order and the firmware it replaces is committed. */
  predicate FwSwitch(e: Env) {
    e.order != e.orderOld && e.marks.Fw(e.order) == UNCOMMITTED && e.marks.Fw(e.orderOld) == COMMITTED
  }

  /** A switch that is given up: the new firmware is uncommitted or already condemned. */
  predicate FwDropped(e: Env) {
    e.order != e.orderOld && e.marks.Fw(e.order) in {UNCOMMITTED, BAD} && e.marks.Fw(e.orderOld) == COMMITTED
  }

  /** An application update that is given up. */
  predicate AppDropped(e: Env) {
    e.marks.App(e.app) == COMMITTED && e.marks.App(Other(e.app)) in {UNCOMMITTED, BAD}
  }

  predicate NotRebooted(e: Env) {
    e.slot == e.orderOld && e.Left(e.order) == 3
  }

  predicate BootedNew(e: Env) {
    e.slot == e.order
  }

  predicate FellBack(e: Env) {
    e.slot == e.orderOld && e.Left(e.order) == 0
  }

  predicate FwPending(e: Env) {
    FwSwitch(e) && (NotRebooted(e) || BootedNew(e) || FellBack(e))
  }

  /** rollback_firmware chose between two committed slots. */
  predicate FwExchange(e: Env) {
    e.order != e.orderOld && e.marks.Fw(e.order) == COMMITTED && e.marks.Fw(e.orderOld) == COMMITTED
  }

  predicate FwBackPending(e: Env) {
    || (FwExchange(e) && e.slot == e.orderOld)
    || (FwSwitch(e) && e.slot == e.order && e.Left(e.order) == 0)
  }

  predicate FwBackBooted(e: Env) {
    || (FwExchange(e) && e.slot == e.order)
    || (FwDropped(e) && FellBack(e))
  }

  /** The firmware side of a combined rollback: undone before a reboot, or abandoned after one. */
  predicate BothBackPending(e: Env) {
    || BothBackBooted(e)
    || (FwSwitch(e) && e.slot == e.order && e.Left(e.order) == 0)
  }

  predicate BothBackBooted(e: Env) {
    || (FwSettled(e) && e.marks.Fw(Other(e.slot)) in {UNCOMMITTED, BAD})
    || (FwDropped(e) && FellBack(e))
  }

  predicate StateInvariant(e: Env, mounted: Slot) {
    match e.state
    case Idle => FwSettled(e) && AppSettled(e)
    case FwRebootFailed => false
    case IncompleteFw => FwPending(e) && AppSettled(e)
    case IncompleteApp => FwSettled(e) && AppNew(e)
    case IncompleteAppFw => FwPending(e) && AppNew(e)
    case FailedFw => FwSettled(e) && AppSettled(e) && e.marks.Fw(Other(e.slot)) == UNCOMMITTED
    case FailedApp => FwSettled(e) && AppLeft(e)
    case RollbackFwPending => FwBackPending(e) && AppSettled(e)
    case RollbackAppPending => FwSettled(e) && (AppSettled(e) || AppLeft(e))
    case RollbackAppFwPending => BothBackPending(e) && AppDropped(e)
    case IncompleteFwRollback => FwBackBooted(e) && AppSettled(e)
    case IncompleteAppRollback => FwSettled(e) && (AppSettled(e) || AppLeft(e)) && mounted == e.app
    case IncompleteAppFwRollback => BothBackBooted(e) && AppDropped(e) && mounted == e.app
  }

  predicate ImagesSound(s: System) {
    && (s.env.marks.fwA == COMMITTED ==> s.fw.a != Torn)
    && (s.env.marks.fwB == COMMITTED ==> s.fw.b != Torn)
    && s.app.a != Torn && s.app.b != Torn
    && s.fw.At(s.env.order) != Torn && s.fw.At(s.env.orderOld) != Torn
  }

  /** The invariant apart from the counters. */
  predicate Shape(s: System) {
    && s.env.marks.Valid()
    && StateInvariant(s.env, s.mounted)
    && ImagesSound(s)
  }

  predicate Inv(s: System) {
    Shape(s) && CommittedCanBoot(s.env)
  }

  // ----- Booting -----

  /** What boot attempts preserve: between attempts the rollback states may already have their booted shape. */
  predicate BootInvariant(e: Env) {
    match e.state
    case RollbackFwPending => (FwBackPending(e) || FwBackBooted(e)) && AppSettled(e)
    case RollbackAppPending | IncompleteAppRollback => FwSettled(e) && (AppSettled(e) || AppLeft(e))
    case RollbackAppFwPending => BothBackPending(e) && AppDropped(e)
    case IncompleteAppFwRollback => BothBackBooted(e) && AppDropped(e)
    case _ => StateInvariant(e, e.app)
  }

  /** After an attempt a rollback state has its booted shape, and a pending switch has booted. */
  predicate AttemptedShape(e: Env) {
    && (e.state == RollbackFwPending ==> FwBackBooted(e))
    && (e.state == RollbackAppFwPending ==> BothBackBooted(e))
    && (e.slot == e.order || e.Left(e.order) == 0)
  }

  lemma SelectKeepsRollback(e: Env)
    requires BootInvariant(e) && CommittedCanBoot(e) && e.marks.Valid()
    requires e.state in {RollbackFwPending, RollbackAppFwPending, IncompleteFwRollback, IncompleteAppFwRollback}
    ensures BootInvariant(Select(e)) && AttemptedShape(Select(e))
  {
  }

  lemma SelectKeepsOther(e: Env)
    requires BootInvariant(e) && CommittedCanBoot(e) && e.marks.Valid()
    requires e.state !in {RollbackFwPending, RollbackAppFwPending, IncompleteFwRollback, IncompleteAppFwRollback}
    ensures BootInvariant(Select(e)) && AttemptedShape(Select(e))
  {
  }

  lemma SelectKeeps(e: Env)
    requires BootInvariant(e) && CommittedCanBoot(e) && e.marks.Valid()
    ensures BootInvariant(Select(e)) && AttemptedShape(Select(e))
    ensures Select(e).marks == e.marks && Select(e).app == e.app && Select(e).state == e.state
    ensures Select(e).order == e.order && Select(e).orderOld == e.orderOld
  {
    hide BootInvariant, AttemptedShape, CommittedCanBoot;
    if e.state in {RollbackFwPending, RollbackAppFwPending, IncompleteFwRollback, IncompleteAppFwRollback} {
      SelectKeepsRollback(e);
    } else {
      SelectKeepsOther(e);
    }
  }

  lemma {:induction false} AttemptsKeep(e: Env, n: nat)
    requires BootInvariant(e) && CommittedCanBoot(e) && e.marks.Valid()
    requires MayBoot(e, n)
    ensures var r := Attempts(e, n);
      && BootInvariant(r) && AttemptedShape(r)
      && r.marks == e.marks && r.app == e.app && r.state == e.state
      && r.order == e.order && r.orderOld == e.orderOld
  {
    hide Select, BootInvariant, AttemptedShape, CommittedCanBoot;
    if n > 1 {
      AttemptsKeep(e, n - 1);
      assert CommittedCanBoot(Attempts(e, n - 1));
    } else {
      assert Attempts(e, 0) == e;
    }
    SelectKeeps(Attempts(e, n - 1));
    assert Attempts(e, n) == Select(Attempts(e, n - 1));
  }

  /** Nothing but the running slot and the counters differs. */
  predicate SameButBoot(e: Env, c: Env) {
    && c.marks == e.marks && c.state == e.state && c.app == e.app
    && c.order == e.order && c.orderOld == e.orderOld
  }

  lemma {:induction false} AttemptsOnlyBoot(e: Env, n: nat)
    ensures SameButBoot(e, Attempts(e, n))
  {
    if n >= 1 {
      AttemptsOnlyBoot(e, n - 1);
    }
  }

  /** Without a commit the head of the order boots as often as its counter says, then the other slot,
      and then both counters are refilled. */
  lemma {:induction false} BootsDrain(e: Env, n: nat)
    requires n <= e.Left(e.order) + e.Left(Other(e.order))
    ensures var r := Attempts(e, n); var head := e.order;
      && SameButBoot(e, r)
      && (n >= 1 ==> (r.slot == head <==> n <= e.Left(head)))
      && (n <= e.Left(head) ==> r.Left(head) == e.Left(head) - n && r.Left(Other(head)) == e.Left(Other(head)))
      && (n > e.Left(head) ==>
            r.Left(head) == 0 && r.Left(Other(head)) == e.Left(head) + e.Left(Other(head)) - n)
  {
    AttemptsOnlyBoot(e, n);
    if n >= 1 {
      BootsDrain(e, n - 1);
      assert Attempts(e, n) == Select(Attempts(e, n - 1));
    }
  }

  // ----- Every event keeps the invariant -----

  lemma InvariantBoots(e: Env, mounted: Slot)
    requires StateInvariant(e, mounted)
    ensures BootInvariant(e)
  {
  }

  lemma BootedShape(e: Env)
    requires BootInvariant(e) && AttemptedShape(e)
    ensures StateInvariant(Overlay(e), e.app)
  {
  }

  /** Whatever the last attempt does to the counters, the rest of the invariant is kept, and the slot
      that heads the order runs or has run out of tries. */
  lemma RebootShapes(s: System, n: nat)
    requires Inv(s) && MayBoot(s.env, n)
    ensures var booted := Next(s, Reboot(n));
      && Shape(booted) && !RebootPending(booted.env) && booted.mounted == booted.env.app
      && (booted.env.slot == booted.env.order || booted.env.Left(booted.env.order) == 0)
      && (CommittedCanBoot(booted.env) <==> CommittedCanBoot(Attempts(s.env, n)))
  {
    InvariantBoots(s.env, s.mounted);
    hide Attempts, MayBoot, BootInvariant, StateInvariant, CommittedCanBoot;
    AttemptsKeep(s.env, n);
    BootedShape(Attempts(s.env, n));
    OverlayOnlyState(s, n);
  }

  /** A reboot is allowed exactly when the invariant holds wherever it may end. */
  lemma RebootKeeps(s: System, n: nat)
    requires Inv(s) && n >= 1
    ensures Allowed(s, Reboot(n)) <==> forall i: nat :: 1 <= i <= n ==> Inv(Next(s, Reboot(i)))
  {
    hide Attempts, Shape, CommittedCanBoot;
    if Allowed(s, Reboot(n)) {
      forall i: nat | 1 <= i <= n ensures Inv(Next(s, Reboot(i))) {
        RebootShapes(s, i);
      }
    }
    if forall i: nat :: 1 <= i <= n ==> Inv(Next(s, Reboot(i))) {
      forall i: nat | 1 <= i <= n ensures CommittedCanBoot(Attempts(s.env, i)) {
        OverlayOnlyState(s, i);
        assert Inv(Next(s, Reboot(i)));
      }
    }
  }

  lemma OverlayOnlyState(s: System, n: nat)
    ensures CommittedCanBoot(Next(s, Reboot(n)).env) <==> CommittedCanBoot(Attempts(s.env, n))
  {
    hide Attempts;
  }

  /** A single boot keeps the invariant only as long as it leaves the committed slots a try. */
  lemma OneBootKeeps(s: System)
    requires Inv(s)
    ensures Inv(Next(s, Reboot(1))) <==> Allowed(s, Reboot(1))
  {
    hide Inv, Next, Allowed;
    RebootKeeps(s, 1);
  }

  lemma OneAttempt(e: Env)
    ensures Attempts(e, 1) == Select(e)
    ensures CanReboot(e, 1) <==> CommittedCanBoot(Select(e))
    ensures MayBoot(e, 1)
  {
    hide Select, CommittedCanBoot;
    assert Attempts(e, 0) == e && Attempts(e, 1) == Select(Attempts(e, 0));
    hide Attempts;
    assert CanReboot(e, 1) ==> CommittedCanBoot(Attempts(e, 1));
    assert CommittedCanBoot(Attempts(e, 1)) ==> forall i: nat :: 1 <= i <= 1 ==> CommittedCanBoot(Attempts(e, i));
  }

  lemma UpdateFirmwareKeeps(s: System, run: FwRun, id: int)
    requires Inv(s)
    ensures Inv(Next(s, UpdateFirmware(run, id))) <==> Allowed(s, UpdateFirmware(run, id))
  {
  }

  lemma UpdateApplicationKeeps(s: System, run: AppRun, id: int)
    requires Inv(s)
    ensures Inv(Next(s, UpdateApplication(run, id))) <==> Allowed(s, UpdateApplication(run, id))
  {
  }

  lemma UpdateBothKeeps(s: System, fwRun: FwRun, fwId: int, appRun: AppRun, appId: int)
    requires Inv(s)
    ensures Inv(Next(s, UpdateBoth(fwRun, fwId, appRun, appId))) <==> Allowed(s, UpdateBoth(fwRun, fwId, appRun, appId))
  {
  }

  /** Idle, whatever the counters are. */
  predicate Resting(e: Env) {
    e.state == Idle && FwSettled(e) && AppSettled(e) && e.marks.Valid()
  }

  predicate Settled(e: Env) {
    Resting(e) && CommittedCanBoot(e)
  }

  lemma CommitOfFirmwareSettles(s: System)
    requires Inv(s) && s.env.state in {IncompleteFw, IncompleteAppFw}
    requires Commit(s.env, s.mounted).Success?
    ensures Settled(Commit(s.env, s.mounted).value)
  {
  }

  lemma CommitOfFirmwareRollbackSettles(s: System)
    requires Inv(s) && s.env.state in {IncompleteFwRollback, IncompleteAppFwRollback}
    ensures var r := Commit(s.env, s.mounted); r.Success? && Settled(r.value)
  {
  }

  lemma CommitOfApplicationRollbackSettles(s: System)
    requires Inv(s) && s.env.state == IncompleteAppRollback
    ensures var r := Commit(s.env, s.mounted); r.Success? && Settled(r.value)
  {
  }

  lemma CommitOfRollbackSettles(s: System)
    requires Inv(s) && RollbackBooted(s.env)
    ensures var r := Commit(s.env, s.mounted); r.Success? && Settled(r.value)
  {
    hide Inv, Commit, Settled;
    if s.env.state == IncompleteAppRollback {
      CommitOfApplicationRollbackSettles(s);
    } else {
      CommitOfFirmwareRollbackSettles(s);
    }
  }

  lemma CommitOfPendingFirmwareRollbackSettles(s: System)
    requires Inv(s) && s.env.state == RollbackFwPending && Commit(s.env, s.mounted).Success?
    ensures Settled(Commit(s.env, s.mounted).value) <==> !OpenFw(s.env, false)
  {
  }

  lemma CommitOfPendingApplicationRollbackSettles(s: System)
    requires Inv(s) && s.env.state == RollbackAppPending && Commit(s.env, s.mounted).Success?
    ensures Settled(Commit(s.env, s.mounted).value)
  {
  }

  lemma CommitOfPendingBothRollbackSettles(s: System)
    requires Inv(s) && s.env.state == RollbackAppFwPending && Commit(s.env, s.mounted).Success?
    ensures Settled(Commit(s.env, s.mounted).value)
  {
  }

  lemma CommitOfPendingRollbackSettles(s: System)
    requires Inv(s) && RebootPending(s.env) && Commit(s.env, s.mounted).Success?
    ensures Settled(Commit(s.env, s.mounted).value) <==> Allowed(s, CommitUpdate)
  {
    hide Inv, Commit, Settled, OpenFw;
    match s.env.state
    case RollbackFwPending => CommitOfPendingFirmwareRollbackSettles(s);
    case RollbackAppPending => CommitOfPendingApplicationRollbackSettles(s);
    case _ => CommitOfPendingBothRollbackSettles(s);
  }

  /** An accepted commit ends in a settled idle environment on the running firmware. */
  lemma CommitSettles(s: System)
    requires Inv(s) && Allowed(s, CommitUpdate)
    requires Commit(s.env, s.mounted).Success?
    ensures var r := Commit(s.env, s.mounted).value; Settled(r) && r.slot == s.env.slot
  {
    if s.env.state in {IncompleteFw, IncompleteAppFw} {
      CommitOfFirmwareSettles(s);
    } else if RollbackBooted(s.env) {
      CommitOfRollbackSettles(s);
    } else if RebootPending(s.env) {
      CommitOfPendingRollbackSettles(s);
    }
    CommitStaysOnSlot(s.env, s.mounted);
  }

  lemma CommitStaysOnSlot(e: Env, mounted: Slot)
    requires Commit(e, mounted).Success?
    ensures var r := Commit(e, mounted).value; r.slot == e.slot && r.state == Idle
  {
    hide PendingApp, PendingFw, PendingAppFw, FailedFwUpdate, FailedRebootFwUpdate, FailedAppUpdate, PendingRollback,
      RebootFailed, RebootMissing, RebootSuccessful, AppRebooted;
  }

  lemma CommitKeeps(s: System)
    requires Inv(s)
    ensures Inv(Next(s, CommitUpdate)) <==> Allowed(s, CommitUpdate)
  {
    if Commit(s.env, s.mounted).Success? {
      CommitStaysOnSlot(s.env, s.mounted);
      if Allowed(s, CommitUpdate) {
        CommitSettles(s);
        hide Commit, Allowed;
      } else {
        CommitOfPendingRollbackSettles(s);
        hide Commit, Allowed;
      }
    } else if !Allowed(s, CommitUpdate) {
      UncommittedRollbackIsAccepted(s);
    }
  }

  lemma UncommittedRollbackIsAccepted(s: System)
    requires Inv(s) && s.env.state == RollbackFwPending && OpenFw(s.env, false)
    ensures Commit(s.env, s.mounted).Success?
  {
  }

  lemma RollbackWaitingFwKeeps(s: System)
    requires Inv(s) && s.env.state in {IncompleteFw, IncompleteAppFw}
    ensures Inv(Next(s, RollbackFw)) <==> FwRollbackFits(s.env, s.mounted)
  {
  }

  lemma RollbackOtherFwKeeps(s: System)
    requires Inv(s) && s.env.state !in {IncompleteFw, IncompleteAppFw}
    ensures Inv(Next(s, RollbackFw)) <==> FwRollbackFits(s.env, s.mounted)
  {
  }

  lemma RollbackFwKeeps(s: System)
    requires Inv(s)
    ensures Inv(Next(s, RollbackFw)) <==> Allowed(s, RollbackFw)
  {
    if s.env.state in {IncompleteFw, IncompleteAppFw} {
      RollbackWaitingFwKeeps(s);
    } else {
      RollbackOtherFwKeeps(s);
    }
  }

  lemma RollbackWaitingAppKeeps(s: System)
    requires Inv(s) && s.env.state in {IncompleteApp, IncompleteAppFw, RollbackAppPending, RollbackAppFwPending}
    ensures Inv(Next(s, RollbackApp)) <==> AppRollbackFits(s.env)
  {
  }

  lemma RollbackOtherAppKeeps(s: System)
    requires Inv(s) && s.env.state !in {IncompleteApp, IncompleteAppFw, RollbackAppPending, RollbackAppFwPending}
    ensures Inv(Next(s, RollbackApp)) <==> AppRollbackFits(s.env)
  {
  }

  lemma RollbackAppKeeps(s: System)
    requires Inv(s)
    ensures Inv(Next(s, RollbackApp)) <==> Allowed(s, RollbackApp)
  {
    hide Inv, AppRollbackFits, Next;
    if s.env.state in {IncompleteApp, IncompleteAppFw, RollbackAppPending, RollbackAppFwPending} {
      RollbackWaitingAppKeeps(s);
    } else {
      RollbackOtherAppKeeps(s);
    }
  }

  lemma MarkQuietFirmwareBadKeeps(s: System, target: Slot)
    requires Inv(s) && FwQuiet(s.env.state)
    ensures Inv(Next(s, MarkBad(FirmwarePart, target))) <==> MarkIsFree(s.env, FirmwarePart, target)
  {
  }

  lemma MarkWaitingFirmwareBadKeeps(s: System, target: Slot)
    requires Inv(s) && s.env.state in {IncompleteFw, IncompleteAppFw, FailedFw, RollbackFwPending}
    ensures Inv(Next(s, MarkBad(FirmwarePart, target))) <==> MarkIsFree(s.env, FirmwarePart, target)
  {
  }

  lemma MarkPendingFirmwareBadKeeps(s: System, target: Slot)
    requires Inv(s) && s.env.state == RollbackAppFwPending
    ensures Inv(Next(s, MarkBad(FirmwarePart, target))) <==> MarkIsFree(s.env, FirmwarePart, target)
  {
  }

  lemma MarkDroppedFirmwareBadKeeps(s: System, target: Slot)
    requires Inv(s) && s.env.state in {IncompleteFwRollback, IncompleteAppFwRollback}
    ensures Inv(Next(s, MarkBad(FirmwarePart, target))) <==> MarkIsFree(s.env, FirmwarePart, target)
  {
  }

  lemma MarkSettledApplicationBadKeeps(s: System, target: Slot)
    requires Inv(s) && s.env.state in {Idle, IncompleteFw, FailedFw, RollbackFwPending, IncompleteFwRollback}
    ensures Inv(Next(s, MarkBad(ApplicationPart, target))) <==> MarkIsFree(s.env, ApplicationPart, target)
  {
  }

  lemma MarkDroppedApplicationBadKeeps(s: System, target: Slot)
    requires Inv(s)
    requires s.env.state in {RollbackAppPending, IncompleteAppRollback, RollbackAppFwPending, IncompleteAppFwRollback}
    ensures Inv(Next(s, MarkBad(ApplicationPart, target))) <==> MarkIsFree(s.env, ApplicationPart, target)
  {
  }

  lemma MarkWaitingApplicationBadKeeps(s: System, target: Slot)
    requires Inv(s) && s.env.state in {IncompleteApp, IncompleteAppFw, FailedApp}
    ensures Inv(Next(s, MarkBad(ApplicationPart, target))) <==> MarkIsFree(s.env, ApplicationPart, target)
  {
  }

  /** In every state and for every target, a mark may become bad exactly when nothing waits for it. */
  lemma MarkBadKeeps(s: System, part: Part, target: Slot)
    requires Inv(s)
    ensures Inv(Next(s, MarkBad(part, target))) <==> Allowed(s, MarkBad(part, target))
  {
    assert s.env.state != FwRebootFailed;
    hide Inv, MarkIsFree, Next;
    match part
    case FirmwarePart =>
      if FwQuiet(s.env.state) {
        MarkQuietFirmwareBadKeeps(s, target);
      } else if s.env.state == RollbackAppFwPending {
        MarkPendingFirmwareBadKeeps(s, target);
      } else if s.env.state in {IncompleteFwRollback, IncompleteAppFwRollback} {
        MarkDroppedFirmwareBadKeeps(s, target);
      } else {
        MarkWaitingFirmwareBadKeeps(s, target);
      }
    case ApplicationPart =>
      if s.env.state in {IncompleteApp, IncompleteAppFw, FailedApp} {
        MarkWaitingApplicationBadKeeps(s, target);
      } else if s.env.state in {Idle, IncompleteFw, FailedFw, RollbackFwPending, IncompleteFwRollback} {
        MarkSettledApplicationBadKeeps(s, target);
      } else {
        MarkDroppedApplicationBadKeeps(s, target);
      }
  }

  /** The invariant holds after the event, and of a reboot after each of its attempts. */
  ghost predicate Keeps(s: System, ev: Event) {
    if ev.Reboot? then ev.attempts >= 1 && forall i: nat :: 1 <= i <= ev.attempts ==> Inv(Next(s, Reboot(i)))
    else Inv(Next(s, ev))
  }

  /** The protocol is exact: an event keeps the invariant if and only if it is allowed. */
  lemma EventKeeps(s: System, ev: Event)
    requires Inv(s)
    ensures Allowed(s, ev) <==> Keeps(s, ev)
    ensures Allowed(s, ev) ==> Inv(Next(s, ev))
  {
    hide Inv, FwRollbackFits, AppRollbackFits, MarkIsFree, OpenFw;
    match ev
    case UpdateFirmware(run, id) => UpdateFirmwareKeeps(s, run, id);
    case UpdateApplication(run, id) => UpdateApplicationKeeps(s, run, id);
    case UpdateBoth(fwRun, fwId, appRun, appId) => UpdateBothKeeps(s, fwRun, fwId, appRun, appId);
    case CommitUpdate => CommitKeeps(s);
    case RollbackFw => RollbackFwKeeps(s);
    case RollbackApp => RollbackAppKeeps(s);
    case MarkBad(part, target) => MarkBadKeeps(s, part, target);
    case Reboot(n) =>
      hide Next;
      if n >= 1 {
        RebootKeeps(s, n);
      }
  }

  // ----- Safety over every run -----

  /** A device as it leaves the factory. */
  predicate Factory(s: System) {
    && s.env.marks == Marks(COMMITTED, COMMITTED, COMMITTED, COMMITTED)
    && s.env.state == Idle
    && s.env.order == s.env.orderOld == s.env.slot
    && s.env.leftA == 3 && s.env.leftB == 3
    && s.mounted == s.env.app
    && s.fw.a != Torn && s.fw.b != Torn && s.app.a != Torn && s.app.b != Torn
  }

  ghost predicate IsRun(states: seq<System>, events: seq<Event>) {
    && |states| == |events| + 1
    && Factory(states[0])
    && forall i :: 0 <= i < |events| ==>
         Allowed(states[i], events[i]) && states[i + 1] == Next(states[i], events[i])
  }

  lemma {:induction false} RunKeeps(states: seq<System>, events: seq<Event>, k: nat)
    requires IsRun(states, events) && k < |states|
    ensures Inv(states[k])
  {
    if k > 0 {
      RunKeeps(states, events, k - 1);
      EventKeeps(states[k - 1], events[k - 1]);
    }
  }

  /** Global safety, in terms of the variables themselves. */
  lemma RunIsSafe(states: seq<System>, events: seq<Event>, k: nat)
    requires IsRun(states, events) && k < |states|
    ensures var s := states[k]; var e := s.env;
      && e.marks.Valid()
      && e.state != FwRebootFailed
      // what the boot order can select is complete, and so is every slot that counts as committed
      && s.fw.At(e.order) != Torn && s.fw.At(e.orderOld) != Torn && s.app.At(e.app) != Torn
      && (forall x: Slot :: e.marks.Fw(x) == COMMITTED ==> s.fw.At(x) != Torn && e.Left(x) >= 1)
      // there is always a committed firmware in the boot order
      && (e.marks.Fw(e.order) == COMMITTED || e.marks.Fw(e.orderOld) == COMMITTED)
      && (e.state == Idle ==>
            && e.order == e.orderOld == e.slot
            && e.marks.Fw(e.slot) == COMMITTED
            && e.marks.App(e.app) == COMMITTED
            && !Uncommitted(e.marks.App(Other(e.app))))
  {
    RunKeeps(states, events, k);
  }
}
