/**
 fs::FSUpdate: the public calls. Each opens a transaction on the boot environment, or drives an
 installer between two transactions, and is proved against its function in BootEnv. Errors of
 the environment itself may come at any point.
 */
module FsUpdater {
  import opened Results
  import opened BootEnv
  import opened Variables
  import opened UBootStore
  import opened BootstateHandler

  const EINVAL := 22

  /** The variables that are not the library's are the same in both environments. */
  ghost predicate SameUnrelated(a: map<Key, string>, b: map<Key, string>) {
    forall name :: Lookup(a, Unrelated(name)) == Lookup(b, Unrelated(name))
  }

  /** A call ended as specified: the new environment is there and the result is the expected one,
      or the specified exception was raised. */
  ghost predicate Outcome<T>(r: Result<T>, now: map<Key, string>, spec: Result<Env>, value: T) {
    if spec.Success? then r == Success(value) && Shows(now, spec.value) else r == Failure(spec.error)
  }

  /** What RAUC does when it is asked to install: it activates the target slot, or reports an error
      after whatever it did to the counter and to the boot order. */
  datatype Rauc =
    | RaucOk(target: Slot)
    | RaucError(target: Slot, left: Tries, activated: bool)

  function RaucEffect(m: map<Key, string>, rauc: Rauc): map<Key, string> {
    match rauc
    case RaucOk(target) => m[BootOrder := OrderText(target)][LeftKey(target) := TriesText(3)]
    case RaucError(target, left, activated) =>
      (if activated then m[BootOrder := OrderText(target)] else m)[LeftKey(target) := TriesText(left)]
  }

  function FwRunOf(rauc: Rauc, syncOk: bool): FwRun {
    match rauc
    case RaucOk(_) => if syncOk then FwInstalled else SyncFailed
    case RaucError(_, left, _) => RaucFailed(left)
  }

  /** The same on environments. */
  function RaucEnv(e: Env, rauc: Rauc): Env {
    match rauc
    case RaucOk(target) => e.(order := target).WithLeft(target, 3)
    case RaucError(target, left, activated) => e.(order := if activated then target else e.order).WithLeft(target, left)
  }

  lemma RaucShows(m: map<Key, string>, rauc: Rauc)
    requires Legible(m)
    ensures Shows(RaucEffect(m, rauc), RaucEnv(View(m), rauc))
  {
    hide Stoul, IsMarks, DecodeMarks, IsOrder, DecodeOrder, OrderText, TriesText;
    SlotTextRoundTrip(rauc.target);
    TriesRoundTrip(3);
    if rauc.RaucError? {
      TriesRoundTrip(rauc.left);
    }
  }

  /** What the store holds is one of these environments. */
  ghost predicate Holds(m: map<Key, string>, envs: set<Env>) {
    Legible(m) && View(m) in envs
  }

  /** What an error of the environment at any point of update_firmware can leave behind. */
  function FwLeavings(e: Env, rauc: Rauc): set<Env> {
    var ran := RaucEnv(MarkFw(e), rauc);
    var back := ran.(order := e.orderOld);
    {e, ran, back, ran.(state := FailedFw), back.(state := FailedFw)}
  }

  /** The same for update_application. */
  function AppLeavings(e: Env): set<Env> {
    var marked := MarkApp(e);
    var switched := marked.(app := Other(e.app));
    {e, marked, switched, marked.(state := FailedApp), switched.(state := FailedApp)}
  }

  /** The firmware part taken back by the handler of a failed application part. */
  function TakenBack(e: Env, marks: Marks): Env {
    e.(marks := marks.WithFw(Other(e.slot), COMMITTED), order := e.orderOld, state := FailedApp)
  }

  /** What the application part of a combined update can leave behind, with the marks known so far. */
  function AppPartLeavings(e: Env, marks: Marks): set<Env> {
    var both := marks.WithApp(Other(e.app), UNCOMMITTED);
    var marked := e.(marks := both, state := IncompleteAppFw);
    var switched := marked.(app := Other(e.app));
    {e, marked, switched, TakenBack(e, marks), TakenBack(e, both), TakenBack(switched, both)}
  }

  function BothLeavings(e: Env, rauc: Rauc): set<Env> {
    FwLeavings(e, rauc) + {e.(state := FailedFw)} + AppPartLeavings(RaucEnv(MarkFw(e), rauc), MarkFw(e).marks)
  }

  /** Whatever fails in an install, nothing but the spare slot is touched: its mark, its counter, and which
      of the two slots come first. */
  lemma FirmwareLeavingsAreSafe(e: Env, rauc: Rauc, left: Env)
    requires rauc.target == Other(e.slot) && left in FwLeavings(e, rauc)
    ensures left == e || (
      && left == e.(marks := left.marks, state := left.state, order := left.order,
                    leftA := left.leftA, leftB := left.leftB)
      && left.marks == e.marks.WithFw(Other(e.slot), 1) && left.state in {IncompleteFw, FailedFw}
      && left.order in {e.order, e.orderOld, Other(e.slot)} && left.Left(e.slot) == e.Left(e.slot))
  {
  }

  lemma ApplicationLeavingsAreSafe(e: Env, left: Env)
    requires left in AppLeavings(e)
    ensures left == e || (
      && left == e.(marks := e.marks.WithApp(Other(e.app), 1), state := left.state, app := left.app)
      && left.state in {IncompleteApp, FailedApp})
  {
  }

  /** Of a combined install, the running firmware and the application selected before keep their marks. */
  lemma CombinedLeavingsAreSafe(e: Env, rauc: Rauc, left: Env)
    requires rauc.target == Other(e.slot) && left in BothLeavings(e, rauc)
    ensures left == e || (
      && left == e.(marks := left.marks, state := left.state, order := left.order, app := left.app,
                    leftA := left.leftA, leftB := left.leftB)
      && left.state in {IncompleteFw, IncompleteAppFw, FailedFw, FailedApp}
      && left.marks.Fw(e.slot) == e.marks.Fw(e.slot) && left.marks.App(e.app) == e.marks.App(e.app)
      && left.order in {e.order, e.orderOld, Other(e.slot)} && left.Left(e.slot) == e.Left(e.slot))
  {
  }

  lemma LegibleOrderOld(m: map<Key, string>)
    requires Legible(m)
    ensures BootOrderOld in m && IsOrder(m[BootOrderOld]) && DecodeOrder(m[BootOrderOld]) == View(m).orderOld
  {
  }

  lemma PendingAsksNothing(e: Env)
    ensures PendingFw(e) || PendingAppFw(e) ==> !AsksMount(e)
  {
  }

  class FSUpdate {
    const uboot: UBoot
    const handler: Bootstate

    constructor (uboot: UBoot, mounted: Slot, loopReadable: bool)
      ensures this.uboot == uboot && handler.uboot == uboot
      ensures handler.mounted == mounted && handler.loopReadable == loopReadable
    {
      this.uboot := uboot;
      handler := new Bootstate(uboot, mounted, loopReadable);
    }

    /** Between two public calls: the environment is closed and nothing is staged. */
    ghost predicate Ready()
      reads this, uboot, uboot.lib
    {
      handler.uboot == uboot && uboot.Valid() && uboot.envOpenCount == 0 && uboot.variables == map[]
    }

    /** Inside a transaction that has just been opened. */
    ghost predicate InTransaction()
      reads this, uboot, uboot.lib
    {
      && handler.uboot == uboot && uboot.Valid() && uboot.envOpenCount == 1 && uboot.variables == map[]
      && uboot.lib.cache == uboot.lib.persistent
    }

    /** No call of the environment failed, and all its variables were allowed. */
    twostate predicate Clean()
      reads uboot, uboot.lib
    {
      Readable(old(uboot.lib.persistent)) && uboot.lib.faults == old(uboot.lib.faults)
    }

    /** All or nothing: a call that throws has stored nothing, and no call stores more than once. */
    twostate predicate Atomic(failed: bool)
      reads uboot, uboot.lib
    {
      && uboot.lib.stores <= old(uboot.lib.stores) + 1
      && uboot.lib.faults >= old(uboot.lib.faults)
      && (failed ==> uboot.lib.persistent == old(uboot.lib.persistent) && uboot.lib.stores == old(uboot.lib.stores))
      && SameUnrelated(old(uboot.lib.persistent), uboot.lib.persistent)
    }

    /** Stores what has been staged in a transaction. */
    method Flush() returns (r: Result<()>)
      requires uboot.Valid() && uboot.envOpenCount == 1 && StagesOwn(uboot.variables)
      requires uboot.lib.cache == uboot.lib.persistent
      modifies uboot`variables, uboot.lib
      ensures uboot.Valid() && uboot.envOpenCount == 1 && Atomic(r.Failure?)
      ensures r.Success? ==> uboot.lib.persistent == old(uboot.Future()) && uboot.lib.faults == old(uboot.lib.faults)
      ensures uboot.lib.faults == old(uboot.lib.faults) ==> r == Success(())
    {
      var _ :- uboot.FlushEnvironment();
      r := Success(());
    }

    // ----- commit_update -----

    method ConfirmRest() returns (r: Result<bool>)
      requires InTransaction()
      modifies uboot`variables, uboot.lib
      ensures uboot.Valid() && uboot.OnlyStaged() && StagesOwn(uboot.variables)
      ensures Clean() ==>
        var e := View(old(uboot.lib.persistent));
        Outcome(r, uboot.Future(), handler.Asking(AsksMount(e), CommitRest(e, handler.mounted)), CommitReports(e))
    {
      hide Legible, View, ConfirmRollback, PendingRollback;
      uboot.NothingStaged();
      var idle :- handler.NoUpdateProcessing();
      if idle {
        r := RestoreTries();
      } else {
        var state :- handler.GetState();
        var pending :- handler.PendingUpdateRollback(state);
        if pending {
          var _ :- handler.ConfirmUpdateRollback();
          r := Success(true);
        } else {
          r := Failure(NotAllowedUpdateState);
        }
      }
    }

    /** Outside an update the counter of the running slot is refilled. */
    method RestoreTries() returns (r: Result<bool>)
      requires InTransaction()
      modifies uboot`variables, uboot.lib
      ensures uboot.Valid() && uboot.OnlyStaged() && StagesOwn(uboot.variables)
      ensures Clean() ==>
        var e := View(old(uboot.lib.persistent));
        r == Success(e.Left(e.slot) < 3) && Shows(uboot.Future(), e.WithLeft(e.slot, 3))
    {
      hide Legible, View;
      uboot.NothingStaged();
      TextsDiffer();
      var currentSlot :- handler.CurrentSlot();
      var slot := if currentSlot == "A" then A else B;
      var left :- handler.GetTries(slot);
      if left < 3 {
        handler.StageTries(slot, 3);
      }
      r := Success(left < 3);
    }

    method ConfirmFailure() returns (r: Result<bool>)
      requires InTransaction()
      modifies uboot`variables, uboot.lib
      ensures uboot.Valid() && uboot.OnlyStaged() && StagesOwn(uboot.variables)
      ensures Clean() ==>
        var e := View(old(uboot.lib.persistent));
        Outcome(r, uboot.Future(), handler.Asking(AsksMount(e), CommitFailure(e, handler.mounted)), CommitReports(e))
    {
      hide Legible, View, CommitRest, ConfirmFailedFw, ConfirmFailedRebootFw, ConfirmFailedApp, OpenFw, OpenApp;
      var failed :- handler.FailedFirmwareUpdate();
      if failed {
        var _ :- handler.ConfirmFailedFirmwareUpdate();
        return Success(true);
      }
      failed :- handler.FailedRebootFirmwareUpdate();
      if failed {
        var _ :- handler.ConfirmFailedRebootFirmwareUpdate();
        return Success(true);
      }
      failed :- handler.FailedApplicationUpdate();
      if failed {
        var _ :- handler.ConfirmFailedApplicationUpdate();
        return Success(true);
      }
      r := ConfirmRest();
    }

    /** What commit_update does when the mounted application may be unknown. */
    function CommitSpec(e: Env): Result<Env> {
      handler.Asking(PendingApp(e) || AsksMount(e), Commit(e, handler.mounted))
    }

    method ConfirmAny() returns (r: Result<bool>)
      requires InTransaction()
      modifies uboot`variables, uboot.lib
      ensures uboot.Valid() && uboot.OnlyStaged() && StagesOwn(uboot.variables)
      ensures r.Success? ==> HasMarks(old(uboot.lib.persistent))
      ensures Clean() ==>
        var e := View(old(uboot.lib.persistent));
        Outcome(r, uboot.Future(), CommitSpec(e), CommitReports(e))
    {
      hide Legible, View, CommitFailure, ConfirmPendingFw, ConfirmPendingApp, ConfirmPendingAppFw, OpenFw, OpenApp;
      var pending :- handler.PendingApplicationUpdate();
      if pending {
        var _ :- handler.ConfirmPendingApplicationUpdate();
        return Success(true);
      }
      pending :- handler.PendingFirmwareUpdate();
      if pending {
        var _ :- handler.ConfirmPendingFirmwareUpdate();
        return Success(true);
      }
      pending :- handler.PendingApplicationFirmwareUpdate();
      if pending {
        var _ :- handler.ConfirmPendingApplicationFirmwareUpdate();
        return Success(true);
      }
      r := ConfirmFailure();
    }

    method CommitInTransaction() returns (r: Result<bool>)
      requires InTransaction()
      modifies uboot`variables, uboot.lib
      ensures r.Success? ==> uboot.lib.faults == old(uboot.lib.faults)
      ensures r.Success? ==> HasMarks(old(uboot.lib.persistent))
      ensures uboot.Valid() && uboot.envOpenCount == 1 && Atomic(r.Failure?)
      ensures Clean() ==>
        var e := View(old(uboot.lib.persistent));
        Outcome(r, uboot.lib.persistent, CommitSpec(e), CommitReports(e))
    {
      hide Legible, View, Commit, CommitReports;
      r := ConfirmAny();
      if r.Success? {
        var _ :- Flush();
      }
    }

    method CommitUpdate() returns (r: Result<bool>)
      requires Ready()
      modifies uboot, uboot.lib
      ensures r.Success? ==> uboot.lib.faults == old(uboot.lib.faults)
      ensures r.Success? ==> HasMarks(old(uboot.lib.persistent))
      ensures Ready() && Atomic(r.Failure?)
      ensures Clean() ==>
        var e := View(old(uboot.lib.persistent));
        Outcome(r, uboot.lib.persistent, CommitSpec(e), CommitReports(e))
    {
      hide Legible, View, Commit, CommitReports;
      var access := uboot.OpenEnv();
      if access.Failure? {
        return Failure(access.error);
      }
      r := CommitInTransaction();
      uboot.CloseEnv();
    }

    // ----- rollback_firmware -----

    /** The rollback of a pending update; the application installer needs the RAUC configuration. */
    method RollbackPendingFirmware(both: bool, raucConfigOk: bool) returns (r: Result<()>)
      requires InTransaction()
      modifies uboot`variables, uboot.lib
      ensures uboot.Valid() && uboot.OnlyStaged() && StagesOwn(uboot.variables)
      ensures Clean() ==>
        var e := View(old(uboot.lib.persistent));
        Outcome(r, uboot.Future(),
          if !both then Success(FirmwareRollback(e))
          else if raucConfigOk then Success(FirmwareRollback(e).(app := Other(e.app), state := RollbackAppFwPending))
          else Failure(RaucConfig), ())
    {
      hide Legible, View, RebootMissing, RebootSuccessful, RebootFailed;
      var _ :- handler.RollbackFirmware();
      if both {
        if !raucConfigOk {
          return Failure(RaucConfig);
        }
        var _ :- handler.StageOtherApplication();
        handler.StageState(RollbackAppFwPending);
      }
      r := Success(());
    }

    /** The switch from one committed firmware to the other. */
    method SwitchFirmware() returns (r: Result<()>)
      requires InTransaction()
      modifies uboot`variables, uboot.lib
      ensures uboot.Valid() && uboot.OnlyStaged() && StagesOwn(uboot.variables)
      ensures Clean() ==>
        var e := View(old(uboot.lib.persistent));
        var next := e.marks.Fw(Other(e.slot));
        Outcome(r, uboot.Future(),
          if Uncommitted(next) then Failure(RollbackToUncommitted)
          else if Bad(next) then Failure(RollbackToBad)
          else Success(e.(order := Other(e.slot), orderOld := e.slot, state := RollbackFwPending)), ())
    {
      hide Legible, View;
      uboot.NothingStaged();
      TextsDiffer();
      SlotTextRoundTrip(A);
      SlotTextRoundTrip(B);
      var currentSlot :- handler.CurrentSlot();
      var update :- handler.GetUpdate();
      var next := MarkOf(update[if currentSlot == "A" then FIRMWARE_B_INDEX else FIRMWARE_A_INDEX]);
      if Uncommitted(next) {
        return Failure(RollbackToUncommitted);
      } else if Bad(next) {
        return Failure(RollbackToBad);
      }
      handler.StageOrder(if currentSlot == "A" then "B A" else "A B");
      handler.StageOrderOld(if currentSlot == "A" then "A B" else "B A");
      handler.StageState(RollbackFwPending);
      r := Success(());
    }

    /** What rollback_firmware does with an RAUC configuration that can be read or not. */
    function FirmwareRollbackSpec(e: Env, raucConfigOk: bool): Result<Env> {
      if PendingAppFw(e) && !raucConfigOk then Failure(RaucConfig)
      else handler.Asking(AsksMount(e), BootEnv.RollbackFirmware(e, handler.mounted))
    }

    method StageFirmwareRollback(raucConfigOk: bool) returns (r: Result<()>)
      requires InTransaction()
      modifies uboot`variables, uboot.lib
      ensures uboot.Valid() && uboot.OnlyStaged() && StagesOwn(uboot.variables)
      ensures r.Success? ==> HasMarks(old(uboot.lib.persistent))
      ensures Clean() ==>
        Outcome(r, uboot.Future(), FirmwareRollbackSpec(View(old(uboot.lib.persistent)), raucConfigOk), ())
    {
      hide Legible, View, PendingAppFw, PendingFw, PendingRollback, FirmwareRollback, AsksMount;
      ghost var m := uboot.lib.persistent;
      if Legible(m) {
        PendingAsksNothing(View(m));
      }
      var both :- handler.PendingApplicationFirmwareUpdate();
      var pending :- handler.PendingFirmwareUpdate();
      if pending || both {
        r := RollbackPendingFirmware(both, raucConfigOk);
      } else {
        var state :- handler.GetState();
        var rollback :- handler.PendingUpdateRollback(state);
        if rollback {
          return Failure(CommitRequired);
        }
        r := SwitchFirmware();
      }
    }

    method FirmwareRollbackInTransaction(raucConfigOk: bool) returns (r: Result<()>)
      requires InTransaction()
      modifies uboot`variables, uboot.lib
      ensures r.Success? ==> uboot.lib.faults == old(uboot.lib.faults)
      ensures r.Success? ==> HasMarks(old(uboot.lib.persistent))
      ensures uboot.Valid() && uboot.envOpenCount == 1 && Atomic(r.Failure?)
      ensures Clean() ==>
        Outcome(r, uboot.lib.persistent, FirmwareRollbackSpec(View(old(uboot.lib.persistent)), raucConfigOk), ())
    {
      hide Legible, View, FirmwareRollbackSpec;
      r := StageFirmwareRollback(raucConfigOk);
      if r.Success? {
        r := Flush();
      }
    }

    method RollbackFirmware(raucConfigOk: bool) returns (r: Result<()>)
      requires Ready()
      modifies uboot, uboot.lib
      ensures r.Success? ==> uboot.lib.faults == old(uboot.lib.faults)
      ensures r.Success? ==> HasMarks(old(uboot.lib.persistent))
      ensures Ready() && Atomic(r.Failure?)
      ensures Clean() ==>
        Outcome(r, uboot.lib.persistent, FirmwareRollbackSpec(View(old(uboot.lib.persistent)), raucConfigOk), ())
    {
      hide Legible, View, FirmwareRollbackSpec;
      var access := uboot.OpenEnv();
      if access.Failure? {
        return access;
      }
      r := FirmwareRollbackInTransaction(raucConfigOk);
      uboot.CloseEnv();
    }

    // ----- rollback_application -----

    method SwitchApplication() returns (r: Result<()>)
      requires InTransaction()
      modifies uboot`variables, uboot.lib
      ensures uboot.Valid() && uboot.OnlyStaged() && StagesOwn(uboot.variables)
      ensures Clean() ==>
        var e := View(old(uboot.lib.persistent));
        var next := e.marks.App(Other(e.app));
        Outcome(r, uboot.Future(),
          if Uncommitted(next) then Failure(RollbackToUncommitted)
          else if Bad(next) then Failure(RollbackToBad)
          else Success(e.(app := Other(e.app), state := RollbackAppPending)), ())
    {
      hide Legible, View;
      uboot.NothingStaged();
      var update :- handler.GetUpdate();
      var index :- handler.GetUpdateBit(APP, true);
      var next := MarkOf(update[index]);
      if Uncommitted(next) {
        return Failure(RollbackToUncommitted);
      } else if Bad(next) {
        return Failure(RollbackToBad);
      }
      var _ :- handler.StageOtherApplication();
      handler.StageState(RollbackAppPending);
      r := Success(());
    }

    function ApplicationRollbackSpec(e: Env): Result<Env> {
      handler.Asking(PendingApp(e) || PendingAppFw(e) || AsksMount(e), BootEnv.RollbackApplication(e, handler.mounted))
    }

    /** What rollback_application stages, and whether it goes on to store it. */
    method StageApplicationRollback() returns (r: Result<bool>)
      requires InTransaction()
      modifies uboot`variables, uboot.lib
      ensures uboot.Valid() && uboot.OnlyStaged() && StagesOwn(uboot.variables)
      ensures r.Success? ==> HasMarks(old(uboot.lib.persistent))
      ensures Clean() ==>
        var e := View(old(uboot.lib.persistent));
        if !PendingApp(e) && PendingAppFw(e) && handler.loopReadable then r == Success(false)
        else Outcome(r, uboot.Future(), ApplicationRollbackSpec(e), true)
    {
      hide Legible, View, PendingApp, PendingAppFw, PendingRollback, ApplicationRollback;
      var pending :- handler.PendingApplicationUpdate();
      if pending {
        var _ :- handler.RollbackApplication();
        return Success(true);
      }
      var both :- handler.PendingApplicationFirmwareUpdate();
      if both {
        var _ :- handler.RollbackApplication();
        return Success(false);
      }
      var state :- handler.GetState();
      var rollback :- handler.PendingUpdateRollback(state);
      if rollback {
        return Failure(CommitRequired);
      }
      var _ :- SwitchApplication();
      r := Success(true);
    }

    method ApplicationRollbackInTransaction() returns (r: Result<()>)
      requires InTransaction()
      modifies uboot`variables, uboot.lib
      ensures r.Success? ==> uboot.lib.faults == old(uboot.lib.faults)
      ensures r.Success? ==> HasMarks(old(uboot.lib.persistent))
      ensures uboot.Valid() && uboot.envOpenCount == 1 && Atomic(r.Failure?)
      ensures Clean() ==>
        var e := View(old(uboot.lib.persistent));
        && Outcome(r, uboot.lib.persistent, ApplicationRollbackSpec(e), ())
        && (PendingAppFw(e) ==>
             uboot.lib.persistent == old(uboot.lib.persistent) && uboot.lib.stores == old(uboot.lib.stores))
    {
      hide Legible, View, PendingRollback, ApplicationRollback, OpenFw, OpenApp;
      var staged := StageApplicationRollback();
      if staged.Failure? {
        r := Failure(staged.error);
      } else if staged.value {
        r := Flush();
      } else {
        r := Success(());
      }
    }

    /** With both updates pending nothing is stored at all. */
    method RollbackApplication(raucConfigOk: bool) returns (r: Result<()>)
      requires Ready()
      modifies uboot, uboot.lib
      ensures r.Success? ==> uboot.lib.faults == old(uboot.lib.faults)
      ensures r.Success? ==> HasMarks(old(uboot.lib.persistent))
      ensures Ready() && Atomic(r.Failure?)
      ensures Clean() ==>
        var e := View(old(uboot.lib.persistent));
        && Outcome(r, uboot.lib.persistent,
             if raucConfigOk then ApplicationRollbackSpec(e) else Failure(RaucConfig), ())
        && (PendingAppFw(e) ==>
             uboot.lib.persistent == old(uboot.lib.persistent) && uboot.lib.stores == old(uboot.lib.stores))
    {
      hide Legible, View, BootEnv.RollbackApplication, PendingAppFw;
      var access := uboot.OpenEnv();
      if access.Failure? {
        return access;
      }
      if raucConfigOk {
        r := ApplicationRollbackInTransaction();
      } else {
        r := Failure(RaucConfig);
      }
      uboot.CloseEnv();
    }

    // ----- is_reboot_complete -----

    method IsRebootComplete(firmware: bool) returns (r: Result<bool>)
      requires Ready()
      modifies uboot.lib
      ensures Ready() && uboot.OnlyRead()
      ensures Clean() ==>
        var e := View(old(uboot.lib.persistent));
        r == if firmware then Success(FwRebootReported(e))
             else if handler.loopReadable then Success(AppRebooted(e, handler.mounted))
             else Failure(LoopDevices)
    {
      hide Legible, View, FwRebootReported, AppRebooted;
      if firmware {
        r := handler.FirmwareReboot();
      } else {
        r := handler.ApplicationReboot();
      }
    }

    // ----- set_update_state_bad -----

    predicate NamesSlot(state: char, id: nat) {
      state in {'a', 'A', 'b', 'B'} && id < 2
    }

    method StageBad(state: char, id: nat) returns (r: Result<()>)
      requires InTransaction() && NamesSlot(state, id)
      modifies uboot`variables, uboot.lib
      ensures uboot.Valid() && uboot.OnlyStaged() && StagesOwn(uboot.variables)
      ensures r.Success? ==> HasMarks(old(uboot.lib.persistent))
      ensures Clean() ==>
        r.Success? && Shows(uboot.Future(), SetBad(View(old(uboot.lib.persistent)),
          if id == 0 then FirmwarePart else ApplicationPart, if state in {'a', 'A'} then A else B))
    {
      hide Legible, View;
      uboot.NothingStaged();
      var update :- handler.GetUpdate();
      var slot := if state == 'B' || state == 'b' then B else A;
      var index := if id == 0 then FwIndex(slot) else AppIndex(slot);
      if !Bad(MarkOf(update[index])) {
        MarkWritten(update, slot, BAD);
        handler.StageUpdate(update[index := '2']);
      }
      r := Success(());
    }

    method SetUpdateStateBad(state: char, id: nat) returns (r: Result<int>)
      requires Ready()
      modifies uboot, uboot.lib
      ensures r.Success? ==> uboot.lib.faults == old(uboot.lib.faults)
      ensures r.Success? && NamesSlot(state, id) ==> HasMarks(old(uboot.lib.persistent))
      ensures Ready() && Atomic(r.Failure?)
      ensures !NamesSlot(state, id) ==> uboot.lib.persistent == old(uboot.lib.persistent)
      ensures Clean() ==> (r == Success(22) <==> id >= 2 || state !in "aAbB")
      ensures Clean() ==>
        if !NamesSlot(state, id) then r == Success(EINVAL)
        else r == Success(0) && Shows(uboot.lib.persistent, SetBad(View(old(uboot.lib.persistent)),
               if id == 0 then FirmwarePart else ApplicationPart, if state in {'a', 'A'} then A else B))
    {
      hide Legible, View, SetBad;
      var access := uboot.OpenEnv();
      if access.Failure? {
        return Failure(access.error);
      }
      if !NamesSlot(state, id) {
        r := Success(EINVAL);
      } else {
        var staged := StageBad(state, id);
        if staged.Success? {
          staged := Flush();
        }
        r := if staged.Success? then Success(0) else Failure(staged.error);
      }
      uboot.CloseEnv();
    }

    // ----- Installers -----

    /** The environment is closed; after a failed store something may still be staged. */
    ghost predicate Closed()
      reads this, uboot, uboot.lib
    {
      handler.uboot == uboot && uboot.Valid() && uboot.envOpenCount == 0 && StagesOwn(uboot.variables)
    }

    /** "rauc install" is a process of its own that stores the environment itself. */
    method RunRauc(rauc: Rauc) returns (ok: bool)
      requires Ready()
      modifies uboot.lib
      ensures Ready() && uboot.lib.persistent == RaucEffect(old(uboot.lib.persistent), rauc)
      ensures uboot.lib.faults == old(uboot.lib.faults) && ok == rauc.RaucOk?
    {
      uboot.lib.persistent := RaucEffect(uboot.lib.persistent, rauc);
      ok := rauc.RaucOk?;
    }

    method RestoreBootOrder() returns (r: Result<()>)
      requires InTransaction()
      modifies uboot`variables, uboot.lib
      ensures uboot.Valid() && uboot.envOpenCount == 1 && uboot.lib.faults >= old(uboot.lib.faults)
      ensures r.Failure? ==> uboot.lib.faults == old(uboot.lib.faults) ==> !Legible(old(uboot.lib.persistent))
      ensures r.Failure? ==> uboot.lib.persistent == old(uboot.lib.persistent)
      ensures r.Success? && Legible(old(uboot.lib.persistent)) ==>
        var e := View(old(uboot.lib.persistent));
        Shows(uboot.lib.persistent, e.(order := e.orderOld))
    {
      hide Legible, View;
      ghost var m := uboot.lib.persistent;
      uboot.NothingStaged();
      SlotTextRoundTrip(A);
      SlotTextRoundTrip(B);
      var bootOrder :- handler.GetOrder(BootOrder);
      var bootOrderOld :- handler.GetOrder(BootOrderOld);
      if bootOrder != bootOrderOld {
        handler.StageOrder(bootOrderOld);
        var _ :- Flush();
      }
      r := Success(());
    }

    /** rauc_handler::installBundle: after any error BOOT_ORDER is set back to BOOT_ORDER_OLD. */
    method InstallBundle(rauc: Rauc) returns (r: Result<()>)
      requires Ready()
      modifies uboot, uboot.lib
      ensures r.Success? ==> uboot.lib.faults == old(uboot.lib.faults)
      ensures Ready() && uboot.lib.faults >= old(uboot.lib.faults)
      ensures Legible(old(uboot.lib.persistent)) && uboot.lib.faults == old(uboot.lib.faults) ==>
        var e := View(old(uboot.lib.persistent));
        && (r == if rauc.RaucOk? then Success(()) else Failure(FirmwareInstall))
        && (rauc.target == Other(e.slot) ==>
              Shows(uboot.lib.persistent, InstallFw(e, FwRunOf(rauc, true))))
      ensures Legible(old(uboot.lib.persistent)) ==>
        var ran := RaucEnv(View(old(uboot.lib.persistent)), rauc);
        || Shows(uboot.lib.persistent, ran)
        || (r.Failure? && Shows(uboot.lib.persistent, ran.(order := ran.orderOld)))
    {
      hide Legible, View;
      ghost var m := uboot.lib.persistent;
      var ok := RunRauc(rauc);
      if Legible(m) {
        RaucShows(m, rauc);
      }
      if ok {
        return Success(());
      }
      var access := uboot.OpenEnv();
      if access.Failure? {
        return access;
      }
      r := RestoreBootOrder();
      uboot.CloseEnv();
      if r.Success? {
        r := Failure(FirmwareInstall);
      }
    }

    /** firmwareUpdate::install. */
    method InstallFirmware(rauc: Rauc, syncOk: bool) returns (r: Result<()>)
      requires Ready()
      modifies uboot, uboot.lib
      ensures r.Success? ==> uboot.lib.faults == old(uboot.lib.faults)
      ensures Ready() && uboot.lib.faults >= old(uboot.lib.faults)
      ensures Legible(old(uboot.lib.persistent)) && uboot.lib.faults == old(uboot.lib.faults) ==>
        var e := View(old(uboot.lib.persistent));
        var run := FwRunOf(rauc, syncOk);
        && (r == if run.FwInstalled? then Success(()) else Failure(FirmwareInstall))
        && (rauc.target == Other(e.slot) ==> Shows(uboot.lib.persistent, InstallFw(e, run)))
      ensures Legible(old(uboot.lib.persistent)) ==>
        var ran := RaucEnv(View(old(uboot.lib.persistent)), rauc);
        || Shows(uboot.lib.persistent, ran)
        || (r.Failure? && Shows(uboot.lib.persistent, ran.(order := ran.orderOld)))
    {
      hide Legible, View;
      var _ :- InstallBundle(rauc);
      if !syncOk {
        return Failure(FirmwareInstall);
      }
      r := Success(());
    }

    /** applicationUpdate::install, once the bundle has been verified and copied or rejected. The
        selected application is stored outside any transaction, so a failed store leaves it staged. */
    method InstallApplication(accepted: bool) returns (r: Result<()>)
      requires Ready()
      modifies uboot, uboot.lib
      ensures Closed() && uboot.lib.faults >= old(uboot.lib.faults)
      ensures r.Success? || uboot.lib.faults == old(uboot.lib.faults) ==> Ready()
      ensures r.Failure? ==> uboot.lib.persistent == old(uboot.lib.persistent)
      ensures r.Success? ==> uboot.lib.faults == old(uboot.lib.faults)
      ensures r.Success? ==> accepted && uboot.lib.stores == old(uboot.lib.stores) + 1
      ensures r.Failure? ==> uboot.lib.stores == old(uboot.lib.stores)
      ensures r.Failure? && uboot.variables == map[] ==> r.error !in {EnvWrite, EnvStore}
      ensures Legible(old(uboot.lib.persistent)) && r.Failure? && uboot.variables != map[] ==>
        var e := View(old(uboot.lib.persistent));
        Shows(uboot.Future(), e.(app := Other(e.app)))
      ensures Legible(old(uboot.lib.persistent)) && uboot.lib.faults == old(uboot.lib.faults) ==>
        var e := View(old(uboot.lib.persistent));
        if accepted then r == Success(()) && Shows(uboot.lib.persistent, e.(app := Other(e.app)))
        else r == Failure(ApplicationInstall)
    {
      hide Stoul, IsMarks, DecodeMarks;
      ghost var m := uboot.lib.persistent;
      uboot.NothingStaged();
      TextsDiffer();
      var currentApp :- uboot.GetChar(Application, ALLOWED_APPLICATIONS);
      if !accepted {
        return Failure(ApplicationInstall);
      }
      handler.StageApplication(if currentApp == 'A' then "B" else "A");
      var _ :- uboot.FlushEnvironment();
      r := Success(());
    }

    // ----- update_firmware, update_application, update_firmware_and_application -----

    /** The refusal of decorator_update_state: whichever reason it finds, the exception is the same. */
    method RefuseUpdate() returns (r: Result<()>)
      requires Ready()
      modifies uboot.lib
      ensures Ready() && uboot.OnlyRead() && r.Failure?
      ensures Clean() ==> r == Failure(UpdateInProgress)
    {
      hide Legible, View, OpenFw, OpenApp;
      var failedFw :- handler.FailedFirmwareUpdate();
      if !failedFw {
        var failedApp :- handler.FailedApplicationUpdate();
        if !failedApp {
          var pendingFw :- handler.PendingFirmwareUpdate();
          if !pendingFw {
            var pendingApp :- handler.PendingApplicationUpdate();
            if !pendingApp {
              var _ :- handler.PendingApplicationFirmwareUpdate();
            }
          }
        }
      }
      r := Failure(UpdateInProgress);
    }

    /** decorator_update_state: an update starts only when update_reboot_state is 0. */
    method StartUpdate() returns (r: Result<()>)
      requires Ready()
      modifies uboot.lib
      ensures Ready() && uboot.OnlyRead()
      ensures r.Success? ==> uboot.lib.faults == old(uboot.lib.faults)
      ensures Clean() ==>
        r == if NoUpdate(View(old(uboot.lib.persistent))) then Success(()) else Failure(UpdateInProgress)
    {
      hide Legible, View;
      var idle :- handler.NoUpdateProcessing();
      if idle {
        r := Success(());
      } else {
        r := RefuseUpdate();
      }
    }

    /** Stages an uncommitted mark for the next slot together with the state, stores both, and
        returns the text of "update". */
    method MarkInTransaction(flag: Flag, state: RebootState) returns (r: Result<string>)
      requires InTransaction()
      modifies uboot`variables, uboot.lib
      ensures uboot.Valid() && uboot.envOpenCount == 1 && Atomic(r.Failure?)
      ensures r.Success? ==> HasMarks(old(uboot.lib.persistent))
      ensures r.Success? ==> IsMarks(r.value)
      ensures r.Success? ==> uboot.lib.faults == old(uboot.lib.faults)
      ensures Clean() ==>
        var e := View(old(uboot.lib.persistent));
        var marked := e.(marks := Marked(e.marks, e, flag, true, UNCOMMITTED), state := state);
        r.Success? && DecodeMarks(r.value) == marked.marks && Shows(uboot.lib.persistent, marked)
    {
      hide Legible, View;
      uboot.NothingStaged();
      var update :- handler.GetUpdate();
      update :- handler.WithMark(update, flag, true, UNCOMMITTED);
      handler.StageUpdate(update);
      handler.StageState(state);
      var _ :- Flush();
      r := Success(update);
    }

    method MarkNext(flag: Flag, state: RebootState) returns (r: Result<string>)
      requires Ready()
      modifies uboot, uboot.lib
      ensures Ready() && Atomic(r.Failure?)
      ensures r.Success? ==> HasMarks(old(uboot.lib.persistent))
      ensures r.Success? ==> IsMarks(r.value)
      ensures r.Success? ==> uboot.lib.faults == old(uboot.lib.faults)
      ensures Clean() ==>
        var e := View(old(uboot.lib.persistent));
        var marked := e.(marks := Marked(e.marks, e, flag, true, UNCOMMITTED), state := state);
        r.Success? && DecodeMarks(r.value) == marked.marks && Shows(uboot.lib.persistent, marked)
    {
      hide Legible, View, DecodeMarks, Marked;
      var access := uboot.OpenEnv();
      if access.Failure? {
        return Failure(access.error);
      }
      r := MarkInTransaction(flag, state);
      uboot.CloseEnv();
    }

    /** The catch blocks: the failed state is stored, with whatever is still staged. */
    method RecordFailure(state: RebootState) returns (r: Result<()>)
      requires Closed()
      modifies uboot, uboot.lib
      ensures Closed() && uboot.lib.faults == old(uboot.lib.faults) + (if r.Success? then 0 else 1)
      ensures r.Success? ==> Ready() && uboot.lib.stores == old(uboot.lib.stores) + 1
      ensures r.Failure? ==>
        uboot.lib.stores == old(uboot.lib.stores) && uboot.lib.persistent == old(uboot.lib.persistent)
      ensures r.Success? && Legible(old(uboot.Future())) ==>
        Shows(uboot.lib.persistent, View(old(uboot.Future())).(state := state))
    {
      hide Legible, View;
      handler.StageState(state);
      var _ :- uboot.FlushEnvironment();
      r := Success(());
    }

    method UpdateFirmware(rauc: Rauc, syncOk: bool) returns (r: Result<()>)
      requires Ready()
      modifies uboot, uboot.lib
      ensures r.Success? ==> uboot.lib.faults == old(uboot.lib.faults)
      ensures r.Success? ==> HasMarks(old(uboot.lib.persistent))
      ensures Closed() && (uboot.lib.faults == old(uboot.lib.faults) ==> Ready())
      ensures uboot.lib.faults >= old(uboot.lib.faults)
      ensures Clean() ==>
        var e := View(old(uboot.lib.persistent));
        var run := FwRunOf(rauc, syncOk);
        && (r == if !NoUpdate(e) then Failure(UpdateInProgress)
                 else if run.FwInstalled? then Success(()) else Failure(FirmwareInstall))
        && (rauc.target == Other(e.slot) ==> Shows(uboot.lib.persistent, UpdateFw(e, run)))
      ensures Readable(old(uboot.lib.persistent)) ==>
        Holds(uboot.lib.persistent, FwLeavings(View(old(uboot.lib.persistent)), rauc))
    {
      hide Legible, View, InstallFw;
      var _ :- StartUpdate();
      var _ :- MarkNext(OS, IncompleteFw);
      var installed := InstallFirmware(rauc, syncOk);
      if installed.Failure? {
        uboot.NothingStaged();
        var _ :- RecordFailure(FailedFw);
        return installed;
      }
      r := Success(());
    }

    /** When the application has been installed but its name cannot be stored, and the store works
        again for the failure record, the record also selects the new application. */
    method UpdateApplication(raucConfigOk: bool, accepted: bool) returns (r: Result<()>)
      requires Ready()
      modifies uboot, uboot.lib
      ensures r.Success? ==> uboot.lib.faults == old(uboot.lib.faults)
      ensures r.Success? ==> HasMarks(old(uboot.lib.persistent))
      ensures Closed() && (uboot.lib.faults == old(uboot.lib.faults) ==> Ready())
      ensures uboot.lib.faults >= old(uboot.lib.faults)
      ensures Clean() ==>
        var e := View(old(uboot.lib.persistent));
        && (r == if !raucConfigOk then Failure(RaucConfig)
                 else if !NoUpdate(e) then Failure(UpdateInProgress)
                 else if accepted then Success(()) else Failure(ApplicationInstall))
        && (raucConfigOk ==>
             Shows(uboot.lib.persistent, UpdateApp(e, if accepted then AppInstalled else AppRejected)))
      ensures
        && r.Failure? && r.error in {EnvWrite, EnvStore} && uboot.lib.stores == old(uboot.lib.stores) + 2
        && Readable(old(uboot.lib.persistent)) && NoUpdate(View(old(uboot.lib.persistent)))
        ==> Shows(uboot.lib.persistent, UpdateApp(View(old(uboot.lib.persistent)), AppNotStored))
      ensures Readable(old(uboot.lib.persistent)) ==>
        Holds(uboot.lib.persistent, AppLeavings(View(old(uboot.lib.persistent))))
    {
      hide Legible, View;
      if !raucConfigOk {
        return Failure(RaucConfig);
      }
      var _ :- StartUpdate();
      var _ :- MarkNext(APP, IncompleteApp);
      var installed := InstallApplication(accepted);
      if installed.Failure? {
        if uboot.variables == map[] {
          uboot.NothingStaged();
        }
        var _ :- RecordFailure(FailedApp);
        return installed;
      }
      r := Success(());
    }

    /** The second transaction of a combined update. The changed text of "update" comes back even
        when the store fails, as the handler of the failure goes on with it. */
    method MarkApplicationInTransaction(update: string) returns (r: Result<()>, changed: string)
      requires InTransaction() && IsMarks(update)
      modifies uboot`variables, uboot.lib
      ensures r.Success? ==> uboot.lib.faults == old(uboot.lib.faults)
      ensures uboot.Valid() && uboot.envOpenCount == 1 && Atomic(r.Failure?) && IsMarks(changed)
      ensures handler.Calm() ==>
        var e := View(old(uboot.lib.persistent));
        var marks := DecodeMarks(update).WithApp(Other(e.app), UNCOMMITTED);
        && r == Success(()) && DecodeMarks(changed) == marks
        && Shows(uboot.lib.persistent, e.(marks := marks, state := IncompleteAppFw))
      ensures Legible(old(uboot.lib.persistent)) ==>
        var e := View(old(uboot.lib.persistent));
        var marks := DecodeMarks(update).WithApp(Other(e.app), UNCOMMITTED);
        && DecodeMarks(changed) == marks
        && (r.Success? ==> Shows(uboot.lib.persistent, e.(marks := marks, state := IncompleteAppFw)))
    {
      hide Legible, View;
      uboot.NothingStaged();
      ghost var m := uboot.lib.persistent;
      changed := update;
      var index := handler.GetUpdateBit(APP, true);
      if index.Failure? {
        return Failure(index.error), changed;
      }
      changed := update[index.value := '1'];
      if Legible(m) {
        MarkWritten(update, Other(View(m).app), UNCOMMITTED);
      }
      handler.StageUpdate(changed);
      handler.StageState(IncompleteAppFw);
      r := Flush();
    }

    method MarkApplicationToo(update: string) returns (r: Result<()>, changed: string)
      requires Ready() && IsMarks(update)
      modifies uboot, uboot.lib
      ensures r.Success? ==> uboot.lib.faults == old(uboot.lib.faults)
      ensures Ready() && Atomic(r.Failure?) && IsMarks(changed)
      ensures Legible(old(uboot.lib.persistent)) && uboot.lib.faults == old(uboot.lib.faults) ==>
        var e := View(old(uboot.lib.persistent));
        var marks := DecodeMarks(update).WithApp(Other(e.app), UNCOMMITTED);
        && r == Success(()) && DecodeMarks(changed) == marks
        && Shows(uboot.lib.persistent, e.(marks := marks, state := IncompleteAppFw))
      ensures Legible(old(uboot.lib.persistent)) ==>
        var e := View(old(uboot.lib.persistent));
        var marks := DecodeMarks(update).WithApp(Other(e.app), UNCOMMITTED);
        && DecodeMarks(changed) in {DecodeMarks(update), marks}
        && (r.Success? ==>
              DecodeMarks(changed) == marks &&
              Shows(uboot.lib.persistent, e.(marks := marks, state := IncompleteAppFw)))
    {
      hide Legible, View, DecodeMarks, IsMarks;
      changed := update;
      r := uboot.OpenEnv();
      if r.Failure? {
        return;
      }
      r, changed := MarkApplicationInTransaction(update);
      uboot.CloseEnv();
    }

    method StageAbandoned(update: string) returns (r: Result<()>)
      requires handler.uboot == uboot && uboot.Valid() && uboot.envOpenCount == 1 && StagesOwn(uboot.variables)
      requires uboot.lib.cache == uboot.lib.persistent && IsMarks(update)
      modifies uboot`variables, uboot.lib
      ensures uboot.Valid() && uboot.OnlyStaged() && StagesOwn(uboot.variables)
      ensures Legible(old(uboot.lib.persistent)) && Legible(old(uboot.Future())) ==>
        var e := View(old(uboot.lib.persistent));
        && r == Success(())
        && Shows(uboot.Future(), View(old(uboot.Future())).(
             marks := DecodeMarks(update).WithFw(Other(e.slot), COMMITTED), order := e.orderOld, state := FailedApp))
    {
      hide Legible, View, DecodeMarks, IsOrder, DecodeOrder;
      ghost var m := uboot.lib.persistent;
      if Legible(m) {
        LegibleOrderOld(m);
      }
      var index :- handler.GetUpdateBit(OS, true);
      var changed := update[index := '0'];
      handler.StageState(FailedApp);
      var bootOrderOld :- uboot.GetVariable(BootOrderOld);
      handler.StageOrder(bootOrderOld);
      handler.StageUpdate(changed);
      if Legible(m) {
        MarkWritten(update, Other(View(m).slot), COMMITTED);
      }
      r := Success(());
    }

    /** The handler of a failed application part: the firmware part is undone in the environment. */
    method AbandonInTransaction(update: string) returns (r: Result<()>)
      requires handler.uboot == uboot && uboot.Valid() && uboot.envOpenCount == 1 && StagesOwn(uboot.variables)
      requires uboot.lib.cache == uboot.lib.persistent && IsMarks(update)
      modifies uboot`variables, uboot.lib
      ensures uboot.Valid() && uboot.envOpenCount == 1 && Atomic(r.Failure?)
      ensures Legible(old(uboot.lib.persistent)) && Legible(old(uboot.Future())) ==>
        && (uboot.lib.faults == old(uboot.lib.faults) ==> r == Success(()))
        && (r.Success? ==>
              var e := View(old(uboot.lib.persistent));
              Shows(uboot.lib.persistent, View(old(uboot.Future())).(
                marks := DecodeMarks(update).WithFw(Other(e.slot), COMMITTED),
                order := e.orderOld, state := FailedApp)))
    {
      hide Legible, View, DecodeMarks, IsMarks;
      var _ :- StageAbandoned(update);
      r := Flush();
    }

    method AbandonFirmware(update: string) returns (r: Result<()>)
      requires Closed() && IsMarks(update)
      modifies uboot, uboot.lib
      ensures Closed() && uboot.lib.faults >= old(uboot.lib.faults)
      ensures uboot.lib.faults == old(uboot.lib.faults) ==> Ready()
      ensures r.Failure? ==> uboot.lib.persistent == old(uboot.lib.persistent)
      ensures Legible(old(uboot.lib.persistent)) && Legible(old(uboot.Future())) ==>
        && (uboot.lib.faults == old(uboot.lib.faults) ==> r == Success(()))
        && (r.Success? ==>
              var e := View(old(uboot.lib.persistent));
              Shows(uboot.lib.persistent, View(old(uboot.Future())).(
                marks := DecodeMarks(update).WithFw(Other(e.slot), COMMITTED),
                order := e.orderOld, state := FailedApp)))
    {
      hide Legible, View, DecodeMarks, IsMarks;
      var access := uboot.OpenEnv();
      if access.Failure? {
        return access;
      }
      r := AbandonInTransaction(update);
      uboot.CloseEnv();
    }

    /** The first try block and its handler. */
    method UpdateFirmwarePart(rauc: Rauc, syncOk: bool) returns (r: Result<string>)
      requires Ready()
      modifies uboot, uboot.lib
      ensures r.Success? ==> uboot.lib.faults == old(uboot.lib.faults)
      ensures r.Success? ==> HasMarks(old(uboot.lib.persistent))
      ensures Closed() && uboot.lib.faults >= old(uboot.lib.faults)
      ensures r.Success? || uboot.lib.faults == old(uboot.lib.faults) ==> Ready()
      ensures r.Success? ==> IsMarks(r.value)
      ensures Clean() ==>
        var e := View(old(uboot.lib.persistent));
        var run := FwRunOf(rauc, syncOk);
        var installed := InstallFw(MarkFw(e), run);
        && (if run.FwInstalled? then r.Success? && DecodeMarks(r.value) == MarkFw(e).marks
            else r == Failure(FirmwareInstall))
        && (rauc.target == Other(e.slot) ==>
              Shows(uboot.lib.persistent, if run.FwInstalled? then installed else installed.(state := FailedFw)))
      ensures Readable(old(uboot.lib.persistent)) ==>
        var e := View(old(uboot.lib.persistent));
        if r.Success? then
          DecodeMarks(r.value) == MarkFw(e).marks && Shows(uboot.lib.persistent, RaucEnv(MarkFw(e), rauc))
        else Holds(uboot.lib.persistent, FwLeavings(e, rauc) + {e.(state := FailedFw)})
    {
      hide Legible, View, InstallFw, DecodeMarks, IsMarks;
      var marked := MarkNext(OS, IncompleteFw);
      var error := marked;
      if marked.Success? {
        var installed := InstallFirmware(rauc, syncOk);
        if installed.Success? {
          return marked;
        }
        error := Failure(installed.error);
      }
      uboot.FreeVariables();
      uboot.NothingStaged();
      var _ :- RecordFailure(FailedFw);
      return error;
    }

    /** The second try block and its handler. */
    method UpdateApplicationPart(update: string, accepted: bool) returns (r: Result<()>)
      requires Ready() && IsMarks(update)
      modifies uboot, uboot.lib
      ensures r.Success? ==> uboot.lib.faults == old(uboot.lib.faults)
      ensures Closed() && uboot.lib.faults >= old(uboot.lib.faults)
      ensures uboot.lib.faults == old(uboot.lib.faults) ==> Ready()
      ensures Legible(old(uboot.lib.persistent)) && uboot.lib.faults == old(uboot.lib.faults) ==>
        var e := View(old(uboot.lib.persistent));
        var marks := DecodeMarks(update).WithApp(Other(e.app), UNCOMMITTED);
        if accepted then
          r == Success(()) &&
          Shows(uboot.lib.persistent, e.(marks := marks, state := IncompleteAppFw, app := Other(e.app)))
        else
          r == Failure(ApplicationInstall) &&
          Shows(uboot.lib.persistent, e.(marks := marks.WithFw(Other(e.slot), COMMITTED),
                                         order := e.orderOld, state := FailedApp))
      ensures Legible(old(uboot.lib.persistent)) ==>
        Holds(uboot.lib.persistent, AppPartLeavings(View(old(uboot.lib.persistent)), DecodeMarks(update)))
    {
      hide Legible, View, DecodeMarks, IsMarks;
      var error, changed := MarkApplicationToo(update);
      if error.Success? {
        error := InstallApplication(accepted);
        if error.Success? {
          return Success(());
        }
      }
      if uboot.variables == map[] {
        uboot.NothingStaged();
      }
      var _ :- AbandonFirmware(changed);
      return error;
    }

    method UpdateFirmwareAndApplication(raucConfigOk: bool, rauc: Rauc, syncOk: bool, accepted: bool)
      returns (r: Result<()>)
      requires Ready()
      modifies uboot, uboot.lib
      ensures r.Success? ==> uboot.lib.faults == old(uboot.lib.faults)
      ensures r.Success? ==> HasMarks(old(uboot.lib.persistent))
      ensures Closed() && (uboot.lib.faults == old(uboot.lib.faults) ==> Ready())
      ensures uboot.lib.faults >= old(uboot.lib.faults)
      ensures Clean() ==>
        var e := View(old(uboot.lib.persistent));
        var run := FwRunOf(rauc, syncOk);
        && (r == if !raucConfigOk then Failure(RaucConfig)
                 else if !NoUpdate(e) then Failure(UpdateInProgress)
                 else if !run.FwInstalled? then Failure(FirmwareInstall)
                 else if accepted then Success(()) else Failure(ApplicationInstall))
        && (rauc.target == Other(e.slot) && raucConfigOk ==>
             Shows(uboot.lib.persistent, UpdateAppFw(e, run, if accepted then AppInstalled else AppRejected)))
      ensures Readable(old(uboot.lib.persistent)) ==>
        Holds(uboot.lib.persistent, BothLeavings(View(old(uboot.lib.persistent)), rauc))
    {
      hide Legible, View, DecodeMarks, IsMarks;
      if !raucConfigOk {
        return Failure(RaucConfig);
      }
      var _ :- StartUpdate();
      var update :- UpdateFirmwarePart(rauc, syncOk);
      r := UpdateApplicationPart(update, accepted);
    }
  }
}
