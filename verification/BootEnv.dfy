/**
 The boot environment as the library understands it, and what each public call of
 FSUpdate does to it. These are the specification functions: the classes in Bootstate.dfy
 and FsUpdate.dfy are proved against them, and Protocol.dfy reasons about their runs.
 */
module BootEnv {
  import opened Results

  datatype Slot = A | B

  function Other(s: Slot): Slot {
    if s == A then B else A
  }

  /** Bit 0: uncommitted. Bit 1: bad. */
  type Mark = m: int | 0 <= m <= 3

  const COMMITTED: Mark := 0
  const UNCOMMITTED: Mark := 1
  const BAD: Mark := 2

  predicate Uncommitted(m: Mark) {
    m % 2 == 1
  }

  predicate Bad(m: Mark) {
    m >= 2
  }

  /** The "update" variable: one mark per firmware and application slot. */
  datatype Marks = Marks(fwA: Mark, appA: Mark, fwB: Mark, appB: Mark) {
    function Fw(s: Slot): Mark {
      if s == A then fwA else fwB
    }
    function App(s: Slot): Mark {
      if s == A then appA else appB
    }
    function WithFw(s: Slot, m: Mark): Marks {
      if s == A then this.(fwA := m) else this.(fwB := m)
    }
    function WithApp(s: Slot, m: Mark): Marks {
      if s == A then this.(appA := m) else this.(appB := m)
    }
    /** At most one firmware and at most one application slot is uncommitted. */
    predicate Valid() {
      !(Uncommitted(fwA) && Uncommitted(fwB)) && !(Uncommitted(appA) && Uncommitted(appB))
    }
  }

  /** update_reboot_state, in the order of its numbers 0 to 12. */
  datatype RebootState =
    | Idle
    | FwRebootFailed
    | IncompleteFw
    | IncompleteApp
    | IncompleteAppFw
    | FailedFw
    | FailedApp
    | RollbackFwPending
    | RollbackAppPending
    | RollbackAppFwPending
    | IncompleteFwRollback
    | IncompleteAppRollback
    | IncompleteAppFwRollback

  type Tries = n: int | 0 <= n <= 3

  /** A boot order is given by its head: "A B" is A, "B A" is B. */
  datatype Env = Env(
    marks: Marks,
    state: RebootState,
    order: Slot,
    orderOld: Slot,
    leftA: Tries,
    leftB: Tries,
    slot: Slot,      // rauc_cmd: the firmware slot that is running
    app: Slot        // the application slot to mount at the next boot
  ) {
    function Left(s: Slot): Tries {
      if s == A then leftA else leftB
    }
    function WithLeft(s: Slot, n: Tries): Env {
      if s == A then this.(leftA := n) else this.(leftB := n)
    }
    function FullTries(): Env {
      this.(leftA := 3, leftB := 3)
    }
  }

  /** The variables the library uses; every other name is free. */
  datatype Key =
    | Update | UpdateRebootState | BootOrder | BootOrderOld | BootALeft | BootBLeft | RaucCmd | Application
    | Unrelated(name: string)

  // ----- Detection predicates (Bootstate) -----

  /** get_complete_update reports the firmware slot (the running one, or the next one). */
  predicate OpenFw(e: Env, next: bool) {
    Uncommitted(e.marks.Fw(if next then Other(e.slot) else e.slot))
  }

  /** get_complete_update reports the application slot (the selected one, or the next one). */
  predicate OpenApp(e: Env, next: bool) {
    Uncommitted(e.marks.App(if next then Other(e.app) else e.app))
  }

  predicate PendingApp(e: Env) {
    !OpenFw(e, false) && OpenApp(e, false) && e.state == IncompleteApp
  }

  predicate PendingFw(e: Env) {
    || (OpenFw(e, false) && !OpenApp(e, false) && e.state == IncompleteFw)
    || (OpenFw(e, true) && !OpenApp(e, true) && e.state == IncompleteFw)
  }

  predicate PendingAppFw(e: Env) {
    || (OpenFw(e, false) && OpenApp(e, false) && e.state == IncompleteAppFw)
    || (OpenFw(e, true) && (OpenApp(e, false) || OpenApp(e, true)) && e.state == IncompleteAppFw)
  }

  predicate FailedFwUpdate(e: Env) {
    OpenFw(e, true) && !OpenApp(e, true) && e.state == FailedFw
  }

  predicate FailedRebootFwUpdate(e: Env) {
    OpenFw(e, false) && !OpenApp(e, false) && e.state == FwRebootFailed
  }

  predicate FailedAppUpdate(e: Env) {
    !OpenFw(e, true) && OpenApp(e, true) && e.state == FailedApp
  }

  predicate NoUpdate(e: Env) {
    e.state == Idle
  }

  // ----- Reboot verdicts -----

  predicate RebootFailed(e: Env) {
    e.slot == e.orderOld && (e.leftA == 0 || e.leftB == 0) && e.orderOld != e.order
  }

  predicate RebootSuccessful(e: Env) {
    e.slot == e.order && e.orderOld != e.order
  }

  predicate RebootMissing(e: Env) {
    e.slot != e.order && e.leftA == 3 && e.leftB == 3 && e.orderOld != e.order
  }

  predicate PendingFwRollback(e: Env) {
    !RebootSuccessful(e) && RebootFailed(e)
  }

  /** application_reboot: the mounted application is the selected one. */
  predicate AppRebooted(e: Env, mounted: Slot) {
    mounted == e.app
  }

  /** firmware_reboot: after a rollback the head of the order runs, otherwise no reboot is missing. */
  predicate FwRebootReported(e: Env) {
    if e.state in {RollbackFwPending, RollbackAppFwPending} then e.slot == e.order else !RebootMissing(e)
  }

  predicate PendingRollback(e: Env, mounted: Slot) {
    match e.state
    case IncompleteAppFwRollback | IncompleteFwRollback | IncompleteAppRollback => true
    case RollbackAppFwPending => (OpenFw(e, false) && OpenApp(e, false)) || PendingFwRollback(e)
    case RollbackFwPending => (OpenFw(e, false) && !OpenApp(e, false)) || PendingFwRollback(e)
    case RollbackAppPending => (!OpenFw(e, false) && OpenApp(e, false)) || AppRebooted(e, mounted)
    case _ => false
  }

  /** The states in which the question for a pending rollback asks for the mounted application. */
  predicate AsksMount(e: Env) {
    e.state == RollbackAppPending && !(!OpenFw(e, false) && OpenApp(e, false))
  }

  // ----- commit_update -----

  function ConfirmFailedFw(e: Env): Env {
    e.(marks := e.marks.WithFw(Other(e.slot), BAD), state := Idle)
  }

  function ConfirmFailedRebootFw(e: Env): Env {
    e.(marks := e.marks.WithFw(e.slot, BAD), state := Idle)
  }

  function ConfirmFailedApp(e: Env): Env {
    e.(marks := e.marks.WithApp(Other(e.app), BAD), state := Idle)
  }

  function ConfirmPendingFw(e: Env): Result<Env> {
    if RebootFailed(e) then
      Success(e.(marks := e.marks.WithFw(Other(e.slot), BAD), order := e.orderOld, state := Idle).FullTries())
    else if RebootMissing(e) then
      Failure(MissingReboot)
    else if RebootSuccessful(e) then
      Success(e.(marks := e.marks.WithFw(e.slot, COMMITTED), orderOld := e.order, state := Idle).FullTries())
    else
      Failure(RebootStateNotDefined)
  }

  function ConfirmPendingApp(e: Env, mounted: Slot): Result<Env> {
    if AppRebooted(e, mounted) then
      Success(e.(marks := e.marks.WithApp(e.app, COMMITTED), state := Idle))
    else
      Failure(MissingReboot)
  }

  function ConfirmPendingAppFw(e: Env): Result<Env> {
    if RebootFailed(e) then
      Success(e.(
        marks := e.marks.WithApp(e.app, COMMITTED).WithFw(Other(e.slot), BAD),
        app := Other(e.app), order := e.orderOld, state := Idle).FullTries())
    else if RebootMissing(e) then
      Failure(MissingReboot)
    else if RebootSuccessful(e) then
      Success(e.(
        marks := e.marks.WithFw(e.slot, COMMITTED).WithApp(e.app, COMMITTED),
        orderOld := e.order, state := Idle).FullTries())
    else
      Failure(RebootStateNotDefined)
  }

  /** The firmware part of confirmUpdateRollback: keep a switch to a committed slot, else condemn the other slot. */
  function SettleFwRollback(e: Env): Env {
    if e.marks.Fw(Other(e.slot)) == COMMITTED then
      e.(orderOld := e.order)
    else
      e.(marks := e.marks.WithFw(Other(e.slot), BAD), order := e.orderOld)
  }

  /** The application part of confirmUpdateRollback: an uncommitted application left behind is bad. */
  function SettleAppRollback(e: Env): Env {
    if e.marks.App(Other(e.app)) == UNCOMMITTED then
      e.(marks := e.marks.WithApp(Other(e.app), BAD))
    else e
  }

  function ConfirmBothBack(e: Env): Env {
    SettleAppRollback(SettleFwRollback(e)).FullTries().(state := Idle)
  }

  function ConfirmFwBack(e: Env): Env {
    SettleFwRollback(e).FullTries().(state := Idle)
  }

  function ConfirmAppBack(e: Env): Env {
    SettleAppRollback(e).(state := Idle)
  }

  function ConfirmRollback(e: Env): Result<Env> {
    match e.state
    case IncompleteAppFwRollback | RollbackAppFwPending =>
      Success(ConfirmBothBack(e))
    case IncompleteFwRollback | RollbackFwPending =>
      Success(ConfirmFwBack(e))
    case IncompleteAppRollback | RollbackAppPending =>
      Success(ConfirmAppBack(e))
    case _ => Failure(ConfirmRefused)
  }

  /** The environment commit_update stores. */
  function Commit(e: Env, mounted: Slot): Result<Env> {
    if PendingApp(e) then ConfirmPendingApp(e, mounted)
    else if PendingFw(e) then ConfirmPendingFw(e)
    else if PendingAppFw(e) then ConfirmPendingAppFw(e)
    else CommitFailure(e, mounted)
  }

  function CommitFailure(e: Env, mounted: Slot): Result<Env> {
    if FailedFwUpdate(e) then Success(ConfirmFailedFw(e))
    else if FailedRebootFwUpdate(e) then Success(ConfirmFailedRebootFw(e))
    else if FailedAppUpdate(e) then Success(ConfirmFailedApp(e))
    else CommitRest(e, mounted)
  }

  function CommitRest(e: Env, mounted: Slot): Result<Env> {
    if NoUpdate(e) then Success(e.WithLeft(e.slot, 3))
    else if PendingRollback(e, mounted) then ConfirmRollback(e)
    else Failure(NotAllowedUpdateState)
  }

  /** The boolean commit_update returns when it does not throw. */
  predicate CommitReports(e: Env) {
    !NoUpdate(e) || e.Left(e.slot) < 3
  }

  // ----- rollback_firmware and rollback_application -----

  function FirmwareRollback(e: Env): Env {
    if RebootMissing(e) then
      e.(marks := e.marks.WithFw(e.slot, COMMITTED), order := e.orderOld, state := Idle).FullTries()
    else if RebootSuccessful(e) then
      e.WithLeft(e.slot, 0).(state := RollbackFwPending)
    else e
  }

  function RollbackFirmware(e: Env, mounted: Slot): Result<Env> {
    if PendingAppFw(e) then
      Success(FirmwareRollback(e).(app := Other(e.app), state := RollbackAppFwPending))
    else if PendingFw(e) then
      Success(FirmwareRollback(e))
    else if PendingRollback(e, mounted) then Failure(CommitRequired)
    else if Uncommitted(e.marks.Fw(Other(e.slot))) then Failure(RollbackToUncommitted)
    else if Bad(e.marks.Fw(Other(e.slot))) then Failure(RollbackToBad)
    else Success(e.(order := Other(e.slot), orderOld := e.slot, state := RollbackFwPending))
  }

  function ApplicationRollback(e: Env, mounted: Slot): Env {
    if AppRebooted(e, mounted) then
      e.(app := Other(e.app), state := RollbackAppPending)
    else
      // The mark that is cleared is the one of the application read before the staged change is stored.
      e.(app := Other(e.app), marks := e.marks.WithApp(e.app, COMMITTED), state := Idle)
  }

  function RollbackApplication(e: Env, mounted: Slot): Result<Env> {
    if PendingApp(e) then Success(ApplicationRollback(e, mounted))
    else if PendingAppFw(e) then Success(e)
    else if PendingRollback(e, mounted) then Failure(CommitRequired)
    else if Uncommitted(e.marks.App(Other(e.app))) then Failure(RollbackToUncommitted)
    else if Bad(e.marks.App(Other(e.app))) then Failure(RollbackToBad)
    else Success(e.(app := Other(e.app), state := RollbackAppPending))
  }

  // ----- set_update_state_bad -----

  datatype Part = FirmwarePart | ApplicationPart

  function SetBad(e: Env, part: Part, s: Slot): Env {
    match part
    case FirmwarePart => if Bad(e.marks.Fw(s)) then e else e.(marks := e.marks.WithFw(s, BAD))
    case ApplicationPart => if Bad(e.marks.App(s)) then e else e.(marks := e.marks.WithApp(s, BAD))
  }

  // ----- update_firmware, update_application, update_firmware_and_application -----

  /** How the firmware installer ends: as intended, with an error from RAUC (whatever it did to
      the counter of the target slot), or with an error from "sync" after RAUC succeeded. */
  datatype FwRun = FwInstalled | RaucFailed(left: Tries) | SyncFailed

  /** How the application installer ends: as intended, with a bundle that is rejected or cannot be
      copied, or with an error when the name of the installed application is to be stored. */
  datatype AppRun = AppInstalled | AppRejected | AppNotStored

  function MarkFw(e: Env): Env {
    e.(marks := e.marks.WithFw(Other(e.slot), UNCOMMITTED), state := IncompleteFw)
  }

  function MarkApp(e: Env): Env {
    e.(marks := e.marks.WithApp(Other(e.app), UNCOMMITTED), state := IncompleteApp)
  }

  /** RAUC activates the other slot; after an error installBundle restores BOOT_ORDER. */
  function InstallFw(e: Env, run: FwRun): Env {
    match run
    case FwInstalled | SyncFailed => e.(order := Other(e.slot)).WithLeft(Other(e.slot), 3)
    case RaucFailed(left) => e.(order := e.orderOld).WithLeft(Other(e.slot), left)
  }

  function UpdateFw(e: Env, run: FwRun): Env {
    if !NoUpdate(e) then e
    else
      var installed := InstallFw(MarkFw(e), run);
      if run.FwInstalled? then installed else installed.(state := FailedFw)
  }

  function UpdateApp(e: Env, run: AppRun): Env {
    if !NoUpdate(e) then e
    else match run
      case AppInstalled => MarkApp(e).(app := Other(e.app))
      case AppRejected => MarkApp(e).(state := FailedApp)
      // The name is still staged, and the failure record stores it.
      case AppNotStored => MarkApp(e).(app := Other(e.app), state := FailedApp)
  }

  function UpdateAppFw(e: Env, fw: FwRun, app: AppRun): Env {
    if !NoUpdate(e) then e
    else
      var installed := InstallFw(MarkFw(e), fw);
      if !fw.FwInstalled? then installed.(state := FailedFw)
      else
        var marked := MarkApp(installed).(state := IncompleteAppFw);
        match app
        case AppInstalled => marked.(app := Other(e.app))
        case AppRejected | AppNotStored =>
          marked.(marks := marked.marks.WithFw(Other(e.slot), COMMITTED), order := e.orderOld,
                  app := if app.AppRejected? then e.app else Other(e.app), state := FailedApp)
  }

  // ----- Boot -----

  /** One run of the boot selector: it takes the first slot of the order that has tries left;
      with no tries left at all it refills both counters, resets the board and runs again. */
  function Select(e: Env): (r: Env) {
    if e.Left(e.order) > 0 then e.WithLeft(e.order, e.Left(e.order) - 1).(slot := e.order)
    else if e.Left(Other(e.order)) > 0 then
      e.WithLeft(Other(e.order), e.Left(Other(e.order)) - 1).(slot := Other(e.order))
    else e.FullTries().WithLeft(e.order, 2).(slot := e.order)
  }

  /** What the overlay step of a completed boot does to update_reboot_state. */
  function Overlay(e: Env): Env {
    match e.state
    case RollbackFwPending => e.(state := IncompleteFwRollback)
    case RollbackAppPending => e.(state := IncompleteAppRollback)
    case RollbackAppFwPending => e.(state := IncompleteAppFwRollback)
    case _ => e
  }

  /** n boot attempts. */
  function Attempts(e: Env, n: nat): Env {
    if n == 0 then e else Select(Attempts(e, n - 1))
  }
}
