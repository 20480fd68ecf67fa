# A verified model of the F&S update library

The library updates a device that has two firmware slots and two application slots. It keeps the
state of an update in eight U-Boot variables, lets RAUC write the firmware, copies application
bundles itself, and relies on the boot selector to fall back when a new slot does not boot. This
project models that library in Dafny and proves what its calls do to the environment, what every
run of a device keeps, and what the bundle reader, the checksum, the certificate scan and the
logger promise. `dafny verify dfyconfig.toml` checks the whole project.

## How the model is built

| module (file) | models |
|---|---|
| `Bytes`, `Results` | the byte type, outcome types and the exception classes callers can tell apart |
| `BootEnv` | the environment as values, and one specification function per public call and per boot step |
| `Protocol` | devices, allowed events, runs, the inductive invariant |
| `Recovery` | progress, rollbacks as inverses, exact conditions where the code departs from its promises |
| `Laws` | what a whole update leaves of a device, and every public call in every environment, state by state |
| `Misuse` | what becomes of a device when a call of the protocol is made at the wrong moment |
| `Install` | every instant of an install at which power may be cut |
| `Text`, `Variables` | `util::split`, the text of every variable, the checked readings |
| `UBootStore` (UBoot.dfy), `Transactions` | the transactional store as a class, its runs and the flat transaction they refine |
| `BootstateHandler` (Bootstate.dfy), `FsUpdater` (FsUpdate.dfy) | the classes `Bootstate` and `FSUpdate`, each method proved against `BootEnv` |
| `Device` | a device driven through `FSUpdate`: every call of the class is an event of `Protocol`, every run of `Protocol` can be played on it |
| `Crc32`, `CrcDivision` (Division.dfy) | the checksum bit by bit, what it detects, and that it is the long division of RFC 1952 |
| `BundleHeader` (Header.dfy) | the two header decoders |
| `Streams`, `ApplicationBundle` (Bundle.dfy), `BundleVerification`, `PemScan` (Pem.dfy) | the file stream, the readers, verification and installation of a bundle, the certificate scan |
| `LogQueue` (Logger.dfy) | producers, worker and destructor of the logger as interleaved steps |

The code that changes fields in place is modelled by classes with `modifies` clauses and loops.
Their contracts speak of the texts of the variables: when no call of the environment fails and all
variables are readable, a public call leaves exactly the text of the environment that its
specification function computes, or throws the exception it names; when something fails, nothing
is stored (or, for the installers, what has been stored is said). `Protocol`, `Recovery`, `Misuse`
and `Install` then reason about runs of those specification functions, and `Device.Play` carries
what they prove to the store behind the class.

The specification functions follow the questions of the code. `Laws` says the same from outside, without
them: the documented states one by one for every environment, and the effect of whole updates as changes
of the variables. In the same way the parsers, the checksum, the certificate list and the log queue each
have a statement that does not use the function they are proved against.

An event is allowed (`Protocol.Allowed`) when the protocol of docs/state-machine.md is respected in
the form the code supports. What that means is not chosen: `Protocol.EventKeeps` shows that the
allowed events are exactly those that keep the invariant. `sync` and the store of `application`
succeed after the installer did; state 7 on an uncommitted slot is left by a reboot; the rollback
calls are made where they undo what waits, are refused, or find the other half settled;
`set_update_state_bad` names no slot that is in use or that something waits for; a slot that counts
as committed never uses up its last boot attempt. RAUC is assumed to activate the other slot and to
set its counter to 3, and to leave BOOT_ORDER_OLD alone. A reboot is one or more runs of the boot
selector followed by the overlay step.

Of the events that are not allowed, these are followed to their end: a failed `sync` and a failed
store of `application` (`Recovery.SyncFailureExactly`, `Recovery.UnstoredApplicationIsStuck`), an
early commit in state 7 (`Recovery.EarlyRollbackCommitExactly`), the rollback of a combined update
with used counters (`Recovery.EarlyCombinedRollbackExactly`), bad marks on a slot that is waited for
or that is the fallback, rollback calls of the wrong kind, and a committed slot whose counter runs
out (`Misuse`), and power cuts (`Install`). A bad mark on the running firmware or on the selected
application breaks the invariant, but costs no more than itself: reboot and commit end as they would
have without it, except for two cases that are named (`Misuse.MarkedInUseExactly`), and in idle the
next update replaces what was marked (`Misuse.UpdateReplacesBad`).

## What turned out differently from the promises

* `rollback_firmware` before the reboot of a firmware-only update clears the mark of the running
  slot, not that of the new one. A failed application install after it cannot be committed
  (`Recovery.UndoneInstallHides`). `rollback_application` in state 5 leaves the same kind of mark
  (`Recovery.ForgottenFailureHides`). Apart from these two calls one boot and a commit lead every
  state of every run back to idle (`Recovery.RunNeverStuck`).
* The same rollback does nothing at all, and returns normally, unless both boot counters are 3; one
  boot of the old slot is enough for that (`Recovery.FirmwareUndoExactly`).
* The boot that leads back to idle may be one the protocol does not allow, because it takes the last try
  of a committed slot (docs/reference/rauc-contract.md lines 37-42). Two boots without a commit are
  enough: an application update, or the rollback of a combined one, then waits for such a boot
  (`Recovery.ForbiddenBootAfterUpdate`, `Recovery.ForbiddenBootAfterRollback`), and in state 9 no
  allowed event ends the wait (`Recovery.WaitsForEver`). The boot works all the same; what it breaks
  is repaired by the second commit.
* `set_update_state_bad` is accepted in every state (docs/reference/api.md lines 130-136), but on a
  slot that an update waits for it makes `commit_update` refuse, however often the device boots
  (`Misuse.MarkedWaitingIsStuck`).
* `rollback_firmware` while an application waits for its commit is accepted and loses the application
  update; the next one stores marks that the library then refuses to read
  (`Misuse.FirmwareRollbackForgetsApplication`). `rollback_application` while a firmware waits leaves
  an uncommitted firmware at the head of the boot order in idle
  (`Misuse.ApplicationRollbackForgetsFirmware`).
* A combined update whose first store fails still records state 5, without the mark that
  `commit_update` looks for (`Misuse.UnmarkedFailureExactly`).
* `read_img` computes its bound and its rest in unsigned and 32-bit arithmetic. For image sizes near
  2^63 and above, which the constructor accepts, it skips its loop and then either asks for more than
  its buffer holds or reports success after too few bytes (`ApplicationBundle.ApplicationImage.ReadImg`,
  `ApplicationBundle.WrappedSizes`).
* docs/state-machine.md lines 104-108 and 133-134 let states 5 and 6 be left through the rollback
  calls; the code refuses them (`Recovery.DocumentedRecoveryIsRefused`). State 1 of lines 81 and 107
  is never written by the library; the model keeps it as a value that no run reaches.
* docs/state-machine.md lines 162-174 call a reboot the normal recovery from a power cut during an
  install. `Install.CutInstallExactly` says exactly at which instants that is true,
  `Install.CutIsFinalExactly` which refusals no number of boots ends, and
  `Install.FinalCutIsLeftExactly` which rollback calls end those.
* A failed `sync` leaves the new slot first in the boot order (`Recovery.SyncFailureExactly`). A failed
  store of `application` stays staged, and the failure record then stores it
  (`FsUpdater.FSUpdate.UpdateApplication`, `Recovery.UnstoredApplicationIsStuck`).
* A combined update whose application is rejected leaves a firmware that never booted marked as
  committed (`Recovery.RejectedCombinedUpdate`); one that falls back marks the application it gives
  up as committed (`Recovery.CombinedFallbackCommit`).
* The rollback of a combined update before its reboot works only while both counters are 3
  (`Recovery.EarlyCombinedRollbackExactly`). An early commit in state 7 is accepted exactly from an
  uncommitted slot (`Recovery.EarlyRollbackCommitExactly`).
* docs/reference/rauc-contract.md lines 34-35 say that `commit_update` does not touch the counters in
  idle; the code refills the counter of the running slot, and so does the model.
* Inside a transaction a failed flush is visible to `getVariable`, and `freeVariables` after it does not
  take the values back (`Transactions.FailedFlushIsVisible`, `Transactions.FreeInWakeLeaks`).
* docs/reference/api.md lines 112-113 say that `is_reboot_complete(true)` means the new slot booted;
  `Recovery.RebootReportExactly` says what it means.
* docs/reference/bundle-format.md lines 119-128 put the certificates before timestamp and signature; the
  code reads header, image, timestamp, signature, certificates, and so does the model.

## Model

| member | source | states |
|---|---|---|
| `Protocol.SelectKeeps` | docs/reference/rauc-contract.md:7-10 | one boot attempt gives a rollback state its booted shape and changes neither marks nor orders, as long as committed slots keep a try |
| `Protocol.AttemptsKeep` | docs/reference/rauc-contract.md:7-17 | the same for any number of attempts in a row, as long as no committed slot has used its last try before the last of them |
| `Protocol.RebootKeeps` | docs/state-machine.md:109-117 | a reboot, with the overlay step that turns 7, 8, 9 into 10, 11, 12 and mounts the selected application, is allowed if and only if the invariant holds after each of its boot attempts |
| `Protocol.OneBootKeeps` | docs/reference/rauc-contract.md:7-10 | a single boot keeps the invariant if and only if it leaves every committed slot a try |
| `Protocol.UpdateFirmwareKeeps` | src/handle_update/fsupdate.cpp:104-139 | update_firmware keeps the invariant if and only if it is refused or sync does not fail after RAUC succeeded |
| `Protocol.UpdateApplicationKeeps` | src/handle_update/fsupdate.cpp:141-171 | update_application keeps the invariant if and only if it is refused or the selection of an installed application is stored |
| `Protocol.UpdateBothKeeps` | src/handle_update/fsupdate.cpp:173-242 | the combined update keeps the invariant if and only if neither of these two happens in it |
| `Protocol.CommitSettles` | src/handle_update/fsupdate.cpp:412-483 | an accepted commit ends in idle on the running firmware: the two boot orders agree with it, running firmware and selected application are committed, no application is uncommitted |
| `Protocol.CommitKeeps` | src/handle_update/fsupdate.cpp:412-483 | commit_update keeps the invariant in every state except, exactly, in state 7 on an uncommitted slot |
| `Protocol.RollbackFwKeeps` | src/handle_update/fsupdate.cpp:505-645 | over all states, exactly when rollback_firmware keeps the invariant |
| `Protocol.RollbackAppKeeps` | src/handle_update/fsupdate.cpp:647-751 | over all states, exactly when rollback_application keeps the invariant |
| `Protocol.MarkBadKeeps` | src/handle_update/fsupdate.cpp:753-809 | over all states and targets, set_update_state_bad keeps the invariant if and only if the slot is not in use and nothing waits for its mark |
| `Protocol.EventKeeps` | docs/state-machine.md:59-117 | the protocol is exact: an event keeps the invariant (a reboot after each of its attempts) if and only if it is allowed |
| `Protocol.RunKeeps` | docs/state-machine.md:59-117 | the invariant holds at every point of every run from a factory device |
| `Protocol.RunIsSafe` | src/uboot_interface/allowed_uboot_variable_states.h:26-51 | on every run of allowed events the marks stay valid, state 1 is not reached, what the order can boot is complete and one of the two is committed; in idle both orders name the running slot, running firmware and selected application are committed and no application is uncommitted |
| `Recovery.AttemptsChoose` | docs/reference/rauc-contract.md:7-10 | after at least one attempt the head of the order runs, or its counter is used up |
| `Recovery.VerdictAgreesWithSelector` | src/handle_update/handleUpdate.cpp:818-854 | after an install and any number of boot attempts exactly one of "reboot failed" and "reboot successful" holds, never "reboot missing", and "successful" holds exactly when the new slot runs |
| `Recovery.CommitAcceptedExactly` | src/handle_update/fsupdate.cpp:412-479 | in every state commit_update is accepted if and only if no reboot is missing, a pending rollback has nothing to wait for (or, in state 7, the running slot is uncommitted), and no failure record is hidden by an uncommitted firmware mark |
| `Recovery.RebootThenCommitReachesIdle` | src/handle_update/fsupdate.cpp:412-479 | from every state of the invariant whose failure record is not hidden, one reboot, which may be any single boot, and one commit reach idle on the slot that boots, with orders and marks settled; a second commit restores the whole invariant, and none is needed when the reboot was allowed |
| `Recovery.OneBootIsAllowed` | docs/reference/rauc-contract.md:37-47 | when a single boot respects the protocol; the first boot of a new firmware always does |
| `Recovery.RebootAllowedExactly` | docs/reference/rauc-contract.md:37-47 | the protocol allows a reboot at all if and only if the next slot is not committed or has a try to spare |
| `Recovery.EventHidesNothing` | src/handle_update/handleUpdate.cpp:892-919 | an allowed event leaves a mark that hides a later failure if and only if it undoes a firmware install before its reboot, or is rollback_application in state 5 |
| `Recovery.UndoneInstallHides` | src/handle_update/handleUpdate.cpp:904-915 | the undo of a firmware install before its reboot always does: the next rejected application update ends in a state that commit_update refuses |
| `Recovery.LeftMarkHides` | src/handle_update/handleUpdate.cpp:215-237 | such a mark makes the commit of a rejected application update fail, and set_update_state_bad on that slot cures it exactly when the slot was not bad before |
| `Recovery.ForgottenFailureHides` | src/handle_update/fsupdate.cpp:679-743 | rollback_application in state 5, its reboot (any single boot among them) and its commit end in idle with the mark of the failed firmware left uncommitted |
| `Recovery.RunNeverStuck` | docs/state-machine.md:125-137 | at every point of every run of allowed events without those two calls, one boot, allowed or not, and one commit reach a settled idle, and a second commit restores the whole invariant; where no reboot is missing the commit alone does |
| `Recovery.ForbiddenBootAfterUpdate` | docs/reference/rauc-contract.md:37-42 | from every factory device two boots and an application update lead to a commit that waits for a boot which takes the last try of the running slot, so no reboot is allowed |
| `Recovery.ForbiddenBootAfterRollback` | docs/reference/rauc-contract.md:37-42 | from every factory device two boots, a combined update, its boot and rollback_firmware lead to state 9 in the same way |
| `Recovery.WaitsForEver` | src/handle_update/fsupdate.cpp:412-479 | in state 9 no allowed event ends such a wait; only the forbidden boot does |
| `Recovery.CombinedRollbackAbandons` | src/handle_update/fsupdate.cpp:515-534 | rollback_firmware on a combined update selects the old application and makes sure the new firmware does not boot |
| `Recovery.AbandonedCommit` | src/handle_update/handleUpdate.cpp:714-745 | committing it condemns both new slots, restores the order and refills both counters |
| `Recovery.CombinedRollback` | src/handle_update/fsupdate.cpp:515-534 | rollback_firmware, any single boot or longer reboot, commit from state 4 (not rebooted, booted, or fallen back) ends in idle on the old firmware and the old application, with nothing else changed |
| `Recovery.EarlyCombinedRollbackExactly` | src/handle_update/handleUpdate.cpp:843-854 | before the reboot this ends on a committed firmware if and only if both counters are still 3 or the new firmware fails to boot |
| `Recovery.FirmwareUndoExactly` | src/handle_update/handleUpdate.cpp:904-950 | before the reboot of a firmware-only update rollback_firmware always returns normally; it goes back to idle with the old order if and only if both counters are 3, and otherwise changes nothing |
| `Recovery.ApplicationUndo` | src/handle_update/handleUpdate.cpp:953-980 | rollback_application before the reboot restores the environment of before the update if and only if the other application was marked committed; it clears the mark of the new application because "application" is read before it is stored |
| `Recovery.ApplicationRollbackAfterReboot` | src/handle_update/handleUpdate.cpp:953-980 | after the reboot, rollback, reboot and commit return to the old application and condemn the new one |
| `Recovery.FirmwareRollbackAfterReboot` | src/handle_update/handleUpdate.cpp:920-939 | a booted new firmware that is rolled back, booted once or more and committed is condemned, and the old firmware runs again |
| `Recovery.FirmwareSwitch` | src/handle_update/fsupdate.cpp:547-638 | from idle with two committed slots, rollback_firmware, one boot or more and commit exchange the running slot and change nothing else |
| `Recovery.FirmwareSwitchTwice` | src/handle_update/fsupdate.cpp:547-638 | doing so twice gives the first environment back, with full counters |
| `Recovery.EarlyRollbackCommitExactly` | src/handle_update/handleUpdate.cpp:326-333 | a commit in state 7 before the reboot is accepted if and only if the running slot is uncommitted, and then keeps that slot as the only one of the order |
| `Recovery.SyncFailureExactly` | src/handle_update/updateFirmware.cpp:54-62 | after a failed sync, also in a combined update, and any reboot, commit is refused if and only if the new firmware booted |
| `Recovery.UnstoredApplicationIsStuck` | src/handle_update/fsupdate.cpp:160-168 | when "application" reaches the store only together with the failure record, also in a combined update, no number of reboots makes commit accept the state |
| `Recovery.RejectedCombinedUpdate` | src/handle_update/fsupdate.cpp:224-237 | a rejected application leaves the new firmware marked committed without ever having booted, and rollback_firmware switches to it |
| `Recovery.CombinedFallbackCommit` | src/handle_update/handleUpdate.cpp:611-645 | the commit of a combined update that fell back condemns the firmware, marks the abandoned application committed, and leaves it mounted until the next boot |
| `Recovery.DocumentedRecoveryIsRefused` | docs/state-machine.md:133-134 | in states 5 and 6 of every reachable device the documented rollback calls are refused |
| `Recovery.RebootReportExactly` | docs/reference/api.md:108-113 | is_reboot_complete(true), meant to say that the new slot booted, also says so after a fallback and before the reboot of an update unless both counters are 3; in states 7 and 9 it says so before the reboot exactly when the slot to be abandoned runs or there is no firmware to go back to; in all other states always |
| `Recovery.BadSlotIsNotChosen` | src/handle_update/fsupdate.cpp:601-618 | a spare slot marked bad in idle is refused by the rollback calls, and no other mark or variable has changed |
| `Recovery.DispatchIsOrderIndependent` | src/handle_update/fsupdate.cpp:417-479 | in every environment at most one of the eight conditions of commit_update holds, and whichever holds decides the outcome |
| `Misuse.MarkedWaitingIsStuck` | src/handle_update/fsupdate.cpp:753-809 | set_update_state_bad on a slot that an update waits for, or whose failure is recorded, makes commit_update refuse the state at once and after any number of boot attempts, in every state 2 to 6 |
| `Misuse.MarkedExactly` | src/handle_update/fsupdate.cpp:753-809 | in states 2 to 6, after a mark on any slot but the running one and the next reboot, commit is refused if and only if the slot was waited for or the failure record is hidden |
| `Misuse.MarkedFallbackRuns` | src/handle_update/fsupdate.cpp:753-809 | a fallback marked bad while a rollback waits for its reboot: the rollback ends in idle, on the bad slot if and only if that slot boots |
| `Misuse.MarkedFormerSlotLeads` | src/handle_update/handleUpdate.cpp:746-772 | a former slot marked bad after a switch is put at the head of the order by the commit |
| `Misuse.MarkedInUseExactly` | src/handle_update/fsupdate.cpp:753-809 | a mark on the running firmware or the selected application, in any state, costs nothing but that mark: reboot and commit end as without it, if and only if the commit does not wait for that slot and no switch between committed slots is leaving it |
| `Misuse.MarkedWhenLeft` | src/handle_update/handleUpdate.cpp:746-772 | in that switch the slot marked bad heads both orders again in idle |
| `Misuse.UpdateReplacesBad` | src/handle_update/fsupdate.cpp:104-171 | in idle the next update of that part, one boot and the commit settle the device on the other slot; the bad mark stays where it was |
| `Misuse.UnmarkedFailureExactly` | src/handle_update/fsupdate.cpp:199-208 | a failure record stored without its mark is accepted by commit if and only if an earlier mark was left |
| `Misuse.FirmwareRollbackFate` | src/handle_update/fsupdate.cpp:505-645 | over all states, exactly when rollback_firmware is refused, and exactly when it keeps the invariant |
| `Misuse.ApplicationRollbackFate` | src/handle_update/fsupdate.cpp:647-751 | the same for rollback_application |
| `Misuse.FirmwareRollbackForgetsApplication` | src/handle_update/fsupdate.cpp:547-638 | while an application waits for its commit, rollback_firmware, reboot and commit end in idle with the selected application uncommitted, and the next application update stores marks that validate_update_bits rejects |
| `Misuse.FirmwareRollbackForgetsRecord` | src/handle_update/fsupdate.cpp:547-638 | the record of a failed or abandoned application is forgotten the same way |
| `Misuse.FirmwareRollbackTwice` | src/handle_update/fsupdate.cpp:547-638 | a second rollback_firmware in a combined rollback ends in idle with an order that leads to the condemned slot |
| `Misuse.ApplicationRollbackForgetsFirmware` | src/handle_update/fsupdate.cpp:679-743 | while a firmware waits for its commit, rollback_application, reboot and commit end in idle with an order that leads to the uncommitted firmware |
| `Misuse.ApplicationRollbackForgetsSwitch` | src/handle_update/fsupdate.cpp:679-743 | a pending switch takes place unrecorded: the two orders differ in idle |
| `Protocol.BootsDrain` | docs/reference/rauc-contract.md:37-42 | without a commit the head boots exactly as often as its counter says, then the other slot |
| `Misuse.DrainedDeviceChangesSlot` | docs/reference/rauc-contract.md:37-42 | an idle device that boots more often runs the other slot whatever its mark, commit keeps it there, and the next firmware update overwrites the committed slot |
| `Laws.FirmwareUpdateLaw` | src/handle_update/handleUpdate.cpp:448-545 | update_firmware, any number of boot attempts and commit_update leave either the device with the new slot running, committed and first in both orders, or the device of before with the new slot bad; nothing else has changed but the refilled counters and the written slot |
| `Laws.ApplicationUpdateLaw` | src/handle_update/handleUpdate.cpp:547-574 | update_application, a reboot and commit_update leave the device of before with the new application selected, committed and mounted |
| `Laws.CombinedUpdateLaw` | src/handle_update/handleUpdate.cpp:576-697 | the same for both together: both are committed, or the firmware is bad and both are given up |
| `Laws.FailedFirmwareLaw` | src/handle_update/handleUpdate.cpp:366-391 | a firmware install that RAUC fails, and its commit, leave the device of before with the written slot bad |
| `Laws.FailedApplicationLaw` | src/handle_update/handleUpdate.cpp:421-446 | the same for a rejected application, unless its record is hidden |
| `Laws.FailedCombinedLaw` | src/handle_update/fsupdate.cpp:224-238 | the same for a combined update whose application is rejected, where the firmware stays marked committed |
| `Laws.ApplicationSwitch` | src/handle_update/fsupdate.cpp:679-743 | from idle with two committed applications, rollback_application, reboot and commit exchange the selected application and change nothing else |
| `Laws.CommitAfterFailure` | src/handle_update/fsupdate.cpp:430-466 | for every environment in state 0, 1, 5 or 6: what commit_update stores, or that it refuses |
| `Laws.CommitOfFirmware` | src/handle_update/handleUpdate.cpp:448-545 | for every environment in state 2: the running slot decides between confirmation and fallback, the counters between fallback and a missing reboot, or which exception is thrown |
| `Laws.CommitOfApplication` | src/handle_update/handleUpdate.cpp:547-574 | for every environment in state 3 |
| `Laws.CommitOfBoth` | src/handle_update/handleUpdate.cpp:576-697 | for every environment in state 4 |
| `Laws.CommitOfFirmwareRollback` | src/handle_update/handleUpdate.cpp:746-772 | for every environment in states 7 and 10: the slot that was left is condemned and the former order restored, unless that slot is committed |
| `Laws.CommitOfApplicationRollback` | src/handle_update/handleUpdate.cpp:773-799 | for every environment in states 8 and 11: an uncommitted application that was left is condemned |
| `Laws.CommitOfBothRollback` | src/handle_update/handleUpdate.cpp:699-745 | for every environment in states 9 and 12: both |
| `Laws.CommitReportsChange` | src/handle_update/fsupdate.cpp:412-483 | the boolean of commit_update says exactly whether the environment has changed |
| `Laws.MountIsAskedExactly` | src/handle_update/handleUpdate.cpp:284-364 | the mounted application is asked for exactly when the outcome depends on it |
| `Laws.RollbackOfFirmwareUpdate` | src/handle_update/handleUpdate.cpp:892-951 | rollback_firmware while an update waits, for every environment: undo, abandonment, or (with used counters) nothing but the switch of the application |
| `Laws.RollbackToOtherFirmware` | src/handle_update/fsupdate.cpp:547-638 | otherwise, for every environment: commit first, nothing committed to go back to (and which of the two reasons), or the switch |
| `Laws.FirmwareWaitsExactly` | src/handle_update/handleUpdate.cpp:75-166 | an update waits for rollback_firmware exactly when it waits for commit_update |
| `Laws.CommitFirstExactly` | src/handle_update/handleUpdate.cpp:284-364 | a rollback has to be committed first exactly when commit_update would accept it |
| `Laws.RollbackOfApplication` | src/handle_update/fsupdate.cpp:647-751 | rollback_application for every environment: which of its five outcomes, and with which exception |
| `Laws.FirmwareInstallLeaves` | src/handle_update/fsupdate.cpp:104-139 | what update_firmware stores in every environment and for every outcome of RAUC and sync |
| `Laws.ApplicationInstallLeaves` | src/handle_update/fsupdate.cpp:141-171 | the same for update_application |
| `Laws.CombinedInstallLeaves` | src/handle_update/fsupdate.cpp:173-242 | the same for the combined update |
| `Laws.MarkedBad` | src/handle_update/fsupdate.cpp:753-809 | set_update_state_bad changes exactly one mark, and none that is bad already |
| `Laws.RebootReport` | src/handle_update/handleUpdate.cpp:982-1008 | is_reboot_complete(true) in every environment |
| `Laws.ApplicationReport` | src/handle_update/handleUpdate.cpp:856-890 | is_reboot_complete(false) says whether the device has booted since the selection changed |
| `Laws.BootsRefill` | docs/reference/rauc-contract.md:7-10 | with no tries left both counters are refilled and the head boots |
| `Install.InstantsEnd` | src/handle_update/fsupdate.cpp:104-242 | the last instant of an install is the environment that the call leaves, and the whole device that the event leaves if and only if RAUC did not report an error after finishing the slot |
| `Install.InstantsOfSuccess` | src/handle_update/fsupdate.cpp:104-171 | the instants of a successful install one by one: mark and state, then the slot, then what leads to it |
| `Install.InstantsOfBoth` | src/handle_update/fsupdate.cpp:173-242 | a combined install is the instants of the firmware followed by those of the application |
| `Install.EveryInstantIsSafe` | src/handle_update/fsupdate.cpp:108-138 | at every instant of every install the running firmware and the selected application are committed and untouched, only the spare slot changes, a torn slot is not the head of the order, an application being new is marked, and "application" names it only when it is complete |
| `Install.ChangedFirmwareIsMarkedExactly` | src/handle_update/fsupdate.cpp:182-239 | a changed firmware slot carries the uncommitted mark except, exactly, in the last instant of a combined update whose application part failed |
| `Install.CutInstallExactly` | src/handle_update/fsupdate.cpp:104-242 | after a power cut at any instant and any number of boots, commit_update refuses if and only if the install was only announced, or only its firmware part is in place and runs, or the failure record does not match what runs |
| `Install.CutIsFinalExactly` | docs/state-machine.md:162-174 | commit_update refuses after every number of boots if and only if the install was only announced or the failure record has selected the new application |
| `Install.FinalCutIsLeftExactly` | src/handle_update/fsupdate.cpp:505-751 | exactly when rollback_firmware and rollback_application, with a boot before and after and a commit, lead such a device to idle, and exactly when the second one settles the application |
| `Install.CutFirmwareExactly` | src/handle_update/fsupdate.cpp:108-136 | the same for the firmware part |
| `Install.CutApplicationExactly` | src/handle_update/fsupdate.cpp:146-169 | the same for an application update |
| `Install.CutBothExactly` | src/handle_update/fsupdate.cpp:210-238 | the same for the application part of a combined update |
| `Recovery.HeadBoots` | docs/reference/rauc-contract.md:7-10 | a committed slot that heads the order and has a try left is the one that boots, also after several attempts before which no committed slot has run out |
| `Text.Split` | src/handle_update/utils.cpp:3-23 | the parts hold no separator and joining them gives the input back |
| `Text.SplitIsUnique` | src/handle_update/utils.cpp:3-23 | an input has only one such split, so front and back are what the callers take them for |
| `Text.PartCount` | src/handle_update/utils.cpp:3-23 | there is one part more than there are separators |
| `Variables.ValidateUpdateBits` | src/uboot_interface/allowed_uboot_variable_states.h:32-51 | accepts exactly four characters 0 to 3 of which not both firmware characters and not both application characters are odd |
| `Variables.StateRoundTrip` | src/uboot_interface/UBoot.cpp:158-193 | each state number written as text is read back through std::stoul and the allowed list as the same state |
| `Variables.StoulReads` | src/uboot_interface/UBoot.cpp:158-172 | std::stoul reads a decimal number behind space and a sign, whatever follows; a negative one wraps, one of more than 64 bits is refused |
| `Variables.SlotTextRoundTrip` | src/uboot_interface/allowed_uboot_variable_states.h:54-57 | slots written as BOOT_ORDER, rauc_cmd or application are allowed contents and are read back |
| `Variables.SlotTextsExactly` | src/uboot_interface/allowed_uboot_variable_states.h:54-57 | and no other text is allowed in these variables |
| `Variables.TextRoundTrip` | src/uboot_interface/allowed_uboot_variable_states.h:53-57 | every environment has a text that is read back as that environment, and all of it is readable exactly when its marks are valid |
| `Variables.TextsAre` | src/uboot_interface/allowed_uboot_variable_states.h:7-57 | the texts themselves: place and digit of every mark, number of every state, texts of orders, counters and slots |
| `Variables.MarkWritten` | src/handle_update/handleUpdate.cpp:1010-1057 | replacing one character of "update" changes exactly that mark |
| `UBootStore.UBoot.OpenEnv` | src/uboot_interface/UBoot.cpp:37-51 | the outermost open loads the environment, inner ones only count; a failed open closes the context again |
| `UBootStore.UBoot.CloseEnv` | src/uboot_interface/UBoot.cpp:53-65 | only the outermost close closes the context and discards what is staged; without a transaction it does nothing |
| `UBootStore.UBoot.GetVariable` | src/uboot_interface/UBoot.cpp:67-100 | reads the stored value, never a staged one, stages and stores nothing, and fails only for an absent variable or a failed open |
| `UBootStore.UBoot.GetNumber` | src/uboot_interface/UBoot.cpp:158-193 | a number is returned exactly when the text converts, fits eight bits and is allowed, and the exception says which test failed |
| `UBootStore.UBoot.GetText` | src/uboot_interface/UBoot.cpp:195-209 | a text is returned exactly when it is allowed, and the exception says which test failed |
| `UBootStore.UBoot.GetChecked` | src/uboot_interface/UBoot.cpp:211-217 | a text is returned exactly when the validator accepts it, and the exception says which test failed |
| `UBootStore.UBoot.GetChar` | src/uboot_interface/UBoot.cpp:219-242 | a character is returned exactly when it is the whole text and allowed, and the exception says which test failed |
| `UBootStore.UBoot.AddVariable` | src/uboot_interface/UBoot.cpp:102-106 | stages one value; nothing that can be read changes |
| `UBootStore.UBoot.FreeVariables` | src/uboot_interface/UBoot.cpp:108-112 | empties the stage |
| `UBootStore.UBoot.FlushEnvironment` | src/uboot_interface/UBoot.cpp:114-156 | stores all staged values at once and empties the stage, or stores nothing and keeps it; an open transaction may then read some of them; the exception says which call of the library failed |
| `Transactions.Perform` | src/uboot_interface/UBoot.h:137-211 | every call of the store class takes a step of the transition system, and the opens and closes of the underlying context strictly alternate |
| `Transactions.StagedIsInvisible` | src/uboot_interface/UBoot.h:180-188 | on every run, outside the wake of a failed flush, getVariable sees the stored environment only |
| `Transactions.FailedFlushIsVisible` | src/uboot_interface/UBoot.cpp:128-148 | in an open transaction that shows the stored environment a failed flush can expose a value that was never stored if and only if something staged differs from it |
| `Transactions.RunKeepsCovered` | src/uboot_interface/UBoot.cpp:128-148 | the working copy differs from the stored environment only in variables that are still staged |
| `Transactions.FlushIsFlat` | src/uboot_interface/UBoot.cpp:114-156 | a successful flush stores exactly the stage on top of the stored environment if and only if the working copy differs from it only in staged variables |
| `Transactions.RunIsFlat` | src/uboot_interface/UBoot.h:155-168 | every run that does not empty the stage in the wake of a failed flush refines the flat transaction: a successful flush stores exactly the stage on top of the stored values, the outermost close discards the rest |
| `Transactions.RunIsFlatExactly` | src/uboot_interface/UBoot.cpp:37-156 | a run refines the flat transaction at every point if and only if each of its successful flushes finds the working copy so |
| `Transactions.FreeInWakeLeaks` | src/uboot_interface/UBoot.cpp:108-156 | emptying the stage inside a transaction and flushing later is the flat behaviour if and only if the working copy was the stored environment |
| `Transactions.LeakingRun` | src/uboot_interface/UBoot.cpp:108-156 | from every clean open transaction, any new value can reach the store that way without being staged |
| `BootstateHandler.Bootstate.GetUpdateBit` | src/handle_update/handleUpdate.cpp:1010-1057 | the index of the running or the other slot, for firmware by rauc_cmd and for applications by the stored "application" |
| `BootstateHandler.Bootstate.GetCompleteUpdate` | src/handle_update/handleUpdate.cpp:20-49 | reports a flag exactly when the mark it points at is uncommitted |
| `BootstateHandler.Bootstate.PendingApplicationUpdate` | src/handle_update/handleUpdate.cpp:51-73 | agrees with the specification predicate and stages nothing |
| `BootstateHandler.Bootstate.PendingFirmwareUpdate` | src/handle_update/handleUpdate.cpp:75-118 | agrees with the specification predicate and stages nothing |
| `BootstateHandler.Bootstate.PendingApplicationFirmwareUpdate` | src/handle_update/handleUpdate.cpp:120-166 | agrees with the specification predicate and stages nothing |
| `BootstateHandler.Bootstate.FailedFirmwareUpdate` | src/handle_update/handleUpdate.cpp:168-189 | agrees with the specification predicate and stages nothing |
| `BootstateHandler.Bootstate.FailedRebootFirmwareUpdate` | src/handle_update/handleUpdate.cpp:191-213 | agrees with the specification predicate and stages nothing |
| `BootstateHandler.Bootstate.FailedApplicationUpdate` | src/handle_update/handleUpdate.cpp:215-237 | agrees with the specification predicate and stages nothing |
| `BootstateHandler.Bootstate.NoUpdateProcessing` | src/handle_update/handleUpdate.cpp:801-816 | true exactly in idle |
| `BootstateHandler.Bootstate.FirmwareUpdateRebootFailed` | src/handle_update/handleUpdate.cpp:818-830 | true exactly when the old head of the order runs, a counter is used up and the orders differ |
| `BootstateHandler.Bootstate.FirmwareUpdateRebootSuccessful` | src/handle_update/handleUpdate.cpp:832-841 | true exactly when the new head of the order runs and the orders differ |
| `BootstateHandler.Bootstate.MissingFirmwareUpdateReboot` | src/handle_update/handleUpdate.cpp:843-854 | true exactly when the new head does not run, both counters are 3 and the orders differ |
| `BootstateHandler.Bootstate.ApplicationReboot` | src/handle_update/handleUpdate.cpp:856-890 | true exactly when the mounted application is the selected one; an unreadable loop device is an error at once |
| `BootstateHandler.Bootstate.FirmwareReboot` | src/handle_update/handleUpdate.cpp:982-1008 | in states 7 and 9 true exactly when the head of the order runs, otherwise exactly when no reboot is missing |
| `BootstateHandler.Bootstate.PendingFirmwareRollback` | src/handle_update/handleUpdate.cpp:239-282 | true exactly when the reboot verdict is "failed" |
| `BootstateHandler.Bootstate.PendingUpdateRollback` | src/handle_update/handleUpdate.cpp:284-364 | agrees with the specification predicate for the current state, or fails exactly where the mounted application is asked for and unreadable |
| `BootstateHandler.Bootstate.ConfirmFailedFirmwareUpdate` | src/handle_update/handleUpdate.cpp:366-391 | stages exactly the specified environment, or refuses |
| `BootstateHandler.Bootstate.ConfirmFailedRebootFirmwareUpdate` | src/handle_update/handleUpdate.cpp:393-419 | stages exactly the specified environment, or refuses |
| `BootstateHandler.Bootstate.ConfirmFailedApplicationUpdate` | src/handle_update/handleUpdate.cpp:421-446 | stages exactly the specified environment, or refuses |
| `BootstateHandler.Bootstate.ConfirmPendingFirmwareUpdate` | src/handle_update/handleUpdate.cpp:448-545 | stages the fallback or the confirmation according to the reboot verdict, or names the missing reboot |
| `BootstateHandler.Bootstate.ConfirmPendingApplicationUpdate` | src/handle_update/handleUpdate.cpp:547-574 | stages the confirmation of a mounted application, or names the missing reboot |
| `BootstateHandler.Bootstate.ConfirmPendingApplicationFirmwareUpdate` | src/handle_update/handleUpdate.cpp:576-697 | the same for both parts together |
| `BootstateHandler.Bootstate.ConfirmUpdateRollback` | src/handle_update/handleUpdate.cpp:699-799 | keeps a switch to a committed slot, condemns an abandoned one, and refuses every other state |
| `BootstateHandler.Bootstate.RollbackFirmware` | src/handle_update/handleUpdate.cpp:892-951 | stages the undo, the abandonment or nothing, according to the reboot verdict |
| `BootstateHandler.Bootstate.RollbackApplication` | src/handle_update/handleUpdate.cpp:953-980 | stages the other application, and before a reboot the cleared mark of the one that is still stored |
| `BootstateHandler.Bootstate.StageOtherApplication` | src/handle_update/updateApplication.cpp:625-639 | stages the application slot that is not selected |
| `FsUpdater.FSUpdate.CommitUpdate` | src/handle_update/fsupdate.cpp:412-483 | commit_update stores exactly the environment the specification names, or throws its exception (also that of an unreadable loop device) and has stored nothing; nothing stays staged and nothing foreign changes; it succeeds only if no call of the environment failed and "update" was valid |
| `FsUpdater.FSUpdate.RollbackFirmware` | src/handle_update/fsupdate.cpp:505-645 | the same for rollback_firmware; it succeeds only if no call of the environment failed and "update" was valid |
| `FsUpdater.FSUpdate.RollbackApplication` | src/handle_update/fsupdate.cpp:647-751 | the same for rollback_application, and with both updates pending it stores nothing at all; it succeeds only if no call of the environment failed and "update" was valid |
| `FsUpdater.FSUpdate.SetUpdateStateBad` | src/handle_update/fsupdate.cpp:753-809 | the same for set_update_state_bad; exactly other letters than a, b (in either case) and other numbers than 0, 1 give EINVAL, and change nothing; it succeeds only if no call of the environment failed and "update" was valid |
| `FsUpdater.FSUpdate.IsRebootComplete` | src/handle_update/fsupdate.cpp:859-869 | answers for firmware or application as specified, fails where the loop device is unreadable, and changes nothing |
| `FsUpdater.FSUpdate.InstallBundle` | src/rauc/rauc_handler.cpp:87-116 | after any error of RAUC the boot order is the one of before, whether RAUC had activated the slot or not |
| `FsUpdater.FSUpdate.InstallFirmware` | src/handle_update/updateFirmware.cpp:41-63 | succeeds exactly when RAUC and sync do |
| `FsUpdater.FSUpdate.InstallApplication` | src/handle_update/updateApplication.cpp:549-584 | an accepted bundle selects the other application with one store; a failed store leaves the selection staged |
| `FsUpdater.FSUpdate.StartUpdate` | src/handle_update/fsupdate.cpp:65-102 | an update starts exactly in idle and is refused as in progress in every other state |
| `FsUpdater.FSUpdate.MarkNext` | src/handle_update/fsupdate.cpp:109-119 | the mark and the state are stored together before anything is written, or nothing is |
| `FsUpdater.FSUpdate.UpdateFirmware` | src/handle_update/fsupdate.cpp:104-139 | update_firmware ends in the specified environment for every outcome of RAUC and sync; when the environment fails at any point, the store holds one of five named environments |
| `FsUpdater.FSUpdate.UpdateApplication` | src/handle_update/fsupdate.cpp:141-171 | the same for update_application, including the case where a selection left staged is stored with the failure record |
| `FsUpdater.FSUpdate.AbandonFirmware` | src/handle_update/fsupdate.cpp:224-238 | a failed application part takes the firmware part back in the environment, together with whatever is still staged, or stores nothing |
| `FsUpdater.FSUpdate.UpdateFirmwareAndApplication` | src/handle_update/fsupdate.cpp:173-242 | the combined update ends in the specified environment for every outcome of both installers; when the environment fails at any point, the store holds one of the named environments |
| `FsUpdater.FirmwareLeavingsAreSafe` | src/handle_update/fsupdate.cpp:104-139 | whatever error the environment makes in update_firmware, only the spare slot, the order and the state can have changed |
| `FsUpdater.ApplicationLeavingsAreSafe` | src/handle_update/fsupdate.cpp:141-171 | the same for update_application |
| `FsUpdater.CombinedLeavingsAreSafe` | src/handle_update/fsupdate.cpp:173-242 | in a combined update the running firmware and the application selected before keep their marks and counter |
| `Device.Perform` | src/handle_update/fsupdate.cpp:104-809 | every public call is its event of Protocol: while no call of the environment fails, the store shows the environment of the next state, and the call returns normally exactly when the event is accepted |
| `Device.Boot` | docs/reference/rauc-contract.md:7-10 | what the boot selector and the overlay step write shows the environment of the next state |
| `Device.Play` | docs/state-machine.md:59-117 | every run of Protocol can be played on the class: while no call of the environment fails, store and mounted application are those of the last state |
| `Crc32.ComputeCrc32` | src/handle_update/updateApplication.cpp:359-374 | the loop over bytes and bits computes the CRC register function |
| `Crc32.RegisterConcat` | src/handle_update/updateApplication.cpp:359-374 | the register composes over concatenation |
| `Crc32.BitsLinear` | src/handle_update/updateApplication.cpp:364-370 | any number of shift-and-xor steps is linear on 32-bit states |
| `Crc32.BitsInjective` | src/handle_update/updateApplication.cpp:364-370 | any number of steps is injective on 32-bit states |
| `Crc32.RegisterInjective` | src/handle_update/updateApplication.cpp:359-374 | absorbing the same data never merges two register states |
| `Crc32.RegisterIsSerial` | src/handle_update/updateApplication.cpp:359-374 | taking bytes is taking their bits, lowest first |
| `Crc32.SerialIsWord` | src/handle_update/updateApplication.cpp:359-374 | up to 32 bits in a row act as one word and as many steps |
| `Crc32.SerialInjective` | src/handle_update/updateApplication.cpp:359-374 | different bits, at most 32, never lead from one register to the same one |
| `Crc32.BurstIsDetected` | src/handle_update/updateApplication.cpp:359-374 | inputs of equal length, however long, whose bits differ only within 32 consecutive places, at any bit position, have different checksums |
| `Crc32.FourBytesAreDetected` | src/handle_update/updateApplication.cpp:359-374 | in particular a change inside four consecutive bytes |
| `CrcDivision.CrcIsRemainder` | src/handle_update/updateApplication.cpp:359-374 | compute_crc32 is the CRC-32 of RFC 1952: the message with its first 32 bits complemented, lowest bit of each byte first, followed by 32 zeros, divided by the generator with the exponents 32, 26, 23, 22, 16, 12, 11, 10, 8, 7, 5, 4, 2, 1, 0; the remainder is complemented |
| `CrcDivision.SerialIsDivision` | src/handle_update/updateApplication.cpp:359-374 | the register that takes some bits is the remainder of their long division by the generator |
| `CrcDivision.TailIsPolynomial` | src/handle_update/updateApplication.h:31-32 | the constant of the loop is that generator, highest power in the lowest bit |
| `CrcDivision.ResidueLaw` | src/handle_update/updateApplication.cpp:359-374 | data followed by its checksum, lowest byte first, always leaves the register 0xDEBB20E3 |
| `CrcDivision.CheckValue` | src/handle_update/updateApplication.cpp:359-374 | the checksum of the digits 1 to 9 is 0xCBF43926 |
| `BundleHeader.Parse` | src/handle_update/updateApplication.cpp:393-415 | reads size, version and checksum as big-endian fields; a wrong length gives zeros |
| `BundleHeader.FieldsAre` | src/handle_update/updateApplication.cpp:393-415 | where the fields stand, what each byte of them is worth, and when a header is valid |
| `BundleHeader.DecodersAgree64` | src/handle_update/applicationImage.cpp:75-82 | the unrolled decoding of the constructor and the loop of the parser agree on every size field |
| `BundleHeader.DecodersAgree32` | src/handle_update/applicationImage.cpp:84-92 | and on every version and checksum field |
| `BundleHeader.ValidateCrc` | src/handle_update/updateApplication.cpp:417-439 | accepts exactly 16 bytes whose checksum field is the CRC-32 of the first twelve |
| `BundleHeader.ContinuedChecksum` | src/handle_update/applicationImage.cpp:98-101 | the checksum the constructor computes in two pieces is that of the twelve bytes |
| `BundleHeader.HeaderRoundTrip` | src/handle_update/updateApplication.cpp:393-439 | an encoded header parses to its fields and passes the checksum |
| `BundleHeader.HeaderIsEncoded` | src/handle_update/updateApplication.cpp:393-439 | the headers that pass the checksum are exactly the encoded ones |
| `BundleHeader.DamageIsDetected` | src/handle_update/updateApplication.cpp:417-439 | a valid header in which a burst of up to 32 bits hits size and version is refused |
| `ApplicationBundle.ApplicationImage.ReadImg` | src/handle_update/applicationImage.cpp:226-251 | for every 64-bit size, chunk size and file: exactly when the call succeeds, fails or reads past its buffer, and exactly what it delivers; image and timestamp unless the loop bound wraps |
| `ApplicationBundle.OutcomesAre` | src/handle_update/applicationImage.cpp:226-251 | the outcome in plain numbers, below 2^62 and above the wrap of the bound |
| `ApplicationBundle.DeliversExactly` | src/handle_update/applicationImage.cpp:231-242 | a successful call delivers as much as image and timestamp have if and only if the bound does not wrap |
| `ApplicationBundle.OnlyRead` | src/handle_update/applicationImage.cpp:242-243 | when the loop is skipped, what the one read asks for, and exactly when that is more than the buffer |
| `ApplicationBundle.LastRead` | src/handle_update/applicationImage.cpp:242-243 | behind the loop, the rest fits the buffer and its 32-bit variable |
| `ApplicationBundle.WrappedSizes` | src/handle_update/applicationImage.cpp:226-251 | two sizes for which the call overruns a buffer of 8192 bytes, or succeeds after 26 bytes |
| `ApplicationBundle.ApplicationImage.ReadImgContentOnly` | src/handle_update/applicationImage.cpp:367-402 | delivers exactly the image for every chunk size, and succeeds exactly when the file holds it |
| `ApplicationBundle.ApplicationImage.CopyImage` | src/handle_update/applicationImage.cpp:254-329 | the file it leaves is exactly the image; it succeeds exactly when the image is there and the new file can be opened, takes it, and reaches the medium, and leaves no file otherwise |
| `ApplicationBundle.TrimTime` | src/handle_update/applicationImage.cpp:151-160 | the loop keeps the longest front of digits, "-", ":", "T", "Z" and "+", without a "Z" at its end |
| `ApplicationBundle.TimeIsRecovered` | src/handle_update/applicationImage.cpp:151-160 | a time written with or without "Z" and filled up with anything that cannot belong to a time is recovered |
| `ApplicationBundle.EveryStampIsWritten` | src/handle_update/applicationImage.cpp:151-160 | every timestamp can be read that way |
| `ApplicationBundle.ApplicationImage.GetTimeOfSigning` | src/handle_update/applicationImage.cpp:133-170 | reads the timestamp field and parses its trimmed text; an error exactly when the stream has failed before, the field is not there, or the text is no time |
| `ApplicationBundle.ApplicationImage.GetHeader` | src/handle_update/applicationImage.cpp:331-345 | always the first 16 bytes |
| `ApplicationBundle.ApplicationImage.GetTimestamp` | src/handle_update/applicationImage.cpp:347-365 | the 26 bytes behind the image, or an error exactly when they are not there |
| `ApplicationBundle.ApplicationImage.GetSignature` | src/handle_update/applicationImage.cpp:173-219 | the bytes behind the timestamp up to the first certificate line, or an error exactly when there are none |
| `ApplicationBundle.SignatureExactly` | src/handle_update/applicationImage.cpp:173-219 | the signature runs to the first line feed that a BEGIN marker follows, or to the end; there is none when that is nothing |
| `ApplicationBundle.PlacesAre` | src/handle_update/applicationImage.cpp:59-149 | the places of image and timestamp in numbers |
| `BundleVerification.Open` | src/handle_update/applicationImage.cpp:26-120 | the constructor refuses exactly short files, other versions and wrong checksums, in this order |
| `ApplicationBundle.OpenErrorIs` | src/handle_update/applicationImage.cpp:55-110 | which of the three errors, in terms of length, version field and checksum field |
| `BundleVerification.ExtractCertificates` | src/handle_update/updateApplication.cpp:73-154 | of the blocks behind the image exactly those that parse are returned, in their order |
| `BundleVerification.KeptIsReadable` | src/handle_update/updateApplication.cpp:136-150 | keeping exactly the blocks that parse, in their order, is the only answer |
| `BundleVerification.FirstReadable` | src/handle_update/updateApplication.cpp:509-509 | the signer is the first block that parses |
| `BundleVerification.CertificatesAreRefused` | src/handle_update/updateApplication.cpp:84-106 | exactly the headers for which there is no answer |
| `BundleVerification.VerifySigner` | src/handle_update/updateApplication.cpp:492-517 | the signer is the first readable certificate, exactly when the chain holds and the parsed time of signing lies within its validity |
| `BundleVerification.VerifyContent` | src/handle_update/updateApplication.cpp:325-357 | accepts exactly when header, timestamp and signature are there and the signature covers content and timestamp |
| `BundleVerification.VerifyBundle` | src/handle_update/updateApplication.cpp:492-547 | verify_application_bundle accepts exactly the bundles that satisfy all conditions |
| `BundleVerification.InstallBundle` | src/handle_update/updateApplication.cpp:549-607 | what is installed is what was verified: the stored file is byte for byte the content that a signature under a readable certificate covers, and installation succeeds exactly for verified bundles that fit |
| `BundleVerification.BundleRoundTrip` | src/handle_update/applicationImage.cpp:59-219 | from every well-formed bundle the reader recovers exactly its image, timestamp, signature and certificates |
| `BundleVerification.BundleVerifiedExactly` | src/handle_update/updateApplication.cpp:492-547 | whether a well-formed bundle is verified depends on these parts alone |
| `BundleVerification.BundleAcceptedExactly` | src/handle_update/updateApplication.cpp:492-547 | a well-formed bundle is verified if and only if its chain holds, its written time is a time at which the first readable certificate was valid, neither earlier nor later, and that certificate signed image and timestamp |
| `PemScan.ScanBlocks` | src/handle_update/updateApplication.cpp:122-147 | the loop terminates and returns the blocks of the scan in order |
| `PemScan.ScanExactly` | src/handle_update/updateApplication.cpp:124-131 | a list of positions is the scan if and only if each block runs from the first BEGIN marker behind its predecessor to the first END marker behind that, and no block follows the last |
| `PemScan.ItemsAreFound` | src/handle_update/updateApplication.cpp:122-147 | scanning certificates with clear text between them yields exactly the certificates, in order |
| `PemScan.EveryTextIsALayout` | src/handle_update/updateApplication.cpp:122-147 | every text can be read that way, so the previous result says what the scan of every text is |
| `PemScan.DashFreeIsClear` | src/handle_update/updateApplication.cpp:76-77 | text without a dash, as base64 is, is clear of both markers |
| `PemScan.BeginIsText` | src/handle_update/updateApplication.cpp:76-77 | the marker bytes are the ASCII codes of the BEGIN line |
| `PemScan.EndIsText` | src/handle_update/updateApplication.cpp:76-77 | and of the END line |
| `LogQueue.EveryRun` | src/logger/LoggerHandler.cpp:41-72 | in every interleaving, what was delivered, what is in flight and what is queued are together the queued order; a sleeping worker with work has a notification pending; an exited worker has delivered all that was queued before the stop |
| `LogQueue.DestructorDelivers` | src/logger/LoggerHandler.cpp:12-23 | when the destructor returns, every non-null entry queued before the stop has reached the sink once and in order |
| `LogQueue.EveryMessageIsDelivered` | src/logger/LoggerHandler.cpp:12-72 | told by the producers alone: at any time the sink holds the first non-null entries appended, in their order and without a gap; when the destructor has returned, all from before the stop are among them, and at rest all |
| `LogQueue.StepsRunOut` | src/logger/LoggerHandler.cpp:50-72 | the steps that must happen cannot go on for ever |
| `LogQueue.QuietAfterRank` | src/logger/LoggerHandler.cpp:50-72 | their number is bounded from every state of every run |
| `LogQueue.QuietMeansDelivered` | src/logger/LoggerHandler.cpp:12-72 | a run can come to rest only with everything delivered and the worker waiting, or closed; no run hangs |

## Left out

- RAUC, libubootenv, zlib, Botan: foreign code. RAUC and the store of the environment are given by what they do to the variables; parsing of certificates, the chain, the dates of a certificate and the signature check are uninterpreted functions (`Trust`).
- Keyring loading, X.509 path validation and hashing: inside those functions.
- Timestamp parsing with strptime and mktime: library and locale behaviour; the trimmed text is handed to one function of `Trust`.
- `update_image`, `ExtractUpdateStore`, manifests and archive paths: dispatch and library path semantics.
- Version queries, `is_update_state_bad`, `get_update_reboot_state` and other getters: they change nothing and are finite lookups.
- Log messages, sinks and exception texts: no effect on the state; exception classes are kept.
- Work directory, permissions, force_ro, fsync, rename and the reading of sysfs: input and output. The mounted application is a constant of a boot; the rename of a complete application file is one instant of the install.
- Reads of a medium that fail without an end of file, and a file that changes between verification and copy: a stream here has immutable data, so only short files fail.
- State 1 and the failed overlay mount as environment steps: the library never writes state 1, and the boot scripts that write state 6 are not part of the repository.
- Runs with a power cut inside an install are not continued by the invariant; the cut instants and the boot that follows are treated in `Install`.
- The mutex in the store class and several processes inside one transaction: calls of one object are serialised, and other processes write only while the environment is closed.
- Life cycle of the libubootenv context pointer: an open context is a flag and a list of calls that alternate.
- Names of foreign variables: the library's own variables are an enumeration, every other name is free.
- `to_array`: a variable is a sequence of characters and needs no conversion.
- LogQueue.EveryRun: one logger with one worker; `initLogger`, which keeps one logger per sink, is not modelled.
