/**
 What follows when the protocol is not respected: marks that something waits for, rollback calls
 of the wrong kind, and a device that boots too often without a commit. Protocol.EventKeeps says
 which calls these are; here is what becomes of the device.
 */
module Misuse {
  import opened Results
  import opened BootEnv
  import opened Protocol
  import opened Recovery

  /** A call, then boot attempts, then commit_update, in terms of the environments. */
  lemma CommitAfterBoot(s: System, n: nat)
    ensures var c := Overlay(Attempts(s.env, n)); var booted := Next(s, Reboot(n));
      && booted.env == c && booted.mounted == c.app
      && Next(booted, CommitUpdate).env == Kept(c, Commit(c, c.app))
  {
    hide Attempts, Commit;
  }

  // ----- set_update_state_bad on a slot that something waits for -----

  /** commit_update would look for the uncommitted mark of this slot. */
  predicate WaitsFor(e: Env, part: Part, target: Slot) {
    match part
    case FirmwarePart => e.state in {IncompleteFw, IncompleteAppFw, FailedFw} && e.marks.Fw(target) == UNCOMMITTED
    case ApplicationPart => e.state in {IncompleteApp, IncompleteAppFw, FailedApp} && e.marks.App(target) == UNCOMMITTED
  }

  lemma MarkedIsRefused(s: System, part: Part, target: Slot, c: Env, mounted: Slot)
    requires Inv(s) && WaitsFor(s.env, part, target)
    requires SameButBoot(SetBad(s.env, part, target), c)
    ensures Commit(c, mounted) == Failure(NotAllowedUpdateState)
  {
  }

  /** Marked bad, the waiting slot can neither be committed nor counted as failed: commit_update
      refuses the state at once and after any number of boot attempts, and nothing starts an update. */
  lemma MarkedWaitingIsStuck(s: System, part: Part, target: Slot, n: nat)
    requires Inv(s) && WaitsFor(s.env, part, target)
    ensures var marked := Next(s, MarkBad(part, target));
      var booted := Next(marked, Reboot(n));
      && Commit(marked.env, marked.mounted) == Failure(NotAllowedUpdateState)
      && Commit(booted.env, booted.mounted) == Failure(NotAllowedUpdateState)
      && booted.env.state == s.env.state != Idle
  {
    var marked := Next(s, MarkBad(part, target));
    AttemptsOnlyBoot(marked.env, n);
    hide Attempts, Commit;
    MarkedIsRefused(s, part, target, marked.env, marked.mounted);
    MarkedIsRefused(s, part, target, Attempts(marked.env, n), marked.env.app);
  }

  /** The exact damage of a mark while an update waits or has failed: after the next reboot,
      commit_update is refused if and only if the slot was waited for, or the record was hidden. */
  lemma MarkedExactly(s: System, part: Part, target: Slot, n: nat)
    requires Inv(s) && s.env.state in {IncompleteFw, IncompleteApp, IncompleteAppFw, FailedFw, FailedApp}
    requires part == FirmwarePart ==> target != s.env.slot
    requires MayBoot(SetBad(s.env, part, target), n)
    ensures var booted := Next(Next(s, MarkBad(part, target)), Reboot(n));
      Commit(booted.env, booted.mounted).Failure? <==> WaitsFor(s.env, part, target) || Hidden(booted.env)
  {
    hide Attempts, Select, Commit, MayBoot;
    var e := SetBad(s.env, part, target);
    var marked := Next(s, MarkBad(part, target));
    var c := Attempts(e, n);
    CommitAfterBoot(marked, n);
    AttemptsOnlyBoot(e, n);
    NoRebootPending(s.env, part, target, c);
    if WaitsFor(s.env, part, target) {
      MarkedWaitingIsStuck(s, part, target, n);
    } else {
      MarkedOrder(s, part, target, n);
      hide Next, Inv;
      match part
      case FirmwarePart => MarkedFirmwareIsAccepted(s, target, c);
      case ApplicationPart => MarkedApplicationIsAccepted(s, target, c);
    }
  }

  lemma NoRebootPending(e: Env, part: Part, target: Slot, c: Env)
    requires e.state in {IncompleteFw, IncompleteApp, IncompleteAppFw, FailedFw, FailedApp}
    requires SameButBoot(SetBad(e, part, target), c)
    ensures Overlay(c) == c
  {
  }

  lemma MarkedOrder(s: System, part: Part, target: Slot, n: nat)
    requires Inv(s) && s.env.state in {IncompleteFw, IncompleteApp, IncompleteAppFw, FailedFw, FailedApp}
    requires part == FirmwarePart ==> target != s.env.slot
    requires MayBoot(SetBad(s.env, part, target), n)
    ensures var c := Attempts(SetBad(s.env, part, target), n);
      && (c.slot == c.order || c.Left(c.order) == 0)
      && (s.env.order == s.env.orderOld ==> c.slot == s.env.order)
  {
    hide Attempts, Select;
    var e := SetBad(s.env, part, target);
    AttemptsChoose(e, n);
    if e.order == e.orderOld {
      HeadBoots(e, n);
    }
  }

  lemma MarkedFirmwareIsAccepted(s: System, target: Slot, c: Env)
    requires Inv(s) && s.env.state in {IncompleteFw, IncompleteApp, IncompleteAppFw, FailedFw, FailedApp}
    requires target != s.env.slot
    requires !WaitsFor(s.env, FirmwarePart, target)
    requires SameButBoot(SetBad(s.env, FirmwarePart, target), c)
    requires c.slot == c.order || c.Left(c.order) == 0
    requires s.env.order == s.env.orderOld ==> c.slot == s.env.order
    ensures Commit(c, c.app).Failure? <==> Hidden(c)
  {
  }

  lemma MarkedApplicationIsAccepted(s: System, target: Slot, c: Env)
    requires Inv(s) && s.env.state in {IncompleteFw, IncompleteApp, IncompleteAppFw, FailedFw, FailedApp}
    requires !WaitsFor(s.env, ApplicationPart, target)
    requires SameButBoot(SetBad(s.env, ApplicationPart, target), c)
    requires c.slot == c.order || c.Left(c.order) == 0
    requires s.env.order == s.env.orderOld ==> c.slot == s.env.order
    ensures Commit(c, c.app).Failure? <==> Hidden(c)
  {
  }

  /** A fallback that is marked bad while a rollback waits for its reboot: the rollback still ends in
      idle, but on the bad slot whenever that slot is the one that boots. */
  lemma MarkedFallbackRuns(s: System, target: Slot, n: nat)
    requires Inv(s) && RebootPending(s.env)
    requires target != s.env.slot && s.env.marks.Fw(target) == COMMITTED && !MarkIsFree(s.env, FirmwarePart, target)
    requires MayBoot(SetBad(s.env, FirmwarePart, target), n)
    ensures var booted := Next(Next(s, MarkBad(FirmwarePart, target)), Reboot(n));
      var final := Next(booted, CommitUpdate).env;
      && final.state == Idle && final.slot == booted.env.slot
      && (final.marks.Fw(final.slot) == BAD <==> booted.env.slot == target)
  {
    hide Attempts, Select, Commit, Inv, MarkIsFree, MayBoot;
    var e := SetBad(s.env, FirmwarePart, target);
    var marked := Next(s, MarkBad(FirmwarePart, target));
    assert marked.env == e;
    AttemptsOnlyBoot(e, n);
    CommitAfterBoot(marked, n);
    hide Next;
    MarkedFallbackCommit(s, target, Overlay(Attempts(e, n)));
  }

  lemma MarkedFallbackCommit(s: System, target: Slot, c: Env)
    requires Inv(s) && RebootPending(s.env)
    requires target != s.env.slot && s.env.marks.Fw(target) == COMMITTED && !MarkIsFree(s.env, FirmwarePart, target)
    requires SameButBoot(Overlay(SetBad(s.env, FirmwarePart, target)), c)
    ensures var r := Commit(c, c.app);
      && r.Success? && r.value.state == Idle && r.value.slot == c.slot
      && (r.value.marks.Fw(c.slot) == BAD <==> c.slot == target)
  {
  }

  /** After the switch the former slot, marked bad, is put back at the head of the order by the commit. */
  lemma MarkedFormerSlotLeads(s: System, target: Slot)
    requires Inv(s) && s.env.state == IncompleteFwRollback
    requires target != s.env.slot && s.env.marks.Fw(target) == COMMITTED
    ensures var final := Next(Next(s, MarkBad(FirmwarePart, target)), CommitUpdate).env;
      && final.state == Idle && final.slot == s.env.slot
      && final.order == target && final.marks.Fw(target) == BAD
  {
  }

  // ----- set_update_state_bad on what is in use -----

  function InUse(e: Env, part: Part): Slot {
    match part
    case FirmwarePart => e.slot
    case ApplicationPart => e.app
  }

  function Condemned(e: Env, part: Part, target: Slot): Env {
    match part
    case FirmwarePart => e.(marks := e.marks.WithFw(target, BAD))
    case ApplicationPart => e.(marks := e.marks.WithApp(target, BAD))
  }

  /** The running firmware is left for another committed one. */
  predicate LeavesCommitted(e: Env, part: Part) {
    part == FirmwarePart && e.state == RollbackFwPending && e.marks.Fw(e.slot) == COMMITTED
  }

  /** The boot selector does not look at the marks. */
  lemma {:induction false} AttemptsIgnoreMarks(e: Env, marks: Marks, n: nat)
    ensures Attempts(e.(marks := marks), n) == Attempts(e, n).(marks := marks)
  {
    if n >= 1 {
      AttemptsIgnoreMarks(e, marks, n - 1);
    }
  }

  /** A reboot and commit_update. */
  ghost function Committed(s: System, n: nat): System {
    Next(Next(s, Reboot(n)), CommitUpdate)
  }

  /** The environment c after the boots of a device in s: what Protocol says of it. */
  predicate BootOf(s: System, c: System) {
    && c == s.(env := c.env, mounted := c.env.app)
    && SameButBoot(Overlay(s.env), c.env)
    && Shape(c) && (c.env.slot == c.env.order || c.env.Left(c.env.order) == 0)
  }

  /** commit_update does to the marked device what it does to the other one. */
  predicate SameAfterMark(c: System, part: Part, target: Slot) {
    Kept(Condemned(c.env, part, target), Commit(Condemned(c.env, part, target), c.mounted)) ==
      Condemned(Kept(c.env, Commit(c.env, c.mounted)), part, target)
  }

  lemma MarkedFirmwareInQuiet(s: System, c: System)
    requires Inv(s) && BootOf(s, c)
    requires s.env.state in {Idle, IncompleteApp, FailedApp, FailedFw}
    ensures SameAfterMark(c, FirmwarePart, s.env.slot) <==>
      !WaitsFor(s.env, FirmwarePart, s.env.slot) && !LeavesCommitted(s.env, FirmwarePart)
  {
  }

  lemma MarkedFirmwareInUpdate(s: System, c: System)
    requires Inv(s) && BootOf(s, c) && s.env.state in {IncompleteFw}
    ensures SameAfterMark(c, FirmwarePart, s.env.slot) <==>
      !WaitsFor(s.env, FirmwarePart, s.env.slot) && !LeavesCommitted(s.env, FirmwarePart)
  {
  }

  lemma MarkedFirmwareInCombined(s: System, c: System)
    requires Inv(s) && BootOf(s, c) && s.env.state in {IncompleteAppFw}
    ensures SameAfterMark(c, FirmwarePart, s.env.slot) <==>
      !WaitsFor(s.env, FirmwarePart, s.env.slot) && !LeavesCommitted(s.env, FirmwarePart)
  {
  }

  lemma MarkedFirmwareInBack(s: System, c: System)
    requires Inv(s) && BootOf(s, c) && s.env.state in {RollbackFwPending, IncompleteFwRollback}
    ensures SameAfterMark(c, FirmwarePart, s.env.slot) <==>
      !WaitsFor(s.env, FirmwarePart, s.env.slot) && !LeavesCommitted(s.env, FirmwarePart)
  {
    hide Commit, ImagesSound;
    RollbackCommit(c.env, c.mounted);
    RollbackCommit(Condemned(c.env, FirmwarePart, s.env.slot), c.mounted);
  }

  lemma MarkedFirmwareInAppBack(s: System, c: System)
    requires Inv(s) && BootOf(s, c) && s.env.state in {RollbackAppPending, IncompleteAppRollback}
    ensures SameAfterMark(c, FirmwarePart, s.env.slot) <==>
      !WaitsFor(s.env, FirmwarePart, s.env.slot) && !LeavesCommitted(s.env, FirmwarePart)
  {
    hide Commit, ImagesSound;
    RollbackCommit(c.env, c.mounted);
    RollbackCommit(Condemned(c.env, FirmwarePart, s.env.slot), c.mounted);
  }

  lemma MarkedFirmwareInBothBackPending(s: System, c: System)
    requires Inv(s) && BootOf(s, c) && s.env.state == RollbackAppFwPending
    ensures SameAfterMark(c, FirmwarePart, s.env.slot) <==>
      !WaitsFor(s.env, FirmwarePart, s.env.slot) && !LeavesCommitted(s.env, FirmwarePart)
  {
    hide Commit, ImagesSound;
    RollbackCommit(c.env, c.mounted);
    RollbackCommit(Condemned(c.env, FirmwarePart, s.env.slot), c.mounted);
  }

  lemma MarkedFirmwareInBothBackBooted(s: System, c: System)
    requires Inv(s) && BootOf(s, c) && s.env.state == IncompleteAppFwRollback
    ensures SameAfterMark(c, FirmwarePart, s.env.slot) <==>
      !WaitsFor(s.env, FirmwarePart, s.env.slot) && !LeavesCommitted(s.env, FirmwarePart)
  {
    hide Commit, ImagesSound;
    RollbackCommit(c.env, c.mounted);
    RollbackCommit(Condemned(c.env, FirmwarePart, s.env.slot), c.mounted);
  }

  /** What a committed rollback settles does not depend on the mark of the selected application. */
  lemma SettlesAlike(e: Env)
    ensures var d := Condemned(e, ApplicationPart, e.app);
      && SettleAppRollback(d) == Condemned(SettleAppRollback(e), ApplicationPart, e.app)
      && SettleFwRollback(d) == Condemned(SettleFwRollback(e), ApplicationPart, e.app)
      && SettleFwRollback(e).app == e.app
  {
  }

  lemma ConfirmedAlike(e: Env)
    requires RollbackBooted(e)
    ensures ConfirmRollback(e).Success?
    ensures ConfirmRollback(Condemned(e, ApplicationPart, e.app)) ==
      Success(Condemned(ConfirmRollback(e).value, ApplicationPart, e.app))
  {
    hide SettleAppRollback, SettleFwRollback;
    SettlesAlike(e);
    SettlesAlike(SettleFwRollback(e));
  }

  lemma MarkedApplicationInRollback(s: System, c: System)
    requires BootOf(s, c)
    requires RebootPending(s.env) || RollbackBooted(s.env)
    ensures SameAfterMark(c, ApplicationPart, s.env.app) && !WaitsFor(s.env, ApplicationPart, s.env.app)
  {
    hide Commit, Shape, ConfirmRollback;
    RollbackCommit(c.env, c.mounted);
    RollbackCommit(Condemned(c.env, ApplicationPart, s.env.app), c.mounted);
    ConfirmedAlike(c.env);
  }

  lemma MarkedApplicationInQuiet(s: System, c: System)
    requires Inv(s) && BootOf(s, c)
    requires s.env.state in {Idle, FailedApp, FailedFw}
    ensures SameAfterMark(c, ApplicationPart, s.env.app) <==> !WaitsFor(s.env, ApplicationPart, s.env.app)
  {
  }

  lemma MarkedApplicationInUpdate(s: System, c: System)
    requires Inv(s) && BootOf(s, c) && s.env.state in {IncompleteApp, IncompleteAppFw}
    ensures SameAfterMark(c, ApplicationPart, s.env.app) <==> !WaitsFor(s.env, ApplicationPart, s.env.app)
  {
  }

  lemma MarkedApplicationInFwUpdate(s: System, c: System)
    requires Inv(s) && BootOf(s, c) && s.env.state in {IncompleteFw}
    ensures SameAfterMark(c, ApplicationPart, s.env.app) <==> !WaitsFor(s.env, ApplicationPart, s.env.app)
  {
  }

  lemma MarkedFirmwareCommits(s: System, c: System)
    requires Inv(s) && BootOf(s, c)
    ensures SameAfterMark(c, FirmwarePart, s.env.slot) <==>
      !WaitsFor(s.env, FirmwarePart, s.env.slot) && !LeavesCommitted(s.env, FirmwarePart)
  {
    assert s.env.state != FwRebootFailed;
    hide Inv, BootOf, SameAfterMark, WaitsFor, LeavesCommitted;
    match s.env.state
    case IncompleteFw => MarkedFirmwareInUpdate(s, c);
    case IncompleteAppFw => MarkedFirmwareInCombined(s, c);
    case RollbackFwPending | IncompleteFwRollback => MarkedFirmwareInBack(s, c);
    case RollbackAppPending | IncompleteAppRollback => MarkedFirmwareInAppBack(s, c);
    case RollbackAppFwPending => MarkedFirmwareInBothBackPending(s, c);
    case IncompleteAppFwRollback => MarkedFirmwareInBothBackBooted(s, c);
    case _ => MarkedFirmwareInQuiet(s, c);
  }

  lemma MarkedApplicationCommits(s: System, c: System)
    requires Inv(s) && BootOf(s, c)
    ensures SameAfterMark(c, ApplicationPart, s.env.app) <==> !WaitsFor(s.env, ApplicationPart, s.env.app)
  {
    assert s.env.state != FwRebootFailed;
    hide Inv, BootOf, SameAfterMark, WaitsFor;
    match s.env.state
    case IncompleteFw => MarkedApplicationInFwUpdate(s, c);
    case IncompleteApp | IncompleteAppFw => MarkedApplicationInUpdate(s, c);
    case Idle | FailedApp | FailedFw => MarkedApplicationInQuiet(s, c);
    case _ => MarkedApplicationInRollback(s, c);
  }

  lemma Boots(s: System, n: nat)
    requires Inv(s) && MayBoot(s.env, n)
    ensures BootOf(s, Next(s, Reboot(n)))
  {
    hide Attempts, MayBoot, Inv, Shape;
    AttemptsOnlyBoot(s.env, n);
    RebootShapes(s, n);
  }

  /** The mark and the reboot do not depend on each other. */
  lemma MarkedBoots(s: System, part: Part, n: nat)
    requires Inv(s)
    ensures var target := InUse(s.env, part); var c := Next(s, Reboot(n));
      Next(Next(s, MarkBad(part, target)), Reboot(n)) == c.(env := Condemned(c.env, part, target))
  {
    hide Attempts, Inv, Overlay;
    InUseIsNotBad(s, part);
    AttemptsIgnoreMarks(s.env, Condemned(s.env, part, InUse(s.env, part)).marks, n);
    AttemptsOnlyBoot(s.env, n);
    OverlayIgnoresMarks(Attempts(s.env, n), Condemned(s.env, part, InUse(s.env, part)).marks);
  }

  lemma OverlayIgnoresMarks(e: Env, marks: Marks)
    ensures Overlay(e.(marks := marks)) == Overlay(e).(marks := marks)
    ensures Overlay(e).marks == e.marks && Overlay(e).app == e.app
  {
  }

  /** A bad mark on the running firmware or on the selected application costs nothing but that mark: the
      reboot and the commit end as they would have without it, unless the commit waits for that very
      slot, or a switch between two committed slots is leaving it. */
  lemma MarkedInUseExactly(s: System, part: Part, n: nat)
    requires Inv(s) && MayBoot(s.env, n)
    ensures var target := InUse(s.env, part); var plain := Committed(s, n);
      Committed(Next(s, MarkBad(part, target)), n) == plain.(env := Condemned(plain.env, part, target)) <==>
        !WaitsFor(s.env, part, target) && !LeavesCommitted(s.env, part)
  {
    Boots(s, n);
    MarkedBoots(s, part, n);
    var c := Next(s, Reboot(n));
    hide Attempts, MayBoot, Commit, Inv, BootOf, Condemned, WaitsFor, LeavesCommitted;
    match part
    case FirmwarePart => MarkedFirmwareCommits(s, c);
    case ApplicationPart => ApplicationsStay(s); MarkedApplicationCommits(s, c);
  }

  lemma ApplicationsStay(s: System)
    ensures !LeavesCommitted(s.env, ApplicationPart)
  {
  }

  lemma InUseIsNotBad(s: System, part: Part)
    requires Inv(s)
    ensures SetBad(s.env, part, InUse(s.env, part)) == Condemned(s.env, part, InUse(s.env, part))
  {
  }

  /** In that switch the bad slot that was left heads the order again in idle. */
  lemma MarkedWhenLeft(s: System, n: nat)
    requires Inv(s) && LeavesCommitted(s.env, FirmwarePart) && MayBoot(s.env, n)
    ensures var final := Committed(Next(s, MarkBad(FirmwarePart, s.env.slot)), n).env;
      && final.state == Idle && final.slot == Other(s.env.slot)
      && final.order == final.orderOld == s.env.slot && final.marks.Fw(final.order) == BAD
  {
    LeavesForCommitted(s);
    Boots(s, n);
    MarkedBoots(s, FirmwarePart, n);
    hide Attempts, MayBoot, Commit, Inv, LeavesCommitted, Condemned;
    HeadBoots(s.env, n);
    LeftSlotCommit(s, Next(s, Reboot(n)));
  }

  lemma LeavesForCommitted(s: System)
    requires Inv(s) && LeavesCommitted(s.env, FirmwarePart)
    ensures s.env.marks.Fw(s.env.order) == COMMITTED && s.env.Left(s.env.order) >= 1
    ensures s.env.order != s.env.slot
  {
  }

  lemma LeftSlotCommit(s: System, c: System)
    requires Inv(s) && LeavesCommitted(s.env, FirmwarePart) && BootOf(s, c) && c.env.slot == s.env.order
    ensures var final := Next(c.(env := Condemned(c.env, FirmwarePart, s.env.slot)), CommitUpdate).env;
      && final.state == Idle && final.slot == Other(s.env.slot)
      && final.order == final.orderOld == s.env.slot && final.marks.Fw(final.order) == BAD
  {
    hide Commit, ImagesSound;
    RollbackCommit(Condemned(c.env, FirmwarePart, s.env.slot), c.mounted);
  }

  /** The update of one part. */
  function UpdateOf(part: Part, id: int): Event {
    match part
    case FirmwarePart => UpdateFirmware(FwInstalled, id)
    case ApplicationPart => UpdateApplication(AppInstalled, id)
  }

  function Accepted(e: Env, part: Part, target: Slot): Env {
    match part
    case FirmwarePart => e.(marks := e.marks.WithFw(target, COMMITTED))
    case ApplicationPart => e.(marks := e.marks.WithApp(target, COMMITTED))
  }

  /** The update of one part, one boot and the commit. */
  ghost function Updated(s: System, part: Part, id: int): System {
    Committed(Next(s, UpdateOf(part, id)), 1)
  }

  lemma UpdateReplacesBadFirmware(s: System, id: int)
    requires Inv(s) && s.env.state == Idle
    ensures var target := s.env.slot;
      var final := Updated(s.(env := Condemned(s.env, FirmwarePart, target)), FirmwarePart, id);
      && Resting(final.env) && Shape(final) && final.env.slot == Other(target)
      && final.env.marks == Accepted(Condemned(s.env, FirmwarePart, target), FirmwarePart, Other(target)).marks
  {
    var marked := s.(env := Condemned(s.env, FirmwarePart, s.env.slot));
    OneAttempt(Next(marked, UpdateFirmware(FwInstalled, id)).env);
    hide Attempts;
  }

  lemma UpdateReplacesBadApplication(s: System, id: int)
    requires Inv(s) && s.env.state == Idle
    ensures var target := s.env.app;
      var final := Updated(s.(env := Condemned(s.env, ApplicationPart, target)), ApplicationPart, id);
      && Resting(final.env) && Shape(final) && final.env.app == Other(target)
      && final.env.marks == Accepted(Condemned(s.env, ApplicationPart, target), ApplicationPart, Other(target)).marks
  {
    var marked := s.(env := Condemned(s.env, ApplicationPart, s.env.app));
    OneAttempt(Next(marked, UpdateApplication(AppInstalled, id)).env);
    hide Attempts;
  }

  /** In idle the next update of that part replaces what was marked bad, and leaves it marked. */
  lemma UpdateReplacesBad(s: System, part: Part, id: int)
    requires Inv(s) && s.env.state == Idle
    ensures var target := InUse(s.env, part);
      var final := Updated(Next(s, MarkBad(part, target)), part, id);
      && Resting(final.env) && Shape(final) && InUse(final.env, part) == Other(target)
      && final.env.marks == Accepted(Condemned(s.env, part, target), part, Other(target)).marks
  {
    InUseIsNotBad(s, part);
    hide Inv, Shape, Resting, Updated;
    match part
    case FirmwarePart => UpdateReplacesBadFirmware(s, id);
    case ApplicationPart => UpdateReplacesBadApplication(s, id);
  }

  // ----- An environment that fails in the middle of a combined update -----

  /** When the first store of a combined update fails and the failure record can be stored, state 5 is
      recorded without its mark: commit_update then accepts it only if a mark was left from before. */
  lemma UnmarkedFailureExactly(s: System)
    requires Inv(s) && s.env.state == Idle
    ensures var recorded := s.env.(state := FailedFw);
      Commit(recorded, s.mounted).Success? <==> Uncommitted(s.env.marks.Fw(Other(s.env.slot)))
  {
  }

  // ----- Rollback calls of the wrong kind -----

  predicate FwRollbackRefused(e: Env, mounted: Slot) {
    match e.state
    case IncompleteFw | IncompleteAppFw => false
    case IncompleteFwRollback | IncompleteAppRollback | IncompleteAppFwRollback => true
    case RollbackFwPending => OpenFw(e, false)
    case RollbackAppPending => mounted == e.app || e.marks.Fw(Other(e.slot)) != COMMITTED
    case RollbackAppFwPending => e.order == e.orderOld || e.slot == e.orderOld
    case _ => e.marks.Fw(Other(e.slot)) != COMMITTED
  }

  predicate AppRollbackRefused(e: Env, mounted: Slot) {
    match e.state
    case IncompleteApp | IncompleteAppFw => false
    case IncompleteFwRollback | IncompleteAppRollback | IncompleteAppFwRollback => true
    case RollbackAppPending => mounted == e.app || e.marks.App(Other(e.app)) != COMMITTED
    case RollbackFwPending => OpenFw(e, false) || e.marks.App(Other(e.app)) != COMMITTED
    case _ => e.marks.App(Other(e.app)) != COMMITTED
  }

  /** Over all states, rollback_firmware is refused, keeps the invariant, or is accepted and breaks it. */
  lemma FirmwareRollbackFate(s: System)
    requires Inv(s)
    ensures RollbackFirmware(s.env, s.mounted).Failure? <==> FwRollbackRefused(s.env, s.mounted)
    ensures FwRollbackRefused(s.env, s.mounted) ==> Next(s, RollbackFw) == s
    ensures Inv(Next(s, RollbackFw)) <==> FwRollbackFits(s.env, s.mounted)
  {
    RollbackFwKeeps(s);
  }

  lemma ApplicationRollbackFate(s: System)
    requires Inv(s)
    ensures RollbackApplication(s.env, s.mounted).Failure? <==> AppRollbackRefused(s.env, s.mounted)
    ensures AppRollbackRefused(s.env, s.mounted) ==> Next(s, RollbackApp) == s
    ensures Inv(Next(s, RollbackApp)) <==> AppRollbackFits(s.env)
  {
    RollbackAppKeeps(s);
  }

  /** rollback_firmware, the reboot, commit_update. */
  ghost function FirmwareRolledBack(s: System, n: nat): System {
    Next(Next(Next(s, RollbackFw), Reboot(n)), CommitUpdate)
  }

  ghost function ApplicationRolledBack(s: System, n: nat): System {
    Next(Next(Next(s, RollbackApp), Reboot(n)), CommitUpdate)
  }

  /** A switch between committed slots that has booted is kept by its commit, whatever the applications are. */
  lemma SwitchCommit(e: Env, c: Env)
    requires e.state == RollbackFwPending && e.order != e.orderOld
    requires e.marks.Fw(e.orderOld) == COMMITTED
    requires SameButBoot(Overlay(e), c) && c.slot == c.order
    ensures Commit(c, c.app) == Success(c.FullTries().(orderOld := c.order, state := Idle))
  {
  }

  /** rollback_firmware as a switch between committed slots. */
  lemma SwitchAccepted(s: System)
    requires Inv(s) && s.env.state in {IncompleteApp, FailedApp, RollbackAppPending}
    requires !FwRollbackRefused(s.env, s.mounted)
    ensures Next(s, RollbackFw) ==
      s.(env := s.env.(order := Other(s.env.slot), orderOld := s.env.slot, state := RollbackFwPending))
    ensures s.env.marks.Fw(s.env.slot) == COMMITTED && s.env.marks.Fw(Other(s.env.slot)) == COMMITTED
    ensures s.env.Left(Other(s.env.slot)) >= 1
  {
  }

  lemma SwitchedInIdle(s: System, n: nat)
    requires Inv(s) && s.env.state in {IncompleteApp, FailedApp, RollbackAppPending}
    requires !FwRollbackRefused(s.env, s.mounted) && MayBoot(Next(s, RollbackFw).env, n)
    ensures FirmwareRolledBack(s, n).env == s.env.FullTries().(order := Other(s.env.slot),
      orderOld := Other(s.env.slot), slot := Other(s.env.slot), state := Idle)
  {
    hide Attempts, Select, Commit, RollbackFirmware, FwRollbackRefused, Inv, MayBoot, Next;
    SwitchAccepted(s);
    var rolled := Next(s, RollbackFw);
    HeadBoots(rolled.env, n);
    CommitAfterBoot(rolled, n);
    SwitchCommit(rolled.env, Overlay(Attempts(rolled.env, n)));
  }

  /** While an application waits for its commit, rollback_firmware to a committed slot forgets it: the
      device ends in idle with the selected application uncommitted, and the next application update
      stores marks that validate_update_bits refuses. */
  lemma FirmwareRollbackForgetsApplication(s: System, n: nat, run: AppRun, id: int)
    requires Inv(s) && s.env.state == IncompleteApp && s.env.marks.Fw(Other(s.env.slot)) == COMMITTED
    requires MayBoot(Next(s, RollbackFw).env, n)
    ensures RollbackFirmware(s.env, s.mounted).Success? && Next(s, RollbackFw).env.state == RollbackFwPending
    ensures var idle := FirmwareRolledBack(s, n);
      && idle.env.state == Idle && idle.env.slot == Other(s.env.slot)
      && idle.env.marks.App(idle.env.app) == UNCOMMITTED
      && !Next(idle, UpdateApplication(run, id)).env.marks.Valid()
  {
    hide Attempts, Select, Commit, RollbackFirmware, FirmwareRolledBack, MayBoot;
    FirmwareRollbackFate(s);
    SwitchAccepted(s);
    SwitchedInIdle(s, n);
    hide Next;
    MarksBecomeInvalid(FirmwareRolledBack(s, n), run, id);
  }

  lemma MarksBecomeInvalid(s: System, run: AppRun, id: int)
    requires s.env.state == Idle && s.env.marks.App(s.env.app) == UNCOMMITTED
    ensures !Next(s, UpdateApplication(run, id)).env.marks.Valid()
  {
  }

  /** The record of a failed application install, or an application that is rolled back, is forgotten
      the same way; its mark stays uncommitted in idle. */
  lemma FirmwareRollbackForgetsRecord(s: System, n: nat)
    requires Inv(s) && s.env.state in {FailedApp, RollbackAppPending}
    requires !FwRollbackFits(s.env, s.mounted) && MayBoot(Next(s, RollbackFw).env, n)
    ensures var idle := FirmwareRolledBack(s, n);
      && idle.env.state == Idle && idle.env.slot == Other(s.env.slot)
      && idle.env.marks.App(Other(idle.env.app)) == UNCOMMITTED
  {
    hide Attempts, Select, Commit, RollbackFirmware, FirmwareRolledBack, MayBoot, Next;
    SwitchedInIdle(s, n);
  }

  /** A second rollback_firmware while a combined rollback leaves the new firmware turns the order
      round: the device ends in idle on the old firmware, but the order leads to the condemned one. */
  lemma FirmwareRollbackTwice(s: System, n: nat)
    requires Inv(s) && s.env.state == RollbackAppFwPending && !FwRollbackFits(s.env, s.mounted)
    requires MayBoot(Next(s, RollbackFw).env, n)
    ensures var idle := FirmwareRolledBack(s, n);
      && idle.env.state == Idle && idle.env.slot == s.env.orderOld
      && idle.env.order == idle.env.orderOld == s.env.slot != idle.env.slot
      && idle.env.marks.Fw(idle.env.order) == BAD
  {
    hide Attempts, Select, Commit, RollbackFirmware, Inv, FwRollbackFits, MayBoot, Next;
    var rolled := Next(s, RollbackFw);
    OrderTurned(s);
    HeadBoots(rolled.env, n);
    CommitAfterBoot(rolled, n);
    TurnedCommit(rolled.env, Overlay(Attempts(rolled.env, n)));
  }

  lemma OrderTurned(s: System)
    requires Inv(s) && s.env.state == RollbackAppFwPending && !FwRollbackFits(s.env, s.mounted)
    ensures Next(s, RollbackFw).env ==
      s.env.(order := s.env.orderOld, orderOld := s.env.slot, state := RollbackFwPending)
    ensures s.env.slot == s.env.order != s.env.orderOld && s.env.marks.Fw(s.env.slot) == UNCOMMITTED
    ensures s.env.marks.Fw(s.env.orderOld) == COMMITTED && s.env.Left(s.env.orderOld) >= 1
  {
  }

  lemma TurnedCommit(e: Env, c: Env)
    requires e.state == RollbackFwPending && e.order != e.orderOld
    requires e.marks.Fw(e.orderOld) != COMMITTED
    requires SameButBoot(Overlay(e), c) && c.slot == c.order
    ensures Commit(c, c.app) == Success(c.FullTries().(
      marks := c.marks.WithFw(c.orderOld, BAD), order := c.orderOld, state := Idle))
  {
  }

  lemma SwitchForgotten(s: System, c: Env)
    requires Inv(s) && s.env.state == IncompleteFw && s.env.marks.App(Other(s.env.app)) == COMMITTED
    requires SameButBoot(Overlay(Next(s, RollbackApp).env), c)
    ensures var r := Commit(c, c.app);
      r.Success? && r.value == c.(state := Idle)
  {
  }

  /** While a firmware waits for its commit, rollback_application forgets it: the device ends in idle
      with a boot order that leads to the uncommitted firmware, whichever slot runs. */
  lemma ApplicationRollbackForgetsFirmware(s: System, n: nat)
    requires Inv(s) && s.env.state == IncompleteFw && s.env.marks.App(Other(s.env.app)) == COMMITTED
    ensures var idle := ApplicationRolledBack(s, n);
      && idle.env.state == Idle && idle.env.app == Other(s.env.app)
      && idle.env.order == s.env.order != idle.env.orderOld
      && idle.env.marks.Fw(idle.env.order) == UNCOMMITTED
  {
    hide Attempts, Select, Commit;
    var rolled := Next(s, RollbackApp);
    AttemptsOnlyBoot(rolled.env, n);
    CommitAfterBoot(rolled, n);
    SwitchForgotten(s, Overlay(Attempts(rolled.env, n)));
  }

  /** A switch between two committed slots is forgotten the same way: it takes place, but the orders
      still differ in idle. */
  lemma ApplicationRollbackForgetsSwitch(s: System, n: nat)
    requires Inv(s) && s.env.state == RollbackFwPending && !AppRollbackFits(s.env)
    requires MayBoot(Next(s, RollbackApp).env, n)
    ensures var idle := ApplicationRolledBack(s, n);
      && idle.env.state == Idle && idle.env.slot == idle.env.order == s.env.order != idle.env.orderOld
  {
    hide Attempts, Select, Commit, MayBoot;
    var rolled := Next(s, RollbackApp);
    HeadBoots(rolled.env, n);
    CommitAfterBoot(rolled, n);
    KeptOrderCommit(Overlay(Attempts(rolled.env, n)));
  }

  lemma KeptOrderCommit(c: Env)
    requires c.state == IncompleteAppRollback
    ensures var r := Commit(c, c.app);
      && r.Success? && r.value.state == Idle
      && r.value.slot == c.slot && r.value.order == c.order && r.value.orderOld == c.orderOld
  {
  }

  // ----- Boots without a commit -----

  /** An idle device that is booted more often than its counter allows runs the other slot, whatever
      its mark; commit_update then refills the counter of that slot only and leaves the order as it
      is, so the device stays there, and the next firmware update overwrites the committed slot. */
  lemma DrainedDeviceChangesSlot(s: System, n: nat, run: FwRun, id: int)
    requires Inv(s) && s.env.state == Idle
    requires s.env.Left(s.env.slot) < n <= s.env.Left(s.env.slot) + s.env.Left(Other(s.env.slot))
    ensures !CanReboot(s.env, n)
    ensures var drained := Next(Next(s, Reboot(n)), CommitUpdate);
      && drained.env == s.env.WithLeft(s.env.slot, 0).WithLeft(Other(s.env.slot), 3).(slot := Other(s.env.slot))
      && Attempts(drained.env, 1).slot == drained.env.slot
      && Next(drained, UpdateFirmware(run, id)).fw.At(s.env.slot) == (if run.RaucFailed? then Torn else Complete(id))
  {
    BootsDrain(s.env, n);
    assert CanReboot(s.env, n) ==> CommittedCanBoot(Attempts(s.env, n));
    var drained := Next(Next(s, Reboot(n)), CommitUpdate);
    OneAttempt(drained.env);
    hide Attempts;
  }
}
