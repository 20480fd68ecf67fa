/**
 updater::Bootstate: it reads the state of an update from the boot environment and stages the
 variables that confirm an update or roll it back. Every method is proved against the
 function of the same meaning in BootEnv.
 */
module BootstateHandler {
  import opened Results
  import opened BootEnv
  import opened Variables
  import opened UBootStore
  import opened Text

  datatype Flag = OS | APP

  const ALLOWED_STATES: seq<nat> := [0, 1, 2, 3, 4, 5, 6, 7, 8, 9, 10, 11, 12]
  const ALLOWED_TRIES: seq<nat> := [0, 1, 2, 3]
  const ALLOWED_ORDERS := ["A B", "B A"]
  const ALLOWED_RAUC_CMDS := ["rauc.slot=A", "rauc.slot=B"]
  const ALLOWED_APPLICATIONS: seq<char> := ['A', 'B']

  lemma RaucCmdParts(parts: seq<string>, s: Slot)
    requires IsSplit(parts, RaucText(s), '=')
    ensures parts == ["rauc.slot", SlotText(s)]
  {
    var expected := ["rauc.slot", SlotText(s)];
    assert expected[..1] == ["rauc.slot"];
    assert Join(expected, '=') == "rauc.slot" + ['='] + SlotText(s) == RaucText(s);
    SplitIsUnique(parts, expected, RaucText(s), '=');
  }

  lemma OrderParts(parts: seq<string>, head: Slot)
    requires IsSplit(parts, OrderText(head), ' ')
    ensures parts == [SlotText(head), SlotText(Other(head))]
  {
    var expected := [SlotText(head), SlotText(Other(head))];
    assert expected[..1] == [SlotText(head)];
    assert Join(expected, ' ') == SlotText(head) + [' '] + SlotText(Other(head)) == OrderText(head);
    SplitIsUnique(parts, expected, OrderText(head), ' ');
  }

  lemma TextsDiffer()
    ensures SlotText(A) != SlotText(B)
    ensures OrderText(A) != OrderText(B)
    ensures RaucText(A) != RaucText(B)
  {
    SlotTextRoundTrip(A);
    SlotTextRoundTrip(B);
  }

  /** The texts and numbers that every reboot verdict needs. */
  datatype BootVars = BootVars(orderOld: string, order: string, triesA: nat, triesB: nat, slot: string)

  datatype Verdict = Verdict(boot: BootVars, failed: bool, missing: bool, successful: bool)

  /** m is the text of e. */
  ghost predicate Shows(m: map<Key, string>, e: Env) {
    Legible(m) && View(m) == e
  }

  /** "update" is there and validate_update_bits accepts it. */
  predicate HasMarks(m: map<Key, string>) {
    Update in m && ValidUpdate(m[Update])
  }

  function LeftKey(s: Slot): Key {
    if s == A then BootALeft else BootBLeft
  }

  lemma ShowsTries(m: map<Key, string>, s: Slot, n: Tries)
    requires Legible(m)
    ensures Shows(m[LeftKey(s) := TriesText(n)], View(m).WithLeft(s, n))
  {
    TriesRoundTrip(n);
  }

  /** Only variables of the library's own are staged. */
  ghost predicate StagesOwn(staged: map<Key, string>) {
    forall name :: Unrelated(name) !in staged
  }

  /** The marks with that one changed which get_update_bit points at. */
  function Marked(marks: Marks, e: Env, flag: Flag, next: bool, mark: Mark): Marks {
    if flag == OS then marks.WithFw(if next then Other(e.slot) else e.slot, mark)
    else marks.WithApp(if next then Other(e.app) else e.app, mark)
  }

  /** A call ended as the specification says, and the environment it means is ready to be stored. */
  ghost predicate Stages(r: Result<()>, future: map<Key, string>, spec: Result<Env>) {
    if spec.Success? then r.Success? && Shows(future, spec.value) else r == Failure(spec.error)
  }

  class Bootstate {
    const uboot: UBoot
    /** The application image that the overlay step mounted at the last boot. */
    const mounted: Slot
    /** Whether the loop device that tells so can be read. */
    const loopReadable: bool

    constructor (uboot: UBoot, mounted: Slot, loopReadable: bool)
      ensures this.uboot == uboot && this.mounted == mounted && this.loopReadable == loopReadable
    {
      this.uboot, this.mounted, this.loopReadable := uboot, mounted, loopReadable;
    }

    /** What a call comes to that may have to ask for the mounted application. */
    function Asking(asks: bool, spec: Result<Env>): Result<Env> {
      if asks && !loopReadable then Failure(LoopDevices) else spec
    }

    /** The call found allowed contents everywhere and the store did not fail. */
    twostate predicate Clean()
      reads uboot, uboot.lib
    {
      Readable(old(uboot.Visible())) && uboot.lib.faults == old(uboot.lib.faults)
    }

    /** The same without asking what validate_update_bits says. */
    twostate predicate Calm()
      reads uboot, uboot.lib
    {
      Legible(old(uboot.Visible())) && uboot.lib.faults == old(uboot.lib.faults)
    }

    // ----- Reading -----

    method CurrentSlot() returns (r: Result<string>)
      requires uboot.Valid()
      modifies uboot.lib
      ensures uboot.Valid() && uboot.OnlyRead()
      ensures r.Success? ==> var m := old(uboot.Visible());
        RaucCmd in m && IsRaucCmd(m[RaucCmd]) && r.value == SlotText(DecodeRaucCmd(m[RaucCmd]))
      ensures Calm() ==> r == Success(SlotText(View(old(uboot.Visible())).slot))
    {
      var raucCmd :- uboot.GetText(RaucCmd, ALLOWED_RAUC_CMDS);
      var parts := Split(raucCmd, '=');
      RaucCmdParts(parts, DecodeRaucCmd(raucCmd));
      return Success(parts[|parts| - 1]);
    }

    method GetState() returns (r: Result<RebootState>)
      requires uboot.Valid()
      modifies uboot.lib
      ensures uboot.Valid() && uboot.OnlyRead()
      ensures r.Success? ==> var m := old(uboot.Visible());
        && UpdateRebootState in m && IsNumber(m[UpdateRebootState], 12)
        && r.value == StateOf(Stoul(m[UpdateRebootState]).value)
      ensures r.Success? ==> uboot.lib.faults == old(uboot.lib.faults)
      ensures Clean() ==> r == Success(View(old(uboot.Visible())).state)
    {
      var number :- uboot.GetNumber(UpdateRebootState, ALLOWED_STATES);
      return Success(StateOf(number));
    }

    method GetUpdateBit(flag: Flag, next: bool) returns (r: Result<nat>)
      requires uboot.Valid()
      modifies uboot.lib
      ensures uboot.Valid() && uboot.OnlyRead()
      ensures r.Success? ==> r.value < 4
      ensures Calm() ==>
        var e := View(old(uboot.Visible()));
        r == Success(if flag == OS then FwIndex(if next then Other(e.slot) else e.slot)
                     else AppIndex(if next then Other(e.app) else e.app))
    {
      TextsDiffer();
      var index := FIRMWARE_A_INDEX;
      if flag == OS {
        var currentSlot :- CurrentSlot();
        if currentSlot == "B" && !next {
          index := FIRMWARE_B_INDEX;
        } else if currentSlot == "A" && next {
          index := FIRMWARE_B_INDEX;
        }
      } else {
        var currentApp :- uboot.GetChar(Application, ALLOWED_APPLICATIONS);
        index := APPLICATION_A_INDEX;
        if currentApp == 'B' && !next {
          index := APPLICATION_B_INDEX;
        } else if currentApp == 'A' && next {
          index := APPLICATION_B_INDEX;
        }
      }
      return Success(index);
    }

    method GetUpdate() returns (r: Result<string>)
      requires uboot.Valid()
      modifies uboot.lib
      ensures uboot.Valid() && uboot.OnlyRead()
      ensures r.Success? ==> HasMarks(old(uboot.Visible())) && r.value == old(uboot.Visible())[Update]
      ensures uboot.lib.faults == old(uboot.lib.faults) && Update in old(uboot.Visible()) && r.Failure? ==>
        r.error == NotAllowedContent
      ensures r.Success? ==> IsMarks(r.value)
      ensures Clean() ==> r.Success? && DecodeMarks(r.value) == View(old(uboot.Visible())).marks
    {
      r := uboot.GetChecked(Update, ValidUpdate);
    }

    method GetCompleteUpdate(next: bool) returns (r: Result<seq<Flag>>)
      requires uboot.Valid()
      modifies uboot.lib
      ensures uboot.Valid() && uboot.OnlyRead()
      ensures r.Success? ==> HasMarks(old(uboot.Visible()))
      ensures Clean() ==>
        var e := View(old(uboot.Visible()));
        r.Success? && (OS in r.value <==> OpenFw(e, next)) && (APP in r.value <==> OpenApp(e, next))
    {
      hide Legible, View;
      var completed :- GetUpdate();
      var flags := [];
      var index :- GetUpdateBit(OS, next);
      if Uncommitted(MarkOf(completed[index])) {
        flags := flags + [OS];
      }
      index :- GetUpdateBit(APP, next);
      if Uncommitted(MarkOf(completed[index])) {
        flags := flags + [APP];
      }
      return Success(flags);
    }

    // ----- Pending and failed updates -----

    method PendingApplicationUpdate() returns (r: Result<bool>)
      requires uboot.Valid()
      modifies uboot.lib
      ensures uboot.Valid() && uboot.OnlyRead()
      ensures r.Success? ==> HasMarks(old(uboot.Visible()))
      ensures Clean() ==> r == Success(PendingApp(View(old(uboot.Visible()))))
    {
      hide Legible, View, OpenFw, OpenApp;
      var flags :- GetCompleteUpdate(false);
      if OS !in flags && APP in flags {
        var state :- GetState();
        return Success(state == IncompleteApp);
      }
      return Success(false);
    }

    method PendingFirmwareUpdate() returns (r: Result<bool>)
      requires uboot.Valid()
      modifies uboot.lib
      ensures uboot.Valid() && uboot.OnlyRead()
      ensures r.Success? ==> HasMarks(old(uboot.Visible()))
      ensures Clean() ==> r == Success(PendingFw(View(old(uboot.Visible()))))
    {
      hide Legible, View, OpenFw, OpenApp;
      var pending := false;
      var flags :- GetCompleteUpdate(false);
      if OS in flags && APP !in flags {
        var state :- GetState();
        if state == IncompleteFw {
          pending := true;
        }
      }
      if !pending {
        var nextFlags :- GetCompleteUpdate(true);
        if OS in nextFlags && APP !in nextFlags {
          var state :- GetState();
          if state == IncompleteFw {
            pending := true;
          }
        }
      }
      return Success(pending);
    }

    method PendingApplicationFirmwareUpdate() returns (r: Result<bool>)
      requires uboot.Valid()
      modifies uboot.lib
      ensures uboot.Valid() && uboot.OnlyRead()
      ensures r.Success? ==> HasMarks(old(uboot.Visible()))
      ensures Clean() ==> r == Success(PendingAppFw(View(old(uboot.Visible()))))
    {
      hide Legible, View, OpenFw, OpenApp;
      var pending := false;
      var flags :- GetCompleteUpdate(false);
      if OS in flags && APP in flags {
        var state :- GetState();
        if state == IncompleteAppFw {
          pending := true;
        }
      }
      if !pending {
        var nextFlags :- GetCompleteUpdate(true);
        if OS in nextFlags && (APP in flags || APP in nextFlags) {
          var state :- GetState();
          if state == IncompleteAppFw {
            pending := true;
          }
        }
      }
      return Success(pending);
    }

    method FailedFirmwareUpdate() returns (r: Result<bool>)
      requires uboot.Valid()
      modifies uboot.lib
      ensures uboot.Valid() && uboot.OnlyRead()
      ensures Clean() ==> r == Success(FailedFwUpdate(View(old(uboot.Visible()))))
    {
      hide Legible, View, OpenFw, OpenApp;
      var flags :- GetCompleteUpdate(true);
      if OS in flags && APP !in flags {
        var state :- GetState();
        return Success(state == FailedFw);
      }
      return Success(false);
    }

    method FailedRebootFirmwareUpdate() returns (r: Result<bool>)
      requires uboot.Valid()
      modifies uboot.lib
      ensures uboot.Valid() && uboot.OnlyRead()
      ensures Clean() ==> r == Success(FailedRebootFwUpdate(View(old(uboot.Visible()))))
    {
      hide Legible, View, OpenFw, OpenApp;
      var flags :- GetCompleteUpdate(false);
      if OS in flags && APP !in flags {
        var state :- GetState();
        return Success(state == FwRebootFailed);
      }
      return Success(false);
    }

    method FailedApplicationUpdate() returns (r: Result<bool>)
      requires uboot.Valid()
      modifies uboot.lib
      ensures uboot.Valid() && uboot.OnlyRead()
      ensures Clean() ==> r == Success(FailedAppUpdate(View(old(uboot.Visible()))))
    {
      hide Legible, View, OpenFw, OpenApp;
      var flags :- GetCompleteUpdate(true);
      if OS !in flags && APP in flags {
        var state :- GetState();
        return Success(state == FailedApp);
      }
      return Success(false);
    }

    method NoUpdateProcessing() returns (r: Result<bool>)
      requires uboot.Valid()
      modifies uboot.lib
      ensures uboot.Valid() && uboot.OnlyRead()
      ensures r.Success? ==> uboot.lib.faults == old(uboot.lib.faults)
      ensures Clean() ==> r == Success(NoUpdate(View(old(uboot.Visible()))))
    {
      hide Legible, View, OpenFw, OpenApp;
      var state :- GetState();
      return Success(state == Idle);
    }

    // ----- Reboot verdicts -----

    method FirmwareUpdateRebootFailed(currentSlot: string, bootOrderOld: string, bootOrder: string,
                                      triesA: nat, triesB: nat) returns (r: bool)
      ensures IsOrder(bootOrderOld) && IsOrder(bootOrder) ==>
        (r <==> currentSlot == SlotText(DecodeOrder(bootOrderOld)) && (triesA == 0 || triesB == 0) &&
                DecodeOrder(bootOrderOld) != DecodeOrder(bootOrder))
    {
      TextsDiffer();
      var parts := Split(bootOrderOld, ' ');
      if IsOrder(bootOrderOld) {
        OrderParts(parts, DecodeOrder(bootOrderOld));
      }
      r := currentSlot == parts[0] && (triesA == 0 || triesB == 0) && bootOrderOld != bootOrder;
    }

    method FirmwareUpdateRebootSuccessful(currentSlot: string, bootOrderOld: string, bootOrder: string)
      returns (r: bool)
      ensures IsOrder(bootOrderOld) && IsOrder(bootOrder) ==>
        (r <==> currentSlot == SlotText(DecodeOrder(bootOrder)) && DecodeOrder(bootOrderOld) != DecodeOrder(bootOrder))
    {
      TextsDiffer();
      var parts := Split(bootOrder, ' ');
      if IsOrder(bootOrder) {
        OrderParts(parts, DecodeOrder(bootOrder));
      }
      r := currentSlot == parts[0] && bootOrderOld != bootOrder;
    }

    method MissingFirmwareUpdateReboot(currentSlot: string, bootOrderOld: string, bootOrder: string,
                                       triesA: nat, triesB: nat) returns (r: bool)
      ensures IsOrder(bootOrderOld) && IsOrder(bootOrder) ==>
        (r <==> currentSlot != SlotText(DecodeOrder(bootOrder)) && triesA == 3 && triesB == 3 &&
                DecodeOrder(bootOrderOld) != DecodeOrder(bootOrder))
    {
      TextsDiffer();
      var parts := Split(bootOrder, ' ');
      if IsOrder(bootOrder) {
        OrderParts(parts, DecodeOrder(bootOrder));
      }
      r := currentSlot != parts[0] && triesA == 3 && triesB == 3 && bootOrderOld != bootOrder;
    }

    method ApplicationReboot() returns (r: Result<bool>)
      requires uboot.Valid()
      modifies uboot.lib
      ensures uboot.Valid() && uboot.OnlyRead()
      ensures !loopReadable ==> r == Failure(LoopDevices)
      ensures Clean() && loopReadable ==> r == Success(AppRebooted(View(old(uboot.Visible())), mounted))
    {
      if !loopReadable {
        return Failure(LoopDevices);
      }
      TextsDiffer();
      var app :- uboot.GetChar(Application, ALLOWED_APPLICATIONS);
      return Success((mounted == A && app == 'A') || (mounted == B && app == 'B'));
    }

    method GetOrder(key: Key) returns (r: Result<string>)
      requires uboot.Valid() && key in {BootOrder, BootOrderOld}
      modifies uboot.lib
      ensures uboot.Valid() && uboot.OnlyRead()
      ensures r.Success? ==> key in old(uboot.Visible()) && r.value == old(uboot.Visible())[key]
      ensures r.Success? ==> IsOrder(r.value)
      ensures Calm() ==>
        var e := View(old(uboot.Visible()));
        r == Success(OrderText(if key == BootOrder then e.order else e.orderOld))
    {
      r := uboot.GetText(key, ALLOWED_ORDERS);
    }

    method GetTries(slot: Slot) returns (r: Result<nat>)
      requires uboot.Valid()
      modifies uboot.lib
      ensures uboot.Valid() && uboot.OnlyRead()
      ensures r.Success? ==> var m := old(uboot.Visible());
        r.value <= 3 && LeftKey(slot) in m && Stoul(m[LeftKey(slot)]) == Some(r.value)
      ensures Clean() ==> r == Success(View(old(uboot.Visible())).Left(slot))
    {
      r := uboot.GetNumber(LeftKey(slot), ALLOWED_TRIES);
    }

    method ReadBoot() returns (r: Result<BootVars>)
      requires uboot.Valid()
      modifies uboot.lib
      ensures uboot.Valid() && uboot.OnlyRead()
      ensures r.Success? ==> IsOrder(r.value.orderOld) && IsOrder(r.value.order)
      ensures Clean() ==>
        var e := View(old(uboot.Visible()));
        r == Success(BootVars(OrderText(e.orderOld), OrderText(e.order), e.leftA, e.leftB, SlotText(e.slot)))
    {
      hide Legible, View;
      var bootOrderOld :- GetOrder(BootOrderOld);
      var bootOrder :- GetOrder(BootOrder);
      var triesA :- GetTries(A);
      var triesB :- GetTries(B);
      var currentSlot :- CurrentSlot();
      return Success(BootVars(bootOrderOld, bootOrder, triesA, triesB, currentSlot));
    }

    method ReadVerdict() returns (r: Result<Verdict>)
      requires uboot.Valid()
      modifies uboot.lib
      ensures uboot.Valid() && uboot.OnlyRead()
      ensures r.Success? ==> IsOrder(r.value.boot.orderOld) && IsOrder(r.value.boot.order)
      ensures Clean() ==>
        var e := View(old(uboot.Visible()));
        && r.Success?
        && r.value.boot.orderOld == OrderText(e.orderOld) && r.value.boot.order == OrderText(e.order)
        && r.value.boot.slot == SlotText(e.slot)
        && (r.value.failed <==> RebootFailed(e))
        && (r.value.missing <==> RebootMissing(e))
        && (r.value.successful <==> RebootSuccessful(e))
    {
      hide Legible, View;
      TextsDiffer();
      var boot :- ReadBoot();
      var failed := FirmwareUpdateRebootFailed(boot.slot, boot.orderOld, boot.order, boot.triesA, boot.triesB);
      var missing := MissingFirmwareUpdateReboot(boot.slot, boot.orderOld, boot.order, boot.triesA, boot.triesB);
      var successful := FirmwareUpdateRebootSuccessful(boot.slot, boot.orderOld, boot.order);
      return Success(Verdict(boot, failed, missing, successful));
    }

    method FirmwareReboot() returns (r: Result<bool>)
      requires uboot.Valid()
      modifies uboot.lib
      ensures uboot.Valid() && uboot.OnlyRead()
      ensures Clean() ==> r == Success(FwRebootReported(View(old(uboot.Visible()))))
    {
      hide Legible, View, RebootFailed, RebootMissing, RebootSuccessful;
      TextsDiffer();
      var verdict :- ReadVerdict();
      var state :- GetState();
      if state == RollbackFwPending || state == RollbackAppFwPending {
        var parts := Split(verdict.boot.order, ' ');
        OrderParts(parts, DecodeOrder(verdict.boot.order));
        SlotTextRoundTrip(DecodeOrder(verdict.boot.order));
        SlotTextRoundTrip(A);
        SlotTextRoundTrip(B);
        return Success(verdict.boot.slot == parts[0]);
      }
      return Success(!verdict.missing);
    }

    method PendingFirmwareRollback() returns (r: Result<bool>)
      requires uboot.Valid()
      modifies uboot.lib
      ensures uboot.Valid() && uboot.OnlyRead()
      ensures Clean() ==> r == Success(PendingFwRollback(View(old(uboot.Visible()))))
    {
      hide Legible, View, OpenFw, OpenApp;
      var verdict :- ReadVerdict();
      return Success(!verdict.successful && verdict.failed);
    }

    method PendingUpdateRollback(state: RebootState) returns (r: Result<bool>)
      requires uboot.Valid()
      modifies uboot.lib
      ensures uboot.Valid() && uboot.OnlyRead()
      ensures Clean() && state == View(old(uboot.Visible())).state ==>
        var e := View(old(uboot.Visible()));
        r == if AsksMount(e) && !loopReadable then Failure(LoopDevices) else Success(PendingRollback(e, mounted))
    {
      hide Legible, View, OpenFw, OpenApp;
      if state in {IncompleteAppFwRollback, IncompleteFwRollback, IncompleteAppRollback} {
        return Success(true);
      }
      var flags :- GetCompleteUpdate(false);
      if state == RollbackAppFwPending {
        if OS in flags && APP in flags {
          return Success(true);
        }
        r := PendingFirmwareRollback();
      } else if state == RollbackFwPending {
        if OS in flags && APP !in flags {
          return Success(true);
        }
        r := PendingFirmwareRollback();
      } else if state == RollbackAppPending {
        if OS !in flags && APP in flags {
          return Success(true);
        }
        r := ApplicationReboot();
      } else {
        r := Success(false);
      }
    }

    // ----- Staging -----

    method StageUpdate(update: string)
      requires uboot.Valid()
      modifies uboot`variables
      ensures uboot.Valid() && uboot.variables == old(uboot.variables)[Update := update]
      ensures Legible(old(uboot.Future())) && IsMarks(update) ==>
        Shows(uboot.Future(), View(old(uboot.Future())).(marks := DecodeMarks(update)))
    {
      uboot.AddVariable(Update, update);
    }

    method StageState(state: RebootState)
      requires uboot.Valid()
      modifies uboot`variables
      ensures uboot.Valid() && uboot.variables == old(uboot.variables)[UpdateRebootState := StateText(state)]
      ensures Legible(old(uboot.Future())) ==>
        Shows(uboot.Future(), View(old(uboot.Future())).(state := state))
    {
      uboot.AddVariable(UpdateRebootState, StateText(state));
      StateRoundTrip(state);
    }

    method StageOrder(order: string)
      requires uboot.Valid()
      modifies uboot`variables
      ensures uboot.Valid() && uboot.variables == old(uboot.variables)[BootOrder := order]
      ensures Legible(old(uboot.Future())) && IsOrder(order) ==>
        Shows(uboot.Future(), View(old(uboot.Future())).(order := DecodeOrder(order)))
    {
      uboot.AddVariable(BootOrder, order);
    }

    method StageOrderOld(order: string)
      requires uboot.Valid() && IsOrder(order)
      modifies uboot`variables
      ensures uboot.Valid() && uboot.variables == old(uboot.variables)[BootOrderOld := order]
      ensures Legible(old(uboot.Future())) ==>
        Shows(uboot.Future(), View(old(uboot.Future())).(orderOld := DecodeOrder(order)))
    {
      uboot.AddVariable(BootOrderOld, order);
    }

    method StageTries(slot: Slot, n: Tries)
      requires uboot.Valid()
      modifies uboot`variables
      ensures uboot.Valid() && uboot.variables == old(uboot.variables)[LeftKey(slot) := TriesText(n)]
      ensures Legible(old(uboot.Future())) ==>
        Shows(uboot.Future(), View(old(uboot.Future())).WithLeft(slot, n))
    {
      ghost var m := uboot.Future();
      uboot.AddVariable(LeftKey(slot), TriesText(n));
      if Legible(m) {
        ShowsTries(m, slot, n);
      }
    }

    method StageApplication(text: string)
      requires uboot.Valid() && IsApplication(text)
      modifies uboot`variables
      ensures uboot.Valid() && uboot.variables == old(uboot.variables)[Application := text]
      ensures Legible(old(uboot.Future())) ==>
        Shows(uboot.Future(), View(old(uboot.Future())).(app := DecodeApplication(text)))
    {
      uboot.AddVariable(Application, text);
    }

    /** Both counters are refilled and the state becomes idle. */
    method StageSettled()
      requires uboot.Valid()
      modifies uboot`variables
      ensures uboot.Valid()
      ensures StagesOwn(old(uboot.variables)) ==> StagesOwn(uboot.variables)
      ensures Legible(old(uboot.Future())) ==>
        Shows(uboot.Future(), View(old(uboot.Future())).FullTries().(state := Idle))
    {
      hide Legible, View, DecodeMarks, IsMarks;
      StageTries(A, 3);
      StageTries(B, 3);
      StageState(Idle);
    }

    /** The text of "update" with one mark changed. */
    method WithMark(update: string, flag: Flag, next: bool, mark: Mark) returns (r: Result<string>)
      requires uboot.Valid() && IsMarks(update)
      modifies uboot.lib
      ensures uboot.Valid() && uboot.OnlyRead()
      ensures r.Success? ==> IsMarks(r.value)
      ensures Calm() ==>
        r.Success? && DecodeMarks(r.value) ==
          Marked(DecodeMarks(update), View(old(uboot.Visible())), flag, next, mark)
    {
      ghost var m := uboot.Visible();
      var index :- GetUpdateBit(flag, next);
      if Legible(m) {
        var e := View(m);
        MarkWritten(update, if flag == OS then (if next then Other(e.slot) else e.slot)
                            else (if next then Other(e.app) else e.app), mark);
      }
      return Success(update[index := MarkChar(mark)]);
    }

    /** Changes one mark of the stored "update" and stages it. */
    method StageMark(flag: Flag, next: bool, mark: Mark) returns (r: Result<()>)
      requires uboot.Valid() && StagesOwn(uboot.variables)
      modifies uboot`variables, uboot.lib
      ensures uboot.Valid() && uboot.OnlyStaged() && StagesOwn(uboot.variables)
      ensures Clean() && Legible(old(uboot.Future())) ==>
        var e := View(old(uboot.Visible()));
        r.Success? && Shows(uboot.Future(),
          View(old(uboot.Future())).(marks := Marked(e.marks, e, flag, next, mark)))
    {
      hide Legible, View, DecodeMarks, IsMarks;
      var update :- GetUpdate();
      update :- WithMark(update, flag, next, mark);
      StageUpdate(update);
      return Success(());
    }

    /** The same for an application mark and then a firmware mark. */
    method StageMarks(appNext: bool, appMark: Mark, fwNext: bool, fwMark: Mark) returns (r: Result<()>)
      requires uboot.Valid() && StagesOwn(uboot.variables)
      modifies uboot`variables, uboot.lib
      ensures uboot.Valid() && uboot.OnlyStaged() && StagesOwn(uboot.variables)
      ensures Clean() && Legible(old(uboot.Future())) ==>
        var e := View(old(uboot.Visible()));
        r.Success? && Shows(uboot.Future(), View(old(uboot.Future())).(
          marks := Marked(Marked(e.marks, e, APP, appNext, appMark), e, OS, fwNext, fwMark)))
    {
      hide Legible, View, DecodeMarks, IsMarks;
      var update :- GetUpdate();
      update :- WithMark(update, APP, appNext, appMark);
      update :- WithMark(update, OS, fwNext, fwMark);
      StageUpdate(update);
      return Success(());
    }

    /** applicationUpdate::rollback: the application slot that is not selected is staged. */
    method StageOtherApplication() returns (r: Result<()>)
      requires uboot.Valid() && StagesOwn(uboot.variables)
      modifies uboot`variables, uboot.lib
      ensures uboot.Valid() && uboot.OnlyStaged() && StagesOwn(uboot.variables)
      ensures Clean() && Legible(old(uboot.Future())) ==>
        r.Success? && Shows(uboot.Future(),
          View(old(uboot.Future())).(app := Other(View(old(uboot.Visible())).app)))
    {
      hide Stoul, IsMarks, DecodeMarks;
      TextsDiffer();
      var currentApp :- uboot.GetChar(Application, ALLOWED_APPLICATIONS);
      StageApplication(if currentApp == 'A' then "B" else "A");
      return Success(());
    }

    // ----- Confirming -----

    method ConfirmFailedFirmwareUpdate() returns (r: Result<()>)
      requires uboot.Valid() && uboot.variables == map[]
      modifies uboot`variables, uboot.lib
      ensures uboot.Valid() && uboot.OnlyStaged() && StagesOwn(uboot.variables)
      ensures Clean() ==>
        var e := View(old(uboot.Visible()));
        Stages(r, uboot.Future(), if FailedFwUpdate(e) then Success(ConfirmFailedFw(e)) else Failure(ConfirmRefused))
    {
      hide Legible, View, DecodeMarks, IsMarks;
      uboot.NothingStaged();
      var failed :- FailedFirmwareUpdate();
      if !failed {
        return Failure(ConfirmRefused);
      }
      var _ :- StageMark(OS, true, BAD);
      StageState(Idle);
      return Success(());
    }

    method ConfirmFailedRebootFirmwareUpdate() returns (r: Result<()>)
      requires uboot.Valid() && uboot.variables == map[]
      modifies uboot`variables, uboot.lib
      ensures uboot.Valid() && uboot.OnlyStaged() && StagesOwn(uboot.variables)
      ensures Clean() ==>
        var e := View(old(uboot.Visible()));
        Stages(r, uboot.Future(),
          if FailedRebootFwUpdate(e) then Success(ConfirmFailedRebootFw(e)) else Failure(ConfirmRefused))
    {
      hide Legible, View, DecodeMarks, IsMarks;
      uboot.NothingStaged();
      var failed :- FailedRebootFirmwareUpdate();
      if !failed {
        return Failure(ConfirmRefused);
      }
      var _ :- StageMark(OS, false, BAD);
      StageState(Idle);
      return Success(());
    }

    method ConfirmFailedApplicationUpdate() returns (r: Result<()>)
      requires uboot.Valid() && uboot.variables == map[]
      modifies uboot`variables, uboot.lib
      ensures uboot.Valid() && uboot.OnlyStaged() && StagesOwn(uboot.variables)
      ensures Clean() ==>
        var e := View(old(uboot.Visible()));
        Stages(r, uboot.Future(), if FailedAppUpdate(e) then Success(ConfirmFailedApp(e)) else Failure(ConfirmRefused))
    {
      hide Legible, View, DecodeMarks, IsMarks;
      uboot.NothingStaged();
      var failed :- FailedApplicationUpdate();
      if !failed {
        return Failure(ConfirmRefused);
      }
      var _ :- StageMark(APP, true, BAD);
      StageState(Idle);
      return Success(());
    }

    method ConfirmPendingApplicationUpdate() returns (r: Result<()>)
      requires uboot.Valid() && uboot.variables == map[]
      modifies uboot`variables, uboot.lib
      ensures uboot.Valid() && uboot.OnlyStaged() && StagesOwn(uboot.variables)
      ensures Clean() ==>
        var e := View(old(uboot.Visible()));
        Stages(r, uboot.Future(), Asking(PendingApp(e),
          if PendingApp(e) then ConfirmPendingApp(e, mounted) else Success(e)))
    {
      hide Legible, View, DecodeMarks, IsMarks;
      uboot.NothingStaged();
      var pending :- PendingApplicationUpdate();
      if !pending {
        return Success(());
      }
      var rebooted :- ApplicationReboot();
      if !rebooted {
        return Failure(MissingReboot);
      }
      var _ :- StageMark(APP, false, COMMITTED);
      StageState(Idle);
      return Success(());
    }

    method StageFirmwareFellBack(orderOld: string) returns (r: Result<()>)
      requires uboot.Valid() && uboot.variables == map[] && IsOrder(orderOld)
      modifies uboot`variables, uboot.lib
      ensures uboot.Valid() && uboot.OnlyStaged() && StagesOwn(uboot.variables)
      ensures Clean() ==>
        var e := View(old(uboot.Visible()));
        orderOld == OrderText(e.orderOld) ==>
          r.Success? && Shows(uboot.Future(),
            e.(marks := e.marks.WithFw(Other(e.slot), BAD), order := e.orderOld, state := Idle).FullTries())
    {
      hide Legible, View, DecodeMarks, IsMarks;
      uboot.NothingStaged();
      ghost var m := uboot.Visible();
      var _ :- StageMark(OS, true, BAD);
      StageOrder(orderOld);
      StageSettled();
      if Readable(m) {
        SlotTextRoundTrip(View(m).orderOld);
      }
      return Success(());
    }

    method StageFirmwareBooted(order: string) returns (r: Result<()>)
      requires uboot.Valid() && uboot.variables == map[] && IsOrder(order)
      modifies uboot`variables, uboot.lib
      ensures uboot.Valid() && uboot.OnlyStaged() && StagesOwn(uboot.variables)
      ensures Clean() ==>
        var e := View(old(uboot.Visible()));
        order == OrderText(e.order) ==>
          r.Success? && Shows(uboot.Future(),
            e.(marks := e.marks.WithFw(e.slot, COMMITTED), orderOld := e.order, state := Idle).FullTries())
    {
      hide Legible, View, DecodeMarks, IsMarks;
      uboot.NothingStaged();
      ghost var m := uboot.Visible();
      var _ :- StageMark(OS, false, COMMITTED);
      StageOrderOld(order);
      StageSettled();
      if Readable(m) {
        SlotTextRoundTrip(View(m).order);
      }
      return Success(());
    }

    method ConfirmPendingFirmwareUpdate() returns (r: Result<()>)
      requires uboot.Valid() && uboot.variables == map[]
      modifies uboot`variables, uboot.lib
      ensures uboot.Valid() && uboot.OnlyStaged() && StagesOwn(uboot.variables)
      ensures Clean() ==>
        var e := View(old(uboot.Visible()));
        Stages(r, uboot.Future(), if PendingFw(e) then ConfirmPendingFw(e) else Failure(ConfirmRefused))
    {
      hide Legible, View, PendingFw, PendingAppFw, RebootFailed, RebootMissing, RebootSuccessful;
      var pending :- PendingFirmwareUpdate();
      if !pending {
        return Failure(ConfirmRefused);
      }
      var verdict :- ReadVerdict();
      if verdict.failed {
        r := StageFirmwareFellBack(verdict.boot.orderOld);
      } else if verdict.missing {
        r := Failure(MissingReboot);
      } else if verdict.successful {
        r := StageFirmwareBooted(verdict.boot.order);
      } else {
        r := Failure(RebootStateNotDefined);
      }
    }

    method StageBothFellBack(orderOld: string) returns (r: Result<()>)
      requires uboot.Valid() && uboot.variables == map[] && IsOrder(orderOld)
      modifies uboot`variables, uboot.lib
      ensures uboot.Valid() && uboot.OnlyStaged() && StagesOwn(uboot.variables)
      ensures Clean() ==>
        var e := View(old(uboot.Visible()));
        orderOld == OrderText(e.orderOld) ==>
          r.Success? && Shows(uboot.Future(), e.(
            marks := e.marks.WithApp(e.app, COMMITTED).WithFw(Other(e.slot), BAD),
            app := Other(e.app), order := e.orderOld, state := Idle).FullTries())
    {
      hide Legible, View, DecodeMarks, IsMarks;
      uboot.NothingStaged();
      ghost var m := uboot.Visible();
      var _ :- StageMarks(false, COMMITTED, true, BAD);
      var _ :- StageOtherApplication();
      StageOrder(orderOld);
      StageSettled();
      if Readable(m) {
        SlotTextRoundTrip(View(m).orderOld);
      }
      return Success(());
    }

    method StageBothBooted(order: string) returns (r: Result<()>)
      requires uboot.Valid() && uboot.variables == map[] && IsOrder(order)
      modifies uboot`variables, uboot.lib
      ensures uboot.Valid() && uboot.OnlyStaged() && StagesOwn(uboot.variables)
      ensures Clean() ==>
        var e := View(old(uboot.Visible()));
        order == OrderText(e.order) ==>
          r.Success? && Shows(uboot.Future(), e.(
            marks := e.marks.WithFw(e.slot, COMMITTED).WithApp(e.app, COMMITTED),
            orderOld := e.order, state := Idle).FullTries())
    {
      hide Legible, View, DecodeMarks, IsMarks;
      uboot.NothingStaged();
      ghost var m := uboot.Visible();
      var _ :- StageMarks(false, COMMITTED, false, COMMITTED);
      StageOrderOld(order);
      StageSettled();
      if Readable(m) {
        SlotTextRoundTrip(View(m).order);
      }
      return Success(());
    }

    method ConfirmPendingApplicationFirmwareUpdate() returns (r: Result<()>)
      requires uboot.Valid() && uboot.variables == map[]
      modifies uboot`variables, uboot.lib
      ensures uboot.Valid() && uboot.OnlyStaged() && StagesOwn(uboot.variables)
      ensures Clean() ==>
        var e := View(old(uboot.Visible()));
        Stages(r, uboot.Future(), if PendingAppFw(e) then ConfirmPendingAppFw(e) else Failure(ConfirmRefused))
    {
      hide Legible, View, PendingFw, PendingAppFw, RebootFailed, RebootMissing, RebootSuccessful;
      var pending :- PendingApplicationFirmwareUpdate();
      if !pending {
        return Failure(ConfirmRefused);
      }
      var verdict :- ReadVerdict();
      if verdict.failed {
        r := StageBothFellBack(verdict.boot.orderOld);
      } else if verdict.missing {
        r := Failure(MissingReboot);
      } else if verdict.successful {
        r := StageBothBooted(verdict.boot.order);
      } else {
        r := Failure(RebootStateNotDefined);
      }
    }

    // ----- Rolling back -----

    method KeepOrder() returns (r: Result<()>)
      requires uboot.Valid() && uboot.variables == map[]
      modifies uboot`variables, uboot.lib
      ensures uboot.Valid() && uboot.OnlyStaged() && StagesOwn(uboot.variables)
      ensures Clean() ==>
        var e := View(old(uboot.Visible()));
        r.Success? && Shows(uboot.Future(), e.(orderOld := e.order))
    {
      hide Legible, View, DecodeMarks, IsMarks;
      uboot.NothingStaged();
      SlotTextRoundTrip(A);
      SlotTextRoundTrip(B);
      var bootOrder :- GetOrder(BootOrder);
      StageOrderOld(bootOrder);
      return Success(());
    }

    method RestoreOrder() returns (r: Result<()>)
      requires uboot.Valid() && uboot.variables == map[]
      modifies uboot`variables, uboot.lib
      ensures uboot.Valid() && uboot.OnlyStaged() && StagesOwn(uboot.variables)
      ensures Clean() ==>
        var e := View(old(uboot.Visible()));
        r.Success? && Shows(uboot.Future(), e.(order := e.orderOld))
    {
      hide Legible, View, DecodeMarks, IsMarks;
      uboot.NothingStaged();
      SlotTextRoundTrip(A);
      SlotTextRoundTrip(B);
      var bootOrderOld :- GetOrder(BootOrderOld);
      StageOrder(bootOrderOld);
      return Success(());
    }

    /** The firmware part of a rollback commit: a boot order is staged, and the changed text of
        "update" is returned. */
    method SettleFirmware(update: string) returns (r: Result<string>)
      requires uboot.Valid() && uboot.variables == map[] && IsMarks(update)
      modifies uboot`variables, uboot.lib
      ensures uboot.Valid() && uboot.OnlyStaged() && StagesOwn(uboot.variables)
      ensures r.Success? ==> IsMarks(r.value)
      ensures Clean() && DecodeMarks(update) == View(old(uboot.Visible())).marks ==>
        var e := View(old(uboot.Visible()));
        && r.Success? && DecodeMarks(r.value) == SettleFwRollback(e).marks
        && Shows(uboot.Future(), SettleFwRollback(e).(marks := e.marks))
    {
      hide Legible, View;
      ghost var m := uboot.Visible();
      var index :- GetUpdateBit(OS, true);
      if update[index] == '0' {
        var _ :- KeepOrder();
        r := Success(update);
      } else {
        var _ :- RestoreOrder();
        r := Success(update[index := '2']);
        if Readable(m) {
          MarkWritten(update, Other(View(m).slot), BAD);
        }
      }
    }

    /** The application part: an uncommitted mark of the application left behind becomes bad. */
    method SettleApplication(update: string) returns (r: Result<string>)
      requires uboot.Valid() && IsMarks(update)
      modifies uboot.lib
      ensures uboot.Valid() && uboot.OnlyRead()
      ensures r.Success? ==> IsMarks(r.value)
      ensures Clean() ==>
        var e := View(old(uboot.Visible()));
        r.Success? && DecodeMarks(r.value) == SettleAppRollback(e.(marks := DecodeMarks(update))).marks
    {
      hide Legible, View;
      ghost var m := uboot.Visible();
      var index :- GetUpdateBit(APP, true);
      if Readable(m) {
        MarkWritten(update, Other(View(m).app), BAD);
      }
      return Success(if update[index] == '1' then update[index := '2'] else update);
    }

    /** Both parts, with the text of "update" that they change together. */
    method SettleBoth(update: string) returns (r: Result<string>)
      requires uboot.Valid() && uboot.variables == map[] && IsMarks(update)
      modifies uboot`variables, uboot.lib
      ensures uboot.Valid() && uboot.OnlyStaged() && StagesOwn(uboot.variables)
      ensures r.Success? ==> IsMarks(r.value)
      ensures Clean() && DecodeMarks(update) == View(old(uboot.Visible())).marks ==>
        var e := View(old(uboot.Visible()));
        && r.Success? && DecodeMarks(r.value) == SettleAppRollback(SettleFwRollback(e)).marks
        && Shows(uboot.Future(), SettleFwRollback(e).(marks := e.marks))
    {
      hide Legible, View, DecodeMarks, IsMarks;
      var settled :- SettleFirmware(update);
      r := SettleApplication(settled);
    }

    method ConfirmBothRollback() returns (r: Result<()>)
      requires uboot.Valid() && uboot.variables == map[]
      modifies uboot`variables, uboot.lib
      ensures uboot.Valid() && uboot.OnlyStaged() && StagesOwn(uboot.variables)
      ensures Clean() ==>
        r.Success? && Shows(uboot.Future(), ConfirmBothBack(View(old(uboot.Visible()))))
    {
      hide Legible, View, DecodeMarks, IsMarks;
      var update :- GetUpdate();
      update :- SettleBoth(update);
      StageUpdate(update);
      StageSettled();
      return Success(());
    }

    method ConfirmFirmwareRollback() returns (r: Result<()>)
      requires uboot.Valid() && uboot.variables == map[]
      modifies uboot`variables, uboot.lib
      ensures uboot.Valid() && uboot.OnlyStaged() && StagesOwn(uboot.variables)
      ensures Clean() ==>
        r.Success? && Shows(uboot.Future(), ConfirmFwBack(View(old(uboot.Visible()))))
    {
      hide Legible, View, DecodeMarks, IsMarks;
      var update :- GetUpdate();
      update :- SettleFirmware(update);
      StageUpdate(update);
      StageSettled();
      return Success(());
    }

    method ConfirmApplicationRollback() returns (r: Result<()>)
      requires uboot.Valid() && uboot.variables == map[]
      modifies uboot`variables, uboot.lib
      ensures uboot.Valid() && uboot.OnlyStaged() && StagesOwn(uboot.variables)
      ensures Clean() ==>
        r.Success? && Shows(uboot.Future(), ConfirmAppBack(View(old(uboot.Visible()))))
    {
      hide Legible, View, DecodeMarks, IsMarks;
      uboot.NothingStaged();
      var update :- GetUpdate();
      update :- SettleApplication(update);
      StageUpdate(update);
      StageState(Idle);
      return Success(());
    }

    method ConfirmUpdateRollback() returns (r: Result<()>)
      requires uboot.Valid() && uboot.variables == map[]
      modifies uboot`variables, uboot.lib
      ensures uboot.Valid() && uboot.OnlyStaged() && StagesOwn(uboot.variables)
      ensures Clean() ==> Stages(r, uboot.Future(), ConfirmRollback(View(old(uboot.Visible()))))
    {
      hide Legible, View, ConfirmBothBack, ConfirmFwBack, ConfirmAppBack;
      var state :- GetState();
      if state == IncompleteAppFwRollback || state == RollbackAppFwPending {
        r := ConfirmBothRollback();
      } else if state == IncompleteFwRollback || state == RollbackFwPending {
        r := ConfirmFirmwareRollback();
      } else if state == IncompleteAppRollback || state == RollbackAppPending {
        r := ConfirmApplicationRollback();
      } else {
        r := Failure(ConfirmRefused);
      }
    }

    method StageUndo(orderOld: string) returns (r: Result<()>)
      requires uboot.Valid() && uboot.variables == map[] && IsOrder(orderOld)
      modifies uboot`variables, uboot.lib
      ensures uboot.Valid() && uboot.OnlyStaged() && StagesOwn(uboot.variables)
      ensures Clean() ==>
        var e := View(old(uboot.Visible()));
        orderOld == OrderText(e.orderOld) ==>
          r.Success? && Shows(uboot.Future(),
            e.(marks := e.marks.WithFw(e.slot, COMMITTED), order := e.orderOld, state := Idle).FullTries())
    {
      hide Legible, View, DecodeMarks, IsMarks;
      uboot.NothingStaged();
      SlotTextRoundTrip(A);
      SlotTextRoundTrip(B);
      var _ :- StageMark(OS, false, COMMITTED);
      StageOrder(orderOld);
      StageSettled();
      return Success(());
    }

    /** firmware_rollback. */
    method RollbackFirmware() returns (r: Result<()>)
      requires uboot.Valid() && uboot.variables == map[]
      modifies uboot`variables, uboot.lib
      ensures uboot.Valid() && uboot.OnlyStaged() && StagesOwn(uboot.variables)
      ensures Clean() ==> r.Success? && Shows(uboot.Future(), FirmwareRollback(View(old(uboot.Visible()))))
    {
      hide Legible, View, RebootMissing, RebootSuccessful, RebootFailed;
      uboot.NothingStaged();
      TextsDiffer();
      var verdict :- ReadVerdict();
      if verdict.missing {
        r := StageUndo(verdict.boot.orderOld);
      } else {
        if verdict.successful {
          StageTries(if verdict.boot.slot == "A" then A else B, 0);
          StageState(RollbackFwPending);
        }
        r := Success(());
      }
    }

    /** applicaton_rollback. */
    method RollbackApplication() returns (r: Result<()>)
      requires uboot.Valid() && uboot.variables == map[]
      modifies uboot`variables, uboot.lib
      ensures uboot.Valid() && uboot.OnlyStaged() && StagesOwn(uboot.variables)
      ensures Clean() ==>
        Stages(r, uboot.Future(), Asking(true, Success(ApplicationRollback(View(old(uboot.Visible())), mounted))))
    {
      hide Legible, View, DecodeMarks, IsMarks;
      uboot.NothingStaged();
      var rebooted :- ApplicationReboot();
      var _ :- StageOtherApplication();
      if rebooted {
        StageState(RollbackAppPending);
      } else {
        var _ :- StageMark(APP, false, COMMITTED);
        StageState(Idle);
      }
      return Success(());
    }
  }
}
