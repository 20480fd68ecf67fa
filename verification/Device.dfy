/**
 A device that is driven through the class FSUpdate. Each public call is the event of Protocol,
 and a boot is what the selector and the overlay step write to the store, so whatever is proved
 of the runs of Protocol holds of the store behind the class.
 */
module Device {
  import opened Results
  import opened BootEnv
  import opened Variables
  import opened UBootStore
  import opened BootstateHandler
  import opened FsUpdater
  import opened Protocol

  /** RAUC does what the event says of it; after an error it may have activated the target or not. */
  function RaucOf(run: FwRun, target: Slot, activated: bool): Rauc {
    match run
    case FwInstalled | SyncFailed => RaucOk(target)
    case RaucFailed(left) => RaucError(target, left, activated)
  }

  /** The name of an installed application is stored, unless the store fails. */
  predicate StoresName(e: Env, ev: Event) {
    NoUpdate(e) ==>
      && (ev.UpdateApplication? ==> !ev.appRun.AppNotStored?)
      && (ev.UpdateBoth? && ev.fwRun.FwInstalled? ==> !ev.appRun.AppNotStored?)
  }

  /** The call returns normally. */
  predicate Accepts(s: System, ev: Event) {
    match ev
    case UpdateFirmware(run, _) => NoUpdate(s.env) && run.FwInstalled?
    case UpdateApplication(run, _) => NoUpdate(s.env) && run.AppInstalled?
    case UpdateBoth(fwRun, _, appRun, _) => NoUpdate(s.env) && fwRun.FwInstalled? && appRun.AppInstalled?
    case CommitUpdate => Commit(s.env, s.mounted).Success?
    case RollbackFw => RollbackFirmware(s.env, s.mounted).Success?
    case RollbackApp => RollbackApplication(s.env, s.mounted).Success?
    case MarkBad(_, _) | Reboot(_) => true
  }

  /** The letter and the number by which set_update_state_bad is told a slot. */
  function Letter(s: Slot): char {
    if s == A then 'A' else 'B'
  }

  function Number(part: Part): nat {
    if part == FirmwarePart then 0 else 1
  }

  /** An object of FSUpdate on the store of a device in the state s. */
  ghost predicate Drives(f: FSUpdate, s: System)
    reads f, f.uboot, f.uboot.lib
  {
    Shows(f.uboot.lib.persistent, s.env) && f.handler.mounted == s.mounted && f.handler.loopReadable
  }

  lemma ShownIsReadable(m: map<Key, string>, e: Env)
    requires Shows(m, e) && e.marks.Valid()
    ensures Readable(m) && View(m) == e
  {
  }

  /** What is left behind by a call that is the event ev in the state s. */
  twostate predicate Performed(f: FSUpdate, s: System, ev: Event, ok: bool)
    reads f, f.uboot, f.uboot.lib
  {
    && f.Closed() && f.uboot.lib.faults >= old(f.uboot.lib.faults)
    && (&& old(Drives(f, s)) && s.env.marks.Valid() && StoresName(s.env, ev)
        && f.uboot.lib.faults == old(f.uboot.lib.faults)
        ==> f.Ready() && Shows(f.uboot.lib.persistent, Next(s, ev).env) && ok == Accepts(s, ev))
  }

  /** RAUC installs into the slot that is not running. */
  function RaucTarget(m: map<Key, string>): Slot {
    if Legible(m) then Other(View(m).slot) else A
  }

  method PerformUpdate(f: FSUpdate, ghost s: System, ev: Event, activated: bool) returns (ok: bool)
    requires f.Ready() && (ev.UpdateFirmware? || ev.UpdateApplication?)
    modifies f.uboot, f.uboot.lib
    ensures Performed(f, s, ev, ok)
  {
    var target := RaucTarget(f.uboot.lib.persistent);
    if Drives(f, s) && s.env.marks.Valid() {
      ShownIsReadable(f.uboot.lib.persistent, s.env);
    }
    hide Legible, View, RaucTarget, UpdateFw, UpdateApp;
    match ev
    case UpdateFirmware(run, _) =>
      var r := f.UpdateFirmware(RaucOf(run, target, activated), run.FwInstalled?);
      ok := r.Success?;
      assert FwRunOf(RaucOf(run, target, activated), run.FwInstalled?) == run;
    case UpdateApplication(run, _) =>
      var r := f.UpdateApplication(true, !run.AppRejected?);
      ok := r.Success?;
  }

  method PerformCombinedUpdate(f: FSUpdate, ghost s: System, ev: Event, activated: bool) returns (ok: bool)
    requires f.Ready() && ev.UpdateBoth?
    modifies f.uboot, f.uboot.lib
    ensures Performed(f, s, ev, ok)
  {
    var target := RaucTarget(f.uboot.lib.persistent);
    if Drives(f, s) && s.env.marks.Valid() {
      ShownIsReadable(f.uboot.lib.persistent, s.env);
    }
    hide Legible, View, RaucTarget;
    var rauc := RaucOf(ev.fwRun, target, activated);
    var r := f.UpdateFirmwareAndApplication(true, rauc, ev.fwRun.FwInstalled?, !ev.appRun.AppRejected?);
    ok := r.Success?;
  }

  /** A public call of the class is an event of the protocol: while no call of the environment fails it
      leaves the environment of the next state in the store, and returns normally or throws as the
      event says. */
  method Perform(f: FSUpdate, ghost s: System, ev: Event, activated: bool) returns (ok: bool)
    requires f.Ready() && !ev.Reboot?
    modifies f.uboot, f.uboot.lib
    ensures Performed(f, s, ev, ok)
  {
    if ev.UpdateFirmware? || ev.UpdateApplication? {
      ok := PerformUpdate(f, s, ev, activated);
      return;
    }
    if ev.UpdateBoth? {
      ok := PerformCombinedUpdate(f, s, ev, activated);
      return;
    }
    if Drives(f, s) && s.env.marks.Valid() {
      ShownIsReadable(f.uboot.lib.persistent, s.env);
    }
    hide Legible, View;
    match ev
    case CommitUpdate =>
      var r := f.CommitUpdate();
      ok := r.Success?;
    case RollbackFw =>
      var r := f.RollbackFirmware(true);
      ok := r.Success?;
    case RollbackApp =>
      var r := f.RollbackApplication(true);
      ok := r.Success?;
    case MarkBad(part, slot) =>
      var r := f.SetUpdateStateBad(Letter(slot), Number(part));
      ok := r.Success?;
  }

  /** What the boot selector and the overlay step write. */
  function BootText(m: map<Key, string>, e: Env): map<Key, string> {
    m[BootALeft := TriesText(e.leftA)][BootBLeft := TriesText(e.leftB)][RaucCmd := RaucText(e.slot)]
     [UpdateRebootState := StateText(e.state)]
  }

  lemma BootShows(m: map<Key, string>, e: Env, booted: Env)
    requires Shows(m, e) && SameButBoot(e.(state := booted.state), booted)
    ensures Shows(BootText(m, booted), booted)
  {
    hide IsMarks, DecodeMarks, IsOrder, DecodeOrder, IsRaucCmd, DecodeRaucCmd, RaucText, Stoul, StateOf, StateText;
    hide TriesText;
    TriesRoundTrip(booted.leftA);
    TriesRoundTrip(booted.leftB);
    SlotTextRoundTrip(booted.slot);
    StateRoundTrip(booted.state);
  }

  lemma BootIs(s: System, n: nat)
    ensures var booted := Overlay(Attempts(s.env, n));
      && Next(s, Reboot(n)).env == booted && Next(s, Reboot(n)).mounted == booted.app
      && SameButBoot(s.env.(state := booted.state), booted)
  {
    AttemptsOnlyBoot(s.env, n);
    hide Attempts;
  }

  /** A reboot with any number of boot attempts, on a store that can be read. */
  method Boot(lib: LibUboot, n: nat, ghost s: System) returns (mounted: Slot)
    requires lib.Valid() && !lib.isOpen
    modifies lib
    ensures lib.Valid() && !lib.isOpen && lib.faults == old(lib.faults)
    ensures old(Shows(lib.persistent, s.env)) ==>
      Shows(lib.persistent, Next(s, Reboot(n)).env) && mounted == Next(s, Reboot(n)).mounted
  {
    hide Attempts, Legible, View, BootText, Overlay, Next;
    mounted := A;
    if Legible(lib.persistent) {
      ghost var m := lib.persistent;
      var booted := Overlay(Attempts(View(lib.persistent), n));
      BootIs(s, n);
      lib.persistent := BootText(lib.persistent, booted);
      mounted := booted.app;
      if Shows(m, s.env) {
        BootShows(m, s.env, booted);
      }
    }
  }

  /** One event of a run, by a program that is started for it. */
  method Take(lib: LibUboot, last: Slot, ev: Event, activated: bool, ghost s: System) returns (mounted: Slot)
    requires lib.Valid() && !lib.isOpen
    modifies lib
    ensures lib.Valid() && !lib.isOpen && lib.faults >= old(lib.faults)
    ensures
      && old(Shows(lib.persistent, s.env)) && last == s.mounted && s.env.marks.Valid() && StoresName(s.env, ev)
      && lib.faults == old(lib.faults)
      ==> Shows(lib.persistent, Next(s, ev).env) && mounted == Next(s, ev).mounted
  {
    if ev.Reboot? {
      mounted := Boot(lib, ev.attempts, s);
    } else {
      var uboot := new UBoot(lib);
      var f := new FSUpdate(uboot, last, true);
      var _ := Perform(f, s, ev, activated);
      mounted := last;
    }
  }

  /** Every run of the protocol can be played on the class: as long as no call of the environment
      fails, the store and the mounted application are those of the last state. */
  method Play(lib: LibUboot, start: Slot, events: seq<Event>, activated: seq<bool>, ghost states: seq<System>)
    returns (mounted: Slot)
    requires IsRun(states, events) && |activated| == |events|
    requires lib.Valid() && !lib.isOpen && Shows(lib.persistent, states[0].env) && start == states[0].mounted
    modifies lib
    ensures lib.Valid() && !lib.isOpen && lib.faults >= old(lib.faults)
    ensures lib.faults == old(lib.faults) ==>
      Shows(lib.persistent, states[|events|].env) && mounted == states[|events|].mounted
  {
    mounted := start;
    for i := 0 to |events|
      invariant lib.Valid() && !lib.isOpen && lib.faults >= old(lib.faults)
      invariant lib.faults == old(lib.faults) ==>
        Shows(lib.persistent, states[i].env) && mounted == states[i].mounted
    {
      RunKeeps(states, events, i);
      AllowedStoresName(states[i], events[i]);
      hide Legible, View, Next, Inv, Allowed, StoresName;
      mounted := Take(lib, mounted, events[i], activated[i], states[i]);
    }
  }

  lemma AllowedStoresName(s: System, ev: Event)
    requires Inv(s) && Allowed(s, ev)
    ensures StoresName(s.env, ev) && s.env.marks.Valid()
  {
  }
}
