/**
 Runs of UBoot: every interleaving of nested transactions, staged variables, flushes that may
 fail, and writes by other processes while the environment is closed.
 */
module Transactions {
  import opened Results
  import opened BootEnv
  import opened UBootStore

  datatype Op =
    | Open(ok: bool)
    | Close
    | Add(key: Key, value: string)
    | Free
    | Get(key: Key, result: Option<string>)
    | Flush(ok: bool)
    | Foreign(content: map<Key, string>)  // another process, for example RAUC, stores the environment

  /** One operation on the store. The working copy means nothing while the environment is closed. */
  ghost predicate Step(s: Store, op: Op, t: Store) {
    match op
    case Open(ok) =>
      if s.depth > 0 then ok && t == s.(depth := s.depth + 1)
      else if ok then t == s.(depth := 1, cache := s.persistent)
      else t == s.(cache := t.cache)
    case Close =>
      if s.depth == 0 then t == s
      else if s.depth == 1 then t == s.(depth := 0, staged := map[], cache := t.cache)
      else t == s.(depth := s.depth - 1)
    case Add(key, value) => t == s.(staged := s.staged[key := value])
    case Free => t == s.(staged := map[])
    case Get(key, result) =>
      && t == s.(cache := if s.depth > 0 then s.cache else t.cache)
      && (s.depth > 0 || result.Some? ==> result == Lookup(s.Visible(), key))
    case Flush(ok) =>
      if ok then
        && t.depth == s.depth && t.staged == map[] && t.persistent == s.Visible() + s.staged
        && (s.depth > 0 ==> t.cache == t.persistent)
      else
        && t == s.(cache := t.cache)
        && (s.depth > 0 ==> PartlyApplied(s.cache, s.staged, t.cache))
    case Foreign(content) => s.depth == 0 && t == s.(persistent := content)
  }

  /** What a caller can ask of a UBoot object. */
  datatype Call = CallOpen | CallClose | CallAdd(key: Key, value: string) | CallFree | CallGet(key: Key) | CallFlush

  /** The methods of UBoot take exactly the steps above. */
  method Perform(u: UBoot, call: Call) returns (op: Op)
    requires u.Valid()
    modifies u, u.lib
    ensures u.Valid() && Step(old(u.State()), op, u.State()) && !op.Foreign?
  {
    match call
    case CallOpen =>
      var r := u.OpenEnv();
      op := Open(r.Success?);
    case CallClose =>
      u.CloseEnv();
      op := Close;
    case CallAdd(key, value) =>
      u.AddVariable(key, value);
      op := Add(key, value);
    case CallFree =>
      u.FreeVariables();
      op := Free;
    case CallGet(key) =>
      var r := u.GetVariable(key);
      op := Get(key, if r.Success? then Some(r.value) else None);
    case CallFlush =>
      var r := u.FlushEnvironment();
      op := Flush(r.Success?);
  }

  ghost predicate IsRun(states: seq<Store>, ops: seq<Op>) {
    && |states| == |ops| + 1
    && states[0].depth == 0
    && forall i :: 0 <= i < |ops| ==> Step(states[i], ops[i], states[i + 1])
  }

  /** A flush has failed since the environment was opened or last stored. */
  predicate Tainted(states: seq<Store>, ops: seq<Op>, k: nat)
    requires k < |states| && |states| == |ops| + 1
  {
    && k > 0 && states[k].depth > 0
    && (if ops[k - 1].Flush? then !ops[k - 1].ok else Tainted(states, ops, k - 1))
  }

  /** Staged writes are invisible: outside the wake of a failed flush, getVariable sees the stored
      environment and nothing else. */
  lemma {:induction false} StagedIsInvisible(states: seq<Store>, ops: seq<Op>, k: nat)
    requires IsRun(states, ops) && k < |states| && !Tainted(states, ops, k)
    ensures states[k].Visible() == states[k].persistent
  {
    if k > 0 {
      var s, t := states[k - 1], states[k];
      assert Step(s, ops[k - 1], t);
      if t.depth > 0 && !ops[k - 1].Flush? {
        StagedIsInvisible(states, ops, k - 1);
      }
    }
  }

  /** A failed flush leaves any part of the stage in the working copy. */
  lemma FailedFlushStep(s: Store, pending: set<Key>)
    requires s.depth > 0 && pending <= s.staged.Keys
    ensures Step(s, Flush(false), s.(cache := s.cache + (s.staged - pending)))
  {
    var t := s.(cache := s.cache + (s.staged - pending));
    assert PartlyApplied(s.cache, s.staged, t.cache);
  }

  /** In an open transaction that shows the stored environment, a failed flush can expose a value that
      was never stored exactly when something staged differs from it. */
  lemma FailedFlushIsVisible(s: Store)
    requires s.depth > 0 && s.cache == s.persistent
    ensures (exists t :: Step(s, Flush(false), t) && t.Visible() != t.persistent) <==> s.cache + s.staged != s.cache
  {
    if s.cache + s.staged != s.cache {
      FailedFlushStep(s, {});
      assert s.staged - {} == s.staged;
      var t := s.(cache := s.cache + s.staged);
      assert Step(s, Flush(false), t) && t.Visible() != t.persistent;
    } else {
      forall t | Step(s, Flush(false), t) ensures t.Visible() == t.persistent {
        PartOfNothing(s, t);
      }
    }
  }

  /** Where the stage brings nothing new, no part of it does. */
  lemma PartOfNothing(s: Store, t: Store)
    requires s.depth > 0 && s.cache + s.staged == s.cache && Step(s, Flush(false), t)
    ensures t.cache == s.cache
  {
    var pending: set<Key> :| pending <= s.staged.Keys && t.cache == s.cache + (s.staged - pending);
    forall key ensures Lookup(t.cache, key) == Lookup(s.cache, key) {
      if key in s.staged {
        assert (s.cache + s.staged)[key] == s.staged[key];
      }
    }
    SameLookups(t.cache, s.cache);
  }

  // ----- Refinement of a flat transaction -----

  /** The store without a working copy: what it holds, what is staged, how often it is open. */
  datatype Flat = Flat(depth: nat, staged: map<Key, string>, persistent: map<Key, string>)

  function Flatten(s: Store): Flat {
    Flat(s.depth, s.staged, s.persistent)
  }

  function FlatStep(f: Flat, op: Op): Flat {
    match op
    case Open(ok) => if ok then f.(depth := f.depth + 1) else f
    case Close =>
      if f.depth == 0 then f
      else if f.depth == 1 then f.(depth := 0, staged := map[])
      else f.(depth := f.depth - 1)
    case Add(key, value) => f.(staged := f.staged[key := value])
    case Free => f.(staged := map[])
    case Get(_, _) => f
    case Flush(ok) => if ok then f.(staged := map[], persistent := f.persistent + f.staged) else f
    case Foreign(content) => f.(persistent := content)
  }

  function FlatRun(f: Flat, ops: seq<Op>): Flat {
    if ops == [] then f else FlatStep(FlatRun(f, ops[..|ops| - 1]), ops[|ops| - 1])
  }

  /** The stage is not emptied by hand between a failed flush and the close of its transaction. */
  predicate NoFreeInWake(states: seq<Store>, ops: seq<Op>)
    requires |states| == |ops| + 1
  {
    forall i :: 0 <= i < |ops| && ops[i] == Free ==> !Tainted(states, ops, i)
  }

  /** The working copy differs from the stored environment at most in variables that are still staged. */
  ghost predicate Covered(s: Store) {
    s.depth > 0 ==>
      forall key :: key !in s.staged ==> Lookup(s.cache, key) == Lookup(s.persistent, key)
  }

  lemma StepKeepsCovered(s: Store, op: Op, t: Store)
    requires Step(s, op, t) && Covered(s)
    requires op == Free && s.depth > 0 ==> s.cache == s.persistent
    ensures Covered(t)
  {
    if op == Flush(false) && s.depth > 0 {
      var pending: set<Key> :| pending <= s.staged.Keys && t.cache == s.cache + (s.staged - pending);
    }
  }

  lemma {:induction false} RunKeepsCovered(states: seq<Store>, ops: seq<Op>, k: nat)
    requires IsRun(states, ops) && NoFreeInWake(states, ops) && k < |states|
    ensures Covered(states[k])
  {
    if k > 0 {
      RunKeepsCovered(states, ops, k - 1);
      if ops[k - 1] == Free && states[k - 1].depth > 0 {
        StagedIsInvisible(states, ops, k - 1);
      }
      StepKeepsCovered(states[k - 1], ops[k - 1], states[k]);
    }
  }

  /** A successful flush is the flat one exactly when the working copy is covered by the stage. */
  lemma FlushIsFlat(s: Store, t: Store)
    requires Step(s, Flush(true), t)
    ensures t.persistent == s.persistent + s.staged <==> Covered(s)
  {
    if s.depth > 0 {
      var a, b := s.cache + s.staged, s.persistent + s.staged;
      if Covered(s) {
        forall key ensures Lookup(a, key) == Lookup(b, key) {
        }
        SameLookups(a, b);
      } else {
        var key :| key !in s.staged && Lookup(s.cache, key) != Lookup(s.persistent, key);
        assert Lookup(a, key) != Lookup(b, key);
      }
    }
  }

  lemma SameLookups(a: map<Key, string>, b: map<Key, string>)
    requires forall key :: Lookup(a, key) == Lookup(b, key)
    ensures a == b
  {
    forall key
      ensures key in a <==> key in b
      ensures key in a ==> a[key] == b[key]
    {
      assert Lookup(a, key) == Lookup(b, key);
    }
  }

  /** A run refines the flat transaction at every point exactly when each of its successful flushes
      finds the working copy covered. */
  lemma RunIsFlatExactly(states: seq<Store>, ops: seq<Op>)
    requires IsRun(states, ops)
    ensures (forall k :: 0 <= k < |states| ==> Flatten(states[k]) == FlatRun(Flatten(states[0]), ops[..k]))
       <==> (forall i :: 0 <= i < |ops| && ops[i] == Flush(true) ==> Covered(states[i]))
  {
    if forall i :: 0 <= i < |ops| && ops[i] == Flush(true) ==> Covered(states[i]) {
      forall k | 0 <= k < |states| ensures Flatten(states[k]) == FlatRun(Flatten(states[0]), ops[..k]) {
        CoveredRunIsFlat(states, ops, k);
      }
    }
    if forall k :: 0 <= k < |states| ==> Flatten(states[k]) == FlatRun(Flatten(states[0]), ops[..k]) {
      forall i | 0 <= i < |ops| && ops[i] == Flush(true) ensures Covered(states[i]) {
        FlatRunStep(Flatten(states[0]), ops, i);
        assert Flatten(states[i]) == FlatRun(Flatten(states[0]), ops[..i]);
        assert Flatten(states[i + 1]) == FlatRun(Flatten(states[0]), ops[..i + 1]);
        assert Step(states[i], ops[i], states[i + 1]);
        FlushIsFlat(states[i], states[i + 1]);
      }
    }
  }

  lemma FlatRunStep(f: Flat, ops: seq<Op>, i: nat)
    requires i < |ops|
    ensures FlatRun(f, ops[..i + 1]) == FlatStep(FlatRun(f, ops[..i]), ops[i])
  {
    assert ops[..i + 1][..i] == ops[..i];
  }

  lemma {:induction false} CoveredRunIsFlat(states: seq<Store>, ops: seq<Op>, k: nat)
    requires IsRun(states, ops) && k < |states|
    requires forall i :: 0 <= i < |ops| && ops[i] == Flush(true) ==> Covered(states[i])
    ensures Flatten(states[k]) == FlatRun(Flatten(states[0]), ops[..k])
  {
    if k > 0 {
      CoveredRunIsFlat(states, ops, k - 1);
      FlatRunStep(Flatten(states[0]), ops, k - 1);
      var s, t := states[k - 1], states[k];
      assert Step(s, ops[k - 1], t);
      if ops[k - 1] == Flush(true) {
        FlushIsFlat(s, t);
      }
      assert Flatten(t) == FlatStep(Flatten(s), ops[k - 1]);
    }
  }

  /** Every run whose stage is not emptied in the wake of a failed flush refines the flat transaction:
      nesting, working copies and failed flushes leave no trace, each successful flush stores exactly
      what is staged on top of what was stored, and the outermost close discards the rest. */
  lemma RunIsFlat(states: seq<Store>, ops: seq<Op>, k: nat)
    requires IsRun(states, ops) && NoFreeInWake(states, ops) && k < |states|
    ensures Flatten(states[k]) == FlatRun(Flatten(states[0]), ops[..k])
  {
    forall i | 0 <= i < |ops| && ops[i] == Flush(true) ensures Covered(states[i]) {
      RunKeepsCovered(states, ops, i);
    }
    CoveredRunIsFlat(states, ops, k);
  }

  /** Emptying the stage by hand inside a transaction is harmless exactly while the working copy is the
      stored environment; otherwise the next successful flush stores values that are staged no longer. */
  lemma FreeInWakeLeaks(s: Store, freed: Store, t: Store)
    requires s.depth > 0 && Step(s, Free, freed) && Step(freed, Flush(true), t)
    ensures Flatten(t) == FlatStep(FlatStep(Flatten(s), Free), Flush(true)) <==> s.cache == s.persistent
  {
    FlushIsFlat(freed, t);
    if Covered(freed) {
      SameLookups(s.cache, s.persistent);
    }
    assert s.persistent + map[] == s.persistent;
  }

  /** A run in which that happens, from every store with something new to stage. */
  lemma LeakingRun(s: Store, key: Key, value: string)
    requires s.depth > 0 && s.cache == s.persistent && s.staged == map[]
    requires Lookup(s.persistent, key) != Some(value)
    ensures var staged := s.(staged := map[key := value]);
      var failed := staged.(cache := s.cache[key := value]);
      var freed := failed.(staged := map[]);
      var stored := freed.(persistent := freed.cache);
      && Step(s, Add(key, value), staged) && Step(staged, Flush(false), failed)
      && Step(failed, Free, freed) && Step(freed, Flush(true), stored)
      && Lookup(stored.persistent, key) == Some(value) != Lookup(s.persistent, key)
  {
    var staged := s.(staged := map[key := value]);
    FailedFlushStep(staged, {});
    assert staged.staged - {} == staged.staged;
    assert s.cache + map[key := value] == s.cache[key := value];
    var freed := staged.(cache := s.cache[key := value], staged := map[]);
    assert freed.cache + map[] == freed.cache;
  }
}
