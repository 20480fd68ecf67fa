/**
 The transactional store of src/uboot_interface: staged variables on top of a libubootenv
 context, with reference-counted opening. LibUboot is the foreign library: what it stores is
 defined here, whether a call succeeds is left open.
 */
module UBootStore {
  import opened Results
  import opened BootEnv
  import opened Variables

  datatype LibCall = LibOpen | LibClose

  /** Which call of the foreign library failed last. */
  datatype LibFault = NoFault | OpenFault | SetFault | StoreFault

  /** Open and close strictly alternate, beginning with open. */
  predicate Alternates(calls: seq<LibCall>) {
    forall i :: 0 <= i < |calls| ==> calls[i] == (if i % 2 == 0 then LibOpen else LibClose)
  }

  /** A libubootenv context. "cache" is the working copy that is loaded by open and changed by set. */
  class LibUboot {
    var isOpen: bool
    var cache: map<Key, string>
    var persistent: map<Key, string>
    ghost var calls: seq<LibCall>
    ghost var stores: nat  // successful calls of libuboot_env_store
    ghost var faults: nat  // failed calls of any kind
    ghost var lastFault: LibFault

    constructor (content: map<Key, string>)
      ensures !isOpen && persistent == content && calls == [] && stores == 0 && faults == 0
    {
      isOpen, cache, persistent := false, map[], content;
      calls, stores, faults, lastFault := [], 0, 0, NoFault;
    }

    ghost predicate Valid()
      reads this
    {
      Alternates(calls) && (isOpen <==> |calls| % 2 == 1)
    }

    /** Also after an error the context has to be closed before it is opened again. */
    method Open() returns (ok: bool)
      requires Valid() && !isOpen
      modifies this
      ensures Valid() && isOpen && persistent == old(persistent) && stores == old(stores)
      ensures ok ==> cache == persistent
      ensures faults == old(faults) + (if ok then 0 else 1)
      ensures lastFault == if ok then old(lastFault) else OpenFault
    {
      ok := *;
      isOpen := true;
      calls := calls + [LibOpen];
      if ok {
        cache := persistent;
      } else {
        faults, lastFault := faults + 1, OpenFault;
      }
    }

    method Close()
      requires Valid() && isOpen
      modifies this
      ensures Valid() && !isOpen && persistent == old(persistent) && stores == old(stores)
      ensures faults == old(faults) && lastFault == old(lastFault)
    {
      isOpen := false;
      calls := calls + [LibClose];
    }

    method SetEnv(key: Key, value: string) returns (ok: bool)
      requires Valid() && isOpen
      modifies this
      ensures Valid() && isOpen && persistent == old(persistent) && stores == old(stores)
      ensures cache == if ok then old(cache)[key := value] else old(cache)
      ensures faults == old(faults) + (if ok then 0 else 1)
      ensures lastFault == if ok then old(lastFault) else SetFault
    {
      ok := *;
      if ok {
        cache := cache[key := value];
      } else {
        faults, lastFault := faults + 1, SetFault;
      }
    }

    /** The redundant copies of the environment make a store all or nothing. */
    method Store() returns (ok: bool)
      requires Valid() && isOpen
      modifies this
      ensures Valid() && isOpen && cache == old(cache)
      ensures persistent == if ok then cache else old(persistent)
      ensures stores == old(stores) + (if ok then 1 else 0)
      ensures faults == old(faults) + (if ok then 0 else 1)
      ensures lastFault == if ok then old(lastFault) else StoreFault
    {
      ok := *;
      if ok {
        persistent := cache;
        stores := stores + 1;
      } else {
        faults, lastFault := faults + 1, StoreFault;
      }
    }
  }

  function Lookup(m: map<Key, string>, key: Key): Option<string> {
    if key in m then Some(m[key]) else None
  }

  /** One state of the store, without the object identities. */
  datatype Store = Store(
    depth: nat,
    staged: map<Key, string>,
    cache: map<Key, string>,
    persistent: map<Key, string>
  ) {
    /** What getVariable reads. */
    function Visible(): map<Key, string> {
      if depth > 0 then cache else persistent
    }
  }

  class UBoot {
    const lib: LibUboot
    var variables: map<Key, string>
    var envOpenCount: nat

    constructor (lib: LibUboot)
      requires lib.Valid() && !lib.isOpen
      ensures this.lib == lib && Valid() && variables == map[] && envOpenCount == 0
    {
      this.lib := lib;
      variables, envOpenCount := map[], 0;
    }

    ghost predicate Valid()
      reads this, lib
    {
      lib.Valid() && (lib.isOpen <==> envOpenCount > 0)
    }

    ghost function State(): Store
      reads this, lib
    {
      Store(envOpenCount, variables, lib.cache, lib.persistent)
    }

    ghost function Visible(): map<Key, string>
      reads this, lib
    {
      State().Visible()
    }

    /** What the next successful flush would store. */
    ghost function Future(): map<Key, string>
      reads this, lib
    {
      Visible() + variables
    }

    lemma NothingStaged()
      requires variables == map[]
      ensures Future() == Visible()
    {
    }

    /** Nothing but the library's records of calls and faults has changed. */
    twostate predicate OnlyRead()
      reads this, lib
    {
      && variables == old(variables) && envOpenCount == old(envOpenCount)
      && lib.persistent == old(lib.persistent) && lib.stores == old(lib.stores)
      && (envOpenCount > 0 ==> lib.cache == old(lib.cache) && lib.faults == old(lib.faults))
      && lib.faults >= old(lib.faults)
    }

    /** As OnlyRead, but variables may have been staged. */
    twostate predicate OnlyStaged()
      reads this, lib
    {
      && envOpenCount == old(envOpenCount)
      && lib.persistent == old(lib.persistent) && lib.stores == old(lib.stores)
      && (envOpenCount > 0 ==> lib.cache == old(lib.cache) && lib.faults == old(lib.faults))
      && lib.faults >= old(lib.faults)
    }

    method OpenEnv() returns (r: Result<()>)
      requires Valid()
      modifies this`envOpenCount, lib
      ensures Valid() && lib.persistent == old(lib.persistent) && lib.stores == old(lib.stores)
      ensures envOpenCount == old(envOpenCount) + (if r.Success? then 1 else 0)
      ensures old(envOpenCount) > 0 ==> r.Success? && lib.cache == old(lib.cache)
      ensures old(envOpenCount) == 0 && r.Success? ==> lib.cache == lib.persistent
      ensures r.Failure? ==> r.error == EnvOpen
      ensures lib.faults == old(lib.faults) + (if r.Success? then 0 else 1)
    {
      if envOpenCount > 0 {
        envOpenCount := envOpenCount + 1;
        return Success(());
      }
      var ok := lib.Open();
      if !ok {
        lib.Close();
        return Failure(EnvOpen);
      }
      envOpenCount := 1;
      return Success(());
    }

    method CloseEnv()
      requires Valid()
      modifies this, lib
      ensures Valid() && lib.persistent == old(lib.persistent)
      ensures lib.stores == old(lib.stores) && lib.faults == old(lib.faults)
      ensures envOpenCount == if old(envOpenCount) == 0 then 0 else old(envOpenCount) - 1
      ensures variables == if old(envOpenCount) == 1 then map[] else old(variables)
      ensures old(envOpenCount) != 1 ==> lib.cache == old(lib.cache)
    {
      if envOpenCount == 0 {
        return;
      }
      envOpenCount := envOpenCount - 1;
      if envOpenCount == 0 {
        lib.Close();
        variables := map[];
      }
    }

    method GetVariable(key: Key) returns (r: Result<string>)
      requires Valid()
      modifies lib
      ensures Valid() && OnlyRead()
      ensures r.Success? ==> key in old(Visible()) && r.value == old(Visible())[key]
      ensures lib.faults == old(lib.faults) && key in old(Visible()) ==> r.Success?
      ensures r.Success? ==> lib.faults == old(lib.faults)
      ensures r.Failure? ==> r.error == EnvAccess || (r.error == EnvOpen && lib.faults > old(lib.faults))
    {
      var callerOwnsEnv := envOpenCount > 0;
      if !callerOwnsEnv {
        var ok := lib.Open();
        if !ok {
          lib.Close();
          return Failure(EnvOpen);
        }
      }
      if key !in lib.cache {
        if !callerOwnsEnv {
          lib.Close();
        }
        return Failure(EnvAccess);
      }
      r := Success(lib.cache[key]);
      if !callerOwnsEnv {
        lib.Close();
      }
    }

    /** The typed readings: the text must have the type and be one of the allowed values. */
    method GetNumber(key: Key, allowed: seq<nat>) returns (r: Result<nat>)
      requires Valid()
      modifies lib
      ensures Valid() && OnlyRead()
      ensures r.Success? ==>
        key in old(Visible()) && Stoul(old(Visible())[key]) == Some(r.value) && r.value <= 255 && r.value in allowed
      ensures lib.faults == old(lib.faults) && key in old(Visible()) ==>
        var n := Stoul(old(Visible())[key]);
        r.Failure? ==> r.error == if n.Some? && n.value <= 255 then NotAllowedContent else NotConvertible
      ensures lib.faults == old(lib.faults) && key in old(Visible()) ==>
        var n := Stoul(old(Visible())[key]);
        n.Some? && n.value <= 255 && n.value in allowed ==> r.Success?
      ensures r.Success? ==> lib.faults == old(lib.faults)
    {
      var content :- GetVariable(key);
      var number := Stoul(content);
      if number == None || number.value > 255 {
        return Failure(NotConvertible);
      }
      if number.value !in allowed {
        return Failure(NotAllowedContent);
      }
      return Success(number.value);
    }

    method GetText(key: Key, allowed: seq<string>) returns (r: Result<string>)
      requires Valid()
      modifies lib
      ensures Valid() && OnlyRead()
      ensures r.Success? ==> key in old(Visible()) && r.value == old(Visible())[key] && r.value in allowed
      ensures lib.faults == old(lib.faults) && key in old(Visible()) && old(Visible())[key] in allowed ==> r.Success?
      ensures lib.faults == old(lib.faults) && key in old(Visible()) && r.Failure? ==> r.error == NotAllowedContent
    {
      var content :- GetVariable(key);
      if content !in allowed {
        return Failure(NotAllowedContent);
      }
      return Success(content);
    }

    method GetChecked(key: Key, validator: string -> bool) returns (r: Result<string>)
      requires Valid()
      modifies lib
      ensures Valid() && OnlyRead()
      ensures r.Success? ==> key in old(Visible()) && r.value == old(Visible())[key] && validator(r.value)
      ensures lib.faults == old(lib.faults) && key in old(Visible()) && validator(old(Visible())[key]) ==> r.Success?
      ensures lib.faults == old(lib.faults) && key in old(Visible()) && r.Failure? ==> r.error == NotAllowedContent
    {
      var content :- GetVariable(key);
      if !validator(content) {
        return Failure(NotAllowedContent);
      }
      return Success(content);
    }

    method GetChar(key: Key, allowed: seq<char>) returns (r: Result<char>)
      requires Valid()
      modifies lib
      ensures Valid() && OnlyRead()
      ensures r.Success? ==> key in old(Visible()) && [r.value] == old(Visible())[key] && r.value in allowed
      ensures lib.faults == old(lib.faults) && key in old(Visible()) ==>
        var content := old(Visible())[key];
        |content| == 1 && content[0] in allowed ==> r.Success?
      ensures lib.faults == old(lib.faults) && key in old(Visible()) && r.Failure? ==>
        r.error == if |old(Visible())[key]| == 1 then NotAllowedContent else NotConvertible
      ensures r.Success? ==> lib.faults == old(lib.faults)
      ensures r.Failure? ==> r.error in {EnvOpen, EnvAccess, NotConvertible, NotAllowedContent}
    {
      var content :- GetVariable(key);
      if |content| != 1 {
        return Failure(NotConvertible);
      }
      if content[0] !in allowed {
        return Failure(NotAllowedContent);
      }
      return Success(content[0]);
    }

    method AddVariable(key: Key, value: string)
      requires Valid()
      modifies this`variables
      ensures Valid() && variables == old(variables)[key := value]
      ensures Future() == old(Future())[key := value]
    {
      variables := variables[key := value];
    }

    method FreeVariables()
      requires Valid()
      modifies this`variables
      ensures Valid() && variables == map[]
    {
      variables := map[];
    }

    /** All staged variables are stored at once and the stage is emptied, or nothing is stored and
        the stage is kept. After a failure inside a transaction the working copy may hold some of
        the staged values. */
    method FlushEnvironment() returns (r: Result<()>)
      requires Valid()
      modifies this`variables, lib
      ensures Valid() && envOpenCount == old(envOpenCount)
      ensures r.Success? ==>
        && variables == map[]
        && lib.persistent == old(Visible()) + old(variables)
        && (envOpenCount > 0 ==> lib.cache == lib.persistent)
        && lib.stores == old(lib.stores) + 1
        && lib.faults == old(lib.faults)
      ensures r.Failure? ==>
        && variables == old(variables)
        && lib.persistent == old(lib.persistent)
        && lib.stores == old(lib.stores)
        && lib.faults == old(lib.faults) + 1
        && (envOpenCount > 0 ==> PartlyApplied(old(lib.cache), variables, lib.cache))
        && r.error == (match lib.lastFault
                       case OpenFault => EnvOpen case SetFault => EnvWrite case _ => EnvStore)
    {
      var callerOwnsEnv := envOpenCount > 0;
      if !callerOwnsEnv {
        var ok := lib.Open();
        if !ok {
          lib.Close();
          return Failure(EnvOpen);
        }
      }
      ghost var before := lib.cache;
      var remaining := variables.Keys;
      while remaining != {}
        invariant Busy(callerOwnsEnv) && remaining <= variables.Keys && variables == old(variables)
        invariant lib.persistent == old(lib.persistent)
        invariant lib.stores == old(lib.stores) && lib.faults == old(lib.faults)
        invariant lib.cache == before + (variables - remaining)
        decreases remaining
      {
        var key :| key in remaining;
        var written := lib.SetEnv(key, variables[key]);
        if !written {
          if !callerOwnsEnv {
            lib.Close();
          }
          return Failure(EnvWrite);
        }
        remaining := remaining - {key};
      }
      assert variables - {} == variables;
      var stored := lib.Store();
      if !stored {
        if !callerOwnsEnv {
          lib.Close();
        }
        return Failure(EnvStore);
      }
      variables := map[];
      if !callerOwnsEnv {
        lib.Close();
      }
      return Success(());
    }

    ghost predicate Busy(callerOwnsEnv: bool)
      reads this, lib
    {
      lib.Valid() && lib.isOpen && callerOwnsEnv == (envOpenCount > 0)
    }
  }

  /** "now" is "before" with some of the variables of "staged" set. */
  ghost predicate PartlyApplied(before: map<Key, string>, staged: map<Key, string>, now: map<Key, string>) {
    exists pending: set<Key> :: pending <= staged.Keys && now == before + (staged - pending)
  }
}
