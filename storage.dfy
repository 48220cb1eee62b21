/**
 * The storage driver registry of package `utils`: drivers register under a
 * name, and a storage is opened by asking each registered driver whether it
 * supports the URL.
 */
module Storage {
  import opened Wrappers

  /**
   * The errors a storage can be opened with: `NotSupported` is
   * `ErrorsUSSNotSupported` ("storage type is not supported"), which the
   * registry reports itself; `Failed` is whatever error a driver's own `New`
   * returns, so only drivers build it.
   */
  datatype StorageError = NotSupported | Failed(message: string)

  /**
   * A registered `UpdateServiceStorage`, reduced to the two methods the
   * registry calls: `Supported(url)` and `New(url, km)`.
   */
  datatype Driver<S> = Driver(supported: string -> bool, make: (string, string) -> Result<S, StorageError>)

  /** The result of `RegisterStorage`: it returns, or it panics with a message. */
  datatype Registration = Registered | Panic(message: string)

  const EmptyNamePanic := "Could not register a Storage with an empty name"
  const NilDriverPanic := "Could not register a nil Storage"

  function DuplicatePanic(name: string): string
  {
    "Storage type '" + name + "' is already registered"
  }

  /** An empty argument of `NewUSStorage` is replaced by the configured setting under `key`. */
  function EffectiveSetting(value: string, key: string, setting: string -> string): (r: string)
    ensures value != "" ==> r == value
    ensures value == "" ==> r == setting(key)
  {
    if value == "" then setting(key) else value
  }

  /** Some driver registered in `drivers` supports `url`. */
  ghost predicate AnySupports<S>(drivers: map<string, Driver<S>>, url: string)
  {
    exists name :: name in drivers && drivers[name].supported(url)
  }

  /**
   * What opening `url` with key manager `km` may give: the `New` of some
   * driver that supports the URL, or `ErrorsUSSNotSupported` when none does.
   * Which supporting driver is asked is not fixed, because Go visits a map in
   * no particular order.
   */
  ghost predicate Resolves<S>(drivers: map<string, Driver<S>>, url: string, km: string, r: Result<S, StorageError>)
  {
    if AnySupports(drivers, url) then
      exists name :: name in drivers && drivers[name].supported(url) && r == drivers[name].make(url, km)
    else
      r == Err(NotSupported)
  }

  /** With a single supporting driver, the outcome is that driver's `New`. */
  lemma UniqueDriverDecides<S>(drivers: map<string, Driver<S>>, url: string, km: string, name: string, r: Result<S, StorageError>)
    requires name in drivers && drivers[name].supported(url)
    requires forall other :: other in drivers && other != name ==> !drivers[other].supported(url)
    ensures Resolves(drivers, url, km, r) <==> r == drivers[name].make(url, km)
  {
    assert AnySupports(drivers, url);
    if Resolves(drivers, url, km, r) {
      var chosen :| chosen in drivers && drivers[chosen].supported(url) && r == drivers[chosen].make(url, km);
      assert chosen == name;
    }
  }

  /** Registering a driver that does not support `url` changes nothing about how `url` opens. */
  lemma UnrelatedDriverIrrelevant<S>(drivers: map<string, Driver<S>>, name: string, f: Driver<S>, url: string, km: string, r: Result<S, StorageError>)
    requires name !in drivers && !f.supported(url)
    ensures Resolves(drivers[name := f], url, km, r) <==> Resolves(drivers, url, km, r)
  {
    var grown := drivers[name := f];
    if AnySupports(grown, url) {
      var n :| n in grown && grown[n].supported(url);
      assert n in drivers && drivers[n].supported(url);
    }
    if AnySupports(drivers, url) {
      var n :| n in drivers && drivers[n].supported(url);
      assert n in grown && grown[n].supported(url);
    }
    if Resolves(grown, url, km, r) && AnySupports(grown, url) {
      var n :| n in grown && grown[n].supported(url) && r == grown[n].make(url, km);
      assert n in drivers && drivers[n].supported(url) && r == drivers[n].make(url, km);
    }
    if Resolves(drivers, url, km, r) && AnySupports(drivers, url) {
      var n :| n in drivers && drivers[n].supported(url) && r == drivers[n].make(url, km);
      assert n in grown && grown[n].supported(url) && r == grown[n].make(url, km);
    }
  }

  /** The package-level `usStorages` map. */
  class StorageRegistry<S> {
    var drivers: map<string, Driver<S>>

    constructor ()
      ensures drivers == map[]
    {
      drivers := map[];
    }

    /**
     * `RegisterStorage(name, f)`; `f == None` is a nil driver. A panic leaves
     * the registry as it was.
     */
    method RegisterStorage(name: string, f: Option<Driver<S>>) returns (outcome: Registration)
      modifies this
      ensures name == "" ==> outcome == Panic(EmptyNamePanic)
      ensures name != "" && f.None? ==> outcome == Panic(NilDriverPanic)
      ensures name != "" && f.Some? && name in old(drivers) ==> outcome == Panic(DuplicatePanic(name))
      ensures outcome.Panic? ==> drivers == old(drivers)
      ensures name != "" && f.Some? && name !in old(drivers) ==>
        && outcome == Registered
        && drivers == old(drivers)[name := f.value]
        && drivers.Keys == old(drivers).Keys + {name}
        && (forall other :: other in old(drivers) ==> other in drivers && drivers[other] == old(drivers)[other])
    {
      if name == "" {
        return Panic(EmptyNamePanic);
      }
      if f.None? {
        return Panic(NilDriverPanic);
      }
      if name in drivers {
        return Panic(DuplicatePanic(name));
      }
      drivers := drivers[name := f.value];
      outcome := Registered;
    }

    /**
     * `NewUSStorage(url, km)`: fill in the settings for empty arguments, then
     * walk the registered drivers in an unspecified order and open the storage
     * with the first one that supports the URL. The registry is only read.
     */
    method NewUSStorage(url: string, km: string, setting: string -> string) returns (r: Result<S, StorageError>)
      ensures Resolves(drivers, EffectiveSetting(url, "storage", setting), EffectiveSetting(km, "keymanager", setting), r)
    {
      var u := url;
      if u == "" {
        u := setting("storage");
      }
      var k := km;
      if k == "" {
        k := setting("keymanager");
      }
      var remaining := drivers.Keys;
      while remaining != {}
        invariant remaining <= drivers.Keys
        invariant forall name :: name in drivers && name !in remaining ==> !drivers[name].supported(u)
        decreases |remaining|
      {
        var name :| name in remaining;
        var f := drivers[name];
        if f.supported(u) {
          return f.make(u, k);
        }
        remaining := remaining - {name};
      }
      r := Err(NotSupported);
    }
  }
}
