/**
  The process-wide factory registry of itkObjectFactoryBase (its static m_RegisteredFactories).

  `initialized` says whether the list pointer is non-null and `factories` is the list.  The
  operating system is the registry's `host`, which ReHash replaces with what the system
  reports then; the running toolkit's version string is `runningVersion`.  Every factory a
  library load produces is a new object (its plugin's `itkLoad` builds one per call), so
  `fresh` and `Distinct` describe the factories discovery adds.
 */
module Registry {
  import opened Wrappers
  import opened OverrideTable
  import opened ObjectFactory
  import opened Discovery
  import opened AutoloadPath

  /** The path RegisterFactory records for a factory that has no library handle. */
  const NonDynamicName: string := "Non-Dynamicly loaded factory"

  /** `f` is the factory built for `r` by its library's `itkLoad`, with the handle and path recorded and registered once. */
  ghost predicate LoadedAs(f: Factory, r: Registration)
    reads f
  {
    && f.overrides == Build(r.image.overrides)
    && f.sourceVersion == r.image.sourceVersion
    && f.libraryHandle == r.handle
    && f.libraryPath == r.path
    && f.refCount == InitialReferenceCount + 1
  }

  /** `fs[k]` is the factory loaded for `rs[k]`, for every position `k`. */
  ghost predicate LoadedAll(fs: seq<Factory>, rs: seq<Registration>)
    reads set f | f in fs
  {
    |fs| == |rs| && forall k {:trigger LoadedAs(fs[k], rs[k])} :: 0 <= k < |fs| ==> LoadedAs(fs[k], rs[k])
  }

  /** No factory is listed twice. */
  predicate Distinct(fs: seq<Factory>)
  {
    forall i, j :: 0 <= i < j < |fs| ==> fs[i] != fs[j]
  }

  /** Two lists without repeats and without a common factory join into one without repeats. */
  lemma DistinctAppend(a: seq<Factory>, b: seq<Factory>)
    requires Distinct(a) && Distinct(b)
    requires forall j :: 0 <= j < |b| ==> b[j] !in a
    ensures Distinct(a + b)
  {
    forall i, j | 0 <= i < j < |a + b|
      ensures (a + b)[i] != (a + b)[j]
    {
      if j < |a| {
        assert (a + b)[i] == a[i] && (a + b)[j] == a[j];
      } else if i < |a| {
        assert (a + b)[i] == a[i] && (a + b)[j] == b[j - |a|];
      } else {
        assert (a + b)[i] == b[i - |a|] && (a + b)[j] == b[j - |a|];
      }
    }
  }

  lemma LoadedAllAppend(a: seq<Factory>, ra: seq<Registration>, b: seq<Factory>, rb: seq<Registration>)
    requires LoadedAll(a, ra) && LoadedAll(b, rb)
    ensures LoadedAll(a + b, ra + rb)
  {
    forall k | 0 <= k < |a + b|
      ensures LoadedAs((a + b)[k], (ra + rb)[k])
    {
      if k >= |a| {
        assert (a + b)[k] == b[k - |a|] && (ra + rb)[k] == rb[k - |a|];
      }
    }
  }

  /** std::list::remove: every occurrence of `x` is dropped, the rest keep their order. */
  function Without<T(==)>(s: seq<T>, x: T): seq<T>
  {
    if s == [] then [] else (if s[0] == x then [] else [s[0]]) + Without(s[1..], x)
  }

  /** Removal drops all copies of `x`, keeps every other element as often as it was there, and nothing else. */
  lemma {:induction false} WithoutFacts<T>(s: seq<T>, x: T)
    ensures x !in Without(s, x)
    ensures |Without(s, x)| == |s| - multiset(s)[x]
    ensures forall y :: y != x ==> multiset(Without(s, x))[y] == multiset(s)[y]
  {
    if s != [] {
      WithoutFacts(s[1..], x);
      assert s == [s[0]] + s[1..];
    }
  }

  /** Removal works piece by piece, so the relative order of the remaining elements is kept. */
  lemma {:induction false} WithoutAppend<T>(a: seq<T>, b: seq<T>, x: T)
    ensures Without(a + b, x) == Without(a, x) + Without(b, x)
  {
    if a == [] {
      assert a + b == b;
    } else {
      assert (a + b)[1..] == a[1..] + b;
      WithoutAppend(a[1..], b, x);
    }
  }

  /** The object the first factory in list order creates for `c`; None when none creates one. */
  ghost function FirstCreated(fs: seq<Factory>, c: string): (r: Option<Instance>)
    reads set f | f in fs
    ensures r.None? <==> forall i :: 0 <= i < |fs| ==> fs[i].CreateObject(c).None?
    ensures r.Some? ==> exists i :: 0 <= i < |fs| && fs[i].CreateObject(c) == r
                                    && forall j :: 0 <= j < i ==> fs[j].CreateObject(c).None?
  {
    if fs == [] then None
    else if fs[0].CreateObject(c).Some? then fs[0].CreateObject(c)
    else
      var r := FirstCreated(fs[1..], c);
      assert forall i :: 1 <= i < |fs| ==> fs[i] == fs[1..][i - 1];
      r
  }

  /** The first factory that creates an object for `c` decides the result. */
  lemma {:induction false} FirstCreatedAt(fs: seq<Factory>, c: string, i: nat)
    requires i < |fs| && fs[i].CreateObject(c).Some?
    requires forall j :: 0 <= j < i ==> fs[j].CreateObject(c).None?
    ensures FirstCreated(fs, c) == fs[i].CreateObject(c)
  {
    if i > 0 {
      FirstCreatedAt(fs[1..], c, i - 1);
    }
  }

  /** Factories later in the list are only asked once every earlier one has yielded nothing. */
  lemma {:induction false} FirstCreatedAppend(fs: seq<Factory>, gs: seq<Factory>, c: string)
    ensures FirstCreated(fs + gs, c) == if FirstCreated(fs, c).Some? then FirstCreated(fs, c) else FirstCreated(gs, c)
  {
    if fs == [] {
      assert fs + gs == gs;
    } else {
      assert (fs + gs)[1..] == fs[1..] + gs;
      FirstCreatedAppend(fs[1..], gs, c);
    }
  }

  /** Unregistering a factory that creates nothing for `c` does not change which object `c` resolves to. */
  lemma {:induction false} FirstCreatedWithout(fs: seq<Factory>, f: Factory, c: string)
    requires f.CreateObject(c).None?
    ensures FirstCreated(Without(fs, f), c) == FirstCreated(fs, c)
  {
    if fs != [] {
      FirstCreatedWithout(fs[1..], f, c);
      assert fs == [fs[0]] + fs[1..];
      FirstCreatedAppend(if fs[0] == f then [] else [fs[0]], Without(fs[1..], f), c);
      FirstCreatedAppend([fs[0]], fs[1..], c);
    }
  }

  class FactoryRegistry {
    /** m_RegisteredFactories != 0. */
    var initialized: bool
    /** *m_RegisteredFactories; empty while the pointer is null. */
    var factories: seq<Factory>
    /** The directories, listings and libraries the operating system reports; ReHash reads them anew. */
    var host: Host
    /** What itkVersion::GetITKSourceVersion reports. */
    const runningVersion: string

    ghost predicate Valid()
      reads this
    {
      !initialized ==> factories == []
    }

    /** The list pointer starts out null. */
    constructor (host: Host, runningVersion: string)
      ensures Valid() && !initialized && factories == []
      ensures this.host == host && this.runningVersion == runningVersion
    {
      this.host := host;
      this.runningVersion := runningVersion;
      initialized := false;
      factories := [];
    }

    /**
      Resolves `c`: after making sure the registry is initialized, the first factory in list
      order whose CreateObject yields an object wins.
     */
    method CreateInstance(c: string) returns (r: Option<Instance>)
      requires Valid()
      modifies this`initialized, this`factories
      ensures Valid() && initialized
      ensures old(initialized) ==> factories == old(factories)
      ensures !old(initialized) ==> LoadedAll(factories, DiscoveryPlan(host))
                                    && Distinct(factories) && forall k :: 0 <= k < |factories| ==> fresh(factories[k])
      ensures r == FirstCreated(factories, c)
    {
      if !initialized {
        Init();
      }
      var i := 0;
      while i < |factories|
        invariant 0 <= i <= |factories|
        invariant forall j :: 0 <= j < i ==> factories[j].CreateObject(c).None?
      {
        var newobject := factories[i].CreateObject(c);
        if newobject.Some? {
          FirstCreatedAt(factories, c, i);
          return newobject;
        }
        i := i + 1;
      }
      return None;
    }

    /**
      The one-time initialization: nothing happens when the list exists.  Otherwise a new
      list is made, RegisterDefaults registers nothing, and every search directory is loaded.
     */
    method Init()
      requires Valid()
      modifies this`initialized, this`factories
      decreases if initialized then 0 else 1, 0
      ensures Valid() && initialized
      ensures old(initialized) ==> factories == old(factories)
      ensures !old(initialized) ==> LoadedAll(factories, DiscoveryPlan(host))
                                    && Distinct(factories) && forall k :: 0 <= k < |factories| ==> fresh(factories[k])
    {
      if initialized {
        return;
      }
      initialized := true;
      factories := [];
      ghost var added := LoadDynamicFactories();
    }

    /**
      Hands every directory of the search path to LoadLibrariesInPath, in order.  The path is
      split as the loop evidently intends (AutoloadPath.Components), not as written.
     */
    method LoadDynamicFactories() returns (ghost added: seq<Factory>)
      requires Valid() && initialized
      modifies this`initialized, this`factories
      decreases 0, 5
      ensures Valid() && initialized
      ensures factories == old(factories) + added
      ensures LoadedAll(added, DiscoveryPlan(host))
      ensures forall k :: 0 <= k < |added| ==> fresh(added[k])
      ensures Distinct(added)
    {
      added := [];
      var dirs := SearchDirs(host.autoloadPath);
      var d := 0;
      while d < |dirs|
        invariant 0 <= d <= |dirs|
        invariant Valid() && initialized
        invariant factories == old(factories) + added
        invariant LoadedAll(added, PlanDirs(host, dirs[..d]))
        invariant forall k :: 0 <= k < |added| ==> fresh(added[k])
        invariant Distinct(added)
      {
        assert dirs[..d + 1][..d] == dirs[..d];
        ghost var next := LoadLibrariesInPath(dirs[d]);
        LoadedAllAppend(added, PlanDirs(host, dirs[..d]), next, Plan(host, dirs[d]));
        DistinctAppend(added, next);
        added := added + next;
        d := d + 1;
      }
      assert dirs[..d] == dirs;
    }

    /**
      Registers, in listing order, every file of `dir` whose name has the library extension,
      that opens, and that exports `itkLoad`; each new factory records its handle and full
      path.  A directory that cannot be read changes nothing.  `added` is what the list gains.
      Its only caller is LoadDynamicFactories, which Init runs after creating the list, so the
      registry is initialized.
     */
    method LoadLibrariesInPath(dir: string) returns (ghost added: seq<Factory>)
      requires Valid() && initialized
      modifies this`initialized, this`factories
      decreases 0, 4
      ensures Valid() && initialized
      ensures factories == old(factories) + added
      ensures LoadedAll(added, Plan(host, dir))
      ensures forall k :: 0 <= k < |added| ==> fresh(added[k])
      ensures Distinct(added)
    {
      added := [];
      if dir !in host.listings {
        return;
      }
      var files := host.listings[dir];
      var i := 0;
      while i < |files|
        invariant 0 <= i <= |files|
        invariant Valid() && initialized
        invariant factories == old(factories) + added
        invariant LoadedAll(added, PlanFiles(host, dir, files[..i]))
        invariant forall k :: 0 <= k < |added| ==> fresh(added[k])
        invariant Distinct(added)
      {
        PlanFilesStep(dir, files, i);
        ghost var next := LoadCandidate(dir, files[i]);
        LoadedAllAppend(added, PlanFiles(host, dir, files[..i]), next, CandidateRegistrations(dir, files[i]));
        DistinctAppend(added, next);
        added := added + next;
        i := i + 1;
      }
      assert files[..i] == files;
    }

    /** The registrations one listed file contributes. */
    ghost function CandidateRegistrations(dir: string, file: string): seq<Registration>
      reads this
    {
      var c := Candidate(host, dir, file);
      if c.Some? then [c.value] else []
    }

    lemma PlanFilesStep(dir: string, files: seq<string>, i: nat)
      requires i < |files|
      ensures PlanFiles(host, dir, files[..i + 1]) == PlanFiles(host, dir, files[..i]) + CandidateRegistrations(dir, files[i])
    {
      assert files[..i + 1][..i] == files[..i];
    }

    /**
      One iteration of LoadLibrariesInPath: a file with the library extension whose full path
      opens and exports `itkLoad` yields a new factory that records the handle and the path and
      is registered; any other file is skipped.
     */
    method LoadCandidate(dir: string, file: string) returns (ghost added: seq<Factory>)
      requires Valid() && initialized
      modifies this`initialized, this`factories
      decreases 0, 3
      ensures Valid() && initialized
      ensures factories == old(factories) + added
      ensures LoadedAll(added, CandidateRegistrations(dir, file))
      ensures forall k :: 0 <= k < |added| ==> fresh(added[k])
      ensures Distinct(added)
    {
      added := [];
      if !NameIsSharedLibrary(file) {
        return;
      }
      var fullpath := CreateFullPath(dir, file);
      if fullpath !in host.libraries {
        return;
      }
      var lib := host.libraries[fullpath];
      if lib.itkLoad.None? {
        return;
      }
      ghost var f := LoadPlugin(lib.itkLoad.value, lib.handle, fullpath);
      added := [f];
    }

    /**
      The successful end of LoadCandidate: `itkLoad` builds a factory from the plugin's image,
      the handle and the full path are recorded in it, and it is registered.
     */
    method LoadPlugin(image: PluginImage, handle: Handle, fullpath: string) returns (ghost f: Factory)
      requires Valid() && initialized
      modifies this`initialized, this`factories
      decreases 0, 2
      ensures Valid() && initialized
      ensures factories == old(factories) + [f]
      ensures LoadedAs(f, Registration(image, handle, fullpath))
      ensures fresh(f)
    {
      var newfactory := NewPluginFactory(image);
      newfactory.libraryHandle := handle;
      newfactory.libraryPath := fullpath;
      var mismatch, found := RegisterFactory(newfactory);
      f := newfactory;
    }

    /**
      Re-reads the search path: every factory is unregistered and discovery runs again against
      what the operating system reports now (`now`), so plugins added since are found.
     */
    method ReHash(now: Host)
      requires Valid() && initialized
      modifies this`host, this`initialized, this`factories, (set g | g in factories)`refCount
      ensures Valid() && initialized && host == now
      ensures LoadedAll(factories, DiscoveryPlan(now)) && forall k :: 0 <= k < |factories| ==> fresh(factories[k])
      ensures Distinct(factories)
      ensures forall g :: g in old(factories) ==> g.refCount == old(g.refCount) - multiset(old(factories))[g]
    {
      UnRegisterAllFactories();
      host := now;
      Init();
    }

    /**
      Appends `f` after initializing the registry, so that factories found by a first Init
      come before it, and takes one reference to it.  A factory without a library handle gets
      the non-dynamic path.  `mismatch` is the version warning, which never blocks registration.
     */
    method RegisterFactory(f: Factory) returns (mismatch: bool, ghost found: seq<Factory>)
      requires Valid()
      modifies this`initialized, this`factories, f`libraryPath, f`refCount
      decreases if initialized then 0 else 1, 1
      ensures Valid() && initialized
      ensures mismatch == (f.sourceVersion != runningVersion)
      ensures f.libraryPath == if f.libraryHandle == 0 then NonDynamicName else old(f.libraryPath)
      ensures f.refCount == old(f.refCount) + 1
      ensures factories == old(factories) + found + [f]
      ensures old(initialized) ==> found == []
      ensures !old(initialized) ==> LoadedAll(found, DiscoveryPlan(host)) && Distinct(found)
                                    && forall k :: 0 <= k < |found| ==> fresh(found[k])
    {
      if f.libraryHandle == 0 {
        f.libraryPath := NonDynamicName;
      }
      mismatch := f.sourceVersion != runningVersion;
      ghost var before := factories;
      Init();
      found := factories[|before|..];
      assert f !in found;
      factories := factories + [f];
      f.refCount := f.refCount + 1;
    }

    /**
      Removes every occurrence of `f` and releases one reference to it, if it is listed; an
      unlisted factory changes nothing.  The source dereferences the list without checking it,
      so the registry must be initialized.
     */
    method UnRegisterFactory(f: Factory)
      requires Valid() && initialized
      modifies this`factories, f`refCount
      ensures Valid() && initialized
      ensures f in old(factories) ==> factories == Without(old(factories), f) && f.refCount == old(f.refCount) - 1
      ensures f !in old(factories) ==> factories == old(factories) && f.refCount == old(f.refCount)
    {
      var i := 0;
      while i < |factories|
        invariant 0 <= i <= |factories|
        invariant forall j :: 0 <= j < i ==> factories[j] != f
      {
        if factories[i] == f {
          factories := Without(factories, f);
          f.refCount := f.refCount - 1;
          return;
        }
        i := i + 1;
      }
    }

    /**
      Releases one reference per list entry, deletes the list and nulls the pointer, so the next
      use initializes again.  The list must exist.
     */
    method UnRegisterAllFactories()
      requires Valid() && initialized
      modifies this`initialized, this`factories, (set g | g in factories)`refCount
      ensures Valid() && !initialized && factories == []
      ensures forall g :: g in old(factories) ==> g.refCount == old(g.refCount) - multiset(old(factories))[g]
    {
      var i := 0;
      while i < |factories|
        invariant 0 <= i <= |factories| && factories == old(factories)
        invariant forall g :: g in factories ==> g.refCount == old(g.refCount) - multiset(factories[..i])[g]
      {
        assert factories[..i + 1] == factories[..i] + [factories[i]];
        factories[i].refCount := factories[i].refCount - 1;
        i := i + 1;
      }
      assert factories[..i] == factories;
      factories := [];
      initialized := false;
    }

    /** A copy of the list; the list must exist. */
    method GetRegisteredFactories() returns (list: seq<Factory>)
      requires Valid() && initialized
      ensures list == factories
    {
      list := factories;
    }
  }
}
