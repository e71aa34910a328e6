# ITK object factories, modelled in Dafny

This project models `itkObjectFactoryBase`, the object-factory mechanism of an early ITK, as
implemented in `Code/Common/itkObjectFactoryBase.cxx`. It has two layers.

- **The process-wide registry** (`Registry.FactoryRegistry`). It is the static
  `m_RegisteredFactories` pointer to a list of factories.
  - The list is created lazily by `Init`. That pass also runs plugin discovery: every directory
    of ITK_AUTOLOAD_PATH is listed, and each file is handled in order. A file whose name holds
    the library extension, that opens, and that exports `itkLoad` yields a new factory, which
    records its library handle and full path and is registered.
  - The other operations are `RegisterFactory` (append and take a reference),
    `UnRegisterFactory`, `UnRegisterAllFactories` (release every reference and drop the list),
    `ReHash` and `CreateInstance`. In `CreateInstance`, the first factory in list order that
    creates an object wins.
- **The per-factory override table** (`OverrideTable`, `ObjectFactory.Factory`). It is the
  `m_OverrideMap` multimap from base class name to override information, modelled as the
  sequence of its entries in iteration order.
  - `RegisterOverride` is `multimap::insert`: the new entry goes after every entry whose key is
    not greater.
  - The equal range of a key is `[LowerBound, UpperBound)`.
  - `CreateObject`, `SetEnableFlag`, `GetEnableFlag`, `Disable` and the four list accessors work
    on that range or on the whole table.

Modules:

- `Wrappers`: `Option`.
- `OverrideTable`: the table as a value.
  - Key order is `std::less<std::string>` (`KeyLess`).
  - `Sorted`/`Ordered` is the multimap's invariant; `Insert`, `Build`, `Lookup` and
    `FindOverride` are the table operations.
  - Lemmas cover equal ranges, insertion order and enable flags.
- `ObjectFactory`: the `Factory` class, with fields `overrides`, `libraryHandle`, `libraryPath`,
  `refCount` and `sourceVersion`. Its methods update the table in place.
- `AutoloadPath`: splitting the ITK_AUTOLOAD_PATH value. This covers the loop as written (see
  Findings) and the split it intends (`Components`).
- `Discovery`: `CreateFullPath`, `itkNameIsSharedLibrary` (`NameIsSharedLibrary`, built on
  `Contains`), and the plan of registrations.
  - The operating system is a `Host` value: the ITK_AUTOLOAD_PATH value, the directory
    listings, and for each openable full path the handle and what its `itkLoad` builds.
  - `Candidate`, `PlanFiles`, `Plan`, `PlanDirs` and `DiscoveryPlan` state which files end up
    registered and in what order.
- `Registry`: the `FactoryRegistry` class (`initialized`, `factories`, the `host` and the running
  version) and the list functions `Without` (`std::list::remove`) and `FirstCreated`.
  - `LoadedAll(fs, rs)` says that `fs[k]` is the factory built for registration `rs[k]`.
  - Every factory discovery adds is a new object, and no two of them are the same (`Distinct`).
  - `ReHash` is given what the operating system reports at that moment, so plugins added since
    the last discovery are found.

`Init`, `LoadDynamicFactories`, `LoadLibrariesInPath`, `RegisterFactory` and `Init` again form
the source's mutual recursion. The decreases measure is "not yet initialized, then call depth".
The body of `LoadLibrariesInPath`'s loop is split out as `LoadCandidate` (the three tests on one
file) and `LoadPlugin` (calling `itkLoad`, recording the handle and path, and registering).

## Model

| member | source | states |
|---|---|---|
| OverrideTable.SortedOrdered | Code/Common/itkObjectFactoryBase.cxx:306-307 | The adjacent-pairs ordering invariant is equivalent to keys never decreasing between any two positions. |
| OverrideTable.EqualRange | Code/Common/itkObjectFactoryBase.cxx:306-308 | In a sorted table, lower_bound ≤ upper_bound, and a position lies in [lower_bound, upper_bound) exactly when its key is the class name. |
| OverrideTable.RunIsEqualRange | Code/Common/itkObjectFactoryBase.cxx:306-308 | The entries with a key, in iteration order, are exactly the slice between the two bounds, so they are contiguous. |
| OverrideTable.RunOfRange | Code/Common/itkObjectFactoryBase.cxx:306-308 | If exactly the positions in [lo, hi) carry key `k`, the entries with key `k` are that slice. |
| OverrideTable.InsertSorted | Code/Common/itkObjectFactoryBase.cxx:287 | The multimap insert keeps the table sorted. |
| OverrideTable.InsertContents | Code/Common/itkObjectFactoryBase.cxx:282-287 | The insert adds exactly one entry, the given one: the multiset grows by that entry and nothing else. |
| OverrideTable.InsertRun | Code/Common/itkObjectFactoryBase.cxx:287 | After the insert, the new entry is the last of its key's entries, and every other key's entries are unchanged. |
| OverrideTable.KeyRunSplice | Code/Common/itkObjectFactoryBase.cxx:287 | Placing an entry before a suffix that holds no entry of its key appends it to its key's entries only. |
| OverrideTable.BuildSorted | Code/Common/itkObjectFactoryBase.cxx:275-288 | Registering overrides one by one from an empty table gives a sorted table. |
| OverrideTable.BuildContents | Code/Common/itkObjectFactoryBase.cxx:275-288 | The built table holds exactly the registered overrides, each as often as registered. |
| OverrideTable.BuildRuns | Code/Common/itkObjectFactoryBase.cxx:275-288 | The overrides registered for one class name keep their registration order. |
| OverrideTable.LookupFirstOfRun | Code/Common/itkObjectFactoryBase.cxx:291-299 | CreateObject invokes the creation function of the first entry with the class name, and yields None when there is no such entry. |
| ObjectFactory.Factory.CreateObjectFirstOfRun | Code/Common/itkObjectFactoryBase.cxx:291-299 | A factory's CreateObject yields the creation function's result of its first entry for the class name, which is the first one registered for it, and None when it has none. |
| OverrideTable.FindOverride | Code/Common/itkObjectFactoryBase.cxx:320-329 | Finds the first position whose key and override name both match, with no match before it; None means no entry matches. |
| OverrideTable.FlagsIrrelevant | Code/Common/itkObjectFactoryBase.cxx:302-342 | Tables differing only in enable flags agree on sortedness, both bounds, the CreateObject lookup and the (key, name) search. |
| OverrideTable.EnableFlagReadBack | Code/Common/itkObjectFactoryBase.cxx:302-330 | After SetEnableFlag(b, c, s), GetEnableFlag(c, s) is b if some entry matches (c, s), and false otherwise. |
| OverrideTable.EnableFlagOthersUnchanged | Code/Common/itkObjectFactoryBase.cxx:302-330 | SetEnableFlag(b, c, s) does not change the flag reported for any other (key, name) pair. |
| OverrideTable.DisableClears | Code/Common/itkObjectFactoryBase.cxx:317-342 | After Disable(c), every (c, s) reports false, and the flags reported for other keys are unchanged. |
| OverrideTable.LookupIgnoresFlags | Code/Common/itkObjectFactoryBase.cxx:291-315 | Neither SetEnableFlag nor Disable changes what CreateObject creates for any class name. |
| ObjectFactory.Factory.constructor | Code/Common/itkObjectFactoryBase.cxx:184-188 | A new factory has a null library handle, an empty table and the initial reference count. |
| ObjectFactory.Factory.RegisterOverride | Code/Common/itkObjectFactoryBase.cxx:275-288 | The table becomes the multimap insert of one entry carrying exactly the given key, name, description, flag and creation function, and stays sorted. |
| ObjectFactory.Factory.SetEnableFlag | Code/Common/itkObjectFactoryBase.cxx:302-315 | The loop over the equal range sets the flag of exactly the entries matching (key, name) and leaves every other entry and the order unchanged. |
| ObjectFactory.Factory.GetEnableFlag | Code/Common/itkObjectFactoryBase.cxx:317-330 | The loop over the equal range returns the flag of the first entry matching (key, name), or false when none matches. |
| ObjectFactory.Factory.Disable | Code/Common/itkObjectFactoryBase.cxx:334-342 | The loop over the equal range clears the flag of exactly the entries with the key, leaving all others unchanged. |
| ObjectFactory.Factory.GetClassOverrideNames | Code/Common/itkObjectFactoryBase.cxx:351-360 | One class name per entry, in iteration order: as many as the table has entries, the i-th being the i-th entry's key. |
| ObjectFactory.Factory.GetClassOverrideWithNames | Code/Common/itkObjectFactoryBase.cxx:363-372 | One override name per entry, in iteration order, the i-th describing the i-th entry. |
| ObjectFactory.Factory.GetClassOverrideDescriptions | Code/Common/itkObjectFactoryBase.cxx:375-384 | One description per entry, in iteration order, the i-th describing the i-th entry. |
| ObjectFactory.Factory.GetEnableFlags | Code/Common/itkObjectFactoryBase.cxx:387-396 | One enable flag per entry, in iteration order, the i-th describing the i-th entry. |
| ObjectFactory.NewPluginFactory | Code/Common/itkObjectFactoryBase.cxx:162 | `itkLoad` yields a new, sorted factory whose table is the image's overrides registered in order, with the image's version, a null handle and the initial count. |
| AutoloadPath.FindChar | Code/Common/itkObjectFactoryBase.cxx:82 | std::string::find yields the first position at or after the start holding the character; npos means there is none. |
| AutoloadPath.Substr | Code/Common/itkObjectFactoryBase.cxx:88 | std::string::substr throws exactly when the position is past the end; otherwise it yields the shorter of `len` and the characters left after the position, each equal to the character at the same offset from the position. |
| AutoloadPath.LoadPathStepAsWritten | Code/Common/itkObjectFactoryBase.cxx:78-92 | One pass of the splitting loop as written starts at the previous end position and leaves an end position within the size_type range. |
| AutoloadPath.AsWrittenRepeatsForever | Code/Common/itkObjectFactoryBase.cxx:72-92 | For a non-empty value with no separator, the first pass loads the whole value and returns the loop to its starting state, so the loop never ends. |
| AutoloadPath.AsWrittenLoadsWholeValue | Code/Common/itkObjectFactoryBase.cxx:78-92 | For a value with a separator, the first pass loads the whole value, separators included, and the second pass's substr throws. |
| AutoloadPath.ComponentsSeparatorFree | Code/Common/itkObjectFactoryBase.cxx:63-93 | None of the directories of the intended split contains the separator. |
| AutoloadPath.ComponentsJoin | Code/Common/itkObjectFactoryBase.cxx:63-93 | Joining the directories of the intended split with the separator gives back the value. |
| AutoloadPath.JoinComponents | Code/Common/itkObjectFactoryBase.cxx:63-93 | Splitting a joined list of separator-free directories gives the list back. |
| Discovery.CreateFullPath | Code/Common/itkObjectFactoryBase.cxx:97-113 | The full path is the directory, then one separator unless the directory already ends in one, then the file name. |
| Discovery.FullPathFileName | Code/Common/itkObjectFactoryBase.cxx:97-113 | The file name a full path was built from is its last path component. |
| Discovery.ContainsMeans | Code/Common/itkObjectFactoryBase.cxx:125-133 | The left-to-right scan finds the text exactly when it occurs at some position. |
| Discovery.NameIsSharedLibraryMeans | Code/Common/itkObjectFactoryBase.cxx:125-133 | A file name passes the library test exactly when the library extension occurs in it at some position. |
| Discovery.SharedLibraryNameAnywhere | Code/Common/itkObjectFactoryBase.cxx:125-133 | A name that holds the library extension still passes with any text added before or after it. |
| Discovery.UpperCaseExtensionRejected | Code/Common/itkObjectFactoryBase.cxx:120-133 | No case is folded, despite the comment: an upper-case extension does not pass the test. |
| Discovery.PlanFilesAppend | Code/Common/itkObjectFactoryBase.cxx:144-171 | Listing order is kept: the registrations for two runs of files are those of the first run, then those of the second. |
| Discovery.PlanFilesExactly | Code/Common/itkObjectFactoryBase.cxx:144-171 | A registration is planned exactly when some listed file passes the name test, opens and exports `itkLoad`; its path is the directory joined with that file's name. |
| Registry.WithoutFacts | Code/Common/itkObjectFactoryBase.cxx:251 | std::list::remove drops every copy of the factory, keeps every other element as often as it was there, and shortens the list by the number of copies. |
| Registry.WithoutAppend | Code/Common/itkObjectFactoryBase.cxx:251 | Removal works piece by piece, so the other factories keep their relative order. |
| Registry.FirstCreated | Code/Common/itkObjectFactoryBase.cxx:22-31 | The result is None exactly when no factory creates an object; otherwise it is the object created by some factory, and every factory before that one creates nothing. |
| Registry.FirstCreatedAt | Code/Common/itkObjectFactoryBase.cxx:22-31 | If the factory at position i is the first to create an object, the result is that factory's object. |
| Registry.FirstCreatedAppend | Code/Common/itkObjectFactoryBase.cxx:22-31 | Factories later in the list are asked only when every earlier one yields nothing. |
| Registry.FirstCreatedWithout | Code/Common/itkObjectFactoryBase.cxx:22-31 | Unregistering a factory that creates nothing for a class name does not change what that name resolves to. |
| Registry.FactoryRegistry.constructor | Code/Common/itkObjectFactoryBase.cxx:9 | The list pointer starts out null and there are no factories. |
| Registry.FactoryRegistry.CreateInstance | Code/Common/itkObjectFactoryBase.cxx:15-32 | Initializes when needed (with Init's effect: new, pairwise distinct factories for the discovery plan), then returns the object of the first factory in list order that creates one, None if none does. |
| Registry.FactoryRegistry.Init | Code/Common/itkObjectFactoryBase.cxx:38-50 | With an existing list nothing changes. Otherwise the list becomes exactly the new factories loaded for the discovery plan, in plan order, no two of them the same object. |
| Registry.FactoryRegistry.LoadDynamicFactories | Code/Common/itkObjectFactoryBase.cxx:63-93 | Appends, directory by directory in search-path order, new factories loaded for each directory's plan, no two of them the same object, even when a directory is listed twice. |
| Registry.FactoryRegistry.LoadLibrariesInPath | Code/Common/itkObjectFactoryBase.cxx:135-172 | Appends new factories that correspond one-to-one, in listing order, to the qualifying files, no two of them the same object. An unreadable directory adds nothing. |
| Registry.FactoryRegistry.LoadCandidate | Code/Common/itkObjectFactoryBase.cxx:146-170 | One listed file adds one new factory when it passes all three tests, and nothing otherwise. |
| Registry.FactoryRegistry.LoadPlugin | Code/Common/itkObjectFactoryBase.cxx:160-168 | The factory built by `itkLoad` gets the handle and full path, is appended once, and holds one reference more than at creation. |
| Registry.FactoryRegistry.ReHash | Code/Common/itkObjectFactoryBase.cxx:175-181 | Every old factory loses one reference per occurrence in the list. The list is rebuilt from a new discovery against what the operating system reports now: new, pairwise distinct factories for that plan. |
| Registry.FactoryRegistry.RegisterFactory | Code/Common/itkObjectFactoryBase.cxx:198-216 | The factory is appended after the old list and after anything a first Init discovers, and its count rises by one. A null handle gets the non-dynamic path. The mismatch flag compares versions and never blocks registration. What a first Init discovers is new, pairwise distinct factories for the discovery plan. |
| Registry.FactoryRegistry.UnRegisterFactory | Code/Common/itkObjectFactoryBase.cxx:242-256 | A listed factory loses every occurrence and exactly one reference, and the others keep their order. An unlisted factory changes nothing. |
| Registry.FactoryRegistry.UnRegisterAllFactories | Code/Common/itkObjectFactoryBase.cxx:260-271 | Each factory loses one reference per occurrence in the list; the list is dropped and the pointer nulled. |
| Registry.FactoryRegistry.GetRegisteredFactories | Code/Common/itkObjectFactoryBase.cxx:345-348 | The result is the list itself. |

## Left out

- LoadDynamicFactories: the model splits ITK_AUTOLOAD_PATH as the loop evidently intends (`AutoloadPath.Components`), not as written. The loop as written never ends or throws (see Findings), so there is no terminating behaviour to follow.
- An unset ITK_AUTOLOAD_PATH is modelled as an empty value. The source builds a `std::string` from the null pointer `getenv` returns, which is undefined.
- Directory reading, `OpenLibrary`, `GetSymbolAddress` and the environment are not modelled as calls. Their answers are the `Host` input.
- The destructor's `CloseLibrary`, and deleting a factory whose reference count reaches zero, are not modelled. The count is a plain field (itkLightObject is not part of this model); its starting value is taken to be 1.
- `m_LibraryDate` is not modelled: the source only sets it to 0.
- The version-mismatch warning text is not modelled. RegisterFactory exposes only whether the versions differ.
- `PrintSelf` is not modelled: it is stream output only.
- Thread safety is not modelled: the registry is modelled sequentially. The unsynchronized static pointer is a concurrency concern outside this model.
- The Windows build is not modelled. The separators are `/` and `:`, and the library extension is `.so` (itkDynamicLoader is not part of this model).
- Registry.FactoryRegistry.LoadLibrariesInPath, LoadCandidate and LoadPlugin all require an initialized registry. Their only caller chain starts in Init after the list is created, so the implicit Init inside RegisterFactory does nothing there.
- UnRegisterFactory, UnRegisterAllFactories, GetRegisteredFactories and ReHash require an initialized registry. The source dereferences the list pointer without checking it.
- ObjectFactory.Factory.CreateObject: with no entry for the class name, the source falls off the end of a function returning a pointer. The model yields None there.
- Creation functions are not modelled as allocating. An override's `creates` is the one object its creation function yields, so the model states which creation function answers a class name, not that each call makes a new object.
- Registry.FactoryRegistry: the operating system's answers change only through ReHash. An Init that follows a bare UnRegisterAllFactories uses the answers given to the constructor or to the last ReHash.
- OverrideTable.Lookup: `multimap::find` may return any entry of the equal range. The model takes the first, as the GNU library does.
- CreateObject never consults the enable flag, although a disabled override is commonly described as not being used. The model follows the code (`OverrideTable.LookupIgnoresFlags`).
- Discovery.CreateFullPath: for an empty directory name the source reads the character before the start of the string. The model treats the empty name as not ending in a separator.
- AutoloadPath.FindChar requires the string to be shorter than npos, which every std::string is.
- Code/BasicFilters/itkVotingBinaryHoleFillingImageFilter.h and Modules/Registration/Metricsv4/include/itkPointToPlanePointSetToPointSetMetricv4.h are not part of this model: they hold declarations whose bodies live in files not shown.
- Testing/Code/Common/itkCommonTests.cxx is not part of this model: it only lists test registrations.

## Findings

| source | as written | input that shows it | evidently intended | confidence | as-written member | corrected member |
|---|---|---|---|---|---|---|
| Code/Common/itkObjectFactoryBase.cxx:78-92 | After `find`, the end position is set to the string's size when a separator IS found. The end position is then passed to `substr` as a length, and `npos + 1` wraps to 0. | ITK_AUTOLOAD_PATH = `a`: the loop loads `a` and returns to its starting state, forever. ITK_AUTOLOAD_PATH = `a:b`: it loads `a:b` as one directory, and the next pass calls `substr` past the end, which throws. | Each directory between separators is loaded once, in order. | not executed | AutoloadPath.AsWrittenRepeatsForever, AutoloadPath.AsWrittenLoadsWholeValue (on AutoloadPath.LoadPathStepAsWritten) | AutoloadPath.ComponentsJoin, AutoloadPath.JoinComponents (on AutoloadPath.Components, used by Registry.FactoryRegistry.LoadDynamicFactories) |
