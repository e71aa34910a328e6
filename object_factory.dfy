/**
  One itkObjectFactoryBase: a plugin's override table together with the library bookkeeping the
  registry attaches to it.  The table is only changed through RegisterOverride, SetEnableFlag and
  Disable, and stays sorted by key (`Valid`).
 */
module ObjectFactory {
  import opened Wrappers
  import opened OverrideTable

  /** The reference count an object starts with (itkLightObject is not part of this model). */
  const InitialReferenceCount: int := 1

  /**
    What a plugin's `itkLoad` entry point builds each time it is called: a new factory of the
    plugin's own class, whose constructor registers `overrides` in this order and which reports
    `sourceVersion` from GetITKSourceVersion.
   */
  datatype PluginImage = PluginImage(sourceVersion: string, overrides: seq<Override>)

  class Factory {
    /** m_OverrideMap, in iteration order. */
    var overrides: seq<Override>
    /** m_LibraryHandle; 0 is the null handle of a factory that was not loaded from a library. */
    var libraryHandle: nat
    /** m_LibraryPath. */
    var libraryPath: string
    /** The reference count that Register and UnRegister adjust. */
    var refCount: int
    /** What GetITKSourceVersion reports for this factory's class. */
    const sourceVersion: string

    ghost predicate Valid()
      reads this
    {
      Sorted(overrides)
    }

    /** The base constructor clears the library handle; the table starts empty. */
    constructor (sourceVersion: string)
      ensures Valid()
      ensures this.sourceVersion == sourceVersion && overrides == []
      ensures libraryHandle == 0 && libraryPath == "" && refCount == InitialReferenceCount
    {
      this.sourceVersion := sourceVersion;
      overrides := [];
      libraryHandle := 0;
      libraryPath := "";
      refCount := InitialReferenceCount;
    }

    /** Adds one entry under `classOverride`, after every entry whose key is not greater. */
    method RegisterOverride(classOverride: string, subclass: string, description: string,
                            enableFlag: bool, createFunction: Option<Instance>)
      requires Valid()
      modifies this`overrides
      ensures Valid()
      ensures overrides == Insert(old(overrides), Override(classOverride, subclass, description, enableFlag, createFunction))
    {
      InsertSorted(overrides, Override(classOverride, subclass, description, enableFlag, createFunction));
      overrides := Insert(overrides, Override(classOverride, subclass, description, enableFlag, createFunction));
    }

    /**
      Runs the creation function of the entry multimap::find returns for `c`, whatever its
      enable flag.  The source falls off the end of the function when there is no entry; here
      that case yields None.
     */
    function CreateObject(c: string): Option<Instance>
      reads this
    {
      Lookup(overrides, c)
    }

    /**
      What CreateObject yields is the creation function's result of the first entry with key
      `c` in table order, which is the first one registered for `c`; None when there is none.
     */
    lemma CreateObjectFirstOfRun(c: string)
      requires Valid()
      ensures CreateObject(c) == if KeyRun(overrides, c) == [] then None else KeyRun(overrides, c)[0].creates
    {
      LookupFirstOfRun(overrides, c);
    }

    /** Sets the flag of every entry with key `c` and override name `s`; all other entries are untouched. */
    method SetEnableFlag(flag: bool, c: string, s: string)
      requires Valid()
      modifies this`overrides
      ensures Valid()
      ensures overrides == WithEnableFlag(old(overrides), flag, c, s)
    {
      EqualRange(overrides, c);
      var start, end := LowerBound(overrides, c), UpperBound(overrides, c);
      ghost var before := overrides;
      var i := start;
      while i < end
        invariant start <= i <= end <= |before|
        invariant |overrides| == |before|
        invariant forall j :: 0 <= j < |before| ==>
                    overrides[j] == if start <= j < i then WithEnableFlag(before, flag, c, s)[j] else before[j]
      {
        if overrides[i].overrideWithName == s {
          overrides := overrides[i := overrides[i].(enabled := flag)];
        }
        i := i + 1;
      }
      assert overrides == WithEnableFlag(before, flag, c, s);
      FlagsIrrelevant(before, overrides, c, s);
    }

    /** The flag of the first entry with key `c` and override name `s`; false when there is none. */
    method GetEnableFlag(c: string, s: string) returns (flag: bool)
      requires Valid()
      ensures flag == EnableFlagOf(overrides, c, s)
    {
      EqualRange(overrides, c);
      var start, end := LowerBound(overrides, c), UpperBound(overrides, c);
      var i := start;
      while i < end
        invariant start <= i <= end
        invariant forall j :: 0 <= j < i ==> !Matches(overrides[j], c, s)
      {
        if overrides[i].overrideWithName == s {
          return overrides[i].enabled;
        }
        i := i + 1;
      }
      return false;
    }

    /** Clears the flag of every entry with key `c`; all other entries are untouched. */
    method Disable(c: string)
      requires Valid()
      modifies this`overrides
      ensures Valid()
      ensures overrides == Disabled(old(overrides), c)
    {
      EqualRange(overrides, c);
      var start, end := LowerBound(overrides, c), UpperBound(overrides, c);
      ghost var before := overrides;
      var i := start;
      while i < end
        invariant start <= i <= end <= |before|
        invariant |overrides| == |before|
        invariant forall j :: 0 <= j < |before| ==>
                    overrides[j] == if start <= j < i then Disabled(before, c)[j] else before[j]
      {
        overrides := overrides[i := overrides[i].(enabled := false)];
        i := i + 1;
      }
      assert overrides == Disabled(before, c);
      FlagsIrrelevant(before, overrides, c, "");
    }

    /** The key of every entry, in iteration order. */
    method GetClassOverrideNames() returns (names: seq<string>)
      ensures |names| == |overrides|
      ensures forall i :: 0 <= i < |overrides| ==> names[i] == overrides[i].className
    {
      names := [];
      var i := 0;
      while i < |overrides|
        invariant 0 <= i <= |overrides| && |names| == i
        invariant forall j :: 0 <= j < i ==> names[j] == overrides[j].className
      {
        names := names + [overrides[i].className];
        i := i + 1;
      }
    }

    /** The override name of every entry, in iteration order. */
    method GetClassOverrideWithNames() returns (names: seq<string>)
      ensures |names| == |overrides|
      ensures forall i :: 0 <= i < |overrides| ==> names[i] == overrides[i].overrideWithName
    {
      names := [];
      var i := 0;
      while i < |overrides|
        invariant 0 <= i <= |overrides| && |names| == i
        invariant forall j :: 0 <= j < i ==> names[j] == overrides[j].overrideWithName
      {
        names := names + [overrides[i].overrideWithName];
        i := i + 1;
      }
    }

    /** The description of every entry, in iteration order. */
    method GetClassOverrideDescriptions() returns (descriptions: seq<string>)
      ensures |descriptions| == |overrides|
      ensures forall i :: 0 <= i < |overrides| ==> descriptions[i] == overrides[i].description
    {
      descriptions := [];
      var i := 0;
      while i < |overrides|
        invariant 0 <= i <= |overrides| && |descriptions| == i
        invariant forall j :: 0 <= j < i ==> descriptions[j] == overrides[j].description
      {
        descriptions := descriptions + [overrides[i].description];
        i := i + 1;
      }
    }

    /** The enable flag of every entry, in iteration order. */
    method GetEnableFlags() returns (flags: seq<bool>)
      ensures |flags| == |overrides|
      ensures forall i :: 0 <= i < |overrides| ==> flags[i] == overrides[i].enabled
    {
      flags := [];
      var i := 0;
      while i < |overrides|
        invariant 0 <= i <= |overrides| && |flags| == i
        invariant forall j :: 0 <= j < i ==> flags[j] == overrides[j].enabled
      {
        flags := flags + [overrides[i].enabled];
        i := i + 1;
      }
    }
  }

  /**
    Calls a plugin's `itkLoad`: a new factory whose constructor registers the image's overrides
    one after another.
   */
  method NewPluginFactory(image: PluginImage) returns (f: Factory)
    ensures fresh(f) && f.Valid()
    ensures f.overrides == Build(image.overrides) && f.sourceVersion == image.sourceVersion
    ensures f.libraryHandle == 0 && f.libraryPath == "" && f.refCount == InitialReferenceCount
  {
    f := new Factory(image.sourceVersion);
    var i := 0;
    while i < |image.overrides|
      invariant 0 <= i <= |image.overrides|
      invariant f.Valid() && f.overrides == Build(image.overrides[..i])
      invariant f.libraryHandle == 0 && f.libraryPath == "" && f.refCount == InitialReferenceCount
    {
      var o := image.overrides[i];
      assert image.overrides[..i + 1][..i] == image.overrides[..i];
      f.RegisterOverride(o.className, o.overrideWithName, o.description, o.enabled, o.creates);
      i := i + 1;
    }
    assert image.overrides[..i] == image.overrides;
  }
}
