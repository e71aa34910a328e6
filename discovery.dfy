/**
  Plugin discovery, with the operating system left abstract.

  What the environment, the directory reader and the dynamic loader would answer is a `Host`
  value: the value of ITK_AUTOLOAD_PATH (empty when unset), the listing of every readable
  directory, and, for every full path that OpenLibrary can open, the library's handle and
  whether it exports `itkLoad` (and if it does, what that entry point builds).
 */
module Discovery {
  import opened Wrappers
  import opened ObjectFactory
  import opened AutoloadPath

  /** The separator CreateFullPath inserts (the non-Windows build). */
  const PathSeparator: char := '/'

  /** What itkDynamicLoader::LibExtension reports on the non-Windows build. */
  const LibExtension: string := ".so"

  /** A non-null library handle. */
  type Handle = h: nat | h > 0 witness 1

  /** A library OpenLibrary can open: its handle and what its `itkLoad` symbol builds, if it has one. */
  datatype Library = Library(handle: Handle, itkLoad: Option<PluginImage>)

  datatype Host = Host(
    autoloadPath: string,
    listings: map<string, seq<string>>,
    libraries: map<string, Library>)

  /** One factory LoadLibrariesInPath registers: what it is built from, its handle and its full path. */
  datatype Registration = Registration(image: PluginImage, handle: Handle, path: string)

  predicate EndsWithSeparator(s: string)
  {
    |s| > 0 && s[|s| - 1] == PathSeparator
  }

  /**
    Joins a directory and a file name, adding a separator unless the directory already ends in
    one.  (The source reads the character before the start of an empty directory name; here an
    empty name is taken not to end in a separator.)
   */
  function CreateFullPath(path: string, file: string): (full: string)
    ensures |full| == |path| + |file| + (if EndsWithSeparator(path) then 0 else 1)
    ensures full[..|path|] == path
    ensures full[|full| - |file|..] == file
    ensures EndsWithSeparator(full[..|full| - |file|])
  {
    var dir := if EndsWithSeparator(path) then path else path + [PathSeparator];
    assert (dir + file)[..|dir|] == dir;
    dir + file
  }

  /** The last component of a path: everything after its last separator. */
  function FileNameOf(s: string): string
  {
    if s == [] || s[|s| - 1] == PathSeparator then [] else FileNameOf(s[..|s| - 1]) + [s[|s| - 1]]
  }

  lemma {:induction false} FileNameAfterSeparator(dir: string, file: string)
    requires EndsWithSeparator(dir) && PathSeparator !in file
    ensures FileNameOf(dir + file) == file
  {
    if file != [] {
      assert (dir + file)[..|dir + file| - 1] == dir + file[..|file| - 1];
      FileNameAfterSeparator(dir, file[..|file| - 1]);
    } else {
      assert dir + file == dir;
    }
  }

  /** The file name a full path was built from can be read back from it. */
  lemma FullPathFileName(path: string, file: string)
    requires PathSeparator !in file
    ensures FileNameOf(CreateFullPath(path, file)) == file
  {
    var full := CreateFullPath(path, file);
    var dir := full[..|full| - |file|];
    assert full == dir + file;
    FileNameAfterSeparator(dir, file);
  }

  /** `sub` occurs in `s` starting at position `i`. */
  predicate OccursAt(s: string, sub: string, i: nat)
  {
    i + |sub| <= |s| && s[i..i + |sub|] == sub
  }

  /** std::string::find(sub) != npos, as a left-to-right scan. */
  function Contains(s: string, sub: string): bool
  {
    if |s| < |sub| then false
    else if s[..|sub|] == sub then true
    else Contains(s[1..], sub)
  }

  /** The scan finds `sub` exactly when it occurs somewhere in `s`. */
  lemma {:induction false} ContainsMeans(s: string, sub: string)
    ensures Contains(s, sub) <==> exists i: nat :: OccursAt(s, sub, i)
  {
    if |s| < |sub| {
    } else if s[..|sub|] == sub {
      assert OccursAt(s, sub, 0);
    } else {
      ContainsMeans(s[1..], sub);
      assert forall i: nat :: OccursAt(s[1..], sub, i) <==> OccursAt(s, sub, i + 1) by {
        forall i: nat
          ensures OccursAt(s[1..], sub, i) <==> OccursAt(s, sub, i + 1)
        {
          if i + 1 + |sub| <= |s| {
            assert s[1..][i..i + |sub|] == s[i + 1..i + 1 + |sub|];
          }
        }
      }
      assert !OccursAt(s, sub, 0);
      if exists i: nat :: OccursAt(s, sub, i) {
        var i: nat :| OccursAt(s, sub, i);
        assert i > 0 && OccursAt(s[1..], sub, i - 1);
      }
    }
  }

  /**
    itkNameIsSharedLibrary: the library extension occurs anywhere in the name.  No case is
    folded, whatever the comment above the source function says.
   */
  function NameIsSharedLibrary(name: string): bool
  {
    Contains(name, LibExtension)
  }

  /** A file name passes exactly when the library extension occurs in it at some position. */
  lemma NameIsSharedLibraryMeans(name: string)
    ensures NameIsSharedLibrary(name) <==> exists i: nat :: OccursAt(name, LibExtension, i)
  {
    ContainsMeans(name, LibExtension);
  }

  /** The extension is found anywhere, so text before or after it does not matter. */
  lemma SharedLibraryNameAnywhere(prefix: string, name: string, suffix: string)
    requires NameIsSharedLibrary(name)
    ensures NameIsSharedLibrary(prefix + name + suffix)
  {
    ContainsMeans(name, LibExtension);
    var i: nat :| OccursAt(name, LibExtension, i);
    var s := prefix + name + suffix;
    assert s[|prefix| + i..|prefix| + i + |LibExtension|] == name[i..i + |LibExtension|];
    assert OccursAt(s, LibExtension, |prefix| + i);
    ContainsMeans(s, LibExtension);
  }

  /** An upper-case extension is not recognised. */
  lemma UpperCaseExtensionRejected()
    ensures !NameIsSharedLibrary("LIBITK.SO")
  {
    var name := "LIBITK.SO";
    forall i: nat | i + |LibExtension| <= |name|
      ensures !OccursAt(name, LibExtension, i)
    {
      assert name[i..i + |LibExtension|][1] == name[i + 1] != 's';
    }
    ContainsMeans(name, LibExtension);
  }

  /** What LoadLibrariesInPath does with one listed file: the factory it registers, if any. */
  function Candidate(host: Host, dir: string, file: string): Option<Registration>
  {
    if !NameIsSharedLibrary(file) then None
    else
      var full := CreateFullPath(dir, file);
      if full !in host.libraries then None
      else
        var lib := host.libraries[full];
        if lib.itkLoad.None? then None else Some(Registration(lib.itkLoad.value, lib.handle, full))
  }

  /** The registrations for the listed `files` of `dir`, in listing order. */
  function PlanFiles(host: Host, dir: string, files: seq<string>): seq<Registration>
  {
    if files == [] then []
    else
      var last := Candidate(host, dir, files[|files| - 1]);
      PlanFiles(host, dir, files[..|files| - 1]) + (if last.Some? then [last.value] else [])
  }

  /** The registrations LoadLibrariesInPath(dir) makes; none when the directory cannot be read. */
  function Plan(host: Host, dir: string): seq<Registration>
  {
    if dir in host.listings then PlanFiles(host, dir, host.listings[dir]) else []
  }

  /** The registrations for a list of directories, one directory after the other. */
  function PlanDirs(host: Host, dirs: seq<string>): seq<Registration>
  {
    if dirs == [] then [] else PlanDirs(host, dirs[..|dirs| - 1]) + Plan(host, dirs[|dirs| - 1])
  }

  /** The registrations a first Init makes: RegisterDefaults adds none, then every search directory is loaded. */
  function DiscoveryPlan(host: Host): seq<Registration>
  {
    PlanDirs(host, SearchDirs(host.autoloadPath))
  }

  /** Listing order is kept: the plan for two runs of files is the plan of the first run, then of the second. */
  lemma {:induction false} PlanFilesAppend(host: Host, dir: string, a: seq<string>, b: seq<string>)
    ensures PlanFiles(host, dir, a + b) == PlanFiles(host, dir, a) + PlanFiles(host, dir, b)
  {
    if b == [] {
      assert a + b == a;
    } else {
      assert (a + b)[..|a + b| - 1] == a + b[..|b| - 1];
      PlanFilesAppend(host, dir, a, b[..|b| - 1]);
    }
  }

  /**
    A registration is planned exactly for a listed file that has the library extension, opens,
    and exports `itkLoad`; its path is the directory joined with the file name.
   */
  lemma {:induction false} PlanFilesExactly(host: Host, dir: string, files: seq<string>, r: Registration)
    ensures r in PlanFiles(host, dir, files) <==>
            exists i :: 0 <= i < |files| && Candidate(host, dir, files[i]) == Some(r)
    ensures r in PlanFiles(host, dir, files) ==>
            exists i :: 0 <= i < |files| && NameIsSharedLibrary(files[i]) && r.path == CreateFullPath(dir, files[i])
                        && r.path in host.libraries && host.libraries[r.path] == Library(r.handle, Some(r.image))
  {
    if files != [] {
      var front := files[..|files| - 1];
      PlanFilesExactly(host, dir, front, r);
      assert forall i :: 0 <= i < |front| ==> front[i] == files[i];
    }
  }
}
