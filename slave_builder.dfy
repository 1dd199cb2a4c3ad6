/**
 * The worker side of a build (piwheels/slave/builder.py): how a built
 * wheel's file name is taken apart into its tags, the pip command line, what
 * `Builder.run` leaves behind, and how `build_dependencies` groups the shared
 * libraries a wheel links against.
 */
module SlaveBuilder {
  import opened Wrappers
  import opened Strings

  /** The dependencies of a wheel: tool name (`"apt"`, or `""` for unpackaged files) to sorted names. */
  type Dependencies = map<string, seq<string>>

  /**
   * A built wheel: its file name, size and SHA-256 digest (computed from the
   * file elsewhere), the `-`-separated parts of its name and its dependencies.
   */
  datatype Wheel = Wheel(filename: string, filesize: nat, filehash: string,
                         parts: seq<string>, dependencies: Dependencies)
  {
    /** The first part. */
    function PackageTag(): string requires |parts| >= 1 { parts[0] }
    /** The second part. */
    function PackageVersionTag(): string requires |parts| >= 2 { parts[1] }
    /** The last part. */
    function PlatformTag(): string requires |parts| >= 1 { parts[|parts| - 1] }
    /** The second-last part. */
    function AbiTag(): string requires |parts| >= 2 { parts[|parts| - 2] }
    /** The third-last part; `None` where Python's `_parts[-3]` raises `IndexError`. */
    function PyVersionTag(): Option<string>
    {
      if |parts| >= 3 then Some(parts[|parts| - 3]) else None
    }
    /** The optional build tag: the third part when there are six. */
    function BuildTag(): Option<string>
    {
      if |parts| == 6 then Some(parts[2]) else None
    }

    /** `as_message`: `None` where reading the Python version tag raises. */
    function AsMessage(): (m: Option<WheelMessage>)
      requires |parts| >= 2
      ensures m.Some? <==> |parts| >= 3
      ensures m.Some? ==> m.value.pyVersionTag == parts[|parts| - 3] && m.value.abiTag == parts[|parts| - 2]
      ensures m.Some? ==> m.value.packageTag == parts[0] && m.value.platformTag == parts[|parts| - 1]
    {
      match PyVersionTag()
      case None => None
      case Some(py) =>
        Some(WheelMessage(filename, filesize, filehash, PackageTag(), PackageVersionTag(),
                          py, AbiTag(), PlatformTag(), dependencies))
    }
  }

  /** The nine fields of `Wheel.as_message`, in their order. */
  datatype WheelMessage = WheelMessage(
    filename: string,
    filesize: nat,
    filehash: string,
    packageTag: string,
    packageVersionTag: string,
    pyVersionTag: string,
    abiTag: string,
    platformTag: string,
    dependencies: Dependencies)

  /** `Wheel(path)` raises `IndexError` when the name has fewer than two parts. */
  datatype WheelError = TooFewParts

  /** The retired ABI tag `noabi` in the second-last part becomes `none`. */
  function RetireNoabi(p: seq<string>): (q: seq<string>)
    requires |p| >= 2
    ensures |q| == |p| && q[|q| - 2] != "noabi"
    ensures q[|q| - 2] == (if p[|p| - 2] == "noabi" then "none" else p[|p| - 2])
    ensures forall i :: 0 <= i < |p| && i != |p| - 2 ==> q[i] == p[i]
  {
    if p[|p| - 2] == "noabi" then p[|p| - 2 := "none"] else p
  }

  /** The `-`-separated pieces of a file name's stem. */
  function NamePieces(filename: string): (pieces: seq<string>)
    ensures |pieces| >= 1
  {
    Split(Stem(filename), '-')
  }

  /** `Wheel.__init__` for a file of the given name, size and digest. */
  function NewWheel(filename: string, filesize: nat, filehash: string,
                    dependencies: Option<Dependencies>): (r: Result<Wheel, WheelError>)
    ensures r.Err? <==> |NamePieces(filename)| < 2
    ensures r.Ok? ==> |r.value.parts| >= 2 && r.value.filename == filename
    ensures r.Ok? ==> r.value.filesize == filesize && r.value.filehash == filehash
    ensures r.Ok? ==> r.value.dependencies == (if dependencies.Some? then dependencies.value else map[])
  {
    var pieces := NamePieces(filename);
    if |pieces| < 2 then Err(TooFewParts)
    else
      Ok(Wheel(filename, filesize, filehash, RetireNoabi(pieces),
               if dependencies.Some? then dependencies.value else map[]))
  }

  /**
   * The tags of a wheel are the pieces of its file name's stem: the package
   * first, the version second, the platform last, the ABI second-last (with
   * `noabi` retired to `none`, so never `noabi`), the Python version
   * third-last; the build tag is the third piece exactly when there are six;
   * and re-joining the tags with `-` gives back the stem unless `noabi` was
   * rewritten.
   */
  lemma {:induction false} WheelTags(filename: string, filesize: nat, filehash: string,
                                     deps: Option<Dependencies>)
    requires |NamePieces(filename)| >= 2
    ensures var p := NamePieces(filename);
      var n := |p|;
      var w := NewWheel(filename, filesize, filehash, deps).value;
      && w.AbiTag() == (if p[n - 2] == "noabi" then "none" else p[n - 2])
      && w.AbiTag() != "noabi"
      && w.PlatformTag() == p[n - 1]
      && (n >= 3 ==> w.PackageTag() == p[0] && w.PyVersionTag() == Some(p[n - 3]))
      && (n >= 4 ==> w.PackageVersionTag() == p[1])
      && (n < 3 <==> w.PyVersionTag().None?)
      && (w.BuildTag().Some? <==> n == 6)
      && (n == 6 ==> w.BuildTag() == Some(p[2]))
      && (p[n - 2] != "noabi" ==> Join(w.parts, '-') == Stem(filename))
  {
    JoinSplit(Stem(filename), '-');
  }

  /**
   * The message of a wheel with the usual five or six name pieces carries
   * its tags in order, which are the name's pieces without the build tag.
   */
  lemma {:induction false} MessageTags(filename: string, filesize: nat, filehash: string,
                                       deps: Option<Dependencies>)
    requires 5 <= |NamePieces(filename)| <= 6
    ensures var p := NamePieces(filename);
      var w := NewWheel(filename, filesize, filehash, deps).value;
      var m := w.AsMessage();
      && m.Some?
      && m.value.filename == filename && m.value.filesize == filesize && m.value.filehash == filehash
      && m.value.dependencies == w.dependencies
      && [m.value.packageTag, m.value.packageVersionTag, m.value.pyVersionTag, m.value.abiTag,
          m.value.platformTag]
         == RetireNoabi(if |p| == 6 then p[..2] + p[3..] else p)
  {
    var p := NamePieces(filename);
    var n := |p|;
    var w := NewWheel(filename, filesize, filehash, deps).value;
    assert w.parts == RetireNoabi(p);
    var q := if n == 6 then p[..2] + p[3..] else p;
    assert |q| == 5;
    assert q[0] == p[0] && q[1] == p[1] && q[2] == p[n - 3] && q[3] == p[n - 2] && q[4] == p[n - 1];
    var rq := RetireNoabi(q);
    var m := w.AsMessage().value;
    assert m.packageTag == rq[0] && m.packageVersionTag == rq[1] && m.pyVersionTag == rq[2];
    assert m.abiTag == rq[3] && m.platformTag == rq[4];
  }

  /** `Builder.build_command`: the pip command that builds one wheel, without dependencies. */
  function BuildCommand(pypiIndex: string, wheelDir: string, logFile: string,
                        package: string, version: string): (cmd: seq<string>)
    ensures |cmd| == 10 && cmd[0] == "pip3" && cmd[1] == "wheel"
    ensures "--no-deps" in cmd && "--no-cache-dir" in cmd
    ensures forall i :: 2 <= i < 9 ==> |cmd[i]| > 2 && cmd[i][..2] == "--"
    ensures cmd[2] == "--index-url=" + pypiIndex && cmd[3] == "--wheel-dir=" + wheelDir
    ensures cmd[4] == "--log=" + logFile
    ensures cmd[9] == package + "==" + version
  {
    var cmd := [
      "pip3", "wheel",
      "--index-url=" + pypiIndex,
      "--wheel-dir=" + wheelDir,
      "--log=" + logFile,
      "--no-deps",
      "--no-cache-dir",
      "--exists-action=w",
      "--disable-pip-version-check",
      package + "==" + version
    ];
    assert cmd[5] == "--no-deps" && cmd[6] == "--no-cache-dir";
    assert forall i :: 2 <= i < 9 ==> cmd[i][..2] == "--";
    cmd
  }

  /** The position of the first `==` in `s`, if any. */
  function FindDoubleEquals(s: string): (i: Option<nat>)
    ensures i.Some? ==> i.value + 1 < |s| && s[i.value] == '=' && s[i.value + 1] == '='
    ensures i.Some? ==> forall j :: 0 <= j < i.value ==> !(s[j] == '=' && s[j + 1] == '=')
  {
    if |s| < 2 then None
    else if s[0] == '=' && s[1] == '=' then Some(0)
    else match FindDoubleEquals(s[1..])
      case None => None
      case Some(k) => Some(k + 1)
  }

  /** Reads a `package==version` requirement back into its two halves. */
  function ParseRequirement(s: string): Option<(string, string)>
  {
    match FindDoubleEquals(s)
    case None => None
    case Some(i) => Some((s[..i], s[i + 2..]))
  }

  /** The requirement at the end of the pip command names exactly the package and version asked for. */
  lemma {:induction false} RequirementRoundTrip(pypiIndex: string, wheelDir: string, logFile: string,
                                                package: string, version: string)
    requires '=' !in package
    ensures ParseRequirement(BuildCommand(pypiIndex, wheelDir, logFile, package, version)[9])
            == Some((package, version))
  {
    FirstDoubleEqualsAfter(package, version);
    var s := package + "==" + version;
    assert s[..|package|] == package && s[|package| + 2..] == version;
  }

  lemma {:induction false} FirstDoubleEqualsAfter(p: string, v: string)
    requires '=' !in p
    ensures FindDoubleEquals(p + "==" + v) == Some(|p|)
  {
    if p != [] {
      assert (p + "==" + v)[1..] == p[1..] + "==" + v;
      FirstDoubleEqualsAfter(p[1..], v);
    }
  }

  /** What `build_wheel` ended with: pip's exit code, or an exception and its text. */
  datatype BuildOutcome = Exited(returnCode: int) | Raised(message: string)

  /** What `build_dependencies` ended with for one wheel. */
  datatype DepsOutcome =
    | Computed(deps: Dependencies)
    /** `TimeoutExpired` or `BuildTerminated`: caught by `run`. */
    | Stopped(message: string)
    /** Any other exception: escapes `run`. */
    | Failed

  /** A `*.whl` file found in the wheel directory after the build. */
  datatype FoundFile = FoundFile(filename: string, filesize: nat, filehash: string)

  predicate Parses(f: FoundFile)
  {
    |NamePieces(f.filename)| >= 2
  }

  /**
   * The dependency loop of `run`: one wheel per found file, in order, until
   * a file whose name cannot be split or whose analysis fails with an
   * exception `run` does not catch (`escaped`), or one whose analysis is
   * stopped (`stopAt`, or -1 when none is).
   */
  method ScanWheels(found: seq<FoundFile>, analyses: seq<DepsOutcome>)
    returns (wheels: seq<Wheel>, stopAt: int, escaped: bool)
    requires |analyses| == |found|
    ensures |wheels| <= |found|
    ensures forall i :: 0 <= i < |wheels| ==>
              Parses(found[i]) && analyses[i].Computed? && wheels[i] == WheelOf(found[i], analyses[i].deps)
    ensures escaped ==> stopAt == -1 && |wheels| < |found|
    ensures escaped ==> !Parses(found[|wheels|]) || analyses[|wheels|].Failed?
    ensures stopAt != -1 ==> !escaped && FirstStop(found, analyses, stopAt)
    ensures !escaped && stopAt == -1 ==> |wheels| == |found|
  {
    wheels := [];
    for i := 0 to |found|
      invariant |wheels| == i
      invariant forall j :: 0 <= j < i ==>
                  Parses(found[j]) && analyses[j].Computed? && wheels[j] == WheelOf(found[j], analyses[j].deps)
    {
      if !Parses(found[i]) {
        return wheels, -1, true;
      }
      var wheel := NewWheel(found[i].filename, found[i].filesize, found[i].filehash, None).value;
      match analyses[i] {
        case Failed =>
          return wheels, -1, true;
        case Stopped(_) =>
          return wheels, i, false;
        case Computed(deps) =>
          wheels := wheels + [wheel.(dependencies := deps)];
      }
    }
    return wheels, -1, false;
  }

  /**
   * File `i` is where the dependency loop stops on a time-out or termination:
   * it parsed and was stopped, and every earlier file parsed and had its
   * dependencies computed.
   */
  predicate FirstStop(found: seq<FoundFile>, analyses: seq<DepsOutcome>, i: int)
    requires |analyses| == |found|
  {
    && 0 <= i < |found| && Parses(found[i]) && analyses[i].Stopped?
    && forall j :: 0 <= j < i ==> Parses(found[j]) && analyses[j].Computed?
  }

  /** The wheel `run` records for a found file whose dependencies were computed. */
  function WheelOf(f: FoundFile, deps: Dependencies): (w: Wheel)
    requires Parses(f)
    ensures w.dependencies == deps && w.filename == f.filename
  {
    NewWheel(f.filename, f.filesize, f.filehash, None).value.(dependencies := deps)
  }

  class Builder {
    const package: string
    const version: string
    var status: bool
    var wheels: seq<Wheel>
    var output: string

    constructor (package: string, version: string)
      ensures this.package == package && this.version == version
      ensures !status && wheels == [] && output == ""
    {
      this.package := package;
      this.version := version;
      status := false;
      wheels := [];
      output := "";
    }

    /**
     * `run`: the status is pip's success, withdrawn (and every wheel dropped)
     * when dependency analysis is stopped; the output is pip's log plus the
     * text of each exception caught. `escaped` is set when an exception
     * leaves `run` (a wheel name that cannot be split, or a failure other than
     * a time-out or termination during dependency analysis).
     */
    method Run(build: BuildOutcome, log: string, found: seq<FoundFile>,
               analyses: seq<DepsOutcome>) returns (escaped: bool)
      requires |analyses| == |found|
      requires !status && wheels == []
      modifies this
      ensures !status ==> wheels == []
      ensures |wheels| <= |found|
      ensures build != Exited(0) ==> !status && !escaped
      ensures build.Raised? ==> output == log + "\n" + build.message
      ensures build.Exited? && build.returnCode != 0 ==> output == log
      ensures escaped ==> status && output == old(output) && |wheels| < |found|
      ensures escaped ==> !Parses(found[|wheels|]) || analyses[|wheels|].Failed?
      ensures status ==> forall i :: 0 <= i < |wheels| ==>
                Parses(found[i]) && analyses[i].Computed? && wheels[i] == WheelOf(found[i], analyses[i].deps)
      ensures status && !escaped ==> |wheels| == |found| && output == log
      ensures build == Exited(0) && !status ==>
                exists i :: FirstStop(found, analyses, i) && output == log + "\n" + analyses[i].message
      ensures build == Exited(0) && (forall i :: 0 <= i < |found| ==> Parses(found[i]) && analyses[i].Computed?) ==>
                status && !escaped
    {
      escaped := false;
      var text := log;
      match build {
        case Raised(message) =>
          text := text + "\n" + message;
          status := false;
        case Exited(code) =>
          status := code == 0;
      }
      if status {
        var built, stopAt, thrown := ScanWheels(found, analyses);
        if thrown {
          wheels := built;
          return true;
        }
        if stopAt >= 0 {
          text := text + "\n" + analyses[stopAt].message;
          status := false;
        } else {
          wheels := built;
        }
      }
      output := text;
    }
  }

  /**
   * One shared library found by `ldd`: its resolved path, the installed
   * packages that provide that file, and whether the build had been told to
   * stop by the time this library was handled.
   */
  datatype Library = Library(path: string, providers: set<string>, stopRequested: bool)

  /** How `build_dependencies` fails part-way: a file with several providers, or a stop request. */
  datatype GroupError = AmbiguousProvider(path: string) | Terminated

  /**
   * The names under each tool: packages under `"apt"`, unprovided paths
   * under `""`. `aptKey` records that `deps['apt']` was looked up, which
   * creates the `"apt"` entry of the `defaultdict` even when the library
   * has no provider and `providers.pop()` then raises.
   */
  datatype Groups = Groups(aptKey: bool, apt: set<string>, paths: set<string>)

  /** What one library with at most one provider adds: its provider under `"apt"`, or else its path under `""`. */
  function AddTo(g: Groups, lib: Library): Groups
  {
    Groups(true,
           g.apt + (if |lib.providers| == 1 then lib.providers else {}),
           g.paths + (if |lib.providers| == 0 then {lib.path} else {}))
  }

  /** The names the first `n` libraries add. */
  function Grouped(libs: seq<Library>, n: nat): (g: Groups)
    requires n <= |libs|
    ensures g.aptKey <==> n > 0
  {
    if n == 0 then Groups(false, {}, {}) else AddTo(Grouped(libs, n - 1), libs[n - 1])
  }

  /** The error raised at library `i`, which has several providers or asks to stop. */
  function FailureAt(libs: seq<Library>, i: nat): GroupError
    requires i < |libs|
  {
    if |libs[i].providers| > 1 then AmbiguousProvider(libs[i].path) else Terminated
  }

  /** Every library before `i` has at most one provider and asks nothing to stop. */
  predicate Passes(libs: seq<Library>, i: nat)
    requires i <= |libs|
  {
    forall j :: 0 <= j < i ==> |libs[j].providers| <= 1 && !libs[j].stopRequested
  }

  /**
   * The loop of `build_dependencies` over the libraries found: each goes under
   * `"apt"` as its one provider or under `""` as its path; a library with
   * several providers fails the assertion, and a stop request raises after
   * the library is recorded.
   */
  method GroupProviders(libs: seq<Library>) returns (r: Result<Groups, GroupError>)
    ensures r.Ok? <==> Passes(libs, |libs|)
    ensures r.Err? ==>
              exists i :: 0 <= i < |libs| && Passes(libs, i) && r.error == FailureAt(libs, i) &&
                          (|libs[i].providers| > 1 || libs[i].stopRequested)
    ensures r.Ok? ==> r.value == Grouped(libs, |libs|)
  {
    var groups := Groups(false, {}, {});
    for i := 0 to |libs|
      invariant Passes(libs, i)
      invariant groups == Grouped(libs, i)
    {
      var lib := libs[i];
      if |lib.providers| > 1 {
        return Err(AmbiguousProvider(lib.path));
      }
      groups := AddLibrary(groups, lib);
      if lib.stopRequested {
        return Err(Terminated);
      }
      assert Passes(libs, i + 1);
    }
    return Ok(groups);
  }

  /** `deps['apt'].add(providers.pop())`, or `deps[''].add(lib_path)` when there is no provider. */
  method AddLibrary(g: Groups, lib: Library) returns (g': Groups)
    requires |lib.providers| <= 1
    ensures g' == AddTo(g, lib)
    ensures |lib.providers| == 1 ==> lib.providers <= g'.apt && g'.paths == g.paths
    ensures |lib.providers| == 0 ==> lib.path in g'.paths && g'.apt == g.apt
  {
    if |lib.providers| == 1 {
      var p :| p in lib.providers;
      SoleProvider(lib.providers, p);
      g' := g.(aptKey := true, apt := g.apt + {p});
    } else {
      g' := g.(aptKey := true, paths := g.paths + {lib.path});
    }
  }

  /**
   * The `defaultdict` of names per tool: `"apt"` appears once it was looked
   * up, even with no package added, and `""` once a path was added under it.
   */
  function ToolMap(g: Groups): (m: map<string, set<string>>)
    ensures m.Keys <= {"apt", ""}
    ensures ("apt" in m <==> g.aptKey) && ("apt" in m ==> m["apt"] == g.apt)
    ensures ("" in m <==> g.paths != {}) && ("" in m ==> m[""] == g.paths)
  {
    (if g.aptKey then map["apt" := g.apt] else map[]) + (if g.paths != {} then map["" := g.paths] else map[])
  }

  /** A library no package provides still creates the `"apt"` entry, left empty. */
  lemma UnprovidedLibraryKeepsAptKey()
    ensures var libs := [Library("/usr/lib/libfoo.so", {}, false)];
      Passes(libs, 1) && ToolMap(Grouped(libs, 1)) == map["apt" := {}, "" := {"/usr/lib/libfoo.so"}]
  {
  }

  /** The closing comprehension of `build_dependencies`: each tool's names, sorted. */
  method SortGroups(deps: map<string, set<string>>) returns (result: Dependencies)
    ensures result.Keys == deps.Keys
    ensures forall t :: t in result ==>
              StrictlySorted(result[t]) && forall n :: n in result[t] <==> n in deps[t]
  {
    result := map[];
    var tools := deps.Keys;
    while tools != {}
      invariant tools <= deps.Keys
      invariant result.Keys == deps.Keys - tools
      invariant forall t :: t in result ==>
                  StrictlySorted(result[t]) && forall n :: n in result[t] <==> n in deps[t]
      decreases |tools|
    {
      var tool :| tool in tools;
      var names := SortedList(deps[tool]);
      result := result[tool := names];
      tools := tools - {tool};
    }
  }

  /**
   * `build_dependencies` from the libraries on: the grouped names, each
   * tool's list sorted without repeats.
   */
  method GroupDependencies(libs: seq<Library>) returns (r: Result<Dependencies, GroupError>)
    ensures r.Ok? <==> Passes(libs, |libs|)
    ensures r.Err? ==>
              exists i :: 0 <= i < |libs| && Passes(libs, i) && r.error == FailureAt(libs, i) &&
                          (|libs[i].providers| > 1 || libs[i].stopRequested)
    ensures r.Ok? ==> r.value.Keys <= {"apt", ""}
    ensures r.Ok? ==> ("apt" in r.value <==> |libs| > 0) && ("" in r.value <==> Grouped(libs, |libs|).paths != {})
    ensures r.Ok? && "apt" in r.value ==>
              StrictlySorted(r.value["apt"]) && forall n :: n in r.value["apt"] <==> n in Grouped(libs, |libs|).apt
    ensures r.Ok? && "" in r.value ==>
              StrictlySorted(r.value[""]) && forall n :: n in r.value[""] <==> n in Grouped(libs, |libs|).paths
  {
    var grouped := GroupProviders(libs);
    match grouped {
      case Err(e) => return Err(e);
      case Ok(groups) =>
        var sorted := SortGroups(ToolMap(groups));
        return Ok(sorted);
    }
  }

  /** A set of one element is that element's singleton. */
  lemma SoleProvider(s: set<string>, p: string)
    requires |s| == 1 && p in s
    ensures s == {p}
  {
    assert |s - {p}| == 0;
  }
}
