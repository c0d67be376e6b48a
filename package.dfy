/** The package descriptor of fpm (`FPM::Package`): its metadata fields and
    their defaults, the format tag derived from the class name, and the start of
    `assemble` -- validation, resolution of the `VERSION` and `ARCH` tokens in
    the output path, the staging directory and its record as garbage -- followed
    by the payload steps and the format backend's `build`, which are external
    and appear here only as events of a trace. */
module FpmPackage {
  import opened Text
  import opened Paths

  datatype Option<T> = None | Some(value: T)

  const DEFAULT_ITERATION: int := 1
  const DEFAULT_URL: string := "http://nourlgiven.example.com/no/url/given"
  const DEFAULT_CATEGORY: string := "default"
  const DEFAULT_LICENSE: string := "unknown"
  const DEFAULT_SUMMARY: string := "no summary given"
  const DEFAULT_ROOT: string := "."

  /** The default maintainer `<user@host>`, from the login name and host name
      of the process (passed in here). */
  function DefaultMaintainer(user: string, host: string): string
  {
    "<" + user + "@" + host + ">"
  }

  // ----- Format tag (`type`) -----

  /** The fields that Ruby's `split` keeps: trailing empty fields are dropped. */
  function DropTrailingEmpty(fields: seq<string>): (kept: seq<string>)
    ensures kept <= fields
    ensures kept == [] || kept[|kept| - 1] != []
    ensures forall i :: |kept| <= i < |fields| ==> fields[i] == []
    decreases |fields|
  {
    if fields != [] && fields[|fields| - 1] == [] then DropTrailingEmpty(fields[..|fields| - 1])
    else fields
  }

  /** Ruby's `s.split(c)` for a one-character string `c`: the fields between
      the occurrences of `c`, none of which holds `c`, without the empty
      fields at the end. */
  function RubySplit(s: string, c: char): (fields: seq<string>)
    ensures forall k :: 0 <= k < |fields| ==> c !in fields[k]
    ensures fields == [] || fields[|fields| - 1] != []
    ensures fields == [] <==> forall i :: 0 <= i < |s| ==> s[i] == c
  {
    SplitOnCharPiecesAreFree(s, c);
    SplitOnAllEmpty(s, c);
    DropTrailingEmpty(SplitOn(s, [c]))
  }

  /** `type`: the last `:`-separated segment of the class name, lower-cased.
      None exactly when the name is empty or only colons, so that the split
      yields no field and Ruby calls `downcase` on nil and raises. A format tag
      is a non-empty, colon-free word with no upper-case letter. */
  function Type(className: string): (r: Option<string>)
    ensures r.None? <==> forall i :: 0 <= i < |className| ==> className[i] == ':'
    ensures r.Some? ==>
      r.value != [] && ':' !in r.value && forall i :: 0 <= i < |r.value| ==> !IsUpper(r.value[i])
  {
    var fields := RubySplit(className, ':');
    if fields == [] then None else Some(Downcase(fields[|fields| - 1]))
  }

  /** A non-empty last field after a separator is the last field of the split. */
  lemma RubySplitLastField(a: string, c: char, last: string)
    requires last != [] && c !in last
    ensures RubySplit(a + [c] + last, c) == SplitOn(a, [c]) + [last]
  {
    SplitOnSeparated(a, c, last);
    ContainsChar(last, c);
    SplitOnFree(last, [c]);
    var fields := SplitOn(a, [c]) + [last];
    assert fields[|fields| - 1] == last;
    assert DropTrailingEmpty(fields) == fields;
  }

  /** The tag of a qualified class name `A::B::Seg` is `Seg` lower-cased. */
  lemma TypeOfQualifiedName(prefix: string, seg: string)
    requires seg != [] && ':' !in seg
    ensures Type(prefix + "::" + seg) == Some(Downcase(seg))
  {
    var name := prefix + "::" + seg;
    assert name == (prefix + ":") + [':'] + seg;
    RubySplitLastField(prefix + ":", ':', seg);
    var fields := RubySplit(name, ':');
    assert fields[|fields| - 1] == seg;
  }

  /** The tag of an unqualified class name is the name lower-cased. */
  lemma TypeOfPlainName(seg: string)
    requires seg != [] && ':' !in seg
    ensures Type(seg) == Some(Downcase(seg))
  {
    ContainsChar(seg, ':');
    SplitOnFree(seg, ":");
  }

  /** The Debian backend's class gives the tag `deb`. */
  lemma TypeOfDeb()
    ensures Type("FPM::Package::Deb") == Some("deb")
  {
    var seg := "Deb";
    assert "FPM::Package::Deb" == "FPM::Package" + "::" + seg;
    assert ':' !in seg;
    TypeOfQualifiedName("FPM::Package", seg);
    assert Downcase(seg) == "deb" by {
      assert Lower('D') == 'd' && Lower('e') == 'e' && Lower('b') == 'b';
    }
  }

  // ----- Output path resolution -----

  /** String interpolation of a value that may be nil: nil interpolates as "". */
  function Interpolate(v: Option<string>): string
  {
    if v.Some? then v.value else []
  }

  /** What `VERSION` is replaced by: `"#{version}-#{iteration}"`. The
      version comes first, then a dash, then the iteration in canonical
      decimal, which reads back as the iteration. */
  function VersionTag(version: Option<string>, iteration: int): (r: string)
    ensures var v := Interpolate(version);
      && v + "-" <= r
      && IsCanonicalIntString(r[|v| + 1..]) && ParseInt(r[|v| + 1..]) == iteration
  {
    var v := Interpolate(version);
    assert (v + "-" + IntToString(iteration))[|v| + 1..] == IntToString(iteration);
    v + "-" + IntToString(iteration)
  }

  /** The output path after `output.gsub!(/VERSION/, ...)`: unchanged when it
      holds no `VERSION`, and holding the version tag when it does. */
  function SubstituteVersion(output: string, version: Option<string>, iteration: int): (r: string)
    ensures !Contains(output, "VERSION") ==> r == output
    ensures Contains(output, "VERSION") ==> Contains(r, VersionTag(version, iteration))
  {
    ReplaceAllWithoutMatch(output, "VERSION", VersionTag(version, iteration));
    ReplaceAllIntroduces(output, "VERSION", VersionTag(version, iteration));
    ReplaceAll(output, "VERSION", VersionTag(version, iteration))
  }

  /** The output path after both substitutions: every `VERSION` first, then
      every `ARCH` in the result. A path with neither token is unchanged. */
  function ResolveOutput(output: string, version: Option<string>, iteration: int, arch: string): (r: string)
    ensures !Contains(output, "VERSION") && !Contains(output, "ARCH") ==> r == output
  {
    ReplaceAllWithoutMatch(output, "ARCH", arch);
    ReplaceAll(SubstituteVersion(output, version, iteration), "ARCH", arch)
  }

  /** Neither token's first letter occurs again in it, so occurrences of
      either token never overlap one another. */
  lemma TokensHaveUniqueFirstChar()
    ensures FirstCharUnique("VERSION") && FirstCharUnique("ARCH")
  {
  }

  /** An output path with one `VERSION` and, after it, one `ARCH` has both
      replaced in place, the rest of the path kept as it is. No other
      occurrence of either token may be present, counting those the version
      tag brings in. */
  lemma ResolveOutputSingleTokens(pre: string, mid: string, post: string, version: Option<string>, iteration: int, arch: string)
    requires !Contains(pre, "VERSION") && !Contains(mid + "ARCH" + post, "VERSION")
    requires !Contains(pre + VersionTag(version, iteration) + mid, "ARCH") && !Contains(post, "ARCH")
    ensures ResolveOutput(pre + "VERSION" + mid + "ARCH" + post, version, iteration, arch)
      == pre + VersionTag(version, iteration) + mid + arch + post
  {
    TokensHaveUniqueFirstChar();
    ReplaceTwice(pre, mid, post, "VERSION", VersionTag(version, iteration), "ARCH", arch);
  }

  /** The version tag of the documented example. */
  lemma ExampleTag()
    ensures VersionTag(Some("1.2.3"), 4) == "1.2.3-4"
  {
    assert IntToString(4) == "4";
  }

  /** The documented example cut at its tokens, and put together again. */
  lemma ExampleParts()
    ensures "pkg-VERSION.ARCH.fmt" == "pkg-" + "VERSION" + "." + "ARCH" + ".fmt"
    ensures "pkg-" + "1.2.3-4" + "." + "x86_64" + ".fmt" == "pkg-1.2.3-4.x86_64.fmt"
  {
  }

  /** The parts of the documented example hold no further token. */
  lemma ExampleTokenFree()
    ensures !Contains("pkg-", "VERSION") && !Contains("." + "ARCH" + ".fmt", "VERSION")
    ensures !Contains("pkg-" + "1.2.3-4" + ".", "ARCH") && !Contains(".fmt", "ARCH")
  {
    NotContainsWithoutFirstChar("pkg-", "VERSION");
    NotContainsWithoutFirstChar("." + "ARCH" + ".fmt", "VERSION");
    NotContainsWithoutFirstChar("pkg-" + "1.2.3-4" + ".", "ARCH");
    NotContainsWithoutFirstChar(".fmt", "ARCH");
  }

  /** The documented example: `pkg-VERSION.ARCH.fmt` with version 1.2.3,
      iteration 4 and architecture x86_64. */
  lemma ResolveOutputExample(output: string, version: string, arch: string)
    requires output == "pkg-VERSION.ARCH.fmt" && version == "1.2.3" && arch == "x86_64"
    ensures ResolveOutput(output, Some(version), 4, arch) == "pkg-1.2.3-4.x86_64.fmt"
  {
    ExampleTag();
    ExampleParts();
    ExampleTokenFree();
    ResolveOutputSingleTokens("pkg-", ".", ".fmt", Some(version), 4, arch);
  }

  /** The two substitutions run one after the other, so an `ARCH` that the
      version brings in is replaced as well. */
  lemma ArchInVersionIsReplaced()
    ensures ResolveOutput("VERSION", Some("ARCH"), 1, "amd64") == "amd64-1"
  {
    assert IntToString(1) == "1";
    assert VersionTag(Some("ARCH"), 1) == "ARCH-1";
    ReplaceAllAtStart([], "VERSION", "ARCH-1");
    assert "VERSION" + [] == "VERSION";
    assert SubstituteVersion("VERSION", Some("ARCH"), 1) == "ARCH-1";
    assert "ARCH-1" == "ARCH" + "-1";
    ReplaceAllAtStart("-1", "ARCH", "amd64");
  }

  /** For a given version, the `VERSION` replacement determines the iteration. */
  lemma VersionTagDeterminesIteration(version: Option<string>, i: int, j: int)
    requires VersionTag(version, i) == VersionTag(version, j)
    ensures i == j
  {
    var n := |Interpolate(version)| + 1;
    assert ParseInt(VersionTag(version, i)[n..]) == i;
    assert ParseInt(VersionTag(version, j)[n..]) == j;
  }

  // ----- Staging directory -----

  /** The staging directory `<pwd>/build-<type>-<basename of output>`. It is
      never the output path itself, so creating it cannot bring back the file
      that was just deleted; its own name is `build-<type>-<basename>`. */
  function StagingDir(pwd: string, tag: string, output: string): (dir: string)
    ensures dir != output
    ensures '/' !in tag && Basename(output) != "/" ==>
      Basename(dir) == "build-" + tag + "-" + Basename(output)
  {
    ChildIsNotParent(pwd + "/build-" + tag + "-", output);
    assert '/' !in tag && Basename(output) != "/" ==>
      Basename(pwd + "/build-" + tag + "-" + Basename(output)) == "build-" + tag + "-" + Basename(output) by {
      if '/' !in tag && Basename(output) != "/" {
        BuildDirName(pwd, tag, Basename(output));
      }
    }
    pwd + "/build-" + tag + "-" + Basename(output)
  }

  /** Two outputs share a staging directory exactly when their basenames agree. */
  lemma StagingDirDependsOnlyOnBasename(pwd: string, tag: string, output1: string, output2: string)
    ensures StagingDir(pwd, tag, output1) == StagingDir(pwd, tag, output2) <==> Basename(output1) == Basename(output2)
  {
    var p := pwd + "/build-" + tag + "-";
    assert StagingDir(pwd, tag, output1)[|p|..] == Basename(output1);
    assert StagingDir(pwd, tag, output2)[|p|..] == Basename(output2);
  }

  lemma NoSlashInStagingName(tag: string, base: string)
    requires '/' !in tag && '/' !in base
    ensures '/' !in "build-" + tag + "-" + base
  {
    assert '/' !in "build-";
    assert '/' !in "-";
  }

  /** The name `build-<type>-<base>` placed under `pwd` is the basename of the result. */
  lemma BuildDirName(pwd: string, tag: string, base: string)
    requires '/' !in tag && '/' !in base
    ensures Basename(pwd + "/build-" + tag + "-" + base) == "build-" + tag + "-" + base
  {
    var name := "build-" + tag + "-" + base;
    assert pwd + "/build-" + tag + "-" + base == pwd + "/" + name;
    NoSlashInStagingName(tag, base);
    BasenameOfChild(pwd, name);
  }

  /** A prefix ending in `-` followed by the basename of `output` never
      spells `output` itself. */
  lemma ChildIsNotParent(x: string, output: string)
    requires x != [] && x[|x| - 1] == '-'
    ensures x + Basename(output) != output
  {
    var b := Basename(output);
    assert LastSegment(x) != [];
    if x + b == output {
      if b == "/" {
        // a basename "/" means a path of slashes only, but this one holds a '-'
        assert output[|x| - 1] == '-';
        BasenameIsRoot(output);
      } else if b != [] {
        // the last component would be longer than `b` itself
        assert b[|b| - 1] in b;
        assert StripTrailingSlashes(output) == output;
        LastSegmentAppend(x, b);
      }
    }
  }

  // ----- The steps after the prefix -----

  /** The events of the pipeline, each with the directory it runs in.
      `tar`, `gzip`, `generate_md5sums` and `generate_specfile` run under the
      payload root; the backend's `build` runs in the staging directory. */
  datatype Step =
    | Tar(cwd: string, archive: string, paths: seq<string>)
    | Gzip(cwd: string, file: string)
    | GenerateMd5Sums(cwd: string, builddir: string, paths: seq<string>)
    | GenerateSpecFile(cwd: string, builddir: string, paths: seq<string>)
    | Build(cwd: string, output: string)

  /** The steps `assemble` sets out to run, in order. */
  function PlannedSteps(root: string, builddir: string, paths: seq<string>, output: string): seq<Step>
  {
    [ Tar(root, builddir + "/data.tar", paths),
      Gzip(root, builddir + "/data.tar"),
      GenerateMd5Sums(root, builddir, paths),
      GenerateSpecFile(root, builddir, paths),
      Build(builddir, output) ]
  }

  /** A failing step ends the assembly by raising -- except `gzip`, which runs
      through `system`, whose false result nobody looks at. */
  predicate Aborts(s: Step, failing: set<Step>)
  {
    s in failing && !s.Gzip?
  }

  /** The steps that ran, and the one that raised, if any. */
  datatype Execution = Execution(trace: seq<Step>, raised: Option<Step>)

  /** Runs the steps in order and stops right after the first one that raises. */
  function Run(steps: seq<Step>, failing: set<Step>): Execution
    decreases |steps|
  {
    if steps == [] then Execution([], None)
    else if Aborts(steps[0], failing) then Execution([steps[0]], Some(steps[0]))
    else
      var rest := Run(steps[1..], failing);
      Execution([steps[0]] + rest.trace, rest.raised)
  }

  /** What a run is: a prefix of the steps in which no step before the last
      raised; it is the whole sequence, with nothing raised, exactly when no
      step raises, and otherwise it ends with the step that raised. */
  lemma {:induction false} RunShape(steps: seq<Step>, failing: set<Step>)
    ensures var e := Run(steps, failing);
      && e.trace <= steps
      && (forall k :: 0 <= k < |e.trace| - 1 ==> !Aborts(e.trace[k], failing))
      && (e.raised.None? ==> e.trace == steps && forall k :: 0 <= k < |steps| ==> !Aborts(steps[k], failing))
      && (e.raised.Some? ==>
            e.trace != [] && e.raised.value == e.trace[|e.trace| - 1] && Aborts(e.raised.value, failing))
    decreases |steps|
  {
    if steps != [] && !Aborts(steps[0], failing) {
      var rest := Run(steps[1..], failing);
      RunShape(steps[1..], failing);
      var e := Run(steps, failing);
      assert e.trace == [steps[0]] + rest.trace;
      assert steps == [steps[0]] + steps[1..];
      forall k | 0 <= k < |e.trace| - 1
        ensures !Aborts(e.trace[k], failing)
      {
        if k > 0 {
          assert e.trace[k] == rest.trace[k - 1];
        }
      }
      if e.raised.None? {
        forall k | 0 <= k < |steps|
          ensures !Aborts(steps[k], failing)
        {
          if k > 0 {
            assert steps[k] == steps[1..][k - 1];
          }
        }
      }
    }
  }

  /** A step that does not raise is followed by the run of the rest. */
  lemma RunPast(steps: seq<Step>, failing: set<Step>)
    requires steps != [] && !Aborts(steps[0], failing)
    ensures var rest := Run(steps[1..], failing);
      Run(steps, failing) == Execution([steps[0]] + rest.trace, rest.raised)
  {
  }

  /** Whether `gzip` exits non-zero makes no difference to what runs. */
  lemma {:induction false} RunIgnoresGzipFailures(steps: seq<Step>, failing: set<Step>, gzips: set<Step>)
    requires forall s :: s in gzips ==> s.Gzip?
    ensures Run(steps, failing + gzips) == Run(steps, failing)
    decreases |steps|
  {
    if steps != [] {
      assert Aborts(steps[0], failing + gzips) == Aborts(steps[0], failing);
      RunIgnoresGzipFailures(steps[1..], failing, gzips);
    }
  }

  /** The order of the pipeline: `tar` always runs first; `build` runs only
      after all four payload steps, and then the whole plan has run; the run
      succeeds exactly when none of the raising steps fails. */
  lemma PipelineOrder(root: string, builddir: string, paths: seq<string>, output: string, failing: set<Step>)
    ensures var steps := PlannedSteps(root, builddir, paths, output);
      var e := Run(steps, failing);
      && e.trace != [] && e.trace[0] == steps[0]
      && (Build(builddir, output) in e.trace ==> e.trace == steps)
      && (e.raised.None? <==> steps[0] !in failing && steps[2] !in failing && steps[3] !in failing && steps[4] !in failing)
  {
    var steps := PlannedSteps(root, builddir, paths, output);
    RunPlanned(root, builddir, paths, output, failing);
    assert steps[..1] == [steps[0]];
    assert steps[..3] == [steps[0], steps[1], steps[2]];
    assert steps[..4] == [steps[0], steps[1], steps[2], steps[3]];
  }

  /** Every step that runs is placed where `assemble` puts it: the payload
      steps under the root, the backend's `build` in the staging directory. */
  lemma StepsRunWhereExpected(root: string, builddir: string, paths: seq<string>, output: string, failing: set<Step>)
    ensures forall s :: s in Run(PlannedSteps(root, builddir, paths, output), failing).trace ==>
      s.cwd == if s.Build? then builddir else root
  {
    var steps := PlannedSteps(root, builddir, paths, output);
    var e := Run(steps, failing);
    RunShape(steps, failing);
    forall s | s in e.trace
      ensures s.cwd == if s.Build? then builddir else root
    {
      var k :| 0 <= k < |e.trace| && e.trace[k] == s;
      assert s == steps[k];
    }
  }

  /** Without a `root` option the payload steps run in `"."`. */
  lemma DefaultRootIsCurrentDir(builddir: string, paths: seq<string>, output: string, failing: set<Step>)
    ensures forall s :: s in Run(PlannedSteps(RootOf(None), builddir, paths, output), failing).trace && !s.Build? ==>
      s.cwd == "."
  {
    StepsRunWhereExpected(RootOf(None), builddir, paths, output, failing);
  }

  // ----- Errors and results of `assemble` -----

  datatype Error =
    | NoName                     // raised explicitly when no name is set
    | NoOutput                   // `gsub!` on a nil output
    | NoArchitecture             // `gsub!` with a nil replacement
    | OutputNotDeletable(path: string)  // `File.delete` on a directory
    | TypeUndefined              // `downcase` on the nil last segment
    | StagingDirBlocked(path: string)   // `Dir.mkdir` where a file exists
    | StepRaised(step: Step)     // an exception from a pipeline step

  datatype Outcome = Assembled | Failed(error: Error)

  /** The outcome of the pipeline steps. */
  function OutcomeOf(e: Execution): Outcome
  {
    if e.raised.None? then Assembled else Failed(StepRaised(e.raised.value))
  }

  /** A run of steps ends well exactly when none of them raises; otherwise
      the error names the last step that ran, which is one that raises, and
      no step before it raised. */
  lemma OutcomeOfRun(steps: seq<Step>, failing: set<Step>)
    ensures var e := Run(steps, failing);
      var r := OutcomeOf(e);
      && (r == Assembled <==> forall k :: 0 <= k < |steps| ==> !Aborts(steps[k], failing))
      && (r.Failed? ==>
            && r.error.StepRaised?
            && e.trace != [] && r.error.step == e.trace[|e.trace| - 1]
            && Aborts(r.error.step, failing)
            && forall k :: 0 <= k < |e.trace| - 1 ==> !Aborts(e.trace[k], failing))
  {
    var e := Run(steps, failing);
    RunShape(steps, failing);
    if e.raised.Some? {
      var n := |e.trace| - 1;
      assert e.trace[n] == steps[n];
    }
  }

  /** `params["root"] || '.'` */
  function RootOf(root: Option<string>): string
  {
    if root.Some? then root.value else DEFAULT_ROOT
  }

  /** The run of the planned steps, case by case: it stops at `tar`, at the
      checksums, at the spec file or at `build` when that step raises, and
      runs the whole plan otherwise. */
  lemma {:induction false} RunPlanned(root: string, builddir: string, paths: seq<string>, output: string, failing: set<Step>)
    ensures var s := PlannedSteps(root, builddir, paths, output);
      var e := Run(s, failing);
      && (Aborts(s[0], failing) ==> e == Execution(s[..1], Some(s[0])))
      && (!Aborts(s[0], failing) && Aborts(s[2], failing) ==> e == Execution(s[..3], Some(s[2])))
      && (!Aborts(s[0], failing) && !Aborts(s[2], failing) && Aborts(s[3], failing) ==>
            e == Execution(s[..4], Some(s[3])))
      && (!Aborts(s[0], failing) && !Aborts(s[2], failing) && !Aborts(s[3], failing) && Aborts(s[4], failing) ==>
            e == Execution(s, Some(s[4])))
      && (!Aborts(s[0], failing) && !Aborts(s[2], failing) && !Aborts(s[3], failing) && !Aborts(s[4], failing) ==>
            e == Execution(s, None))
  {
    var s := PlannedSteps(root, builddir, paths, output);
    if !Aborts(s[0], failing) {
      RunPast(s, failing);
      assert s[1..][1..] == s[2..];
      RunPast(s[1..], failing);
      if !Aborts(s[2], failing) {
        assert s[2..][1..] == s[3..];
        RunPast(s[2..], failing);
        if !Aborts(s[3], failing) {
          assert s[3..][1..] == s[4..];
          RunPast(s[3..], failing);
          assert s[4..][1..] == [];
          if !Aborts(s[4], failing) {
            RunPast(s[4..], failing);
          }
        }
      }
    }
  }

  /** The pipeline of `assemble` once the staging directory exists: the
      archive, its compression, the checksums and the spec file under the
      payload root, then the backend's build in the staging directory. */
  method RunPipeline(root: string, builddir: string, paths: seq<string>, output: string, failing: set<Step>)
    returns (r: Outcome, trace: seq<Step>)
    ensures var e := Run(PlannedSteps(root, builddir, paths, output), failing);
      trace == e.trace && r == OutcomeOf(e)
  {
    ghost var steps := PlannedSteps(root, builddir, paths, output);
    RunPlanned(root, builddir, paths, output, failing);
    // Under the payload root.
    var archive := builddir + "/data.tar";
    var step := Tar(root, archive, paths);
    trace := [step];
    if Aborts(step, failing) {
      r := Failed(StepRaised(step));
      return;
    }
    // `system` reports a failing gzip as false, which is not looked at.
    step := Gzip(root, archive);
    trace := trace + [step];
    step := GenerateMd5Sums(root, builddir, paths);
    trace := trace + [step];
    if Aborts(step, failing) {
      r := Failed(StepRaised(step));
      return;
    }
    step := GenerateSpecFile(root, builddir, paths);
    trace := trace + [step];
    if Aborts(step, failing) {
      r := Failed(StepRaised(step));
      return;
    }
    // In the staging directory.
    step := Build(builddir, output);
    trace := trace + [step];
    assert trace == steps;
    if Aborts(step, failing) {
      r := Failed(StepRaised(step));
      return;
    }
    r := Assembled;
  }

  // ----- State -----

  /** The file system as far as `assemble` looks at it: the paths that exist
      as regular files and as directories, and the working directory. */
  class FileSystem {
    const pwd: string
    var files: set<string>
    var dirs: set<string>

    ghost predicate Valid()
      reads this
    {
      files !! dirs
    }

    constructor(pwd: string, files: set<string>, dirs: set<string>)
      requires files !! dirs
      ensures Valid()
      ensures this.pwd == pwd && this.files == files && this.dirs == dirs
    {
      this.pwd := pwd;
      this.files := files;
      this.dirs := dirs;
    }

    /** `File.exists?` */
    predicate Exists(path: string)
      reads this
    {
      path in files || path in dirs
    }

    /** `File.directory?` */
    predicate IsDirectory(path: string)
      reads this
    {
      path in dirs
    }

    /** `File.delete`: unlinks a regular file; fails on a directory or a
        missing path. */
    method Delete(path: string) returns (ok: bool)
      requires Valid()
      modifies this`files
      ensures Valid()
      ensures ok <==> path in old(files)
      ensures files == old(files) - {path}
    {
      ok := path in files;
      files := files - {path};
    }

    /** `Dir.mkdir`: creates a directory where nothing exists yet; fails
        otherwise. */
    method Mkdir(path: string) returns (ok: bool)
      requires Valid()
      modifies this`dirs
      ensures Valid()
      ensures ok <==> !old(Exists(path))
      ensures dirs == if ok then old(dirs) + {path} else old(dirs)
    {
      ok := !Exists(path);
      if ok {
        dirs := dirs + {path};
      }
    }
  }

  /** The options hash of `assemble`. Its output string is the caller's own
      object, which `gsub!` rewrites in place. */
  class Params {
    const root: Option<string>
    const paths: seq<string>
    var output: Option<string>

    constructor(root: Option<string>, paths: seq<string>, output: Option<string>)
      ensures this.root == root && this.paths == paths && this.output == output
    {
      this.root := root;
      this.paths := paths;
      this.output := output;
    }
  }

  /** `FPM::Package`: the package's metadata, set by the caller after
      construction, and the garbage list of paths to clean up later. */
  class Package {
    const className: string
    var name: Option<string>
    var version: Option<string>
    var iteration: int
    var maintainer: string
    var url: string
    var category: string
    var license: string
    var architecture: Option<string>
    var summary: string
    var dependencies: Option<seq<string>>
    var garbage: seq<string>

    /** `initialize`: the defaults. Name, version and dependencies stay nil. */
    constructor(className: string, user: string, host: string)
      ensures this.className == className
      ensures name == None && version == None && dependencies == None
      ensures iteration == DEFAULT_ITERATION
      ensures url == DEFAULT_URL && category == DEFAULT_CATEGORY && license == DEFAULT_LICENSE
      ensures maintainer == DefaultMaintainer(user, host)
      ensures architecture == None
      ensures summary == DEFAULT_SUMMARY
      ensures garbage == []
    {
      this.className := className;
      name := None;
      version := None;
      dependencies := None;
      iteration := DEFAULT_ITERATION;
      url := DEFAULT_URL;
      category := DEFAULT_CATEGORY;
      license := DEFAULT_LICENSE;
      maintainer := DefaultMaintainer(user, host);
      architecture := None;
      summary := DEFAULT_SUMMARY;
      garbage := [];
    }

    /** The part of `assemble` between the resolution of the output path and
        the pipeline: delete the file at the output path, name the staging
        directory, record it as garbage and create it unless it is already a
        directory. */
    method Stage(out: string, fs: FileSystem) returns (err: Option<Error>, builddir: string)
      requires fs.Valid()
      modifies this`garbage, fs`files, fs`dirs
      ensures fs.Valid()
      ensures out in old(fs.dirs) ==>
        && err == Some(OutputNotDeletable(out))
        && fs.files == old(fs.files) && fs.dirs == old(fs.dirs) && garbage == old(garbage)
      ensures out !in old(fs.dirs) ==>
        // the resolved output no longer exists, whatever happens next
        && fs.files == old(fs.files) - {out} && !fs.Exists(out)
        && (Type(className).None? ==>
              err == Some(TypeUndefined) && fs.dirs == old(fs.dirs) && garbage == old(garbage))
        && (Type(className).Some? ==>
              && builddir == StagingDir(fs.pwd, Type(className).value, out)
              // exactly one entry, the staging directory, joins the garbage
              && garbage == old(garbage) + [builddir]
              && (builddir in old(fs.files) ==>
                    err == Some(StagingDirBlocked(builddir)) && fs.dirs == old(fs.dirs))
              && (builddir !in old(fs.files) ==>
                    // created if absent, reused if present
                    err == None && fs.dirs == old(fs.dirs) + {builddir} && fs.IsDirectory(builddir)))
    {
      builddir := [];
      if fs.Exists(out) {
        var deleted := fs.Delete(out);
        if !deleted {
          err := Some(OutputNotDeletable(out));
          return;
        }
      }
      var tag := Type(className);
      if tag.None? {
        err := Some(TypeUndefined);
        return;
      }
      builddir := StagingDir(fs.pwd, tag.value, out);
      garbage := garbage + [builddir];
      if !fs.IsDirectory(builddir) {
        var made := fs.Mkdir(builddir);
        if !made {
          err := Some(StagingDirBlocked(builddir));
          return;
        }
      }
      err := None;
    }

    /** `assemble(params)`. The steps in `failing` raise when they run
        (for `gzip`: exit non-zero). */
    method Assemble(params: Params, fs: FileSystem, failing: set<Step>) returns (r: Outcome, trace: seq<Step>)
      requires fs.Valid()
      modifies this`garbage, params`output, fs`files, fs`dirs
      ensures fs.Valid()
      // No name: fail before anything is rewritten, deleted, created or recorded.
      ensures name.None? ==>
        && r == Failed(NoName) && trace == []
        && params.output == old(params.output)
        && fs.files == old(fs.files) && fs.dirs == old(fs.dirs) && garbage == old(garbage)
      ensures name.Some? && old(params.output).None? ==>
        && r == Failed(NoOutput) && trace == []
        && params.output == None
        && fs.files == old(fs.files) && fs.dirs == old(fs.dirs) && garbage == old(garbage)
      // VERSION is already substituted in the caller's string when a missing
      // architecture makes the second substitution raise.
      ensures name.Some? && old(params.output).Some? && architecture.None? ==>
        && r == Failed(NoArchitecture) && trace == []
        && params.output == Some(SubstituteVersion(old(params.output).value, version, iteration))
        && fs.files == old(fs.files) && fs.dirs == old(fs.dirs) && garbage == old(garbage)
      ensures name.Some? && old(params.output).Some? && architecture.Some? ==>
        var out := ResolveOutput(old(params.output).value, version, iteration, architecture.value);
        && params.output == Some(out)
        && (out in old(fs.dirs) ==>
              && r == Failed(OutputNotDeletable(out)) && trace == []
              && fs.files == old(fs.files) && fs.dirs == old(fs.dirs) && garbage == old(garbage))
        && (out !in old(fs.dirs) ==>
              && fs.files == old(fs.files) - {out} && !fs.Exists(out)
              && (Type(className).None? ==>
                    r == Failed(TypeUndefined) && trace == [] && fs.dirs == old(fs.dirs) && garbage == old(garbage))
              && (Type(className).Some? ==>
                    var dir := StagingDir(fs.pwd, Type(className).value, out);
                    && garbage == old(garbage) + [dir]
                    && (dir in old(fs.files) ==>
                          r == Failed(StagingDirBlocked(dir)) && trace == [] && fs.dirs == old(fs.dirs))
                    && (dir !in old(fs.files) ==>
                          && fs.dirs == old(fs.dirs) + {dir} && fs.IsDirectory(dir)
                          && var e := Run(PlannedSteps(RootOf(params.root), dir, params.paths, out), failing);
                          && trace == e.trace && r == OutcomeOf(e))))
    {
      trace := [];
      if name.None? {
        r := Failed(NoName);
        return;
      }
      var root := RootOf(params.root);
      var paths := params.paths;
      if params.output.None? {
        r := Failed(NoOutput);
        return;
      }
      var output := params.output.value;
      output := ReplaceAll(output, "VERSION", VersionTag(version, iteration));
      params.output := Some(output);
      if architecture.None? {
        r := Failed(NoArchitecture);
        return;
      }
      output := ReplaceAll(output, "ARCH", architecture.value);
      params.output := Some(output);

      var err, builddir := Stage(output, fs);
      if err.Some? {
        r := Failed(err.value);
        return;
      }
      r, trace := RunPipeline(root, builddir, paths, output, failing);
    }
  }
}
