/** `src/java.rs`: the JVM distributions the installer can fetch, their
    download addresses for the build target, and the unpacking of the
    downloaded archive into the distribution's directory. */
module Java {

  import opened Outcomes
  import opened Text
  import opened Paths
  import opened Effects

  // ---------------------------------------------------------------------------
  // Build target and download addresses

  /** `cfg!(target_os)` and `cfg!(target_arch)`, as far as `platform` tells
      them apart. */
  datatype TargetOs = WindowsOs | LinuxOs | MacOs | OtherOs
  datatype TargetArch = X86_64 | AArch64 | OtherArch
  datatype Target = Target(os: TargetOs, arch: TargetArch)

  predicate Supported(t: Target) {
    t.os != OtherOs && t.arch != OtherArch
  }

  /** `platform()`: the operating system and architecture names used in the
      download addresses; an unsupported target panics. */
  function Platform(t: Target): (r: Outcome<(string, string)>)
    ensures r.Ok? <==> Supported(t)
    ensures !r.Ok? ==> r.Panic?
    ensures r.Ok? ==> r.value.0 in ["windows", "linux", "mac"] && r.value.1 in ["x64", "aarch64"]
  {
    var os := match t.os
      case WindowsOs => Some("windows")
      case LinuxOs => Some("linux")
      case MacOs => Some("mac")
      case OtherOs => None;
    var arch := match t.arch
      case X86_64 => Some("x64")
      case AArch64 => Some("aarch64")
      case OtherArch => None;
    if os.None? || arch.None? then Panic else Ok((os.value, arch.value))
  }

  /** Different supported targets have different platform names. */
  lemma PlatformInjective(t: Target, u: Target)
    requires Platform(t).Ok? && Platform(t) == Platform(u)
    ensures t == u
  {
  }

  /** The names `platform` yields differ already in their first letter. */
  predicate FirstLettersDistinct(names: seq<string>) {
    && (forall i :: 0 <= i < |names| ==> |names[i]| > 0)
    && forall i, j :: 0 <= i < |names| && 0 <= j < |names| && names[i][0] == names[j][0] ==> names[i] == names[j]
  }

  /** An address built as `pre + os + mid + arch + post` gives its two
      parameters back, when each is drawn from names told apart by their
      first letter. */
  lemma FormatDistinguishes(pre: string, mid: string, post: string, oses: seq<string>, arches: seq<string>,
                            o1: string, a1: string, o2: string, a2: string)
    requires FirstLettersDistinct(oses) && FirstLettersDistinct(arches)
    requires o1 in oses && o2 in oses && a1 in arches && a2 in arches
    requires pre + o1 + mid + a1 + post == pre + o2 + mid + a2 + post
    ensures o1 == o2 && a1 == a2
  {
    var u := pre + o1 + mid + a1 + post;
    var v := pre + o2 + mid + a2 + post;
    assert u[|pre|] == o1[0] && v[|pre|] == o2[0];
    assert o1 == o2;
    assert u[|pre| + |o1| + |mid|] == a1[0] && v[|pre| + |o1| + |mid|] == a2[0];
  }

  lemma PlatformNamesDistinct()
    ensures FirstLettersDistinct(["windows", "linux", "mac"])
    ensures FirstLettersDistinct(["windows", "linux", "darwin"])
    ensures FirstLettersDistinct(["x64", "aarch64"])
  {
  }

  const AzulPrefix: string := "https://api.azul.com/zulu/download/community/v1.0/bundles/latest?java_version=25&os="
  const AzulSuffix: string := "&ext=zip&bundle_type=jdk"

  /** `azul_url()`: the Azul API query for the latest JDK 25 zip of the
      platform. */
  function AzulUrl(t: Target): (r: Outcome<string>)
    ensures r.Ok? <==> Supported(t)
    ensures !r.Ok? ==> r.Panic?
    ensures r.Ok? ==> StartsWith(r.value, AzulPrefix) && EndsWith(r.value, AzulSuffix)
  {
    match Platform(t)
    case Ok((os, arch)) =>
      var url := AzulPrefix + os + "&arch=" + arch + AzulSuffix;
      assert url[..|AzulPrefix|] == AzulPrefix;
      assert url[|url| - |AzulSuffix|..] == AzulSuffix;
      Ok(url)
    case _ => Panic
  }

  /** The Azul query names the target: two targets never share it. */
  lemma AzulUrlIdentifiesTarget(t: Target, u: Target)
    requires AzulUrl(t).Ok? && AzulUrl(t) == AzulUrl(u)
    ensures t == u
  {
    var (o1, a1) := Platform(t).value;
    var (o2, a2) := Platform(u).value;
    PlatformNamesDistinct();
    FormatDistinguishes(AzulPrefix, "&arch=", AzulSuffix, ["windows", "linux", "mac"], ["x64", "aarch64"], o1, a1, o2, a2);
  }

  const AdoptiumPrefix: string := "https://api.adoptium.net/v3/binary/latest/25/ga/"
  const AdoptiumSuffix: string := "/jdk/hotspot/normal/eclipse?project=jdk"

  /** `adoptium_url()`: the Adoptium binary address of the latest JDK 25
      general-availability build for the platform. */
  function AdoptiumUrl(t: Target): (r: Outcome<string>)
    ensures r.Ok? <==> Supported(t)
    ensures !r.Ok? ==> r.Panic?
    ensures r.Ok? ==> StartsWith(r.value, AdoptiumPrefix) && EndsWith(r.value, AdoptiumSuffix)
  {
    match Platform(t)
    case Ok((os, arch)) =>
      var url := AdoptiumPrefix + os + "/" + arch + AdoptiumSuffix;
      assert url[..|AdoptiumPrefix|] == AdoptiumPrefix;
      assert url[|url| - |AdoptiumSuffix|..] == AdoptiumSuffix;
      Ok(url)
    case _ => Panic
  }

  /** The Adoptium address names the target. */
  lemma AdoptiumUrlIdentifiesTarget(t: Target, u: Target)
    requires AdoptiumUrl(t).Ok? && AdoptiumUrl(t) == AdoptiumUrl(u)
    ensures t == u
  {
    var (o1, a1) := Platform(t).value;
    var (o2, a2) := Platform(u).value;
    PlatformNamesDistinct();
    FormatDistinguishes(AdoptiumPrefix, "/", AdoptiumSuffix, ["windows", "linux", "mac"], ["x64", "aarch64"], o1, a1, o2, a2);
  }

  /** GraalVM's name of an operating system: `mac` is `darwin`, the others
      keep their name; a name `platform` never yields is unreachable. */
  function GraalOsName(os: string): (r: Outcome<string>)
    ensures r.Ok? <==> os in ["windows", "linux", "mac"]
    ensures !r.Ok? ==> r.Panic?
    ensures r.Ok? ==> (r.value == os <==> os != "mac")
    ensures r.Ok? ==> r.value in ["windows", "linux", "darwin"]
  {
    if os == "windows" then Ok("windows")
    else if os == "linux" then Ok("linux")
    else if os == "mac" then Ok("darwin")
    else Panic
  }

  /** GraalVM's name of an architecture: unchanged. */
  function GraalArchName(arch: string): (r: Outcome<string>)
    ensures r.Ok? <==> arch in ["x64", "aarch64"]
    ensures !r.Ok? ==> r.Panic?
    ensures r.Ok? ==> r.value == arch
  {
    if arch == "x64" then Ok("x64")
    else if arch == "aarch64" then Ok("aarch64")
    else Panic
  }

  /** The GraalVM Community release the installer fetches. */
  const GraalVersion: string := "25.0.1"

  function GraalPrefix(): string {
    "https://github.com/graalvm/graalvm-ce-builds/releases/download/jdk-" + GraalVersion
    + "/graalvm-community-jdk-" + GraalVersion + "_"
  }

  const GraalSuffix: string := "_bin.zip"

  /** `graalvm_url()`: the GitHub release asset of GraalVM Community 25.0.1
      for the platform, with macOS spelled `darwin`. The `unreachable!` arms
      are indeed never reached. */
  function GraalvmUrl(t: Target): (r: Outcome<string>)
    ensures r.Ok? <==> Supported(t)
    ensures !r.Ok? ==> r.Panic?
    ensures r.Ok? ==> StartsWith(r.value, GraalPrefix()) && EndsWith(r.value, GraalSuffix)
  {
    match Platform(t)
    case Ok((os, arch)) =>
      var o := GraalOsName(os).value;
      var a := GraalArchName(arch).value;
      var url := GraalPrefix() + o + "-" + a + GraalSuffix;
      assert url[..|GraalPrefix()|] == GraalPrefix();
      assert url[|url| - |GraalSuffix|..] == GraalSuffix;
      Ok(url)
    case _ => Panic
  }

  /** The GraalVM asset names the target, `darwin` standing for macOS. */
  lemma GraalvmUrlIdentifiesTarget(t: Target, u: Target)
    requires GraalvmUrl(t).Ok? && GraalvmUrl(t) == GraalvmUrl(u)
    ensures t == u
  {
    var (o1, a1) := Platform(t).value;
    var (o2, a2) := Platform(u).value;
    PlatformNamesDistinct();
    FormatDistinguishes(GraalPrefix(), "-", GraalSuffix, ["windows", "linux", "darwin"], ["x64", "aarch64"],
                        GraalOsName(o1).value, a1, GraalOsName(o2).value, a2);
  }

  // ---------------------------------------------------------------------------
  // Installed distributions

  /** Where distribution `distro` is unpacked, and what `java_installed`
      probes: the lower-cased name under the JVM directory. */
  function InstallDir(distro: string): (p: Path)
    ensures Within(p, JavaDir) && |p| == |JavaDir| + 1 && p[|JavaDir|] == Lower(distro)
  {
    JavaDir + [Lower(distro)]
  }

  /** The temporary download: `<java dir>/<lower-cased name>.zip`. */
  function ZipPath(distro: string): (p: Path)
    ensures Within(p, JavaDir) && |p| == |JavaDir| + 1 && p[|JavaDir|] == Lower(distro) + ".zip"
  {
    JavaDir + [Lower(distro) + ".zip"]
  }

  /** The download never lands inside the directory it is unpacked into. */
  lemma ZipOutsideInstallDir(distro: string)
    ensures !Within(ZipPath(distro), InstallDir(distro))
  {
    assert ZipPath(distro)[|JavaDir|] != InstallDir(distro)[|JavaDir|] by {
      assert |Lower(distro) + ".zip"| != |Lower(distro)|;
    }
  }

  /** `java_installed(distro)`: whether the distribution's directory exists;
      `probe` answers `fs::exists`, and an error counts as absent. The
      check ignores the case of the name. */
  function JavaInstalled(distro: string, probe: Path -> Outcome<bool>): (r: bool)
    ensures r <==> probe(InstallDir(distro)) == Ok(true)
  {
    match probe(InstallDir(distro))
    case Ok(b) => b
    case _ => false
  }

  /** The executable `launch_jar` runs lies inside the directory
      `java_installed` probes and `install_java` unpacks into. */
  lemma LauncherUsesInstallDir(jvm: string, windows: bool)
    ensures Within(Benchmark.JvmExecutable(jvm, windows), InstallDir(jvm))
  {
  }

  // ---------------------------------------------------------------------------
  // Unpacking

  /** One item of the archive as the zip reader yields it: an item it cannot
      read, or one with its sanitised path split into components, a
      directory flag and the Unix mode it records, if any. */
  datatype ZipEntry = BadEntry | ZipItem(path: Path, isDir: bool, mode: Option<nat>)

  /** The downloaded file as the zip reader sees it. */
  datatype ZipFile = NotZip | Zip(entries: seq<ZipEntry>)

  /** Where an entry is written: its path without its own first component,
      below the output directory. */
  function OutPath(outDir: Path, path: Path): (p: Path)
    ensures Within(p, outDir) && |p| == |outDir| + (if |path| == 0 then 0 else |path| - 1)
    ensures |path| > 0 ==> p[|outDir|..] == path[1..]
  {
    if |path| == 0 then outDir else outDir + path[1..]
  }

  /** The actions that unpack one readable entry: a directory is created
      with its ancestors; a file gets its parent directory, then is created
      and filled, then, on Unix and when the archive records a mode, gets
      that mode. */
  function EntryPlan(outDir: Path, e: ZipEntry, unix: bool): (plan: seq<Effect>)
    requires e.ZipItem?
    ensures |plan| >= 1
    ensures e.isDir <==> plan == [CreateDirAll(OutPath(outDir, e.path))]
    ensures !e.isDir ==> CreateFile(OutPath(outDir, e.path)) in plan && WriteData(OutPath(outDir, e.path)) in plan
  {
    var out := OutPath(outDir, e.path);
    if e.isDir then [CreateDirAll(out)]
    else
      (match Parent(out) case Some(up) => [CreateDirAll(up)] case None => [])
      + [CreateFile(out), WriteData(out)]
      + (if unix && e.mode.Some? then [SetMode(out, e.mode.value)] else [])
  }

  /** A file entry is unpacked in a fixed order: its parent directory, the
      file, its contents, and last its mode when there is one to set. */
  lemma EntryPlanOrder(outDir: Path, e: ZipEntry, unix: bool)
    requires e.ZipItem? && !e.isDir
    ensures var out := OutPath(outDir, e.path);
      var plan := EntryPlan(outDir, e, unix);
      |out| > 0 ==>
        && |plan| >= 3
        && plan[..3] == [CreateDirAll(out[..|out| - 1]), CreateFile(out), WriteData(out)]
        && (|plan| == 4 <==> unix && e.mode.Some?)
        && (|plan| == 4 ==> plan[3] == SetMode(out, e.mode.value))
  {
  }

  /** The first loop of `extract_zip`: the first component of the first
      entry with one, reading entries in order; an unreadable entry before it
      is invalid data, and so is an archive without one ("Empty zip"). */
  function TopLevel(entries: seq<ZipEntry>): (r: Outcome<string>)
    ensures !r.Panic?
    ensures r.Err? ==> r.kind == InvalidData
    ensures r.Ok? ==> exists k :: 0 <= k < |entries| && entries[k].ZipItem? && |entries[k].path| > 0
                                  && entries[k].path[0] == r.value
    ensures (forall k :: 0 <= k < |entries| ==> entries[k].ZipItem? && |entries[k].path| == 0) ==> r.Err?
  {
    if |entries| == 0 then Err(InvalidData)
    else if entries[0].BadEntry? then Err(InvalidData)
    else if |entries[0].path| > 0 then Ok(entries[0].path[0])
    else
      var r := TopLevel(entries[1..]);
      if r.Ok? then
        var k :| 1 <= k + 1 < |entries| && entries[1..][k].ZipItem? && |entries[1..][k].path| > 0 && entries[1..][k].path[0] == r.value;
        assert entries[k + 1] == entries[1..][k];
        r
      else r
  }

  /** What unpacking did: the actions attempted, in order, and the result. */
  datatype Run = Run(trace: seq<Effect>, result: Outcome<()>)

  predicate AllReadable(entries: seq<ZipEntry>) {
    forall k :: 0 <= k < |entries| ==> entries[k].ZipItem?
  }

  /** The oracle lets every action of `plan` succeed. */
  predicate AllOk(plan: seq<Effect>, ok: Effect -> bool) {
    forall k :: 0 <= k < |plan| ==> ok(plan[k])
  }

  /** The plans of readable entries, one after another. */
  function Plans(outDir: Path, entries: seq<ZipEntry>, unix: bool): seq<Effect>
    requires AllReadable(entries)
  {
    if |entries| == 0 then []
    else
      assert AllReadable(entries[1..]) by {
        forall k | 0 <= k < |entries| - 1 ensures entries[1..][k].ZipItem? {
          assert entries[1..][k] == entries[k + 1];
        }
      }
      EntryPlan(outDir, entries[0], unix) + Plans(outDir, entries[1..], unix)
  }

  /** The second loop of `extract_zip`: each entry in order is unpacked; an
      unreadable entry stops it with invalid data, and a failed action stops
      it with that action's error. */
  function ExtractEntries(outDir: Path, entries: seq<ZipEntry>, unix: bool, ok: Effect -> bool): (r: Run)
    ensures !r.result.Panic?
    ensures r.result.Err? && r.result.kind == InvalidData ==> !AllReadable(entries)
  {
    if |entries| == 0 then Run([], Ok(()))
    else if entries[0].BadEntry? then Run([], Err(InvalidData))
    else
      var (done, allOk) := Perform(EntryPlan(outDir, entries[0], unix), ok);
      if !allOk then Run(done, Err(Os))
      else
        var rest := ExtractEntries(outDir, entries[1..], unix, ok);
        assert rest.result.Err? && rest.result.kind == InvalidData ==> !AllReadable(entries) by {
          if AllReadable(entries) {
            assert forall k :: 0 <= k < |entries| - 1 ==> entries[1..][k] == entries[k + 1];
          }
        }
        Run(done + rest.trace, rest.result)
  }

  /** The second loop succeeds exactly when every entry is readable and every
      unpacking action succeeds, and then it has attempted the plans of all
      entries, in order. */
  lemma {:induction false} ExtractEntriesSucceeds(outDir: Path, entries: seq<ZipEntry>, unix: bool, ok: Effect -> bool)
    ensures var r := ExtractEntries(outDir, entries, unix, ok);
      && (r.result.Ok? <==> AllReadable(entries) && AllOk(Plans(outDir, entries, unix), ok))
      && (r.result.Ok? ==> r.trace == Plans(outDir, entries, unix))
  {
    if |entries| > 0 {
      var tail := entries[1..];
      assert forall k :: 0 <= k < |tail| ==> tail[k] == entries[k + 1];
      ExtractEntriesSucceeds(outDir, tail, unix, ok);
      if AllReadable(entries) {
        var head := EntryPlan(outDir, entries[0], unix);
        AllOkAppend(head, Plans(outDir, tail, unix), ok);
      }
    }
  }

  lemma AllOkAppend(a: seq<Effect>, b: seq<Effect>, ok: Effect -> bool)
    ensures AllOk(a + b, ok) <==> AllOk(a, ok) && AllOk(b, ok)
  {
    if AllOk(a, ok) && AllOk(b, ok) {
      forall k | 0 <= k < |a + b| ensures ok((a + b)[k]) {
        if k >= |a| {
          assert (a + b)[k] == b[k - |a|];
        }
      }
    }
    if AllOk(a + b, ok) {
      assert forall k :: 0 <= k < |a| ==> (a + b)[k] == a[k];
      assert forall k :: 0 <= k < |b| ==> (a + b)[|a| + k] == b[k];
    }
  }

  /** `extract_zip(zip_path, output_dir)`: open the download, read it as an
      archive, refuse an archive without a top-level component, unpack every
      entry, then delete the download. */
  function ExtractZip(zipPath: Path, outDir: Path, zip: ZipFile, unix: bool, ok: Effect -> bool): (r: Run)
    ensures !r.result.Panic?
    ensures |r.trace| >= 1 && r.trace[0] == OpenFile(zipPath)
    ensures r.result.Ok? ==> r.trace[|r.trace| - 1] == RemoveFile(zipPath)
  {
    if !ok(OpenFile(zipPath)) then Run([OpenFile(zipPath)], Err(Os))
    else match zip
      case NotZip => Run([OpenFile(zipPath)], Err(InvalidData))
      case Zip(entries) =>
        if !TopLevel(entries).Ok? then Run([OpenFile(zipPath)], Err(InvalidData))
        else
          var x := ExtractEntries(outDir, entries, unix, ok);
          if !x.result.Ok? then Run([OpenFile(zipPath)] + x.trace, x.result)
          else if !ok(RemoveFile(zipPath)) then Run([OpenFile(zipPath)] + x.trace + [RemoveFile(zipPath)], Err(Os))
          else Run([OpenFile(zipPath)] + x.trace + [RemoveFile(zipPath)], Ok(()))
  }

  /** An archive none of whose entries has a path component is refused as
      invalid data before anything is written. */
  lemma EmptyZipWritesNothing(zipPath: Path, outDir: Path, entries: seq<ZipEntry>, unix: bool, ok: Effect -> bool)
    requires forall k :: 0 <= k < |entries| ==> entries[k].ZipItem? && |entries[k].path| == 0
    ensures ExtractZip(zipPath, outDir, Zip(entries), unix, ok).result == (if ok(OpenFile(zipPath)) then Err(InvalidData) else Err(Os))
    ensures ExtractZip(zipPath, outDir, Zip(entries), unix, ok).trace == [OpenFile(zipPath)]
  {
  }

  /** The download is deleted only after every entry was unpacked: a
      deletion is attempted exactly when the archive opened, had a top-level
      component, every entry was readable and every unpacking action
      succeeded; and the whole extraction succeeds exactly when, moreover,
      the deletion does. */
  lemma {:induction false} RemovesZipOnlyAfterEveryEntry(zipPath: Path, outDir: Path, zip: ZipFile, unix: bool, ok: Effect -> bool)
    requires !Within(zipPath, outDir)
    ensures var r := ExtractZip(zipPath, outDir, zip, unix, ok);
      var unpacked := ok(OpenFile(zipPath)) && zip.Zip? && TopLevel(zip.entries).Ok?
                      && ExtractEntries(outDir, zip.entries, unix, ok).result.Ok?;
      && (RemoveFile(zipPath) in r.trace <==> unpacked)
      && (r.result.Ok? <==> unpacked && ok(RemoveFile(zipPath)))
  {
    var r := ExtractZip(zipPath, outDir, zip, unix, ok);
    if ok(OpenFile(zipPath)) && zip.Zip? && TopLevel(zip.entries).Ok? {
      var x := ExtractEntries(outDir, zip.entries, unix, ok);
      EntriesStayInside(outDir, zip.entries, unix, ok);
      assert RemoveFile(zipPath) !in x.trace by {
        forall k | 0 <= k < |x.trace| ensures x.trace[k] != RemoveFile(zipPath) {
          assert Inside(x.trace[k], outDir);
        }
      }
    }
  }

  /** Where an unpacking action may land: inside the output directory, or,
      for the parent of an entry written at the output directory itself, the
      directory containing it. Unpacking sends no message. */
  predicate Inside(e: Effect, outDir: Path) {
    && !e.Send?
    && (Fallible(e) ==> Within(e.path, outDir) || (e.CreateDirAll? && |outDir| > 0 && e.path == outDir[..|outDir| - 1]))
  }

  predicate TraceInside(trace: seq<Effect>, outDir: Path) {
    forall k :: 0 <= k < |trace| ==> Inside(trace[k], outDir)
  }

  lemma TraceInsideAppend(a: seq<Effect>, b: seq<Effect>, outDir: Path)
    requires TraceInside(a, outDir) && TraceInside(b, outDir)
    ensures TraceInside(a + b, outDir)
  {
    forall k | 0 <= k < |a + b| ensures Inside((a + b)[k], outDir) {
      if k >= |a| {
        assert (a + b)[k] == b[k - |a|];
      }
    }
  }

  lemma EntryPlanInside(outDir: Path, e: ZipEntry, unix: bool)
    requires e.ZipItem?
    ensures TraceInside(EntryPlan(outDir, e, unix), outDir)
  {
    var out := OutPath(outDir, e.path);
    var plan := EntryPlan(outDir, e, unix);
    if e.isDir {
      assert plan == [CreateDirAll(out)];
    } else {
      var pre := match Parent(out) case Some(up) => [CreateDirAll(up)] case None => [];
      var body := [CreateFile(out), WriteData(out)];
      var tail := if unix && e.mode.Some? then [SetMode(out, e.mode.value)] else [];
      assert plan == pre + body + tail;
      assert TraceInside(pre, outDir) by {
        if |out| > |outDir| {
          var up := out[..|out| - 1];
          assert up[..|outDir|] == out[..|outDir|];
          assert Within(up, outDir);
        } else if |out| > 0 {
          assert out == outDir;
        }
      }
      assert TraceInside(body, outDir);
      assert TraceInside(tail, outDir);
      TraceInsideAppend(pre, body, outDir);
      TraceInsideAppend(pre + body, tail, outDir);
    }
  }

  /** Every action of the second loop stays in the output directory (or
      makes the directory that contains it). */
  lemma {:induction false} EntriesStayInside(outDir: Path, entries: seq<ZipEntry>, unix: bool, ok: Effect -> bool)
    ensures TraceInside(ExtractEntries(outDir, entries, unix, ok).trace, outDir)
  {
    if |entries| > 0 && entries[0].ZipItem? {
      var plan := EntryPlan(outDir, entries[0], unix);
      EntryPlanInside(outDir, entries[0], unix);
      var done := Perform(plan, ok).0;
      assert TraceInside(done, outDir) by {
        assert forall k :: 0 <= k < |done| ==> done[k] == plan[k];
      }
      if Perform(plan, ok).1 {
        EntriesStayInside(outDir, entries[1..], unix, ok);
        TraceInsideAppend(done, ExtractEntries(outDir, entries[1..], unix, ok).trace, outDir);
      }
    }
  }

  /** The action touches the download, or stays in the output directory. */
  predicate ZipOrInside(e: Effect, zipPath: Path, outDir: Path) {
    (Fallible(e) && e.path == zipPath) || Inside(e, outDir)
  }

  predicate Confined(trace: seq<Effect>, zipPath: Path, outDir: Path) {
    forall k :: 0 <= k < |trace| ==> ZipOrInside(trace[k], zipPath, outDir)
  }

  lemma ConfinedAppend(a: seq<Effect>, b: seq<Effect>, zipPath: Path, outDir: Path)
    requires Confined(a, zipPath, outDir) && Confined(b, zipPath, outDir)
    ensures Confined(a + b, zipPath, outDir)
  {
    forall k | 0 <= k < |a + b| ensures ZipOrInside((a + b)[k], zipPath, outDir) {
      if k >= |a| {
        assert (a + b)[k] == b[k - |a|];
      }
    }
  }

  lemma InsideIsConfined(trace: seq<Effect>, zipPath: Path, outDir: Path)
    requires TraceInside(trace, outDir)
    ensures Confined(trace, zipPath, outDir)
  {
  }

  /** Every action of `extract_zip` touches the download or stays in the
      output directory (or makes the directory that contains it), and none
      sends a message. */
  lemma {:induction false} ExtractZipStaysInside(zipPath: Path, outDir: Path, zip: ZipFile, unix: bool, ok: Effect -> bool)
    ensures Confined(ExtractZip(zipPath, outDir, zip, unix, ok).trace, zipPath, outDir)
  {
    var r := ExtractZip(zipPath, outDir, zip, unix, ok);
    var start := [OpenFile(zipPath)];
    assert Confined(start, zipPath, outDir);
    if ok(OpenFile(zipPath)) && zip.Zip? && TopLevel(zip.entries).Ok? {
      var x := ExtractEntries(outDir, zip.entries, unix, ok);
      EntriesStayInside(outDir, zip.entries, unix, ok);
      InsideIsConfined(x.trace, zipPath, outDir);
      ConfinedAppend(start, x.trace, zipPath, outDir);
      var removed := [RemoveFile(zipPath)];
      assert Confined(removed, zipPath, outDir);
      ConfinedAppend(start + x.trace, removed, zipPath, outDir);
      assert r.trace == start + x.trace || r.trace == start + x.trace + removed;
    } else {
      assert r.trace == start;
    }
  }

  /** Each entry drops its own first component, whatever it is: renaming
      the first component of every entry changes nothing that is unpacked. */
  lemma {:induction false} TopLevelNameIrrelevant(outDir: Path, entries: seq<ZipEntry>, renamed: seq<ZipEntry>, unix: bool,
                                                 ok: Effect -> bool)
    requires |renamed| == |entries|
    requires forall k :: 0 <= k < |entries| ==>
      (entries[k].BadEntry? <==> renamed[k].BadEntry?)
      && (entries[k].ZipItem? ==>
            && entries[k].isDir == renamed[k].isDir && entries[k].mode == renamed[k].mode
            && |entries[k].path| == |renamed[k].path|
            && (|entries[k].path| > 0 ==> entries[k].path[1..] == renamed[k].path[1..]))
    ensures ExtractEntries(outDir, entries, unix, ok) == ExtractEntries(outDir, renamed, unix, ok)
  {
    if |entries| > 0 {
      if entries[0].ZipItem? {
        assert OutPath(outDir, entries[0].path) == OutPath(outDir, renamed[0].path);
        assert EntryPlan(outDir, entries[0], unix) == EntryPlan(outDir, renamed[0], unix);
      }
      TopLevelNameIrrelevant(outDir, entries[1..], renamed[1..], unix, ok);
    }
  }

  // ---------------------------------------------------------------------------
  // Installing a distribution

  /** What the Azul API answers: the request fails, or a reply arrives with
      an HTTP status and, if the body decodes as the expected JSON, the
      package address it names. */
  datatype AzulReply = RequestFailed | Reply(status: nat, url: Option<string>)

  predicate IsSuccess(status: nat) {
    200 <= status < 300
  }

  /** The three distribution names `install_java` knows, spelled exactly. */
  predicate KnownDistro(distro: string) {
    distro == "Azul" || distro == "Adoptium" || distro == "Graalvm"
  }

  /** The package address of a distribution, with the API query it needs
      (Azul only) in the trace. */
  function PackageUrl(distro: string, t: Target, azul: AzulReply): (r: (seq<Effect>, Outcome<string>))
    ensures r.1.Panic? <==> !KnownDistro(distro) || !Supported(t)
    ensures r.1.Err? ==> r.1.kind == Other && distro == "Azul"
    ensures r.1.Panic? ==> r.0 == []
    ensures distro == "Adoptium" && Supported(t) ==> r == ([], AdoptiumUrl(t))
    ensures distro == "Graalvm" && Supported(t) ==> r == ([], GraalvmUrl(t))
    ensures distro == "Azul" && Supported(t) ==>
      && r.0 == [Get(AzulUrl(t).value)]
      && (r.1.Ok? <==> azul.Reply? && IsSuccess(azul.status) && azul.url.Some?)
      && (r.1.Ok? ==> r.1.value == azul.url.value)
  {
    if distro == "Azul" then
      match AzulUrl(t)
      case Ok(api) =>
        (match azul
         case RequestFailed => ([Get(api)], Err(Other))
         case Reply(status, url) =>
           if !IsSuccess(status) then ([Get(api)], Err(Other))
           else if url.None? then ([Get(api)], Err(Other))
           else ([Get(api)], Ok(url.value)))
      case _ => ([], Panic)
    else if distro == "Adoptium" then ([], AdoptiumUrl(t))
    else if distro == "Graalvm" then ([], GraalvmUrl(t))
    else ([], Panic)
  }

  /** The rest of `install_java` once the package address is known:
      download it (the body either arrives or the transfer fails), save it as
      the temporary zip, and unpack it into the distribution's directory. */
  function FetchAndUnpack(distro: string, query: seq<Effect>, url: Outcome<string>, downloaded: bool, zip: ZipFile,
                          unix: bool, ok: Effect -> bool): (r: Run)
    ensures r.result.Panic? <==> url.Panic?
    ensures !url.Ok? ==> r.trace == query
    ensures r.result.Ok? ==> url.Ok? && downloaded && ok(CreateFile(ZipPath(distro))) && ok(WriteData(ZipPath(distro)))
    ensures r.result.Ok? ==> |r.trace| > 0 && r.trace[|r.trace| - 1] == RemoveFile(ZipPath(distro))
  {
    if !url.Ok? then Run(query, url.Forward())
    else
      var fetched := query + [Get(url.value)];
      if !downloaded then Run(fetched, Err(Other))
      else
        var save := [CreateFile(ZipPath(distro)), WriteData(ZipPath(distro))];
        var saved := Perform(save, ok);
        if !saved.1 then Run(fetched + saved.0, Err(Os))
        else
          assert ok(save[0]) && ok(save[1]);
          var x := ExtractZip(ZipPath(distro), InstallDir(distro), zip, unix, ok);
          Run(fetched + saved.0 + x.trace, x.result)
  }

  /** `install_java(distro)`: the package address, then the download and
      unpacking. Only the three distribution names are known; any other name
      panics before anything is attempted. */
  function InstallJava(distro: string, t: Target, azul: AzulReply, downloaded: bool, zip: ZipFile, unix: bool,
                       ok: Effect -> bool): (r: Run)
    ensures r.result.Panic? <==> !KnownDistro(distro) || !Supported(t)
    ensures r.result.Panic? ==> r.trace == []
    ensures r.result.Ok? ==> downloaded && ok(CreateFile(ZipPath(distro))) && ok(WriteData(ZipPath(distro)))
    ensures r.result.Ok? ==> |r.trace| > 0 && r.trace[|r.trace| - 1] == RemoveFile(ZipPath(distro))
  {
    var p := PackageUrl(distro, t, azul);
    assert p.1.Panic? ==> p.0 == [];
    FetchAndUnpack(distro, p.0, p.1, downloaded, zip, unix, ok)
  }

  /** The distribution names are matched exactly: a name that differs from
      the three only in case panics. */
  lemma DistroNamesCaseSensitive(t: Target, azul: AzulReply, downloaded: bool, zip: ZipFile, unix: bool, ok: Effect -> bool)
    ensures InstallJava("azul", t, azul, downloaded, zip, unix, ok).result.Panic?
  {
    assert "azul" != "Azul";
  }

  /** Every filesystem action of an install keeps to the lower-cased name:
      the temporary zip, the distribution's directory, or the JVM directory
      that contains both; and installing sends no message. */
  lemma {:induction false} InstallKeysOnLowerCase(distro: string, t: Target, azul: AzulReply, downloaded: bool, zip: ZipFile, unix: bool,
                               ok: Effect -> bool)
    ensures KeyedOn(InstallJava(distro, t, azul, downloaded, zip, unix, ok).trace, distro)
  {
    var p := PackageUrl(distro, t, azul);
    assert forall k :: 0 <= k < |p.0| ==> p.0[k].Get?;
    FetchKeysOnLowerCase(distro, p.0, p.1, downloaded, zip, unix, ok);
  }

  /** The action touches the temporary zip, the distribution's directory,
      or the JVM directory. */
  predicate KeyedOn(trace: seq<Effect>, distro: string) {
    forall k :: 0 <= k < |trace| ==> KeyedStep(trace[k], distro)
  }

  predicate KeyedStep(e: Effect, distro: string) {
    && !e.Send?
    && (Fallible(e) ==> e.path == ZipPath(distro) || Within(e.path, InstallDir(distro)) || e.path == JavaDir)
  }

  lemma {:induction false} FetchKeysOnLowerCase(distro: string, query: seq<Effect>, url: Outcome<string>, downloaded: bool, zip: ZipFile,
                             unix: bool, ok: Effect -> bool)
    requires forall k :: 0 <= k < |query| ==> query[k].Get?
    ensures KeyedOn(FetchAndUnpack(distro, query, url, downloaded, zip, unix, ok).trace, distro)
  {
    if url.Ok? && downloaded {
      var fetched := query + [Get(url.value)];
      var save := [CreateFile(ZipPath(distro)), WriteData(ZipPath(distro))];
      var saved := Perform(save, ok);
      assert forall k :: 0 <= k < |saved.0| ==> saved.0[k] == save[k];
      var head := fetched + saved.0;
      assert KeyedOn(head, distro) by {
        assert forall k :: 0 <= k < |head| ==> if k < |fetched| then head[k] == fetched[k] else head[k] == saved.0[k - |fetched|];
      }
      if saved.1 {
        var x := ExtractZip(ZipPath(distro), InstallDir(distro), zip, unix, ok);
        ExtractZipStaysInside(ZipPath(distro), InstallDir(distro), zip, unix, ok);
        assert InstallDir(distro)[..|InstallDir(distro)| - 1] == JavaDir;
        assert KeyedOn(x.trace, distro) by {
          forall k | 0 <= k < |x.trace| ensures KeyedStep(x.trace[k], distro) {
            assert ZipOrInside(x.trace[k], ZipPath(distro), InstallDir(distro));
          }
        }
        KeyedOnAppend(head, x.trace, distro);
      }
    }
  }

  lemma KeyedOnAppend(a: seq<Effect>, b: seq<Effect>, distro: string)
    requires KeyedOn(a, distro) && KeyedOn(b, distro)
    ensures KeyedOn(a + b, distro)
  {
    assert forall k :: |a| <= k < |a + b| ==> (a + b)[k] == b[k - |a|];
  }
}
