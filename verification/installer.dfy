/** `src/io.rs`: the version lists offered to the user, the installed-version
    check, the EULA rewrite, and the three-step server installation the
    worker thread runs before it hands over to the mod phase. */
module Installer {

  import opened Outcomes
  import opened Text
  import opened Paths
  import opened Effects
  import opened Benchmark
  import opened Java

  // ---------------------------------------------------------------------------
  // Version lists

  /** One element of the versions array: its `stable` field, if it is a
      boolean, and its `version` field, if it is a string. */
  datatype VersionEntry = VersionEntry(stable: Option<bool>, version: Option<string>)

  /** What the metadata request gives: a failed request or body, a body that
      is not JSON, JSON that is not an array, or the array. */
  datatype VersionsReply = FetchFailed | NotJson | NotArray | Versions(entries: seq<VersionEntry>)

  const GameVersionsUrl: string := "https://meta.fabricmc.net/v2/versions/game"
  const LoaderVersionsUrl: string := "https://meta.fabricmc.net/v2/versions/loader"

  /** Every entry has a boolean `stable`, and every stable one a string
      `version`: nothing in the loop unwraps a missing field. */
  predicate WellFormed(entries: seq<VersionEntry>) {
    forall k :: 0 <= k < |entries| ==>
      entries[k].stable.Some? && (entries[k].stable.value ==> entries[k].version.Some?)
  }

  /** The loop over the array, read from the front: a stable entry
      contributes its version, an unstable one nothing, and a missing field
      that is unwrapped panics. */
  function StableVersions(entries: seq<VersionEntry>): (r: Outcome<seq<string>>)
    ensures !r.Err?
    ensures r.Ok? <==> WellFormed(entries)
    ensures r.Ok? ==> forall v :: v in r.value <==>
      exists k :: 0 <= k < |entries| && entries[k].stable == Some(true) && entries[k].version == Some(v)
  {
    if |entries| == 0 then Ok([])
    else
      var rest := StableVersions(entries[1..]);
      assert forall k :: 0 <= k < |entries| - 1 ==> entries[1..][k] == entries[k + 1];
      match entries[0].stable
      case None => Panic
      case Some(false) => rest
      case Some(true) =>
        if entries[0].version.None? then Panic
        else if rest.Ok? then Ok([entries[0].version.value] + rest.value)
        else Panic
  }

  /** One entry gives its version when it is stable and nothing when it is
      not; with `StableVersionsAppend` this fixes the whole list, each
      stable entry contributing its version once, in input order. */
  lemma StableVersionsOne(e: VersionEntry)
    requires e.stable.Some? && (e.stable.value ==> e.version.Some?)
    ensures StableVersions([e]) == Ok(if e.stable == Some(true) then [e.version.value] else [])
  {
    assert [e][1..] == [];
    assert StableVersions([e][1..]) == Ok([]);
    if e.stable == Some(true) {
      assert [e.version.value] + [] == [e.version.value];
    }
  }

  /** The list keeps the input order: the versions of two arrays one after
      the other are the versions of each, one after the other. */
  lemma {:induction false} StableVersionsAppend(a: seq<VersionEntry>, b: seq<VersionEntry>)
    requires WellFormed(a) && WellFormed(b)
    ensures StableVersions(a + b) == Ok(StableVersions(a).value + StableVersions(b).value)
  {
    if |a| == 0 {
      assert a + b == b;
      assert StableVersions(a) == Ok([]);
      assert [] + StableVersions(b).value == StableVersions(b).value;
    } else {
      assert (a + b)[1..] == a[1..] + b;
      assert (a + b)[0] == a[0];
      assert WellFormed(a[1..]) by {
        assert forall k :: 0 <= k < |a| - 1 ==> a[1..][k] == a[k + 1];
      }
      StableVersionsAppend(a[1..], b);
      var x, y := StableVersions(a[1..]).value, StableVersions(b).value;
      if a[0].stable == Some(true) {
        var v := a[0].version.value;
        assert [v] + (x + y) == ([v] + x) + y;
      }
    }
  }

  /** The loop of `get_minecraft_versions` and `get_fabric_loader_versions`,
      statement by statement. */
  method CollectStable(entries: seq<VersionEntry>) returns (r: Outcome<seq<string>>)
    ensures r == StableVersions(entries)
  {
    var output: seq<string> := [];
    var i := 0;
    assert entries[i..] == entries;
    assert StableVersions(entries).Ok? ==> output + StableVersions(entries).value == StableVersions(entries).value;
    while i < |entries|
      invariant 0 <= i <= |entries|
      invariant StableVersions(entries) == match StableVersions(entries[i..])
                                            case Ok(rest) => Ok(output + rest)
                                            case _ => Panic
    {
      assert entries[i..][1..] == entries[i + 1..];
      var entry := entries[i];
      if entry.stable.None? {
        return Panic;
      }
      if entry.stable.value {
        if entry.version.None? {
          return Panic;
        }
        if StableVersions(entries[i + 1..]).Ok? {
          assert output + ([entry.version.value] + StableVersions(entries[i + 1..]).value)
              == (output + [entry.version.value]) + StableVersions(entries[i + 1..]).value;
        }
        output := output + [entry.version.value];
      }
      i := i + 1;
    }
    assert entries[i..] == [];
    assert output + [] == output;
    r := Ok(output);
  }

  /** `get_minecraft_versions()` and `get_fabric_loader_versions()`: one GET
      of the metadata list; any failure to obtain the array panics. */
  function GetVersions(url: string, reply: VersionsReply): (r: (seq<Effect>, Outcome<seq<string>>))
    ensures r.0 == [Get(url)]
    ensures r.1.Ok? <==> reply.Versions? && WellFormed(reply.entries)
    ensures r.1.Ok? ==> r.1 == StableVersions(reply.entries)
    ensures !r.1.Ok? ==> r.1.Panic?
  {
    match reply
    case Versions(entries) => ([Get(url)], StableVersions(entries))
    case _ => ([Get(url)], Panic)
  }

  // ---------------------------------------------------------------------------
  // Installed versions

  /** An item of a directory listing: unreadable, or a named entry. */
  datatype Listed = Unreadable | Named(name: string)

  /** The server directory: it cannot be listed, or it lists these items. */
  datatype ServerFolder = Unlistable | Listing(items: seq<Listed>)

  /** The names of the readable items, in listing order. */
  function Names(items: seq<Listed>): (r: seq<string>)
    ensures forall n :: n in r <==> Named(n) in items
  {
    if |items| == 0 then []
    else
      assert items == [items[0]] + items[1..];
      (if items[0].Named? then [items[0].name] else []) + Names(items[1..])
  }

  /** `installed_minecraft_versions()`: the names in the server directory;
      a directory that cannot be listed makes `expect` panic. */
  function InstalledVersions(folder: ServerFolder): (r: Outcome<seq<string>>)
    ensures r.Ok? <==> folder.Listing?
    ensures !r.Ok? ==> r.Panic?
    ensures r.Ok? ==> forall n :: n in r.value <==> Named(n) in folder.items
  {
    if folder.Unlistable? then Panic else Ok(Names(folder.items))
  }

  /** `mc_ver_installed(version)`: some readable item of the server directory
      is named exactly `version`. */
  function McVerInstalled(version: string, folder: ServerFolder): (r: Outcome<bool>)
    ensures r.Ok? <==> folder.Listing?
    ensures !r.Ok? ==> r.Panic?
    ensures r.Ok? ==> (r.value <==> Named(version) in folder.items)
  {
    match InstalledVersions(folder)
    case Ok(names) => Ok(version in names)
    case _ => Panic
  }

  // ---------------------------------------------------------------------------
  // The EULA file

  /** `server_dir/<version>/eula.txt`. */
  function EulaPath(version: string): (p: Path)
    ensures Within(p, ServerDir + [version]) && |p| == |ServerDir| + 2 && p[|p| - 1] == "eula.txt"
  {
    ServerDir + [version, "eula.txt"]
  }

  const Accepted: string := "eula=true"

  /** The per-line rewrite: a line that starts with `eula=` once its leading
      whitespace is dropped becomes `eula=true`; any other line is kept. */
  function AcceptLine(line: string): (r: string)
    ensures '\n' !in line ==> '\n' !in r
    ensures r == line || r == Accepted
  {
    if StartsWith(TrimStart(line), "eula=") then Accepted else line
  }

  /** Rewriting a rewritten line changes nothing; in particular `eula=true`
      is kept. */
  lemma AcceptLineIdempotent(line: string)
    ensures AcceptLine(AcceptLine(line)) == AcceptLine(line)
    ensures AcceptLine(Accepted) == Accepted
  {
    assert !IsWhitespace(Accepted[0]);
    assert TrimStart(Accepted) == Accepted;
    assert Accepted[..5] == "eula=";
  }

  /** The lines of the text, each rewritten. */
  function AcceptLines(lines: seq<string>): (r: seq<string>)
    ensures |r| == |lines|
    ensures forall k :: 0 <= k < |lines| ==> r[k] == AcceptLine(lines[k])
  {
    seq(|lines|, k requires 0 <= k < |lines| => AcceptLine(lines[k]))
  }

  /** The body of `accept_minecraft_eula`: the text's `lines()`, each
      rewritten, joined with newlines. */
  function AcceptEula(contents: string): (r: string)
    ensures contents == "" ==> r == ""
  {
    Join(AcceptLines(Lines(contents)), "\n")
  }

  /** Cutting the rewritten text at its newlines gives back the lines of the
      original, in order and as many: each is `eula=true` exactly when the
      original line starts with `eula=` after its leading whitespace, and is
      the original line otherwise. */
  lemma {:induction false} AcceptEulaLines(contents: string)
    requires contents != ""
    ensures var out := SplitOn(AcceptEula(contents), '\n');
      && |out| == |Lines(contents)|
      && forall k :: 0 <= k < |out| ==>
           (if StartsWith(TrimStart(Lines(contents)[k]), "eula=") then out[k] == Accepted else out[k] == Lines(contents)[k])
  {
    var lines := Lines(contents);
    var accepted := AcceptLines(lines);
    assert forall k :: 0 <= k < |accepted| ==> '\n' !in accepted[k];
    SplitJoinRoundTrip(accepted, '\n');
  }

  /** Rewriting the lines twice is rewriting them once. */
  lemma AcceptLinesIdempotent(lines: seq<string>)
    ensures AcceptLines(AcceptLines(lines)) == AcceptLines(lines)
  {
    forall k | 0 <= k < |lines| ensures AcceptLines(AcceptLines(lines))[k] == AcceptLines(lines)[k] {
      AcceptLineIdempotent(lines[k]);
    }
  }

  /** `accept_minecraft_eula(path)` then `unwrap`, as `write_eula` calls it:
      read the file, write back the rewritten text; a failed read or write
      panics. `text` is what the read yields. */
  function AcceptEulaFile(path: Path, text: string, ok: Effect -> bool): (r: Run)
    ensures r.result.Ok? <==> ok(ReadText(path)) && ok(WriteText(path, AcceptEula(text)))
    ensures !r.result.Ok? ==> r.result.Panic?
    ensures r.result.Ok? ==> r.trace == [ReadText(path), WriteText(path, AcceptEula(text))]
  {
    var plan := [ReadText(path), WriteText(path, AcceptEula(text))];
    var (done, allOk) := Perform(plan, ok);
    assert allOk <==> ok(plan[0]) && ok(plan[1]);
    Run(done, if allOk then Ok(()) else Panic)
  }

  /** `write_eula(version)`: rewrite the EULA file when it exists. `present`
      answers the existence probe, whose error `unwrap` turns into a panic. */
  function WriteEula(version: string, present: Outcome<bool>, text: string, ok: Effect -> bool): (r: Run)
    ensures !r.result.Err?
    ensures present.Ok? && !present.value ==> r == Run([], Ok(()))
    ensures present == Ok(true) ==> r == AcceptEulaFile(EulaPath(version), text, ok)
    ensures !present.Ok? ==> r == Run([], Panic)
  {
    match present
    case Ok(true) => AcceptEulaFile(EulaPath(version), text, ok)
    case Ok(false) => Run([], Ok(()))
    case _ => Run([], Panic)
  }

  // ---------------------------------------------------------------------------
  // `install_fabric_server`

  /** What the server-jar request gives: no reply, or a status and whether
      the body then arrives. */
  datatype JarReply = NoReply | JarResponse(status: nat, bodyArrives: bool)

  /** Everything the installation depends on besides its arguments. */
  datatype World = World(
    serverFolder: ServerFolder,        // the server directory's listing
    jarReply: JarReply,                // the Fabric server-jar download
    javaProbe: Path -> Outcome<bool>,  // `fs::exists` for the JVM directory
    target: Target,                    // the build target
    azul: AzulReply,                   // the Azul API reply
    jdkArrives: bool,                  // whether the JDK download succeeds
    jdkZip: ZipFile,                   // the downloaded JDK archive
    unix: bool,                        // `cfg(unix)`
    windows: bool,                     // `cfg!(target_os = "windows")`
    eulaBefore: Outcome<bool>,         // `eula.txt` existence before the launch
    eulaAfter: Outcome<bool>,          // and after it
    eulaText: string,                  // the text of `eula.txt`
    ok: Effect -> bool)                // which filesystem actions succeed

  /** The Fabric meta address of the server jar for a game and loader
      version. */
  function ServerJarUrl(mcVer: string, fabricVer: string): string {
    "https://meta.fabricmc.net/v2/versions/loader/" + mcVer + "/" + fabricVer + "/1.1.0/server/jar"
  }

  /** The directory of a game version and its server jar. */
  function VersionDir(mcVer: string): Path {
    ServerDir + [mcVer]
  }

  function ServerJar(mcVer: string): Path {
    VersionDir(mcVer) + [JarName]
  }

  /** Step 1: unless the version is installed, announce it, request the jar,
      refuse an unsuccessful status, create the version directory and the jar
      file, then fetch the body and write it. */
  function InstallServer(mcVer: string, fabricVer: string, w: World): (r: Run)
  {
    match McVerInstalled(mcVer, w.serverFolder)
    case Ok(true) => Run([], Ok(()))
    case Ok(false) =>
      var asked := [Send(InstallingMsg("Installing Minecraft " + mcVer)), Get(ServerJarUrl(mcVer, fabricVer))];
      (match w.jarReply
       case NoReply => Run(asked, Err(Other))
       case JarResponse(status, bodyArrives) =>
         if !IsSuccess(status) then Run(asked, Err(Other))
         else
           var (made, madeOk) := Perform([CreateDir(VersionDir(mcVer)), CreateFile(ServerJar(mcVer))], w.ok);
           if !madeOk then Run(asked + made, Err(Os))
           else if !bodyArrives then Run(asked + made, Err(Other))
           else
             var (written, writtenOk) := Perform([WriteData(ServerJar(mcVer))], w.ok);
             Run(asked + made + written, if writtenOk then Ok(()) else Err(Os)))
    case _ => Run([], Panic)
  }

  /** The server is fetched only when its version is missing, and the
      version directory is created only after a successful status. */
  lemma ServerFetchedOnlyWhenMissing(mcVer: string, fabricVer: string, w: World)
    ensures var r := InstallServer(mcVer, fabricVer, w);
      && (Get(ServerJarUrl(mcVer, fabricVer)) in r.trace <==> McVerInstalled(mcVer, w.serverFolder) == Ok(false))
      && (CreateDir(VersionDir(mcVer)) in r.trace ==> w.jarReply.JarResponse? && IsSuccess(w.jarReply.status))
      && (McVerInstalled(mcVer, w.serverFolder) == Ok(true) ==> r == Run([], Ok(())))
  {
    var r := InstallServer(mcVer, fabricVer, w);
    if McVerInstalled(mcVer, w.serverFolder) == Ok(false) {
      var asked := [Send(InstallingMsg("Installing Minecraft " + mcVer)), Get(ServerJarUrl(mcVer, fabricVer))];
      assert r.trace[..2] == asked;
      assert r.trace[1] == Get(ServerJarUrl(mcVer, fabricVer));
      if CreateDir(VersionDir(mcVer)) in r.trace {
        assert CreateDir(VersionDir(mcVer)) !in asked;
      }
    }
  }

  /** Step 2: unless `java_installed` finds the distribution, announce it and
      install it. */
  function InstallJvm(jvm: string, w: World): (r: Run)
    ensures JavaInstalled(jvm, w.javaProbe) ==> r == Run([], Ok(()))
    ensures !JavaInstalled(jvm, w.javaProbe) ==>
      var j := InstallJava(jvm, w.target, w.azul, w.jdkArrives, w.jdkZip, w.unix, w.ok);
      r == Run([Send(InstallingMsg("Installing " + jvm + " JVM"))] + j.trace, j.result)
  {
    if JavaInstalled(jvm, w.javaProbe) then Run([], Ok(()))
    else
      var j := InstallJava(jvm, w.target, w.azul, w.jdkArrives, w.jdkZip, w.unix, w.ok);
      Run([Send(InstallingMsg("Installing " + jvm + " JVM"))] + j.trace, j.result)
  }

  /** Step 3: when `eula.txt` is missing, announce the libraries, run the
      server once (it writes the file and stops), then rewrite the file if
      it now exists. A failed existence probe panics. */
  function PrepareEula(mcVer: string, jvm: string, ram: U32, w: World): (r: Run)
    ensures !r.result.Err?
  {
    match w.eulaBefore
    case Ok(true) => Run([], Ok(()))
    case Ok(false) =>
      var launch := [Send(InstallingMsg("Installing Minecraft Libraries")),
                     LaunchJvm(LaunchCommand(mcVer, jvm, ram, [], w.windows))];
      var written := WriteEula(mcVer, w.eulaAfter, w.eulaText, w.ok);
      Run(launch + written.trace, written.result)
    case _ => Run([], Panic)
  }

  /** The server is launched to produce the EULA only when the file was
      missing, and the file is rewritten only when it exists after that
      launch. */
  lemma EulaLaunchOnlyWhenMissing(mcVer: string, jvm: string, ram: U32, w: World)
    ensures var r := PrepareEula(mcVer, jvm, ram, w);
      && (LaunchJvm(LaunchCommand(mcVer, jvm, ram, [], w.windows)) in r.trace <==> w.eulaBefore == Ok(false))
      && (WriteText(EulaPath(mcVer), AcceptEula(w.eulaText)) in r.trace ==> w.eulaBefore == Ok(false) && w.eulaAfter == Ok(true))
  {
    var r := PrepareEula(mcVer, jvm, ram, w);
    if w.eulaBefore == Ok(false) {
      var launch := [Send(InstallingMsg("Installing Minecraft Libraries")),
                     LaunchJvm(LaunchCommand(mcVer, jvm, ram, [], w.windows))];
      var written := WriteEula(mcVer, w.eulaAfter, w.eulaText, w.ok);
      assert r.trace == launch + written.trace;
      assert r.trace[1] == launch[1];
      if w.eulaAfter != Ok(true) {
        assert written.trace == [];
        assert r.trace == launch;
      }
    }
  }

  /** The three steps in order, each followed by its progress milestone;
      the first failure ends the installation, and the later steps are then
      not attempted: their traces do not appear. */
  function Sequence(server: Run, java: Run, eula: Run): (r: Run)
  {
    if !server.result.Ok? then server
    else
      var t1 := server.trace + [Send(Progress(ServerReady))];
      if !java.result.Ok? then Run(t1 + java.trace, java.result)
      else
        var t2 := t1 + java.trace + [Send(Progress(JvmReady))];
        if !eula.result.Ok? then Run(t2 + eula.trace, eula.result)
        else Run(t2 + eula.trace + [Send(Progress(Complete))], Ok(()))
  }

  /** `install_fabric_server`: the server, the JVM, then the EULA. */
  function InstallFabricServer(mcVer: string, fabricVer: string, jvm: string, ram: U32, w: World): (r: Run)
  {
    Sequence(InstallServer(mcVer, fabricVer, w), InstallJvm(jvm, w), PrepareEula(mcVer, jvm, ram, w))
  }

  /** The worker thread: install, and on success tell the UI to start the
      mod phase. A panic ends the thread without a message. */
  function Worker(mcVer: string, fabricVer: string, jvm: string, ram: U32, w: World): (trace: seq<Effect>)
  {
    HandOver(InstallFabricServer(mcVer, fabricVer, jvm, ram, w))
  }

  /** What the worker sends after the installation: the mod-phase status on
      success, nothing otherwise. */
  function HandOver(r: Run): (trace: seq<Effect>)
  {
    if r.result.Ok? then r.trace + [Send(StatusMsg(InstallMod))] else r.trace
  }

  // ---------------------------------------------------------------------------
  // Progress and status messages

  /** The trace sends neither a progress value nor a status. */
  predicate Quiet(trace: seq<Effect>) {
    forall k :: 0 <= k < |trace| ==> !(trace[k].Send? && (trace[k].msg.Progress? || trace[k].msg.StatusMsg?))
  }

  lemma {:induction false} QuietSendsNoProgress(trace: seq<Effect>)
    requires Quiet(trace)
    ensures ProgressSent(trace) == []
  {
    if |trace| > 0 {
      assert Quiet(trace[1..]) by {
        assert forall k :: 0 <= k < |trace| - 1 ==> trace[1..][k] == trace[k + 1];
      }
      QuietSendsNoProgress(trace[1..]);
    }
  }

  lemma QuietAppend(a: seq<Effect>, b: seq<Effect>)
    requires Quiet(a) && Quiet(b)
    ensures Quiet(a + b)
  {
    assert forall k :: |a| <= k < |a + b| ==> (a + b)[k] == b[k - |a|];
  }

  lemma ServerStepQuiet(mcVer: string, fabricVer: string, w: World)
    ensures Quiet(InstallServer(mcVer, fabricVer, w).trace)
  {
  }

  lemma KeyedIsQuiet(trace: seq<Effect>, distro: string)
    requires KeyedOn(trace, distro)
    ensures Quiet(trace)
  {
    assert forall k :: 0 <= k < |trace| ==> KeyedStep(trace[k], distro);
  }

  lemma {:induction false} JvmStepQuiet(jvm: string, w: World)
    ensures Quiet(InstallJvm(jvm, w).trace)
  {
    if !JavaInstalled(jvm, w.javaProbe) {
      var j := InstallJava(jvm, w.target, w.azul, w.jdkArrives, w.jdkZip, w.unix, w.ok);
      InstallKeysOnLowerCase(jvm, w.target, w.azul, w.jdkArrives, w.jdkZip, w.unix, w.ok);
      KeyedIsQuiet(j.trace, jvm);
      QuietAppend([Send(InstallingMsg("Installing " + jvm + " JVM"))], j.trace);
    }
  }

  lemma AcceptEulaFileQuiet(path: Path, text: string, ok: Effect -> bool)
    ensures Quiet(AcceptEulaFile(path, text, ok).trace)
  {
    var plan := [ReadText(path), WriteText(path, AcceptEula(text))];
    var done := Perform(plan, ok).0;
    assert forall k :: 0 <= k < |done| ==> done[k] == plan[k];
  }

  lemma EulaStepQuiet(mcVer: string, jvm: string, ram: U32, w: World)
    ensures Quiet(PrepareEula(mcVer, jvm, ram, w).trace)
  {
    if w.eulaBefore == Ok(false) {
      var launch := [Send(InstallingMsg("Installing Minecraft Libraries")),
                     LaunchJvm(LaunchCommand(mcVer, jvm, ram, [], w.windows))];
      var written := WriteEula(mcVer, w.eulaAfter, w.eulaText, w.ok);
      AcceptEulaFileQuiet(EulaPath(mcVer), w.eulaText, w.ok);
      assert Quiet(written.trace);
      assert Quiet(launch);
      QuietAppend(launch, written.trace);
      assert PrepareEula(mcVer, jvm, ram, w).trace == launch + written.trace;
    }
  }

  /** Appending a quiet trace sends no further progress value. */
  lemma QuietKeepsProgress(pre: seq<Effect>, step: seq<Effect>)
    requires Quiet(step)
    ensures ProgressSent(pre + step) == ProgressSent(pre)
  {
    QuietSendsNoProgress(step);
    ProgressSentAppend(pre, step);
  }

  /** Sending a milestone adds it to the progress values sent. */
  lemma MarkProgress(pre: seq<Effect>, m: Milestone)
    ensures ProgressSent(pre + [Send(Progress(m))]) == ProgressSent(pre) + [m]
  {
    ProgressSentAppend(pre, [Send(Progress(m))]);
  }

  /** With quiet steps, the progress values sent are a prefix of the three
      milestones, all three exactly on success, and the second only after
      the first two steps succeeded. */
  lemma SequenceProgress(server: Run, java: Run, eula: Run)
    requires Quiet(server.trace) && Quiet(java.trace) && Quiet(eula.trace)
    ensures var r := Sequence(server, java, eula);
      && ProgressSent(r.trace) <= [ServerReady, JvmReady, Complete]
      && (r.result.Ok? <==> ProgressSent(r.trace) == [ServerReady, JvmReady, Complete])
      && (JvmReady in ProgressSent(r.trace) ==> server.result.Ok? && java.result.Ok?)
  {
    var r := Sequence(server, java, eula);
    var t1 := server.trace + [Send(Progress(ServerReady))];
    var t2 := t1 + java.trace + [Send(Progress(JvmReady))];
    QuietSendsNoProgress(server.trace);
    MarkProgress(server.trace, ServerReady);
    QuietKeepsProgress(t1, java.trace);
    MarkProgress(t1 + java.trace, JvmReady);
    QuietKeepsProgress(t2, eula.trace);
    MarkProgress(t2 + eula.trace, Complete);
    if !server.result.Ok? {
      assert ProgressSent(r.trace) == [];
    } else if !java.result.Ok? {
      assert ProgressSent(r.trace) == [ServerReady];
    } else if !eula.result.Ok? {
      assert ProgressSent(r.trace) == [ServerReady, JvmReady];
    } else {
      assert ProgressSent(r.trace) == [ServerReady, JvmReady, Complete];
    }
  }

  /** The milestones arrive in order, each after its step: whatever happens,
      the progress values sent are a prefix of 0.25, 0.65, 1.0, and a
      successful installation sends all three. */
  lemma ProgressInOrder(mcVer: string, fabricVer: string, jvm: string, ram: U32, w: World)
    ensures var r := InstallFabricServer(mcVer, fabricVer, jvm, ram, w);
      && ProgressSent(r.trace) <= [ServerReady, JvmReady, Complete]
      && (r.result.Ok? <==> ProgressSent(r.trace) == [ServerReady, JvmReady, Complete])
      && (JvmReady in ProgressSent(r.trace) ==> InstallServer(mcVer, fabricVer, w).result.Ok? && InstallJvm(jvm, w).result.Ok?)
  {
    ServerStepQuiet(mcVer, fabricVer, w);
    JvmStepQuiet(jvm, w);
    EulaStepQuiet(mcVer, jvm, ram, w);
    SequenceProgress(InstallServer(mcVer, fabricVer, w), InstallJvm(jvm, w), PrepareEula(mcVer, jvm, ram, w));
  }

  /** The trace sends no status. */
  predicate NoStatus(trace: seq<Effect>) {
    forall k :: 0 <= k < |trace| ==> !(trace[k].Send? && trace[k].msg.StatusMsg?)
  }

  lemma NoStatusAppend(a: seq<Effect>, b: seq<Effect>)
    requires NoStatus(a) && NoStatus(b)
    ensures NoStatus(a + b)
  {
    assert forall k :: |a| <= k < |a + b| ==> (a + b)[k] == b[k - |a|];
  }

  lemma QuietHasNoStatus(trace: seq<Effect>)
    requires Quiet(trace)
    ensures NoStatus(trace)
  {
  }

  /** With quiet steps, the installation sends no status. */
  lemma SequenceNoStatus(server: Run, java: Run, eula: Run)
    requires Quiet(server.trace) && Quiet(java.trace) && Quiet(eula.trace)
    ensures NoStatus(Sequence(server, java, eula).trace)
  {
    var t1 := server.trace + [Send(Progress(ServerReady))];
    var t2 := t1 + java.trace + [Send(Progress(JvmReady))];
    QuietHasNoStatus(server.trace);
    QuietHasNoStatus(java.trace);
    QuietHasNoStatus(eula.trace);
    NoStatusAppend(server.trace, [Send(Progress(ServerReady))]);
    NoStatusAppend(t1, java.trace);
    NoStatusAppend(t1 + java.trace, [Send(Progress(JvmReady))]);
    NoStatusAppend(t2, eula.trace);
    NoStatusAppend(t2 + eula.trace, [Send(Progress(Complete))]);
  }

  /** No step of the installation sends a status: only the worker does. */
  lemma {:induction false} InstallSendsNoStatus(mcVer: string, fabricVer: string, jvm: string, ram: U32, w: World)
    ensures NoStatus(InstallFabricServer(mcVer, fabricVer, jvm, ram, w).trace)
  {
    ServerStepQuiet(mcVer, fabricVer, w);
    JvmStepQuiet(jvm, w);
    EulaStepQuiet(mcVer, jvm, ram, w);
    SequenceNoStatus(InstallServer(mcVer, fabricVer, w), InstallJvm(jvm, w), PrepareEula(mcVer, jvm, ram, w));
  }

  /** After an installation that sends no status itself, the mod-phase
      status is sent exactly on success, and last. */
  lemma HandOverOnlyOnSuccess(r: Run)
    requires NoStatus(r.trace)
    ensures var trace := HandOver(r);
      && (Send(StatusMsg(InstallMod)) in trace <==> r.result.Ok?)
      && (Send(StatusMsg(InstallMod)) in trace ==> trace[|trace| - 1] == Send(StatusMsg(InstallMod)))
  {
    assert Send(StatusMsg(InstallMod)) !in r.trace by {
      forall k | 0 <= k < |r.trace| ensures r.trace[k] != Send(StatusMsg(InstallMod)) {
      }
    }
  }

  /** The worker tells the UI to start the mod phase exactly when the
      installation succeeded, and as its last message. */
  lemma {:induction false} ModPhaseOnlyAfterInstall(mcVer: string, fabricVer: string, jvm: string, ram: U32, w: World)
    ensures var trace := Worker(mcVer, fabricVer, jvm, ram, w);
      && (Send(StatusMsg(InstallMod)) in trace <==> InstallFabricServer(mcVer, fabricVer, jvm, ram, w).result.Ok?)
      && (Send(StatusMsg(InstallMod)) in trace ==> trace[|trace| - 1] == Send(StatusMsg(InstallMod)))
  {
    InstallSendsNoStatus(mcVer, fabricVer, jvm, ram, w);
    HandOverOnlyOnSuccess(InstallFabricServer(mcVer, fabricVer, jvm, ram, w));
  }
}
