# SubChunker installer and mod-phase model

SubChunker is a desktop tool that benchmarks chunk generation on a Fabric
Minecraft server. Before a run it installs what the run needs:
- the Fabric server jar for the chosen game version;
- a JVM (Azul, Adoptium or GraalVM), downloaded as a zip and unpacked;
- the server's EULA, accepted by rewriting `eula.txt`.

After that it walks through the recommended mods the user toggled on and the
required mods, one at a time, before starting the benchmark. This project
models that core in Dafny 4.11:

| module | file | models |
|---|---|---|
| `Outcomes` | outcomes.dfy | `io::Result` errors, `unwrap` panics, the `i32` range |
| `Text` | text.dfy | lower-casing, trimming, `lines()`, `join`, decimal formatting |
| `Paths` | paths.dfy | paths as component lists; the `subchunker/server` and `subchunker/java` directories |
| `Effects` | effects.dfy | the actions the program performs, as a trace |
| `Benchmark` | benchmark.dfy | `src/benchmark.rs`: the server launch command |
| `Mods` | mods.dfy | `src/mods.rs`: the mod catalogue, mod pages, installed mod ids |
| `Reconcile` | reconcile.dfy | `src/main.rs`: the gap between wanted and installed mods, and the `next_mod` scan |
| `InstallFlow` | flow.dfy | `src/main.rs`: the two UI handlers over the `Info` global |
| `Java` | java.dfy | `src/java.rs`: JVM package addresses, download, zip extraction |
| `Installer` | installer.dfy | `src/io.rs`: version lists, EULA, `install_fabric_server`, the worker thread |
| `SystemInfo` | system_info.dfy | `src/system_info.rs`: the CPU line, core count and GPU lines |

How the model treats the outside world:
- The filesystem is an oracle `ok: Effect -> bool`. It says whether each
  attempted action succeeds.
- An operation returns the trace of actions it attempted and its outcome:
  `Ok`, an `io::Error` kind, or `Panic` for an `unwrap`/`expect` on an error.
- HTTP replies, JSON documents, zip archives, directory listings and hardware
  queries are inputs, described by datatypes.

## Model

| member | source | states |
|---|---|---|
| Mods.CatalogueAligned | src/mods.rs:10-15 | the name array and the page array both have seven entries, so every catalogue position has a page |
| Mods.ModNamesDistinct | src/mods.rs:10-11 | the seven mod names are pairwise distinct, even after lower-casing |
| Mods.ModUrlsDistinct | src/mods.rs:12-15 | the seven Modrinth version pages are pairwise distinct |
| Mods.GetUrl | src/mods.rs:62-65 | defined exactly for a catalogue name (otherwise `position().unwrap()` panics); the result is the page at the name's first position with `?g=<version>` appended |
| Mods.GetUrlDistinguishesMods | src/mods.rs:62-65 | two names that give the same address are the same mod |
| Mods.GetUrlRecoversVersion | src/mods.rs:62-65 | the address determines the version: equal addresses for one mod mean equal versions |
| Mods.CataloguePageInjective | src/mods.rs:62-65 | over any aligned catalogue with distinct pages, the page lookup is injective on names |
| Mods.GetFabricModId | src/mods.rs:39-60 | the id is returned exactly when the jar opens as an archive with a `fabric.mod.json` carrying an id; a missing manifest is `NotFound`, a non-archive or unparsable manifest is `InvalidData` |
| Mods.CollectIds | src/mods.rs:28-34 | defined exactly when every `.jar` entry yields an id; the ids are those of the readable `.jar` entries, in listing order |
| Mods.GetMods | src/mods.rs:24-37 | a missing `mods` folder gives no ids; an unlistable one panics; a listed one gives the ids of its jars; no error escapes |
| Reconcile.ComputeGap | src/main.rs:110-134 | panics exactly when a toggle past the catalogue is on; otherwise position `i` of the reduced array is on iff the user wants mod `i` and its lower-cased name is not installed, and installs are skipped iff nothing is marked and every required mod is installed |
| Reconcile.GapIdempotent | src/main.rs:113-134 | reconciling the reduced toggles again, against the same installed ids, gives the same gap |
| Reconcile.ScanStops | src/main.rs:194-225 | the scan stops at the first toggled-on catalogue position after the stored index, else at the first required mod that is not installed, else finishes; everything passed over was off or installed |
| Reconcile.NextMod | src/main.rs:188-231 | the corrected callback announces the first pending position after the stored index and stores that position, finishes with -1, or panics on a toggle lookup out of range |
| Reconcile.NextModAsWritten | src/main.rs:188-231 | the callback as written; identical to the corrected one except that a required mod stores its position plus one |
| Reconcile.NextModAnnouncesFirstGap | src/main.rs:188-231 | with a stored index in range, the callback never panics, and what it announces or finishes with is the first gap after that index |
| Reconcile.NextModAsWrittenAnnouncesFirstGap | src/main.rs:188-231 | the callback as written announces the same first gap as the corrected one, but a required mod's name is the one before the stored index, and a stored index is never the catalogue length |
| Reconcile.NextModLoop | src/main.rs:194-230 | the callback's loop, statement by statement, computes what `NextModAsWritten` states |
| Reconcile.ScanTakesFirstPending | src/main.rs:194-225 | from any position, the scan takes the head of the pending list (toggled catalogue mods, then missing required mods) and leaves its tail |
| Reconcile.AnnouncesEveryGap | src/main.rs:188-231 | driving the corrected callback from the reset index -1 announces every toggled-on catalogue mod in order, then every missing required mod in order, each exactly once, and then finishes |
| Reconcile.SkipIffNothingToAnnounce | src/main.rs:113-146 | when `is_mod_installed` agrees with the installed ids, the handler skips the mod phase exactly when a scan of the reduced toggles from the start would finish at once |
| Reconcile.AsWrittenSkipsNextRequiredMod | src/main.rs:207-209 | with no toggle on and two required mods missing, the callback as written announces the first, then finishes without ever announcing the second |
| InstallFlow.OnNextMod | src/main.rs:188-231 | the callback as the program has it: a catalogue mod is stored at its own position and is the first toggled-on one after the stored index; a missing required mod is stored one past its position (so the stored index is never the catalogue length), with the catalogue after the stored index all off; finishing stores -1, sets `Running` and starts one benchmark; toggles and progress are never touched |
| InstallFlow.OnNextModCorrected | src/main.rs:188-231 | the callback with the required branch storing its own position, as the catalogue branch at line 228 does: every announced mod sits at the stored index |
| InstallFlow.OnInstallModStatus | src/main.rs:110-146 | progress is reset; a skip sets `Running` and starts the benchmark with the toggles unchanged; otherwise the reduced toggles are stored, the state is what `next_mod` (as written) leaves from them, and the status ends as `InstallMod` |
| InstallFlow.StatusMatchesBenchmarkStart | src/main.rs:110-146 | when the two installed-mod checks agree, the status is `Running` exactly when a benchmark was started, and `InstallMod` comes with a stored index for a mod to download |
| InstallFlow.InstallModStoresPastRequiredMod | src/main.rs:136-143 | with one required mod missing, nothing installed and no toggle on, the handler announces that mod and stores the catalogue length + 1 |
| InstallFlow.DisagreementLeavesInstallModAfterStart | src/main.rs:136-143 | when `is_mod_installed` reports a required mod installed that the ids lack, the benchmark starts and the status is still overwritten to `InstallMod` |
| Benchmark.LaunchCommand | src/benchmark.rs:10-34 | the program is `bin/java` (`bin/javaw.exe` on Windows) inside the lower-cased JVM directory; the arguments are `-Xms<m>G`, `-Xmx<m>G`, the caller's arguments unchanged, then `-jar fabric-server.jar`; the working directory is the version's directory |
| Benchmark.HeapFlagRoundTrip | src/benchmark.rs:27-28 | a heap flag reads back as the gigabyte count it was built from |
| Benchmark.HeapBoundsEqual | src/benchmark.rs:27-28 | the initial and maximum heap sizes of a launch are equal |
| Benchmark.LaunchJar | src/benchmark.rs:10-48 | the caller waits for the server exactly when the spawn succeeds, and a failed spawn is only logged; either way the server runs in the version's directory with the caller's arguments between the heap flags and `-jar` |
| Java.Platform | src/java.rs:71-91 | defined exactly on supported OS/architecture pairs (otherwise it panics), naming the OS and the architecture |
| Java.PlatformInjective | src/java.rs:71-91 | different supported targets get different platform names |
| Java.AzulUrl | src/java.rs:98-104 | the Azul metadata query, defined on supported targets, between its fixed prefix and suffix |
| Java.AzulUrlIdentifiesTarget | src/java.rs:98-104 | the Azul query determines the target |
| Java.AdoptiumUrl | src/java.rs:106-113 | the Adoptium binary address, defined on supported targets, between its fixed prefix and suffix |
| Java.AdoptiumUrlIdentifiesTarget | src/java.rs:106-113 | the Adoptium address determines the target |
| Java.GraalOsName | src/java.rs:115-141 | GraalVM renames `mac` to `darwin` and keeps the other OS names |
| Java.GraalvmUrl | src/java.rs:115-141 | the GraalVM archive address, defined on supported targets, between its fixed prefix and suffix |
| Java.GraalvmUrlIdentifiesTarget | src/java.rs:115-141 | the GraalVM address determines the target |
| Java.InstallDir | src/java.rs:11-13 | a distribution installs into the JVM directory under its lower-cased name |
| Java.ZipOutsideInstallDir | src/java.rs:47-66 | the temporary zip `<name>.zip` lies outside the directory it is unpacked into |
| Java.JavaInstalled | src/java.rs:11-13 | a JVM counts as installed exactly when the existence probe of its directory answers yes; a failed probe counts as not installed |
| Java.LauncherUsesInstallDir | src/java.rs:11-13 | the executable the launcher runs lies inside the directory the installer fills |
| Java.OutPath | src/java.rs:161-170 | an entry lands under the output directory with its first path component dropped |
| Java.EntryPlan | src/java.rs:172-194 | a directory entry only creates its directory; a file entry creates the file and writes it |
| Java.EntryPlanOrder | src/java.rs:172-194 | a file entry creates its parent directory, then the file, then writes the data; on Unix, an entry that carries a mode has it set last |
| Java.TopLevel | src/java.rs:149-159 | an archive with no entry that has a path is refused with `InvalidData` |
| Java.ExtractEntriesSucceeds | src/java.rs:161-195 | unpacking succeeds exactly when every entry is readable and every action succeeds, and then it performed every entry's actions in order |
| Java.ExtractZip | src/java.rs:143-200 | the zip is opened first; on success the zip is deleted last |
| Java.EmptyZipWritesNothing | src/java.rs:149-159 | an archive whose entries have no path writes nothing and is refused (or the open fails) |
| Java.RemovesZipOnlyAfterEveryEntry | src/java.rs:143-200 | the download is deleted exactly when it opened, had a top-level component and every entry unpacked; the extraction succeeds exactly when the deletion also does |
| Java.EntriesStayInside | src/java.rs:161-195 | every action of the unpacking loop stays inside the output directory |
| Java.ExtractZipStaysInside | src/java.rs:143-200 | every action of the extraction touches the zip or stays inside the output directory |
| Java.TopLevelNameIrrelevant | src/java.rs:161-170 | renaming the first component of every entry changes nothing that is unpacked |
| Java.PackageUrl | src/java.rs:16-43 | an unknown distribution name or an unsupported target panics before any request; Azul queries its metadata and fails with `Other` when no package comes back; Adoptium and GraalVM use their fixed addresses |
| Java.FetchAndUnpack | src/java.rs:47-66 | success requires the download, the zip's creation and its write; on success the last action deletes the zip |
| Java.InstallJava | src/java.rs:15-69 | panics, with nothing attempted, exactly for an unknown name or unsupported target; success ends by deleting the zip |
| Java.DistroNamesCaseSensitive | src/java.rs:16-43 | distribution names are matched exactly: `azul` panics |
| Java.InstallKeysOnLowerCase | src/java.rs:15-69 | every filesystem action of an install stays on the lower-cased name's zip or directory, and installing sends no UI message |
| Installer.StableVersions | src/io.rs:123-129 | defined exactly when every entry has a boolean `stable` and stable ones a string `version`; a version is in the result exactly when some stable entry carries it |
| Installer.StableVersionsOne | src/io.rs:123-129 | one entry gives its version when stable and nothing otherwise; with `StableVersionsAppend` this fixes the list: each stable entry's version once, in input order |
| Installer.StableVersionsAppend | src/io.rs:123-129 | filtering a concatenated list concatenates the filtered lists, so order is kept |
| Installer.CollectStable | src/io.rs:122-130 | the loop computes the stable versions |
| Installer.GetVersions | src/io.rs:118-146 | one request to the given address; the stable versions on a well-formed reply, otherwise a panic |
| Installer.InstalledVersions | src/io.rs:108-116 | the names of the readable entries of the server directory; an unlistable directory panics |
| Installer.McVerInstalled | src/io.rs:148-151 | a version counts as installed exactly when an entry of the server directory bears its exact name |
| Installer.AcceptEulaLines | src/io.rs:163-180 | the rewritten text has as many lines as the original: a line starting with `eula=` after leading whitespace becomes `eula=true`, every other line is kept |
| Installer.AcceptLineIdempotent | src/io.rs:168-174 | rewriting a line twice is rewriting it once; `eula=true` is kept |
| Installer.AcceptLinesIdempotent | src/io.rs:166-176 | accepting an accepted EULA changes no line |
| Installer.AcceptEulaFile | src/io.rs:163-180 | succeeds exactly when the read and the write succeed, and then it has read the file and written the rewritten text to the same path |
| Installer.WriteEula | src/io.rs:153-161 | an absent EULA is left alone, a present one is accepted, and a failed existence probe panics |
| Installer.ServerFetchedOnlyWhenMissing | src/io.rs:57-84 | the server jar is requested exactly when the version is not installed; the version directory is created only after a successful HTTP status |
| Installer.InstallJvm | src/io.rs:89-92 | an installed JVM is skipped silently; otherwise an "Installing <jvm> JVM" message precedes the install |
| Installer.EulaLaunchOnlyWhenMissing | src/io.rs:96-100 | the server is launched to generate the EULA exactly when it was absent, and the accepted text is written only if the launch produced the file |
| Installer.ProgressInOrder | src/io.rs:55-104 | the progress values sent are a prefix of 0.25, 0.65, 1.0; all three exactly when the installation succeeds; 0.65 only after the server and JVM steps succeeded |
| Installer.InstallSendsNoStatus | src/io.rs:55-104 | the installation itself never sends a status message |
| Installer.ModPhaseOnlyAfterInstall | src/main.rs:81-91 | the worker thread sends the `InstallMod` status exactly when the installation succeeded, as its last message |
| SystemInfo.CpuLabel | src/system_info.rs:16-20 | the line exists exactly when there is a CPU (indexing `[0]` panics otherwise) |
| SystemInfo.CpuLabelCount | src/system_info.rs:16-20 | the line starts with the first model name; with several CPUs, the text after ` x` reads back as the CPU count |
| SystemInfo.CoresIsTotal | src/system_info.rs:21 | with non-negative counts, the `i32` sum succeeds exactly when the total fits and then equals the total of logical cores |
| SystemInfo.SumCoresIsTotal | src/system_info.rs:21 | a running sum that does not overflow is the start value plus the total |
| SystemInfo.GpuEntry | src/system_info.rs:28-32 | an entry starts with the GPU name and is the bare name exactly when the core count is zero |
| SystemInfo.GpuEntryCount | src/system_info.rs:28-29 | a positive core count reads back from between the parentheses |
| SystemInfo.GpuSummary | src/system_info.rs:22-33 | the loop produces the entries joined by newlines, with empty entries at the front leaving no trace |
| SystemInfo.GpuTextLines | src/system_info.rs:22-33 | cutting the text at its newlines gives back one entry per line, in order |

## Left out

- The slint UI is left out: windows, callbacks other than `next_mod`, the 50 ms timer and the message channel. `src/slint_utils.rs` is left out too. Only the state the two mod-phase handlers read and write is kept (`InstallFlow.Info`).
- Opening a mod page in the browser (`on_install_mod`) and the `mods` folder in the file manager is not modelled. Both are foreign calls with no result used.
- `first_time_setup`, `main_dir`, `data_dir` and the benchmark run file are left out. Paths are relative component lists, so `current_dir().unwrap()` cannot fail in the model.
- A file name that is not valid UTF-8 makes `to_str().unwrap()` panic. The model has no such names.
- Floating point is not modelled. Progress values are the milestones `ServerReady` (0.25), `JvmReady` (0.65) and `Complete` (1.0); `Reset` is 0.0.
- Text.Lower: ASCII lower-casing only; Rust's `to_lowercase` also folds other Unicode letters.
- `start_benchmark` has an empty body. A call to it is counted in `Info.benchmarks`.
- HTTP, JSON parsing, zip decoding and hardware queries are not modelled. Their results are inputs.
- `println!`/`eprintln!` output is not modelled. UI messages sent on the channel are.
- Benchmark.LaunchCommand: `src/io.rs:98` passes a fifth argument to `launch_jar`, but `src/benchmark.rs:10` declares four parameters. The model follows the four-parameter declaration.
- `REQ_MODS` and `is_mod_installed` are imported at `src/main.rs:2` but not defined in `src/mods.rs`. They are the parameters `req` and `installed`.
- SystemInfo.SumCores: models the panic on `i32` overflow that debug builds raise, not the wrap-around of release builds.
- Installer.PrepareEula: states only that no `io::Error` escapes. Its trace is stated by `Installer.EulaLaunchOnlyWhenMissing`.
- Installer.InstallServer: every error from `create_dir`, `File::create` and `write_all` is the single kind `Os`. `reqwest` failures are `Other`, as the source maps them.
- The OS name, memory size and `bytes_to_gb` of `SystemInfo::get` are left out, and so is the hardware query error `?`. Only lines 16-33 are modelled.
- `CHUNKY_URL` (`src/mods.rs:16`) is not used by the modelled code.

## Findings

| source | as written | input that shows it | evidently intended | confidence | as-written member | corrected member |
|---|---|---|---|---|---|---|
| src/main.rs:207-209 | after announcing a missing required mod, `next_mod` stores `next_index + 1`, so the next call starts one position further and skips the following required mod | no recommended mod toggled on, and required mods `a` and `b` both missing: the first call announces `a` and stores its position + 1, the second call starts past `b` and starts the benchmark | store `next_index`, as the catalogue branch does at line 228, so every missing required mod is announced | not executed | Reconcile.AsWrittenSkipsNextRequiredMod | Reconcile.AnnouncesEveryGap |
