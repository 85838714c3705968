/** The two handlers of `src/main.rs` that drive the mod-install phase, over
    the part of the UI's `Info` global they read and write: the `InstallMod`
    branch of the installer-status handler and the `next_mod` callback.

    `REQ_MODS` and `is_mod_installed` are imported at `src/main.rs:2` but not
    defined in `src/mods.rs`; they are the parameters `req` and `installed`.
    `start_benchmark` does nothing observable, so a benchmark start is
    counted in `benchmarks`. */
module InstallFlow {

  import opened Outcomes
  import opened Text
  import opened Effects
  import opened Mods
  import opened Reconcile

  /** The fields of `Info` the handlers touch. */
  datatype Info = Info(
    status: Status,
    progress: Milestone,
    toggles: seq<bool>,        // `recommended_mods_toggle`
    downloadIndex: int,        // `current_mod_download_index`, an `i32`
    currentDownload: string,   // `current_mod_download`
    benchmarks: nat)           // how many times `start_benchmark` was called

  /** What one `next_mod` step does to `Info`: an announcement stores the
      index and the name; finishing stores -1, sets `Running` and starts the
      benchmark; a crash panics. */
  function ApplyStep(info: Info, s: Step): Outcome<Info> {
    match s
    case Announce(i, name) => Ok(info.(downloadIndex := i, currentDownload := name))
    case Finish => Ok(info.(downloadIndex := -1, status := Running, benchmarks := info.benchmarks + 1))
    case Crash => Panic
  }

  /** The `next_mod` callback as the program has it: it announces the next
      mod to download and stores an index past the stored one, or stores -1,
      sets `Running` and starts the benchmark, or panics. A catalogue mod is
      stored at its position; a required mod is stored one past its position
      (see `Reconcile.AsWrittenSkipsNextRequiredMod`). */
  function OnNextMod(info: Info, req: seq<string>, installed: string -> bool): (r: Outcome<Info>)
    requires IsI32(info.downloadIndex)
    ensures !r.Err?
    ensures r.Ok? ==> r.value.toggles == info.toggles && r.value.progress == info.progress
    ensures r.Ok? && r.value.downloadIndex != -1 ==>
      && info.downloadIndex < r.value.downloadIndex <= |MODS| + |req|
      && r.value.downloadIndex != |MODS|
      && r.value.status == info.status && r.value.benchmarks == info.benchmarks
      && (r.value.downloadIndex < |MODS| ==>
            && 0 <= r.value.downloadIndex < |info.toggles| && info.toggles[r.value.downloadIndex]
            && r.value.currentDownload == MODS[r.value.downloadIndex]
            && NoneToggled(info.toggles, info.downloadIndex + 1, r.value.downloadIndex))
      && (r.value.downloadIndex > |MODS| ==>
            && r.value.currentDownload == req[r.value.downloadIndex - 1 - |MODS|]
            && !installed(r.value.currentDownload)
            && NoneToggled(info.toggles, info.downloadIndex + 1, |MODS|))
    ensures r.Ok? && r.value.downloadIndex == -1 ==>
      && r.value.status == Running && r.value.benchmarks == info.benchmarks + 1
      && NoneToggled(info.toggles, info.downloadIndex + 1, |MODS|)
      && AllInstalled(req, installed, Max(info.downloadIndex + 1 - |MODS|, 0), |req|)
    ensures -1 <= info.downloadIndex < I32Max && |info.toggles| == |MODS| ==> r.Ok?
  {
    NextModAsWrittenAnnouncesFirstGap(MODS, info.downloadIndex, info.toggles, req, installed);
    ApplyStep(info, NextModAsWritten(MODS, info.downloadIndex, info.toggles, req, installed))
  }

  /** The callback with the required branch storing the position it stops
      at (`Reconcile.NextMod`): every announced mod, catalogue or required,
      sits at the stored index. */
  function OnNextModCorrected(info: Info, req: seq<string>, installed: string -> bool): (r: Outcome<Info>)
    requires IsI32(info.downloadIndex)
    ensures !r.Err?
    ensures r.Ok? ==> r.value.toggles == info.toggles && r.value.progress == info.progress
    ensures r.Ok? && r.value.downloadIndex != -1 ==>
      && info.downloadIndex < r.value.downloadIndex < |MODS| + |req|
      && r.value.status == info.status && r.value.benchmarks == info.benchmarks
      && (r.value.downloadIndex < |MODS| ==>
            && 0 <= r.value.downloadIndex < |info.toggles| && info.toggles[r.value.downloadIndex]
            && r.value.currentDownload == MODS[r.value.downloadIndex]
            && NoneToggled(info.toggles, info.downloadIndex + 1, r.value.downloadIndex))
      && (r.value.downloadIndex >= |MODS| ==>
            && r.value.currentDownload == req[r.value.downloadIndex - |MODS|]
            && !installed(r.value.currentDownload)
            && NoneToggled(info.toggles, info.downloadIndex + 1, |MODS|))
    ensures r.Ok? && r.value.downloadIndex == -1 ==>
      && r.value.status == Running && r.value.benchmarks == info.benchmarks + 1
      && NoneToggled(info.toggles, info.downloadIndex + 1, |MODS|)
      && AllInstalled(req, installed, Max(info.downloadIndex + 1 - |MODS|, 0), |req|)
    ensures -1 <= info.downloadIndex < I32Max && |info.toggles| == |MODS| ==> r.Ok?
  {
    NextModAnnouncesFirstGap(MODS, info.downloadIndex, info.toggles, req, installed);
    ApplyStep(info, NextMod(MODS, info.downloadIndex, info.toggles, req, installed))
  }

  /** The `InstallMod` branch of the status handler: progress back to 0,
      the installed ids read from the version's `mods` folder, the gap
      computed; then either `Running` and a benchmark start with the toggles
      left as they were, or the reduced toggles stored, `next_mod` invoked
      and the status set to `InstallMod` after it. */
  function OnInstallModStatus(info: Info, folder: ModsFolder, req: seq<string>, installed: string -> bool): (r: Outcome<Info>)
    requires IsI32(info.downloadIndex)
    ensures !r.Err?
    ensures r.Ok? ==> r.value.progress == Reset
    ensures r.Ok? ==> GetMods(folder).Ok? && GapOf(MODS, info.toggles, GetMods(folder).value, req).Ok?
    ensures r.Ok? && GapOf(MODS, info.toggles, GetMods(folder).value, req).value.skip ==>
      r.value == info.(progress := Reset, status := Running, benchmarks := info.benchmarks + 1)
    ensures r.Ok? && !GapOf(MODS, info.toggles, GetMods(folder).value, req).value.skip ==>
      && r.value.status == InstallMod
      && r.value.toggles == GapOf(MODS, info.toggles, GetMods(folder).value, req).value.toggles
      && |r.value.toggles| == |MODS|
    ensures r.Ok? && !GapOf(MODS, info.toggles, GetMods(folder).value, req).value.skip ==>
      var reduced := info.(progress := Reset, toggles := GapOf(MODS, info.toggles, GetMods(folder).value, req).value.toggles);
      && OnNextMod(reduced, req, installed).Ok?
      && r.value == OnNextMod(reduced, req, installed).value.(status := InstallMod)
    ensures GetMods(folder).Ok? && |info.toggles| <= |MODS| && -1 <= info.downloadIndex < I32Max ==> r.Ok?
  {
    var ids := GetMods(folder);
    if !ids.Ok? then Panic
    else
      var gap := GapOf(MODS, info.toggles, ids.value, req);
      if !gap.Ok? then Panic
      else if gap.value.skip then Ok(info.(progress := Reset, status := Running, benchmarks := info.benchmarks + 1))
      else
        var next := OnNextMod(info.(progress := Reset, toggles := gap.value.toggles), req, installed);
        if next.Ok? then Ok(next.value.(status := InstallMod)) else Panic
  }

  /** When `is_mod_installed` agrees with the installed ids on the required
      mods and the stored index is the reset value -1, the handler's outcome
      is consistent: the status is `Running` exactly when a benchmark was
      started, and an `InstallMod` status comes with a mod to download. */
  lemma StatusMatchesBenchmarkStart(info: Info, folder: ModsFolder, req: seq<string>, installed: string -> bool)
    requires info.downloadIndex == -1
    requires GetMods(folder).Ok?
    requires forall k :: 0 <= k < |req| ==> (installed(req[k]) <==> Lower(req[k]) in GetMods(folder).value)
    requires |info.toggles| <= |MODS|
    ensures var r := OnInstallModStatus(info, folder, req, installed);
      && r.Ok?
      && (r.value.status == Running <==> r.value.benchmarks == info.benchmarks + 1)
      && (r.value.status == InstallMod ==> 0 <= r.value.downloadIndex <= |MODS| + |req|)
  {
    var ids := GetMods(folder).value;
    var g := GapOf(MODS, info.toggles, ids, req).value;
    SkipIffNothingToAnnounce(MODS, info.toggles, ids, req, installed);
    NextModAsWrittenAnnouncesFirstGap(MODS, -1, g.toggles, req, installed);
  }

  /** When `is_mod_installed` reports a required mod installed that the
      installed ids lack, the handler does not skip, `next_mod` finds nothing
      to announce and starts the benchmark, and the status set after it
      overwrites `Running` with `InstallMod`. */
  lemma DisagreementLeavesInstallModAfterStart(info: Info, name: string)
    requires info.downloadIndex == -1 && info.toggles == AllOff(|MODS|)
    ensures var r := OnInstallModStatus(info, Missing, [name], _ => true);
      && r.Ok? && r.value.status == InstallMod && r.value.benchmarks == info.benchmarks + 1
      && r.value.downloadIndex == -1
  {
    var req := [name];
    assert Lower(req[0]) !in GetMods(Missing).value;
    var g := GapOf(MODS, info.toggles, [], req).value;
    assert !g.skip;
    assert g.toggles == AllOff(|MODS|);
    ScanFromStartExhausted(MODS, g.toggles, req, _ => true);
  }
  /** With one required mod missing, nothing installed and no toggle on, the
      handler announces that mod and stores one past its position: the
      catalogue length + 1, not the catalogue length. */
  lemma InstallModStoresPastRequiredMod(info: Info, name: string)
    requires info.downloadIndex == -1 && info.toggles == AllOff(|MODS|)
    ensures var r := OnInstallModStatus(info, Missing, [name], NothingInstalled);
      && r.Ok? && r.value.status == InstallMod
      && r.value.downloadIndex == |MODS| + 1 && r.value.currentDownload == name
  {
    var req := [name];
    var g := GapOf(MODS, info.toggles, [], req).value;
    assert Lower(req[0]) !in GetMods(Missing).value;
    assert !g.skip;
    assert g.toggles == AllOff(|MODS|);
    NextModAsWrittenAnnouncesFirstGap(MODS, -1, g.toggles, req, NothingInstalled);
  }
}
