/** `src/main.rs`: reconciling the wanted mods with the installed ones when
    the installer reports `InstallMod`, and the `next_mod` advance that walks
    the recommended catalogue and then the required list.

    The catalogue is the parameter `mods` (the program passes `MODS`), so that
    the facts below hold for any catalogue and never depend on its seven
    literal names. `REQ_MODS` and `is_mod_installed` are imported at
    `src/main.rs:2` but not defined in `src/mods.rs`; they are the
    parameters `req` and `installed`. */
module Reconcile {

  import opened Text
  import opened Outcomes

  // ---------------------------------------------------------------------------
  // Gap computation (the `InstallMod` branch of the status handler)

  /** The reduced toggle array and the "skip installs" flag. */
  datatype Gap = Gap(toggles: seq<bool>, skip: bool)

  /** Position `i` of the reduced array: the user wants mod `i` and its
      lower-cased name is not among the installed ids. */
  predicate Wanted(mods: seq<string>, toggles: seq<bool>, installedIds: seq<string>, i: nat)
    requires i < |mods|
  {
    i < |toggles| && toggles[i] && Lower(mods[i]) !in installedIds
  }

  /** The gap, stated declaratively: a toggled-on position past the catalogue
      panics (`MODS.get(i).unwrap()`); otherwise the reduced array marks the
      wanted, missing mods, and installs are skipped exactly when none is
      marked and every required mod's lower-cased name is installed. */
  function GapOf(mods: seq<string>, toggles: seq<bool>, installedIds: seq<string>, req: seq<string>): Outcome<Gap> {
    if exists i :: |mods| <= i < |toggles| && toggles[i] then Panic
    else
      var reduced := seq(|mods|, i requires 0 <= i < |mods| => Wanted(mods, toggles, installedIds, i));
      Ok(Gap(reduced, (forall i :: 0 <= i < |reduced| ==> !reduced[i])
                    && forall k :: 0 <= k < |req| ==> Lower(req[k]) in installedIds))
  }

  /** The two loops of the handler: over the user's toggles, then over the
      required mods until the first missing one. */
  method ComputeGap(mods: seq<string>, toggles: seq<bool>, installedIds: seq<string>, req: seq<string>)
    returns (r: Outcome<Gap>)
    ensures r == GapOf(mods, toggles, installedIds, req)
    ensures r.Panic? <==> exists i :: |mods| <= i < |toggles| && toggles[i]
    ensures !r.Err?
    ensures r.Ok? ==> |r.value.toggles| == |mods|
    ensures r.Ok? ==> forall i :: 0 <= i < |mods| ==>
      (r.value.toggles[i] <==> i < |toggles| && toggles[i] && Lower(mods[i]) !in installedIds)
    ensures r.Ok? ==> (r.value.skip <==>
      (forall i :: 0 <= i < |mods| ==> !r.value.toggles[i]) && forall k :: 0 <= k < |req| ==> Lower(req[k]) in installedIds)
  {
    var skip := true;
    var reduced := seq(|mods|, _ => false);
    var i := 0;
    while i < |toggles|
      invariant 0 <= i <= |toggles|
      invariant |reduced| == |mods|
      invariant forall j :: 0 <= j < i && toggles[j] ==> j < |mods|
      invariant forall k :: 0 <= k < |mods| ==> reduced[k] == (k < i && Wanted(mods, toggles, installedIds, k))
      invariant skip <==> forall k :: 0 <= k < |mods| ==> !reduced[k]
    {
      if toggles[i] {
        if i >= |mods| {
          return Panic;
        }
        if Lower(mods[i]) !in installedIds {
          skip := false;
          reduced := reduced[i := true];
          assert reduced[i];
        }
      }
      i := i + 1;
    }
    assert reduced == seq(|mods|, i requires 0 <= i < |mods| => Wanted(mods, toggles, installedIds, i));
    ghost var noneWanted := skip;
    var k := 0;
    while k < |req|
      invariant 0 <= k <= |req|
      invariant forall j :: 0 <= j < k ==> Lower(req[j]) in installedIds
      invariant skip == noneWanted
    {
      if Lower(req[k]) !in installedIds {
        skip := false;
        break;
      }
      k := k + 1;
    }
    r := Ok(Gap(reduced, skip));
  }

  /** Reconciling again, with nothing installed in between, changes nothing:
      the reduced array is a fixed point of the gap computation. */
  lemma GapIdempotent(mods: seq<string>, toggles: seq<bool>, installedIds: seq<string>, req: seq<string>)
    requires GapOf(mods, toggles, installedIds, req).Ok?
    ensures GapOf(mods, GapOf(mods, toggles, installedIds, req).value.toggles, installedIds, req)
         == GapOf(mods, toggles, installedIds, req)
  {
    var g := GapOf(mods, toggles, installedIds, req).value;
    var again := seq(|mods|, i requires 0 <= i < |mods| => Wanted(mods, g.toggles, installedIds, i));
    assert again == g.toggles;
  }

  // ---------------------------------------------------------------------------
  // The `next_mod` scan

  /** Where the scan of `next_mod` stops. */
  datatype Stop =
    | Recommended(pos: int)   // a toggled-on position of the catalogue
    | Required(pos: int)      // catalogue length + r, for a required mod r that is not installed
    | Exhausted               // past the required mods: start the benchmark
    | OutOfRange              // the toggle lookup `nth(..).unwrap()` panics

  /** No toggle in [from, to) is on, and all of them exist. */
  predicate NoneToggled(toggles: seq<bool>, from: int, to: int) {
    && (from < to ==> 0 <= from && to <= |toggles|)
    && forall j :: from <= j < to ==> !toggles[j]
  }

  /** Every required mod in [from, to) is installed. */
  predicate AllInstalled(req: seq<string>, installed: string -> bool, from: int, to: int) {
    && (from < to ==> 0 <= from && to <= |req|)
    && forall k :: from <= k < to ==> installed(req[k])
  }

  function Max(a: int, b: int): int {
    if a < b then b else a
  }

  /** The `loop` of `next_mod`, entered with `next_index == n`: in the
      required phase an installed mod is passed over and a missing one stops
      the scan; past the required list the scan is exhausted; in the
      catalogue phase a toggled-on position stops it and a position without a
      toggle panics. */
  function Scan(mods: seq<string>, n: int, toggles: seq<bool>, req: seq<string>, installed: string -> bool): Stop
    decreases |mods| + |req| - n
  {
    if n >= |mods| then
      var r := n - |mods|;
      if r < |req| then
        if installed(req[r]) then Scan(mods, n + 1, toggles, req, installed) else Required(n)
      else Exhausted
    else if n < 0 || n >= |toggles| then OutOfRange
    else if toggles[n] then Recommended(n)
    else Scan(mods, n + 1, toggles, req, installed)
  }

  /** Where the scan from `n` stops, and why: a recommended stop is the first
      toggled-on position; a required stop is the first missing required mod
      after an untoggled catalogue; exhaustion means nothing from `n` on is
      toggled on or missing; and the lookup panics only for a position before
      the catalogue's end that has no toggle. */
  lemma {:induction false} ScanStops(mods: seq<string>, n: int, toggles: seq<bool>, req: seq<string>, installed: string -> bool)
    decreases |mods| + |req| - n
    ensures var s := Scan(mods, n, toggles, req, installed);
      && (s.Recommended? ==>
            && 0 <= n <= s.pos < |mods| && s.pos < |toggles| && toggles[s.pos]
            && NoneToggled(toggles, n, s.pos))
      && (s.Required? ==>
            && Max(n, |mods|) <= s.pos < |mods| + |req|
            && !installed(req[s.pos - |mods|])
            && NoneToggled(toggles, n, |mods|)
            && AllInstalled(req, installed, Max(n - |mods|, 0), s.pos - |mods|))
      && (s.Exhausted? ==>
            && NoneToggled(toggles, n, |mods|)
            && AllInstalled(req, installed, Max(n - |mods|, 0), |req|))
      && (s.OutOfRange? ==> n < |mods| && (n < 0 || |toggles| < |mods|))
  {
    if n >= |mods| {
      var r := n - |mods|;
      if r < |req| && installed(req[r]) {
        ScanStops(mods, n + 1, toggles, req, installed);
        assert Scan(mods, n, toggles, req, installed) == Scan(mods, n + 1, toggles, req, installed);
        assert Max(n + 1 - |mods|, 0) == r + 1 && Max(n - |mods|, 0) == r;
        var s := Scan(mods, n, toggles, req, installed);
        if s.Required? {
          AllInstalledGrows(req, installed, r, s.pos - |mods|);
        } else if s.Exhausted? {
          AllInstalledGrows(req, installed, r, |req|);
        }
      }
    } else if 0 <= n < |toggles| && !toggles[n] {
      ScanStops(mods, n + 1, toggles, req, installed);
      assert Scan(mods, n, toggles, req, installed) == Scan(mods, n + 1, toggles, req, installed);
      assert Max(n + 1 - |mods|, 0) == Max(n - |mods|, 0) == 0;
      var s := Scan(mods, n, toggles, req, installed);
      if s.Recommended? {
        NoneToggledGrows(toggles, n, s.pos);
      } else if s.Required? || s.Exhausted? {
        NoneToggledGrows(toggles, n, |mods|);
      }
    }
  }

  lemma NoneToggledGrows(toggles: seq<bool>, n: int, to: int)
    requires 0 <= n < |toggles| && !toggles[n] && NoneToggled(toggles, n + 1, to)
    ensures NoneToggled(toggles, n, to)
  {
  }

  lemma AllInstalledGrows(req: seq<string>, installed: string -> bool, r: int, to: int)
    requires 0 <= r < |req| && installed(req[r]) && AllInstalled(req, installed, r + 1, to)
    ensures AllInstalled(req, installed, r, to)
  {
  }

  /** What one `next_mod` call does: announce a mod and store an index, or
      store -1, set status `Running` and start the benchmark, or panic. */
  datatype Step = Announce(index: int, name: string) | Finish | Crash

  /** `next_mod` as written. A stop in the required list stores
      `next_index + 1`, one more than the recommended branch stores. When the
      stored index is `i32::MAX`, `index + 1` overflows: a debug build
      panics, a release build wraps to `i32::MIN` and the toggle lookup
      panics. */
  function NextModAsWritten(mods: seq<string>, index: int, toggles: seq<bool>, req: seq<string>, installed: string -> bool): (s: Step)
    requires IsI32(index)
    ensures s.Announce? && s.index > |mods| ==>
      s.index - |mods| - 1 < |req| && s.name == req[s.index - |mods| - 1] && !installed(s.name)
  {
    if index == I32Max then Crash
    else
      ScanStops(mods, index + 1, toggles, req, installed);
      match Scan(mods, index + 1, toggles, req, installed)
      case Recommended(p) => Announce(p, mods[p])
      case Required(p) => Announce(p + 1, req[p - |mods|])
      case Exhausted => Finish
      case OutOfRange => Crash
  }

  /** `next_mod` with the required branch storing the position it stops at,
      as the recommended branch does: the announced position lies after the
      stored one, names a toggled-on catalogue mod or a missing required mod,
      and every position in between has nothing to announce. */
  function NextMod(mods: seq<string>, index: int, toggles: seq<bool>, req: seq<string>, installed: string -> bool): (s: Step)
    requires IsI32(index)
    ensures s.Announce? ==> index < s.index < |mods| + |req|
  {
    if index == I32Max then Crash
    else
      ScanStops(mods, index + 1, toggles, req, installed);
      match Scan(mods, index + 1, toggles, req, installed)
      case Recommended(p) => Announce(p, mods[p])
      case Required(p) => Announce(p, req[p - |mods|])
      case Exhausted => Finish
      case OutOfRange => Crash
  }

  /** One `next_mod` (corrected) announces the first gap after the stored
      index: a toggled-on catalogue mod with nothing toggled on before it, or
      a missing required mod with nothing toggled on in the catalogue and
      every required mod before it installed. It finishes only when nothing
      after the stored index is toggled on or missing, and from the reset
      index with a toggle per catalogue mod it never panics. */
  lemma NextModAnnouncesFirstGap(mods: seq<string>, index: int, toggles: seq<bool>, req: seq<string>, installed: string -> bool)
    requires IsI32(index)
    ensures var s := NextMod(mods, index, toggles, req, installed);
      && (s.Announce? && s.index < |mods| ==>
            && 0 <= s.index < |toggles| && toggles[s.index] && s.name == mods[s.index]
            && NoneToggled(toggles, index + 1, s.index))
      && (s.Announce? && s.index >= |mods| ==>
            && s.name == req[s.index - |mods|] && !installed(s.name)
            && NoneToggled(toggles, index + 1, |mods|)
            && AllInstalled(req, installed, Max(index + 1 - |mods|, 0), s.index - |mods|))
      && (s.Finish? ==>
            NoneToggled(toggles, index + 1, |mods|) && AllInstalled(req, installed, Max(index + 1 - |mods|, 0), |req|))
      && (-1 <= index < I32Max && |toggles| >= |mods| ==> !s.Crash?)
  {
    if index < I32Max {
      ScanStops(mods, index + 1, toggles, req, installed);
    }
  }

  /** One `next_mod` as written announces the same first gap, but a
      required mod found at position `p` is stored as `p + 1`: the name is
      the required mod one before the stored index. A catalogue mod is
      stored at its own position, so the stored index is never the
      catalogue length. */
  lemma NextModAsWrittenAnnouncesFirstGap(mods: seq<string>, index: int, toggles: seq<bool>, req: seq<string>,
                                          installed: string -> bool)
    requires IsI32(index)
    ensures var s := NextModAsWritten(mods, index, toggles, req, installed);
      && (s.Announce? ==> index < s.index <= |mods| + |req| && s.index != |mods|)
      && (s.Announce? && s.index < |mods| ==>
            && 0 <= s.index < |toggles| && toggles[s.index] && s.name == mods[s.index]
            && NoneToggled(toggles, index + 1, s.index))
      && (s.Announce? && s.index > |mods| ==>
            && s.name == req[s.index - 1 - |mods|] && !installed(s.name)
            && NoneToggled(toggles, index + 1, |mods|)
            && AllInstalled(req, installed, Max(index + 1 - |mods|, 0), s.index - 1 - |mods|))
      && (s.Finish? ==>
            NoneToggled(toggles, index + 1, |mods|) && AllInstalled(req, installed, Max(index + 1 - |mods|, 0), |req|))
      && (-1 <= index < I32Max && |toggles| >= |mods| ==> !s.Crash?)
  {
    if index < I32Max {
      ScanStops(mods, index + 1, toggles, req, installed);
    }
  }

  /** The step `next_mod` (corrected) takes, read off the scan's stop. */
  lemma NextModFollowsScan(mods: seq<string>, index: int, toggles: seq<bool>, req: seq<string>, installed: string -> bool)
    requires I32Min <= index < I32Max
    ensures var s := Scan(mods, index + 1, toggles, req, installed);
      && (s.Recommended? && 0 <= s.pos < |mods| ==>
            NextMod(mods, index, toggles, req, installed) == Announce(s.pos, mods[s.pos]))
      && (s.Required? && |mods| <= s.pos < |mods| + |req| ==>
            NextMod(mods, index, toggles, req, installed) == Announce(s.pos, req[s.pos - |mods|]))
      && (s.Exhausted? <==> NextMod(mods, index, toggles, req, installed) == Finish)
  {
  }

  /** The loop of `next_mod`, statement by statement: it computes the step
      of `next_mod` as written. */
  method NextModLoop(mods: seq<string>, index: int, toggles: seq<bool>, req: seq<string>, installed: string -> bool)
    returns (step: Step)
    requires IsI32(index)
    ensures step == NextModAsWritten(mods, index, toggles, req, installed)
    ensures step.Announce? ==> index < step.index <= |mods| + |req|
  {
    if index == I32Max {
      return Crash;
    }
    var next := index + 1;
    while true
      invariant index < next
      invariant Scan(mods, next, toggles, req, installed) == Scan(mods, index + 1, toggles, req, installed)
      decreases |mods| + |req| - next
    {
      if next >= |mods| {
        var r := next - |mods|;
        if r < |req| {
          if !installed(req[r]) {
            return Announce(next + 1, req[r]);
          }
          next := next + 1;
        } else {
          return Finish;
        }
      } else {
        if next < 0 || next >= |toggles| {
          return Crash;
        }
        if toggles[next] {
          break;
        }
        next := next + 1;
      }
    }
    step := Announce(next, mods[next]);
  }

  // ---------------------------------------------------------------------------
  // The order in which gaps are announced

  /** Toggled-on catalogue mods from position `n`, in catalogue order. */
  function ToggledFrom(mods: seq<string>, n: nat, toggles: seq<bool>): seq<string>
    requires n <= |mods| <= |toggles|
    decreases |mods| - n
  {
    if n == |mods| then []
    else (if toggles[n] then [mods[n]] else []) + ToggledFrom(mods, n + 1, toggles)
  }

  /** Required mods from position `r` that are not installed, in order. */
  function MissingFrom(r: nat, req: seq<string>, installed: string -> bool): seq<string>
    requires r <= |req|
    decreases |req| - r
  {
    if r == |req| then []
    else (if installed(req[r]) then [] else [req[r]]) + MissingFrom(r + 1, req, installed)
  }

  /** What position `n` of the scan has to announce: a toggled-on catalogue
      mod, or a required mod that is not installed. */
  function PendingAt(mods: seq<string>, n: nat, toggles: seq<bool>, req: seq<string>, installed: string -> bool): seq<string>
    requires |mods| <= |toggles| && n < |mods| + |req|
  {
    if n < |mods| then (if toggles[n] then [mods[n]] else [])
    else if installed(req[n - |mods|]) then [] else [req[n - |mods|]]
  }

  /** What remains to be announced once the scan is at `n`. */
  function PendingFrom(mods: seq<string>, n: nat, toggles: seq<bool>, req: seq<string>, installed: string -> bool): seq<string>
    requires |mods| <= |toggles| && n <= |mods| + |req|
    decreases |mods| + |req| - n
  {
    if n == |mods| + |req| then []
    else PendingAt(mods, n, toggles, req, installed) + PendingFrom(mods, n + 1, toggles, req, installed)
  }

  /** From the required phase on, the pending mods are the missing required
      mods. */
  lemma {:induction false} PendingInRequiredPhase(mods: seq<string>, n: nat, toggles: seq<bool>, req: seq<string>,
                                                 installed: string -> bool)
    requires |mods| <= |toggles| && |mods| <= n <= |mods| + |req|
    decreases |mods| + |req| - n
    ensures PendingFrom(mods, n, toggles, req, installed) == MissingFrom(n - |mods|, req, installed)
  {
    if n < |mods| + |req| {
      var r := n - |mods|;
      PendingInRequiredPhase(mods, n + 1, toggles, req, installed);
      assert PendingAt(mods, n, toggles, req, installed) == (if installed(req[r]) then [] else [req[r]]);
      assert MissingFrom(r, req, installed) == (if installed(req[r]) then [] else [req[r]]) + MissingFrom(r + 1, req, installed);
    }
  }

  /** In the catalogue phase, the pending mods are the toggled-on ones from
      `n` followed by every missing required mod. */
  lemma {:induction false} PendingInCataloguePhase(mods: seq<string>, n: nat, toggles: seq<bool>, req: seq<string>,
                                                  installed: string -> bool)
    requires n <= |mods| <= |toggles|
    decreases |mods| - n
    ensures PendingFrom(mods, n, toggles, req, installed) == ToggledFrom(mods, n, toggles) + MissingFrom(0, req, installed)
  {
    if n < |mods| {
      PendingInCataloguePhase(mods, n + 1, toggles, req, installed);
      var head := if toggles[n] then [mods[n]] else [];
      assert head + (ToggledFrom(mods, n + 1, toggles) + MissingFrom(0, req, installed))
          == (head + ToggledFrom(mods, n + 1, toggles)) + MissingFrom(0, req, installed);
    } else {
      PendingInRequiredPhase(mods, n, toggles, req, installed);
    }
  }

  /** Nothing toggled on from `n` exactly when no toggle from `n` is on. */
  lemma {:induction false} ToggledFromEmpty(mods: seq<string>, n: nat, toggles: seq<bool>)
    requires n <= |mods| <= |toggles|
    decreases |mods| - n
    ensures ToggledFrom(mods, n, toggles) == [] <==> NoneToggled(toggles, n, |mods|)
  {
    if n < |mods| {
      ToggledFromEmpty(mods, n + 1, toggles);
    }
  }

  /** Nothing missing from `r` exactly when every required mod from `r` is
      installed. */
  lemma {:induction false} MissingFromEmpty(r: nat, req: seq<string>, installed: string -> bool)
    requires r <= |req|
    decreases |req| - r
    ensures MissingFrom(r, req, installed) == [] <==> AllInstalled(req, installed, r, |req|)
  {
    if r < |req| {
      MissingFromEmpty(r + 1, req, installed);
    }
  }

  /** The scan takes the first pending mod: it finishes exactly when
      nothing is pending, and otherwise stops at a position whose mod heads
      the pending list, the rest being what is pending after that position. */
  predicate TakesFirst(mods: seq<string>, s: Stop, pending: seq<string>, toggles: seq<bool>, req: seq<string>,
                       installed: string -> bool)
    requires |toggles| == |mods|
  {
    && (s.Exhausted? <==> pending == [])
    && !s.OutOfRange?
    && (s.Recommended? ==> 0 <= s.pos < |mods|
                           && pending == [mods[s.pos]] + PendingFrom(mods, s.pos + 1, toggles, req, installed))
    && (s.Required? ==> |mods| <= s.pos < |mods| + |req|
                        && pending == [req[s.pos - |mods|]] + PendingFrom(mods, s.pos + 1, toggles, req, installed))
  }

  /** One position of the scan: one with nothing to announce is passed
      over; one with something to announce stops the scan. */
  lemma ScanStep(mods: seq<string>, n: nat, toggles: seq<bool>, req: seq<string>, installed: string -> bool)
    requires |toggles| == |mods| && n < |mods| + |req|
    ensures PendingFrom(mods, n, toggles, req, installed)
         == PendingAt(mods, n, toggles, req, installed) + PendingFrom(mods, n + 1, toggles, req, installed)
    ensures PendingAt(mods, n, toggles, req, installed) == [] ==>
      Scan(mods, n, toggles, req, installed) == Scan(mods, n + 1, toggles, req, installed)
    ensures PendingAt(mods, n, toggles, req, installed) != [] ==>
      Scan(mods, n, toggles, req, installed) == (if n < |mods| then Recommended(n) else Required(n))
  {
  }

  /** Every scan from a position within range takes the first pending mod. */
  lemma {:induction false} ScanTakesFirstPending(mods: seq<string>, n: nat, toggles: seq<bool>, req: seq<string>, installed: string -> bool)
    requires |toggles| == |mods| && n <= |mods| + |req|
    decreases |mods| + |req| - n
    ensures TakesFirst(mods, Scan(mods, n, toggles, req, installed), PendingFrom(mods, n, toggles, req, installed),
                       toggles, req, installed)
  {
    if n == |mods| + |req| {
      assert Scan(mods, n, toggles, req, installed) == Exhausted;
    } else {
      ScanStep(mods, n, toggles, req, installed);
      var here := PendingAt(mods, n, toggles, req, installed);
      var later := PendingFrom(mods, n + 1, toggles, req, installed);
      if here == [] {
        ScanTakesFirstPending(mods, n + 1, toggles, req, installed);
        assert here + later == later;
      }
    }
  }

  /** The names announced by calling `next_mod` (corrected) again and again
      from stored index `index`, until it finishes. */
  function Announcements(mods: seq<string>, index: int, toggles: seq<bool>, req: seq<string>, installed: string -> bool): seq<string>
    requires -1 <= index && |toggles| == |mods| && |mods| + |req| < I32Max
    decreases |mods| + |req| - index
  {
    if index >= |mods| + |req| then []
    else match NextMod(mods, index, toggles, req, installed)
      case Announce(i, name) => [name] + Announcements(mods, i, toggles, req, installed)
      case _ => []
  }

  /** Driving `next_mod` (corrected) from the reset index -1 announces every
      toggled-on catalogue mod in catalogue order, then every missing
      required mod in order, each exactly once, and then finishes. */
  lemma {:induction false} AnnouncesEveryGap(mods: seq<string>, index: int, toggles: seq<bool>, req: seq<string>, installed: string -> bool)
    requires -1 <= index < |mods| + |req| && |toggles| == |mods| && |mods| + |req| < I32Max
    decreases |mods| + |req| - index
    ensures Announcements(mods, index, toggles, req, installed) == PendingFrom(mods, index + 1, toggles, req, installed)
    ensures index == -1 ==> Announcements(mods, index, toggles, req, installed)
                            == ToggledFrom(mods, 0, toggles) + MissingFrom(0, req, installed)
  {
    var s := Scan(mods, index + 1, toggles, req, installed);
    ScanStops(mods, index + 1, toggles, req, installed);
    if s.Recommended? || s.Required? {
      AnnouncesEveryGap(mods, s.pos, toggles, req, installed);
    }
    AnnouncementStepMatchesPending(mods, index, toggles, req, installed);
    if index == -1 {
      PendingInCataloguePhase(mods, 0, toggles, req, installed);
    }
  }

  /** If the announcements after the next stop are what is pending after it,
      the announcements from `index` are what is pending from `index + 1`. */
  lemma AnnouncementStepMatchesPending(mods: seq<string>, index: int, toggles: seq<bool>, req: seq<string>,
                                       installed: string -> bool)
    requires -1 <= index < |mods| + |req| && |toggles| == |mods| && |mods| + |req| < I32Max
    requires var s := Scan(mods, index + 1, toggles, req, installed);
      (s.Recommended? || s.Required?) ==>
        && -1 <= s.pos < |mods| + |req|
        && Announcements(mods, s.pos, toggles, req, installed) == PendingFrom(mods, s.pos + 1, toggles, req, installed)
    ensures Announcements(mods, index, toggles, req, installed) == PendingFrom(mods, index + 1, toggles, req, installed)
  {
    var s := Scan(mods, index + 1, toggles, req, installed);
    var pending := PendingFrom(mods, index + 1, toggles, req, installed);
    ScanTakesFirstPending(mods, index + 1, toggles, req, installed);
    assert TakesFirst(mods, s, pending, toggles, req, installed);
    NextModFollowsScan(mods, index, toggles, req, installed);
    AnnouncementsStep(mods, index, toggles, req, installed);
    var here := Announcements(mods, index, toggles, req, installed);
    if s.Recommended? {
      assert here == [mods[s.pos]] + Announcements(mods, s.pos, toggles, req, installed);
    } else if s.Required? {
      assert here == [req[s.pos - |mods|]] + Announcements(mods, s.pos, toggles, req, installed);
    } else {
      assert here == [] == pending;
    }
  }

  /** One round of `Announcements`. */
  lemma AnnouncementsStep(mods: seq<string>, index: int, toggles: seq<bool>, req: seq<string>, installed: string -> bool)
    requires -1 <= index < |mods| + |req| && |toggles| == |mods| && |mods| + |req| < I32Max
    ensures var step := NextMod(mods, index, toggles, req, installed);
      && (step.Announce? ==>
            Announcements(mods, index, toggles, req, installed) == [step.name] + Announcements(mods, step.index, toggles, req, installed))
      && (!step.Announce? ==> Announcements(mods, index, toggles, req, installed) == [])
  {
  }

  /** With no toggle on from 0 and every required mod installed, the scan
      from 0 is exhausted, and conversely. */
  lemma ScanFromStartExhausted(mods: seq<string>, toggles: seq<bool>, req: seq<string>, installed: string -> bool)
    requires |toggles| == |mods|
    ensures Scan(mods, 0, toggles, req, installed).Exhausted?
        <==> NoneToggled(toggles, 0, |mods|) && AllInstalled(req, installed, 0, |req|)
  {
    ScanTakesFirstPending(mods, 0, toggles, req, installed);
    PendingInCataloguePhase(mods, 0, toggles, req, installed);
    ToggledFromEmpty(mods, 0, toggles);
    MissingFromEmpty(0, req, installed);
  }

  /** Installs are skipped exactly when there is nothing to announce: when
      `is_mod_installed` agrees with the installed ids on the required mods,
      the gap's skip flag holds if and only if `next_mod` (corrected), started
      from the reset index on the reduced toggles, finishes at once. */
  lemma SkipIffNothingToAnnounce(mods: seq<string>, toggles: seq<bool>, installedIds: seq<string>, req: seq<string>,
                                 installed: string -> bool)
    requires GapOf(mods, toggles, installedIds, req).Ok?
    requires forall k :: 0 <= k < |req| ==> (installed(req[k]) <==> Lower(req[k]) in installedIds)
    ensures var g := GapOf(mods, toggles, installedIds, req).value;
      g.skip <==> NextMod(mods, -1, g.toggles, req, installed) == Finish
  {
    var g := GapOf(mods, toggles, installedIds, req).value;
    ScanFromStartExhausted(mods, g.toggles, req, installed);
    NextModFollowsScan(mods, -1, g.toggles, req, installed);
  }

  // ---------------------------------------------------------------------------
  // The code as written

  /** A catalogue of `n` toggles, all off. */
  function AllOff(n: nat): (t: seq<bool>)
    ensures |t| == n && forall i :: 0 <= i < n ==> !t[i]
  {
    seq(n, _ => false)
  }

  /** An `is_mod_installed` that finds nothing installed. */
  function NothingInstalled(name: string): bool {
    false
  }

  /** With nothing toggled on and nothing installed, both required mods are
      pending. */
  lemma {:induction false} BothRequiredPending(mods: seq<string>, a: string, b: string)
    ensures PendingFrom(mods, 0, AllOff(|mods|), [a, b], NothingInstalled) == [a, b]
  {
    var toggles := AllOff(|mods|);
    var req := [a, b];
    ToggledFromEmpty(mods, 0, toggles);
    PendingInCataloguePhase(mods, 0, toggles, req, NothingInstalled);
    assert MissingFrom(2, req, NothingInstalled) == [];
    assert MissingFrom(1, req, NothingInstalled) == [b];
    assert MissingFrom(0, req, NothingInstalled) == [a] + [b];
  }

  /** The first advance from the reset index announces `a` and stores the
      catalogue length + 1. */
  lemma AsWrittenFirstAdvance(mods: seq<string>, a: string, b: string)
    requires |mods| + 2 < I32Max
    ensures NextModAsWritten(mods, -1, AllOff(|mods|), [a, b], NothingInstalled) == Announce(|mods| + 1, a)
  {
    var toggles := AllOff(|mods|);
    var req := [a, b];
    ScanStops(mods, 0, toggles, req, NothingInstalled);
    assert !NothingInstalled(req[0]);
  }

  /** The second advance starts past `b` and finishes. */
  lemma AsWrittenSecondAdvance(mods: seq<string>, a: string, b: string)
    requires |mods| + 2 < I32Max
    ensures NextModAsWritten(mods, |mods| + 1, AllOff(|mods|), [a, b], NothingInstalled) == Finish
  {
    assert Scan(mods, |mods| + 2, AllOff(|mods|), [a, b], NothingInstalled) == Exhausted;
  }

  /** `next_mod` as written never announces the required mod that follows an
      announced required mod: with nothing toggled on and two required mods
      `a` and `b` missing, both are pending, yet the first advance announces
      `a` and stores the catalogue length + 1, and the next advance starts
      past `b` and finishes. */
  lemma {:induction false} AsWrittenSkipsNextRequiredMod(mods: seq<string>, a: string, b: string)
    requires |mods| + 2 < I32Max
    ensures PendingFrom(mods, 0, AllOff(|mods|), [a, b], NothingInstalled) == [a, b]
    ensures NextModAsWritten(mods, -1, AllOff(|mods|), [a, b], NothingInstalled) == Announce(|mods| + 1, a)
    ensures NextModAsWritten(mods, |mods| + 1, AllOff(|mods|), [a, b], NothingInstalled) == Finish
  {
    BothRequiredPending(mods, a, b);
    AsWrittenFirstAdvance(mods, a, b);
    AsWrittenSecondAdvance(mods, a, b);
  }
}
