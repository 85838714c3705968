/** `src/system_info.rs`: the CPU line, the logical-core count and the GPU
    lines of the system information panel, computed from what the hardware
    queries report (the queries themselves are inputs). */
module SystemInfo {

  import opened Outcomes
  import opened Text

  /** One CPU as the hardware query reports it. */
  datatype Cpu = Cpu(modelName: string, logicalCores: int)   // `num_logical_cores`, an `i32`

  /** One GPU as the hardware query reports it. */
  datatype Gpu = Gpu(name: string, numCores: int)

  // ---------------------------------------------------------------------------
  // CPU line

  /** The CPU line: the first CPU's model name, followed by ` x<count>` when
      there is more than one CPU; no CPU at all makes the index `[0]` panic. */
  function CpuLabel(cpus: seq<Cpu>): (r: Outcome<string>)
    ensures r.Ok? <==> |cpus| > 0
    ensures !r.Ok? ==> r.Panic?
  {
    if |cpus| == 0 then Panic
    else if |cpus| > 1 then Ok(cpus[0].modelName + " x" + NatToString(|cpus|))
    else Ok(cpus[0].modelName)
  }

  /** The line starts with the first model name; with several CPUs the text
      after that name and ` x` reads back as the number of CPUs, and a single
      CPU shows its name alone. */
  lemma CpuLabelCount(cpus: seq<Cpu>)
    requires |cpus| > 0
    ensures var line := CpuLabel(cpus).value; var name := cpus[0].modelName;
      && StartsWith(line, name)
      && (|cpus| == 1 ==> line == name)
      && (|cpus| > 1 ==> |line| > |name| + 2 && line[|name|..|name| + 2] == " x"
                         && ParseNat(line[|name| + 2..]) == Some(|cpus|))
  {
    var line, name := CpuLabel(cpus).value, cpus[0].modelName;
    if |cpus| > 1 {
      var count := NatToString(|cpus|);
      assert line == name + " x" + count;
      assert line[|name| + 2..] == count;
      NatToStringRoundTrip(|cpus|);
    }
  }

  // ---------------------------------------------------------------------------
  // Core count

  /** The mathematical total of the logical cores. */
  function TotalCores(cpus: seq<Cpu>): int {
    if |cpus| == 0 then 0 else cpus[0].logicalCores + TotalCores(cpus[1..])
  }

  /** `iter().sum()` into an `i32`, from `acc` on: the cores are added left to
      right and an intermediate sum outside the `i32` range overflows, which
      panics when overflow checks are on. */
  function SumCores(acc: int, cpus: seq<Cpu>): (r: Outcome<int>)
    requires IsI32(acc)
    ensures !r.Err?
    ensures r.Ok? ==> IsI32(r.value)
    decreases |cpus|
  {
    if |cpus| == 0 then Ok(acc)
    else
      var next := acc + cpus[0].logicalCores;
      if !IsI32(next) then Panic else SumCores(next, cpus[1..])
  }

  /** The core count of the panel. */
  function Cores(cpus: seq<Cpu>): (r: Outcome<int>)
    ensures !r.Err?
  {
    SumCores(0, cpus)
  }

  /** A sum that does not overflow is the total. */
  lemma {:induction false} SumCoresIsTotal(acc: int, cpus: seq<Cpu>)
    requires IsI32(acc)
    requires SumCores(acc, cpus).Ok?
    ensures SumCores(acc, cpus).value == acc + TotalCores(cpus)
    decreases |cpus|
  {
    if |cpus| > 0 {
      SumCoresIsTotal(acc + cpus[0].logicalCores, cpus[1..]);
    }
  }

  predicate NoNegativeCores(cpus: seq<Cpu>) {
    forall k :: 0 <= k < |cpus| ==> cpus[k].logicalCores >= 0
  }

  /** With no negative count the running sum only grows, so it overflows
      exactly when the total leaves the `i32` range. */
  lemma {:induction false} SumCoresOverflowsIffTotalDoes(acc: int, cpus: seq<Cpu>)
    requires IsI32(acc) && acc >= 0 && NoNegativeCores(cpus)
    ensures SumCores(acc, cpus).Ok? <==> acc + TotalCores(cpus) <= I32Max
    ensures TotalCores(cpus) >= 0
    decreases |cpus|
  {
    if |cpus| > 0 {
      assert NoNegativeCores(cpus[1..]) by {
        assert forall k :: 0 <= k < |cpus| - 1 ==> cpus[1..][k] == cpus[k + 1];
      }
      var next := acc + cpus[0].logicalCores;
      SumCoresOverflowsIffTotalDoes(if IsI32(next) then next else 0, cpus[1..]);
    }
  }

  /** The panel's count is the total number of logical cores whenever that
      total fits an `i32`, and panics otherwise. */
  lemma CoresIsTotal(cpus: seq<Cpu>)
    requires NoNegativeCores(cpus)
    ensures Cores(cpus).Ok? <==> TotalCores(cpus) <= I32Max
    ensures Cores(cpus).Ok? ==> Cores(cpus).value == TotalCores(cpus)
  {
    SumCoresOverflowsIffTotalDoes(0, cpus);
    if Cores(cpus).Ok? {
      SumCoresIsTotal(0, cpus);
    }
  }

  // ---------------------------------------------------------------------------
  // GPU lines

  /** One GPU's entry: its name, followed by the core count in parentheses
      when that count is not zero. */
  function GpuEntry(g: Gpu): (r: string)
    ensures StartsWith(r, g.name)
    ensures g.numCores == 0 <==> r == g.name
  {
    if g.numCores != 0 then g.name + " (" + IntToString(g.numCores) + ")" else g.name
  }

  /** A non-zero count can be read back from between the parentheses. */
  lemma GpuEntryCount(g: Gpu)
    requires g.numCores > 0
    ensures var e := GpuEntry(g);
      && |e| >= |g.name| + 3
      && e[|g.name|..|g.name| + 2] == " (" && e[|e| - 1] == ')'
      && ParseNat(e[|g.name| + 2..|e| - 1]) == Some(g.numCores)
  {
    var e := GpuEntry(g);
    var count := NatToString(g.numCores);
    assert e == g.name + " (" + count + ")";
    assert e[|g.name| + 2..|e| - 1] == count;
    NatToStringRoundTrip(g.numCores);
  }

  /** The entries of the GPUs, in query order. */
  function Entries(gpus: seq<Gpu>): (r: seq<string>)
    ensures |r| == |gpus|
    ensures forall k :: 0 <= k < |gpus| ==> r[k] == GpuEntry(gpus[k])
  {
    seq(|gpus|, k requires 0 <= k < |gpus| => GpuEntry(gpus[k]))
  }

  /** The list without its leading empty strings. */
  function DropLeadingEmpty(xs: seq<string>): (r: seq<string>)
    ensures |r| <= |xs|
    ensures |r| > 0 ==> r[0] != ""
  {
    if |xs| == 0 then [] else if xs[0] == "" then DropLeadingEmpty(xs[1..]) else xs
  }

  /** Dropping the leading empty strings keeps a suffix of the list. */
  lemma {:induction false} DropLeadingEmptyIsSuffix(xs: seq<string>)
    ensures DropLeadingEmpty(xs) == xs[|xs| - |DropLeadingEmpty(xs)|..]
  {
    if |xs| > 0 && xs[0] == "" {
      DropLeadingEmptyIsSuffix(xs[1..]);
    }
  }

  /** The GPU text: the entries joined with newlines, an entry being preceded
      by a newline only when something is already written; empty entries at
      the front therefore leave no trace. */
  function GpuText(gpus: seq<Gpu>): string {
    Join(DropLeadingEmpty(Entries(gpus)), "\n")
  }

  lemma {:induction false} JoinSnoc(xs: seq<string>, sep: string, e: string)
    requires |xs| > 0
    ensures Join(xs + [e], sep) == Join(xs, sep) + sep + e
    decreases |xs|
  {
    if |xs| == 1 {
      assert xs + [e] == [xs[0], e];
      assert [xs[0], e][1..] == [e];
    } else {
      assert (xs + [e])[1..] == xs[1..] + [e];
      JoinSnoc(xs[1..], sep, e);
    }
  }

  lemma {:induction false} JoinStartsWithFirst(xs: seq<string>, sep: string)
    requires |xs| > 0
    ensures |Join(xs, sep)| >= |xs[0]|
    ensures Join(xs, sep)[..|xs[0]|] == xs[0]
  {
  }

  lemma {:induction false} DropLeadingEmptySnoc(xs: seq<string>, e: string)
    ensures DropLeadingEmpty(xs + [e]) ==
      if DropLeadingEmpty(xs) == [] then DropLeadingEmpty([e]) else DropLeadingEmpty(xs) + [e]
    decreases |xs|
  {
    if |xs| > 0 {
      assert (xs + [e])[0] == xs[0];
      assert (xs + [e])[1..] == xs[1..] + [e];
      if xs[0] == "" {
        DropLeadingEmptySnoc(xs[1..], e);
      }
    } else {
      assert xs + [e] == [e];
    }
  }

  /** One turn of the loop: a newline when something is written, then the
      entry, turns the text of `xs` into the text of `xs + [e]`. */
  lemma GpuStep(xs: seq<string>, e: string)
    ensures var text := Join(DropLeadingEmpty(xs), "\n");
      Join(DropLeadingEmpty(xs + [e]), "\n") == (if text != "" then text + "\n" else text) + e
  {
    var before := DropLeadingEmpty(xs);
    var text := Join(before, "\n");
    DropLeadingEmptySnoc(xs, e);
    if before != [] {
      JoinSnoc(before, "\n", e);
      JoinStartsWithFirst(before, "\n");
      assert text != "";
    } else {
      assert text == "";
      if e == "" {
        assert DropLeadingEmpty([e]) == [];
      } else {
        assert DropLeadingEmpty([e]) == [e];
      }
    }
  }

  /** The loop of the GPU section, statement by statement. */
  method GpuSummary(gpus: seq<Gpu>) returns (text: string)
    ensures text == GpuText(gpus)
  {
    var es := Entries(gpus);
    text := "";
    var i := 0;
    while i < |gpus|
      invariant 0 <= i <= |gpus|
      invariant text == Join(DropLeadingEmpty(es[..i]), "\n")
    {
      GpuStep(es[..i], es[i]);
      assert es[..i + 1] == es[..i] + [es[i]];
      if text != "" {
        text := text + "\n";
      }
      text := text + GpuEntry(gpus[i]);
      i := i + 1;
    }
    assert es[..i] == es;
  }

  lemma EntryOnOneLine(g: Gpu)
    requires '\n' !in g.name
    ensures '\n' !in GpuEntry(g)
  {
    if g.numCores != 0 {
      assert GpuEntry(g) == g.name + " (" + IntToString(g.numCores) + ")";
    }
  }

  /** When no GPU name holds a newline, cutting the text at its newlines
      gives one line per GPU, in order, after dropping the GPUs whose entry
      is empty at the front. */
  lemma GpuTextLines(gpus: seq<Gpu>)
    requires forall k :: 0 <= k < |gpus| ==> '\n' !in gpus[k].name
    requires GpuText(gpus) != ""
    ensures SplitOn(GpuText(gpus), '\n') == DropLeadingEmpty(Entries(gpus))
  {
    var es := Entries(gpus);
    var kept := DropLeadingEmpty(es);
    forall k | 0 <= k < |es| ensures '\n' !in es[k] {
      EntryOnOneLine(gpus[k]);
    }
    DropLeadingEmptyIsSuffix(es);
    assert forall k :: 0 <= k < |kept| ==> kept[k] == es[|es| - |kept| + k];
    SplitJoinRoundTrip(kept, '\n');
  }
}
