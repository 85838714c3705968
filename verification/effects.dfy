/** The observable behaviour of the installer thread: the messages it sends on
    its channel and the network, filesystem and process actions it attempts,
    in order. Whether a filesystem action succeeds is decided by an oracle
    `ok`, since the real outcome depends on the machine. */
module Effects {

  import opened Paths
  import opened Benchmark

  /** `BenchmarkingStatus`, as far as the code names it. */
  datatype Status = Install | InstallMod | Running

  /** The progress values the installer reports, as ordered labels:
      `Reset` is 0.0, `ServerReady` 0.25, `JvmReady` 0.65, `Complete` 1.0. */
  datatype Milestone = Reset | ServerReady | JvmReady | Complete

  /** `InstallerMsg`. */
  datatype Msg =
    | Progress(at: Milestone)
    | StatusMsg(status: Status)
    | InstallingMsg(text: string)
    | ErrorMsg(text: string)

  datatype Effect =
    | Send(msg: Msg)                      // `sender.send(..).ok()`: never fails
    | Get(url: string)                    // an HTTP GET; its reply is an input
    | CreateDir(path: Path)               // `fs::create_dir`
    | CreateDirAll(path: Path)            // `fs::create_dir_all`
    | CreateFile(path: Path)              // `File::create`
    | WriteData(path: Path)               // `write_all` / `io::copy` into the file
    | SetMode(path: Path, mode: nat)      // `fs::set_permissions`
    | RemoveFile(path: Path)              // `fs::remove_file`
    | OpenFile(path: Path)                // `File::open`
    | ReadText(path: Path)                // `fs::read_to_string`; the text read is an input
    | WriteText(path: Path, text: string) // `fs::write`
    | LaunchJvm(command: Command)         // `launch_jar`: spawn and wait

  /** An action that returns an `io::Result` the code propagates. */
  predicate Fallible(e: Effect) {
    !(e.Send? || e.Get? || e.LaunchJvm?)
  }

  /** Attempts the actions of `plan` in order and stops at the first one the
      oracle refuses. Answers the attempted actions and whether all succeeded. */
  function Perform(plan: seq<Effect>, ok: Effect -> bool): (r: (seq<Effect>, bool))
    ensures r.0 <= plan
    ensures r.1 <==> forall k :: 0 <= k < |plan| ==> ok(plan[k])
    ensures r.1 ==> r.0 == plan
    ensures !r.1 ==> |r.0| > 0 && !ok(r.0[|r.0| - 1])
    ensures forall k :: 0 <= k < |r.0| - 1 ==> ok(r.0[k])
  {
    if |plan| == 0 then ([], true)
    else if !ok(plan[0]) then ([plan[0]], false)
    else
      var rest := Perform(plan[1..], ok);
      assert forall k :: 0 <= k < |plan| - 1 ==> plan[1..][k] == plan[k + 1];
      ([plan[0]] + rest.0, rest.1)
  }

  /** The progress labels of a trace, in the order they were sent. */
  function ProgressSent(trace: seq<Effect>): seq<Milestone> {
    if |trace| == 0 then []
    else (if trace[0].Send? && trace[0].msg.Progress? then [trace[0].msg.at] else [])
         + ProgressSent(trace[1..])
  }

  lemma {:induction false} ProgressSentAppend(a: seq<Effect>, b: seq<Effect>)
    ensures ProgressSent(a + b) == ProgressSent(a) + ProgressSent(b)
  {
    if |a| > 0 {
      ProgressSentAppend(a[1..], b);
      assert (a + b)[1..] == a[1..] + b;
    } else {
      assert a + b == b;
    }
  }
}
