/** `src/benchmark.rs`: the command line that starts the game server. */
module Benchmark {

  import opened Outcomes
  import opened Text
  import opened Paths

  /** Rust `u32`. */
  type U32 = n: nat | n < 0x1_0000_0000

  /** What `std::process::Command` is given: the program, its arguments in
      order, and the working directory. */
  datatype Command = Command(program: Path, args: seq<string>, cwd: Path)

  /** The server artifact every launch runs. */
  const JarName: string := "fabric-server.jar"

  /** `format!("{prefix}{memory}G")`. */
  function HeapFlag(prefix: string, memory: nat): string {
    prefix + NatToString(memory) + "G"
  }

  /** Reads the gigabyte count back from a heap flag such as `-Xmx4G`. */
  function HeapFlagValue(flag: string, prefix: string): Option<nat> {
    if StartsWith(flag, prefix) && |flag| > |prefix| && flag[|flag| - 1] == 'G'
    then ParseNat(flag[|prefix|..|flag| - 1])
    else None
  }

  /** A heap flag reads back as the size it was built from. */
  lemma HeapFlagRoundTrip(prefix: string, memory: nat)
    ensures HeapFlagValue(HeapFlag(prefix, memory), prefix) == Some(memory)
  {
    var f := HeapFlag(prefix, memory);
    assert f[..|prefix|] == prefix;
    assert f[|prefix|..|f| - 1] == NatToString(memory);
    NatToStringRoundTrip(memory);
  }

  /** `Command::arg`. */
  function Arg(c: Command, a: string): Command {
    c.(args := c.args + [a])
  }

  /** `Command::args`. */
  function ArgList(c: Command, xs: seq<string>): Command {
    c.(args := c.args + xs)
  }

  /** The JVM executable of distribution `jvm`: `bin/javaw.exe` on Windows,
      `bin/java` elsewhere, inside the lower-cased distribution directory. */
  function JvmExecutable(jvm: string, windows: bool): Path {
    if windows then JavaDir + [Lower(jvm), "bin", "javaw.exe"]
    else JavaDir + [Lower(jvm), "bin", "java"]
  }

  /** `launch_jar(version, jvm, memory, args)`, up to the spawn: the program,
      the argument list and the working directory. `windows` stands for
      `cfg!(target_os = "windows")`. */
  function LaunchCommand(version: string, jvm: string, memory: U32, args: seq<string>, windows: bool): (c: Command)
    ensures |c.args| == |args| + 4
    ensures c.args[0] == "-Xms" + NatToString(memory) + "G"
    ensures c.args[1] == "-Xmx" + NatToString(memory) + "G"
    ensures HeapFlagValue(c.args[0], "-Xms") == Some(memory as nat)
    ensures HeapFlagValue(c.args[1], "-Xmx") == Some(memory as nat)
    ensures c.args[2..|c.args| - 2] == args
    ensures c.args[|c.args| - 2..] == ["-jar", "fabric-server.jar"]
    ensures |c.program| == |JavaDir| + 3
    ensures c.program[..|JavaDir|] == JavaDir && c.program[|JavaDir|] == Lower(jvm)
    ensures c.program[|c.program| - 2..] == (if windows then ["bin", "javaw.exe"] else ["bin", "java"])
    ensures c.cwd == ServerDir + [version]
  {
    var command := Command(JvmExecutable(jvm, windows), [], []);
    var heap := Arg(Arg(command, HeapFlag("-Xms", memory)), HeapFlag("-Xmx", memory));
    var full := Arg(Arg(ArgList(heap, args), "-jar"), JarName);
    HeapFlagRoundTrip("-Xms", memory);
    HeapFlagRoundTrip("-Xmx", memory);
    full.(cwd := ServerDir + [version])
  }

  /** Both heap flags carry the same size: the minimum heap is the maximum. */
  lemma HeapBoundsEqual(version: string, jvm: string, memory: U32, args: seq<string>, windows: bool)
    ensures var c := LaunchCommand(version, jvm, memory, args, windows);
      HeapFlagValue(c.args[0], "-Xms") == HeapFlagValue(c.args[1], "-Xmx")
  {
  }

  /** What the caller of `launch_jar` can observe: a spawn failure is only
      logged; a spawned server is waited for. Nothing is returned either way. */
  datatype Launched = WaitedForExit(command: Command) | SpawnFailureLogged(command: Command)

  function LaunchJar(version: string, jvm: string, memory: U32, args: seq<string>, windows: bool,
                     spawnOk: bool): (r: Launched)
    ensures r.WaitedForExit? <==> spawnOk
    ensures r.command.cwd == ServerDir + [version]
    ensures |r.command.args| == |args| + 4
    ensures r.command.args[2..|r.command.args| - 2] == args
  {
    var c := LaunchCommand(version, jvm, memory, args, windows);
    if spawnOk then WaitedForExit(c) else SpawnFailureLogged(c)
  }
}
