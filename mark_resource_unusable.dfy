/** Marks a locally hosted iRODS storage resource as unusable for new writes:
    its `minimum_free_space_for_create_in_bytes` context is set, through
    `iadmin modresc`, to the total capacity of the filesystem behind the
    resource's vault `/<resource>`.

    The operating system and the child process are not modelled; their answers
    are the fields of `Env`, and everything the tool does is recorded, in
    order, as a sequence of `Event`s. */
module MarkResourceUnusable {
  import opened Decimal

  /** The administrative command the tool spawns. */
  const IADMIN_CMD: string := "/usr/bin/iadmin"

  /** The context key that holds the threshold, with the `=` that separates
      it from the value. */
  const THRESHOLD_PREFIX: string := "minimum_free_space_for_create_in_bytes="

  /** The fields of a `statvfs` answer the tool could read: the fragment size,
      the total number of blocks (in units of the fragment size), and the free
      and the available block counts. */
  datatype StatVfs = StatVfs(frsize: nat, blocks: nat, bfree: nat, bavail: nat)

  datatype StatAnswer = StatOk(st: StatVfs) | StatFailed

  /** What a finished child reports: its exit status and its combined
      standard output and standard error. */
  datatype ChildAnswer = ChildAnswer(returnCode: nat, output: string)

  /** The environment's answer to each question the tool can ask. */
  datatype Env = Env(
    isDir: string -> bool,
    statvfs: string -> StatAnswer,
    iadmin: seq<string> -> ChildAnswer)

  datatype Stream = Stdout | Stderr

  datatype Event =
    | IsDirQuery(path: string)
    | StatQuery(path: string)
    | Write(stream: Stream, text: string)
    | Spawn(argv: seq<string>)
      /** The interpreter's report of an uncaught exception. Its text is not
          modelled, so `Writes` leaves it out. */
    | Traceback

  /** How `set_min_free_space_for_create` ends: by returning, through
      `sys.exit(code)`, or by an exception it does not catch. */
  datatype Exit = Returned | SysExit(code: nat) | Raised

  function VaultPath(resource: string): string {
    "/" + resource
  }

  /** Total capacity in bytes: `f_blocks` counts units of `f_frsize`. */
  function Capacity(st: StatVfs): nat {
    st.frsize * st.blocks
  }

  function ModrescArgv(resource: string, size: nat): seq<string> {
    [IADMIN_CMD, "modresc", resource, "context", THRESHOLD_PREFIX + Render(size)]
  }

  function ProgressLine(resource: string, size: nat): string {
    "setting minimum free space for resource " + resource + " to " + Render(size) + " bytes...\n"
  }

  function FailureReport(output: string): string {
    "Failed! Output:\n" + output + "\n"
  }

  function IsDirFailure(path: string, resource: string): string {
    "isdir check failed for vault " + path + " of resource " + resource + "\n"
  }

  /** `part` occurs in `text` starting at index `i`. */
  predicate OccursAt(text: string, part: string, i: nat) {
    i + |part| <= |text| && text[i..i + |part|] == part
  }

  /** `part` occurs in `text` as a contiguous piece. */
  predicate Mentions(text: string, part: string) {
    exists i: nat | i <= |text| :: OccursAt(text, part, i)
  }

  /** The argument vector `e` spawns, if it spawns one. */
  function SpawnedBy(e: Event): seq<seq<string>> {
    if e.Spawn? then [e.argv] else []
  }

  /** The text `e` writes to `stream`, if it writes there. */
  function WrittenBy(e: Event, stream: Stream): seq<string> {
    if e.Write? && e.stream == stream then [e.text] else []
  }

  /** The argument vectors of the commands spawned, in order. */
  function Invocations(trace: seq<Event>): seq<seq<string>> {
    if trace == [] then [] else SpawnedBy(trace[0]) + Invocations(trace[1..])
  }

  /** The texts written to `stream`, in order. */
  function Writes(trace: seq<Event>, stream: Stream): seq<string> {
    if trace == [] then [] else WrittenBy(trace[0], stream) + Writes(trace[1..], stream)
  }

  /** Every filesystem question in `trace` is about `path`. */
  predicate ConsultsOnly(trace: seq<Event>, path: string) {
    forall i | 0 <= i < |trace| && (trace[i].IsDirQuery? || trace[i].StatQuery?) :: trace[i].path == path
  }

  /** No filesystem question is asked at index `from` or later. */
  predicate NoQueriesFrom(trace: seq<Event>, from: nat) {
    forall i | from <= i < |trace| :: !trace[i].IsDirQuery? && !trace[i].StatQuery?
  }

  /** The interpreter reports no uncaught exception anywhere in `trace`. */
  predicate NoTraceback(trace: seq<Event>) {
    forall i | 0 <= i < |trace| :: !trace[i].Traceback?
  }

  /** `first` occurs in `trace` before `second`. */
  predicate Precedes(trace: seq<Event>, first: Event, second: Event) {
    exists i, j | 0 <= i < j < |trace| :: trace[i] == first && trace[j] == second
  }

  /** The numeral in a threshold setting, if the argument has that shape. */
  function ThresholdValue(arg: string): Option<nat> {
    if |arg| >= |THRESHOLD_PREFIX| && arg[..|THRESHOLD_PREFIX|] == THRESHOLD_PREFIX
    then Parse(arg[|THRESHOLD_PREFIX|..])
    else None
  }

  lemma MentionsSuffix(text: string, part: string)
    ensures Mentions(text + part, part)
  {
    assert OccursAt(text + part, part, |text|);
  }

  lemma MentionsExtend(text: string, more: string, part: string)
    requires Mentions(text, part)
    ensures Mentions(text + more, part)
  {
    var i: nat :| i <= |text| && OccursAt(text, part, i);
    assert (text + more)[i..i + |part|] == text[i..i + |part|];
    assert OccursAt(text + more, part, i);
  }

  lemma ChannelsOfCons(e: Event, trace: seq<Event>)
    ensures Invocations([e] + trace) == SpawnedBy(e) + Invocations(trace)
    ensures Writes([e] + trace, Stdout) == WrittenBy(e, Stdout) + Writes(trace, Stdout)
    ensures Writes([e] + trace, Stderr) == WrittenBy(e, Stderr) + Writes(trace, Stderr)
  {
  }

  /** What a trace spawns is what its two parts spawn, in order. */
  lemma {:induction false} InvocationsOfAppend(front: seq<Event>, back: seq<Event>)
    ensures Invocations(front + back) == Invocations(front) + Invocations(back)
  {
    if front == [] {
      assert front + back == back;
    } else {
      assert (front + back)[1..] == front[1..] + back;
      InvocationsOfAppend(front[1..], back);
    }
  }

  /** What a trace writes to a stream is what its two parts write there, in
      order. */
  lemma {:induction false} WritesOfAppend(front: seq<Event>, back: seq<Event>, stream: Stream)
    ensures Writes(front + back, stream) == Writes(front, stream) + Writes(back, stream)
  {
    if front == [] {
      assert front + back == back;
    } else {
      assert (front + back)[1..] == front[1..] + back;
      WritesOfAppend(front[1..], back, stream);
    }
  }

  /** The trace of a rejected vault: the directory check, then the message. */
  lemma RejectedTrace(path: string, message: string, trace: seq<Event>)
    requires trace == [IsDirQuery(path), Write(Stderr, message)]
    ensures |trace| > 0 && trace[0] == IsDirQuery(path)
    ensures ConsultsOnly(trace, path) && NoQueriesFrom(trace, 1) && NoTraceback(trace)
    ensures Invocations(trace) == [] && Writes(trace, Stdout) == [] && Writes(trace, Stderr) == [message]
  {
    ChannelsOfCons(Write(Stderr, message), []);
    ChannelsOfCons(IsDirQuery(path), [Write(Stderr, message)]);
  }

  /** The trace when `statvfs` raises: the two questions and nothing else. */
  lemma StatFailedTrace(path: string, trace: seq<Event>)
    requires trace == [IsDirQuery(path), StatQuery(path)]
    ensures |trace| > 1 && trace[0] == IsDirQuery(path) && trace[1] == StatQuery(path)
    ensures trace[|trace| - 1] == StatQuery(path)
    ensures ConsultsOnly(trace, path) && NoQueriesFrom(trace, 2) && NoTraceback(trace)
    ensures Invocations(trace) == [] && Writes(trace, Stdout) == [] && Writes(trace, Stderr) == []
  {
    ChannelsOfCons(StatQuery(path), []);
    ChannelsOfCons(IsDirQuery(path), [StatQuery(path)]);
  }

  /** The trace of an accepted vault, up to and including the spawn. */
  lemma AcceptedTrace(path: string, progress: string, argv: seq<string>)
    ensures var t := [IsDirQuery(path), StatQuery(path), Write(Stdout, progress), Spawn(argv)];
      && Invocations(t) == [argv] && Writes(t, Stdout) == [progress] && Writes(t, Stderr) == []
  {
    var t := [IsDirQuery(path), StatQuery(path), Write(Stdout, progress), Spawn(argv)];
    ChannelsOfCons(Spawn(argv), []);
    ChannelsOfCons(Write(Stdout, progress), [Spawn(argv)]);
    assert t[2..] == [Write(Stdout, progress), Spawn(argv)];
    ChannelsOfCons(StatQuery(path), t[2..]);
    assert t[1..] == [StatQuery(path)] + t[2..];
    ChannelsOfCons(IsDirQuery(path), t[1..]);
    assert t == [IsDirQuery(path)] + t[1..];
  }

  /** An accepted vault's trace, followed by `rest` which asks and raises nothing: the
      trace asks only about the vault, asks each question once, reads the
      capacity before it writes the progress line, and writes that line
      before the spawn. */
  lemma AcceptedOrder(path: string, progress: string, argv: seq<string>, rest: seq<Event>, trace: seq<Event>)
    requires NoQueriesFrom(rest, 0) && NoTraceback(rest)
    requires trace == [IsDirQuery(path), StatQuery(path), Write(Stdout, progress), Spawn(argv)] + rest
    ensures |trace| > 1 && trace[0] == IsDirQuery(path) && trace[1] == StatQuery(path)
    ensures rest != [] ==> trace[|trace| - 1] == rest[|rest| - 1]
    ensures ConsultsOnly(trace, path) && NoQueriesFrom(trace, 2) && NoTraceback(trace)
    ensures Precedes(trace, StatQuery(path), Write(Stdout, progress))
    ensures Precedes(trace, Write(Stdout, progress), Spawn(argv))
  {
    assert trace[1] == StatQuery(path) && trace[2] == Write(Stdout, progress) && trace[3] == Spawn(argv);
    forall i | 4 <= i < |trace|
      ensures !trace[i].IsDirQuery? && !trace[i].StatQuery? && !trace[i].Traceback?
    {
      assert trace[i] == rest[i - 4];
    }
  }

  /** An accepted vault's trace, followed by `rest` which spawns nothing and
      writes nothing to stderr: one command, and on stdout the progress line
      followed by what `rest` writes there. */
  lemma AcceptedChannels(path: string, progress: string, argv: seq<string>, rest: seq<Event>, trace: seq<Event>)
    requires Invocations(rest) == [] && Writes(rest, Stderr) == []
    requires trace == [IsDirQuery(path), StatQuery(path), Write(Stdout, progress), Spawn(argv)] + rest
    ensures Invocations(trace) == [argv] && Writes(trace, Stderr) == []
    ensures Writes(trace, Stdout) == [progress] + Writes(rest, Stdout)
  {
    var accepted := [IsDirQuery(path), StatQuery(path), Write(Stdout, progress), Spawn(argv)];
    AcceptedTrace(path, progress, argv);
    InvocationsOfAppend(accepted, rest);
    WritesOfAppend(accepted, rest, Stdout);
    WritesOfAppend(accepted, rest, Stderr);
  }

  /** The trace when the command exits 0: nothing follows the spawn. */
  lemma SucceededTrace(path: string, progress: string, argv: seq<string>, trace: seq<Event>)
    requires trace == [IsDirQuery(path), StatQuery(path), Write(Stdout, progress), Spawn(argv)]
    ensures |trace| > 1 && trace[0] == IsDirQuery(path) && trace[1] == StatQuery(path)
    ensures ConsultsOnly(trace, path) && NoQueriesFrom(trace, 2) && NoTraceback(trace)
    ensures Precedes(trace, StatQuery(path), Write(Stdout, progress))
    ensures Precedes(trace, Write(Stdout, progress), Spawn(argv))
    ensures Invocations(trace) == [argv] && Writes(trace, Stderr) == []
    ensures Writes(trace, Stdout) == [progress]
  {
    assert trace == trace + [];
    AcceptedOrder(path, progress, argv, [], trace);
    AcceptedChannels(path, progress, argv, [], trace);
  }

  /** The failure report alone: it raises nothing, asks nothing, spawns nothing and writes
      only the report, to stdout. */
  lemma ReportChannels(report: string)
    ensures NoQueriesFrom([Write(Stdout, report)], 0) && NoTraceback([Write(Stdout, report)])
    ensures Invocations([Write(Stdout, report)]) == []
    ensures Writes([Write(Stdout, report)], Stdout) == [report]
    ensures Writes([Write(Stdout, report)], Stderr) == []
  {
    assert [Write(Stdout, report)][1..] == [];
  }

  /** The trace when the command fails: the report follows the spawn, and
      the questions and their order are those of an accepted vault. */
  lemma FailedTrace(path: string, progress: string, argv: seq<string>, report: string, trace: seq<Event>)
    requires trace == [IsDirQuery(path), StatQuery(path), Write(Stdout, progress), Spawn(argv)] + [Write(Stdout, report)]
    ensures |trace| > 1 && trace[0] == IsDirQuery(path) && trace[1] == StatQuery(path)
    ensures trace[|trace| - 1] == Write(Stdout, report)
    ensures ConsultsOnly(trace, path) && NoQueriesFrom(trace, 2) && NoTraceback(trace)
    ensures Precedes(trace, StatQuery(path), Write(Stdout, progress))
    ensures Precedes(trace, Write(Stdout, progress), Spawn(argv))
  {
    ReportChannels(report);
    AcceptedOrder(path, progress, argv, [Write(Stdout, report)], trace);
  }

  /** The trace when the command fails: one command, the progress line and
      then the report on stdout, nothing on stderr. */
  lemma FailedChannels(path: string, progress: string, argv: seq<string>, report: string, trace: seq<Event>)
    requires trace == [IsDirQuery(path), StatQuery(path), Write(Stdout, progress), Spawn(argv)] + [Write(Stdout, report)]
    ensures Invocations(trace) == [argv] && Writes(trace, Stderr) == []
    ensures Writes(trace, Stdout) == [progress, report]
  {
    ReportChannels(report);
    AcceptedChannels(path, progress, argv, [Write(Stdout, report)], trace);
    assert [progress] + [report] == [progress, report];
  }

  /** The vault is the top-level directory named after the resource, and
      distinct resources have distinct vaults. */
  lemma VaultPathIsTopLevel(resource: string, other: string)
    ensures |VaultPath(resource)| == |resource| + 1
    ensures VaultPath(resource)[0] == '/' && VaultPath(resource)[1..] == resource
    ensures VaultPath(resource) == VaultPath(other) ==> resource == other
  {
  }

  /** The capacity reads only the total-capacity fields: changing the free
      and available counts does not change it. */
  lemma CapacityIgnoresUsage(st: StatVfs, bfree: nat, bavail: nat)
    ensures Capacity(st.(bfree := bfree, bavail := bavail)) == Capacity(st)
  {
  }

  /** Why the threshold drains the resource: on a consistent `statvfs` answer
      the free space (in either count) never exceeds the threshold, and it
      reaches the threshold only when every block is free. */
  lemma ThresholdExcludesWrites(st: StatVfs)
    requires st.bavail <= st.bfree <= st.blocks
    ensures st.frsize * st.bavail <= st.frsize * st.bfree <= Capacity(st)
    ensures st.frsize > 0 && st.frsize * st.bfree >= Capacity(st) ==> st.bfree == st.blocks
  {
    MulMonotone(st.frsize, st.bavail, st.bfree);
    MulMonotone(st.frsize, st.bfree, st.blocks);
    if st.frsize > 0 && st.bfree < st.blocks {
      MulMonotone(st.frsize, st.bfree + 1, st.blocks);
    }
  }

  lemma MulMonotone(k: nat, a: nat, b: nat)
    requires a <= b
    ensures k * a <= k * b
  {
  }

  /** The command sets exactly the threshold key of `resource` to the decimal
      text of `size`: the text is canonical and reads back as `size`. */
  lemma ArgvSetsThreshold(resource: string, size: nat)
    ensures |ModrescArgv(resource, size)| == 5
    ensures ModrescArgv(resource, size)[0] == "/usr/bin/iadmin"
    ensures ModrescArgv(resource, size)[1] == "modresc" && ModrescArgv(resource, size)[3] == "context"
    ensures ModrescArgv(resource, size)[2] == resource
    ensures ThresholdValue(ModrescArgv(resource, size)[4]) == Some(size)
    ensures IsCanonical(ModrescArgv(resource, size)[4][|THRESHOLD_PREFIX|..])
  {
    var arg := THRESHOLD_PREFIX + Render(size);
    assert arg[..|THRESHOLD_PREFIX|] == THRESHOLD_PREFIX && arg[|THRESHOLD_PREFIX|..] == Render(size);
    ParseRender(size);
  }

  /** The progress line names the resource and carries the size's numeral. */
  lemma ProgressLineNamesResourceAndSize(resource: string, size: nat)
    ensures Mentions(ProgressLine(resource, size), resource)
    ensures Mentions(ProgressLine(resource, size), Render(size))
  {
    var head := "setting minimum free space for resource " + resource;
    var upToSize := head + " to " + Render(size);
    MentionsSuffix("setting minimum free space for resource ", resource);
    MentionsExtend(head, " to ", resource);
    MentionsExtend(head + " to ", Render(size), resource);
    MentionsExtend(upToSize, " bytes...\n", resource);
    MentionsSuffix(head + " to ", Render(size));
    MentionsExtend(upToSize, " bytes...\n", Render(size));
  }

  /** The rejection message names both the vault and the resource. */
  lemma IsDirFailureNamesVaultAndResource(path: string, resource: string)
    ensures Mentions(IsDirFailure(path, resource), path)
    ensures Mentions(IsDirFailure(path, resource), resource)
  {
    var head := "isdir check failed for vault " + path;
    var upToResource := head + " of resource " + resource;
    MentionsSuffix("isdir check failed for vault ", path);
    MentionsExtend(head, " of resource ", path);
    MentionsExtend(head + " of resource ", resource, path);
    MentionsExtend(upToResource, "\n", path);
    MentionsSuffix(head + " of resource ", resource);
    MentionsExtend(upToResource, "\n", resource);
  }

  /** The failure report carries the child's output verbatim after its
      heading line. */
  lemma FailureReportCarriesOutput(output: string)
    ensures Mentions(FailureReport(output), output)
    ensures FailureReport(output)[..16] == "Failed! Output:\n"
  {
    MentionsSuffix("Failed! Output:\n", output);
    MentionsExtend("Failed! Output:\n" + output, "\n", output);
  }

  /** `set_min_free_space_for_create`: check the vault, read its capacity,
      announce it, and have `iadmin` store it as the resource's threshold. */
  method SetMinFreeSpaceForCreate(resource: string, env: Env) returns (trace: seq<Event>, exit: Exit)
    // the vault is the only path the tool asks about, and it asks first
    ensures ConsultsOnly(trace, VaultPath(resource))
    ensures |trace| > 0 && trace[0] == IsDirQuery(VaultPath(resource))
    // the directory check is made once; statvfs is asked once, right after
    // it, and only when the vault is a directory
    ensures !env.isDir(VaultPath(resource)) ==> NoQueriesFrom(trace, 1)
    ensures env.isDir(VaultPath(resource)) ==>
      |trace| > 1 && trace[1] == StatQuery(VaultPath(resource)) && NoQueriesFrom(trace, 2)
    // one attempt at most, on every branch
    ensures |Invocations(trace)| <= 1
    // the procedure never prints a traceback itself: `sys.exit` prints none,
    // and an escaping exception is reported by the interpreter, in `RunMain`
    ensures NoTraceback(trace)
    // rejected path: no command, a message on stderr only, exit status 1
    ensures !env.isDir(VaultPath(resource)) ==>
      && Invocations(trace) == []
      && Writes(trace, Stdout) == []
      && Writes(trace, Stderr) == [IsDirFailure(VaultPath(resource), resource)]
      && exit == SysExit(1)
    // statvfs failed: the exception escapes from that call, so nothing follows
    // it: no command and nothing written
    ensures env.isDir(VaultPath(resource)) && env.statvfs(VaultPath(resource)).StatFailed? ==>
      && trace[|trace| - 1] == StatQuery(VaultPath(resource))
      && Invocations(trace) == []
      && Writes(trace, Stdout) == [] && Writes(trace, Stderr) == []
      && exit == Raised
    // path accepted: one command, announced before it is spawned
    ensures env.isDir(VaultPath(resource)) && env.statvfs(VaultPath(resource)).StatOk? ==>
      var size := Capacity(env.statvfs(VaultPath(resource)).st);
      var argv := ModrescArgv(resource, size);
      var child := env.iadmin(argv);
      && Invocations(trace) == [argv]
      && Precedes(trace, StatQuery(VaultPath(resource)), Write(Stdout, ProgressLine(resource, size)))
      && Precedes(trace, Write(Stdout, ProgressLine(resource, size)), Spawn(argv))
      && Writes(trace, Stderr) == []
      && (child.returnCode == 0 ==>
            exit == Returned && Writes(trace, Stdout) == [ProgressLine(resource, size)])
      && (child.returnCode != 0 ==>
            && exit == SysExit(child.returnCode)
            && Writes(trace, Stdout) == [ProgressLine(resource, size), FailureReport(child.output)]
            && trace[|trace| - 1] == Write(Stdout, FailureReport(child.output)))
  {
    var path := VaultPath(resource);
    if !env.isDir(path) {
      var message := IsDirFailure(path, resource);
      trace := [IsDirQuery(path), Write(Stderr, message)];
      RejectedTrace(path, message, trace);
      exit := SysExit(1);
      return;
    }
    var answer := env.statvfs(path);
    if answer.StatFailed? {
      trace := [IsDirQuery(path), StatQuery(path)];
      StatFailedTrace(path, trace);
      exit := Raised;
      return;
    }
    var size := Capacity(answer.st);
    var progress := ProgressLine(resource, size);
    var argv := ModrescArgv(resource, size);
    var child := env.iadmin(argv);
    if child.returnCode != 0 {
      var report := FailureReport(child.output);
      trace := [IsDirQuery(path), StatQuery(path), Write(Stdout, progress), Spawn(argv)] + [Write(Stdout, report)];
      FailedTrace(path, progress, argv, report, trace);
      FailedChannels(path, progress, argv, report, trace);
      exit := SysExit(child.returnCode);
      return;
    }
    trace := [IsDirQuery(path), StatQuery(path), Write(Stdout, progress), Spawn(argv)];
    SucceededTrace(path, progress, argv, trace);
    exit := Returned;
  }

  /** Appending the interpreter's traceback adds no command and no write of
      the tool's own, and leaves a trace that ends in that traceback. */
  lemma TracebackAppended(trace: seq<Event>)
    ensures |trace + [Traceback]| > 0 && (trace + [Traceback])[|trace|] == Traceback
    ensures !NoTraceback(trace + [Traceback])
    ensures Invocations(trace + [Traceback]) == Invocations(trace)
    ensures Writes(trace + [Traceback], Stdout) == Writes(trace, Stdout)
    ensures Writes(trace + [Traceback], Stderr) == Writes(trace, Stderr)
  {
    ChannelsOfCons(Traceback, []);
    assert [Traceback] + [] == [Traceback];
    InvocationsOfAppend(trace, [Traceback]);
    WritesOfAppend(trace, [Traceback], Stdout);
    WritesOfAppend(trace, [Traceback], Stderr);
  }

  /** `main`: run the procedure for the resource named on the command line;
      a normal return ends the process with status 0, `sys.exit(code)` with
      `code`, and an uncaught exception with a traceback and status 1. */
  method RunMain(resource: string, env: Env) returns (trace: seq<Event>, status: nat)
    ensures |trace| > 0 && |Invocations(trace)| <= 1
    // the interpreter prints a traceback exactly when statvfs raises
    ensures NoTraceback(trace) <==>
      !(env.isDir(VaultPath(resource)) && env.statvfs(VaultPath(resource)).StatFailed?)
    // rejected vault: no command, the message on stderr only, status 1
    ensures !env.isDir(VaultPath(resource)) ==>
      && Invocations(trace) == []
      && Writes(trace, Stdout) == []
      && Writes(trace, Stderr) == [IsDirFailure(VaultPath(resource), resource)]
      && status == 1
    // statvfs raised: no command, nothing of the tool's own written, and the
    // interpreter's traceback ends the run with status 1
    ensures env.isDir(VaultPath(resource)) && env.statvfs(VaultPath(resource)).StatFailed? ==>
      && Invocations(trace) == []
      && Writes(trace, Stdout) == [] && Writes(trace, Stderr) == []
      && status == 1 && trace[|trace| - 1] == Traceback
    // once the command runs, the process ends with the command's own status,
    // after the progress line and, on failure, the report of its output
    ensures env.isDir(VaultPath(resource)) && env.statvfs(VaultPath(resource)).StatOk? ==>
      var size := Capacity(env.statvfs(VaultPath(resource)).st);
      var argv := ModrescArgv(resource, size);
      var child := env.iadmin(argv);
      && Invocations(trace) == [argv]
      && Precedes(trace, Write(Stdout, ProgressLine(resource, size)), Spawn(argv))
      && Writes(trace, Stderr) == []
      && status == child.returnCode
      && (child.returnCode == 0 ==> Writes(trace, Stdout) == [ProgressLine(resource, size)])
      && (child.returnCode != 0 ==>
            Writes(trace, Stdout) == [ProgressLine(resource, size), FailureReport(child.output)])
    // success means exactly: the command was issued and exited 0
    ensures status == 0 <==> |Invocations(trace)| == 1 && env.iadmin(Invocations(trace)[0]).returnCode == 0
  {
    var exit;
    trace, exit := SetMinFreeSpaceForCreate(resource, env);
    match exit {
      case Returned => status := 0;
      case SysExit(code) => status := code;
      case Raised =>
        var before := trace;
        trace := before + [Traceback];
        TracebackAppended(before);
        status := 1;
    }
  }
}
