# mark_resource_unusable, modelled in Dafny

`mark_resource_unusable.py` drains one locally hosted iRODS storage resource
from new writes. It works out the resource's vault path, `"/" + resource`, and
checks that the path is a directory. It then reads the total capacity of the
filesystem behind the vault (`f_frsize * f_blocks` from `statvfs`) and runs

    /usr/bin/iadmin modresc <resource> context minimum_free_space_for_create_in_bytes=<capacity>

The threshold it sets equals the total capacity, so no filesystem that holds
any data can meet it.

The model has two modules:

- `Decimal` (`decimal.dfy`) covers the decimal text of a natural number, as
  Python's `"%s" % n` renders it (`Render`). It also has a reader for digit
  strings (`ValueOf`, `Parse`). The two are proved to be inverse bijections
  between the naturals and the canonical numerals.
- `MarkResourceUnusable` (`mark_resource_unusable.dfy`) covers
  `set_min_free_space_for_create` and `main`. Each answer the outside world
  gives is a field of the `Env` datatype:
  - `isDir` answers directory checks, per path.
  - `statvfs` answers filesystem statistics queries, per path; an answer is
    either `StatOk` with the fields or `StatFailed`.
  - `iadmin` answers each command run, per argument vector, with an exit
    status and the combined output.

  The procedure is a straight-line method. It returns everything it does as a
  trace of `Event`s, in order:
  - the directory check and the `statvfs` query, each with its path;
  - each write, with its stream and its exact text (including the newline
    that `print` adds);
  - each spawned argument vector.

  It also returns how the procedure ended: a normal return, `sys.exit(code)`,
  or an uncaught exception. `Invocations` and `Writes` project the trace onto
  the commands run and onto each output stream.

Facts about the source that the model keeps:

- When `iadmin` fails, the report "Failed! Output:" and the captured output go
  to **stdout**: the `print` at mark_resource_unusable.py:59 has no `file=`.
- The argument vector starts with the binary path `/usr/bin/iadmin`.
- The capacity is an unbounded Python `int`.
- A `statvfs` failure is not caught. It ends the process with a traceback and
  status 1, with no message of the tool's own.

## Model

| member | source | states |
|---|---|---|
| `Decimal.Render` | mark_resource_unusable.py:56 | the text `"%s" % size` puts into the argument is a canonical numeral: non-empty, all digits, no leading zero unless it is "0", and it is "0" exactly for 0 |
| `Decimal.ParseRender` | mark_resource_unusable.py:56 | reading the rendered text back gives the same number: `Parse(Render(n)) == Some(n)` |
| `Decimal.RenderParse` | mark_resource_unusable.py:56 | every canonical numeral is the rendering of the number it denotes, so rendering is onto the canonical numerals |
| `Decimal.RenderInjective` | mark_resource_unusable.py:56 | two different sizes never give the same text |
| `MarkResourceUnusable.VaultPathIsTopLevel` | mark_resource_unusable.py:47 | the vault path is "/" followed by exactly the resource name, and different resources have different vaults |
| `MarkResourceUnusable.CapacityIgnoresUsage` | mark_resource_unusable.py:50-51 | the size depends only on `f_frsize` and `f_blocks`: changing the free or available block counts leaves it unchanged |
| `MarkResourceUnusable.ThresholdExcludesWrites` | mark_resource_unusable.py:4-8 | for a consistent `statvfs` answer (available ≤ free ≤ total blocks), the free bytes and the available bytes never exceed the threshold. The free bytes reach the threshold only when every block is free |
| `MarkResourceUnusable.ArgvSetsThreshold` | mark_resource_unusable.py:54-56 | the command line has five elements: `/usr/bin/iadmin`, `modresc`, the resource, `context`, and `minimum_free_space_for_create_in_bytes=` followed by a canonical numeral that reads back as the size |
| `MarkResourceUnusable.ProgressLineNamesResourceAndSize` | mark_resource_unusable.py:52 | the progress line contains the resource name and the decimal text of the size |
| `MarkResourceUnusable.IsDirFailureNamesVaultAndResource` | mark_resource_unusable.py:63 | the rejection message contains both the vault path and the resource name |
| `MarkResourceUnusable.FailureReportCarriesOutput` | mark_resource_unusable.py:59 | the failure report starts with the line "Failed! Output:" and contains the child's captured output verbatim |
| `MarkResourceUnusable.SetMinFreeSpaceForCreate` | mark_resource_unusable.py:46-64 | the only path ever queried is the vault, and the directory check comes first and is made once. `statvfs` is asked exactly when the vault is a directory, once, right after the check. At most one command runs, and the procedure itself never produces a traceback (`sys.exit` prints none). Vault not a directory: no `statvfs` query, no command, the rejection message on stderr, nothing on stdout, `sys.exit(1)`. `statvfs` fails: the trace ends at that query, so no command and nothing written, and the exception escapes. Otherwise: exactly one command with the argument vector above, the progress line on stdout after the `statvfs` query and before the command, nothing on stderr. Then, on status 0, a normal return with only the progress line written; on status c ≠ 0, the report of the output on stdout as the last event and `sys.exit(c)` |
| `MarkResourceUnusable.RunMain` | mark_resource_unusable.py:67-69 | the whole run: a traceback appears exactly when `statvfs` raises, and it then ends the trace. Vault not a directory: no command, the rejection message on stderr, nothing on stdout, status 1. `statvfs` raises: no command, nothing of the tool's own written, status 1. Otherwise: exactly one command with the argument vector above, the progress line on stdout before it, nothing on stderr, and the status is the command's own exit status. On status 0 only the progress line is on stdout, and on a failure it is followed by the report of the output. Status 0 happens exactly when one command ran and it exited 0 |

Helper lemmas outside the table: `InvocationsOfAppend` and `WritesOfAppend`
split the trace projections over concatenation, and `RejectedTrace`,
`StatFailedTrace`, `AcceptedTrace`, `AcceptedOrder`, `AcceptedChannels`,
`ReportChannels`, `SucceededTrace`, `FailedTrace` and `FailedChannels` compute
the projections and the order of the literal traces that the procedure's
branches produce. `TracebackAppended` shows that the interpreter's traceback
adds no command and no write of the tool's own. `MulMonotone` is the step of
arithmetic behind `ThresholdExcludesWrites`.

## Left out

- Argument parsing (`arg_parser`, mark_resource_unusable.py:37-44) is library behaviour. The model takes the resource name as given, and the usage error for a wrong argument count is not modelled. The model does not require the name to be non-empty, because the source does not check it. An empty name gives the vault "/".
- The real `os.path.isdir`, `os.statvfs` and `subprocess.check_output` calls are not modelled. Their answers are the fields of `Env`.
- A `statvfs` failure is one opaque `StatFailed` answer. The traceback's text is a single `Traceback` event.
- Other exceptions the child call can raise are not modelled. For example, a missing `/usr/bin/iadmin` raises `FileNotFoundError` instead of `CalledProcessError`.
- The child's output is an opaque string. Python prints the bytes object's `b'...'` representation, which the model does not reproduce.
- A child killed by a signal (negative return code) is not modelled. Exit statuses are naturals, and the operating system's reduction of `sys.exit` arguments modulo 256 is not modelled.
- Stream buffering is not modelled. The trace records the order in which the program writes. What a terminal shows can interleave stdout and stderr differently.
- Waiting on the child has no timeout. This is a liveness concern outside a sequential model.
- The output that `check_output` returns on success is discarded by the source, and so also by the model.
