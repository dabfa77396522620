# ldms_ls bookkeeping core in Dafny

`ldms_ls` is the command-line client of the LDMS metric service. It asks a
server for its directory of metric sets, or takes set names from the command
line, and then lists the names or looks up and updates each set and prints
it. Below the printing and the pthread waiting there is a small sequential
core:

- the **set registry** `set_list`, a list with front insertion (`add_set`,
  `add_set_list`) and front removal, so sets are processed in the reverse of
  their discovery order;
- the **directory page handler** `dir_cb`, a state machine over
  `dir_status`, `dir_done` and `done`;
- **manual mode**, which builds a one-page directory from the command line;
- the **drain loop** of `main`, which empties the registry and flags the entry
  that leaves it empty as `last`;
- the **completion callbacks** `lookup_cb` and `print_cb`, which set `done`
  only for the entry flagged `last`;
- the option loop with its **transport default**, the connection checks, the
  **directory wait** and the **exit codes**.

The model treats every callback as one atomic event applied to the state.

- `ls_model.dfy`, module `LsModel`. The state as a value (`Ls`), the rule of
  each callback as a function (`InsertSet`, `InsertSetList`, `DirStep`,
  `DrainTrace`, `Complete`), and lemmas about whole sequences of pages and
  completions.
- `ls_client.dfy`, module `LsClient`. The class `Client` holds the globals as
  fields (`sets`, `dirDone`, `dirStatus`, `done`). Its methods change them in
  place, as the callbacks and the drain loop do. Each method is proved to
  follow the matching rule of `LsModel`. The field `issued` logs what the
  drain loop printed or submitted.
- `ls_cli.dfy`, module `LsCli`. The getopt loop as a method, the transport
  choice, the connection checks, the directory wait loop (as written and
  corrected) and the exit codes.

External outcomes are parameters:

- `DirEvent.alloc` says whether each `calloc` in `add_set` succeeds;
- `Drain`'s `submit` gives each `ldms_lookup` return value;
- `Env` says whether each connection step succeeded;
- `Wake` gives the result of each `pthread_cond_timedwait` call.

The registry is a sequence with its front at index 0.

What the proofs show, in the program's terms:

- `dir_done` first becomes true exactly at the first error page or the first
  `more == false` page.
- The pages fill the registry with every discovered name, last discovered
  first.
- The drain loop flags exactly the final removed entry as `last`. In
  list-only mode it prints the names in reverse discovery order.
- The terminal flag `done` changes only for a completion flagged `last`.
  With `-v`/`-l`, it becomes non-zero only if the registry was non-empty and
  the final entry's lookup was accepted. So with an empty directory, or a
  final lookup refused synchronously, the terminal wait at
  src/ldms_ls.c:399-402 never ends. This is what the code does, and the model
  keeps it.

Behaviours of the code a reader may not expect:

- After a failed update of the last entry, `print_cb` sets `done` to 1, not
  to the failure status.
- A failed lookup of the last entry sets `done` to the lookup status.
- If the dummy directory of manual mode cannot be allocated, the program
  exits with 2 (src/ldms_ls.c:354-356).
- `-h localhost` given after `-x local` still switches the transport to
  `sock`. The switch in the option loop does not look at the host name.
- The directory wait has no working timeout: see Findings.

## Model

| member | source | states |
|---|---|---|
| `LsModel.InsertSet` | src/ldms_ls.c:203-214 | if the node can be allocated, the name goes to the front, the length grows by one and the old entries keep their order behind it; otherwise the registry is unchanged and `dir_status` becomes ENOMEM; the flags are untouched |
| `LsModel.InsertSetListEffect` | src/ldms_ls.c:216-221 | after a page, the registry is the reverse of the page's allocatable names in front of the old registry; `dir_status` is ENOMEM if any allocation failed and is unchanged otherwise |
| `LsModel.InsertSetListNoFailure` | src/ldms_ls.c:216-221 | with no allocation failure, registry `R` becomes `reverse(names) ++ R` and `dir_status` is kept |
| `LsModel.DirStepEffect` | src/ldms_ls.c:223-241 | an error page records its status, adds no names and sets `dir_done`; a successful page adds its names; a `more` page leaves `dir_done` and `done` alone; a completing page sets `dir_done`, and sets `done` to 1 only when neither `-v` nor `-l` was given |
| `LsModel.DirDoneIffCompletingPage` | src/ldms_ls.c:226-240 | after any page sequence, `dir_done` is set exactly when some page was an error page or a final page |
| `LsModel.DirDoneFirstSetAtFirstCompletingPage` | src/ldms_ls.c:226-240 | the page at which `dir_done` first becomes true is an error or final page, and no earlier page was |
| `LsModel.PagesBeforeCompletion` | src/ldms_ls.c:230-234 | while only `more` pages have arrived, `dir_done` and `done` keep their values |
| `LsModel.DirStatusNonZeroIffFailure` | src/ldms_ls.c:203-241 | `dir_status` ends non-zero exactly when it started non-zero, or some page was an error page or hit an allocation failure |
| `LsModel.PagesFillRegistry` | src/ldms_ls.c:216-234 | pagination without failures leaves every discovered name in the registry, most recently discovered first |
| `LsModel.DrainTraceAt` | src/ldms_ls.c:382-398 | the drain handles the registry entries front first, one action per entry; with `-v`/`-l` the i-th lookup carries `last` exactly when i is the final index, otherwise the i-th name is printed |
| `LsModel.ListOnlyPrintsReverseDiscovery` | src/ldms_ls.c:382-398 | in list-only mode every discovered name is printed once, in the reverse of discovery order, and no lookup is issued |
| `LsModel.Complete` | src/ldms_ls.c:163-201 | a completion not flagged last leaves `done` alone; an update of the last entry sets it to 1 whatever rc is; a failed lookup of the last entry sets it to the failure status; a successful lookup never changes it |
| `LsModel.CompletionsWithoutLastKeepDone` | src/ldms_ls.c:179-200 | any number of completions for entries not flagged last leave `done` unchanged |
| `LsModel.TerminalIffEndingCompletion` | src/ldms_ls.c:163-201 | after a sequence of completions `done` is non-zero exactly when it already was or an update or failed lookup of the last entry arrived |
| `LsModel.TerminalNeedsFinalLookup` | src/ldms_ls.c:382-402 | with `-v`/`-l`, `done` can become non-zero only if the registry was non-empty and the final entry's lookup was accepted |
| `LsClient.Client.constructor` | src/ldms_ls.c:62-75 | the registry starts empty and all flags start at zero |
| `LsClient.Client.AddSet` | src/ldms_ls.c:203-214 | front insertion, or ENOMEM with the registry unchanged |
| `LsClient.Client.AddSetList` | src/ldms_ls.c:216-221 | the loop over the page leaves `reverse(allocatable names) ++ old registry` and ENOMEM exactly when an allocation failed |
| `LsClient.Client.DirCallback` | src/ldms_ls.c:223-241 | the callback changes the fields exactly as `DirStep` describes |
| `LsClient.Client.ManualSetup` | src/ldms_ls.c:343-365 | without `-v`/`-l` it is a usage failure and changes nothing; a failed dummy-directory allocation exits 2; otherwise it inserts the command-line names, sets `dir_done` and sets `dir_status` to 0, overriding any ENOMEM |
| `LsClient.Client.Drain` | src/ldms_ls.c:382-398 | the loop empties the registry front first and performs `DrainTrace`; a refused lookup touches none of the flags |
| `LsClient.Client.LookupCallback` | src/ldms_ls.c:185-201 | the update is requested exactly when the lookup succeeded; `done` follows `Complete` |
| `LsClient.Client.PrintCallback` | src/ldms_ls.c:163-183 | the set is destroyed exactly when rc is 0; `done` follows `Complete` |
| `LsCli.PortBits` | src/ldms_ls.c:277-278 | the port kept is below 65536 and agrees with atoi's result modulo 65536 |
| `LsCli.ParseOptions` | src/ldms_ls.c:269-298 | a bad option is a usage failure; otherwise the last `-h`, `-p` and `-w` win, with defaults localhost, 50000 and 10; `-v` is counted; `-l` sets long format; the transport is `Transport(args)` |
| `LsCli.TransportChoice` | src/ldms_ls.c:272-298 | with no `-h` the transport is the last `-x` or `local`; `-h` without `-x` gives `sock`; a named non-local transport is kept; a host other than localhost never uses `local` |
| `LsCli.ConnectStop` | src/ldms_ls.c:299-329 | the run goes on exactly when the host resolves to IPv4, the transport is created and connect returns 0; a connect failure is told apart from the earlier failures |
| `LsCli.DirRequestStop` | src/ldms_ls.c:336-342 | a synchronous error from the directory request ends the run |
| `LsCli.AwaitDirectory` | src/ldms_ls.c:367-374 | the wait loop as written computes `WaitAsWritten`; when `dir_done` is already set it proceeds at once |
| `LsCli.SilentServerNeverTimesOut` | src/ldms_ls.c:370-374 | as written, a server that never answers keeps the loop waiting after any number of timed-out waits |
| `LsCli.LateAnswerReportedAsTimeout` | src/ldms_ls.c:370-374 | as written, a directory answer that arrives after the deadline is still reported as a timeout, because the wait that sees `dir_done` set returned ETIMEDOUT |
| `LsCli.AwaitDirectoryFixed` | src/ldms_ls.c:367-374 | the corrected wait loop computes `WaitFixed`; when `dir_done` is already set it proceeds at once |
| `LsCli.SilentServerTimesOutFixed` | src/ldms_ls.c:367-374 | corrected, a silent server gives a timeout at the first expired wait, and the run exits 1 |
| `LsCli.FixedWaitDecidesAtFirstEvent` | src/ldms_ls.c:370-374 | the corrected wait decides at the first wake that timed out or found `dir_done` set |
| `LsCli.FixedAgreesWithoutTimeout` | src/ldms_ls.c:370-374 | when no wait times out, the corrected and the written loop agree |
| `LsCli.DirectoryWaitStop` | src/ldms_ls.c:373-380 | after the wait, a timeout ends the run, then a non-zero `dir_status` ends it as a directory error; otherwise the drain follows |
| `LsCli.ExitCode` | src/ldms_ls.c:309-405 | 0 only for a finished run, 2 exactly for connect and dummy-directory allocation failures, 3 exactly for a directory error, 1 for everything else |
| `LsCli.DirectoryFailureExitsThree` | src/ldms_ls.c:376-380 | a page that is an error page or hits an allocation failure makes the run exit 3 once the wait proceeds |

## Left out

- `metric_printer` and `print_detail`: printf formatting of metric values, including floating point, and reads of the library's internal structures.
- `usage`, `server_timeout` and `null_log`: their output text is left out. `usage` and `server_timeout` exit with 1, which `ExitCode` gives for `Usage` and `ServerTimeout`; `null_log` only writes output and never exits.
- Host resolution and socket setup (`gethostbyname`, `sockaddr_in`, `htons`, `inet_ntoa`) and the `-v -v` echo of the connection parameters. Only whether resolution gave an IPv4 address enters `ConnectStop`.
- `ldms_create_xprt`, `ldms_connect`, `ldms_dir`, `ldms_lookup`, `ldms_update`, `ldms_dir_release`, `ldms_destroy_set` and `ldms_close`. They belong to the transport library, which is not part of this model. Their results are parameters.
- The pthread mutexes and condition variables, and the real clock of the timed wait. Each return from the timed wait is a `Wake` value.
- The race between the `last` flag fixed at submission and the order of completions. It exists only when completions run concurrently, and the model applies them one at a time.
- Memory ownership: the `strdup` and `calloc` results that are never freed, and the page that is not released on the error path. A failing `strdup` in `add_set` is not modelled.
- `atoi` itself: `-p` and `-w` carry the integer that atoi returned.
- GNU getopt's permutation of arguments. The option list and the positional names are separate inputs.

## Findings

| source | as written | input that shows it | evidently intended | confidence | as-written member | corrected member |
|---|---|---|---|---|---|---|
| src/ldms_ls.c:370-374 | `while (!dir_done) ret = pthread_cond_timedwait(...)` waits again after the wait returns ETIMEDOUT; once the deadline has passed, every later wait returns ETIMEDOUT at once, so the loop spins as long as `dir_done` stays 0; and an answer that arrives after the deadline is reported as a timeout once it arrives | remote mode with a server that never sends a directory page: every wake is (ETIMEDOUT, dir_done = 0); a late answer: wakes (ETIMEDOUT, 0) then (ETIMEDOUT, 1) | leave the loop at the first timed-out wait, print the timeout message and exit 1, as the `-w` option and `server_timeout` promise | high; not executed | `LsCli.SilentServerNeverTimesOut` and `LsCli.LateAnswerReportedAsTimeout` (about `LsCli.AwaitDirectory`) | `LsCli.SilentServerTimesOutFixed` (about `LsCli.AwaitDirectoryFixed`) |
