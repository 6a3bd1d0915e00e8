# Advent of Code runner — selection and dispatch model

This project models the core of a small Rust Advent of Code runner. The runner
registers day modules through the `aoc_days!` macro. Its `main` does the
following:

- It turns each identifier `dayNN` into a day number with `strip_prefix("day")`
  and `u8::from_str`, and panics on a name that does not parse.
- It keeps the entries whose number matches `--day`, or all entries when no day
  is given.
- It refuses an empty selection.
- It resolves the `--part1` / `--part2` flags once with `Args::parts_to_run`.
- It runs each selected day in order, printing `Running {name}` before each one,
  or spawns one task per day with `--concurrent`.

Each day's default `AoCDay::run` prints `Day{:02} Part 1: …` and then
`Day{:02} Part 2: …`, each only when that part is enabled.

The model has four modules:

- `Wrappers` holds the `Option` type.
- `Numerals` covers Rust's `u8::from_str`, as a total function and as the
  checked-arithmetic digit loop, plus the `{}` and `{:02}` formatting.
- `Utils` covers the parsed command line, `parts_to_run`, the `day{:02}` input
  file name, and the default `AoCDay::run`.
- `Runner` covers the registry, the selection, and the whole of `main`.

Output is modelled as an event trace:

- `Running(name)`, `Printed(answer)` and `NotFound(day)` are the lines the
  program writes. `Render` gives each one's text and its stream.
- `Call(name, part1, part2)` marks the point where a day's `run` is invoked,
  together with the flags it receives.

The day modules are not part of this model. So `Runner.Days` is a parameter:
for each registered identifier and pair of flags, it gives the answers that
day's `run` prints and whether it panics.

`main` calls `Args::parse` at `template/src/main.rs:14`, before it builds the
registry at lines 17-28. So `Runner.Start` takes a command line that clap has
already accepted (`Utils.Accepted`). On such a command line, a bad name panics
with no output.

## Model

| member | source | states |
|---|---|---|
| Numerals.ParseU8 | template/src/main.rs:22 | `s.parse::<u8>().ok()`: a result exists only for text starting with a digit or `+` |
| Numerals.FromStrRadix10 | template/src/main.rs:22 | the standard library's digit loop agrees with `ParseU8` on every string, including overflow on `checked_mul`/`checked_add`, a lone sign, and a non-digit |
| Numerals.ParseU8Exact | template/src/main.rs:22 | `u8` parsing accepts a string and gives `n` exactly when the string is an optional `+`, then leading zeros, then the decimal spelling of `n` |
| Numerals.ParsedIsSpelling | template/src/main.rs:22 | every accepted string is such a spelling of the parsed value |
| Numerals.SpellingIsParsed | template/src/main.rs:22 | every such spelling of a `u8` parses back to that value |
| Numerals.Decimal | template/src/main.rs:41 | `{}` gives the shortest digit string of the value: no leading zero unless the value is 0, and one digit exactly below 10 |
| Numerals.DecimalRoundTrip | template/src/main.rs:41 | the `{}` text of a `u8` parses back to it |
| Numerals.Pad2 | template/src/utils.rs:58 | `{:02}` adds one `0` in front of values below 10 and leaves the rest alone; the result has at least two digits and the same value, and exactly two below 100 |
| Numerals.Pad2RoundTrip | template/src/utils.rs:38 | the `{:02}` text of a `u8` parses back to it |
| Utils.PartsToRun | template/src/utils.rs:27-33 | part 1 runs iff `--part1` is set or `--part2` is not, part 2 symmetrically; at least one part always runs |
| Utils.PartsToRunCases | template/src/utils.rs:28-32 | `(true,false)` and `(false,true)` resolve to themselves; `(false,false)` and `(true,true)` fall to the default `(true,true)` |
| Utils.PartsToRunIdempotent | template/src/utils.rs:28-32 | feeding the resolved pair back in resolves to the same pair |
| Utils.PartsToRunAccepted | template/src/utils.rs:13-33 | on a command line clap accepts (`conflicts_with`), the result is `(!part2, !part1)` |
| Utils.InputFileName | template/src/utils.rs:38 | the input file for day `d` is `day` followed by the `{:02}` digits of `d`, which parse back to `d`; five characters long for days below 100 |
| Utils.Run | template/src/utils.rs:55-65 | `part1()` is called only when part 1 should run and `part2()` only when part 2 should; `run` panics iff an enabled part panics; a Part 1 line iff part 1 runs and returns, a Part 2 line iff part 2 runs and returns after part 1 did not panic, each carrying that part's answer; at most two lines, Part 1 first |
| Utils.RunIgnoresDisabled | template/src/utils.rs:56-62 | a part whose flag is off is never called: replacing what it would return, or a panic, by anything else changes neither the printed lines nor whether `run` panics |
| Utils.RunWithResolvedFlags | template/src/utils.rs:55-65 | with flags from `parts_to_run` and parts that return, a day does not panic and prints at least one line: only Part 1 for `--part1`, only Part 2 for `--part2`, both in order otherwise |
| Utils.AnswerText | template/src/utils.rs:58-63 | an answer line is `Day`, the `{:02}` digits of the day, ` Part 1: ` or ` Part 2: `, then the answer text unchanged |
| Utils.AnswerLabel | template/src/utils.rs:58-63 | in a printed answer line, the `{:02}` label after `Day` is all digits and parses back to the day (two digits below 100); ` Part 1:` or ` Part 2:` follows, then a space and the answer |
| Runner.DayNumber | template/src/main.rs:20-22 | a day number exists only for a name that starts with the exact prefix `day` and has at least one character after it |
| Runner.DayNumberExact | template/src/main.rs:20-23 | a name gives day `n` exactly when it is `day`, an optional `+`, zeros, and the decimal spelling of `n` |
| Runner.DayNumberRejects | template/src/main.rs:21-23 | no day number (so the `unwrap` panics) without the exact `day` prefix, with an empty suffix or a lone `+`, with a non-digit in the suffix other than one leading `+`, or with a suffix value above 255 |
| Runner.InputFileNameIsDayName | template/src/utils.rs:38 | the input file name of day `d` is itself a registrable identifier for day `d` |
| Runner.BuildRegistry | template/src/main.rs:17-28 | the registry exists iff every name gives a day number; it then has one entry per name, in order, pairing each name with its number |
| Runner.Filter | template/src/main.rs:31-35 | the entries numbered `n`, as a subsequence of the registry (order kept), every one of them (duplicates too) and nothing else |
| Runner.Select | template/src/main.rs:31-38 | without `--day` the selection is the registry unchanged; with `--day n` it is the filtered subsequence |
| Runner.SelectUnique | template/src/main.rs:31-35 | a day registered exactly once is selected alone |
| Runner.RunSequential | template/src/main.rs:63-68 | the sequential loop: nothing for an empty selection; otherwise `Running name` of the first entry, then its invocation; the process panics iff some selected entry's day panics |
| Runner.Task | template/src/main.rs:51-54 | a spawned task prints `Running name`, invokes its entry, then holds exactly the answers the day prints, in order; it panics iff the day panics |
| Runner.Spawn | template/src/main.rs:48-56 | one task per selected entry; each task's trace starts with `Running name`, and a task ends in a panic iff its day panics |
| Runner.TaskCalls | template/src/main.rs:51-54 | a task invokes its own entry exactly once, with the flags it was given |
| Runner.SpawnCallsEachOnce | template/src/main.rs:47-56 | in concurrent mode every selected entry is invoked exactly once, by its own task, with the shared flags |
| Runner.Started | template/src/main.rs:65-68 | the loop starts every entry up to and including the first one that panics; the entries before it do not panic |
| Runner.SequentialRunsTasksInOrder | template/src/main.rs:48-68 | the sequential trace is the concurrent tasks' traces, one after another, for the entries started; the process panics iff the last one started panicked |
| Runner.SequentialCalls | template/src/main.rs:63-68 | sequential mode invokes the started entries once each, in selection order, with one shared flag pair; it returns iff no entry panics, and then every entry was invoked |
| Runner.SequentialPaired | template/src/main.rs:65-67 | each `Running name` is followed at once by the invocation of that entry, and each invocation comes right after its `Running name` |
| Runner.CallsCarryFlags | template/src/main.rs:45-68 | in both modes every invocation receives the pair `parts_to_run` computed once before dispatch |
| Runner.Start | template/src/main.rs:13-69 | bad name: panic with no output. Empty selection with `--day n`: one not-found error for `n` and no invocation. Empty selection without `--day`: panic. Otherwise every invocation gets the resolved flags; concurrent mode spawns one task per selected entry; sequential mode gives one trace |
| Runner.StartDispatches | template/src/main.rs:45-68 | with valid names and a non-empty selection, `main` spawns the selection's tasks in concurrent mode and runs the sequential loop over the selection otherwise, with the resolved flags |
| Runner.ShownBuild | template/src/main.rs:40-43 | with no registered day (the build at line 75), `--day n` reports `n` missing and returns, and no `--day` panics |
| Runner.StartRunsEveryDay | template/src/main.rs:31-68 | in sequential mode, without `--day`, with at least one registered name, all names valid and no day panicking, every registered day is invoked once, in registration order, with the resolved flags, and `main` returns |
| Runner.StartRunsRequestedDay | template/src/main.rs:31-68 | in sequential mode, with all names valid, `--day n` naming a registered day and no day panicking, exactly the entries numbered `n` are invoked, in registry order, with the resolved flags, and `main` returns |
| Runner.Render | template/src/main.rs:41-66 | an invocation writes nothing itself; `Running {name}` and the answer lines go to standard output; the not-found error goes to standard error, as `Error: Day `, the `{}` digits of the day, then ` not found or not implemented` |
| Runner.NotFoundNamesDay | template/src/main.rs:41 | the not-found error goes to standard error; between `Error: Day ` and ` not found or not implemented` stand exactly the `{}` digits of the requested day, which parse back to it |

## Left out

- Concurrent mode's scheduling (`tokio::spawn`, the `await` loop, `template/src/main.rs:45-61`) is not modelled. Only each task's own trace is modelled. How the tasks' lines interleave is unspecified. A task's panic is caught by its join handle and ignored, so `main` still returns.
- File I/O in `load_input` (`read_to_string` and its panic) is not modelled. The directory part of the path is a fixed placeholder. Only the `day{:02}` file name is modelled, as `Utils.InputFileName`.
- clap's parsing, help and error output are not modelled. Its outcome is the precondition `Utils.Accepted`: `--part1` and `--part2` are not both set. A `--day` value that is not a `u8`, or both part flags, is refused by `Args::parse` at the start of `main` (`template/src/main.rs:14`), before the registry is built.
- The `aoc_days!` macro expansion is replaced by a plain list of identifier names. Each day's `run` is reached through the `Runner.Days` parameter. A Rust identifier cannot contain `+`, so the `+` spellings accepted by `Runner.DayNumberExact` cannot occur in a real build.
- template/src/dayTemplate.rs is not part of this model. It is a placeholder with unsubstituted tokens. Its only behaviour, returning the constructor flags from `should_run_part*`, is the input of `Utils.Run`.
- Runner.Days: a day's invocation is an arbitrary answer list and panic flag. The model does not require that list to equal `Utils.Run` of a day unit, because the day modules are not part of the model.
- Panic messages and the process exit status are not modelled. A panic is the `Panicked` exit.
- Runner.StartRunsEveryDay: stated only for sequential mode, at least one registered name, and runs where no day panics. With no names and no `--day`, `main` panics instead (`Runner.ShownBuild`). Concurrent mode is covered by `Runner.StartDispatches` with `Runner.SpawnCallsEachOnce`. For the panicking case, `Runner.StartDispatches` reduces `main` to `Runner.RunSequential`, which `Runner.SequentialCalls` and `Runner.Started` describe.
- Runner.StartRunsRequestedDay: stated only for sequential mode and runs where no day panics, as above.
- Utils.InputFileName: states the length only for days below 100. From day 100 on, `{:02}` prints three digits.
