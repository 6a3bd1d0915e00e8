/**
  The body of `main` that `aoc_days!` generates: it turns every registered day
  identifier into a registry entry, selects the entries the command line asks
  for, refuses an empty selection, and runs the selection sequentially or
  spawns one task per entry.

  Printing is modelled as an event trace. Besides the lines the program writes,
  the trace records a `Call` marker where a day's `run` function is invoked,
  with the flags it receives.
 */
module Runner {
  import opened Wrappers
  import opened Numerals
  import opened Utils

  /**
    What calling `$day::run(part1, part2)` does, for the module named by each
    identifier `$day` listed in `aoc_days!(...)`. The day modules are not part
    of this model, so their behaviour is a parameter; a day that keeps the
    default `AoCDay::run` gives `Run` of its day unit.
   */
  type Days = (string, bool, bool) -> Invocation

  /**
    One `(u8, &str, fn(bool, bool))` element of `day_runners`; the function
    is `$day::run` for the identifier `name`, so it is found through `Days`.
   */
  datatype Entry = Entry(day: uint8, name: string)

  datatype Event =
    | Running(name: string)                         // println!("Running {}", name)
    | Call(name: string, part1: bool, part2: bool)  // run_fn(part1, part2) is invoked
    | Printed(answer: Answer)                       // a line the day's run prints
    | NotFound(day: uint8)                          // eprintln!("Error: Day {} not found ...")

  /** How `main` (or one spawned task) ends: by returning, or by a panic. */
  datatype Exit = Returned | Panicked

  datatype Process = Process(trace: seq<Event>, exit: Exit)

  /**
    A run of the program: a single trace, or in concurrent mode the trace of
    each spawned task (how the tasks' lines interleave is not determined, and
    `main` returns normally whatever the tasks do).
   */
  datatype Outcome = Finished(process: Process) | Spawned(tasks: seq<Process>)

  /* ---------------------------------------------------------------------- */
  /* Registry                                                                */
  /* ---------------------------------------------------------------------- */

  /** `name.strip_prefix("day").and_then(|s| s.parse::<u8>().ok())`. */
  function DayNumber(name: string): (r: Option<uint8>)
    ensures r.Some? ==> 4 <= |name| && name[..3] == "day"
  {
    if 3 <= |name| && name[..3] == "day" then ParseU8(name[3..]) else None
  }

  /**
    The names that yield day `n` are exactly `day`, an optional `+`, any
    number of zeros, and the decimal spelling of `n`.
   */
  lemma DayNumberExact(name: string, n: uint8)
    ensures DayNumber(name) == Some(n) <==> exists plus, zeros :: name == "day" + Spelling(plus, zeros, n)
  {
    if DayNumber(name) == Some(n) {
      ParseU8Exact(name[3..], n);
      var plus, zeros :| name[3..] == Spelling(plus, zeros, n);
      assert name == "day" + Spelling(plus, zeros, n);
    }
    forall plus, zeros | name == "day" + Spelling(plus, zeros, n)
      ensures DayNumber(name) == Some(n)
    {
      assert name[..3] == "day" && name[3..] == Spelling(plus, zeros, n);
      SpellingIsParsed(plus, zeros, n);
    }
  }

  /**
    The names on which the `unwrap` panics: no exact `day` prefix, an empty
    suffix, a lone `+` as the suffix, a character in the suffix that is not a
    digit (other than one leading `+`), or a value above 255.
   */
  lemma DayNumberRejects(name: string)
    ensures (|name| < 3 || name[..3] != "day") ==> DayNumber(name).None?
    ensures name == "day" ==> DayNumber(name).None?
    ensures name == "day+" ==> DayNumber(name).None?
    ensures forall i :: 3 <= i < |name| && !IsDigit(name[i]) && !(i == 3 && name[i] == '+') ==> DayNumber(name).None?
    ensures 3 < |name| && AllDigits(name[3..]) && Value(name[3..]) > 255 ==> DayNumber(name).None?
  {
    forall i | 3 <= i < |name| && !IsDigit(name[i]) && !(i == 3 && name[i] == '+')
      ensures DayNumber(name).None?
    {
      if 3 <= |name| && name[..3] == "day" {
        var s := name[3..];
        var digits := if s[0] == '+' then s[1..] else s;
        assert s[i - 3] == name[i];
        if s[0] == '+' {
          assert digits[i - 4] == name[i];
        }
      }
    }
  }

  /** The file `load_input(d)` reads is named like the registered identifier of day `d`. */
  lemma InputFileNameIsDayName(d: uint8)
    ensures DayNumber(InputFileName(d)) == Some(d)
  {
  }

  /**
    `day_runners` in `main` (template/src/main.rs:17-28), one entry per registered identifier, in
    order. The `unwrap` panics at startup unless every name yields a day.
   */
  function BuildRegistry(names: seq<string>): (r: Option<seq<Entry>>)
    ensures r.Some? <==> forall i :: 0 <= i < |names| ==> DayNumber(names[i]).Some?
    ensures r.Some? ==> |r.value| == |names|
    ensures r.Some? ==> forall i :: 0 <= i < |names| ==>
              r.value[i] == Entry(DayNumber(names[i]).value, names[i])
  {
    if |names| == 0 then Some([])
    else
      match (DayNumber(names[0]), BuildRegistry(names[1..]))
      case (Some(n), Some(rest)) => Some([Entry(n, names[0])] + rest)
      case _ => None
  }

  /* ---------------------------------------------------------------------- */
  /* Selection                                                               */
  /* ---------------------------------------------------------------------- */

  /** The positions of the registry entries numbered `n`. */
  ghost function Matches(registry: seq<Entry>, n: uint8): set<int> {
    set i | 0 <= i < |registry| && registry[i].day == n
  }

  /** `a` is `b` with some elements dropped and the rest kept in order. */
  ghost predicate IsSubsequence<T>(a: seq<T>, b: seq<T>)
    decreases |b|
  {
    if |a| == 0 then true
    else if |b| == 0 then false
    else
      (a[|a| - 1] == b[|b| - 1] && IsSubsequence(a[..|a| - 1], b[..|b| - 1]))
      || IsSubsequence(a, b[..|b| - 1])
  }

  /**
    `.into_iter().filter(|(num, _, _)| *num == day_num).collect()`: the
    entries numbered `n`, every one of them (duplicates too), in registry order.
   */
  function Filter(registry: seq<Entry>, n: uint8): (sel: seq<Entry>)
    ensures IsSubsequence(sel, registry)
    ensures forall k :: 0 <= k < |sel| ==> sel[k].day == n
    ensures |sel| == |Matches(registry, n)|
  {
    if |registry| == 0 then []
    else
      var init := registry[..|registry| - 1];
      var last := registry[|registry| - 1];
      var rest := Filter(init, n);
      MatchesSnoc(registry, n);
      if last.day == n then
        var sel := rest + [last];
        assert sel[..|sel| - 1] == rest;
        sel
      else rest
  }

  lemma MatchesSnoc(registry: seq<Entry>, n: uint8)
    requires 0 < |registry|
    ensures var last := |registry| - 1;
            && Matches(registry, n) == Matches(registry[..last], n) + (if registry[last].day == n then {last} else {})
            && |Matches(registry, n)| == |Matches(registry[..last], n)| + (if registry[last].day == n then 1 else 0)
  {
    var last := |registry| - 1;
    assert Matches(registry, n) == Matches(registry[..last], n) + (if registry[last].day == n then {last} else {});
    assert last !in Matches(registry[..last], n);
  }

  /** `days_to_run` in `main` (template/src/main.rs:31-38): the selection for `--day n`, or the whole registry when no day is given. */
  function Select(registry: seq<Entry>, day: Option<uint8>): (sel: seq<Entry>)
    ensures day.None? ==> sel == registry
    ensures day.Some? ==> && IsSubsequence(sel, registry)
                          && (forall k :: 0 <= k < |sel| ==> sel[k].day == day.value)
                          && |sel| == |Matches(registry, day.value)|
  {
    match day
    case None => registry
    case Some(n) => Filter(registry, n)
  }

  /** A day registered exactly once is selected alone. */
  lemma {:induction false} SelectUnique(registry: seq<Entry>, n: uint8, i: int)
    requires Matches(registry, n) == {i}
    ensures Select(registry, Some(n)) == [registry[i]]
  {
    var init := registry[..|registry| - 1];
    assert i in Matches(registry, n);
    MatchesSnoc(registry, n);
    if i == |registry| - 1 {
      assert |Matches(init, n)| == 0;
    } else {
      assert registry[|registry| - 1].day != n;
      assert registry[i] == init[i];
      SelectUnique(init, n, i);
    }
  }

  /* ---------------------------------------------------------------------- */
  /* Dispatch                                                                */
  /* ---------------------------------------------------------------------- */

  /** The answers a day prints, as events. */
  function Emit(lines: seq<Answer>): (events: seq<Event>)
    ensures |events| == |lines|
    ensures forall i :: 0 <= i < |lines| ==> events[i] == Printed(lines[i])
  {
    seq(|lines|, i requires 0 <= i < |lines| => Printed(lines[i]))
  }

  /**
    The sequential `for` loop in `main` (template/src/main.rs:63-68): for each selected entry in order, print `Running {name}`,
    then call its `run` with the resolved flags. A panic in `run` ends the
    process, so no later entry runs.
   */
  function RunSequential(sel: seq<Entry>, days: Days, part1: bool, part2: bool): (p: Process)
    ensures |sel| == 0 ==> p == Process([], Returned)
    ensures 0 < |sel| ==> 2 <= |p.trace| && p.trace[0] == Running(sel[0].name) && p.trace[1] == Call(sel[0].name, part1, part2)
    ensures p.exit == Panicked <==> exists i :: 0 <= i < |sel| && days(sel[i].name, part1, part2).panicked
    decreases |sel|
  {
    if |sel| == 0 then Process([], Returned)
    else
      var inv := days(sel[0].name, part1, part2);
      var block := [Running(sel[0].name), Call(sel[0].name, part1, part2)] + Emit(inv.lines);
      if inv.panicked then Process(block, Panicked)
      else
        var rest := RunSequential(sel[1..], days, part1, part2);
        assert (exists i :: 0 <= i < |sel[1..]| && days(sel[1..][i].name, part1, part2).panicked)
               <==> (exists i :: 0 <= i < |sel| && days(sel[i].name, part1, part2).panicked) by {
          assert forall i :: 0 < i < |sel| ==> sel[1..][i - 1] == sel[i];
        }
        Process(block + rest.trace, rest.exit)
  }

  /** The `tokio::spawn` body in `main` (template/src/main.rs:51-54): the task spawned for one entry in concurrent mode. */
  function Task(e: Entry, days: Days, part1: bool, part2: bool): (t: Process)
    ensures var inv := days(e.name, part1, part2);
            && |t.trace| == 2 + |inv.lines|
            && t.trace[0] == Running(e.name) && t.trace[1] == Call(e.name, part1, part2)
            && (forall j :: 2 <= j < |t.trace| ==> t.trace[j] == Printed(inv.lines[j - 2]))
            && (t.exit == Panicked <==> inv.panicked)
  {
    var inv := days(e.name, part1, part2);
    Process([Running(e.name), Call(e.name, part1, part2)] + Emit(inv.lines),
            if inv.panicked then Panicked else Returned)
  }

  /** The `Call` events of a trace, in order. */
  function Calls(trace: seq<Event>): (calls: seq<Event>)
    ensures |calls| <= |trace|
    ensures forall k :: 0 <= k < |calls| ==> calls[k].Call?
  {
    if |trace| == 0 then []
    else (if trace[0].Call? then [trace[0]] else []) + Calls(trace[1..])
  }

  /** One `Call(name, part1, part2)` per entry, in order. */
  function CallsFor(sel: seq<Entry>, part1: bool, part2: bool): seq<Event> {
    seq(|sel|, i requires 0 <= i < |sel| => Call(sel[i].name, part1, part2))
  }

  lemma {:induction false} CallsAppend(a: seq<Event>, b: seq<Event>)
    ensures Calls(a + b) == Calls(a) + Calls(b)
  {
    if |a| == 0 {
      assert a + b == b;
    } else {
      assert (a + b)[0] == a[0];
      assert (a + b)[1..] == a[1..] + b;
      CallsAppend(a[1..], b);
    }
  }

  lemma {:induction false} CallsOfEmit(lines: seq<Answer>)
    ensures Calls(Emit(lines)) == []
  {
    if |lines| > 0 {
      assert Emit(lines)[1..] == Emit(lines[1..]);
      CallsOfEmit(lines[1..]);
    }
  }

  /** A task invokes its entry exactly once, with the flags it was given. */
  lemma TaskCalls(e: Entry, days: Days, part1: bool, part2: bool)
    ensures Calls(Task(e, days, part1, part2).trace) == [Call(e.name, part1, part2)]
  {
    var inv := days(e.name, part1, part2);
    CallsAppend([Running(e.name), Call(e.name, part1, part2)], Emit(inv.lines));
    CallsOfEmit(inv.lines);
    assert Calls([Running(e.name), Call(e.name, part1, part2)]) == [Call(e.name, part1, part2)] by {
      assert [Running(e.name), Call(e.name, part1, part2)][1..] == [Call(e.name, part1, part2)];
    }
  }

  /**
    The `--concurrent` branch of `main` (template/src/main.rs:48-56): one task per selected entry, each printing `Running {name}`
    and invoking its entry once with the same flags; a task's panic is its own.
   */
  function Spawn(sel: seq<Entry>, days: Days, part1: bool, part2: bool): (tasks: seq<Process>)
    ensures |tasks| == |sel|
    ensures forall i :: 0 <= i < |sel| ==> 2 <= |tasks[i].trace| && tasks[i].trace[0] == Running(sel[i].name)
    ensures forall i :: 0 <= i < |sel| ==> (tasks[i].exit == Panicked <==> days(sel[i].name, part1, part2).panicked)
  {
    seq(|sel|, i requires 0 <= i < |sel| => Task(sel[i], days, part1, part2))
  }

  /** In concurrent mode every selected entry is invoked exactly once, by its own task, with the same flags. */
  lemma SpawnCallsEachOnce(sel: seq<Entry>, days: Days, part1: bool, part2: bool)
    ensures var tasks := Spawn(sel, days, part1, part2);
            forall i :: 0 <= i < |sel| ==> Calls(tasks[i].trace) == [Call(sel[i].name, part1, part2)]
  {
    var tasks := Spawn(sel, days, part1, part2);
    forall i | 0 <= i < |sel|
      ensures Calls(tasks[i].trace) == [Call(sel[i].name, part1, part2)]
    {
      TaskCalls(sel[i], days, part1, part2);
    }
  }

  /** The traces of some tasks, one after the other. */
  function Concat(tasks: seq<Process>): seq<Event> {
    if |tasks| == 0 then [] else tasks[0].trace + Concat(tasks[1..])
  }

  /**
    How many entries the sequential loop starts: all of them, or up to and
    including the first whose `run` panics.
   */
  function Started(sel: seq<Entry>, days: Days, part1: bool, part2: bool): (k: nat)
    ensures k <= |sel|
    ensures forall i :: 0 <= i < k - 1 ==> !days(sel[i].name, part1, part2).panicked
    ensures k < |sel| ==> 0 < k && days(sel[k - 1].name, part1, part2).panicked
    ensures 0 < |sel| ==> 0 < k
  {
    if |sel| == 0 then 0
    else if days(sel[0].name, part1, part2).panicked then 1
    else 1 + Started(sel[1..], days, part1, part2)
  }

  /**
    The sequential trace is the trace of the task each started entry would
    get in concurrent mode, one after the other in selection order, and the
    process panics exactly when the last started entry panics.
   */
  lemma SequentialRunsTasksInOrder(sel: seq<Entry>, days: Days, part1: bool, part2: bool)
    ensures var k := Started(sel, days, part1, part2);
            && RunSequential(sel, days, part1, part2).trace == Concat(Spawn(sel, days, part1, part2)[..k])
            && (RunSequential(sel, days, part1, part2).exit == Panicked
                <==> 0 < k && days(sel[k - 1].name, part1, part2).panicked)
  {
    SequentialTrace(sel, days, part1, part2);
    SequentialExit(sel, days, part1, part2);
  }

  lemma {:induction false} SequentialTrace(sel: seq<Entry>, days: Days, part1: bool, part2: bool)
    ensures RunSequential(sel, days, part1, part2).trace
            == Concat(Spawn(sel, days, part1, part2)[..Started(sel, days, part1, part2)])
  {
    if |sel| > 0 {
      var t0 := Task(sel[0], days, part1, part2);
      if days(sel[0].name, part1, part2).panicked {
        SequentialStepStops(sel, days, part1, part2);
        ConcatCons(t0, []);
      } else {
        SequentialStepContinues(sel, days, part1, part2);
        SequentialTrace(sel[1..], days, part1, part2);
        var tail := Spawn(sel[1..], days, part1, part2);
        ConcatCons(t0, tail[..Started(sel[1..], days, part1, part2)]);
      }
    }
  }

  /** A turn of the sequential loop whose entry panics: its task is the whole trace. */
  lemma SequentialStepStops(sel: seq<Entry>, days: Days, part1: bool, part2: bool)
    requires 0 < |sel| && days(sel[0].name, part1, part2).panicked
    ensures Started(sel, days, part1, part2) == 1
    ensures RunSequential(sel, days, part1, part2).trace == Task(sel[0], days, part1, part2).trace
    ensures Spawn(sel, days, part1, part2)[..1] == [Task(sel[0], days, part1, part2)]
  {
    SpawnCons(sel, days, part1, part2);
  }

  /** A turn of the sequential loop whose entry returns: its task, then the rest of the loop. */
  lemma SequentialStepContinues(sel: seq<Entry>, days: Days, part1: bool, part2: bool)
    requires 0 < |sel| && !days(sel[0].name, part1, part2).panicked
    ensures Started(sel, days, part1, part2) == 1 + Started(sel[1..], days, part1, part2)
    ensures RunSequential(sel, days, part1, part2).trace
            == Task(sel[0], days, part1, part2).trace + RunSequential(sel[1..], days, part1, part2).trace
    ensures Spawn(sel, days, part1, part2)[..Started(sel, days, part1, part2)]
            == [Task(sel[0], days, part1, part2)] + Spawn(sel[1..], days, part1, part2)[..Started(sel[1..], days, part1, part2)]
  {
    SpawnPrefixCons(sel, days, part1, part2, Started(sel[1..], days, part1, part2));
  }

  /** The first `1 + j` tasks are the first entry's task and then the first `j` tasks of the rest. */
  lemma SpawnPrefixCons(sel: seq<Entry>, days: Days, part1: bool, part2: bool, j: nat)
    requires j < |sel|
    ensures Spawn(sel, days, part1, part2)[..1 + j]
            == [Task(sel[0], days, part1, part2)] + Spawn(sel[1..], days, part1, part2)[..j]
  {
    var t0 := Task(sel[0], days, part1, part2);
    var tail := Spawn(sel[1..], days, part1, part2);
    SpawnCons(sel, days, part1, part2);
    assert ([t0] + tail)[..1 + j] == [t0] + tail[..j];
  }

  lemma {:induction false} SequentialExit(sel: seq<Entry>, days: Days, part1: bool, part2: bool)
    ensures var k := Started(sel, days, part1, part2);
            RunSequential(sel, days, part1, part2).exit == Panicked
            <==> 0 < k && days(sel[k - 1].name, part1, part2).panicked
  {
    if |sel| > 0 && !days(sel[0].name, part1, part2).panicked {
      SequentialExit(sel[1..], days, part1, part2);
      var k := Started(sel, days, part1, part2);
      assert 1 < k ==> sel[1..][k - 2] == sel[k - 1];
    }
  }

  lemma SpawnCons(sel: seq<Entry>, days: Days, part1: bool, part2: bool)
    requires 0 < |sel|
    ensures Spawn(sel, days, part1, part2) == [Task(sel[0], days, part1, part2)] + Spawn(sel[1..], days, part1, part2)
  {
  }

  lemma ConcatCons(t: Process, tasks: seq<Process>)
    ensures Concat([t] + tasks) == t.trace + Concat(tasks)
  {
    assert ([t] + tasks)[1..] == tasks;
  }

  /** Tasks that each invoke one entry, run one after the other, invoke those entries in order. */
  lemma {:induction false} CallsOfConcat(tasks: seq<Process>, calls: seq<Event>)
    requires |tasks| == |calls|
    requires forall i :: 0 <= i < |tasks| ==> Calls(tasks[i].trace) == [calls[i]]
    ensures Calls(Concat(tasks)) == calls
  {
    if |tasks| > 0 {
      CallsOfConcat(tasks[1..], calls[1..]);
      CallsAppend(tasks[0].trace, Concat(tasks[1..]));
      assert calls == [calls[0]] + calls[1..];
    }
  }

  lemma CallsOfSpawned(sel: seq<Entry>, days: Days, part1: bool, part2: bool)
    ensures Calls(Concat(Spawn(sel, days, part1, part2))) == CallsFor(sel, part1, part2)
  {
    SpawnCallsEachOnce(sel, days, part1, part2);
    CallsOfConcat(Spawn(sel, days, part1, part2), CallsFor(sel, part1, part2));
  }

  /**
    Sequential mode invokes the started entries once each, in selection
    order, every one with the same flags; with no panic that is every entry.
   */
  lemma SequentialCalls(sel: seq<Entry>, days: Days, part1: bool, part2: bool)
    ensures var p := RunSequential(sel, days, part1, part2);
            var k := Started(sel, days, part1, part2);
            && Calls(p.trace) == CallsFor(sel[..k], part1, part2)
            && (p.exit == Returned <==> forall i :: 0 <= i < |sel| ==> !days(sel[i].name, part1, part2).panicked)
            && (p.exit == Returned ==> k == |sel| && Calls(p.trace) == CallsFor(sel, part1, part2))
  {
    var k := Started(sel, days, part1, part2);
    SequentialRunsTasksInOrder(sel, days, part1, part2);
    assert Spawn(sel, days, part1, part2)[..k] == Spawn(sel[..k], days, part1, part2);
    CallsOfSpawned(sel[..k], days, part1, part2);
    assert sel[..|sel|] == sel;
  }

  /** Every `Running {name}` is immediately followed by the invocation of that entry, and vice versa. */
  ghost predicate Paired(t: seq<Event>) {
    && (forall j :: 0 <= j < |t| && t[j].Running? ==> j + 1 < |t| && t[j + 1].Call? && t[j + 1].name == t[j].name)
    && (forall j :: 0 <= j < |t| && t[j].Call? ==> 0 < j && t[j - 1] == Running(t[j].name))
  }

  /** A task's trace is paired: `Running name`, its invocation, then only printed answers. */
  lemma TaskPaired(e: Entry, days: Days, part1: bool, part2: bool)
    ensures Paired(Task(e, days, part1, part2).trace)
  {
  }

  /** Paired traces stay paired when put one after the other. */
  lemma {:induction false} PairedAppend(a: seq<Event>, b: seq<Event>)
    requires Paired(a) && Paired(b)
    ensures Paired(a + b)
  {
    var c := a + b;
    assert forall j :: 0 <= j < |a| ==> c[j] == a[j];
    assert forall j :: |a| <= j < |c| ==> c[j] == b[j - |a|];
  }

  lemma {:induction false} PairedConcat(tasks: seq<Process>)
    requires forall i :: 0 <= i < |tasks| ==> Paired(tasks[i].trace)
    ensures Paired(Concat(tasks))
  {
    if |tasks| > 0 {
      PairedConcat(tasks[1..]);
      PairedAppend(tasks[0].trace, Concat(tasks[1..]));
    }
  }

  /** In the sequential trace, each `Running {name}` is immediately followed by that entry's invocation. */
  lemma SequentialPaired(sel: seq<Entry>, days: Days, part1: bool, part2: bool)
    ensures Paired(RunSequential(sel, days, part1, part2).trace)
  {
    var k := Started(sel, days, part1, part2);
    SequentialTrace(sel, days, part1, part2);
    var tasks := Spawn(sel, days, part1, part2)[..k];
    forall i | 0 <= i < |tasks|
      ensures Paired(tasks[i].trace)
    {
      assert tasks[i] == Task(sel[i], days, part1, part2);
      TaskPaired(sel[i], days, part1, part2);
    }
    PairedConcat(tasks);
  }

  /* ---------------------------------------------------------------------- */
  /* main                                                                    */
  /* ---------------------------------------------------------------------- */

  /** Every invocation in a trace receives the flags `flags`. */
  predicate CallsCarry(trace: seq<Event>, flags: (bool, bool)) {
    forall j :: 0 <= j < |trace| && trace[j].Call? ==> (trace[j].part1, trace[j].part2) == flags
  }

  /** A task's only invocation carries the flags the task was given. */
  lemma TaskCarries(e: Entry, days: Days, part1: bool, part2: bool)
    ensures CallsCarry(Task(e, days, part1, part2).trace, (part1, part2))
  {
    var t := Task(e, days, part1, part2).trace;
    assert forall j :: 2 <= j < |t| ==> t[j].Printed?;
  }

  /** Every invocation, in either mode, carries the flags resolved once before dispatch. */
  lemma CallsCarryFlags(sel: seq<Entry>, days: Days, part1: bool, part2: bool)
    ensures CallsCarry(RunSequential(sel, days, part1, part2).trace, (part1, part2))
    ensures forall i :: 0 <= i < |sel| ==> CallsCarry(Spawn(sel, days, part1, part2)[i].trace, (part1, part2))
  {
    var tasks := Spawn(sel, days, part1, part2);
    forall i | 0 <= i < |sel|
      ensures CallsCarry(tasks[i].trace, (part1, part2))
    {
      assert tasks[i] == Task(sel[i], days, part1, part2);
      TaskCarries(sel[i], days, part1, part2);
    }
    SequentialCarries(sel, days, part1, part2, tasks);
  }

  lemma SequentialCarries(sel: seq<Entry>, days: Days, part1: bool, part2: bool, tasks: seq<Process>)
    requires tasks == Spawn(sel, days, part1, part2)
    requires forall i :: 0 <= i < |tasks| ==> CallsCarry(tasks[i].trace, (part1, part2))
    ensures CallsCarry(RunSequential(sel, days, part1, part2).trace, (part1, part2))
  {
    var k := Started(sel, days, part1, part2);
    SequentialTrace(sel, days, part1, part2);
    ConcatCarries(tasks[..k], (part1, part2));
  }

  lemma {:induction false} ConcatCarries(tasks: seq<Process>, flags: (bool, bool))
    requires forall i :: 0 <= i < |tasks| ==> CallsCarry(tasks[i].trace, flags)
    ensures CallsCarry(Concat(tasks), flags)
  {
    if |tasks| > 0 {
      ConcatCarries(tasks[1..], flags);
      var t := tasks[0].trace;
      var c := t + Concat(tasks[1..]);
      assert forall j :: |t| <= j < |c| ==> c[j] == Concat(tasks[1..])[j - |t|];
    }
  }

  /**
    The `main` that `aoc_days!` expands to, after clap has accepted the
    command line: build the registry (a bad name panics), select, refuse an
    empty selection, resolve the flags once, then run.
   */
  function Start(names: seq<string>, days: Days, args: Args): (o: Outcome)
    requires Accepted(args)
    ensures (exists i :: 0 <= i < |names| && DayNumber(names[i]).None?)
            ==> o == Finished(Process([], Panicked))
    ensures (forall i :: 0 <= i < |names| ==> DayNumber(names[i]).Some? && DayNumber(names[i]) != args.day)
            && args.day.Some?
            ==> o == Finished(Process([NotFound(args.day.value)], Returned))
    ensures |names| == 0 && args.day.None? ==> o == Finished(Process([], Panicked))
    ensures o.Spawned? ==> args.concurrent && 0 < |o.tasks|
    ensures o.Spawned? ==> BuildRegistry(names).Some? && |o.tasks| == |Select(BuildRegistry(names).value, args.day)|
    ensures o.Spawned? ==> forall i :: 0 <= i < |o.tasks| ==> CallsCarry(o.tasks[i].trace, PartsToRun(args))
    ensures o.Finished? ==> CallsCarry(o.process.trace, PartsToRun(args))
    ensures !args.concurrent ==> o.Finished?
  {
    match BuildRegistry(names)
    case None => Finished(Process([], Panicked))
    case Some(registry) =>
      var sel := Select(registry, args.day);
      if |sel| == 0 then
        if args.day.Some? then Finished(Process([NotFound(args.day.value)], Returned))
        else Finished(Process([], Panicked))     // `args.day.unwrap()` on `None`
      else
        var (part1, part2) := PartsToRun(args);
        CallsCarryFlags(sel, days, part1, part2);
        if args.concurrent then Spawned(Spawn(sel, days, part1, part2))
        else Finished(RunSequential(sel, days, part1, part2))
  }

  /**
    Once the names are valid and the selection is not empty, `main` runs the
    selection: one spawned task per entry in concurrent mode, the sequential
    loop otherwise, in both cases with the flags resolved from the command line.
   */
  lemma StartDispatches(names: seq<string>, days: Days, args: Args)
    requires Accepted(args)
    requires forall i :: 0 <= i < |names| ==> DayNumber(names[i]).Some?
    requires 0 < |Select(BuildRegistry(names).value, args.day)|
    ensures var sel := Select(BuildRegistry(names).value, args.day);
            var (part1, part2) := PartsToRun(args);
            Start(names, days, args)
            == if args.concurrent then Spawned(Spawn(sel, days, part1, part2))
               else Finished(RunSequential(sel, days, part1, part2))
  {
  }

  /** As the build registers no day (`aoc_days!()`), `--day n` reports `n` missing and no `--day` panics. */
  lemma ShownBuild(days: Days, args: Args)
    requires Accepted(args)
    ensures args.day.Some? ==> Start([], days, args) == Finished(Process([NotFound(args.day.value)], Returned))
    ensures args.day.None? ==> Start([], days, args) == Finished(Process([], Panicked))
  {
  }

  /**
    Without `--day`, in sequential mode, with valid names and no day
    panicking, every registered day is invoked exactly once, in registration
    order, with the resolved flags, and `main` returns.
   */
  lemma StartRunsEveryDay(names: seq<string>, days: Days, args: Args)
    requires Accepted(args) && args.day.None? && !args.concurrent
    requires forall i :: 0 <= i < |names| ==> DayNumber(names[i]).Some?
    requires 0 < |names|
    requires forall i :: 0 <= i < |names| ==> !days(names[i], PartsToRun(args).0, PartsToRun(args).1).panicked
    ensures Start(names, days, args).Finished?
    ensures Start(names, days, args).process.exit == Returned
    ensures Calls(Start(names, days, args).process.trace)
            == seq(|names|, i requires 0 <= i < |names| => Call(names[i], PartsToRun(args).0, PartsToRun(args).1))
  {
    var (part1, part2) := PartsToRun(args);
    var registry := BuildRegistry(names).value;
    assert Select(registry, None) == registry;
    SequentialCalls(registry, days, part1, part2);
    assert registry[..|registry|] == registry;
  }

  /**
    With `--day n`, in sequential mode, with valid names and no day
    panicking, exactly the entries numbered `n` are invoked, in registry
    order, and nothing else.
   */
  lemma StartRunsRequestedDay(names: seq<string>, days: Days, args: Args)
    requires Accepted(args) && args.day.Some? && !args.concurrent
    requires forall i :: 0 <= i < |names| ==> DayNumber(names[i]).Some?
    requires forall i :: 0 <= i < |names| ==> !days(names[i], PartsToRun(args).0, PartsToRun(args).1).panicked
    requires exists i :: 0 <= i < |names| && DayNumber(names[i]) == args.day
    ensures Start(names, days, args).Finished?
    ensures Start(names, days, args).process.exit == Returned
    ensures var sel := Filter(BuildRegistry(names).value, args.day.value);
            Calls(Start(names, days, args).process.trace) == CallsFor(sel, PartsToRun(args).0, PartsToRun(args).1)
  {
    var (part1, part2) := PartsToRun(args);
    var registry := BuildRegistry(names).value;
    var sel := Filter(registry, args.day.value);
    StartsFiltered(names, days, args);
    assert forall j :: 0 <= j < |sel| ==> !days(sel[j].name, part1, part2).panicked by {
      SelectedNeverPanic(names, registry, sel, days, part1, part2);
    }
    SequentialCalls(sel, days, part1, part2);
  }

  /** With `--day n` naming a registered day, sequential mode runs the entries numbered `n`. */
  lemma StartsFiltered(names: seq<string>, days: Days, args: Args)
    requires Accepted(args) && args.day.Some? && !args.concurrent
    requires forall i :: 0 <= i < |names| ==> DayNumber(names[i]).Some?
    requires exists i :: 0 <= i < |names| && DayNumber(names[i]) == args.day
    ensures var sel := Filter(BuildRegistry(names).value, args.day.value);
            Start(names, days, args) == Finished(RunSequential(sel, days, PartsToRun(args).0, PartsToRun(args).1))
  {
    var registry := BuildRegistry(names).value;
    assert 0 < |Select(registry, args.day)| by {
      var i :| 0 <= i < |names| && DayNumber(names[i]) == args.day;
      assert i in Matches(registry, args.day.value);
    }
    StartDispatches(names, days, args);
  }

  /** Entries kept from a registry of names none of which panics do not panic either. */
  lemma SelectedNeverPanic(names: seq<string>, registry: seq<Entry>, sel: seq<Entry>, days: Days, part1: bool, part2: bool)
    requires |registry| == |names| && forall i :: 0 <= i < |names| ==> registry[i].name == names[i]
    requires forall i :: 0 <= i < |names| ==> !days(names[i], part1, part2).panicked
    requires IsSubsequence(sel, registry)
    ensures forall j :: 0 <= j < |sel| ==> !days(sel[j].name, part1, part2).panicked
  {
    SubsequenceKeeps(sel, registry);
    forall j | 0 <= j < |sel|
      ensures !days(sel[j].name, part1, part2).panicked
    {
      var m :| 0 <= m < |registry| && registry[m] == sel[j];
      assert sel[j].name == names[m];
    }
  }

  /** Every element of a subsequence is an element of the sequence. */
  lemma {:induction false} SubsequenceKeeps<T>(a: seq<T>, b: seq<T>)
    requires IsSubsequence(a, b)
    ensures forall k :: 0 <= k < |a| ==> exists m :: 0 <= m < |b| && b[m] == a[k]
  {
    if |a| > 0 {
      var b' := b[..|b| - 1];
      if a[|a| - 1] == b[|b| - 1] && IsSubsequence(a[..|a| - 1], b') {
        SubsequenceKeeps(a[..|a| - 1], b');
        forall k | 0 <= k < |a| - 1
          ensures exists m :: 0 <= m < |b| && b[m] == a[k]
        {
          var m :| 0 <= m < |b'| && b'[m] == a[..|a| - 1][k];
          assert b[m] == a[k];
        }
        assert b[|b| - 1] == a[|a| - 1];
      } else {
        SubsequenceKeeps(a, b');
        forall k | 0 <= k < |a|
          ensures exists m :: 0 <= m < |b| && b[m] == a[k]
        {
          var m :| 0 <= m < |b'| && b'[m] == a[k];
          assert b[m] == a[k];
        }
      }
    }
  }

  /* ---------------------------------------------------------------------- */
  /* Output text                                                             */
  /* ---------------------------------------------------------------------- */

  datatype Stream = Stdout | Stderr

  /** The line an event writes and where; an invocation itself writes nothing. */
  function Render(e: Event): (r: Option<(Stream, string)>)
    ensures r.None? <==> e.Call?
    ensures r.Some? ==> (r.value.0 == Stderr <==> e.NotFound?)
    ensures e.Running? ==> |r.value.1| == 8 + |e.name| && r.value.1[..8] == "Running " && r.value.1[8..] == e.name
    ensures e.Printed? ==> r.value.1 == AnswerText(e.answer)
    ensures e.NotFound? ==> r.value.1 == "Error: Day " + Decimal(e.day) + " not found or not implemented"
  {
    match e
    case Running(name) => Some((Stdout, "Running " + name))
    case Call(_, _, _) => None
    case Printed(a) => Some((Stdout, AnswerText(a)))
    case NotFound(d) => Some((Stderr, "Error: Day " + Decimal(d) + " not found or not implemented"))
  }

  /**
    The not-found error goes to standard error and names the requested day:
    its `{}` digits, which read back as the day, sit between the fixed
    opening and the fixed rest of the message.
   */
  lemma NotFoundNamesDay(d: uint8)
    ensures Render(NotFound(d)).Some?
    ensures var (stream, text) := Render(NotFound(d)).value;
            && stream == Stderr
            && text[..11] == "Error: Day "
            && text[11..11 + |Decimal(d)|] == Decimal(d)
            && ParseU8(text[11..11 + |Decimal(d)|]) == Some(d)
            && text[11 + |Decimal(d)|..] == " not found or not implemented"
  {
    var text := Render(NotFound(d)).value.1;
    assert text[11..11 + |Decimal(d)|] == Decimal(d);
    assert text[11 + |Decimal(d)|..] == " not found or not implemented";
    DecimalRoundTrip(d);
  }
}
