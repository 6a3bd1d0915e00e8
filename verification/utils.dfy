/**
  The shared helpers of the runner: the parsed command line and the part flags
  it resolves to, the file name an input is read from, and the default
  `AoCDay::run`, which prints the answer of each enabled part.
 */
module Utils {
  import opened Wrappers
  import opened Numerals

  /** The command line after clap has parsed it. */
  datatype Args = Args(day: Option<uint8>, part1: bool, part2: bool, concurrent: bool)

  /**
    clap declares `--part1` and `--part2` with `conflicts_with`, so a command
    line that sets both is refused by `Args::parse` at the start of `main`
    (template/src/main.rs:14), before the registry is built.
   */
  predicate Accepted(args: Args) {
    !(args.part1 && args.part2)
  }

  /**
    `Args::parts_to_run`: whether to run part 1 and part 2. A part runs unless
    only the other part was asked for, so at least one part always runs.
   */
  function PartsToRun(args: Args): (r: (bool, bool))
    ensures r.0 == (args.part1 || !args.part2)
    ensures r.1 == (args.part2 || !args.part1)
    ensures r.0 || r.1
  {
    match (args.part1, args.part2)
    case (true, false) => (true, false)
    case (false, true) => (false, true)
    case _ => (true, true)
  }

  /** The three arms of the match, with `(true, true)` falling to the default arm. */
  lemma PartsToRunCases(args: Args)
    ensures args.part1 && !args.part2 ==> PartsToRun(args) == (true, false)
    ensures !args.part1 && args.part2 ==> PartsToRun(args) == (false, true)
    ensures !args.part1 && !args.part2 ==> PartsToRun(args) == (true, true)
    ensures args.part1 && args.part2 ==> PartsToRun(args) == (true, true)
  {
  }

  /** Feeding the resolved flags back in resolves to the same flags. */
  lemma PartsToRunIdempotent(args: Args)
    ensures var r := PartsToRun(args); PartsToRun(args.(part1 := r.0, part2 := r.1)) == r
  {
  }

  /** On every command line clap accepts, part k runs exactly when the other part was not asked for. */
  lemma PartsToRunAccepted(args: Args)
    requires Accepted(args)
    ensures PartsToRun(args) == (!args.part2, !args.part1)
  {
  }

  /**
    The last component of the path `load_input` reads, `day{:02}`; the
    directory in front of it is a fixed placeholder and is left out.
   */
  function InputFileName(day: uint8): (f: string)
    ensures day < 100 ==> |f| == 5
    ensures 5 <= |f| && f[..3] == "day" && f[3..] == Pad2(day)
    ensures AllDigits(f[3..]) && ParseU8(f[3..]) == Some(day)
  {
    var f := "day" + Pad2(day);
    assert f[3..] == Pad2(day);
    Pad2RoundTrip(day);
    f
  }

  /** Which part an answer line belongs to. */
  datatype Part = One | Two

  /** One line `Day{:02} Part {1|2}: {answer}` printed by `AoCDay::run`. */
  datatype Answer = Answer(part: Part, day: uint8, text: string)

  /**
    A day as `AoCDay::run` sees it: the flags `should_run_part1` and
    `should_run_part2` return (the flags the day was constructed with), and
    what calling `part1()` and `part2()` would give: `Some((day, answer))`,
    or `None` when that call panics (an unfinished `todo!()`, an `unwrap` on
    the loaded input). Both are pure functions of the input loaded at
    construction.
   */
  datatype DayUnit = DayUnit(
    runPart1: bool,
    runPart2: bool,
    part1: Option<(uint8, string)>,
    part2: Option<(uint8, string)>)

  /** What one call of a day's `run` does: the answers it prints, and whether it panicked. */
  datatype Invocation = Invocation(lines: seq<Answer>, panicked: bool)

  /**
    The default `AoCDay::run`: `part1()` is called only when part 1 should
    run, and its line printed; then `part2()` is called only when part 2
    should run, and its line printed. A panicking call ends `run` at that
    point, after whatever was already printed.
   */
  function Run(unit: DayUnit): (inv: Invocation)
    ensures |inv.lines| <= 2
    ensures inv.panicked <==> (unit.runPart1 && unit.part1.None?) || (unit.runPart2 && unit.part2.None?)
    ensures (exists i :: 0 <= i < |inv.lines| && inv.lines[i].part == One)
            <==> unit.runPart1 && unit.part1.Some?
    ensures (exists i :: 0 <= i < |inv.lines| && inv.lines[i].part == Two)
            <==> unit.runPart2 && unit.part2.Some? && !(unit.runPart1 && unit.part1.None?)
    ensures forall i :: 0 <= i < |inv.lines| && inv.lines[i].part == One
              ==> unit.part1.Some? && inv.lines[i] == Answer(One, unit.part1.value.0, unit.part1.value.1)
    ensures forall i :: 0 <= i < |inv.lines| && inv.lines[i].part == Two
              ==> unit.part2.Some? && inv.lines[i] == Answer(Two, unit.part2.value.0, unit.part2.value.1)
    ensures forall i, j :: 0 <= i < j < |inv.lines| ==> inv.lines[i].part == One && inv.lines[j].part == Two
  {
    if unit.runPart1 && unit.part1.None? then Invocation([], true)
    else
      var first := if unit.runPart1 then [Answer(One, unit.part1.value.0, unit.part1.value.1)] else [];
      assert unit.runPart1 ==> first[0].part == One;
      if unit.runPart2 && unit.part2.None? then Invocation(first, true)
      else
        var lines := first + (if unit.runPart2 then [Answer(Two, unit.part2.value.0, unit.part2.value.1)] else []);
        assert unit.runPart1 ==> lines[0].part == One;
        assert unit.runPart2 ==> lines[|lines| - 1].part == Two;
        Invocation(lines, false)
  }

  /**
    A part whose flag is off is never called: whatever its call would give,
    a panic included, `run` prints the same lines and ends the same way.
   */
  lemma RunIgnoresDisabled(unit: DayUnit, other: Option<(uint8, string)>)
    ensures !unit.runPart1 ==> Run(unit) == Run(unit.(part1 := other))
    ensures !unit.runPart2 ==> Run(unit) == Run(unit.(part2 := other))
  {
  }

  /** A day constructed with the resolved flags, whose enabled parts return, prints at least one answer, in part order. */
  lemma RunWithResolvedFlags(args: Args, part1: (uint8, string), part2: (uint8, string))
    ensures var (p1, p2) := PartsToRun(args);
            var inv := Run(DayUnit(p1, p2, Some(part1), Some(part2)));
            && !inv.panicked
            && 1 <= |inv.lines|
            && (args.part1 && !args.part2 ==> inv.lines == [Answer(One, part1.0, part1.1)])
            && (args.part2 && !args.part1 ==> inv.lines == [Answer(Two, part2.0, part2.1)])
            && (!args.part1 && !args.part2 ==> inv.lines == [Answer(One, part1.0, part1.1), Answer(Two, part2.0, part2.1)])
  {
  }

  /**
    The text `println!("Day{:02} Part {}: {}", day, answer)` writes for one
    answer: `Day`, the padded day, the part label, then the answer verbatim.
   */
  function AnswerText(a: Answer): (t: string)
    ensures var k := |Pad2(a.day)|;
            && |t| == 3 + k + 9 + |a.text|
            && t[..3] == "Day"
            && t[3..3 + k] == Pad2(a.day)
            && t[3 + k..3 + k + 9] == " Part " + (if a.part == One then "1" else "2") + ": "
            && t[3 + k + 9..] == a.text
  {
    var digits := Pad2(a.day);
    var tag := " Part " + (if a.part == One then "1" else "2") + ": ";
    var t := "Day" + digits + tag + a.text;
    assert t == ("Day" + digits) + (tag + a.text);
    assert (tag + a.text)[..9] == tag;
    t
  }

  /**
    The label of an answer line reads back as its day: after `Day` come the
    two (or, from day 100 on, three) digits of `{:02}`, which parse to the
    day; the part label and the answer follow.
   */
  lemma AnswerLabel(a: Answer)
    ensures var t := AnswerText(a);
            var k := |Pad2(a.day)|;
            && (k == 2 <==> a.day < 100)
            && t[..3] == "Day"
            && t[3..3 + k] == Pad2(a.day)
            && AllDigits(t[3..3 + k])
            && ParseU8(t[3..3 + k]) == Some(a.day)
            && t[3 + k..3 + k + 8] == " Part " + (if a.part == One then "1" else "2") + ":"
            && t[3 + k + 8..] == " " + a.text
  {
    var t := AnswerText(a);
    var k := |Pad2(a.day)|;
    var tag := " Part " + (if a.part == One then "1" else "2") + ": ";
    assert t[3 + k..3 + k + 9] == tag;
    assert t[3 + k..3 + k + 8] == tag[..8];
    assert t[3 + k + 8] == tag[8] == ' ';
    assert t[3 + k + 8..] == [t[3 + k + 8]] + t[3 + k + 9..];
    Pad2RoundTrip(a.day);
  }
}
