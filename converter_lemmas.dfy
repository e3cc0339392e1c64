/** What process_input promises about a whole text: the first failing line
    decides the error, a text without one yields every line's ballots, and
    scores come only after a clean parse with two candidates. */
module ConverterLemmas {
  import opened Parsing
  import opened Scoring
  import opened Converter

  lemma RunWithUnfold(parse: LineParser, lines: seq<string>, i: nat, ballots: seq<Ballot>, reg: Registry)
    requires i < |lines|
    ensures var p := parse(lines[i], reg);
      RunWith(parse, lines, i, ballots, reg) ==
        if p.result.Skip? then RunWith(parse, lines, i + 1, ballots, p.registry)
        else if p.result.Copies? then RunWith(parse, lines, i + 1, ballots + p.result.ballots, p.registry)
        else Batch(ballots, p.registry, Some((i + 1, p.result.error)))
  {
  }

  /** A run is a run up to line j, then a run from line j on, unless it
      already stopped before line j. */
  lemma {:induction false} RunSplit(parse: LineParser, lines: seq<string>, i: nat, j: nat, ballots: seq<Ballot>, reg: Registry)
    requires i <= j <= |lines|
    ensures var pre := RunWith(parse, lines[..j], i, ballots, reg);
      RunWith(parse, lines, i, ballots, reg) ==
        if pre.failure.Some? then pre else RunWith(parse, lines, j, pre.ballots, pre.registry)
    decreases j - i
  {
    if i < j {
      var p := parse(lines[i], reg);
      assert lines[..j][i] == lines[i];
      RunWithUnfold(parse, lines, i, ballots, reg);
      RunWithUnfold(parse, lines[..j], i, ballots, reg);
      match p.result {
        case Skip => RunSplit(parse, lines, i + 1, j, ballots, p.registry);
        case Copies(cs) => RunSplit(parse, lines, i + 1, j, ballots + cs, p.registry);
        case Fail(e) =>
      }
    }
  }

  /** A failed run names line n (1-based): every line before it parsed, line
      n fails with the reported error, and its ballots are those of the
      lines before it. */
  lemma {:induction false} FirstFailure(parse: LineParser, lines: seq<string>, i: nat, ballots: seq<Ballot>, reg: Registry)
    requires i <= |lines|
    ensures var run := RunWith(parse, lines, i, ballots, reg);
      run.failure.Some? ==>
        var n := run.failure.value.0;
        && i < n <= |lines|
        && var pre := RunWith(parse, lines[..n - 1], i, ballots, reg);
           && pre.failure.None?
           && var p := parse(lines[n - 1], pre.registry);
              && p.result == Fail(run.failure.value.1)
              && run == Batch(pre.ballots, p.registry, run.failure)
    decreases |lines| - i
  {
    if i < |lines| {
      var p := parse(lines[i], reg);
      RunWithUnfold(parse, lines, i, ballots, reg);
      var next := if p.result.Copies? then ballots + p.result.ballots else ballots;
      if p.result.Fail? {
        assert |lines[..i]| == i;
      } else {
        FirstFailure(parse, lines, i + 1, next, p.registry);
        var run := RunWith(parse, lines, i, ballots, reg);
        if run.failure.Some? {
          var n := run.failure.value.0;
          assert lines[..n - 1][i] == lines[i];
          RunWithUnfold(parse, lines[..n - 1], i, ballots, reg);
        }
      }
    }
  }

  /** A run without failure went through every line: each line parses in
      the registry the lines before it built. */
  lemma {:induction false} NoFailure(parse: LineParser, lines: seq<string>, i: nat, ballots: seq<Ballot>, reg: Registry)
    requires i <= |lines|
    ensures RunWith(parse, lines, i, ballots, reg).failure.None? ==>
      forall j :: i <= j < |lines| ==>
        && RunWith(parse, lines[..j], i, ballots, reg).failure.None?
        && !parse(lines[j], RunWith(parse, lines[..j], i, ballots, reg).registry).result.Fail?
    decreases |lines| - i
  {
    if i < |lines| && RunWith(parse, lines, i, ballots, reg).failure.None? {
      var p := parse(lines[i], reg);
      RunWithUnfold(parse, lines, i, ballots, reg);
      var next := if p.result.Copies? then ballots + p.result.ballots else ballots;
      NoFailure(parse, lines, i + 1, next, p.registry);
      forall j | i <= j < |lines|
        ensures RunWith(parse, lines[..j], i, ballots, reg).failure.None?
        ensures !parse(lines[j], RunWith(parse, lines[..j], i, ballots, reg).registry).result.Fail?
      {
        if j == i {
          assert |lines[..j]| == i;
        } else {
          assert lines[..j][i] == lines[i];
          RunWithUnfold(parse, lines[..j], i, ballots, reg);
        }
      }
    }
  }

  /** The three ways process_input ends, and what the score table then is. */
  lemma Outcomes(text: string, strict: bool, rule: Rule)
    ensures var (run, o) := Process(text, strict, rule);
      && (o.LineError? <==> run.failure.Some?)
      && (o.LineError? ==> run.failure == Some((o.lineNum, o.error)) && 1 <= o.lineNum <= |InputLines(text)|)
      && (o.TooFewCandidates? <==> run.failure.None? && |run.registry| < 2)
      && (o.Scores? <==> run.failure.None? && |run.registry| >= 2)
      && (o.Scores? ==>
            && o.table.Keys == run.registry.Keys
            && |o.table.Keys| >= 2
            && (forall id :: id in o.table ==> |o.table[id]| == |run.ballots|)
            && (forall id, k :: id in o.table && 0 <= k < |run.ballots| ==> 0 <= o.table[id][k] <= 5))
  {
    var (run, o) := Process(text, strict, rule);
    ProcessOfRun(text, strict, rule);
    FirstFailure(ParserFor(strict), InputLines(text), 0, [], map[]);
    HoldsNonEmpty(run.ballots, run.registry);
    ScoreTableShape(run.ballots, run.registry.Keys, rule);
    assert |run.registry.Keys| == |run.registry|;
  }
}
