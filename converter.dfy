/** The converter object: its settings, the ballots read so far and the
    candidate registry, with parse_line, process_input and calculate_scores
    as methods that update them. */
module Converter {
  import opened Text
  import opened Parsing
  import opened ParsingLemmas
  import opened Scoring
  import opened Reconstruct

  /** How process_input ends: at a failing line (1-based), for want of two
      candidates, or with the score lists of calculate_scores. */
  datatype Outcome =
    | LineError(lineNum: nat, error: ParseError)
    | TooFewCandidates
    | Scores(table: map<string, seq<int>>)

  /** The state after the parse loop, and the first failure if any. */
  datatype Batch = Batch(ballots: seq<Ballot>, registry: Registry, failure: Option<(nat, ParseError)>)

  /** Every ballot well formed and registered, and the registry consistent. */
  ghost predicate Holds(ballots: seq<Ballot>, reg: Registry) {
    && Consistent(reg)
    && forall k :: 0 <= k < |ballots| ==> WellFormed(ballots[k]) && Registered(ballots[k], reg)
  }

  /** The lines process_input walks: the stripped text split at newlines. */
  function InputLines(text: string): seq<string> {
    Split(Strip(text), '\n')
  }

  lemma HoldsStep(ballots: seq<Ballot>, reg: Registry, line: string, strict: bool)
    requires Holds(ballots, reg)
    ensures var p := Parsing.ParseLine(line, strict, reg);
      && Holds(ballots, p.registry)
      && (p.result.Copies? ==> Holds(ballots + p.result.ballots, p.registry))
  {
    var p := Parsing.ParseLine(line, strict, reg);
    ParseLineSound(line, strict, reg);
    assert Consistent(p.registry);
    if p.result.Copies? {
      var cs := p.result.ballots;
      var all := ballots + cs;
      forall k | 0 <= k < |all| ensures WellFormed(all[k]) && Registered(all[k], p.registry) {
        if k >= |ballots| {
          assert all[k] == cs[k - |ballots|] == cs[0];
          forall g, i | 0 <= g < |cs[0]| && 0 <= i < |cs[0][g]| ensures cs[0][g][i] in p.registry {
            assert cs[0][g][i] in IdSet(cs[0]);
          }
        } else {
          assert all[k] == ballots[k];
        }
      }
    }
  }

  /** parse_line with its strict-mode setting fixed. */
  type LineParser = (string, Registry) -> Parsed

  function ParserFor(strict: bool): LineParser {
    (line: string, reg: Registry) => Parsing.ParseLine(line, strict, reg)
  }

  /** The parse loop of process_input from line index i on, for any line
      parser: Skip moves on, Copies appends, Fail stops at 1-based line i+1. */
  function RunWith(parse: LineParser, lines: seq<string>, i: nat, ballots: seq<Ballot>, reg: Registry): Batch
    requires i <= |lines|
    decreases |lines| - i
  {
    if i == |lines| then Batch(ballots, reg, None)
    else
      var p := parse(lines[i], reg);
      match p.result
      case Skip => RunWith(parse, lines, i + 1, ballots, p.registry)
      case Copies(cs) => RunWith(parse, lines, i + 1, ballots + cs, p.registry)
      case Fail(e) => Batch(ballots, p.registry, Some((i + 1, e)))
  }

  /** The parse loop with parse_line itself. */
  function RunLines(lines: seq<string>, i: nat, ballots: seq<Ballot>, reg: Registry, strict: bool): Batch
    requires i <= |lines|
  {
    RunWith(ParserFor(strict), lines, i, ballots, reg)
  }

  lemma {:induction false} RunLinesHolds(lines: seq<string>, i: nat, ballots: seq<Ballot>, reg: Registry, strict: bool)
    requires i <= |lines| && Holds(ballots, reg)
    ensures var r := RunLines(lines, i, ballots, reg, strict); Holds(r.ballots, r.registry)
    decreases |lines| - i
  {
    if i < |lines| {
      var p := Parsing.ParseLine(lines[i], strict, reg);
      HoldsStep(ballots, reg, lines[i], strict);
      RunLinesUnfold(lines, i, ballots, reg, strict);
      match p.result
      case Skip => RunLinesHolds(lines, i + 1, ballots, p.registry, strict);
      case Copies(cs) => RunLinesHolds(lines, i + 1, ballots + cs, p.registry, strict);
      case Fail(e) =>
    }
  }

  lemma RunLinesDone(lines: seq<string>, ballots: seq<Ballot>, reg: Registry, strict: bool)
    ensures RunLines(lines, |lines|, ballots, reg, strict) == Batch(ballots, reg, None)
  {
  }

  lemma RunLinesUnfold(lines: seq<string>, i: nat, ballots: seq<Ballot>, reg: Registry, strict: bool)
    requires i < |lines|
    ensures var p := Parsing.ParseLine(lines[i], strict, reg);
      RunLines(lines, i, ballots, reg, strict) ==
        if p.result.Skip? then RunLines(lines, i + 1, ballots, p.registry, strict)
        else if p.result.Copies? then RunLines(lines, i + 1, ballots + p.result.ballots, p.registry, strict)
        else Batch(ballots, p.registry, Some((i + 1, p.result.error)))
  {
    assert ParserFor(strict)(lines[i], reg) == Parsing.ParseLine(lines[i], strict, reg);
  }

  /** One turn of the parse loop, in terms of the parsed line r and the
      registry reg' after it. */
  lemma LineStep(lines: seq<string>, i: nat, ballots: seq<Ballot>, reg: Registry, strict: bool, r: LineResult, reg': Registry)
    requires i < |lines| && Holds(ballots, reg)
    requires Parsed(r, reg') == Parsing.ParseLine(lines[i], strict, reg)
    ensures r.Skip? ==> RunLines(lines, i, ballots, reg, strict) == RunLines(lines, i + 1, ballots, reg', strict) && Holds(ballots, reg')
    ensures r.Copies? ==> RunLines(lines, i, ballots, reg, strict) == RunLines(lines, i + 1, ballots + r.ballots, reg', strict) && Holds(ballots + r.ballots, reg')
    ensures r.Fail? ==> RunLines(lines, i, ballots, reg, strict) == Batch(ballots, reg', Some((i + 1, r.error))) && Holds(ballots, reg')
  {
    HoldsStep(ballots, reg, lines[i], strict);
    RunLinesUnfold(lines, i, ballots, reg, strict);
  }

  /** Process in terms of the parse run: the outcome depends on the run only. */
  lemma ProcessOfRun(text: string, strict: bool, rule: Rule)
    ensures var run := RunLines(InputLines(text), 0, [], map[], strict);
      && Holds(run.ballots, run.registry)
      && Process(text, strict, rule).0 == run
      && Process(text, strict, rule).1 ==
         if run.failure.Some? then LineError(run.failure.value.0, run.failure.value.1)
         else if |run.registry| < 2 then TooFewCandidates
         else Scores(ScoreTable(run.ballots, run.registry.Keys, rule))
  {
    HoldsEmpty();
    RunLinesHolds(InputLines(text), 0, [], map[], strict);
  }

  lemma HoldsEmpty()
    ensures Holds([], map[])
  {
  }

  /** What process_input computes from the text, whatever the state before. */
  function Process(text: string, strict: bool, rule: Rule): (Batch, Outcome)
  {
    HoldsEmpty();
    var run := RunLines(InputLines(text), 0, [], map[], strict);
    RunLinesHolds(InputLines(text), 0, [], map[], strict);
    HoldsNonEmpty(run.ballots, run.registry);
    var outcome :=
      if run.failure.Some? then LineError(run.failure.value.0, run.failure.value.1)
      else if |run.registry| < 2 then TooFewCandidates
      else Scores(ScoreTable(run.ballots, run.registry.Keys, rule));
    (run, outcome)
  }

  lemma HoldsNonEmpty(ballots: seq<Ballot>, reg: Registry)
    requires Holds(ballots, reg)
    ensures AllNonEmpty(ballots)
  {
  }

  /** parse_line up to the rank loop: the comment, the blank line, the
      multiplier and the content checks. */
  lemma LineUnfold(line: string, strict: bool, reg: Registry)
    ensures var body := Strip(BeforeComment(line));
      Parsing.ParseLine(line, strict, reg) ==
        if body == [] then Parsed(Skip, reg)
        else if HasMultiplier(body) && Multiplier(body) < 1 then Parsed(Fail(InvalidMultiplier), reg)
        else ParseContent(Content(body), Multiplier(body), strict, reg)
  {
  }

  lemma ContentUnfold(content: string, m: nat, strict: bool, reg: Registry)
    requires content != [] && IllegalChars(content) == [] && !(strict && '=' in content)
    ensures var scan := ScanRanks(Split(content, '>'), 0, [], {}, reg);
      ParseContent(content, m, strict, reg) ==
        if scan.Stopped? then Parsed(Fail(scan.error), scan.registry) else Parsed(Copies(Repeat(scan.value, m)), scan.registry)
  {
  }

  /** The score lists after the ids in done have received ballot b's score. */
  ghost predicate Progress(acc: map<string, seq<int>>, scores: map<string, seq<int>>, done: set<string>, b: Ballot, rule: Rule)
    requires NonEmptyGroups(b)
  {
    && scores.Keys == acc.Keys
    && forall id :: id in acc ==> scores[id] == acc[id] + (if id in done then [ScoreOf(b, id, rule)] else [])
  }

  lemma ProgressAssign(acc: map<string, seq<int>>, scores: map<string, seq<int>>, done: set<string>, b: Ballot, rule: Rule, cid: string)
    requires NonEmptyGroups(b) && Progress(acc, scores, done, b, rule)
    requires cid in acc && cid !in done
    ensures Progress(acc, scores[cid := scores[cid] + [ScoreOf(b, cid, rule)]], done + {cid}, b, rule)
  {
  }

  /** The inner loop of calculate_scores: every member of group g gets the
      group's score. */
  method ScoreGroup(acc: map<string, seq<int>>, scores0: map<string, seq<int>>, scored0: set<string>,
                    b: Ballot, g: nat, rule: Rule, finalScore: int)
    returns (scores: map<string, seq<int>>, scored: set<string>)
    requires NonEmptyGroups(b) && Distinct(b) && g < |b|
    requires scored0 == IdsBefore(b, g) && Progress(acc, scores0, scored0, b, rule)
    requires IdsBefore(b, g + 1) <= acc.Keys
    requires finalScore == GroupScore(Cursor(b, g), |b[g]|, rule)
    ensures scored == IdsBefore(b, g) + Members(b[g], |b[g]|)
    ensures Progress(acc, scores, scored, b, rule)
  {
    scores, scored := scores0, scored0;
    var rankGroup := b[g];
    IdsBeforeNext(b, g);
    var m := 0;
    while m < |rankGroup|
      invariant 0 <= m <= |rankGroup|
      invariant scored == IdsBefore(b, g) + Members(rankGroup, m)
      invariant Progress(acc, scores, scored, b, rule)
    {
      var cid := rankGroup[m];
      FreshMember(b, g, m);
      ScoreAt(b, g, cid, rule);
      assert cid in Members(rankGroup, |rankGroup|);
      ProgressAssign(acc, scores, scored, b, rule, cid);
      scores := scores[cid := scores[cid] + [finalScore]];
      scored := scored + {cid};
      assert Members(rankGroup, m + 1) == Members(rankGroup, m) + {cid};
      m := m + 1;
    }
  }

  /** The second loop of calculate_scores: every registered candidate the
      ballot did not rank gets 0. */
  method FillZeros(acc: map<string, seq<int>>, scores0: map<string, seq<int>>, scored: set<string>,
                   b: Ballot, rule: Rule)
    returns (scores: map<string, seq<int>>)
    requires NonEmptyGroups(b) && scored == IdsBefore(b, |b|)
    requires Progress(acc, scores0, scored, b, rule)
    ensures scores.Keys == acc.Keys
    ensures forall id :: id in acc ==> scores[id] == acc[id] + [ScoreOf(b, id, rule)]
  {
    scores := scores0;
    var rest := acc.Keys;
    while rest != {}
      invariant rest <= acc.Keys
      invariant Progress(acc, scores, scored + (acc.Keys - rest), b, rule)
      decreases |rest|
    {
      var cid :| cid in rest;
      var done := scored + (acc.Keys - rest);
      if cid !in scored {
        UnscoredZero(b, cid, rule);
        ProgressAssign(acc, scores, done, b, rule, cid);
        scores := scores[cid := scores[cid] + [0]];
        assert scored + (acc.Keys - (rest - {cid})) == done + {cid};
      } else {
        assert scored + (acc.Keys - (rest - {cid})) == done;
      }
      rest := rest - {cid};
    }
    assert acc.Keys - rest == acc.Keys;
  }

  class StarVoteConverter {
    const strictMode: bool
    const equalRanksRule: Rule
    const compressedOutput: bool
    var ballots: seq<Ballot>
    var allCandidates: Registry

    ghost predicate Valid()
      reads this
    {
      Holds(ballots, allCandidates)
    }

    constructor(strict: bool, rule: Rule, compressed: bool)
      ensures strictMode == strict && equalRanksRule == rule && compressedOutput == compressed
      ensures ballots == [] && allCandidates == map[]
      ensures Valid()
    {
      strictMode := strict;
      equalRanksRule := rule;
      compressedOutput := compressed;
      ballots := [];
      allCandidates := map[];
    }

    /** __init__ with the rule given as text: None where it raises ValueError. */
    static method Create(strict: bool, ruleText: string, compressed: bool) returns (c: Option<StarVoteConverter>)
      ensures c.None? <==> ParseRule(ruleText).None?
      ensures c.Some? ==> && fresh(c.value)
                          && c.value.strictMode == strict
                          && c.value.equalRanksRule == ParseRule(ruleText).value
                          && c.value.compressedOutput == compressed
                          && c.value.ballots == [] && c.value.allCandidates == map[]
    {
      var rule := ParseRule(ruleText);
      if rule.None? {
        return None;
      }
      var conv := new StarVoteConverter(strict, rule.value, compressed);
      return Some(conv);
    }

    /** parse_line: the result and the registry afterwards are those of the
        specification function, on every path including the errors. */
    method ParseLine(line: string) returns (r: LineResult)
      modifies this
      ensures Parsed(r, allCandidates) == Parsing.ParseLine(line, strictMode, old(allCandidates))
      ensures ballots == old(ballots)
    {
      var text := line;
      if '#' in text {
        text := Split(text, '#')[0];
      }
      text := Strip(text);
      LineUnfold(line, strictMode, allCandidates);
      if text == [] {
        return Skip;
      }
      var multiplier: nat := 1;
      var content := text;
      var digits := DigitPrefix(text);
      if |digits| > 0 && |digits| < |text| && text[|digits|] == ':' {
        multiplier := DigitsValue(digits);
        if multiplier < 1 {
          return Fail(InvalidMultiplier);
        }
        content := Strip(UpToNewline(text[|digits| + 1..]));
      }
      assert content == Content(text) && multiplier == Multiplier(text);
      if content == [] || IllegalChars(content) != [] {
        return Fail(IllegalChar(SortedDistinct(IllegalChars(content))));
      }
      if strictMode && '=' in content {
        return Fail(TiesNotAllowed);
      }
      ContentUnfold(content, multiplier, strictMode, allCandidates);
      var scan := ScanRankStrings(Split(content, '>'));
      if scan.Stopped? {
        r := Fail(scan.error);
      } else {
        r := Copies(Repeat(scan.value, multiplier));
      }
    }

    /** The loop over the '>'-separated rank strings of parse_line. */
    method ScanRankStrings(ranks: seq<string>) returns (scan: Scan<Ballot>)
      modifies this
      ensures scan == ScanRanks(ranks, 0, [], {}, old(allCandidates))
      ensures allCandidates == scan.registry && ballots == old(ballots)
    {
      var parsed: Ballot := [];
      var seen: set<string> := {};
      var i := 0;
      while i < |ranks|
        invariant 0 <= i <= |ranks|
        invariant ScanRanks(ranks, i, parsed, seen, allCandidates) == ScanRanks(ranks, 0, [], {}, old(allCandidates))
        invariant ballots == old(ballots)
      {
        var stop;
        stop, parsed, seen := ScanRank(ranks, i, parsed, seen);
        if stop.Some? {
          return stop.value;
        }
        i := i + 1;
      }
      return Done(parsed, seen, allCandidates);
    }

    /** One turn of the loop over the rank strings: rank string i is either
        rejected, ending the scan, or added to the ballot as one group. */
    method ScanRank(ranks: seq<string>, i: nat, parsed0: Ballot, seen0: set<string>)
      returns (stop: Option<Scan<Ballot>>, parsed: Ballot, seen: set<string>)
      requires i < |ranks|
      modifies this
      ensures stop.Some? ==> stop.value == ScanRanks(ranks, i, parsed0, seen0, old(allCandidates))
      ensures stop.Some? ==> allCandidates == stop.value.registry
      ensures stop.None? ==> ScanRanks(ranks, i + 1, parsed, seen, allCandidates) == ScanRanks(ranks, i, parsed0, seen0, old(allCandidates))
      ensures ballots == old(ballots)
    {
      parsed, seen := parsed0, seen0;
      var rankStr := Strip(ranks[i]);
      if rankStr == [] {
        return Some(Stopped(EmptySlot, allCandidates)), parsed, seen;
      }
      if '=' in rankStr {
        TieStep(ranks, i, parsed, seen, allCandidates);
        var tie := ScanTiedNames(Split(rankStr, '='), seen);
        if tie.Stopped? {
          return Some(Stopped(tie.error, tie.registry)), parsed, seen;
        }
        parsed := parsed + [tie.value];
        seen := tie.seen;
      } else {
        SingleStep(ranks, i, parsed, seen, allCandidates);
        var (cid, display) := NormalizeName(rankStr);
        if cid in seen {
          return Some(Stopped(Duplicate(display), allCandidates)), parsed, seen;
        }
        seen := seen + {cid};
        allCandidates := allCandidates[cid := display];
        parsed := parsed + [[cid]];
      }
      stop := None;
    }

    /** The loop over the '='-separated names of one tie group. */
    method ScanTiedNames(names: seq<string>, seen0: set<string>) returns (scan: Scan<seq<string>>)
      modifies this
      ensures scan == ScanNames(names, 0, [], seen0, old(allCandidates))
      ensures allCandidates == scan.registry && ballots == old(ballots)
    {
      var group: seq<string> := [];
      var seen := seen0;
      var j := 0;
      while j < |names|
        invariant 0 <= j <= |names|
        invariant ScanNames(names, j, group, seen, allCandidates) == ScanNames(names, 0, [], seen0, old(allCandidates))
        invariant ballots == old(ballots)
      {
        var name := Strip(names[j]);
        if name == [] {
          return Stopped(EmptyTieSlot, allCandidates);
        }
        var (cid, display) := NormalizeName(name);
        if cid in seen {
          return Stopped(Duplicate(display), allCandidates);
        }
        seen := seen + {cid};
        allCandidates := allCandidates[cid := display];
        group := group + [cid];
        j := j + 1;
      }
      return Done(group, seen, allCandidates);
    }

    /** process_input: reset the state, parse every line, stop at the first
        failing line, then insist on two candidates before scoring. */
    method ProcessInput(text: string) returns (outcome: Outcome)
      modifies this
      ensures ballots == Process(text, strictMode, equalRanksRule).0.ballots
      ensures allCandidates == Process(text, strictMode, equalRanksRule).0.registry
      ensures outcome == Process(text, strictMode, equalRanksRule).1
      ensures Valid()
    {
      ProcessOfRun(text, strictMode, equalRanksRule);
      var failure := ParseLines(Split(Strip(text), '\n'));
      if failure.Some? {
        outcome := LineError(failure.value.0, failure.value.1);
        return;
      }
      if |allCandidates| < 2 {
        outcome := TooFewCandidates;
        return;
      }
      var table := CalculateScores();
      outcome := Scores(table);
    }

    /** One turn of the parse loop: parse_line on line i, and the ballots it
        yields appended; reports the line's error instead if it has one. */
    method ReadLine(lines: seq<string>, i: nat) returns (failure: Option<(nat, ParseError)>)
      requires i < |lines| && Valid()
      modifies this
      ensures Valid()
      ensures failure.None? ==> RunLines(lines, i, old(ballots), old(allCandidates), strictMode) == RunLines(lines, i + 1, ballots, allCandidates, strictMode)
      ensures failure.Some? ==> RunLines(lines, i, old(ballots), old(allCandidates), strictMode) == Batch(ballots, allCandidates, failure)
    {
      ghost var reg := allCandidates;
      var r := ParseLine(lines[i]);
      LineStep(lines, i, ballots, reg, strictMode, r, allCandidates);
      failure := None;
      match r {
        case Skip =>
        case Copies(cs) =>
          ballots := ballots + cs;
        case Fail(e) =>
          failure := Some((i + 1, e));
      }
    }

    /** The parse loop of process_input, from an empty state: ballots are
        appended line by line, and the first failing line ends the loop. */
    method ParseLines(lines: seq<string>) returns (failure: Option<(nat, ParseError)>)
      modifies this
      ensures Batch(ballots, allCandidates, failure) == RunLines(lines, 0, [], map[], strictMode)
      ensures Valid()
    {
      ballots := [];
      allCandidates := map[];
      HoldsEmpty();
      ghost var run := RunLines(lines, 0, [], map[], strictMode);
      var i := 0;
      failure := None;
      while i < |lines| && failure.None?
        invariant 0 <= i <= |lines|
        invariant failure.None? ==> RunLines(lines, i, ballots, allCandidates, strictMode) == run
        invariant failure.Some? ==> Batch(ballots, allCandidates, failure) == run
        invariant Valid()
      {
        failure := ReadLine(lines, i);
        i := i + 1;
      }
      if failure.None? {
        RunLinesDone(lines, ballots, allCandidates, strictMode);
      }
    }

    /** calculate_scores: one score list per registered candidate, holding
        what each ballot gives that candidate. */
    method CalculateScores() returns (scores: map<string, seq<int>>)
      requires Valid()
      ensures scores == ScoreTable(ballots, allCandidates.Keys, equalRanksRule)
    {
      HoldsNonEmpty(ballots, allCandidates);
      var ids := allCandidates.Keys;
      scores := map id | id in ids :: [];
      var k := 0;
      while k < |ballots|
        invariant 0 <= k <= |ballots|
        invariant scores.Keys == ids
        invariant forall id :: id in ids ==> scores[id] == Column(ballots, k, id, equalRanksRule)
      {
        scores := ScoreBallot(scores, k);
        forall id | id in ids ensures scores[id] == Column(ballots, k + 1, id, equalRanksRule) {
          ColumnStep(ballots, k, id, equalRanksRule);
        }
        k := k + 1;
      }
    }

    /** The body of the ballot loop of calculate_scores: walk the groups with
        the slot cursor, then give 0 to every candidate the ballot left out. */
    method ScoreBallot(acc: map<string, seq<int>>, k: nat) returns (scores: map<string, seq<int>>)
      requires Valid() && k < |ballots|
      requires acc.Keys == allCandidates.Keys
      ensures scores.Keys == acc.Keys
      ensures forall id :: id in acc ==> scores[id] == acc[id] + [ScoreOf(ballots[k], id, equalRanksRule)]
    {
      var ballot := ballots[k];
      var rule := equalRanksRule;
      scores := acc;
      var scored: set<string> := {};
      var currentSlot := 0;
      var g := 0;
      while g < |ballot|
        invariant 0 <= g <= |ballot|
        invariant currentSlot == Cursor(ballot, g)
        invariant scored == IdsBefore(ballot, g)
        invariant Progress(acc, scores, scored, ballot, rule)
      {
        var rankGroup := ballot[g];
        var groupSize := |rankGroup|;
        var slotScores := SlotScores(currentSlot, groupSize);
        var finalScore := 0;
        if groupSize == 1 {
          finalScore := slotScores[0];
        } else if rule == High {
          finalScore := MaxOf(slotScores);
        } else {
          finalScore := MinOf(slotScores);
        }
        assert finalScore == GroupScore(currentSlot, groupSize, rule);
        scores, scored := ScoreGroup(acc, scores, scored, ballot, g, rule, finalScore);
        IdsBeforeNext(ballot, g);
        currentSlot := currentSlot + groupSize;
        g := g + 1;
      }
      scores := FillZeros(acc, scores, scored, ballot, rule);
    }
  }
}
