# STAR voting: rank-to-score conversion and tabulation, in Dafny

This project models two programs of a STAR-voting repository and proves
properties about them.

- **The rank-to-score converter** (`Converters/convert_ranks_to_scores.py`).
  It reads ranked ballots such as `2: A > B = C # comment` line by line.
  It maps each candidate name to a lower-case id and a title-case display
  name. It rejects malformed lines with a line number and an error kind.
  It then gives every candidate a score on every ballot with the
  top-anchored formula `max(5 - slot, 0)`. A tie group scores at the best
  (`High`) or the worst (`Low`) slot it spans. The converter also rebuilds
  ballot strings and groups identical ones for its compressed output.
  In the model it is the class `Converter.StarVoteConverter`. Its fields
  `ballots` and `allCandidates` are updated by `ParseLine`, `ProcessInput`
  and the two inner scan loops. A pure specification (`Parsing.ParseLine`,
  `Converter.Process`, `Scoring.ScoreTable`) sits beside each method, and
  each method's `ensures` ties the new state to it.
- **The tabulation script** (`STAR_Voting_Arend_Adam_.py`). It expands
  weighted CSV score rows into ballots. It counts them by plurality, by the
  script's instant-runoff loop (IRV) and by STAR (score sums, top two,
  automatic runoff). Each loop is a Dafny method proved against a
  recursive specification function (`Plurality.Tally`, `Irv.IrvFrom`,
  `Star.ColumnSums`, `Star.Prefers`). The script's sample (lines 12-15) is
  worked through in `Tabulation.SampleReport`.

Python's `max`, `min` and `list.index` are `Election.Max`, `Election.Min`
and `Election.IndexOf`. The script's `s.index(max(s))` is proved equal to
the first-maximum scan `Election.FirstMax` (`Election.IndexOfMax`).

The model follows the code where it departs from the usual STAR and IRV
rules:

- Empty content, as in `3:`, is reported as an illegal-character error
  with no characters listed. That error comes from the character check;
  the code never reports an empty slot here.
- A row weight below 1 is not rejected. `range(w)` simply yields no copies.
- Plurality and IRV credit every ballot to its first highest-scored
  candidate, even when it scores everyone 0 or ties at the top. The code
  has no "exhausted ballot".
- The IRV loop stops once `max(counts) >= total_votes / 2`. The code has no
  guard for a single remaining candidate.
- STAR's second finalist is the first maximum after the leader's sum is
  set to 0. When every other sum is 0, that is candidate 0. It is the
  leader itself only when the leader is candidate 0 and every other sum
  is 0 (`Star.NextWhenOthersZero`).

## Model

| member | source | states |
|---|---|---|
| Scoring.RuleNames | Converters/convert_ranks_to_scores.py:17-21 | the rule text is accepted as High exactly when its lower-case form is "high", as Low exactly when it is "low", and refused otherwise |
| Converter.StarVoteConverter.Create | Converters/convert_ranks_to_scores.py:7-24 | construction fails exactly when the capitalized rule is neither High nor Low; otherwise the settings are stored and the ballots and registry start empty |
| Parsing.NormalizedId | Converters/convert_ranks_to_scores.py:26-32 | the canonical id is the lower-case form of the display name, and the display name is the title form of the id |
| Parsing.IdOfName | Converters/convert_ranks_to_scores.py:26-32 | a name of letters, digits and blanks that is not blank normalizes to a valid id (non-empty, stripped, lower case), and its display name is the id's title form |
| Parsing.IllegalChars | Converters/convert_ranks_to_scores.py:68 | a character is listed exactly when it occurs in the content and is not a letter, digit, whitespace, '>' or '=' |
| Parsing.ScanNamesSound | Converters/convert_ranks_to_scores.py:93-109 | the tie loop either stops with an empty tie slot or a duplicate, or returns one id per name, all new to the ballot and registered under their title forms |
| Parsing.ScanRanksSound | Converters/convert_ranks_to_scores.py:78-120 | the rank loop either stops with an empty slot, an empty tie slot or a duplicate, or returns one non-empty group per rank string, with distinct valid ids, all registered; the registry only grows |
| ParsingLemmas.ParseBodyGuards | Converters/convert_ranks_to_scores.py:47-123 | the checks come in the source's order: multiplier below 1, then illegal characters (sorted, without repeats), then a tie in strict mode, then the rank loop, whose ballot is repeated multiplier times |
| ParsingLemmas.ParseBodySound | Converters/convert_ranks_to_scores.py:47-123 | a parsed body is never skipped, and the registry only grows; on success there are exactly multiplier copies of one well-formed ballot, and the registry gains exactly its ids, under their title forms |
| ParsingLemmas.ParseLineSound | Converters/convert_ranks_to_scores.py:34-123 | a skipped line leaves the registry alone, a successful line yields identical well-formed copies whose ids are registered, and the registry never loses an entry |
| ParsingLemmas.BlankLine | Converters/convert_ranks_to_scores.py:39-45 | a line is skipped exactly when everything before its first '#' is whitespace, and a skip changes no registry entry |
| ParsingLemmas.CommentIgnored | Converters/convert_ranks_to_scores.py:40-41 | text after the first '#' never changes the result or the registry |
| ParsingLemmas.MultiplierRejected | Converters/convert_ranks_to_scores.py:52-61 | InvalidMultiplier is raised exactly when a digit prefix before ':' has value 0 |
| ParsingLemmas.WeightedLine | Converters/convert_ranks_to_scores.py:52-62 | "N:rest" with N = 0 is rejected; on success it gives exactly N identical copies of the single ballot that "rest" alone gives |
| ParsingLemmas.UnweightedLine | Converters/convert_ranks_to_scores.py:48-49 | without a prefix a successful parse gives exactly one copy |
| ParsingLemmas.IllegalCharacters | Converters/convert_ranks_to_scores.py:66-70 | an illegal-character error arises exactly when the multiplier is fine and the content is empty or holds an illegal character; the listed characters are strictly increasing and are exactly the illegal ones |
| ParsingLemmas.StrictModeTies | Converters/convert_ranks_to_scores.py:73-74 | in strict mode TiesNotAllowed arises exactly for legal content containing '='; out of strict mode it never arises; content without '=' parses the same in both modes |
| Converter.StarVoteConverter.ParseLine | Converters/convert_ranks_to_scores.py:34-123 | the method's result and the registry it leaves are those of the specification Parsing.ParseLine on the old registry; the ballots are untouched |
| Converter.StarVoteConverter.ScanRankStrings | Converters/convert_ranks_to_scores.py:78-120 | the loop over rank strings computes Parsing.ScanRanks and stores its registry |
| Converter.StarVoteConverter.ScanRank | Converters/convert_ranks_to_scores.py:84-120 | one pass of that loop either stops with the scan's error and its registry, or leaves a state from which the scan of the remaining rank strings gives the same result; the ballots list is untouched |
| Converter.StarVoteConverter.ScanTiedNames | Converters/convert_ranks_to_scores.py:93-109 | the loop over tied names computes Parsing.ScanNames and stores its registry |
| Converter.StarVoteConverter.ReadLine | Converters/convert_ranks_to_scores.py:139-150 | one turn of the parse loop: either it continues the run with the line's ballots appended, or it ends the run at this line's 1-based number with its error |
| Converter.StarVoteConverter.ParseLines | Converters/convert_ranks_to_scores.py:133-150 | from an empty state, the ballots, registry and first failure equal the specification run over all lines |
| Converter.StarVoteConverter.ProcessInput | Converters/convert_ranks_to_scores.py:125-165 | state reset, the parse loop, the two-candidate check and scoring: the ballots, registry and outcome equal Converter.Process of the text, whatever the previous state |
| Converter.ProcessOfRun | Converters/convert_ranks_to_scores.py:139-165 | the outcome is the first failing line if any, else TooFewCandidates when fewer than two ids were registered, else the score table; the run's ballots are well formed and registered |
| ConverterLemmas.FirstFailure | Converters/convert_ranks_to_scores.py:139-150 | a failure reports line n: every line before n parsed without failure, line n fails with the reported error, and the kept ballots are those of the lines before it |
| ConverterLemmas.NoFailure | Converters/convert_ranks_to_scores.py:139-150 | a run without failure parsed every line, each in the registry its predecessors built |
| ConverterLemmas.Outcomes | Converters/convert_ranks_to_scores.py:139-165 | the three outcomes hold exactly under their conditions; an error's line lies in 1..number of lines; a score table has one key per registered id, one entry per ballot and every entry in 0..5 |
| Scoring.GroupScoreClosed | Converters/convert_ranks_to_scores.py:215-233 | a group spanning k slots from the cursor scores the first slot's value under High and the last slot's under Low; the score lies in 0..5, and Low never exceeds High |
| Scoring.ScoreAt | Converters/convert_ranks_to_scores.py:212-241 | a candidate in group g scores the group score at the cursor formed by the sizes of the groups before g |
| Scoring.Unranked | Converters/convert_ranks_to_scores.py:243-246 | a candidate the ballot does not mention scores 0 |
| Scoring.UnscoredZero | Converters/convert_ranks_to_scores.py:243-246 | a candidate outside the scored set after the group loop scores 0 |
| Scoring.ScoreRange | Converters/convert_ranks_to_scores.py:222-233 | every score lies in 0..5, and the Low score never exceeds the High score |
| Scoring.ScoresNonIncreasing | Converters/convert_ranks_to_scores.py:214-241 | a candidate in an earlier group scores at least as much as one in a later group |
| Scoring.TiedEqual | Converters/convert_ranks_to_scores.py:235-238 | members of one group receive the same score |
| Scoring.ScoreTableShape | Converters/convert_ranks_to_scores.py:202-246 | the table has exactly the registered ids as keys, one score per ballot for each, each in 0..5 |
| Scoring.DemoHigh | Converters/convert_ranks_to_scores.py:288-295 | the demo "A>B>C" scores 5, 4, 3; "B>A>C" scores B 5 and A 4; "C>A=B" under High scores C 5 and A and B 4 |
| Scoring.DemoLow | Converters/convert_ranks_to_scores.py:303-306 | the demo "A=B" under Low scores both 4 |
| Scoring.DemoSix | Converters/convert_ranks_to_scores.py:309-312 | the demo "A>B>C>D>E>F" scores 5, 4, 3, 2, 1, 0, and an unranked candidate 0 |
| Converter.StarVoteConverter.CalculateScores | Converters/convert_ranks_to_scores.py:196-246 | the score lists equal Scoring.ScoreTable of the ballots and registered ids under the rule |
| Converter.StarVoteConverter.ScoreBallot | Converters/convert_ranks_to_scores.py:209-246 | one ballot appends exactly one score, its ScoreOf, to every registered id's list |
| Converter.ScoreGroup | Converters/convert_ranks_to_scores.py:236-238 | every member of the group gets the group score appended, and the scored set grows by the group |
| Converter.FillZeros | Converters/convert_ranks_to_scores.py:243-246 | afterwards every registered id's list has exactly one more entry, its score on the ballot |
| Reconstruct.ReconstructShape | Converters/convert_ranks_to_scores.py:167-176 | the rebuilt string is non-empty, stripped and legal, with no '#' or ':' |
| Reconstruct.ReconstructTies | Converters/convert_ranks_to_scores.py:172-176 | the rebuilt string contains '=' exactly when the ballot has a tie |
| Reconstruct.ReconstructScan | Converters/convert_ranks_to_scores.py:167-176 | the rank loop reads the rebuilt string back to the same groups and registers nothing new |
| Reconstruct.RoundTrip | Converters/convert_ranks_to_scores.py:167-176 | parsing the rebuilt string gives the original ballot once and leaves the registry unchanged; strict mode needs a ballot without ties |
| Reconstruct.ReconstructInjective | Converters/convert_ranks_to_scores.py:167-176 | distinct well-formed ballots rebuild to distinct strings |
| Reconstruct.WeightedRoundTrip | Converters/convert_ranks_to_scores.py:170-192 | the line "N:" followed by the rebuilt string parses to exactly N copies of the ballot |
| Compress.TallyCounts | Converters/convert_ranks_to_scores.py:188 | the Counter's keys are the distinct strings in first-occurrence order, each paired with its number of occurrences |
| Compress.TallyTotal | Converters/convert_ranks_to_scores.py:188 | the Counter's counts add up to the number of ballots |
| Compress.CompressedRoundTrip | Converters/convert_ranks_to_scores.py:178-194 | the compressed output has one line per distinct ballot, and line i parses back to as many copies of the i-th distinct ballot as it occurs |
| Weights.ExpandWeights | STAR_Voting_Arend_Adam_.py:27-33 | the loading loop builds Weights.Expand: each row's scores repeated max(count, 0) times, in row order |
| Weights.ExpandLength | STAR_Voting_Arend_Adam_.py:31-33 | the number of ballots is the sum of the row counts, counts below 1 adding none |
| Weights.ExpandMembers | STAR_Voting_Arend_Adam_.py:31-33 | a score list is a ballot exactly when some row with a positive count carries it |
| Weights.ExpandMultiplicity | STAR_Voting_Arend_Adam_.py:31-33 | every score list occurs as many times as the counts of the rows carrying it add up to |
| Election.FirstMaxIff | STAR_Voting_Arend_Adam_.py:37 | index i is the first maximum exactly when s[i] is at least every entry and above every earlier one |
| Election.FirstMinIff | STAR_Voting_Arend_Adam_.py:57 | index i is the first minimum exactly when s[i] is at most every entry and below every earlier one |
| Election.IndexOfMax | STAR_Voting_Arend_Adam_.py:37 | `s.index(max(s))` is the first maximum |
| Election.IndexOfMin | STAR_Voting_Arend_Adam_.py:57 | `s.index(min(s))` is the first minimum |
| Plurality.CountFirstChoices | STAR_Voting_Arend_Adam_.py:35-38 | the array-based counting loop produces Plurality.Tally of the ballots |
| Plurality.TallyVoters | STAR_Voting_Arend_Adam_.py:35-38 | a candidate's count is the number of ballots whose first choice it is |
| Plurality.TallySum | STAR_Voting_Arend_Adam_.py:41 | the counts sum to the number of ballots, so total_votes equals it |
| Plurality.RunPlurality | STAR_Voting_Arend_Adam_.py:35-41 | the counts are the tally, the winner is their first maximum, and total_votes is the number of ballots |
| Plurality.PluralityWinner | STAR_Voting_Arend_Adam_.py:39 | w is the winner exactly when no candidate has more first choices and every earlier candidate has fewer |
| Plurality.TallyRepeat | STAR_Voting_Arend_Adam_.py:32-38 | m more copies of one ballot add exactly m to its first choice's count and change nothing else |
| Irv.EliminateFacts | STAR_Voting_Arend_Adam_.py:58-59 | elimination zeroes the candidate's column on every copy and changes no other entry |
| Irv.ClearColumn | STAR_Voting_Arend_Adam_.py:58-59 | the loop over the copies computes Irv.Eliminate |
| Irv.EliminationRound | STAR_Voting_Arend_Adam_.py:57-63 | the loop body removes the first minimum and recounts the copies |
| Irv.IrvFrom | STAR_Voting_Arend_Adam_.py:55-65 | the rounds keep their first entry and stay sound; the result is elected on a last round holding half the votes after at most one new round per unit of fuel, or unfinished with no such round once every unit of fuel added a round |
| Irv.ReplayNext | STAR_Voting_Arend_Adam_.py:55-64 | when the last round of a replay has nobody at half the votes, clearing its first minimum on the copies that round was counted from, and recounting, gives the next round of the replay |
| Irv.ReplayedRounds | STAR_Voting_Arend_Adam_.py:53-64 | in a replay, every round is the tally of the ballots after the first-minimum eliminations of all earlier rounds, and no round but the last has anybody at half the votes |
| Irv.RunIrv | STAR_Voting_Arend_Adam_.py:47-65 | the IRV block computes Irv.RunIrvSpec of the ballots; round_counts holds round 1 plus one round per elimination, at most 1 + fuel in all; each round is the tally after clearing the first minimum of every earlier round, and only the last round may hold a majority of half the votes |
| Irv.IrvFacts | STAR_Voting_Arend_Adam_.py:47-67 | round 1 is the plurality tally, and every round sums to total_votes; an election needs a final maximum of at least half, elects its first holder and has at most 1 + fuel rounds; an unfinished run has one round per unit of fuel plus one |
| Star.AddBallot | STAR_Voting_Arend_Adam_.py:78-79 | the inner loop adds each score of the ballot to its column's count |
| Star.SumScores | STAR_Voting_Arend_Adam_.py:76-79 | the summing loop yields Star.ColumnSums of the ballots |
| Star.ColumnSumsColumn | STAR_Voting_Arend_Adam_.py:76-79 | a candidate's sum is the sum of its column, between 0 and 9 times the number of ballots |
| Star.TopTwo | STAR_Voting_Arend_Adam_.py:81-85 | highest is the first maximum, next is the first maximum once highest's entry is 0, and the counts are restored |
| Star.NextHighest | STAR_Voting_Arend_Adam_.py:81-85 | highest has the largest sum; a next distinct from highest has the largest sum of the others and beats every earlier other; next equals highest exactly when every other sum is at most 0 and every candidate before highest has a negative sum |
| Star.NextWhenOthersZero | STAR_Voting_Arend_Adam_.py:81-85 | with non-negative sums, next equals highest exactly when highest is candidate 0 and every other sum is 0; when every other sum is 0 and highest is not candidate 0, next is candidate 0 |
| Star.NextDiffers | STAR_Voting_Arend_Adam_.py:81-85 | with non-negative sums, if any other candidate has a positive sum then next differs from highest and is at least that sum |
| Star.PrefersSupporters | STAR_Voting_Arend_Adam_.py:89-93 | a runoff count is the number of ballots scoring that finalist strictly above the other |
| Star.RunoffPartition | STAR_Voting_Arend_Adam_.py:89-94 | the two runoff counts and the indifferent ballots add up to the number of ballots |
| Star.PrefersSelf | STAR_Voting_Arend_Adam_.py:89-94 | a candidate is never preferred to itself, and every ballot is indifferent between it and itself |
| Star.Runoff | STAR_Voting_Arend_Adam_.py:87-98 | the counts are the supporters of each finalist, the three counts add up to total_votes, and highest wins only with strictly more supporters |
| Star.NoPreference | STAR_Voting_Arend_Adam_.py:94 | with total_votes equal to the number of ballots, no_pref_count is the number of ballots scoring the finalists equally |
| Star.RunStar | STAR_Voting_Arend_Adam_.py:76-98 | the STAR block's sums, finalists, runoff counts and winner satisfy Star.StarOutcome |
| Tabulation.Tabulate | STAR_Voting_Arend_Adam_.py:24-98 | the candidates are header[1:], and the ballots are the expansion of the rows, as many as their counts add up to; plurality, IRV and STAR are their specifications; STAR is reached exactly when IRV elects |
| Tabulation.RunIrvThenStar | STAR_Voting_Arend_Adam_.py:47-98 | the IRV result is Irv.RunIrvSpec of the ballots; the STAR block is reached exactly when IRV elects, and its sums, finalists, runoff and winner then satisfy Star.StarOutcome |
| Tabulation.ColumnSumsRepeat | STAR_Voting_Arend_Adam_.py:32-33 | m more copies of one ballot add m times its scores to the sums |
| Tabulation.RunoffRepeat | STAR_Voting_Arend_Adam_.py:89-93 | m more copies of one ballot add m to the runoff count it supports, or to the indifferent count |
| Tabulation.SampleReport | STAR_Voting_Arend_Adam_.py:12-15 | on the sample, plurality counts 3, 0, 2 and elects A; IRV elects A in round 1; the STAR sums are 15, 16, 19, and C and B reach the runoff, which B wins 3 to 2 with no ballot indifferent |
| IrvCorrected.ActiveMembers | STAR_Voting_Arend_Adam_.py:61-63 | a ballot stays in play exactly when it scores some candidate above 0 |
| IrvCorrected.ActiveCounts | STAR_Voting_Arend_Adam_.py:60-63 | once eliminated columns are cleared, eliminated candidates receive no votes, and the counts sum to the ballots in play |
| IrvCorrected.CorrectedFrom | STAR_Voting_Arend_Adam_.py:55-65 | the corrected rounds end, and the winner is a remaining candidate |
| IrvCorrected.CorrectedFromFacts | STAR_Voting_Arend_Adam_.py:55-65 | the winner leads the final round, and eliminated candidates hold nothing; the counts sum to the ballots in play; the winner holds half of them unless it is the last one standing |
| IrvCorrected.CorrectedIrvFacts | STAR_Voting_Arend_Adam_.py:47-65 | the same for the whole corrected count; at most all ballots are in play |
| IrvFindings.IrvNeverEnds | STAR_Voting_Arend_Adam_.py:55-64 | on three ballots for three different candidates out of four, the loop as written repeats the round 1, 1, 1, 0 without end |
| IrvFindings.ExhaustedCredited | STAR_Voting_Arend_Adam_.py:57-65 | on 3 ballots for A, 4 for B and 2 for C only, the loop as written credits the two emptied ballots to A and elects A with 5 against 4 |
| IrvFindings.CorrectedExhaust | STAR_Voting_Arend_Adam_.py:57-65 | the corrected count elects B on that input, with 4 of the 7 ballots still in play |

## Left out

- `textwrap.dedent` (converter line 130) is not modelled. It only removes leading blanks, which `parse_line` strips itself. The outer `strip()` is modelled, since it shifts line numbers.
- Character classes are ASCII. `\d`, `\s`, `isspace`, `lower`, `title` and `capitalize` are modelled on ASCII letters and digits plus Python's whitespace characters. Python's wider Unicode behaviour is not modelled.
- The `int(count_str)` failure branch (converter lines 55-58) cannot be reached for ASCII digits and is not modelled.
- All printing is left out: the preview on error, the "Ranks:" echo, `print_results` (converter lines 251-277) and the script's reports (lines 40-45, 66-72, 99-107). The model returns the values those lines print.
- `print_results` itself is not modelled: its alphabetical column order and its CSV rows, including its own `Counter` over score rows. The score table it prints is modelled, as `Scoring.ScoreTable`.
- `format_percent` and the float averages of the script are not modelled. The division by zero they raise when there are no ballots is not modelled either.
- File reading (`open`, `csv.reader`) is left out. The script's input is the header and the rows as values, each row holding its `int()`-converted count and scores.
- The pairwise matrix in the script's comment (lines 17-22) is never computed by the script, so it is not modelled.
- `deepcopy` and list aliasing are modelled on values. The ballot copies are a `seq` that elimination replaces.
- The demo drivers (converter lines 281-321) are modelled only through the scores of their ballots, written directly as id groups (`Scoring.DemoHigh`, `Scoring.DemoLow`, `Scoring.DemoSix`). The demo text is not run through `Parsing.ParseLine` in the model, and `ex_mult` (lines 314-321) has no lemma of its own; its weighted lines are covered in general by `ParsingLemmas.WeightedLine`.
- Irv.IrvFrom: the while loop runs on a fuel bound. The loop as written need not end (see Findings), so `Tabulate` returns an unfinished IRV result and skips STAR when the fuel runs out.
- Election.ValidBallots: the script compares score strings. The model requires every score to be one digit 0-9 and every ballot to score the same n ≥ 1 candidates, where string order is numeric order. It does not model multi-digit string comparison ("10" < "9").
- Irv.IrvFrom: `max(counts) < total_votes / 2` is float division in Python. It is modelled exactly as `2 * max < total`.

## Findings

| source | as written | input that shows it | evidently intended | confidence | as-written member | corrected member |
|---|---|---|---|---|---|---|
| STAR_Voting_Arend_Adam_.py:55-64 | the loop eliminates `counts.index(min(counts))`, which may be a candidate already eliminated or one with no votes, and never stops when nobody can reach half | four candidates, ballots 2,0,0,0 / 0,2,0,0 / 0,0,2,0: the fourth candidate is eliminated again and again, and the counts stay 1,1,1,0 | eliminate only among remaining candidates, and stop when one remains | not executed | IrvFindings.IrvNeverEnds | IrvCorrected.CorrectedIrvFacts |
| STAR_Voting_Arend_Adam_.py:62 | a ballot whose scores are all 0 after elimination still counts for `ballot.index(max(ballot))`, which is candidate 0 | 3 ballots 2,0,0, 4 ballots 0,2,0, 2 ballots 0,0,1: C is eliminated, its two ballots go to A, and A wins 5 to 4 | exhausted ballots count for no one; B wins with 4 of the 7 ballots in play | not executed | IrvFindings.ExhaustedCredited | IrvFindings.CorrectedExhaust |
