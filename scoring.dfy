/** Top-Anchored scoring of ranked ballots: slot s is worth max(5 - s, 0),
    and a tie group takes the best (High) or worst (Low) slot it spans. */
module Scoring {
  import opened Text
  import opened Parsing

  datatype Rule = High | Low

  datatype Option<T> = None | Some(value: T)

  /** str.capitalize(): the first character upper-cased, the rest lower-cased. */
  function Capitalize(s: string): string {
    if s == [] then [] else [UpperChar(s[0])] + Lower(s[1..])
  }

  /** The equal-ranks rule named by its text, or None when the constructor
      would raise ValueError. */
  function ParseRule(text: string): Option<Rule> {
    var c := Capitalize(text);
    if c == "High" then Some(High) else if c == "Low" then Some(Low) else None
  }

  lemma LowerCharOfUpper(c: char)
    ensures LowerChar(UpperChar(c)) == LowerChar(c)
  {
  }

  lemma LowerCharTwice(c: char)
    ensures LowerChar(LowerChar(c)) == LowerChar(c)
  {
  }

  lemma CapitalizeLower(s: string)
    ensures Lower(Capitalize(s)) == Lower(s)
  {
    var c := Capitalize(s);
    assert |c| == |s|;
    forall i | 0 <= i < |s| ensures Lower(c)[i] == Lower(s)[i] {
      if i == 0 {
        LowerCharOfUpper(s[0]);
      } else {
        assert c[i] == LowerChar(s[i]);
        LowerCharTwice(s[i]);
      }
    }
  }

  /** The rule text is accepted exactly when it spells high or low in any
      mix of cases. */
  lemma RuleNames(text: string)
    ensures ParseRule(text) == Some(High) <==> Lower(text) == "high"
    ensures ParseRule(text) == Some(Low) <==> Lower(text) == "low"
    ensures ParseRule(text) == None <==> Lower(text) != "high" && Lower(text) != "low"
  {
    CapitalizeLower(text);
    var c := Capitalize(text);
    if Lower(text) == "high" {
      assert |text| == 4 && Lower(text)[0] == 'h';
      assert LowerChar(text[0]) == 'h';
      assert UpperChar(text[0]) == 'H';
      assert Lower(text[1..]) == Lower(text)[1..] == "igh";
      assert c == ['H'] + "igh";
    } else if Lower(text) == "low" {
      assert |text| == 3 && Lower(text)[0] == 'l';
      assert LowerChar(text[0]) == 'l';
      assert UpperChar(text[0]) == 'L';
      assert Lower(text[1..]) == Lower(text)[1..] == "ow";
      assert c == ['L'] + "ow";
    }
  }

  /** The value of slot s: max(5 - s, 0). */
  function Base(slot: nat): int {
    if slot < 5 then 5 - slot else 0
  }

  /** The values of the k slots from cursor on. */
  function SlotScores(cursor: nat, k: nat): (r: seq<int>)
    ensures |r| == k
  {
    seq(k, i requires 0 <= i < k => Base(cursor + i))
  }

  function MaxOf(s: seq<int>): (m: int)
    requires s != []
    ensures m in s && forall i :: 0 <= i < |s| ==> s[i] <= m
  {
    if |s| == 1 then s[0]
    else
      var rest := MaxOf(s[1..]);
      assert rest in s;
      if s[0] >= rest then s[0] else rest
  }

  function MinOf(s: seq<int>): (m: int)
    requires s != []
    ensures m in s && forall i :: 0 <= i < |s| ==> m <= s[i]
  {
    if |s| == 1 then s[0]
    else
      var rest := MinOf(s[1..]);
      assert rest in s;
      if s[0] <= rest then s[0] else rest
  }

  /** The score of every member of a group of size k starting at cursor. */
  function GroupScore(cursor: nat, k: nat, rule: Rule): int
    requires k >= 1
  {
    var slots := SlotScores(cursor, k);
    if k == 1 then slots[0]
    else if rule == High then MaxOf(slots)
    else MinOf(slots)
  }

  /** Closed form: High scores the first slot of the span, Low the last. */
  lemma {:induction false} GroupScoreClosed(cursor: nat, k: nat, rule: Rule)
    requires k >= 1
    ensures GroupScore(cursor, k, High) == Base(cursor)
    ensures GroupScore(cursor, k, Low) == Base(cursor + k - 1)
    ensures 0 <= GroupScore(cursor, k, rule) <= 5
    ensures GroupScore(cursor, k, Low) <= GroupScore(cursor, k, High)
  {
    var slots := SlotScores(cursor, k);
    assert slots[0] == Base(cursor);
    assert slots[k - 1] == Base(cursor + k - 1);
    forall i | 0 <= i < k ensures Base(cursor + k - 1) <= slots[i] <= Base(cursor) {
      assert slots[i] == Base(cursor + i);
    }
  }

  /** A singleton scores its slot under either rule. */
  lemma SingletonScore(cursor: nat, rule: Rule)
    ensures GroupScore(cursor, 1, rule) == Base(cursor)
  {
  }

  /** The slot at which group g starts: the sizes of the groups before it. */
  function Cursor(b: Ballot, g: nat): nat
    requires g <= |b|
  {
    if g == 0 then 0 else Cursor(b, g - 1) + |b[g - 1]|
  }

  /** What the scoring loop gives id, from group g on, with the cursor at c. */
  function ScoreFrom(b: Ballot, g: nat, c: nat, id: string, rule: Rule): int
    requires g <= |b|
    requires NonEmptyGroups(b)
    decreases |b| - g
  {
    if g == |b| then 0
    else if id in b[g] then GroupScore(c, |b[g]|, rule)
    else ScoreFrom(b, g + 1, c + |b[g]|, id, rule)
  }

  /** The score one ballot gives one candidate (0 when unranked). */
  function ScoreOf(b: Ballot, id: string, rule: Rule): int
    requires NonEmptyGroups(b)
  {
    ScoreFrom(b, 0, 0, id, rule)
  }

  predicate InBallot(b: Ballot, id: string) {
    exists g :: 0 <= g < |b| && id in b[g]
  }

  lemma {:induction false} ScoreFromSkip(b: Ballot, g: nat, id: string, rule: Rule)
    requires g <= |b| && NonEmptyGroups(b)
    requires forall j :: 0 <= j < g ==> id !in b[j]
    ensures ScoreOf(b, id, rule) == ScoreFrom(b, g, Cursor(b, g), id, rule)
  {
    if g > 0 {
      ScoreFromSkip(b, g - 1, id, rule);
    }
  }

  /** An id ranked in group g scores that group's value; an unranked id scores 0. */
  lemma ScoreAt(b: Ballot, g: nat, id: string, rule: Rule)
    requires NonEmptyGroups(b) && Distinct(b)
    requires g < |b| && id in b[g]
    ensures ScoreOf(b, id, rule) == GroupScore(Cursor(b, g), |b[g]|, rule)
  {
    forall j | 0 <= j < |b| && id in b[j] ensures j == g {
      OneGroup(b, j, g, id);
    }
    ScoreFromSkip(b, g, id, rule);
  }

  /** In a ballot without repeats an id lies in one group only. */
  lemma OneGroup(b: Ballot, g1: nat, g2: nat, id: string)
    requires Distinct(b)
    requires g1 < |b| && g2 < |b| && id in b[g1] && id in b[g2]
    ensures g1 == g2
  {
    var i1 :| 0 <= i1 < |b[g1]| && b[g1][i1] == id;
    var i2 :| 0 <= i2 < |b[g2]| && b[g2][i2] == id;
    assert b[g1][i1] == b[g2][i2];
  }

  lemma {:induction false} ScoreFromUnranked(b: Ballot, g: nat, c: nat, id: string, rule: Rule)
    requires g <= |b| && NonEmptyGroups(b)
    requires forall j :: g <= j < |b| ==> id !in b[j]
    ensures ScoreFrom(b, g, c, id, rule) == 0
    decreases |b| - g
  {
    if g < |b| {
      ScoreFromUnranked(b, g + 1, c + |b[g]|, id, rule);
    }
  }

  lemma Unranked(b: Ballot, id: string, rule: Rule)
    requires NonEmptyGroups(b) && !InBallot(b, id)
    ensures ScoreOf(b, id, rule) == 0
  {
    ScoreFromUnranked(b, 0, 0, id, rule);
  }

  lemma {:induction false} ScoreFromRange(b: Ballot, g: nat, c: nat, id: string, rule: Rule)
    requires g <= |b| && NonEmptyGroups(b)
    ensures 0 <= ScoreFrom(b, g, c, id, rule) <= 5
    decreases |b| - g
  {
    if g < |b| {
      if id in b[g] {
        GroupScoreClosed(c, |b[g]|, rule);
      } else {
        ScoreFromRange(b, g + 1, c + |b[g]|, id, rule);
      }
    }
  }

  /** Every score lies in [0, 5], and High never scores below Low. */
  lemma ScoreRange(b: Ballot, id: string, rule: Rule)
    requires NonEmptyGroups(b)
    ensures 0 <= ScoreOf(b, id, rule) <= 5
    ensures ScoreOf(b, id, Low) <= ScoreOf(b, id, High)
  {
    ScoreFromRange(b, 0, 0, id, rule);
    ScoreLowHigh(b, 0, 0, id);
  }

  lemma {:induction false} ScoreLowHigh(b: Ballot, g: nat, c: nat, id: string)
    requires g <= |b| && NonEmptyGroups(b)
    ensures ScoreFrom(b, g, c, id, Low) <= ScoreFrom(b, g, c, id, High)
    decreases |b| - g
  {
    if g < |b| {
      if id in b[g] {
        GroupScoreClosed(c, |b[g]|, Low);
      } else {
        ScoreLowHigh(b, g + 1, c + |b[g]|, id);
      }
    }
  }

  lemma {:induction false} CursorGrows(b: Ballot, g1: nat, g2: nat)
    requires g1 < g2 <= |b| && NonEmptyGroups(b)
    ensures Cursor(b, g2) >= Cursor(b, g1) + |b[g1]|
    decreases g2 - g1
  {
    if g2 > g1 + 1 {
      CursorGrows(b, g1, g2 - 1);
    }
  }

  /** Within a ballot an earlier group never scores below a later one. */
  lemma ScoresNonIncreasing(b: Ballot, g1: nat, g2: nat, id1: string, id2: string, rule: Rule)
    requires NonEmptyGroups(b) && Distinct(b)
    requires g1 < g2 < |b| && id1 in b[g1] && id2 in b[g2]
    ensures ScoreOf(b, id1, rule) >= ScoreOf(b, id2, rule)
  {
    ScoreAt(b, g1, id1, rule);
    ScoreAt(b, g2, id2, rule);
    CursorGrows(b, g1, g2);
    GroupScoreClosed(Cursor(b, g1), |b[g1]|, rule);
    GroupScoreClosed(Cursor(b, g2), |b[g2]|, rule);
  }

  /** Members of one group share one score. */
  lemma TiedEqual(b: Ballot, g: nat, id1: string, id2: string, rule: Rule)
    requires NonEmptyGroups(b) && Distinct(b)
    requires g < |b| && id1 in b[g] && id2 in b[g]
    ensures ScoreOf(b, id1, rule) == ScoreOf(b, id2, rule)
  {
    ScoreAt(b, g, id1, rule);
    ScoreAt(b, g, id2, rule);
  }

  /** The ids of the groups before g. */
  function IdsBefore(b: Ballot, g: nat): set<string>
    requires g <= |b|
  {
    set gg, i | 0 <= gg < g && 0 <= i < |b[gg]| :: b[gg][i]
  }

  /** The first m ids of a group. */
  function Members(group: seq<string>, m: nat): set<string>
    requires m <= |group|
  {
    set i | 0 <= i < m :: group[i]
  }

  /** The first m members of group g are new to the ids scored before them. */
  lemma FreshMember(b: Ballot, g: nat, m: nat)
    requires Distinct(b) && g < |b| && m < |b[g]|
    ensures b[g][m] !in IdsBefore(b, g) + Members(b[g], m)
  {
    forall gg, i | 0 <= gg < g && 0 <= i < |b[gg]| ensures b[gg][i] != b[g][m] {
    }
    forall i | 0 <= i < m ensures b[g][i] != b[g][m] {
    }
  }

  lemma IdsBeforeNext(b: Ballot, g: nat)
    requires g < |b|
    ensures IdsBefore(b, g + 1) == IdsBefore(b, g) + Members(b[g], |b[g]|)
  {
    forall x | x in IdsBefore(b, g + 1) ensures x in IdsBefore(b, g) + Members(b[g], |b[g]|) {
      var gg, i :| 0 <= gg < g + 1 && 0 <= i < |b[gg]| && b[gg][i] == x;
      if gg < g {
        assert x in IdsBefore(b, g);
      }
    }
  }

  /** An id outside every group of the ballot scores 0. */
  lemma UnscoredZero(b: Ballot, id: string, rule: Rule)
    requires NonEmptyGroups(b) && id !in IdsBefore(b, |b|)
    ensures ScoreOf(b, id, rule) == 0
  {
    forall g | 0 <= g < |b| ensures id !in b[g] {
      forall i | 0 <= i < |b[g]| ensures b[g][i] != id {
        assert b[g][i] in IdsBefore(b, |b|);
      }
    }
    Unranked(b, id, rule);
  }

  predicate AllNonEmpty(ballots: seq<Ballot>) {
    forall k :: 0 <= k < |ballots| ==> forall g :: 0 <= g < |ballots[k]| ==> ballots[k][g] != []
  }

  /** The score list of one candidate over the first n ballots. */
  function Column(ballots: seq<Ballot>, n: nat, id: string, rule: Rule): (r: seq<int>)
    requires n <= |ballots| && AllNonEmpty(ballots)
    ensures |r| == n
  {
    seq(n, k requires 0 <= k < n => ScoreOf(ballots[k], id, rule))
  }

  lemma ColumnStep(ballots: seq<Ballot>, k: nat, id: string, rule: Rule)
    requires k < |ballots| && AllNonEmpty(ballots)
    ensures Column(ballots, k, id, rule) + [ScoreOf(ballots[k], id, rule)] == Column(ballots, k + 1, id, rule)
  {
  }

  /** candidate_scores after calculate_scores: one list per registered
      candidate, one entry per ballot. */
  function ScoreTable(ballots: seq<Ballot>, ids: set<string>, rule: Rule): map<string, seq<int>>
    requires AllNonEmpty(ballots)
  {
    map id | id in ids :: Column(ballots, |ballots|, id, rule)
  }

  /** Every registered candidate gets exactly one score in [0, 5] per ballot. */
  lemma ScoreTableShape(ballots: seq<Ballot>, ids: set<string>, rule: Rule)
    requires AllNonEmpty(ballots)
    ensures ScoreTable(ballots, ids, rule).Keys == ids
    ensures forall id :: id in ids ==> |ScoreTable(ballots, ids, rule)[id]| == |ballots|
    ensures forall id, k :: id in ids && 0 <= k < |ballots| ==> 0 <= ScoreTable(ballots, ids, rule)[id][k] <= 5
  {
    forall id, k | id in ids && 0 <= k < |ballots|
      ensures 0 <= ScoreTable(ballots, ids, rule)[id][k] <= 5
    {
      ScoreRange(ballots[k], id, rule);
    }
  }

  /** The demo ballots: "A>B>C" scores 5, 4, 3; "B>A>C" scores A 4, B 5,
      C 3; "C>A=B" under High scores C 5 and A and B 4 each. */
  lemma DemoHigh()
    ensures ScoreOf([["a"], ["b"], ["c"]], "a", High) == 5
    ensures ScoreOf([["a"], ["b"], ["c"]], "b", High) == 4
    ensures ScoreOf([["a"], ["b"], ["c"]], "c", High) == 3
    ensures ScoreOf([["b"], ["a"], ["c"]], "a", High) == 4
    ensures ScoreOf([["b"], ["a"], ["c"]], "b", High) == 5
    ensures ScoreOf([["c"], ["a", "b"]], "c", High) == 5
    ensures ScoreOf([["c"], ["a", "b"]], "a", High) == 4
    ensures ScoreOf([["c"], ["a", "b"]], "b", High) == 4
  {
    GroupScoreClosed(1, 2, High);
  }

  /** "A=B" under Low: the tie spans slots 0 and 1 and both score 4. */
  lemma DemoLow()
    ensures ScoreOf([["a", "b"]], "a", Low) == 4 && ScoreOf([["a", "b"]], "b", Low) == 4
  {
    GroupScoreClosed(0, 2, Low);
  }

  /** "A>B>C>D>E>F": 5, 4, 3, 2, 1 and 0; an id the ballot leaves out scores 0. */
  lemma DemoSix(b: Ballot)
    requires b == [["a"], ["b"], ["c"], ["d"], ["e"], ["f"]]
    ensures ScoreOf(b, "a", High) == 5 && ScoreOf(b, "b", High) == 4 && ScoreOf(b, "c", High) == 3
    ensures ScoreOf(b, "d", High) == 2 && ScoreOf(b, "e", High) == 1 && ScoreOf(b, "f", High) == 0
    ensures ScoreOf(b, "g", High) == 0
  {
    assert "g" !in b[0] && "g" !in b[1] && "g" !in b[2] && "g" !in b[3] && "g" !in b[4] && "g" !in b[5];
    Unranked(b, "g", High);
    SingletonScore(0, High);
    SingletonScore(1, High);
    SingletonScore(2, High);
    assert Cursor(b, 1) == 1 && Cursor(b, 2) == 2 && Cursor(b, 3) == 3 && Cursor(b, 4) == 4 && Cursor(b, 5) == 5;
    ScoreFromSkip(b, 1, "b", High);
    ScoreFromSkip(b, 2, "c", High);
    ScoreFromSkip(b, 3, "d", High);
    SingletonScore(3, High);
    ScoreFromSkip(b, 4, "e", High);
    SingletonScore(4, High);
    ScoreFromSkip(b, 5, "f", High);
    SingletonScore(5, High);
  }
}
