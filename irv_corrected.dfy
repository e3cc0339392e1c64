/** Instant runoff as the script evidently intends it: a ballot that scores
    every remaining candidate 0 is exhausted and counts for no one, only a
    remaining candidate can be eliminated, and a round elects once some
    candidate holds half of the ballots still in play (or only one
    candidate is left). Every round removes a candidate, so it ends. */
module IrvCorrected {
  import opened Text
  import opened Election
  import opened Plurality
  import opened Irv

  /** The ballots still in play: those scoring some candidate above 0. */
  function Active(copies: seq<seq<int>>, n: nat): (r: seq<seq<int>>)
    requires ValidBallots(copies, n)
    ensures ValidBallots(r, n) && |r| <= |copies|
    ensures forall k :: 0 <= k < |r| ==> Max(r[k]) > 0
  {
    if copies == [] then []
    else
      var last := copies[|copies| - 1];
      ElectionPrefix(copies, n, |copies| - 1);
      var init := Active(copies[..|copies| - 1], n);
      if Max(last) > 0 then init + [last] else init
  }

  /** A ballot falls out of play exactly when all its scores are 0. */
  lemma {:induction false} ActiveMembers(copies: seq<seq<int>>, n: nat, b: seq<int>)
    requires ValidBallots(copies, n)
    ensures b in Active(copies, n) <==> b in copies && exists i :: 0 <= i < |b| && b[i] > 0
  {
    if copies != [] {
      var last := copies[|copies| - 1];
      ElectionPrefix(copies, n, |copies| - 1);
      ActiveMembers(copies[..|copies| - 1], n, b);
      InFrontOrLast(copies, b);
      PositiveMax(last);
    }
  }

  /** A ballot's highest score is positive exactly when some score is. */
  lemma PositiveMax(b: seq<int>)
    requires |b| > 0
    ensures Max(b) > 0 <==> exists i :: 0 <= i < |b| && b[i] > 0
  {
    if exists i :: 0 <= i < |b| && b[i] > 0 {
      var i :| 0 <= i < |b| && b[i] > 0;
      assert Max(b) >= b[i];
    }
  }

  /** The positions in alive keep their counts; the others read fill. */
  function Masked(counts: seq<int>, alive: set<nat>, fill: int): (r: seq<int>)
    ensures |r| == |counts|
  {
    seq(|counts|, i requires 0 <= i < |counts| => if i in alive then counts[i] else fill)
  }

  predicate Among(alive: set<nat>, n: nat) {
    alive != {} && forall i :: i in alive ==> i < n
  }

  /** The columns of eliminated candidates are 0 on every copy. */
  predicate Cleared(copies: seq<seq<int>>, n: nat, alive: set<nat>)
    requires ValidBallots(copies, n)
  {
    forall k, i :: 0 <= k < |copies| && 0 <= i < n && i !in alive ==> copies[k][i] == 0
  }

  lemma MaskedMaxAlive(counts: seq<int>, alive: set<nat>)
    requires Among(alive, |counts|) && forall i :: 0 <= i < |counts| ==> counts[i] >= 0
    ensures FirstMax(Masked(counts, alive, -1)) in alive
  {
    var m := Masked(counts, alive, -1);
    var a :| a in alive;
    assert m[a] >= 0;
    FirstMaxIff(m, FirstMax(m));
  }

  lemma MaskedMinAlive(counts: seq<int>, alive: set<nat>, bound: int)
    requires Among(alive, |counts|) && forall i :: 0 <= i < |counts| ==> counts[i] < bound
    ensures FirstMin(Masked(counts, alive, bound)) in alive
  {
    var m := Masked(counts, alive, bound);
    var a :| a in alive;
    assert m[a] < bound;
    FirstMinIff(m, FirstMin(m));
  }

  /** No count exceeds the number of ballots counted. */
  lemma TallyBound(ballots: seq<seq<int>>, n: nat)
    requires ValidBallots(ballots, n)
    ensures forall c :: 0 <= c < n ==> 0 <= Tally(ballots, n)[c] <= |ballots|
  {
    TallyNonNegative(ballots, n);
    TallySum(ballots, n);
    forall c | 0 <= c < n ensures Tally(ballots, n)[c] <= |ballots| {
      EntryAtMostSum(Tally(ballots, n), c);
    }
  }

  lemma {:induction false} EntryAtMostSum(s: seq<int>, c: nat)
    requires c < |s| && forall i :: 0 <= i < |s| ==> s[i] >= 0
    ensures s[c] <= Sum(s)
  {
    var init := s[..|s| - 1];
    if init != [] {
      SumNonNegative(init);
      if c < |init| {
        EntryAtMostSum(init, c);
      }
    }
  }

  lemma {:induction false} SumNonNegative(s: seq<int>)
    requires forall i :: 0 <= i < |s| ==> s[i] >= 0
    ensures Sum(s) >= 0
  {
    if s != [] {
      SumNonNegative(s[..|s| - 1]);
    }
  }

  lemma RemoveOne(alive: set<nat>, bot: nat)
    requires bot in alive && |alive| > 1
    ensures alive - {bot} != {} && |alive - {bot}| < |alive|
  {
    assert |alive - {bot}| == |alive| - 1;
  }

  /** The last round: the winner, its counts, the number of ballots in play
      and the candidates still remaining. */
  datatype Final = Final(winner: nat, counts: seq<int>, inPlay: nat, remaining: set<nat>)

  /** The counting rounds from the current copies on; the winner is always a
      remaining candidate. */
  function CorrectedFrom(copies: seq<seq<int>>, n: nat, alive: set<nat>): (r: Final)
    requires ValidBallots(copies, n) && Among(alive, n)
    ensures r.winner in r.remaining && r.remaining <= alive && |r.counts| == n
    decreases |alive|
  {
    var active := Active(copies, n);
    var counts := Tally(active, n);
    TallyBound(active, n);
    if 2 * Max(counts) >= |active| || |alive| == 1 then
      MaskedMaxAlive(counts, alive);
      Final(FirstMax(Masked(counts, alive, -1)), counts, |active|, alive)
    else
      var bot := FirstMin(Masked(counts, alive, |active| + 1));
      MaskedMinAlive(counts, alive, |active| + 1);
      RemoveOne(alive, bot);
      CorrectedFrom(Eliminate(copies, n, bot), n, alive - {bot})
  }

  /** A round in which someone holds half of the ballots in play, or only
      one candidate remains, ends the count with the leader among the
      remaining candidates. */
  lemma CorrectedStop(copies: seq<seq<int>>, n: nat, alive: set<nat>, inPlay: nat, counts: seq<int>)
    requires ValidBallots(copies, n) && Among(alive, n)
    requires inPlay == |Active(copies, n)| && counts == Tally(Active(copies, n), n)
    requires 2 * Max(counts) >= inPlay || |alive| == 1
    ensures CorrectedFrom(copies, n, alive) == Final(FirstMax(Masked(counts, alive, -1)), counts, inPlay, alive)
  {
  }

  /** A round in which nobody holds half of the ballots in play, with more
      than one candidate left, eliminates the last of the remaining ones. */
  lemma CorrectedContinue(copies: seq<seq<int>>, n: nat, alive: set<nat>, inPlay: nat, counts: seq<int>, bot: nat)
    requires ValidBallots(copies, n) && Among(alive, n)
    requires inPlay == |Active(copies, n)| && counts == Tally(Active(copies, n), n)
    requires 2 * Max(counts) < inPlay && |alive| > 1
    requires bot == FirstMin(Masked(counts, alive, inPlay + 1))
    ensures bot in alive && Among(alive - {bot}, n)
    ensures CorrectedFrom(copies, n, alive) == CorrectedFrom(Eliminate(copies, n, bot), n, alive - {bot})
  {
    TallyBound(Active(copies, n), n);
    MaskedMinAlive(counts, alive, inPlay + 1);
    RemoveOne(alive, bot);
  }

  /** The winner of the last round leads it: no candidate has more votes,
      eliminated candidates have none, the votes are exactly the ballots in
      play, and the winner holds half of them unless it is the last
      candidate standing. */
  lemma {:induction false} CorrectedFromFacts(copies: seq<seq<int>>, n: nat, alive: set<nat>)
    requires ValidBallots(copies, n) && Among(alive, n) && Cleared(copies, n, alive)
    ensures var r := CorrectedFrom(copies, n, alive);
      && |r.counts| == n
      && (forall c :: 0 <= c < n ==> r.counts[c] <= r.counts[r.winner])
      && (forall c :: 0 <= c < n && c !in r.remaining ==> r.counts[c] == 0)
      && Sum(r.counts) == r.inPlay
      && (2 * r.counts[r.winner] >= r.inPlay || |r.remaining| == 1)
    decreases |alive|
  {
    var active := Active(copies, n);
    var counts := Tally(active, n);
    TallyBound(active, n);
    if 2 * Max(counts) >= |active| || |alive| == 1 {
      CorrectedLastRound(copies, n, alive);
    } else {
      var bot := FirstMin(Masked(counts, alive, |active| + 1));
      MaskedMinAlive(counts, alive, |active| + 1);
      RemoveOne(alive, bot);
      EliminateCleared(copies, n, alive, bot);
      CorrectedFromFacts(Eliminate(copies, n, bot), n, alive - {bot});
    }
  }

  /** The round that ends the count: the leader among the remaining
      candidates has the most votes overall and half of those in play, or
      is the last one left. */
  lemma CorrectedLastRound(copies: seq<seq<int>>, n: nat, alive: set<nat>)
    requires ValidBallots(copies, n) && Among(alive, n) && Cleared(copies, n, alive)
    requires var active := Active(copies, n); 2 * Max(Tally(active, n)) >= |active| || |alive| == 1
    ensures var r := CorrectedFrom(copies, n, alive);
      && (forall c :: 0 <= c < n ==> r.counts[c] <= r.counts[r.winner])
      && (forall c :: 0 <= c < n && c !in r.remaining ==> r.counts[c] == 0)
      && Sum(r.counts) == r.inPlay
      && (2 * r.counts[r.winner] >= r.inPlay || |r.remaining| == 1)
  {
    var active := Active(copies, n);
    var counts := Tally(active, n);
    TallyBound(active, n);
    ActiveCounts(copies, n, alive);
    CorrectedStop(copies, n, alive, |active|, counts);
    LeaderFacts(counts, alive, n);
  }

  /** When every eliminated candidate has no votes, the first remaining
      candidate with the most votes has the most votes overall. */
  lemma LeaderFacts(counts: seq<int>, alive: set<nat>, n: nat)
    requires |counts| == n && Among(alive, n)
    requires forall c :: 0 <= c < n ==> counts[c] >= 0
    requires forall c :: 0 <= c < n && c !in alive ==> counts[c] == 0
    ensures var w := FirstMax(Masked(counts, alive, -1));
      w < n && counts[w] == Max(counts) && forall c :: 0 <= c < n ==> counts[c] <= counts[w]
  {
    var masked := Masked(counts, alive, -1);
    var w := FirstMax(masked);
    MaskedMaxAlive(counts, alive);
    FirstMaxIff(masked, w);
    forall c | 0 <= c < n ensures counts[c] <= counts[w] {
      assert masked[c] <= masked[w];
    }
  }

  lemma {:induction false} InPlayBound(copies: seq<seq<int>>, n: nat, alive: set<nat>)
    requires ValidBallots(copies, n) && Among(alive, n)
    ensures CorrectedFrom(copies, n, alive).inPlay <= |copies|
    decreases |alive|
  {
    var active := Active(copies, n);
    var counts := Tally(active, n);
    TallyBound(active, n);
    if !(2 * Max(counts) >= |active| || |alive| == 1) {
      var bot := FirstMin(Masked(counts, alive, |active| + 1));
      MaskedMinAlive(counts, alive, |active| + 1);
      RemoveOne(alive, bot);
      InPlayBound(Eliminate(copies, n, bot), n, alive - {bot});
    }
  }

  function AllCandidates(n: nat): (r: set<nat>)
    ensures forall i: nat :: i in r <==> i < n
  {
    if n == 0 then {} else AllCandidates(n - 1) + {n - 1}
  }

  /** The corrected instant runoff over the ballots; it needs no fuel. */
  function CorrectedIrv(ballots: seq<seq<int>>, n: nat): (r: Final)
    requires ValidBallots(ballots, n)
    ensures r.winner < n && |r.counts| == n
  {
    assert 0 in AllCandidates(n);
    CorrectedFrom(ballots, n, AllCandidates(n))
  }

  /** The corrected winner has the most votes among the ballots still in
      play in its round, and half of them unless every other candidate is
      gone; eliminated candidates received nothing. */
  lemma CorrectedIrvFacts(ballots: seq<seq<int>>, n: nat)
    requires ValidBallots(ballots, n)
    ensures var r := CorrectedIrv(ballots, n);
      && (forall c :: 0 <= c < n ==> r.counts[c] <= r.counts[r.winner])
      && (forall c :: 0 <= c < n && c !in r.remaining ==> r.counts[c] == 0)
      && Sum(r.counts) == r.inPlay <= |ballots|
      && (2 * r.counts[r.winner] >= r.inPlay || |r.remaining| == 1)
  {
    var all := AllCandidates(n);
    assert 0 in all;
    assert Cleared(ballots, n, all);
    CorrectedFromFacts(ballots, n, all);
    InPlayBound(ballots, n, all);
    assert CorrectedIrv(ballots, n) == CorrectedFrom(ballots, n, all);
  }

  /** Once the eliminated columns are cleared, no ballot in play names an
      eliminated candidate first, so eliminated candidates get no votes and
      the counts sum to the number of ballots in play. */
  lemma ActiveCounts(copies: seq<seq<int>>, n: nat, alive: set<nat>)
    requires ValidBallots(copies, n) && Cleared(copies, n, alive)
    ensures var active := Active(copies, n);
      && (forall c :: 0 <= c < n && c !in alive ==> Tally(active, n)[c] == 0)
      && Sum(Tally(active, n)) == |active|
  {
    var active := Active(copies, n);
    TallySum(active, n);
    forall c | 0 <= c < n && c !in alive ensures Tally(active, n)[c] == 0 {
      TallyVoters(active, n, c);
      forall k | 0 <= k < |active| ensures TopChoice(active[k]) != c {
        ActiveMembers(copies, n, active[k]);
        var j :| 0 <= j < |copies| && copies[j] == active[k];
        var t := TopChoice(active[k]);
        IndexOfMax(active[k]);
        assert active[k][t] == Max(active[k]) > 0;
        assert active[k][c] == 0;
      }
      assert Voters(active, c) == {};
    }
  }

  /** Eliminating a remaining candidate keeps the eliminated columns cleared. */
  lemma EliminateCleared(copies: seq<seq<int>>, n: nat, alive: set<nat>, bot: nat)
    requires ValidBallots(copies, n) && Cleared(copies, n, alive) && bot < n
    ensures Cleared(Eliminate(copies, n, bot), n, alive - {bot})
  {
  }
}
