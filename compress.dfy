/** The grouping of print_compressed_ranks: the reconstructed ballot strings
    counted as collections.Counter counts them (keys in order of first
    occurrence), each written "count:string" when the count exceeds 1. */
module Compress {
  import opened Text
  import opened Parsing
  import opened Reconstruct

  /** How often x occurs in xs. */
  function Occurrences<T(==)>(xs: seq<T>, x: T): nat {
    if xs == [] then 0 else Occurrences(xs[..|xs| - 1], x) + (if xs[|xs| - 1] == x then 1 else 0)
  }

  /** The distinct elements of xs, in order of first occurrence. */
  function Dedup<T(==,!new)>(xs: seq<T>): (d: seq<T>)
    ensures forall x :: x in d <==> x in xs
    ensures forall i, j :: 0 <= i < j < |d| ==> d[i] != d[j]
  {
    if xs == [] then []
    else
      var prefix := xs[..|xs| - 1];
      var d := Dedup(prefix);
      assert forall x :: x in xs <==> x in prefix || x == xs[|xs| - 1];
      if xs[|xs| - 1] in d then d else d + [xs[|xs| - 1]]
  }

  function Keys<T>(t: seq<(T, nat)>): (r: seq<T>)
    ensures |r| == |t|
  {
    seq(|t|, i requires 0 <= i < |t| => t[i].0)
  }

  /** counts[x] += 1 on an insertion-ordered dictionary. */
  function Bump<T(==)>(t: seq<(T, nat)>, x: T): seq<(T, nat)> {
    if t == [] then [(x, 1)]
    else if t[0].0 == x then [(x, t[0].1 + 1)] + t[1..]
    else [t[0]] + Bump(t[1..], x)
  }

  /** Counter(xs).items(). */
  function Tally<T(==)>(xs: seq<T>): seq<(T, nat)> {
    if xs == [] then [] else Bump(Tally(xs[..|xs| - 1]), xs[|xs| - 1])
  }

  lemma {:induction false} BumpNew<T>(t: seq<(T, nat)>, x: T)
    requires x !in Keys(t)
    ensures Bump(t, x) == t + [(x, 1)]
  {
    if t != [] {
      assert Keys(t)[0] == t[0].0;
      assert Keys(t[1..]) == Keys(t)[1..];
      BumpNew(t[1..], x);
      assert [t[0]] + (t[1..] + [(x, 1)]) == t + [(x, 1)];
    }
  }

  lemma {:induction false} BumpOld<T>(t: seq<(T, nat)>, x: T)
    requires x in Keys(t)
    requires forall i, j :: 0 <= i < j < |t| ==> t[i].0 != t[j].0
    ensures |Bump(t, x)| == |t|
    ensures forall i :: 0 <= i < |t| ==>
      Bump(t, x)[i] == (t[i].0, if t[i].0 == x then t[i].1 + 1 else t[i].1)
  {
    if t[0].0 != x {
      assert Keys(t[1..]) == Keys(t)[1..];
      BumpOld(t[1..], x);
    } else {
      forall i | 0 < i < |t| ensures t[i].0 != x {
        assert t[0].0 != t[i].0;
      }
    }
  }

  /** The Counter's keys are the distinct strings in order of first
      occurrence, and each count is the number of occurrences. */
  lemma {:induction false} TallyCounts<T(!new)>(xs: seq<T>)
    ensures Keys(Tally(xs)) == Dedup(xs)
    ensures forall i :: 0 <= i < |Tally(xs)| ==> Tally(xs)[i].1 == Occurrences(xs, Tally(xs)[i].0)
  {
    if xs != [] {
      var prefix := xs[..|xs| - 1];
      var x := xs[|xs| - 1];
      var t := Tally(prefix);
      TallyCounts(prefix);
      assert forall i :: 0 <= i < |t| ==> t[i].0 == Keys(t)[i];
      if x in Keys(t) {
        BumpOld(t, x);
        assert Keys(Bump(t, x)) == Keys(t);
      } else {
        BumpNew(t, x);
        assert Keys(t + [(x, 1)]) == Keys(t) + [x];
        OccurrencesAbsent(prefix, x);
        var t' := t + [(x, 1)];
        forall i | 0 <= i < |t'| ensures t'[i].1 == Occurrences(xs, t'[i].0) {
          if i < |t| {
            assert t'[i] == t[i];
          }
        }
      }
    }
  }

  lemma {:induction false} OccurrencesAbsent<T>(xs: seq<T>, x: T)
    requires x !in xs
    ensures Occurrences(xs, x) == 0
  {
    if xs != [] {
      assert forall y :: y in xs[..|xs| - 1] ==> y in xs;
      OccurrencesAbsent(xs[..|xs| - 1], x);
    }
  }

  lemma {:induction false} OccurrencesPositive<T>(xs: seq<T>, x: T)
    requires x in xs
    ensures Occurrences(xs, x) >= 1
  {
    if xs[|xs| - 1] != x {
      assert x in xs[..|xs| - 1];
      OccurrencesPositive(xs[..|xs| - 1], x);
    }
  }

  /** The counts add up to the number of strings. */
  lemma {:induction false} TallyTotal<T>(xs: seq<T>)
    ensures SumCounts(Tally(xs)) == |xs|
  {
    if xs != [] {
      var t := Tally(xs[..|xs| - 1]);
      TallyTotal(xs[..|xs| - 1]);
      BumpTotal(t, xs[|xs| - 1]);
    }
  }

  function SumCounts<T>(t: seq<(T, nat)>): nat {
    if t == [] then 0 else t[0].1 + SumCounts(t[1..])
  }

  lemma {:induction false} BumpTotal<T>(t: seq<(T, nat)>, x: T)
    ensures SumCounts(Bump(t, x)) == SumCounts(t) + 1
  {
    if t != [] && t[0].0 != x {
      BumpTotal(t[1..], x);
      assert Bump(t, x)[1..] == Bump(t[1..], x);
    } else if t != [] {
      assert Bump(t, x)[1..] == t[1..];
    }
  }

  ghost predicate AllReconstructible(ballots: seq<Ballot>, reg: Registry) {
    forall k :: 0 <= k < |ballots| ==> Reconstructible(ballots[k], reg)
  }

  predicate AllRegistered(ballots: seq<Ballot>, reg: Registry) {
    forall k :: 0 <= k < |ballots| ==> Registered(ballots[k], reg)
  }

  /** [reconstruct_ballot_string(b) for b in self.ballots]. */
  function BallotStrings(ballots: seq<Ballot>, reg: Registry): (r: seq<string>)
    requires AllRegistered(ballots, reg)
    ensures |r| == |ballots|
  {
    seq(|ballots|, k requires 0 <= k < |ballots| => ReconstructBallotString(ballots[k], reg))
  }

  function CompressedLine(entry: (string, nat)): string {
    if entry.1 > 1 then NatToDigits(entry.1) + [':'] + entry.0 else entry.0
  }

  /** The lines print_compressed_ranks prints (none for no ballots). */
  function CompressedRanks(ballots: seq<Ballot>, reg: Registry): seq<string>
    requires AllRegistered(ballots, reg)
  {
    var t := Tally(BallotStrings(ballots, reg));
    seq(|t|, i requires 0 <= i < |t| => CompressedLine(t[i]))
  }

  lemma {:induction false} StringsOccurrences(ballots: seq<Ballot>, reg: Registry, b: Ballot)
    requires AllReconstructible(ballots, reg) && Reconstructible(b, reg)
    ensures Occurrences(BallotStrings(ballots, reg), ReconstructBallotString(b, reg)) == Occurrences(ballots, b)
  {
    if ballots != [] {
      var n := |ballots|;
      assert BallotStrings(ballots, reg)[..n - 1] == BallotStrings(ballots[..n - 1], reg);
      StringsOccurrences(ballots[..n - 1], reg, b);
      if ReconstructBallotString(ballots[n - 1], reg) == ReconstructBallotString(b, reg) {
        ReconstructInjective(ballots[n - 1], b, reg);
      }
    }
  }

  lemma {:induction false} StringsDedup(ballots: seq<Ballot>, reg: Registry)
    requires AllReconstructible(ballots, reg)
    ensures AllReconstructible(Dedup(ballots), reg)
    ensures Dedup(BallotStrings(ballots, reg)) == BallotStrings(Dedup(ballots), reg)
  {
    if ballots != [] {
      var n := |ballots|;
      var prefix := ballots[..n - 1];
      var last := ballots[n - 1];
      StringsPrefix(ballots, reg);
      StringsDedup(prefix, reg);
      var d := Dedup(prefix);
      StringIn(d, last, reg);
      if last !in d {
        StringsAppend(d, last, reg);
      }
    }
  }

  lemma StringsPrefix(ballots: seq<Ballot>, reg: Registry)
    requires AllReconstructible(ballots, reg) && ballots != []
    ensures AllReconstructible(ballots[..|ballots| - 1], reg)
    ensures BallotStrings(ballots, reg)[..|ballots| - 1] == BallotStrings(ballots[..|ballots| - 1], reg)
  {
  }

  lemma StringsAppend(d: seq<Ballot>, b: Ballot, reg: Registry)
    requires AllReconstructible(d, reg) && Reconstructible(b, reg)
    ensures AllReconstructible(d + [b], reg)
    ensures BallotStrings(d + [b], reg) == BallotStrings(d, reg) + [ReconstructBallotString(b, reg)]
  {
  }

  lemma StringIn(d: seq<Ballot>, b: Ballot, reg: Registry)
    requires AllReconstructible(d, reg) && Reconstructible(b, reg)
    ensures ReconstructBallotString(b, reg) in BallotStrings(d, reg) <==> b in d
  {
    var s := ReconstructBallotString(b, reg);
    if s in BallotStrings(d, reg) {
      var k :| 0 <= k < |d| && BallotStrings(d, reg)[k] == s;
      ReconstructInjective(d[k], b, reg);
    }
    if b in d {
      var k :| 0 <= k < |d| && d[k] == b;
      assert BallotStrings(d, reg)[k] == s;
    }
  }

  /** Line i of the compressed listing parses back to as many copies of the
      i-th distinct ballot as the ballots hold, in order of first occurrence. */
  lemma CompressedRoundTrip(ballots: seq<Ballot>, reg: Registry, strict: bool)
    requires AllReconstructible(ballots, reg)
    requires forall k :: 0 <= k < |ballots| ==> '\n' !in ReconstructBallotString(ballots[k], reg)
    requires strict ==> forall k, g :: 0 <= k < |ballots| && 0 <= g < |ballots[k]| ==> |ballots[k][g]| == 1
    ensures |CompressedRanks(ballots, reg)| == |Dedup(ballots)|
    ensures forall i :: 0 <= i < |Dedup(ballots)| ==>
      ParseLine(CompressedRanks(ballots, reg)[i], strict, reg) ==
      Parsed(Copies(Repeat(Dedup(ballots)[i], Occurrences(ballots, Dedup(ballots)[i]))), reg)
  {
    var strs := BallotStrings(ballots, reg);
    var t := Tally(strs);
    TallyCounts(strs);
    StringsDedup(ballots, reg);
    var d := Dedup(ballots);
    assert Keys(t) == BallotStrings(d, reg);
    forall i | 0 <= i < |d|
      ensures ParseLine(CompressedRanks(ballots, reg)[i], strict, reg) ==
              Parsed(Copies(Repeat(d[i], Occurrences(ballots, d[i]))), reg)
    {
      CompressedLineParse(ballots, reg, strict, i);
    }
  }

  lemma CompressedLineParse(ballots: seq<Ballot>, reg: Registry, strict: bool, i: nat)
    requires AllReconstructible(ballots, reg)
    requires forall k :: 0 <= k < |ballots| ==> '\n' !in ReconstructBallotString(ballots[k], reg)
    requires strict ==> forall k, g :: 0 <= k < |ballots| && 0 <= g < |ballots[k]| ==> |ballots[k][g]| == 1
    requires i < |Dedup(ballots)|
    ensures |CompressedRanks(ballots, reg)| == |Dedup(ballots)|
    ensures ParseLine(CompressedRanks(ballots, reg)[i], strict, reg) ==
            Parsed(Copies(Repeat(Dedup(ballots)[i], Occurrences(ballots, Dedup(ballots)[i]))), reg)
  {
    var k := TallyEntry(ballots, reg, i);
    var b := ballots[k];
    assert CompressedRanks(ballots, reg)[i] == CompressedLine((ReconstructBallotString(b, reg), Occurrences(ballots, b)));
    EntryParse(b, reg, strict, Occurrences(ballots, b));
  }

  /** One compressed line parses to count copies of its ballot. */
  lemma EntryParse(b: Ballot, reg: Registry, strict: bool, m: nat)
    requires Reconstructible(b, reg) && m >= 1
    requires '\n' !in ReconstructBallotString(b, reg)
    requires strict ==> forall g :: 0 <= g < |b| ==> |b[g]| == 1
    ensures ParseLine(CompressedLine((ReconstructBallotString(b, reg), m)), strict, reg) == Parsed(Copies(Repeat(b, m)), reg)
  {
    var s := ReconstructBallotString(b, reg);
    if m > 1 {
      assert CompressedLine((s, m)) == NatToDigits(m) + [':'] + s;
      WeightedRoundTrip(b, reg, strict, m);
    } else {
      assert m == 1;
      assert CompressedLine((s, 1)) == s;
      RoundTrip(b, reg, strict);
      assert Repeat(b, 1) == [b];
    }
  }

  /** Entry i of the Counter: the i-th distinct ballot's string and count. */
  lemma TallyEntry(ballots: seq<Ballot>, reg: Registry, i: nat) returns (k: nat)
    requires AllReconstructible(ballots, reg)
    requires i < |Dedup(ballots)|
    ensures k < |ballots| && ballots[k] == Dedup(ballots)[i]
    ensures |Tally(BallotStrings(ballots, reg))| == |Dedup(ballots)|
    ensures Tally(BallotStrings(ballots, reg))[i] ==
            (ReconstructBallotString(ballots[k], reg), Occurrences(ballots, ballots[k]))
    ensures Occurrences(ballots, ballots[k]) >= 1
  {
    var strs := BallotStrings(ballots, reg);
    var t := Tally(strs);
    TallyCounts(strs);
    StringsDedup(ballots, reg);
    var d := Dedup(ballots);
    var b := d[i];
    assert b in ballots;
    k :| 0 <= k < |ballots| && ballots[k] == b;
    assert Keys(t)[i] == BallotStrings(d, reg)[i];
    StringsOccurrences(ballots, reg, b);
    OccurrencesPositive(ballots, b);
  }
}
