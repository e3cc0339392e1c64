/** Loading the CSV file of the tabulation script: a header naming the
    candidates after its first cell, then rows of a ballot count followed
    by that ballot's scores. */
module Weights {
  import opened Text

  /** One data row: its count column, read with int(), and its scores. */
  datatype Row = Row(weight: int, scores: seq<int>)

  /** range(w) runs max(w, 0) times. */
  function Copies(w: int): nat {
    if w > 0 then w else 0
  }

  /** The ballots a list of rows expands to: each row's scores, repeated. */
  function Expand(rows: seq<Row>): seq<seq<int>> {
    if rows == [] then []
    else Expand(rows[..|rows| - 1]) + Repeat(rows[|rows| - 1].scores, Copies(rows[|rows| - 1].weight))
  }

  /** The sum of the row counts, negative counts adding nothing. */
  function TotalWeight(rows: seq<Row>): nat {
    if rows == [] then 0 else TotalWeight(rows[..|rows| - 1]) + Copies(rows[|rows| - 1].weight)
  }

  /** header[1:] */
  function Candidates(header: seq<string>): seq<string> {
    if header == [] then [] else header[1..]
  }

  /** The loading loop: every data row appends int(row[0]) copies of row[1:]. */
  method ExpandWeights(rows: seq<Row>) returns (ballots: seq<seq<int>>)
    ensures ballots == Expand(rows)
  {
    ballots := [];
    var r := 0;
    while r < |rows|
      invariant 0 <= r <= |rows|
      invariant ballots == Expand(rows[..r])
    {
      var row := rows[r];
      var prefix := ballots;
      var c := 0;
      while c < row.weight
        invariant 0 <= c <= Copies(row.weight)
        invariant ballots == prefix + Repeat(row.scores, c)
      {
        ballots := ballots + [row.scores];
        c := c + 1;
      }
      assert rows[..r + 1][..r] == rows[..r];
      r := r + 1;
    }
    assert rows[..r] == rows;
  }

  /** The number of ballots is the sum of the row counts. */
  lemma {:induction false} ExpandLength(rows: seq<Row>)
    ensures |Expand(rows)| == TotalWeight(rows)
  {
    if rows != [] {
      ExpandLength(rows[..|rows| - 1]);
    }
  }

  /** A ballot comes out of the expansion exactly when some row with a
      positive count holds its scores. */
  lemma {:induction false} ExpandMembers(rows: seq<Row>, b: seq<int>)
    ensures b in Expand(rows) <==> exists r :: 0 <= r < |rows| && rows[r].weight > 0 && rows[r].scores == b
  {
    if rows != [] {
      var init := rows[..|rows| - 1];
      var last := rows[|rows| - 1];
      ExpandMembers(init, b);
      if last.weight > 0 && last.scores == b {
        assert Repeat(last.scores, Copies(last.weight))[0] == b;
      }
      assert b in Repeat(last.scores, Copies(last.weight)) <==> last.weight > 0 && last.scores == b;
      if exists r :: 0 <= r < |rows| && rows[r].weight > 0 && rows[r].scores == b {
        var r :| 0 <= r < |rows| && rows[r].weight > 0 && rows[r].scores == b;
        if r < |rows| - 1 {
          assert init[r] == rows[r];
        }
      }
      if b in Expand(init) {
        var r :| 0 <= r < |init| && init[r].weight > 0 && init[r].scores == b;
        assert rows[r] == init[r];
      }
    }
  }

  /** How many times a ballot occurs: the sum of the counts of its rows. */
  function WeightOf(rows: seq<Row>, b: seq<int>): nat {
    if rows == [] then 0
    else WeightOf(rows[..|rows| - 1], b) + (if rows[|rows| - 1].scores == b then Copies(rows[|rows| - 1].weight) else 0)
  }

  lemma {:induction false} ExpandMultiplicity(rows: seq<Row>, b: seq<int>)
    ensures multiset(Expand(rows))[b] == WeightOf(rows, b)
  {
    if rows != [] {
      var last := rows[|rows| - 1];
      ExpandMultiplicity(rows[..|rows| - 1], b);
      RepeatMultiplicity(last.scores, Copies(last.weight), b);
    }
  }

  lemma {:induction false} RepeatMultiplicity(x: seq<int>, n: nat, b: seq<int>)
    ensures multiset(Repeat(x, n))[b] == if x == b then n else 0
  {
    if n > 0 {
      assert Repeat(x, n) == Repeat(x, n - 1) + [x];
      RepeatMultiplicity(x, n - 1, b);
    } else {
      assert Repeat(x, n) == [];
    }
  }
}
