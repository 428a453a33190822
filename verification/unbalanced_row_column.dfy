/**
 The Binary contradiction rule "Unbalanced Row/Column": every full row and
 column of a solved board holds as many zeros as ones, so a line that already
 holds more than half its length of either value can never be completed.
 */
module UnbalancedRowColumn {
  import opened Options
  import opened BinaryBoard

  /** The rule's own explanation when it finds nothing at a cell. */
  const NoContradictionMessage: string := "Does not contain a contradiction at this index"

  /** A line holds more zeros, or more ones, than half its length rounded
      down. Empty cells count toward the length only. */
  predicate OverFull(line: seq<Cell>) {
    Count(line, Zero) > |line| / 2 || Count(line, One) > |line| / 2
  }

  /**
   The rule at cell `(x, y)`: no message (a contradiction) when the cell's
   row, or failing that its column, is over-full; otherwise the rule's base
   message followed by its own explanation. The base message comes from the
   contradiction-rule superclass and is a parameter here.
   */
  function CheckContradictionAt(b: Board, x: int, y: int, baseMessage: string): (r: Option<string>)
    requires Rectangular(b) && OnBoard(b, x, y)
    ensures r.None? <==> OverFull(Row(b, y)) || OverFull(Column(b, x))
    ensures r.Some? ==> r.value == baseMessage + ": " + NoContradictionMessage
  {
    if OverFull(Row(b, y)) then None
    else if OverFull(Column(b, x)) then None
    else Some(baseMessage + ": " + NoContradictionMessage)
  }

  /** `c` fills every empty cell of `line` and keeps its filled ones. */
  predicate Completes(c: seq<Cell>, line: seq<Cell>) {
    && |c| == |line|
    && forall i :: 0 <= i < |line| ==> c[i] != Unknown && (line[i] != Unknown ==> c[i] == line[i])
  }

  /** A line with as many zeros as ones. */
  predicate Balanced(c: seq<Cell>) {
    Count(c, Zero) == Count(c, One)
  }

  /** Some completion of `line` is balanced. */
  ghost predicate Completable(line: seq<Cell>) {
    exists c :: Completes(c, line) && Balanced(c)
  }

  /** Filling a line keeps every zero and one it had and leaves no cell empty. */
  lemma {:induction false} CompletionCounts(c: seq<Cell>, line: seq<Cell>)
    requires Completes(c, line)
    ensures Count(c, Zero) >= Count(line, Zero) && Count(c, One) >= Count(line, One)
    ensures Count(c, Unknown) == 0
  {
    if |line| > 0 {
      assert Completes(c[1..], line[1..]) by {
        forall i | 0 <= i < |line[1..]|
          ensures c[1..][i] != Unknown && (line[1..][i] != Unknown ==> c[1..][i] == line[1..][i])
        {
          assert c[1..][i] == c[i + 1] && line[1..][i] == line[i + 1];
        }
      }
      CompletionCounts(c[1..], line[1..]);
    }
  }

  /** An over-full line has no balanced completion, so the rule's
      contradiction is genuine. */
  lemma OverFullNotCompletable(line: seq<Cell>)
    requires OverFull(line)
    ensures !Completable(line)
  {
    forall c | Completes(c, line) ensures !Balanced(c) {
      CompletionCounts(c, line);
      CountsPartition(c);
    }
  }

  /** Fills the first `k` empty cells of `line` with zeros and the rest with ones. */
  function Fill(line: seq<Cell>, k: nat): (c: seq<Cell>)
    ensures Completes(c, line)
  {
    if |line| == 0 then []
    else if line[0] != Unknown then [line[0]] + Fill(line[1..], k)
    else if k > 0 then [Zero] + Fill(line[1..], k - 1)
    else [One] + Fill(line[1..], 0)
  }

  /** `Fill` adds exactly `k` zeros, and ones for the remaining empty cells. */
  lemma {:induction false} FillCounts(line: seq<Cell>, k: nat)
    requires k <= Count(line, Unknown)
    ensures Count(Fill(line, k), Zero) == Count(line, Zero) + k
    ensures Count(Fill(line, k), One) == Count(line, One) + Count(line, Unknown) - k
  {
    if |line| > 0 {
      if line[0] != Unknown {
        FillCounts(line[1..], k);
      } else if k > 0 {
        FillCounts(line[1..], k - 1);
      } else {
        FillCounts(line[1..], 0);
      }
    }
  }

  /** A line of even length that is not over-full has a balanced completion. */
  lemma NotOverFullCompletable(line: seq<Cell>)
    requires |line| % 2 == 0 && !OverFull(line)
    ensures Completable(line)
  {
    CountsPartition(line);
    var k := |line| / 2 - Count(line, Zero);
    FillCounts(line, k);
    assert Completes(Fill(line, k), line) && Balanced(Fill(line, k));
  }

  /**
   On a board of even width and height, which Binary puzzles are, the rule
   reports a contradiction at a cell exactly when the cell's row or column can
   no longer be completed into a balanced line.
   */
  lemma ContradictionExact(b: Board, x: int, y: int, baseMessage: string)
    requires Rectangular(b) && OnBoard(b, x, y) && |b| % 2 == 0 && |b[y]| % 2 == 0
    ensures CheckContradictionAt(b, x, y, baseMessage).None? <==>
      !Completable(Row(b, y)) || !Completable(Column(b, x))
  {
    if OverFull(Row(b, y)) {
      OverFullNotCompletable(Row(b, y));
    } else if OverFull(Column(b, x)) {
      OverFullNotCompletable(Column(b, x));
    } else {
      NotOverFullCompletable(Row(b, y));
      NotOverFullCompletable(Column(b, x));
    }
  }

  /** A line with no empty cell holds no more than half of each value exactly
      when it holds as many zeros as ones and has even length. */
  lemma FullLineBalance(line: seq<Cell>)
    requires forall i :: 0 <= i < |line| ==> line[i] != Unknown
    ensures !OverFull(line) <==> |line| % 2 == 0 && Balanced(line)
  {
    CountsPartition(line);
    assert Count(line, Unknown) == 0 by {
      CompletionCounts(line, line);
    }
  }

  /** A line of empty cells holds no value at all. */
  lemma {:induction false} EmptyLineCounts(line: seq<Cell>)
    requires forall i :: 0 <= i < |line| ==> line[i] == Unknown
    ensures Count(line, Zero) == 0 && Count(line, One) == 0
  {
    if |line| > 0 {
      assert forall i :: 0 <= i < |line[1..]| ==> line[1..][i] == line[i + 1];
      EmptyLineCounts(line[1..]);
    }
  }

  /** A line of empty cells is never over-full. */
  lemma EmptyLineNotOverFull(line: seq<Cell>)
    requires forall i :: 0 <= i < |line| ==> line[i] == Unknown
    ensures !OverFull(line)
  {
    EmptyLineCounts(line);
  }

  /** When the row of a cell is still empty, the column alone decides. */
  lemma EmptyRowColumnDecides(b: Board, x: int, y: int, baseMessage: string)
    requires Rectangular(b) && OnBoard(b, x, y)
    requires forall i :: 0 <= i < |b[y]| ==> b[y][i] == Unknown
    ensures CheckContradictionAt(b, x, y, baseMessage).None? <==> OverFull(Column(b, x))
  {
    EmptyLineNotOverFull(Row(b, y));
  }

  /** A cell whose row and column are still empty is never a contradiction. */
  lemma EmptyLinesNoContradiction(b: Board, x: int, y: int, baseMessage: string)
    requires Rectangular(b) && OnBoard(b, x, y)
    requires forall i :: 0 <= i < |b[y]| ==> b[y][i] == Unknown
    requires forall j :: 0 <= j < |b| ==> b[j][x] == Unknown
    ensures CheckContradictionAt(b, x, y, baseMessage) == Some(baseMessage + ": " + NoContradictionMessage)
  {
    EmptyLineNotOverFull(Row(b, y));
    EmptyLineNotOverFull(Column(b, x));
  }

  /** The verdict at `(x, y)` reads only row `y` and column `x`: boards that
      agree there agree on it. */
  lemma Locality(b: Board, b': Board, x: int, y: int, baseMessage: string)
    requires Rectangular(b) && OnBoard(b, x, y) && Rectangular(b') && OnBoard(b', x, y)
    requires |b'| == |b| && b'[y] == b[y]
    requires forall j :: 0 <= j < |b| ==> b'[j][x] == b[j][x]
    ensures CheckContradictionAt(b', x, y, baseMessage) == CheckContradictionAt(b, x, y, baseMessage)
  {
    assert Column(b', x) == Column(b, x);
  }

  /** Counts the zeros and ones of a line in one pass, as the rule's loops do;
      any other cell is skipped. */
  method Tally(line: seq<Cell>) returns (zeros: nat, ones: nat)
    ensures zeros == Count(line, Zero) && ones == Count(line, One)
  {
    zeros, ones := 0, 0;
    var i := 0;
    while i < |line|
      invariant 0 <= i <= |line|
      invariant zeros == Count(line[..i], Zero) && ones == Count(line[..i], One)
    {
      assert line[..i + 1] == line[..i] + [line[i]];
      CountSnoc(line[..i], line[i], Zero);
      CountSnoc(line[..i], line[i], One);
      if line[i] == Zero {
        zeros := zeros + 1;
      } else if line[i] == One {
        ones := ones + 1;
      }
      i := i + 1;
    }
    assert line[..|line|] == line;
  }

  /** `checkContradictionAt` as written: tally the row, stop on an over-full
      row, then tally the column. */
  method CheckContradictionAtLoops(b: Board, x: int, y: int, baseMessage: string) returns (r: Option<string>)
    requires Rectangular(b) && OnBoard(b, x, y)
    ensures r == CheckContradictionAt(b, x, y, baseMessage)
  {
    var row := Row(b, y);
    var size := |row|;
    var rowZeros, rowOnes := Tally(row);
    if rowZeros > size / 2 || rowOnes > size / 2 {
      return None;
    }
    var col := Column(b, x);
    size := |col|;
    var colZeros, colOnes := Tally(col);
    if colZeros > size / 2 || colOnes > size / 2 {
      return None;
    }
    return Some(baseMessage + ": " + NoContradictionMessage);
  }

}
