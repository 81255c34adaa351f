/** The local aligner of 1_smith_waterman: the Smith–Waterman score matrix
    filled row by row with a running maximum, then a traceback from the
    first maximal cell that prepends one alignment column per step until it
    reaches a cell of score 0. */
module SmithWaterman {

  /** The three scoring parameters: `match_score`, `mismatch_penalty`,
      `gap_penalty`. */
  datatype Scores = Scores(matchScore: int, mismatchPenalty: int, gapPenalty: int)

  /** The score of aligning a against b. */
  function Sub(sc: Scores, a: char, b: char): int
  {
    if a == b then sc.matchScore else sc.mismatchPenalty
  }

  /** `[a, b, c, d].iter().cloned().max().unwrap()`. */
  function Max4(a: int, b: int, c: int, d: int): (m: int)
    ensures m >= a && m >= b && m >= c && m >= d
    ensures m == a || m == b || m == c || m == d
  {
    var ab := if a < b then b else a;
    var cd := if c < d then d else c;
    if ab < cd then cd else ab
  }

  /** The value cell (i, j) of the score matrix must hold: 0 on row and
      column 0, otherwise the best of 0, the diagonal plus the substitution
      score, and the cells above and to the left plus the gap penalty. */
  function Cell(s1: string, s2: string, sc: Scores, i: nat, j: nat): (v: int)
    requires i <= |s1| && j <= |s2|
    ensures v >= 0
    ensures i == 0 || j == 0 ==> v == 0
    decreases i + j
  {
    if i == 0 || j == 0 then 0
    else
      Max4(0,
        Cell(s1, s2, sc, i - 1, j - 1) + Sub(sc, s1[i - 1], s2[j - 1]),
        Cell(s1, s2, sc, i - 1, j) + sc.gapPenalty,
        Cell(s1, s2, sc, i, j - 1) + sc.gapPenalty)
  }

  /** Cell (a, b) comes before cell (i, j) in row-major order. */
  predicate Before(a: int, b: int, i: int, j: int)
  {
    a < i || (a == i && b < j)
  }

  /** The matrix has the right shape, the cells before (i, j) hold their
      values and every later cell still holds its initial 0. */
  ghost predicate FilledBefore(m: array2<int>, s1: string, s2: string, sc: Scores, i: nat, j: nat)
    reads m
  {
    m.Length0 == |s1| + 1 && m.Length1 == |s2| + 1 &&
    forall a, b :: 0 <= a <= |s1| && 0 <= b <= |s2| ==>
      m[a, b] == if Before(a, b, i, j) then Cell(s1, s2, sc, a, b) else 0
  }

  /** The running maximum after the cells before (i, j): it bounds them,
      and unless it is still 0 at (0, 0) it is strictly larger than every
      cell before its position, where it is attained. */
  ghost predicate RunningMax(s1: string, s2: string, sc: Scores, i: nat, j: nat, maxScore: int, mi: nat, mj: nat)
    requires mi <= |s1| && mj <= |s2|
  {
    (forall a, b :: 0 <= a <= |s1| && 0 <= b <= |s2| && Before(a, b, i, j) ==> Cell(s1, s2, sc, a, b) <= maxScore) &&
    Cell(s1, s2, sc, mi, mj) == maxScore &&
    (maxScore == 0 ==> mi == 0 && mj == 0) &&
    (forall a, b :: 0 <= a <= |s1| && 0 <= b <= |s2| && Before(a, b, mi, mj) ==> Cell(s1, s2, sc, a, b) < maxScore)
  }

  /** The fill loops of `smith_waterman`: a (len1+1)×(len2+1) matrix of
      zeros, filled row by row from (1, 1), while `max_score`/`max_pos` move
      to every cell strictly above the maximum so far.  On return every cell
      holds its value, `max_score` is the largest of them and `max_pos` is
      the first cell holding it, or (0, 0) when every cell is 0. */
  method Fill(s1: string, s2: string, sc: Scores) returns (m: array2<int>, maxScore: int, mi: nat, mj: nat)
    ensures fresh(m)
    ensures mi <= |s1| && mj <= |s2|
    ensures FilledBefore(m, s1, s2, sc, |s1| + 1, 0)
    ensures RunningMax(s1, s2, sc, |s1| + 1, 0, maxScore, mi, mj)
  {
    m := new int[|s1| + 1, |s2| + 1]((a, b) => 0);
    maxScore := 0;
    mi, mj := 0, 0;
    for i := 1 to |s1| + 1
      invariant FilledBefore(m, s1, s2, sc, i, 0)
      invariant mi <= |s1| && mj <= |s2|
      invariant RunningMax(s1, s2, sc, i, 0, maxScore, mi, mj)
    {
      maxScore, mi, mj := FillRow(m, s1, s2, sc, i, maxScore, mi, mj);
    }
  }

  /** One pass of the inner fill loop: row i, from column 1, each cell set
      from its three already-filled neighbours, the running maximum moving
      only on a strictly larger cell. */
  method FillRow(m: array2<int>, s1: string, s2: string, sc: Scores, i: nat, maxScore0: int, mi0: nat, mj0: nat)
    returns (maxScore: int, mi: nat, mj: nat)
    requires 0 < i <= |s1| && mi0 <= |s1| && mj0 <= |s2|
    requires FilledBefore(m, s1, s2, sc, i, 0)
    requires RunningMax(s1, s2, sc, i, 0, maxScore0, mi0, mj0)
    modifies m
    ensures mi <= |s1| && mj <= |s2|
    ensures FilledBefore(m, s1, s2, sc, i + 1, 0)
    ensures RunningMax(s1, s2, sc, i + 1, 0, maxScore, mi, mj)
  {
    hide Cell;
    maxScore, mi, mj := maxScore0, mi0, mj0;
    assert FilledBefore(m, s1, s2, sc, i, 1);
    assert RunningMax(s1, s2, sc, i, 1, maxScore, mi, mj);
    for j := 1 to |s2| + 1
      invariant FilledBefore(m, s1, s2, sc, i, j)
      invariant mi <= |s1| && mj <= |s2|
      invariant RunningMax(s1, s2, sc, i, j, maxScore, mi, mj)
    {
      var topLeft := m[i - 1, j - 1] + Sub(sc, s1[i - 1], s2[j - 1]);
      var up := m[i - 1, j] + sc.gapPenalty;
      var left := m[i, j - 1] + sc.gapPenalty;
      var score := Max4(0, topLeft, up, left);
      CellRecurrence(s1, s2, sc, i, j);
      assert score == Cell(s1, s2, sc, i, j);
      m[i, j] := score;
      if score > maxScore {
        maxScore := score;
        mi, mj := i, j;
      }
    }
  }

  /** One column of a local alignment: two aligned characters, a character
      of the first sequence against a gap, or a gap against a character of
      the second. */
  datatype Column = Pair(a: char, b: char) | GapIn2(a: char) | GapIn1(b: char)

  /** The character a column shows in the first row. */
  function Top(c: Column): char
  {
    match c case Pair(a, _) => a case GapIn2(a) => a case GapIn1(_) => '-'
  }

  /** The character a column shows in the second row. */
  function Bottom(c: Column): char
  {
    match c case Pair(_, b) => b case GapIn2(_) => '-' case GapIn1(b) => b
  }

  /** The characters of the first sequence a column uses. */
  function Used1(c: Column): string
  {
    match c case Pair(a, _) => [a] case GapIn2(a) => [a] case GapIn1(_) => []
  }

  /** The characters of the second sequence a column uses. */
  function Used2(c: Column): string
  {
    match c case Pair(_, b) => [b] case GapIn2(_) => [] case GapIn1(b) => [b]
  }

  /** The first alignment row: `align1`. */
  function Row1(path: seq<Column>): (r: string)
    ensures |r| == |path|
  {
    if path == [] then []
    else [Top(path[0])] + Row1(path[1..])
  }

  /** The second alignment row: `align2`. */
  function Row2(path: seq<Column>): (r: string)
    ensures |r| == |path|
  {
    if path == [] then []
    else [Bottom(path[0])] + Row2(path[1..])
  }

  /** The characters of the first sequence the alignment uses, in order. */
  function Consumed1(path: seq<Column>): string
  {
    if path == [] then []
    else Used1(path[0]) + Consumed1(path[1..])
  }

  /** The characters of the second sequence the alignment uses, in order. */
  function Consumed2(path: seq<Column>): string
  {
    if path == [] then []
    else Used2(path[0]) + Consumed2(path[1..])
  }

  /** The score of one column. */
  function ColumnScore(sc: Scores, c: Column): int
  {
    match c
    case Pair(a, b) => Sub(sc, a, b)
    case GapIn2(_) => sc.gapPenalty
    case GapIn1(_) => sc.gapPenalty
  }

  /** The score of an alignment: the sum of its columns' scores. */
  function PathScore(sc: Scores, path: seq<Column>): int
  {
    if path == [] then 0 else ColumnScore(sc, path[0]) + PathScore(sc, path[1..])
  }

  /** Cell (i, j) off row and column 0 is given by the recurrence. */
  lemma CellRecurrence(s1: string, s2: string, sc: Scores, i: nat, j: nat)
    requires 0 < i <= |s1| && 0 < j <= |s2|
    ensures Cell(s1, s2, sc, i, j) == Max4(0,
      Cell(s1, s2, sc, i - 1, j - 1) + Sub(sc, s1[i - 1], s2[j - 1]),
      Cell(s1, s2, sc, i - 1, j) + sc.gapPenalty,
      Cell(s1, s2, sc, i, j - 1) + sc.gapPenalty)
  {
  }

  /** A filled matrix holds every cell's value. */
  lemma FilledCell(m: array2<int>, s1: string, s2: string, sc: Scores, a: nat, b: nat)
    requires FilledBefore(m, s1, s2, sc, |s1| + 1, 0)
    requires a <= |s1| && b <= |s2|
    ensures a < m.Length0 && b < m.Length1 && m[a, b] == Cell(s1, s2, sc, a, b)
  {
  }

  /** The filled matrix obeys the recurrence of `smith_waterman`: row 0 and
      column 0 hold 0, and every other cell is the largest of 0, the
      diagonal neighbour plus the substitution score, and the upper and left
      neighbours plus the gap penalty. */
  lemma FilledRecurrence(m: array2<int>, s1: string, s2: string, sc: Scores, i: nat, j: nat)
    requires FilledBefore(m, s1, s2, sc, |s1| + 1, 0)
    requires i <= |s1| && j <= |s2|
    ensures i < m.Length0 && j < m.Length1
    ensures i == 0 || j == 0 ==> m[i, j] == 0
    ensures 0 < i && 0 < j ==>
      m[i, j] == Max4(0, m[i - 1, j - 1] + Sub(sc, s1[i - 1], s2[j - 1]), m[i - 1, j] + sc.gapPenalty, m[i, j - 1] + sc.gapPenalty)
  {
    hide Cell, FilledBefore;
    FilledCell(m, s1, s2, sc, i, j);
    if 0 < i && 0 < j {
      FilledCell(m, s1, s2, sc, i - 1, j - 1);
      FilledCell(m, s1, s2, sc, i - 1, j);
      FilledCell(m, s1, s2, sc, i, j - 1);
      CellRecurrence(s1, s2, sc, i, j);
    }
  }

  /** Prepending a column puts its characters in front of the rows. */
  lemma PrependRows(c: Column, path: seq<Column>)
    ensures Row1([c] + path) == [Top(c)] + Row1(path)
    ensures Row2([c] + path) == [Bottom(c)] + Row2(path)
  {
    assert ([c] + path)[1..] == path;
  }

  /** Prepending a column puts the characters it uses in front. */
  lemma PrependConsumed(c: Column, path: seq<Column>)
    ensures Consumed1([c] + path) == Used1(c) + Consumed1(path)
    ensures Consumed2([c] + path) == Used2(c) + Consumed2(path)
  {
    assert ([c] + path)[1..] == path;
  }

  /** Prepending a column adds its score. */
  lemma PrependScore(sc: Scores, c: Column, path: seq<Column>)
    ensures PathScore(sc, [c] + path) == ColumnScore(sc, c) + PathScore(sc, path)
  {
    assert ([c] + path)[1..] == path;
  }

  /** The column the traceback takes at a cell off row and column 0: the
      diagonal when the cell is the diagonal plus the substitution score,
      else the cell above when it is that cell plus the gap penalty, else the
      cell to the left. */
  function Step(s1: string, s2: string, sc: Scores, i: nat, j: nat): Column
    requires 0 < i <= |s1| && 0 < j <= |s2|
  {
    if Cell(s1, s2, sc, i, j) == Cell(s1, s2, sc, i - 1, j - 1) + Sub(sc, s1[i - 1], s2[j - 1]) then Pair(s1[i - 1], s2[j - 1])
    else if Cell(s1, s2, sc, i, j) == Cell(s1, s2, sc, i - 1, j) + sc.gapPenalty then GapIn2(s1[i - 1])
    else GapIn1(s2[j - 1])
  }

  /** The alignment the traceback builds from cell (i, j): nothing at a cell
      of score 0, otherwise the alignment from the cell its step leads to,
      followed by the step's column. */
  function TracePath(s1: string, s2: string, sc: Scores, i: nat, j: nat): seq<Column>
    requires i <= |s1| && j <= |s2|
    decreases i + j
  {
    if i == 0 || j == 0 || Cell(s1, s2, sc, i, j) == 0 then []
    else
      match Step(s1, s2, sc, i, j)
      case Pair(_, _) => TracePath(s1, s2, sc, i - 1, j - 1) + [Step(s1, s2, sc, i, j)]
      case GapIn2(_) => TracePath(s1, s2, sc, i - 1, j) + [Step(s1, s2, sc, i, j)]
      case GapIn1(_) => TracePath(s1, s2, sc, i, j - 1) + [Step(s1, s2, sc, i, j)]
  }

  /** The trace from a cell of score 0 is empty. */
  lemma TraceEnd(s1: string, s2: string, sc: Scores, i: nat, j: nat)
    requires i <= |s1| && j <= |s2| && Cell(s1, s2, sc, i, j) == 0
    ensures TracePath(s1, s2, sc, i, j) == []
  {
  }

  /** The trace from a positive cell is the trace from where its step leads,
      followed by the step's column. */
  lemma TraceStep(s1: string, s2: string, sc: Scores, i: nat, j: nat)
    requires 0 < i <= |s1| && 0 < j <= |s2| && Cell(s1, s2, sc, i, j) > 0
    ensures var c := Step(s1, s2, sc, i, j);
      TracePath(s1, s2, sc, i, j) == TracePath(s1, s2, sc, i - |Used1(c)|, j - |Used2(c)|) + [c]
  {
    hide Cell, Step;
  }

  /** The empty alignment has empty rows, uses nothing and scores 0. */
  lemma EmptyPath(sc: Scores)
    ensures Row1([]) == [] && Row2([]) == []
    ensures Consumed1([]) == [] && Consumed2([]) == [] && PathScore(sc, []) == 0
  {
  }

  /** One traceback step keeps the loop's bookkeeping: prepending column c,
      which uses s1[i'..i] and s2[j'..j] and scores the difference between
      cell (i, j) and cell (i', j'), extends an alignment of s1[i..mi] with
      s2[j..mj] to one of s1[i'..mi] with s2[j'..mj]. */
  lemma StepKeeps(s1: string, s2: string, sc: Scores, path: seq<Column>, c: Column,
                  i: nat, j: nat, i': nat, j': nat, mi: nat, mj: nat)
    requires i' <= i <= mi <= |s1| && j' <= j <= mj <= |s2|
    requires Consumed1(path) == s1[i..mi] && Consumed2(path) == s2[j..mj]
    requires s1[i'..mi] == Used1(c) + s1[i..mi] && s2[j'..mj] == Used2(c) + s2[j..mj]
    requires PathScore(sc, path) + Cell(s1, s2, sc, i, j) == Cell(s1, s2, sc, mi, mj)
    requires Cell(s1, s2, sc, i, j) == Cell(s1, s2, sc, i', j') + ColumnScore(sc, c)
    ensures Consumed1([c] + path) == s1[i'..mi] && Consumed2([c] + path) == s2[j'..mj]
    ensures PathScore(sc, [c] + path) + Cell(s1, s2, sc, i', j') == Cell(s1, s2, sc, mi, mj)
  {
    hide Cell;
    PrependConsumed(c, path);
    PrependScore(sc, c, path);
  }

  /** The traceback loop of `smith_waterman`: from (mi, mj) while the cell
      is positive, step diagonally when the cell is the diagonal plus the
      substitution score, up when it is the cell above plus the gap penalty,
      and left otherwise.  It stops at a cell of score 0 at (i0, j0); the
      rows are the columns taken, which use exactly s1[i0..mi] and
      s2[j0..mj], and the columns' scores add up to the start cell's score. */
  method Traceback(m: array2<int>, s1: string, s2: string, sc: Scores, mi: nat, mj: nat)
    returns (align1: string, align2: string, ghost path: seq<Column>, ghost i0: nat, ghost j0: nat)
    requires mi <= |s1| && mj <= |s2|
    requires FilledBefore(m, s1, s2, sc, |s1| + 1, 0)
    ensures align1 == Row1(path) && align2 == Row2(path)
    ensures i0 <= mi && j0 <= mj && Cell(s1, s2, sc, i0, j0) == 0
    ensures Consumed1(path) == s1[i0..mi] && Consumed2(path) == s2[j0..mj]
    ensures PathScore(sc, path) == Cell(s1, s2, sc, mi, mj)
    ensures path == TracePath(s1, s2, sc, mi, mj)
    ensures align1 == Row1(TracePath(s1, s2, sc, mi, mj)) && align2 == Row2(TracePath(s1, s2, sc, mi, mj))
  {
    hide Cell, FilledBefore, TracePath, Row1, Row2, Consumed1, Consumed2, PathScore;
    var i: nat, j: nat := mi, mj;
    align1, align2 := [], [];
    path := [];
    EmptyPath(sc);
    FilledCell(m, s1, s2, sc, i, j);
    while m[i, j] > 0
      invariant i <= mi && j <= mj
      invariant align1 == Row1(path) && align2 == Row2(path)
      invariant Consumed1(path) == s1[i..mi] && Consumed2(path) == s2[j..mj]
      invariant PathScore(sc, path) + Cell(s1, s2, sc, i, j) == Cell(s1, s2, sc, mi, mj)
      invariant m[i, j] == Cell(s1, s2, sc, i, j)
      invariant TracePath(s1, s2, sc, mi, mj) == TracePath(s1, s2, sc, i, j) + path
      decreases i + j
    {
      assert 0 < i && 0 < j;
      FilledCell(m, s1, s2, sc, i - 1, j - 1);
      FilledCell(m, s1, s2, sc, i - 1, j);
      FilledCell(m, s1, s2, sc, i, j - 1);
      CellRecurrence(s1, s2, sc, i, j);
      var c: Column;
      var i', j' := i, j;
      if i > 0 && j > 0 && m[i, j] == m[i - 1, j - 1] + Sub(sc, s1[i - 1], s2[j - 1]) {
        align1 := [s1[i - 1]] + align1;
        align2 := [s2[j - 1]] + align2;
        c := Pair(s1[i - 1], s2[j - 1]);
        i', j' := i - 1, j - 1;
        assert s1[i'..mi] == Used1(c) + s1[i..mi];
        assert s2[j'..mj] == Used2(c) + s2[j..mj];
      } else if i > 0 && m[i, j] == m[i - 1, j] + sc.gapPenalty {
        align1 := [s1[i - 1]] + align1;
        align2 := ['-'] + align2;
        c := GapIn2(s1[i - 1]);
        i' := i - 1;
        assert s1[i'..mi] == Used1(c) + s1[i..mi];
        assert s2[j'..mj] == Used2(c) + s2[j..mj];
      } else {
        // a positive cell that is neither the diagonal nor the cell above
        // plus its score is the cell to the left plus the gap penalty
        align1 := ['-'] + align1;
        align2 := [s2[j - 1]] + align2;
        c := GapIn1(s2[j - 1]);
        j' := j - 1;
        assert s1[i'..mi] == Used1(c) + s1[i..mi];
        assert s2[j'..mj] == Used2(c) + s2[j..mj];
      }
      assert c == Step(s1, s2, sc, i, j);
      TraceStep(s1, s2, sc, i, j);
      assert TracePath(s1, s2, sc, mi, mj) == TracePath(s1, s2, sc, i', j') + ([c] + path);
      assert align1[0] == Top(c) && align2[0] == Bottom(c);
      assert Cell(s1, s2, sc, i, j) == Cell(s1, s2, sc, i', j') + ColumnScore(sc, c);
      PrependRows(c, path);
      StepKeeps(s1, s2, sc, path, c, i, j, i', j', mi, mj);
      path := [c] + path;
      i, j := i', j';
      FilledCell(m, s1, s2, sc, i, j);
    }
    TraceEnd(s1, s2, sc, i, j);
    i0, j0 := i, j;
  }

  /** `smith_waterman(seq1, seq2, match_score, mismatch_penalty,
      gap_penalty)`: fill, then trace back from `max_pos`.  The score is the
      largest cell and `max_pos` the first cell holding it (or (0, 0) when
      it is 0); the two rows have equal length and spell a local alignment
      of s1[start1..end1] with s2[start2..end2] whose column scores add up
      to the returned score, and, when a gap does not score positively, no
      local alignment of any substrings scores more.  When neither sequence
      contains '-', no column is a gap on both rows and removing the gaps
      from each row gives back its substring. */
  method Align(s1: string, s2: string, sc: Scores)
    returns (align1: string, align2: string, score: int,
             ghost path: seq<Column>, ghost start1: nat, ghost end1: nat, ghost start2: nat, ghost end2: nat)
    ensures end1 <= |s1| && end2 <= |s2|
    ensures path == TracePath(s1, s2, sc, end1, end2)
    ensures RunningMax(s1, s2, sc, |s1| + 1, 0, score, end1, end2)
    ensures align1 == Row1(path) && align2 == Row2(path) && |align1| == |align2|
    ensures LocalAlignment(s1, s2, path, start1, end1, start2, end2)
    ensures PathScore(sc, path) == score
    ensures sc.gapPenalty <= 0 ==>
      forall p: seq<Column>, a: nat, i: nat, b: nat, j: nat :: LocalAlignment(s1, s2, p, a, i, b, j) ==> PathScore(sc, p) <= score
    ensures '-' !in s1 && '-' !in s2 ==>
      RemoveGaps(align1) == s1[start1..end1] && RemoveGaps(align2) == s2[start2..end2] &&
      forall k :: 0 <= k < |align1| ==> align1[k] != '-' || align2[k] != '-'
  {
    var m, mi, mj;
    m, score, mi, mj := Fill(s1, s2, sc);
    align1, align2, path, start1, start2 := Traceback(m, s1, s2, sc, mi, mj);
    end1, end2 := mi, mj;
    forall p: seq<Column>, a: nat, i: nat, b: nat, j: nat | sc.gapPenalty <= 0 && LocalAlignment(s1, s2, p, a, i, b, j)
      ensures PathScore(sc, p) <= score
    {
      CellIsOptimal(s1, s2, sc, p, a, i, b, j);
      assert Before(i, j, |s1| + 1, 0);
    }
    if '-' !in s1 && '-' !in s2 {
      assert '-' !in Consumed1(path) by {
        assert forall x :: x in s1[start1..end1] ==> x in s1;
      }
      assert '-' !in Consumed2(path) by {
        assert forall x :: x in s2[start2..end2] ==> x in s2;
      }
      GapsRemoved(path);
      NoDoubleGap(path);
    }
  }

  /** The path aligns s1[a..i] with s2[b..j]. */
  ghost predicate LocalAlignment(s1: string, s2: string, path: seq<Column>, a: nat, i: nat, b: nat, j: nat)
  {
    a <= i <= |s1| && b <= j <= |s2| &&
    Consumed1(path) == s1[a..i] && Consumed2(path) == s2[b..j]
  }

  /** Appending a column adds its characters and its score at the end. */
  lemma {:induction false} AppendColumn(sc: Scores, path: seq<Column>, c: Column)
    ensures Consumed1(path + [c]) == Consumed1(path) + Used1(c)
    ensures Consumed2(path + [c]) == Consumed2(path) + Used2(c)
    ensures PathScore(sc, path + [c]) == PathScore(sc, path) + ColumnScore(sc, c)
    decreases |path|
  {
    if path != [] {
      assert (path + [c])[1..] == path[1..] + [c];
      AppendColumn(sc, path[1..], c);
    }
  }

  /** A slice that ends in x stops one past x's position. */
  lemma SnocSlice(s: string, a: nat, i: nat, t: string, x: char)
    requires a <= i <= |s| && s[a..i] == t + [x]
    ensures a < i && t == s[a..i - 1] && x == s[i - 1]
  {
    assert |s[a..i]| == |t| + 1;
    assert s[a..i - 1] == s[a..i][..|t|];
  }

  /** The recurrence is optimal: when a gap costs something (or nothing),
      every local alignment that ends at (i, j) scores at most cell (i, j).
      With a positive gap score a run of gaps along row or column 0 would
      beat the 0 held there. */
  lemma {:induction false} CellIsOptimal(s1: string, s2: string, sc: Scores, path: seq<Column>, a: nat, i: nat, b: nat, j: nat)
    requires sc.gapPenalty <= 0
    requires LocalAlignment(s1, s2, path, a, i, b, j)
    ensures PathScore(sc, path) <= Cell(s1, s2, sc, i, j)
    decreases |path|
  {
    hide Cell, PathScore, Consumed1, Consumed2;
    EmptyPath(sc);
    if path != [] {
      var init, c := path[..|path| - 1], path[|path| - 1];
      assert path == init + [c];
      AppendColumn(sc, init, c);
      match c
      case Pair(x, y) =>
        SnocSlice(s1, a, i, Consumed1(init), x);
        SnocSlice(s2, b, j, Consumed2(init), y);
        CellIsOptimal(s1, s2, sc, init, a, i - 1, b, j - 1);
        CellRecurrence(s1, s2, sc, i, j);
      case GapIn2(x) =>
        assert Consumed2(path) == Consumed2(init);
        SnocSlice(s1, a, i, Consumed1(init), x);
        CellIsOptimal(s1, s2, sc, init, a, i - 1, b, j);
        if j == 0 {
          // the alignment ends at column 0 and only ever uses s1
          assert Cell(s1, s2, sc, i - 1, j) == 0 && PathScore(sc, init) <= 0;
        } else {
          CellRecurrence(s1, s2, sc, i, j);
        }
      case GapIn1(y) =>
        assert Consumed1(path) == Consumed1(init);
        SnocSlice(s2, b, j, Consumed2(init), y);
        CellIsOptimal(s1, s2, sc, init, a, i, b, j - 1);
        if i == 0 {
          assert Cell(s1, s2, sc, i, j - 1) == 0 && PathScore(sc, init) <= 0;
        } else {
          CellRecurrence(s1, s2, sc, i, j);
        }
    }
  }

  /** A row with its gap characters removed. */
  function RemoveGaps(row: string): (r: string)
    ensures '-' !in r
    ensures |r| <= |row|
  {
    if row == [] then []
    else (if row[0] == '-' then [] else [row[0]]) + RemoveGaps(row[1..])
  }

  /** Over sequences without '-', removing the gaps from each row gives back
      exactly the characters the alignment uses. */
  lemma {:induction false} GapsRemoved(path: seq<Column>)
    requires '-' !in Consumed1(path) && '-' !in Consumed2(path)
    ensures RemoveGaps(Row1(path)) == Consumed1(path)
    ensures RemoveGaps(Row2(path)) == Consumed2(path)
  {
    if path != [] {
      GapsRemoved(path[1..]);
    }
  }

  /** Over sequences without '-', no column has a gap on both rows. */
  lemma {:induction false} NoDoubleGap(path: seq<Column>)
    requires '-' !in Consumed1(path) && '-' !in Consumed2(path)
    ensures forall k :: 0 <= k < |path| ==> Row1(path)[k] != '-' || Row2(path)[k] != '-'
  {
    if path != [] {
      NoDoubleGap(path[1..]);
      forall k | 0 < k < |path|
        ensures Row1(path)[k] != '-' || Row2(path)[k] != '-'
      {
        assert Row1(path)[k] == Row1(path[1..])[k - 1];
        assert Row2(path)[k] == Row2(path[1..])[k - 1];
      }
    }
  }
}
