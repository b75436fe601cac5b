/**
 * The pairwise engine `least_of_two`: the longest-common-run dynamic program
 * run row by row over A (outer) and B (inner), keeping only the previous and
 * the current row, with the strict `>` that keeps the first maximal cell.
 */
module PairwiseLcs {
  import opened Common
  import opened LongestRun

  /** The values Python's `range(start, stop)` yields, in order. */
  function PyRange(start: int, stop: int): (r: seq<int>)
    decreases stop - start
    ensures |r| == if start < stop then stop - start else 0
    ensures forall k :: 0 <= k < |r| ==> r[k] == start + k
  {
    if start < stop then [start] + PyRange(start + 1, stop) else []
  }

  /**
   * The signature loop: for each index in `indices`, keep the accumulator
   * if it is non-zero or take the byte there, then shift left by 2.
   */
  function SignatureFold(run: seq<Byte>, indices: seq<int>, acc: int): int
    requires forall k :: 0 <= k < |indices| ==> 0 <= indices[k] < |run|
  {
    if indices == [] then acc
    else SignatureFold(run, indices[1..], (if acc != 0 then acc else run[indices[0]]) * 4)
  }

  /**
   * The tie-break value of a matched run as the source derives it: the loop
   * runs over `range(len(run), 0)`, which is empty, so the value is always 0.
   */
  function Signature(run: seq<Byte>): (sig: int)
    ensures sig == 0
  {
    SignatureFold(run, PyRange(|run|, 0), 0)
  }

  /** Once row `i` is complete, every cell of row `i` has been visited: the scan is at (i + 1, 0). */
  lemma RowComplete(a: seq<Byte>, b: seq<Byte>, i: int, len: nat, offA: int, offB: int)
    requires FirstLongestBefore(a, b, i, |b|, len, offA, offB)
    ensures FirstLongestBefore(a, b, i + 1, 0, len, offA, offB)
  {
    forall ii, jj | 0 <= ii < |a| && 0 <= jj < |b| && Before(ii, jj, i + 1, 0)
      ensures Ending(a, b, ii, jj) <= len
    {
      assert Before(ii, jj, i, |b|);
    }
    if len > 0 {
      assert Before(offA + len - 1, offB + len - 1, i, |b|);
    }
  }

  /** Visiting cell (i, j), whose value is `v`, with the strict `>` update. */
  lemma VisitCell(a: seq<Byte>, b: seq<Byte>, i: nat, j: nat, len: nat, offA: int, offB: int)
    requires i < |a| && j < |b| && FirstLongestBefore(a, b, i, j, len, offA, offB)
    ensures var v := Ending(a, b, i, j);
      if v > len then FirstLongestBefore(a, b, i, j + 1, v, i - v + 1, j - v + 1)
      else FirstLongestBefore(a, b, i, j + 1, len, offA, offB)
  {
    var v := Ending(a, b, i, j);
    var newLen := if v > len then v else len;
    forall ii, jj | 0 <= ii < |a| && 0 <= jj < |b| && Before(ii, jj, i, j + 1)
      ensures Ending(a, b, ii, jj) <= newLen
    {
      if ii != i || jj != j {
        assert Before(ii, jj, i, j);
      }
    }
  }

  /**
   * `least_of_two(A, B)`: the length of the longest common run of A and B,
   * its offsets in each (those of the first maximal DP cell in row-major
   * order, or (0, 0) when nothing matches) and the signature, always 0.
   */
  method LeastOfTwo(A: seq<Byte>, B: seq<Byte>) returns (len: nat, offA: nat, offB: nat, sig: int)
    ensures IsFirstLongest(A, B, len, offA, offB)
    ensures len == LongestCommonRun(A, B) && CommonRunAt(A, B, offA, offB, len)
    ensures |A| == 0 || |B| == 0 ==> len == 0 && offA == 0 && offB == 0
    ensures sig == 0
  {
    var a, b := |A|, |B|;
    // prev[j] holds M[i-1][j] and curr[j] receives M[i][j].
    var prev := new nat[b];
    var curr := new nat[b];
    len, offA, offB := 0, 0, 0;
    var currMax: seq<Byte> := [];
    for i := 0 to a
      invariant fresh(prev) && fresh(curr) && prev != curr && prev.Length == b && curr.Length == b
      invariant i > 0 ==> forall jj :: 0 <= jj < b ==> prev[jj] == Ending(A, B, i - 1, jj)
      invariant AllAtMost(A, B, i, 0, len) && FirstReaching(A, B, len, offA, offB)
      invariant len > 0 ==> Before(offA + len - 1, offB + len - 1, i, 0)
    {
      for j := 0 to b
        invariant i > 0 ==> forall jj :: 0 <= jj < b ==> prev[jj] == Ending(A, B, i - 1, jj)
        invariant forall jj :: 0 <= jj < j ==> curr[jj] == Ending(A, B, i, jj)
        invariant AllAtMost(A, B, i, j, len) && FirstReaching(A, B, len, offA, offB)
        invariant len > 0 ==> Before(offA + len - 1, offB + len - 1, i, j)
      {
        // M[i][j] = M[i-1][j-1] + 1 on a match, 0 otherwise.
        var v: nat := 0;
        if A[i] == B[j] {
          v := if i == 0 || j == 0 then 1 else prev[j - 1] + 1;
        }
        assert v == Ending(A, B, i, j);
        curr[j] := v;
        VisitCell(A, B, i, j, len, offA, offB);
        if v > len {
          len := v;
          currMax := A[i - len + 1..i];
          offA := i - len + 1;
          offB := j - len + 1;
        }
      }
      RowComplete(A, B, i, len, offA, offB);
      prev, curr := curr, prev;
    }
    sig := Signature(currMax);
    FirstLongestIsLongest(A, B, len, offA, offB);
  }
}
