/**
 * The dict-keyed loops of `least_of_two` as written, without `curr_max`
 * (it only feeds the signature, which is always 0): the two DP rows share one dict `C`,
 * row `i` storing M[i][j] under key `k * j` with `k` flipping between 1 and
 * -1, only on matches, and reading M[i-1][j-1] under key `-k * (j - 1)`.
 * Key 0 is shared by every row, and entries of older rows are never
 * cleared, so a lookup can see a value that is not M[i-1][j-1].
 */
module DictKeyed {
  import opened Common
  import opened LongestRun

  /** The variables the loops update: the dict and the running maximum with its offsets. */
  datatype DictState = DictState(table: map<int, nat>, maxLen: nat, offA: int, offB: int)

  const Start := DictState(map[], 0, 0, 0)

  /** One pass of the inner loop body at (i, j) with row sign `k`. */
  function DictCell(a: seq<Byte>, b: seq<Byte>, i: nat, j: nat, k: int, s: DictState): DictState
    requires i < |a| && j < |b|
  {
    if a[i] != b[j] then s
    else
      var key := -1 * k * (j - 1);
      var v: nat := if i == 0 || j == 0 || key !in s.table then 1 else s.table[key] + 1;
      var t := s.table[k * j := v];
      if v > s.maxLen then DictState(t, v, i - v + 1, j - v + 1) else s.(table := t)
  }

  /** The rest of row `i`, from column `j` on. */
  function DictRow(a: seq<Byte>, b: seq<Byte>, i: nat, j: nat, k: int, s: DictState): DictState
    requires i < |a| && j <= |b|
    decreases |b| - j
  {
    if j == |b| then s else DictRow(a, b, i, j + 1, k, DictCell(a, b, i, j, k, s))
  }

  /** The rows from `i` on; `k` is the sign before row `i` flips it. */
  function DictRows(a: seq<Byte>, b: seq<Byte>, i: nat, k: int, s: DictState): DictState
    requires i <= |a|
    decreases |a| - i
  {
    if i == |a| then s else DictRows(a, b, i + 1, -k, DictRow(a, b, i, 0, -k, s))
  }

  /** The four results of `least_of_two` as written (the signature loop never runs). */
  function LeastOfTwoDict(a: seq<Byte>, b: seq<Byte>): (nat, int, int, int)
  {
    var s := DictRows(a, b, 0, -1, Start);
    (s.maxLen, s.offA, s.offB, 0)
  }

  /** The nested loops of `least_of_two` over the shared dict, step for step. */
  method LeastOfTwoAsWritten(A: seq<Byte>, B: seq<Byte>) returns (len: nat, offA: int, offB: int, sig: int)
    ensures (len, offA, offB, sig) == LeastOfTwoDict(A, B)
  {
    var C: map<int, nat> := map[];
    len, offA, offB := 0, 0, 0;
    var k := -1;
    for i := 0 to |A|
      invariant DictRows(A, B, i, k, DictState(C, len, offA, offB)) == DictRows(A, B, 0, -1, Start)
    {
      k := k * -1;
      for j := 0 to |B|
        invariant DictRows(A, B, i + 1, k, DictRow(A, B, i, j, k, DictState(C, len, offA, offB)))
               == DictRows(A, B, 0, -1, Start)
      {
        if A[i] == B[j] {
          if i == 0 || j == 0 || -1 * k * (j - 1) !in C {
            C := C[k * j := 1];
          } else {
            C := C[k * j := C[-1 * k * (j - 1)] + 1];
          }
          if C[k * j] > len {
            len := C[k * j];
            offA := i - len + 1;
            offB := j - len + 1;
          }
        }
      }
    }
    // `range(len(curr_max), 0)` is empty, so the signature stays 0.
    sig := 0;
  }

  /**
   * Key 0 is shared by every row: at (1, 1) the lookup of key 0 finds the
   * value row 1 itself just stored at (1, 0), so A = [7, 5], B = [5, 5]
   * reports a run of 2 (at offsets 0, 0) where the longest common run is 1.
   */
  lemma SharedKeyCounterexample()
    ensures LeastOfTwoDict([7, 5], [5, 5]) == (2, 0, 0, 0)
    ensures LongestCommonRun([7, 5], [5, 5]) == 1
    ensures !CommonRunAt([7, 5], [5, 5], 0, 0, 2)
  {
    SharedKeyDict();
    var a: seq<Byte>, b: seq<Byte> := [7, 5], [5, 5];
    assert a[0..2] != b[0..2] by { assert a[0..2][0] != b[0..2][0]; }
  }

  /** The as-written loops on [7, 5] and [5, 5], cell by cell: row 0 matches nothing. */
  lemma SharedKeyDict()
    ensures LeastOfTwoDict([7, 5], [5, 5]) == (2, 0, 0, 0)
  {
    var a: seq<Byte>, b: seq<Byte> := [7, 5], [5, 5];
    var row0 := DictRow(a, b, 0, 0, 1, Start);
    assert row0 == Start;
    var s10 := DictCell(a, b, 1, 0, -1, row0);
    assert s10 == DictState(map[0 := 1], 1, 1, 0);
    var s11 := DictCell(a, b, 1, 1, -1, s10);
    assert s11 == DictState(map[0 := 1, -1 := 2], 2, 0, 0);
    assert DictRow(a, b, 1, 0, -1, row0) == s11;
  }

  /**
   * Entries are never cleared: at (3, 2) the lookup of key 1 finds the value
   * row 0 stored at (0, 1), since rows 1 and 2 matched nothing, so
   * A = [1, 8, 9, 2], B = [3, 1, 2] reports a run of 2 where the longest is 1.
   */
  lemma StaleEntryCounterexample()
    ensures LeastOfTwoDict([1, 8, 9, 2], [3, 1, 2]).0 == 2
    ensures LongestCommonRun([1, 8, 9, 2], [3, 1, 2]) == 1
  {
  }
}
