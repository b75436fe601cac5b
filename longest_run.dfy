/**
 * The specification of the pairwise engine: what "the longest contiguous run
 * of bytes shared by two files" means, by brute force over every pair of
 * start offsets, and the dynamic-programming cell M[i][j] that the engine
 * computes row by row.
 */
module LongestRun {
  import opened Common

  /** `len` bytes starting at offset `i` of `a` equal `len` bytes starting at offset `j` of `b`. */
  predicate CommonRunAt(a: seq<Byte>, b: seq<Byte>, i: nat, j: nat, len: nat)
  {
    i + len <= |a| && j + len <= |b| && a[i..i + len] == b[j..j + len]
  }

  /** Length of the longest common run that starts at offset `i` of `a` and offset `j` of `b`. */
  function MatchFrom(a: seq<Byte>, b: seq<Byte>, i: nat, j: nat): (r: nat)
    requires i <= |a| && j <= |b|
    decreases |a| - i
    ensures CommonRunAt(a, b, i, j, r)
    ensures i + r < |a| && j + r < |b| ==> a[i + r] != b[j + r]
  {
    if i < |a| && j < |b| && a[i] == b[j] then
      var r := MatchFrom(a, b, i + 1, j + 1);
      RunExtends(a, b, i, j, r);
      1 + r
    else
      0
  }

  /** A common run preceded by equal bytes extends one step to the left. */
  lemma RunExtends(a: seq<Byte>, b: seq<Byte>, i: nat, j: nat, r: nat)
    requires i < |a| && j < |b| && a[i] == b[j]
    requires CommonRunAt(a, b, i + 1, j + 1, r)
    ensures CommonRunAt(a, b, i, j, r + 1)
  {
    assert a[i..i + r + 1] == [a[i]] + a[i + 1..i + 1 + r];
    assert b[j..j + r + 1] == [b[j]] + b[j + 1..j + 1 + r];
  }

  /** The longest run starting at offset `i` of `a` and at some offset below `j` of `b`. */
  function BestInRow(a: seq<Byte>, b: seq<Byte>, i: nat, j: nat): (r: nat)
    requires i <= |a| && j <= |b|
    ensures forall jj :: 0 <= jj < j ==> MatchFrom(a, b, i, jj) <= r
    ensures r <= |b|
  {
    if j == 0 then 0 else Max(BestInRow(a, b, i, j - 1), MatchFrom(a, b, i, j - 1))
  }

  /** The longest run starting at some offset below `i` of `a` and anywhere in `b`. */
  function BestBelow(a: seq<Byte>, b: seq<Byte>, i: nat): (r: nat)
    requires i <= |a|
    ensures forall ii, jj :: 0 <= ii < i && 0 <= jj < |b| ==> MatchFrom(a, b, ii, jj) <= r
    ensures r <= |b|
  {
    if i == 0 then 0 else Max(BestBelow(a, b, i - 1), BestInRow(a, b, i - 1, |b|))
  }

  /** The row maximum is reached at some start offset of that row. */
  lemma {:induction false} BestInRowAttained(a: seq<Byte>, b: seq<Byte>, i: nat, j: nat) returns (jj: nat)
    requires i <= |a| && 0 < j <= |b|
    ensures jj < j && MatchFrom(a, b, i, jj) == BestInRow(a, b, i, j)
  {
    if j == 1 || BestInRow(a, b, i, j - 1) < MatchFrom(a, b, i, j - 1) {
      jj := j - 1;
    } else {
      jj := BestInRowAttained(a, b, i, j - 1);
    }
  }

  /** The overall maximum is reached at some pair of start offsets. */
  lemma {:induction false} BestBelowAttained(a: seq<Byte>, b: seq<Byte>, i: nat) returns (ii: nat, jj: nat)
    requires 0 < i <= |a| && 0 < |b|
    ensures ii < i && jj < |b| && MatchFrom(a, b, ii, jj) == BestBelow(a, b, i)
  {
    if i == 1 || BestBelow(a, b, i - 1) < BestInRow(a, b, i - 1, |b|) {
      ii := i - 1;
      jj := BestInRowAttained(a, b, i - 1, |b|);
    } else {
      ii, jj := BestBelowAttained(a, b, i - 1);
    }
  }

  /** Brute-force reference: the length of the longest common contiguous run of `a` and `b`. */
  function LongestCommonRun(a: seq<Byte>, b: seq<Byte>): nat
  {
    BestBelow(a, b, |a|)
  }

  /** Every common run is covered by the run that starts where it starts. */
  lemma MatchFromCovers(a: seq<Byte>, b: seq<Byte>, i: nat, j: nat, len: nat)
    requires CommonRunAt(a, b, i, j, len)
    ensures MatchFrom(a, b, i, j) >= len
  {
    assert forall k :: i <= k < i + len ==> a[k] == a[i..i + len][k - i] == b[j..j + len][k - i] == b[k - i + j];
  }

  /** LongestCommonRun is a run both sequences share, and no common run is longer. */
  lemma LongestCommonRunIsLongest(a: seq<Byte>, b: seq<Byte>)
    ensures exists i, j :: CommonRunAt(a, b, i, j, LongestCommonRun(a, b))
    ensures forall i: nat, j: nat, len: nat :: CommonRunAt(a, b, i, j, len) ==> len <= LongestCommonRun(a, b)
  {
    var best := LongestCommonRun(a, b);
    if best == 0 {
      assert CommonRunAt(a, b, 0, 0, 0);
    } else {
      var ii, jj := BestBelowAttained(a, b, |a|);
      assert CommonRunAt(a, b, ii, jj, best);
    }
    forall i: nat, j: nat, len: nat | CommonRunAt(a, b, i, j, len) ensures len <= best {
      if len > 0 {
        MatchFromCovers(a, b, i, j, len);
      }
    }
  }

  /** Swapping the two files does not change the longest common run. */
  lemma LongestCommonRunSymmetric(a: seq<Byte>, b: seq<Byte>)
    ensures LongestCommonRun(a, b) == LongestCommonRun(b, a)
  {
    LongestCommonRunIsLongest(a, b);
    LongestCommonRunIsLongest(b, a);
    var i, j :| CommonRunAt(a, b, i, j, LongestCommonRun(a, b));
    assert CommonRunAt(b, a, j, i, LongestCommonRun(a, b));
    var k, l :| CommonRunAt(b, a, k, l, LongestCommonRun(b, a));
    assert CommonRunAt(a, b, l, k, LongestCommonRun(b, a));
  }

  /** A file shares all of itself with itself. */
  lemma LongestCommonRunSelf(a: seq<Byte>)
    ensures LongestCommonRun(a, a) == |a|
  {
    LongestCommonRunIsLongest(a, a);
    assert CommonRunAt(a, a, 0, 0, |a|);
  }

  /**
   * The DP cell M[i][j] of the engine: the length of the longest common run
   * ending exactly at byte `i` of `a` and byte `j` of `b` (0 on a mismatch,
   * M[i-1][j-1] + 1 on a match).
   */
  function Ending(a: seq<Byte>, b: seq<Byte>, i: nat, j: nat): (r: nat)
    requires i < |a| && j < |b|
    ensures r <= i + 1 && r <= j + 1
  {
    if a[i] != b[j] then 0
    else if i == 0 || j == 0 then 1
    else Ending(a, b, i - 1, j - 1) + 1
  }

  /** The cell M[i][j] measures a common run that ends at (i, j). */
  lemma {:induction false} EndingIsRun(a: seq<Byte>, b: seq<Byte>, i: nat, j: nat)
    requires i < |a| && j < |b|
    ensures CommonRunAt(a, b, i + 1 - Ending(a, b, i, j), j + 1 - Ending(a, b, i, j), Ending(a, b, i, j))
  {
    if a[i] != b[j] {
      assert Ending(a, b, i, j) == 0;
    } else if i == 0 || j == 0 {
      RunExtendsRight(a, b, i, j, 0);
    } else {
      var p := Ending(a, b, i - 1, j - 1);
      assert Ending(a, b, i, j) == p + 1;
      EndingIsRun(a, b, i - 1, j - 1);
      RunExtendsRight(a, b, i, j, p);
    }
  }

  /** A common run followed by equal bytes extends one step to the right. */
  lemma RunExtendsRight(a: seq<Byte>, b: seq<Byte>, i: nat, j: nat, p: nat)
    requires i < |a| && j < |b| && a[i] == b[j] && p <= i && p <= j
    requires CommonRunAt(a, b, i - p, j - p, p)
    ensures CommonRunAt(a, b, i - p, j - p, p + 1)
  {
    assert a[i - p..i + 1] == a[i - p..i] + [a[i]];
    assert b[j - p..j + 1] == b[j - p..j] + [b[j]];
  }

  /** The run measured by M[i][j] cannot be extended to the left. */
  lemma {:induction false} EndingIsMaximal(a: seq<Byte>, b: seq<Byte>, i: nat, j: nat)
    requires i < |a| && j < |b|
    requires Ending(a, b, i, j) <= i && Ending(a, b, i, j) <= j
    ensures a[i - Ending(a, b, i, j)] != b[j - Ending(a, b, i, j)]
  {
    if a[i] == b[j] {
      EndingIsMaximal(a, b, i - 1, j - 1);
    }
  }

  /** The cell at the end of a common run is at least as long as the run. */
  lemma EndingCovers(a: seq<Byte>, b: seq<Byte>, i: nat, j: nat, len: nat)
    requires CommonRunAt(a, b, i, j, len) && len > 0
    ensures Ending(a, b, i + len - 1, j + len - 1) >= len
  {
    var r := Ending(a, b, i + len - 1, j + len - 1);
    if r <= i + len - 1 && r <= j + len - 1 {
      EndingIsMaximal(a, b, i + len - 1, j + len - 1);
    }
    assert forall k :: i <= k < i + len ==> a[k] == a[i..i + len][k - i] == b[j..j + len][k - i] == b[k - i + j];
  }

  /** Row-major order of DP cells: (i1, j1) is visited before (i2, j2). */
  predicate Before(i1: int, j1: int, i2: int, j2: int)
  {
    i1 < i2 || (i1 == i2 && j1 < j2)
  }

  /** Every cell before (i, j) in row-major order is at most `len`. */
  ghost predicate AllAtMost(a: seq<Byte>, b: seq<Byte>, i: int, j: int, len: nat)
  {
    forall ii, jj {:trigger Before(ii, jj, i, j), Ending(a, b, ii, jj)} ::
      0 <= ii < |a| && 0 <= jj < |b| && Before(ii, jj, i, j) ==> Ending(a, b, ii, jj) <= len
  }

  /**
   * `len` is reached by the cell at the end of the run starting at
   * (offA, offB), and by no cell before it; a zero `len` keeps the offsets at 0.
   */
  ghost predicate FirstReaching(a: seq<Byte>, b: seq<Byte>, len: nat, offA: int, offB: int)
  {
    if len == 0 then offA == 0 && offB == 0
    else
      0 <= offA && 0 <= offB && offA + len <= |a| && offB + len <= |b| &&
      Ending(a, b, offA + len - 1, offB + len - 1) == len &&
      forall ii, jj {:trigger Before(ii, jj, offA + len - 1, offB + len - 1), Ending(a, b, ii, jj)} ::
        0 <= ii < |a| && 0 <= jj < |b| && Before(ii, jj, offA + len - 1, offB + len - 1) ==> Ending(a, b, ii, jj) < len
  }

  /**
   * The state of the engine once every cell before (i, j) in row-major order
   * has been visited: `len` bounds every visited cell and, when positive, is
   * the value of the first visited cell that reaches it, whose run starts at
   * (offA, offB); when 0, the offsets are still 0.
   */
  ghost predicate FirstLongestBefore(a: seq<Byte>, b: seq<Byte>, i: int, j: int, len: nat, offA: int, offB: int)
  {
    AllAtMost(a, b, i, j, len) && FirstReaching(a, b, len, offA, offB) &&
    (len > 0 ==> Before(offA + len - 1, offB + len - 1, i, j))
  }

  /** What the engine reports for a pair: the first maximal cell of the whole table. */
  ghost predicate IsFirstLongest(a: seq<Byte>, b: seq<Byte>, len: nat, offA: int, offB: int)
  {
    FirstLongestBefore(a, b, |a|, 0, len, offA, offB)
  }

  /** The first maximal cell delimits a longest common run. */
  lemma FirstLongestIsLongest(a: seq<Byte>, b: seq<Byte>, len: nat, offA: int, offB: int)
    requires IsFirstLongest(a, b, len, offA, offB)
    ensures offA >= 0 && offB >= 0 && CommonRunAt(a, b, offA, offB, len)
    ensures len == LongestCommonRun(a, b)
  {
    LongestCommonRunIsLongest(a, b);
    if len == 0 {
      assert CommonRunAt(a, b, 0, 0, 0);
    } else {
      EndingIsRun(a, b, offA + len - 1, offB + len - 1);
    }
    assert CommonRunAt(a, b, offA, offB, len);
    var best := LongestCommonRun(a, b);
    var i, j :| CommonRunAt(a, b, i, j, best);
    if best > 0 {
      EndingCovers(a, b, i, j, best);
      assert Before(i + best - 1, j + best - 1, |a|, 0);
    }
  }

  /** No cell before the first maximal one reaches its length. */
  lemma NothingLongerBefore(a: seq<Byte>, b: seq<Byte>, len: nat, offA: int, offB: int, i: int, j: int)
    requires IsFirstLongest(a, b, len, offA, offB) && len > 0
    requires 0 <= i < |a| && 0 <= j < |b| && Ending(a, b, i, j) >= len
    ensures !Before(i, j, offA + len - 1, offB + len - 1)
  {
  }

  /** Two reports for the same pair agree on the length. */
  lemma FirstLongestSameLength(a: seq<Byte>, b: seq<Byte>, len1: nat, offA1: int, offB1: int, len2: nat, offA2: int, offB2: int)
    requires IsFirstLongest(a, b, len1, offA1, offB1)
    requires IsFirstLongest(a, b, len2, offA2, offB2)
    ensures len1 == len2
  {
    if len2 > 0 {
      assert Ending(a, b, offA2 + len2 - 1, offB2 + len2 - 1) <= len1;
    }
    if len1 > 0 {
      assert Ending(a, b, offA1 + len1 - 1, offB1 + len1 - 1) <= len2;
    }
  }

  /** The report for a pair is unique: the scan order leaves no choice. */
  lemma FirstLongestUnique(a: seq<Byte>, b: seq<Byte>, len1: nat, offA1: int, offB1: int, len2: nat, offA2: int, offB2: int)
    requires IsFirstLongest(a, b, len1, offA1, offB1)
    requires IsFirstLongest(a, b, len2, offA2, offB2)
    ensures len1 == len2 && offA1 == offA2 && offB1 == offB2
  {
    FirstLongestSameLength(a, b, len1, offA1, offB1, len2, offA2, offB2);
    if len1 > 0 {
      var i1, j1, i2, j2 := offA1 + len1 - 1, offB1 + len1 - 1, offA2 + len1 - 1, offB2 + len1 - 1;
      assert 0 <= i1 < |a| && 0 <= j1 < |b| && Ending(a, b, i1, j1) == len1;
      assert 0 <= i2 < |a| && 0 <= j2 < |b| && Ending(a, b, i2, j2) == len1;
      NothingLongerBefore(a, b, len1, offA1, offB1, i2, j2);
      NothingLongerBefore(a, b, len1, offA2, offB2, i1, j1);
      assert i1 == i2 && j1 == j2;
    }
  }

  /** Comparing a non-empty file with itself reports the whole file at offsets (0, 0). */
  lemma FirstLongestSelf(a: seq<Byte>, len: nat, offA: int, offB: int)
    requires |a| > 0 && IsFirstLongest(a, a, len, offA, offB)
    ensures len == |a| && offA == 0 && offB == 0
  {
    FirstLongestIsLongest(a, a, len, offA, offB);
    LongestCommonRunSelf(a);
  }
}
