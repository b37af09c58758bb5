/**
 * The row partitioner: the images are sorted tallest first and the sorted
 * list is cut into numberOfRows consecutive slices whose lengths differ by at
 * most one, the longer slices coming first.
 */
module Partition {
  import opened Geometry

  /** Heights never increase from one image to the next. */
  predicate HeightsNonIncreasing(s: seq<Image>)
  {
    forall i, j :: 0 <= i < j < |s| ==> ImageHeight(s[i]) >= ImageHeight(s[j])
  }

  method Swap(a: array<Image>, i: int, j: int)
    requires 0 <= i < a.Length && 0 <= j < a.Length
    modifies a
    ensures a[..] == old(a[..])[i := old(a[j])][j := old(a[i])]
    ensures multiset(a[..]) == old(multiset(a[..]))
  {
    a[i], a[j] := a[j], a[i];
  }

  /**
   * Sorts the images in place, tallest first. The order among images of equal
   * height is left open: any such permutation satisfies the contract.
   */
  method SortByHeight(a: array<Image>)
    modifies a
    ensures HeightsNonIncreasing(a[..])
    ensures multiset(a[..]) == old(multiset(a[..]))
  {
    for i := 0 to a.Length
      invariant HeightsNonIncreasing(a[..i])
      invariant forall k, l :: 0 <= k < i <= l < a.Length ==> ImageHeight(a[k]) >= ImageHeight(a[l])
      invariant multiset(a[..]) == old(multiset(a[..]))
    {
      var tallest := i;
      for j := i + 1 to a.Length
        invariant i <= tallest < a.Length
        invariant forall l :: i <= l < j ==> ImageHeight(a[tallest]) >= ImageHeight(a[l])
      {
        if ImageHeight(a[j]) > ImageHeight(a[tallest]) {
          tallest := j;
        }
      }
      Swap(a, i, tallest);
    }
  }

  /** Number of images in row idx when n images are cut into rows rows. */
  function RowLength(n: nat, rows: nat, idx: nat): nat
    requires rows >= 1
  {
    n / rows + (if idx < n % rows then 1 else 0)
  }

  /** Index in the sorted list of the first image of row idx. */
  function RowStart(n: nat, rows: nat, idx: nat): nat
    requires rows >= 1
  {
    idx * (n / rows) + Min(idx, n % rows)
  }

  /** The longest row's length: one more than n / rows when the division leaves a remainder. */
  function MaxColumns(n: nat, rows: nat): nat
    requires rows >= 1
  {
    n / rows + (if n % rows > 0 then 1 else 0)
  }

  /** Row idx ends where row idx + 1 starts, and the last row ends at n. */
  lemma {:induction false} RowsAreConsecutive(n: nat, rows: nat, idx: nat)
    requires rows >= 1 && idx < rows
    ensures RowStart(n, rows, idx) + RowLength(n, rows, idx) == RowStart(n, rows, idx + 1)
    ensures RowStart(n, rows, idx + 1) <= n
    ensures RowStart(n, rows, rows) == n
  {
    var b, rem := n / rows, n % rows;
    DivisionParts(n, rows);
    MulStep(idx, b);
    MulMonotone(idx + 1, rows, b);
  }

  /** n is rows whole shares of n / rows plus the remainder n % rows. */
  lemma DivisionParts(n: nat, rows: nat)
    requires rows >= 1
    ensures n == rows * (n / rows) + n % rows && n % rows < rows
  {
  }

  lemma MulStep(a: nat, b: nat)
    ensures (a + 1) * b == a * b + b
  {
  }

  lemma MulMonotone(a: nat, c: nat, b: nat)
    requires a <= c
    ensures a * b <= c * b
  {
  }

  /**
   * The source's test for giving row idx an extra image: a remainder exists and
   * the rows left, at the base length each, would not hold the images left.
   * It holds exactly for the first n % rows rows.
   */
  lemma {:induction false} ExtraColumnTest(n: nat, rows: nat, idx: nat)
    requires rows >= 1 && idx < rows
    ensures (n % rows > 0 && (rows - idx) * (n / rows) < n - RowStart(n, rows, idx)) <==> idx < n % rows
  {
    var b, rem := n / rows, n % rows;
    assert rows * b + rem == n;
    assert (rows - idx) * b == rows * b - idx * b;
    assert n - RowStart(n, rows, idx) == (rows - idx) * b + rem - Min(idx, rem);
  }

  /** The rows: consecutive slices of the sorted list, RowLength long each. */
  function Rows(s: seq<Image>, rows: nat): (m: seq<seq<Image>>)
    requires rows >= 1
    ensures |m| == rows
    ensures forall i :: 0 <= i < rows ==> |m[i]| == RowLength(|s|, rows, i)
  {
    seq(rows, i requires 0 <= i < rows => Row(s, rows, i))
  }

  /** Row idx of the sorted list. */
  function Row(s: seq<Image>, rows: nat, idx: nat): (r: seq<Image>)
    requires rows >= 1 && idx < rows
    ensures |r| == RowLength(|s|, rows, idx)
  {
    RowsAreConsecutive(|s|, rows, idx);
    s[RowStart(|s|, rows, idx)..RowStart(|s|, rows, idx + 1)]
  }

  /** Image j of row idx is image RowStart(idx) + j of the sorted list. */
  lemma RowAt(s: seq<Image>, rows: nat, idx: nat, j: nat)
    requires rows >= 1 && idx < rows && j < |Rows(s, rows)[idx]|
    ensures RowStart(|s|, rows, idx) + j < |s|
    ensures Rows(s, rows)[idx][j] == s[RowStart(|s|, rows, idx) + j]
  {
    RowsAreConsecutive(|s|, rows, idx);
    assert Rows(s, rows)[idx] == s[RowStart(|s|, rows, idx)..RowStart(|s|, rows, idx + 1)];
  }

  /** Concatenation of a sequence of rows. */
  function Flatten<T>(m: seq<seq<T>>): seq<T>
  {
    if |m| == 0 then [] else Flatten(m[..|m| - 1]) + m[|m| - 1]
  }

  /** The first k rows together are the first RowStart(k) sorted images. */
  lemma {:induction false} RowsPrefixCover(s: seq<Image>, rows: nat, k: nat)
    requires rows >= 1 && k <= rows
    ensures RowStart(|s|, rows, k) <= |s|
    ensures Flatten(Rows(s, rows)[..k]) == s[..RowStart(|s|, rows, k)]
  {
    if k == 0 {
      assert s[..RowStart(|s|, rows, 0)] == [];
    } else {
      RowsPrefixCover(s, rows, k - 1);
      RowsAreConsecutive(|s|, rows, k - 1);
      var m := Rows(s, rows);
      assert m[..k][..k - 1] == m[..k - 1];
      var a, b := RowStart(|s|, rows, k - 1), RowStart(|s|, rows, k);
      assert s[..b] == s[..a] + s[a..b];
    }
  }

  /** The rows cover the sorted list exactly, in order, without overlap. */
  lemma RowsCover(s: seq<Image>, rows: nat)
    requires rows >= 1
    ensures Flatten(Rows(s, rows)) == s
  {
    RowsPrefixCover(s, rows, rows);
    RowsAreConsecutive(|s|, rows, 0);
    assert Rows(s, rows)[..rows] == Rows(s, rows);
  }

  /** Row 0 is a longest row, and its length is MaxColumns. */
  lemma {:induction false} FirstRowIsLongest(n: nat, rows: nat, idx: nat)
    requires rows >= 1 && idx < rows
    ensures RowLength(n, rows, idx) <= RowLength(n, rows, 0) == MaxColumns(n, rows)
  {
  }

  /** A row is never longer than a row above it. */
  lemma RowLengthsNonIncreasing(n: nat, rows: nat, i: nat, j: nat)
    requires rows >= 1 && i <= j < rows
    ensures RowLength(n, rows, j) <= RowLength(n, rows, i)
  {
  }

  /** Sorting first makes every image of a row at least as tall as every image of a later row. */
  lemma {:induction false} EarlierRowsAreTaller(s: seq<Image>, rows: nat, i: nat, j: nat, a: nat, b: nat)
    requires rows >= 1 && HeightsNonIncreasing(s)
    requires i < j < rows
    requires a < |Rows(s, rows)[i]| && b < |Rows(s, rows)[j]|
    ensures ImageHeight(Rows(s, rows)[i][a]) >= ImageHeight(Rows(s, rows)[j][b])
  {
    var n := |s|;
    RowsAreConsecutive(n, rows, i);
    StartsIncrease(n, rows, i + 1, j);
    RowAt(s, rows, i, a);
    RowAt(s, rows, j, b);
  }

  lemma StartsIncrease(n: nat, rows: nat, i: nat, j: nat)
    requires rows >= 1 && i <= j
    ensures RowStart(n, rows, i) <= RowStart(n, rows, j)
  {
    assert i * (n / rows) <= j * (n / rows);
  }

  /**
   * The partitioning loop: walks the rows with a running index into the sorted
   * list, gives each row its slice and keeps the longest row length seen.
   */
  method PartitionRows(images: seq<Image>, numberOfRows: nat) returns (matrix: array<seq<Image>>, maxNumberOfColumns: nat)
    requires numberOfRows >= 1
    ensures matrix.Length == numberOfRows
    ensures matrix[..] == Rows(images, numberOfRows)
    ensures maxNumberOfColumns == MaxColumns(|images|, numberOfRows)
    ensures forall i :: 0 <= i < numberOfRows ==> |matrix[i]| <= maxNumberOfColumns == |matrix[0]|
  {
    var n := |images|;
    var numberOfColumns := n / numberOfRows;
    matrix := new seq<Image>[numberOfRows];
    var currentIndex := 0;
    maxNumberOfColumns := 0;
    for idx := 0 to numberOfRows
      invariant currentIndex == RowStart(n, numberOfRows, idx) <= n
      invariant forall i :: 0 <= i < idx ==> matrix[i] == Rows(images, numberOfRows)[i]
      invariant maxNumberOfColumns == if idx == 0 then 0 else RowLength(n, numberOfRows, 0)
    {
      ExtraColumnTest(n, numberOfRows, idx);
      RowsAreConsecutive(n, numberOfRows, idx);
      FirstRowIsLongest(n, numberOfRows, idx);
      var columnsInRow := numberOfColumns;
      if n % numberOfRows > 0 && (numberOfRows - idx) * numberOfColumns < n - currentIndex {
        columnsInRow := columnsInRow + 1;
      }
      if columnsInRow > maxNumberOfColumns {
        maxNumberOfColumns := columnsInRow;
      }
      matrix[idx] := images[currentIndex..currentIndex + columnsInRow];
      currentIndex := currentIndex + columnsInRow;
    }
    FirstRowIsLongest(n, numberOfRows, 0);
    forall i | 0 <= i < numberOfRows
      ensures |matrix[i]| <= maxNumberOfColumns
    {
      FirstRowIsLongest(n, numberOfRows, i);
    }
  }
}
