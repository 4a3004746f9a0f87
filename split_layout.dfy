/** The specification of `Split`: where each input element lands in the
    `splitBy` x `splitBy` grid. Rows are filled left to right, and a row is
    left after `w` elements, where `w` is `RowWidth` (C#'s
    `(count - 1) / splitBy`, plus one). */
module SplitLayout {
  import opened Values

  /** The number of elements `Split` puts in each row before moving on: the
      loop moves to the next row when its column counter reaches
      `(n - 1) / s` under C#'s truncating division. For `n >= 1` rows of this
      width fit the grid and hold every element. */
  function RowWidth(n: nat, s: int): (w: int)
    requires 0 < s && n <= s * s
    ensures 0 < n ==> 1 <= w && w - 1 == (n - 1) / s
    ensures 0 <= w <= s
    ensures n <= s * w
  {
    TruncDiv(n - 1, s) + 1
  }

  /** The content of cell `(r, c)` once the elements of `a` have been laid
      out in rows of width `w`: element `r * w + c` when it exists and `c`
      lies inside the row, `dflt` otherwise. */
  function Placed<T>(a: seq<T>, w: int, r: nat, c: nat, dflt: T): (cell: T)
  {
    if c < w && r * w + c < |a| then a[r * w + c] else dflt
  }

  /** Row `r`, `s` cells long, of that layout. */
  function Row<T>(a: seq<T>, w: int, r: nat, s: nat, dflt: T): (row: seq<T>)
    ensures |row| == s
  {
    seq(s, c requires 0 <= c < s => Placed(a, w, r, c, dflt))
  }

  /** The grid `Split(a, s)` returns, with `dflt` for `default(T)`. */
  function SplitGrid<T>(a: seq<T>, s: int, dflt: T): (grid: seq<seq<T>>)
    requires 0 < s && |a| <= s * s
    ensures |grid| == s
    ensures forall r :: 0 <= r < s ==> |grid[r]| == s
  {
    var w := RowWidth(|a|, s);
    seq(s, r requires 0 <= r < s => Row(a, w, r, s, dflt))
  }

  /** Row and column of element `k` when rows have width `w`. */
  function SlotOf(k: nat, w: int): (slot: (int, int))
    requires 0 < w
    ensures 0 <= slot.0 && 0 <= slot.1 < w
    ensures slot.0 * w + slot.1 == k
  {
    (k / w, k % w)
  }

  /** Writing `r * w + c` with `0 <= c < w` names one slot only. */
  lemma SlotUnique(w: int, r: int, c: int, r': int, c': int)
    requires 0 < w && 0 <= r && 0 <= r'
    requires 0 <= c < w && 0 <= c' < w
    requires r * w + c == r' * w + c'
    ensures r == r' && c == c'
  {
    if r < r' {
      MulLess(r, r', w);
      assert false;
    } else if r' < r {
      MulLess(r', r, w);
      assert false;
    }
  }

  /** One more row is at least `w` more elements. */
  lemma MulLess(r: int, r': int, w: int)
    requires 0 < w && 0 <= r < r'
    ensures r * w + w <= r' * w
  {
    var d := r' - r;
    MulDistributes(r, d, w);
    MulAtLeast(d, w);
  }

  /** Multiplication distributes over addition. */
  lemma MulDistributes(a: int, b: int, w: int)
    ensures (a + b) * w == a * w + b * w
  {
  }

  /** A positive multiple of `w` is at least `w`. */
  lemma {:induction false} MulAtLeast(d: int, w: int)
    requires 1 <= d && 0 < w
    ensures w <= d * w
  {
    if d > 1 {
      MulAtLeast(d - 1, w);
      MulDistributes(d - 1, 1, w);
    }
  }

  /** A slot `(r, c)` with `r * w + c < s * w` lies in one of the first `s`
      rows. */
  lemma RowInGrid(w: int, r: int, c: int, s: int)
    requires 0 < w && 0 <= r && 0 <= c && 0 <= s
    requires r * w + c < s * w
    ensures r < s
  {
    if s < r {
      MulLess(s, r, w);
      assert false;
    }
  }

  /** Laying out one more element, number `e`, changes only its own slot
      `(i, j)`. */
  lemma PlacedStep<T>(a: seq<T>, w: int, e: nat, i: nat, j: nat, r: nat, c: nat, dflt: T)
    requires e < |a| && e == i * w + j && j < w
    ensures Placed(a[..e + 1], w, r, c, dflt) ==
            if r == i && c == j then a[e] else Placed(a[..e], w, r, c, dflt)
  {
    if (r != i || c != j) && c < w && r * w + c == e {
      SlotUnique(w, r, c, i, j);
    }
  }

  /** Laying out element `e` at slot `(i, j)` updates one cell of row `i`
      and no other row. */
  lemma RowStep<T>(a: seq<T>, w: int, e: nat, i: nat, j: nat, r: nat, s: nat, dflt: T)
    requires e < |a| && e == i * w + j && j < w && j < s
    ensures Row(a[..e + 1], w, r, s, dflt) ==
            if r == i then Row(a[..e], w, r, s, dflt)[j := a[e]] else Row(a[..e], w, r, s, dflt)
  {
    var before, after := Row(a[..e], w, r, s, dflt), Row(a[..e + 1], w, r, s, dflt);
    if r == i {
      forall c | 0 <= c < s
        ensures after[c] == before[j := a[e]][c]
      {
        PlacedStep(a, w, e, i, j, r, c, dflt);
      }
    } else {
      forall c | 0 <= c < s
        ensures after[c] == before[c]
      {
        PlacedStep(a, w, e, i, j, r, c, dflt);
      }
    }
  }

  /** Element `k` of the input sits at row `k / w`, column `k % w`, inside
      the grid. */
  lemma {:induction false} SplitPlacement<T>(a: seq<T>, s: int, dflt: T, k: nat)
    requires 0 < s && |a| <= s * s
    requires k < |a|
    ensures var w := RowWidth(|a|, s);
            var (r, c) := SlotOf(k, w);
            r < s && c < s && SplitGrid(a, s, dflt)[r][c] == a[k]
  {
    var w := RowWidth(|a|, s);
    var (r, c) := SlotOf(k, w);
    RowInGrid(w, r, c, s);
  }

  /** Every cell that no input element is mapped to holds `dflt`. */
  lemma {:induction false} SplitPadding<T>(a: seq<T>, s: int, dflt: T, r: nat, c: nat)
    requires 0 < s && |a| <= s * s
    requires r < s && c < s
    requires forall k :: 0 <= k < |a| ==> SlotOf(k, RowWidth(|a|, s)) != (r, c)
    ensures SplitGrid(a, s, dflt)[r][c] == dflt
  {
    var w := RowWidth(|a|, s);
    if c < w && r * w + c < |a| {
      var k := r * w + c;
      var slot := SlotOf(k, w);
      SlotUnique(w, slot.0, slot.1, r, c);
      assert false;
    }
  }

  /** Seven elements split by three: `[1,2,3]`, `[4,5,6]`, `[7,0,0]`. */
  lemma SplitSevenByThree()
    ensures SplitGrid([1, 2, 3, 4, 5, 6, 7], 3, 0) == [[1, 2, 3], [4, 5, 6], [7, 0, 0]]
  {
    var a := [1, 2, 3, 4, 5, 6, 7];
    var grid := SplitGrid(a, 3, 0);
    assert RowWidth(7, 3) == 3;
    assert grid[0] == [1, 2, 3];
    assert grid[1] == [4, 5, 6];
    assert grid[2] == [7, 0, 0];
  }

  /** Four elements split by three fill rows of two: `[1,2,0]`, `[3,4,0]`,
      `[0,0,0]`. */
  lemma SplitFourByThree()
    ensures SplitGrid([1, 2, 3, 4], 3, 0) == [[1, 2, 0], [3, 4, 0], [0, 0, 0]]
  {
    var grid := SplitGrid([1, 2, 3, 4], 3, 0);
    assert RowWidth(4, 3) == 2;
    assert grid[0] == [1, 2, 0];
    assert grid[1] == [3, 4, 0];
    assert grid[2] == [0, 0, 0];
  }
}
