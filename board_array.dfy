/** The board as the source holds it: a mutable 6 x 7 grid (a list of row
    lists in Python, an array2 here), its value as a Grid, the row-by-row
    copy the search and block_player_move take, and the nested-loop scan
    that check_win and the smart agent's check_* functions share. */
module BoardArray {
  import opened Board
  import opened Lines

  predicate Shaped(b: array2<int>) {
    b.Length0 == Rows && b.Length1 == Cols
  }

  /** The current contents of the board as a value. */
  function Cells(b: array2<int>): (g: Grid)
    reads b
    requires Shaped(b)
    ensures WellFormed(g)
    ensures forall r, c :: InBoard(r, c) ==> g[r][c] == b[r, c]
  {
    seq(Rows, r requires 0 <= r < Rows reads b => seq(Cols, c requires 0 <= c < Cols reads b => b[r, c]))
  }

  /** [row[:] for row in board]: a fresh board with the same cells. */
  method Copy(b: array2<int>) returns (t: array2<int>)
    requires Shaped(b)
    ensures fresh(t) && Shaped(t)
    ensures Cells(t) == Cells(b)
  {
    t := new int[Rows, Cols]((r, c) reads b => if 0 <= r < Rows && 0 <= c < Cols then b[r, c] else Empty);
    Extensionality(Cells(t), Cells(b));
  }

  /** The list of the n cells of a line, read from the board. */
  function ArrayWindow(b: array2<int>, d: Direction, r: int, c: int, n: int): (w: seq<int>)
    reads b
    requires Shaped(b) && Fits(d, r, c, n)
    ensures w == Window(Cells(b), d, r, c, n)
  {
    var w := seq(n, k requires 0 <= k < n reads b => b[RowOf(d, r, k), ColOf(d, c, k)]);
    assert forall k :: 0 <= k < n ==> w[k] == Window(Cells(b), d, r, c, n)[k];
    w
  }

  /** No line in direction d visited before loop indices (i, j) matches. */
  ghost predicate NoMatchBefore(g: Grid, d: Direction, pat: Pattern, i: int, j: int)
    requires WellFormed(g)
  {
    forall r, c :: Fits(d, r, c, Len(pat)) && (OuterIndex(d, r, c) < i || (OuterIndex(d, r, c) == i && InnerIndex(d, r, c) < j)) ==>
      !Matches(Window(g, d, r, c, Len(pat)), pat)
  }

  /** A visited line that does not match extends the scanned prefix. */
  lemma NoMatchStep(g: Grid, d: Direction, pat: Pattern, i: int, j: int)
    requires WellFormed(g) && Visits(d, Len(pat), i, j) && NoMatchBefore(g, d, pat, i, j)
    requires !Matches(Window(g, d, AnchorRow(d, i, j), AnchorCol(d, i, j), Len(pat)), pat)
    ensures NoMatchBefore(g, d, pat, i, j + 1)
  {
    forall r, c | Fits(d, r, c, Len(pat)) && OuterIndex(d, r, c) == i && InnerIndex(d, r, c) == j
      ensures !Matches(Window(g, d, r, c, Len(pat)), pat)
    {
      ScanIsExact(d, Len(pat), r, c, i, j);
    }
  }

  /** Finishing the inner loop finishes row (or column) i of the scan. */
  lemma NoMatchNextOuter(g: Grid, d: Direction, pat: Pattern, i: int)
    requires WellFormed(g) && NoMatchBefore(g, d, pat, i, InnerHi(d, Len(pat)))
    ensures NoMatchBefore(g, d, pat, i + 1, 0)
  {
    forall r, c | Fits(d, r, c, Len(pat)) && OuterIndex(d, r, c) == i
      ensures !Matches(Window(g, d, r, c, Len(pat)), pat)
    {
      ScanIsExact(d, Len(pat), r, c, 0, 0);
    }
  }

  /** Once the outer loop is done, no line in direction d matches. */
  lemma NoMatchAtEnd(g: Grid, d: Direction, pat: Pattern)
    requires WellFormed(g) && NoMatchBefore(g, d, pat, OuterHi(d, Len(pat)), 0)
    ensures !LineIn(g, d, pat)
  {
    forall r, c | Fits(d, r, c, Len(pat))
      ensures !Matches(Window(g, d, r, c, Len(pat)), pat)
    {
      ScanIsExact(d, Len(pat), r, c, 0, 0);
    }
  }

  /** One direction's nested scan loops with early exit: reports whether some
      on-board line in direction d matches the pattern. */
  method FindLine(b: array2<int>, d: Direction, pat: Pattern) returns (found: bool)
    requires Shaped(b)
    ensures found == LineIn(Cells(b), d, pat)
  {
    ghost var g := Cells(b);
    var n := Len(pat);
    var i := OuterLo(d, n);
    while i < OuterHi(d, n)
      invariant OuterLo(d, n) <= i <= OuterHi(d, n)
      invariant NoMatchBefore(g, d, pat, i, 0)
    {
      var j := 0;
      while j < InnerHi(d, n)
        invariant 0 <= j <= InnerHi(d, n)
        invariant NoMatchBefore(g, d, pat, i, j)
      {
        ScanIsExact(d, n, 0, 0, i, j);
        var r, c := AnchorRow(d, i, j), AnchorCol(d, i, j);
        var w := ArrayWindow(b, d, r, c, n);
        if Matches(w, pat) {
          assert Fits(d, r, c, n) && Matches(Window(g, d, r, c, n), pat);
          return true;
        }
        NoMatchStep(g, d, pat, i, j);
        j := j + 1;
      }
      NoMatchNextOuter(g, d, pat, i);
      i := i + 1;
    }
    NoMatchAtEnd(g, d, pat);
    return false;
  }
}
