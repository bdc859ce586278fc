/** Straight lines of cells on the board: the 4-cell windows of check_win and
    evaluate_board and the 3-cell windows of the smart agent's setup checks,
    together with the order in which the source's nested loops visit them. */
module Lines {
  import opened Board

  /** Horizontal: (r, c+i).  Vertical: (r+i, c).  Diagonal: (r+i, c+i), the
      source's "positive diagonal" (down-right, row 0 being the top).
      AntiDiagonal: (r-i, c+i), its "negative diagonal" (up-right). */
  datatype Direction = Horizontal | Vertical | Diagonal | AntiDiagonal

  /** Row and column of the k-th cell of the line from (r, c) in direction d. */
  function RowOf(d: Direction, r: int, k: int): int {
    match d
    case Horizontal => r
    case Vertical => r + k
    case Diagonal => r + k
    case AntiDiagonal => r - k
  }

  function ColOf(d: Direction, c: int, k: int): int {
    if d == Vertical then c else c + k
  }

  /** All n cells of the line from (r, c) in direction d lie on the board. */
  predicate Fits(d: Direction, r: int, c: int, n: int) {
    n > 0 && InBoard(r, c) && InBoard(RowOf(d, r, n - 1), ColOf(d, c, n - 1))
  }

  /** The list of the n cells of the line, first cell first, as the source's
      list comprehensions and row slices build it. */
  function Window(g: Grid, d: Direction, r: int, c: int, n: int): (w: seq<int>)
    requires WellFormed(g) && Fits(d, r, c, n)
    ensures |w| == n
    ensures forall k :: 0 <= k < n ==> w[k] == g[RowOf(d, r, k)][ColOf(d, c, k)]
  {
    seq(n, k requires 0 <= k < n => g[RowOf(d, r, k)][ColOf(d, c, k)])
  }

  /** Python's list.count. */
  function Count(w: seq<int>, x: int): (n: nat)
    ensures n <= |w|
  {
    if |w| == 0 then 0 else (if w[0] == x then 1 else 0) + Count(w[1..], x)
  }

  /** What a scan looks for in each window. */
  datatype Pattern =
    | Four(p: int)       // check_win: all four cells hold p
    | TwoAndGap(p: int)  // check_horizontal and friends: two of p and one empty in three cells

  function Len(pat: Pattern): int {
    if pat.Four? then 4 else 3
  }

  predicate Matches(w: seq<int>, pat: Pattern) {
    match pat
    case Four(p) => forall k :: 0 <= k < |w| ==> w[k] == p
    case TwoAndGap(p) => Count(w, p) == 2 && Count(w, Empty) == 1
  }

  /** Some on-board line in direction d matches the pattern. */
  ghost predicate LineIn(g: Grid, d: Direction, pat: Pattern)
    requires WellFormed(g)
  {
    exists r, c :: Fits(d, r, c, Len(pat)) && Matches(Window(g, d, r, c, Len(pat)), pat)
  }

  /** The line detector's specification: player p owns all four cells of some
      horizontal, vertical or diagonal line anywhere on the board. */
  ghost predicate HasFour(g: Grid, p: int)
    requires WellFormed(g)
  {
    exists d :: LineIn(g, d, Four(p))
  }

  /** can_create_setup's specification: some 3-cell line in one of the four
      directions holds exactly two of p's pieces and one empty cell. */
  ghost predicate HasSetup(g: Grid, p: int)
    requires WellFormed(g)
  {
    exists d :: LineIn(g, d, TwoAndGap(p))
  }

  /* The source scans the windows of one direction with two nested loops:
     an outer index i in [OuterLo, OuterHi) and an inner index j in
     [0, InnerHi).  The vertical scan runs over columns outside and rows
     inside; the other three over rows outside and columns inside. */

  function OuterLo(d: Direction, n: int): int {
    if d == AntiDiagonal then n - 1 else 0
  }

  function OuterHi(d: Direction, n: int): int {
    match d
    case Horizontal => Rows
    case Vertical => Cols
    case Diagonal => Rows - n + 1
    case AntiDiagonal => Rows
  }

  function InnerHi(d: Direction, n: int): int {
    if d == Vertical then Rows - n + 1 else Cols - n + 1
  }

  /** The start cell of the window visited at loop indices (i, j). */
  function AnchorRow(d: Direction, i: int, j: int): int {
    if d == Vertical then j else i
  }

  function AnchorCol(d: Direction, i: int, j: int): int {
    if d == Vertical then i else j
  }

  /** The loop indices at which the window starting at (r, c) is visited. */
  function OuterIndex(d: Direction, r: int, c: int): int {
    if d == Vertical then c else r
  }

  function InnerIndex(d: Direction, r: int, c: int): int {
    if d == Vertical then r else c
  }

  predicate Visits(d: Direction, n: int, i: int, j: int) {
    OuterLo(d, n) <= i < OuterHi(d, n) && 0 <= j < InnerHi(d, n)
  }

  /** The loop bounds of the scans are exact: for every window length the
      loops visit each on-board line once, and nothing else. */
  lemma ScanIsExact(d: Direction, n: int, r: int, c: int, i: int, j: int)
    requires n > 0
    ensures Visits(d, n, i, j) ==> Fits(d, AnchorRow(d, i, j), AnchorCol(d, i, j), n)
    ensures Fits(d, r, c, n) ==> Visits(d, n, OuterIndex(d, r, c), InnerIndex(d, r, c))
    ensures AnchorRow(d, OuterIndex(d, r, c), InnerIndex(d, r, c)) == r
    ensures AnchorCol(d, OuterIndex(d, r, c), InnerIndex(d, r, c)) == c
  {
  }

  /** The counts of distinct values never exceed the length together. */
  lemma {:induction false} CountsDisjoint(w: seq<int>, x: int, y: int, z: int)
    requires x != y && y != z && x != z
    ensures Count(w, x) + Count(w, y) + Count(w, z) <= |w|
    ensures (forall k :: 0 <= k < |w| ==> w[k] == x || w[k] == y || w[k] == z) ==>
      Count(w, x) + Count(w, y) + Count(w, z) == |w|
  {
    if |w| > 0 {
      CountsDisjoint(w[1..], x, y, z);
      assert forall k :: 1 <= k < |w| ==> w[1..][k - 1] == w[k];
    }
  }

  /** A window is all p exactly when p occurs in every one of its cells. */
  lemma {:induction false} CountFull(w: seq<int>, p: int)
    ensures Count(w, p) == |w| <==> forall k :: 0 <= k < |w| ==> w[k] == p
  {
    if |w| > 0 {
      CountFull(w[1..], p);
      assert forall k :: 1 <= k < |w| ==> w[1..][k - 1] == w[k];
    }
  }
}
