/** The client example's matrix product on flat row-major arrays, in row, k, column order. */
module Matrix {
  /** Where a row starts. */
  function Line(row: nat, n: nat): nat
  {
    row * n
  }

  lemma LinesFollow(r: nat, row: nat, n: nat)
    requires r < row
    ensures Line(r, n) + n <= Line(row, n)
  {
    MulNonNegative(row - r - 1, n);
    assert row * n == r * n + (row - r - 1) * n + n;
  }

  lemma MulNonNegative(x: nat, y: nat)
    ensures x * y >= 0
  {
  }

  /** A cell of the matrix lies inside its array. */
  function Index(row: nat, col: nat, n: nat): (i: nat)
    requires row < n && col < n
    ensures Line(row, n) <= i < Line(row, n) + n && i < n * n
  {
    LinesFollow(row, n, n);
    Line(row, n) + col
  }

  /** A cell lies in the line of its own row and in no other. */
  lemma IndexPlace(r: nat, col: nat, row: nat, n: nat)
    requires r < n && col < n && row < n
    ensures if r == row then Index(r, col, n) == Line(row, n) + col
            else !(Line(row, n) <= Index(r, col, n) < Line(row, n) + n)
    ensures Line(row, n) + n <= n * n
  {
    LinesFollow(row, n, n);
    if r < row {
      LinesFollow(r, row, n);
    } else if row < r {
      LinesFollow(row, r, n);
    }
  }

  /** The sum of a[row,t] * b[t,col] over t < k. */
  ghost function Dot(a: seq<real>, b: seq<real>, n: nat, row: nat, col: nat, k: nat): real
    requires |a| == |b| == n * n && row < n && col < n && k <= n
  {
    if k == 0 then 0.0
    else Dot(a, b, n, row, col, k - 1) + a[Index(row, k - 1, n)] * b[Index(k - 1, col, n)]
  }

  /** Terms a cell of row r has received when the loops stand at row and k. */
  function Terms(r: nat, row: nat, k: nat, n: nat): nat
  {
    if r < row then n else if r == row then k else 0
  }

  /** The cell holds what it held at first plus the terms it has received. */
  ghost predicate CellIs(a: seq<real>, b: seq<real>, c: seq<real>, was: seq<real>, n: nat, row: nat, k: nat,
                         r: nat, col: nat)
    requires |a| == |b| == |c| == |was| == n * n && r < n && col < n && k <= n
  {
    c[Index(r, col, n)] == was[Index(r, col, n)] + Dot(a, b, n, r, col, Terms(r, row, k, n))
  }

  /** The inner loop: one element of a times one line of b is added to one line of c. */
  method AddScaledLine(a: array<real>, b: array<real>, c: array<real>, n: nat, rowIdx: nat, currCol: nat, currLine: nat)
    requires rowIdx < a.Length && currCol + n <= b.Length && currLine + n <= c.Length
    requires c != a && c != b
    modifies c
    ensures forall p :: 0 <= p < c.Length ==>
      c[p] == old(c[p]) + if currLine <= p < currLine + n then a[rowIdx] * b[currCol + (p - currLine)] else 0.0
  {
    for col := 0 to n
      invariant forall p :: 0 <= p < c.Length ==>
        c[p] == old(c[p]) + if currLine <= p < currLine + col then a[rowIdx] * b[currCol + (p - currLine)] else 0.0
    {
      var colIdx := currCol + col;
      c[currLine + col] := c[currLine + col] + a[rowIdx] * b[colIdx];
    }
  }

  /** All three loops: every cell of c grows by the full product; a and b stay as they are. */
  method Multiply(a: array<real>, b: array<real>, c: array<real>, n: nat)
    requires a.Length == b.Length == c.Length == n * n
    requires c != a && c != b
    modifies c
    ensures forall row, col :: 0 <= row < n && 0 <= col < n ==>
      c[Index(row, col, n)] == old(c[Index(row, col, n)]) + Dot(old(a[..]), old(b[..]), n, row, col, n)
    ensures a[..] == old(a[..]) && b[..] == old(b[..])
  {
    hide Index, Dot, CellIs;
    ghost var A, B, was := a[..], b[..], c[..];
    StartCells(A, B, was, n);
    for row := 0 to n
      invariant a[..] == A && b[..] == B
      invariant forall r, col :: 0 <= r < n && 0 <= col < n ==> CellIs(A, B, c[..], was, n, row, 0, r, col)
    {
      var currLine := row * n;
      for k := 0 to n
        invariant a[..] == A && b[..] == B
        invariant forall r, col :: 0 <= r < n && 0 <= col < n ==> CellIs(A, B, c[..], was, n, row, k, r, col)
      {
        ghost var before, done := c[..], k + 1;
        IndexPlace(row, k, row, n);
        IndexPlace(k, k, k, n);
        var rowIdx := currLine + k;
        var currCol := n * k;
        assert currCol == Line(k, n);
        AddScaledLine(a, b, c, n, rowIdx, currCol, currLine);
        forall r, col | 0 <= r < n && 0 <= col < n ensures CellIs(A, B, c[..], was, n, row, done, r, col) {
          IndexPlace(r, col, row, n);
          IndexPlace(k, col, k, n);
          NextTerm(A, B, before, c[..], was, n, row, k, r, col);
        }
      }
      ghost var next := row + 1;
      forall r, col | 0 <= r < n && 0 <= col < n ensures CellIs(A, B, c[..], was, n, next, 0, r, col) {
        assert CellIs(A, B, c[..], was, n, row, n, r, col);
        NextRow(A, B, c[..], was, n, row, r, col);
      }
    }
    forall row, col | 0 <= row < n && 0 <= col < n
      ensures c[Index(row, col, n)] == old(c[Index(row, col, n)]) + Dot(A, B, n, row, col, n)
    {
      FinishedCell(A, B, c[..], was, n, row, col);
    }
  }

  lemma StartCells(a: seq<real>, b: seq<real>, was: seq<real>, n: nat)
    requires |a| == |b| == |was| == n * n
    ensures forall r, col :: 0 <= r < n && 0 <= col < n ==> CellIs(a, b, was, was, n, 0, 0, r, col)
  {
  }

  lemma NextTerm(a: seq<real>, b: seq<real>, before: seq<real>, c: seq<real>, was: seq<real>,
                 n: nat, row: nat, k: nat, r: nat, col: nat)
    requires |a| == |b| == |c| == |before| == |was| == n * n && row < n && k < n && r < n && col < n
    requires CellIs(a, b, before, was, n, row, k, r, col)
    requires c[Index(r, col, n)] == before[Index(r, col, n)]
      + if r == row then a[Index(row, k, n)] * b[Index(k, col, n)] else 0.0
    ensures CellIs(a, b, c, was, n, row, k + 1, r, col)
  {
  }

  lemma NextRow(a: seq<real>, b: seq<real>, c: seq<real>, was: seq<real>, n: nat, row: nat, r: nat, col: nat)
    requires |a| == |b| == |c| == |was| == n * n && row < n && r < n && col < n
    requires CellIs(a, b, c, was, n, row, n, r, col)
    ensures CellIs(a, b, c, was, n, row + 1, 0, r, col)
  {
  }

  lemma FinishedCell(a: seq<real>, b: seq<real>, c: seq<real>, was: seq<real>, n: nat, row: nat, col: nat)
    requires |a| == |b| == |c| == |was| == n * n && row < n && col < n
    requires CellIs(a, b, c, was, n, n, 0, row, col)
    ensures c[Index(row, col, n)] == was[Index(row, col, n)] + Dot(a, b, n, row, col, n)
  {
  }
}
