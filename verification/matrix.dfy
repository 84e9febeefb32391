/** The matrix-product kernel of the loop-order benchmark: flat row-major
    buffers addressed through Idx, the deterministic fill, the zeroing of the
    output and the six nestings of the i/j/k loops. Cells are exact reals. */
module MatrixKernel {

  /** The six nestings of the row (i), column (j) and reduction (k) loops,
      outermost first. */
  datatype Order = IJK | IKJ | KIJ | KJI | JIK | JKI

  /** The orders in the sequence the sweep times them. */
  const AllOrders: seq<Order> := [IJK, IKJ, KIJ, KJI, JIK, JKI]

  lemma AllOrdersListsEachOnce()
    ensures |AllOrders| == 6
    ensures forall o: Order :: o in AllOrders
    ensures forall p, q :: 0 <= p < q < |AllOrders| ==> AllOrders[p] != AllOrders[q]
  {
    forall o: Order
      ensures o in AllOrders
    {
      match o
      case IJK => assert AllOrders[0] == o;
      case IKJ => assert AllOrders[1] == o;
      case KIJ => assert AllOrders[2] == o;
      case KJI => assert AllOrders[3] == o;
      case JIK => assert AllOrders[4] == o;
      case JKI => assert AllOrders[5] == o;
    }
  }

  /** The label printed in the first CSV column: the loop variables,
      outermost first, separated by commas. */
  function OrderName(o: Order): (r: string)
    ensures |r| == 5 && r[1] == ',' && r[3] == ','
    ensures multiset{r[0], r[2], r[4]} == multiset{'i', 'j', 'k'}
  {
    match o
    case IJK => "i,j,k"
    case IKJ => "i,k,j"
    case KIJ => "k,i,j"
    case KJI => "k,j,i"
    case JIK => "j,i,k"
    case JKI => "j,k,i"
  }

  lemma OrderNameInjective(o1: Order, o2: Order)
    ensures OrderName(o1) == OrderName(o2) ==> o1 == o2
  {
    if o1 != o2 {
      var r1, r2 := OrderName(o1), OrderName(o2);
      assert r1[0] != r2[0] || r1[2] != r2[2];
    }
  }

  /** The offset of row i in a row-major buffer of width n: i rows of n
      cells each (i * n, see RowStartIsProduct). */
  function RowStart(i: nat, n: nat): nat
  {
    if i == 0 then 0 else RowStart(i - 1, n) + n
  }

  lemma {:induction false} RowStartIsProduct(i: nat, n: nat)
    ensures RowStart(i, n) == i * n
  {
    if i > 0 {
      RowStartIsProduct(i - 1, n);
      assert i * n == (i - 1) * n + n;
    }
  }

  /** A later row starts at least a whole row further on. */
  lemma {:induction false} RowStartGap(i1: nat, i2: nat, n: nat)
    requires i1 < i2
    ensures RowStart(i1, n) + n <= RowStart(i2, n)
    decreases i2
  {
    if i1 < i2 - 1 {
      RowStartGap(i1, i2 - 1, n);
    }
  }

  /** Offset of cell (i, j) in a row-major buffer of width n: i * n + j. */
  function Idx(i: nat, j: nat, n: nat): (p: nat)
    ensures i < n && j < n ==> p < n * n
  {
    if i < n && j < n then RowFitsBelow(i, n); RowStart(i, n) + j else RowStart(i, n) + j
  }

  /** The offset is the row-major formula of the benchmark. */
  lemma IdxIsRowMajor(i: nat, j: nat, n: nat)
    ensures Idx(i, j, n) == i * n + j
  {
    RowStartIsProduct(i, n);
  }

  lemma {:induction false} MulAtLeast(m: nat, n: nat)
    requires m >= 1
    ensures m * n >= n
  {
    if m > 1 {
      MulAtLeast(m - 1, n);
      assert m * n == (m - 1) * n + n;
    }
  }

  /** A whole row of width n starting at row i < n still fits in n*n cells. */
  lemma RowFitsBelow(i: nat, n: nat)
    requires i < n
    ensures RowStart(i, n) + n <= n * n
  {
    RowStartGap(i, n, n);
    RowStartIsProduct(n, n);
  }

  /** Idx is injective on cells whose column is below the width. */
  lemma IdxInjective(i1: nat, j1: nat, i2: nat, j2: nat, n: nat)
    requires j1 < n && j2 < n
    requires Idx(i1, j1, n) == Idx(i2, j2, n)
    ensures i1 == i2 && j1 == j2
  {
    if i1 < i2 {
      RowStartGap(i1, i2, n);
    } else if i2 < i1 {
      RowStartGap(i2, i1, n);
    }
  }

  /** A non-zero multiple of n is at least n away from zero. */
  lemma MulSign(x: int, n: nat)
    ensures x >= 1 ==> x * n >= n
    ensures x <= -1 ==> x * n + n <= 0
  {
    if x >= 1 {
      MulAtLeast(x, n);
    } else if x <= -1 {
      MulAtLeast(-x, n);
      assert x * n == -((-x) * n);
    }
  }

  /** Euclidean division by n has a single quotient and remainder. */
  lemma DivModUnique(p: nat, n: nat, q: nat, r: nat)
    requires r < n && p == q * n + r
    ensures p / n == q && p % n == r
  {
    var q', r' := p / n, p % n;
    assert (q - q') * n == r' - r;
    MulSign(q - q', n);
  }

  /** Row and column are recovered from an offset by division and remainder. */
  lemma IdxDecode(i: nat, j: nat, n: nat)
    requires j < n
    ensures Idx(i, j, n) / n == i && Idx(i, j, n) % n == j
  {
    IdxIsRowMajor(i, j, n);
    DivModUnique(Idx(i, j, n), n, i, j);
  }

  /** Every offset of an n*n buffer is the offset of exactly one cell. */
  lemma IdxOnto(p: nat, n: nat)
    requires p < n * n
    ensures n > 0 && p / n < n && p % n < n && Idx(p / n, p % n, n) == p
  {
    var q := p / n;
    assert p == q * n + p % n;
    MulSign(q - n + 1, n);
    assert (q - n + 1) * n == q * n - n * n + n;
    IdxIsRowMajor(q, p % n, n);
  }

  /** The partial dot product of row i of a with column j of b over the
      first m reduction indices. */
  function Dot(a: seq<real>, b: seq<real>, n: nat, i: nat, j: nat, m: nat): real
    requires |a| == n * n && |b| == n * n
    requires i < n && j < n && m <= n
    decreases m
  {
    if m == 0 then 0.0
    else Dot(a, b, n, i, j, m - 1) + a[Idx(i, m - 1, n)] * b[Idx(m - 1, j, n)]
  }

  /** c holds the product of a and b: every cell is the full dot product. */
  ghost predicate IsProduct(c: seq<real>, a: seq<real>, b: seq<real>, n: nat)
  {
    |a| == n * n && |b| == n * n && |c| == n * n &&
    forall i, j {:trigger c[Idx(i, j, n)]} :: 0 <= i < n && 0 <= j < n ==> c[Idx(i, j, n)] == Dot(a, b, n, i, j, n)
  }

  /** The product is determined by the operands alone: whatever loop order
      produced two results, and whatever the buffers held before, they agree. */
  lemma ProductUnique(c1: seq<real>, c2: seq<real>, a: seq<real>, b: seq<real>, n: nat)
    requires IsProduct(c1, a, b, n) && IsProduct(c2, a, b, n)
    ensures c1 == c2
  {
    forall p | 0 <= p < n * n
      ensures c1[p] == c2[p]
    {
      IdxOnto(p, n);
    }
  }

  /** The first m rows of an n-column row-major matrix whose cell (i, j) is
      f(i, j), one row after another. */
  function FilledRows(m: nat, n: nat, f: (nat, nat) -> real): (s: seq<real>)
    ensures |s| == RowStart(m, n)
    ensures forall i, j :: 0 <= i < m && 0 <= j < n ==> Idx(i, j, n) < |s| && s[Idx(i, j, n)] == f(i, j)
  {
    if m == 0 then []
    else
      var front := FilledRows(m - 1, n, f);
      var row := seq(n, j requires 0 <= j < n => f(m - 1, j));
      AppendRow(front, row, m, n, f);
      front + row
  }

  /** Appending row m-1 to the first m-1 rows gives the first m rows. */
  lemma AppendRow(front: seq<real>, row: seq<real>, m: nat, n: nat, f: (nat, nat) -> real)
    requires m > 0 && |front| == RowStart(m - 1, n) && |row| == n
    requires forall i, j :: 0 <= i < m - 1 && 0 <= j < n ==> Idx(i, j, n) < |front| && front[Idx(i, j, n)] == f(i, j)
    requires forall j :: 0 <= j < n ==> row[j] == f(m - 1, j)
    ensures forall i, j :: 0 <= i < m && 0 <= j < n ==>
      Idx(i, j, n) < |front + row| && (front + row)[Idx(i, j, n)] == f(i, j)
  {
    forall i, j | 0 <= i < m && 0 <= j < n
      ensures Idx(i, j, n) < |front + row| && (front + row)[Idx(i, j, n)] == f(i, j)
    {
      if i < m - 1 {
        RowStartGap(i, m - 1, n);
        assert (front + row)[Idx(i, j, n)] == front[Idx(i, j, n)];
      } else {
        assert (front + row)[Idx(i, j, n)] == row[j];
      }
    }
  }

  /** The buffer of an n-by-n matrix whose cell (i, j) is f(i, j). */
  function Filled(n: nat, f: (nat, nat) -> real): (s: seq<real>)
    ensures |s| == n * n
    ensures forall i, j :: 0 <= i < n && 0 <= j < n ==> s[Idx(i, j, n)] == f(i, j)
  {
    RowStartIsProduct(n, n);
    FilledRows(n, n, f)
  }

  /** Cell (i, j) of the first operand: (i + j mod 7) thousandths. */
  function AValue(i: nat, j: nat): real
  {
    (i + j % 7) as real * 0.001
  }

  /** Cell (i, j) of the second operand: (2i + j mod 5) times 0.002. */
  function BValue(i: nat, j: nat): real
  {
    (i * 2 + j % 5) as real * 0.002
  }

  /** Writes every cell of both operands with the deterministic formulas. */
  method FillMatrices(A: array<real>, B: array<real>, n: nat)
    requires A.Length == n * n && B.Length == n * n && A != B
    modifies A, B
    ensures A[..] == Filled(n, AValue) && B[..] == Filled(n, BValue)
  {
    for i := 0 to n
      invariant forall r, c :: 0 <= r < i && 0 <= c < n ==>
        A[Idx(r, c, n)] == AValue(r, c) && B[Idx(r, c, n)] == BValue(r, c)
    {
      for j := 0 to n
        invariant forall r, c :: 0 <= r < n && 0 <= c < n && (r < i || (r == i && c < j)) ==>
          A[Idx(r, c, n)] == AValue(r, c) && B[Idx(r, c, n)] == BValue(r, c)
      {
        forall r, c | 0 <= r < n && 0 <= c < n && (r != i || c != j)
          ensures Idx(r, c, n) != Idx(i, j, n)
        {
          if Idx(r, c, n) == Idx(i, j, n) { IdxInjective(r, c, i, j, n); }
        }
        A[Idx(i, j, n)] := AValue(i, j);
        B[Idx(i, j, n)] := BValue(i, j);
      }
    }
    SameCells(A[..], Filled(n, AValue), n);
    SameCells(B[..], Filled(n, BValue), n);
  }

  /** Two buffers that agree on every cell of the square are equal. */
  lemma SameCells(s: seq<real>, t: seq<real>, n: nat)
    requires |s| == n * n && |t| == n * n
    requires forall i, j :: 0 <= i < n && 0 <= j < n ==> s[Idx(i, j, n)] == t[Idx(i, j, n)]
    ensures s == t
  {
    forall p | 0 <= p < n * n
      ensures s[p] == t[p]
    {
      IdxOnto(p, n);
    }
  }

  /** Resets every cell of the output buffer to zero. */
  method ZeroMatrix(C: array<real>)
    modifies C
    ensures forall p :: 0 <= p < C.Length ==> C[p] == 0.0
  {
    for p := 0 to C.Length
      invariant forall q :: 0 <= q < p ==> C[q] == 0.0
    {
      C[p] := 0.0;
    }
  }

  /** Zeroes C, then fills it with the product of A and B using the loop
      nesting ord. The operands are only read. */
  method Mul(ord: Order, A: array<real>, B: array<real>, C: array<real>, n: nat)
    requires A.Length == n * n && B.Length == n * n && C.Length == n * n
    requires C != A && C != B
    modifies C
    ensures IsProduct(C[..], A[..], B[..], n)
    ensures A[..] == old(A[..]) && B[..] == old(B[..])
  {
    ZeroMatrix(C);
    match ord
    case IJK => MulIJK(A, B, C, n);
    case IKJ => MulIKJ(A, B, C, n);
    case KIJ => MulKIJ(A, B, C, n);
    case KJI => MulKJI(A, B, C, n);
    case JIK => MulJIK(A, B, C, n);
    case JKI => MulJKI(A, B, C, n);
  }

  /** Whether an overwriting nesting (IJK or JIK) at position (i, j) has
      already stored cell (r, c). */
  function Stored(ord: Order, i: nat, j: nat, r: nat, c: nat): bool
  {
    if ord == JIK then c < j || (c == j && r < i) else r < i || (r == i && c < j)
  }

  /** Every cell an overwriting nesting has stored holds the full dot product. */
  ghost predicate StoredHold(cs: seq<real>, a: seq<real>, b: seq<real>, n: nat, ord: Order, i: nat, j: nat)
  {
    |a| == n * n && |b| == n * n && |cs| == n * n &&
    forall r, c {:trigger cs[Idx(r, c, n)]} :: 0 <= r < n && 0 <= c < n && Stored(ord, i, j, r, c) ==>
      cs[Idx(r, c, n)] == Dot(a, b, n, r, c, n)
  }

  /** Storing the dot product of cell (i, j) moves an overwriting nesting to
      its next position. */
  lemma StoreCell(cs: seq<real>, a: seq<real>, b: seq<real>, n: nat, ord: Order, i: nat, j: nat)
    requires ord == IJK || ord == JIK
    requires i < n && j < n
    requires StoredHold(cs, a, b, n, ord, i, j)
    ensures StoredHold(cs[Idx(i, j, n) := Dot(a, b, n, i, j, n)], a, b, n, ord,
                       if ord == IJK then i else i + 1, if ord == IJK then j + 1 else j)
  {
    var x := Idx(i, j, n);
    var cs' := cs[x := Dot(a, b, n, i, j, n)];
    var i', j' := if ord == IJK then i else i + 1, if ord == IJK then j + 1 else j;
    forall r, c | 0 <= r < n && 0 <= c < n && Stored(ord, i', j', r, c)
      ensures cs'[Idx(r, c, n)] == Dot(a, b, n, r, c, n)
    {
      if r != i || c != j {
        if Idx(r, c, n) == x { IdxInjective(r, c, i, j, n); }
      }
    }
  }

  /** Two positions of an overwriting nesting that have stored the same cells
      make the same claim. */
  lemma SameStored(cs: seq<real>, a: seq<real>, b: seq<real>, n: nat, ord: Order, i: nat, j: nat, i': nat, j': nat)
    requires forall r, c :: 0 <= r < n && 0 <= c < n ==> Stored(ord, i, j, r, c) == Stored(ord, i', j', r, c)
    ensures StoredHold(cs, a, b, n, ord, i, j) == StoredHold(cs, a, b, n, ord, i', j')
  {
  }

  /** Rows outer, columns middle: each cell is summed in a local and stored. */
  method MulIJK(A: array<real>, B: array<real>, C: array<real>, n: nat)
    requires A.Length == n * n && B.Length == n * n && C.Length == n * n
    requires C != A && C != B
    modifies C
    ensures IsProduct(C[..], A[..], B[..], n)
  {
    ghost var a, b := A[..], B[..];
    for i := 0 to n
      invariant StoredHold(C[..], a, b, n, IJK, i, 0)
    {
      for j := 0 to n
        invariant StoredHold(C[..], a, b, n, IJK, i, j)
      {
        var s := 0.0;
        for k := 0 to n
          invariant s == Dot(a, b, n, i, j, k)
        {
          s := s + A[Idx(i, k, n)] * B[Idx(k, j, n)];
        }
        ghost var before := C[..];
        C[Idx(i, j, n)] := s;
        assert C[..] == before[Idx(i, j, n) := s];
        StoreCell(before, a, b, n, IJK, i, j);
      }
      SameStored(C[..], a, b, n, IJK, i, n, i + 1, 0);
    }
    SameStored(C[..], a, b, n, IJK, n, 0, n + 1, 0);
    assert A[..] == a && B[..] == b;
  }

  /** Columns outer, rows middle: each cell is summed in a local and stored. */
  method MulJIK(A: array<real>, B: array<real>, C: array<real>, n: nat)
    requires A.Length == n * n && B.Length == n * n && C.Length == n * n
    requires C != A && C != B
    modifies C
    ensures IsProduct(C[..], A[..], B[..], n)
  {
    ghost var a, b := A[..], B[..];
    for j := 0 to n
      invariant StoredHold(C[..], a, b, n, JIK, 0, j)
    {
      for i := 0 to n
        invariant StoredHold(C[..], a, b, n, JIK, i, j)
      {
        var s := 0.0;
        for k := 0 to n
          invariant s == Dot(a, b, n, i, j, k)
        {
          s := s + A[Idx(i, k, n)] * B[Idx(k, j, n)];
        }
        ghost var before := C[..];
        C[Idx(i, j, n)] := s;
        assert C[..] == before[Idx(i, j, n) := s];
        StoreCell(before, a, b, n, JIK, i, j);
      }
      SameStored(C[..], a, b, n, JIK, n, j, 0, j + 1);
    }
    SameStored(C[..], a, b, n, JIK, 0, n, 0, n + 1);
    assert A[..] == a && B[..] == b;
  }

  /** How many reduction terms cell (r, c) holds when an accumulating
      nesting ord is about to run iteration (i, j, k): the iterations for that
      cell that precede (i, j, k) in ord's nesting. */
  function Terms(ord: Order, i: nat, j: nat, k: nat, r: nat, c: nat, n: nat): nat
  {
    match ord
    case IKJ => if r < i then n else if r == i then k + (if c < j then 1 else 0) else 0
    case KIJ => k + (if r < i || (r == i && c < j) then 1 else 0)
    case KJI => k + (if c < j || (c == j && r < i) then 1 else 0)
    case JKI => if c < j then n else if c == j then k + (if r < i then 1 else 0) else 0
    case _ => 0
  }

  /** The output buffer cs holds, in every cell, the partial dot product over
      as many reduction indices as the loop position (i, j, k) of ord has
      already added to that cell. */
  ghost predicate Holds(cs: seq<real>, a: seq<real>, b: seq<real>, n: nat, ord: Order, i: nat, j: nat, k: nat)
  {
    |a| == n * n && |b| == n * n && |cs| == n * n &&
    forall r, c {:trigger cs[Idx(r, c, n)]} :: 0 <= r < n && 0 <= c < n ==>
      Terms(ord, i, j, k, r, c, n) <= n &&
      cs[Idx(r, c, n)] == Dot(a, b, n, r, c, Terms(ord, i, j, k, r, c, n))
  }

  /** The loop position after iteration (i, j, k) of an accumulating nesting:
      its innermost counter advances. */
  function Next(ord: Order, i: nat, j: nat, k: nat): (nat, nat, nat)
  {
    if ord == IKJ || ord == KIJ then (i, j + 1, k) else (i + 1, j, k)
  }

  /** Iteration (i, j, k) adds exactly one term, to cell (i, j) alone; the
      next position is (i', j', k'). */
  lemma TermsStep(ord: Order, i: nat, j: nat, k: nat, i': nat, j': nat, k': nat, r: nat, c: nat, n: nat)
    requires ord == IKJ || ord == KIJ || ord == KJI || ord == JKI
    requires i < n && j < n && k < n && r < n && c < n
    requires (i', j', k') == Next(ord, i, j, k)
    ensures Terms(ord, i, j, k, i, j, n) == k
    ensures Terms(ord, i', j', k', r, c, n) == Terms(ord, i, j, k, r, c, n) + (if r == i && c == j then 1 else 0)
  {
  }

  /** Different cells of the square have different offsets. */
  lemma IdxDistinct(r: nat, c: nat, i: nat, j: nat, n: nat)
    requires c < n && j < n && (r != i || c != j)
    ensures Idx(r, c, n) != Idx(i, j, n)
  {
    if Idx(r, c, n) == Idx(i, j, n) {
      IdxInjective(r, c, i, j, n);
    }
  }

  /** One accumulation step C[i][j] += A[i][k] * B[k][j], taking buffer cs to
      cs', seen from a single cell (r, c): the cell keeps its partial sum for
      the next position (i', j', k'). */
  lemma AddTermCell(cs: seq<real>, cs': seq<real>, a: seq<real>, b: seq<real>, n: nat, ord: Order,
                    i: nat, j: nat, k: nat, i': nat, j': nat, k': nat, r: nat, c: nat, term: real)
    requires ord == IKJ || ord == KIJ || ord == KJI || ord == JKI
    requires i < n && j < n && k < n && r < n && c < n
    requires (i', j', k') == Next(ord, i, j, k)
    requires |a| == n * n && |b| == n * n && |cs| == n * n
    requires term == a[Idx(i, k, n)] * b[Idx(k, j, n)]
    requires cs' == cs[Idx(i, j, n) := cs[Idx(i, j, n)] + term]
    requires Terms(ord, i, j, k, r, c, n) <= n
    requires cs[Idx(r, c, n)] == Dot(a, b, n, r, c, Terms(ord, i, j, k, r, c, n))
    ensures Terms(ord, i', j', k', r, c, n) <= n
    ensures cs'[Idx(r, c, n)] == Dot(a, b, n, r, c, Terms(ord, i', j', k', r, c, n))
  {
    TermsStep(ord, i, j, k, i', j', k', r, c, n);
    var x := Idx(i, j, n);
    if r == i && c == j {
      assert Terms(ord, i', j', k', i, j, n) == k + 1;
      assert cs'[x] == cs[x] + term;
      assert Dot(a, b, n, i, j, k + 1) == Dot(a, b, n, i, j, k) + term;
    } else {
      assert Terms(ord, i', j', k', r, c, n) == Terms(ord, i, j, k, r, c, n);
      IdxDistinct(r, c, i, j, n);
      assert cs'[Idx(r, c, n)] == cs[Idx(r, c, n)];
    }
  }

  /** One accumulation step C[i][j] += A[i][k] * B[k][j], taking buffer cs
      to cs', moves the buffer from position (i, j, k) to the next position
      (i', j', k') of the nesting. */
  lemma AddTerm(cs: seq<real>, cs': seq<real>, a: seq<real>, b: seq<real>, n: nat, ord: Order,
                i: nat, j: nat, k: nat, i': nat, j': nat, k': nat, term: real)
    requires ord == IKJ || ord == KIJ || ord == KJI || ord == JKI
    requires i < n && j < n && k < n
    requires (i', j', k') == Next(ord, i, j, k)
    requires Holds(cs, a, b, n, ord, i, j, k)
    requires term == a[Idx(i, k, n)] * b[Idx(k, j, n)]
    requires cs' == cs[Idx(i, j, n) := cs[Idx(i, j, n)] + term]
    ensures Holds(cs', a, b, n, ord, i', j', k')
  {
    forall r, c | 0 <= r < n && 0 <= c < n
      ensures Terms(ord, i', j', k', r, c, n) <= n
      ensures cs'[Idx(r, c, n)] == Dot(a, b, n, r, c, Terms(ord, i', j', k', r, c, n))
    {
      AddTermCell(cs, cs', a, b, n, ord, i, j, k, i', j', k', r, c, term);
    }
    assert Holds(cs', a, b, n, ord, i', j', k');
  }

  /** Two loop positions that give every cell the same number of terms
      describe the same buffer contents. */
  lemma SamePosition(cs: seq<real>, a: seq<real>, b: seq<real>, n: nat, ord: Order,
                     i: nat, j: nat, k: nat, i': nat, j': nat, k': nat)
    requires Holds(cs, a, b, n, ord, i, j, k)
    requires forall r, c :: 0 <= r < n && 0 <= c < n ==>
      Terms(ord, i, j, k, r, c, n) == Terms(ord, i', j', k', r, c, n)
    ensures Holds(cs, a, b, n, ord, i', j', k')
  {
    forall r, c | 0 <= r < n && 0 <= c < n
      ensures Terms(ord, i', j', k', r, c, n) <= n
      ensures cs[Idx(r, c, n)] == Dot(a, b, n, r, c, Terms(ord, i', j', k', r, c, n))
    {
      var cell := cs[Idx(r, c, n)];
      assert Terms(ord, i, j, k, r, c, n) == Terms(ord, i', j', k', r, c, n);
    }
  }

  /** At the first position every cell holds no term, so a zeroed buffer fits. */
  lemma ZeroedHolds(cs: seq<real>, a: seq<real>, b: seq<real>, n: nat, ord: Order)
    requires ord == IKJ || ord == KIJ || ord == KJI || ord == JKI
    requires |a| == n * n && |b| == n * n && |cs| == n * n
    requires forall p :: 0 <= p < |cs| ==> cs[p] == 0.0
    ensures Holds(cs, a, b, n, ord, 0, 0, 0)
  {
  }

  /** At a position where every cell holds all n terms, the buffer is the product. */
  lemma FinishedHolds(cs: seq<real>, a: seq<real>, b: seq<real>, n: nat, ord: Order, i: nat, j: nat, k: nat)
    requires Holds(cs, a, b, n, ord, i, j, k)
    requires forall r, c :: 0 <= r < n && 0 <= c < n ==> Terms(ord, i, j, k, r, c, n) == n
    ensures IsProduct(cs, a, b, n)
  {
  }

  /** The statement C[i][j] += term of an accumulating nesting, with term the
      product A[i][k] * B[k][j]: it moves C to the next loop position. */
  method AccumulateCell(ord: Order, A: array<real>, B: array<real>, C: array<real>, n: nat,
                        i: nat, j: nat, k: nat, term: real)
    requires A.Length == n * n && B.Length == n * n && C.Length == n * n
    requires C != A && C != B
    requires ord == IKJ || ord == KIJ || ord == KJI || ord == JKI
    requires i < n && j < n && k < n
    requires term == A[Idx(i, k, n)] * B[Idx(k, j, n)]
    requires Holds(C[..], A[..], B[..], n, ord, i, j, k)
    modifies C
    ensures Holds(C[..], A[..], B[..], n, ord, Next(ord, i, j, k).0, Next(ord, i, j, k).1, Next(ord, i, j, k).2)
  {
    ghost var a, b, before := A[..], B[..], C[..];
    assert term == a[Idx(i, k, n)] * b[Idx(k, j, n)];
    var x := Idx(i, j, n);
    C[x] := C[x] + term;
    assert C[..] == before[x := before[x] + term];
    AddTerm(before, C[..], a, b, n, ord, i, j, k,
            Next(ord, i, j, k).0, Next(ord, i, j, k).1, Next(ord, i, j, k).2, term);
    assert A[..] == a && B[..] == b;
  }

  /** The innermost loop of the IKJ and KIJ nestings: A[i][k] is hoisted
      and every cell of row i of C gains term k. */
  method AddRowTerms(ord: Order, A: array<real>, B: array<real>, C: array<real>, n: nat, i: nat, k: nat)
    requires A.Length == n * n && B.Length == n * n && C.Length == n * n
    requires C != A && C != B
    requires ord == IKJ || ord == KIJ
    requires i < n && k < n
    requires Holds(C[..], A[..], B[..], n, ord, i, 0, k)
    modifies C
    ensures Holds(C[..], A[..], B[..], n, ord, i, n, k)
  {
    var aik := A[Idx(i, k, n)];
    for j := 0 to n
      invariant Holds(C[..], A[..], B[..], n, ord, i, j, k)
    {
      AccumulateCell(ord, A, B, C, n, i, j, k, aik * B[Idx(k, j, n)]);
    }
  }

  /** The innermost loop of the KJI and JKI nestings: B[k][j] is hoisted
      and every cell of column j of C gains term k. */
  method AddColumnTerms(ord: Order, A: array<real>, B: array<real>, C: array<real>, n: nat, j: nat, k: nat)
    requires A.Length == n * n && B.Length == n * n && C.Length == n * n
    requires C != A && C != B
    requires ord == KJI || ord == JKI
    requires j < n && k < n
    requires Holds(C[..], A[..], B[..], n, ord, 0, j, k)
    modifies C
    ensures Holds(C[..], A[..], B[..], n, ord, n, j, k)
  {
    var bkj := B[Idx(k, j, n)];
    for i := 0 to n
      invariant Holds(C[..], A[..], B[..], n, ord, i, j, k)
    {
      AccumulateCell(ord, A, B, C, n, i, j, k, A[Idx(i, k, n)] * bkj);
    }
  }

  /** Rows outer, reduction middle, columns inner (the row of C is
      accumulated). Requires the zeroed buffer. */
  method MulIKJ(A: array<real>, B: array<real>, C: array<real>, n: nat)
    requires A.Length == n * n && B.Length == n * n && C.Length == n * n
    requires C != A && C != B
    requires forall p :: 0 <= p < C.Length ==> C[p] == 0.0
    modifies C
    ensures IsProduct(C[..], A[..], B[..], n)
  {
    ZeroedHolds(C[..], A[..], B[..], n, IKJ);
    for i := 0 to n
      invariant Holds(C[..], A[..], B[..], n, IKJ, i, 0, 0)
    {
      for k := 0 to n
        invariant Holds(C[..], A[..], B[..], n, IKJ, i, 0, k)
      {
        AddRowTerms(IKJ, A, B, C, n, i, k);
        SamePosition(C[..], A[..], B[..], n, IKJ, i, n, k, i, 0, k + 1);
      }
      SamePosition(C[..], A[..], B[..], n, IKJ, i, 0, n, i + 1, 0, 0);
    }
    FinishedHolds(C[..], A[..], B[..], n, IKJ, n, 0, 0);
  }

  /** Reduction outer, rows middle, columns inner: every cell gains one
      term per outer step. Requires the zeroed buffer. */
  method MulKIJ(A: array<real>, B: array<real>, C: array<real>, n: nat)
    requires A.Length == n * n && B.Length == n * n && C.Length == n * n
    requires C != A && C != B
    requires forall p :: 0 <= p < C.Length ==> C[p] == 0.0
    modifies C
    ensures IsProduct(C[..], A[..], B[..], n)
  {
    ZeroedHolds(C[..], A[..], B[..], n, KIJ);
    for k := 0 to n
      invariant Holds(C[..], A[..], B[..], n, KIJ, 0, 0, k)
    {
      for i := 0 to n
        invariant Holds(C[..], A[..], B[..], n, KIJ, i, 0, k)
      {
        AddRowTerms(KIJ, A, B, C, n, i, k);
        SamePosition(C[..], A[..], B[..], n, KIJ, i, n, k, i + 1, 0, k);
      }
      SamePosition(C[..], A[..], B[..], n, KIJ, n, 0, k, 0, 0, k + 1);
    }
    FinishedHolds(C[..], A[..], B[..], n, KIJ, 0, 0, n);
  }

  /** Reduction outer, columns middle, rows inner (a column of C is
      accumulated). Requires the zeroed buffer. */
  method MulKJI(A: array<real>, B: array<real>, C: array<real>, n: nat)
    requires A.Length == n * n && B.Length == n * n && C.Length == n * n
    requires C != A && C != B
    requires forall p :: 0 <= p < C.Length ==> C[p] == 0.0
    modifies C
    ensures IsProduct(C[..], A[..], B[..], n)
  {
    ZeroedHolds(C[..], A[..], B[..], n, KJI);
    for k := 0 to n
      invariant Holds(C[..], A[..], B[..], n, KJI, 0, 0, k)
    {
      for j := 0 to n
        invariant Holds(C[..], A[..], B[..], n, KJI, 0, j, k)
      {
        AddColumnTerms(KJI, A, B, C, n, j, k);
        SamePosition(C[..], A[..], B[..], n, KJI, n, j, k, 0, j + 1, k);
      }
      SamePosition(C[..], A[..], B[..], n, KJI, 0, n, k, 0, 0, k + 1);
    }
    FinishedHolds(C[..], A[..], B[..], n, KJI, 0, 0, n);
  }

  /** Columns outer, reduction middle, rows inner (a column of C is
      accumulated). Requires the zeroed buffer. */
  method MulJKI(A: array<real>, B: array<real>, C: array<real>, n: nat)
    requires A.Length == n * n && B.Length == n * n && C.Length == n * n
    requires C != A && C != B
    requires forall p :: 0 <= p < C.Length ==> C[p] == 0.0
    modifies C
    ensures IsProduct(C[..], A[..], B[..], n)
  {
    ZeroedHolds(C[..], A[..], B[..], n, JKI);
    for j := 0 to n
      invariant Holds(C[..], A[..], B[..], n, JKI, 0, j, 0)
    {
      for k := 0 to n
        invariant Holds(C[..], A[..], B[..], n, JKI, 0, j, k)
      {
        AddColumnTerms(JKI, A, B, C, n, j, k);
        SamePosition(C[..], A[..], B[..], n, JKI, n, j, k, 0, j, k + 1);
      }
      SamePosition(C[..], A[..], B[..], n, JKI, 0, j, n, 0, j + 1, 0);
    }
    FinishedHolds(C[..], A[..], B[..], n, JKI, 0, n, 0);
  }

  /** The offsets of a 2-by-2 buffer. */
  lemma OffsetsOfSizeTwo()
    ensures Idx(0, 0, 2) == 0 && Idx(0, 1, 2) == 1 && Idx(1, 0, 2) == 2 && Idx(1, 1, 2) == 3
  {
    assert RowStart(0, 2) == 0;
    assert RowStart(1, 2) == 2;
  }

  /** The cells of the deterministically filled 2-by-2 operands. */
  lemma OperandValuesOfSizeTwo()
    ensures AValue(0, 0) == 0.0 && AValue(0, 1) == 0.001 && AValue(1, 0) == 0.001 && AValue(1, 1) == 0.002
    ensures BValue(0, 0) == 0.0 && BValue(0, 1) == 0.002 && BValue(1, 0) == 0.004 && BValue(1, 1) == 0.006
  {
  }

  /** The deterministically filled 2-by-2 first operand,
      A = [0, 0.001; 0.001, 0.002], as a flat buffer. */
  lemma FilledAOfSizeTwo(a: seq<real>)
    requires a == Filled(2, AValue)
    ensures a[0] == 0.0 && a[1] == 0.001 && a[2] == 0.001 && a[3] == 0.002
  {
    OffsetsOfSizeTwo();
    OperandValuesOfSizeTwo();
    assert a[Idx(0, 0, 2)] == AValue(0, 0) && a[Idx(0, 1, 2)] == AValue(0, 1);
    assert a[Idx(1, 0, 2)] == AValue(1, 0) && a[Idx(1, 1, 2)] == AValue(1, 1);
  }

  /** The deterministically filled 2-by-2 second operand,
      B = [0, 0.002; 0.004, 0.006], as a flat buffer. */
  lemma FilledBOfSizeTwo(b: seq<real>)
    requires b == Filled(2, BValue)
    ensures b[0] == 0.0 && b[1] == 0.002 && b[2] == 0.004 && b[3] == 0.006
  {
    OffsetsOfSizeTwo();
    OperandValuesOfSizeTwo();
    assert b[Idx(0, 0, 2)] == BValue(0, 0) && b[Idx(0, 1, 2)] == BValue(0, 1);
    assert b[Idx(1, 0, 2)] == BValue(1, 0) && b[Idx(1, 1, 2)] == BValue(1, 1);
  }

  /** The full dot products of two 2-by-2 buffers with the values of the
      filled operands. */
  lemma DotsOfSizeTwo(a: seq<real>, b: seq<real>)
    requires |a| == 4 && |b| == 4
    requires a[0] == 0.0 && a[1] == 0.001 && a[2] == 0.001 && a[3] == 0.002
    requires b[0] == 0.0 && b[1] == 0.002 && b[2] == 0.004 && b[3] == 0.006
    ensures Dot(a, b, 2, 0, 0, 2) == 0.000004 && Dot(a, b, 2, 0, 1, 2) == 0.000006
    ensures Dot(a, b, 2, 1, 0, 2) == 0.000008 && Dot(a, b, 2, 1, 1, 2) == 0.000014
  {
    OffsetsOfSizeTwo();
    assert Dot(a, b, 2, 0, 0, 1) == 0.0 && Dot(a, b, 2, 0, 1, 1) == 0.0;
    assert Dot(a, b, 2, 1, 0, 1) == 0.0 && Dot(a, b, 2, 1, 1, 1) == 0.000002;
  }

  /** A 2-by-2 product buffer, offset by offset. */
  lemma ProductCellsOfSizeTwo(c: seq<real>, a: seq<real>, b: seq<real>)
    requires IsProduct(c, a, b, 2)
    ensures c == [Dot(a, b, 2, 0, 0, 2), Dot(a, b, 2, 0, 1, 2), Dot(a, b, 2, 1, 0, 2), Dot(a, b, 2, 1, 1, 2)]
  {
    OffsetsOfSizeTwo();
    assert c[Idx(0, 0, 2)] == Dot(a, b, 2, 0, 0, 2) && c[Idx(0, 1, 2)] == Dot(a, b, 2, 0, 1, 2);
    assert c[Idx(1, 0, 2)] == Dot(a, b, 2, 1, 0, 2) && c[Idx(1, 1, 2)] == Dot(a, b, 2, 1, 1, 2);
  }

  /** The product of the deterministically filled 2-by-2 operands, worked
      by hand. */
  lemma FilledProductOfSizeTwo(c: seq<real>)
    requires IsProduct(c, Filled(2, AValue), Filled(2, BValue), 2)
    ensures c == [0.000004, 0.000006, 0.000008, 0.000014]
  {
    var a, b := Filled(2, AValue), Filled(2, BValue);
    FilledAOfSizeTwo(a);
    FilledBOfSizeTwo(b);
    DotsOfSizeTwo(a, b);
    ProductCellsOfSizeTwo(c, a, b);
  }
}
