/**
 The rank test of the heavy-hash matrix (src/pow/heavy_hash.rs, compute_rank): Gaussian elimination
 that never rewrites the columns it has passed. Reals stand for the floating-point numbers, and
 the threshold below which an entry counts as zero is zero itself.
 */
module MatrixRank {

  /** The entry in row k and column p. */
  type Matrix = (nat, nat) -> real

  type Vector = nat -> real

  /** Row k of v times x, over the first n columns. */
  function Dot(v: Matrix, k: nat, x: Vector, n: nat): real {
    if n == 0 then 0.0 else Dot(v, k, x, n - 1) + v(k, n - 1) * x(n - 1)
  }

  /** v maps x to zero. */
  ghost predicate Kills(v: Matrix, x: Vector, n: nat) { forall k: nat | k < n :: Dot(v, k, x, n) == 0.0 }

  ghost predicate IsZero(x: Vector, n: nat) { forall p: nat | p < n :: x(p) == 0.0 }

  ghost predicate SupportedOn(x: Vector, columns: set<nat>, n: nat) {
    forall p: nat | p < n && p !in columns :: x(p) == 0.0
  }

  /** x writes column d as a combination of the given columns. */
  ghost predicate Combines(m: Matrix, x: Vector, columns: set<nat>, d: nat, n: nat) {
    x(d) == 1.0 && Kills(m, x, n) && SupportedOn(x, columns + {d}, n)
  }

  /** A basis of the column space: the columns are independent, and every other one is a combination of them. */
  ghost predicate IsBasis(m: Matrix, columns: set<nat>, n: nat) {
    && (forall c | c in columns :: c < n)
    && (forall x: Vector {:trigger Kills(m, x, n)} :: Kills(m, x, n) && SupportedOn(x, columns, n) ==> IsZero(x, n))
    && (forall d: nat | d < n && d !in columns :: exists x: Vector :: Combines(m, x, columns, d, n))
  }

  ghost predicate TrivialKernel(m: Matrix, n: nat) {
    forall x: Vector {:trigger Kills(m, x, n)} :: Kills(m, x, n) ==> IsZero(x, n)
  }

  lemma {:induction false} UpToHasSize(columns: set<nat>, n: nat)
    requires forall c | c in columns :: c < n
    ensures |columns| <= n && (|columns| == n ==> forall c: nat | c < n :: c in columns)
  {
    if n > 0 {
      UpToHasSize(columns - {n - 1}, n - 1);
    } else {
      assert columns == {};
    }
  }

  lemma {:induction false} AllHaveSize(columns: set<nat>, n: nat)
    requires forall c: nat :: c in columns <==> c < n
    ensures |columns| == n
  {
    if n > 0 {
      AllHaveSize(columns - {n - 1}, n - 1);
    } else {
      assert columns == {};
    }
  }

  /** A basis has all n columns exactly if only the zero vector is mapped to zero. */
  lemma FullRankIffTrivialKernel(m: Matrix, columns: set<nat>, n: nat)
    requires IsBasis(m, columns, n)
    ensures |columns| == n <==> TrivialKernel(m, n)
  {
    UpToHasSize(columns, n);
    if |columns| == n {
      forall x: Vector | Kills(m, x, n) ensures IsZero(x, n) {
        assert SupportedOn(x, columns, n);
      }
    } else {
      if forall c: nat | c < n :: c in columns {
        AllHaveSize(columns, n);
      }
      var d: nat :| d < n && d !in columns;
      var x: Vector :| Combines(m, x, columns, d, n);
      assert Kills(m, x, n) && !IsZero(x, n);
    }
  }

  // ------------------------------------------------------------ row operations

  /** a less c times b */
  function Less(a: real, b: real, c: real): real { a - b * c }

  /** Row j divided by its entry in column i, and taken off the other rows as often as clears column i. */
  function Pivoted(v: Matrix, j: nat, i: nat): Matrix
    requires v(j, i) != 0.0
  {
    (k: nat, p: nat) => if k == j then v(j, p) / v(j, i) else Less(v(k, p), v(j, p) / v(j, i), v(k, i))
  }

  lemma Scaled(a: real, b: real, c: real, d: real, x: real)
    requires a * d == b && c * d == x
    ensures (a + c) * d == b + x
  {
  }

  lemma Quotient(a: real, d: real, x: real)
    requires d != 0.0
    ensures a / d * x * d == a * x
  {
    calc {
      a / d * x * d;
      (a / d * d) * x;
      a * x;
    }
  }

  lemma {:induction false} DotOfPivotRow(v: Matrix, j: nat, i: nat, x: Vector, n: nat)
    requires v(j, i) != 0.0
    ensures Dot(Pivoted(v, j, i), j, x, n) * v(j, i) == Dot(v, j, x, n)
  {
    if n > 0 {
      DotOfPivotRow(v, j, i, x, n - 1);
      var w := Pivoted(v, j, i);
      Quotient(v(j, n - 1), v(j, i), x(n - 1));
      Scaled(Dot(w, j, x, n - 1), Dot(v, j, x, n - 1), w(j, n - 1) * x(n - 1), v(j, i), v(j, n - 1) * x(n - 1));
    }
  }

  lemma TakenOff(d0: real, d1: real, d2: real, a: real, b: real, c: real, x: real)
    requires d0 == d1 - d2 * c
    ensures d0 + (a - b * c) * x == (d1 + a * x) - (d2 + b * x) * c
  {
    calc {
      d0 + (a - b * c) * x;
      d1 - d2 * c + a * x - b * c * x;
      d1 + a * x - (d2 * c + b * x * c);
      (d1 + a * x) - (d2 + b * x) * c;
    }
  }

  lemma {:induction false} DotOfOtherRow(v: Matrix, j: nat, i: nat, k: nat, x: Vector, n: nat)
    requires v(j, i) != 0.0 && k != j
    ensures Dot(Pivoted(v, j, i), k, x, n) == Dot(v, k, x, n) - Dot(Pivoted(v, j, i), j, x, n) * v(k, i)
  {
    if n > 0 {
      DotOfOtherRow(v, j, i, k, x, n - 1);
      var w := Pivoted(v, j, i);
      TakenOff(Dot(w, k, x, n - 1), Dot(v, k, x, n - 1), Dot(w, j, x, n - 1), v(k, n - 1), w(j, n - 1), v(k, i),
               x(n - 1));
    }
  }

  lemma ZeroProduct(a: real, d: real)
    requires d != 0.0
    ensures a * d == 0.0 <==> a == 0.0
  {
  }

  /** The row operations of a pivot step change nothing about which vectors are mapped to zero. */
  lemma PivotedKillsTheSame(v: Matrix, j: nat, i: nat, x: Vector, n: nat)
    requires j < n && v(j, i) != 0.0
    ensures Kills(Pivoted(v, j, i), x, n) <==> Kills(v, x, n)
  {
    var w := Pivoted(v, j, i);
    DotOfPivotRow(v, j, i, x, n);
    ZeroProduct(Dot(w, j, x, n), v(j, i));
    forall k: nat | k < n && k != j
      ensures Dot(w, j, x, n) == 0.0 ==> Dot(w, k, x, n) == Dot(v, k, x, n)
    {
      DotOfOtherRow(v, j, i, k, x, n);
    }
    if Kills(w, x, n) {
      assert Dot(w, j, x, n) == 0.0;
      forall k: nat | k < n ensures Dot(v, k, x, n) == 0.0 {
        if k != j { assert Dot(w, k, x, n) == 0.0; }
      }
    }
    if Kills(v, x, n) {
      assert Dot(v, j, x, n) == 0.0;
      forall k: nat | k < n ensures Dot(w, k, x, n) == 0.0 {
        if k != j { assert Dot(v, k, x, n) == 0.0; }
      }
    }
  }

  // ------------------------------------------------------------ the form that the elimination reaches

  /**
   The matrix v after the columns before i: the column of every pivot is zero but for a one in the
   pivot's row, and a column without one is zero in every row that is not selected.
   */
  ghost predicate Reduced(v: Matrix, pivots: map<nat, nat>, selected: nat -> bool, i: nat, n: nat) {
    && (forall c | c in pivots :: c < i && pivots[c] < n && selected(pivots[c]))
    && (forall c, c' | c in pivots && c' in pivots && c != c' :: pivots[c] != pivots[c'])
    && (forall c, k: nat | c in pivots && k < n :: v(k, c) == if k == pivots[c] then 1.0 else 0.0)
    && (forall c: nat, k: nat | c < i && c !in pivots && k < n && !selected(k) :: v(k, c) == 0.0)
  }

  lemma PivotedEntries(v: Matrix, j: nat, i: nat, k: nat, c: nat)
    requires v(j, i) != 0.0
    ensures v(j, c) == 0.0 ==> Pivoted(v, j, i)(k, c) == v(k, c)
    ensures Pivoted(v, j, i)(k, i) == if k == j then 1.0 else 0.0
  {
    assert v(j, i) / v(j, i) == 1.0;
    if v(j, c) == 0.0 {
      assert v(j, c) / v(j, i) == 0.0;
    }
  }

  lemma PivotStepReduces(v: Matrix, pivots: map<nat, nat>, selected: nat -> bool, j: nat, i: nat, n: nat)
    requires Reduced(v, pivots, selected, i, n) && i < n && j < n && !selected(j) && v(j, i) != 0.0
    ensures Reduced(Pivoted(v, j, i), pivots[i := j], (k: nat) => k == j || selected(k), i + 1, n)
  {
    var w, pivots' := Pivoted(v, j, i), pivots[i := j];
    forall c, k: nat | c in pivots' && k < n ensures w(k, c) == if k == pivots'[c] then 1.0 else 0.0 {
      PivotedEntries(v, j, i, k, c);
      if c != i {
        assert v(j, c) == 0.0;
      }
    }
    forall c: nat, k: nat | c < i + 1 && c !in pivots' && k < n && k != j && !selected(k) ensures w(k, c) == 0.0 {
      assert v(j, c) == 0.0 && v(k, c) == 0.0;
      PivotedEntries(v, j, i, k, c);
    }
  }

  lemma DeadStepReduces(v: Matrix, pivots: map<nat, nat>, selected: nat -> bool, i: nat, n: nat)
    requires Reduced(v, pivots, selected, i, n) && i < n
    requires forall k: nat | k < n && !selected(k) :: v(k, i) == 0.0
    ensures Reduced(v, pivots, selected, i + 1, n)
  {
  }

  /** A product in which all terms but those at a and b vanish. */
  lemma {:induction false} DotOfTwo(v: Matrix, k: nat, x: Vector, a: nat, b: nat, n: nat)
    requires a != b && forall p: nat | p < n && p != a && p != b :: v(k, p) * x(p) == 0.0
    ensures Dot(v, k, x, n) == (if a < n then v(k, a) * x(a) else 0.0) + (if b < n then v(k, b) * x(b) else 0.0)
  {
    if n > 0 {
      DotOfTwo(v, k, x, a, b, n - 1);
    }
  }

  /** The column d in terms of the pivot columns. */
  function Combination(v: Matrix, pivots: map<nat, nat>, d: nat): Vector {
    (p: nat) => if p == d then 1.0 else if p in pivots then -v(pivots[p], d) else 0.0
  }

  lemma CombinationIsKilledByPivotRow(v: Matrix, pivots: map<nat, nat>, selected: nat -> bool, d: nat, n: nat, c: nat)
    requires Reduced(v, pivots, selected, n, n) && d < n && d !in pivots && c in pivots
    ensures Dot(v, pivots[c], Combination(v, pivots, d), n) == 0.0
  {
    var x, k := Combination(v, pivots, d), pivots[c];
    forall p: nat | p < n && p != c && p != d ensures v(k, p) * x(p) == 0.0 {
      if p in pivots {
        assert v(k, p) == 0.0;
      } else {
        assert x(p) == 0.0;
      }
    }
    DotOfTwo(v, k, x, c, d, n);
    assert v(k, c) == 1.0 && x(d) == 1.0;
  }

  lemma CombinationIsKilledByOtherRow(v: Matrix, pivots: map<nat, nat>, selected: nat -> bool, d: nat, n: nat, k: nat)
    requires Reduced(v, pivots, selected, n, n) && d < n && d !in pivots && k < n && !selected(k)
    ensures Dot(v, k, Combination(v, pivots, d), n) == 0.0
  {
    var x := Combination(v, pivots, d);
    forall p: nat | p < n && p != d && p != n ensures v(k, p) * x(p) == 0.0 {
      if p in pivots {
        assert v(k, p) == 0.0;
      } else {
        assert x(p) == 0.0;
      }
    }
    DotOfTwo(v, k, x, d, n, n);
    assert v(k, d) == 0.0;
  }

  lemma CombinationIsKilled(v: Matrix, pivots: map<nat, nat>, selected: nat -> bool, d: nat, n: nat)
    requires Reduced(v, pivots, selected, n, n) && d < n && d !in pivots
    requires forall k: nat | k < n && selected(k) :: k in pivots.Values
    ensures Kills(v, Combination(v, pivots, d), n)
  {
    forall k: nat | k < n ensures Dot(v, k, Combination(v, pivots, d), n) == 0.0 {
      if selected(k) {
        var c :| c in pivots && pivots[c] == k;
        CombinationIsKilledByPivotRow(v, pivots, selected, d, n, c);
      } else {
        CombinationIsKilledByOtherRow(v, pivots, selected, d, n, k);
      }
    }
  }

  /** A killed vector on the pivot columns is zero. */
  lemma PivotsAreIndependent(v: Matrix, pivots: map<nat, nat>, selected: nat -> bool, x: Vector, n: nat)
    requires Reduced(v, pivots, selected, n, n) && Kills(v, x, n) && SupportedOn(x, pivots.Keys, n)
    ensures IsZero(x, n)
  {
    forall c: nat | c < n ensures x(c) == 0.0 {
      if c in pivots {
        var k := pivots[c];
        forall p: nat | p < n && p != c && p != n ensures v(k, p) * x(p) == 0.0 {
          if p in pivots { assert v(k, p) == 0.0; }
        }
        DotOfTwo(v, k, x, c, n, n);
        assert v(k, c) == 1.0 && Dot(v, k, x, n) == 0.0;
      }
    }
  }

  /** Which vectors are mapped to zero is the same for both. */
  ghost predicate SameKernel(m: Matrix, v: Matrix, n: nat) {
    forall x: Vector {:trigger Kills(m, x, n)} :: Kills(m, x, n) <==> Kills(v, x, n)
  }

  /** The pivot columns are a basis of the original matrix. */
  lemma PivotsAreBasis(m: Matrix, v: Matrix, pivots: map<nat, nat>, selected: nat -> bool, n: nat)
    requires Reduced(v, pivots, selected, n, n) && forall k: nat | k < n && selected(k) :: k in pivots.Values
    requires SameKernel(m, v, n)
    ensures IsBasis(m, pivots.Keys, n)
  {
    forall x: Vector | Kills(m, x, n) && SupportedOn(x, pivots.Keys, n) ensures IsZero(x, n) {
      PivotsAreIndependent(v, pivots, selected, x, n);
    }
    forall d: nat | d < n && d !in pivots.Keys ensures exists x: Vector :: Combines(m, x, pivots.Keys, d, n) {
      var x := Combination(v, pivots, d);
      CombinationIsKilled(v, pivots, selected, d, n);
      assert Kills(m, x, n);
      assert Combines(m, x, pivots.Keys, d, n);
    }
  }

  // ------------------------------------------------------------ the elimination in place

  ghost predicate Square(a: array2<real>, n: nat) { a.Length0 == n && a.Length1 == n }

  /** The array holds v in the columns from i on. */
  ghost predicate HoldsFrom(a: array2<real>, v: Matrix, i: nat)
    reads a
  {
    forall k: nat, p: nat | k < a.Length0 && i <= p < a.Length1 :: a[k, p] == v(k, p)
  }

  method ConvertToFloat(matrix: array2<nat>) returns (out: array2<real>)
    ensures fresh(out) && out.Length0 == matrix.Length0 && out.Length1 == matrix.Length1
    ensures forall k: nat, p: nat | k < out.Length0 && p < out.Length1 :: out[k, p] == matrix[k, p] as real
  {
    out := new real[matrix.Length0, matrix.Length1];
    for k: nat := 0 to matrix.Length0
      invariant forall k': nat, p: nat | k' < k && p < out.Length1 :: out[k', p] == matrix[k', p] as real
    {
      for p: nat := 0 to matrix.Length1
        invariant forall k': nat, p': nat | k' < k && p' < out.Length1 :: out[k', p'] == matrix[k', p'] as real
        invariant forall p': nat | p' < p :: out[k, p'] == matrix[k, p'] as real
      {
        out[k, p] := matrix[k, p] as real;
      }
    }
  }

  /** The first row that is not selected and is not zero in column i, or n. */
  method FindPivot(a: array2<real>, rowSelected: array<bool>, i: nat, n: nat) returns (j: nat)
    requires Square(a, n) && rowSelected.Length == n && i < n
    ensures j <= n && (j < n ==> !rowSelected[j] && a[j, i] != 0.0)
    ensures forall k | 0 <= k < j :: rowSelected[k] || a[k, i] == 0.0
  {
    j := 0;
    while j < n
      invariant j <= n && forall k | 0 <= k < j :: rowSelected[k] || a[k, i] == 0.0
    {
      if !rowSelected[j] && a[j, i] != 0.0 {
        break;
      }
      j := j + 1;
    }
  }

  method DividePivotRow(a: array2<real>, j: nat, i: nat, n: nat)
    requires Square(a, n) && j < n && i < n && a[j, i] != 0.0
    modifies a
    ensures forall k: nat, p: nat | k < n && p < n ::
      a[k, p] == if k == j && i < p then old(a[j, p]) / old(a[j, i]) else old(a[k, p])
  {
    for p: nat := i + 1 to n
      invariant a[j, i] == old(a[j, i])
      invariant forall k: nat, q: nat | k < n && q < n ::
        a[k, q] == if k == j && i < q < p then old(a[j, q]) / old(a[j, i]) else old(a[k, q])
    {
      a[j, p] := a[j, p] / a[j, i];
    }
  }

  method ClearRow(a: array2<real>, j: nat, k: nat, i: nat, n: nat)
    requires Square(a, n) && j < n && k < n && k != j && i < n
    modifies a
    ensures forall k': nat, p: nat | k' < n && p < n ::
      a[k', p] == if k' == k && i < p then Less(old(a[k, p]), old(a[j, p]), old(a[k, i])) else old(a[k', p])
  {
    for p: nat := i + 1 to n
      invariant forall k': nat, q: nat | k' < n && q < n ::
        a[k', q] == if k' == k && i < q < p then Less(old(a[k, q]), old(a[j, q]), old(a[k, i])) else old(a[k', q])
    {
      a[k, p] := a[k, p] - a[j, p] * a[k, i];
    }
  }

  /** The other rows: those with a zero in column i are skipped. */
  method ClearOtherRows(a: array2<real>, j: nat, i: nat, n: nat)
    requires Square(a, n) && j < n && i < n
    modifies a
    ensures forall k: nat, p: nat | k < n && p < n ::
      a[k, p] == if k != j && i < p then Less(old(a[k, p]), old(a[j, p]), old(a[k, i])) else old(a[k, p])
  {
    for k: nat := 0 to n
      invariant forall k': nat, p: nat | k' < n && p < n ::
        a[k', p] == if k' != j && k' < k && i < p then Less(old(a[k', p]), old(a[j, p]), old(a[k', i]))
          else old(a[k', p])
    {
      if k != j && a[k, i] != 0.0 {
        ClearRow(a, j, k, i, n);
      }
    }
  }

  method PivotStep(a: array2<real>, j: nat, i: nat, n: nat, ghost v: Matrix)
    requires Square(a, n) && j < n && i < n && HoldsFrom(a, v, i) && v(j, i) != 0.0
    modifies a
    ensures HoldsFrom(a, Pivoted(v, j, i), i + 1)
  {
    DividePivotRow(a, j, i, n);
    ghost var w := Pivoted(v, j, i);
    assert forall p: nat | i < p < n :: a[j, p] == w(j, p);
    ClearOtherRows(a, j, i, n);
  }

  lemma PivotKeepsKernel(m: Matrix, v: Matrix, j: nat, i: nat, n: nat)
    requires SameKernel(m, v, n) && j < n && v(j, i) != 0.0
    ensures SameKernel(m, Pivoted(v, j, i), n)
  {
    forall x: Vector ensures Kills(m, x, n) <==> Kills(Pivoted(v, j, i), x, n) {
      PivotedKillsTheSame(v, j, i, x, n);
    }
  }

  /** How far the elimination is: the whole matrix it stands for, the row of every pivot column, the selected rows. */
  datatype Elimination = Elimination(v: Matrix, pivots: map<nat, nat>, selected: nat -> bool) {
    function Pivot(j: nat, i: nat): Elimination
      requires v(j, i) != 0.0
    {
      Elimination(Pivoted(v, j, i), pivots[i := j], (k: nat) => k == j || selected(k))
    }
  }

  ghost predicate Progress(m: Matrix, e: Elimination, rows: seq<bool>, i: nat, n: nat) {
    && SameKernel(m, e.v, n) && Reduced(e.v, e.pivots, e.selected, i, n)
    && |rows| == n && forall k: nat | k < n :: rows[k] == e.selected(k) && (rows[k] ==> k in e.pivots.Values)
  }

  lemma ValuesGrow(pivots: map<nat, nat>, i: nat, j: nat)
    requires i !in pivots
    ensures pivots[i := j].Values == pivots.Values + {j}
  {
    assert i in pivots[i := j];
    forall k | k in pivots.Values ensures k in pivots[i := j].Values {
      var c :| c in pivots && pivots[c] == k;
      assert c in pivots[i := j] && pivots[i := j][c] == k;
    }
  }

  lemma PivotProgress(m: Matrix, e: Elimination, rows: seq<bool>, j: nat, i: nat, n: nat)
    requires Progress(m, e, rows, i, n) && i < n && j < n && !rows[j] && e.v(j, i) != 0.0
    ensures Progress(m, e.Pivot(j, i), rows[j := true], i + 1, n)
    ensures |e.Pivot(j, i).pivots.Keys| == |e.pivots.Keys| + 1
  {
    PivotKeepsKernel(m, e.v, j, i, n);
    PivotStepReduces(e.v, e.pivots, e.selected, j, i, n);
    ValuesGrow(e.pivots, i, j);
    assert e.pivots[i := j].Keys == e.pivots.Keys + {i};
  }

  lemma DeadProgress(m: Matrix, e: Elimination, rows: seq<bool>, i: nat, n: nat)
    requires Progress(m, e, rows, i, n) && i < n
    requires forall k: nat | k < n :: rows[k] || e.v(k, i) == 0.0
    ensures Progress(m, e, rows, i + 1, n)
  {
    DeadStepReduces(e.v, e.pivots, e.selected, i, n);
  }

  /** What compute_rank does with the row that it finds for column i. */
  method SelectRow(a: array2<real>, rowSelected: array<bool>, j: nat, i: nat, n: nat, ghost m: Matrix,
                   ghost e: Elimination)
    requires Square(a, n) && rowSelected.Length == n && i < n && j < n && !rowSelected[j] && a[j, i] != 0.0
    requires HoldsFrom(a, e.v, i) && Progress(m, e, rowSelected[..], i, n)
    modifies a, rowSelected
    ensures e.v(j, i) != 0.0
    ensures HoldsFrom(a, e.Pivot(j, i).v, i + 1) && Progress(m, e.Pivot(j, i), rowSelected[..], i + 1, n)
    ensures |e.Pivot(j, i).pivots.Keys| == |e.pivots.Keys| + 1
  {
    PivotProgress(m, e, rowSelected[..], j, i, n);
    ghost var rows := rowSelected[..];
    rowSelected[j] := true;
    assert rowSelected[..] == rows[j := true];
    PivotStep(a, j, i, n, e.v);
  }

  /** compute_rank: the number of columns in a basis, hence n exactly if only zero is mapped to zero. */
  method ComputeRank(matrix: array2<nat>, n: nat, ghost m: Matrix) returns (rank: nat, ghost columns: set<nat>)
    requires matrix.Length0 == matrix.Length1 == n
    requires forall k: nat, p: nat | k < n && p < n :: m(k, p) == matrix[k, p] as real
    ensures IsBasis(m, columns, n) && rank == |columns|
    ensures rank == n <==> TrivialKernel(m, n)
  {
    var a := ConvertToFloat(matrix);
    rank := 0;
    var rowSelected := new bool[n](_ => false);
    ghost var e := Elimination(m, map[], (k: nat) => false);
    NothingYet(m, rowSelected[..], n);
    for i: nat := 0 to n
      invariant HoldsFrom(a, e.v, i) && Progress(m, e, rowSelected[..], i, n) && rank == |e.pivots.Keys|
    {
      var j := FindPivot(a, rowSelected, i, n);
      if j != n {
        rank := rank + 1;
        SelectRow(a, rowSelected, j, i, n, m, e);
        e := e.Pivot(j, i);
      } else {
        DeadProgress(m, e, rowSelected[..], i, n);
      }
    }
    columns := e.pivots.Keys;
    Conclusion(m, e, rowSelected[..], n);
  }

  lemma NothingYet(m: Matrix, rows: seq<bool>, n: nat)
    requires |rows| == n && forall k: nat | k < n :: !rows[k]
    ensures Progress(m, Elimination(m, map[], (k: nat) => false), rows, 0, n)
  {
  }

  lemma Conclusion(m: Matrix, e: Elimination, rows: seq<bool>, n: nat)
    requires Progress(m, e, rows, n, n)
    ensures IsBasis(m, e.pivots.Keys, n) && (|e.pivots.Keys| == n <==> TrivialKernel(m, n))
  {
    PivotsAreBasis(m, e.v, e.pivots, e.selected, n);
    FullRankIffTrivialKernel(m, e.pivots.Keys, n);
  }
}
