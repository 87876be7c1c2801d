/** The value of a `Mat<T, R, C>`: its `[[T; C]; R]` grid of integer cells,
    `g[i][j]` being row `i`, column `j`. The functions here say what each
    matrix operation produces; the `Mat` class in module `Matrix` computes
    them with the source's loops. */
module Grid {
  import opened Base

  /** `g` has `r` rows of `c` cells each. */
  predicate IsShape(g: seq<seq<int>>, r: nat, c: nat)
  {
    |g| == r && forall i | 0 <= i < r :: |g[i]| == c
  }

  /** Every cell `x`: `default()` and `zeros()` (x = 0), `ones()` (x = 1). */
  function Fill(r: nat, c: nat, x: int): seq<seq<int>>
  {
    seq(r, i => seq(c, j => x))
  }

  function Add(a: seq<seq<int>>, b: seq<seq<int>>, r: nat, c: nat): seq<seq<int>>
    requires IsShape(a, r, c) && IsShape(b, r, c)
  {
    seq(r, i requires 0 <= i < r => seq(c, j requires 0 <= j < c => a[i][j] + b[i][j]))
  }

  function Sub(a: seq<seq<int>>, b: seq<seq<int>>, r: nat, c: nat): seq<seq<int>>
    requires IsShape(a, r, c) && IsShape(b, r, c)
  {
    seq(r, i requires 0 <= i < r => seq(c, j requires 0 <= j < c => a[i][j] - b[i][j]))
  }

  function Scale(a: seq<seq<int>>, r: nat, c: nat, s: int): seq<seq<int>>
    requires IsShape(a, r, c)
  {
    seq(r, i requires 0 <= i < r => seq(c, j requires 0 <= j < c => a[i][j] * s))
  }

  /** Every cell divided by `s` with Rust's truncating integer division. */
  function DivScalar(a: seq<seq<int>>, r: nat, c: nat, s: int): seq<seq<int>>
    requires IsShape(a, r, c) && s != 0
  {
    seq(r, i requires 0 <= i < r => seq(c, j requires 0 <= j < c => TruncDiv(a[i][j], s)))
  }

  /** Column `j` of a grid of `|b|` rows. */
  function Column(b: seq<seq<int>>, c: nat, j: nat): seq<int>
    requires IsShape(b, |b|, c) && j < c
  {
    seq(|b|, k requires 0 <= k < |b| => b[k][j])
  }

  /** The matrix product of an `r x c` and a `c x c2` grid: cell `(i, j)` is
      the sum over `k < c` of `a[i][k] * b[k][j]`, accumulated from 0. */
  function Mul(a: seq<seq<int>>, b: seq<seq<int>>, r: nat, c: nat, c2: nat): seq<seq<int>>
    requires IsShape(a, r, c) && IsShape(b, c, c2)
  {
    seq(r, i requires 0 <= i < r => seq(c2, j requires 0 <= j < c2 => Dot(a[i], Column(b, c2, j))))
  }

  function Transpose(a: seq<seq<int>>, r: nat, c: nat): seq<seq<int>>
    requires IsShape(a, r, c)
  {
    seq(c, j requires 0 <= j < c => seq(r, i requires 0 <= i < r => a[i][j]))
  }

  function Identity(n: nat): seq<seq<int>>
  {
    seq(n, i => seq(n, j => if i == j then 1 else 0))
  }

  function Diag(d: seq<int>): seq<seq<int>>
  {
    seq(|d|, i requires 0 <= i < |d| => seq(|d|, j => if i == j then d[i] else 0))
  }

  /** The `r1 x c1` window whose top-left corner is `(top, left)`; cells of
      the window that fall outside the source grid keep the default 0. */
  function Submatrix(a: seq<seq<int>>, r: nat, c: nat, top: nat, left: nat, r1: nat, c1: nat): seq<seq<int>>
    requires IsShape(a, r, c)
  {
    seq(r1, i requires 0 <= i < r1 => seq(c1, j requires 0 <= j < c1 => if top + i < r && left + j < c then a[top + i][left + j] else 0))
  }

  /** The cells row after row (`flatten_row_major`). */
  function FlattenRowMajor(a: seq<seq<int>>): seq<int>
  {
    if |a| == 0 then [] else FlattenRowMajor(a[..|a| - 1]) + a[|a| - 1]
  }

  /** The cells column after column (`flatten_col_major`): the rows of the
      transpose, one after another. */
  function FlattenColMajor(a: seq<seq<int>>, r: nat, c: nat): seq<int>
    requires IsShape(a, r, c)
  {
    FlattenRowMajor(Transpose(a, r, c))
  }

  /** `from_vec` on a slice of the right length: cell `(i, j)` is slot
      `i * c + j`. */
  function FromVec(v: seq<int>, r: nat, c: nat): (g: seq<seq<int>>)
    requires |v| == r * c
    ensures IsShape(g, r, c)
  {
    seq(r, i requires 0 <= i < r =>
      seq(c, j requires 0 <= j < c => IndexInRange(i, j, r, c); v[i * c + j]))
  }

  /** `from_vec_col_major` on a slice of the right length: cell `(i, j)` is
      slot `j * r + i`. */
  function FromVecColMajor(v: seq<int>, r: nat, c: nat): (g: seq<seq<int>>)
    requires |v| == r * c
    ensures IsShape(g, r, c)
  {
    seq(r, i requires 0 <= i < r =>
      seq(c, j requires 0 <= j < c => IndexInRange(j, i, c, r); v[j * r + i]))
  }

  /** `sum`: the cells added in row-major order, from 0. */
  function Sum(a: seq<seq<int>>): int
  {
    Total(FlattenRowMajor(a))
  }

  /** `product`: the cells multiplied in row-major order, from 1. */
  function Product(a: seq<seq<int>>): int
  {
    Prod(FlattenRowMajor(a))
  }

  lemma IndexInRange(i: nat, j: nat, r: nat, c: nat)
    requires i < r && j < c
    ensures i * c + j < r * c
  {
    assert (i + 1) * c <= r * c;
  }

  // ---- element-wise operations ----

  lemma AddCommutes(a: seq<seq<int>>, b: seq<seq<int>>, r: nat, c: nat)
    requires IsShape(a, r, c) && IsShape(b, r, c)
    ensures Add(a, b, r, c) == Add(b, a, r, c)
  {
    var s, t := Add(a, b, r, c), Add(b, a, r, c);
    forall i | 0 <= i < r
      ensures s[i] == t[i]
    {
    }
  }

  lemma SubUndoesAdd(a: seq<seq<int>>, b: seq<seq<int>>, r: nat, c: nat)
    requires IsShape(a, r, c) && IsShape(b, r, c)
    ensures IsShape(Add(a, b, r, c), r, c)
    ensures Sub(Add(a, b, r, c), b, r, c) == a
  {
    var s := Sub(Add(a, b, r, c), b, r, c);
    forall i | 0 <= i < r
      ensures s[i] == a[i]
    {
    }
  }

  lemma DivUndoesScale(a: seq<seq<int>>, r: nat, c: nat, s: int)
    requires IsShape(a, r, c) && s != 0
    ensures IsShape(Scale(a, r, c, s), r, c)
    ensures DivScalar(Scale(a, r, c, s), r, c, s) == a
  {
    var d := DivScalar(Scale(a, r, c, s), r, c, s);
    forall i, j | 0 <= i < r && 0 <= j < c
      ensures d[i][j] == a[i][j]
    {
      TruncDivExact(a[i][j], s);
    }
    forall i | 0 <= i < r
      ensures d[i] == a[i]
    {
    }
  }

  // ---- matrix product, identity and diagonal ----

  /** A sum of products in which only one pair can be nonzero. */
  lemma {:induction false} DotSingle(u: seq<int>, v: seq<int>, k: nat)
    requires |u| == |v| && k < |u|
    requires forall m | 0 <= m < |u| && m != k :: u[m] == 0
    ensures Dot(u, v) == u[k] * v[k]
    ensures Dot(v, u) == u[k] * v[k]
  {
    DotSymmetric(u, v);
    var n := |u| - 1;
    if n == k {
      DotZero(u[..n], v[..n]);
    } else {
      DotSingle(u[..n], v[..n], k);
    }
  }

  lemma {:induction false} DotZero(u: seq<int>, v: seq<int>)
    requires |u| == |v|
    requires forall m | 0 <= m < |u| :: u[m] == 0
    ensures Dot(u, v) == 0
  {
    if |u| > 0 {
      DotZero(u[..|u| - 1], v[..|v| - 1]);
    }
  }

  /** Multiplying by a diagonal matrix on the left scales row `i` by `d[i]`. */
  lemma MulDiagLeft(d: seq<int>, a: seq<seq<int>>, c: nat)
    requires IsShape(a, |d|, c)
    ensures IsShape(Diag(d), |d|, |d|)
    ensures forall i, j | 0 <= i < |d| && 0 <= j < c ::
      Mul(Diag(d), a, |d|, |d|, c)[i][j] == d[i] * a[i][j]
  {
    var n := |d|;
    forall i, j | 0 <= i < n && 0 <= j < c
      ensures Mul(Diag(d), a, n, n, c)[i][j] == d[i] * a[i][j]
    {
      DotSingle(Diag(d)[i], Column(a, c, j), i);
    }
  }

  lemma MulIdentityLeft(a: seq<seq<int>>, r: nat, c: nat)
    requires IsShape(a, r, c)
    ensures IsShape(Identity(r), r, r)
    ensures Mul(Identity(r), a, r, r, c) == a
  {
    var m := Mul(Identity(r), a, r, r, c);
    forall i, j | 0 <= i < r && 0 <= j < c
      ensures m[i][j] == a[i][j]
    {
      DotSingle(Identity(r)[i], Column(a, c, j), i);
    }
    forall i | 0 <= i < r
      ensures m[i] == a[i]
    {
    }
  }

  lemma MulIdentityRight(a: seq<seq<int>>, r: nat, c: nat)
    requires IsShape(a, r, c)
    ensures IsShape(Identity(c), c, c)
    ensures Mul(a, Identity(c), r, c, c) == a
  {
    var m := Mul(a, Identity(c), r, c, c);
    forall i, j | 0 <= i < r && 0 <= j < c
      ensures m[i][j] == a[i][j]
    {
      DotSingle(Column(Identity(c), c, j), a[i], j);
    }
    forall i | 0 <= i < r
      ensures m[i] == a[i]
    {
    }
  }

  lemma IdentityIsDiagOfOnes(n: nat)
    ensures Identity(n) == Diag(seq(n, i => 1))
  {
  }

  /** The integration test's 3 x 3 product: rows `(1, 2, 3)` times rows
      `(2, 4, 6)` gives rows `(12, 24, 36)`; and the first grid times 2 is
      the second. */
  lemma MulExample()
    ensures Mul(Fill3([1, 2, 3]), Fill3([2, 4, 6]), 3, 3, 3) == Fill3([12, 24, 36])
    ensures Scale(Fill3([1, 2, 3]), 3, 3, 2) == Fill3([2, 4, 6])
  {
    var a, b := Fill3([1, 2, 3]), Fill3([2, 4, 6]);
    var m := Mul(a, b, 3, 3, 3);
    forall i, j | 0 <= i < 3 && 0 <= j < 3
      ensures m[i][j] == [12, 24, 36][j]
    {
      var col := Column(b, 3, j);
      assert col == [[2, 4, 6][j], [2, 4, 6][j], [2, 4, 6][j]];
      assert a[i] == [1, 2, 3];
      Dot3(a[i], col);
    }
    forall i | 0 <= i < 3
      ensures m[i] == [12, 24, 36]
    {
    }
    var s := Scale(a, 3, 3, 2);
    forall i | 0 <= i < 3
      ensures s[i] == [2, 4, 6]
    {
    }
  }

  /** Three copies of one row. */
  function Fill3(row: seq<int>): (g: seq<seq<int>>)
    requires |row| == 3
    ensures IsShape(g, 3, 3)
  {
    [row, row, row]
  }

  // ---- transpose ----

  lemma TransposeTwice(a: seq<seq<int>>, r: nat, c: nat)
    requires IsShape(a, r, c)
    ensures IsShape(Transpose(a, r, c), c, r)
    ensures Transpose(Transpose(a, r, c), c, r) == a
  {
    var t := Transpose(Transpose(a, r, c), c, r);
    forall i | 0 <= i < r
      ensures t[i] == a[i]
    {
    }
  }

  lemma TransposeIdentity(n: nat)
    ensures Transpose(Identity(n), n, n) == Identity(n)
  {
    var t := Transpose(Identity(n), n, n);
    forall j | 0 <= j < n
      ensures t[j] == Identity(n)[j]
    {
    }
  }

  /** Transposing exchanges the order of a product. */
  lemma TransposeOfProduct(a: seq<seq<int>>, b: seq<seq<int>>, r: nat, c: nat, c2: nat)
    requires IsShape(a, r, c) && IsShape(b, c, c2)
    ensures IsShape(Transpose(a, r, c), c, r) && IsShape(Transpose(b, c, c2), c2, c)
    ensures Transpose(Mul(a, b, r, c, c2), r, c2)
         == Mul(Transpose(b, c, c2), Transpose(a, r, c), c2, c, r)
  {
    var lhs := Transpose(Mul(a, b, r, c, c2), r, c2);
    var rhs := Mul(Transpose(b, c, c2), Transpose(a, r, c), c2, c, r);
    forall j, i | 0 <= j < c2 && 0 <= i < r
      ensures lhs[j][i] == rhs[j][i]
    {
      assert Transpose(b, c, c2)[j] == Column(b, c2, j);
      assert Column(Transpose(a, r, c), r, i) == a[i];
      DotSymmetric(a[i], Column(b, c2, j));
    }
    forall j | 0 <= j < c2
      ensures lhs[j] == rhs[j]
    {
    }
  }

  // ---- submatrix ----

  lemma SubmatrixWhole(a: seq<seq<int>>, r: nat, c: nat)
    requires IsShape(a, r, c)
    ensures Submatrix(a, r, c, 0, 0, r, c) == a
  {
    var s := Submatrix(a, r, c, 0, 0, r, c);
    forall i | 0 <= i < r
      ensures s[i] == a[i]
    {
    }
  }

  // ---- flattening ----

  lemma {:induction false} FlattenRowMajorLength(a: seq<seq<int>>, r: nat, c: nat)
    requires IsShape(a, r, c)
    ensures |FlattenRowMajor(a)| == r * c
  {
    if r > 0 {
      FlattenRowMajorLength(a[..r - 1], r - 1, c);
      assert (r - 1) * c + c == r * c;
    }
  }

  /** Row-major flattening puts cell `(i, j)` at position `i * c + j`. */
  lemma {:induction false} FlattenRowMajorCell(a: seq<seq<int>>, r: nat, c: nat, i: nat, j: nat)
    requires IsShape(a, r, c) && i < r && j < c
    ensures |FlattenRowMajor(a)| == r * c
    ensures i * c + j < r * c && FlattenRowMajor(a)[i * c + j] == a[i][j]
  {
    FlattenRowMajorLength(a, r, c);
    IndexInRange(i, j, r, c);
    var init := a[..r - 1];
    FlattenRowMajorLength(init, r - 1, c);
    assert FlattenRowMajor(a) == FlattenRowMajor(init) + a[r - 1];
    if i < r - 1 {
      FlattenRowMajorCell(init, r - 1, c, i, j);
    } else {
      assert i * c + j == |FlattenRowMajor(init)| + j;
    }
  }

  lemma FlattenRowMajorAt(a: seq<seq<int>>, r: nat, c: nat)
    requires IsShape(a, r, c)
    ensures |FlattenRowMajor(a)| == r * c
    ensures forall i, j | 0 <= i < r && 0 <= j < c ::
      i * c + j < r * c && FlattenRowMajor(a)[i * c + j] == a[i][j]
  {
    FlattenRowMajorLength(a, r, c);
    forall i, j | 0 <= i < r && 0 <= j < c
      ensures i * c + j < r * c && FlattenRowMajor(a)[i * c + j] == a[i][j]
    {
      FlattenRowMajorCell(a, r, c, i, j);
    }
  }

  lemma MulByZero(r: nat, c: nat)
    ensures c == 0 ==> r * c == 0
  {
  }

  lemma MulCancel(x: nat, r: nat, c: nat)
    requires c > 0 && x * c < r * c
    ensures x < r
  {
  }

  /** Every position below `r * c` is `i * c + j` for one cell `(i, j)`. */
  lemma Decompose(p: nat, r: nat, c: nat)
    requires p < r * c
    ensures c > 0 && p / c < r && p % c < c && p == (p / c) * c + p % c
  {
    MulByZero(r, c);
    DivMod(p, c);
    assert (p / c) * c < r * c;
    MulCancel(p / c, r, c);
  }

  /** Flattening one more row appends that row. */
  lemma FlattenRowMajorSnoc(a: seq<seq<int>>, i: nat)
    requires i < |a|
    ensures FlattenRowMajor(a[..i + 1]) == FlattenRowMajor(a[..i]) + a[i]
  {
    assert a[..i + 1][..i] == a[..i];
  }

  /** Column-major flattening puts cell `(i, j)` at position `j * r + i`. */
  lemma FlattenColMajorAt(a: seq<seq<int>>, r: nat, c: nat)
    requires IsShape(a, r, c)
    ensures |FlattenColMajor(a, r, c)| == r * c
    ensures forall i, j | 0 <= i < r && 0 <= j < c ::
      j * r + i < r * c && FlattenColMajor(a, r, c)[j * r + i] == a[i][j]
  {
    var t := Transpose(a, r, c);
    FlattenRowMajorLength(t, c, r);
    assert c * r == r * c;
    forall i, j | 0 <= i < r && 0 <= j < c
      ensures j * r + i < r * c && FlattenColMajor(a, r, c)[j * r + i] == a[i][j]
    {
      FlattenRowMajorCell(t, c, r, j, i);
    }
  }

  /** `from_vec` inverts `flatten_row_major`... */
  lemma FromVecOfFlatten(a: seq<seq<int>>, r: nat, c: nat)
    requires IsShape(a, r, c)
    ensures |FlattenRowMajor(a)| == r * c
    ensures FromVec(FlattenRowMajor(a), r, c) == a
  {
    FlattenRowMajorAt(a, r, c);
    var g := FromVec(FlattenRowMajor(a), r, c);
    forall i | 0 <= i < r
      ensures g[i] == a[i]
    {
    }
  }

  /** ... and `flatten_row_major` inverts `from_vec`. */
  lemma FlattenOfFromVec(v: seq<int>, r: nat, c: nat)
    requires |v| == r * c
    ensures FlattenRowMajor(FromVec(v, r, c)) == v
  {
    var g := FromVec(v, r, c);
    FlattenRowMajorLength(g, r, c);
    var f := FlattenRowMajor(g);
    forall p | 0 <= p < |v|
      ensures f[p] == v[p]
    {
      Decompose(p, r, c);
      FlattenRowMajorCell(g, r, c, p / c, p % c);
    }
  }

  /** `from_vec_col_major` inverts `flatten_col_major`... */
  lemma FromVecColMajorOfFlatten(a: seq<seq<int>>, r: nat, c: nat)
    requires IsShape(a, r, c)
    ensures |FlattenColMajor(a, r, c)| == r * c
    ensures FromVecColMajor(FlattenColMajor(a, r, c), r, c) == a
  {
    FlattenColMajorAt(a, r, c);
    var g := FromVecColMajor(FlattenColMajor(a, r, c), r, c);
    forall i | 0 <= i < r
      ensures g[i] == a[i]
    {
    }
  }

  /** ... and `flatten_col_major` inverts `from_vec_col_major`. */
  lemma FlattenColMajorOfFromVec(v: seq<int>, r: nat, c: nat)
    requires |v| == r * c
    ensures FlattenColMajor(FromVecColMajor(v, r, c), r, c) == v
  {
    assert |v| == c * r;
    var t := Transpose(FromVecColMajor(v, r, c), r, c);
    var g := FromVec(v, c, r);
    forall j | 0 <= j < c
      ensures t[j] == g[j]
    {
    }
    assert t == g;
    FlattenOfFromVec(v, c, r);
  }

  // ---- sum and product ----

  lemma {:induction false} TotalPointwise(s: seq<int>, t: seq<int>)
    requires |s| == |t|
    ensures Total(seq(|s|, k requires 0 <= k < |s| => s[k] + t[k])) == Total(s) + Total(t)
  {
    if |s| > 0 {
      var n := |s| - 1;
      TotalPointwise(s[..n], t[..n]);
      var u := seq(|s|, k requires 0 <= k < |s| => s[k] + t[k]);
      assert u[..n] == seq(n, k requires 0 <= k < n => s[..n][k] + t[..n][k]);
    }
  }

  /** `sum` distributes over matrix addition. */
  lemma SumOfAdd(a: seq<seq<int>>, b: seq<seq<int>>, r: nat, c: nat)
    requires IsShape(a, r, c) && IsShape(b, r, c)
    ensures Sum(Add(a, b, r, c)) == Sum(a) + Sum(b)
  {
    var fa, fb := FlattenRowMajor(a), FlattenRowMajor(b);
    var s := Add(a, b, r, c);
    FlattenRowMajorAt(a, r, c);
    FlattenRowMajorAt(b, r, c);
    FlattenRowMajorAt(s, r, c);
    var fs := FlattenRowMajor(s);
    forall p | 0 <= p < r * c
      ensures fs[p] == fa[p] + fb[p]
    {
      Decompose(p, r, c);
      FlattenRowMajorCell(s, r, c, p / c, p % c);
      FlattenRowMajorCell(a, r, c, p / c, p % c);
      FlattenRowMajorCell(b, r, c, p / c, p % c);
    }
    assert fs == seq(|fa|, k requires 0 <= k < |fa| => fa[k] + fb[k]);
    TotalPointwise(fa, fb);
  }

  /** One zero cell makes `product` zero. */
  lemma ProductWithZeroCell(a: seq<seq<int>>, r: nat, c: nat, i: nat, j: nat)
    requires IsShape(a, r, c) && i < r && j < c && a[i][j] == 0
    ensures Product(a) == 0
  {
    FlattenRowMajorAt(a, r, c);
    ProdZero(FlattenRowMajor(a), i * c + j);
  }

  /** The trace of the identity: `sum` of `identity()` is its size. */
  lemma {:induction false} SumOfIdentity(n: nat)
    ensures Sum(Identity(n)) == n
  {
    SumOfRows(Identity(n), n, n);
    forall i | 0 <= i < n
      ensures Total(Identity(n)[i]) == 1
    {
      var row := Identity(n)[i];
      TotalSingle(row, i);
    }
    RowTotalsOfOnes(Identity(n), n);
  }

  /** `sum` adds the row totals, row by row. */
  lemma {:induction false} SumOfRows(a: seq<seq<int>>, r: nat, c: nat)
    requires IsShape(a, r, c)
    ensures Sum(a) == RowTotals(a)
  {
    if r > 0 {
      SumOfRows(a[..r - 1], r - 1, c);
      TotalAppend(FlattenRowMajor(a[..r - 1]), a[r - 1]);
    }
  }

  function RowTotals(a: seq<seq<int>>): int
  {
    if |a| == 0 then 0 else RowTotals(a[..|a| - 1]) + Total(a[|a| - 1])
  }

  lemma {:induction false} RowTotalsOfOnes(a: seq<seq<int>>, n: nat)
    requires |a| == n && forall i | 0 <= i < n :: Total(a[i]) == 1
    ensures RowTotals(a) == n
  {
    if n > 0 {
      RowTotalsOfOnes(a[..n - 1], n - 1);
    }
  }

  lemma {:induction false} TotalSingle(s: seq<int>, k: nat)
    requires k < |s| && forall m | 0 <= m < |s| && m != k :: s[m] == (if m == k then 1 else 0)
    requires s[k] == 1
    ensures Total(s) == 1
  {
    if k < |s| - 1 {
      TotalSingle(s[..|s| - 1], k);
    } else {
      TotalZero(s[..|s| - 1]);
    }
  }

  lemma {:induction false} TotalZero(s: seq<int>)
    requires forall m | 0 <= m < |s| :: s[m] == 0
    ensures Total(s) == 0
  {
    if |s| > 0 {
      TotalZero(s[..|s| - 1]);
    }
  }
}
