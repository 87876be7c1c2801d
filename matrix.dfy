/** `Mat<T, R, C>`: a fixed `R x C` grid stored in place, here an
    `array2<int>` whose dimensions play the part of the const generics.
    Each operator builds its result the way the source does, by writing the
    cells of a fresh grid in nested loops, and is proved to produce the
    matching function of module `Grid`. */
module Matrix {
  import opened Base
  import Grid

  /** The grid an array holds, row by row. */
  ghost function CellsOf(a: array2<int>): (g: seq<seq<int>>)
    reads a
    ensures Grid.IsShape(g, a.Length0, a.Length1)
  {
    seq(a.Length0, i requires 0 <= i < a.Length0 reads a =>
      seq(a.Length1, j requires 0 <= j < a.Length1 reads a => a[i, j]))
  }

  /** An array whose every cell agrees with `g` holds `g`. */
  lemma CellsMatch(a: array2<int>, g: seq<seq<int>>)
    requires Grid.IsShape(g, a.Length0, a.Length1)
    requires forall i, j | 0 <= i < a.Length0 && 0 <= j < a.Length1 :: a[i, j] == g[i][j]
    ensures CellsOf(a) == g
  {
    forall i | 0 <= i < a.Length0
      ensures CellsOf(a)[i] == g[i]
    {
    }
  }

  class Mat {
    const data: array2<int>

    /** `rows()`: the const generic `R`. */
    function Rows(): nat
    {
      data.Length0
    }

    /** `cols()`: the const generic `C`. */
    function Cols(): nat
    {
      data.Length1
    }

    /** `is_square()`. */
    function IsSquare(): bool
    {
      Rows() == Cols()
    }

    ghost function Cells(): (g: seq<seq<int>>)
      reads data
      ensures Grid.IsShape(g, Rows(), Cols())
    {
      CellsOf(data)
    }

    /** `Mat::new(data)`. */
    constructor (grid: seq<seq<int>>, r: nat, c: nat)
      requires Grid.IsShape(grid, r, c)
      ensures fresh(data) && Rows() == r && Cols() == c
      ensures Cells() == grid
    {
      data := new int[r, c]((i, j) requires 0 <= i < r && 0 <= j < c => grid[i][j]);
      new;
      CellsMatch(data, grid);
    }

    /** `Mat { data: result_data }`: takes over a grid built by an operator. */
    constructor Wrap(a: array2<int>)
      ensures data == a
    {
      data := a;
    }

    /** `zeros()`, which is also `default()` for integers. */
    constructor Zeros(r: nat, c: nat)
      ensures fresh(data) && Rows() == r && Cols() == c
      ensures Cells() == Grid.Fill(r, c, 0)
      ensures forall i, j | 0 <= i < r && 0 <= j < c :: data[i, j] == 0
    {
      data := new int[r, c]((i, j) => 0);
      new;
      CellsMatch(data, Grid.Fill(r, c, 0));
    }

    /** `ones()`. */
    constructor Ones(r: nat, c: nat)
      ensures fresh(data) && Rows() == r && Cols() == c
      ensures Cells() == Grid.Fill(r, c, 1)
      ensures forall i, j | 0 <= i < r && 0 <= j < c :: data[i, j] == 1
    {
      data := new int[r, c]((i, j) => 1);
      new;
      CellsMatch(data, Grid.Fill(r, c, 1));
    }

    /** `let mut result = self;`: `Mat` is `Copy`, so this is a cell-by-cell
        copy into fresh storage. */
    constructor CopyOf(m: Mat)
      ensures fresh(data) && Rows() == m.Rows() && Cols() == m.Cols()
      ensures forall i, j | 0 <= i < Rows() && 0 <= j < Cols() :: data[i, j] == m.data[i, j]
    {
      data := new int[m.Rows(), m.Cols()]((i, j) reads m.data
        requires 0 <= i < m.Rows() && 0 <= j < m.Cols() => m.data[i, j]);
    }

    /** `get(row, col)`: `None` exactly when the position is outside the
        grid. */
    function Get(row: nat, col: nat): (r: Option<int>)
      reads data
      ensures r.None? <==> row >= Rows() || col >= Cols()
      ensures r.Some? ==> r.value == Cells()[row][col]
    {
      if row < Rows() && col < Cols() then Some(data[row, col]) else None
    }

    /** `self[index]`: row `index`; out of range it panics. */
    function Index(index: nat): (r: Checked<seq<int>>)
      reads data
      ensures r.Panic? <==> index >= Rows()
      ensures r.Value? ==> r.value == Cells()[index]
    {
      if index < Rows() then
        Value(seq(Cols(), j requires 0 <= j < Cols() reads data => data[index, j]))
      else
        Panic(INDEX_MESSAGE)
    }

    /** `set(row, col, value)`: out of range it reports an error and leaves
        the grid alone; otherwise exactly one cell changes. */
    method Set(row: nat, col: nat, value: int) returns (r: Result<(), string>)
      modifies data
      ensures r.Err? <==> row >= Rows() || col >= Cols()
      ensures r.Err? ==> r.error == "Index out of bounds" && Cells() == old(Cells())
      ensures r.Ok? ==> Cells() == old(Cells())[row := old(Cells())[row][col := value]]
    {
      if row >= Rows() || col >= Cols() {
        return Err("Index out of bounds");
      }
      ghost var before := Cells();
      data[row, col] := value;
      CellsMatch(data, before[row := before[row][col := value]]);
      r := Ok(());
    }

    /** `self + rhs`, cell by cell. */
    method Add(rhs: Mat) returns (result: Mat)
      requires rhs.Rows() == Rows() && rhs.Cols() == Cols()
      ensures fresh(result.data) && result.Rows() == Rows() && result.Cols() == Cols()
      ensures result.Cells() == Grid.Add(Cells(), rhs.Cells(), Rows(), Cols())
    {
      result := new Mat.CopyOf(this);
      var out := result.data;
      for i := 0 to Rows()
        invariant forall r, c | 0 <= r < i && 0 <= c < Cols() :: out[r, c] == data[r, c] + rhs.data[r, c]
        invariant forall r, c | i <= r < Rows() && 0 <= c < Cols() :: out[r, c] == data[r, c]
      {
        for j := 0 to Cols()
          invariant forall r, c | 0 <= r < i && 0 <= c < Cols() :: out[r, c] == data[r, c] + rhs.data[r, c]
          invariant forall c | 0 <= c < j :: out[i, c] == data[i, c] + rhs.data[i, c]
          invariant forall r, c | i <= r < Rows() && 0 <= c < Cols() && (r > i || c >= j) :: out[r, c] == data[r, c]
        {
          out[i, j] := out[i, j] + rhs.data[i, j];
        }
      }
      CellsMatch(out, Grid.Add(Cells(), rhs.Cells(), Rows(), Cols()));
    }

    /** `self - rhs`, cell by cell. */
    method Sub(rhs: Mat) returns (result: Mat)
      requires rhs.Rows() == Rows() && rhs.Cols() == Cols()
      ensures fresh(result.data) && result.Rows() == Rows() && result.Cols() == Cols()
      ensures result.Cells() == Grid.Sub(Cells(), rhs.Cells(), Rows(), Cols())
    {
      result := new Mat.CopyOf(this);
      var out := result.data;
      for i := 0 to Rows()
        invariant forall r, c | 0 <= r < i && 0 <= c < Cols() :: out[r, c] == data[r, c] - rhs.data[r, c]
        invariant forall r, c | i <= r < Rows() && 0 <= c < Cols() :: out[r, c] == data[r, c]
      {
        for j := 0 to Cols()
          invariant forall r, c | 0 <= r < i && 0 <= c < Cols() :: out[r, c] == data[r, c] - rhs.data[r, c]
          invariant forall c | 0 <= c < j :: out[i, c] == data[i, c] - rhs.data[i, c]
          invariant forall r, c | i <= r < Rows() && 0 <= c < Cols() && (r > i || c >= j) :: out[r, c] == data[r, c]
        {
          out[i, j] := out[i, j] - rhs.data[i, j];
        }
      }
      CellsMatch(out, Grid.Sub(Cells(), rhs.Cells(), Rows(), Cols()));
    }

    /** `self * scalar`, every cell. */
    method Scale(scalar: int) returns (result: Mat)
      ensures fresh(result.data) && result.Rows() == Rows() && result.Cols() == Cols()
      ensures result.Cells() == Grid.Scale(Cells(), Rows(), Cols(), scalar)
    {
      result := new Mat.CopyOf(this);
      var out := result.data;
      for i := 0 to Rows()
        invariant forall r, c | 0 <= r < i && 0 <= c < Cols() :: out[r, c] == data[r, c] * scalar
        invariant forall r, c | i <= r < Rows() && 0 <= c < Cols() :: out[r, c] == data[r, c]
      {
        for j := 0 to Cols()
          invariant forall r, c | 0 <= r < i && 0 <= c < Cols() :: out[r, c] == data[r, c] * scalar
          invariant forall c | 0 <= c < j :: out[i, c] == data[i, c] * scalar
          invariant forall r, c | i <= r < Rows() && 0 <= c < Cols() && (r > i || c >= j) :: out[r, c] == data[r, c]
        {
          out[i, j] := out[i, j] * scalar;
        }
      }
      CellsMatch(out, Grid.Scale(Cells(), Rows(), Cols(), scalar));
    }

    /** `self / scalar`, every cell, with truncating integer division. The
        first cell divided by a zero scalar panics; a matrix without cells
        divides nothing and comes back unchanged. */
    method DivScalar(scalar: int) returns (r: Checked<Mat>)
      ensures r.Panic? <==> scalar == 0 && Rows() > 0 && Cols() > 0
      ensures r.Value? ==> fresh(r.value.data) && r.value.Rows() == Rows() && r.value.Cols() == Cols()
      ensures r.Value? && scalar != 0 ==> r.value.Cells() == Grid.DivScalar(Cells(), Rows(), Cols(), scalar)
      ensures r.Value? && scalar == 0 ==> r.value.Cells() == Cells()
    {
      if scalar == 0 && Rows() > 0 && Cols() > 0 {
        return Panic(DIVIDE_MESSAGE);
      }
      var result := new Mat.CopyOf(this);
      var out := result.data;
      for i := 0 to Rows()
        invariant forall r, c | 0 <= r < i && 0 <= c < Cols() :: out[r, c] == TruncDiv(data[r, c], scalar)
        invariant forall r, c | i <= r < Rows() && 0 <= c < Cols() :: out[r, c] == data[r, c]
      {
        for j := 0 to Cols()
          invariant forall r, c | 0 <= r < i && 0 <= c < Cols() :: out[r, c] == TruncDiv(data[r, c], scalar)
          invariant forall c | 0 <= c < j :: out[i, c] == TruncDiv(data[i, c], scalar)
          invariant forall r, c | i <= r < Rows() && 0 <= c < Cols() && (r > i || c >= j) :: out[r, c] == data[r, c]
        {
          out[i, j] := TruncDiv(out[i, j], scalar);
        }
      }
      if scalar == 0 {
        CellsMatch(out, Cells());
      } else {
        CellsMatch(out, Grid.DivScalar(Cells(), Rows(), Cols(), scalar));
      }
      r := Value(result);
    }

    /** `self * rhs` for an `R x C` and a `C x C2` matrix: each cell is a sum
        of products accumulated from the default value 0. */
    method Mul(rhs: Mat) returns (result: Mat)
      requires rhs.Rows() == Cols()
      ensures fresh(result.data) && result.Rows() == Rows() && result.Cols() == rhs.Cols()
      ensures result.Cells() == Grid.Mul(Cells(), rhs.Cells(), Rows(), Cols(), rhs.Cols())
    {
      var c2 := rhs.Cols();
      ghost var g := Grid.Mul(Cells(), rhs.Cells(), Rows(), Cols(), c2);
      var out := new int[Rows(), c2]((i, j) => 0);
      for i := 0 to Rows()
        invariant forall r, c | 0 <= r < i && 0 <= c < c2 :: out[r, c] == g[r][c]
      {
        FillRow(rhs, out, i);
      }
      result := new Mat.Wrap(out);
      CellsMatch(out, g);
    }

    /** Row `i` of `self * rhs`, written into `out`; the other rows of `out`
        are left as they were. */
    method FillRow(rhs: Mat, out: array2<int>, i: nat)
      requires rhs.Rows() == Cols() && i < Rows()
      requires out != data && out != rhs.data
      requires out.Length0 == Rows() && out.Length1 == rhs.Cols()
      modifies out
      ensures forall c | 0 <= c < rhs.Cols() ::
        out[i, c] == Grid.Mul(Cells(), rhs.Cells(), Rows(), Cols(), rhs.Cols())[i][c]
      ensures forall r, c | 0 <= r < Rows() && r != i && 0 <= c < rhs.Cols() :: out[r, c] == old(out[r, c])
    {
      ghost var row := Grid.Mul(Cells(), rhs.Cells(), Rows(), Cols(), rhs.Cols())[i];
      for j := 0 to rhs.Cols()
        invariant forall c | 0 <= c < j :: out[i, c] == row[c]
        invariant forall r, c | 0 <= r < Rows() && r != i && 0 <= c < rhs.Cols() :: out[r, c] == old(out[r, c])
      {
        var sum := RowTimesColumn(rhs, i, j);
        out[i, j] := sum;
      }
    }

    /** One cell of `self * rhs`: the products of row `i` of `self` with
        column `j` of `rhs`, summed from 0 in column order. */
    method RowTimesColumn(rhs: Mat, i: nat, j: nat) returns (sum: int)
      requires rhs.Rows() == Cols() && i < Rows() && j < rhs.Cols()
      ensures sum == Dot(Cells()[i], Grid.Column(rhs.Cells(), rhs.Cols(), j))
      ensures sum == Grid.Mul(Cells(), rhs.Cells(), Rows(), Cols(), rhs.Cols())[i][j]
    {
      ghost var row := Cells()[i];
      ghost var col := Grid.Column(rhs.Cells(), rhs.Cols(), j);
      sum := 0;
      for k := 0 to Cols()
        invariant sum == Dot(row[..k], col[..k])
      {
        assert row[..k + 1][..k] == row[..k] && col[..k + 1][..k] == col[..k];
        sum := sum + data[i, k] * rhs.data[k, j];
      }
      assert row[..Cols()] == row && col[..Cols()] == col;
    }

    /** `transpose()`: the result grid is seeded from `data[0][0]`, which
        panics on a matrix without rows or without columns. */
    method Transpose() returns (r: Checked<Mat>)
      ensures r.Panic? <==> Rows() == 0 || Cols() == 0
      ensures r.Value? ==> fresh(r.value.data) && r.value.Rows() == Cols() && r.value.Cols() == Rows()
      ensures r.Value? ==> r.value.Cells() == Grid.Transpose(Cells(), Rows(), Cols())
    {
      if Rows() == 0 || Cols() == 0 {
        return Panic(INDEX_MESSAGE);
      }
      var seed := data[0, 0];
      var out := new int[Cols(), Rows()]((j, i) => seed);
      for i := 0 to Rows()
        invariant forall r, c | 0 <= r < i && 0 <= c < Cols() :: out[c, r] == data[r, c]
      {
        for j := 0 to Cols()
          invariant forall r, c | 0 <= r < i && 0 <= c < Cols() :: out[c, r] == data[r, c]
          invariant forall c | 0 <= c < j :: out[c, i] == data[i, c]
        {
          out[j, i] := data[i, j];
        }
      }
      var result := new Mat.Wrap(out);
      CellsMatch(out, Grid.Transpose(Cells(), Rows(), Cols()));
      r := Value(result);
    }

    /** `identity()`: a default (zero) square grid with 1 written on the
        diagonal. */
    static method Identity(n: nat) returns (result: Mat)
      ensures fresh(result.data) && result.Rows() == n && result.Cols() == n
      ensures result.Cells() == Grid.Identity(n)
    {
      result := new Mat.Zeros(n, n);
      var out := result.data;
      for i := 0 to n
        invariant forall r, c | 0 <= r < n && 0 <= c < n :: out[r, c] == if r == c && r < i then 1 else 0
      {
        out[i, i] := 1;
      }
      CellsMatch(out, Grid.Identity(n));
    }

    /** `diag(diagonal)`: a default (zero) square grid with `diagonal[i]`
        written at `(i, i)`. */
    static method Diag(diagonal: seq<int>) returns (result: Mat)
      ensures fresh(result.data) && result.Rows() == |diagonal| && result.Cols() == |diagonal|
      ensures result.Cells() == Grid.Diag(diagonal)
    {
      var n := |diagonal|;
      result := new Mat.Zeros(n, n);
      var out := result.data;
      for i := 0 to n
        invariant forall r, c | 0 <= r < n && 0 <= c < n :: out[r, c] == if r == c && r < i then diagonal[r] else 0
      {
        out[i, i] := diagonal[i];
      }
      CellsMatch(out, Grid.Diag(diagonal));
    }

    /** `submatrix::<top, left, r1, c1>()`: a default `r1 x c1` grid into
        which every in-range cell of the window is copied. */
    method Submatrix(top: nat, left: nat, r1: nat, c1: nat) returns (result: Mat)
      ensures fresh(result.data) && result.Rows() == r1 && result.Cols() == c1
      ensures result.Cells() == Grid.Submatrix(Cells(), Rows(), Cols(), top, left, r1, c1)
    {
      ghost var want := Grid.Submatrix(Cells(), Rows(), Cols(), top, left, r1, c1);
      result := new Mat.Zeros(r1, c1);
      var out := result.data;
      for i := 0 to r1
        invariant forall r, c | 0 <= r < i && 0 <= c < c1 :: out[r, c] == want[r][c]
        invariant forall r, c | i <= r < r1 && 0 <= c < c1 :: out[r, c] == 0
      {
        for j := 0 to c1
          invariant forall r, c | 0 <= r < i && 0 <= c < c1 :: out[r, c] == want[r][c]
          invariant forall c | 0 <= c < j :: out[i, c] == want[i][c]
          invariant forall r, c | i <= r < r1 && 0 <= c < c1 && (r > i || c >= j) :: out[r, c] == 0
        {
          if top + i < Rows() && left + j < Cols() {
            out[i, j] := data[top + i, left + j];
          }
        }
      }
      CellsMatch(out, want);
    }

    /** `flatten_row_major()`: every cell pushed, row after row. */
    method FlattenRowMajor() returns (v: seq<int>)
      ensures v == Grid.FlattenRowMajor(Cells())
    {
      ghost var a := Cells();
      v := [];
      for i := 0 to Rows()
        invariant v == Grid.FlattenRowMajor(a[..i])
      {
        for j := 0 to Cols()
          invariant v == Grid.FlattenRowMajor(a[..i]) + a[i][..j]
        {
          v := v + [data[i, j]];
        }
        assert a[..i + 1][..i] == a[..i] && a[i][..Cols()] == a[i];
      }
      assert a[..Rows()] == a;
    }

    /** `flatten_col_major()`: every cell pushed, column after column. */
    method FlattenColMajor() returns (v: seq<int>)
      ensures v == Grid.FlattenColMajor(Cells(), Rows(), Cols())
    {
      ghost var t := Grid.Transpose(Cells(), Rows(), Cols());
      v := [];
      for j := 0 to Cols()
        invariant v == Grid.FlattenRowMajor(t[..j])
      {
        for i := 0 to Rows()
          invariant v == Grid.FlattenRowMajor(t[..j]) + t[j][..i]
        {
          v := v + [data[i, j]];
        }
        assert t[..j + 1][..j] == t[..j] && t[j][..Rows()] == t[j];
      }
      assert t[..Cols()] == t;
    }

    /** `from_vec(vec)`: an error unless the slice has exactly `r * c`
        elements; otherwise cell `(i, j)` is `vec[i * c + j]`. */
    static method FromVec(vec: seq<int>, r: nat, c: nat) returns (res: Result<Mat, string>)
      ensures res.Err? <==> |vec| != r * c
      ensures res.Err? ==> res.error == "Vector length does not match matrix dimensions"
      ensures res.Ok? ==> fresh(res.value.data) && res.value.Rows() == r && res.value.Cols() == c
      ensures res.Ok? ==> res.value.Cells() == Grid.FromVec(vec, r, c)
    {
      if |vec| != r * c {
        return Err("Vector length does not match matrix dimensions");
      }
      ghost var g := Grid.FromVec(vec, r, c);
      var out := new int[r, c]((i, j) => 0);
      for i := 0 to r
        invariant forall p, q | 0 <= p < i && 0 <= q < c :: out[p, q] == g[p][q]
      {
        for j := 0 to c
          invariant forall p, q | 0 <= p < i && 0 <= q < c :: out[p, q] == g[p][q]
          invariant forall q | 0 <= q < j :: out[i, q] == g[i][q]
        {
          Grid.IndexInRange(i, j, r, c);
          out[i, j] := vec[i * c + j];
        }
      }
      var m := new Mat.Wrap(out);
      CellsMatch(out, g);
      res := Ok(m);
    }

    /** `from_vec_col_major(vec)`: an error unless the slice has exactly
        `r * c` elements; otherwise cell `(i, j)` is `vec[j * r + i]`. */
    static method FromVecColMajor(vec: seq<int>, r: nat, c: nat) returns (res: Result<Mat, string>)
      ensures res.Err? <==> |vec| != r * c
      ensures res.Err? ==> res.error == "Vector length does not match matrix dimensions"
      ensures res.Ok? ==> fresh(res.value.data) && res.value.Rows() == r && res.value.Cols() == c
      ensures res.Ok? ==> res.value.Cells() == Grid.FromVecColMajor(vec, r, c)
    {
      if |vec| != r * c {
        return Err("Vector length does not match matrix dimensions");
      }
      ghost var g := Grid.FromVecColMajor(vec, r, c);
      var out := new int[r, c]((i, j) => 0);
      for i := 0 to r
        invariant forall p, q | 0 <= p < i && 0 <= q < c :: out[p, q] == g[p][q]
      {
        for j := 0 to c
          invariant forall p, q | 0 <= p < i && 0 <= q < c :: out[p, q] == g[p][q]
          invariant forall q | 0 <= q < j :: out[i, q] == g[i][q]
        {
          Grid.IndexInRange(j, i, c, r);
          out[i, j] := vec[j * r + i];
        }
      }
      var m := new Mat.Wrap(out);
      CellsMatch(out, g);
      res := Ok(m);
    }

    /** `sum()`: a running total from 0 over the cells in row-major order. */
    method Sum() returns (total: int)
      ensures total == Grid.Sum(Cells())
    {
      ghost var a := Cells();
      ghost var seen: seq<int> := [];
      total := 0;
      for i := 0 to Rows()
        invariant seen == Grid.FlattenRowMajor(a[..i]) && total == Total(seen)
      {
        total := RowTotal(i, seen, total);
        seen := seen + a[i];
        Grid.FlattenRowMajorSnoc(a, i);
      }
      assert a[..Rows()] == a;
    }

    /** The inner loop of `sum()`: row `i` added cell by cell to the running
        total `acc` of the cells `prefix` visited before it. */
    method RowTotal(i: nat, ghost prefix: seq<int>, acc: int) returns (total: int)
      requires i < Rows() && acc == Total(prefix)
      ensures total == Total(prefix + Cells()[i])
    {
      ghost var row := Cells()[i];
      ghost var seen := prefix;
      total := acc;
      for j := 0 to Cols()
        invariant seen == prefix + row[..j] && total == Total(seen)
      {
        var x := data[i, j];
        assert row[..j + 1] == row[..j] + [x];
        TotalSnoc(seen, x);
        total := total + x;
        seen := seen + [x];
      }
      assert row[..Cols()] == row;
    }

    /** `product()`: a running product from 1 over the cells in row-major
        order. */
    method Product() returns (total: int)
      ensures total == Grid.Product(Cells())
    {
      ghost var a := Cells();
      ghost var seen: seq<int> := [];
      total := 1;
      for i := 0 to Rows()
        invariant seen == Grid.FlattenRowMajor(a[..i]) && total == Prod(seen)
      {
        total := RowProduct(i, seen, total);
        seen := seen + a[i];
        Grid.FlattenRowMajorSnoc(a, i);
      }
      assert a[..Rows()] == a;
    }

    /** The inner loop of `product()`: row `i` multiplied cell by cell into
        the running product `acc` of the cells `prefix` visited before it. */
    method RowProduct(i: nat, ghost prefix: seq<int>, acc: int) returns (total: int)
      requires i < Rows() && acc == Prod(prefix)
      ensures total == Prod(prefix + Cells()[i])
    {
      ghost var row := Cells()[i];
      ghost var seen := prefix;
      total := acc;
      for j := 0 to Cols()
        invariant seen == prefix + row[..j] && total == Prod(seen)
      {
        var x := data[i, j];
        assert row[..j + 1] == row[..j] + [x];
        ProdSnoc(seen, x);
        total := total * x;
        seen := seen + [x];
      }
      assert row[..Cols()] == row;
    }

    /** `eq(other)`: stops at the first differing cell. */
    method Equals(other: Mat) returns (eq: bool)
      requires other.Rows() == Rows() && other.Cols() == Cols()
      ensures eq <==> Cells() == other.Cells()
    {
      for i := 0 to Rows()
        invariant forall r, c | 0 <= r < i && 0 <= c < Cols() :: data[r, c] == other.data[r, c]
      {
        for j := 0 to Cols()
          invariant forall r, c | 0 <= r < i && 0 <= c < Cols() :: data[r, c] == other.data[r, c]
          invariant forall c | 0 <= c < j :: data[i, c] == other.data[i, c]
        {
          if data[i, j] != other.data[i, j] {
            assert Cells()[i][j] != other.Cells()[i][j];
            return false;
          }
        }
      }
      CellsMatch(data, other.Cells());
      return true;
    }
  }
}
