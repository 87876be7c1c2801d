# gk_math core in Dafny

This project models the core of `gk_math`, a small Rust crate. The core has three parts.

* **`#[derive(VectorMath)]`** (`macro_utils/src/vector.rs`) validates a struct declaration and generates a vector API for it. The model covers both halves:
  * the validation: which declarations are accepted and which compile error is reported for the rest (module `VectorDerive`);
  * what every generated item computes, for a struct of `n` fields of one element type (module `VectorOps`). A value is the sequence of its fields in declaration order. The `*_assign` operators and `index_mut` update a `VectorVar` place in place.
* **`#[mat_vec_mul(Vec)]`** (`macro_utils/src/tool.rs`) is an attribute on a `type MatN = Mat<T, R, C>;` alias (module `MatVecMul`). The model covers:
  * the structural match of `extract_mat_generics`;
  * the `usize` parse of the column count;
  * the emitted `impl Mul<Vec> for MatN`, and what its `mul` evaluates to.
* **`Mat<T, R, C>`** (`src/base/matrix.rs`) is a fixed `R x C` grid.
  * Module `Grid` gives each operation's result as a function over `seq<seq<int>>`, with its laws: round trips, identities, transposition and sums.
  * Class `Matrix.Mat` holds the grid in an `array2<int>` and runs the source's nested loops. Each operator and constructor method (arithmetic, product, transpose, identity, diagonal, submatrix, flattening, `from_vec`, `sum`, `product`) is proved to produce the matching `Grid` function. `get`, `index`, `set` and `eq` are stated cell by cell on the grid the class holds.
  * `rows()`, `cols()` and `is_square()` are the functions `Rows`, `Cols` and `IsSquare`.

The element type `T` is modelled as `int`:
* `+`, `-` and `*` are exact;
* `/` is Rust's truncating integer division (`Base.TruncDiv`). Dafny's own `/` is Euclidean.

Panics are values of `Base.Checked` (`Value` or `Panic(message)`). Rust's `Result` and `Option` are `Base.Result` and `Base.Option`.

Two behaviours of the code are easy to misread:
* `extract_mat_generics` ignores generic arguments after the third; it does not reject them.
* The emitted matrix-times-vector `mul` produces one component per column (`0..cols`), not one per row. For `R < C` it panics. For `R > C` the trailing rows are dropped. It equals the true product only on square matrices (`MatVecMul.WideMatrixPanics`, `MatVecMul.TallMatrixDropsRows`, `MatVecMul.SquareMatchesMatrixProduct`).

## Model

| member | source | states |
|---|---|---|
| VectorDerive.VectorMathImpl | macro_utils/src/vector.rs:11-77 | the validation as written (kind of data, named fields, emptiness, then the field loop with its two early returns) returns exactly what the declarative `Validate` does |
| VectorDerive.ValidateAcceptsIff | macro_utils/src/vector.rs:11-77 | the derive succeeds iff the declaration is a struct with at least one named field, all of one primitive type; on success it carries the struct name, the field names in order and field 0's type |
| VectorDerive.ValidateErrorOrder | macro_utils/src/vector.rs:11-77 | errors come in order: not a struct, then not a named struct, then no field, then the first failing field; for that field the primitive check wins over the same-type check |
| VectorDerive.CheckFromNoneIff | macro_utils/src/vector.rs:51-77 | the field loop passes iff every remaining field is one of the 14 primitives and textually equal to field 0's type |
| VectorDerive.CheckFromFindsFirst | macro_utils/src/vector.rs:51-77 | a reported field error names the first failing field, with the type text it printed and the reason it failed |
| VectorDerive.FieldError | macro_utils/src/vector.rs:59-76 | the two checks of one field, in order: not one of the 14 primitive type names, then type text different from field 0's; `None` when both pass |
| VectorDerive.CheckFrom | macro_utils/src/vector.rs:51-77 | the field loop as recursion from position `i`: the error of the first field that fails `FieldError`, or `None` (characterised by `CheckFromNoneIff` and `CheckFromFindsFirst`) |
| VectorDerive.Accepted | macro_utils/src/vector.rs:11-77 | the declarations the derive accepts, stated without the loop: a struct with at least one named field, every field of one primitive type (equivalent to success by `ValidateAcceptsIff`) |
| VectorDerive.Validate | macro_utils/src/vector.rs:11-95 | the derive's verdict stated without the loop: `Err` with the first check that fails (kind of data, named fields, emptiness, then the first failing field), otherwise the struct name, its field names, field 0's type and the emitted items |
| VectorDerive.EmittedItems | macro_utils/src/vector.rs:79-377 | the emitted items in order: the nine inherent methods, `cross` only for three fields, then the seventeen trait impls |
| VectorDerive.Message | macro_utils/src/vector.rs:15-72 | the compile-error text of each `DeriveError`: the two fixed texts for a non-struct and a struct without named fields, and the struct name or the field's type text appended to the other three |
| VectorDerive.RejectionMessages | macro_utils/src/vector.rs:15-72 | a rejected enum or union reports "VectorMath only for struct", a tuple or unit struct the "only use to struct" text, an empty struct "no field in structure: " and its name, and otherwise the text of the check that the first failing field fails, followed by that field's type |
| VectorDerive.FieldNames | macro_utils/src/vector.rs:33 | the field names, in declaration order |
| VectorDerive.CrossEmittedIffThree | macro_utils/src/vector.rs:79-95 | `cross` is among the emitted items iff the struct has exactly 3 fields; every other item is always emitted |
| VectorDerive.FloatVectorsAccepted | src/base/f32.rs:3-23 | `Vec2`, `Vec3` and `Vec4` of `f32` are accepted; only `Vec3` gets `cross` |
| VectorDerive.MixedTypesRejected | macro_utils/src/vector.rs:59-76 | `{x: f32, y: f64, z: String}` fails on field 1 with the same-type error, before the non-primitive field 2 is reached |
| VectorDerive.NonPrimitiveFirstField | macro_utils/src/vector.rs:59-66 | a non-primitive field 0 is reported as not primitive, even though it equals itself |
| VectorOps.New | macro_utils/src/vector.rs:101-105 | `new(f0, ..., fn-1)`: the value whose field `i` is argument `i` (with `PositionalBijection`) |
| VectorOps.FromArray | macro_utils/src/vector.rs:174-180 | `From<[T; n]>`: the value whose field `i` is array slot `i` (with `PositionalBijection`) |
| VectorOps.Index | macro_utils/src/vector.rs:354-365 | `self[i]` is field `i` for `i < n` and panics for every other index |
| VectorOps.PositionalBijection | macro_utils/src/vector.rs:101-105 | field `i` of `new(args)` and of `From(args)` is `args[i]`; indexing past the fields panics |
| VectorOps.Eq | macro_utils/src/vector.rs:277-281 | the field-by-field conjunction holds iff the two values are equal |
| VectorOps.Div | macro_utils/src/vector.rs:259-267 | `v / s` panics iff the scalar is 0 (with at least one field); otherwise every field is divided with truncation |
| VectorOps.Add | macro_utils/src/vector.rs:183-191 | `a + b`: field `i` is `a.f_i + b.f_i` (laws in `AddCommutes`, `SubUndoesAdd`, `DotAddLeft`) |
| VectorOps.Sub | macro_utils/src/vector.rs:201-209 | `a - b`: field `i` is `a.f_i - b.f_i` (inverse of `Add` by `SubUndoesAdd`) |
| VectorOps.Neg | macro_utils/src/vector.rs:219-227 | `-a`: every field negated (laws in `NegIsSubtractionFromZero`) |
| VectorOps.Scale | macro_utils/src/vector.rs:230-238 | `v * s`: every field times the scalar on the right (laws in `ScaleIsMap`, `DivUndoesScale`, `DotScaleLeft`) |
| VectorOps.ScaleLeft | macro_utils/src/vector.rs:248-256 | `s * v`: the scalar times every field, on the left (equal to `Scale` by `ScalarSidesAgree`) |
| VectorOps.DivScalar | macro_utils/src/vector.rs:259-267 | `v / s` for a nonzero `s`: every field divided with Rust's truncating division (`Div` adds the panic at zero) |
| VectorOps.Map | macro_utils/src/vector.rs:161-169 | `map(f)`: `f` applied to every field, order kept (laws in `ScaleIsMap`, `MapComposes`) |
| VectorOps.LengthSquared | macro_utils/src/vector.rs:113-117 | `length_squared`: `dot(self, self)` (sign and zero set in `LengthSquaredZeroIff`) |
| VectorOps.IsZero | macro_utils/src/vector.rs:133-137 | `is_zero`: every field equals the default 0 (characterised by `IsZeroIff`) |
| VectorOps.Zero | macro_utils/src/vector.rs:135-137 | the value whose every field is the default 0 (the vector `is_zero` recognises, by `IsZeroIff`) |
| VectorOps.AddCommutes | macro_utils/src/vector.rs:183-191 | `a + b == b + a` |
| VectorOps.SubUndoesAdd | macro_utils/src/vector.rs:201-209 | `(a + b) - b == a` |
| VectorOps.NegIsSubtractionFromZero | macro_utils/src/vector.rs:219-227 | `-a == 0 - a`, `--a == a` and `a + -a == 0` |
| VectorOps.ScalarSidesAgree | macro_utils/src/vector.rs:248-256 | `s * v == v * s` |
| VectorOps.ScaleIsMap | macro_utils/src/vector.rs:230-238 | `v * s` is `v.map(x => x * s)` |
| VectorOps.DivUndoesScale | macro_utils/src/vector.rs:259-267 | `(v * s) / s == v` for every nonzero `s` |
| VectorOps.MapComposes | macro_utils/src/vector.rs:162-169 | `v.map(f).map(g) == v.map(g . f)` |
| VectorOps.DotAddLeft | macro_utils/src/vector.rs:109-111 | `dot` is additive in its first operand |
| VectorOps.DotScaleLeft | macro_utils/src/vector.rs:109-111 | `dot(v * s, w) == s * dot(v, w)` |
| VectorOps.LengthSquaredZeroIff | macro_utils/src/vector.rs:113-117 | `length_squared` is never negative, and it is 0 iff `is_zero` holds |
| VectorOps.IsZeroIff | macro_utils/src/vector.rs:135-137 | `is_zero` holds iff every field is 0 |
| VectorOps.DotExample | tests/test_vector.rs:22 | `dot((1,2,3), (2,4,6)) == 28` |
| VectorOps.Cross | macro_utils/src/vector.rs:84-90 | `cross` of two 3-field values has 3 fields |
| VectorOps.CrossParallelIsZero | macro_utils/src/vector.rs:84-90 | `cross(a, a * k)` is the zero vector for every `k` |
| VectorOps.CrossAnticommutes | macro_utils/src/vector.rs:84-90 | `cross(a, b) == -cross(b, a)` |
| VectorOps.CrossOrthogonal | macro_utils/src/vector.rs:84-90 | `cross(a, b)` is orthogonal to `a` and to `b` |
| VectorOps.CrossExample | tests/test_vector.rs:23 | `cross((1,2,3), (2,4,6)) == (0,0,0)` |
| VectorOps.MinElement | macro_utils/src/vector.rs:140-148 | the result is one of the fields and is at most every field |
| VectorOps.MaxElement | macro_utils/src/vector.rs:150-159 | the result is one of the fields and is at least every field |
| VectorOps.PartialCmp | macro_utils/src/vector.rs:284-312 | the running-result loop with early `None` computes the product order `Compare` |
| VectorOps.Compare | macro_utils/src/vector.rs:284-312 | the product order stated without the loop: `None` when two fields disagree in direction, else the direction of any differing field, else `Equal` (`PartialCmp` is proved equal to it) |
| VectorOps.CompareEqualIff | macro_utils/src/vector.rs:290-311 | `Some(Equal)` iff all fields are equal |
| VectorOps.CompareLessIff | macro_utils/src/vector.rs:290-311 | `Some(Less)` iff all fields are `<=` and the values differ; `Some(Greater)` is the mirror |
| VectorOps.CompareNoneIff | macro_utils/src/vector.rs:290-311 | `None` iff one field is below and another is above |
| VectorOps.Mixed | macro_utils/src/vector.rs:292-309 | some field of `a` is below `b`'s and another is above: the case in which the loop returns `None` early (by `CompareNoneIff`, `MixedIsIncomparable`) |
| VectorOps.CompareReverses | macro_utils/src/vector.rs:290-311 | swapping the operands swaps `Less` and `Greater` and keeps `None` |
| VectorOps.Lt | macro_utils/src/vector.rs:314-316 | `lt`: every field of `a` is below the matching field of `b` (related to `Compare` by `LtAgreesWithCompare`) |
| VectorOps.Le | macro_utils/src/vector.rs:318-320 | `le`: every field is `<=` (related to `Compare` by `LtAgreesWithCompare`) |
| VectorOps.Gt | macro_utils/src/vector.rs:322-324 | `gt`: every field is above (related to `Compare` by `LtAgreesWithCompare`) |
| VectorOps.Ge | macro_utils/src/vector.rs:326-328 | `ge`: every field is `>=` (related to `Compare` by `LtAgreesWithCompare`) |
| VectorOps.LtAgreesWithCompare | macro_utils/src/vector.rs:314-328 | `lt` implies `Some(Less)`, `gt` implies `Some(Greater)`; `le` iff `Less` or `Equal`, `ge` iff `Greater` or `Equal` |
| VectorOps.LessDoesNotImplyLt | macro_utils/src/vector.rs:314-316 | `partial_cmp((0,0), (0,1))` is `Some(Less)` while `lt` is false |
| VectorOps.MixedIsIncomparable | macro_utils/src/vector.rs:290-328 | when fields disagree in direction, `partial_cmp` is `None` and `lt`, `le`, `gt`, `ge` are all false |
| VectorOps.VectorVar.constructor | macro_utils/src/vector.rs:194-196 | a place holding the given field values, as `&mut self` sees them |
| VectorOps.VectorVar.AddAssign | macro_utils/src/vector.rs:193-198 | after `x += y`, `x` is `old x + y` |
| VectorOps.VectorVar.SubAssign | macro_utils/src/vector.rs:211-216 | after `x -= y`, `x` is `old x - y` |
| VectorOps.VectorVar.MulAssign | macro_utils/src/vector.rs:240-245 | after `x *= s`, `x` is `old x * s` |
| VectorOps.VectorVar.DivAssign | macro_utils/src/vector.rs:269-274 | `x /= s` panics exactly when `old x / s` does, leaving `x` alone; otherwise `x` becomes `old x / s` |
| VectorOps.VectorVar.IndexMut | macro_utils/src/vector.rs:367-376 | writing through `index_mut(i)` changes field `i` only; an index past the fields panics and changes nothing |
| MatVecMul.ExtractMatGenerics | macro_utils/src/tool.rs:43-71 | a result is returned only for a path whose last segment is `Mat<Type, Const, Const, ...>`, and it is that segment's first three arguments |
| MatVecMul.ExtractsFromAnyMatPath | macro_utils/src/tool.rs:44-65 | every such path is recognised, whatever segments precede `Mat` and whatever arguments follow the third |
| MatVecMul.NamedDimensionRejected | macro_utils/src/tool.rs:55-58 | a dimension that parses as a type (`Mat<f32, N, 3>`) is not recognised |
| MatVecMul.TooFewArgumentsRejected | macro_utils/src/tool.rs:60-63 | two generic arguments are not enough |
| MatVecMul.ParseUsize | macro_utils/src/tool.rs:20 | a parsed column count fits in `usize`, and its text starts with `+` or a digit |
| MatVecMul.ParseDecimal | macro_utils/src/tool.rs:20 | a printed `usize` literal parses back to its value |
| MatVecMul.ParsePlusDecimal | macro_utils/src/tool.rs:20 | a leading `+` is accepted |
| MatVecMul.ParseLeadingZeros | macro_utils/src/tool.rs:20 | leading zeros are accepted: `03` parses as 3 and `+007` as 7 |
| MatVecMul.SuffixedLiteralRejected | macro_utils/src/tool.rs:20 | a suffixed literal such as `3usize` does not parse |
| MatVecMul.OverflowRejected | macro_utils/src/tool.rs:20 | `usize::MAX + 1` does not parse |
| MatVecMul.Range | macro_utils/src/tool.rs:22 | `(0..cols).collect()` lists `0, ..., cols - 1` |
| MatVecMul.ExpandMatVecMul | macro_utils/src/tool.rs:15-38 | the expansion panics iff extraction fails or the column text does not parse; otherwise it re-emits the item unchanged and implements `Mul<vecTy>` for the alias over the rows `0..n`, where `n` is the parsed column count |
| MatVecMul.ExpandMatAlias | macro_utils/src/tool.rs:15-38 | for an alias of `Mat<T, R, C>` with a literal `C`, the `mul` visits rows `0..C` whatever `R` is |
| MatVecMul.ExpandRejectsNonPath | macro_utils/src/tool.rs:15-16 | an alias of a non-path type panics with "Expected Mat<T, ROWS, COLS> type" |
| MatVecMul.ExpandRejectsSuffixedCols | macro_utils/src/tool.rs:20 | a column literal like `3usize` panics in the `unwrap` |
| MatVecMul.MatVecProduct | macro_utils/src/tool.rs:32-36 | the emitted body panics iff some listed row index is past the grid; otherwise component `k` is `dot(row indices[k], rhs)` |
| MatVecMul.GeneratedMul | macro_utils/src/tool.rs:32-36 | evaluating the emitted body on a `Mat` (through `Mat`'s `Index`) gives `MatVecProduct` |
| MatVecMul.WideMatrixPanics | macro_utils/src/tool.rs:22-34 | with fewer rows than columns the emitted `mul` panics |
| MatVecMul.TallMatrixDropsRows | macro_utils/src/tool.rs:22-34 | with more rows than columns it succeeds and ignores rows `C..R` |
| MatVecMul.SquareMatchesMatrixProduct | macro_utils/src/tool.rs:32-36 | on a square matrix it equals the matrix product with `rhs` as a column |
| MatVecMul.IdentityLeavesVector | tests/test_matrix.rs:26-32 | `identity() * v == v` |
| MatVecMul.ProductDistributesOverAdd | macro_utils/src/tool.rs:32-36 | `m * (v + w) == m * v + m * w` |
| Matrix.Mat.Cells | src/base/matrix.rs:4-6 | the stored grid has `R` rows of `C` cells |
| Matrix.Mat.Rows | src/base/matrix.rs:20-23 | `rows()`: the const generic `R`, the first dimension of the storage, whatever the cells hold |
| Matrix.Mat.Cols | src/base/matrix.rs:25-28 | `cols()`: the const generic `C`, the second dimension of the storage |
| Matrix.Mat.IsSquare | src/base/matrix.rs:46-49 | `is_square()`: `R == C` |
| Matrix.Mat.constructor | src/base/matrix.rs:11-13 | `Mat::new(data)` holds exactly `data` |
| Matrix.Mat.Zeros | src/base/matrix.rs:325-329 | every cell is 0 (also `default()`) |
| Matrix.Mat.Ones | src/base/matrix.rs:331-335 | every cell is 1 |
| Matrix.Mat.Get | src/base/matrix.rs:34-36 | `None` exactly when the row or the column is out of range; otherwise the cell |
| Matrix.Mat.Index | src/base/matrix.rs:161-167 | `self[i]` is row `i`, and panics for `i >= R` |
| Matrix.Mat.Set | src/base/matrix.rs:38-44 | out of range: `Err("Index out of bounds")` and the grid is unchanged; otherwise only cell `(row, col)` changes, to `value` |
| Matrix.Mat.Wrap | src/base/matrix.rs:140 | `Mat { data: result_data }`: the result takes over the grid built by the loops |
| Matrix.Mat.CopyOf | src/base/matrix.rs:60 | `let mut result = self`: `Mat` is `Copy`, so the result starts as a cell-by-cell copy in fresh storage |
| Matrix.Mat.Add | src/base/matrix.rs:53-68 | the result is the cell-by-cell sum |
| Matrix.Mat.Sub | src/base/matrix.rs:70-85 | the result is the cell-by-cell difference |
| Matrix.Mat.Scale | src/base/matrix.rs:87-102 | every cell is multiplied by the scalar |
| Matrix.Mat.DivScalar | src/base/matrix.rs:104-119 | panics iff the scalar is 0 and there is a cell; otherwise every cell is divided with truncation |
| Matrix.Mat.Mul | src/base/matrix.rs:121-142 | cell `(i, j)` of the product is the sum over `k < C` of `a[i][k] * b[k][j]`, from 0 |
| Matrix.Mat.FillRow | src/base/matrix.rs:131-137 | the `j` loop of `mul` for row `i`: every cell of row `i` of the result becomes the matching cell of `Grid.Mul`, and the other rows are left as they were |
| Matrix.Mat.RowTimesColumn | src/base/matrix.rs:132-135 | the inner `k` loop accumulates the dot product of row `i` with column `j` |
| Matrix.Mat.Transpose | src/base/matrix.rs:148-158 | panics on a matrix without rows or columns (the `data[0][0]` seed); otherwise cell `(j, i)` is `data[i][j]` |
| Matrix.Mat.Identity | src/base/matrix.rs:199-208 | 1 on the diagonal, 0 elsewhere |
| Matrix.Mat.Diag | src/base/matrix.rs:210-219 | `d[i]` at `(i, i)`, 0 elsewhere |
| Matrix.Mat.Submatrix | src/base/matrix.rs:226-236 | cell `(i, j)` is `data[top + i][left + j]` where that is in range, else 0 |
| Matrix.Mat.FlattenRowMajor | src/base/matrix.rs:238-246 | the pushed cells are the rows, one after another |
| Matrix.Mat.FlattenColMajor | src/base/matrix.rs:248-256 | the pushed cells are the columns, one after another |
| Matrix.Mat.FromVec | src/base/matrix.rs:369-382 | `Err` iff the length is not `R * C`, with the source's message; otherwise cell `(i, j)` is `vec[i * C + j]` |
| Matrix.Mat.FromVecColMajor | src/base/matrix.rs:384-397 | `Err` iff the length is not `R * C`; otherwise cell `(i, j)` is `vec[j * R + i]` |
| Matrix.Mat.Sum | src/base/matrix.rs:263-271 | the running total is the sum of all cells in row-major order |
| Matrix.Mat.Product | src/base/matrix.rs:273-284 | the running product is the product of all cells, from 1 |
| Matrix.Mat.RowTotal | src/base/matrix.rs:266-268 | the inner `j` loop of `sum()` adds row `i` to the total of the cells before it: the result is the total of those cells followed by the row |
| Matrix.Mat.RowProduct | src/base/matrix.rs:279-281 | the inner `j` loop of `product()` multiplies row `i` into the product of the cells before it: the result is the product of those cells followed by the row |
| Matrix.Mat.Equals | src/base/matrix.rs:287-301 | true iff every cell is equal |
| Grid.IsShape | src/base/matrix.rs:4-6 | `[[T; C]; R]`: `R` rows of `C` cells each |
| Grid.Fill | src/base/matrix.rs:325-335 | every cell the same value: `zeros()` and `default()` with 0, `ones()` with 1 |
| Grid.Add | src/base/matrix.rs:53-68 | `a + b`: cell `(i, j)` is `a[i][j] + b[i][j]` (laws in `AddCommutes`, `SubUndoesAdd`, `SumOfAdd`) |
| Grid.Sub | src/base/matrix.rs:70-85 | `a - b`: cell `(i, j)` is `a[i][j] - b[i][j]` (undoes `Add` by `SubUndoesAdd`) |
| Grid.Scale | src/base/matrix.rs:87-102 | `a * s`: every cell times the scalar (undone by `DivScalar` through `DivUndoesScale`) |
| Grid.DivScalar | src/base/matrix.rs:104-119 | `a / s` for nonzero `s`: every cell divided with Rust's truncating `/` (`Base.TruncDiv`) |
| Grid.Column | src/base/matrix.rs:133-134 | column `j`, the cells `rhs.data[k][j]` the inner `k` loop of `mul` reads |
| Grid.Mul | src/base/matrix.rs:121-142 | the product: cell `(i, j)` is `Dot` of row `i` and column `j`, summed from 0 (laws in `MulIdentityLeft`, `MulIdentityRight`, `MulDiagLeft`, `TransposeOfProduct`) |
| Grid.Transpose | src/base/matrix.rs:148-158 | the `C x R` grid whose cell `(j, i)` is `a[i][j]` (laws in `TransposeTwice`, `TransposeIdentity`, `TransposeOfProduct`) |
| Grid.Identity | src/base/matrix.rs:199-208 | 1 on the diagonal and 0 elsewhere (`IdentityIsDiagOfOnes`, `MulIdentityLeft`, `MulIdentityRight`) |
| Grid.Diag | src/base/matrix.rs:210-219 | `d[i]` at `(i, i)` and 0 elsewhere (`MulDiagLeft`) |
| Grid.Submatrix | src/base/matrix.rs:226-236 | the `R1 x C1` window at `(I, J)`; window cells past the source grid keep the default 0 (`SubmatrixWhole`) |
| Grid.FlattenRowMajor | src/base/matrix.rs:238-246 | the cells row after row (positions in `FlattenRowMajorAt`, round trips with `FromVec`) |
| Grid.FlattenColMajor | src/base/matrix.rs:248-256 | the cells column after column, that is the rows of the transpose (positions in `FlattenColMajorAt`, round trips with `FromVecColMajor`) |
| Grid.FromVec | src/base/matrix.rs:369-382 | on a slice of length `R*C`, cell `(i, j)` is slot `i*C + j` and the result has shape `R x C` (round trips with `FlattenRowMajor`) |
| Grid.FromVecColMajor | src/base/matrix.rs:384-397 | on a slice of length `R*C`, cell `(i, j)` is slot `j*R + i` and the result has shape `R x C` (round trips with `FlattenColMajor`) |
| Grid.Sum | src/base/matrix.rs:263-271 | `sum()`: the `Total` of the cells in row-major order (laws in `SumOfAdd`, `SumOfRows`, `SumOfIdentity`) |
| Grid.Product | src/base/matrix.rs:273-284 | `product()`: the `Prod` of the cells in row-major order (`ProductWithZeroCell`) |
| Grid.AddCommutes | src/base/matrix.rs:53-68 | `a + b == b + a` (the integration test's `m1 + m2 == m2 + m1`) |
| Grid.SubUndoesAdd | src/base/matrix.rs:70-85 | `(a + b) - b == a` |
| Grid.DivUndoesScale | src/base/matrix.rs:104-119 | `(a * s) / s == a` for every nonzero `s` |
| Grid.MulExample | tests/test_matrix.rs:21-22 | the integration test's `m1 * 2 == m2` and `m1 * m2` |
| Grid.MulDiagLeft | src/base/matrix.rs:210-219 | `diag(d) * a` scales row `i` by `d[i]` |
| Grid.MulIdentityLeft | src/base/matrix.rs:199-208 | `identity() * a == a` |
| Grid.MulIdentityRight | src/base/matrix.rs:199-208 | `a * identity() == a` |
| Grid.IdentityIsDiagOfOnes | src/base/matrix.rs:199-219 | `identity()` is `diag` of all ones |
| Grid.TransposeTwice | src/base/matrix.rs:148-158 | transposing twice gives the matrix back |
| Grid.TransposeIdentity | src/base/matrix.rs:148-158 | the identity is its own transpose |
| Grid.TransposeOfProduct | src/base/matrix.rs:121-158 | `(a * b)^T == b^T * a^T` |
| Grid.SubmatrixWhole | src/base/matrix.rs:226-236 | the `R x C` window at `(0, 0)` is the whole matrix |
| Grid.FlattenRowMajorAt | src/base/matrix.rs:238-246 | cell `(i, j)` sits at position `i * C + j` of the `R * C` cells |
| Grid.FlattenColMajorAt | src/base/matrix.rs:248-256 | cell `(i, j)` sits at position `j * R + i` of the `R * C` cells |
| Grid.FromVecOfFlatten | src/base/matrix.rs:369-382 | `from_vec(flatten_row_major(m)) == m` |
| Grid.FlattenOfFromVec | src/base/matrix.rs:369-382 | `flatten_row_major(from_vec(v)) == v` |
| Grid.FromVecColMajorOfFlatten | src/base/matrix.rs:384-397 | `from_vec_col_major(flatten_col_major(m)) == m` |
| Grid.FlattenColMajorOfFromVec | src/base/matrix.rs:384-397 | `flatten_col_major(from_vec_col_major(v)) == v` |
| Grid.SumOfAdd | src/base/matrix.rs:263-271 | `sum(a + b) == sum(a) + sum(b)` |
| Grid.SumOfRows | src/base/matrix.rs:263-271 | `sum` is the total of the row totals |
| Grid.SumOfIdentity | src/base/matrix.rs:263-271 | `sum` of the `n x n` identity is `n` |
| Grid.ProductWithZeroCell | src/base/matrix.rs:273-284 | one zero cell makes `product` 0 |
| Base.TruncDiv | src/base/matrix.rs:114 | Rust's integer `/`: the quotient rounded toward zero, as used by `Mat`'s `div` and the generated vector `div` (macro_utils/src/vector.rs:264); characterised by `TruncDivRemainder` and `TruncDivExact` |
| Base.Dot | macro_utils/src/vector.rs:109-111 | `dot`: the sum of pairwise products, left to right, from 0; also the inner sum of `Mat`'s `mul` (laws in `DotSymmetric`, `DotAppend`, `Dot3`) |
| Base.Total | src/base/matrix.rs:263-271 | the running total of `sum()`: the elements added left to right from 0 (`TotalAppend`) |
| Base.Prod | src/base/matrix.rs:273-284 | the running product of `product()`: the elements multiplied left to right from 1 (`ProdAppend`, `ProdZero`) |
| Base.TruncDivRemainder | src/base/matrix.rs:114 | the quotient of `/` leaves a remainder smaller than the divisor, with the dividend's sign (rounding toward zero) |
| Base.TruncDivExact | src/base/matrix.rs:114 | an exact multiple divided by its factor gives the other factor |
| Base.DotSymmetric | macro_utils/src/vector.rs:109-111 | `dot(a, b) == dot(b, a)` |
| Base.DotAppend | macro_utils/src/vector.rs:109-111 | `dot` of concatenations is the sum of the parts' `dot`s |
| Base.Dot3 | macro_utils/src/vector.rs:109-111 | for three fields `dot` is `a0*b0 + a1*b1 + a2*b2` |
| Base.TotalAppend | src/base/matrix.rs:263-271 | the running total of a concatenation is the sum of the parts' totals |
| Base.ProdAppend | src/base/matrix.rs:273-284 | the running product of a concatenation is the product of the parts' products |
| Base.ProdZero | src/base/matrix.rs:273-284 | a zero anywhere makes the running product 0 |

## Left out

- The `println!` logging (macro_utils/src/vector.rs:6, macro_utils/src/tool.rs:6 and 13): side-effecting debug output.
- Token-stream parsing, `to_compile_error`, spans and `stringify!`. Declarations, types and items are taken already parsed, as datatypes, and a compile error is a `DeriveError` value. The `parse_macro_input!` failures (macro_utils/src/vector.rs:8, macro_utils/src/tool.rs:7 and 9) are not modelled.
- Type text is the printed token string. The model does not derive it from a syntax tree.
- `length` and `normalized` (macro_utils/src/vector.rs:119-131): they need `sqrt` and float division. NaN in `partial_cmp` is out with them, because the element type is an integer.
- Integer element types are idealised. Rust itself would reject `length` (no `sqrt`) and unary `-` on unsigned types; the model gives every generated item its integer meaning.
- Integer overflow and wrap-around in every `+`, `-`, `*` and `/`, including `MIN / -1`: elements are unbounded integers.
- The `Debug` and `Display` impls (macro_utils/src/vector.rs:331-351, src/base/matrix.rs:175-193): they rely on the element type's own formatting.
- `Clone` for `Mat` (src/base/matrix.rs:338-351, built on `unsafe MaybeUninit`), and the iterators `iter`, `iter_mut`, `rows_iter` and `rows_iter_mut` (src/base/matrix.rs:303-319).
- `get_mut` and `Mat`'s `IndexMut` (src/base/matrix.rs:30-32, 169-173): they hand out mutable references. In-place writes are modelled by `Mat.Set`.
- `shape()` (src/base/matrix.rs:16-18) is the pair `(Rows(), Cols())` and has no member of its own.
- `macro_utils/src/lib.rs` only registers the two macros and has no member of its own. `src/base/f32.rs` appears only as example inputs.
- Vector-by-vector `*` and `sum()`: the integration test calls them, but the derive does not emit them.
- Panic messages are fixed strings. The index and type name that Rust formats into them are dropped.
- `Mat` is `Copy` in Rust, and operators take it by value. Here every operator allocates a fresh `array2`, and `Mat.CopyOf` stands for `let mut result = self`.
- VectorOps.Cross: its own contract states only the length. The computed components are stated by `CrossParallelIsZero`, `CrossAnticommutes`, `CrossOrthogonal` and `CrossExample`.
- VectorOps.MinElement: requires at least one field. The generated code reads `self[0]`, and the derive rejects structs without fields.
- MatVecMul.GeneratedMul: requires `rhs` to have as many entries as a row, which the generated `From<[T; N]>` and `dot` need in order to type-check.
- `usize` is taken as 64 bits wide (`MatVecMul.USIZE_MAX`).
