/** The `#[mat_vec_mul(Vec)]` attribute on a matrix type alias
    (`type Mat3 = Mat<f32, 3, 3>;`): how it reads the alias's generic
    arguments, the code it emits, and what that emitted `mul` computes. */
module MatVecMul {
  import opened Base
  import Grid
  import VectorOps
  import Matrix

  /** The parts of a parsed Rust type the attribute looks at. A type that is
      not a path (a reference, a tuple, an array, ...) is `OtherTy`. */
  datatype Ty = PathTy(segments: seq<PathSegment>) | OtherTy(text: string)

  datatype PathSegment = PathSegment(ident: string, arguments: PathArguments)

  datatype PathArguments =
    | NoArguments
    | AngleBracketed(args: seq<GenericArgument>)
    | Parenthesized

  /** A generic argument. A const argument is kept as the text its tokens
      print as (`3`, `3usize`, `{ N }`); a bare name such as `N` parses as a
      type argument. */
  datatype GenericArgument =
    | TypeArg(ty: Ty)
    | ConstArg(tokens: string)
    | LifetimeArg(name: string)
    | OtherArg

  /** `type <ident> = <ty>;`, the item the attribute is placed on. */
  datatype ItemType = ItemType(ident: string, ty: Ty)

  /** What the attribute emits: the item unchanged, then
      `impl Mul<vecTy> for selfTy` whose `mul` builds
      `vecTy::new(vecTy::from(self[i]).dot(&rhs), ...)` for each `i` of
      `rowIndices` in order. */
  datatype Expansion = Expansion(item: ItemType, vecTy: string, selfTy: string, rowIndices: seq<nat>)

  const EXPECT_MAT_MESSAGE: string := "Expected Mat<T, ROWS, COLS> type"
  const UNWRAP_MESSAGE: string := "called `Result::unwrap()` on an `Err` value"

  /** `usize::MAX` on a 64-bit target. */
  const USIZE_MAX: nat := 0xFFFF_FFFF_FFFF_FFFF

  /** The path type `prefix::Mat<elem, rows, cols, extra...>`. */
  function MatType(prefix: seq<PathSegment>, elem: Ty, rows: string, cols: string, extra: seq<GenericArgument>): Ty
  {
    PathTy(prefix + [PathSegment("Mat", AngleBracketed([TypeArg(elem), ConstArg(rows), ConstArg(cols)] + extra))])
  }

  /** `extract_mat_generics`: the element type and the row and column
      expressions of a `Mat<T, ROWS, COLS>` path. Only the last path
      segment is inspected, and arguments after the third are ignored. */
  function ExtractMatGenerics(ty: Ty): (r: Option<(Ty, string, string)>)
    ensures r.Some? ==>
      ty.PathTy? && |ty.segments| >= 1 &&
      var last := ty.segments[|ty.segments| - 1];
      last.arguments.AngleBracketed? && |last.arguments.args| >= 3 &&
      ty == MatType(ty.segments[..|ty.segments| - 1], r.value.0, r.value.1, r.value.2, last.arguments.args[3..])
  {
    if !ty.PathTy? || |ty.segments| == 0 then None
    else
      var last := ty.segments[|ty.segments| - 1];
      if last.ident != "Mat" || !last.arguments.AngleBracketed? then None
      else
        var args := last.arguments.args;
        if |args| < 1 || !args[0].TypeArg? then None
        else if |args| < 2 || !args[1].ConstArg? then None
        else if |args| < 3 || !args[2].ConstArg? then None
        else
          assert ty.segments == ty.segments[..|ty.segments| - 1] + [last];
          assert args == [args[0], args[1], args[2]] + args[3..];
          Some((args[0].ty, args[1].tokens, args[2].tokens))
  }

  /** Every `Mat<T, ROWS, COLS>` path is recognised, whatever precedes the
      last segment and whatever follows the third argument. */
  lemma ExtractsFromAnyMatPath(prefix: seq<PathSegment>, elem: Ty, rows: string, cols: string, extra: seq<GenericArgument>)
    ensures ExtractMatGenerics(MatType(prefix, elem, rows, cols, extra)) == Some((elem, rows, cols))
  {
    var segs := prefix + [PathSegment("Mat", AngleBracketed([TypeArg(elem), ConstArg(rows), ConstArg(cols)] + extra))];
    assert segs[|segs| - 1] == PathSegment("Mat", AngleBracketed([TypeArg(elem), ConstArg(rows), ConstArg(cols)] + extra));
  }

  /** A dimension written as a bare name (`Mat<f32, N, N>`) parses as a
      type argument and is not recognised. */
  lemma NamedDimensionRejected(elem: Ty, name: string, cols: string)
    ensures ExtractMatGenerics(PathTy([PathSegment("Mat", AngleBracketed([TypeArg(elem), TypeArg(PathTy([PathSegment(name, NoArguments)])), ConstArg(cols)]))])) == None
  {
  }

  /** Fewer than three generic arguments are not recognised. */
  lemma TooFewArgumentsRejected(elem: Ty, rows: string)
    ensures ExtractMatGenerics(PathTy([PathSegment("Mat", AngleBracketed([TypeArg(elem), ConstArg(rows)]))])) == None
  {
  }

  predicate IsDigit(ch: char)
  {
    '0' <= ch <= '9'
  }

  predicate AllDigits(s: string)
  {
    forall k | 0 <= k < |s| :: IsDigit(s[k])
  }

  /** The number a string of decimal digits denotes, most significant
      first. */
  function DigitsValue(s: string): nat
    requires AllDigits(s)
  {
    if |s| == 0 then 0 else DigitsValue(s[..|s| - 1]) * 10 + (s[|s| - 1] as int - '0' as int)
  }

  /** `<usize as FromStr>::from_str`: an optional leading `+`, then one or
      more decimal digits whose value fits in `usize`. A lone sign, a
      leading `-`, any other character, or an overflow is an error. */
  function ParseUsize(s: string): (r: Option<nat>)
    ensures r.Some? ==> r.value <= USIZE_MAX
    ensures r.Some? ==> |s| >= 1 && (s[0] == '+' || IsDigit(s[0]))
  {
    if |s| == 0 then None
    else if (s[0] == '+' || s[0] == '-') && |s| == 1 then None
    else
      var digits := if s[0] == '+' then s[1..] else s;
      if AllDigits(digits) && DigitsValue(digits) <= USIZE_MAX then
        assert s[0] != '+' ==> IsDigit(digits[0]);
        Some(DigitsValue(digits))
      else None
  }

  /** The shortest decimal spelling of `n`, as a literal prints. */
  function DecimalString(n: nat): string
  {
    if n < 10 then ["0123456789"[n]] else DecimalString(n / 10) + ["0123456789"[n % 10]]
  }

  lemma {:induction false} DecimalStringDigits(n: nat)
    ensures |DecimalString(n)| >= 1 && AllDigits(DecimalString(n))
    ensures DigitsValue(DecimalString(n)) == n
  {
    var s := DecimalString(n);
    if n >= 10 {
      DecimalStringDigits(n / 10);
      assert s[..|s| - 1] == DecimalString(n / 10);
      DivMod(n, 10);
    }
  }

  /** Printing a `usize` and parsing it back gives the same number. */
  lemma ParseDecimal(n: nat)
    requires n <= USIZE_MAX
    ensures ParseUsize(DecimalString(n)) == Some(n)
  {
    DecimalStringDigits(n);
  }

  /** A leading `+` is accepted. */
  lemma ParsePlusDecimal(n: nat)
    requires n <= USIZE_MAX
    ensures ParseUsize("+" + DecimalString(n)) == Some(n)
  {
    DecimalStringDigits(n);
    assert ("+" + DecimalString(n))[1..] == DecimalString(n);
  }

  /** Leading zeros and a leading `+` are accepted: `03` and `+007` are the
      column counts 3 and 7. */
  lemma ParseLeadingZeros()
    ensures ParseUsize("03") == Some(3)
    ensures ParseUsize("+007") == Some(7)
  {
    assert "0"[..0] == "" && "03"[..1] == "0";
    assert AllDigits("03") && DigitsValue("03") == 3;
    assert "+007"[1..] == "007" && "007"[..2] == "00" && "00"[..1] == "0";
    assert AllDigits("007") && DigitsValue("007") == 7;
  }

  /** A literal with a type suffix (`3usize`) does not parse. */
  lemma SuffixedLiteralRejected(n: nat)
    ensures ParseUsize(DecimalString(n) + "usize") == None
  {
    DecimalStringDigits(n);
    var s := DecimalString(n) + "usize";
    assert !IsDigit(s[|s| - 1]);
  }

  /** A number beyond `usize::MAX` does not parse. */
  lemma OverflowRejected()
    ensures ParseUsize(DecimalString(USIZE_MAX + 1)) == None
  {
    DecimalStringDigits(USIZE_MAX + 1);
  }

  /** `0, 1, ..., n - 1`: `(0..cols).collect::<Vec<usize>>()`. */
  function Range(n: nat): (r: seq<nat>)
    ensures |r| == n && forall i | 0 <= i < n :: r[i] == i
  {
    seq(n, i requires 0 <= i < n => i)
  }

  /** `mat_vec_mul_impl`, once the attribute has been parsed as the
      identifier `vecTy` and the item as a type alias. It panics with
      `EXPECT_MAT_MESSAGE` when the alias is not a `Mat<T, ROWS, COLS>` path and through
      `unwrap` when the column expression does not print as a `usize`. */
  function ExpandMatVecMul(vecTy: string, item: ItemType): (r: Checked<Expansion>)
    ensures r.Value? ==> r.value.item == item && r.value.vecTy == vecTy && r.value.selfTy == item.ident
    ensures r.Panic? <==> ExtractMatGenerics(item.ty).None? || ParseUsize(ExtractMatGenerics(item.ty).value.2).None?
    ensures r.Value? ==> r.value.rowIndices == Range(ParseUsize(ExtractMatGenerics(item.ty).value.2).value)
  {
    match ExtractMatGenerics(item.ty)
    case None => Panic(EXPECT_MAT_MESSAGE)
    case Some((_, _, cols)) =>
      match ParseUsize(cols)
      case None => Panic(UNWRAP_MESSAGE)
      case Some(n) => Value(Expansion(item, vecTy, item.ident, Range(n)))
  }

  /** On an alias of `Mat<T, R, C>` with a literal column count, the `mul`
      visits the rows `0..C`, whatever `R` says. */
  lemma ExpandMatAlias(vecTy: string, name: string, prefix: seq<PathSegment>, elem: Ty, rows: string, cols: nat, extra: seq<GenericArgument>)
    requires cols <= USIZE_MAX
    ensures ExpandMatVecMul(vecTy, ItemType(name, MatType(prefix, elem, rows, DecimalString(cols), extra)))
         == Value(Expansion(ItemType(name, MatType(prefix, elem, rows, DecimalString(cols), extra)), vecTy, name, Range(cols)))
  {
    ExtractsFromAnyMatPath(prefix, elem, rows, DecimalString(cols), extra);
    ParseDecimal(cols);
  }

  /** An alias of anything but a path type panics with
      `EXPECT_MAT_MESSAGE`. */
  lemma ExpandRejectsNonPath(vecTy: string, name: string, text: string)
    ensures ExpandMatVecMul(vecTy, ItemType(name, OtherTy(text))) == Panic(EXPECT_MAT_MESSAGE)
  {
  }

  /** A suffixed column literal panics in the `unwrap`. */
  lemma ExpandRejectsSuffixedCols(vecTy: string, name: string, elem: Ty, rows: string, cols: nat)
    ensures ExpandMatVecMul(vecTy, ItemType(name, MatType([], elem, rows, DecimalString(cols) + "usize", [])))
         == Panic(UNWRAP_MESSAGE)
  {
    ExtractsFromAnyMatPath([], elem, rows, DecimalString(cols) + "usize", []);
    SuffixedLiteralRejected(cols);
  }

  /** What the emitted `mul(self, rhs)` evaluates to on the grid `a`: the
      arguments of `vecTy::new` left to right, each the dot product of row
      `indices[k]` with `rhs`; the first row index past the end of the grid
      panics in `Mat`'s indexing. */
  function MatVecProduct(a: seq<seq<int>>, rhs: seq<int>, indices: seq<nat>): (r: Checked<seq<int>>)
    requires forall i | 0 <= i < |a| :: |a[i]| == |rhs|
    ensures r.Panic? <==> exists k :: 0 <= k < |indices| && indices[k] >= |a|
    ensures r.Panic? ==> r.message == INDEX_MESSAGE
    ensures r.Value? ==> |r.value| == |indices|
    ensures r.Value? ==> forall k | 0 <= k < |indices| :: r.value[k] == Dot(a[indices[k]], rhs)
  {
    if |indices| == 0 then Value([])
    else
      var init := indices[..|indices| - 1];
      var last := indices[|indices| - 1];
      match MatVecProduct(a, rhs, init)
      case Panic(msg) =>
        var k :| 0 <= k < |init| && init[k] >= |a|;
        assert indices[k] >= |a|;
        Panic(msg)
      case Value(front) =>
        if last >= |a| then Panic(INDEX_MESSAGE) else Value(front + [Dot(a[last], rhs)])
  }

  /** The emitted `mul(self, rhs)`, run on a matrix: `self[i]` for each
      listed row, converted and dotted with `rhs`. The conversion
      `vecTy::from(self[i])` and `dot` only type-check when a row has as
      many entries as `rhs`. */
  method GeneratedMul(exp: Expansion, m: Matrix.Mat, rhs: seq<int>) returns (r: Checked<seq<int>>)
    requires |rhs| == m.Cols()
    ensures r == MatVecProduct(m.Cells(), rhs, exp.rowIndices)
  {
    ghost var a := m.Cells();
    var indices := exp.rowIndices;
    var out: seq<int> := [];
    for k := 0 to |indices|
      invariant MatVecProduct(a, rhs, indices[..k]) == Value(out)
    {
      assert indices[..k + 1][..k] == indices[..k];
      var row := m.Index(indices[k]);
      if row.Panic? {
        assert indices[k] >= |a|;
        return Panic(INDEX_MESSAGE);
      }
      out := out + [Dot(row.value, rhs)];
    }
    assert indices[..|indices|] == indices;
    r := Value(out);
  }

  /** A matrix with more columns than rows panics: the row index `R` is
      reached before the last argument. */
  lemma WideMatrixPanics(a: seq<seq<int>>, rhs: seq<int>, r: nat, c: nat)
    requires Grid.IsShape(a, r, c) && |rhs| == c && c > r
    ensures MatVecProduct(a, rhs, Range(c)) == Panic(INDEX_MESSAGE)
  {
    assert Range(c)[r] >= |a|;
  }

  /** A matrix with more rows than columns yields only `C` entries: the
      rows from `C` on never enter the result. */
  lemma TallMatrixDropsRows(a: seq<seq<int>>, rhs: seq<int>, r: nat, c: nat)
    requires Grid.IsShape(a, r, c) && |rhs| == c && r >= c
    ensures MatVecProduct(a, rhs, Range(c)) == MatVecProduct(a[..c], rhs, Range(c))
    ensures MatVecProduct(a, rhs, Range(c)).Value?
  {
    var p, q := MatVecProduct(a, rhs, Range(c)), MatVecProduct(a[..c], rhs, Range(c));
    assert !exists k :: 0 <= k < c && Range(c)[k] >= |a[..c]|;
    assert |p.value| == |q.value|;
    forall k | 0 <= k < c
      ensures p.value[k] == q.value[k]
    {
      assert a[..c][k] == a[k];
    }
    assert p.value == q.value;
  }

  /** `rhs` as a one-column grid. */
  function AsColumn(v: seq<int>): (g: seq<seq<int>>)
    ensures Grid.IsShape(g, |v|, 1)
  {
    seq(|v|, i requires 0 <= i < |v| => [v[i]])
  }

  /** On a square matrix the emitted `mul` is the matrix product of the
      matrix with `rhs` taken as a column. */
  lemma SquareMatchesMatrixProduct(a: seq<seq<int>>, rhs: seq<int>, n: nat)
    requires Grid.IsShape(a, n, n) && |rhs| == n
    ensures MatVecProduct(a, rhs, Range(n)).Value?
    ensures forall i | 0 <= i < n :: MatVecProduct(a, rhs, Range(n)).value[i] == Grid.Mul(a, AsColumn(rhs), n, n, 1)[i][0]
  {
    assert Grid.Column(AsColumn(rhs), 1, 0) == rhs;
    assert !exists k :: 0 <= k < n && Range(n)[k] >= |a|;
  }

  /** The identity matrix leaves a vector unchanged (the integration test's
      `identity * v == v`). */
  lemma IdentityLeavesVector(v: seq<int>)
    ensures MatVecProduct(Grid.Identity(|v|), v, Range(|v|)) == Value(v)
  {
    var n := |v|;
    var id := Grid.Identity(n);
    var p := MatVecProduct(id, v, Range(n));
    assert !exists k :: 0 <= k < n && Range(n)[k] >= |id|;
    forall i | 0 <= i < n
      ensures p.value[i] == v[i]
    {
      IdentityRowDot(v, i);
    }
    assert p.value == v;
  }

  lemma IdentityRowDot(v: seq<int>, i: nat)
    requires i < |v|
    ensures Dot(Grid.Identity(|v|)[i], v) == v[i]
  {
    var row := Grid.Identity(|v|)[i];
    assert forall m | 0 <= m < |v| :: row[m] == if m == i then 1 else 0;
    Grid.DotSingle(row, v, i);
  }

  /** The emitted `mul` is linear in `rhs`. */
  lemma ProductDistributesOverAdd(a: seq<seq<int>>, v: seq<int>, w: seq<int>, indices: seq<nat>)
    requires |v| == |w| && forall i | 0 <= i < |a| :: |a[i]| == |v|
    requires forall k | 0 <= k < |indices| :: indices[k] < |a|
    ensures MatVecProduct(a, VectorOps.Add(v, w), indices).Value?
    ensures MatVecProduct(a, VectorOps.Add(v, w), indices).value
         == VectorOps.Add(MatVecProduct(a, v, indices).value, MatVecProduct(a, w, indices).value)
  {
    var s := MatVecProduct(a, VectorOps.Add(v, w), indices);
    var p := MatVecProduct(a, v, indices);
    var q := MatVecProduct(a, w, indices);
    assert s.Value? && p.Value? && q.Value?;
    var sum := VectorOps.Add(p.value, q.value);
    forall k | 0 <= k < |indices|
      ensures s.value[k] == sum[k]
    {
      DotAddRight(a[indices[k]], v, w);
    }
    assert s.value == sum;
  }

  lemma DotAddRight(row: seq<int>, v: seq<int>, w: seq<int>)
    requires |row| == |v| == |w|
    ensures Dot(row, VectorOps.Add(v, w)) == Dot(row, v) + Dot(row, w)
  {
    DotSymmetric(row, VectorOps.Add(v, w));
    VectorOps.DotAddLeft(v, w, row);
    DotSymmetric(v, row);
    DotSymmetric(w, row);
  }
}
