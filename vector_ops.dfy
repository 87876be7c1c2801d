/** What the items emitted by `#[derive(VectorMath)]` compute, for a record
    of `n >= 1` fields sharing one integer element type. A value of the record
    is the sequence of its field values in declaration order: field `i` (the
    `i`-th declared field, which `new`, `From<[T; n]>` and `Index` all address
    by position `i`) is `v[i]`. Two values of the same generated type have
    the same length. */
module VectorOps {
  import opened Base

  /** `Self::new(f0, ..., fn-1)`: each field takes the argument in its
      position. */
  function New(args: seq<int>): seq<int>
  {
    args
  }

  /** `From<[T; n]>`: array slot `i` becomes field `i`. */
  function FromArray(item: seq<int>): seq<int>
  {
    item
  }

  /** `Index<usize>`: positions `0..n` name the fields in declaration order;
      any other index panics. */
  function Index(v: seq<int>, index: nat): (r: Checked<int>)
    ensures r.Panic? <==> index >= |v|
    ensures r.Value? ==> r.value == v[index]
  {
    if index < |v| then Value(v[index]) else Panic("Index out of bounds")
  }

  /** Reading field `i` after positional construction gives back argument
      `i`, whichever of the two constructors built the value. */
  lemma PositionalBijection(args: seq<int>, i: nat)
    requires i < |args|
    ensures Index(New(args), i) == Value(args[i])
    ensures Index(FromArray(args), i) == Value(args[i])
    ensures Index(New(args), |args| + i).Panic?
  {
  }

  function Add(a: seq<int>, b: seq<int>): seq<int>
    requires |a| == |b|
  {
    seq(|a|, i requires 0 <= i < |a| => a[i] + b[i])
  }

  function Sub(a: seq<int>, b: seq<int>): seq<int>
    requires |a| == |b|
  {
    seq(|a|, i requires 0 <= i < |a| => a[i] - b[i])
  }

  function Neg(a: seq<int>): seq<int>
  {
    seq(|a|, i requires 0 <= i < |a| => -a[i])
  }

  /** `v * s` with the scalar on the right. */
  function Scale(v: seq<int>, s: int): seq<int>
  {
    seq(|v|, i requires 0 <= i < |v| => v[i] * s)
  }

  /** `s * v` with the scalar on the left (`impl Mul<Vec> for T`). */
  function ScaleLeft(s: int, v: seq<int>): seq<int>
  {
    seq(|v|, i requires 0 <= i < |v| => s * v[i])
  }

  /** `v / s`: every field divided by the scalar with Rust's truncating
      integer division. */
  function DivScalar(v: seq<int>, s: int): seq<int>
    requires s != 0
  {
    seq(|v|, i requires 0 <= i < |v| => TruncDiv(v[i], s))
  }

  /** The generated `div`: dividing the first field by a zero scalar
      panics; otherwise every field is divided. */
  function Div(v: seq<int>, s: int): (r: Checked<seq<int>>)
    ensures r.Panic? <==> s == 0 && |v| >= 1
    ensures r.Value? ==> |r.value| == |v|
    ensures r.Value? && s != 0 ==> r.value == DivScalar(v, s)
  {
    if s != 0 then Value(DivScalar(v, s))
    else if |v| == 0 then Value(v)
    else Panic(DIVIDE_MESSAGE)
  }

  /** The vector of `n` zero fields. */
  function Zero(n: nat): seq<int>
  {
    seq(n, i => 0)
  }

  /** `map(f)`: `f` applied to every field, order preserved. */
  function Map(v: seq<int>, f: int -> int): seq<int>
  {
    seq(|v|, i requires 0 <= i < |v| => f(v[i]))
  }

  function LengthSquared(v: seq<int>): int
  {
    Dot(v, v)
  }

  /** `is_zero`: every field equals the element type's default value. */
  predicate IsZero(v: seq<int>)
  {
    forall i | 0 <= i < |v| :: v[i] == 0
  }

  /** `cross`, emitted only for records of exactly three fields. */
  function Cross(a: seq<int>, b: seq<int>): (r: seq<int>)
    requires |a| == 3 && |b| == 3
    ensures |r| == 3
  {
    [a[1] * b[2] - a[2] * b[1],
     a[2] * b[0] - a[0] * b[2],
     a[0] * b[1] - a[1] * b[0]]
  }

  /** `eq`: the conjunction of field-by-field equality, which is structural
      equality of the values. */
  function Eq(a: seq<int>, b: seq<int>): (r: bool)
    requires |a| == |b|
    ensures r <==> a == b
  {
    forall i | 0 <= i < |a| :: a[i] == b[i]
  }

  // ---- element-wise arithmetic ----

  lemma AddCommutes(a: seq<int>, b: seq<int>)
    requires |a| == |b|
    ensures Add(a, b) == Add(b, a)
  {
  }

  lemma SubUndoesAdd(a: seq<int>, b: seq<int>)
    requires |a| == |b|
    ensures Sub(Add(a, b), b) == a
  {
  }

  lemma NegIsSubtractionFromZero(a: seq<int>)
    ensures Neg(a) == Sub(Zero(|a|), a)
    ensures Neg(Neg(a)) == a
    ensures Add(a, Neg(a)) == Zero(|a|)
  {
  }

  lemma ScalarSidesAgree(s: int, v: seq<int>)
    ensures ScaleLeft(s, v) == Scale(v, s)
  {
  }

  /** Scaling is mapping the fields through `x * s`. */
  lemma ScaleIsMap(v: seq<int>, s: int)
    ensures Scale(v, s) == Map(v, x => x * s)
  {
  }

  /** Dividing by a nonzero scalar undoes multiplying by it. */
  lemma DivUndoesScale(v: seq<int>, s: int)
    requires s != 0
    ensures Div(Scale(v, s), s) == Value(v)
  {
    forall i | 0 <= i < |v|
      ensures DivScalar(Scale(v, s), s)[i] == v[i]
    {
      TruncDivExact(v[i], s);
    }
    assert DivScalar(Scale(v, s), s) == v;
  }

  lemma MapComposes(v: seq<int>, f: int -> int, g: int -> int)
    ensures Map(Map(v, f), g) == Map(v, x => g(f(x)))
  {
  }

  // ---- reductions ----

  lemma {:induction false} DotAddLeft(a: seq<int>, b: seq<int>, c: seq<int>)
    requires |a| == |b| == |c|
    ensures Dot(Add(a, b), c) == Dot(a, c) + Dot(b, c)
  {
    if |a| > 0 {
      var n := |a| - 1;
      assert Add(a, b)[..n] == Add(a[..n], b[..n]);
      DotAddLeft(a[..n], b[..n], c[..n]);
    }
  }

  lemma {:induction false} DotScaleLeft(a: seq<int>, s: int, b: seq<int>)
    requires |a| == |b|
    ensures Dot(Scale(a, s), b) == s * Dot(a, b)
  {
    if |a| > 0 {
      var n := |a| - 1;
      assert Scale(a, s)[..n] == Scale(a[..n], s);
      DotScaleLeft(a[..n], s, b[..n]);
      assert Dot(Scale(a, s), b) == s * Dot(a[..n], b[..n]) + (a[n] * s) * b[n];
      assert (a[n] * s) * b[n] == s * (a[n] * b[n]);
    }
  }

  /** `length_squared` is a sum of squares: never negative, and zero exactly
      for the zero vector. */
  lemma {:induction false} LengthSquaredZeroIff(v: seq<int>)
    ensures LengthSquared(v) >= 0
    ensures LengthSquared(v) == 0 <==> IsZero(v)
  {
    if |v| > 0 {
      var n := |v| - 1;
      LengthSquaredZeroIff(v[..n]);
      assert v[n] * v[n] >= 0;
      assert v[n] != 0 ==> v[n] * v[n] > 0;
      assert IsZero(v) <==> IsZero(v[..n]) && v[n] == 0;
    }
  }

  lemma IsZeroIff(v: seq<int>)
    ensures IsZero(v) <==> v == Zero(|v|)
  {
  }

  /** `Vec3(1, 2, 3).dot(&Vec3(2, 4, 6)) == 28`. */
  lemma DotExample()
    ensures Dot([1, 2, 3], [2, 4, 6]) == 28
  {
    assert [1, 2, 3][..2] == [1, 2] && [2, 4, 6][..2] == [2, 4];
    assert [1, 2][..1] == [1] && [2, 4][..1] == [2];
  }

  // ---- cross product ----

  /** A vector crossed with any multiple of itself is the zero vector. */
  lemma CrossParallelIsZero(a: seq<int>, k: int)
    requires |a| == 3
    ensures Cross(a, Scale(a, k)) == Zero(3)
  {
    assert a[1] * (a[2] * k) == a[2] * (a[1] * k);
    assert a[2] * (a[0] * k) == a[0] * (a[2] * k);
    assert a[0] * (a[1] * k) == a[1] * (a[0] * k);
  }

  lemma CrossAnticommutes(a: seq<int>, b: seq<int>)
    requires |a| == 3 && |b| == 3
    ensures Cross(a, b) == Neg(Cross(b, a))
  {
  }

  /** The cross product is orthogonal to both of its operands. */
  lemma CrossOrthogonal(a: seq<int>, b: seq<int>)
    requires |a| == 3 && |b| == 3
    ensures Dot(a, Cross(a, b)) == 0 && Dot(b, Cross(a, b)) == 0
  {
    var c := Cross(a, b);
    Dot3(a, c);
    Dot3(b, c);
    TripleProductVanishes(a[0], a[1], a[2], b[0], b[1], b[2], c[0], c[1], c[2]);
  }

  /** With `z` the cross product of `x` and `y` written out on the
      coordinates, both `x . z` and `y . z` cancel term by term. */
  lemma TripleProductVanishes(x0: int, x1: int, x2: int, y0: int, y1: int, y2: int,
                              z0: int, z1: int, z2: int)
    requires z0 == x1 * y2 - x2 * y1 && z1 == x2 * y0 - x0 * y2 && z2 == x0 * y1 - x1 * y0
    ensures x0 * z0 + x1 * z1 + x2 * z2 == 0
    ensures y0 * z0 + y1 * z1 + y2 * z2 == 0
  {
    assert x0 * z0 == x0 * (x1 * y2) - x0 * (x2 * y1);
    assert x1 * z1 == x1 * (x2 * y0) - x1 * (x0 * y2);
    assert x2 * z2 == x2 * (x0 * y1) - x2 * (x1 * y0);
    assert y0 * z0 == y0 * (x1 * y2) - y0 * (x2 * y1);
    assert y1 * z1 == y1 * (x2 * y0) - y1 * (x0 * y2);
    assert y2 * z2 == y2 * (x0 * y1) - y2 * (x1 * y0);
  }

  /** `Vec3::cross(&Vec3(1, 2, 3), &Vec3(2, 4, 6))` is the zero vector. */
  lemma CrossExample()
    ensures Cross([1, 2, 3], [2, 4, 6]) == [0, 0, 0]
  {
  }

  // ---- extrema ----

  /** `min_element`: starts from field 0 and keeps any strictly smaller
      field met in declaration order. */
  method MinElement(v: seq<int>) returns (min: int)
    requires |v| >= 1
    ensures min in v
    ensures forall i | 0 <= i < |v| :: min <= v[i]
  {
    min := v[0];
    for k := 0 to |v|
      invariant min in v
      invariant forall i | 0 <= i < k :: min <= v[i]
    {
      if v[k] < min {
        min := v[k];
      }
    }
  }

  /** `max_element`: the mirror image of `min_element`. */
  method MaxElement(v: seq<int>) returns (max: int)
    requires |v| >= 1
    ensures max in v
    ensures forall i | 0 <= i < |v| :: v[i] <= max
  {
    max := v[0];
    for k := 0 to |v|
      invariant max in v
      invariant forall i | 0 <= i < k :: v[i] <= max
    {
      if v[k] > max {
        max := v[k];
      }
    }
  }

  // ---- ordering ----

  /** `lt`, `le`, `gt`, `ge`: independent field-by-field conjunctions. */
  predicate Lt(a: seq<int>, b: seq<int>)
    requires |a| == |b|
  {
    forall i | 0 <= i < |a| :: a[i] < b[i]
  }

  predicate Le(a: seq<int>, b: seq<int>)
    requires |a| == |b|
  {
    forall i | 0 <= i < |a| :: a[i] <= b[i]
  }

  predicate Gt(a: seq<int>, b: seq<int>)
    requires |a| == |b|
  {
    forall i | 0 <= i < |a| :: a[i] > b[i]
  }

  predicate Ge(a: seq<int>, b: seq<int>)
    requires |a| == |b|
  {
    forall i | 0 <= i < |a| :: a[i] >= b[i]
  }

  /** Some field of `a` is below `b`'s and another is above. */
  predicate Mixed(a: seq<int>, b: seq<int>)
    requires |a| == |b|
  {
    exists i, j | 0 <= i < |a| && 0 <= j < |a| :: a[i] < b[i] && a[j] > b[j]
  }

  /** The product order on fields: incomparable when two fields disagree in
      direction, otherwise the direction of any field that differs. */
  function Compare(a: seq<int>, b: seq<int>): Option<Ordering>
    requires |a| == |b|
  {
    if Mixed(a, b) then None
    else if exists i | 0 <= i < |a| :: a[i] < b[i] then Some(Less)
    else if exists i | 0 <= i < |a| :: a[i] > b[i] then Some(Greater)
    else Some(Equal)
  }

  /** `partial_cmp`: a running `result` starting at `Equal`, set by every
      field that differs, with an early `None` as soon as a field points the
      other way from the running result. */
  method PartialCmp(a: seq<int>, b: seq<int>) returns (r: Option<Ordering>)
    requires |a| == |b|
    ensures r == Compare(a, b)
  {
    var result := Equal;
    for k := 0 to |a|
      invariant forall i | 0 <= i < k :: result == Less ==> a[i] <= b[i]
      invariant forall i | 0 <= i < k :: result == Greater ==> a[i] >= b[i]
      invariant forall i | 0 <= i < k :: result == Equal ==> a[i] == b[i]
      invariant result == Less ==> exists i | 0 <= i < k :: a[i] < b[i]
      invariant result == Greater ==> exists i | 0 <= i < k :: a[i] > b[i]
    {
      if a[k] < b[k] {
        if result == Greater {
          var i :| 0 <= i < k && a[i] > b[i];
          assert a[k] < b[k] && a[i] > b[i];
          return None;
        }
        result := Less;
      } else if a[k] > b[k] {
        if result == Less {
          var i :| 0 <= i < k && a[i] < b[i];
          assert a[i] < b[i] && a[k] > b[k];
          return None;
        }
        result := Greater;
      }
    }
    r := Some(result);
  }

  lemma CompareEqualIff(a: seq<int>, b: seq<int>)
    requires |a| == |b|
    ensures Compare(a, b) == Some(Equal) <==> a == b
  {
    if Compare(a, b) == Some(Equal) {
      assert forall i | 0 <= i < |a| :: a[i] == b[i];
    }
  }

  /** `Some(Less)` exactly when every field is `<=` and the values differ;
      `Some(Greater)` is the mirror image. */
  lemma CompareLessIff(a: seq<int>, b: seq<int>)
    requires |a| == |b|
    ensures Compare(a, b) == Some(Less) <==> Le(a, b) && a != b
    ensures Compare(a, b) == Some(Greater) <==> Ge(a, b) && a != b
  {
    if Le(a, b) && a != b {
      var i :| 0 <= i < |a| && a[i] != b[i];
      assert a[i] < b[i];
    }
    if Ge(a, b) && a != b {
      var i :| 0 <= i < |a| && a[i] != b[i];
      assert a[i] > b[i];
    }
  }

  lemma CompareNoneIff(a: seq<int>, b: seq<int>)
    requires |a| == |b|
    ensures Compare(a, b) == None <==> Mixed(a, b)
  {
  }

  /** Swapping the operands reverses the answer. */
  lemma CompareReverses(a: seq<int>, b: seq<int>)
    requires |a| == |b|
    ensures Compare(a, b) == Some(Less) <==> Compare(b, a) == Some(Greater)
    ensures Compare(a, b) == None <==> Compare(b, a) == None
  {
    if Mixed(a, b) {
      var i, j :| 0 <= i < |a| && 0 <= j < |a| && a[i] < b[i] && a[j] > b[j];
      assert b[j] < a[j] && b[i] > a[i];
    }
    if Mixed(b, a) {
      var i, j :| 0 <= i < |a| && 0 <= j < |a| && b[i] < a[i] && b[j] > a[j];
      assert a[j] < b[j] && a[i] > b[i];
    }
  }

  /** The strict conjunction agrees with `partial_cmp` in one direction: on a
      record with at least one field, `lt` implies `Some(Less)` and `le`
      holds exactly when `partial_cmp` says `Less` or `Equal`. */
  lemma LtAgreesWithCompare(a: seq<int>, b: seq<int>)
    requires |a| == |b| >= 1
    ensures Lt(a, b) ==> Compare(a, b) == Some(Less)
    ensures Gt(a, b) ==> Compare(a, b) == Some(Greater)
    ensures Le(a, b) <==> Compare(a, b) == Some(Less) || Compare(a, b) == Some(Equal)
    ensures Ge(a, b) <==> Compare(a, b) == Some(Greater) || Compare(a, b) == Some(Equal)
  {
    CompareLessIff(a, b);
    CompareEqualIff(a, b);
    if Lt(a, b) {
      assert a[0] < b[0];
    }
    if Gt(a, b) {
      assert a[0] > b[0];
    }
  }

  /** ... but not in the other: `partial_cmp` says `Less` for `(0, 0)`
      against `(0, 1)`, while `lt` is false. */
  lemma LessDoesNotImplyLt()
    ensures Compare([0, 0], [0, 1]) == Some(Less) && !Lt([0, 0], [0, 1])
  {
    assert [0, 0][1] < [0, 1][1];
    assert !([0, 0][0] < [0, 1][0]);
    CompareLessIff([0, 0], [0, 1]);
  }

  /** For fields that disagree in direction `partial_cmp` is `None` and all
      four convenience predicates are false: the two paths never claim
      contradictory orderings. */
  lemma MixedIsIncomparable(a: seq<int>, b: seq<int>)
    requires |a| == |b|
    requires Mixed(a, b)
    ensures Compare(a, b) == None
    ensures !Lt(a, b) && !Le(a, b) && !Gt(a, b) && !Ge(a, b)
  {
    var i, j :| 0 <= i < |a| && 0 <= j < |a| && a[i] < b[i] && a[j] > b[j];
    assert !(a[j] < b[j]) && !(a[j] <= b[j]) && !(a[i] > b[i]) && !(a[i] >= b[i]);
  }

  /** A place holding a value of the generated type, as `&mut self` sees it:
      the `*_assign` operators and `index_mut` update its fields in place. */
  class VectorVar {
    var fields: seq<int>

    constructor (init: seq<int>)
      ensures fields == init
    {
      fields := init;
    }

    /** `self += rhs`: `self.f += rhs.f` for each field in turn. */
    method AddAssign(rhs: seq<int>)
      requires |rhs| == |fields|
      modifies this
      ensures fields == Add(old(fields), rhs)
    {
      for k := 0 to |fields|
        invariant |fields| == |rhs|
        invariant forall i | 0 <= i < k :: fields[i] == old(fields)[i] + rhs[i]
        invariant forall i | k <= i < |fields| :: fields[i] == old(fields)[i]
      {
        fields := fields[k := fields[k] + rhs[k]];
      }
    }

    /** `self -= rhs`. */
    method SubAssign(rhs: seq<int>)
      requires |rhs| == |fields|
      modifies this
      ensures fields == Sub(old(fields), rhs)
    {
      for k := 0 to |fields|
        invariant |fields| == |rhs|
        invariant forall i | 0 <= i < k :: fields[i] == old(fields)[i] - rhs[i]
        invariant forall i | k <= i < |fields| :: fields[i] == old(fields)[i]
      {
        fields := fields[k := fields[k] - rhs[k]];
      }
    }

    /** `self *= s`. */
    method MulAssign(s: int)
      modifies this
      ensures fields == Scale(old(fields), s)
    {
      for k := 0 to |fields|
        invariant |fields| == |old(fields)|
        invariant forall i | 0 <= i < k :: fields[i] == old(fields)[i] * s
        invariant forall i | k <= i < |fields| :: fields[i] == old(fields)[i]
      {
        fields := fields[k := fields[k] * s];
      }
    }

    /** `self /= s`: a zero scalar panics at the first field, before any
        field is written. */
    method DivAssign(s: int) returns (r: Checked<()>)
      modifies this
      ensures r.Panic? <==> Div(old(fields), s).Panic?
      ensures r.Panic? ==> fields == old(fields)
      ensures r.Value? ==> Div(old(fields), s) == Value(fields)
    {
      if s == 0 && |fields| >= 1 {
        return Panic(DIVIDE_MESSAGE);
      }
      for k := 0 to |fields|
        invariant |fields| == |old(fields)|
        invariant forall i | 0 <= i < k :: fields[i] == TruncDiv(old(fields)[i], s)
        invariant forall i | k <= i < |fields| :: fields[i] == old(fields)[i]
      {
        fields := fields[k := TruncDiv(fields[k], s)];
      }
      if s != 0 {
        assert fields == DivScalar(old(fields), s);
      } else {
        assert fields == old(fields);
      }
      r := Value(());
    }

    /** `self[index] = x`, through the reference `index_mut` returns: only
        the addressed field changes; an index past the last field panics
        before anything is written. */
    method IndexMut(index: nat, x: int) returns (r: Checked<()>)
      modifies this
      ensures r.Panic? <==> index >= |old(fields)|
      ensures fields == if r.Panic? then old(fields) else old(fields)[index := x]
    {
      if index < |fields| {
        fields := fields[index := x];
        r := Value(());
      } else {
        r := Panic("Index out of bounds");
      }
    }
  }
}
