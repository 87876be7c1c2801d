/** Shared vocabulary of the model: Rust's `Option`, `Result`, a panic, the
    `Ordering` of `partial_cmp`, and the integer arithmetic that the generated
    vector code and the matrix container perform on their element type. */
module Base {

  datatype Option<T> = None | Some(value: T)

  datatype Result<T, E> = Ok(value: T) | Err(error: E)

  /** The outcome of an expression that may panic: either its value, or the
      panic that aborts the calling thread. */
  datatype Checked<T> = Value(value: T) | Panic(message: string)

  /** The panic message of an array or slice index past the end. */
  const INDEX_MESSAGE: string := "index out of bounds"

  /** The panic message of an integer division by zero. */
  const DIVIDE_MESSAGE: string := "attempt to divide by zero"

  datatype Ordering = Less | Equal | Greater

  function Abs(x: int): nat
  {
    if x < 0 then -x else x
  }

  /** Rust's `/` on a primitive integer: the quotient rounded toward zero
      (Dafny's own `/` is Euclidean and differs for negative operands). */
  function TruncDiv(a: int, b: int): int
    requires b != 0
  {
    if (a >= 0) == (b > 0) then Abs(a) / Abs(b) else -(Abs(a) / Abs(b))
  }

  /** The quotient is the one whose remainder is smaller than the divisor and
      takes the sign of the dividend: the definition of truncating division. */
  lemma TruncDivRemainder(a: int, b: int)
    requires b != 0
    ensures var r := a - TruncDiv(a, b) * b; Abs(r) < Abs(b) && (r == 0 || (r > 0) == (a > 0))
  {
    var q := TruncDiv(a, b);
    var r := a - q * b;
    if a >= 0 && b > 0 {
      RemainderPosPos(a, b, q);
      assert 0 <= r < b && (a == 0 ==> r == 0);
    } else if a >= 0 {
      RemainderPosNeg(a, b, q);
      assert 0 <= r < -b && (a == 0 ==> r == 0);
    } else if b > 0 {
      RemainderNegPos(a, b, q);
      assert -b < r <= 0;
    } else {
      RemainderNegNeg(a, b, q);
      assert b < r <= 0;
    }
    assert Abs(r) < Abs(b) && (r == 0 || (r > 0) == (a > 0));
  }

  lemma RemainderPosPos(a: int, b: int, q: int)
    requires a >= 0 && b > 0 && q == TruncDiv(a, b)
    ensures 0 <= a - q * b < b
    ensures a == 0 ==> q == 0
  {
    DivMod(a, b);
  }

  lemma RemainderPosNeg(a: int, b: int, q: int)
    requires a >= 0 && b < 0 && q == TruncDiv(a, b)
    ensures 0 <= a - q * b < -b
    ensures a == 0 ==> q == 0
  {
    DivMod(a, -b);
    assert q * b == (a / -b) * -b;
  }

  lemma RemainderNegPos(a: int, b: int, q: int)
    requires a < 0 && b > 0 && q == TruncDiv(a, b)
    ensures -b < a - q * b <= 0
  {
    DivMod(-a, b);
    assert q * b == -((-a / b) * b);
  }

  lemma RemainderNegNeg(a: int, b: int, q: int)
    requires a < 0 && b < 0 && q == TruncDiv(a, b)
    ensures b < a - q * b <= 0
  {
    DivMod(-a, -b);
    assert q * b == -((-a / -b) * -b);
  }

  /** Dividing an exact multiple by its factor gives the other factor back. */
  lemma TruncDivExact(x: int, s: int)
    requires s != 0
    ensures TruncDiv(x * s, s) == x
  {
    var X: int, S: int := Abs(x), Abs(s);
    if x < 0 && s < 0 {
      assert x * s == X * S;
    } else if x < 0 {
      assert x * s == -(X * S);
    } else if s < 0 {
      assert x * s == -(X * S);
    }
    assert Abs(x * s) == X * S;
    NatDivExact(X, S);
  }

  lemma DivMod(a: int, b: int)
    requires a >= 0 && b > 0
    ensures a == (a / b) * b + a % b && 0 <= a % b < b
  {
  }

  lemma MulAtLeast(d: int, s: int)
    requires d >= 1 && s > 0
    ensures d * s >= s
  {
  }

  lemma Distributes(q: int, x: int, s: int)
    ensures (q - x) * s == q * s - x * s
  {
  }

  lemma NatDivExact(x: int, s: int)
    requires x >= 0 && s > 0
    ensures (x * s) / s == x
  {
    var p := x * s;
    DivMod(p, s);
    var q := p / s;
    var r := p % s;
    Distributes(q, x, s);
    assert (q - x) * s == -r;
    if q > x {
      MulAtLeast(q - x, s);
    }
    if q < x {
      Distributes(x, q, s);
      MulAtLeast(x - q, s);
    }
  }

  /** `x[0]*y[0] + x[1]*y[1] + ...`, added left to right: the sum of
      pairwise products. */
  function Dot(x: seq<int>, y: seq<int>): int
    requires |x| == |y|
  {
    if |x| == 0 then 0 else Dot(x[..|x| - 1], y[..|y| - 1]) + x[|x| - 1] * y[|y| - 1]
  }

  /** The sum of three products, written out. */
  lemma Dot3(x: seq<int>, y: seq<int>)
    requires |x| == 3 && |y| == 3
    ensures Dot(x, y) == x[0] * y[0] + x[1] * y[1] + x[2] * y[2]
  {
    var x2, y2 := x[..2], y[..2];
    assert x2[..1] == [x[0]] && y2[..1] == [y[0]];
    assert Dot(x2[..1], y2[..1]) == x[0] * y[0];
    assert Dot(x2, y2) == x[0] * y[0] + x[1] * y[1];
  }

  /** The sum of a sequence, folded left to right from 0. */
  function Total(s: seq<int>): int
  {
    if |s| == 0 then 0 else Total(s[..|s| - 1]) + s[|s| - 1]
  }

  /** The product of a sequence, folded left to right from 1. */
  function Prod(s: seq<int>): int
  {
    if |s| == 0 then 1 else Prod(s[..|s| - 1]) * s[|s| - 1]
  }

  lemma {:induction false} DotSymmetric(x: seq<int>, y: seq<int>)
    requires |x| == |y|
    ensures Dot(x, y) == Dot(y, x)
  {
    if |x| > 0 {
      DotSymmetric(x[..|x| - 1], y[..|y| - 1]);
    }
  }

  /** Splitting the pairs at any point splits the sum. */
  lemma {:induction false} DotAppend(x: seq<int>, y: seq<int>, x': seq<int>, y': seq<int>)
    requires |x| == |y| && |x'| == |y'|
    ensures Dot(x + x', y + y') == Dot(x, y) + Dot(x', y')
    decreases |x'|
  {
    if |x'| > 0 {
      var n := |x'| - 1;
      assert (x + x')[..|x| + n] == x + x'[..n];
      assert (y + y')[..|y| + n] == y + y'[..n];
      DotAppend(x, y, x'[..n], y'[..n]);
    } else {
      assert x + x' == x && y + y' == y;
    }
  }

  lemma {:induction false} TotalAppend(s: seq<int>, t: seq<int>)
    ensures Total(s + t) == Total(s) + Total(t)
    decreases |t|
  {
    if |t| > 0 {
      assert (s + t)[..|s + t| - 1] == s + t[..|t| - 1];
      TotalAppend(s, t[..|t| - 1]);
    } else {
      assert s + t == s;
    }
  }

  /** One more element adds itself to the running total. */
  lemma TotalSnoc(s: seq<int>, x: int)
    ensures Total(s + [x]) == Total(s) + x
  {
    assert (s + [x])[..|s|] == s;
  }

  /** One more element multiplies the running product by itself. */
  lemma ProdSnoc(s: seq<int>, x: int)
    ensures Prod(s + [x]) == Prod(s) * x
  {
    assert (s + [x])[..|s|] == s;
  }

  lemma {:induction false} ProdAppend(s: seq<int>, t: seq<int>)
    ensures Prod(s + t) == Prod(s) * Prod(t)
    decreases |t|
  {
    if |t| > 0 {
      assert (s + t)[..|s + t| - 1] == s + t[..|t| - 1];
      ProdAppend(s, t[..|t| - 1]);
    } else {
      assert s + t == s;
    }
  }

  /** A zero anywhere makes the product zero. */
  lemma {:induction false} ProdZero(s: seq<int>, k: nat)
    requires k < |s| && s[k] == 0
    ensures Prod(s) == 0
  {
    if k < |s| - 1 {
      ProdZero(s[..|s| - 1], k);
    }
  }
}
