/** karm-math/vec.h on integer components (`Vec2i`, `Vec3i`, `Vec4i`): the
    componentwise arithmetic, comparison and indexing of the vector unions.
    Components are mathematical integers; C++ `/` truncates toward zero. */
module Vecs {
  import opened Base

  /** `Vec2<T>`: `x, y`, aliased by `width, height` and by `_els`. */
  datatype Vec2 = Vec2(x: int, y: int)
  {
    /** The `width` view of the union. */
    function Width(): int { x }

    /** The `height` view of the union. */
    function Height(): int { y }

    /** `min()`: the smaller component. */
    function Least(): (r: int)
      ensures r <= x && r <= y && (r == x || r == y)
    {
      Base.Min(x, y)
    }

    /** `max()`: the larger component. */
    function Greatest(): (r: int)
      ensures r >= x && r >= y && (r == x || r == y)
    {
      Base.Max(x, y)
    }

    /** `min(other)`: the componentwise minimum. */
    function Min(o: Vec2): (r: Vec2)
      ensures r.x <= x && r.x <= o.x && (r.x == x || r.x == o.x)
      ensures r.y <= y && r.y <= o.y && (r.y == y || r.y == o.y)
    {
      Vec2(Base.Min(x, o.x), Base.Min(y, o.y))
    }

    /** `max(other)`: the componentwise maximum. */
    function Max(o: Vec2): (r: Vec2)
      ensures r.x >= x && r.x >= o.x && (r.x == x || r.x == o.x)
      ensures r.y >= y && r.y >= o.y && (r.y == y || r.y == o.y)
    {
      Vec2(Base.Max(x, o.x), Base.Max(y, o.y))
    }

    function Dot(o: Vec2): int
    {
      x * o.x + y * o.y
    }

    function Cross(o: Vec2): int
    {
      x * o.y - y * o.x
    }

    /** `lenSq()`: the dot product with itself, never negative. */
    function LenSq(): (r: int)
      ensures r >= 0
      ensures r == 0 <==> x == 0 && y == 0
    {
      SquareSum(x, y);
      Dot(this)
    }

    /** `operator[]`: `_els` aliases `x` and `y` (`Array` indexing demands a valid index). */
    function At(i: int): (r: int)
      requires 0 <= i < 2
      ensures i == 0 ==> r == x
      ensures i == 1 ==> r == y
    {
      [x, y][i]
    }

    function AddScalar(s: int): Vec2 { Vec2(x + s, y + s) }
    function SubScalar(s: int): Vec2 { Vec2(x - s, y - s) }
    function MulScalar(s: int): Vec2 { Vec2(x * s, y * s) }
    function DivScalar(s: int): Vec2 requires s != 0 { Vec2(TDiv(x, s), TDiv(y, s)) }

    function Add(o: Vec2): Vec2 { Vec2(x + o.x, y + o.y) }
    function Sub(o: Vec2): Vec2 { Vec2(x - o.x, y - o.y) }
    function Mul(o: Vec2): Vec2 { Vec2(x * o.x, y * o.y) }
    function Div(o: Vec2): Vec2 requires o.x != 0 && o.y != 0 { Vec2(TDiv(x, o.x), TDiv(y, o.y)) }

    /** Unary `operator-`. */
    function Neg(): Vec2 { Vec2(-x, -y) }

    /** `cmp(other)`: `x` decides, `y` breaks ties. */
    function Cmp(o: Vec2): (r: Ordr)
      ensures r == Eq <==> this == o
      ensures r == Lt <==> x < o.x || (x == o.x && y < o.y)
    {
      Then(Base.Cmp(x, o.x), Base.Cmp(y, o.y))
    }
  }

  /** The all-zero vector of the default constructors. */
  const Zero2 := Vec2(0, 0)

  /** The one-value constructor `Vec2(value)`. */
  function Splat2(v: int): (r: Vec2)
    ensures r.x == v && r.y == v
  {
    Vec2(v, v)
  }

  lemma SquareSum(a: int, b: int)
    ensures a * a + b * b >= 0
    ensures a * a + b * b == 0 <==> a == 0 && b == 0
  {
    assert a * a >= 0 && b * b >= 0;
    if a != 0 {
      assert a * a > 0;
    }
  }

  /** `min(other)` and `max(other)` partition each pair of components. */
  lemma MinMaxSplit2(a: Vec2, b: Vec2)
    ensures a.Min(b).Add(a.Max(b)) == a.Add(b)
    ensures a.Min(b) == b.Min(a) && a.Max(b) == b.Max(a)
  {
  }

  /** `dot` is symmetric and `cross` antisymmetric; a vector crossed with itself is 0. */
  lemma DotCrossSymmetry2(a: Vec2, b: Vec2)
    ensures a.Dot(b) == b.Dot(a)
    ensures a.Cross(b) == -b.Cross(a)
    ensures a.Cross(a) == 0
  {
    assert a.x * b.y == b.y * a.x && a.y * b.x == b.x * a.y;
  }

  /** Componentwise `-` undoes `+`, `v - v` is the zero vector and negation is an involution. */
  lemma AddSubInverse2(a: Vec2, b: Vec2)
    ensures a.Add(b).Sub(b) == a
    ensures a.Sub(a) == Zero2
    ensures a.Neg().Neg() == a
    ensures a.Sub(b) == a.Add(b.Neg())
  {
  }

  /** The scalar operators: `- s` undoes `+ s`, and truncating `/ s` undoes `* s`. */
  lemma ScalarInverse2(a: Vec2, s: int)
    ensures a.AddScalar(s).SubScalar(s) == a
    ensures s != 0 ==> a.MulScalar(s).DivScalar(s) == a
  {
    if s != 0 {
      TDivMulCancel(a.x, s);
      TDivMulCancel(a.y, s);
    }
  }

  /** The componentwise `/` undoes the componentwise `*` by a vector with no zero component. */
  lemma MulDivInverse2(a: Vec2, b: Vec2)
    requires b.x != 0 && b.y != 0
    ensures a.Mul(b).Div(b) == a
  {
    TDivMulCancel(a.x, b.x);
    TDivMulCancel(a.y, b.y);
  }

  lemma {:induction false} TDivMulCancel(a: int, b: int)
    requires b != 0
    ensures TDiv(a * b, b) == a
  {
    if a >= 0 && b > 0 {
      DivExact(a, b);
    } else if a >= 0 {
      assert a * b == -(a * -b);
      DivExact(a, -b);
    } else if b > 0 {
      assert a * b == -(-a * b);
      DivExact(-a, b);
    } else {
      assert a * b == -a * -b;
      DivExact(-a, -b);
    }
  }

  lemma DivExact(a: nat, b: int)
    requires b > 0
    ensures a * b >= 0 && (a * b) / b == a
  {
    ModUnique(a * b, a, b, 0);
    assert a * b == (a * b) / b * b + (a * b) % b;
    assert ((a * b) / b - a) * b == 0;
  }

  /** Scalar on the left of a `Vec2` (vec.h:151-169): each operator swaps its
      operands and calls the vector-on-the-left form. For `+` and `*` that is
      the componentwise `s op v`; for `-` and `/` it is `v - s` and `v / s`. */
  function ScalarSub2(s: int, v: Vec2): (r: Vec2)
    ensures r.x == v.x - s && r.y == v.y - s
  {
    v.SubScalar(s)
  }

  function ScalarAdd2(s: int, v: Vec2): (r: Vec2)
    ensures r.x == s + v.x && r.y == s + v.y
  {
    v.AddScalar(s)
  }

  function ScalarMul2(s: int, v: Vec2): (r: Vec2)
    ensures r.x == s * v.x && r.y == s * v.y
  {
    v.MulScalar(s)
  }

  function ScalarDiv2(s: int, v: Vec2): (r: Vec2)
    requires s != 0
    ensures r.x == TDiv(v.x, s) && r.y == TDiv(v.y, s)
  {
    v.DivScalar(s)
  }

  /** `s - v` as the `Vec3`/`Vec4` overloads compute it, applied to `Vec2`. */
  function ScalarSub2Intended(s: int, v: Vec2): (r: Vec2)
    ensures r.x == s - v.x && r.y == s - v.y
  {
    Vec2(s - v.x, s - v.y)
  }

  /** As written, `1 - Vec2(0, 0)` is `(-1, -1)` where `(1, 1)` is meant. */
  lemma ScalarSub2Swapped()
    ensures ScalarSub2(1, Zero2) == Vec2(-1, -1)
    ensures ScalarSub2Intended(1, Zero2) == Vec2(1, 1)
  {
  }

  /** The intended `s - v` is the negation of `v - s`, which the written one returns. */
  lemma ScalarSub2IntendedIsNegation(s: int, v: Vec2)
    ensures ScalarSub2Intended(s, v) == ScalarSub2(s, v).Neg()
    ensures ScalarSub2Intended(s, v) == ScalarSub2(s, v) <==> v == Splat2(s)
  {
  }

  /** `s / v` as the `Vec3`/`Vec4` overloads compute it, applied to `Vec2`. */
  function ScalarDiv2Intended(s: int, v: Vec2): (r: Vec2)
    requires v.x != 0 && v.y != 0
    ensures r == Splat2(s).Div(v)
  {
    Vec2(TDiv(s, v.x), TDiv(s, v.y))
  }

  /** As written, `2 / Vec2(1, 1)` is `(0, 0)` where `(2, 2)` is meant. */
  lemma ScalarDiv2Swapped()
    ensures ScalarDiv2(2, Vec2(1, 1)) == Zero2
    ensures ScalarDiv2Intended(2, Vec2(1, 1)) == Vec2(2, 2)
  {
  }

  /** The intended `s / v` undoes the componentwise product: a common multiple
      `c * v.x * v.y` divided by `v` gives `(c * v.y, c * v.x)`. */
  lemma {:induction false} ScalarDiv2IntendedUndoesMul(c: int, v: Vec2)
    requires v.x != 0 && v.y != 0
    ensures ScalarDiv2Intended(c * v.x * v.y, v) == Vec2(c * v.y, c * v.x)
  {
    var s := c * v.x * v.y;
    assert s == (c * v.y) * v.x;
    assert s == (c * v.x) * v.y;
    TDivMulCancel(c * v.y, v.x);
    TDivMulCancel(c * v.x, v.y);
  }

  /** `Vec3<T>`: `x, y, z`, aliased by `xy`/`_z`, `_x`/`yz` and `_els`. */
  datatype Vec3 = Vec3(x: int, y: int, z: int)
  {
    /** The `xy` view of the union. */
    function Xy(): (r: Vec2)
      ensures r.x == x && r.y == y
    {
      Vec2(x, y)
    }

    /** The `yz` view of the union. */
    function Yz(): (r: Vec2)
      ensures r.x == y && r.y == z
    {
      Vec2(y, z)
    }

    /** `xz()` as written: it returns `{x, y}`. */
    function Xz(): (r: Vec2)
      ensures r == Xy()
    {
      Vec2(x, y)
    }

    /** `xz()` as its name promises: the `x` and `z` components. */
    function XzIntended(): (r: Vec2)
      ensures r.x == x && r.y == z
    {
      Vec2(x, z)
    }

    /** `min()`: the smallest of the three components. */
    function Least(): (r: int)
      ensures r <= x && r <= y && r <= z && (r == x || r == y || r == z)
    {
      Base.Min(Base.Min(x, y), z)
    }

    /** `max()`: the largest of the three components. */
    function Greatest(): (r: int)
      ensures r >= x && r >= y && r >= z && (r == x || r == y || r == z)
    {
      Base.Max(Base.Max(x, y), z)
    }

    function Min(o: Vec3): (r: Vec3)
      ensures r.x <= x && r.x <= o.x && (r.x == x || r.x == o.x)
      ensures r.y <= y && r.y <= o.y && (r.y == y || r.y == o.y)
      ensures r.z <= z && r.z <= o.z && (r.z == z || r.z == o.z)
    {
      Vec3(Base.Min(x, o.x), Base.Min(y, o.y), Base.Min(z, o.z))
    }

    function Max(o: Vec3): (r: Vec3)
      ensures r.x >= x && r.x >= o.x && (r.x == x || r.x == o.x)
      ensures r.y >= y && r.y >= o.y && (r.y == y || r.y == o.y)
      ensures r.z >= z && r.z >= o.z && (r.z == z || r.z == o.z)
    {
      Vec3(Base.Max(x, o.x), Base.Max(y, o.y), Base.Max(z, o.z))
    }

    function Dot(o: Vec3): int
    {
      x * o.x + y * o.y + z * o.z
    }

    function LenSq(): (r: int)
      ensures r >= 0
      ensures r == 0 <==> this == Vec3(0, 0, 0)
    {
      SquareSum(x, y);
      SquareSum(z, 0);
      Dot(this)
    }

    function At(i: int): (r: int)
      requires 0 <= i < 3
      ensures i == 0 ==> r == x
      ensures i == 1 ==> r == y
      ensures i == 2 ==> r == z
    {
      [x, y, z][i]
    }

    function AddScalar(s: int): Vec3 { Vec3(x + s, y + s, z + s) }
    function SubScalar(s: int): Vec3 { Vec3(x - s, y - s, z - s) }
    function MulScalar(s: int): Vec3 { Vec3(x * s, y * s, z * s) }
    function DivScalar(s: int): Vec3 requires s != 0 { Vec3(TDiv(x, s), TDiv(y, s), TDiv(z, s)) }

    function Add(o: Vec3): Vec3 { Vec3(x + o.x, y + o.y, z + o.z) }
    function Sub(o: Vec3): Vec3 { Vec3(x - o.x, y - o.y, z - o.z) }
    function Mul(o: Vec3): Vec3 { Vec3(x * o.x, y * o.y, z * o.z) }
    function Div(o: Vec3): Vec3 requires o.x != 0 && o.y != 0 && o.z != 0
    {
      Vec3(TDiv(x, o.x), TDiv(y, o.y), TDiv(z, o.z))
    }

    function Neg(): Vec3 { Vec3(-x, -y, -z) }

    /** `cmp(other)`: `x`, then `y`, then `z`. */
    function Cmp(o: Vec3): (r: Ordr)
      ensures r == Eq <==> this == o
      ensures r == Lt <==> x < o.x || (x == o.x && (y < o.y || (y == o.y && z < o.z)))
    {
      Then(Then(Base.Cmp(x, o.x), Base.Cmp(y, o.y)), Base.Cmp(z, o.z))
    }
  }

  /** As written, `xz()` of `(0, 1, 2)` is `(0, 1)`, not `(0, 2)`. */
  lemma XzDropsZ()
    ensures Vec3(0, 1, 2).Xz() == Vec2(0, 1)
    ensures Vec3(0, 1, 2).XzIntended() == Vec2(0, 2)
  {
  }

  /** The intended `xz()` pairs with `y` to rebuild the vector; the written one
      agrees with it exactly when `y == z`. */
  lemma XzIntendedRebuilds(v: Vec3)
    ensures Vec3(v.XzIntended().x, v.y, v.XzIntended().y) == v
    ensures v.Xz() == v.XzIntended() <==> v.y == v.z
  {
  }

  /** Scalar on the left of a `Vec3` (vec.h:327-345): `lhs op rhs` componentwise. */
  function ScalarSub3(s: int, v: Vec3): (r: Vec3)
    ensures r == v.Neg().AddScalar(s)
  {
    Vec3(s - v.x, s - v.y, s - v.z)
  }

  function ScalarAdd3(s: int, v: Vec3): (r: Vec3)
    ensures r == v.AddScalar(s)
  {
    Vec3(s + v.x, s + v.y, s + v.z)
  }

  function ScalarMul3(s: int, v: Vec3): (r: Vec3)
    ensures r == v.MulScalar(s)
  {
    Vec3(s * v.x, s * v.y, s * v.z)
  }

  function ScalarDiv3(s: int, v: Vec3): (r: Vec3)
    requires v.x != 0 && v.y != 0 && v.z != 0
    ensures r == Vec3(s, s, s).Div(v)
  {
    Vec3(TDiv(s, v.x), TDiv(s, v.y), TDiv(s, v.z))
  }

  lemma DotSymmetric3(a: Vec3, b: Vec3)
    ensures a.Dot(b) == b.Dot(a)
  {
  }

  lemma AddSubInverse3(a: Vec3, b: Vec3)
    ensures a.Add(b).Sub(b) == a
    ensures a.Sub(a) == Vec3(0, 0, 0)
    ensures a.Neg().Neg() == a
  {
  }

  /** The scalar operators: `- s` undoes `+ s`, and truncating `/ s` undoes `* s`. */
  lemma ScalarInverse3(a: Vec3, s: int)
    ensures a.AddScalar(s).SubScalar(s) == a
    ensures s != 0 ==> a.MulScalar(s).DivScalar(s) == a
  {
    if s != 0 {
      TDivMulCancel(a.x, s);
      TDivMulCancel(a.y, s);
      TDivMulCancel(a.z, s);
    }
  }

  /** The componentwise `/` undoes the componentwise `*` by a vector with no zero component. */
  lemma MulDivInverse3(a: Vec3, b: Vec3)
    requires b.x != 0 && b.y != 0 && b.z != 0
    ensures a.Mul(b).Div(b) == a
  {
    TDivMulCancel(a.x, b.x);
    TDivMulCancel(a.y, b.y);
    TDivMulCancel(a.z, b.z);
  }

  /** `Vec4<T>`: `x, y, z, w`, aliased by `xyz`/`_w`, `xy`/`zw` and `_els`. */
  datatype Vec4 = Vec4(x: int, y: int, z: int, w: int)
  {
    function Xyz(): (r: Vec3)
      ensures r.x == x && r.y == y && r.z == z
    {
      Vec3(x, y, z)
    }

    function Xy(): (r: Vec2)
      ensures r.x == x && r.y == y
    {
      Vec2(x, y)
    }

    function Zw(): (r: Vec2)
      ensures r.x == z && r.y == w
    {
      Vec2(z, w)
    }

    function Dot(o: Vec4): int
    {
      x * o.x + y * o.y + z * o.z + w * o.w
    }

    function At(i: int): (r: int)
      requires 0 <= i < 4
      ensures i == 0 ==> r == x
      ensures i == 1 ==> r == y
      ensures i == 2 ==> r == z
      ensures i == 3 ==> r == w
    {
      [x, y, z, w][i]
    }

    function AddScalar(s: int): Vec4 { Vec4(x + s, y + s, z + s, w + s) }
    function SubScalar(s: int): Vec4 { Vec4(x - s, y - s, z - s, w - s) }
    function MulScalar(s: int): Vec4 { Vec4(x * s, y * s, z * s, w * s) }
    function DivScalar(s: int): Vec4 requires s != 0
    {
      Vec4(TDiv(x, s), TDiv(y, s), TDiv(z, s), TDiv(w, s))
    }

    function Add(o: Vec4): Vec4 { Vec4(x + o.x, y + o.y, z + o.z, w + o.w) }
    function Sub(o: Vec4): Vec4 { Vec4(x - o.x, y - o.y, z - o.z, w - o.w) }
    function Mul(o: Vec4): Vec4 { Vec4(x * o.x, y * o.y, z * o.z, w * o.w) }
    function Div(o: Vec4): Vec4 requires o.x != 0 && o.y != 0 && o.z != 0 && o.w != 0
    {
      Vec4(TDiv(x, o.x), TDiv(y, o.y), TDiv(z, o.z), TDiv(w, o.w))
    }

    function Neg(): Vec4 { Vec4(-x, -y, -z, -w) }

    /** `cmp(other)`: `x`, then `y`, `z` and `w`. */
    function Cmp(o: Vec4): (r: Ordr)
      ensures r == Eq <==> this == o
      ensures Base.Cmp(x, o.x) != Eq ==> r == Base.Cmp(x, o.x)
      ensures r == Lt <==> x < o.x || (x == o.x && (y < o.y || (y == o.y && (z < o.z || (z == o.z && w < o.w)))))
      ensures r == Gt <==> x > o.x || (x == o.x && (y > o.y || (y == o.y && (z > o.z || (z == o.z && w > o.w)))))
    {
      Then(Then(Then(Base.Cmp(x, o.x), Base.Cmp(y, o.y)), Base.Cmp(z, o.z)), Base.Cmp(w, o.w))
    }
  }

  /** Scalar on the left of a `Vec4` (vec.h:499-517): `lhs op rhs` componentwise. */
  function ScalarSub4(s: int, v: Vec4): (r: Vec4)
    ensures r == v.Neg().AddScalar(s)
  {
    Vec4(s - v.x, s - v.y, s - v.z, s - v.w)
  }

  function ScalarAdd4(s: int, v: Vec4): (r: Vec4)
    ensures r == v.AddScalar(s)
  {
    Vec4(s + v.x, s + v.y, s + v.z, s + v.w)
  }

  function ScalarMul4(s: int, v: Vec4): (r: Vec4)
    ensures r == v.MulScalar(s)
  {
    Vec4(s * v.x, s * v.y, s * v.z, s * v.w)
  }

  function ScalarDiv4(s: int, v: Vec4): (r: Vec4)
    requires v.x != 0 && v.y != 0 && v.z != 0 && v.w != 0
    ensures r == Vec4(s, s, s, s).Div(v)
  {
    Vec4(TDiv(s, v.x), TDiv(s, v.y), TDiv(s, v.z), TDiv(s, v.w))
  }

  lemma DotSymmetric4(a: Vec4, b: Vec4)
    ensures a.Dot(b) == b.Dot(a)
  {
  }

  lemma AddSubInverse4(a: Vec4, b: Vec4)
    ensures a.Add(b).Sub(b) == a
    ensures a.Sub(a) == Vec4(0, 0, 0, 0)
    ensures a.Neg().Neg() == a
  {
  }

  /** The scalar operators: `- s` undoes `+ s`, and truncating `/ s` undoes `* s`. */
  lemma ScalarInverse4(a: Vec4, s: int)
    ensures a.AddScalar(s).SubScalar(s) == a
    ensures s != 0 ==> a.MulScalar(s).DivScalar(s) == a
  {
    if s != 0 {
      TDivMulCancel(a.x, s);
      TDivMulCancel(a.y, s);
      TDivMulCancel(a.z, s);
      TDivMulCancel(a.w, s);
    }
  }

  /** The componentwise `/` undoes the componentwise `*` by a vector with no zero component. */
  lemma MulDivInverse4(a: Vec4, b: Vec4)
    requires b.x != 0 && b.y != 0 && b.z != 0 && b.w != 0
    ensures a.Mul(b).Div(b) == a
  {
    TDivMulCancel(a.x, b.x);
    TDivMulCancel(a.y, b.y);
    TDivMulCancel(a.z, b.z);
    TDivMulCancel(a.w, b.w);
  }

  /** The views of a `Vec4` reassemble it. */
  lemma Vec4Views(v: Vec4)
    ensures Vec4(v.Xyz().x, v.Xyz().y, v.Xyz().z, v.w) == v
    ensures Vec4(v.Xy().x, v.Xy().y, v.Zw().x, v.Zw().y) == v
  {
  }
}
