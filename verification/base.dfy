/** Shared vocabulary of the karm libraries: optional values, results, the
    three-way ordering, clamping and the machine widths the C++ code relies on. */
module Base {

  /** `Opt<T>` of karm-base. */
  datatype Option<+T> = None | Some(value: T)

  /** The error half of `Res<T>`; errors are only propagated by the modelled code. */
  datatype Error = Error(msg: string)

  /** `Res<T>` of karm-base: a value or an error, propagated by `try$`. */
  datatype Res<+T> = Ok(value: T) | Err(error: Error)

  /** `Ordr` of karm-base. */
  datatype Ordr = Lt | Eq | Gt

  /** `cmp` on two integers. */
  function Cmp(a: int, b: int): (r: Ordr)
    ensures r == Eq <==> a == b
    ensures r == Lt <==> a < b
    ensures r == Gt <==> a > b
  {
    if a < b then Lt else if a > b then Gt else Eq
  }

  /** `Ordr::operator|`: the first ordering decides, the second breaks ties
      (ordr.h is not part of this model; this is the lexicographic reading). */
  function Then(a: Ordr, b: Ordr): (r: Ordr)
    ensures r == Eq <==> a == Eq && b == Eq
    ensures a != Eq ==> r == a
  {
    if a == Eq then b else a
  }

  /** Flips an ordering, as comparing the arguments the other way round does. */
  function Flip(o: Ordr): Ordr
  {
    match o
    case Lt => Gt
    case Eq => Eq
    case Gt => Lt
  }

  lemma CmpAntisymmetric(a: int, b: int)
    ensures Cmp(b, a) == Flip(Cmp(a, b))
  {
  }

  function Min(a: int, b: int): (r: int)
    ensures r <= a && r <= b && (r == a || r == b)
  {
    if a < b then a else b
  }

  function Max(a: int, b: int): (r: int)
    ensures r >= a && r >= b && (r == a || r == b)
  {
    if a < b then b else a
  }

  /** `clamp(x, lo, hi)` (clamp.h is not part of this model): the value of
      `[lo, hi]` closest to `x`. */
  function Clamp(x: int, lo: int, hi: int): (r: int)
    requires lo <= hi
    ensures lo <= r <= hi
    ensures lo <= x <= hi ==> r == x
    ensures x < lo ==> r == lo
    ensures x > hi ==> r == hi
  {
    if x < lo then lo else if x > hi then hi else x
  }

  const U8_LIMIT: int := 0x100
  const U16_LIMIT: int := 0x1_0000
  const U32_LIMIT: int := 0x1_0000_0000
  const U64_LIMIT: int := 0x1_0000_0000_0000_0000

  /** An unsigned byte, `u8` / `Byte`. */
  type Byte = b: int | 0 <= b < U8_LIMIT

  type U16 = x: int | 0 <= x < U16_LIMIT

  type U32 = x: int | 0 <= x < U32_LIMIT

  /** `u64`, and `usize` on the 64-bit targets the system is built for. */
  type U64 = x: int | 0 <= x < U64_LIMIT

  /** Conversion of an integer to `usize` (wrap-around modulo 2^64). */
  function ToUsize(x: int): (r: U64)
    ensures 0 <= x < U64_LIMIT ==> r == x
    ensures (r - x) % U64_LIMIT == 0
  {
    x % U64_LIMIT
  }

  /** Conversion of an integer to `i32` (two's complement wrap-around). */
  function ToI32(x: int): (r: int)
    ensures -0x8000_0000 <= r < 0x8000_0000
    ensures -0x8000_0000 <= x < 0x8000_0000 ==> r == x
  {
    (x + 0x8000_0000) % U32_LIMIT - 0x8000_0000
  }

  /** Wrapping `i32` addition is addition followed by one wrap-around. */
  lemma ToI32Add(a: int, b: int)
    ensures ToI32(ToI32(a) + b) == ToI32(a + b)
  {
    var m := U32_LIMIT;
    var q := (a + 0x8000_0000) / m;
    assert ToI32(a) == a - q * m;
    assert ToI32(a) + b + 0x8000_0000 == (a + b + 0x8000_0000) - q * m;
    ModShift(a + b + 0x8000_0000, q, m);
  }

  lemma ModShift(x: int, q: int, m: int)
    requires m > 0
    ensures (x - q * m) % m == x % m
  {
    var r := x % m;
    var d := x / m;
    assert x == d * m + r;
    assert x - q * m == (d - q) * m + r by {
      assert (d - q) * m == d * m - q * m;
    }
    ModUnique(x - q * m, d - q, m, r);
  }

  /** A quotient and remainder in range determine `%`. */
  lemma ModUnique(y: int, k: int, m: int, r: int)
    requires m > 0 && 0 <= r < m && y == k * m + r
    ensures y % m == r
  {
    var k', r' := y / m, y % m;
    assert y == k' * m + r';
    assert (k - k') * m == r' - r by {
      assert (k - k') * m == k * m - k' * m;
    }
    if k - k' >= 1 {
      MulAtLeast(k - k', m);
    } else if k' - k >= 1 {
      MulAtLeast(k' - k, m);
      MulNeg(k' - k, m);
    }
  }

  lemma MulAtLeast(a: int, m: int)
    requires a >= 1 && m > 0
    ensures a * m >= m
  {
    assert a * m == (a - 1) * m + m;
  }

  lemma MulNeg(a: int, m: int)
    ensures (-a) * m == -(a * m)
  {
  }

  /** A NUL-terminated string: the terminator occurs somewhere in it. */
  ghost predicate IsCStr(s: seq<char>)
  {
    '\0' in s
  }

  /** The index of the first NUL unit, which is the C string's length. */
  function CLen(s: seq<char>): (n: nat)
    requires IsCStr(s)
    ensures n < |s| && s[n] == '\0'
    ensures forall k | 0 <= k < n :: s[k] != '\0'
  {
    if s[0] == '\0' then 0 else CLen(s[1..]) + 1
  }

  function Abs(x: int): (r: nat)
    ensures r == x || r == -x
  {
    if x < 0 then -x else x
  }

  /** C++ integer division, which truncates toward zero (Dafny's `/` is Euclidean). */
  function TDiv(a: int, b: int): (r: int)
    requires b != 0
    ensures a >= 0 && b > 0 ==> r == a / b
  {
    if a >= 0 then (if b > 0 then a / b else -(a / -b))
    else (if b > 0 then -(-a / b) else (-a) / (-b))
  }
}
