/** Types shared by every part of the model: fixed-width unsigned integers as
    subsets of int, the kernel's error codes and an Option wrapper. */
module Common {

  type byte = x: int | 0 <= x < 0x100
  type u16 = x: int | 0 <= x < 0x1_0000
  type u32 = x: int | 0 <= x < 0x1_0000_0000
  type u64 = x: int | 0 <= x < 0x1_0000_0000_0000_0000
  type i64 = x: int | -0x8000_0000_0000_0000 <= x < 0x8000_0000_0000_0000

  const TWO_TO_64: int := 0x1_0000_0000_0000_0000

  /** Arithmetic on uint64_t: the exact value reduced modulo 2^64. */
  function Wrap64(x: int): (r: u64)
    ensures 0 <= x < TWO_TO_64 ==> r == x
  {
    x % TWO_TO_64
  }

  const UINT32_MAX: int := 0xFFFF_FFFF
  const UINT64_MAX: int := 0xFFFF_FFFF_FFFF_FFFF

  /** The kernel's ERR_CODE enumeration (only the members the model uses). */
  datatype ErrCode =
    | NoError
    | InvalidParam
    | InvalidOp
    | Unknown
    | NotFound
    | StorageError
    | OutOfResource
    | AlreadyExists
    | OutOfRange
    | InvalidName
    | SyncMsgNotAccepted
    | SyncMsgQueueEmpty
    | SyncMsgMismatch
    | SyncMsgIncomplete

  datatype Option<T> = None | Some(value: T)

  /** A value, or the ERR_CODE that stopped it being produced. */
  datatype Result<T> = Ok(value: T) | Err(code: ErrCode)

  function Min(a: int, b: int): int { if a <= b then a else b }
  function Max(a: int, b: int): int { if a >= b then a else b }

  /** 2 to the power n, which is above n. */
  function Pow2(n: nat): (r: nat)
    ensures r > n
  {
    if n == 0 then 1 else 2 * Pow2(n - 1)
  }
}

/** Little-endian byte images of unsigned integers, as the x64 structures store them. */
module Bytes {
  import opened Common

  function Pow256(n: nat): (r: nat)
    ensures r >= 1
  {
    if n == 0 then 1 else 256 * Pow256(n - 1)
  }

  /** The n low-order bytes of v, least significant first. */
  function LE(v: nat, n: nat): (s: seq<byte>)
    ensures |s| == n
  {
    if n == 0 then [] else [v % 256] + LE(v / 256, n - 1)
  }

  /** The value of a little-endian byte string. */
  function FromLE(s: seq<byte>): (v: nat)
    ensures v < Pow256(|s|)
  {
    if s == [] then 0 else s[0] + 256 * FromLE(s[1..])
  }

  lemma {:induction false} LERoundTrip(v: nat, n: nat)
    requires v < Pow256(n)
    ensures FromLE(LE(v, n)) == v
  {
    if n > 0 {
      assert LE(v, n)[1..] == LE(v / 256, n - 1);
      LERoundTrip(v / 256, n - 1);
    }
  }

  lemma Pow256Values()
    ensures Pow256(1) == 0x100 && Pow256(2) == 0x1_0000 && Pow256(3) == 0x100_0000
    ensures Pow256(4) == 0x1_0000_0000 && Pow256(8) == 0x1_0000_0000_0000_0000
  {
    assert Pow256(4) == 0x1_0000_0000;
    assert Pow256(5) == 0x100_0000_0000;
    assert Pow256(6) == 0x1_0000_0000_0000;
    assert Pow256(7) == 0x100_0000_0000_0000;
  }
}

/** Facts about multiples and remainders that the solver does not find
    unaided (nonlinear arithmetic). */
module Arith {

  lemma MulMono(m: int, x: int, y: int)
    requires m > 0 && x <= y
    ensures m * x <= m * y
  {
    assert m * y - m * x == m * (y - x);
  }

  /** A multiple of m leaves no remainder. */
  lemma MulMod(m: int, k: int)
    requires m > 0
    ensures (m * k) % m == 0
  {
    var q := (m * k) / m;
    var r := (m * k) % m;
    assert m * (k - q) == r;
    if k - q >= 1 {
      MulMono(m, 1, k - q);
    } else if k - q <= -1 {
      MulMono(m, k - q, -1);
    }
  }

  /** A multiple of m * k is a multiple of m. */
  lemma ModFactor(a: int, m: int, k: int)
    requires m > 0 && k > 0 && a % (k * m) == 0
    ensures a % m == 0
  {
    var q := a / (k * m);
    assert a == m * (k * q);
    MulMod(m, k * q);
  }

  /** A multiple of a multiple of c is a multiple of c. */
  lemma ModTrans(a: int, b: int, c: int)
    requires b > 0 && c > 0 && a % b == 0 && b % c == 0
    ensures a % c == 0
  {
    var x := a / b;
    var y := b / c;
    assert a == b * x && b == c * y;
    assert a == c * (y * x);
    MulMod(c, y * x);
  }

  /** Scaling keeps divisibility. */
  lemma ScaleMod(b: int, c: int, p: int)
    requires c > 0 && p > 0 && b % c == 0
    ensures (b * p) % (c * p) == 0
  {
    var y := b / c;
    assert b == c * y;
    assert b * p == (c * p) * y;
    MulMod(c * p, y);
  }

  /** The next multiple of m above a multiple a is at least a + m. */
  lemma NextMultiple(a: int, b: int, m: int)
    requires m > 0 && a % m == 0 && b % m == 0 && a < b
    ensures a + m <= b
  {
    var qa := a / m;
    var qb := b / m;
    assert a == m * qa && b == m * qb;
    if qa >= qb {
      MulMono(m, qb, qa);
    }
    MulMono(m, qa + 1, qb);
  }

  /** Two multiples of m less than m apart are equal. */
  lemma SameMultiple(a: int, b: int, m: int)
    requires m > 0 && a % m == 0 && b % m == 0 && b <= a < b + m
    ensures a == b
  {
    var qa := a / m;
    var qb := b / m;
    assert a == m * qa && b == m * qb;
    if qa > qb {
      MulMono(m, qb + 1, qa);
    } else if qa < qb {
      MulMono(m, qa + 1, qb);
    }
  }

  /** The remainder of a natural number lies below the divisor, and the
      quotient is not negative. */
  lemma ModBelow(x: nat, m: nat)
    requires m > 0
    ensures 0 <= x % m < m && x / m >= 0
  {
  }

  /** Division with remainder is unique: x = m * q + r with 0 <= r < m
      determines both. */
  lemma DivModUnique(x: int, m: int, q: int, r: int)
    requires m > 0 && 0 <= r < m && x == m * q + r
    ensures x / m == q && x % m == r
  {
    var q', r' := x / m, x % m;
    assert m * (q - q') == r' - r;
    if q - q' >= 1 {
      MulMono(m, 1, q - q');
    } else if q - q' <= -1 {
      MulMono(m, q - q', -1);
    }
  }
}
