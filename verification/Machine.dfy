/**
 * Fixed-width arithmetic and little-endian fields, as the loader's C code uses them
 * on IA32 (UINTN is 32 bits wide there).
 */
module Machine {
  datatype Option<+T> = None | Some(value: T)

  type byte = x: int | 0 <= x < 256

  const TWO_32: nat := 0x1_0000_0000
  const TWO_64: nat := 0x1_0000_0000_0000_0000

  /** The product over the unbounded integers, by repeated addition. */
  function Times(x: nat, y: nat): nat
  {
    if x == 0 then 0 else y + Times(x - 1, y)
  }

  lemma {:induction false} TimesIsProduct(x: nat, y: nat)
    ensures Times(x, y) == x * y
  {
    if x > 0 {
      TimesIsProduct(x - 1, y);
      assert x * y == (x - 1) * y + y;
    }
  }

  /** The remainder, by repeated subtraction. */
  function Rem(x: nat, y: nat): (r: nat)
    requires y > 0
    ensures r < y && r <= x
  {
    if x < y then x else Rem(x - y, y)
  }

  lemma MulMonotone(a: int, b: int, m: int)
    requires a <= b && 0 <= m
    ensures a * m <= b * m
  {
    assert b * m - a * m == (b - a) * m;
  }

  /** Quotient and remainder are determined by the division equation. */
  lemma DivModUnique(x: int, m: int, q: int, r: int)
    requires 0 <= r < m && x == q * m + r
    ensures x / m == q && x % m == r
  {
    var q' := x / m;
    assert x == q' * m + x % m;
    if q' > q {
      MulMonotone(q + 1, q', m);
    } else if q' < q {
      MulMonotone(q' + 1, q, m);
    }
  }

  lemma {:induction false} RemIsRemainder(x: nat, y: nat)
    requires y > 0
    ensures Rem(x, y) == x % y
  {
    if x >= y {
      RemIsRemainder(x - y, y);
      DivModUnique(x, y, (x - y) / y + 1, (x - y) % y);
    }
  }

  /** The quotient, by repeated subtraction. */
  function Quot(x: nat, y: nat): nat
    requires y > 0
  {
    if x < y then 0 else 1 + Quot(x - y, y)
  }

  lemma {:induction false} QuotIsQuotient(x: nat, y: nat)
    requires y > 0
    ensures Quot(x, y) == x / y
  {
    if x >= y {
      QuotIsQuotient(x - y, y);
      DivModUnique(x, y, (x - y) / y + 1, (x - y) % y);
    }
  }

  lemma {:induction false} RemOfMultiple(k: nat, y: nat)
    requires y > 0
    ensures Rem(Times(k, y), y) == 0
  {
    if k > 0 {
      RemOfMultiple(k - 1, y);
    }
  }

  /** A sum of multiples is a multiple. */
  lemma {:induction false} RemSum(x: nat, k: nat, y: nat)
    requires y > 0 && Rem(x, y) == 0 && Rem(k, y) == 0
    ensures Rem(x + k, y) == 0
    decreases k
  {
    if k >= y {
      RemSum(x, k - y, y);
    }
  }

  lemma {:induction false} TimesMultipleOf4(k: nat, m: nat)
    requires m % 4 == 0
    ensures Times(k, m) % 4 == 0
  {
    if k > 0 {
      TimesMultipleOf4(k - 1, m);
    }
  }

  /** Product of two UINT32 operands: the high half is lost. */
  function Mul32(x: nat, y: nat): (r: nat)
    ensures r < TWO_32
  {
    Times(x, y) % TWO_32
  }

  function Add64(x: nat, y: nat): nat
  {
    (x + y) % TWO_64
  }

  /** Unsigned subtraction: Euclidean `%` brings a negative difference back into range. */
  function Sub64(x: nat, y: nat): nat
  {
    (x - y) % TWO_64
  }

  /** Sums and differences that stay in range do not wrap. */
  lemma NoWrap64(x: nat, y: nat)
    ensures x + y < TWO_64 ==> Add64(x, y) == x + y
    ensures y <= x < TWO_64 ==> Sub64(x, y) == x - y
  {
  }

  /** The unsigned value of a little-endian field. */
  function Le(bytes: seq<byte>): nat
  {
    if bytes == [] then 0 else bytes[0] + 0x100 * Le(bytes[1..])
  }

  /** The unsigned value of the n-byte field at an offset. */
  function Field(bytes: seq<byte>, at: nat, n: nat): nat
    requires at + n <= |bytes|
  {
    Le(bytes[at..at + n])
  }

  /** The n low bytes of x, least significant first. */
  function Put(x: nat, n: nat): (r: seq<byte>)
    ensures |r| == n
  {
    if n == 0 then [] else [x % 0x100] + Put(x / 0x100, n - 1)
  }

  /** Number of values an n-byte field can hold. */
  function Range(n: nat): nat
  {
    if n == 0 then 1 else 0x100 * Range(n - 1)
  }

  lemma Ranges()
    ensures Range(2) == 0x1_0000 && Range(4) == TWO_32 && Range(8) == TWO_64
  {
    assert Range(4) == TWO_32;
    assert Range(8) == 0x100 * Range(7) && Range(7) == 0x100 * Range(6) && Range(6) == 0x100 * Range(5);
  }

  lemma {:induction false} LeBound(bytes: seq<byte>)
    ensures Le(bytes) < Range(|bytes|)
  {
    if bytes != [] {
      LeBound(bytes[1..]);
    }
  }

  lemma {:induction false} PutRoundTrip(x: nat, n: nat)
    requires x < Range(n)
    ensures Le(Put(x, n)) == x
  {
    if n > 0 {
      PutRoundTrip(x / 0x100, n - 1);
    }
  }
}
