/**
 * Memory outside the pool, as the loader fills it before it enters the kernel: a byte for
 * every address, written by copies.
 */
module Memory {
  import opened Machine

  type Mem = nat -> byte

  function Store(m: Mem, at: nat, data: seq<byte>): Mem
  {
    (a: nat) => if at <= a < at + |data| then data[a - at] else m(a)
  }

  function Load(m: Mem, at: nat, n: nat): (r: seq<byte>)
    ensures |r| == n
    ensures forall i: nat | i < n :: r[i] == m(at + i)
  {
    seq<byte>(n, (i: nat) => m(at + i))
  }

  /** The ranges of n bytes at a and k bytes at b do not overlap. */
  predicate Apart(a: nat, n: nat, b: nat, k: nat)
  {
    a + n <= b || b + k <= a
  }

  /** A copy is read back as it was written ... */
  lemma LoadStored(m: Mem, at: nat, data: seq<byte>)
    ensures Load(Store(m, at, data), at, |data|) == data
  {
  }

  /** ... and leaves everything apart from it alone. */
  lemma LoadApart(m: Mem, at: nat, data: seq<byte>, a: nat, n: nat)
    requires Apart(at, |data|, a, n)
    ensures Load(Store(m, at, data), a, n) == Load(m, a, n)
  {
  }

  class Ram {
    var bytes: Mem

    /** memcpy and memset. */
    method Copy(at: nat, data: seq<byte>)
      modifies this
      ensures bytes == Store(old(bytes), at, data)
    {
      bytes := Store(bytes, at, data);
    }
  }
}
