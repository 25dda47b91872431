/**
 * Integer arithmetic of the chunk arena: the fixed constants, the alignment of
 * the reservation's start address, and the mapping from an object size to the
 * index of its free-list bucket.
 */
module Arena {

  /** Bytes reserved once per process (3 GiB). */
  const MAX_HEAP_SIZE: nat := 3 * 1024 * 1024 * 1024

  /** Step between two size classes. */
  const MULTIPLE: nat := 16

  /** Largest object size class served through the bucket table. */
  const MAX_SIZE: nat := 512

  /** 2^64: the range of `uintptr_t` and `size_t`. */
  const WORD: nat := 0x1_0000_0000_0000_0000

  predicate IsPow2(n: nat)
  {
    if n <= 1 then n == 1 else n % 2 == 0 && IsPow2(n / 2)
  }

  /**
   * The chunk granularity `Size` (a template parameter of the source): a power
   * of two, a multiple of the size-class step, at least the largest size class
   * (so that every legal size has an ordinary bucket) and, being an `int`
   * template argument, below 2^31.
   */
  predicate ValidChunkSize(size: nat)
  {
    IsPow2(size) && size % MULTIPLE == 0 && MAX_SIZE <= size < 0x8000_0000
  }

  /** A power of two below twice another one divides it. */
  lemma {:induction false} Pow2Divides(n: nat, size: nat)
    requires IsPow2(n) && IsPow2(size) && size < 2 * n
    ensures n % size == 0
    decreases n
  {
    if size > 1 {
      var m, h := n / 2, size / 2;
      Pow2Divides(m, h);
      var q := m / h;
      assert n == size * q;
      ModUniqueInt(n, size, q, 0);
    }
  }

  /** Every admissible chunk size divides the reservation, so whole chunks fill it. */
  lemma ChunkSizeDividesHeap(size: nat)
    requires ValidChunkSize(size)
    ensures MAX_HEAP_SIZE % size == 0
  {
    var g: nat := 0x4000_0000;
    assert IsPow2(0x400) && IsPow2(0x10_0000);
    Pow2Divides(g, size);
    var q := g / size;
    assert MAX_HEAP_SIZE == size * (3 * q);
    ModUniqueInt(MAX_HEAP_SIZE, size, 3 * q, 0);
  }

  /**
   * The instantiation of the arena: the chunk granularity and whether the
   * dormant policy that routes empty chunks to the overflow bucket is on
   * (it is off in the shipped code).
   */
  datatype Config = Config(size: nat, routeEmpties: bool)

  predicate ValidConfig(cfg: Config)
  {
    ValidChunkSize(cfg.size)
  }

  /** NUM_REPOS: the number of ordinary buckets; index NUM_REPOS is the overflow bucket. */
  function NumRepos(size: nat): nat
  {
    size / MULTIPLE
  }

  /** Object sizes `get` accepts: a positive multiple of the step, at most MAX_SIZE. */
  predicate LegalSize(sz: nat)
  {
    MULTIPLE <= sz <= MAX_SIZE && sz % MULTIPLE == 0
  }

  /**
   * `x & ~(size - 1)` for a power of two `size`, bit by bit: the low
   * log2(size) bits of `x` are cleared.
   */
  function ClearLow(x: nat, size: nat): (r: nat)
    ensures r <= x
    decreases size
  {
    if size <= 1 then x else 2 * ClearLow(x / 2, size / 2)
  }

  /** Masking the low bits rounds down to the previous multiple of `size`. */
  lemma {:induction false} ClearLowRoundsDown(x: nat, size: nat)
    requires IsPow2(size)
    ensures ClearLow(x, size) == x - x % size
    decreases size
  {
    if size > 1 {
      var h := size / 2;
      ClearLowRoundsDown(x / 2, h);
      DivModHalf(x, h);
    }
  }

  /** x % (2h) == 2 * ((x / 2) % h) + x % 2 */
  lemma DivModHalf(x: nat, h: nat)
    requires h > 0
    ensures x % (2 * h) == 2 * ((x / 2) % h) + x % 2
  {
    var q, b := x / 2, x % 2;
    var t, u := q / h, q % h;
    assert x == 2 * h * t + (2 * u + b) by {
      assert x == 2 * q + b;
      assert q == h * t + u;
    }
    ModUniqueInt(x, 2 * h, t, 2 * u + b);
  }

  /** The remainder of an integer is unique, whatever its sign (Euclidean division). */
  lemma ModUniqueInt(x: int, m: nat, t: int, r: int)
    requires 0 <= r < m && x == m * t + r
    ensures x % m == r
  {
    var t', r' := x / m, x % m;
    assert x == m * t' + r';
    if t' < t {
      MulLeInt(m, t' + 1, t);
      assert false;
    } else if t' > t {
      MulLeInt(m, t + 1, t');
      assert false;
    }
  }

  /** Subtracting before or after reducing modulo m gives the same remainder. */
  lemma ModSub(a: int, k: int, m: nat)
    requires m > 0
    ensures (a - k) % m == (a % m - k) % m
  {
    var q, r := a / m, a % m;
    var t, u := (r - k) / m, (r - k) % m;
    assert a - k == m * (q + t) + u by {
      assert a == m * q + r;
      assert r - k == m * t + u;
    }
    ModUniqueInt(a - k, m, q + t, u);
  }

  /** A positive difference of two multiples of m is at least m. */
  lemma MultiplesApart(e: int, b: int, m: nat, n: int)
    requires m > 0 && e % m == 0 && b == n * m && e > b
    ensures e - b >= m
  {
    var k := e / m;
    assert e == m * k;
    assert e - b == m * (k - n) by {
      assert m * (k - n) == m * k - m * n;
    }
    if k - n <= 0 {
      MulLeInt(m, k - n, 0);
      assert false;
    }
    MulLeInt(m, 1, k - n);
  }

  /** One more multiple of m: the next multiple is again one, and n + 1 copies of m are n copies and one more. */
  lemma NextMultiple(b: int, m: nat, n: int)
    requires m > 0 && b % m == 0
    ensures (b + m) % m == 0 && (n + 1) * m == n * m + m
  {
    var q := b / m;
    assert b == m * q;
    ModUniqueInt(b + m, m, q + 1, 0);
  }

  lemma MulLeInt(m: nat, a: int, b: int)
    requires a <= b
    ensures m * a <= m * b
  {
  }

  /**
   * `align(ptr)`: `(ptr + Size - 1) & ~(Size - 1)` on 64-bit unsigned
   * integers, so the sum wraps modulo 2^64.
   */
  function Align(p: nat, size: nat): (r: nat)
    requires size >= 1
    ensures r <= (p + size - 1) % WORD < WORD
  {
    ClearLow((p + size - 1) % WORD, size)
  }

  /** An address that leaves room for one chunk below 2^64 is rounded up to the next multiple of `size`. */
  lemma AlignRoundsUp(p: nat, size: nat)
    requires IsPow2(size) && p + size <= WORD
    ensures Align(p, size) % size == 0
    ensures p <= Align(p, size) < p + size
  {
    AlignNoWrap(p, size);
    ClearLowBounds(p + size - 1, size);
  }

  /** Below 2^64 the sum in `align` does not wrap. */
  lemma AlignNoWrap(p: nat, size: nat)
    requires size >= 1 && p + size <= WORD
    ensures Align(p, size) == ClearLow(p + size - 1, size)
  {
    ModUniqueInt(p + size - 1, WORD, 0, p + size - 1);
  }

  /** Clearing the low bits gives a multiple of `size` within `size` below `x`. */
  lemma ClearLowBounds(x: nat, size: nat)
    requires IsPow2(size)
    ensures ClearLow(x, size) % size == 0 && x - size < ClearLow(x, size) <= x
  {
    ClearLowRoundsDown(x, size);
    RoundDown(x, size);
  }

  /** Rounding down to a multiple of m moves by less than m. */
  lemma RoundDown(x: nat, m: nat)
    requires m > 0
    ensures (x - x % m) % m == 0 && x - m < x - x % m <= x
  {
    var q := x / m;
    assert x - x % m == m * q;
    ModUniqueInt(m * q, m, q, 0);
  }

  /**
   * `getIndex(sz)`: the bucket of an object size is the one whose size class
   * `(index + 1) * MULTIPLE` is the largest class not above it.
   */
  function GetIndex(sz: nat): (index: int)
    ensures (index + 1) * MULTIPLE <= sz < (index + 2) * MULTIPLE
  {
    sz / MULTIPLE - 1
  }

  /** Every legal size lands in an ordinary bucket, never the overflow one. */
  lemma IndexInTable(sz: nat, size: nat)
    requires LegalSize(sz) && ValidChunkSize(size)
    ensures 0 <= GetIndex(sz) < NumRepos(size)
  {
  }

  /** On legal sizes the bucket index determines the size: distinct classes use distinct buckets. */
  lemma IndexDeterminesSize(a: nat, b: nat)
    requires LegalSize(a) && LegalSize(b) && GetIndex(a) == GetIndex(b)
    ensures a == b
  {
  }
}
