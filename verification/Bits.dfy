/** Byte strings and word sizes, and powers of two, remainders and bit masks on unbounded naturals. */
module Bits {
  type Byte = x: int | 0 <= x < 256
  type Bytes = seq<Byte>

  const TWO_TO_THE_32: nat := 0x1_0000_0000
  const TWO_TO_THE_64: nat := 0x1_0000_0000_0000_0000

  function Concat(pieces: seq<Bytes>): Bytes {
    if pieces == [] then [] else pieces[0] + Concat(pieces[1..])
  }

  lemma {:induction false} ConcatAppend(a: seq<Bytes>, b: seq<Bytes>)
    ensures Concat(a + b) == Concat(a) + Concat(b)
    decreases |a|
  {
    if a == [] {
      assert a + b == b;
    } else {
      assert (a + b)[1..] == a[1..] + b;
      ConcatAppend(a[1..], b);
    }
  }

  function Pow2(k: nat): (r: nat)
    ensures r > 0
  {
    if k == 0 then 1 else 2 * Pow2(k - 1)
  }

  /** Bitwise "and". */
  function BitAnd(a: nat, b: nat): nat {
    if a == 0 || b == 0 then 0
    else 2 * BitAnd(a / 2, b / 2) + (a % 2) * (b % 2)
  }

  lemma {:induction false} Pow2Add(j: nat, k: nat)
    ensures Pow2(j + k) == Pow2(j) * Pow2(k)
    decreases j
  {
    if j > 0 {
      Pow2Add(j - 1, k);
      assert Pow2(j + k) == 2 * Pow2(j - 1 + k);
      assert 2 * (Pow2(j - 1) * Pow2(k)) == (2 * Pow2(j - 1)) * Pow2(k);
    }
  }

  lemma MulAtLeast(q: int, m: nat)
    requires q >= 1
    ensures q * m >= m
  {
    assert q * m == m + (q - 1) * m;
    assert (q - 1) * m >= 0 by {
      MulNonNegative(q - 1, m);
    }
  }

  lemma MulNonNegative(a: nat, b: nat)
    ensures a * b >= 0
  {
  }

  /** Quotient and remainder are unique. */
  lemma DivUnique(m: nat, q: int, r: int, q': int, r': int)
    requires 0 <= r < m && 0 <= r' < m && q * m + r == q' * m + r'
    ensures q == q' && r == r'
  {
    if q > q' {
      assert (q - q') * m == q * m - q' * m;
      MulAtLeast(q - q', m);
    } else if q < q' {
      assert (q' - q) * m == q' * m - q * m;
      MulAtLeast(q' - q, m);
    }
  }

  /** The remainder is the only small number congruent to `a`. */
  lemma ModUnique(a: int, m: nat, q: int, r: int)
    requires m > 0 && 0 <= r < m && a == q * m + r
    ensures a % m == r
  {
    assert a == (a / m) * m + a % m;
    DivUnique(m, q, r, a / m, a % m);
  }

  /** Adding a multiple of `m` does not change the remainder. */
  lemma ModDrop(a: int, m: nat, q: int)
    requires m > 0
    ensures (a + q * m) % m == a % m
  {
    assert a == m * (a / m) + a % m;
    assert a + q * m == (a / m + q) * m + a % m by {
      assert (a / m + q) * m == (a / m) * m + q * m;
    }
    ModUnique(a + q * m, m, a / m + q, a % m);
  }

  /** Reducing first by a multiple of `m` changes nothing. */
  lemma ModMod(a: nat, m: nat, c: nat)
    requires m > 0 && c > 0
    ensures m * c > 0 && (a % (m * c)) % m == a % m
  {
    var big := m * c;
    assert big > 0;
    var q := a / big;
    assert a == big * q + a % big;
    assert big * q == (c * q) * m;
    ModDrop(a % big, m, c * q);
  }

  /** Masking with k low ones is taking the remainder by 2^k. */
  lemma {:induction false} MaskIsMod(a: nat, k: nat)
    ensures BitAnd(a, Pow2(k) - 1) == a % Pow2(k)
    decreases k
  {
    if k == 0 {
    } else if a == 0 {
    } else {
      var p := Pow2(k - 1);
      MaskIsMod(a / 2, k - 1);
      Halves(a, p);
    }
  }

  lemma Halves(a: nat, p: nat)
    requires p > 0
    ensures 2 * ((a / 2) % p) + a % 2 == a % (2 * p)
  {
    var h := a / 2;
    var q, r := h / p, h % p;
    assert h == q * p + r;
    assert a == 2 * h + a % 2;
    assert 2 * (q * p) == q * (2 * p);
    ModUnique(a, 2 * p, q, 2 * r + a % 2);
  }

  lemma OddTimes(g: nat, b: nat)
    requires g % 2 == 1
    ensures (g * b) % 2 == b % 2
  {
    assert g * b == b + ((g / 2) * b) * 2 by {
      assert g == 2 * (g / 2) + 1;
      assert (2 * (g / 2) + 1) * b == 2 * ((g / 2) * b) + b;
    }
    ModDrop(b, 2, (g / 2) * b);
  }

  /** An odd factor does not change divisibility by a power of two. */
  lemma {:induction false} OddFactor(g: nat, b: nat, k: nat)
    requires g % 2 == 1
    ensures (g * b) % Pow2(k) == 0 <==> b % Pow2(k) == 0
    decreases k
  {
    if k > 0 {
      var p := Pow2(k - 1);
      OddTimes(g, b);
      Halves(g * b, p);
      Halves(b, p);
      if b % 2 == 0 {
        assert b == 2 * (b / 2);
        assert g * b == 2 * (g * (b / 2));
        OddFactor(g, b / 2, k - 1);
      }
    }
  }
}
