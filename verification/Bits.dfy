/** Unsigned 32-bit arithmetic and the bit tricks of C on natural numbers. */
module Bits {
  type byte = x: int | 0 <= x < 256

  const WORD: nat := 0x1_0000_0000

  type uint32 = x: int | 0 <= x < WORD

  /** Unsigned addition and subtraction wrap around. */
  function Add32(a: uint32, b: uint32): uint32 {
    if a + b < WORD then a + b else a + b - WORD
  }

  function Sub32(a: uint32, b: uint32): uint32 {
    if a >= b then a - b else a - b + WORD
  }

  lemma WrapAround(a: uint32, b: uint32)
    ensures Add32(a, b) == (a + b) % WORD && Sub32(a, b) == (a - b) % WORD
  {
  }

  function Min(a: int, b: int): int {
    if a < b then a else b
  }

  /** Bitwise and, from the lowest bit up. */
  function And(x: nat, y: nat): nat
    decreases x
  {
    if x == 0 || y == 0 then 0
    else 2 * And(x / 2, y / 2) + if x % 2 == 1 && y % 2 == 1 then 1 else 0
  }

  function Pow2(k: nat): nat {
    if k == 0 then 1 else 2 * Pow2(k - 1)
  }

  function Pow16(i: nat): nat {
    if i == 0 then 1 else 16 * Pow16(i - 1)
  }

  /** is_power_of_2(x) of c/src/base/ringbuf.c */
  predicate IsPowerOf2(x: nat) {
    x != 0 && And(x, x - 1) == 0
  }

  lemma {:induction false} Pow2Positive(k: nat)
    ensures Pow2(k) >= 1
  {
    if k > 0 {
      Pow2Positive(k - 1);
    }
  }

  lemma {:induction false} AndSelf(x: nat)
    ensures And(x, x) == x
  {
    if x > 0 {
      AndSelf(x / 2);
    }
  }

  lemma {:induction false} PowersPass(k: nat)
    ensures IsPowerOf2(Pow2(k))
  {
    Pow2Positive(k);
    if k > 0 {
      PowersPass(k - 1);
      assert (Pow2(k) - 1) / 2 == Pow2(k - 1) - 1;
    }
  }

  lemma {:induction false} OnlyPowersPass(x: nat) returns (k: nat)
    requires IsPowerOf2(x)
    ensures x == Pow2(k)
    decreases x
  {
    if x % 2 == 1 {
      AndSelf(x / 2);
      k := 0;
    } else {
      assert (x - 1) / 2 == x / 2 - 1;
      k := OnlyPowersPass(x / 2);
      k := k + 1;
    }
  }

  /** The macro accepts exactly the powers of two. */
  lemma PowerOf2Test(x: nat)
    ensures IsPowerOf2(x) <==> exists k: nat :: x == Pow2(k)
  {
    if IsPowerOf2(x) {
      var k := OnlyPowersPass(x);
    }
    forall k: nat | x == Pow2(k)
      ensures IsPowerOf2(x)
    {
      PowersPass(k);
    }
  }

  lemma ModDouble(x: nat, n: nat)
    requires n > 0
    ensures x % (2 * n) == 2 * ((x / 2) % n) + x % 2
  {
    var h, q := x / 2, (x / 2) / n;
    assert h == n * q + h % n;
    assert x == (2 * n) * q + (2 * (h % n) + x % 2);
    ModUnique(x, 2 * n, q, 2 * (h % n) + x % 2);
  }

  lemma ModUnique(x: nat, d: nat, q: nat, r: nat)
    requires x == d * q + r && r < d
    ensures x % d == r
  {
    var q', r' := x / d, x % d;
    assert x == d * q' + r';
    assert d * (q' - q) == r - r';
    if q < q' {
      MulGrows(d, q' - q);
    } else if q' < q {
      MulGrows(d, q - q');
    }
  }

  lemma MulGrows(d: nat, n: nat)
    requires n >= 1
    ensures d * n >= d
  {
  }

  /** Masking with 2^k - 1 is the remainder by 2^k. */
  lemma {:induction false} AndMask(x: nat, k: nat)
    ensures Pow2(k) >= 1 && And(x, Pow2(k) - 1) == x % Pow2(k)
    decreases k
  {
    Pow2Positive(k);
    if k > 0 {
      Pow2Positive(k - 1);
      AndMask(x / 2, k - 1);
      ModDouble(x, Pow2(k - 1));
      assert (Pow2(k) - 1) / 2 == Pow2(k - 1) - 1;
    }
  }

  /** A power of two that fits a word divides 2^32. */
  lemma {:induction false} Pow2Divides(k: nat, n: nat)
    requires k <= n
    ensures Pow2(n) == Pow2(k) * Pow2(n - k)
  {
    if k < n {
      Pow2Divides(k, n - 1);
    }
  }

  lemma {:induction false} Pow2Grows(k: nat, n: nat)
    ensures k <= n ==> Pow2(k) <= Pow2(n)
  {
    if k < n {
      Pow2Grows(k, n - 1);
    }
  }

  lemma DivMod(x: nat, m: nat)
    requires m > 0
    ensures x == m * (x / m) + x % m && 0 <= x / m && 0 <= x % m < m
  {
  }

  lemma Composed(x: nat, d: nat, q: nat, t: nat, u: nat, v: nat)
    requires x == (d * q) * t + (d * u + v)
    ensures x == d * (q * t + u) + v
  {
    assert (d * q) * t == d * (q * t);
  }

  lemma ProductIsPositive(d: nat, q: nat)
    requires d > 0 && q > 0
    ensures d * q > 0
  {
  }

  /** Reducing modulo 2^32 does not change the remainder by a power of two that divides it. */
  lemma ModMod(x: nat, d: nat, q: nat)
    requires d > 0 && q > 0
    ensures d * q > 0 && (x % (d * q)) % d == x % d
  {
    ProductIsPositive(d, q);
    var m := d * q;
    var r := x % m;
    DivMod(x, m);
    DivMod(r, d);
    Composed(x, d, q, x / m, r / d, r % d);
    ModUnique(x, d, q * (x / m) + r / d, r % d);
  }

  /** memcpy(dst + at, src + from, len) */
  method Memcpy(dst: array<byte>, at: nat, src: seq<byte>, from: nat, len: nat)
    requires at + len <= dst.Length && from + len <= |src|
    modifies dst
    ensures forall j | 0 <= j < dst.Length ::
              dst[j] == if at <= j < at + len then src[from + j - at] else old(dst[j])
  {
    for i := 0 to len
      invariant forall j | 0 <= j < dst.Length ::
                  dst[j] == if at <= j < at + i then src[from + j - at] else old(dst[j])
    {
      dst[at + i] := src[from + i];
    }
  }
}
