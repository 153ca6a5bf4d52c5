/** Powers of two and the bitwise AND that the table uses to turn a hash
    into a bucket index. */
module Bits {

  /** n is 2^e for some e >= 0. */
  predicate IsPow2(n: nat)
    decreases n
  {
    if n <= 1 then n == 1 else n % 2 == 0 && IsPow2(n / 2)
  }

  lemma Pow2Double(n: nat)
    requires IsPow2(n)
    ensures IsPow2(2 * n) && 2 * n >= 2
  {
    assert (2 * n) / 2 == n;
  }

  lemma {:induction false} Pow2Half(n: nat)
    requires IsPow2(n) && n >= 2
    ensures IsPow2(n / 2) && n / 2 >= 1 && 2 * (n / 2) == n
  {
  }

  /** Bitwise AND of two non-negative integers, bit by bit from the lowest. */
  function BitAnd(a: nat, b: nat): nat
    decreases a
  {
    if a == 0 || b == 0 then 0
    else 2 * BitAnd(a / 2, b / 2) + (if a % 2 == 1 && b % 2 == 1 then 1 else 0)
  }

  /** For a power of two c, masking with c - 1 keeps the remainder modulo c:
      this is why `hash & (capacity - 1)` is a bucket index. */
  lemma {:induction false} MaskIsMod(x: nat, c: nat)
    requires IsPow2(c)
    ensures BitAnd(x, c - 1) == x % c
    decreases c
  {
    if c == 1 {
    } else {
      var h := c / 2;
      MaskIsMod(x / 2, h);
      assert c - 1 == 2 * (h - 1) + 1;
      assert (c - 1) / 2 == h - 1 && (c - 1) % 2 == 1;
      if x == 0 {
      } else {
        assert BitAnd(x, c - 1) == 2 * ((x / 2) % h) + x % 2;
        DivModTwice(x, h);
      }
    }
  }

  lemma DivModTwice(x: nat, h: nat)
    requires h >= 1
    ensures 2 * ((x / 2) % h) + x % 2 == x % (2 * h)
  {
    var q := x / 2;
    var r := x % 2;
    var t := q / h;
    var u := q % h;
    assert x == 2 * h * t + (2 * u + r);
    assert 0 <= 2 * u + r < 2 * h;
    LemmaModUnique(x, 2 * h, t, 2 * u + r);
  }

  lemma LemmaModUnique(x: nat, m: nat, t: nat, s: nat)
    requires m > 0 && x == m * t + s && s < m
    ensures x % m == s
  {
    var q, r := x / m, x % m;
    assert x == m * q + r;
    if t > q {
      MulMono(m, q + 1, t);
      assert false;
    } else if t < q {
      MulMono(m, t + 1, q);
      assert false;
    }
  }

  lemma MulMono(m: nat, a: nat, b: nat)
    requires a <= b
    ensures m * a <= m * b
  {
    assert m * b == m * a + m * (b - a);
  }
}
