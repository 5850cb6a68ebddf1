/**
 * Machine words as bounded integers, and Rust's bitwise operators on them.
 *
 * A `u32` is an integer in [0, 2^32); wrap-around is always written out with
 * `Wrap`. The operators `&`, `|`, `^` are defined bit by bit on natural
 * numbers, and the lemmas here connect them to arithmetic (bit extraction,
 * low masks are remainders, disjoint `|` is `+`).
 */
module Bits {

  const TwoTo8: int := 0x100
  const TwoTo16: int := 0x1_0000
  const TwoTo27: int := 0x800_0000
  const TwoTo31: int := 0x8000_0000
  const TwoTo32: int := 0x1_0000_0000

  type u8 = x: int | 0 <= x < 0x100
  type u16 = x: int | 0 <= x < 0x1_0000
  type u32 = x: int | 0 <= x < 0x1_0000_0000

  function Pow2(k: nat): (r: nat)
    ensures r >= 1
  {
    if k == 0 then 1 else 2 * Pow2(k - 1)
  }

  lemma Pow2Values()
    ensures Pow2(4) == 0x10 && Pow2(5) == 0x20 && Pow2(8) == TwoTo8
    ensures Pow2(16) == TwoTo16 && Pow2(24) == 0x100_0000 && Pow2(27) == TwoTo27
    ensures Pow2(31) == TwoTo31 && Pow2(32) == TwoTo32
  {
  }

  /** Reduction of an integer to 32 bits, as an `as u32` cast or a wrapping operation does. */
  function Wrap(x: int): (r: u32)
    ensures exists q :: x == q * TwoTo32 + r
  {
    var r := x % TwoTo32;
    assert x == (x / TwoTo32) * TwoTo32 + r;
    r
  }

  /** Wrapping a value within one period of the range adds 2^32 to a negative value. */
  lemma WrapSmall(x: int)
    requires -TwoTo32 <= x < TwoTo32
    ensures Wrap(x) == if x < 0 then x + TwoTo32 else x
  {
    if x < 0 {
      DivModUnique(x, TwoTo32, -1, x + TwoTo32);
    } else {
      DivModUnique(x, TwoTo32, 0, x);
    }
  }

  /** Wrapping after each addition is wrapping once at the end. */
  lemma WrapAdd(a: int, b: int)
    ensures Wrap(Wrap(a) + Wrap(b)) == Wrap(a + b)
  {
    var qa, qb := a / TwoTo32, b / TwoTo32;
    var q := (Wrap(a) + Wrap(b)) / TwoTo32;
    assert a + b == (qa + qb + q) * TwoTo32 + Wrap(Wrap(a) + Wrap(b));
    DivModUnique(a + b, TwoTo32, qa + qb + q, Wrap(Wrap(a) + Wrap(b)));
  }

  /** Wrapping one addend first does not change the wrapped sum. */
  lemma WrapAddLeft(a: int, b: int)
    ensures Wrap(Wrap(a) + b) == Wrap(a + b)
  {
    var q, q2 := a / TwoTo32, (a + b) / TwoTo32;
    assert Wrap(a) + b == (q2 - q) * TwoTo32 + Wrap(a + b);
    DivModUnique(Wrap(a) + b, TwoTo32, q2 - q, Wrap(a + b));
  }

  /** Adding a wrapped value to a word and wrapping is adding the value and wrapping. */
  lemma WrapAddWord(a: u32, b: int)
    ensures Wrap(a + Wrap(b)) == Wrap(a + b)
  {
    WrapAdd(a, b);
    WrapSmall(a);
  }

  /** The two's-complement value of a 32-bit word (`x as i32`). */
  function Signed(x: u32): (v: int)
    ensures -TwoTo31 <= v < TwoTo31
    ensures Wrap(v) == x
  {
    if x < TwoTo31 then x else x - TwoTo32
  }

  /** Bit `k` of `x`; bit 0 is the least significant. */
  predicate Bit(x: nat, k: nat)
  {
    if k == 0 then x % 2 == 1 else Bit(x / 2, k - 1)
  }

  /** Bitwise and (`a & b`). */
  function And(a: nat, b: nat): (r: nat)
    ensures r <= a && r <= b
    decreases a
  {
    if a == 0 || b == 0 then 0
    else 2 * And(a / 2, b / 2) + (if a % 2 == 1 && b % 2 == 1 then 1 else 0)
  }

  /** Bitwise or (`a | b`). */
  function Or(a: nat, b: nat): (r: nat)
    ensures a <= r && b <= r && r <= a + b
    decreases a
  {
    if a == 0 then b
    else if b == 0 then a
    else 2 * Or(a / 2, b / 2) + (if a % 2 == 1 || b % 2 == 1 then 1 else 0)
  }

  /** Bitwise exclusive or (`a ^ b`). */
  function Xor(a: nat, b: nat): (r: nat)
    ensures r <= a + b
    decreases a
  {
    if a == 0 then b
    else if b == 0 then a
    else 2 * Xor(a / 2, b / 2) + (if a % 2 != b % 2 then 1 else 0)
  }

  /** Bitwise complement of a 32-bit word (`!x` on a `u32`). */
  function Not32(x: u32): (r: u32)
    ensures x + r == TwoTo32 - 1
  {
    TwoTo32 - 1 - x
  }

  lemma {:induction false} BitOfZero(k: nat)
    ensures !Bit(0, k)
  {
    if k > 0 {
      BitOfZero(k - 1);
    }
  }

  lemma {:induction false} BitAnd(a: nat, b: nat, k: nat)
    ensures Bit(And(a, b), k) <==> Bit(a, k) && Bit(b, k)
  {
    if a == 0 || b == 0 {
      BitOfZero(k);
    } else {
      var x, low := And(a, b), if a % 2 == 1 && b % 2 == 1 then 1 else 0;
      assert x == 2 * And(a / 2, b / 2) + low;
      if k > 0 {
        assert x / 2 == And(a / 2, b / 2);
        BitAnd(a / 2, b / 2, k - 1);
      } else {
        assert x % 2 == low;
      }
    }
  }

  lemma {:induction false} BitXor(a: nat, b: nat, k: nat)
    ensures Bit(Xor(a, b), k) <==> Bit(a, k) != Bit(b, k)
  {
    if a == 0 || b == 0 {
      BitOfZero(k);
    } else {
      var x, low := Xor(a, b), if a % 2 != b % 2 then 1 else 0;
      assert x == 2 * Xor(a / 2, b / 2) + low;
      if k > 0 {
        assert x / 2 == Xor(a / 2, b / 2);
        BitXor(a / 2, b / 2, k - 1);
      } else {
        assert x % 2 == low;
      }
    }
  }

  lemma {:induction false} BitOr(a: nat, b: nat, k: nat)
    ensures Bit(Or(a, b), k) <==> Bit(a, k) || Bit(b, k)
  {
    if a == 0 || b == 0 {
      BitOfZero(k);
    } else {
      var x, low := Or(a, b), if a % 2 == 1 || b % 2 == 1 then 1 else 0;
      assert x == 2 * Or(a / 2, b / 2) + low;
      if k > 0 {
        assert x / 2 == Or(a / 2, b / 2);
        BitOr(a / 2, b / 2, k - 1);
      } else {
        assert x % 2 == low;
      }
    }
  }

  lemma {:induction false} OrCommutes(a: nat, b: nat)
    ensures Or(a, b) == Or(b, a)
  {
    if a > 0 && b > 0 {
      OrCommutes(a / 2, b / 2);
    }
  }

  /** `|` of two `n`-bit numbers is an `n`-bit number. */
  lemma {:induction false} OrBelow(a: nat, b: nat, n: nat)
    requires a < Pow2(n) && b < Pow2(n)
    ensures Or(a, b) < Pow2(n)
  {
    if a > 0 && b > 0 {
      OrBelow(a / 2, b / 2, n - 1);
    }
  }

  /** `^` of two `n`-bit numbers is an `n`-bit number. */
  lemma {:induction false} XorBelow(a: nat, b: nat, n: nat)
    requires a < Pow2(n) && b < Pow2(n)
    ensures Xor(a, b) < Pow2(n)
  {
    if a > 0 && b > 0 {
      XorBelow(a / 2, b / 2, n - 1);
    }
  }

  /** A power of two has exactly one bit set. */
  lemma {:induction false} BitPow2(j: nat, k: nat)
    ensures Bit(Pow2(j), k) <==> j == k
  {
    if j == 0 {
      if k > 0 {
        BitOfZero(k - 1);
      }
    } else if k > 0 {
      BitPow2(j - 1, k - 1);
    }
  }

  /** The bits below `n` of `a * 2^n + b` are those of `b` when `b < 2^n`. */
  lemma {:induction false} BitBelow(a: nat, b: nat, n: nat, k: nat)
    requires b < Pow2(n) && k < n
    ensures Bit(a * Pow2(n) + b, k) <==> Bit(b, k)
  {
    var p := Pow2(n - 1);
    assert a * Pow2(n) == 2 * (a * p);
    if k > 0 {
      assert (a * Pow2(n) + b) / 2 == a * p + b / 2;
      BitBelow(a, b / 2, n - 1, k - 1);
    }
  }

  /** Complementing within `n` bits flips every bit below `n`. */
  lemma {:induction false} BitComplement(x: nat, n: nat, k: nat)
    requires x < Pow2(n) && k < n
    ensures Bit(Pow2(n) - 1 - x, k) <==> !Bit(x, k)
  {
    if k > 0 {
      assert (Pow2(n) - 1 - x) / 2 == Pow2(n - 1) - 1 - x / 2;
      BitComplement(x / 2, n - 1, k - 1);
    }
  }

  /** The top bit of an `n+1`-bit number says whether it reaches `2^n`. */
  lemma {:induction false} BitTop(x: nat, n: nat)
    requires x < Pow2(n + 1)
    ensures Bit(x, n) <==> x >= Pow2(n)
  {
    if n > 0 {
      BitTop(x / 2, n - 1);
    }
  }

  /** Masking with a single bit keeps exactly that bit. */
  lemma {:induction false} AndPow2(x: nat, k: nat)
    ensures And(x, Pow2(k)) == if Bit(x, k) then Pow2(k) else 0
  {
    if x == 0 {
      BitOfZero(k);
    } else if k > 0 {
      AndPow2(x / 2, k - 1);
    }
  }

  /** Euclidean division is unique. */
  lemma DivModUnique(x: int, m: int, q: int, r: int)
    requires m > 0 && 0 <= r < m && x == q * m + r
    ensures x / m == q && x % m == r
  {
    var d := q - x / m;
    assert d * m == x % m - r;
    MulBounds(d, m);
  }

  lemma MulBounds(d: int, m: int)
    requires m > 0
    ensures d >= 1 ==> d * m >= m
    ensures d <= -1 ==> d * m <= -m
  {
  }

  lemma ModDouble(a: nat, p: nat)
    requires p > 0
    ensures a % (2 * p) == 2 * ((a / 2) % p) + a % 2
  {
    var q, s := (a / 2) / p, (a / 2) % p;
    assert a == (2 * p) * q + (2 * s + a % 2);
    DivModUnique(a, 2 * p, q, 2 * s + a % 2);
  }

  /** Masking with `2^k - 1` keeps the low `k` bits: it is the remainder modulo `2^k`. */
  lemma {:induction false} AndLowMask(a: nat, k: nat)
    ensures And(a, Pow2(k) - 1) == a % Pow2(k)
  {
    if k > 0 && a > 0 {
      AndLowMask(a / 2, k - 1);
      AndLowMaskStep(a, k);
    } else if k == 0 {
      assert Pow2(k) == 1;
    } else {
      assert And(a, Pow2(k) - 1) == 0;
    }
  }

  /** The inductive step of `AndLowMask`: from the low `k - 1` bits of `a / 2` to the low `k` bits of `a`. */
  lemma AndLowMaskStep(a: nat, k: nat)
    requires k > 0 && a > 0
    requires And(a / 2, Pow2(k - 1) - 1) == (a / 2) % Pow2(k - 1)
    ensures And(a, Pow2(k) - 1) == a % Pow2(k)
  {
    var n, p := Pow2(k), Pow2(k - 1);
    assert n == 2 * p;
    var low := AndOddMask(a, p);
    ModDouble(a, p);
    var rest := (a / 2) % p;
    assert low == 2 * rest + a % 2;
    assert a % n == 2 * rest + a % 2;
  }

  /** One step of `AndLowMask`: the mask `2p - 1` keeps bit 0 and masks the rest with `p - 1`. */
  lemma AndOddMask(a: nat, p: nat) returns (low: nat)
    requires a > 0 && p > 0
    ensures low == And(a, 2 * p - 1) == 2 * And(a / 2, p - 1) + a % 2
  {
    var m := 2 * p - 1;
    assert m % 2 == 1 && m / 2 == p - 1;
    low := And(a, m);
  }

  /** Or-ing a number into bits that are zero is addition. */
  lemma {:induction false} OrShifted(a: nat, b: nat, k: nat)
    requires b < Pow2(k)
    ensures Or(a * Pow2(k), b) == a * Pow2(k) + b
  {
    if k > 0 && a > 0 && b > 0 {
      var p := Pow2(k - 1);
      assert a * Pow2(k) == 2 * (a * p);
      assert (a * Pow2(k)) / 2 == a * p && (a * Pow2(k)) % 2 == 0;
      OrShifted(a, b / 2, k - 1);
    }
  }

  /** The remainder modulo `2^n` keeps the remainder modulo any smaller power of two. */
  lemma ModPow2Mod(x: nat, k: nat, n: nat)
    requires k <= n
    ensures (x % Pow2(n)) % Pow2(k) == x % Pow2(k)
  {
    var f := Pow2Factor(k, n);
    ModMod(x, Pow2(k), f);
  }

  lemma ModMod(x: nat, a: nat, b: nat)
    requires a > 0 && b > 0
    ensures (x % (a * b)) % a == x % a
  {
    var q, r := x / (a * b), x % (a * b);
    var t, s := r / a, r % a;
    assert (a * b) * q == a * (b * q);
    assert x == (b * q + t) * a + s;
    DivModUnique(x, a, b * q + t, s);
  }

  lemma {:induction false} Pow2Factor(k: nat, n: nat) returns (f: nat)
    requires k <= n
    ensures Pow2(n) == Pow2(k) * f
  {
    if k == n {
      f := 1;
    } else {
      var g := Pow2Factor(k, n - 1);
      f := 2 * g;
    }
  }

  lemma Pow2Monotone(j: nat, k: nat)
    requires j <= k
    ensures Pow2(j) <= Pow2(k)
  {
    var f := Pow2Factor(j, k);
    MulBounds(f, Pow2(j));
  }

  /** Adding a multiple of the modulus does not change the remainder. */
  lemma ModAddMultiple(x: int, m: int, t: int)
    requires m > 0
    ensures (x + m * t) % m == x % m
  {
    DivModUnique(x + m * t, m, x / m + t, x % m);
  }
}
