/** Overflow-checked integer power by squaring: `checked_ipow` of `src/builtins.rs`. */
module Power {
  import opened Common

  function Pow(base: int, exp: nat): int {
    if exp == 0 then 1 else base * Pow(base, exp - 1)
  }

  function CheckedMul(a: int, b: int): Option<int> {
    if IsI64(a * b) then Some(a * b) else None
  }

  /** Gives up when a product overflows, and yet answers for every power that fits. */
  method CheckedIpow(base0: int, exp0: nat) returns (r: Option<int>)
    requires IsI64(base0) && exp0 < 0x1_0000_0000
    ensures r == if IsI64(Pow(base0, exp0)) then Some(Pow(base0, exp0)) else None
  {
    hide Pow;
    var base, exp, acc := base0, exp0, 1;
    while exp > 0
      invariant IsI64(acc) && IsI64(base)
      invariant acc == 0 ==> base == 0
      invariant acc * Pow(base, exp) == Pow(base0, exp0)
    {
      HalvePower(acc, base, exp);
      if exp % 2 == 1 {
        var product := CheckedMul(acc, base);
        if product.None? {
          ProductOverflows(acc, base, exp / 2);
          return None;
        }
        acc := product.value;
      }
      exp := exp / 2;
      if exp > 0 {
        var square := CheckedMul(base, base);
        if square.None? {
          SquareOverflows(acc, base, exp);
          return None;
        }
        base := square.value;
      }
    }
    PowOfNone(base);
    return Some(acc);
  }

  lemma PowOfNone(base: int)
    ensures Pow(base, 0) == 1
  {
  }

  lemma {:induction false} PowSquare(base: int, k: nat)
    ensures Pow(base, 2 * k) == Pow(base * base, k)
  {
    if k > 0 {
      PowSquare(base, k - 1);
      assert Pow(base, 2 * k) == base * (base * Pow(base, 2 * k - 2));
      assert base * (base * Pow(base, 2 * k - 2)) == (base * base) * Pow(base, 2 * k - 2);
    }
  }

  lemma HalvePower(acc: int, base: int, exp: nat)
    ensures exp % 2 == 0 ==> acc * Pow(base, exp) == acc * Pow(base * base, exp / 2)
    ensures exp % 2 == 1 ==> acc * Pow(base, exp) == (acc * base) * Pow(base * base, exp / 2)
    ensures exp == 1 ==> Pow(base * base, exp / 2) == Pow(base, exp / 2) == 1
  {
    PowSquare(base, exp / 2);
    if exp % 2 == 1 {
      assert Pow(base, exp) == base * Pow(base, 2 * (exp / 2));
      assert acc * (base * Pow(base * base, exp / 2)) == (acc * base) * Pow(base * base, exp / 2);
    }
  }

  lemma {:induction false} PowAtLeast(base: int, k: nat)
    requires base >= 1
    ensures Pow(base, k) >= 1
    ensures k >= 1 ==> Pow(base, k) >= base
  {
    if k > 0 {
      PowAtLeast(base, k - 1);
      var p := Pow(base, k - 1);
      assert base * p >= base * 1 by { MulGrows(base, 1, p); }
    }
  }

  /** A factor of a square's power never brings an overflowing product back in range. */
  lemma ProductOverflows(acc: int, base: int, k: nat)
    requires !IsI64(acc * base)
    ensures !IsI64((acc * base) * Pow(base * base, k))
  {
    var m, p := acc * base, Pow(base * base, k);
    assert base != 0;
    assert base * base >= 1;
    PowAtLeast(base * base, k);
    if m > 0 {
      MulGrows(m, 1, p);
    } else {
      MulGrows(-m, 1, p);
      assert (-m) * p == -(m * p);
    }
  }

  /** 2^63 is not a square, so an overflowing square is past the range on either side. */
  lemma SquareOverflows(acc: int, base: int, k: nat)
    requires !IsI64(base * base) && acc != 0 && k >= 1
    ensures !IsI64(acc * Pow(base * base, k))
  {
    var b := if base < 0 then -base else base;
    assert b * b == base * base;
    if b <= 3037000499 {
      MulGrows(b, b, 3037000499);
      MulGrows(3037000499, b, 3037000499);
      assert false;
    }
    MulGrows(3037000500, 3037000500, b);
    MulGrows(b, 3037000500, b);
    var p := Pow(base * base, k);
    PowAtLeast(base * base, k);
    if acc > 0 {
      MulGrows(p, 1, acc);
    } else {
      MulGrows(p, 1, -acc);
      assert p * (-acc) == -(acc * p);
    }
  }
}
