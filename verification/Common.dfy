/** What several modules share: optional values, bytes, and integers of a machine's width. */
module Common {
  datatype Option<+T> = None | Some(value: T)

  type Byte = b: int | 0 <= b < 256

  const TWO_63: int := 0x8000_0000_0000_0000
  const TWO_64: int := 0x1_0000_0000_0000_0000

  type I64 = n: int | -TWO_63 <= n < TWO_63
  type U64 = n: int | 0 <= n < TWO_64

  predicate IsI64(n: int) {
    -TWO_63 <= n < TWO_63
  }

  function Abs(n: int): nat {
    if n < 0 then -n else n
  }

  lemma MulGrows(k: int, x: int, y: int)
    requires k >= 0 && x <= y
    ensures x * k <= y * k && k * x <= k * y
  {
  }

  lemma DivBounds(n: nat, k: nat)
    requires k >= 1
    ensures n / k * k <= n < (n / k + 1) * k
    ensures 0 <= n / k <= n
  {
    assert n == n / k * k + n % k;
    MulGrows(n / k, 1, k);
  }
}
