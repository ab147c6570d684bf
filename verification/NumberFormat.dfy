/** `number_format` of an integer: `php_number_format` of `src/builtins.rs`. */
module NumberFormat {
  import opened Common

  const TWO_127: int := 0x8000_0000_0000_0000_0000_0000_0000_0000

  type I128 = n: int | -TWO_127 <= n < TWO_127

  function Pow10(k: nat): (p: nat)
    ensures p >= 1
  {
    if k == 0 then 1 else 10 * Pow10(k - 1)
  }

  predicate IsMultiple(r: int, p: nat)
    requires p >= 1
  {
    r / p * p == r
  }

  /** Whether `r` is the multiple of `p` nearest to `m`, the larger one when two are equally near. */
  predicate IsNearestMultiple(m: nat, p: nat, r: int)
    requires p >= 1
  {
    IsMultiple(r, p) && 2 * (r - m) <= p && 2 * (m - r) < p
  }

  lemma {:induction false} Pow10Grows(j: nat, k: nat)
    requires j <= k
    ensures Pow10(j) <= Pow10(k)
  {
    if j < k {
      Pow10Grows(j, k - 1);
    }
  }

  lemma TwentyDigits()
    ensures Pow10(19) == 10_000_000_000_000_000_000 && Pow10(20) == 100_000_000_000_000_000_000
  {
    assert Pow10(4) == 10_000;
    assert Pow10(8) == 100_000_000;
    assert Pow10(12) == 1_000_000_000_000;
    assert Pow10(16) == 10_000_000_000_000_000;
  }

  lemma MultipleOf(q: int, p: nat)
    requires p >= 1
    ensures IsMultiple(q * p, p)
  {
    var d := q * p / p;
    var rem := q * p - d * p;
    if q > d {
      MulGrows(p, d + 1, q);
    } else {
      MulGrows(p, q, d);
    }
  }

  lemma HalfOfPower(k: nat)
    requires k >= 1
    ensures Pow10(k) == 2 * (Pow10(k) / 2)
  {
    HalfOfTen(Pow10(k - 1));
  }

  lemma HalfOfTen(t: nat)
    ensures 10 * t == 2 * (10 * t / 2)
  {
    Halves(5 * t);
  }

  lemma Halves(n: nat)
    ensures 2 * n / 2 == n
  {
  }

  lemma RoundedIsNearest(m: nat, k: nat)
    requires k >= 1
    ensures var p := Pow10(k); IsNearestMultiple(m, p, (m + p / 2) / p * p)
  {
    hide Pow10;
    var p := Pow10(k);
    HalfOfPower(k);
    var q := (m + p / 2) / p;
    MultipleOf(q, p);
    DivBounds(m + p / 2, p);
  }

  lemma QuotientIsUnique(m: nat, p: nat, a: int, b: int)
    requires 2 * (a * p - m) <= p && 2 * (m - a * p) < p && 2 * (b * p - m) <= p && 2 * (m - b * p) < p
    ensures a == b
  {
    if a < b {
      MulGrows(p, a + 1, b);
    } else if b < a {
      MulGrows(p, b + 1, a);
    }
  }

  /** Rounding has one answer. */
  lemma NearestIsUnique(m: nat, p: nat, r: int, s: int)
    requires p >= 1 && IsNearestMultiple(m, p, r) && IsNearestMultiple(m, p, s)
    ensures r == s
  {
    QuotientIsUnique(m, p, r / p, s / p);
  }

  // ---------- digits and groups ----------

  function Digit(d: int): char
    requires 0 <= d < 10
  {
    '0' + d as char
  }

  /** Decimal digits, most significant first. */
  function Digits(n: nat): (text: string)
    ensures text != []
  {
    if n < 10 then [Digit(n)] else Digits(n / 10) + [Digit(n % 10)]
  }

  predicate IsDecimal(text: string) {
    forall i :: 0 <= i < |text| ==> '0' <= text[i] <= '9'
  }

  function Value(text: string): int
    requires IsDecimal(text)
  {
    if text == [] then 0 else Value(text[..|text| - 1]) * 10 + (text[|text| - 1] - '0') as int
  }

  /** The digits of a number read as that number, with no leading zero. */
  lemma {:induction false} DigitsValue(n: nat)
    ensures IsDecimal(Digits(n)) && Value(Digits(n)) == n
    ensures n > 0 ==> Digits(n)[0] != '0'
  {
    if n >= 10 {
      DigitsValue(n / 10);
      var init, last := Digits(n / 10), Digit(n % 10);
      assert Digits(n)[..|Digits(n)| - 1] == init;
    } else {
      assert Digits(n)[..0] == [];
    }
  }

  /** Groups of three, counted from the right. */
  function Groups(text: string): (groups: seq<string>)
    requires text != []
    ensures groups != [] && 1 <= |groups[0]| <= 3
    ensures forall i :: 1 <= i < |groups| ==> |groups[i]| == 3
  {
    if |text| <= 3 then [text] else Groups(text[..|text| - 3]) + [text[|text| - 3..]]
  }

  function Join(groups: seq<string>, separator: string): string {
    if groups == [] then []
    else if |groups| == 1 then groups[0]
    else
      var k := |groups| - 1;
      Join(groups[..k], separator) + separator + groups[k]
  }

  /** Without the separators, the groups are the digits. */
  lemma {:induction false} GroupsJoin(text: string)
    requires text != []
    ensures Join(Groups(text), []) == text
  {
    if |text| > 3 {
      var init, last := text[..|text| - 3], text[|text| - 3..];
      GroupsJoin(init);
      JoinSnoc(Groups(init), last, []);
      assert text == init + [] + last;
    }
  }

  lemma JoinOne(group: string, separator: string)
    ensures Join([group], separator) == group
  {
  }

  lemma JoinSnoc(groups: seq<string>, last: string, separator: string)
    requires groups != []
    ensures Join(groups + [last], separator) == Join(groups, separator) + separator + last
  {
    assert (groups + [last])[..|groups|] == groups;
  }

  /** The grouping of the first `i` characters of `text`, as far as the loop has come. */
  function GroupedPrefix(text: string, separator: string, i: nat): string
    requires i <= |text|
  {
    if i == 0 then []
    else GroupedPrefix(text, separator, i - 1)
         + (if i > 1 && (|text| - (i - 1)) % 3 == 0 then separator else []) + [text[i - 1]]
  }

  lemma SamePlace(n: int)
    ensures (n - 3) % 3 == n % 3
  {
  }

  lemma {:induction false} GroupedPrefixShift(text: string, separator: string, i: nat)
    requires |text| > 3 && i <= |text| - 3
    ensures GroupedPrefix(text, separator, i) == GroupedPrefix(text[..|text| - 3], separator, i)
  {
    if i > 0 {
      GroupedPrefixShift(text, separator, i - 1);
      SamePlace(|text| - (i - 1));
      assert text[..|text| - 3][i - 1] == text[i - 1];
    }
  }

  /** The loop's test, taken from the left, groups from the right. */
  lemma {:induction false} GroupedFromTheRight(text: string, separator: string)
    requires text != []
    ensures GroupedPrefix(text, separator, |text|) == Join(Groups(text), separator)
  {
    hide GroupedPrefix, Join, Groups;
    var n := |text|;
    GroupsStep(text);
    if n <= 3 {
      ShortPrefix(text, separator, n);
      JoinOne(text, separator);
    } else {
      GroupedFromTheRight(text[..n - 3], separator);
      GroupedPrefixShift(text, separator, n - 3);
      JoinSnoc(Groups(text[..n - 3]), text[n - 3..], separator);
      LastThree(text, separator);
    }
  }

  lemma GroupsStep(text: string)
    requires text != []
    ensures |text| <= 3 ==> Groups(text) == [text] && text[..|text|] == text
    ensures |text| > 3 ==> |text[..|text| - 3]| == |text| - 3
                           && Groups(text) == Groups(text[..|text| - 3]) + [text[|text| - 3..]]
  {
  }

  lemma {:induction false} ShortPrefix(text: string, separator: string, i: nat)
    requires i <= |text| <= 3
    ensures GroupedPrefix(text, separator, i) == text[..i]
  {
    if i > 0 {
      ShortPrefix(text, separator, i - 1);
      assert text[..i] == text[..i - 1] + [text[i - 1]];
    }
  }

  lemma LastThree(text: string, separator: string)
    requires |text| > 3
    ensures var n := |text|;
      GroupedPrefix(text, separator, n) == GroupedPrefix(text, separator, n - 3) + separator + text[n - 3..]
  {
    var n := |text|;
    var g := GroupedPrefix(text, separator, n - 3);
    assert GroupedPrefix(text, separator, n - 2) == g + separator + [text[n - 3]];
    assert GroupedPrefix(text, separator, n - 1) == GroupedPrefix(text, separator, n - 2) + [] + [text[n - 2]];
    assert GroupedPrefix(text, separator, n) == GroupedPrefix(text, separator, n - 1) + [] + [text[n - 1]];
    assert text[n - 3..] == [text[n - 3], text[n - 2], text[n - 1]];
  }

  // ---------- number_format ----------

  function Zeros(k: nat): string {
    seq(k, _ => '0')
  }

  /** `mag` rounded to a multiple of 10^k, every intermediate result within 128 bits. */
  function RoundTo(mag: I128, k: nat): (r: I128)
    requires 0 <= mag <= TWO_63 && 1 <= k <= 19
    ensures r >= 0 && IsNearestMultiple(mag, Pow10(k), r)
  {
    hide Pow10, IsNearestMultiple;
    TwentyDigits();
    Pow10Grows(k, 19);
    var p: I128 := Pow10(k);
    RoundedIsNearest(mag, k);
    var sum: I128 := mag + p / 2;
    DivBounds(sum, p);
    MulGrows(p, 0, sum / p);
    var quotient: I128 := sum / p;
    quotient * p
  }

  lemma ZeroIsNearest(m: nat, k: nat)
    requires m <= TWO_63 && k >= 20
    ensures IsNearestMultiple(m, Pow10(k), 0)
  {
    hide Pow10;
    TwentyDigits();
    Pow10Grows(20, k);
    MultipleOf(0, Pow10(k));
  }

  /** The rounded magnitude: negative `decimals` round to a power of ten, and past 10^19 to zero. */
  function RoundedMagnitude(n: I64, decimals: I64): (mag: I128)
    ensures mag >= 0
    ensures decimals >= 0 ==> mag == Abs(n)
    ensures decimals < 0 ==> IsNearestMultiple(Abs(n), Pow10(Abs(decimals)), mag)
  {
    var mag: I128 := Abs(n);
    if decimals >= 0 then mag
    else if decimals >= -19 then RoundTo(mag, Abs(decimals))
    else
      ZeroIsNearest(mag, Abs(decimals));
      0
  }

  method NumberFormat(n: I64, decimals: I64, point: string, separator: string) returns (out: string)
    ensures var mag := RoundedMagnitude(n, decimals);
      var whole := (if n < 0 && mag != 0 then "-" else "") + Join(Groups(Digits(mag)), separator);
      if decimals <= 0 then out == whole
      else
        && whole + point <= out && |out| == |whole| + |point| + decimals
        && forall i :: |whole| + |point| <= i < |out| ==> out[i] == '0'
  {
    hide RoundedMagnitude, Groups, Digits, Join;
    var mag := RoundedMagnitude(n, decimals);
    var digits := Digits(mag);
    var grouped := "";
    for i := 0 to |digits|
      invariant grouped == GroupedPrefix(digits, separator, i)
    {
      if i > 0 && (|digits| - i) % 3 == 0 {
        grouped := grouped + separator;
      }
      grouped := grouped + [digits[i]];
    }
    GroupedFromTheRight(digits, separator);
    out := "";
    if n < 0 && mag != 0 {
      out := out + "-";
    }
    out := out + grouped;
    if decimals > 0 {
      out := out + point;
      out := out + Zeros(decimals);
    }
  }

  /** The grouped text, separators removed, is the decimal spelling of the nearest multiple of the power
      of ten, which is zero past 10^19. */
  lemma NumberFormatMeaning(n: I64, decimals: I64)
    ensures var mag := RoundedMagnitude(n, decimals);
      && mag >= 0 && Join(Groups(Digits(mag)), []) == Digits(mag)
      && IsDecimal(Digits(mag)) && Value(Digits(mag)) == mag
      && (decimals < 0 ==> forall r :: IsNearestMultiple(Abs(n), Pow10(Abs(decimals)), r) <==> r == mag)
      && (decimals < -19 ==> mag == 0)
  {
    hide RoundedMagnitude, Groups, Digits, Join, Value, IsDecimal, Pow10;
    var mag := RoundedMagnitude(n, decimals);
    GroupsJoin(Digits(mag));
    DigitsValue(mag);
    if decimals < 0 {
      forall r | IsNearestMultiple(Abs(n), Pow10(Abs(decimals)), r) ensures r == mag {
        NearestIsUnique(Abs(n), Pow10(Abs(decimals)), r, mag);
      }
    }
    if decimals < -19 {
      ZeroIsNearest(Abs(n), Abs(decimals));
      NearestIsUnique(Abs(n), Pow10(Abs(decimals)), 0, mag);
    }
  }
}
