/** What `<=>` answers for each kind of operands, told by what the operands are. */
module Orderings {
  import opened Common
  import opened Utf8
  import opened StoredStrings
  import opened Compare

  // ---------- strings ----------

  /** `x` differs from `y` first at `k`, where it ends or holds the smaller byte. */
  predicate PrecedesAt(x: seq<Byte>, y: seq<Byte>, k: nat) {
    && k <= |x| && k < |y| && x[..k] == y[..k]
    && (k == |x| || x[k] < y[k])
  }

  ghost predicate Precedes(x: seq<Byte>, y: seq<Byte>) {
    exists k: nat :: PrecedesAt(x, y, k)
  }

  lemma PrecedesAtCons(b: Byte, x: seq<Byte>, y: seq<Byte>, k: nat)
    ensures PrecedesAt([b] + x, [b] + y, k + 1) <==> PrecedesAt(x, y, k)
    ensures !PrecedesAt([b] + x, [b] + y, 0)
  {
    if k <= |x| && k <= |y| {
      var u, v := [b] + x, [b] + y;
      assert u[..k + 1] == [b] + x[..k] && v[..k + 1] == [b] + y[..k];
      assert x[..k] == ([b] + x[..k])[1..] && y[..k] == ([b] + y[..k])[1..];
    }
  }

  lemma PrecedesCons(b: Byte, x: seq<Byte>, y: seq<Byte>)
    ensures Precedes([b] + x, [b] + y) <==> Precedes(x, y)
  {
    hide PrecedesAt;
    PrecedesAtCons(b, x, y, 0);
    if k: nat :| PrecedesAt([b] + x, [b] + y, k) {
      PrecedesAtCons(b, x, y, k - 1);
    }
    if k: nat :| PrecedesAt(x, y, k) {
      PrecedesAtCons(b, x, y, k);
    }
  }

  lemma PrecedesAtOnce(x: seq<Byte>, y: seq<Byte>)
    requires x == [] || y == [] || x[0] != y[0]
    ensures Precedes(x, y) <==> y != [] && (x == [] || x[0] < y[0])
  {
    if y != [] && (x == [] || x[0] < y[0]) {
      assert PrecedesAt(x, y, 0);
    }
  }

  lemma {:induction false} BytesOrder(x: seq<Byte>, y: seq<Byte>)
    ensures CompareBytes(x, y) == -1 <==> Precedes(x, y)
    ensures CompareBytes(x, y) == 1 <==> Precedes(y, x)
    ensures -1 <= CompareBytes(x, y) <= 1
  {
    hide Precedes;
    if x == [] || y == [] || x[0] != y[0] {
      PrecedesAtOnce(x, y);
      PrecedesAtOnce(y, x);
    } else {
      assert x == [x[0]] + x[1..] && y == [x[0]] + y[1..];
      BytesOrder(x[1..], y[1..]);
      PrecedesCons(x[0], x[1..], y[1..]);
      PrecedesCons(x[0], y[1..], x[1..]);
    }
  }

  /** Strings that are not both numbers are in the order of their PHP bytes. */
  lemma StringOrder(h: Host, x: Text, y: Text)
    requires h.readWhole(x).None? || h.readWhole(y).None?
    ensures var u, v, r := PhpBytes(x), PhpBytes(y), PhpCompare(h, Str(x), Str(y));
      && (r == -1 <==> Precedes(u, v)) && (r == 1 <==> Precedes(v, u)) && (r == 0 <==> u == v)
      && -1 <= r <= 1
  {
    hide Precedes, CompareBytes, PhpBytes, EncodeAll;
    StoredOrder(x, y);
  }

  lemma StoredOrder(x: Text, y: Text)
    ensures var u, v, r := PhpBytes(x), PhpBytes(y), StrCmp(x, y);
      && (r == -1 <==> Precedes(u, v)) && (r == 1 <==> Precedes(v, u)) && (r == 0 <==> u == v)
      && -1 <= r <= 1
  {
    hide Precedes, CompareBytes, PhpBytes, EncodeAll;
    HasRawIsHasEscape(x);
    HasRawIsHasEscape(y);
    if !HasRaw(x) && !HasRaw(y) {
      PlainTextIsItself(x);
      PlainTextIsItself(y);
    }
    BytesOrder(PhpBytes(x), PhpBytes(y));
    CompareBytesZero(PhpBytes(x), PhpBytes(y));
  }

  /** No string stands before itself, and of two different ones exactly one stands before the other. */
  lemma PrecedesIsTotal(x: seq<Byte>, y: seq<Byte>)
    ensures !(Precedes(x, y) && Precedes(y, x))
    ensures Precedes(x, y) || Precedes(y, x) || x == y
    ensures Precedes(x, y) ==> x != y
  {
    hide Precedes;
    BytesOrder(x, y);
    CompareBytesZero(x, y);
  }

  // ---------- numbers ----------

  function PowerOfTwo(k: nat): (p: nat)
    ensures p >= 1
  {
    if k == 0 then 1 else 2 * PowerOfTwo(k - 1)
  }

  predicate IsScaled(d: int, c: int, k: nat) {
    Abs(c) <= 0x20_0000_0000_0000 && d == c * PowerOfTwo(k)
  }

  /** An integer is a double when it is 53 bits times a power of two. */
  ghost predicate IsDouble(d: int) {
    exists c: int, k: nat :: IsScaled(d, c, k)
  }

  /** Of the two equally near doubles `d` and `e`, `d` is an even multiple of their distance. */
  ghost predicate IsEvenOfTwo(d: int, e: int) {
    exists w: int :: IsEvenMultiple(d, e, w)
  }

  predicate IsEvenMultiple(d: int, e: int, w: int) {
    d == w * (2 * Abs(e - d))
  }

  lemma {:induction false} PowerGrows(j: nat, k: nat)
    requires j <= k
    ensures PowerOfTwo(j) <= PowerOfTwo(k)
  {
    if j < k {
      PowerGrows(j, k - 1);
    }
  }

  lemma {:induction false} PowerSplits(j: nat, k: nat)
    requires j <= k
    ensures PowerOfTwo(k) == PowerOfTwo(k - j) * PowerOfTwo(j)
  {
    hide PowerOfTwo;
    if j < k {
      PowerSplits(j, k - 1);
      PowerDoubles(k);
      PowerDoubles(k - j);
      TwiceProduct(PowerOfTwo(k - j - 1), PowerOfTwo(j));
    } else {
      PowerOfNone();
    }
  }

  lemma PowerDoubles(k: nat)
    requires k >= 1
    ensures PowerOfTwo(k) == 2 * PowerOfTwo(k - 1)
  {
  }

  lemma PowerOfNone()
    ensures PowerOfTwo(0) == 1
  {
  }

  lemma TwiceProduct(a: int, b: int)
    ensures 2 * (a * b) == (2 * a) * b
  {
  }

  lemma ProductOfProduct(a: int, b: int, c: int)
    ensures a * (b * c) == (a * b) * c
  {
  }

  lemma {:induction false} UlpIsPower(m: nat) returns (j: nat)
    ensures Ulp(m) == PowerOfTwo(j) && m < 0x20_0000_0000_0000 * Ulp(m)
    ensures j > 0 ==> 0x10_0000_0000_0000 * Ulp(m) <= m
  {
    if m < 0x20_0000_0000_0000 {
      j := 0;
    } else {
      var i := UlpIsPower(m / 2);
      j := i + 1;
    }
  }

  lemma BelowGrid(c: int, p: nat, q: nat)
    requires Abs(c) <= 0x20_0000_0000_0000 && p <= q
    ensures c * p <= 0x10_0000_0000_0000 * (2 * q)
  {
    MulGrows(p, c, 0x20_0000_0000_0000);
  }

  /** Every double is on the grid around `m`, or below the start of the grid. */
  lemma DoubleOnGrid(m: nat, j: nat, e: int, c: int, k: nat) returns (t: int)
    requires IsScaled(e, c, k)
    requires j > 0 ==> 0x10_0000_0000_0000 * PowerOfTwo(j) <= m
    ensures e == t * PowerOfTwo(j) || (e <= t * PowerOfTwo(j) <= m)
  {
    hide PowerOfTwo;
    if k >= j {
      t := c * PowerOfTwo(k - j);
      PowerSplits(j, k);
      ProductOfProduct(c, PowerOfTwo(k - j), PowerOfTwo(j));
    } else {
      t := 0x10_0000_0000_0000;
      PowerGrows(k, j - 1);
      PowerDoubles(j);
      BelowGrid(c, PowerOfTwo(k), PowerOfTwo(j - 1));
    }
  }

  /** Of the two grid points `a` and `b` around `m` the nearer is nearer than any `x` beyond them. */
  lemma NearerOfTwo(m: int, a: int, b: int, x: int, d: int, even: bool)
    requires a <= m < b && d == if 2 * (m - a) < b - a || (2 * (m - a) == b - a && even) then a else b
    requires x <= a || x >= b
    ensures Abs(d - m) <= Abs(x - m)
    ensures x != d && Abs(d - m) == Abs(x - m) ==> Abs(x - d) == b - a && d == if even then a else b
  {
  }

  lemma NearestOfNat(m: nat, e: int)
    requires IsDouble(e)
    ensures var d := NearestDouble(m);
      && Abs(d - m) <= Abs(e - m)
      && (e != d && Abs(d - m) == Abs(e - m) ==> IsEvenOfTwo(d, e))
  {
    hide PowerOfTwo, Ulp, IsDouble, NearestDouble;
    var u, d := Ulp(m), NearestDouble(m);
    var q := m / u;
    var a, b := q * u, (q + 1) * u;
    GridAround(m);
    BeyondGrid(m, e);
    NearerOfTwo(m, a, b, e, d, q % 2 == 0);
    if e != d && Abs(d - m) == Abs(e - m) {
      var r := if q % 2 == 0 then q else q + 1;
      HalfOfEven(r, u);
      assert IsEvenMultiple(d, e, r / 2);
    }
  }

  lemma GridAround(m: nat)
    ensures var u := Ulp(m); var q := m / u; var a, b := q * u, (q + 1) * u;
      && a <= m < b && b == a + u
      && NearestDouble(m) == if 2 * (m - a) < u || (2 * (m - a) == u && q % 2 == 0) then a else b
  {
    hide Ulp;
    var u := Ulp(m);
    var q := m / u;
    DivBounds(m, u);
    assert (q + 1) * u == q * u + u;
    assert m == q * u + m % u;
  }

  /** No double lies inside the cell of the grid that holds `m`. */
  lemma BeyondGrid(m: nat, e: int)
    requires IsDouble(e)
    ensures var u := Ulp(m); e <= m / u * u || e >= (m / u + 1) * u
  {
    hide PowerOfTwo, Ulp;
    var u := Ulp(m);
    var q := m / u;
    var j := UlpIsPower(m);
    var c: int, k: nat :| IsScaled(e, c, k);
    var t := DoubleOnGrid(m, j, e, c, k);
    DivBounds(m, u);
    if t <= q {
      MulGrows(u, t, q);
    } else {
      MulGrows(u, q + 1, t);
    }
  }

  lemma HalfOfEven(q: int, u: nat)
    requires q % 2 == 0
    ensures q * u == q / 2 * (2 * u)
  {
    assert q == q / 2 * 2;
    assert q / 2 * 2 * u == q / 2 * (2 * u);
  }

  lemma NearestIsDouble(m: nat)
    ensures IsDouble(NearestDouble(m))
  {
    hide PowerOfTwo, Ulp, NearestDouble;
    var u := Ulp(m);
    var j := UlpIsPower(m);
    var q := m / u;
    GridAround(m);
    if q >= 0x20_0000_0000_0000 {
      MulGrows(u, 0x20_0000_0000_0000, q);
    }
    assert IsScaled(q * u, q, j) && IsScaled((q + 1) * u, q + 1, j);
  }

  lemma NegatedDouble(e: int)
    ensures IsDouble(e) ==> IsDouble(-e)
  {
    if IsDouble(e) {
      var c: int, k: nat :| IsScaled(e, c, k);
      assert (-c) * PowerOfTwo(k) == -(c * PowerOfTwo(k));
      assert IsScaled(-e, -c, k);
    }
  }

  /** `n as f64`: a double, none is nearer, and of two equally near it is an even multiple of their distance. */
  lemma NearestDoubleIsNearest(n: int, e: int)
    ensures IsDouble(NearestDouble(n))
    ensures IsDouble(e) ==> var d := NearestDouble(n);
      && Abs(d - n) <= Abs(e - n)
      && (e != d && Abs(d - n) == Abs(e - n) ==> IsEvenOfTwo(d, e))
  {
    hide IsDouble, NearestDouble, IsEvenOfTwo;
    var m, d := Abs(n), NearestDouble(Abs(n));
    NearestIsDouble(m);
    NegatedDouble(d);
    NegatedDouble(e);
    NearestNegated(m);
    if IsDouble(e) {
      NearestOfNat(m, if n < 0 then -e else e);
      EvenNegated(d, -e);
    }
  }

  lemma NearestNegated(m: nat)
    ensures m > 0 ==> NearestDouble(0 - m) == -NearestDouble(m)
  {
  }

  lemma EvenNegated(d: int, e: int)
    ensures IsEvenOfTwo(d, e) ==> IsEvenOfTwo(-d, -e)
  {
    if IsEvenOfTwo(d, e) {
      var w: int :| IsEvenMultiple(d, e, w);
      assert (-w) * (2 * Abs(e - d)) == -(w * (2 * Abs(e - d)));
      assert IsEvenMultiple(-d, -e, -w);
    }
  }

  lemma IntegerOrder(h: Host, m: int, n: int)
    ensures PhpCompare(h, Int(m), Int(n)) == if m < n then -1 else if m > n then 1 else 0
  {
  }

  predicate AtMost(x: Compare.Float, t: real) {
    match x
    case NaN => false
    case Infinite(negative) => negative
    case Finite(v) => v <= t
  }

  /** Some real number is at least `x` and less than `y`. */
  ghost predicate Below(x: Compare.Float, y: Compare.Float) {
    !x.NaN? && !y.NaN? && exists t: real :: AtMost(x, t) && !AtMost(y, t)
  }

  predicate IsNumber(v: Value) {
    v.Int? || v.Float?
  }

  function AsDouble(v: Value): Compare.Float
    requires IsNumber(v)
  {
    if v.Float? then v.f else Finite(NearestDouble(v.n) as real)
  }

  /** Where a double takes part numbers are in the order of the extended reals, and a NaN always gives 1. */
  lemma DoubleOrder(h: Host, a: Value, b: Value)
    requires IsNumber(a) && IsNumber(b) && (a.Float? || b.Float?)
    ensures var x, y, r := AsDouble(a), AsDouble(b), PhpCompare(h, a, b);
      && (r == -1 <==> Below(x, y))
      && (r == 1 <==> Below(y, x) || x.NaN? || y.NaN?)
      && (r == 0 <==> !x.NaN? && x == y)
      && -1 <= r <= 1
  {
    hide NearestDouble;
    LessIsBelow(AsDouble(a), AsDouble(b));
    LessIsBelow(AsDouble(b), AsDouble(a));
  }

  lemma LessIsBelow(x: Compare.Float, y: Compare.Float)
    ensures FloatLess(x, y) <==> Below(x, y)
  {
    if FloatLess(x, y) {
      var t := if x.Finite? then x.value else if y.Finite? then y.value - 1.0 else 0.0;
      assert AtMost(x, t) && !AtMost(y, t);
    }
  }

  // ---------- numbers against strings ----------

  function NumberValue(n: Number): Value {
    match n
    case IntNumber(n) => Int(n)
    case FloatNumber(f) => Compare.Value.Float(f)
  }

  /** Against a number, or another such string, a string that reads as a number is that number. */
  lemma NumericStringIsItsNumber(h: Host, s: Text, b: Value)
    requires h.readWhole(s).Some? && (IsNumber(b) || (b.Str? && h.readWhole(b.s).Some?))
    ensures var n := NumberValue(h.readWhole(s).value);
      PhpCompare(h, Str(s), b) == PhpCompare(h, n, b) && PhpCompare(h, b, Str(s)) == PhpCompare(h, b, n)
  {
    hide NearestDouble;
  }

  /** Any other string meets a number as the number's text, unless the number is a NaN. */
  lemma OtherStringMeetsText(h: Host, s: Text, n: Number)
    requires h.readWhole(s).None?
    ensures var v, t := NumberValue(n), Str(h.show(n));
      if n == FloatNumber(NaN) then PhpCompare(h, Str(s), v) == 1 && PhpCompare(h, v, Str(s)) == 1
      else
        && PhpCompare(h, Str(s), v) == PhpCompare(h, Str(s), t)
        && PhpCompare(h, v, Str(s)) == PhpCompare(h, t, Str(s))
  {
    hide StrCmp;
  }

  // ---------- null and booleans ----------

  /** `null` stands before every string but the empty one. */
  lemma NullIsEmptyString(h: Host, s: Text)
    ensures PhpCompare(h, Null, Str(s)) == if s == [] then 0 else -1
    ensures PhpCompare(h, Str(s), Null) == if s == [] then 0 else 1
  {
    hide StrCmp;
    StoredOrder([], s);
    StoredOrder(s, []);
    assert PhpBytes([]) == [] && PhpBytes(s) == [] <==> s == [];
    EmptyFirst(PhpBytes(s));
  }

  lemma EmptyFirst(b: seq<Byte>)
    ensures Precedes([], b) <==> b != []
    ensures !Precedes(b, [])
  {
    if b != [] {
      assert PrecedesAt([], b, 0);
    }
  }

  predicate IsFalsy(v: Value) {
    || v == Null || v == Bool(false) || v == Int(0) || v == Compare.Value.Float(Finite(0.0))
    || v == Str([]) || v == Str([0x30]) || v == Arr([])
  }

  /** A boolean, or null against anything but a string, makes both sides booleans, false before true. */
  lemma TruthOrder(h: Host, a: Value, b: Value)
    requires a.Bool? || b.Bool? || (a.Null? && !b.Str?) || (b.Null? && !a.Str?)
    ensures PhpCompare(h, a, b) == if IsFalsy(a) && !IsFalsy(b) then -1 else if !IsFalsy(a) && IsFalsy(b) then 1 else 0
  {
  }

  // ---------- arrays ----------

  lemma ArrayIsGreater(h: Host, a: Value, b: Value)
    requires a.Arr? && (IsNumber(b) || b.Str?)
    ensures PhpCompare(h, a, b) == 1 && PhpCompare(h, b, a) == -1
  {
  }

  lemma LongerIsGreater(h: Host, a: seq<Pair>, b: seq<Pair>)
    requires |a| < |b|
    ensures PhpCompare(h, Arr(a), Arr(b)) == -1 && PhpCompare(h, Arr(b), Arr(a)) == 1
  {
  }

  /** The first entry of `pairs` with the key stands at `j`. */
  predicate IsEntry(pairs: seq<Pair>, key: Key, j: nat) {
    j < |pairs| && pairs[j].key == key && forall i :: 0 <= i < j ==> pairs[i].key != key
  }

  predicate HasKey(pairs: seq<Pair>, key: Key) {
    exists j :: 0 <= j < |pairs| && pairs[j].key == key
  }

  /** `b` has the key of `a`'s entry at `i`, with a value that compares as equal. */
  ghost predicate Agrees(h: Host, a: seq<Pair>, b: seq<Pair>, i: nat)
    requires i < |a|
  {
    exists j: nat :: IsEntry(b, a[i].key, j) && PhpCompare(h, a[i].value, b[j].value) == 0
  }

  /** Entry `k` of `a` is the first that does not agree with `b`, and `r` is what it says. */
  ghost predicate Differs(h: Host, a: seq<Pair>, b: seq<Pair>, k: nat, r: int) {
    && k < |a|
    && (forall i :: 0 <= i < k ==> Agrees(h, a, b, i))
    && (!HasKey(b, a[k].key) ==> r == 1)
    && (forall j: nat :: IsEntry(b, a[k].key, j) ==> r == PhpCompare(h, a[k].value, b[j].value) != 0)
  }

  lemma {:induction false} FindFirst(pairs: seq<Pair>, key: Key)
    ensures HasKey(pairs, key) <==> Find(pairs, key).Some?
    ensures forall j: nat :: IsEntry(pairs, key, j) ==> Find(pairs, key) == Some(pairs[j].value)
  {
    if pairs != [] && pairs[0].key != key {
      FindFirst(pairs[1..], key);
      forall j: nat | j < |pairs| ensures IsEntry(pairs, key, j) <==> j > 0 && IsEntry(pairs[1..], key, j - 1) {
        if IsEntry(pairs, key, j) {
          assert forall i :: 0 <= i < j - 1 ==> pairs[1..][i] == pairs[i + 1];
        }
        if j > 0 && IsEntry(pairs[1..], key, j - 1) {
          assert forall i :: 1 <= i < j ==> pairs[i] == pairs[1..][i - 1];
        }
      }
    } else if pairs != [] {
      assert IsEntry(pairs, key, 0);
    }
  }

  lemma {:induction false} FirstEntry(pairs: seq<Pair>, key: Key) returns (j: nat)
    requires HasKey(pairs, key)
    ensures IsEntry(pairs, key, j)
  {
    j := 0;
    while pairs[j].key != key
      invariant j < |pairs| && forall i :: 0 <= i < j ==> pairs[i].key != key
      decreases |pairs| - j
    {
      j := j + 1;
    }
  }

  lemma {:induction false} DifferenceFrom(h: Host, whole: Value, b: seq<Pair>, k: nat)
    requires whole.Arr? && k <= |whole.pairs| && forall i :: 0 <= i < k ==> Agrees(h, whole.pairs, b, i)
    ensures var a, r := whole.pairs, ComparePairs(h, whole, whole.pairs[k..], b);
      || (r == 0 && forall i :: 0 <= i < |a| ==> Agrees(h, a, b, i))
      || exists n: nat :: Differs(h, a, b, n, r)
    decreases |whole.pairs| - k
  {
    hide PhpCompare, Agrees, Differs, ComparePairs;
    PairsStep(h, whole, b, k);
    if k < |whole.pairs| {
      var p := whole.pairs[k];
      var found := Find(b, p.key);
      if found.Some? && PhpCompare(h, p.value, found.value) == 0 {
        AgreesHere(h, whole.pairs, b, k);
        DifferenceFrom(h, whole, b, k + 1);
      } else {
        DiffersHere(h, whole.pairs, b, k, if found.None? then 1 else PhpCompare(h, p.value, found.value));
      }
    }
  }

  lemma PairsStep(h: Host, whole: Value, b: seq<Pair>, k: nat)
    requires whole.Arr? && k <= |whole.pairs|
    ensures var a := whole.pairs;
      var r := ComparePairs(h, whole, a[k..], b);
      if k == |a| then r == 0
      else match Find(b, a[k].key)
        case None => r == 1
        case Some(v) =>
          var order := PhpCompare(h, a[k].value, v);
          r == if order != 0 then order else ComparePairs(h, whole, a[k + 1..], b)
  {
    hide PhpCompare;
    var a := whole.pairs;
    if k < |a| {
      assert a[k..][0] == a[k] && a[k..][1..] == a[k + 1..];
    }
  }

  lemma AgreesHere(h: Host, a: seq<Pair>, b: seq<Pair>, k: nat)
    requires k < |a| && Find(b, a[k].key).Some? && PhpCompare(h, a[k].value, Find(b, a[k].key).value) == 0
    ensures Agrees(h, a, b, k)
  {
    hide PhpCompare, IsEntry;
    FindFirst(b, a[k].key);
    var j := FirstEntry(b, a[k].key);
    assert IsEntry(b, a[k].key, j) && j < |b| by { EntryInside(b, a[k].key, j); }
  }

  lemma EntryInside(pairs: seq<Pair>, key: Key, j: nat)
    requires IsEntry(pairs, key, j)
    ensures j < |pairs|
  {
  }

  lemma DiffersHere(h: Host, a: seq<Pair>, b: seq<Pair>, k: nat, r: int)
    requires k < |a| && forall i :: 0 <= i < k ==> Agrees(h, a, b, i)
    requires match Find(b, a[k].key) case None => r == 1 case Some(v) => r == PhpCompare(h, a[k].value, v) != 0
    ensures Differs(h, a, b, k, r)
  {
    hide PhpCompare, Agrees;
    FindFirst(b, a[k].key);
  }

  /** Of two arrays of one size, the first entry of the left that does not agree decides, and 0 means that all do;
      a key that the right one does not have makes the left one greater. */
  lemma FirstDifferenceDecides(h: Host, a: seq<Pair>, b: seq<Pair>)
    requires |a| == |b|
    ensures var r := PhpCompare(h, Arr(a), Arr(b));
      || (r == 0 && forall i :: 0 <= i < |a| ==> Agrees(h, a, b, i))
      || exists k: nat :: Differs(h, a, b, k, r)
  {
    hide Agrees, Differs;
    DifferenceFrom(h, Arr(a), b, 0);
    assert a[0..] == a;
  }
}
