/** `==` and `<=>` over null, booleans, numbers, strings and arrays: `loose_eq` and `php_compare` of
    `src/builtins.rs`. */
module Compare {
  import opened Common
  import opened Utf8
  import opened StoredStrings

  /** A double, as far as comparison sees it. */
  datatype Float = NaN | Infinite(negative: bool) | Finite(value: real)

  datatype Number = IntNumber(n: int) | FloatNumber(f: Float)

  datatype Key = IntKey(n: int) | StrKey(s: Text)

  datatype Pair = Pair(key: Key, value: Value)

  datatype Value =
    | Null
    | Bool(b: bool)
    | Int(n: int)
    | Float(f: Float)
    | Str(s: Text)
    | Arr(pairs: seq<Pair>)

  /** The conversions that the interpreter supplies: a string read whole as a number, a string's numeric
      prefix, and the text of a number. */
  datatype Host = Host(readWhole: Text -> Option<Number>, readPrefix: Text -> Number, show: Number -> Text) {
    /** One scanner answers both questions about a string, and numbers print as plain text. */
    ghost predicate Coherent() {
      && (forall s :: readWhole(s).Some? ==> readPrefix(s) == readWhole(s).value)
      && (forall n :: Canonical(show(n)) == show(n))
    }
  }

  // ---------- numbers ----------

  predicate FloatEq(x: Float, y: Float) {
    !x.NaN? && x == y
  }

  predicate FloatLess(x: Float, y: Float) {
    match (x, y)
    case (Finite(a), Finite(b)) => a < b
    case (Infinite(s), Infinite(t)) => s && !t
    case (Infinite(s), Finite(_)) => s
    case (Finite(_), Infinite(t)) => !t
    case _ => false
  }

  /** The distance between neighbouring doubles around `n`. */
  function Ulp(n: nat): (u: nat)
    ensures u >= 1
  {
    if n < 0x20_0000_0000_0000 then 1 else 2 * Ulp(n / 2)
  }

  /** The integer that `n as f64` stands for: the nearest double, ties to even. */
  function NearestDouble(n: int): int {
    var m := if n < 0 then -n else n;
    var u := Ulp(m);
    var q, rem := m / u, m % u;
    var rounded := if 2 * rem < u || (2 * rem == u && q % 2 == 0) then q * u else (q + 1) * u;
    if n < 0 then -rounded else rounded
  }

  function ToFloat(n: int): Float {
    Finite(NearestDouble(n) as real)
  }

  function AsFloat(n: Number): Float {
    match n
    case IntNumber(n) => ToFloat(n)
    case FloatNumber(f) => f
  }

  predicate NumEq(a: Number, b: Number) {
    if a.IntNumber? && b.IntNumber? then a.n == b.n else FloatEq(AsFloat(a), AsFloat(b))
  }

  /** `cmp_f64`: an unordered pair is 1. */
  function CompareFloats(x: Float, y: Float): int {
    if FloatEq(x, y) then 0 else if FloatLess(x, y) then -1 else 1
  }

  function CompareNumbers(a: Number, b: Number): int {
    if a.IntNumber? && b.IntNumber? then if a.n < b.n then -1 else if a.n == b.n then 0 else 1
    else CompareFloats(AsFloat(a), AsFloat(b))
  }

  // ---------- strings ----------

  function CompareBytes(x: seq<Byte>, y: seq<Byte>): int {
    if x == [] then (if y == [] then 0 else -1)
    else if y == [] then 1
    else if x[0] < y[0] then -1
    else if x[0] > y[0] then 1
    else CompareBytes(x[1..], y[1..])
  }

  /** `strcmp_i32`: Rust's order on plain text, else the order of the PHP bytes. */
  function StrCmp(x: Text, y: Text): int {
    if HasRaw(x) || HasRaw(y) then CompareBytes(PhpBytes(x), PhpBytes(y))
    else CompareBytes(EncodeAll(x), EncodeAll(y))
  }

  lemma {:induction false} CompareBytesZero(x: seq<Byte>, y: seq<Byte>)
    ensures CompareBytes(x, y) == 0 <==> x == y
  {
    if x != [] && y != [] && x[0] == y[0] {
      CompareBytesZero(x[1..], y[1..]);
      assert x == [x[0]] + x[1..] && y == [y[0]] + y[1..];
    }
  }

  /** `strcmp_i32` answers 0 exactly for strings that stand for the same bytes; canonical ones are then
      the same string. */
  lemma StrCmpZero(x: Text, y: Text)
    ensures StrCmp(x, y) == 0 <==> PhpBytes(x) == PhpBytes(y)
    ensures Canonical(x) == x && Canonical(y) == y ==> (StrCmp(x, y) == 0 <==> x == y)
  {
    HasRawIsHasEscape(x);
    HasRawIsHasEscape(y);
    if !HasRaw(x) && !HasRaw(y) {
      PlainTextIsItself(x);
      PlainTextIsItself(y);
    }
    CompareBytesZero(PhpBytes(x), PhpBytes(y));
    CanonicalForm(x, y);
  }

  // ---------- the two operators ----------

  predicate Truthy(v: Value) {
    match v
    case Null => false
    case Bool(b) => b
    case Int(n) => n != 0
    case Float(f) => !FloatEq(f, Finite(0.0))
    case Str(s) => !(s == [] || s == ['0' as int])
    case Arr(pairs) => pairs != []
  }

  function Flag(b: bool): int {
    if b then 1 else 0
  }

  predicate IsNaN(v: Value) {
    v.Float? && v.f.NaN?
  }

  /** `to_number` for the operands that reach it: a string gives its numeric prefix. */
  function ToNumber(h: Host, v: Value): Number
    requires v.Int? || v.Float? || v.Str?
  {
    match v
    case Int(n) => IntNumber(n)
    case Float(f) => FloatNumber(f)
    case Str(s) => h.readPrefix(s)
  }

  /** `as_php_number`: a string that is a number gives that number. */
  function AsPhpNumber(h: Host, v: Value): Number
    requires v.Int? || v.Float? || v.Str?
  {
    if v.Str? && h.readWhole(v.s).Some? then h.readWhole(v.s).value else ToNumber(h, v)
  }

  /** `to_str` for the operands that reach it. */
  function ToStr(h: Host, v: Value): Text
    requires v.Int? || v.Float? || v.Str?
  {
    if v.Str? then v.s else h.show(ToNumber(h, v))
  }

  predicate LooseEq(h: Host, a: Value, b: Value)
    decreases a
  {
    if a.Bool? || b.Bool? then Truthy(a) == Truthy(b)
    else if a.Null? then EqualsNull(b)
    else if b.Null? then EqualsNull(a)
    else if a.Str? && b.Str? then
      if h.readWhole(a.s).Some? && h.readWhole(b.s).Some? then NumEq(AsPhpNumber(h, a), AsPhpNumber(h, b))
      else a.s == b.s
    else if a.Arr? && b.Arr? then
      |a.pairs| == |b.pairs| && forall i :: 0 <= i < |a.pairs| ==> HasEntry(h, a.pairs[i], b.pairs)
    else if a.Arr? || b.Arr? then false
    else if (IsNaN(a) && b.Str?) || (a.Str? && IsNaN(b)) then false
    else if (a.Str? && h.readWhole(a.s).None?) || (b.Str? && h.readWhole(b.s).None?) then ToStr(h, a) == ToStr(h, b)
    else NumEq(ToNumber(h, a), ToNumber(h, b))
  }

  /** Whether `pairs` has `p`'s key with a loosely equal value. */
  predicate HasEntry(h: Host, p: Pair, pairs: seq<Pair>)
    decreases p
  {
    exists j :: 0 <= j < |pairs| && p.key == pairs[j].key && LooseEq(h, p.value, pairs[j].value)
  }

  predicate EqualsNull(v: Value) {
    match v
    case Null => true
    case Int(n) => n == 0
    case Float(f) => FloatEq(f, Finite(0.0))
    case Str(s) => s == []
    case Arr(pairs) => pairs == []
    case Bool(_) => false
  }

  function PhpCompare(h: Host, a: Value, b: Value): int
    decreases a, 1
  {
    if a.Null? && b.Str? then StrCmp([], b.s)
    else if a.Str? && b.Null? then StrCmp(a.s, [])
    else if a.Bool? || a.Null? || b.Bool? || b.Null? then Flag(Truthy(a)) - Flag(Truthy(b))
    else if a.Arr? && b.Arr? then
      if |a.pairs| != |b.pairs| then (if |a.pairs| < |b.pairs| then -1 else 1)
      else ComparePairs(h, a, a.pairs, b.pairs)
    else if a.Arr? then 1
    else if b.Arr? then -1
    else if (IsNaN(a) && b.Str?) || (a.Str? && IsNaN(b)) then 1
    else if a.Str? && b.Str? then
      if h.readWhole(a.s).Some? && h.readWhole(b.s).Some? then CompareNumbers(AsPhpNumber(h, a), AsPhpNumber(h, b))
      else StrCmp(a.s, b.s)
    else if a.Str? then
      if h.readWhole(a.s).Some? then CompareNumbers(AsPhpNumber(h, a), AsPhpNumber(h, b))
      else StrCmp(a.s, ToStr(h, b))
    else if b.Str? then
      if h.readWhole(b.s).Some? then CompareNumbers(AsPhpNumber(h, a), AsPhpNumber(h, b))
      else StrCmp(ToStr(h, a), b.s)
    else CompareNumbers(ToNumber(h, a), ToNumber(h, b))
  }

  /** `compare_tables` at equal size: the first difference decides, over the left table's keys in order,
      and a key that is missing on the right makes the left one greater. */
  function ComparePairs(h: Host, ghost whole: Value, pa: seq<Pair>, pb: seq<Pair>): int
    requires whole.Arr? && forall i :: 0 <= i < |pa| ==> pa[i] in whole.pairs
    decreases whole, 0, |pa|
  {
    if pa == [] then 0
    else match Find(pb, pa[0].key)
      case None => 1
      case Some(v) =>
        var order := PhpCompare(h, pa[0].value, v);
        if order != 0 then order else ComparePairs(h, whole, pa[1..], pb)
  }

  function Find(pairs: seq<Pair>, key: Key): (v: Option<Value>)
    ensures v.None? <==> forall i :: 0 <= i < |pairs| ==> pairs[i].key != key
    ensures v.Some? ==> exists i :: 0 <= i < |pairs| && pairs[i] == Pair(key, v.value)
  {
    if pairs == [] then None
    else if pairs[0].key == key then Some(pairs[0].value)
    else
      var v := Find(pairs[1..], key);
      assert forall i :: 1 <= i < |pairs| ==> pairs[i] == pairs[1..][i - 1];
      v
  }

  // ---------- they agree ----------

  ghost predicate UniqueKeys(pairs: seq<Pair>) {
    forall i, j :: 0 <= i < j < |pairs| ==> pairs[i].key != pairs[j].key
  }

  /** The values the engine holds: canonical strings, and arrays with one value a key. */
  ghost predicate WellFormed(v: Value) {
    match v
    case Str(s) => Canonical(s) == s
    case Arr(pairs) => UniqueKeys(pairs) && forall i :: 0 <= i < |pairs| ==> WellFormed(pairs[i].value)
    case _ => true
  }

  lemma NumbersAgree(a: Number, b: Number)
    ensures NumEq(a, b) <==> CompareNumbers(a, b) == 0
    ensures NumEq(a, b) <==> NumEq(b, a)
  {
  }

  /** `a == b` holds exactly when `a <=> b` is 0. */
  lemma {:induction false} LooseEqIsCompareZero(h: Host, a: Value, b: Value)
    requires h.Coherent() && WellFormed(a) && WellFormed(b)
    ensures LooseEq(h, a, b) <==> PhpCompare(h, a, b) == 0
    decreases a, 1
  {
    if a.Arr? && b.Arr? && |a.pairs| == |b.pairs| {
      PairsAgree(h, a, a.pairs, b);
    } else if (a.Null? && b.Str?) || (a.Str? && b.Null?) {
      StrCmpZero(if a.Null? then [] else a.s, if b.Null? then [] else b.s);
    } else if !(a.Bool? || a.Null? || a.Arr? || b.Bool? || b.Null? || b.Arr?) {
      if (a.Str? && h.readWhole(a.s).None?) || (b.Str? && h.readWhole(b.s).None?) {
        StrCmpZero(ToStr(h, a), ToStr(h, b));
      }
      NumbersAgree(AsPhpNumber(h, a), AsPhpNumber(h, b));
    }
  }

  lemma {:induction false} PairsAgree(h: Host, whole: Value, pa: seq<Pair>, b: Value)
    requires h.Coherent() && whole.Arr? && WellFormed(whole) && b.Arr? && WellFormed(b)
    requires forall i :: 0 <= i < |pa| ==> pa[i] in whole.pairs
    ensures ComparePairs(h, whole, pa, b.pairs) == 0 <==>
            forall i :: 0 <= i < |pa| ==> HasEntry(h, pa[i], b.pairs)
    decreases whole, 0, |pa|
  {
    hide PhpCompare, LooseEq;
    if pa != [] {
      var key, pb := pa[0].key, b.pairs;
      var found := Find(pb, key);
      PairsAgree(h, whole, pa[1..], b);
      assert forall i :: 1 <= i < |pa| ==> pa[i] == pa[1..][i - 1];
      if found.Some? {
        var k :| 0 <= k < |pb| && pb[k] == Pair(key, found.value);
        LooseEqIsCompareZero(h, pa[0].value, found.value);
        assert forall j :: 0 <= j < |pb| && pb[j].key == key ==> j == k;
      }
    }
  }

  // ---------- and on which values they agree ----------

  /** What the scanner of numbers sees to: digits are text, and spell no NaN. */
  ghost predicate ReadsPlainNumbers(h: Host) {
    forall s :: h.readWhole(s).Some? ==> Canonical(s) == s && h.readWhole(s).value != FloatNumber(NaN)
  }

  /** Two strings, canonical or not: unless both are numbers the operators agree exactly when
      comparing the stored strings comes to the same as comparing what they stand for. */
  lemma StringsAgree(h: Host, x: Text, y: Text)
    requires h.readWhole(x).None? || h.readWhole(y).None?
    ensures (LooseEq(h, Str(x), Str(y)) <==> PhpCompare(h, Str(x), Str(y)) == 0) <==>
            (x == y <==> Canonical(x) == Canonical(y))
  {
    hide StrCmp, Canonical, PhpBytes;
    StrCmpZero(x, y);
    CanonicalForm(x, y);
  }

  /** One value a key, in every array at every depth. */
  ghost predicate UniquelyKeyed(v: Value) {
    v.Arr? ==> UniqueKeys(v.pairs) && forall i :: 0 <= i < |v.pairs| ==> UniquelyKeyed(v.pairs[i].value)
  }

  /** The canonical value that `<=>` cannot tell from `v`. A NaN, which equals no number, has `true` for its twin. */
  function Twin(v: Value): (t: Value)
    ensures t.Arr? <==> v.Arr?
  {
    match v
    case Str(s) => Str(Canonical(s))
    case Float(f) => if f.NaN? then Bool(true) else v
    case Arr(pairs) => Arr(seq(|pairs|, i requires 0 <= i < |pairs| => Pair(pairs[i].key, Twin(pairs[i].value))))
    case _ => v
  }

  lemma {:induction false} TwinIsWellFormed(v: Value)
    requires UniquelyKeyed(v)
    ensures WellFormed(Twin(v))
  {
    if v.Arr? {
      forall i | 0 <= i < |v.pairs| ensures WellFormed(Twin(v.pairs[i].value)) {
        TwinIsWellFormed(v.pairs[i].value);
      }
    } else if v.Str? {
      CanonicalForm(v.s, v.s);
    }
  }

  lemma {:induction false} TwinComparesZero(h: Host, v: Value)
    requires ReadsPlainNumbers(h) && UniquelyKeyed(v)
    ensures PhpCompare(h, v, Twin(v)) == 0
    decreases v, 1
  {
    if v.Arr? {
      TwinPairsCompareZero(h, v, 0);
      assert v.pairs[0..] == v.pairs;
    } else if v.Str? {
      CanonicalForm(v.s, v.s);
      StrCmpZero(v.s, Canonical(v.s));
    }
  }

  lemma {:induction false} TwinPairsCompareZero(h: Host, v: Value, from: nat)
    requires ReadsPlainNumbers(h) && v.Arr? && UniquelyKeyed(v) && from <= |v.pairs|
    ensures ComparePairs(h, v, v.pairs[from..], Twin(v).pairs) == 0
    decreases v, 0, |v.pairs| - from
  {
    hide PhpCompare, ReadsPlainNumbers;
    if from < |v.pairs| {
      var rest, p, twins := v.pairs[from..], v.pairs[from], Twin(v).pairs;
      TwinComparesZero(h, p.value);
      TwinPairsCompareZero(h, v, from + 1);
      assert rest[1..] == v.pairs[from + 1..];
      assert twins[from] == Pair(p.key, Twin(p.value));
      var found := Find(twins, p.key);
      var k :| 0 <= k < |twins| && twins[k] == Pair(p.key, found.value);
      assert k == from;
    }
  }

  /** Only a value whose strings are canonical equals its twin. */
  lemma {:induction false} TwinEqualsCanonical(h: Host, v: Value)
    requires ReadsPlainNumbers(h) && UniquelyKeyed(v) && LooseEq(h, v, Twin(v))
    ensures WellFormed(v)
    decreases v
  {
    if v.Arr? {
      var twins := Twin(v).pairs;
      forall i | 0 <= i < |v.pairs| ensures WellFormed(v.pairs[i].value) {
        assert HasEntry(h, v.pairs[i], twins);
        var j :| 0 <= j < |twins| && v.pairs[i].key == twins[j].key && LooseEq(h, v.pairs[i].value, twins[j].value);
        assert j == i;
        TwinEqualsCanonical(h, v.pairs[i].value);
      }
    }
  }

  /**
    `a == b` holds exactly when `a <=> b` is 0, for every canonical `b`, exactly when `a` is canonical itself,
    all through its arrays: one operator compares strings as stored and the other the bytes they stand for.
  */
  lemma AgreesExactlyOnCanonical(h: Host, a: Value)
    requires h.Coherent() && ReadsPlainNumbers(h) && UniquelyKeyed(a)
    ensures (forall b :: WellFormed(b) ==> (LooseEq(h, a, b) <==> PhpCompare(h, a, b) == 0)) <==> WellFormed(a)
  {
    hide LooseEq, PhpCompare, WellFormed, ReadsPlainNumbers, UniquelyKeyed, Twin;
    if WellFormed(a) {
      forall b | WellFormed(b) ensures LooseEq(h, a, b) <==> PhpCompare(h, a, b) == 0 {
        LooseEqIsCompareZero(h, a, b);
      }
    } else {
      TwinIsWellFormed(a);
      TwinComparesZero(h, a);
      if LooseEq(h, a, Twin(a)) {
        TwinEqualsCanonical(h, a);
      }
    }
  }

  /** The smallest such string: two stray bytes that make a character when they stand side by side. */
  lemma CanonicalIsNeeded(h: Host)
    requires h.readWhole([Escape(0xC3), Escape(0xA9)]).None?
    ensures var a, b := Str([Escape(0xC3), Escape(0xA9)]), Str([0xE9]);
      !LooseEq(h, a, b) && PhpCompare(h, a, b) == 0
  {
    var x, y: Text := [Escape(0xC3), Escape(0xA9)], [0xE9];
    TwoEscapes(x, y);
    hide PhpBytes, Encode;
    StrCmpZero(x, y);
  }

  lemma TwoEscapes(x: Text, y: Text)
    requires x == [Escape(0xC3), Escape(0xA9)] && y == [0xE9]
    ensures PhpBytes(x) == PhpBytes(y) && x != y
  {
    BytesOfEscapes([0xC3, 0xA9]);
    assert Escapes([0xC3, 0xA9]) == x;
    assert PhpBytes(y) == Encode(0xE9) + PhpBytes([]) == [0xC3, 0xA9];
  }

  // ---------- and `==` is symmetric ----------

  function Keys(pairs: seq<Pair>): set<Key> {
    set i | 0 <= i < |pairs| :: pairs[i].key
  }

  lemma {:induction false} UniqueKeysCount(pairs: seq<Pair>)
    requires UniqueKeys(pairs)
    ensures |Keys(pairs)| == |pairs|
  {
    if pairs != [] {
      var k := |pairs| - 1;
      UniqueKeysCount(pairs[..k]);
      assert Keys(pairs) == Keys(pairs[..k]) + {pairs[k].key};
    }
  }

  /** Two tables of one size, the first's keys all in the second: then the keys are the same. */
  lemma SameKeys(pa: seq<Pair>, pb: seq<Pair>)
    requires UniqueKeys(pa) && UniqueKeys(pb) && |pa| == |pb| && Keys(pa) <= Keys(pb)
    ensures Keys(pa) == Keys(pb)
  {
    UniqueKeysCount(pa);
    UniqueKeysCount(pb);
    assert |Keys(pb) - Keys(pa)| == |Keys(pb)| - |Keys(pa)|;
  }

  lemma KeyOnTheLeft(pa: seq<Pair>, pb: seq<Pair>, j: nat) returns (i: nat)
    requires UniqueKeys(pa) && UniqueKeys(pb) && |pa| == |pb| && j < |pb|
    requires forall i :: 0 <= i < |pa| ==> pa[i].key in Keys(pb)
    ensures i < |pa| && pa[i].key == pb[j].key
  {
    SameKeys(pa, pb);
    assert pb[j].key in Keys(pa);
    i :| 0 <= i < |pa| && pa[i].key == pb[j].key;
  }

  lemma EntryTransfers(h: Host, pa: seq<Pair>, pb: seq<Pair>, j: nat)
    requires UniqueKeys(pa) && UniqueKeys(pb) && |pa| == |pb| && j < |pb|
    requires forall i :: 0 <= i < |pa| ==> HasEntry(h, pa[i], pb)
    requires forall v, w :: v in pa && w in pb ==> (LooseEq(h, v.value, w.value) <==> LooseEq(h, w.value, v.value))
    ensures HasEntry(h, pb[j], pa)
  {
    hide LooseEq;
    var i := KeyOnTheLeft(pa, pb, j);
    assert HasEntry(h, pa[i], pb);
    var k :| 0 <= k < |pb| && pa[i].key == pb[k].key && LooseEq(h, pa[i].value, pb[k].value);
    assert k == j && pa[i] in pa && pb[j] in pb;
  }

  lemma ArrayEqTransfers(h: Host, a: Value, b: Value)
    requires a.Arr? && b.Arr? && UniqueKeys(a.pairs) && UniqueKeys(b.pairs)
    requires forall v, w :: v in a.pairs && w in b.pairs ==>
               (LooseEq(h, v.value, w.value) <==> LooseEq(h, w.value, v.value))
    ensures LooseEq(h, a, b) ==> LooseEq(h, b, a)
  {
    hide HasEntry;
    if LooseEq(h, a, b) {
      forall j | 0 <= j < |b.pairs| ensures HasEntry(h, b.pairs[j], a.pairs) {
        EntryTransfers(h, a.pairs, b.pairs, j);
      }
    }
  }

  lemma {:induction false} LooseEqSymmetric(h: Host, a: Value, b: Value)
    requires UniquelyKeyed(a) && UniquelyKeyed(b)
    ensures LooseEq(h, a, b) <==> LooseEq(h, b, a)
    decreases a
  {
    if a.Arr? && b.Arr? {
      forall v, w | v in a.pairs && w in b.pairs
        ensures LooseEq(h, v.value, w.value) <==> LooseEq(h, w.value, v.value)
      {
        LooseEqSymmetric(h, v.value, w.value);
      }
      ArrayEqTransfers(h, a, b);
      ArrayEqTransfers(h, b, a);
    } else if !(a.Bool? || a.Null? || a.Arr? || b.Bool? || b.Null? || b.Arr?) {
      NumbersAgree(AsPhpNumber(h, a), AsPhpNumber(h, b));
      NumbersAgree(ToNumber(h, a), ToNumber(h, b));
    }
  }

  // ---------- `===` ----------

  /** `strict_eq` of two values that share no heap cell: same types, and for arrays the same order too. */
  predicate StrictEq(a: Value, b: Value)
    decreases a
  {
    match (a, b)
    case (Int(x), Int(y)) => x == y
    case (Float(x), Float(y)) => FloatEq(x, y)
    case (Str(x), Str(y)) => x == y
    case (Bool(x), Bool(y)) => x == y
    case (Null, Null) => true
    case (Arr(pa), Arr(pb)) =>
      |pa| == |pb| && forall i :: 0 <= i < |pa| ==> pa[i].key == pb[i].key && StrictEq(pa[i].value, pb[i].value)
    case _ => false
  }

  predicate HoldsNaN(v: Value) {
    match v
    case Float(f) => f.NaN?
    case Arr(pairs) => exists i :: 0 <= i < |pairs| && HoldsNaN(pairs[i].value)
    case _ => false
  }

  /** `===` is identity, but for a NaN anywhere inside. */
  lemma {:induction false} StrictEqIsIdentity(a: Value, b: Value)
    ensures StrictEq(a, b) <==> a == b && !HoldsNaN(a)
    decreases a
  {
    if a.Arr? && b.Arr? && |a.pairs| == |b.pairs| {
      forall i | 0 <= i < |a.pairs|
        ensures a.pairs[i].key == b.pairs[i].key && StrictEq(a.pairs[i].value, b.pairs[i].value) <==>
                a.pairs[i] == b.pairs[i] && !HoldsNaN(a.pairs[i].value)
      {
        StrictEqIsIdentity(a.pairs[i].value, b.pairs[i].value);
      }
      SamePairs(a.pairs, b.pairs);
    }
  }

  lemma SamePairs(pa: seq<Pair>, pb: seq<Pair>)
    requires |pa| == |pb|
    ensures pa == pb <==> forall i :: 0 <= i < |pa| ==> pa[i] == pb[i]
  {
  }

  /** What is identical is equal, as no string reads as a NaN. */
  lemma {:induction false} StrictEqIsLooseEq(h: Host, a: Value, b: Value)
    requires ReadsPlainNumbers(h) && StrictEq(a, b)
    ensures LooseEq(h, a, b)
    decreases a
  {
    if a.Arr? {
      forall i | 0 <= i < |a.pairs| ensures HasEntry(h, a.pairs[i], b.pairs) {
        StrictEqIsLooseEq(h, a.pairs[i].value, b.pairs[i].value);
        assert a.pairs[i].key == b.pairs[i].key;
      }
    }
  }
}
