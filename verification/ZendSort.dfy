/** `zend_sort` of `src/stdlib/zsort.rs`: sorting networks, an insertion sort that searches two steps at a time, and
    a quicksort that recurses into the smaller side. */
module ZendSort {
  // ---------- the order ----------

  /** `cmp` is a total preorder of the elements of `dom`. */
  ghost predicate IsPreorder<T>(cmp: (T, T) -> int, dom: set<T>) {
    && (forall x, y :: x in dom && y in dom ==> (cmp(x, y) > 0 <==> cmp(y, x) < 0))
    && (forall x, y, z :: x in dom && y in dom && z in dom && cmp(x, y) <= 0 && cmp(y, z) <= 0 ==> cmp(x, z) <= 0)
  }

  /** `x` may stand before `y`: which says nothing under a comparator that is no preorder. */
  ghost predicate Le<T>(cmp: (T, T) -> int, dom: set<T>, x: T, y: T) {
    IsPreorder(cmp, dom) ==> cmp(x, y) <= 0
  }

  lemma LeTotal<T>(cmp: (T, T) -> int, dom: set<T>, x: T, y: T)
    requires x in dom && y in dom
    ensures cmp(x, y) > 0 ==> Le(cmp, dom, y, x)
    ensures cmp(x, y) <= 0 ==> Le(cmp, dom, x, y)
    ensures Le(cmp, dom, x, x)
  {
  }

  lemma LeTrans<T>(cmp: (T, T) -> int, dom: set<T>, x: T, y: T, z: T)
    requires x in dom && y in dom && z in dom && Le(cmp, dom, x, y) && Le(cmp, dom, y, z)
    ensures Le(cmp, dom, x, z)
  {
  }

  ghost predicate Ascending<T>(cmp: (T, T) -> int, s: seq<T>) {
    forall x, y :: 0 <= x < y < |s| ==> cmp(s[x], s[y]) <= 0
  }

  ghost predicate Within<T>(s: seq<T>, dom: set<T>) {
    forall k :: 0 <= k < |s| ==> s[k] in dom
  }

  /** The elements from `lo` to `hi` do not descend. */
  ghost predicate Ascends<T>(cmp: (T, T) -> int, dom: set<T>, s: seq<T>, lo: int, hi: int)
    requires 0 <= lo <= hi <= |s|
  {
    forall x, y :: lo <= x < y < hi ==> Le(cmp, dom, s[x], s[y])
  }

  // ---------- rearranging a stretch ----------

  /** `t` is `s` with the elements from `lo` to `hi` rearranged. */
  ghost predicate Rearranged<T>(s: seq<T>, t: seq<T>, lo: int, hi: int) {
    && 0 <= lo <= hi <= |s| == |t|
    && (forall k :: 0 <= k < lo || hi <= k < |s| ==> t[k] == s[k])
    && multiset(t[lo..hi]) == multiset(s[lo..hi])
  }

  lemma RearrangedTwice<T>(s: seq<T>, t: seq<T>, u: seq<T>, lo: int, hi: int)
    requires Rearranged(s, t, lo, hi) && Rearranged(t, u, lo, hi)
    ensures Rearranged(s, u, lo, hi)
  {
  }

  lemma RearrangedWider<T>(s: seq<T>, t: seq<T>, lo: int, hi: int, lo': int, hi': int)
    requires Rearranged(s, t, lo, hi) && 0 <= lo' <= lo && hi <= hi' <= |s|
    ensures Rearranged(s, t, lo', hi')
  {
    assert t[lo'..lo] == s[lo'..lo] && t[hi..hi'] == s[hi..hi'];
    assert s[lo'..hi'] == s[lo'..lo] + s[lo..hi] + s[hi..hi'];
    assert t[lo'..hi'] == t[lo'..lo] + t[lo..hi] + t[hi..hi'];
  }

  /** One rearrangement after another, of stretches inside `lo` to `hi`. */
  lemma RearrangedThen<T>(s: seq<T>, t: seq<T>, u: seq<T>, lo: int, hi: int, lo': int, hi': int)
    requires Rearranged(s, t, lo, hi) && Rearranged(t, u, lo', hi') && lo <= lo' && hi' <= hi
    ensures Rearranged(s, u, lo, hi)
  {
    RearrangedWider(t, u, lo', hi', lo, hi);
    RearrangedTwice(s, t, u, lo, hi);
  }

  /** Every element of the stretch was in the stretch. */
  lemma RearrangedFrom<T>(s: seq<T>, t: seq<T>, lo: int, hi: int, k: int) returns (j: int)
    requires Rearranged(s, t, lo, hi) && lo <= k < hi
    ensures lo <= j < hi && s[j] == t[k]
  {
    assert t[lo..hi][k - lo] in multiset(t[lo..hi]);
    assert t[k] in multiset(s[lo..hi]);
    var i :| 0 <= i < hi - lo && s[lo..hi][i] == t[k];
    j := lo + i;
  }

  function Swapped<T>(s: seq<T>, i: nat, j: nat): seq<T>
    requires i < |s| && j < |s|
  {
    s[i := s[j]][j := s[i]]
  }

  lemma SwappedRearranged<T>(s: seq<T>, i: nat, j: nat, lo: int, hi: int)
    requires 0 <= lo <= i < hi <= |s| && lo <= j < hi
    ensures Rearranged(s, Swapped(s, i, j), lo, hi)
  {
    var t := Swapped(s, i, j);
    var a, b := s[lo..hi], t[lo..hi];
    assert b == a[i - lo := a[j - lo]][j - lo := a[i - lo]];
  }

  /** The array is what it `was`, but for the stretch from `lo` to `hi`, which is rearranged. */
  ghost predicate Kept<T>(v: array<T>, was: seq<T>, lo: int, hi: int, dom: set<T>)
    reads v
  {
    Rearranged(was, v[..], lo, hi) && Within(v[..], dom)
  }

  lemma LeTotalAt<T>(cmp: (T, T) -> int, v: array<T>, was: seq<T>, lo: int, hi: int, dom: set<T>, i: nat, j: nat)
    requires Kept(v, was, lo, hi, dom) && i < v.Length && j < v.Length
    ensures cmp(v[i], v[j]) > 0 ==> Le(cmp, dom, v[j], v[i])
    ensures cmp(v[i], v[j]) <= 0 ==> Le(cmp, dom, v[i], v[j])
  {
    LeTotal(cmp, dom, v[..][i], v[..][j]);
  }

  method Swap<T>(v: array<T>, i: nat, j: nat, ghost was: seq<T>, ghost lo: int, ghost hi: int, ghost dom: set<T>)
    requires 0 <= lo <= i < hi <= v.Length && lo <= j < hi && Kept(v, was, lo, hi, dom)
    modifies v
    ensures v[i] == old(v[j]) && v[j] == old(v[i])
    ensures forall k :: 0 <= k < v.Length && k != i && k != j ==> v[k] == old(v[k])
    ensures Kept(v, was, lo, hi, dom)
  {
    ghost var before := v[..];
    SwappedRearranged(before, i, j, lo, hi);
    v[i], v[j] := v[j], v[i];
    assert v[..] == Swapped(before, i, j);
    RearrangedTwice(was, before, v[..], lo, hi);
  }

  // ---------- the networks ----------

  method Sort2<T>(v: array<T>, a: nat, b: nat, cmp: (T, T) -> int,
                  ghost was: seq<T>, ghost lo: int, ghost hi: int, ghost dom: set<T>)
    requires 0 <= lo <= a < b < hi <= v.Length && Kept(v, was, lo, hi, dom)
    modifies v
    ensures Kept(v, was, lo, hi, dom) && Le(cmp, dom, v[a], v[b])
  {
    hide IsPreorder, Kept, Le;
    LeTotalAt(cmp, v, was, lo, hi, dom, a, b);
    if cmp(v[a], v[b]) > 0 {
      Swap(v, a, b, was, lo, hi, dom);
    }
  }

  method Sort3<T>(v: array<T>, a: nat, b: nat, c: nat, cmp: (T, T) -> int,
                  ghost was: seq<T>, ghost lo: int, ghost hi: int, ghost dom: set<T>)
    requires 0 <= lo <= a < b < c < hi <= v.Length && Kept(v, was, lo, hi, dom)
    modifies v
    ensures Kept(v, was, lo, hi, dom) && Le(cmp, dom, v[a], v[b]) && Le(cmp, dom, v[b], v[c])
    ensures forall k :: c < k < v.Length ==> v[k] == old(v[k])
  {
    hide IsPreorder, Kept, Le;
    LeTotalAt(cmp, v, was, lo, hi, dom, a, b);
    LeTotalAt(cmp, v, was, lo, hi, dom, b, c);
    LeTotalAt(cmp, v, was, lo, hi, dom, c, b);
    LeTotalAt(cmp, v, was, lo, hi, dom, a, c);
    if !(cmp(v[a], v[b]) > 0) {
      if !(cmp(v[b], v[c]) > 0) {
        return;
      }
      Swap(v, b, c, was, lo, hi, dom);
      if cmp(v[a], v[b]) > 0 {
        Swap(v, a, b, was, lo, hi, dom);
      }
      return;
    }
    if !(cmp(v[c], v[b]) > 0) {
      Swap(v, a, c, was, lo, hi, dom);
      return;
    }
    Swap(v, a, b, was, lo, hi, dom);
    if cmp(v[b], v[c]) > 0 {
      Swap(v, b, c, was, lo, hi, dom);
    }
  }

  method Sort4<T>(v: array<T>, a: nat, b: nat, c: nat, d: nat, cmp: (T, T) -> int,
                  ghost was: seq<T>, ghost lo: int, ghost hi: int, ghost dom: set<T>)
    requires 0 <= lo <= a < b < c < d < hi <= v.Length && Kept(v, was, lo, hi, dom)
    modifies v
    ensures Kept(v, was, lo, hi, dom)
    ensures Le(cmp, dom, v[a], v[b]) && Le(cmp, dom, v[b], v[c]) && Le(cmp, dom, v[c], v[d])
    ensures forall k :: d < k < v.Length ==> v[k] == old(v[k])
  {
    hide IsPreorder, Kept, Le;
    Sort3(v, a, b, c, cmp, was, lo, hi, dom);
    LeTotalAt(cmp, v, was, lo, hi, dom, c, d);
    LeTotalAt(cmp, v, was, lo, hi, dom, b, d);
    LeTotalAt(cmp, v, was, lo, hi, dom, a, d);
    if cmp(v[c], v[d]) > 0 {
      Swap(v, c, d, was, lo, hi, dom);
      if cmp(v[b], v[c]) > 0 {
        Swap(v, b, c, was, lo, hi, dom);
        if cmp(v[a], v[b]) > 0 {
          Swap(v, a, b, was, lo, hi, dom);
        }
      }
    }
  }

  method Sort5<T>(v: array<T>, a: nat, b: nat, c: nat, d: nat, e: nat, cmp: (T, T) -> int,
                  ghost was: seq<T>, ghost lo: int, ghost hi: int, ghost dom: set<T>)
    requires 0 <= lo <= a < b < c < d < e < hi <= v.Length && Kept(v, was, lo, hi, dom)
    modifies v
    ensures Kept(v, was, lo, hi, dom)
    ensures Le(cmp, dom, v[a], v[b]) && Le(cmp, dom, v[b], v[c]) && Le(cmp, dom, v[c], v[d]) && Le(cmp, dom, v[d], v[e])
  {
    hide IsPreorder, Kept, Le;
    Sort4(v, a, b, c, d, cmp, was, lo, hi, dom);
    LeTotalAt(cmp, v, was, lo, hi, dom, d, e);
    LeTotalAt(cmp, v, was, lo, hi, dom, c, e);
    LeTotalAt(cmp, v, was, lo, hi, dom, b, e);
    LeTotalAt(cmp, v, was, lo, hi, dom, a, e);
    if cmp(v[d], v[e]) > 0 {
      Swap(v, d, e, was, lo, hi, dom);
      if cmp(v[c], v[d]) > 0 {
        Swap(v, c, d, was, lo, hi, dom);
        if cmp(v[b], v[c]) > 0 {
          Swap(v, b, c, was, lo, hi, dom);
          if cmp(v[a], v[b]) > 0 {
            Swap(v, a, b, was, lo, hi, dom);
          }
        }
      }
    }
  }

  // ---------- insertion ----------

  /** `s` with the element at `i` carried down to `j`. */
  function Carried<T>(s: seq<T>, j: nat, i: nat): seq<T>
    requires j <= i < |s|
  {
    s[..j] + [s[i]] + s[j..i] + s[i + 1..]
  }

  /** `rotate_into`: carries the element at `i` down to `j` by swaps of neighbours. */
  method RotateInto<T>(v: array<T>, j: nat, i: nat,
                       ghost was: seq<T>, ghost lo: int, ghost hi: int, ghost dom: set<T>)
    requires 0 <= lo <= j <= i < hi <= v.Length && Kept(v, was, lo, hi, dom)
    modifies v
    ensures v[..] == Carried(old(v[..]), j, i) && Kept(v, was, lo, hi, dom)
  {
    hide Kept;
    var k := i;
    ghost var s := v[..];
    while k > j
      invariant j <= k <= i && v[k] == s[i]
      invariant forall x :: 0 <= x < k || i < x < v.Length ==> v[x] == s[x]
      invariant forall x :: k < x <= i ==> v[x] == s[x - 1]
      invariant Kept(v, was, lo, hi, dom)
    {
      Swap(v, k, k - 1, was, lo, hi, dom);
      k := k - 1;
    }
    CarriedIs(s, v[..], j, i);
  }

  lemma CarriedIs<T>(s: seq<T>, t: seq<T>, j: nat, i: nat)
    requires j <= i < |s| == |t| && t[j] == s[i]
    requires forall x :: 0 <= x < j || i < x < |s| ==> t[x] == s[x]
    requires forall x :: j < x <= i ==> t[x] == s[x - 1]
    ensures t == Carried(s, j, i)
  {
  }

  /** Where the element at `i` belongs among the ascending ones before it. */
  ghost predicate Belongs<T>(cmp: (T, T) -> int, dom: set<T>, s: seq<T>, lo: int, j: int, i: int)
    requires 0 <= lo <= j <= i < |s|
  {
    && (forall k :: lo <= k < j ==> Le(cmp, dom, s[k], s[i]))
    && (forall k :: j <= k < i ==> Le(cmp, dom, s[i], s[k]))
  }

  lemma CarriedAscends<T>(cmp: (T, T) -> int, dom: set<T>, s: seq<T>, lo: nat, j: nat, i: nat)
    requires lo <= j <= i < |s| && Ascends(cmp, dom, s, lo, i) && Belongs(cmp, dom, s, lo, j, i)
    ensures Ascends(cmp, dom, Carried(s, j, i), lo, i + 1)
  {
    hide Le;
    var t := Carried(s, j, i);
    forall x, y | lo <= x < y < i + 1 ensures Le(cmp, dom, t[x], t[y]) {
      assert t[x] == if x < j then s[x] else if x == j then s[i] else s[x - 1];
      assert t[y] == if y < j then s[y] else if y == j then s[i] else s[y - 1];
    }
  }

  /** All before `j` are at most the element at `i` when the one just before `j` is. */
  lemma BelowJoins<T>(cmp: (T, T) -> int, dom: set<T>, s: seq<T>, lo: nat, j: nat, i: nat)
    requires Within(s, dom) && lo < j <= i < |s| && Ascends(cmp, dom, s, lo, i)
    requires Le(cmp, dom, s[j - 1], s[i])
    ensures forall k :: lo <= k < j ==> Le(cmp, dom, s[k], s[i])
  {
    hide IsPreorder, Le;
    forall k | lo <= k < j ensures Le(cmp, dom, s[k], s[i]) {
      if k < j - 1 {
        LeTrans(cmp, dom, s[k], s[j - 1], s[i]);
      }
    }
  }

  /** All from `j` on are at least the element at `i` when the one at `j` is. */
  lemma AboveJoins<T>(cmp: (T, T) -> int, dom: set<T>, s: seq<T>, lo: nat, j: nat, i: nat)
    requires Within(s, dom) && lo <= j < i < |s| && Ascends(cmp, dom, s, lo, i)
    requires Le(cmp, dom, s[i], s[j])
    ensures forall k :: j <= k < i ==> Le(cmp, dom, s[i], s[k])
  {
    hide IsPreorder, Le;
    forall k | j <= k < i ensures Le(cmp, dom, s[i], s[k]) {
      if j < k {
        LeTrans(cmp, dom, s[i], s[j], s[k]);
      }
    }
  }

  /** The search one step at a time, which the first six elements are inserted by. */
  method SearchByOne<T>(v: array<T>, start: nat, i: nat, cmp: (T, T) -> int, ghost dom: set<T>) returns (at: nat)
    requires Within(v[..], dom) && start < i < v.Length && Ascends(cmp, dom, v[..], start, i)
    ensures start <= at <= i && Belongs(cmp, dom, v[..], start, at, i)
  {
    hide IsPreorder, Le, Ascends;
    ghost var s := v[..];
    var j := i - 1;
    LeTotal(cmp, dom, s[j], s[i]);
    if !(cmp(v[j], v[i]) > 0) {
      BelowJoins(cmp, dom, s, start, i, i);
      return i;
    }
    AboveJoins(cmp, dom, s, start, j, i);
    while j != start
      invariant start <= j < i
      invariant forall k :: j <= k < i ==> Le(cmp, dom, s[i], s[k])
    {
      j := j - 1;
      LeTotal(cmp, dom, s[j], s[i]);
      if !(cmp(v[j], v[i]) > 0) {
        j := j + 1;
        BelowJoins(cmp, dom, s, start, j, i);
        return j;
      }
      AboveJoins(cmp, dom, s, start, j, i);
    }
    return j;
  }

  /** The search two steps at a time, which the others are inserted by. */
  method SearchByTwo<T>(v: array<T>, start: nat, i: nat, cmp: (T, T) -> int, ghost dom: set<T>) returns (at: nat)
    requires Within(v[..], dom) && start + 6 <= i < v.Length && Ascends(cmp, dom, v[..], start, i)
    ensures start <= at <= i && Belongs(cmp, dom, v[..], start, at, i)
  {
    hide IsPreorder, Le, Ascends;
    ghost var s := v[..];
    var j := i - 1;
    LeTotal(cmp, dom, s[j], s[i]);
    if !(cmp(v[j], v[i]) > 0) {
      BelowJoins(cmp, dom, s, start, i, i);
      return i;
    }
    AboveJoins(cmp, dom, s, start, j, i);
    while true
      invariant start + 2 <= j < i
      invariant forall k :: j <= k < i ==> Le(cmp, dom, s[i], s[k])
      decreases j
    {
      j := j - 2;
      LeTotal(cmp, dom, s[j], s[i]);
      if !(cmp(v[j], v[i]) > 0) {
        j := j + 1;
        LeTotal(cmp, dom, s[j], s[i]);
        if !(cmp(v[j], v[i]) > 0) {
          j := j + 1;
        } else {
          AboveJoins(cmp, dom, s, start, j, i);
        }
        BelowJoins(cmp, dom, s, start, j, i);
        return j;
      }
      AboveJoins(cmp, dom, s, start, j, i);
      if j == start {
        return j;
      }
      if j == start + 1 {
        j := j - 1;
        LeTotal(cmp, dom, s[i], s[j]);
        if cmp(v[i], v[j]) > 0 {
          j := j + 1;
          BelowJoins(cmp, dom, s, start, j, i);
        } else {
          AboveJoins(cmp, dom, s, start, j, i);
        }
        return j;
      }
    }
  }

  lemma {:induction false} NeighboursAscend<T>(cmp: (T, T) -> int, dom: set<T>, s: seq<T>, lo: nat, hi: nat)
    requires Within(s, dom) && lo <= hi <= |s|
    requires forall k :: lo < k < hi ==> Le(cmp, dom, s[k - 1], s[k])
    ensures Ascends(cmp, dom, s, lo, hi)
  {
    hide IsPreorder, Le;
    if lo + 1 < hi {
      NeighboursAscend(cmp, dom, s, lo, hi - 1);
      forall x | lo <= x < hi - 1 ensures Le(cmp, dom, s[x], s[hi - 1]) {
        if x < hi - 2 {
          LeTrans(cmp, dom, s[x], s[hi - 2], s[hi - 1]);
        }
      }
    }
  }

  /** The networks, for up to five elements. */
  method SortFew<T>(v: array<T>, base: nat, n: nat, cmp: (T, T) -> int, ghost dom: set<T>)
    requires Within(v[..], dom) && n <= 5 && base + n <= v.Length
    modifies v
    ensures Kept(v, old(v[..]), base, base + n, dom) && Ascends(cmp, dom, v[..], base, base + n)
  {
    hide IsPreorder, Kept, Le, Ascends;
    ghost var was := v[..];
    var end := base + n;
    KeptAtFirst(v, base, end, dom);
    if n == 2 {
      Sort2(v, base, base + 1, cmp, was, base, end, dom);
    } else if n == 3 {
      Sort3(v, base, base + 1, base + 2, cmp, was, base, end, dom);
    } else if n == 4 {
      Sort4(v, base, base + 1, base + 2, base + 3, cmp, was, base, end, dom);
    } else if n == 5 {
      Sort5(v, base, base + 1, base + 2, base + 3, base + 4, cmp, was, base, end, dom);
    }
    KeptWithin(v, was, base, end, dom);
    NeighboursAscend(cmp, dom, v[..], base, end);
  }

  /** One element more, searched for by one step at a time or by two. */
  method InsertNext<T>(v: array<T>, base: nat, i: nat, byTwo: bool, cmp: (T, T) -> int,
                       ghost was: seq<T>, ghost hi: int, ghost dom: set<T>)
    requires base < i < hi <= v.Length && (byTwo ==> base + 6 <= i)
    requires Kept(v, was, base, hi, dom) && Ascends(cmp, dom, v[..], base, i)
    modifies v
    ensures Kept(v, was, base, hi, dom) && Ascends(cmp, dom, v[..], base, i + 1)
  {
    hide IsPreorder, Kept, Le, Ascends, Belongs;
    KeptWithin(v, was, base, hi, dom);
    var at;
    if byTwo {
      at := SearchByTwo(v, base, i, cmp, dom);
    } else {
      at := SearchByOne(v, base, i, cmp, dom);
    }
    CarriedAscends(cmp, dom, v[..], base, at, i);
    RotateInto(v, at, i, was, base, hi, dom);
  }

  /** The insertion, for six elements or more. */
  method InsertMany<T>(v: array<T>, base: nat, n: nat, cmp: (T, T) -> int, ghost dom: set<T>)
    requires Within(v[..], dom) && n >= 6 && base + n <= v.Length
    modifies v
    ensures Kept(v, old(v[..]), base, base + n, dom) && Ascends(cmp, dom, v[..], base, base + n)
  {
    hide IsPreorder, Kept, Le, Ascends;
    ghost var was := v[..];
    var end := base + n;
    KeptAtFirst(v, base, end, dom);
    OneAscends(cmp, dom, v[..], base);
    var sentry := base + 6;
    for i := base + 1 to sentry
      invariant Kept(v, was, base, end, dom) && Ascends(cmp, dom, v[..], base, i)
    {
      InsertNext(v, base, i, false, cmp, was, end, dom);
    }
    for i := sentry to end
      invariant Kept(v, was, base, end, dom) && Ascends(cmp, dom, v[..], base, i)
    {
      InsertNext(v, base, i, true, cmp, was, end, dom);
    }
  }

  /** `zend_insert_sort`. */
  method InsertSort<T>(v: array<T>, base: nat, n: nat, cmp: (T, T) -> int, ghost dom: set<T>)
    requires Within(v[..], dom) && base + n <= v.Length
    modifies v
    ensures Kept(v, old(v[..]), base, base + n, dom) && Ascends(cmp, dom, v[..], base, base + n)
  {
    hide Kept, Ascends;
    if n <= 5 {
      SortFew(v, base, n, cmp, dom);
    } else {
      InsertMany(v, base, n, cmp, dom);
    }
  }

  lemma KeptAtFirst<T>(v: array<T>, lo: int, hi: int, dom: set<T>)
    requires Within(v[..], dom) && 0 <= lo <= hi <= v.Length
    ensures Kept(v, v[..], lo, hi, dom)
  {
  }

  lemma KeptWithin<T>(v: array<T>, was: seq<T>, lo: int, hi: int, dom: set<T>)
    requires Kept(v, was, lo, hi, dom)
    ensures Rearranged(was, v[..], lo, hi) && Within(v[..], dom)
  {
  }

  lemma OneAscends<T>(cmp: (T, T) -> int, dom: set<T>, s: seq<T>, lo: nat)
    requires lo < |s|
    ensures Ascends(cmp, dom, s, lo, lo + 1)
  {
  }

  // ---------- the partition ----------

  /** The pivot `p`, from the middle, has an element at most it before it and one at least it at the end. */
  method PlacePivot<T>(v: array<T>, start: nat, n: nat, cmp: (T, T) -> int, ghost was: seq<T>, ghost dom: set<T>)
    requires n > 16 && start + n <= v.Length && Kept(v, was, start, start + n, dom)
    modifies v
    ensures Kept(v, was, start, start + n, dom)
    ensures Le(cmp, dom, v[start], v[start + 1]) && Le(cmp, dom, v[start + 1], v[start + n - 1])
  {
    hide IsPreorder, Kept, Le;
    var end := start + n;
    var offset := n / 2;
    var pivot := start + offset;
    if n / 1024 != 0 {
      var delta := offset / 2;
      Sort5(v, start, start + delta, pivot, pivot + delta, end - 1, cmp, was, start, end, dom);
      LeTransAt(cmp, v, was, start, end, dom, start, start + delta, pivot);
      LeTransAt(cmp, v, was, start, end, dom, pivot, pivot + delta, end - 1);
    } else {
      Sort3(v, start, pivot, end - 1, cmp, was, start, end, dom);
    }
    Swap(v, start + 1, pivot, was, start, end, dom);
  }

  lemma LeTransAt<T>(cmp: (T, T) -> int, v: array<T>, was: seq<T>, lo: int, hi: int, dom: set<T>, i: nat, j: nat,
                     k: nat)
    requires Kept(v, was, lo, hi, dom) && i < v.Length && j < v.Length && k < v.Length
    requires Le(cmp, dom, v[i], v[j]) && Le(cmp, dom, v[j], v[k])
    ensures Le(cmp, dom, v[i], v[k])
  {
    LeTrans(cmp, dom, v[..][i], v[..][j], v[..][k]);
  }

  /** The two cursors meet where the elements at most the pivot end and those at least it begin. */
  method MeetCursors<T>(v: array<T>, start: nat, n: nat, cmp: (T, T) -> int, ghost was: seq<T>, ghost dom: set<T>)
    returns (i: nat)
    requires n > 16 && start + n <= v.Length && Kept(v, was, start, start + n, dom)
    requires Le(cmp, dom, v[start], v[start + 1]) && Le(cmp, dom, v[start + 1], v[start + n - 1])
    modifies v
    ensures Kept(v, was, start, start + n, dom) && start + 2 <= i < start + n
    ensures forall k :: start <= k < i ==> Le(cmp, dom, v[k], v[start + 1])
    ensures forall k :: i <= k < start + n ==> Le(cmp, dom, v[start + 1], v[k])
  {
    hide IsPreorder, Kept, Le;
    var end, pivot := start + n, start + 1;
    var j := end - 1;
    i := pivot + 1;
    LeTotalAt(cmp, v, was, start, end, dom, pivot, pivot);
    while true
      invariant pivot < i < j < end && Kept(v, was, start, end, dom)
      invariant forall k :: start <= k < i ==> Le(cmp, dom, v[k], v[pivot])
      invariant forall k :: j <= k < end ==> Le(cmp, dom, v[pivot], v[k])
      decreases j - i
    {
      while cmp(v[pivot], v[i]) > 0
        invariant pivot < i < j && Kept(v, was, start, end, dom)
        invariant forall k :: start <= k < i ==> Le(cmp, dom, v[k], v[pivot])
        invariant forall k :: j <= k < end ==> Le(cmp, dom, v[pivot], v[k])
        decreases j - i
      {
        LeTotalAt(cmp, v, was, start, end, dom, pivot, i);
        i := i + 1;
        if i == j {
          return;
        }
      }
      LeTotalAt(cmp, v, was, start, end, dom, pivot, i);
      j := j - 1;
      if j == i {
        return;
      }
      while cmp(v[j], v[pivot]) > 0
        invariant i < j < end && Kept(v, was, start, end, dom)
        invariant forall k :: start <= k < i ==> Le(cmp, dom, v[k], v[pivot])
        invariant Le(cmp, dom, v[pivot], v[i]) && forall k :: j < k < end ==> Le(cmp, dom, v[pivot], v[k])
        decreases j
      {
        LeTotalAt(cmp, v, was, start, end, dom, j, pivot);
        j := j - 1;
        if j == i {
          return;
        }
      }
      LeTotalAt(cmp, v, was, start, end, dom, j, pivot);
      Swap(v, i, j, was, start, end, dom);
      i := i + 1;
      if i == j {
        return;
      }
    }
  }

  /** The pivot stands at `m`, with none above it before and none below it after. */
  ghost predicate Parted<T>(cmp: (T, T) -> int, dom: set<T>, s: seq<T>, lo: int, m: int, hi: int)
    requires 0 <= lo <= m < hi <= |s|
  {
    && (forall x :: lo <= x < m ==> Le(cmp, dom, s[x], s[m]))
    && (forall y :: m < y < hi ==> Le(cmp, dom, s[m], s[y]))
  }

  method Partition<T>(v: array<T>, start: nat, n: nat, cmp: (T, T) -> int, ghost dom: set<T>) returns (m: nat)
    requires n > 16 && start + n <= v.Length && Within(v[..], dom)
    modifies v
    ensures Kept(v, old(v[..]), start, start + n, dom)
    ensures start <= m < start + n && Parted(cmp, dom, v[..], start, m, start + n)
  {
    hide IsPreorder, Kept, Le;
    ghost var was := v[..];
    KeptAtFirst(v, start, start + n, dom);
    PlacePivot(v, start, n, cmp, was, dom);
    var i := MeetCursors(v, start, n, cmp, was, dom);
    Swap(v, start + 1, i - 1, was, start, start + n, dom);
    m := i - 1;
  }

  // ---------- the whole sort ----------

  /** From `lo` to `hi` all is in order, but for the stretch from `a` to `b` within itself. */
  ghost predicate Settled<T>(cmp: (T, T) -> int, dom: set<T>, s: seq<T>, lo: int, hi: int, a: int, b: int)
    requires 0 <= lo <= a <= b <= hi <= |s|
  {
    forall x, y :: lo <= x < y < hi && !(a <= x && y < b) ==> Le(cmp, dom, s[x], s[y])
  }

  lemma SettledAtFirst<T>(cmp: (T, T) -> int, dom: set<T>, s: seq<T>, lo: int, hi: int)
    requires 0 <= lo <= hi <= |s|
    ensures Settled(cmp, dom, s, lo, hi, lo, hi)
  {
  }

  lemma SettledKept<T>(cmp: (T, T) -> int, dom: set<T>, s: seq<T>, t: seq<T>, lo: int, hi: int, a: int, b: int)
    requires 0 <= lo <= a <= b <= hi <= |s| && Settled(cmp, dom, s, lo, hi, a, b) && Rearranged(s, t, a, b)
    ensures Settled(cmp, dom, t, lo, hi, a, b)
  {
    hide Le;
    forall x, y | lo <= x < y < hi && !(a <= x && y < b) ensures Le(cmp, dom, t[x], t[y]) {
      if a <= x < b {
        var j := RearrangedFrom(s, t, a, b, x);
        assert Le(cmp, dom, s[j], s[y]);
      } else if a <= y < b {
        var j := RearrangedFrom(s, t, a, b, y);
        assert Le(cmp, dom, s[x], s[j]);
      } else {
        assert Le(cmp, dom, s[x], s[y]);
      }
    }
  }

  lemma PartedKept<T>(cmp: (T, T) -> int, dom: set<T>, s: seq<T>, t: seq<T>, lo: int, m: int, hi: int, a: int, b: int)
    requires 0 <= lo <= m < hi <= |s| && Parted(cmp, dom, s, lo, m, hi) && Rearranged(s, t, a, b)
    requires (a == lo && b == m) || (a == m + 1 && b == hi)
    ensures Parted(cmp, dom, t, lo, m, hi)
  {
    hide Le;
    forall x | lo <= x < m ensures Le(cmp, dom, t[x], t[m]) {
      if b == m {
        var j := RearrangedFrom(s, t, a, b, x);
      }
    }
    forall y | m < y < hi ensures Le(cmp, dom, t[m], t[y]) {
      if a == m + 1 {
        var j := RearrangedFrom(s, t, a, b, y);
      }
    }
  }

  /** Once one side of the pivot ascends, only the other is left. */
  lemma OneSideLeft<T>(cmp: (T, T) -> int, dom: set<T>, s: seq<T>, lo: int, hi: int, a: int, m: int, b: int)
    requires Within(s, dom) && 0 <= lo <= a <= m < b <= hi <= |s|
    requires Settled(cmp, dom, s, lo, hi, a, b) && Parted(cmp, dom, s, a, m, b)
    ensures Ascends(cmp, dom, s, a, m) ==> Settled(cmp, dom, s, lo, hi, m + 1, b)
    ensures Ascends(cmp, dom, s, m + 1, b) ==> Settled(cmp, dom, s, lo, hi, a, m)
  {
    hide Le, IsPreorder;
    forall x, y | a <= x < m < y < b ensures Le(cmp, dom, s[x], s[y]) {
      LeTrans(cmp, dom, s[x], s[m], s[y]);
    }
  }

  lemma SettledAscends<T>(cmp: (T, T) -> int, dom: set<T>, s: seq<T>, lo: int, hi: int, a: int, b: int)
    requires 0 <= lo <= a <= b <= hi <= |s| && Settled(cmp, dom, s, lo, hi, a, b) && Ascends(cmp, dom, s, a, b)
    ensures Ascends(cmp, dom, s, lo, hi)
  {
  }

  /** `sort_range`: recurses into the smaller side of the pivot and goes on with the larger. */
  method SortRange<T>(v: array<T>, base0: nat, n0: nat, cmp: (T, T) -> int, ghost dom: set<T>)
    requires Within(v[..], dom) && base0 + n0 <= v.Length
    modifies v
    ensures Kept(v, old(v[..]), base0, base0 + n0, dom) && Ascends(cmp, dom, v[..], base0, base0 + n0)
    decreases n0
  {
    hide IsPreorder, Kept, Le, Settled, Parted, Ascends, Within, Rearranged;
    ghost var was, lo, hi := v[..], base0, base0 + n0;
    var base: nat, n: nat := base0, n0;
    KeptAtFirst(v, lo, hi, dom);
    SettledAtFirst(cmp, dom, v[..], lo, hi);
    while n > 16
      invariant lo <= base && base + n <= hi && n <= n0
      invariant Kept(v, was, lo, hi, dom) && Settled(cmp, dom, v[..], lo, hi, base, base + n)
      decreases n
    {
      var end := base + n;
      KeptWithin(v, was, lo, hi, dom);
      ghost var s := v[..];
      var m := Partition(v, base, n, cmp, dom);
      WindowKept(v, was, s, lo, hi, base, end, base, end, cmp, dom);
      KeptWithin(v, was, lo, hi, dom);
      ghost var t := v[..];
      if m - base < end - (m + 1) {
        SortRange(v, base, m - base, cmp, dom);
        SideSorted(v, was, t, lo, hi, base, m, end, base, m, cmp, dom);
        base, n := m + 1, end - (m + 1);
      } else {
        SortRange(v, m + 1, end - (m + 1), cmp, dom);
        SideSorted(v, was, t, lo, hi, base, m, end, m + 1, end, cmp, dom);
        n := m - base;
      }
    }
    KeptWithin(v, was, lo, hi, dom);
    ghost var s := v[..];
    InsertSort(v, base, n, cmp, dom);
    WindowKept(v, was, s, lo, hi, base, base + n, base, base + n, cmp, dom);
    SettledAscends(cmp, dom, v[..], lo, hi, base, base + n);
  }

  /** A rearranged stretch of a stretch. */
  lemma WindowKept<T>(v: array<T>, was: seq<T>, s: seq<T>, lo: int, hi: int, a: int, b: int, a': int, b': int,
                      cmp: (T, T) -> int, dom: set<T>)
    requires 0 <= lo <= a <= a' <= b' <= b <= hi <= |s| && Rearranged(was, s, lo, hi) && Kept(v, s, a', b', dom)
    requires Settled(cmp, dom, s, lo, hi, a, b)
    ensures Kept(v, was, lo, hi, dom) && Settled(cmp, dom, v[..], lo, hi, a, b)
  {
    hide Settled, Le, Within;
    RearrangedThen(was, s, v[..], lo, hi, a', b');
    RearrangedWider(s, v[..], a', b', a, b);
    SettledKept(cmp, dom, s, v[..], lo, hi, a, b);
  }

  /** One side of the pivot sorted. */
  lemma SideSorted<T>(v: array<T>, was: seq<T>, t: seq<T>, lo: int, hi: int, base: int, m: int, end: int,
                      a: int, b: int, cmp: (T, T) -> int, dom: set<T>)
    requires 0 <= lo <= base <= m < end <= hi <= |t| && Rearranged(was, t, lo, hi)
    requires Settled(cmp, dom, t, lo, hi, base, end) && Parted(cmp, dom, t, base, m, end)
    requires (a == base && b == m) || (a == m + 1 && b == end)
    requires Kept(v, t, a, b, dom) && Ascends(cmp, dom, v[..], a, b)
    ensures Kept(v, was, lo, hi, dom)
    ensures a == base && b == m ==> Settled(cmp, dom, v[..], lo, hi, m + 1, end)
    ensures a == m + 1 && b == end ==> Settled(cmp, dom, v[..], lo, hi, base, m)
  {
    hide Settled, Le, Parted, Ascends, IsPreorder;
    WindowKept(v, was, t, lo, hi, base, end, a, b, cmp, dom);
    PartedKept(cmp, dom, t, v[..], base, m, end, a, b);
    OneSideLeft(cmp, dom, v[..], lo, hi, base, m, end);
  }

  /**
    `zend_sort`: under any comparator it ends, within the array's bounds, with the elements it began with, and under
    a total preorder of them in non-descending order.
  */
  method Sort<T>(v: array<T>, cmp: (T, T) -> int, ghost dom: set<T>)
    requires Within(v[..], dom)
    modifies v
    ensures multiset(v[..]) == multiset(old(v[..]))
    ensures IsPreorder(cmp, dom) ==> Ascending(cmp, v[..])
  {
    hide IsPreorder, Within;
    ghost var was := v[..];
    SortRange(v, 0, v.Length, cmp, dom);
    assert was[0..v.Length] == was && v[..][0..v.Length] == v[..];
  }

  // ---------- ties ----------

  ghost predicate NoRepeats<T>(s: seq<T>) {
    forall i, j :: 0 <= i < j < |s| ==> s[i] != s[j]
  }

  lemma {:induction false} CountOnce<T>(s: seq<T>, x: T)
    requires NoRepeats(s)
    ensures multiset(s)[x] <= 1
  {
    if s != [] {
      var k := |s| - 1;
      CountOnce(s[..k], x);
      assert s == s[..k] + [s[k]];
    }
  }

  lemma CountTwice<T>(s: seq<T>, i: nat, j: nat)
    requires i < j < |s| && s[i] == s[j]
    ensures multiset(s)[s[i]] >= 2
  {
    assert s == s[..j] + [s[j]] + s[j + 1..];
    assert s[..j][i] in multiset(s[..j]);
  }

  lemma RearrangedNoRepeats<T>(s: seq<T>, t: seq<T>)
    requires multiset(s) == multiset(t) && NoRepeats(s)
    ensures NoRepeats(t) && |t| == |s|
  {
    assert |multiset(s)| == |s| && |multiset(t)| == |t|;
    forall i, j | 0 <= i < j < |t| ensures t[i] != t[j] {
      if t[i] == t[j] {
        CountTwice(t, i, j);
        CountOnce(s, t[i]);
      }
    }
  }

  lemma RearrangedMembers<T>(s: seq<T>, t: seq<T>)
    requires multiset(s) == multiset(t)
    ensures forall x :: x in s <==> x in t
  {
    forall x ensures x in s <==> x in t {
      assert x in s <==> x in multiset(s);
      assert x in t <==> x in multiset(t);
    }
  }

  /** An element and the place it began at. */
  datatype Tagged<T> = Tagged(at: nat, item: T)

  function ByTag<T>(cmp: (T, T) -> int): (Tagged<T>, Tagged<T>) -> int {
    (x: Tagged<T>, y: Tagged<T>) =>
      var r := cmp(x.item, y.item);
      if r != 0 then r else if x.at < y.at then -1 else if x.at == y.at then 0 else 1
  }

  /** `out` is `v` rearranged: `from` says where each element was. */
  ghost predicate IsTakenFrom<T>(v: seq<T>, out: seq<T>, from: seq<nat>) {
    && |out| == |from| == |v| && NoRepeats(from)
    && (forall k :: 0 <= k < |v| ==> from[k] < |v| && out[k] == v[from[k]])
  }

  /** In non-descending order, and equal elements in the order they had. */
  ghost predicate AscendsStably<T>(cmp: (T, T) -> int, out: seq<T>, from: seq<nat>)
    requires |out| == |from|
  {
    forall x, y :: 0 <= x < y < |out| ==>
      cmp(out[x], out[y]) < 0 || (cmp(out[x], out[y]) == 0 && from[x] < from[y])
  }

  ghost function Tags<T>(v: seq<T>): (dom: set<Tagged<T>>)
    ensures forall k :: 0 <= k < |v| ==> Tagged(k, v[k]) in dom
    ensures forall x :: x in dom ==> x.at < |v| && x.item == v[x.at]
  {
    set k | 0 <= k < |v| :: Tagged(k, v[k])
  }

  lemma ByTagIsPreorder<T>(cmp: (T, T) -> int, v: seq<T>)
    requires IsPreorder(cmp, set x | x in v)
    ensures IsPreorder(ByTag(cmp), Tags(v))
  {
  }

  /** `zend_sort_stable`: ties are broken by the original position. */
  method SortStable<T(==)>(v: seq<T>, cmp: (T, T) -> int) returns (out: seq<T>, ghost from: seq<nat>)
    ensures IsTakenFrom(v, out, from)
    ensures IsPreorder(cmp, set x | x in v) ==> AscendsStably(cmp, out, from)
  {
    hide IsPreorder, Ascending, IsTakenFrom, AscendsStably;
    var tagged := new Tagged<T>[|v|](i requires 0 <= i < |v| => Tagged(i, v[i]));
    ghost var was := tagged[..];
    Sort(tagged, ByTag(cmp), Tags(v));
    out := [];
    for i := 0 to tagged.Length
      invariant |out| == i && forall k :: 0 <= k < i ==> out[k] == tagged[k].item
    {
      out := out + [tagged[i].item];
    }
    ghost var sorted := tagged[..];
    from := seq(|v|, k requires 0 <= k < |v| => sorted[k].at);
    StableByTag(cmp, v, was, sorted, out, from);
    if IsPreorder(cmp, set x | x in v) {
      ByTagIsPreorder(cmp, v);
    }
  }

  lemma StableByTag<T>(cmp: (T, T) -> int, v: seq<T>, was: seq<Tagged<T>>, t: seq<Tagged<T>>,
                       out: seq<T>, from: seq<nat>)
    requires |was| == |v| && forall k :: 0 <= k < |v| ==> was[k] == Tagged(k, v[k])
    requires multiset(t) == multiset(was)
    requires |out| == |from| == |t| && forall k :: 0 <= k < |t| ==> out[k] == t[k].item && from[k] == t[k].at
    ensures IsTakenFrom(v, out, from)
    ensures Ascending(ByTag(cmp), t) ==> AscendsStably(cmp, out, from)
  {
    RearrangedNoRepeats(was, t);
    RearrangedMembers(was, t);
    forall k | 0 <= k < |t| ensures from[k] < |v| && t[k] == Tagged(from[k], v[from[k]]) {
      assert t[k] in was;
    }
    forall x, y | 0 <= x < y < |v| ensures from[x] != from[y] {
      assert t[x] != t[y];
    }
    if Ascending(ByTag(cmp), t) {
      forall x, y | 0 <= x < y < |out|
        ensures cmp(out[x], out[y]) < 0 || (cmp(out[x], out[y]) == 0 && from[x] < from[y])
      {
        assert ByTag(cmp)(t[x], t[y]) <= 0;
      }
    }
  }
}
