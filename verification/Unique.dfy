/** `array_unique` under a comparison flag: the walk over the sorted elements in `php_array_unique` of
    `src/builtins.rs`. */
module Unique {
  import ZendSort

  /** An array element: its key and its value. */
  datatype Pair<K, V> = Pair(key: K, value: V)

  /** `cmp` orders the elements: it is reflexive, the two ways of asking agree, and it is transitive. */
  ghost predicate IsPreorder<K, V>(pairs: seq<Pair<K, V>>, cmp: (V, V) -> int) {
    && (forall i :: 0 <= i < |pairs| ==> Cmp(pairs, cmp, i, i) == 0)
    && (forall i, j :: 0 <= i < |pairs| && 0 <= j < |pairs| ==>
         (Cmp(pairs, cmp, i, j) < 0 <==> Cmp(pairs, cmp, j, i) > 0))
    && (forall i, j, k :: 0 <= i < |pairs| && 0 <= j < |pairs| && 0 <= k < |pairs| ==>
         (Cmp(pairs, cmp, i, j) <= 0 && Cmp(pairs, cmp, j, k) <= 0 ==> Cmp(pairs, cmp, i, k) <= 0))
  }

  lemma Flip<K, V>(pairs: seq<Pair<K, V>>, cmp: (V, V) -> int, i: nat, j: nat)
    requires IsPreorder(pairs, cmp) && i < |pairs| && j < |pairs|
    ensures Cmp(pairs, cmp, i, j) < 0 <==> Cmp(pairs, cmp, j, i) > 0
    ensures Cmp(pairs, cmp, i, j) > 0 <==> Cmp(pairs, cmp, j, i) < 0
    ensures Cmp(pairs, cmp, i, i) == 0
  {
  }

  lemma Trans<K, V>(pairs: seq<Pair<K, V>>, cmp: (V, V) -> int, i: nat, j: nat, k: nat)
    requires IsPreorder(pairs, cmp) && i < |pairs| && j < |pairs| && k < |pairs|
    requires Cmp(pairs, cmp, i, j) <= 0 && Cmp(pairs, cmp, j, k) <= 0
    ensures Cmp(pairs, cmp, i, k) <= 0
  {
  }

  lemma EqualTrans<K, V>(pairs: seq<Pair<K, V>>, cmp: (V, V) -> int, i: nat, j: nat, k: nat)
    requires IsPreorder(pairs, cmp) && i < |pairs| && j < |pairs| && k < |pairs|
    requires Cmp(pairs, cmp, i, j) == 0 && Cmp(pairs, cmp, j, k) == 0
    ensures Cmp(pairs, cmp, i, k) == 0
  {
    hide IsPreorder, Cmp;
    Flip(pairs, cmp, i, j);
    Flip(pairs, cmp, j, k);
    Flip(pairs, cmp, i, k);
    Trans(pairs, cmp, i, j, k);
    Trans(pairs, cmp, k, j, i);
  }

  function Cmp<K, V>(pairs: seq<Pair<K, V>>, cmp: (V, V) -> int, i: int, j: int): int
    requires 0 <= i < |pairs| && 0 <= j < |pairs|
  {
    cmp(pairs[i].value, pairs[j].value)
  }

  /** What any sort leaves, stable or not: every position once, in non-descending order. */
  ghost predicate IsSortedOrder<K, V>(pairs: seq<Pair<K, V>>, cmp: (V, V) -> int, order: seq<nat>) {
    && |order| == |pairs|
    && (forall m :: 0 <= m < |order| ==> order[m] < |pairs|)
    && (forall i :: 0 <= i < |pairs| ==> i in order)
    && (forall m, n :: 0 <= m < n < |order| ==> order[m] != order[n])
    && (forall m, n :: 0 <= m < n < |order| ==> Cmp(pairs, cmp, order[m], order[n]) <= 0)
  }

  /** Whether an element before `i`, among the positions in `seen`, equals it. */
  ghost predicate HasEarlier<K, V>(pairs: seq<Pair<K, V>>, cmp: (V, V) -> int, seen: seq<nat>, i: nat)
    requires i < |pairs|
  {
    exists j :: j in seen && j < i && Cmp(pairs, cmp, j, i) == 0
  }

  predicate IsRepeat<K, V>(pairs: seq<Pair<K, V>>, cmp: (V, V) -> int, i: nat)
    requires i < |pairs|
  {
    exists j :: 0 <= j < i && Cmp(pairs, cmp, j, i) == 0
  }

  /** The elements among the first `n` that equal no earlier one, in input order. */
  function Firsts<K, V>(pairs: seq<Pair<K, V>>, cmp: (V, V) -> int, n: nat): seq<Pair<K, V>>
    requires n <= |pairs|
  {
    if n == 0 then []
    else Firsts(pairs, cmp, n - 1) + (if IsRepeat(pairs, cmp, n - 1) then [] else [pairs[n - 1]])
  }

  /** The walk's state once the first `m` positions in sorted order were seen, `last` being the kept
      element of the run that is under way. */
  ghost predicate Walked<K, V>(pairs: seq<Pair<K, V>>, cmp: (V, V) -> int, order: seq<nat>, keep: seq<bool>, m: nat,
                               last: nat)
    requires IsSortedOrder(pairs, cmp, order)
  {
    && 1 <= m <= |order| && |keep| == |pairs| && last < |pairs|
    && last in order[..m] && Cmp(pairs, cmp, last, order[m - 1]) == 0
    && (forall j :: j in order[..m] && Cmp(pairs, cmp, j, last) == 0 ==> last <= j)
    && (forall i :: 0 <= i < |pairs| ==> (keep[i] <==> !(i in order[..m] && HasEarlier(pairs, cmp, order[..m], i))))
  }

  /** An element seen before that equals the next one is of the run under way, and so is the next one. */
  lemma RunsAreContiguous<K, V>(pairs: seq<Pair<K, V>>, cmp: (V, V) -> int, order: seq<nat>, m: nat, last: nat, j: nat)
    requires IsPreorder(pairs, cmp) && IsSortedOrder(pairs, cmp, order)
    requires 1 <= m < |order| && last < |pairs| && Cmp(pairs, cmp, last, order[m - 1]) == 0 && j in order[..m]
    ensures Cmp(pairs, cmp, j, order[m]) == 0 ==> Cmp(pairs, cmp, last, order[m]) == 0 && Cmp(pairs, cmp, j, last) == 0
  {
    hide IsPreorder, Cmp;
    var prev, cur := order[m - 1], order[m];
    var n :| 0 <= n < m && order[n] == j;
    Flip(pairs, cmp, j, j);
    assert Cmp(pairs, cmp, j, prev) <= 0 && Cmp(pairs, cmp, prev, cur) <= 0;
    if Cmp(pairs, cmp, j, cur) == 0 {
      Flip(pairs, cmp, j, cur);
      Flip(pairs, cmp, j, prev);
      Flip(pairs, cmp, last, prev);
      Trans(pairs, cmp, prev, cur, j);
      EqualTrans(pairs, cmp, j, prev, last);
      Flip(pairs, cmp, j, last);
      EqualTrans(pairs, cmp, last, j, cur);
    }
  }

  lemma SeenOneMore<K, V>(pairs: seq<Pair<K, V>>, cmp: (V, V) -> int, seen: seq<nat>, cur: nat, i: nat)
    requires i < |pairs| && cur < |pairs| && forall j :: j in seen ==> j < |pairs|
    ensures HasEarlier(pairs, cmp, seen + [cur], i) <==>
            HasEarlier(pairs, cmp, seen, i) || (cur < i && Cmp(pairs, cmp, cur, i) == 0)
  {
    if HasEarlier(pairs, cmp, seen, i) {
      var j :| j in seen && j < i && Cmp(pairs, cmp, j, i) == 0;
      assert j in seen + [cur];
    }
    if cur < i && Cmp(pairs, cmp, cur, i) == 0 {
      assert cur in seen + [cur];
    }
  }

  /** Of the elements seen, those equal to the next one: none if a new run begins, and else the run under
      way, of which all but `last` were dropped already. */
  lemma EqualToNext<K, V>(pairs: seq<Pair<K, V>>, cmp: (V, V) -> int, order: seq<nat>, keep: seq<bool>, m: nat,
                          last: nat, i: nat)
    requires IsPreorder(pairs, cmp) && IsSortedOrder(pairs, cmp, order)
    requires Walked(pairs, cmp, order, keep, m, last) && m < |order| && i in order[..m]
    requires Cmp(pairs, cmp, i, order[m]) == 0 || Cmp(pairs, cmp, order[m], i) == 0
    ensures i < |pairs| && Cmp(pairs, cmp, last, order[m]) == 0 && last <= i
    ensures i != last ==> HasEarlier(pairs, cmp, order[..m], i)
  {
    hide IsPreorder, Cmp;
    Flip(pairs, cmp, i, order[m]);
    RunsAreContiguous(pairs, cmp, order, m, last, i);
    Flip(pairs, cmp, i, last);
  }

  /** What the next element adds to the walk: who has an earlier equal now, and how it stands to `last`. */
  lemma NextInWalk<K, V>(pairs: seq<Pair<K, V>>, cmp: (V, V) -> int, order: seq<nat>, keep: seq<bool>, m: nat,
                         last: nat)
    requires IsPreorder(pairs, cmp) && IsSortedOrder(pairs, cmp, order)
    requires Walked(pairs, cmp, order, keep, m, last) && m < |order|
    ensures var cur, seen := order[m], order[..m];
      && order[..m + 1] == seen + [cur] && cur !in seen && Cmp(pairs, cmp, cur, cur) == 0
      && (Cmp(pairs, cmp, last, cur) == 0 <==> Cmp(pairs, cmp, cur, last) == 0)
      && (HasEarlier(pairs, cmp, seen, cur) <==> last < cur && Cmp(pairs, cmp, last, cur) == 0)
      && (forall i :: 0 <= i < |pairs| ==>
            (HasEarlier(pairs, cmp, seen + [cur], i) <==>
             HasEarlier(pairs, cmp, seen, i) || (cur < i && Cmp(pairs, cmp, cur, i) == 0)))
      && (forall i :: i in seen && (Cmp(pairs, cmp, i, cur) == 0 || Cmp(pairs, cmp, cur, i) == 0) ==>
            Cmp(pairs, cmp, last, cur) == 0 && last <= i && (i != last ==> HasEarlier(pairs, cmp, seen, i)))
  {
    hide IsPreorder, Cmp, HasEarlier;
    var cur, seen := order[m], order[..m];
    assert order[..m + 1] == seen + [cur] && cur !in seen;
    Flip(pairs, cmp, cur, cur);
    Flip(pairs, cmp, last, cur);
    forall i | 0 <= i < |pairs|
      ensures HasEarlier(pairs, cmp, seen + [cur], i) <==>
              HasEarlier(pairs, cmp, seen, i) || (cur < i && Cmp(pairs, cmp, cur, i) == 0)
    {
      SeenOneMore(pairs, cmp, seen, cur, i);
    }
    forall i | i in seen && (Cmp(pairs, cmp, i, cur) == 0 || Cmp(pairs, cmp, cur, i) == 0)
      ensures Cmp(pairs, cmp, last, cur) == 0 && last <= i && (i != last ==> HasEarlier(pairs, cmp, seen, i))
    {
      EqualToNext(pairs, cmp, order, keep, m, last, i);
    }
    NextHasEarlier(pairs, cmp, seen, last, cur);
  }

  /** The elements seen that equal the next one are those that equal `last`, if it does. */
  lemma SameRun<K, V>(pairs: seq<Pair<K, V>>, cmp: (V, V) -> int, seen: seq<nat>, last: nat, cur: nat, i: nat)
    requires IsPreorder(pairs, cmp) && last < |pairs| && cur < |pairs| && i < |pairs|
    requires Cmp(pairs, cmp, last, cur) == 0
    ensures Cmp(pairs, cmp, i, last) == 0 <==> Cmp(pairs, cmp, i, cur) == 0
  {
    hide IsPreorder, Cmp;
    Flip(pairs, cmp, last, cur);
    if Cmp(pairs, cmp, i, last) == 0 {
      EqualTrans(pairs, cmp, i, last, cur);
    } else if Cmp(pairs, cmp, i, cur) == 0 {
      EqualTrans(pairs, cmp, i, cur, last);
    }
  }

  lemma NewRun<K, V>(pairs: seq<Pair<K, V>>, cmp: (V, V) -> int, order: seq<nat>, keep: seq<bool>, m: nat, last: nat)
    requires IsPreorder(pairs, cmp) && IsSortedOrder(pairs, cmp, order)
    requires Walked(pairs, cmp, order, keep, m, last) && m < |order| && Cmp(pairs, cmp, last, order[m]) != 0
    ensures Walked(pairs, cmp, order, keep, m + 1, order[m])
  {
    hide IsPreorder, Cmp, HasEarlier;
    NextInWalk(pairs, cmp, order, keep, m, last);
  }

  lemma EarlierOfRun<K, V>(pairs: seq<Pair<K, V>>, cmp: (V, V) -> int, order: seq<nat>, keep: seq<bool>, m: nat,
                           last: nat)
    requires IsPreorder(pairs, cmp) && IsSortedOrder(pairs, cmp, order)
    requires Walked(pairs, cmp, order, keep, m, last) && m < |order|
    requires Cmp(pairs, cmp, last, order[m]) == 0 && last > order[m]
    ensures Walked(pairs, cmp, order, keep[last := false], m + 1, order[m])
  {
    hide IsPreorder, Cmp, HasEarlier;
    NextInWalk(pairs, cmp, order, keep, m, last);
  }

  lemma LaterOfRun<K, V>(pairs: seq<Pair<K, V>>, cmp: (V, V) -> int, order: seq<nat>, keep: seq<bool>, m: nat,
                         last: nat)
    requires IsPreorder(pairs, cmp) && IsSortedOrder(pairs, cmp, order)
    requires Walked(pairs, cmp, order, keep, m, last) && m < |order|
    requires Cmp(pairs, cmp, last, order[m]) == 0 && last <= order[m]
    ensures Walked(pairs, cmp, order, keep[order[m] := false], m + 1, last)
  {
    hide IsPreorder, Cmp, HasEarlier;
    NextInWalk(pairs, cmp, order, keep, m, last);
    forall i | i in order[..m] ensures Cmp(pairs, cmp, i, last) == 0 <==> Cmp(pairs, cmp, i, order[m]) == 0 {
      SameRun(pairs, cmp, order[..m], last, order[m], i);
    }
  }

  /** The walk takes one element more. */
  lemma WalkStep<K, V>(pairs: seq<Pair<K, V>>, cmp: (V, V) -> int, order: seq<nat>, keep: seq<bool>, m: nat, last: nat)
    requires IsPreorder(pairs, cmp) && IsSortedOrder(pairs, cmp, order)
    requires Walked(pairs, cmp, order, keep, m, last) && m < |order|
    ensures var cur := order[m];
      if Cmp(pairs, cmp, last, cur) != 0 then Walked(pairs, cmp, order, keep, m + 1, cur)
      else if last > cur then Walked(pairs, cmp, order, keep[last := false], m + 1, cur)
      else Walked(pairs, cmp, order, keep[cur := false], m + 1, last)
  {
    hide IsPreorder, Cmp, HasEarlier, IsSortedOrder;
    WalkedBounds(pairs, cmp, order, keep, m, last);
    if Cmp(pairs, cmp, last, order[m]) != 0 {
      NewRun(pairs, cmp, order, keep, m, last);
    } else if last > order[m] {
      EarlierOfRun(pairs, cmp, order, keep, m, last);
    } else {
      LaterOfRun(pairs, cmp, order, keep, m, last);
    }
  }

  lemma WalkedBounds<K, V>(pairs: seq<Pair<K, V>>, cmp: (V, V) -> int, order: seq<nat>, keep: seq<bool>, m: nat,
                           last: nat)
    requires IsSortedOrder(pairs, cmp, order) && Walked(pairs, cmp, order, keep, m, last) && m < |order|
    ensures last < |pairs| == |keep| && order[m] < |pairs|
  {
  }

  lemma NextHasEarlier<K, V>(pairs: seq<Pair<K, V>>, cmp: (V, V) -> int, seen: seq<nat>, last: nat, cur: nat)
    requires cur < |pairs| && last in seen && forall j :: j in seen ==> j < |pairs|
    requires forall i :: i in seen && Cmp(pairs, cmp, i, cur) == 0 ==> last <= i && Cmp(pairs, cmp, last, cur) == 0
    ensures HasEarlier(pairs, cmp, seen, cur) <==> last < cur && Cmp(pairs, cmp, last, cur) == 0
  {
  }

  /** One turn of the walk: of two equal elements it drops the later, and goes on from the earlier. */
  method WalkNext<K, V>(pairs: seq<Pair<K, V>>, cmp: (V, V) -> int, order: seq<nat>, keep: array<bool>, m: nat,
                        last: nat) returns (next: nat)
    requires IsPreorder(pairs, cmp) && IsSortedOrder(pairs, cmp, order)
    requires Walked(pairs, cmp, order, keep[..], m, last) && m < |order|
    modifies keep
    ensures Walked(pairs, cmp, order, keep[..], m + 1, next)
  {
    hide IsPreorder, IsSortedOrder, Walked;
    var cur := order[m];
    ghost var before := keep[..];
    WalkedBounds(pairs, cmp, order, before, m, last);
    WalkStep(pairs, cmp, order, before, m, last);
    if cmp(pairs[last].value, pairs[cur].value) != 0 {
      return cur;
    } else if last > cur {
      keep[last] := false;
      assert keep[..] == before[last := false];
      return cur;
    } else {
      keep[cur] := false;
      assert keep[..] == before[cur := false];
      return last;
    }
  }

  /** The walk over any sorted order keeps exactly the elements that equal no earlier one, in input order. */
  method WalkSorted<K, V>(pairs: seq<Pair<K, V>>, cmp: (V, V) -> int, order: seq<nat>) returns (out: seq<Pair<K, V>>)
    requires IsPreorder(pairs, cmp) && IsSortedOrder(pairs, cmp, order)
    ensures out == Firsts(pairs, cmp, |pairs|)
  {
    var keep := new bool[|pairs|](_ => true);
    MarkRepeats(pairs, cmp, order, keep);
    out := [];
    for i := 0 to |pairs|
      invariant out == Firsts(pairs, cmp, i)
    {
      if keep[i] {
        out := out + [pairs[i]];
      }
    }
  }

  /** Walks `order` and unmarks the elements that equal an earlier one. */
  method MarkRepeats<K, V>(pairs: seq<Pair<K, V>>, cmp: (V, V) -> int, order: seq<nat>, keep: array<bool>)
    requires IsPreorder(pairs, cmp) && IsSortedOrder(pairs, cmp, order)
    requires keep.Length == |pairs| && forall k :: 0 <= k < |pairs| ==> keep[k]
    modifies keep
    ensures forall k :: 0 <= k < |pairs| ==> (keep[k] <==> !IsRepeat(pairs, cmp, k))
  {
    assert |order| == |pairs|;
    hide IsPreorder, HasEarlier, IsSortedOrder, Walked, IsRepeat;
    if order != [] {
      var last := order[0];
      FirstWalked(pairs, cmp, order, keep[..]);
      for m := 1 to |order|
        invariant Walked(pairs, cmp, order, keep[..], m, last)
      {
        last := WalkNext(pairs, cmp, order, keep, m, last);
      }
      AllWalked(pairs, cmp, order, keep[..], last);
    }
  }

  /** Sorts the positions by `zend_sort`, which is not stable, and walks them. */
  method ArrayUnique<K, V>(pairs: seq<Pair<K, V>>, cmp: (V, V) -> int) returns (out: seq<Pair<K, V>>)
    requires IsPreorder(pairs, cmp)
    ensures out == Firsts(pairs, cmp, |pairs|)
  {
    hide IsPreorder;
    var order := new nat[|pairs|](i => i);
    ghost var was := order[..];
    PositionsOrdered(pairs, cmp, was);
    ZendSort.Sort(order, ByPosition(pairs, cmp), set i | i in was);
    SortedPositions(pairs, cmp, was, order[..]);
    out := WalkSorted(pairs, cmp, order[..]);
  }

  function ByPosition<K, V>(pairs: seq<Pair<K, V>>, cmp: (V, V) -> int): (nat, nat) -> int {
    (i: nat, j: nat) => if i < |pairs| && j < |pairs| then cmp(pairs[i].value, pairs[j].value) else 0
  }

  lemma PositionsOrdered<K, V>(pairs: seq<Pair<K, V>>, cmp: (V, V) -> int, was: seq<nat>)
    requires IsPreorder(pairs, cmp) && |was| == |pairs| && forall i :: 0 <= i < |was| ==> was[i] == i
    ensures ZendSort.IsPreorder(ByPosition(pairs, cmp), set i | i in was)
  {
    hide IsPreorder;
    forall i: nat, j: nat | i < |pairs| && j < |pairs|
      ensures ByPosition(pairs, cmp)(i, j) == Cmp(pairs, cmp, i, j)
      ensures Cmp(pairs, cmp, i, j) > 0 <==> Cmp(pairs, cmp, j, i) < 0
    {
      Flip(pairs, cmp, i, j);
    }
    forall i: nat, j: nat, k: nat | i < |pairs| && j < |pairs| && k < |pairs| &&
        Cmp(pairs, cmp, i, j) <= 0 && Cmp(pairs, cmp, j, k) <= 0
      ensures Cmp(pairs, cmp, i, k) <= 0
    {
      Trans(pairs, cmp, i, j, k);
    }
  }

  lemma SortedPositions<K, V>(pairs: seq<Pair<K, V>>, cmp: (V, V) -> int, was: seq<nat>, order: seq<nat>)
    requires |was| == |pairs| && forall i :: 0 <= i < |was| ==> was[i] == i
    requires multiset(order) == multiset(was) && ZendSort.Ascending(ByPosition(pairs, cmp), order)
    ensures IsSortedOrder(pairs, cmp, order)
  {
    ZendSort.RearrangedNoRepeats(was, order);
    ZendSort.RearrangedMembers(was, order);
    forall m | 0 <= m < |order| ensures order[m] < |pairs| {
      assert order[m] in was;
    }
    forall i | 0 <= i < |pairs| ensures i in order {
      assert was[i] in was;
    }
    forall m, n | 0 <= m < n < |order| ensures Cmp(pairs, cmp, order[m], order[n]) <= 0 {
      assert ByPosition(pairs, cmp)(order[m], order[n]) <= 0;
    }
  }

  lemma FirstWalked<K, V>(pairs: seq<Pair<K, V>>, cmp: (V, V) -> int, order: seq<nat>, keep: seq<bool>)
    requires IsPreorder(pairs, cmp) && IsSortedOrder(pairs, cmp, order) && order != []
    requires |keep| == |pairs| && forall i :: 0 <= i < |keep| ==> keep[i]
    ensures Walked(pairs, cmp, order, keep, 1, order[0])
  {
    assert order[..1] == [order[0]];
  }

  lemma AllWalked<K, V>(pairs: seq<Pair<K, V>>, cmp: (V, V) -> int, order: seq<nat>, keep: seq<bool>, last: nat)
    requires IsSortedOrder(pairs, cmp, order) && Walked(pairs, cmp, order, keep, |order|, last)
    ensures forall k :: 0 <= k < |pairs| ==> (keep[k] <==> !IsRepeat(pairs, cmp, k))
  {
    assert order[..|order|] == order;
    forall k | 0 <= k < |pairs| ensures HasEarlier(pairs, cmp, order, k) <==> IsRepeat(pairs, cmp, k) {
      if IsRepeat(pairs, cmp, k) {
        var j :| 0 <= j < k && Cmp(pairs, cmp, j, k) == 0;
        assert j in order;
      }
    }
  }

  /** Every element equals one that is kept, at its position or before it. */
  lemma {:induction false} EveryElementIsRepresented<K, V>(pairs: seq<Pair<K, V>>, cmp: (V, V) -> int, i: nat)
    returns (k: nat)
    requires IsPreorder(pairs, cmp) && i < |pairs|
    ensures k <= i && Cmp(pairs, cmp, k, i) == 0 && !IsRepeat(pairs, cmp, k)
    ensures pairs[k] in Firsts(pairs, cmp, |pairs|)
  {
    hide IsPreorder, Cmp;
    if IsRepeat(pairs, cmp, i) {
      var j :| 0 <= j < i && Cmp(pairs, cmp, j, i) == 0;
      k := EveryElementIsRepresented(pairs, cmp, j);
      EqualTrans(pairs, cmp, k, j, i);
    } else {
      k := i;
      Flip(pairs, cmp, i, i);
      FirstIsKept(pairs, cmp, i, |pairs|);
    }
  }

  lemma {:induction false} FirstIsKept<K, V>(pairs: seq<Pair<K, V>>, cmp: (V, V) -> int, i: nat, n: nat)
    requires i < n <= |pairs| && !IsRepeat(pairs, cmp, i)
    ensures pairs[i] in Firsts(pairs, cmp, n)
  {
    if i < n - 1 {
      FirstIsKept(pairs, cmp, i, n - 1);
    }
  }
}
