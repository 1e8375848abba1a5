/** The value of a two-level bucket structure: a sequence of slots, each slot a sequence of
    chains. Reading it from the highest chain down to the lowest is the order of a dump. */
module Buckets {

  /** The chains of slot with an index below n, the highest first. */
  function Down<T>(slot: seq<seq<T>>, n: nat): seq<T>
    requires n <= |slot|
  {
    if n == 0 then [] else slot[n - 1] + Down(slot, n - 1)
  }

  /** The slots with an index below n, the highest first. */
  function DownAll<T>(slots: seq<seq<seq<T>>>, n: nat): seq<T>
    requires n <= |slots|
  {
    if n == 0 then [] else Down(slots[n - 1], |slots[n - 1]|) + DownAll(slots, n - 1)
  }

  /** One chain further down a dump. */
  lemma DownStep<T>(dumped: seq<T>, slot: seq<seq<T>>, l: nat)
    requires l < |slot|
    ensures dumped + Down(slot, l + 1) == dumped + slot[l] + Down(slot, l)
  {
  }

  /** One slot further down a dump. */
  lemma DownAllStep<T>(dumped: seq<T>, slots: seq<seq<seq<T>>>, t: nat)
    requires t < |slots|
    ensures dumped + DownAll(slots, t + 1) == dumped + Down(slots[t], |slots[t]|) + DownAll(slots, t)
  {
  }

  /** The end of a dump. */
  lemma NothingBelow<T>(dumped: seq<T>, slots: seq<seq<seq<T>>>)
    ensures dumped + DownAll(slots, 0) == dumped
  {
  }

  /** Chains that are replaced at or above n are not seen. */
  lemma {:induction false} DownSame<T>(a: seq<seq<T>>, b: seq<seq<T>>, n: nat)
    requires n <= |a| && n <= |b|
    requires forall l :: 0 <= l < n ==> a[l] == b[l]
    ensures Down(a, n) == Down(b, n)
  {
    if n > 0 {
      DownSame(a, b, n - 1);
    }
  }

  lemma {:induction false} DownAllSame<T>(a: seq<seq<seq<T>>>, b: seq<seq<seq<T>>>, n: nat)
    requires n <= |a| && n <= |b|
    requires forall t :: 0 <= t < n ==> a[t] == b[t]
    ensures DownAll(a, n) == DownAll(b, n)
  {
    if n > 0 {
      DownAllSame(a, b, n - 1);
    }
  }

  /** Replacing one chain changes the number of items by the difference of the two chains. */
  lemma {:induction false} DownUpdateSize<T>(slot: seq<seq<T>>, l: nat, chain: seq<T>, n: nat)
    requires l < n <= |slot|
    ensures |Down(slot[l := chain], n)| == |Down(slot, n)| - |slot[l]| + |chain|
  {
    if n == l + 1 {
      DownSame(slot, slot[l := chain], l);
    } else {
      DownUpdateSize(slot, l, chain, n - 1);
    }
  }

  lemma {:induction false} DownAllUpdateSize<T>(slots: seq<seq<seq<T>>>, t: nat, slot: seq<seq<T>>, n: nat)
    requires t < n <= |slots|
    ensures |DownAll(slots[t := slot], n)|
         == |DownAll(slots, n)| - |Down(slots[t], |slots[t]|)| + |Down(slot, |slot|)|
  {
    if n == t + 1 {
      DownAllSame(slots, slots[t := slot], t);
    } else {
      DownAllUpdateSize(slots, t, slot, n - 1);
    }
  }

  /** Empty chains between m and n add nothing. */
  lemma {:induction false} DownSkipsEmpty<T>(slot: seq<seq<T>>, m: nat, n: nat)
    requires m <= n <= |slot|
    requires forall l :: m <= l < n ==> slot[l] == []
    ensures Down(slot, n) == Down(slot, m)
  {
    if m < n {
      DownSkipsEmpty(slot, m, n - 1);
    }
  }

  lemma {:induction false} DownAllSkipsEmpty<T>(slots: seq<seq<seq<T>>>, m: nat, n: nat)
    requires m <= n <= |slots|
    requires forall t, l :: m <= t < n && 0 <= l < |slots[t]| ==> slots[t][l] == []
    ensures DownAll(slots, n) == DownAll(slots, m)
  {
    if m < n {
      DownSkipsEmpty(slots[n - 1], 0, |slots[n - 1]|);
      DownAllSkipsEmpty(slots, m, n - 1);
    }
  }

  /** A chain is a part of what lies below n. */
  lemma {:induction false} DownHolds<T>(slot: seq<seq<T>>, l: nat, n: nat)
    requires l < n <= |slot|
    ensures |slot[l]| <= |Down(slot, n)|
    ensures forall x :: x in slot[l] ==> x in Down(slot, n)
  {
    if l < n - 1 {
      DownHolds(slot, l, n - 1);
    }
  }

  lemma {:induction false} DownAllHolds<T>(slots: seq<seq<seq<T>>>, t: nat, l: nat, n: nat)
    requires t < n <= |slots| && l < |slots[t]|
    ensures forall x :: x in slots[t][l] ==> x in DownAll(slots, n)
  {
    if t == n - 1 {
      DownHolds(slots[t], l, |slots[t]|);
    } else {
      DownAllHolds(slots, t, l, n - 1);
    }
  }

  /** A chain is a contiguous part of a dump, in its own order. */
  lemma {:induction false} DownPiece<T>(slot: seq<seq<T>>, l: nat, n: nat) returns (a: seq<T>, b: seq<T>)
    requires l < n <= |slot|
    ensures Down(slot, n) == a + slot[l] + b
  {
    if l == n - 1 {
      a, b := [], Down(slot, n - 1);
    } else {
      a, b := DownPiece(slot, l, n - 1);
      a := slot[n - 1] + a;
    }
  }

  lemma {:induction false} DownAllPiece<T>(slots: seq<seq<seq<T>>>, t: nat, l: nat, n: nat)
    returns (a: seq<T>, b: seq<T>)
    requires t < n <= |slots| && l < |slots[t]|
    ensures DownAll(slots, n) == a + slots[t][l] + b
  {
    if t == n - 1 {
      a, b := DownPiece(slots[t], l, |slots[t]|);
      b := b + DownAll(slots, n - 1);
    } else {
      a, b := DownAllPiece(slots, t, l, n - 1);
      a := Down(slots[n - 1], |slots[n - 1]|) + a;
    }
  }

  /** Two different chains of one slot are both inside it, so together no longer than it. */
  lemma {:induction false} DownHoldsTwo<T>(slot: seq<seq<T>>, l: nat, m: nat, n: nat)
    requires l < m < n <= |slot|
    ensures |slot[l]| + |slot[m]| <= |Down(slot, n)|
  {
    if m == n - 1 {
      DownHolds(slot, l, m);
    } else {
      DownHoldsTwo(slot, l, m, n - 1);
    }
  }

  /** Every item of a slot lies in one of its chains. */
  lemma {:induction false} DownWhere<T>(slot: seq<seq<T>>, n: nat, x: T) returns (l: nat)
    requires n <= |slot|
    requires x in Down(slot, n)
    ensures l < n && x in slot[l]
  {
    if x in slot[n - 1] {
      l := n - 1;
    } else {
      l := DownWhere(slot, n - 1, x);
    }
  }

  lemma {:induction false} DownAllWhere<T>(slots: seq<seq<seq<T>>>, n: nat, x: T) returns (t: nat, l: nat)
    requires n <= |slots|
    requires x in DownAll(slots, n)
    ensures t < n && l < |slots[t]| && x in slots[t][l]
  {
    if x in Down(slots[n - 1], |slots[n - 1]|) {
      t := n - 1;
      l := DownWhere(slots[t], |slots[t]|, x);
    } else {
      t, l := DownAllWhere(slots, n - 1, x);
    }
  }

  /** A relation that holds inside every chain from front to back, and from every chain to every
      lower one, holds along the whole dump. */
  ghost predicate Ordered<T>(before: (T, T) -> bool, s: seq<T>) {
    forall i, j :: 0 <= i < j < |s| ==> before(s[i], s[j])
  }

  ghost predicate AllBefore<T>(before: (T, T) -> bool, a: seq<T>, b: seq<T>) {
    forall x, y :: x in a && y in b ==> before(x, y)
  }

  lemma OrderedConcat<T>(before: (T, T) -> bool, a: seq<T>, b: seq<T>)
    requires Ordered(before, a) && Ordered(before, b) && AllBefore(before, a, b)
    ensures Ordered(before, a + b)
  {
    forall i, j | 0 <= i < j < |a + b| ensures before((a + b)[i], (a + b)[j]) {
      if j < |a| {
      } else if i < |a| {
        assert (a + b)[i] in a && (a + b)[j] in b;
      } else {
        assert (a + b)[i] == b[i - |a|] && (a + b)[j] == b[j - |a|];
      }
    }
  }

  lemma {:induction false} DownOrdered<T>(before: (T, T) -> bool, slot: seq<seq<T>>, n: nat)
    requires n <= |slot|
    requires forall l :: 0 <= l < n ==> Ordered(before, slot[l])
    requires forall l, m :: 0 <= m < l < n ==> AllBefore(before, slot[l], slot[m])
    ensures Ordered(before, Down(slot, n))
  {
    if n > 0 {
      DownOrdered(before, slot, n - 1);
      forall x, y | x in slot[n - 1] && y in Down(slot, n - 1) ensures before(x, y) {
        var m := DownWhere(slot, n - 1, y);
        assert AllBefore(before, slot[n - 1], slot[m]);
      }
      OrderedConcat(before, slot[n - 1], Down(slot, n - 1));
    }
  }

  lemma {:induction false} DownAllOrdered<T>(before: (T, T) -> bool, slots: seq<seq<seq<T>>>, n: nat)
    requires n <= |slots|
    requires forall t, l :: 0 <= t < n && 0 <= l < |slots[t]| ==> Ordered(before, slots[t][l])
    requires forall t, l, m :: 0 <= t < n && 0 <= m < l < |slots[t]| ==> AllBefore(before, slots[t][l], slots[t][m])
    requires forall t, u, l, m :: 0 <= u < t < n && 0 <= l < |slots[t]| && 0 <= m < |slots[u]|
               ==> AllBefore(before, slots[t][l], slots[u][m])
    ensures Ordered(before, DownAll(slots, n))
  {
    if n > 0 {
      DownAllOrdered(before, slots, n - 1);
      DownOrdered(before, slots[n - 1], |slots[n - 1]|);
      var head := Down(slots[n - 1], |slots[n - 1]|);
      forall x, y | x in head && y in DownAll(slots, n - 1) ensures before(x, y) {
        var l := DownWhere(slots[n - 1], |slots[n - 1]|, x);
        var u, m := DownAllWhere(slots, n - 1, y);
        assert AllBefore(before, slots[n - 1][l], slots[u][m]);
      }
      OrderedConcat(before, head, DownAll(slots, n - 1));
    }
  }
}
