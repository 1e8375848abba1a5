/** The two-level bucket sorter of src/radixsort.c: linked chains of items behind an array of
    lazily allocated slots, with a min/max/size descriptor for every slot. */
module RadixSort {
  import opened Buckets
  import opened Bytes

  const RADIX_SLOT_SIZE: nat := 1000

  /** What happens to a key above the limit (the third option of the program, exit, is not modelled). */
  datatype BigKeys = Skip | Floor

  class RadixItem<T> {
    var key: nat
    const data: T
    var next: RadixItem?<T>

    constructor (key: nat, data: T)
      ensures this.key == key && this.data == data && next == null
    {
      this.key, this.data, next := key, data, null;
    }
  }

  /** The chain without its j-th item. */
  function Without<T>(chain: seq<T>, j: nat): seq<T>
    requires j < |chain|
  {
    chain[..j] + chain[j + 1..]
  }

  /** The pointers from head to tail spell out a chain of items with one key. */
  ghost predicate Segment<T>(head: RadixItem?<T>, chain: seq<RadixItem<T>>, tail: RadixItem?<T>, key: nat)
    reads chain
  {
    if chain == [] then head == tail
    else head == chain[0] && head.key == key && Segment(head.next, chain[1..], tail, key)
  }

  lemma {:induction false} SegmentJoin<T>(head: RadixItem?<T>, a: seq<RadixItem<T>>, mid: RadixItem?<T>,
                                          b: seq<RadixItem<T>>, tail: RadixItem?<T>, key: nat)
    requires Segment(head, a, mid, key) && Segment(mid, b, tail, key)
    ensures Segment(head, a + b, tail, key)
  {
    if a == [] {
      assert a + b == b;
    } else {
      SegmentJoin(head.next, a[1..], mid, b, tail, key);
      assert (a + b)[1..] == a[1..] + b;
    }
  }

  lemma {:induction false} SegmentSplit<T>(head: RadixItem?<T>, chain: seq<RadixItem<T>>, i: nat,
                                           tail: RadixItem?<T>, key: nat)
    requires Segment(head, chain, tail, key) && i <= |chain|
    ensures var mid := if i < |chain| then chain[i] else tail;
            Segment(head, chain[..i], mid, key) && Segment(mid, chain[i..], tail, key)
  {
    if i == 0 {
      assert chain[..0] == [] && chain[0..] == chain;
    } else {
      SegmentSplit(head.next, chain[1..], i - 1, tail, key);
      assert chain[1..][..i - 1] == chain[..i][1..] && chain[1..][i - 1..] == chain[i..];
    }
  }

  lemma SegmentNext<T>(head: RadixItem<T>, chain: seq<RadixItem<T>>, key: nat)
    requires Segment(head, chain, null, key)
    ensures chain != [] && head == chain[0] && Segment(head.next, chain[1..], null, key)
  {
  }

  lemma SegmentEnds<T>(chain: seq<RadixItem<T>>, key: nat)
    requires Segment(null, chain, null, key)
    ensures chain == []
  {
  }

  lemma {:induction false} SegmentKey<T>(head: RadixItem?<T>, chain: seq<RadixItem<T>>, tail: RadixItem?<T>,
                                         key: nat, x: RadixItem<T>)
    requires Segment(head, chain, tail, key) && x in chain
    ensures x.key == key
  {
    if x != chain[0] {
      SegmentKey(head.next, chain[1..], tail, key, x);
    }
  }

  /** head is the first of a null-terminated chain of items with one key. */
  ghost predicate Linked<T>(head: RadixItem?<T>, chain: seq<RadixItem<T>>, key: nat)
    reads chain
  {
    Segment(head, chain, null, key) && Distinct(chain)
  }

  lemma LinkedPush<T>(item: RadixItem<T>, chain: seq<RadixItem<T>>, key: nat)
    requires Linked(item.next, chain, key) && item.key == key && item !in chain
    ensures Linked(item, [item] + chain, key)
  {
    assert ([item] + chain)[1..] == chain;
  }

  /** A slot's size is exact; its min and max bound the keys, though not tightly. */
  ghost predicate Describes<T>(size: nat, min: nat, max: nat, slot: seq<seq<T>>, base: nat) {
    && size == |Down(slot, |slot|)|
    && (if size == 0 then base + |slot| <= min && max == 0 else base <= min <= max < base + |slot|)
    && (forall l :: 0 <= l < |slot| && slot[l] != [] ==> min <= base + l <= max)
  }

  /** The chains of a slot lie between the indices of its min and its max. */
  lemma DescribesBounds<T>(size: nat, min: nat, max: nat, slot: seq<seq<T>>, t: nat)
    requires Describes(size, min, max, slot, RADIX_SLOT_SIZE * t) && size > 0 && |slot| == RADIX_SLOT_SIZE
    ensures size == |Down(slot, |slot|)| && min % RADIX_SLOT_SIZE <= max % RADIX_SLOT_SIZE < |slot|
    ensures Down(slot, |slot|) == Down(slot, max % RADIX_SLOT_SIZE + 1) && Down(slot, min % RADIX_SLOT_SIZE) == []
  {
    var l, slotMin := max % RADIX_SLOT_SIZE, min % RADIX_SLOT_SIZE;
    assert RADIX_SLOT_SIZE * t + l == max && RADIX_SLOT_SIZE * t + slotMin == min;
    DownSkipsEmpty(slot, l + 1, RADIX_SLOT_SIZE);
    DownSkipsEmpty(slot, 0, slotMin);
  }

  lemma DescribesPush<T>(size: nat, min: nat, max: nat, slot: seq<seq<T>>, base: nat, l: nat, x: T)
    requires Describes(size, min, max, slot, base) && l < |slot|
    ensures Describes(size + 1, if base + l < min then base + l else min, if base + l > max then base + l else max,
                      slot[l := [x] + slot[l]], base)
  {
    DownUpdateSize(slot, l, [x] + slot[l], |slot|);
  }

  /** Taking an item out leaves the descriptor correct but for its size. */
  lemma DescribesCut<T>(size: nat, min: nat, max: nat, slot: seq<seq<T>>, base: nat, l: nat, j: nat)
    requires Describes(size, min, max, slot, base) && l < |slot| && j < |slot[l]|
    ensures var cut := slot[l := Without(slot[l], j)];
            && size == |Down(cut, |cut|)| + 1
            && base <= min <= max < base + |slot|
            && forall m :: 0 <= m < |cut| && cut[m] != [] ==> min <= base + m <= max
  {
    DownUpdateSize(slot, l, Without(slot[l], j), |slot|);
    DownHolds(slot, l, |slot|);
  }

  /** A slot with one item left has one chain left. */
  lemma OnlyChain<T>(slot: seq<seq<T>>) returns (l: nat)
    requires |Down(slot, |slot|)| == 1
    ensures l < |slot| && forall m :: 0 <= m < |slot| ==> (slot[m] != [] <==> m == l)
  {
    l := DownWhere(slot, |slot|, Down(slot, |slot|)[0]);
    forall m | 0 <= m < |slot| && m != l ensures slot[m] == [] {
      if l < m {
        DownHoldsTwo(slot, l, m, |slot|);
      } else {
        DownHoldsTwo(slot, m, l, |slot|);
      }
    }
  }

  /** An empty slot has no chains left. */
  lemma NoChain<T>(slot: seq<seq<T>>)
    requires |Down(slot, |slot|)| == 0
    ensures forall l :: 0 <= l < |slot| ==> slot[l] == []
  {
    forall l | 0 <= l < |slot| ensures slot[l] == [] {
      DownHolds(slot, l, |slot|);
    }
  }

  ghost predicate Within<T>(chain: seq<RadixItem<T>>, repr: set<object>) {
    forall x :: x in chain ==> x in repr
  }

  /** The descriptor of a slot. The chains of the slot hang off an array of their own, digits. */
  class RadixSlot<T(==)> {
    var min: nat
    var max: nat
    var size: nat
    ghost var chains: seq<seq<RadixItem<T>>>
    ghost var repr: set<object>

    ghost predicate Owns(digits: array<RadixItem?<T>>)
      reads this
    {
      && this in repr && digits in repr && digits.Length == |chains| == RADIX_SLOT_SIZE
      && forall l :: 0 <= l < |chains| ==> Within(chains[l], repr)
    }

    ghost predicate Valid(digits: array<RadixItem?<T>>, base: nat)
      reads this, repr
    {
      && Owns(digits)
      && (forall l :: 0 <= l < |chains| ==> Linked(digits[l], chains[l], base + l))
      && Describes(size, min, max, chains, base)
    }

    /** radixsort_get_slot: an empty slot and its descriptor. */
    constructor (digits: array<RadixItem?<T>>, keyLimit: nat, base: nat)
      requires base + RADIX_SLOT_SIZE <= keyLimit
      requires digits.Length == RADIX_SLOT_SIZE && forall l :: 0 <= l < RADIX_SLOT_SIZE ==> digits[l] == null
      ensures Valid(digits, base) && repr == {this, digits}
      ensures min == keyLimit && max == 0 && size == 0
      ensures chains == seq(RADIX_SLOT_SIZE, _ => [])
    {
      min, max, size := keyLimit, 0, 0;
      chains := seq(RADIX_SLOT_SIZE, _ => []);
      repr := {this, digits};
      new;
      DownSkipsEmpty(chains, 0, RADIX_SLOT_SIZE);
    }

    /** The item is linked in before the others of its chain. */
    static method LinkIn(digits: array<RadixItem?<T>>, l: nat, item: RadixItem<T>, ghost chain: seq<RadixItem<T>>)
      requires l < digits.Length && Linked(digits[l], chain, item.key) && item !in chain
      modifies digits, item`next
      ensures Linked(digits[l], [item] + chain, item.key)
      ensures forall m :: 0 <= m < digits.Length && m != l ==> digits[m] == old(digits[m])
    {
      hide Segment;
      item.next := digits[l];
      digits[l] := item;
      assert Linked(item.next, chain, item.key);
      LinkedPush(item, chain, item.key);
    }

    /** The slot's half of radixsort_add: the item becomes the head of its chain. */
    method Push(digits: array<RadixItem?<T>>, base: nat, item: RadixItem<T>)
      requires Valid(digits, base) && item !in repr
      requires base <= item.key < base + RADIX_SLOT_SIZE
      modifies this, digits, item`next
      ensures Valid(digits, base) && repr == old(repr) + {item}
      ensures chains == old(chains[item.key - base := [item] + chains[item.key - base]])
    {
      hide Segment, Linked, Down, Describes;
      var l := item.key - base;
      DescribesPush(size, min, max, chains, base, l, item);
      forall m | 0 <= m < |chains| ensures item !in chains[m] {
        assert Within(chains[m], repr);
      }
      ghost var was := chains;
      LinkIn(digits, l, item, chains[l]);
      forall m | 0 <= m < |was| && m != l ensures Linked(digits[m], was[m], base + m) {
        assert old(Linked(digits[m], chains[m], base + m));
      }
      WithinPush(was, l, item, repr);
      chains := chains[l := [item] + chains[l]];
      repr := repr + {item};
      size := size + 1;
      min := if item.key < min then item.key else min;
      max := if item.key > max then item.key else max;
    }

    static lemma WithinPush(chains: seq<seq<RadixItem<T>>>, l: nat, item: RadixItem<T>, repr: set<object>)
      requires l < |chains| && forall m :: 0 <= m < |chains| ==> Within(chains[m], repr)
      ensures var pushed := chains[l := [item] + chains[l]];
              forall m :: 0 <= m < |pushed| ==> Within(pushed[m], repr + {item})
    {
      var pushed := chains[l := [item] + chains[l]];
      forall m | 0 <= m < |pushed| ensures Within(pushed[m], repr + {item}) {
        assert Within(chains[m], repr);
      }
    }

    /** radix_dec_slot_descriptor_size: count one item less, and tighten min and max when at most
        one item is left. */
    method DecSize(digits: array<RadixItem?<T>>, keyLimit: nat, base: nat)
      requires Owns(digits) && base + RADIX_SLOT_SIZE <= keyLimit
      requires forall l :: 0 <= l < |chains| ==> (digits[l] == null <==> chains[l] == [])
      requires size == |Down(chains, |chains|)| + 1
      requires base <= min <= max < base + |chains|
      requires forall m :: 0 <= m < |chains| && chains[m] != [] ==> min <= base + m <= max
      modifies this`size, this`min, this`max
      ensures Describes(size, min, max, chains, base)
      ensures size == old(size) - 1 && (size > 1 ==> min == old(min) && max == old(max))
      ensures size == 1 ==> (min, max) == if digits[old(max) - base] != null then (old(max), old(max))
                                          else if digits[old(min) - base] != null then (old(min), old(min))
                                          else (old(min), old(max))
      ensures size == 0 ==> min == keyLimit && max == 0
    {
      size := size - 1;
      if size == 0 {
        NoChain(chains);
        min, max := keyLimit, 0;
      } else if size == 1 {
        ghost var l := OnlyChain(chains);
        if digits[max - base] != null {
          min := max;
        } else if digits[min - base] != null {
          max := min;
        }
      }
    }

    /** The walk of radix_cut along a non-empty chain: the first item with the data and the item
        before it, or null. */
    static method Search(head: RadixItem?<T>, ghost chain: seq<RadixItem<T>>, ghost key: nat, data: T)
      returns (ri: RadixItem?<T>, lastRi: RadixItem?<T>, ghost j: nat)
      requires Segment(head, chain, null, key) && chain != []
      ensures j <= |chain| && forall i :: 0 <= i < j ==> chain[i].data != data
      ensures if j < |chain| then ri == chain[j] && ri.data == data else ri == null
      ensures ri != null ==> lastRi == if j == 0 then null else chain[j - 1]
    {
      ri, lastRi, j := head, null, 0;
      while ri.data != data
        invariant j < |chain| && ri == chain[j] && lastRi == if j == 0 then null else chain[j - 1]
        invariant Segment(ri, chain[j..], null, key)
        invariant forall i :: 0 <= i < j ==> chain[i].data != data
        decreases |chain| - j
      {
        if ri.next == null {
          assert chain[j..][1..] == [];
          return null, null, |chain|;
        }
        lastRi := ri;
        ri := ri.next;
        j := j + 1;
      }
    }

    /** Redirects the pointer to chain[j] past it. */
    static method Bypass(digits: array<RadixItem?<T>>, l: nat, ghost chain: seq<RadixItem<T>>, ghost j: nat,
                         lastRi: RadixItem?<T>, ri: RadixItem<T>, ghost key: nat)
      requires l < digits.Length && Linked(digits[l], chain, key)
      requires j < |chain| && ri == chain[j] && lastRi == if j == 0 then null else chain[j - 1]
      modifies digits, if lastRi == null then {ri} else {lastRi, ri}
      ensures Linked(digits[l], Without(chain, j), key)
      ensures forall m :: 0 <= m < digits.Length && m != l ==> digits[m] == old(digits[m])
      ensures ri.next == null && ri.key == old(ri.key)
    {
      hide Segment;
      CutPieces(digits[l], chain, j, key);
      WithoutDistinct(chain, j);
      ghost var back := chain[j + 1..];
      if lastRi != null {
        ghost var front, rest := chain[..j - 1], ri.next;
        lastRi.next := ri.next;
        ri.next := null;
        assert Segment(rest, back, null, key) && Segment(digits[l], front, lastRi, key);
        Rejoin(digits[l], front, lastRi, back, key);
        assert Without(chain, j) == front + ([lastRi] + back);
      } else {
        digits[l] := ri.next;
        ri.next := null;
        assert Segment(digits[l], back, null, key);
        assert Without(chain, 0) == back;
      }
    }

    /** What lies before and after the item to cut, and that it and the item before it lie in neither. */
    static lemma CutPieces(head: RadixItem?<T>, chain: seq<RadixItem<T>>, j: nat, key: nat)
      requires Linked(head, chain, key) && j < |chain|
      ensures Segment(chain[j].next, chain[j + 1..], null, key)
      ensures j > 0 ==> Segment(head, chain[..j - 1], chain[j - 1], key) && chain[j - 1].key == key
      ensures chain[j] !in chain[j + 1..]
      ensures j > 0 ==>
                chain[j - 1] !in chain[j + 1..] && chain[j - 1] !in chain[..j - 1] && chain[j] !in chain[..j - 1]
    {
      SegmentSplit(head, chain, j, null, key);
      assert chain[j..][1..] == chain[j + 1..];
      if j > 0 {
        SegmentSplit(head, chain, j - 1, null, key);
        assert chain[j - 1..][0] == chain[j - 1];
      }
    }

    /** The item before the one that was cut joins what is left. */
    static lemma Rejoin(head: RadixItem?<T>, front: seq<RadixItem<T>>, last: RadixItem<T>, back: seq<RadixItem<T>>,
                        key: nat)
      requires Segment(head, front, last, key) && last.key == key && Segment(last.next, back, null, key)
      ensures Segment(head, front + ([last] + back), null, key)
    {
      assert ([last] + back)[1..] == back;
      SegmentJoin(head, front, last, [last] + back, null, key);
    }

    static lemma WithoutDistinct(chain: seq<RadixItem<T>>, j: nat)
      requires j < |chain| && Distinct(chain)
      ensures Distinct(Without(chain, j)) && chain[j] !in Without(chain, j)
    {
      var cut := Without(chain, j);
      assert forall i :: 0 <= i < |cut| ==> cut[i] == chain[if i < j then i else i + 1];
    }

    /** The slot's half of radix_cut. */
    method Unlink(digits: array<RadixItem?<T>>, keyLimit: nat, base: nat, l: nat, data: T)
      returns (ri: RadixItem?<T>, ghost j: nat)
      requires Valid(digits, base) && base + RADIX_SLOT_SIZE <= keyLimit
      requires l < RADIX_SLOT_SIZE && chains[l] != []
      modifies this, digits, chains[l]
      ensures Valid(digits, base) && repr == old(repr) - (if ri == null then {} else {ri})
      ensures j <= |old(chains[l])| && forall i :: 0 <= i < j ==> old(chains[l])[i].data != data
      ensures j == |old(chains[l])| ==> ri == null && chains == old(chains)
      ensures j < |old(chains[l])| ==> ri == old(chains[l])[j] && ri.data == data && ri.next == null
      ensures j < |old(chains[l])| ==> chains == old(chains)[l := Without(old(chains[l]), j)]
    {
      var lastRi;
      ri, lastRi, j := Search(digits[l], chains[l], base + l, data);
      if ri != null {
        CutOut(digits, keyLimit, base, l, lastRi, ri, j);
      }
    }

    method CutOut(digits: array<RadixItem?<T>>, keyLimit: nat, base: nat, l: nat,
                  lastRi: RadixItem?<T>, ri: RadixItem<T>, ghost j: nat)
      requires Valid(digits, base) && base + RADIX_SLOT_SIZE <= keyLimit
      requires l < RADIX_SLOT_SIZE && j < |chains[l]| && ri == chains[l][j]
      requires lastRi == if j == 0 then null else chains[l][j - 1]
      modifies this, digits, chains[l]
      ensures Valid(digits, base) && repr == old(repr) - {ri} && ri.next == null
      ensures chains == old(chains)[l := Without(old(chains[l]), j)]
    {
      hide Segment, Linked, Down, Describes;
      ghost var cut := chains[l := Without(chains[l], j)];
      DescribesCut(size, min, max, chains, base, l, j);
      WithinCut(digits, base, l, j);
      CutLink(digits, base, l, lastRi, ri, j);
      NullIffEmpty(digits, cut, base);
      chains := cut;
      repr := repr - {ri};
      DecSize(digits, keyLimit, base);
    }

    /** The item is unlinked; the other chains are not touched. */
    method CutLink(digits: array<RadixItem?<T>>, ghost base: nat, l: nat, lastRi: RadixItem?<T>, ri: RadixItem<T>,
                   ghost j: nat)
      requires Valid(digits, base) && l < RADIX_SLOT_SIZE && j < |chains[l]| && ri == chains[l][j]
      requires lastRi == if j == 0 then null else chains[l][j - 1]
      modifies digits, chains[l]
      ensures ri.next == null
      ensures var cut := chains[l := Without(chains[l], j)];
              forall m :: 0 <= m < RADIX_SLOT_SIZE ==> Linked(digits[m], cut[m], base + m)
    {
      hide Segment, Linked, Describes;
      ghost var chain := chains[l];
      ChainsApart(digits, base, l);
      assert ri in chain && (lastRi != null ==> lastRi in chain);
      Bypass(digits, l, chain, j, lastRi, ri, base + l);
      forall m | 0 <= m < RADIX_SLOT_SIZE && m != l ensures Linked(digits[m], chains[m], base + m) {
        assert old(Linked(digits[m], chains[m], base + m));
      }
    }

    /** The other items still belong to the slot. */
    lemma WithinCut(digits: array<RadixItem?<T>>, base: nat, l: nat, j: nat)
      requires Valid(digits, base) && l < RADIX_SLOT_SIZE && j < |chains[l]|
      ensures var ri, cut := chains[l][j], chains[l := Without(chains[l], j)];
              forall m :: 0 <= m < RADIX_SLOT_SIZE ==> Within(cut[m], repr - {ri})
    {
      hide Segment, Describes;
      ChainsApart(digits, base, l);
      assert Linked(digits[l], chains[l], base + l);
      WithoutDistinct(chains[l], j);
      var ri, cut := chains[l][j], chains[l := Without(chains[l], j)];
      forall m | 0 <= m < RADIX_SLOT_SIZE ensures Within(cut[m], repr - {ri}) {
        assert Within(chains[m], repr);
        assert ri in chains[l];
      }
    }

    static lemma NullIffEmpty(digits: array<RadixItem?<T>>, chains: seq<seq<RadixItem<T>>>, base: nat)
      requires digits.Length == |chains| && forall m :: 0 <= m < |chains| ==> Linked(digits[m], chains[m], base + m)
      ensures forall m :: 0 <= m < |chains| ==> (digits[m] == null <==> chains[m] == [])
    {
      forall m | 0 <= m < |chains| ensures digits[m] == null <==> chains[m] == [] {
        assert Linked(digits[m], chains[m], base + m);
      }
    }

    /** Items of different chains are different, as their keys are. */
    lemma ChainsApart(digits: array<RadixItem?<T>>, base: nat, l: nat)
      requires Valid(digits, base) && l < RADIX_SLOT_SIZE
      ensures forall m, x :: 0 <= m < RADIX_SLOT_SIZE && m != l && x in chains[m] ==> x !in chains[l]
    {
      forall m, x | 0 <= m < RADIX_SLOT_SIZE && m != l && x in chains[m] ensures x !in chains[l] {
        SegmentKey(digits[m], chains[m], null, base + m, x);
        if x in chains[l] {
          SegmentKey(digits[l], chains[l], null, base + l, x);
        }
      }
    }
  }

  /** The key an item is filed under: a key above the limit is floored, or dropped (-1). */
  function FiledKey(key: nat, keyLimit: nat, mode: BigKeys): (filed: int)
    requires keyLimit > 0
  {
    if key <= keyLimit then key else if mode == Floor then keyLimit - 1 else -1
  }

  /** The slots with chain (t, l) replaced. */
  function Put<T>(slots: seq<seq<seq<T>>>, t: nat, l: nat, chain: seq<T>): seq<seq<seq<T>>>
    requires t < |slots| && l < |slots[t]|
  {
    slots[t := slots[t][l := chain]]
  }

  ghost predicate NoKeyAbove<T>(slots: seq<seq<seq<T>>>, maxKey: nat) {
    forall t, l :: 0 <= t < |slots| && 0 <= l < |slots[t]| && slots[t][l] != [] ==> RADIX_SLOT_SIZE * t + l <= maxKey
  }

  lemma PutShape<T>(slots: seq<seq<seq<T>>>, t: nat, l: nat, chain: seq<T>, keyLimit: nat, maxKey: nat)
    requires Shaped(slots, keyLimit) && NoKeyAbove(slots, maxKey)
    requires t < |slots| && l < RADIX_SLOT_SIZE
    ensures var put := Put(slots, t, l, chain);
            && Shaped(put, keyLimit)
            && NoKeyAbove(put, if RADIX_SLOT_SIZE * t + l > maxKey then RADIX_SLOT_SIZE * t + l else maxKey)
    ensures slots[t][l] != [] ==> NoKeyAbove(Put(slots, t, l, chain), maxKey)
  {
  }

  lemma PutSize<T>(slots: seq<seq<seq<T>>>, t: nat, l: nat, chain: seq<T>)
    requires t < |slots| && l < |slots[t]|
    ensures |DownAll(Put(slots, t, l, chain), |slots|)| == |DownAll(slots, |slots|)| - |slots[t][l]| + |chain|
  {
    DownUpdateSize(slots[t], l, chain, |slots[t]|);
    DownAllUpdateSize(slots, t, slots[t][l := chain], |slots|);
  }

  /** One chain for every key below the limit. */
  ghost predicate Shaped<T>(slots: seq<seq<seq<T>>>, keyLimit: nat) {
    && keyLimit == |slots| * RADIX_SLOT_SIZE
    && forall t :: 0 <= t < |slots| ==> |slots[t]| == RADIX_SLOT_SIZE
  }

  /** The chain of a key. */
  function Chain<T>(slots: seq<seq<seq<T>>>, key: nat): seq<T>
    requires Shaped(slots, |slots| * RADIX_SLOT_SIZE) && key < |slots| * RADIX_SLOT_SIZE
  {
    slots[key / RADIX_SLOT_SIZE][key % RADIX_SLOT_SIZE]
  }

  /** x may come before y in a dump: its key is not lower, and it is another item. */
  ghost predicate KeyBefore<T>(keys: map<T, nat>, x: T, y: T) {
    x in keys && y in keys && keys[x] >= keys[y] && x != y
  }

  /** Chains of distinct items that all have the key of their chain make a dump ordered by key. */
  lemma DumpOrdered<T>(slots: seq<seq<seq<T>>>, keys: map<T, nat>, dump: seq<T>)
    requires dump == DownAll(slots, |slots|)
    requires forall t :: 0 <= t < |slots| ==> |slots[t]| == RADIX_SLOT_SIZE
    requires forall t, l :: 0 <= t < |slots| && 0 <= l < RADIX_SLOT_SIZE ==> Distinct(slots[t][l])
    requires forall t, l, x :: 0 <= t < |slots| && 0 <= l < RADIX_SLOT_SIZE && x in slots[t][l] ==>
               x in keys && keys[x] == RADIX_SLOT_SIZE * t + l
    ensures forall i, j :: 0 <= i < j < |dump| ==> KeyBefore(keys, dump[i], dump[j])
  {
    var before := (x: T, y: T) => KeyBefore(keys, x, y);
    DownAllOrdered(before, slots, |slots|);
    forall i, j | 0 <= i < j < |dump| ensures KeyBefore(keys, dump[i], dump[j]) {
      assert before(dump[i], dump[j]);
    }
  }

  class RadixSorter<T(==)> {
    const keyLimit: nat
    const optionBigKeys: BigKeys
    // the slots and their descriptors, both null where no key was added yet
    var topDigits: seq<array?<RadixItem?<T>>>
    var slotDescriptors: seq<RadixSlot?<T>>
    var size: nat
    var maxKey: nat
    // the items of every chain, from its head
    ghost var chains: seq<seq<seq<RadixItem<T>>>>
    // every object the sorter owns, with the slot it belongs to
    ghost var owner: map<object, nat>

    ghost predicate Shape()
      reads this
    {
      && Shaped(chains, keyLimit) && keyLimit > 0
      && |topDigits| == |slotDescriptors| == |chains|
      && this !in owner
    }

    /** A slot that is allocated is valid and holds the chains of its keys. */
    static ghost predicate SlotValid(d: RadixSlot?<T>, digits: array?<RadixItem?<T>>, slot: seq<seq<RadixItem<T>>>,
                                     t: nat)
      reads if d == null then {} else {d} + d.repr
    {
      if d == null then digits == null && slot == seq(RADIX_SLOT_SIZE, _ => [])
      else digits != null && d.Valid(digits, RADIX_SLOT_SIZE * t) && d.chains == slot
    }

    static ghost predicate Owned(owner: map<object, nat>, d: RadixSlot?<T>, t: nat)
      reads d
    {
      d != null ==> d in d.repr && forall o :: o in d.repr ==> o in owner && owner[o] == t
    }

    ghost predicate Valid()
      reads this, owner.Keys
      ensures Valid() ==> Shape()
    {
      Shape() && AllOwned(owner, slotDescriptors) && AllValid(slotDescriptors, topDigits, chains) && Totals()
    }

    static ghost predicate AllOwned(owner: map<object, nat>, ds: seq<RadixSlot?<T>>)
      reads owner.Keys
    {
      forall t :: 0 <= t < |ds| ==> (ds[t] == null || ds[t] in owner) && Owned(owner, ds[t], t)
    }

    static ghost predicate AllValid(ds: seq<RadixSlot?<T>>, gs: seq<array?<RadixItem?<T>>>,
                                    slots: seq<seq<seq<RadixItem<T>>>>)
      requires |ds| == |gs| == |slots|
      reads set d | d in ds && d != null :: d
      reads set d, o | d in ds && d != null && o in d.repr :: o
    {
      forall t :: 0 <= t < |ds| ==> assert ds[t] in ds; SlotValid(ds[t], gs[t], slots[t], t)
    }

    ghost predicate Totals()
      reads this
    {
      size == |DownAll(chains, |chains|)| && maxKey < keyLimit && NoKeyAbove(chains, maxKey)
    }

    /** radixsort_init. */
    constructor (keyLimit: nat, optionBigKeys: BigKeys)
      requires keyLimit > 0 && keyLimit % RADIX_SLOT_SIZE == 0
      ensures Valid() && owner == map[]
      ensures this.keyLimit == keyLimit && this.optionBigKeys == optionBigKeys
      ensures forall t, l :: 0 <= t < |chains| && 0 <= l < RADIX_SLOT_SIZE ==> chains[t][l] == []
    {
      this.keyLimit, this.optionBigKeys := keyLimit, optionBigKeys;
      var topIndexLimit := keyLimit / RADIX_SLOT_SIZE;
      topDigits := seq(topIndexLimit, _ => null);
      slotDescriptors := seq(topIndexLimit, _ => null);
      size, maxKey := 0, 0;
      chains := seq(topIndexLimit, _ => seq(RADIX_SLOT_SIZE, _ => []));
      owner := map[];
      new;
      DownAllSkipsEmpty(chains, 0, |chains|);
    }

    /** The allocation half of radixsort_get_slot. */
    method GetSlot(t: nat)
      requires Valid() && t < |chains| && slotDescriptors[t] == null
      modifies this`owner, this`topDigits, this`slotDescriptors
      ensures Valid() && fresh(owner.Keys - old(owner.Keys)) && slotDescriptors[t] != null
    {
      hide NoKeyAbove, RadixSlot.Valid, Linked, Describes, Down, DownAll, Shaped;
      var slot := new RadixItem?<T>[RADIX_SLOT_SIZE](_ => null);
      SlotFits(t);
      var descriptor := new RadixSlot<T>(slot, keyLimit, RADIX_SLOT_SIZE * t);
      topDigits, slotDescriptors := topDigits[t := slot], slotDescriptors[t := descriptor];
      owner := owner[slot := t][descriptor := t];
      forall u | 0 <= u < |chains| ensures SlotValid(slotDescriptors[u], topDigits[u], chains[u], u) {
        assert old(SlotValid(slotDescriptors[u], topDigits[u], chains[u], u));
      }
    }

    lemma SlotFits(t: nat)
      requires Shape() && t < |chains|
      ensures RADIX_SLOT_SIZE * t + RADIX_SLOT_SIZE <= keyLimit
    {
    }

    /** radixsort_add. A key equal to the limit would be written past the last slot. */
    method Add(item: RadixItem<T>)
      requires Valid() && item !in owner && item.key != keyLimit
      modifies this, owner.Keys, item
      ensures Valid() && fresh(owner.Keys - old(owner.Keys) - {item})
      ensures var key := FiledKey(old(item.key), keyLimit, optionBigKeys);
              if key < 0 then chains == old(chains) && owner == old(owner)
              else item.key == key && chains == Put(old(chains), key / RADIX_SLOT_SIZE, key % RADIX_SLOT_SIZE,
                                                    [item] + Chain(old(chains), key))
    {
      hide RadixSorter.Valid;
      if item.key > keyLimit {
        if optionBigKeys == Floor {
          item.key := keyLimit - 1;
        } else {
          return;
        }
      }
      var topIndex := item.key / RADIX_SLOT_SIZE;
      if slotDescriptors[topIndex] == null {
        GetSlot(topIndex);
      }
      Insert(topIndex, item);
    }

    /** The item goes to the head of its chain, and the totals follow. */
    method Insert(t: nat, item: RadixItem<T>)
      requires Valid() && item !in owner
      requires t < |chains| && t == item.key / RADIX_SLOT_SIZE && slotDescriptors[t] != null
      modifies this, owner.Keys, item`next
      ensures Valid() && owner == old(owner)[item := t]
      ensures chains == Put(old(chains), t, item.key % RADIX_SLOT_SIZE,
                            [item] + old(chains)[t][item.key % RADIX_SLOT_SIZE])
    {
      ghost var l := item.key % RADIX_SLOT_SIZE;
      ghost var put := Put(chains, t, l, [item] + chains[t][l]);
      PutSize(chains, t, l, [item] + chains[t][l]);
      PutShape(chains, t, l, [item] + chains[t][l], keyLimit, maxKey);
      PushInto(t, item);
      Record(put, owner[item := t], size + 1, if item.key > maxKey then item.key else maxKey);
    }

    /** The totals after a slot changed. */
    method Record(ghost put: seq<seq<seq<RadixItem<T>>>>, ghost owned: map<object, nat>, newSize: nat, newMaxKey: nat)
      requires |topDigits| == |slotDescriptors| == |put| && Shaped(put, keyLimit) && keyLimit > 0 && this !in owned
      requires AllValid(slotDescriptors, topDigits, put) && AllOwned(owned, slotDescriptors)
      requires newSize == |DownAll(put, |put|)| && newMaxKey < keyLimit && NoKeyAbove(put, newMaxKey)
      modifies this`chains, this`owner, this`size, this`maxKey
      ensures Valid() && chains == put && owner == owned
    {
      NotOwned(owned);
      hide Shaped, NoKeyAbove, DownAll, RadixSorter.AllValid, RadixSorter.AllOwned;
      chains, owner := put, owned;
      size, maxKey := newSize, newMaxKey;
    }

    /** The sorter itself belongs to no slot. */
    lemma NotOwned(owner: map<object, nat>)
      requires this !in owner && AllOwned(owner, slotDescriptors)
      ensures forall d, o :: d in slotDescriptors && d != null && o in d.repr ==> o != this
    {
      forall d, o | d in slotDescriptors && d != null && o in d.repr ensures o != this {
        var u :| 0 <= u < |slotDescriptors| && slotDescriptors[u] == d;
        assert Owned(owner, slotDescriptors[u], u);
      }
    }

    method PushInto(t: nat, item: RadixItem<T>)
      requires Valid() && item !in owner
      requires t < |chains| && t == item.key / RADIX_SLOT_SIZE && slotDescriptors[t] != null
      modifies owner.Keys, item`next
      ensures var l := item.key % RADIX_SLOT_SIZE;
              AllValid(slotDescriptors, topDigits, Put(chains, t, l, [item] + chains[t][l]))
      ensures AllOwned(owner[item := t], slotDescriptors)
    {
      hide RadixSlot.Valid, Linked, Describes, RadixSorter.Totals, NoKeyAbove, DownAll, Down;
      OpenSlot(t);
      ghost var l := item.key % RADIX_SLOT_SIZE;
      ghost var was, ds, gs, own := chains, slotDescriptors, topDigits, owner;
      ghost var now, owned := Put(was, t, l, [item] + was[t][l]), own[item := t];
      PushStep(t, item);
      assert now[t] == was[t][l := [item] + was[t][l]];
      forall u | 0 <= u < |was|
        ensures SlotValid(ds[u], gs[u], now[u], u)
        ensures (ds[u] == null || ds[u] in owned) && Owned(owned, ds[u], u)
      {
        assert u != t ==> now[u] == was[u];
        assert old(SlotValid(ds[u], gs[u], was[u], u)) && old(Owned(own, ds[u], u));
      }
    }

    /** The slot of the key takes the item. */
    method PushStep(t: nat, item: RadixItem<T>)
      requires t < |topDigits| == |slotDescriptors| == |chains| && slotDescriptors[t] != null && topDigits[t] != null
      requires slotDescriptors[t].Valid(topDigits[t], RADIX_SLOT_SIZE * t) && slotDescriptors[t].chains == chains[t]
      requires Owned(owner, slotDescriptors[t], t) && item !in owner && t == item.key / RADIX_SLOT_SIZE
      modifies slotDescriptors[t], topDigits[t], item`next
      ensures var l := item.key % RADIX_SLOT_SIZE;
              SlotValid(slotDescriptors[t], topDigits[t], chains[t][l := [item] + chains[t][l]], t)
      ensures Owned(owner[item := t], slotDescriptors[t], t)
    {
      var d := slotDescriptors[t];
      d.Push(topDigits[t], RADIX_SLOT_SIZE * t, item);
      CloseSlot(d, topDigits[t], t);
    }

    /** radix_cut: the first item of the key's chain with the data, or null. The walk starts without
        asking whether the chain of an allocated slot is empty. */
    method Cut(key: nat, data: T) returns (ri: RadixItem?<T>, ghost j: nat)
      requires Valid()
      requires key <= maxKey && slotDescriptors[key / RADIX_SLOT_SIZE] != null ==> Chain(chains, key) != []
      modifies this, owner.Keys
      ensures Valid()
      ensures var chain := if key < keyLimit then Chain(old(chains), key) else [];
              && j <= |chain| && (forall i :: 0 <= i < j ==> chain[i].data != data)
              && if j == |chain| then ri == null && chains == old(chains) && owner == old(owner)
                 else && ri == chain[j] && ri.data == data && ri.next == null
                      && ri in old(owner) && owner == old(owner) - {ri}
                      && chains == Put(old(chains), key / RADIX_SLOT_SIZE, key % RADIX_SLOT_SIZE, Without(chain, j))
    {
      if key > maxKey {
        return null, if key < keyLimit then |Chain(chains, key)| else 0;
      }
      var topIndex := key / RADIX_SLOT_SIZE;
      if slotDescriptors[topIndex] == null {
        return null, |Chain(chains, key)|;
      }
      ri, j := Extract(topIndex, key % RADIX_SLOT_SIZE, data);
    }

    method Extract(t: nat, l: nat, data: T) returns (ri: RadixItem?<T>, ghost j: nat)
      requires Valid() && t < |chains| && l < RADIX_SLOT_SIZE
      requires slotDescriptors[t] != null && chains[t][l] != []
      modifies this, owner.Keys
      ensures Valid()
      ensures var chain := old(chains)[t][l];
              && j <= |chain| && (forall i :: 0 <= i < j ==> chain[i].data != data)
              && if j == |chain| then ri == null && chains == old(chains) && owner == old(owner)
                 else && ri == chain[j] && ri.data == data && ri.next == null
                      && ri in old(owner) && owner == old(owner) - {ri}
                      && chains == Put(old(chains), t, l, Without(chain, j))
    {
      ri, j := UnlinkFrom(t, l, data);
      if ri == null {
        return;
      }
      PutSize(chains, t, l, Without(chains[t][l], j));
      PutShape(chains, t, l, Without(chains[t][l], j), keyLimit, maxKey);
      Record(Put(chains, t, l, Without(chains[t][l], j)), owner - {ri}, size - 1, maxKey);
    }

    method UnlinkFrom(t: nat, l: nat, data: T) returns (ri: RadixItem?<T>, ghost j: nat)
      requires Valid() && t < |chains| && l < RADIX_SLOT_SIZE
      requires slotDescriptors[t] != null && chains[t][l] != []
      modifies owner.Keys
      ensures j <= |chains[t][l]| && forall i :: 0 <= i < j ==> chains[t][l][i].data != data
      ensures if j == |chains[t][l]| then ri == null
              else ri == chains[t][l][j] && ri.data == data && ri.next == null && ri in owner
      ensures AllValid(slotDescriptors, topDigits, if ri == null then chains
                       else Put(chains, t, l, Without(chains[t][l], j)))
      ensures AllOwned(if ri == null then owner else owner - {ri}, slotDescriptors)
    {
      OpenSlot(t);
      ghost var was, ds, gs, own := chains, slotDescriptors, topDigits, owner;
      assert forall x :: x in was[t][l] ==> x in own && own[x] == t;
      ri, j := UnlinkStep(t, l, data);
      ghost var now := if ri == null then was else Put(was, t, l, Without(was[t][l], j));
      ghost var left := if ri == null then own else own - {ri};
      assert now[t] == if ri == null then was[t] else was[t][l := Without(was[t][l], j)];
      forall u | 0 <= u < |was|
        ensures SlotValid(ds[u], gs[u], now[u], u)
        ensures (ds[u] == null || ds[u] in left) && Owned(left, ds[u], u)
      {
        assert u != t ==> now[u] == was[u];
        assert old(SlotValid(ds[u], gs[u], was[u], u)) && old(Owned(own, ds[u], u));
      }
    }

    /** The slot of the key gives the item back. */
    method UnlinkStep(t: nat, l: nat, data: T) returns (ri: RadixItem?<T>, ghost j: nat)
      requires t < |topDigits| == |slotDescriptors| == |chains| && slotDescriptors[t] != null && topDigits[t] != null
      requires slotDescriptors[t].Valid(topDigits[t], RADIX_SLOT_SIZE * t) && slotDescriptors[t].chains == chains[t]
      requires Owned(owner, slotDescriptors[t], t) && l < RADIX_SLOT_SIZE && chains[t][l] != []
      requires Shaped(chains, keyLimit)
      modifies slotDescriptors[t], topDigits[t], chains[t][l]
      ensures j <= |chains[t][l]| && forall i :: 0 <= i < j ==> chains[t][l][i].data != data
      ensures if j == |chains[t][l]| then ri == null
              else ri == chains[t][l][j] && ri.data == data && ri.next == null && ri in owner
      ensures SlotValid(slotDescriptors[t], topDigits[t],
                        if ri == null then chains[t] else chains[t][l := Without(chains[t][l], j)], t)
      ensures Owned(if ri == null then owner else owner - {ri}, slotDescriptors[t], t)
    {
      var d := slotDescriptors[t];
      assert Within(chains[t][l], d.repr);
      ri, j := d.Unlink(topDigits[t], keyLimit, RADIX_SLOT_SIZE * t, l, data);
      CloseSlot(d, topDigits[t], t);
    }

    /** The size counts the items. */
    lemma SizeIsExact()
      requires Valid()
      ensures size == |DownAll(chains, |chains|)|
    {
    }

    /** radixsort_dump: the items from the highest key to the lowest, the newest of a key first; they fill
        an array of just their number. */
    method Dump() returns (result: array?<RadixItem?<T>>)
      requires Valid()
      ensures result == null <==> size == 0
      ensures result != null ==> fresh(result) && result.Length == size && result[..] == DownAll(chains, |chains|)
    {
      hide RadixSorter.Valid, DownAll;
      if size == 0 {
        return null;
      }
      NothingAboveMax();
      result := new RadixItem?<T>[size](_ => null);
      DumpDown(maxKey / RADIX_SLOT_SIZE, result);
    }

    lemma NothingAboveMax()
      requires Valid()
      ensures size == |DownAll(chains, |chains|)| && maxKey / RADIX_SLOT_SIZE < |chains|
      ensures DownAll(chains, |chains|) == DownAll(chains, maxKey / RADIX_SLOT_SIZE + 1)
    {
      DownAllSkipsEmpty(chains, maxKey / RADIX_SLOT_SIZE + 1, |chains|);
    }

    /** The outer loop of a dump: from the slot of the highest key down. */
    method DumpDown(top: nat, result: array<RadixItem?<T>>)
      requires Valid() && result !in owner && top < |chains|
      requires DownAll(chains, |chains|) == DownAll(chains, top + 1) && result.Length == |DownAll(chains, |chains|)|
      modifies result
      ensures result[..] == DownAll(chains, |chains|)
    {
      hide RadixSorter.Valid, DownAll, Down;
      var t: nat, items: nat := top, 0;
      ghost var slots, dumped: seq<RadixItem<T>> := chains, [];
      while true
        invariant t < |slots| && items == |dumped| && DownAll(slots, |slots|) == dumped + DownAll(slots, t + 1)
        invariant Valid() && result[..items] == dumped
        decreases t
      {
        DownAllStep(dumped, slots, t);
        items := DumpStep(t, result, items, dumped);
        dumped := dumped + Down(slots[t], |slots[t]|);
        if t == 0 {
          break;
        }
        t := t - 1;
      }
      NothingBelow(dumped, slots);
      assert result[..items] == result[..];
    }

    method DumpStep(t: nat, result: array<RadixItem?<T>>, start: nat, ghost dumped: seq<RadixItem<T>>)
      returns (items: nat)
      requires Valid() && t < |chains|
      requires result !in owner && start == |dumped| && start + |Down(chains[t], |chains[t]|)| <= result.Length
      requires result[..start] == dumped
      modifies result
      ensures Valid() && items == |dumped + Down(chains[t], |chains[t]|)|
      ensures result[..items] == dumped + Down(chains[t], |chains[t]|)
    {
      hide RadixSorter.Valid, Down;
      if slotDescriptors[t] != null && slotDescriptors[t].size > 0 {
        items := DumpSlot(t, result, start, dumped);
      } else {
        NothingIn(t);
        items := start;
      }
    }

    lemma NothingIn(t: nat)
      requires Valid() && t < |chains|
      requires slotDescriptors[t] == null || slotDescriptors[t].size == 0
      ensures Down(chains[t], |chains[t]|) == []
    {
      if slotDescriptors[t] == null {
        DownSkipsEmpty(chains[t], 0, RADIX_SLOT_SIZE);
      } else {
        OpenSlot(t);
      }
    }

    /** One slot of a dump: from its max down, until its min or its size is reached. */
    method DumpSlot(t: nat, result: array<RadixItem?<T>>, start: nat, ghost dumped: seq<RadixItem<T>>)
      returns (items: nat)
      requires Valid() && t < |chains| && slotDescriptors[t] != null && slotDescriptors[t].size > 0
      requires result !in owner && start == |dumped| && start + |Down(chains[t], |chains[t]|)| <= result.Length
      requires result[..start] == dumped
      modifies result
      ensures Valid() && items == |dumped + Down(chains[t], |chains[t]|)|
      ensures result[..items] == dumped + Down(chains[t], |chains[t]|)
    {
      SlotBounds(t);
      var d := slotDescriptors[t];
      items := DumpChains(topDigits[t], d.max % RADIX_SLOT_SIZE, d.min % RADIX_SLOT_SIZE, d.size, chains[t],
                          RADIX_SLOT_SIZE * t, result, start, dumped);
    }

    /** What a dump of a slot relies on: its chains lie between its min and its max, and its size is exact. */
    lemma SlotBounds(t: nat)
      requires Valid() && t < |chains| && slotDescriptors[t] != null && slotDescriptors[t].size > 0
      ensures var d, slot := slotDescriptors[t], chains[t];
              && topDigits[t] != null && topDigits[t].Length == |slot| && topDigits[t] in owner
              && (forall m :: 0 <= m < |slot| ==> Linked(topDigits[t][m], slot[m], RADIX_SLOT_SIZE * t + m))
              && d.min % RADIX_SLOT_SIZE <= d.max % RADIX_SLOT_SIZE < |slot|
              && Down(slot, |slot|) == Down(slot, d.max % RADIX_SLOT_SIZE + 1)
              && Down(slot, d.min % RADIX_SLOT_SIZE) == []
              && d.size == |Down(slot, |slot|)|
    {
      OpenSlot(t);
      var d := slotDescriptors[t];
      assert Describes(d.size, d.min, d.max, chains[t], RADIX_SLOT_SIZE * t);
      assert topDigits[t] in d.repr && Owned(owner, d, t);
      DescribesBounds(d.size, d.min, d.max, chains[t], t);
    }

    static method DumpChains(digits: array<RadixItem?<T>>, max: nat, slotMin: nat, slotSize: nat,
                             ghost slot: seq<seq<RadixItem<T>>>, ghost base: nat,
                             result: array<RadixItem?<T>>, start: nat, ghost dumped: seq<RadixItem<T>>)
      returns (items: nat)
      requires digits.Length == |slot| && forall m :: 0 <= m < |slot| ==> Linked(digits[m], slot[m], base + m)
      requires slotMin <= max < |slot| && Down(slot, |slot|) == Down(slot, max + 1) && Down(slot, slotMin) == []
      requires slotSize == |Down(slot, |slot|)|
      requires digits != result && start == |dumped| && start + slotSize <= result.Length && result[..start] == dumped
      modifies result
      ensures items == start + slotSize && result[..items] == dumped + Down(slot, |slot|)
    {
      hide Segment, Down;
      var l: nat, slotCount: nat := max, 0;
      ghost var done := dumped;
      items := start;
      while true
        invariant slotMin <= l < |slot| && items == start + slotCount == |done|
        invariant dumped + Down(slot, |slot|) == done + Down(slot, l + 1) && result[..items] == done
        decreases l
      {
        DownStep(done, slot, l);
        assert old(Linked(digits[l], slot[l], base + l));
        items := DumpChain(digits[l], slot[l], base + l, result, items);
        slotCount, done := items - start, done + slot[l];
        if l - 1 < slotMin || slotCount >= slotSize {
          break;
        }
        l := l - 1;
      }
    }

    static method DumpChain(head: RadixItem?<T>, ghost chain: seq<RadixItem<T>>, ghost key: nat,
                            result: array<RadixItem?<T>>, start: nat) returns (items: nat)
      requires Segment(head, chain, null, key) && start + |chain| <= result.Length
      modifies result
      ensures items == start + |chain| && result[..items] == old(result[..start]) + chain
    {
      hide Segment;
      var ri := head;
      items := start;
      assert chain[0..] == chain && chain[..0] == [];
      while ri != null
        invariant start <= items <= start + |chain| && result[..items] == old(result[..start]) + chain[..items - start]
        invariant Segment(ri, chain[items - start..], null, key)
        decreases |chain| - (items - start)
      {
        SegmentNext(ri, chain[items - start..], key);
        assert chain[items - start..][1..] == chain[items - start + 1..];
        assert chain[..items - start + 1] == chain[..items - start] + [ri];
        result[items] := ri;
        items := items + 1;
        ri := ri.next;
      }
      SegmentEnds(chain[items - start..], key);
    }

    /** An item lies in the chain of its key, and a chain has no duplicates. */
    lemma InChainOfKey(t: nat, l: nat)
      requires Valid() && t < |chains| && l < RADIX_SLOT_SIZE
      ensures Distinct(chains[t][l]) && forall x :: x in chains[t][l] ==> x.key == RADIX_SLOT_SIZE * t + l
    {
      if slotDescriptors[t] != null {
        OpenSlot(t);
        assert Linked(topDigits[t][l], chains[t][l], RADIX_SLOT_SIZE * t + l);
        forall x | x in chains[t][l] ensures x.key == RADIX_SLOT_SIZE * t + l {
          SegmentKey(topDigits[t][l], chains[t][l], null, RADIX_SLOT_SIZE * t + l, x);
        }
      } else {
        assert SlotValid(slotDescriptors[t], topDigits[t], chains[t], t);
      }
    }

    /** The order of a dump: keys never increase and no item comes twice. */
    lemma DumpOrder()
      requires Valid()
      ensures var dump := DownAll(chains, |chains|);
              forall i, j :: 0 <= i < j < |dump| ==> dump[i].key >= dump[j].key && dump[i] != dump[j]
    {
      var slots: seq<seq<seq<RadixItem<T>>>>, dump: seq<RadixItem<T>> := chains, DownAll(chains, |chains|);
      var keys: map<RadixItem<T>, nat> := map x: RadixItem<T> | x in dump :: x.key;
      forall t, l | 0 <= t < |slots| && 0 <= l < RADIX_SLOT_SIZE
        ensures Distinct(slots[t][l])
        ensures forall x :: x in slots[t][l] ==> x in keys && keys[x] == RADIX_SLOT_SIZE * t + l
      {
        InChainOfKey(t, l);
        DownAllHolds(slots, t, l, |slots|);
      }
      DumpOrdered(slots, keys, dump);
      forall i, j | 0 <= i < j < |dump| ensures dump[i].key >= dump[j].key && dump[i] != dump[j] {
        assert KeyBefore(keys, dump[i], dump[j]);
      }
    }

    /** What is in a dump: the chain of every key, as one piece and in its order. */
    lemma DumpHolds(key: nat) returns (a: seq<RadixItem<T>>, b: seq<RadixItem<T>>)
      requires Valid() && key < keyLimit
      ensures DownAll(chains, |chains|) == a + Chain(chains, key) + b
      ensures forall x :: x in Chain(chains, key) <==> x in DownAll(chains, |chains|) && x.key == key
    {
      var t, l := key / RADIX_SLOT_SIZE, key % RADIX_SLOT_SIZE;
      a, b := DownAllPiece(chains, t, l, |chains|);
      InChainOfKey(t, l);
      forall x | x in DownAll(chains, |chains|) && x.key == key ensures x in Chain(chains, key) {
        var u, m := DownAllWhere(chains, |chains|, x);
        InChainOfKey(u, m);
      }
    }

    lemma OpenSlot(t: nat)
      requires Valid() && t < |chains| && slotDescriptors[t] != null
      ensures topDigits[t] != null && slotDescriptors[t].Valid(topDigits[t], RADIX_SLOT_SIZE * t)
      ensures slotDescriptors[t].chains == chains[t]
      ensures slotDescriptors[t].Owns(topDigits[t])
    {
      assert SlotValid(slotDescriptors[t], topDigits[t], chains[t], t);
    }

    static lemma CloseSlot(d: RadixSlot<T>, digits: array<RadixItem?<T>>, t: nat)
      requires d.Valid(digits, RADIX_SLOT_SIZE * t)
      ensures SlotValid(d, digits, d.chains, t)
    {
    }
  }
}
