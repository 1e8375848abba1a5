/** The chained hash table of src/hashset.c, used as a set of strings and as a string map. */
module HashMap {
  import opened Bytes

  const HASH_MAP_SIZE: nat := 10007

  /** The nodes of one list; a node never changes once it is linked in. */
  datatype NodeList<V> = Null | Node(key: Text, value: V, next: NodeList<V>)

  function Keys<V>(chain: NodeList<V>): seq<Text> {
    match chain
    case Null => []
    case Node(key, _, next) => [key] + Keys(next)
  }

  function Find<V>(chain: NodeList<V>, key: Text): (r: Option<V>)
    ensures r.Some? <==> key in Keys(chain)
  {
    match chain
    case Null => None
    case Node(k, value, next) => if k == key then Some(value) else Find(next, key)
  }

  /** A char of the source is signed. */
  function Signed(b: Byte): int {
    if b < 128 then b else b - 256
  }

  const UINT_RANGE: nat := 0x1_0000_0000

  /** The running value of the hash, an unsigned int that wraps around. */
  function Accumulate(str: Text): (h: nat)
    ensures h < UINT_RANGE
  {
    if str == [] then 5381 else (Accumulate(str[..|str| - 1]) * 33 + Signed(str[|str| - 1])) % UINT_RANGE
  }

  function FoldHalves(h: nat): bv32
    requires h < UINT_RANGE
  {
    h as bv32 ^ (h as bv32 >> 16)
  }

  function Bucket(str: Text): (bucket: nat)
    ensures bucket < HASH_MAP_SIZE
  {
    FoldHalves(Accumulate(str)) as nat % HASH_MAP_SIZE
  }

  /** hashmap_hash. */
  method Hash(str: Text) returns (bucket: nat)
    ensures bucket == Bucket(str)
  {
    var result: nat := 5381;
    for i := 0 to |str|
      invariant result == Accumulate(str[..i])
    {
      assert str[..i + 1][..i] == str[..i];
      result := (result * 33 + Signed(str[i])) % UINT_RANGE;
    }
    assert str[..|str|] == str;
    bucket := FoldHalves(result) as nat % HASH_MAP_SIZE;
  }

  /** The keys of the first n lists, list by list. */
  function AllKeys<V>(lists: seq<NodeList<V>>, n: nat): seq<Text>
    requires n <= |lists|
  {
    if n == 0 then [] else AllKeys(lists, n - 1) + Keys(lists[n - 1])
  }

  /** Every key is in the list of its bucket, once, and the lists hold what the map says. */
  ghost predicate Represents<V>(lists: seq<NodeList<V>>, contents: map<Text, V>) {
    && |lists| == HASH_MAP_SIZE
    && (forall i :: 0 <= i < |lists| ==> Distinct(Keys(lists[i])))
    && (forall i, k :: 0 <= i < |lists| && k in Keys(lists[i]) ==> Bucket(k) == i)
    && (forall k :: Find(lists[Bucket(k)], k) == if k in contents then Some(contents[k]) else None)
  }

  /** The keys below bucket n are distinct and are the ones of the map that hash below n. */
  lemma {:induction false} AllKeysBelow<V>(lists: seq<NodeList<V>>, contents: map<Text, V>, n: nat)
    requires Represents(lists, contents) && n <= |lists|
    ensures Distinct(AllKeys(lists, n))
    ensures forall k :: k in AllKeys(lists, n) <==> k in contents && Bucket(k) < n
  {
    if n > 0 {
      AllKeysBelow(lists, contents, n - 1);
      DistinctConcat(AllKeys(lists, n - 1), Keys(lists[n - 1]));
      forall k ensures k in Keys(lists[n - 1]) <==> k in contents && Bucket(k) == n - 1 {
        var found := Find(lists[Bucket(k)], k);
      }
    }
  }

  /** Listing every list lists each key of the map exactly once. */
  lemma AllKeysComplete<V>(lists: seq<NodeList<V>>, contents: map<Text, V>)
    requires Represents(lists, contents)
    ensures Distinct(AllKeys(lists, |lists|)) && |AllKeys(lists, |lists|)| == |contents|
    ensures forall k :: k in AllKeys(lists, |lists|) <==> k in contents
  {
    AllKeysBelow(lists, contents, |lists|);
    DistinctCard(AllKeys(lists, |lists|));
    assert ToSet(AllKeys(lists, |lists|)) == contents.Keys;
  }

  lemma {:induction false} AllKeysPrefix<V>(lists: seq<NodeList<V>>, m: nat, n: nat)
    requires m <= n <= |lists|
    ensures |AllKeys(lists, m)| <= |AllKeys(lists, n)|
  {
    if m < n {
      AllKeysPrefix(lists, m, n - 1);
    }
  }

  lemma RepresentsPut<V>(lists: seq<NodeList<V>>, contents: map<Text, V>, key: Text, value: V)
    requires Represents(lists, contents) && key !in contents
    ensures var b := Bucket(key);
            Represents(lists[b := Node(key, value, lists[b])], contents[key := value])
  {
    assert key !in Keys(lists[Bucket(key)]);
  }

  class HashSet<V> {
    const lists: array<NodeList<V>>
    var currentSize: nat
    ghost var contents: map<Text, V>

    ghost predicate Valid()
      reads this, lists
    {
      Represents(lists[..], contents) && currentSize == |contents|
    }

    /** hashset_init. */
    constructor ()
      ensures Valid() && fresh(lists) && contents == map[]
    {
      lists := new NodeList<V>[HASH_MAP_SIZE](_ => Null);
      currentSize, contents := 0, map[];
    }

    /** hashset_get. */
    method Get(key: Text) returns (value: Option<V>)
      requires Valid()
      ensures value == if key in contents then Some(contents[key]) else None
    {
      var listNum := Hash(key);
      var ptr := lists[listNum];
      assert ptr == lists[..][listNum];
      while ptr != Null && ptr.key != key
        invariant Find(ptr, key) == Find(lists[listNum], key)
        decreases ptr
      {
        ptr := ptr.next;
      }
      value := if ptr == Null then None else Some(ptr.value);
    }

    /** hashset_put: the first value put for a key stays. */
    method PutNew(key: Text, value: V) returns (added: bool)
      requires Valid()
      modifies this, lists
      ensures Valid() && added == (key !in old(contents))
      ensures contents == if added then old(contents)[key := value] else old(contents)
    {
      var present := Get(key);
      if present.Some? {
        return false;
      }
      var listNum := Hash(key);
      RepresentsPut(lists[..], contents, key, value);
      ghost var was := lists[..];
      lists[listNum] := Node(key, value, lists[listNum]);
      assert lists[..] == was[listNum := Node(key, value, was[listNum])];
      currentSize := currentSize + 1;
      contents := contents[key := value];
      added := true;
    }

    /** hashset_keys: exactly currentSize slots are filled, with every key once. */
    method KeyArray() returns (result: array?<Text>)
      requires Valid()
      ensures result == null <==> currentSize == 0
      ensures result != null ==> result.Length == currentSize && Distinct(result[..])
      ensures result != null ==> forall k :: k in result[..] <==> k in contents
    {
      AllKeysComplete(lists[..], contents);
      if currentSize == 0 {
        return null;
      }
      result := new Text[currentSize](_ => []);
      CopyLists(lists, result);
      assert result[..currentSize] == result[..];
    }

    static method CopyLists(lists: array<NodeList<V>>, result: array<Text>)
      requires result.Length == |AllKeys(lists[..], lists.Length)|
      modifies result
      ensures result[..] == AllKeys(lists[..], lists.Length)
    {
      var j: nat := 0;
      ghost var all := lists[..];
      for i := 0 to lists.Length
        invariant lists[..] == all && j == |AllKeys(all, i)| <= result.Length && result[..j] == AllKeys(all, i)
      {
        AllKeysPrefix(all, i + 1, lists.Length);
        j := CopyKeys(lists[i], result, j);
      }
      assert result[..j] == result[..];
    }

    static method CopyKeys(chain: NodeList<V>, result: array<Text>, start: nat) returns (j: nat)
      requires start + |Keys(chain)| <= result.Length
      modifies result
      ensures j == start + |Keys(chain)| && result[..j] == old(result[..start]) + Keys(chain)
    {
      var p := chain;
      j := start;
      while p != Null
        invariant j + |Keys(p)| == start + |Keys(chain)|
        invariant result[..j] + Keys(p) == old(result[..start]) + Keys(chain)
        decreases p
      {
        result[j] := p.key;
        j := j + 1;
        p := p.next;
      }
    }
  }
}
