/** One line of the ranking loop of src/hstr_history.c: the hash map from a command to its rank
    record and the sorter that files the record are kept in step. */
module HistoryRanking {
  import opened Bytes
  import opened Buckets
  import opened HashMap
  import opened RadixSort
  import opened Ranking

  class RankedHistoryItem {
    const item: Text
    var rank: nat

    constructor (item: Text, rank: nat)
      ensures this.item == item && this.rank == rank
    {
      this.item, this.rank := item, rank;
    }
  }

  type Sorter = RadixSorter<RankedHistoryItem>
  type RankMap = HashSet<RankedHistoryItem>

  /** The commands of a chain. */
  function Names(chain: seq<RadixItem<RankedHistoryItem>>): (names: seq<Text>)
    ensures |names| == |chain|
  {
    seq(|chain|, i requires 0 <= i < |chain| => chain[i].data.item)
  }

  /** The commands of all buckets. */
  function AllNames(chains: seq<seq<seq<RadixItem<RankedHistoryItem>>>>): (names: seq<seq<seq<Text>>>)
    ensures |names| == |chains|
    ensures forall t :: 0 <= t < |chains| ==> |names[t]| == |chains[t]|
    ensures forall t, l :: 0 <= t < |chains| && 0 <= l < |chains[t]| ==> names[t][l] == Names(chains[t][l])
  {
    seq(|chains|, t requires 0 <= t < |chains| =>
      seq(|chains[t]|, l requires 0 <= l < |chains[t]| => Names(chains[t][l])))
  }

  lemma NamesPut(chains: seq<seq<seq<RadixItem<RankedHistoryItem>>>>, t: nat, l: nat,
                 chain: seq<RadixItem<RankedHistoryItem>>)
    requires t < |chains| && l < |chains[t]|
    ensures AllNames(Put(chains, t, l, chain)) == Put(AllNames(chains), t, l, Names(chain))
  {
    var a, b := AllNames(Put(chains, t, l, chain)), Put(AllNames(chains), t, l, Names(chain));
    forall u | 0 <= u < |chains| ensures a[u] == b[u] {
      assert forall m :: 0 <= m < |chains[u]| ==> a[u][m] == b[u][m];
    }
  }

  lemma NamesWithout(chain: seq<RadixItem<RankedHistoryItem>>, j: nat)
    requires j < |chain|
    ensures Names(Without(chain, j)) == Without(Names(chain), j)
  {
  }

  lemma NamesPush(item: RadixItem<RankedHistoryItem>, chain: seq<RadixItem<RankedHistoryItem>>)
    ensures Names([item] + chain) == [item.data.item] + Names(chain)
  {
  }

  lemma {:induction false} NamesDown(slot: seq<seq<RadixItem<RankedHistoryItem>>>, names: seq<seq<Text>>, n: nat)
    requires n <= |slot| == |names| && forall l :: 0 <= l < |slot| ==> names[l] == Names(slot[l])
    ensures Names(Down(slot, n)) == Down(names, n)
  {
    if n > 0 {
      NamesDown(slot, names, n - 1);
      assert Names(slot[n - 1] + Down(slot, n - 1)) == Names(slot[n - 1]) + Names(Down(slot, n - 1));
    }
  }

  lemma {:induction false} NamesDownAll(chains: seq<seq<seq<RadixItem<RankedHistoryItem>>>>, n: nat)
    requires n <= |chains|
    ensures Names(DownAll(chains, n)) == DownAll(AllNames(chains), n)
  {
    if n > 0 {
      NamesDownAll(chains, n - 1);
      var slot := chains[n - 1];
      NamesDown(slot, AllNames(chains)[n - 1], |slot|);
      assert Names(Down(slot, |slot|) + DownAll(chains, n - 1))
        == Names(Down(slot, |slot|)) + Names(DownAll(chains, n - 1));
    }
  }

  /** The records of the map are the standings. */
  ghost predicate Recorded(p: Params, events: seq<Option<Text>>, n: nat, records: map<Text, RankedHistoryItem>)
    requires n <= |events|
    reads records.Values
  {
    && (forall c :: c in records <==> StandingOf(p, events, n, c).Some?)
    && (forall c :: c in records ==> records[c].item == c && records[c].rank == StandingOf(p, events, n, c).value.rank)
  }

  /** Every item of the sorter carries the record of its command. */
  ghost predicate CarriesRecords(chains: seq<seq<seq<RadixItem<RankedHistoryItem>>>>,
                                 records: map<Text, RankedHistoryItem>) {
    forall t, l, x :: 0 <= t < |chains| && 0 <= l < |chains[t]| && x in chains[t][l] ==>
      x.data.item in records && records[x.data.item] == x.data
  }

  ghost predicate Separate(rankmap: RankMap, rs: Sorter)
    reads rankmap, rs
  {
    && rankmap !in rs.owner && rankmap.lists !in rs.owner
    && forall c :: c in rankmap.contents ==> rankmap.contents[c] !in rs.owner
  }

  /** The loop invariant: the map, the sorter and the standings after n events agree. */
  ghost predicate InStep(p: Params, events: seq<Option<Text>>, n: nat, rankmap: RankMap, rs: Sorter)
    requires n <= |events| && p.Valid()
    reads rankmap, rankmap.lists, rankmap.contents.Values, rs, rs.owner.Keys
  {
    && rankmap.Valid() && rs.Valid() && rs.keyLimit == p.keyLimit && rs.optionBigKeys == p.mode
    && Separate(rankmap, rs)
    && Recorded(p, events, n, rankmap.contents)
    && CarriesRecords(rs.chains, rankmap.contents)
    && Agrees(p, events, n, AllNames(rs.chains))
    && NoneAtLimit(p, rankmap.contents)
  }

  /** No recorded rank is the limit, which has no slot. */
  ghost predicate NoneAtLimit(p: Params, records: map<Text, RankedHistoryItem>)
    reads records.Values
  {
    forall c :: c in records ==> records[c].rank != p.keyLimit
  }

  lemma KeyBelowLimit(p: Params, events: seq<Option<Text>>, n: nat, records: map<Text, RankedHistoryItem>, c: Text)
    requires n <= |events| && p.Valid() && Recorded(p, events, n, records) && NoneAtLimit(p, records)
    ensures KeyOf(p, events, n, c) < p.keyLimit
  {
  }

  /** A command within the limit is found where its rank says; one above the limit has no chain. */
  lemma FiledWhereRanked(p: Params, events: seq<Option<Text>>, n: nat, rankmap: RankMap, rs: Sorter, c: Text)
    requires n <= |events| && p.Valid() && InStep(p, events, n, rankmap, rs)
    requires c in rankmap.contents
    ensures var r := rankmap.contents[c];
            if r.rank > p.keyLimit then r.rank > rs.maxKey
            else r.rank < p.keyLimit && exists x :: x in Chain(rs.chains, r.rank) && x.data == r
  {
    hide HashSet.Valid, Represents, RadixSorter.AllValid, RadixSorter.AllOwned, DownAll, NoKeyAbove, Separate;
    var r := rankmap.contents[c];
    if r.rank < p.keyLimit {
      var t, l := r.rank / RADIX_SLOT_SIZE, r.rank % RADIX_SLOT_SIZE;
      var names := AllNames(rs.chains);
      assert BucketAgrees(p, events, n, names[t][l], t, l) && Filed(p, events, n, c, t, l);
      var i :| 0 <= i < |names[t][l]| && names[t][l][i] == c;
      assert rs.chains[t][l][i] in rs.chains[t][l];
    }
  }

  /** Every recorded command has exactly one item if its rank is filed at all, in the chain of the key it is filed
      under, and none otherwise. */
  lemma FiledOnce(p: Params, events: seq<Option<Text>>, n: nat, rankmap: RankMap, rs: Sorter, c: Text) returns (j: nat)
    requires n <= |events| && p.Valid() && InStep(p, events, n, rankmap, rs)
    requires c in rankmap.contents
    ensures var r := rankmap.contents[c];
            var key := FiledKey(r.rank, p.keyLimit, p.mode);
            && (key >= 0 ==> key < p.keyLimit && j < |Chain(rs.chains, key)| && Chain(rs.chains, key)[j].data == r)
            && forall t, l, i :: 0 <= t < |rs.chains| && 0 <= l < RADIX_SLOT_SIZE && 0 <= i < |rs.chains[t][l]| ==>
                 rs.chains[t][l][i].data == r ==> key == RADIX_SLOT_SIZE * t + l && i == j
  {
    hide HashSet.Valid, RadixSorter.Valid;
    var r, names := rankmap.contents[c], AllNames(rs.chains);
    var key := FiledKey(r.rank, p.keyLimit, p.mode);
    assert key == KeyOf(p, events, n, c) && r.item == c;
    KeyBelowLimit(p, events, n, rankmap.contents, c);
    j := 0;
    if key >= 0 {
      var t, l := key / RADIX_SLOT_SIZE, key % RADIX_SLOT_SIZE;
      assert BucketAgrees(p, events, n, names[t][l], t, l) && Filed(p, events, n, c, t, l);
      j :| 0 <= j < |names[t][l]| && names[t][l][j] == c;
      assert rs.chains[t][l][j] in rs.chains[t][l];
    }
    forall t, l, i | 0 <= t < |rs.chains| && 0 <= l < RADIX_SLOT_SIZE && 0 <= i < |rs.chains[t][l]|
                     && rs.chains[t][l][i].data == r
      ensures key == RADIX_SLOT_SIZE * t + l && i == j
    {
      assert BucketAgrees(p, events, n, names[t][l], t, l) && names[t][l][i] == c && c in names[t][l];
      assert Filed(p, events, n, c, t, l);
    }
  }

  /** radixsort_add as the loop uses it: the command is filed under its rank. */
  method FileItem(p: Params, rs: Sorter, radixItem: RadixItem<RankedHistoryItem>,
                  ghost records: map<Text, RankedHistoryItem>)
    requires p.Valid() && rs.Valid() && rs.keyLimit == p.keyLimit && rs.optionBigKeys == p.mode
    requires radixItem !in rs.owner && radixItem.key != p.keyLimit
    requires CarriesRecords(rs.chains, records) && records.Items >= {(radixItem.data.item, radixItem.data)}
    modifies rs, rs.owner.Keys, radixItem
    ensures rs.Valid() && fresh(rs.owner.Keys - old(rs.owner.Keys) - {radixItem})
    ensures CarriesRecords(rs.chains, records)
    ensures var key := FiledKey(old(radixItem.key), p.keyLimit, p.mode);
            AllNames(rs.chains) == if key < 0 then AllNames(old(rs.chains))
                                   else Put(AllNames(old(rs.chains)), key / RADIX_SLOT_SIZE, key % RADIX_SLOT_SIZE,
                                            [radixItem.data.item] + Chain(AllNames(old(rs.chains)), key))
  {
    hide RadixSorter.Valid;
    ghost var was, rank := rs.chains, radixItem.key;
    assert (radixItem.data.item, radixItem.data) in records.Items;
    rs.Add(radixItem);
    FiledNames(p, was, rs.chains, radixItem, rank, records);
  }

  /** Adding an item files its command in the buckets of names. */
  lemma FiledNames(p: Params, was: seq<seq<seq<RadixItem<RankedHistoryItem>>>>,
                   now: seq<seq<seq<RadixItem<RankedHistoryItem>>>>,
                   item: RadixItem<RankedHistoryItem>, rank: nat, records: map<Text, RankedHistoryItem>)
    requires p.Valid() && Shaped(was, p.keyLimit) && rank != p.keyLimit
    requires CarriesRecords(was, records) && item.data.item in records && records[item.data.item] == item.data
    requires var key := FiledKey(rank, p.keyLimit, p.mode);
             now == if key < 0 then was
                    else Put(was, key / RADIX_SLOT_SIZE, key % RADIX_SLOT_SIZE, [item] + Chain(was, key))
    ensures CarriesRecords(now, records)
    ensures var key := FiledKey(rank, p.keyLimit, p.mode);
            AllNames(now) == if key < 0 then AllNames(was)
                             else Put(AllNames(was), key / RADIX_SLOT_SIZE, key % RADIX_SLOT_SIZE,
                                      [item.data.item] + Chain(AllNames(was), key))
  {
    var key := FiledKey(rank, p.keyLimit, p.mode);
    if key >= 0 {
      NamesPut(was, key / RADIX_SLOT_SIZE, key % RADIX_SLOT_SIZE, [item] + Chain(was, key));
      NamesPush(item, Chain(was, key));
    }
  }

  /** A command met for the first time: recorded, and filed under its first rank. */
  method RankNew(p: Params, ghost events: seq<Option<Text>>, i: nat, line: Text, rankmap: RankMap, rs: Sorter)
    requires i < |events| && p.Valid() && AddedKey(p, events, i) != Some(p.keyLimit)
          && InStep(p, events, i, rankmap, rs)
    requires events[i] == Some(line) && line !in rankmap.contents
    modifies rankmap, rankmap.lists, rs, rs.owner.Keys
    ensures InStep(p, events, i + 1, rankmap, rs)
    ensures fresh(rs.owner.Keys - old(rs.owner.Keys)) && fresh(rankmap.contents.Values - old(rankmap.contents.Values))
  {
    hide HashSet.Valid, RadixSorter.Valid, Represents, Agrees, CarriesRecords, Recorded, NoneAtLimit, AddedKey,
         AllNames, Put, StandingOf, KeyOf;
    ghost var records := rankmap.contents;
    NotRecorded(p, events, i, records, line);
    FirstFiling(p, events, i, AllNames(rs.chains), line);
    var r := new RankedHistoryItem(line, p.metrics(0, i, |line|));
    RecordedNew(p, events, i, records, line, r);
    CarriesMore(rs.chains, records, line, r);
    var added := rankmap.PutNew(line, r);
    var radixItem := new RadixItem(r.rank, r);
    FileItem(p, rs, radixItem, rankmap.contents);
  }

  lemma NotRecorded(p: Params, events: seq<Option<Text>>, i: nat, records: map<Text, RankedHistoryItem>, line: Text)
    requires i <= |events| && Recorded(p, events, i, records) && line !in records
    ensures StandingOf(p, events, i, line) == None
  {
  }

  /** A new record with the first rank of its command. */
  lemma RecordedNew(p: Params, events: seq<Option<Text>>, i: nat, records: map<Text, RankedHistoryItem>, line: Text,
                    r: RankedHistoryItem)
    requires i < |events| && Recorded(p, events, i, records) && NoneAtLimit(p, records)
    requires events[i] == Some(line) && line !in records
    requires r.item == line && r.rank == p.metrics(0, i, |line|) != p.keyLimit
    ensures Recorded(p, events, i + 1, records[line := r]) && NoneAtLimit(p, records[line := r])
  {
  }

  /** Filing a command that has no standing yet makes every bucket right for the next line. */
  lemma FirstFiling(p: Params, events: seq<Option<Text>>, i: nat, names: seq<seq<seq<Text>>>, line: Text)
    requires i < |events| && p.Valid() && AddedKey(p, events, i) != Some(p.keyLimit) && Agrees(p, events, i, names)
    requires events[i] == Some(line) && StandingOf(p, events, i, line) == None
    ensures p.metrics(0, i, |line|) != p.keyLimit
    ensures var key := FiledKey(p.metrics(0, i, |line|), p.keyLimit, p.mode);
            Agrees(p, events, i + 1, if key < 0 then names
                                     else Put(names, key / RADIX_SLOT_SIZE, key % RADIX_SLOT_SIZE,
                                              [line] + Chain(names, key)))
  {
    assert StandingOf(p, events, i + 1, line) == Some(Standing(p.metrics(0, i, |line|), i));
    AgreesUnfiled(p, events, i, names, line);
    AgreesFile(p, events, i, names, line);
  }

  /** The items stay right when a new command is recorded. */
  lemma CarriesMore(chains: seq<seq<seq<RadixItem<RankedHistoryItem>>>>, records: map<Text, RankedHistoryItem>,
                    line: Text,
                    r: RankedHistoryItem)
    requires CarriesRecords(chains, records) && line !in records
    ensures CarriesRecords(chains, records[line := r])
    ensures (line, r) in records[line := r].Items
  {
  }

  /** radix_cut as the loop uses it: a command within the limit is cut out of its chain, one above the
      limit is not found. The walk never starts on an empty chain. */
  method TakeOut(p: Params, ghost events: seq<Option<Text>>, ghost i: nat, line: Text, r: RankedHistoryItem,
                 rankmap: RankMap, rs: Sorter) returns (radixItem: RadixItem?<RankedHistoryItem>)
    requires i <= |events| && p.Valid() && InStep(p, events, i, rankmap, rs)
    requires line in rankmap.contents && rankmap.contents[line] == r
    modifies rs, rs.owner.Keys
    ensures radixItem == null <==> r.rank > p.keyLimit
    ensures rs.Valid()
    ensures radixItem == null ==> rs.owner == old(rs.owner) && rs.chains == old(rs.chains)
    ensures radixItem != null ==>
              && radixItem in old(rs.owner) && radixItem !in rs.owner && rs.owner.Keys <= old(rs.owner.Keys)
              && radixItem.data == r && CarriesRecords(rs.chains, rankmap.contents)
              && AgreesBut(p, events, i, AllNames(rs.chains), line)
  {
    hide HashSet.Valid, RadixSorter.Valid;
    FiledWhereRanked(p, events, i, rankmap, rs, line);
    ghost var was, names := rs.chains, AllNames(rs.chains);
    ghost var j;
    radixItem, j := rs.Cut(r.rank, r);
    if radixItem != null {
      ghost var t, l := r.rank / RADIX_SLOT_SIZE, r.rank % RADIX_SLOT_SIZE;
      AgreesCut(p, events, i, names, t, l, j);
      NamesPut(was, t, l, Without(was[t][l], j));
      NamesWithout(was[t][l], j);
    }
  }

  /** A command met again: its item is cut out, re-ranked and filed again. An item that was dropped or
      floored is not found, and nothing changes. */
  method RankAgain(p: Params, ghost events: seq<Option<Text>>, i: nat, line: Text, r: RankedHistoryItem,
                   rankmap: RankMap, rs: Sorter)
    requires i < |events| && p.Valid() && AddedKey(p, events, i) != Some(p.keyLimit)
          && InStep(p, events, i, rankmap, rs)
    requires events[i] == Some(line) && line in rankmap.contents && rankmap.contents[line] == r
    modifies r, rs, rs.owner.Keys
    ensures InStep(p, events, i + 1, rankmap, rs)
    ensures fresh(rs.owner.Keys - old(rs.owner.Keys))
  {
    hide HashSet.Valid, RadixSorter.Valid, Represents, Agrees, AgreesBut, CarriesRecords, AllNames, Put;
    var radixItem := TakeOut(p, events, i, line, r, rankmap, rs);
    if radixItem == null {
      AgreesIdle(p, events, i, AllNames(rs.chains));
    } else {
      NextFiling(p, events, i, AllNames(rs.chains), line, r.rank);
      r.rank := p.metrics(r.rank, i, |line|);
      radixItem.key := r.rank;
      FileItem(p, rs, radixItem, rankmap.contents);
    }
  }

  /** Filing a command again that was taken out makes every bucket right for the next line. */
  lemma NextFiling(p: Params, events: seq<Option<Text>>, i: nat, names: seq<seq<seq<Text>>>, line: Text, rank: nat)
    requires i < |events| && p.Valid() && AddedKey(p, events, i) != Some(p.keyLimit)
          && AgreesBut(p, events, i, names, line)
    requires events[i] == Some(line) && rank <= p.keyLimit
    requires StandingOf(p, events, i, line).Some? && StandingOf(p, events, i, line).value.rank == rank
    ensures p.metrics(rank, i, |line|) != p.keyLimit
    ensures StandingOf(p, events, i + 1, line) == Some(Standing(p.metrics(rank, i, |line|), i))
    ensures var key := FiledKey(p.metrics(rank, i, |line|), p.keyLimit, p.mode);
            Agrees(p, events, i + 1, if key < 0 then names
                                     else Put(names, key / RADIX_SLOT_SIZE, key % RADIX_SLOT_SIZE,
                                              [line] + Chain(names, key)))
  {
    assert StandingOf(p, events, i + 1, line) == Some(Standing(p.metrics(rank, i, |line|), i));
    AgreesFile(p, events, i, names, line);
  }

  /** The body of the ranking loop for one line that is neither a timestamp nor blacklisted. */
  method RankLine(p: Params, ghost events: seq<Option<Text>>, i: nat, line: Text, rankmap: RankMap, rs: Sorter)
    requires i < |events| && p.Valid() && AddedKey(p, events, i) != Some(p.keyLimit)
          && InStep(p, events, i, rankmap, rs)
    requires events[i] == Some(line)
    modifies rankmap, rankmap.lists, rankmap.contents.Values, rs, rs.owner.Keys
    ensures InStep(p, events, i + 1, rankmap, rs)
    ensures fresh(rs.owner.Keys - old(rs.owner.Keys)) && fresh(rankmap.contents.Values - old(rankmap.contents.Values))
  {
    hide HashSet.Valid, RadixSorter.Valid, Agrees, CarriesRecords, Recorded;
    var r := rankmap.Get(line);
    if r == None {
      RankNew(p, events, i, line, rankmap, rs);
    } else {
      RankAgain(p, events, i, line, r.value, rankmap, rs);
    }
  }

  /** A line that is not ranked leaves everything in step. */
  lemma SkipLine(p: Params, events: seq<Option<Text>>, i: nat, rankmap: RankMap, rs: Sorter)
    requires i < |events| && p.Valid() && InStep(p, events, i, rankmap, rs) && events[i] == None
    ensures InStep(p, events, i + 1, rankmap, rs)
  {
    hide HashSet.Valid, RadixSorter.Valid, CarriesRecords, Separate;
    AgreesIdle(p, events, i, AllNames(rs.chains));
    assert Recorded(p, events, i + 1, rankmap.contents);
  }

  /** Before the first line. */
  lemma StartsInStep(p: Params, events: seq<Option<Text>>, rankmap: RankMap, rs: Sorter)
    requires p.Valid() && rankmap.Valid() && rs.Valid() && rs.keyLimit == p.keyLimit && rs.optionBigKeys == p.mode
    requires rankmap.contents == map[] && rs.owner == map[]
    requires forall t, l :: 0 <= t < |rs.chains| && 0 <= l < RADIX_SLOT_SIZE ==> rs.chains[t][l] == []
    ensures InStep(p, events, 0, rankmap, rs)
  {
  }

  /** After the last line: dumping the sorter gives the ranking. */
  lemma DumpIsRanking(p: Params, events: seq<Option<Text>>, n: nat, rankmap: RankMap, rs: Sorter)
    requires n <= |events| && p.Valid() && InStep(p, events, n, rankmap, rs)
    ensures IsRanking(p, events, n, Names(DownAll(rs.chains, |rs.chains|)))
  {
    forall c ensures KeyOf(p, events, n, c) < p.keyLimit {
      KeyBelowLimit(p, events, n, rankmap.contents, c);
    }
    AgreesRanking(p, events, n, AllNames(rs.chains));
    NamesDownAll(rs.chains, |rs.chains|);
  }
}
