/** Building the history views of src/hstr_history.c from the lines of the shell's history. */
module Loading {
  import opened Bytes
  import opened Buckets
  import opened HashMap
  import opened RadixSort
  import opened Ranking
  import opened HistoryRanking
  import opened ZshLine
  import opened History

  /** What the loop takes for granted of a line: it is not empty (its raw slot would be left unset), and a zsh
      line is well metafied. */
  ghost predicate LineLoadable(isZsh: bool, line: Text) {
    line != [] && Readable(isZsh, line)
  }

  /** What loading takes for granted: such lines, and no line that is added with exactly the key limit (it has no
      slot, see Ranking.SlotsUnlessAtLimit). */
  ghost predicate Loadable(p: Params, isZsh: bool, blacklist: set<Text>, history: seq<Text>) {
    && (forall i :: 0 <= i < |history| ==> LineLoadable(isZsh, history[i]))
    && NoRankAtLimit(p, Events(isZsh, blacklist, history))
  }

  /** The slot a line fills in the raw array: nothing for a timestamp. */
  function SlotOf(isZsh: bool, line: Text): Option<Text> {
    if IsTimestamp(line) then None else Some(Decode(isZsh, line))
  }

  lemma RawImageSlot(isZsh: bool, history: seq<Text>, i: nat, slots: seq<Option<Text>>)
    requires i < |history| && Present(slots) == RawImage(isZsh, history[..i])
    ensures Present([SlotOf(isZsh, history[i])] + slots) == RawImage(isZsh, history[..i + 1])
  {
    var head: seq<Option<Text>> := [SlotOf(isZsh, history[i])];
    assert head[..0] == [] && history[..i + 1][..i] == history[..i];
    PresentConcat(head, slots);
  }

  /** The ranking half of the loop body. */
  method RankUnlessSkipped(p: Params, ghost events: seq<Option<Text>>, i: nat, line: Option<Text>,
                           blacklist: set<Text>, rankmap: RankMap, rs: Sorter)
    requires i < |events| && p.Valid() && AddedKey(p, events, i) != Some(p.keyLimit)
          && InStep(p, events, i, rankmap, rs)
    requires events[i] == if line == None || line.value in blacklist then None else line
    modifies rankmap, rankmap.lists, rankmap.contents.Values, rs, rs.owner.Keys
    ensures InStep(p, events, i + 1, rankmap, rs)
    ensures fresh(rs.owner.Keys - old(rs.owner.Keys)) && fresh(rankmap.contents.Values - old(rankmap.contents.Values))
  {
    hide InStep, HashSet.Valid;
    if line == None || line.value in blacklist {
      SkipLine(p, events, i, rankmap, rs);
    } else {
      RankLine(p, events, i, line.value, rankmap, rs);
    }
  }

  /** The slot a line fills, computed as the loop does. */
  method ReadLine(line: Text, isZsh: bool) returns (slot: Option<Text>)
    requires Readable(isZsh, line)
    ensures slot == SlotOf(isZsh, line)
  {
    var timestamp := IsHistTimestamp(line);
    if timestamp {
      return None;
    }
    var command := DecodeLine(line, isZsh);
    return Some(command);
  }

  /** The loop body: line i fills its slot of the raw array, from the end, and is ranked. */
  method LoadLine(p: Params, history: seq<Text>, i: nat, blacklist: set<Text>, isZsh: bool,
                  rankmap: RankMap, rs: Sorter, rawHistory: array<Option<Text>>) returns (slot: Option<Text>)
    requires i < |history| == rawHistory.Length && rawHistory !in rs.owner
    requires p.Valid() && LineLoadable(isZsh, history[i])
    requires AddedKey(p, Events(isZsh, blacklist, history), i) != Some(p.keyLimit)
    requires InStep(p, Events(isZsh, blacklist, history), i, rankmap, rs)
    modifies rankmap, rankmap.lists, rankmap.contents.Values, rs, rs.owner.Keys, rawHistory
    ensures slot == SlotOf(isZsh, history[i])
    ensures InStep(p, Events(isZsh, blacklist, history), i + 1, rankmap, rs)
    ensures rawHistory !in rs.owner
    ensures rawHistory[|history| - (i + 1)..] == [slot] + old(rawHistory[|history| - i..])
    ensures fresh(rs.owner.Keys - old(rs.owner.Keys)) && fresh(rankmap.contents.Values - old(rankmap.contents.Values))
  {
    hide InStep, HashSet.Valid, AddedKey;
    ghost var events := Events(isZsh, blacklist, history);
    slot := ReadLine(history[i], isZsh);
    RankUnlessSkipped(p, events, i, slot, blacklist, rankmap, rs);
    rawHistory[|history| - 1 - i] := slot;
  }

  /** The empty rank map and sorter. */
  method Start(p: Params, ghost events: seq<Option<Text>>) returns (rankmap: RankMap, rs: Sorter)
    requires p.Valid()
    ensures InStep(p, events, 0, rankmap, rs)
    ensures fresh(rankmap) && fresh(rankmap.lists) && fresh(rankmap.contents.Values)
    ensures fresh(rs) && fresh(rs.owner.Keys)
  {
    hide HashSet.Valid, RadixSorter.Valid;
    rankmap := new HashSet<RankedHistoryItem>();
    rs := new RadixSorter<RankedHistoryItem>(p.keyLimit, p.mode);
    StartsInStep(p, events, rankmap, rs);
  }

  /** The main loop of prioritized_history_create. */
  method RankAll(p: Params, history: seq<Text>, blacklist: set<Text>, isZsh: bool)
    returns (rankmap: RankMap, rs: Sorter, rawHistory: array<Option<Text>>, rawTimestamps: nat)
    requires p.Valid() && Loadable(p, isZsh, blacklist, history)
    ensures InStep(p, Events(isZsh, blacklist, history), |history|, rankmap, rs)
    ensures fresh(rawHistory) && rawHistory.Length == |history|
    ensures Present(rawHistory[..]) == RawImage(isZsh, history)
    ensures rawTimestamps + |RawImage(isZsh, history)| == |history|
  {
    hide InStep, SlotOf, LineLoadable, AddedKey;
    ghost var events := Events(isZsh, blacklist, history);
    rankmap, rs := Start(p, events);
    var n := |history|;
    rawHistory := new Option<Text>[n];
    rawTimestamps := 0;
    for i := 0 to n
      invariant InStep(p, events, i, rankmap, rs)
      invariant fresh(rankmap) && fresh(rankmap.lists) && fresh(rankmap.contents.Values)
      invariant fresh(rs) && fresh(rs.owner.Keys) && rawHistory !in rs.owner
      invariant Present(rawHistory[n - i..]) == RawImage(isZsh, history[..i])
      invariant rawTimestamps + |RawImage(isZsh, history[..i])| == i
    {
      RawImageSlot(isZsh, history, i, rawHistory[n - i..]);
      RawImageSize(isZsh, history, i);
      var slot := LoadLine(p, history, i, blacklist, isZsh, rankmap, rs, rawHistory);
      if slot == None {
        rawTimestamps := rawTimestamps + 1;
      }
    }
    assert history[..n] == history && rawHistory[0..] == rawHistory[..];
  }

  lemma RawImageSize(isZsh: bool, history: seq<Text>, i: nat)
    requires i < |history|
    ensures |RawImage(isZsh, history[..i + 1])|
         == |RawImage(isZsh, history[..i])| + if SlotOf(isZsh, history[i]) == None then 0 else 1
  {
    assert history[..i + 1][..i] == history[..i];
  }

  /** The items of a dump as an array of lines. */
  method ItemsOf(prioritizedRadix: array?<RadixItem?<RankedHistoryItem>>, size: nat,
                 ghost dump: seq<RadixItem<RankedHistoryItem>>) returns (items: array<Option<Text>>)
    requires size == |dump| && (size > 0 ==> prioritizedRadix != null && prioritizedRadix[..] == dump)
    ensures fresh(items) && items.Length == size && Filled(items, size) && Lines(items[..]) == Names(dump)
  {
    items := new Option<Text>[size](_ => None);
    for u := 0 to size
      invariant forall i :: 0 <= i < u ==> items[i] == Some(dump[i].data.item)
    {
      assert prioritizedRadix[u] == prioritizedRadix[..][u] == dump[u];
      items[u] := Some(prioritizedRadix[u].data.item);
    }
  }

  /** The second half of loading: the raw slots are compacted if any stayed empty. */
  method CompactRaw(rawHistory: array<Option<Text>>, rawTimestamps: nat) returns (rawCount: nat)
    requires rawTimestamps + |Present(rawHistory[..])| == rawHistory.Length
    modifies rawHistory
    ensures Filled(rawHistory, rawCount) && Lines(rawHistory[..rawCount]) == Present(old(rawHistory[..]))
    ensures rawCount == rawHistory.Length - rawTimestamps
  {
    rawCount := rawHistory.Length - rawTimestamps;
    if rawTimestamps > 0 {
      var compacted := Compact(rawHistory);
    } else {
      AllPresent(rawHistory[..]);
      PresentFilled(rawHistory[..]);
      assert rawHistory[..rawCount] == rawHistory[..];
    }
  }

  /** The first half: the ranked items, and the raw slots with their number of timestamps. */
  method RankHistory(p: Params, history: seq<Text>, blacklist: set<Text>, isZsh: bool)
    returns (items: array<Option<Text>>, rawHistory: array<Option<Text>>, rawTimestamps: nat)
    requires p.Valid() && Loadable(p, isZsh, blacklist, history)
    ensures fresh(items) && Filled(items, items.Length) && fresh(rawHistory) && items != rawHistory
    ensures IsRanking(p, Events(isZsh, blacklist, history), |history|, Lines(items[..items.Length]))
    ensures rawHistory.Length == |history| && Present(rawHistory[..]) == RawImage(isZsh, history)
    ensures rawTimestamps + |RawImage(isZsh, history)| == |history|
  {
    hide Loadable, HashSet.Valid, InStep, RadixSorter.Valid, IsRanking;
    var rankmap, rs;
    rankmap, rs, rawHistory, rawTimestamps := RankAll(p, history, blacklist, isZsh);
    DumpIsRanking(p, Events(isZsh, blacklist, history), |history|, rankmap, rs);
    var prioritizedRadix, size := DumpAll(p, Events(isZsh, blacklist, history), |history|, rankmap, rs);
    items := ItemsOf(prioritizedRadix, size, DownAll(rs.chains, |rs.chains|));
    assert items[..items.Length] == items[..];
  }

  method DumpAll(p: Params, ghost events: seq<Option<Text>>, ghost n: nat, rankmap: RankMap, rs: Sorter)
    returns (prioritizedRadix: array?<RadixItem?<RankedHistoryItem>>, size: nat)
    requires n <= |events| && p.Valid() && InStep(p, events, n, rankmap, rs)
    ensures size == |DownAll(rs.chains, |rs.chains|)|
    ensures size > 0 ==> prioritizedRadix != null && prioritizedRadix[..] == DownAll(rs.chains, |rs.chains|)
  {
    rs.SizeIsExact();
    size := rs.size;
    prioritizedRadix := rs.Dump();
  }

  /** prioritized_history_create, from the lines read into the history list. The list may be allocated
      larger than it is long. */
  method PrioritizedHistoryCreate(history: seq<Text>, size: nat, blacklist: set<Text>, isZsh: bool,
                                  optionBigKeys: BigKeys, metrics: (nat, nat, nat) -> nat)
    returns (h: HistoryItems?)
    requires |history| <= size
    requires Loadable(Params(metrics, KeyLimit(size), optionBigKeys), isZsh, blacklist, history)
    ensures h == null <==> history == []
    ensures h != null ==> fresh(h) && fresh(h.items) && fresh(h.rawItems) && h.Valid()
    ensures h != null ==> h.Raw() == RawImage(isZsh, history)
    ensures h != null ==> IsRanking(Params(metrics, KeyLimit(size), optionBigKeys),
                                    Events(isZsh, blacklist, history), |history|, h.Ranked())
  {
    if history == [] {
      return null;
    }
    var p := Params(metrics, KeyLimit(size), optionBigKeys);
    var items, rawHistory, rawTimestamps := RankHistory(p, history, blacklist, isZsh);
    var rawCount := CompactRaw(rawHistory, rawTimestamps);
    h := new HistoryItems(items, items.Length, rawHistory, rawCount);
  }

  // ---- histories that can be loaded

  /** The bytes of a history, and k for every line. */
  function Weight(history: seq<Text>, k: nat): nat {
    if history == [] then 0 else Weight(history[..|history| - 1], k) + |history[|history| - 1]| + k
  }

  lemma DecodeShortens(isZsh: bool, line: Text)
    ensures |Decode(isZsh, line)| <= |line|
  {
  }

  lemma {:induction false} UsageWithinWeight(isZsh: bool, blacklist: set<Text>, history: seq<Text>, n: nat, c: Text,
                                             k: nat)
    requires n <= |history|
    ensures UsageOf(Events(isZsh, blacklist, history), n, c, k) <= Weight(history[..n], k)
  {
    if n > 0 {
      UsageWithinWeight(isZsh, blacklist, history, n - 1, c, k);
      DecodeShortens(isZsh, history[n - 1]);
      assert history[..n][..n - 1] == history[..n - 1];
    }
  }

  /** A history can be loaded if its bytes, and k for every line, stay below the key limit, where k bounds what the
      ranking function adds to rank and length. */
  lemma ShortHistoryIsLoadable(p: Params, isZsh: bool, blacklist: set<Text>, history: seq<Text>, k: nat)
    requires forall i :: 0 <= i < |history| ==> LineLoadable(isZsh, history[i])
    requires GrowsAtMost(p.metrics, k, |history|) && Weight(history, k) < p.keyLimit
    ensures Loadable(p, isZsh, blacklist, history)
  {
    var events := Events(isZsh, blacklist, history);
    forall c ensures UsageOf(events, |events|, c, k) < p.keyLimit {
      UsageWithinWeight(isZsh, blacklist, history, |history|, c, k);
      assert history[..|history|] == history;
    }
    LittleUseStaysBelow(p, events, k);
  }

  /** On such a history the ranked view, in either mode, holds all commands of the raw view that are not blacklisted. */
  lemma ShortHistoryRanksAll(p: Params, isZsh: bool, blacklist: set<Text>, history: seq<Text>, k: nat,
                             ranked: seq<Text>)
    requires GrowsAtMost(p.metrics, k, |history|) && Weight(history, k) < p.keyLimit
    requires IsRanking(p, Events(isZsh, blacklist, history), |history|, ranked)
    ensures forall c :: c in ranked <==> c in RawImage(isZsh, history) && c !in blacklist
  {
    var events := Events(isZsh, blacklist, history);
    ViewsAgreeOnLoad(p, isZsh, blacklist, history, ranked);
    forall c | c in RawImage(isZsh, history) && c !in blacklist ensures KeyOf(p, events, |history|, c) >= 0 {
      RawImageHas(isZsh, history, c);
      var i :| 0 <= i < |history| && !IsTimestamp(history[i]) && Decode(isZsh, history[i]) == c;
      assert events[i] == Some(c);
      StandingOccurs(p, events, |history|, c);
      RankWithinUsage(p, events, |history|, c, k);
      UsageWithinWeight(isZsh, blacklist, history, |history|, c, k);
      assert history[..|history|] == history;
    }
  }

  /** And where an occurrence adds no more than k to the length, whatever its position, the ranked view goes by score,
      and by the last use for equal scores. */
  lemma ShortHistoryByScore(p: Params, gain: (nat, nat) -> nat, isZsh: bool, blacklist: set<Text>, history: seq<Text>,
                            k: nat, ranked: seq<Text>, i: nat, j: nat)
    requires Additive(p.metrics, gain) && forall order: nat, length: nat :: gain(order, length) <= length + k
    requires Weight(history, k) < p.keyLimit
    requires IsRanking(p, Events(isZsh, blacklist, history), |history|, ranked) && i < j < |ranked|
    ensures var events := Events(isZsh, blacklist, history);
            var c, d := Score(gain, events, |events|, ranked[i]), Score(gain, events, |events|, ranked[j]);
            c > d || (c == d && UsedAfter(events, ranked[i], ranked[j]))
  {
    hide IsRanking, UsedAfter;
    var events := Events(isZsh, blacklist, history);
    forall c ensures Score(gain, events, |events|, c) < p.keyLimit {
      ScoreWithinUsage(gain, events, |events|, c, k);
      UsageWithinWeight(isZsh, blacklist, history, |history|, c, k);
      assert history[..|history|] == history;
    }
    RankingByScore(p, gain, events, ranked, i, j);
  }

  lemma {:induction false} ScoreWithinUsage(gain: (nat, nat) -> nat, events: seq<Option<Text>>, n: nat, c: Text, k: nat)
    requires n <= |events| && forall order: nat, length: nat :: gain(order, length) <= length + k
    ensures Score(gain, events, n, c) <= UsageOf(events, n, c, k)
  {
    if n > 0 {
      ScoreWithinUsage(gain, events, n - 1, c, k);
    }
  }

  /** The key limit is large enough for a history of at most size lines that are each below 1000 with k, and for any
      history that weighs less than 100000. */
  lemma OrdinaryHistoryIsLoadable(metrics: (nat, nat, nat) -> nat, mode: BigKeys, isZsh: bool, blacklist: set<Text>,
                                  history: seq<Text>, size: nat, k: nat)
    requires |history| <= size && forall i :: 0 <= i < |history| ==> LineLoadable(isZsh, history[i])
    requires GrowsAtMost(metrics, k, |history|)
    requires (forall i :: 0 <= i < |history| ==> |history[i]| + k < 1000) || Weight(history, k) < 100000
    ensures Loadable(Params(metrics, KeyLimit(size), mode), isZsh, blacklist, history)
    ensures Params(metrics, KeyLimit(size), mode).Valid()
  {
    if forall i :: 0 <= i < |history| ==> |history[i]| + k < 1000 {
      WeightOfLines(history, k);
    }
    ShortHistoryIsLoadable(Params(metrics, KeyLimit(size), mode), isZsh, blacklist, history, k);
  }

  /** Lines that can be loaded: in Bash every line that is not empty, in zsh every line that it writes for a command. */
  lemma WrittenLineIsLoadable(meta: Byte -> bool, start: Text, elapsed: Text, command: Text, line: Text)
    requires 0 !in line
    ensures LineLoadable(false, line) <==> line != []
    ensures ExtendedForm(line, start, elapsed, Metafy(meta, command)) && meta(ZSH_META) && 0 !in command ==>
              LineLoadable(true, line)
  {
    if ExtendedForm(line, start, elapsed, Metafy(meta, command)) && meta(ZSH_META) && 0 !in command {
      ExtendedIsParsed(line, start, elapsed, Metafy(meta, command));
      UnmetafyMetafy(meta, command);
    }
  }

  lemma {:induction false} WeightOfLines(history: seq<Text>, k: nat)
    requires forall i :: 0 <= i < |history| ==> |history[i]| + k < 1000
    ensures Weight(history, k) <= 999 * |history|
  {
    if history != [] {
      WeightOfLines(history[..|history| - 1], k);
    }
  }

  /** prioritized_history_create on such a history: whatever the blacklist and the mode, the views are right. */
  method CreateFromShortHistory(history: seq<Text>, size: nat, blacklist: set<Text>, isZsh: bool,
                                optionBigKeys: BigKeys,
                                metrics: (nat, nat, nat) -> nat, ghost k: nat) returns (h: HistoryItems?)
    requires |history| <= size && forall i :: 0 <= i < |history| ==> LineLoadable(isZsh, history[i])
    requires GrowsAtMost(metrics, k, |history|) && Weight(history, k) < KeyLimit(size)
    ensures h == null <==> history == []
    ensures h != null ==> fresh(h) && fresh(h.items) && fresh(h.rawItems) && h.Valid()
    ensures h != null ==> h.Raw() == RawImage(isZsh, history)
    ensures h != null ==> IsRanking(Params(metrics, KeyLimit(size), optionBigKeys),
                                    Events(isZsh, blacklist, history), |history|, h.Ranked())
    ensures h != null ==> forall c :: c in h.Ranked() <==> c in h.Raw() && c !in blacklist
  {
    hide IsRanking, Loadable;
    ghost var p := Params(metrics, KeyLimit(size), optionBigKeys);
    ShortHistoryIsLoadable(p, isZsh, blacklist, history, k);
    h := PrioritizedHistoryCreate(history, size, blacklist, isZsh, optionBigKeys, metrics);
    if h != null {
      ShortHistoryRanksAll(p, isZsh, blacklist, history, k, h.Ranked());
    }
  }

  /** Slots that all count are all filled. */
  lemma {:induction false} AllPresent(slots: seq<Option<Text>>)
    ensures |Present(slots)| <= |slots|
    ensures |Present(slots)| == |slots| ==> forall i :: 0 <= i < |slots| ==> slots[i].Some?
  {
    if slots != [] {
      AllPresent(slots[..|slots| - 1]);
    }
  }

  /** What the two views of a fresh history have in common: the ranked commands are distinct, and they
      are the raw commands without the blacklisted and, in Skip mode, the overflowed ones. */
  lemma ViewsAgreeOnLoad(p: Params, isZsh: bool, blacklist: set<Text>, history: seq<Text>, ranked: seq<Text>)
    requires p.keyLimit > 0
    requires IsRanking(p, Events(isZsh, blacklist, history), |history|, ranked)
    ensures Distinct(ranked)
    ensures forall c :: c in ranked <==>
              c in RawImage(isZsh, history) && c !in blacklist
                && KeyOf(p, Events(isZsh, blacklist, history), |history|, c) >= 0
    ensures p.mode == Floor ==> forall c :: c in ranked <==> c in RawImage(isZsh, history) && c !in blacklist
  {
    var events := Events(isZsh, blacklist, history);
    RankingDistinct(p, events, |history|, ranked);
    forall c ensures c in RawImage(isZsh, history) && c !in blacklist <==> Some(c) in events {
      RawImageHas(isZsh, history, c);
      if c in RawImage(isZsh, history) && c !in blacklist {
        var i :| 0 <= i < |history| && !IsTimestamp(history[i]) && Decode(isZsh, history[i]) == c;
        assert events[i] == Some(c);
      }
    }
    forall c ensures KeyOf(p, events, |history|, c) >= 0 ==> Some(c) in events {
      StandingOccurs(p, events, |history|, c);
    }
    if p.mode == Floor {
      forall c ensures c in ranked <==> Some(c) in events {
        FloorRanksAll(p, events, ranked, c);
      }
    }
  }

  lemma {:induction false} RawImageHas(isZsh: bool, history: seq<Text>, c: Text)
    ensures c in RawImage(isZsh, history)
       <==> exists i :: 0 <= i < |history| && !IsTimestamp(history[i]) && Decode(isZsh, history[i]) == c
  {
    if history != [] {
      var n := |history| - 1;
      RawImageHas(isZsh, history[..n], c);
      assert forall i :: 0 <= i < n ==> history[..n][i] == history[i];
      if IsTimestamp(history[n]) || Decode(isZsh, history[n]) != c {
        assert c in RawImage(isZsh, history) <==> c in RawImage(isZsh, history[..n]);
      }
    }
  }
}
