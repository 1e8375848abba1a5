/** What the ranked view of src/hstr_history.c should be: every command that was met, in the order
    of the rank folded over its occurrences; and the invariant that ties the buckets of the sorter
    to that definition at every step of the loop. */
module Ranking {
  import opened Bytes
  import opened Buckets
  import opened RadixSort

  /** history_ranking_function as a parameter (old rank, position of the occurrence, length of the
      command), the key limit of the sorter and what it does with keys above it. */
  datatype Params = Params(metrics: (nat, nat, nat) -> nat, keyLimit: nat, mode: BigKeys)
  {
    ghost predicate Valid() {
      keyLimit > 0 && keyLimit % RADIX_SLOT_SIZE == 0
    }
  }

  /** A command's rank and the position of the occurrence that last filed it. */
  datatype Standing = Standing(rank: nat, stamp: nat)

  /** One more occurrence. The sorter no longer finds an item whose rank passed the limit, so such a
      command keeps its standing. */
  function Restand(p: Params, was: Option<Standing>, i: nat, length: nat): Option<Standing> {
    match was
    case None => Some(Standing(p.metrics(0, i, length), i))
    case Some(s) => if s.rank > p.keyLimit then was else Some(Standing(p.metrics(s.rank, i, length), i))
  }

  /** The standing of c after the first n events; an event is a command to rank, or nothing. */
  function StandingOf(p: Params, events: seq<Option<Text>>, n: nat, c: Text): Option<Standing>
    requires n <= |events|
  {
    if n == 0 then None
    else
      var was := StandingOf(p, events, n - 1, c);
      if events[n - 1] == Some(c) then Restand(p, was, n - 1, |c|) else was
  }

  /** The key c is filed under after n events, or -1. */
  function KeyOf(p: Params, events: seq<Option<Text>>, n: nat, c: Text): int
    requires n <= |events| && p.keyLimit > 0
  {
    match StandingOf(p, events, n, c)
    case None => -1
    case Some(s) => FiledKey(s.rank, p.keyLimit, p.mode)
  }

  function StampOf(p: Params, events: seq<Option<Text>>, n: nat, c: Text): int
    requires n <= |events|
  {
    match StandingOf(p, events, n, c)
    case None => -1
    case Some(s) => s.stamp
  }

  /** c is ranked before d: a higher key, or the same key filed later. */
  predicate Precedes(p: Params, events: seq<Option<Text>>, n: nat, c: Text, d: Text)
    requires n <= |events| && p.keyLimit > 0
  {
    || KeyOf(p, events, n, c) > KeyOf(p, events, n, d)
    || (KeyOf(p, events, n, c) == KeyOf(p, events, n, d) && StampOf(p, events, n, c) > StampOf(p, events, n, d))
  }

  /** The ranked view: exactly the commands with a key, in strictly descending order. */
  ghost predicate IsRanking(p: Params, events: seq<Option<Text>>, n: nat, items: seq<Text>)
    requires n <= |events| && p.keyLimit > 0
  {
    && (forall c :: c in items <==> KeyOf(p, events, n, c) >= 0)
    && Ordered((c, d) => Precedes(p, events, n, c, d), items)
  }

  // ---- the slot of a key

  /** The sorter has a slot for the key an item is filed under, or drops the item. */
  predicate HasSlot(p: Params, key: nat)
    requires p.Valid()
  {
    FiledKey(key, p.keyLimit, p.mode) < 0
      || FiledKey(key, p.keyLimit, p.mode) / RADIX_SLOT_SIZE < p.keyLimit / RADIX_SLOT_SIZE
  }

  /** The guard of radixsort_add lets one key through that has no slot: the limit itself. */
  lemma SlotUnlessAtLimit(p: Params, key: nat)
    requires p.Valid()
    ensures HasSlot(p, key) <==> key != p.keyLimit
  {
  }

  /** The key line i is added to the sorter with; None if the line is not ranked, or its item is not found. */
  function AddedKey(p: Params, events: seq<Option<Text>>, i: nat): Option<nat>
    requires i < |events|
  {
    match events[i]
    case None => None
    case Some(c) =>
      match StandingOf(p, events, i, c)
      case None => Some(p.metrics(0, i, |c|))
      case Some(s) => if s.rank > p.keyLimit then None else Some(p.metrics(s.rank, i, |c|))
  }

  /** No line is added with exactly the limit as its key. */
  predicate NoRankAtLimit(p: Params, events: seq<Option<Text>>) {
    forall i :: 0 <= i < |events| ==> AddedKey(p, events, i) != Some(p.keyLimit)
  }

  /** Ranking a history stays within the slots exactly if that guard never meets the limit. */
  lemma SlotsUnlessAtLimit(p: Params, events: seq<Option<Text>>)
    requires p.Valid()
    ensures (forall i :: 0 <= i < |events| && AddedKey(p, events, i).Some? ==> HasSlot(p, AddedKey(p, events, i).value))
       <==> NoRankAtLimit(p, events)
  {
    forall i | 0 <= i < |events| && AddedKey(p, events, i).Some?
      ensures HasSlot(p, AddedKey(p, events, i).value) <==> AddedKey(p, events, i) != Some(p.keyLimit)
    {
      SlotUnlessAtLimit(p, AddedKey(p, events, i).value);
    }
  }

  /** The code does meet it: the logarithm of 1 is 0, so a command that is as long as the limit and first occurs on
      the second line is ranked at the limit. */
  lemma RankCanMeetLimit(p: Params, e: Option<Text>, c: Text)
    requires p.Valid() && forall length: nat {:trigger p.metrics(0, 1, length)} :: p.metrics(0, 1, length) == length
    requires e != Some(c) && |c| == p.keyLimit
    ensures !NoRankAtLimit(p, [e, Some(c)])
  {
    var events := [e, Some(c)];
    assert StandingOf(p, events, 0, c) == None;
    assert AddedKey(p, events, 1) == Some(p.metrics(0, 1, |c|));
  }

  /** The ranking function adds no more than k to the old rank and the length, for the first n lines. */
  ghost predicate GrowsAtMost(metrics: (nat, nat, nat) -> nat, k: nat, n: nat) {
    forall rank: nat, order: nat, length: nat {:trigger metrics(rank, order, length)} ::
      order < n ==> metrics(rank, order, length) <= rank + length + k
  }

  /** What the occurrences of c among the first n lines can add to its rank. */
  function UsageOf(events: seq<Option<Text>>, n: nat, c: Text, k: nat): nat
    requires n <= |events|
  {
    if n == 0 then 0 else UsageOf(events, n - 1, c, k) + if events[n - 1] == Some(c) then |c| + k else 0
  }

  lemma {:induction false} RankWithinUsage(p: Params, events: seq<Option<Text>>, n: nat, c: Text, k: nat)
    requires n <= |events| && GrowsAtMost(p.metrics, k, |events|)
    ensures StandingOf(p, events, n, c).Some? ==> StandingOf(p, events, n, c).value.rank <= UsageOf(events, n, c, k)
  {
    if n > 0 {
      RankWithinUsage(p, events, n - 1, c, k);
    }
  }

  lemma {:induction false} UsageGrows(events: seq<Option<Text>>, m: nat, n: nat, c: Text, k: nat)
    requires m <= n <= |events|
    ensures UsageOf(events, m, c, k) <= UsageOf(events, n, c, k)
  {
    if m < n {
      UsageGrows(events, m, n - 1, c, k);
    }
  }

  /** A condition on the history alone: if no command is used so much that its occurrences reach the limit, no rank
      does. */
  lemma LittleUseStaysBelow(p: Params, events: seq<Option<Text>>, k: nat)
    requires GrowsAtMost(p.metrics, k, |events|)
    requires forall c :: UsageOf(events, |events|, c, k) < p.keyLimit
    ensures NoRankAtLimit(p, events)
  {
    forall i | 0 <= i < |events| && events[i].Some? ensures AddedKey(p, events, i) != Some(p.keyLimit) {
      var c := events[i].value;
      RankWithinUsage(p, events, i, c, k);
      UsageGrows(events, i + 1, |events|, c, k);
    }
  }

  // ---- the definition

  /** A command has a standing exactly if it occurred, and was last filed at an occurrence. */
  lemma {:induction false} StandingOccurs(p: Params, events: seq<Option<Text>>, n: nat, c: Text)
    requires n <= |events|
    ensures StandingOf(p, events, n, c).Some? <==> exists i :: 0 <= i < n && events[i] == Some(c)
    ensures StandingOf(p, events, n, c).Some? ==>
              var s := StandingOf(p, events, n, c).value.stamp; s < n && events[s] == Some(c)
  {
    if n > 0 {
      StandingOccurs(p, events, n - 1, c);
      assert events[n - 1] == Some(c) ==> exists i :: 0 <= i < n && events[i] == Some(c);
    }
  }

  /** In Floor mode the ranked commands are the ones that occurred. */
  lemma FloorRanksAll(p: Params, events: seq<Option<Text>>, items: seq<Text>, c: Text)
    requires p.keyLimit > 0 && p.mode == Floor && IsRanking(p, events, |events|, items)
    ensures c in items <==> Some(c) in events
  {
    StandingOccurs(p, events, |events|, c);
  }

  /** A standing is never lost, and above the limit it never changes again. */
  lemma {:induction false} StandingStays(p: Params, events: seq<Option<Text>>, m: nat, n: nat, c: Text)
    requires m <= n <= |events| && StandingOf(p, events, m, c).Some?
    ensures StandingOf(p, events, n, c).Some?
    ensures StandingOf(p, events, m, c).value.rank > p.keyLimit ==>
              StandingOf(p, events, n, c) == StandingOf(p, events, m, c)
  {
    if m < n {
      StandingStays(p, events, m, n - 1, c);
    }
  }

  /** In Skip mode a command that occurred is left out exactly if its rank passed the limit at some
      point. */
  lemma SkipRanksUnlessOverflow(p: Params, events: seq<Option<Text>>, items: seq<Text>, c: Text)
    requires p.keyLimit > 0 && p.mode == Skip && IsRanking(p, events, |events|, items)
    ensures c in items <==>
            && Some(c) in events
            && forall m :: 0 <= m <= |events| && StandingOf(p, events, m, c).Some? ==>
                 StandingOf(p, events, m, c).value.rank <= p.keyLimit
  {
    StandingOccurs(p, events, |events|, c);
    forall m | 0 <= m <= |events| && StandingOf(p, events, m, c).Some?
      ensures StandingOf(p, events, m, c).value.rank > p.keyLimit ==> KeyOf(p, events, |events|, c) < 0
    {
      StandingStays(p, events, m, |events|, c);
    }
  }

  /** Two commands are never filed at the same position. */
  lemma StampsDiffer(p: Params, events: seq<Option<Text>>, n: nat, c: Text, d: Text)
    requires n <= |events|
    requires StandingOf(p, events, n, c).Some? && StandingOf(p, events, n, d).Some?
    requires StampOf(p, events, n, c) == StampOf(p, events, n, d)
    ensures c == d
  {
    StandingOccurs(p, events, n, c);
    StandingOccurs(p, events, n, d);
  }

  /** Of two ranked commands exactly one precedes the other. */
  lemma PrecedesIsTotal(p: Params, events: seq<Option<Text>>, n: nat, c: Text, d: Text)
    requires n <= |events| && p.keyLimit > 0 && c != d
    requires KeyOf(p, events, n, c) >= 0 && KeyOf(p, events, n, d) >= 0
    ensures Precedes(p, events, n, c, d) <==> !Precedes(p, events, n, d, c)
  {
    if StampOf(p, events, n, c) == StampOf(p, events, n, d) {
      StampsDiffer(p, events, n, c, d);
    }
  }

  lemma FirstIsLeast<T(!new)>(before: (T, T) -> bool, a: seq<T>, x: T)
    requires Ordered(before, a) && x in a
    ensures x == a[0] || before(a[0], x)
  {
    var i :| 0 <= i < |a| && a[i] == x;
  }

  /** There is only one ranking: sequences in strict order with the same elements are equal. */
  lemma {:induction false} OrderedUnique<T(!new)>(before: (T, T) -> bool, a: seq<T>, b: seq<T>)
    requires Ordered(before, a) && Ordered(before, b)
    requires forall x :: x in a <==> x in b
    requires forall x, y :: before(x, y) ==> !before(y, x)
    ensures a == b
  {
    if |a| > 0 && |b| > 0 {
      assert a[0] in a && b[0] in b;
      FirstIsLeast(before, a, b[0]);
      FirstIsLeast(before, b, a[0]);
      assert a == [a[0]] + a[1..] && b == [b[0]] + b[1..];
      HeadOnce(before, a);
      HeadOnce(before, b);
      forall x ensures x in a[1..] <==> x in b[1..] {
        assert x in a <==> x == a[0] || x in a[1..];
        assert x in b <==> x == b[0] || x in b[1..];
      }
      OrderedUnique(before, a[1..], b[1..]);
    } else {
      if |a| > 0 {
        FirstIn(a);
        assert false;
      }
      if |b| > 0 {
        FirstIn(b);
        assert false;
      }
    }
  }

  lemma FirstIn<T>(s: seq<T>)
    requires |s| > 0
    ensures s[0] in s
  {
  }

  lemma HeadOnce<T(!new)>(before: (T, T) -> bool, a: seq<T>)
    requires Ordered(before, a) && |a| > 0
    requires forall x, y :: before(x, y) ==> !before(y, x)
    ensures a[0] !in a[1..]
  {
    forall i | 1 <= i < |a| ensures a[i] != a[0] {
      assert before(a[0], a[i]);
    }
  }

  lemma RankingUnique(p: Params, events: seq<Option<Text>>, n: nat, a: seq<Text>, b: seq<Text>)
    requires n <= |events| && p.keyLimit > 0
    requires IsRanking(p, events, n, a) && IsRanking(p, events, n, b)
    ensures a == b
  {
    OrderedUnique((c, d) => Precedes(p, events, n, c, d), a, b);
  }

  lemma RankingDistinct(p: Params, events: seq<Option<Text>>, n: nat, items: seq<Text>)
    requires n <= |events| && p.keyLimit > 0 && IsRanking(p, events, n, items)
    ensures Distinct(items)
  {
    forall i, j | 0 <= i < j < |items| ensures items[i] != items[j] {
      assert Precedes(p, events, n, items[i], items[j]);
    }
  }

  // ---- the rank as a score

  /** Every occurrence adds gain(position, length) to the rank, as the logarithmic and the additive metrics do. */
  ghost predicate Additive(metrics: (nat, nat, nat) -> nat, gain: (nat, nat) -> nat) {
    forall rank: nat, order: nat, length: nat {:trigger metrics(rank, order, length)} ::
      metrics(rank, order, length) == rank + gain(order, length)
  }

  /** The sum of what the occurrences of c among the first n lines add. */
  function Score(gain: (nat, nat) -> nat, events: seq<Option<Text>>, n: nat, c: Text): nat
    requires n <= |events|
  {
    if n == 0 then 0 else Score(gain, events, n - 1, c) + if events[n - 1] == Some(c) then gain(n - 1, |c|) else 0
  }

  /** As long as it does not pass the limit, the rank is the score. */
  lemma {:induction false} RankIsScore(p: Params, gain: (nat, nat) -> nat, events: seq<Option<Text>>, n: nat, c: Text)
    requires n <= |events| && Additive(p.metrics, gain)
    ensures match StandingOf(p, events, n, c)
            case None => Score(gain, events, n, c) == 0
            case Some(s) => if Score(gain, events, n, c) <= p.keyLimit then s.rank == Score(gain, events, n, c)
                            else s.rank > p.keyLimit
  {
    if n > 0 {
      RankIsScore(p, gain, events, n - 1, c);
    }
  }

  /** As long as it does not pass the limit, a command is filed at its last occurrence. */
  lemma {:induction false} StampIsLast(p: Params, events: seq<Option<Text>>, n: nat, c: Text)
    requires n <= |events| && StandingOf(p, events, n, c).Some? && StandingOf(p, events, n, c).value.rank <= p.keyLimit
    ensures var stamp := StandingOf(p, events, n, c).value.stamp;
            stamp < n && events[stamp] == Some(c) && forall k :: stamp < k < n ==> events[k] != Some(c)
  {
    if events[n - 1] != Some(c) {
      StampIsLast(p, events, n - 1, c);
    }
  }

  /** c was used again after the last use of d. */
  ghost predicate UsedAfter(events: seq<Option<Text>>, c: Text, d: Text) {
    exists m :: 0 <= m < |events| && events[m] == Some(c)
             && forall k :: 0 <= k < |events| && events[k] == Some(d) ==> k < m
  }

  /** The ranked view goes by score, and by the last use for equal scores. A command whose score passed the limit is
      filed just below the limit, so only scores of at least that come before it. */
  lemma RankingByScore(p: Params, gain: (nat, nat) -> nat, events: seq<Option<Text>>, items: seq<Text>, i: nat, j: nat)
    requires p.keyLimit > 0 && Additive(p.metrics, gain) && IsRanking(p, events, |events|, items) && i < j < |items|
    ensures var n, c, d := |events|, items[i], items[j];
            if Score(gain, events, n, c) > p.keyLimit then p.mode == Floor
            else if Score(gain, events, n, d) > p.keyLimit then Score(gain, events, n, c) >= p.keyLimit - 1
            else || Score(gain, events, n, c) > Score(gain, events, n, d)
                 || (Score(gain, events, n, c) == Score(gain, events, n, d) && UsedAfter(events, c, d))
  {
    var n, c, d := |events|, items[i], items[j];
    assert Precedes(p, events, n, c, d) && c in items && d in items;
    RankIsScore(p, gain, events, n, c);
    RankIsScore(p, gain, events, n, d);
    if Score(gain, events, n, c) <= p.keyLimit && Score(gain, events, n, d) <= p.keyLimit {
      StampIsLast(p, events, n, c);
      StampIsLast(p, events, n, d);
    }
  }

  /** Which commands are ranked: in Floor mode all that occurred, in Skip mode those whose score is within the limit. */
  lemma RankedByScore(p: Params, gain: (nat, nat) -> nat, events: seq<Option<Text>>, items: seq<Text>, c: Text)
    requires p.keyLimit > 0 && Additive(p.metrics, gain) && IsRanking(p, events, |events|, items)
    ensures c in items <==> Some(c) in events && (p.mode == Floor || Score(gain, events, |events|, c) <= p.keyLimit)
  {
    RankIsScore(p, gain, events, |events|, c);
    StandingOccurs(p, events, |events|, c);
  }

  // ---- one more occurrence

  /** The ranking function only adds: at least the old rank and the length of the command. */
  ghost predicate Grows(metrics: (nat, nat, nat) -> nat) {
    forall rank: nat, order: nat, length: nat {:trigger metrics(rank, order, length)} ::
      order >= 1 ==> metrics(rank, order, length) >= rank + length
  }

  lemma {:induction false} AppendKeeps(p: Params, events: seq<Option<Text>>, e: Option<Text>, n: nat, c: Text)
    requires n <= |events|
    ensures StandingOf(p, events + [e], n, c) == StandingOf(p, events, n, c)
  {
    if n > 0 {
      AppendKeeps(p, events, e, n - 1, c);
    }
  }

  /** A ranked command that occurs once more is not filed lower, and nothing else moves. */
  lemma OccurrenceRaises(p: Params, events: seq<Option<Text>>, c: Text, d: Text)
    requires p.keyLimit > 0 && Grows(p.metrics)
    requires var n := |events|; KeyOf(p, events, n, c) >= 0 && KeyOf(p, events + [Some(c)], n + 1, c) >= 0
    requires KeyOf(p, events, |events|, c) != p.keyLimit
    requires d != c && Precedes(p, events + [Some(c)], |events| + 1, d, c)
    ensures Precedes(p, events, |events|, d, c)
  {
    var n := |events|;
    AppendKeeps(p, events, Some(c), n, c);
    AppendKeeps(p, events, Some(c), n, d);
    StandingOccurs(p, events, n, c);
    StandingOccurs(p, events, n, d);
    assert StandingOf(p, events + [Some(c)], n + 1, c).Some? && StandingOf(p, events, n, c).Some?;
  }

  lemma {:induction false} DistinctSubset<T>(a: seq<T>, b: seq<T>)
    requires Distinct(a) && forall x :: x in a ==> x in b
    ensures |a| <= |b|
  {
    if a != [] {
      assert a[0] in b;
      var i :| 0 <= i < |b| && b[i] == a[0];
      var rest := b[..i] + b[i + 1..];
      forall x | x in a[1..] ensures x in rest {
        assert x != a[0] && x in b;
        var k :| 0 <= k < |b| && b[k] == x;
        assert rest[if k < i then k else k - 1] == x;
      }
      DistinctSubset(a[1..], rest);
    }
  }

  /** Using a ranked command once more never lowers its position. In Skip mode this needs the new rank
      to stay within the limit, that is, the command to be ranked afterwards; in Floor mode it always
      is. */
  lemma UseNeverLowers(p: Params, events: seq<Option<Text>>, c: Text, a: seq<Text>, b: seq<Text>, i: nat, j: nat)
    requires p.keyLimit > 0 && Grows(p.metrics)
    requires KeyOf(p, events, |events|, c) != p.keyLimit
    requires IsRanking(p, events, |events|, a) && IsRanking(p, events + [Some(c)], |events| + 1, b)
    requires i < |a| && a[i] == c && j < |b| && b[j] == c
    ensures j <= i
  {
    var n := |events|;
    RankingDistinct(p, events + [Some(c)], n + 1, b);
    forall d | d in b[..j] ensures d in a[..i] {
      var k :| 0 <= k < j && b[k] == d;
      assert Precedes(p, events + [Some(c)], n + 1, b[k], b[j]);
      OccurrenceRaises(p, events, c, d);
      AppendKeeps(p, events, Some(c), n, d);
      assert KeyOf(p, events, n, d) >= 0;
      var m :| 0 <= m < |a| && a[m] == d;
      assert i < m ==> Precedes(p, events, n, a[i], a[m]);
    }
    DistinctSubset(b[..j], a[..i]);
  }

  /** The condition of UseNeverLowers: the command is still ranked afterwards in Floor mode always, in
      Skip mode exactly if the new rank is within the limit. */
  lemma UseKeepsRanked(p: Params, events: seq<Option<Text>>, c: Text, a: seq<Text>, b: seq<Text>)
    requires p.keyLimit > 0 && c in a
    requires IsRanking(p, events, |events|, a) && IsRanking(p, events + [Some(c)], |events| + 1, b)
    ensures c in b <==>
              (p.mode == Floor || p.metrics(StandingOf(p, events, |events|, c).value.rank, |events|, |c|) <= p.keyLimit)
  {
    AppendKeeps(p, events, Some(c), |events|, c);
  }

  // ---- the buckets

  /** c belongs into bucket (t, l) after n events. */
  ghost predicate Filed(p: Params, events: seq<Option<Text>>, n: nat, c: Text, t: nat, l: nat)
    requires n <= |events| && p.keyLimit > 0
  {
    KeyOf(p, events, n, c) == RADIX_SLOT_SIZE * t + l
  }

  /** The buckets agree with the standings: every bucket holds exactly the commands of its key, each
      once, the one filed last at the front. */
  ghost predicate Agrees(p: Params, events: seq<Option<Text>>, n: nat, buckets: seq<seq<seq<Text>>>)
    requires n <= |events| && p.keyLimit > 0
  {
    && Shaped(buckets, p.keyLimit)
    && forall t, l :: 0 <= t < |buckets| && 0 <= l < RADIX_SLOT_SIZE ==> BucketAgrees(p, events, n, buckets[t][l], t, l)
  }

  ghost predicate BucketAgrees(p: Params, events: seq<Option<Text>>, n: nat, bucket: seq<Text>, t: nat, l: nat)
    requires n <= |events| && p.keyLimit > 0
  {
    && (forall c :: c in bucket <==> Filed(p, events, n, c, t, l))
    && (forall i, j :: 0 <= i < j < |bucket| ==> StampOf(p, events, n, bucket[i]) > StampOf(p, events, n, bucket[j]))
  }

  /** Pushing the command just filed onto the bucket of its key. */
  lemma BucketPushed(p: Params, events: seq<Option<Text>>, n: nat, bucket: seq<Text>, t: nat, l: nat, c: Text)
    requires n < |events| && p.keyLimit > 0 && events[n] == Some(c)
    requires forall d :: d in bucket <==> d != c && Filed(p, events, n, d, t, l)
    requires forall i, j :: 0 <= i < j < |bucket| ==>
               StampOf(p, events, n, bucket[i]) > StampOf(p, events, n, bucket[j])
    requires Filed(p, events, n + 1, c, t, l) && StampOf(p, events, n + 1, c) == n
    ensures BucketAgrees(p, events, n + 1, [c] + bucket, t, l)
  {
    var pushed := [c] + bucket;
    forall d ensures d in pushed <==> Filed(p, events, n + 1, d, t, l) {
      assert d in pushed <==> d == c || d in bucket;
    }
    forall i | 0 <= i < |bucket|
      ensures StampOf(p, events, n + 1, bucket[i]) == StampOf(p, events, n, bucket[i]) < n
    {
      assert bucket[i] in bucket;
      StandingOccurs(p, events, n, bucket[i]);
    }
    forall i, j | 0 <= i < j < |pushed|
      ensures StampOf(p, events, n + 1, pushed[i]) > StampOf(p, events, n + 1, pushed[j])
    {
      assert pushed[j] == bucket[j - 1];
      assert i > 0 ==> pushed[i] == bucket[i - 1];
    }
  }

  /** Taking a command out of its bucket: it was there once, and the order of the rest stays. */
  lemma BucketCut(p: Params, events: seq<Option<Text>>, n: nat, bucket: seq<Text>, t: nat, l: nat, j: nat)
    requires n <= |events| && p.keyLimit > 0 && BucketAgrees(p, events, n, bucket, t, l) && j < |bucket|
    ensures var cut := Without(bucket, j);
            && (forall d :: d in cut <==> d != bucket[j] && Filed(p, events, n, d, t, l))
            && (forall i, k :: 0 <= i < k < |cut| ==> StampOf(p, events, n, cut[i]) > StampOf(p, events, n, cut[k]))
  {
    var cut := Without(bucket, j);
    assert forall i :: 0 <= i < |cut| ==> cut[i] == bucket[if i < j then i else i + 1];
    forall d ensures d in cut <==> d != bucket[j] && d in bucket {
      if d in bucket && d != bucket[j] {
        var i :| 0 <= i < |bucket| && bucket[i] == d;
        assert cut[if i < j then i else i - 1] == d;
      }
    }
  }

  /** An event that changes no standing leaves all buckets right. */
  lemma AgreesIdle(p: Params, events: seq<Option<Text>>, n: nat, buckets: seq<seq<seq<Text>>>)
    requires n < |events| && p.keyLimit > 0 && Agrees(p, events, n, buckets)
    requires forall c :: events[n] == Some(c) ==> StandingOf(p, events, n + 1, c) == StandingOf(p, events, n, c)
    ensures Agrees(p, events, n + 1, buckets)
  {
    forall t, l | 0 <= t < |buckets| && 0 <= l < RADIX_SLOT_SIZE
      ensures BucketAgrees(p, events, n + 1, buckets[t][l], t, l)
    {
      var bucket := buckets[t][l];
      assert BucketAgrees(p, events, n, bucket, t, l);
      assert forall c :: StandingOf(p, events, n + 1, c) == StandingOf(p, events, n, c);
      assert forall c :: Filed(p, events, n + 1, c, t, l) <==> Filed(p, events, n, c, t, l);
    }
  }

  /** The buckets after the command was taken out of them, if it was filed. */
  ghost predicate AgreesBut(p: Params, events: seq<Option<Text>>, n: nat, buckets: seq<seq<seq<Text>>>, c: Text)
    requires n <= |events| && p.keyLimit > 0
  {
    && Shaped(buckets, p.keyLimit)
    && forall t, l :: 0 <= t < |buckets| && 0 <= l < RADIX_SLOT_SIZE ==>
         && (forall d :: d in buckets[t][l] <==> d != c && Filed(p, events, n, d, t, l))
         && (forall i, j :: 0 <= i < j < |buckets[t][l]| ==>
               StampOf(p, events, n, buckets[t][l][i]) > StampOf(p, events, n, buckets[t][l][j]))
  }

  lemma AgreesCut(p: Params, events: seq<Option<Text>>, n: nat, buckets: seq<seq<seq<Text>>>, t: nat, l: nat, j: nat)
    requires n <= |events| && p.keyLimit > 0 && Agrees(p, events, n, buckets)
    requires t < |buckets| && l < RADIX_SLOT_SIZE && j < |buckets[t][l]|
    ensures AgreesBut(p, events, n, Put(buckets, t, l, Without(buckets[t][l], j)), buckets[t][l][j])
  {
    var put, c := Put(buckets, t, l, Without(buckets[t][l], j)), buckets[t][l][j];
    BucketCut(p, events, n, buckets[t][l], t, l, j);
    assert c in buckets[t][l] && BucketAgrees(p, events, n, buckets[t][l], t, l);
    forall u, m | 0 <= u < |put| && 0 <= m < RADIX_SLOT_SIZE && (u != t || m != l)
      ensures put[u][m] == buckets[u][m] && forall d :: d in put[u][m] <==> d != c && Filed(p, events, n, d, u, m)
    {
      assert BucketAgrees(p, events, n, buckets[u][m], u, m);
      assert Filed(p, events, n, c, t, l) && !Filed(p, events, n, c, u, m);
    }
  }

  /** A command that has no bucket is in none. */
  lemma AgreesUnfiled(p: Params, events: seq<Option<Text>>, n: nat, buckets: seq<seq<seq<Text>>>, c: Text)
    requires n <= |events| && p.keyLimit > 0 && Agrees(p, events, n, buckets) && KeyOf(p, events, n, c) < 0
    ensures AgreesBut(p, events, n, buckets, c)
  {
    forall t, l | 0 <= t < |buckets| && 0 <= l < RADIX_SLOT_SIZE
      ensures BucketAgrees(p, events, n, buckets[t][l], t, l) && !Filed(p, events, n, c, t, l)
    {
    }
  }

  /** Filing the command of the event under its new key. */
  lemma AgreesFile(p: Params, events: seq<Option<Text>>, n: nat, buckets: seq<seq<seq<Text>>>, c: Text)
    requires n < |events| && p.keyLimit > 0 && events[n] == Some(c) && AgreesBut(p, events, n, buckets, c)
    requires StampOf(p, events, n + 1, c) == n && KeyOf(p, events, n + 1, c) < p.keyLimit
    ensures var key := KeyOf(p, events, n + 1, c);
            Agrees(p, events, n + 1, if key < 0 then buckets
                                     else Put(buckets, key / RADIX_SLOT_SIZE, key % RADIX_SLOT_SIZE,
                                              [c] + Chain(buckets, key)))
  {
    var key := KeyOf(p, events, n + 1, c);
    var put := if key < 0 then buckets
               else Put(buckets, key / RADIX_SLOT_SIZE, key % RADIX_SLOT_SIZE, [c] + Chain(buckets, key));
    forall t, l | 0 <= t < |put| && 0 <= l < RADIX_SLOT_SIZE
      ensures BucketAgrees(p, events, n + 1, put[t][l], t, l)
    {
      if Filed(p, events, n + 1, c, t, l) {
        BucketPushed(p, events, n, buckets[t][l], t, l, c);
      } else {
        BucketOther(p, events, n, buckets[t][l], t, l, c);
      }
    }
  }

  lemma BucketOther(p: Params, events: seq<Option<Text>>, n: nat, bucket: seq<Text>, t: nat, l: nat, c: Text)
    requires n < |events| && p.keyLimit > 0 && events[n] == Some(c)
    requires forall d :: d in bucket <==> d != c && Filed(p, events, n, d, t, l)
    requires forall i, j :: 0 <= i < j < |bucket| ==>
               StampOf(p, events, n, bucket[i]) > StampOf(p, events, n, bucket[j])
    requires !Filed(p, events, n + 1, c, t, l)
    ensures BucketAgrees(p, events, n + 1, bucket, t, l)
  {
    forall d ensures d in bucket <==> Filed(p, events, n + 1, d, t, l) {
      assert d in bucket <==> d != c && Filed(p, events, n, d, t, l);
    }
    forall i | 0 <= i < |bucket| ensures StampOf(p, events, n + 1, bucket[i]) == StampOf(p, events, n, bucket[i]) {
      assert bucket[i] in bucket;
    }
  }

  /** Read from the top, buckets that agree are the ranking. */
  lemma AgreesRanking(p: Params, events: seq<Option<Text>>, n: nat, buckets: seq<seq<seq<Text>>>)
    requires n <= |events| && p.keyLimit > 0 && Agrees(p, events, n, buckets)
    requires forall c :: KeyOf(p, events, n, c) < p.keyLimit
    ensures IsRanking(p, events, n, DownAll(buckets, |buckets|))
  {
    var before := (c, d) => Precedes(p, events, n, c, d);
    forall t, l, u, m | 0 <= t < |buckets| && 0 <= l < |buckets[t]| && 0 <= u < |buckets| && 0 <= m < |buckets[u]|
                        && RADIX_SLOT_SIZE * t + l > RADIX_SLOT_SIZE * u + m
      ensures AllBefore(before, buckets[t][l], buckets[u][m])
    {
      assert BucketAgrees(p, events, n, buckets[t][l], t, l) && BucketAgrees(p, events, n, buckets[u][m], u, m);
      forall x, y | x in buckets[t][l] && y in buckets[u][m] ensures before(x, y) {
        assert Filed(p, events, n, x, t, l) && Filed(p, events, n, y, u, m);
      }
    }
    forall t, l | 0 <= t < |buckets| && 0 <= l < |buckets[t]| ensures Ordered(before, buckets[t][l]) {
      BucketOrdered(p, events, n, buckets[t][l], t, l);
    }
    DownAllOrdered(before, buckets, |buckets|);
    forall c ensures c in DownAll(buckets, |buckets|) <==> KeyOf(p, events, n, c) >= 0 {
      var key := KeyOf(p, events, n, c);
      if c in DownAll(buckets, |buckets|) {
        var t, l := DownAllWhere(buckets, |buckets|, c);
        assert BucketAgrees(p, events, n, buckets[t][l], t, l) && Filed(p, events, n, c, t, l);
      } else if key >= 0 {
        var t, l := key / RADIX_SLOT_SIZE, key % RADIX_SLOT_SIZE;
        assert BucketAgrees(p, events, n, buckets[t][l], t, l) && Filed(p, events, n, c, t, l);
        DownAllHolds(buckets, t, l, |buckets|);
        assert false;
      }
    }
  }

  lemma BucketOrdered(p: Params, events: seq<Option<Text>>, n: nat, bucket: seq<Text>, t: nat, l: nat)
    requires n <= |events| && p.keyLimit > 0 && BucketAgrees(p, events, n, bucket, t, l)
    ensures Ordered((c, d) => Precedes(p, events, n, c, d), bucket)
  {
    forall i, j | 0 <= i < j < |bucket| ensures Precedes(p, events, n, bucket[i], bucket[j]) {
      assert bucket[i] in bucket && bucket[j] in bucket;
      assert Filed(p, events, n, bucket[i], t, l) && Filed(p, events, n, bucket[j], t, l);
    }
  }
}
