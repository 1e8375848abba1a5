/** The history views of src/hstr_history.c: the ranked items, the raw items (a reversed, decoded
    image of the system history without its timestamps), and deleting a command from each. */
module History {
  import opened Bytes
  import opened ZshLine

  // ---- what the views should be

  /** The raw view of a history: its commands, newest first, without the timestamps. */
  function RawImage(isZsh: bool, history: seq<Text>): seq<Text> {
    if history == [] then []
    else
      var n := |history| - 1;
      if IsTimestamp(history[n]) then RawImage(isZsh, history[..n])
      else [Decode(isZsh, history[n])] + RawImage(isZsh, history[..n])
  }

  /** What a line contributes to the ranking: its command, unless it is a timestamp or blacklisted. */
  function EventOf(isZsh: bool, blacklist: set<Text>, line: Text): Option<Text> {
    if IsTimestamp(line) || Decode(isZsh, line) in blacklist then None else Some(Decode(isZsh, line))
  }

  function Events(isZsh: bool, blacklist: set<Text>, history: seq<Text>): (events: seq<Option<Text>>)
    ensures |events| == |history|
  {
    seq(|history|, i requires 0 <= i < |history| => EventOf(isZsh, blacklist, history[i]))
  }

  /** The key limit the loop gives to the sorter: at least 100000, and a multiple of 1000. */
  function KeyLimit(size: nat): nat {
    if size * 1000 < 100000 then 100000 else size * 1000
  }

  // ---- arrays of lines

  /** The first count slots are filled. */
  ghost predicate Filled(a: array<Option<Text>>, count: nat)
    reads a
  {
    count <= a.Length && forall i :: 0 <= i < count ==> a[i].Some?
  }

  function Lines(slots: seq<Option<Text>>): (lines: seq<Text>)
    requires forall i :: 0 <= i < |slots| ==> slots[i].Some?
    ensures |lines| == |slots| && forall i :: 0 <= i < |slots| ==> lines[i] == slots[i].value
  {
    seq(|slots|, i requires 0 <= i < |slots| => slots[i].value)
  }

  /** The filled slots, in order. */
  function Present(slots: seq<Option<Text>>): seq<Text> {
    if slots == [] then []
    else
      var n := |slots| - 1;
      if slots[n] == None then Present(slots[..n]) else Present(slots[..n]) + [slots[n].value]
  }

  lemma {:induction false} PresentFilled(slots: seq<Option<Text>>)
    requires forall i :: 0 <= i < |slots| ==> slots[i].Some?
    ensures Present(slots) == Lines(slots)
  {
    if slots != [] {
      PresentFilled(slots[..|slots| - 1]);
    }
  }

  lemma {:induction false} PresentConcat(a: seq<Option<Text>>, b: seq<Option<Text>>)
    ensures Present(a + b) == Present(a) + Present(b)
  {
    if b == [] {
      assert a + b == a;
    } else {
      PresentConcat(a, b[..|b| - 1]);
      assert (a + b)[..|a + b| - 1] == a + b[..|b| - 1];
    }
  }

  /** The in-place compaction of the loop: empty slots are squeezed out, the order stays. */
  method Compact(a: array<Option<Text>>) returns (count: nat)
    modifies a
    ensures Filled(a, count) && Lines(a[..count]) == Present(old(a[..]))
  {
    count := 0;
    for i := 0 to a.Length
      invariant count <= i && a[i..] == old(a[..])[i..]
      invariant Filled(a, count) && Lines(a[..count]) == Present(old(a[..])[..i])
    {
      assert a[i] == old(a[..])[i];
      assert old(a[..])[..i + 1][..i] == old(a[..])[..i];
      if a[i].Some? {
        a[count] := a[i];
        count := count + 1;
      }
    }
    assert old(a[..])[..a.Length] == old(a[..]);
  }

  /** The loop that both history_mgmt_remove_from_raw and history_mgmt_remove_from_ranked run. */
  method Prune(a: array<Option<Text>>, count: nat, cmd: Text) returns (kept: nat)
    requires Filled(a, count)
    modifies a
    ensures kept <= count && Filled(a, kept)
    ensures Lines(a[..kept]) == Others(old(Lines(a[..count])), cmd)
  {
    ghost var was := Lines(a[..count]);
    kept := 0;
    for i := 0 to count
      invariant kept <= i && Filled(a, kept) && a[i..] == old(a[..])[i..]
      invariant Lines(a[..kept]) == Others(was[..i], cmd)
    {
      assert a[i] == old(a[..])[i];
      assert was[..i + 1] == was[..i] + [was[i]];
      OthersSnoc(was[..i], was[i], cmd);
      if cmd != a[i].value {
        a[kept] := a[i];
        kept := kept + 1;
      }
    }
    assert was[..count] == was;
  }

  // ---- the two history views

  class HistoryItems {
    const items: array<Option<Text>>
    var count: nat
    const rawItems: array<Option<Text>>
    var rawCount: nat

    ghost predicate Valid()
      reads this, items, rawItems
    {
      items != rawItems && Filled(items, count) && Filled(rawItems, rawCount)
    }

    function Ranked(): seq<Text>
      requires Valid()
      reads this, items, rawItems
    {
      Lines(items[..count])
    }

    function Raw(): seq<Text>
      requires Valid()
      reads this, items, rawItems
    {
      Lines(rawItems[..rawCount])
    }

    constructor (items: array<Option<Text>>, count: nat, rawItems: array<Option<Text>>, rawCount: nat)
      requires items != rawItems && Filled(items, count) && Filled(rawItems, rawCount)
      ensures Valid() && Ranked() == Lines(items[..count]) && Raw() == Lines(rawItems[..rawCount])
      ensures this.items == items && this.rawItems == rawItems
    {
      this.items, this.count, this.rawItems, this.rawCount := items, count, rawItems, rawCount;
    }

    /** history_mgmt_remove_from_raw. */
    method RemoveFromRaw(cmd: Text) returns (occurrences: nat)
      requires Valid()
      modifies this`rawCount, rawItems
      ensures Valid() && Ranked() == old(Ranked())
      ensures Raw() == Others(old(Raw()), cmd)
      ensures occurrences == |old(Raw())| - |Raw()|
    {
      var kept := Prune(rawItems, rawCount, cmd);
      occurrences := rawCount - kept;
      rawCount := kept;
    }

    /** history_mgmt_remove_from_ranked. */
    method RemoveFromRanked(cmd: Text) returns (occurrences: nat)
      requires Valid()
      modifies this`count, items
      ensures Valid() && Raw() == old(Raw())
      ensures Ranked() == Others(old(Ranked()), cmd)
      ensures occurrences == |old(Ranked())| - |Ranked()|
    {
      var kept := Prune(items, count, cmd);
      occurrences := count - kept;
      count := kept;
    }
  }
}
