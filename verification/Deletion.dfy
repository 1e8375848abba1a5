/** Deleting a command from the system history (src/hstr_history.c): the backward in-place removal
    that may drop two entries in a step, and how it keeps the raw view true. */
module Deletion {
  import opened Bytes
  import opened ZshLine
  import opened History

  predicate Matches(isZsh: bool, cmd: Text, line: Text) {
    Decode(isZsh, line) == cmd
  }

  /** What the backward loop leaves of a history and how many matches it counts. A timestamp right
      before a match goes with the match, and is not looked at again. */
  function Sweep(isZsh: bool, cmd: Text, history: seq<Text>): (r: (seq<Text>, nat)) {
    if history == [] then ([], 0)
    else
      var n := |history| - 1;
      if Matches(isZsh, cmd, history[n]) then
        var rest := Sweep(isZsh, cmd, if n > 0 && IsTimestamp(history[n - 1]) then history[..n - 1] else history[..n]);
        (rest.0, rest.1 + 1)
      else
        var rest := Sweep(isZsh, cmd, history[..n]);
        (rest.0 + [history[n]], rest.1)
  }

  /** The entries that do not match and are not a timestamp directly before a match. */
  function Pruned(isZsh: bool, cmd: Text, history: seq<Text>): seq<Text> {
    if history == [] then []
    else if Dropped(isZsh, cmd, history, 0) then Pruned(isZsh, cmd, history[1..])
    else [history[0]] + Pruned(isZsh, cmd, history[1..])
  }

  predicate Dropped(isZsh: bool, cmd: Text, history: seq<Text>, j: nat)
    requires j < |history|
  {
    || Matches(isZsh, cmd, history[j])
    || (IsTimestamp(history[j]) && j + 1 < |history| && Matches(isZsh, cmd, history[j + 1]))
  }

  function MatchCount(isZsh: bool, cmd: Text, history: seq<Text>): nat {
    if history == [] then 0
    else MatchCount(isZsh, cmd, history[..|history| - 1]) + if Matches(isZsh, cmd, history[|history| - 1]) then 1 else 0
  }

  /** Every entry can be compared, as the code does with all of them. */
  ghost predicate AllReadable(isZsh: bool, history: seq<Text>) {
    forall line :: line in history ==> Readable(isZsh, line)
  }

  /** The history list of readline. */
  class SystemHistory {
    var entries: seq<Text>

    constructor (entries: seq<Text>)
      ensures this.entries == entries
    {
      this.entries := entries;
    }

    /** remove_history of readline. */
    method RemoveAt(offset: nat)
      requires offset < |entries|
      modifies this
      ensures entries == old(entries)[..offset] + old(entries)[offset + 1..]
    {
      entries := entries[..offset] + entries[offset + 1..];
    }

    /** history_mgmt_remove_from_system_history. */
    method RemoveFromSystemHistory(cmd: Text, isZsh: bool) returns (occurrences: nat)
      requires AllReadable(isZsh, entries)
      modifies this
      ensures (entries, occurrences) == Sweep(isZsh, cmd, old(entries))
    {
      hide Sweep, Decode, Readable, IsTimestamp;
      occurrences := 0;
      var offset := |entries| - 1;
      ghost var was, swept := entries, Sweep(isZsh, cmd, entries);
      ghost var tail: seq<Text> := [];
      assert was[..|was|] == was && was + tail == was;
      SweepNothing(isZsh, cmd, was);
      while offset >= 0
        invariant -1 <= offset < |was| && entries == was[..offset + 1] + tail
        invariant swept.0 == Sweep(isZsh, cmd, was[..offset + 1]).0 + tail
        invariant swept.1 == Sweep(isZsh, cmd, was[..offset + 1]).1 + occurrences
      {
        SweepStep(isZsh, cmd, was, offset, tail);
        assert entries[offset] == was[offset] && entries[offset] in entries;
        var equals := HistoryLineEquals(entries[offset], cmd, isZsh);
        if equals {
          occurrences := occurrences + 1;
          offset := RemoveMatch(offset, was, tail);
        } else {
          tail := [was[offset]] + tail;
        }
        offset := offset - 1;
      }
    }

    /** A match is removed, and the timestamp before it; the offset moves to the last entry removed. */
    method RemoveMatch(offset: nat, ghost was: seq<Text>, ghost tail: seq<Text>) returns (last: nat)
      requires offset < |was| && entries == was[..offset + 1] + tail
      modifies this
      ensures last == if offset > 0 && IsTimestamp(was[offset - 1]) then offset - 1 else offset
      ensures entries == was[..last] + tail
    {
      RemoveAt(offset);
      assert entries == was[..offset] + tail;
      last := offset;
      if offset > 0 {
        assert entries[offset - 1] == was[offset - 1];
        var timestamp := IsHistTimestamp(entries[offset - 1]);
        if timestamp {
          RemoveAt(offset - 1);
          assert entries == was[..offset - 1] + tail;
          last := offset - 1;
        }
      }
    }
  }

  lemma SweepNothing(isZsh: bool, cmd: Text, was: seq<Text>)
    ensures Sweep(isZsh, cmd, was[..0]) == ([], 0)
  {
  }

  /** One step of the sweep, on a prefix of the history followed by what was kept already. */
  lemma SweepStep(isZsh: bool, cmd: Text, was: seq<Text>, offset: nat, tail: seq<Text>)
    requires offset < |was|
    ensures var swept := Sweep(isZsh, cmd, was[..offset + 1]);
            if !Matches(isZsh, cmd, was[offset]) then
              var rest := Sweep(isZsh, cmd, was[..offset]);
              swept.0 + tail == rest.0 + ([was[offset]] + tail) && swept.1 == rest.1
            else
              var kept := if offset > 0 && IsTimestamp(was[offset - 1]) then was[..offset - 1] else was[..offset];
              var rest := Sweep(isZsh, cmd, kept);
              swept.0 == rest.0 && swept.1 == rest.1 + 1
  {
    var seen := was[..offset + 1];
    assert |seen| == offset + 1 && seen[offset] == was[offset] && seen[..offset] == was[..offset];
    if offset > 0 {
      assert seen[offset - 1] == was[offset - 1] && seen[..offset - 1] == was[..offset - 1];
    }
    var rest := Sweep(isZsh, cmd, was[..offset]).0;
    assert (rest + [was[offset]]) + tail == rest + ([was[offset]] + tail);
  }

  // ---- the sweep against the plain definition

  lemma PrunedStep(isZsh: bool, cmd: Text, history: seq<Text>)
    ensures Pruned(isZsh, cmd, history) ==
              if history == [] then []
              else if Dropped(isZsh, cmd, history, 0) then Pruned(isZsh, cmd, history[1..])
              else [history[0]] + Pruned(isZsh, cmd, history[1..])
  {
  }

  lemma {:induction false} PrunedSnoc(isZsh: bool, cmd: Text, history: seq<Text>, line: Text)
    requires !IsTimestamp(cmd)
    ensures Pruned(isZsh, cmd, history + [line]) ==
              if !Matches(isZsh, cmd, line) then Pruned(isZsh, cmd, history) + [line]
              else if history != [] && IsTimestamp(history[|history| - 1])
                then Pruned(isZsh, cmd, history[..|history| - 1])
              else Pruned(isZsh, cmd, history)
  {
    hide Pruned, Decode, IsTimestamp;
    var h, n := history + [line], |history|;
    PrunedStep(isZsh, cmd, h);
    PrunedStep(isZsh, cmd, history);
    if n == 0 {
      assert h == [line] && h[1..] == [];
      PrunedStep(isZsh, cmd, []);
    } else {
      PrunedSnoc(isZsh, cmd, history[1..], line);
      assert h[0] == history[0] && h[1..] == history[1..] + [line];
      if IsTimestamp(history[n - 1]) {
        TimestampStandsForItself(isZsh, history[n - 1]);
      }
      PrunedStep(isZsh, cmd, history[..n - 1]);
      if n == 1 {
        assert history[1..] == [] && history[..0] == [];
        PrunedStep(isZsh, cmd, []);
      } else {
        assert h[1] == history[1] && history[1..][n - 2] == history[n - 1];
        assert history[1..][..n - 2] == history[..n - 1][1..];
        assert n > 2 ==> history[..n - 1][1] == history[1];
      }
    }
  }

  /** For a command that does not itself look like a timestamp, the sweep drops exactly the matches
      and the timestamps directly before them, and counts every match. */
  lemma {:induction false} SweepIsPruned(isZsh: bool, cmd: Text, history: seq<Text>)
    requires !IsTimestamp(cmd)
    ensures Sweep(isZsh, cmd, history) == (Pruned(isZsh, cmd, history), MatchCount(isZsh, cmd, history))
    decreases |history|
  {
    hide Pruned, Decode, IsTimestamp;
    if history == [] {
      PrunedStep(isZsh, cmd, history);
    } else {
      var n := |history| - 1;
      var line, front := history[n], history[..n];
      assert history == front + [line];
      PrunedSnoc(isZsh, cmd, front, line);
      SweepIsPruned(isZsh, cmd, front);
      if n > 0 && IsTimestamp(history[n - 1]) {
        TimestampStandsForItself(isZsh, history[n - 1]);
        assert front[..n - 1] == history[..n - 1];
        SweepIsPruned(isZsh, cmd, history[..n - 1]);
      }
    }
  }

  /** No match survives any sweep. */
  lemma {:induction false} SweepLeavesNone(isZsh: bool, cmd: Text, history: seq<Text>)
    ensures forall line :: line in Sweep(isZsh, cmd, history).0 ==> line in history && !Matches(isZsh, cmd, line)
    decreases |history|
  {
    if history != [] {
      var n := |history| - 1;
      SweepLeavesNone(isZsh, cmd, history[..n]);
      if n > 0 {
        SweepLeavesNone(isZsh, cmd, history[..n - 1]);
      }
    }
  }

  /** A match that is itself a timestamp and directly precedes another match: it may be dropped as that
      match's timestamp, and then it is not counted. */
  ghost predicate Swallowed(isZsh: bool, cmd: Text, history: seq<Text>, j: nat)
    requires j + 1 < |history|
  {
    IsTimestamp(history[j]) && Matches(isZsh, cmd, history[j]) && Matches(isZsh, cmd, history[j + 1])
  }

  lemma {:induction false} SweepCountsAtMost(isZsh: bool, cmd: Text, history: seq<Text>)
    ensures Sweep(isZsh, cmd, history).1 <= MatchCount(isZsh, cmd, history)
    decreases |history|
  {
    if history != [] {
      var n := |history| - 1;
      SweepCountsAtMost(isZsh, cmd, history[..n]);
      if n > 0 {
        assert history[..n][..n - 1] == history[..n - 1];
        SweepCountsAtMost(isZsh, cmd, history[..n - 1]);
      }
    }
  }

  /** No match among the first n entries is swallowed. */
  ghost predicate NoneSwallowed(isZsh: bool, cmd: Text, history: seq<Text>, n: nat)
    requires n <= |history|
  {
    forall j :: 0 <= j < n - 1 ==> !Swallowed(isZsh, cmd, history, j)
  }

  lemma NoneSwallowedPrefix(isZsh: bool, cmd: Text, history: seq<Text>, n: nat)
    requires n <= |history|
    ensures NoneSwallowed(isZsh, cmd, history[..n], n) == NoneSwallowed(isZsh, cmd, history, n)
  {
    assert forall j :: 0 <= j < n - 1 ==> Swallowed(isZsh, cmd, history[..n], j) == Swallowed(isZsh, cmd, history, j);
  }

  lemma NoneSwallowedStep(isZsh: bool, cmd: Text, history: seq<Text>, n: nat)
    requires 2 <= n <= |history|
    ensures NoneSwallowed(isZsh, cmd, history, n)
         == (NoneSwallowed(isZsh, cmd, history, n - 1) && !Swallowed(isZsh, cmd, history, n - 2))
  {
    hide Swallowed;
  }

  /** The returned count is the number of matches exactly if no match that looks like a timestamp is
      directly followed by another match. */
  lemma {:induction false} SweepCountsAll(isZsh: bool, cmd: Text, history: seq<Text>)
    ensures Sweep(isZsh, cmd, history).1 == MatchCount(isZsh, cmd, history)
       <==> NoneSwallowed(isZsh, cmd, history, |history|)
    decreases |history|
  {
    if |history| >= 2 {
      var n := |history| - 1;
      var front := history[..n];
      SweepCountsAll(isZsh, cmd, front);
      NoneSwallowedPrefix(isZsh, cmd, history, n);
      NoneSwallowedStep(isZsh, cmd, history, n + 1);
      if Matches(isZsh, cmd, history[n]) && IsTimestamp(history[n - 1]) {
        var before := history[..n - 1];
        assert front[..n - 1] == before && front[n - 1] == history[n - 1];
        SweepCountsAll(isZsh, cmd, before);
        SweepCountsAtMost(isZsh, cmd, before);
        NoneSwallowedPrefix(isZsh, cmd, history, n - 1);
        if n >= 2 {
          NoneSwallowedStep(isZsh, cmd, history, n);
        } else {
          NoneSwallowedShort(isZsh, cmd, history, n);
        }
      }
    } else {
      NoneSwallowedShort(isZsh, cmd, history, |history|);
      if |history| == 1 {
        assert history[..0] == [];
      }
    }
  }

  lemma NoneSwallowedShort(isZsh: bool, cmd: Text, history: seq<Text>, n: nat)
    requires n <= |history| && n < 2
    ensures NoneSwallowed(isZsh, cmd, history, n)
  {
  }

  // ---- commands that look like timestamps

  /** In Bash no command of the raw view looks like a timestamp, so none can be deleted. */
  lemma {:induction false} BashCommandIsNoTimestamp(cmd: Text, history: seq<Text>)
    requires cmd in RawImage(false, history)
    ensures !IsTimestamp(cmd)
  {
    var n := |history| - 1;
    if IsTimestamp(history[n]) || cmd in RawImage(false, history[..n]) {
      BashCommandIsNoTimestamp(cmd, history[..n]);
    }
  }

  const START: Text := [49, 49, 49, 49, 49, 49, 49, 49, 49, 49]
  const ELAPSED: Text := [48]
  const TIMESTAMP_A: Text := [35] + START
  const TIMESTAMP_B: Text := [35, 50] + START

  /** What zsh writes when cmd is used as a command. */
  function Extended(cmd: Text): Text {
    [':' as int, ' ' as int] + START + [':' as int] + ELAPSED + [';' as int] + cmd
  }

  lemma ExtendedStandsForCommand(cmd: Text)
    requires IsTimestamp(cmd)
    ensures var line := Extended(cmd); !IsTimestamp(line) && Readable(true, line) && Decode(true, line) == cmd
    ensures Readable(true, cmd) && Decode(true, cmd) == cmd
  {
    TimestampStandsForItself(true, cmd);
    forall i | 0 <= i < |cmd| ensures cmd[i] != ZSH_META && cmd[i] != 0 {
      assert i > 0 ==> cmd[i] == cmd[1..][i - 1];
    }
    UnmetafyWithoutMeta(cmd);
    ExtendedIsParsed(Extended(cmd), START, ELAPSED, cmd);
  }

  /** In zsh a command can look like a timestamp, and then the plain definition fails: of the command, another
      timestamp and two lines that are the command's own text, one is swallowed and the other timestamp stays. The
      command is in the raw view, so it can be deleted there. */
  lemma SweepOfTimestampDiffers(cmd: Text) returns (history: seq<Text>)
    requires IsTimestamp(cmd)
    ensures AllReadable(true, history) && cmd in RawImage(true, history)
    ensures Sweep(true, cmd, history).0 != Pruned(true, cmd, history)
    ensures Sweep(true, cmd, history).1 == 2 && MatchCount(true, cmd, history) == 3
  {
    hide Decode, IsTimestamp, Readable, Extended;
    var line := Extended(cmd);
    var other := AnotherTimestamp(cmd);
    ExtendedStandsForCommand(cmd);
    ExtendedStandsForCommand(other);
    history := [line, other, cmd, cmd];
    var one, two, three := [line], [line, other], [line, other, cmd];
    assert history[..3] == three && history[..2] == three[..2] == two && two[..1] == one && one[..0] == [];
    assert !Matches(true, cmd, other) && Sweep(true, cmd, one) == ([], 1);
    var none: seq<Text> := [];
    assert none + [other] == [other];
    assert Sweep(true, cmd, two) == (none + [other], 1);
    assert MatchCount(true, cmd, one) == 1 && MatchCount(true, cmd, two) == 1 && MatchCount(true, cmd, three) == 2;
    assert RawImage(true, one) == [cmd] + RawImage(true, []) == [cmd];
    assert RawImage(true, two) == [cmd] && RawImage(true, three) == [cmd];
    assert history[1..] == [other, cmd, cmd] && [other, cmd, cmd][1..] == [cmd, cmd] && [cmd, cmd][1..] == [cmd];
    PrunedStep(true, cmd, history);
    PrunedStep(true, cmd, [other, cmd, cmd]);
    PrunedStep(true, cmd, [cmd, cmd]);
    PrunedStep(true, cmd, [cmd]);
  }

  lemma AnotherTimestamp(cmd: Text) returns (other: Text)
    ensures IsTimestamp(other) && other != cmd
  {
    other := if cmd == TIMESTAMP_A then TIMESTAMP_B else TIMESTAMP_A;
  }

  /** If the command can be deleted from the history at all, the plain definition describes the sweep. */
  ghost predicate PlainlySwept(isZsh: bool, cmd: Text, history: seq<Text>) {
    AllReadable(isZsh, history) && cmd in RawImage(isZsh, history) ==>
      Sweep(isZsh, cmd, history) == (Pruned(isZsh, cmd, history), MatchCount(isZsh, cmd, history))
  }

  /** It does for every history exactly if the shell is not zsh or the command does not look like a timestamp. */
  lemma SweepIsPrunedExactly(isZsh: bool, cmd: Text)
    ensures (forall history :: PlainlySwept(isZsh, cmd, history)) <==> !(isZsh && IsTimestamp(cmd))
  {
    if isZsh && IsTimestamp(cmd) {
      var history := SweepOfTimestampDiffers(cmd);
      assert !PlainlySwept(isZsh, cmd, history);
    } else {
      forall history ensures PlainlySwept(isZsh, cmd, history) {
        if cmd in RawImage(isZsh, history) {
          if !isZsh {
            BashCommandIsNoTimestamp(cmd, history);
          }
          SweepIsPruned(isZsh, cmd, history);
        }
      }
    }
  }

  // ---- the raw view

  /** What was added to a history comes first in its raw view. */
  lemma {:induction false} RawImageConcat(isZsh: bool, a: seq<Text>, b: seq<Text>)
    ensures RawImage(isZsh, a + b) == RawImage(isZsh, b) + RawImage(isZsh, a)
  {
    hide Decode, IsTimestamp;
    if b == [] {
      assert a + b == a;
    } else {
      RawImageConcat(isZsh, a, b[..|b| - 1]);
      assert (a + b)[..|a + b| - 1] == a + b[..|b| - 1];
    }
  }

  /** Sweeping a command out of the system history and filtering it out of the raw view keep the raw
      view the image of the system history; this holds for every command. */
  lemma {:induction false} SweptImage(isZsh: bool, cmd: Text, history: seq<Text>)
    ensures RawImage(isZsh, Sweep(isZsh, cmd, history).0) == Others(RawImage(isZsh, history), cmd)
    decreases |history|
  {
    if history != [] {
      var n := |history| - 1;
      var line, front := history[n], history[..n];
      SweptImage(isZsh, cmd, front);
      if Matches(isZsh, cmd, line) {
        if n > 0 && IsTimestamp(history[n - 1]) {
          assert front[..n - 1] == history[..n - 1];
          SweptImage(isZsh, cmd, history[..n - 1]);
        }
        OthersHead(cmd, RawImage(isZsh, front), cmd);
      } else {
        var last: seq<Text> := [line];
        RawImageConcat(isZsh, Sweep(isZsh, cmd, front).0, last);
        assert last[..0] == [];
        OthersHead(Decode(isZsh, line), RawImage(isZsh, front), cmd);
      }
    }
  }

  // ---- the two counts

  predicate StampMatch(isZsh: bool, cmd: Text, line: Text) {
    IsTimestamp(line) && Matches(isZsh, cmd, line)
  }

  predicate PlainMatch(isZsh: bool, cmd: Text, line: Text) {
    !IsTimestamp(line) && Matches(isZsh, cmd, line)
  }

  /** The matches that are raw lines: those that are not timestamps. */
  function PlainCount(isZsh: bool, cmd: Text, history: seq<Text>): nat {
    if history == [] then 0
    else
      var n := |history| - 1;
      PlainCount(isZsh, cmd, history[..n]) + if PlainMatch(isZsh, cmd, history[n]) then 1 else 0
  }

  /** The raw view loses just those. */
  lemma {:induction false} RawCountIsPlain(isZsh: bool, cmd: Text, history: seq<Text>)
    ensures |RawImage(isZsh, history)| - |Others(RawImage(isZsh, history), cmd)| == PlainCount(isZsh, cmd, history)
  {
    if history != [] {
      var n := |history| - 1;
      RawCountIsPlain(isZsh, cmd, history[..n]);
      if !IsTimestamp(history[n]) {
        OthersHead(Decode(isZsh, history[n]), RawImage(isZsh, history[..n]), cmd);
      }
    }
  }

  /** Among the first n entries every match that is a timestamp is directly followed by a match that is none. */
  ghost predicate StampsCovered(isZsh: bool, cmd: Text, history: seq<Text>, n: nat)
    requires n <= |history|
  {
    forall j :: 0 <= j < n && StampMatch(isZsh, cmd, history[j]) ==> j + 1 < n && PlainMatch(isZsh, cmd, history[j + 1])
  }

  lemma StampsCoveredPrefix(isZsh: bool, cmd: Text, history: seq<Text>, n: nat)
    requires n <= |history|
    ensures StampsCovered(isZsh, cmd, history[..n], n) == StampsCovered(isZsh, cmd, history, n)
  {
    hide StampMatch, PlainMatch;
    assert forall j :: 0 <= j < n ==> history[..n][j] == history[j];
  }

  lemma StampsCoveredStep(isZsh: bool, cmd: Text, history: seq<Text>, n: nat)
    requires n < |history|
    ensures StampMatch(isZsh, cmd, history[n]) ==> !StampsCovered(isZsh, cmd, history, n + 1)
    ensures !Matches(isZsh, cmd, history[n]) ==>
              StampsCovered(isZsh, cmd, history, n + 1) == StampsCovered(isZsh, cmd, history, n)
    ensures PlainMatch(isZsh, cmd, history[n]) ==>
              StampsCovered(isZsh, cmd, history, n + 1) ==
                StampsCovered(isZsh, cmd, history, if n > 0 && IsTimestamp(history[n - 1]) then n - 1 else n)
  {
    hide IsTimestamp, Matches;
    if PlainMatch(isZsh, cmd, history[n]) && n > 0 && IsTimestamp(history[n - 1]) {
      assert n > 1 && StampMatch(isZsh, cmd, history[n - 2]) ==> !PlainMatch(isZsh, cmd, history[n - 1]);
    }
  }

  /** The system history loses at least as many entries to the command as the raw view loses lines, and the counts
      are equal exactly if every match that is a timestamp is directly followed by a match that is none. */
  lemma {:induction false} CountsAgreeExactly(isZsh: bool, cmd: Text, history: seq<Text>)
    ensures Sweep(isZsh, cmd, history).1 >= PlainCount(isZsh, cmd, history)
    ensures Sweep(isZsh, cmd, history).1 == PlainCount(isZsh, cmd, history)
       <==> StampsCovered(isZsh, cmd, history, |history|)
    decreases |history|
  {
    hide StampsCovered, Matches, IsTimestamp;
    if history == [] {
      NoStamps(isZsh, cmd, history);
    } else {
      var n := |history| - 1;
      var front := history[..n];
      CountsAgreeExactly(isZsh, cmd, front);
      StampsCoveredPrefix(isZsh, cmd, history, n);
      StampsCoveredStep(isZsh, cmd, history, n);
      if n > 0 {
        assert front[n - 1] == history[n - 1] && front[..n - 1] == history[..n - 1];
        CountsAgreeExactly(isZsh, cmd, history[..n - 1]);
        StampsCoveredPrefix(isZsh, cmd, history, n - 1);
      }
    }
  }

  lemma NoStamps(isZsh: bool, cmd: Text, history: seq<Text>)
    requires history == [] || !IsTimestamp(cmd)
    ensures StampsCovered(isZsh, cmd, history, |history|)
  {
    forall j | 0 <= j < |history| ensures !StampMatch(isZsh, cmd, history[j]) {
      if IsTimestamp(history[j]) {
        TimestampStandsForItself(isZsh, history[j]);
      }
    }
  }

  /** The number of entries a deletion takes from the system history, against the number of lines it takes from the
      raw view: equal for every command that does not look like a timestamp, so for every command of a Bash history. */
  lemma CountsAgree(isZsh: bool, cmd: Text, history: seq<Text>)
    ensures var lost := |RawImage(isZsh, history)| - |Others(RawImage(isZsh, history), cmd)|;
            && Sweep(isZsh, cmd, history).1 >= lost
            && (Sweep(isZsh, cmd, history).1 == lost <==> StampsCovered(isZsh, cmd, history, |history|))
            && (!IsTimestamp(cmd) ==> Sweep(isZsh, cmd, history).1 == lost)
  {
    hide StampsCovered, Sweep, PlainCount, IsTimestamp;
    CountsAgreeExactly(isZsh, cmd, history);
    RawCountIsPlain(isZsh, cmd, history);
    if !IsTimestamp(cmd) {
      NoStamps(isZsh, cmd, history);
    }
  }

  // ---- a history of records

  /** A command, with its timestamp or without. */
  datatype Record = Record(stamp: Option<Text>, line: Text)

  /** The entries of some records. */
  function Entries(records: seq<Record>): seq<Text> {
    if records == [] then []
    else
      var n := |records| - 1;
      Entries(records[..n]) + Stamps(records[n]) + [records[n].line]
  }

  predicate IsRecord(record: Record) {
    !IsTimestamp(record.line) && (record.stamp.Some? ==> IsTimestamp(record.stamp.value))
  }

  /** On a history of records a deletion takes exactly the records of the command, each with its own timestamp, and
      counts them. */
  lemma {:induction false} SweepTakesRecords(isZsh: bool, cmd: Text, records: seq<Record>)
    requires (forall record :: record in records ==> IsRecord(record)) && !IsTimestamp(cmd)
    ensures var kept := Filter((r: Record) => Decode(isZsh, r.line) != cmd, records);
            Sweep(isZsh, cmd, Entries(records)) == (Entries(kept), |records| - |kept|)
    decreases |records|
  {
    hide Decode, Sweep, Entries, IsTimestamp, Filter;
    var keep := (r: Record) => Decode(isZsh, r.line) != cmd;
    if records == [] {
      NoEntries(isZsh, cmd, records);
    } else {
      var n := |records| - 1;
      var front, last := records[..n], records[n];
      assert last in records && (n > 0 ==> front[n - 1] in records);
      SweepTakesRecords(isZsh, cmd, front);
      EntriesEnd(front);
      SweepRecord(isZsh, cmd, Entries(front), last);
      assert records == front + [last];
      FilterSnoc(keep, front, last);
      EntriesSnoc(front, last);
      EntriesSnoc(Filter(keep, front), last);
    }
  }

  lemma NoEntries(isZsh: bool, cmd: Text, records: seq<Record>)
    requires records == []
    ensures Entries(records) == [] && Sweep(isZsh, cmd, Entries(records)) == ([], 0)
    ensures Filter((r: Record) => Decode(isZsh, r.line) != cmd, records) == []
  {
  }

  function Stamps(record: Record): seq<Text> {
    if record.stamp.Some? then [record.stamp.value] else []
  }

  lemma EntriesEnd(records: seq<Record>)
    ensures records == [] <==> Entries(records) == []
    ensures records != [] ==> Entries(records)[|Entries(records)| - 1] == records[|records| - 1].line
  {
  }

  lemma EntriesSnoc(records: seq<Record>, record: Record)
    ensures Entries(records + [record]) == Entries(records) + Stamps(record) + [record.line]
  {
    assert (records + [record])[..|records|] == records;
  }

  lemma SweepSnoc(isZsh: bool, cmd: Text, front: seq<Text>, line: Text)
    ensures Sweep(isZsh, cmd, front + [line]) ==
              if Decode(isZsh, line) != cmd then (Sweep(isZsh, cmd, front).0 + [line], Sweep(isZsh, cmd, front).1)
              else
                var rest := Sweep(isZsh, cmd, if front != [] && IsTimestamp(front[|front| - 1])
                                              then front[..|front| - 1] else front);
                (rest.0, rest.1 + 1)
  {
    hide Decode, IsTimestamp;
    var history := front + [line];
    assert history[..|front|] == front && (front != [] ==> history[..|front| - 1] == front[..|front| - 1]);
  }

  /** A record at the end of a history goes as a whole, or stays as a whole. */
  lemma SweepRecord(isZsh: bool, cmd: Text, front: seq<Text>, record: Record)
    requires front == [] || !IsTimestamp(front[|front| - 1])
    requires IsRecord(record) && !IsTimestamp(cmd)
    ensures var rest := Sweep(isZsh, cmd, front);
            Sweep(isZsh, cmd, front + Stamps(record) + [record.line]) ==
              if Decode(isZsh, record.line) == cmd then (rest.0, rest.1 + 1)
              else (rest.0 + Stamps(record) + [record.line], rest.1)
  {
    hide Decode, IsTimestamp, Sweep;
    SweepSnoc(isZsh, cmd, front + Stamps(record), record.line);
    if record.stamp.Some? {
      TimestampStandsForItself(isZsh, record.stamp.value);
      SweepSnoc(isZsh, cmd, front, record.stamp.value);
      assert (front + Stamps(record))[..|front|] == front;
    } else {
      assert front + Stamps(record) == front;
      assert Sweep(isZsh, cmd, front).0 + Stamps(record) == Sweep(isZsh, cmd, front).0;
    }
  }
}
