/** Deleting from the history views (remove_from_history_model of src/hstr.c): three lists, three
    algorithms, and one agreement that every deletion keeps. */
module HistoryModel {
  import opened Bytes
  import opened Deletion
  import opened History
  import opened Loading
  import opened RadixSort
  import opened Ranking
  import opened ZshLine

  /** The lines of a ranking that are in the raw view. */
  function StillIn(raw: seq<Text>, ranking: seq<Text>): seq<Text> {
    Filter((c: Text) => c in raw, ranking)
  }

  /** The ranked lines that are still in the raw view, after one more command is gone from both. */
  lemma RankedFollowsRaw(cmd: Text, ranking: seq<Text>, raw: seq<Text>)
    ensures var fewer := Others(raw, cmd);
            Others(StillIn(raw, ranking), cmd) == StillIn(fewer, ranking)
  {
    var fewer := Others(raw, cmd);
    OthersHas(raw, cmd);
    FilterTwice((line: Text) => line != cmd, (c: Text) => c in raw, (c: Text) => c in fewer, ranking);
  }

  lemma {:induction false} FilterTwice(f: Text -> bool, g: Text -> bool, both: Text -> bool, s: seq<Text>)
    requires forall x :: both(x) <==> f(x) && g(x)
    ensures Filter(f, Filter(g, s)) == Filter(both, s)
  {
    if s != [] {
      FilterTwice(f, g, both, s[1..]);
      var rest := Filter(g, s[1..]);
      assert ([s[0]] + rest)[1..] == rest;
    }
  }

  /** The lines that are not among those gone. */
  function Except(lines: seq<Text>, gone: set<Text>): seq<Text> {
    Filter((line: Text) => line !in gone, lines)
  }

  lemma ExceptMore(lines: seq<Text>, gone: set<Text>, line: Text)
    ensures Others(Except(lines, gone), line) == Except(lines, gone + {line})
  {
    FilterTwice((x: Text) => x != line, (x: Text) => x !in gone, (x: Text) => x !in gone + {line}, lines);
  }

  lemma ExceptNone(lines: seq<Text>)
    ensures Except(lines, {}) == lines
  {
    var gone: set<Text> := {};
    FilterAll((line: Text) => line !in gone, lines);
  }

  /** What a run of deletions leaves of the system history: a command is swept out of it if it is in the raw view. */
  function SweepAll(isZsh: bool, commands: seq<Text>, entries: seq<Text>): seq<Text>
    decreases |commands|
  {
    if commands == [] then entries
    else
      var before, cmd := SweepAll(isZsh, commands[..|commands| - 1], entries), commands[|commands| - 1];
      if cmd in RawImage(isZsh, before) then Sweep(isZsh, cmd, before).0 else before
  }

  lemma OneMoreCommand(isZsh: bool, commands: seq<Text>, i: nat, entries: seq<Text>)
    requires i < |commands|
    ensures var before := SweepAll(isZsh, commands[..i], entries);
            SweepAll(isZsh, commands[..i + 1], entries) ==
              if commands[i] in RawImage(isZsh, before) then Sweep(isZsh, commands[i], before).0 else before
    ensures ToSet(commands[..i + 1]) == ToSet(commands[..i]) + {commands[i]}
  {
    assert commands[..i + 1][..i] == commands[..i] && commands[..i + 1] == commands[..i] + [commands[i]];
  }

  /** The three histories that a deletion has to keep in agreement: the system history, the raw view and
      the ranked view. */
  class Views {
    const system: SystemHistory
    const history: HistoryItems
    const isZsh: bool
    // the ranking as it was loaded
    ghost const ranking: seq<Text>

    /** The raw view is the image of the system history, and the ranked view is the loaded ranking without
        the commands that are gone. */
    ghost predicate Valid()
      reads this, system, history, history.items, history.rawItems
      ensures Valid() ==> history.Valid()
    {
      && history.Valid() && AllReadable(isZsh, system.entries)
      && history.Raw() == RawImage(isZsh, system.entries)
      && history.Ranked() == StillIn(history.Raw(), ranking)
    }

    constructor (system: SystemHistory, history: HistoryItems, isZsh: bool)
      requires history.Valid() && AllReadable(isZsh, system.entries)
      requires history.Raw() == RawImage(isZsh, system.entries)
      requires forall c :: c in history.Ranked() ==> c in history.Raw()
      ensures Valid() && ranking == history.Ranked()
      ensures this.system == system && this.history == history && this.isZsh == isZsh
    {
      this.system, this.history, this.isZsh := system, history, isZsh;
      this.ranking := history.Ranked();
      new;
      var raw := history.Raw();
      FilterAll((c: Text) => c in raw, ranking);
    }

    lemma RawIsImage()
      requires Valid()
      ensures history.Raw() == RawImage(isZsh, system.entries)
    {
    }

    /** The history half of remove_from_history_model. */
    method Remove(cmd: Text) returns (systemOccurrences: nat)
      requires Valid()
      modifies system, history, history.items, history.rawItems
      ensures Valid()
      ensures history.Raw() == Others(old(history.Raw()), cmd)
      ensures history.Ranked() == Others(old(history.Ranked()), cmd)
      ensures system.entries ==
                if cmd in old(history.Raw()) then Sweep(isZsh, cmd, old(system.entries)).0 else old(system.entries)
      ensures systemOccurrences == if cmd in old(history.Raw()) then Sweep(isZsh, cmd, old(system.entries)).1 else 0
      ensures systemOccurrences == |old(history.Raw())| - |history.Raw()| <==>
                cmd !in old(history.Raw()) || StampsCovered(isZsh, cmd, old(system.entries), |old(system.entries)|)
      ensures !isZsh || !IsTimestamp(cmd) ==> systemOccurrences == |old(history.Raw())| - |history.Raw()|
    {
      ghost var raw, entries := history.Raw(), system.entries;
      RankedFollowsRaw(cmd, ranking, raw);
      OthersHas(raw, cmd);
      SweptImage(isZsh, cmd, entries);
      SweepLeavesNone(isZsh, cmd, entries);
      CountsAgree(isZsh, cmd, entries);
      if !isZsh && cmd in raw {
        BashCommandIsNoTimestamp(cmd, entries);
      }
      OthersFewer(raw, cmd);
      systemOccurrences := 0;
      var rawOccurrences := history.RemoveFromRaw(cmd);
      var rankedOccurrences := history.RemoveFromRanked(cmd);
      if rawOccurrences > 0 {
        systemOccurrences := system.RemoveFromSystemHistory(cmd, isZsh);
      }
    }
  }

  /** Deleting one command after the other: the views lose these commands and nothing else, and the system history is
      swept of them. */
  method RemoveAll(views: Views, commands: seq<Text>)
    requires views.Valid()
    modifies views.system, views.history, views.history.items, views.history.rawItems
    ensures views.Valid()
    ensures views.history.Raw() == Except(old(views.history.Raw()), ToSet(commands))
    ensures views.history.Ranked() == Except(old(views.history.Ranked()), ToSet(commands))
    ensures views.system.entries == SweepAll(views.isZsh, commands, old(views.system.entries))
  {
    hide Views.Valid, HistoryItems.Valid, HistoryItems.Raw, HistoryItems.Ranked, Others, Except, Sweep, SweepAll,
         RawImage, StampsCovered;
    ghost var raw, ranked, entries := views.history.Raw(), views.history.Ranked(), views.system.entries;
    NothingRemoved(views.isZsh, commands, raw, ranked, entries);
    for i := 0 to |commands|
      invariant views.Valid()
      invariant views.history.Raw() == Except(raw, ToSet(commands[..i]))
      invariant views.history.Ranked() == Except(ranked, ToSet(commands[..i]))
      invariant views.system.entries == SweepAll(views.isZsh, commands[..i], entries)
    {
      ExceptMore(raw, ToSet(commands[..i]), commands[i]);
      ExceptMore(ranked, ToSet(commands[..i]), commands[i]);
      OneMoreCommand(views.isZsh, commands, i, entries);
      views.RawIsImage();
      var occurrences := views.Remove(commands[i]);
    }
    assert commands[..|commands|] == commands;
  }

  lemma NothingRemoved(isZsh: bool, commands: seq<Text>, raw: seq<Text>, ranked: seq<Text>, entries: seq<Text>)
    ensures var none := ToSet(commands[..0]);
            && raw == Except(raw, none) && ranked == Except(ranked, none)
            && entries == SweepAll(isZsh, commands[..0], entries)
  {
    assert ToSet(commands[..0]) == {};
    ExceptNone(raw);
    ExceptNone(ranked);
  }

  /** Loading a history and deleting any commands from its raw or ranked view, one after the other: the raw view is
      the image of the lines that were loaded and the ranked view is their ranking, each in its order and without
      exactly these commands, and the system history is swept of them. */
  method LoadAndDelete(lines: seq<Text>, size: nat, blacklist: set<Text>, isZsh: bool, optionBigKeys: BigKeys,
                       metrics: (nat, nat, nat) -> nat, commands: seq<Text>) returns (views: Views?)
    requires |lines| <= size
    requires Loadable(Params(metrics, KeyLimit(size), optionBigKeys), isZsh, blacklist, lines)
    ensures views == null <==> lines == []
    ensures views != null ==> views.Valid() && views.isZsh == isZsh
    ensures views != null ==>
              IsRanking(Params(metrics, KeyLimit(size), optionBigKeys), Events(isZsh, blacklist, lines), |lines|,
                        views.ranking)
    ensures views != null ==>
              && views.history.Raw() == Except(RawImage(isZsh, lines), ToSet(commands))
              && views.history.Ranked() == Except(views.ranking, ToSet(commands))
              && views.system.entries == SweepAll(isZsh, commands, lines)
  {
    var p := Params(metrics, KeyLimit(size), optionBigKeys);
    var history := PrioritizedHistoryCreate(lines, size, blacklist, isZsh, optionBigKeys, metrics);
    if history == null {
      return null;
    }
    ViewsAgreeOnLoad(p, isZsh, blacklist, lines, history.Ranked());
    var system := new SystemHistory(lines);
    views := new Views(system, history, isZsh);
    RemoveAll(views, commands);
  }
}
