/** Choosing the lines to show for a pattern: hstr_make_selection of src/hstr.c and hstr_selection_add of
    src/hstr_selection.c. */
module Selection {
  import opened Bytes

  datatype Matching = Substring | Regexp | Keywords

  /** What a search depends on beside the pattern: the matching, the case, the folding of strcasestr, and
      the regular expression engine (pattern, line, place of the match). */
  datatype Search = Search(matching: Matching, caseSensitive: bool, fold: Byte -> Byte,
                           regexp: (Text, Text) -> Option<(int, int)>)

  // ---- substrings

  function Fold(search: Search, s: Text): (folded: Text)
    ensures |folded| == |s|
  {
    if search.caseSensitive then s else seq(|s|, i requires 0 <= i < |s| => search.fold(s[i]))
  }

  predicate OccursAt(hay: Text, needle: Text, i: nat) {
    i + |needle| <= |hay| && hay[i..i + |needle|] == needle
  }

  /** strstr: the first place of needle from i on, or -1. */
  function FindFrom(hay: Text, needle: Text, i: nat): (at: int)
    requires i <= |hay|
    ensures at == -1 <==> forall k :: i <= k <= |hay| ==> !OccursAt(hay, needle, k)
    ensures at != -1 ==>
              i <= at <= |hay| && OccursAt(hay, needle, at) && forall k :: i <= k < at ==> !OccursAt(hay, needle, k)
    decreases |hay| - i
  {
    if OccursAt(hay, needle, i) then i else if i == |hay| then -1 else FindFrom(hay, needle, i + 1)
  }

  /** strstr or strcasestr. */
  function Find(search: Search, line: Text, needle: Text): int {
    FindFrom(Fold(search, line), Fold(search, needle), 0)
  }

  predicate Contains(search: Search, line: Text, needle: Text) {
    Find(search, line, needle) != -1
  }

  /** A line that contains a string contains every piece of it. */
  lemma ContainsPiece(search: Search, line: Text, needle: Text, from: nat, to: nat)
    requires from <= to <= |needle| && Contains(search, line, needle)
    ensures Contains(search, line, needle[from..to])
  {
    hide Fold, OccursAt;
    var hay, whole, piece := Fold(search, line), Fold(search, needle), Fold(search, needle[from..to]);
    FoldPiece(search, needle, from, to);
    PieceOccurs(hay, whole, Find(search, line, needle), from, to);
  }

  lemma FoldPiece(search: Search, s: Text, from: nat, to: nat)
    requires from <= to <= |s|
    ensures Fold(search, s[from..to]) == Fold(search, s)[from..to]
  {
  }

  lemma PieceOccurs(hay: Text, needle: Text, at: nat, from: nat, to: nat)
    requires from <= to <= |needle| && OccursAt(hay, needle, at)
    ensures OccursAt(hay, needle[from..to], at + from)
  {
    OccursIs(hay, needle, at);
    OccursIs(hay, needle[from..to], at + from);
    forall j | 0 <= j < to - from ensures hay[at + from + j] == needle[from..to][j] {
      assert hay[at + (from + j)] == needle[from + j];
    }
  }

  // ---- keywords

  const SPACE: Byte := 32

  /** The tokens of strtok_r with a blank as the delimiter. */
  function Tokens(s: Text): seq<Text> {
    if s == [] then []
    else
      var n := |s| - 1;
      var tokens := Tokens(s[..n]);
      if s[n] == SPACE then tokens
      else if n == 0 || s[n - 1] == SPACE || tokens == [] then tokens + [[s[n]]]
      else tokens[..|tokens| - 1] + [tokens[|tokens| - 1] + [s[n]]]
  }

  predicate ContainsAll(search: Search, line: Text, tokens: seq<Text>) {
    forall i :: 0 <= i < |tokens| ==> Contains(search, line, tokens[i])
  }

  lemma TokensSpace(s: Text, n: nat)
    requires n < |s| && s[n] == SPACE
    ensures Tokens(s[..n + 1]) == Tokens(s[..n])
  {
    assert s[..n + 1][..n] == s[..n];
  }

  /** The first character of a word starts a token. */
  lemma TokenStarts(s: Text, n: nat)
    requires n < |s| && s[n] != SPACE && (n == 0 || s[n - 1] == SPACE)
    ensures Tokens(s[..n + 1]) == Tokens(s[..n]) + [[s[n]]]
  {
    assert s[..n + 1][..n] == s[..n] && (n > 0 ==> s[..n + 1][n - 1] == s[n - 1]);
  }

  /** Any other character of a word continues the last token. */
  lemma TokenContinues(s: Text, n: nat, before: seq<Text>, token: Text)
    requires 0 < n < |s| && s[n] != SPACE && s[n - 1] != SPACE && Tokens(s[..n]) == before + [token]
    ensures Tokens(s[..n + 1]) == before + [token + [s[n]]]
  {
    assert s[..n + 1][..n] == s[..n] && s[..n + 1][n - 1] == s[n - 1];
    assert (before + [token])[..|before|] == before;
  }

  /** A token starts after a blank or at the start, and grows up to the next blank. */
  lemma {:induction false} TokensGrow(s: Text, start: nat, end: nat)
    requires start < end <= |s| && (start == 0 || s[start - 1] == SPACE)
    requires forall k :: start <= k < end ==> s[k] != SPACE
    ensures Tokens(s[..end]) == Tokens(s[..start]) + [s[start..end]]
  {
    hide Tokens;
    if start < end - 1 {
      TokensGrow(s, start, end - 1);
      TokenContinues(s, end - 1, Tokens(s[..start]), s[start..end - 1]);
      assert s[start..end] == s[start..end - 1] + [s[end - 1]];
    } else {
      TokenStarts(s, start);
      assert s[start..end] == [s[start]];
    }
  }

  lemma NoTokens(search: Search, line: Text, s: Text)
    requires s == []
    ensures Tokens(s) == [] && ContainsAll(search, line, [])
  {
  }

  lemma ContainsAllSnoc(search: Search, line: Text, tokens: seq<Text>, token: Text)
    ensures ContainsAll(search, line, tokens + [token])
         == (ContainsAll(search, line, tokens) && Contains(search, line, token))
  {
    var more := tokens + [token];
    assert more[|tokens|] == token && forall i :: 0 <= i < |tokens| ==> more[i] == tokens[i];
  }

  /** The strtok_r loop over the keywords of a pattern. */
  method AllKeywordsIn(search: Search, line: Text, pattern: Text) returns (all: bool)
    ensures all == ContainsAll(search, line, Tokens(pattern))
  {
    hide Tokens, ContainsAll, Contains;
    all := true;
    var pos: nat := 0;
    assert Tokens(pattern[..0]) == [] && ContainsAll(search, line, []) by {
      NoTokens(search, line, pattern[..0]);
    }
    while pos < |pattern|
      invariant pos <= |pattern| && all == ContainsAll(search, line, Tokens(pattern[..pos]))
      invariant pos == 0 || pos == |pattern| || pattern[pos - 1] == SPACE
      decreases |pattern| - pos
    {
      if pattern[pos] == SPACE {
        TokensSpace(pattern, pos);
        pos := pos + 1;
      } else {
        var end: nat := pos + 1;
        while end < |pattern| && pattern[end] != SPACE
          invariant pos < end <= |pattern| && forall k :: pos <= k < end ==> pattern[k] != SPACE
        {
          end := end + 1;
        }
        TokensGrow(pattern, pos, end);
        ContainsAllSnoc(search, line, Tokens(pattern[..pos]), pattern[pos..end]);
        if !Contains(search, line, pattern[pos..end]) {
          all := false;
        }
        if end < |pattern| {
          TokensSpace(pattern, end);
          end := end + 1;
        }
        pos := end;
      }
    }
    assert pattern[..|pattern|] == pattern;
  }

  // ---- what is selected

  /** First pass of the substring matching: the pattern is at the start of the line. */
  predicate StartsWith(search: Search, pattern: Text, line: Text) {
    Find(search, line, pattern) == 0
  }

  /** Second pass: the pattern is somewhere else in the line. */
  predicate HasInside(search: Search, pattern: Text, line: Text) {
    Find(search, line, pattern) > 0
  }

  predicate Selected(search: Search, pattern: Text, line: Text) {
    pattern == [] ||
    match search.matching
    case Substring => StartsWith(search, pattern, line)
    case Regexp => search.regexp(pattern, line).Some?
    case Keywords => ContainsAll(search, line, Tokens(pattern))
  }

  function SelectedBy(search: Search, pattern: Text): Text -> bool {
    (line: Text) => Selected(search, pattern, line)
  }

  function InsideBy(search: Search, pattern: Text): Text -> bool {
    (line: Text) => HasInside(search, pattern, line)
  }

  /** The lines in the order they are found. */
  function Candidates(search: Search, pattern: Option<Text>, source: seq<Text>): seq<Text> {
    Filter(SelectedBy(search, pattern.GetOr([])), source)
    + if pattern.Some? && search.matching == Substring
      then Filter(InsideBy(search, pattern.value), source) else []
  }

  /** Lines matched as regular expressions are not checked for duplicates. */
  predicate Deduplicates(search: Search, pattern: Option<Text>, noDuplicates: bool) {
    noDuplicates && !(search.matching == Regexp && pattern.GetOr([]) != [])
  }

  /** As many as there is room for, without duplicates if asked. */
  function Pick(noDuplicates: bool, max: nat, lines: seq<Text>): (r: seq<Text>)
    ensures |r| <= max
  {
    var picked := if noDuplicates then Dedup(lines) else lines;
    if |picked| <= max then picked else picked[..max]
  }

  function AddLine(noDuplicates: bool, max: nat, selection: seq<Text>, line: Text): seq<Text> {
    if |selection| >= max || (noDuplicates && line in selection) then selection else selection + [line]
  }

  lemma PickSnoc(noDuplicates: bool, max: nat, lines: seq<Text>, line: Text)
    ensures Pick(noDuplicates, max, lines + [line]) == AddLine(noDuplicates, max, Pick(noDuplicates, max, lines), line)
  {
    DedupSnoc(lines, line);
  }

  /** Once it is full nothing is added. */
  lemma {:induction false} PickFull(noDuplicates: bool, max: nat, lines: seq<Text>, more: seq<Text>)
    requires |Pick(noDuplicates, max, lines)| == max
    ensures Pick(noDuplicates, max, lines + more) == Pick(noDuplicates, max, lines)
    decreases |more|
  {
    if more == [] {
      assert lines + more == lines;
    } else {
      PickFull(noDuplicates, max, lines, more[..|more| - 1]);
      assert lines + more == lines + more[..|more| - 1] + [more[|more| - 1]];
      PickSnoc(noDuplicates, max, lines + more[..|more| - 1], more[|more| - 1]);
    }
  }

  /** hstr_selection_add. */
  method SelectionAdd(selection: array<Text>, capacity: nat, size: nat, line: Text, noDuplicates: bool)
    returns (newSize: nat)
    requires size <= capacity <= selection.Length
    modifies selection
    ensures newSize <= capacity
    ensures selection[..newSize] == AddLine(noDuplicates, capacity, old(selection[..size]), line)
  {
    if size >= capacity {
      return size;
    }
    if noDuplicates {
      for i := 0 to size
        invariant line !in selection[..i]
      {
        if selection[i] == line {
          assert line in selection[..size];
          return size;
        }
      }
    }
    selection[size] := line;
    newSize := size + 1;
  }

  // ---- hstr_make_selection

  /** The places recorded for lines that matched as a regular expression. */
  ghost predicate Recorded(search: Search, pattern: Text, lines: seq<Text>, places: seq<(int, int)>) {
    search.matching == Regexp && pattern != [] ==>
      |lines| <= |places| && forall k :: 0 <= k < |lines| ==> search.regexp(pattern, lines[k]) == Some(places[k])
  }

  /** What a pass has picked after i lines, when the lines before it gave found. */
  ghost function Picked(matches: Text -> bool, dedup: bool, max: nat, found: seq<Text>, source: seq<Text>,
                        i: nat): (r: seq<Text>)
    requires i <= |source|
    ensures |r| <= max
  {
    Pick(dedup, max, found + Filter(matches, source[..i]))
  }

  lemma PickedEnds(matches: Text -> bool, dedup: bool, max: nat, found: seq<Text>, source: seq<Text>)
    ensures Picked(matches, dedup, max, found, source, 0) == Pick(dedup, max, found)
    ensures Picked(matches, dedup, max, found, source, |source|) == Pick(dedup, max, found + Filter(matches, source))
  {
    assert source[..|source|] == source && found + [] == found;
  }

  lemma PickedStep(matches: Text -> bool, dedup: bool, max: nat, found: seq<Text>, source: seq<Text>, i: nat)
    requires i < |source|
    ensures Picked(matches, dedup, max, found, source, i + 1) ==
              if matches(source[i]) then AddLine(dedup, max, Picked(matches, dedup, max, found, source, i), source[i])
              else Picked(matches, dedup, max, found, source, i)
  {
    assert source[..i + 1] == source[..i] + [source[i]];
    FilterSnoc(matches, source[..i], source[i]);
    var lines := Filter(matches, source[..i]);
    PickSnoc(dedup, max, found + lines, source[i]);
    assert found + (lines + [source[i]]) == found + lines + [source[i]];
  }

  /** Stopping early loses nothing: either all lines were seen or the selection is full. */
  lemma PickedRest(matches: Text -> bool, dedup: bool, max: nat, found: seq<Text>, source: seq<Text>, i: nat)
    requires i <= |source| && (i == |source| || |Picked(matches, dedup, max, found, source, i)| == max)
    ensures Picked(matches, dedup, max, found, source, i) == Picked(matches, dedup, max, found, source, |source|)
  {
    var seen, more := Filter(matches, source[..i]), Filter(matches, source[i..]);
    assert source[..|source|] == source[..i] + source[i..];
    FilterConcat(matches, source[..i], source[i..]);
    if i < |source| {
      PickFull(dedup, max, found + seen, more);
      assert found + seen + more == found + (seen + more);
    }
  }

  /** The first pass on one line. */
  method FirstPassLine(search: Search, pattern: Text, line: Text, noDuplicates: bool,
                       selection: array<Text>, places: array<(int, int)>, size: nat) returns (newSize: nat)
    requires size < selection.Length == places.Length
    requires Recorded(search, pattern, selection[..size], places[..size])
    modifies selection, places
    ensures newSize <= selection.Length
    ensures selection[..newSize] ==
              if Selected(search, pattern, line)
              then AddLine(Deduplicates(search, Some(pattern), noDuplicates), selection.Length, old(selection[..size]),
                           line)
              else old(selection[..size])
    ensures Recorded(search, pattern, selection[..newSize], places[..newSize])
  {
    newSize := size;
    if pattern == [] {
      newSize := SelectionAdd(selection, selection.Length, size, line, noDuplicates);
    } else {
      match search.matching {
        case Substring =>
          if Find(search, line, pattern) == 0 {
            newSize := SelectionAdd(selection, selection.Length, size, line, noDuplicates);
          }
        case Regexp =>
          var place := search.regexp(pattern, line);
          if place.Some? {
            selection[size] := line;
            places[size] := place.value;
            newSize := size + 1;
          }
        case Keywords =>
          var all := AllKeywordsIn(search, line, pattern);
          if all {
            newSize := SelectionAdd(selection, selection.Length, size, line, noDuplicates);
          }
      }
    }
  }

  /** The first pass: the lines that match, until the selection is full. */
  method FirstPass(search: Search, pattern: Text, source: seq<Text>, noDuplicates: bool,
                   selection: array<Text>, places: array<(int, int)>) returns (size: nat)
    requires selection.Length == places.Length
    modifies selection, places
    ensures size <= selection.Length && Recorded(search, pattern, selection[..size], places[..size])
    ensures selection[..size] == Pick(Deduplicates(search, Some(pattern), noDuplicates), selection.Length,
                                      Filter(SelectedBy(search, pattern), source))
  {
    hide Picked, Pick, Filter, SelectedBy, Selected, Deduplicates, Recorded;
    ghost var matches := SelectedBy(search, pattern);
    ghost var dedup, max := Deduplicates(search, Some(pattern), noDuplicates), selection.Length;
    PickedWhole(matches, dedup, max, source);
    NothingPicked(search, pattern, matches, dedup, source, selection, places);
    size := 0;
    var i: nat := 0;
    while i < |source| && size < selection.Length
      invariant i <= |source| && size <= max && Recorded(search, pattern, selection[..size], places[..size])
      invariant selection[..size] == Picked(matches, dedup, max, [], source, i)
    {
      size := FirstPassStep(search, pattern, source, i, noDuplicates, selection, places, size, matches);
      i := i + 1;
    }
    PickedRest(matches, dedup, max, [], source, i);
  }

  lemma PickedWhole(matches: Text -> bool, dedup: bool, max: nat, source: seq<Text>)
    ensures Picked(matches, dedup, max, [], source, |source|) == Pick(dedup, max, Filter(matches, source))
  {
    assert source[..|source|] == source && [] + Filter(matches, source) == Filter(matches, source);
  }

  lemma NothingPicked(search: Search, pattern: Text, matches: Text -> bool, dedup: bool, source: seq<Text>,
                      selection: array<Text>, places: array<(int, int)>)
    ensures Recorded(search, pattern, selection[..0], places[..0])
    ensures Picked(matches, dedup, selection.Length, [], source, 0) == selection[..0]
  {
  }

  method FirstPassStep(search: Search, pattern: Text, source: seq<Text>, i: nat, noDuplicates: bool,
                       selection: array<Text>, places: array<(int, int)>, size: nat, ghost matches: Text -> bool)
    returns (newSize: nat)
    requires i < |source| && size < selection.Length == places.Length
    requires Recorded(search, pattern, selection[..size], places[..size])
    requires matches == SelectedBy(search, pattern)
    requires selection[..size] ==
               Picked(matches, Deduplicates(search, Some(pattern), noDuplicates), selection.Length, [], source, i)
    modifies selection, places
    ensures newSize <= selection.Length && Recorded(search, pattern, selection[..newSize], places[..newSize])
    ensures selection[..newSize] ==
              Picked(matches, Deduplicates(search, Some(pattern), noDuplicates), selection.Length, [], source, i + 1)
  {
    PickedStep(matches, Deduplicates(search, Some(pattern), noDuplicates), selection.Length, [], source, i);
    newSize := FirstPassLine(search, pattern, source[i], noDuplicates, selection, places, size);
  }

  /** The second pass, for substrings: the lines that have the pattern elsewhere. */
  method SecondPass(search: Search, pattern: Text, source: seq<Text>, noDuplicates: bool,
                    selection: array<Text>, first: nat, ghost found: seq<Text>) returns (size: nat)
    requires search.matching == Substring && first <= selection.Length
    requires selection[..first] == Pick(noDuplicates, selection.Length, found)
    modifies selection
    ensures size <= selection.Length
    ensures selection[..size] == Pick(noDuplicates, selection.Length,
                                      found + Filter(InsideBy(search, pattern), source))
  {
    hide Pick, Picked, InsideBy, Filter, Find, AddLine;
    ghost var matches, max := InsideBy(search, pattern), selection.Length;
    PickedEnds(matches, noDuplicates, max, found, source);
    size := first;
    var i: nat := 0;
    while i < |source| && size < selection.Length
      invariant i <= |source| && size <= max
      invariant selection[..size] == Picked(matches, noDuplicates, max, found, source, i)
    {
      size := SecondPassStep(search, pattern, source, i, noDuplicates, selection, size, found, matches);
      i := i + 1;
    }
    PickedRest(matches, noDuplicates, max, found, source, i);
  }

  method SecondPassStep(search: Search, pattern: Text, source: seq<Text>, i: nat, noDuplicates: bool,
                        selection: array<Text>, size: nat, ghost found: seq<Text>, ghost matches: Text -> bool)
    returns (newSize: nat)
    requires i < |source| && size < selection.Length
    requires matches == InsideBy(search, pattern)
    requires selection[..size] == Picked(matches, noDuplicates, selection.Length, found, source, i)
    modifies selection
    ensures newSize <= selection.Length
    ensures selection[..newSize] == Picked(matches, noDuplicates, selection.Length, found, source, i + 1)
  {
    PickedStep(matches, noDuplicates, selection.Length, found, source, i);
    newSize := size;
    var at := Find(search, source[i], pattern);
    if at > 0 {
      newSize := SelectionAdd(selection, selection.Length, size, source[i], noDuplicates);
    }
  }

  /** hstr_make_selection: the candidates in order, as many as there are rows. The pattern may be a null
      pointer. */
  method MakeSelection(search: Search, pattern: Option<Text>, source: seq<Text>, max: nat, noDuplicates: bool)
    returns (selection: array<Text>, places: array<(int, int)>, size: nat)
    ensures fresh(selection) && fresh(places) && selection.Length == places.Length == max && size <= max
    ensures selection[..size]
         == Pick(Deduplicates(search, pattern, noDuplicates), max, Candidates(search, pattern, source))
    ensures Recorded(search, pattern.GetOr([]), selection[..size], places[..size])
  {
    selection := new Text[max](_ => []);
    places := new (int, int)[max](_ => (0, 0));
    var text := pattern.GetOr([]);
    size := FirstPass(search, text, source, noDuplicates, selection, places);
    ghost var found := Filter(SelectedBy(search, text), source);
    if pattern.Some? && size < max && search.matching == Substring {
      size := SecondPass(search, text, source, noDuplicates, selection, size, found);
    } else if pattern.Some? && search.matching == Substring {
      PickFull(noDuplicates, max, found, Filter(InsideBy(search, pattern.value), source));
    } else {
      assert found + [] == found;
    }
  }

  // ---- what a selection is

  /** Everything selected comes from the source and matches. */
  lemma SelectionIsFromSource(search: Search, pattern: Option<Text>, source: seq<Text>, max: nat, noDuplicates: bool,
                              line: Text)
    requires line in Pick(Deduplicates(search, pattern, noDuplicates), max, Candidates(search, pattern, source))
    ensures line in source
    ensures Selected(search, pattern.GetOr([]), line)
         || (pattern.Some? && search.matching == Substring && HasInside(search, pattern.value, line))
  {
    var candidates := Candidates(search, pattern, source);
    DedupDistinct(candidates);
    FilterHas(SelectedBy(search, pattern.GetOr([])), source);
    FilterHas(InsideBy(search, pattern.GetOr([])), source);
    assert line in candidates;
  }

  /** The lines a pattern can select, however many rows there are. */
  ghost predicate Reachable(search: Search, pattern: Text, line: Text) {
    Selected(search, pattern, line) || (search.matching == Substring && HasInside(search, pattern, line))
  }

  /** With enough rows the selection is complete: it holds exactly the lines of the list that match, and each once if
      duplicates are not wanted. */
  lemma SelectionIsComplete(search: Search, pattern: Option<Text>, source: seq<Text>, max: nat, noDuplicates: bool)
    requires var candidates := Candidates(search, pattern, source);
             |if Deduplicates(search, pattern, noDuplicates) then Dedup(candidates) else candidates| <= max
    ensures var selection := Pick(Deduplicates(search, pattern, noDuplicates), max,
                                  Candidates(search, pattern, source));
            && (forall line :: line in selection <==> line in source && Reachable(search, pattern.GetOr([]), line))
            && (Deduplicates(search, pattern, noDuplicates) ==> Distinct(selection))
  {
    var text, candidates := pattern.GetOr([]), Candidates(search, pattern, source);
    DedupDistinct(candidates);
    FilterHas(SelectedBy(search, text), source);
    FilterHas(InsideBy(search, text), source);
    if pattern == None {
      forall line ensures !HasInside(search, text, line) {
        EmptyIsPrefix(search, line);
      }
    }
  }

  lemma EmptyIsPrefix(search: Search, line: Text)
    ensures Find(search, line, []) == 0
  {
    assert OccursAt(Fold(search, line), Fold(search, []), 0);
  }

  /** Lines that start with the pattern are shown before lines that have it elsewhere. */
  lemma PrefixMatchesComeFirst(search: Search, pattern: Text, source: seq<Text>, max: nat, noDuplicates: bool, i: nat,
                               j: nat)
    requires search.matching == Substring && pattern != []
    requires var selection := Pick(Deduplicates(search, Some(pattern), noDuplicates), max,
                                   Candidates(search, Some(pattern), source));
             i < j < |selection| && StartsWith(search, pattern, selection[j])
    ensures var selection := Pick(Deduplicates(search, Some(pattern), noDuplicates), max,
                                  Candidates(search, Some(pattern), source));
            StartsWith(search, pattern, selection[i])
  {
    var head, tail := CandidateParts(search, pattern, source, noDuplicates);
    var selection := Pick(noDuplicates, max, Candidates(search, Some(pattern), source));
    assert selection[i] == (head + tail)[i] && selection[j] == (head + tail)[j];
    assert i < |head| ==> selection[i] in head;
    assert j >= |head| ==> selection[j] == tail[j - |head|] && selection[j] in tail;
  }

  /** The lines that can be shown for a substring: first those that start with it, then the others. */
  lemma CandidateParts(search: Search, pattern: Text, source: seq<Text>, noDuplicates: bool)
    returns (head: seq<Text>, tail: seq<Text>)
    requires search.matching == Substring && pattern != []
    ensures (if noDuplicates then Dedup(Candidates(search, Some(pattern), source))
             else Candidates(search, Some(pattern), source))
         == head + tail
    ensures forall line :: line in head ==> StartsWith(search, pattern, line)
    ensures forall line :: line in tail ==> HasInside(search, pattern, line)
  {
    var first := Filter(SelectedBy(search, pattern), source);
    var second := Filter(InsideBy(search, pattern), source);
    FilterHas(SelectedBy(search, pattern), source);
    FilterHas(InsideBy(search, pattern), source);
    hide Filter, Find;
    assert Candidates(search, Some(pattern), source) == first + second;
    if noDuplicates {
      DedupDistinct(first);
      head := Dedup(first);
      tail := DedupConcat(first, second);
    } else {
      head, tail := first, second;
    }
  }

  /** For substrings these are the lines that contain the pattern. */
  lemma SubstringReachable(search: Search, pattern: Text, line: Text)
    requires search.matching == Substring
    ensures Reachable(search, pattern, line) <==> pattern == [] || Contains(search, line, pattern)
  {
  }

  /** Typing narrows: with one more character at the end of the pattern, no new line matches. */
  lemma TypingNarrows(search: Search, pattern: Text, c: Byte, line: Text)
    requires search.matching != Regexp && Reachable(search, pattern + [c], line)
    ensures Reachable(search, pattern, line)
  {
    var longer := pattern + [c];
    assert longer[0..|pattern|] == pattern && longer[..|pattern|] == pattern;
    if search.matching == Substring {
      ContainsPiece(search, line, longer, 0, |pattern|);
    } else {
      var tokens, more := Tokens(pattern), Tokens(longer);
      forall i | 0 <= i < |tokens| ensures Contains(search, line, tokens[i]) {
        assert Contains(search, line, more[i]);
        assert more[i][0..|tokens[i]|] == tokens[i];
        ContainsPiece(search, line, more[i], 0, |tokens[i]|);
      }
    }
  }

  /** Only the set of keywords matters: their order, repetitions and the blanks between them do not. */
  lemma KeywordOrderIsIrrelevant(search: Search, p: Text, q: Text, source: seq<Text>, max: nat, noDuplicates: bool)
    requires search.matching == Keywords
    requires forall token :: token in Tokens(p) <==> token in Tokens(q)
    ensures Pick(Deduplicates(search, Some(p), noDuplicates), max, Candidates(search, Some(p), source))
         == Pick(Deduplicates(search, Some(q), noDuplicates), max, Candidates(search, Some(q), source))
  {
    forall line ensures Selected(search, p, line) == Selected(search, q, line) {
      SameKeywords(search, line, Tokens(p), Tokens(q));
    }
    FilterSame(SelectedBy(search, p), SelectedBy(search, q), source);
  }

  lemma SameKeywords(search: Search, line: Text, a: seq<Text>, b: seq<Text>)
    requires forall token :: token in a <==> token in b
    ensures ContainsAll(search, line, a) == ContainsAll(search, line, b)
  {
    assert ContainsAll(search, line, a) <==> forall token :: token in a ==> Contains(search, line, token);
    assert ContainsAll(search, line, b) <==> forall token :: token in b ==> Contains(search, line, token);
  }

  lemma {:induction false} FilterSame(f: Text -> bool, g: Text -> bool, s: seq<Text>)
    requires forall x :: f(x) == g(x)
    ensures Filter(f, s) == Filter(g, s)
  {
    if s != [] {
      FilterSame(f, g, s[1..]);
    }
  }

  // ---- what it means to match

  /** At place k every byte of the line is the byte of the word, or has the same folding if case does not matter. */
  predicate MatchesAt(search: Search, line: Text, word: Text, k: nat) {
    && k + |word| <= |line|
    && forall j :: 0 <= j < |word| ==>
         if search.caseSensitive then line[k + j] == word[j] else search.fold(line[k + j]) == search.fold(word[j])
  }

  lemma OccursIs(hay: Text, needle: Text, k: nat)
    ensures OccursAt(hay, needle, k) <==>
              k + |needle| <= |hay| && forall j :: 0 <= j < |needle| ==> hay[k + j] == needle[j]
  {
    if OccursAt(hay, needle, k) {
      assert forall j :: 0 <= j < |needle| ==> hay[k..k + |needle|][j] == needle[j];
    }
  }

  lemma ContainsIs(search: Search, line: Text, word: Text)
    ensures Contains(search, line, word) <==> exists k: nat :: MatchesAt(search, line, word, k)
  {
    var hay, needle := Fold(search, line), Fold(search, word);
    forall k: nat ensures OccursAt(hay, needle, k) <==> MatchesAt(search, line, word, k) {
      OccursIs(hay, needle, k);
      if k + |word| <= |line| {
        forall j | 0 <= j < |word|
          ensures hay[k + j] == (if search.caseSensitive then line[k + j] else search.fold(line[k + j]))
          ensures needle[j] == (if search.caseSensitive then word[j] else search.fold(word[j]))
        {
        }
      }
    }
    assert forall k: nat :: MatchesAt(search, line, word, k) ==> k <= |hay|;
  }

  /** A line that matches with its case matches without. */
  lemma CaseNarrows(search: Search, line: Text, word: Text)
    requires Contains(search.(caseSensitive := true), line, word)
    ensures Contains(search.(caseSensitive := false), line, word)
  {
    var sensitive, folding := search.(caseSensitive := true), search.(caseSensitive := false);
    ContainsIs(sensitive, line, word);
    ContainsIs(folding, line, word);
    var k: nat :| MatchesAt(sensitive, line, word, k);
    assert MatchesAt(folding, line, word, k);
  }

  /** pattern[i..j] is a word: it has no blanks, and there is a blank or an end on both sides of it. */
  predicate IsWord(pattern: Text, i: nat, j: nat) {
    && i < j <= |pattern| && SPACE !in pattern[i..j]
    && (i == 0 || pattern[i - 1] == SPACE) && (j == |pattern| || pattern[j] == SPACE)
  }

  /** The start of the word that a pattern ends with. */
  lemma {:induction false} LastWord(s: Text, end: nat) returns (start: nat)
    requires 0 < end <= |s| && s[end - 1] != SPACE
    ensures start < end && (start == 0 || s[start - 1] == SPACE) && forall k :: start <= k < end ==> s[k] != SPACE
  {
    start := end - 1;
    if start > 0 && s[start - 1] != SPACE {
      start := LastWord(s, end - 1);
    }
  }

  /** The tokens are the words of the pattern. */
  lemma {:induction false} TokensAreWords(s: Text, token: Text)
    ensures token in Tokens(s) <==> exists i: nat, j: nat :: IsWord(s, i, j) && s[i..j] == token
    decreases |s|
  {
    hide Tokens;
    if s == [] {
      NoTokens(Search(Keywords, true, b => b, (p, l) => None), [], s);
    } else {
      var n := |s| - 1;
      assert s[..|s|] == s;
      if s[n] == SPACE {
        TokensSpace(s, n);
        TokensAreWords(s[..n], token);
        WordsOfPrefix(s, n);
        forall i: nat, j: nat | i < j == |s| ensures !IsWord(s, i, j) {
          assert s[i..j][n - i] == s[n];
        }
      } else {
        var start := LastWord(s, |s|);
        TokensGrow(s, start, |s|);
        TokensAreWords(s[..start], token);
        WordsOfPrefix(s, start);
        LastIsWord(s, start);
      }
    }
  }

  /** Before a blank, or before a word, the words are those of the prefix. */
  lemma WordsOfPrefix(s: Text, n: nat)
    requires n < |s| && (s[n] == SPACE || n == 0 || s[n - 1] == SPACE)
    ensures forall i: nat, j: nat :: j <= n ==> (IsWord(s, i, j) <==> IsWord(s[..n], i, j))
    ensures forall i: nat, j: nat :: IsWord(s[..n], i, j) ==> j <= n && IsWord(s, i, j) && s[..n][i..j] == s[i..j]
  {
    forall i: nat, j: nat | i < j <= n ensures s[..n][i..j] == s[i..j] && s[j - 1] in s[i..j] {
      assert s[i..j][j - 1 - i] == s[j - 1];
    }
  }

  lemma LastIsWord(s: Text, start: nat)
    requires start < |s| && (start == 0 || s[start - 1] == SPACE) && forall k :: start <= k < |s| ==> s[k] != SPACE
    ensures IsWord(s, start, |s|)
    ensures forall i: nat, j: nat :: IsWord(s, i, j) ==> j <= start || (i == start && j == |s|)
  {
    forall i: nat, j: nat | i < start < j <= |s| ensures !IsWord(s, i, j) {
      assert s[i..j][start - 1 - i] == s[start - 1];
    }
  }

  /** What is selected when there are rows for it, in terms of the bytes: for keywords the lines that have every word
      of the pattern somewhere, for substrings those that have the pattern somewhere, for regular expressions those
      that the engine matches; for an empty pattern all. */
  lemma SelectionMeans(search: Search, pattern: Text, source: seq<Text>, max: nat, noDuplicates: bool, line: Text)
    requires var candidates := Candidates(search, Some(pattern), source);
             |if Deduplicates(search, Some(pattern), noDuplicates) then Dedup(candidates) else candidates| <= max
    ensures line in Pick(Deduplicates(search, Some(pattern), noDuplicates), max,
                         Candidates(search, Some(pattern), source))
       <==> line in source && (pattern == [] || Meant(search, pattern, line))
  {
    hide Tokens, Contains, MatchesAt, IsWord, Find;
    SelectionIsComplete(search, Some(pattern), source, max, noDuplicates);
    assert Some(pattern).GetOr([]) == pattern;
    MatchingMeans(search, pattern, line);
  }

  ghost predicate Meant(search: Search, pattern: Text, line: Text) {
    match search.matching
    case Keywords => forall i: nat, j: nat :: IsWord(pattern, i, j) ==>
                       exists k: nat :: MatchesAt(search, line, pattern[i..j], k)
    case Substring => exists k: nat :: MatchesAt(search, line, pattern, k)
    case Regexp => search.regexp(pattern, line) != None
  }

  lemma MatchingMeans(search: Search, pattern: Text, line: Text)
    ensures Reachable(search, pattern, line) <==> pattern == [] || Meant(search, pattern, line)
  {
    hide Tokens, MatchesAt, IsWord, Find, Contains;
    match search.matching
    case Regexp =>
    case Substring =>
      SubstringReachable(search, pattern, line);
      ContainsIs(search, line, pattern);
    case Keywords =>
      KeywordsMean(search, pattern, line);
  }

  lemma KeywordsMean(search: Search, pattern: Text, line: Text)
    ensures ContainsAll(search, line, Tokens(pattern)) <==>
              forall i: nat, j: nat :: IsWord(pattern, i, j) ==>
                exists k: nat :: MatchesAt(search, line, pattern[i..j], k)
  {
    hide Tokens, MatchesAt, Find, Contains;
    var tokens := Tokens(pattern);
    forall i: nat, j: nat | IsWord(pattern, i, j) ensures pattern[i..j] in tokens {
      TokensAreWords(pattern, pattern[i..j]);
    }
    forall token ensures token in tokens ==> exists i: nat, j: nat :: IsWord(pattern, i, j) && pattern[i..j] == token {
      TokensAreWords(pattern, token);
    }
    forall token ensures Contains(search, line, token) <==> exists k: nat :: MatchesAt(search, line, token, k) {
      ContainsIs(search, line, token);
    }
    assert ContainsAll(search, line, tokens) <==> forall token :: token in tokens ==> Contains(search, line, token);
  }

  /** Without duplicates means once each, except for lines matched as regular expressions, where all are kept. */
  lemma NoDuplicatesShown(search: Search, pattern: Option<Text>, source: seq<Text>, max: nat, noDuplicates: bool)
    ensures var selection := Pick(Deduplicates(search, pattern, noDuplicates), max,
                                  Candidates(search, pattern, source));
            && (noDuplicates && (search.matching != Regexp || pattern.GetOr([]) == []) ==> Distinct(selection))
            && (!noDuplicates || (search.matching == Regexp && pattern.GetOr([]) != []) ==>
                  selection <= Candidates(search, pattern, source))
  {
    DedupDistinct(Candidates(search, pattern, source));
  }

  /** More rows show more of the same. */
  lemma MoreRowsShowMore(noDuplicates: bool, max: nat, more: nat, lines: seq<Text>)
    requires max <= more
    ensures Pick(noDuplicates, max, lines) <= Pick(noDuplicates, more, lines)
    ensures |Pick(noDuplicates, more, lines)| > |Pick(noDuplicates, max, lines)| ==>
              |Pick(noDuplicates, max, lines)| == max
  {
  }

  /** For substrings the lines that have the pattern at their start come before those that do not. */
  lemma LinesThatStartComeFirst(search: Search, pattern: Text, source: seq<Text>, max: nat, noDuplicates: bool, i: nat,
                                j: nat)
    requires search.matching == Substring && pattern != []
    requires var selection := Pick(Deduplicates(search, Some(pattern), noDuplicates), max,
                                   Candidates(search, Some(pattern), source));
             i < j < |selection| && MatchesAt(search, selection[j], pattern, 0)
    ensures var selection := Pick(Deduplicates(search, Some(pattern), noDuplicates), max,
                                  Candidates(search, Some(pattern), source));
            MatchesAt(search, selection[i], pattern, 0)
  {
    hide Pick, Candidates, Deduplicates;
    var selection := Pick(Deduplicates(search, Some(pattern), noDuplicates), max,
                          Candidates(search, Some(pattern), source));
    StartsWithIs(search, selection[i], pattern);
    StartsWithIs(search, selection[j], pattern);
    PrefixMatchesComeFirst(search, pattern, source, max, noDuplicates, i, j);
  }

  lemma StartsWithIs(search: Search, line: Text, word: Text)
    ensures StartsWith(search, word, line) <==> MatchesAt(search, line, word, 0)
  {
    var hay, needle := Fold(search, line), Fold(search, word);
    OccursIs(hay, needle, 0);
    if |word| <= |line| {
      forall j | 0 <= j < |word|
        ensures hay[0 + j] == (if search.caseSensitive then line[0 + j] else search.fold(line[0 + j]))
        ensures needle[j] == (if search.caseSensitive then word[j] else search.fold(word[j]))
      {
      }
    }
  }
}
