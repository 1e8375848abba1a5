/** What a user can rely on when pressing keys: laws about runs of the key loop, in terms of lines, patterns and rows.
    */
module KeyLaws {
  import opened Bytes
  import opened Cursor
  import opened HistoryModel
  import opened KeyLoop
  import opened Selection
  import opened Typing
  import opened Utf8

  // ---- the end of the loop

  /** What the keys that end the loop return. In the prompt Enter takes the first line shown, or the last result if
      there is none, and the keys that edit take the pattern; on a row all three take its line; the others take
      nothing. */
  lemma EndReturns(setup: Setup, capacity: nat, reorder: bool, st: State, key: Key, i: nat)
    requires |st.selection| <= st.rows && key in {Enter, FixCommand, EditCommand, Cancel, Exit}
    ensures var result := Step(setup, capacity, reorder, st, key).result;
            && (key == Cancel || key == Exit ==> result == None)
            && (st.cursor == IN_PROMPT && key == Enter ==>
                  result == if st.selection != [] then Some(st.selection[0]) else st.result)
            && (st.cursor == IN_PROMPT && (key == FixCommand || key == EditCommand) ==> result == Some(st.line.text))
            && (i < |st.selection| && st.cursor == RowOf(i, setup.promptBottom, st.rows)
                && key != Cancel && key != Exit ==>
                  result == Some(st.selection[i]))
  {
    hide LineAfterKey, ListsAfterKey, CursorAfterKey, Found;
  }

  /** Enter as the first key returns the first line that the pattern of the command line selects. If it selects none,
      nothing is returned; if there is no pattern and no line, what the result was at first. */
  lemma EnterAtOnce(setup: Setup, capacity: nat, reorder: bool, st: State)
    requires st.cursor == IN_PROMPT
    ensures var found := Found(setup, st);
            Run(setup, capacity, reorder, AtStart(setup, st), [Enter]).result ==
              if found != [] then Some(found[0]) else if st.line.text == [] then st.result else None
  {
    hide Found, Step;
    var start := AtStart(setup, st);
    assert [Enter][..0] == [];
    FoundFits(setup, st);
    SameFound(setup, st, start);
    EndReturns(setup, capacity, reorder, start, Enter, 0);
  }

  lemma SameFound(setup: Setup, a: State, b: State)
    requires SameSettings(a, b) && a.line == b.line && a.lists == b.lists
    ensures Found(setup, a) == Found(setup, b)
  {
  }

  /** A text is typed and then a key ends the loop. Enter returns a line of the list that matches the text, and nothing
      only if there is no such line; the keys that edit return the text. */
  lemma TypeAndEnd(setup: Setup, capacity: nat, reorder: bool, st: State, chars: seq<Text>, key: Key)
    requires WellFormed(st.line.text) && Width(setup.wcwidth, st.line.text) <= setup.patternColumns
    requires AreChars(chars) && Join(chars) != [] && forall b :: b in Join(chars) ==> Typeable(b)
    requires RoomThroughout(setup.wcwidth, st.line.text, chars, capacity, setup.patternColumns)
    requires st.rows > 0 && key in {Enter, FixCommand, EditCommand}
    ensures var text := AfterText(setup.wcwidth, st.line.text, chars, capacity, setup.patternColumns);
            var search := Selection.Search(st.matching, st.caseSensitive, setup.lower, setup.regexp);
            var list := ListOf(st.view, st.lists);
            var result := Run(setup, capacity, reorder, st, KeysOf(Join(chars)) + [key]).result;
            if key != Enter then result == Some(text)
            else
              match result
              case None => forall line :: line in list ==> text != [] && !Meant(search, text, line)
              case Some(line) => line in list && (text == [] || Meant(search, text, line))
  {
    hide Step, Run, AfterText, RoomThroughout, Join, WellFormed, Width, Typeable, KeysOf, Meant, ListOf, Found, Under;
    var typed := KeysOf(Join(chars));
    var next := Run(setup, capacity, reorder, st, typed);
    assert (typed + [key])[..|typed|] == typed && (typed + [key])[..|typed| + 1] == typed + [key];
    OneMoreStep(setup, capacity, reorder, st, typed + [key], |typed|);
    KeysTypeText(setup, capacity, reorder, st, chars);
    FoundFits(setup, next);
    EndReturns(setup, capacity, reorder, next, key, 0);
    FoundMatches(setup, next);
  }

  lemma FoundFits(setup: Setup, st: State)
    ensures |Found(setup, st)| <= st.rows
  {
  }

  /** The first line found matches, and if there is none no line does. */
  lemma FoundMatches(setup: Setup, st: State)
    requires st.rows > 0
    ensures var search := Selection.Search(st.matching, st.caseSensitive, setup.lower, setup.regexp);
            var found, list := Found(setup, st), ListOf(st.view, st.lists);
            if found == [] then forall line :: line in list ==> st.line.text != [] && !Meant(search, st.line.text, line)
            else found[0] in list && (st.line.text == [] || Meant(search, st.line.text, found[0]))
  {
    hide ListOf, Meant, Selected, HasInside;
    var search := Selection.Search(st.matching, st.caseSensitive, setup.lower, setup.regexp);
    var text, found, list := st.line.text, Found(setup, st), ListOf(st.view, st.lists);
    if found == [] {
      var candidates := Candidates(search, Some(text), list);
      DedupDistinct(candidates);
      NoneIn(candidates);
      FilterHas(SelectedBy(search, text), list);
      FilterHas(InsideBy(search, text), list);
      forall line | line in list ensures text != [] && !Meant(search, text, line) {
        MatchingMeans(search, text, line);
        assert !SelectedBy(search, text)(line) && (search.matching == Substring ==> !InsideBy(search, text)(line));
      }
    } else {
      SelectionIsFromSource(search, Some(text), list, st.rows, setup.noDuplicates, found[0]);
      MatchingMeans(search, text, found[0]);
    }
  }

  // ---- the favorites

  /** DEL takes a line from the favorites. */
  predicate TakesFavorite(setup: Setup, st: State, key: Key, line: Text) {
    && key.Delete? && (setup.noConfirm || key.confirmed) && st.view == FavoritesView && Under(setup, st) == Some(line)
  }

  /** Without C-f and the keys that end the loop the favorites lose exactly the lines that were under the cursor when
      DEL was read, and confirmed, in their own view; what DEL does in the views of the history leaves them alone. */
  lemma {:induction false} FavoritesOnlyShrink(setup: Setup, capacity: nat, reorder: bool, st: State, keys: seq<Key>,
                                               n: nat) returns (gone: set<Text>)
    requires n <= |keys| && forall i :: 0 <= i < n ==> !keys[i].MakeFavorite? && !Ends(keys[i])
    ensures Run(setup, capacity, reorder, st, keys[..n]).lists.favorites == Except(st.lists.favorites, gone)
    ensures forall x :: x in gone <==>
              exists i :: 0 <= i < n && TakesFavorite(setup, Run(setup, capacity, reorder, st, keys[..i]), keys[i], x)
    ensures (forall i :: 0 <= i < n && keys[i].Delete? ==>
               Run(setup, capacity, reorder, st, keys[..i]).view != FavoritesView) ==>
              Run(setup, capacity, reorder, st, keys[..n]).lists.favorites == st.lists.favorites
  {
    hide Except, Run, Step, TakesFavorite, Ends;
    if n == 0 {
      gone := {};
      NoStep(setup, capacity, reorder, st, keys);
      ExceptNone(st.lists.favorites);
    } else {
      gone := FavoritesOnlyShrink(setup, capacity, reorder, st, keys, n - 1);
      var before := Run(setup, capacity, reorder, st, keys[..n - 1]);
      OneMoreStep(setup, capacity, reorder, st, keys, n - 1);
      var line := FavoriteShrinks(setup, capacity, reorder, before, keys[n - 1]);
      if line.Some? {
        ExceptMore(st.lists.favorites, gone, line.value);
        gone := gone + {line.value};
      }
    }
  }

  lemma FavoriteShrinks(setup: Setup, capacity: nat, reorder: bool, st: State, key: Key) returns (line: Option<Text>)
    requires !key.MakeFavorite? && !Ends(key)
    ensures forall x :: TakesFavorite(setup, st, key, x) <==> line == Some(x)
    ensures line.Some? ==> key.Delete? && st.view == FavoritesView
    ensures var after := Step(setup, capacity, reorder, st, key).lists.favorites;
            if line == None then after == st.lists.favorites else after == Others(st.lists.favorites, line.value)
  {
    hide Others, Step, Under;
    StepParts(setup, capacity, reorder, st, key);
    line := Under(setup, st);
    if line.Some? && !TakesFavorite(setup, st, key, line.value) {
      line := None;
    }
  }

  /** C-f on a row: its line is a favorite, the other favorites keep their order, and the histories stay. With
      reordering it is the first; without, it stays where it is or is the last. In the prompt C-f changes nothing. */
  lemma FavoriteKey(setup: Setup, capacity: nat, reorder: bool, st: State, i: nat)
    requires |st.selection| <= st.rows
    ensures var next := Step(setup, capacity, reorder, st, MakeFavorite);
            var was, now := st.lists.favorites, next.lists.favorites;
            && next.lists.ranked == st.lists.ranked && next.lists.raw == st.lists.raw
            && (st.cursor == IN_PROMPT ==> next == st)
            && (i < |st.selection| && st.cursor == RowOf(i, setup.promptBottom, st.rows) ==>
                  var line := st.selection[i];
                  && line in now && Others(now, line) == Others(was, line) && next.cursor == IN_PROMPT
                  && (reorder ==> now[0] == line)
                  && (!reorder ==> now == if line in was then was else was + [line]))
  {
    hide Found, Others, Promoted;
    if i < |st.selection| {
      PromotedMoves(reorder, st.lists.favorites, st.selection[i]);
    }
  }

  lemma PromotedMoves(reorder: bool, was: seq<Text>, line: Text)
    ensures var now := Promoted(reorder, was, line);
            && line in now && Others(now, line) == Others(was, line) && (reorder ==> now[0] == line)
            && (!reorder ==> now == if line in was then was else was + [line])
  {
    OthersHead(line, Others(was, line), line);
    OthersHas(was, line);
    OthersFewer(Others(was, line), line);
    OthersSnoc(was, line, line);
    OthersFewer(was, line);
  }

  /** The keys that end the loop leave the histories, and move at most the line they return among the favorites, to
      their front, in the view of the favorites and with reordering on. */
  lemma EndPromotes(setup: Setup, capacity: nat, reorder: bool, st: State, key: Key, i: nat)
    requires |st.selection| <= st.rows && key in {Enter, FixCommand, EditCommand, Cancel, Exit}
    ensures var next := Step(setup, capacity, reorder, st, key);
            && next.lists.ranked == st.lists.ranked && next.lists.raw == st.lists.raw
            && (st.view != FavoritesView || !reorder || st.cursor == IN_PROMPT || key == Cancel || key == Exit ==>
                  next.lists == st.lists)
            && (st.view == FavoritesView && reorder && key != Cancel && key != Exit
                && i < |st.selection| && st.cursor == RowOf(i, setup.promptBottom, st.rows) ==>
                  next.lists.favorites == [st.selection[i]] + Others(st.lists.favorites, st.selection[i]))
  {
    hide Found, Others;
  }

  /** DEL in the view of the favorites leaves the histories, and in the others the favorites; not confirmed, or in the
      prompt, it leaves everything but the cursor. */
  lemma DeleteStaysInView(setup: Setup, capacity: nat, reorder: bool, st: State, confirmed: bool)
    ensures var next := Step(setup, capacity, reorder, st, Delete(confirmed));
            && (if st.view == FavoritesView
                then next.lists.ranked == st.lists.ranked && next.lists.raw == st.lists.raw
                else next.lists.favorites == st.lists.favorites)
            && ((!setup.noConfirm && !confirmed) || st.cursor == IN_PROMPT ==> next.(cursor := st.cursor) == st)
  {
    hide Found, Others, CursorMove;
  }

  // ---- the views and the settings

  /** C-/ goes from the ranked view to the raw one, from there to the favorites, and from there to the ranked view; with
      no pattern it shows the whole list. */
  lemma NextViewShows(setup: Setup, capacity: nat, reorder: bool, st: State)
    requires var list := OtherList(st);
             st.line.text == [] && |list| <= st.rows && (setup.noDuplicates ==> Distinct(list))
    ensures Step(setup, capacity, reorder, st, NextView).selection == OtherList(st)
  {
    hide Filter, Dedup, Candidates;
    var next := Step(setup, capacity, reorder, st, NextView);
    var search := Selection.Search(st.matching, st.caseSensitive, setup.lower, setup.regexp);
    EverythingFound(search, OtherList(st));
    if setup.noDuplicates {
      DedupOfDistinct(OtherList(st));
    }
  }

  function OtherList(st: State): seq<Text> {
    if st.view == Ranking then st.lists.raw else if st.view == Raw then st.lists.favorites else st.lists.ranked
  }

  lemma EverythingFound(search: Selection.Search, list: seq<Text>)
    ensures Candidates(search, Some([]), list) == list
  {
    FilterAll(SelectedBy(search, []), list);
    forall line ensures !HasInside(search, [], line) {
      EmptyIsPrefix(search, line);
    }
    FilterHas(InsideBy(search, []), list);
    var inside := Filter(InsideBy(search, []), list);
    NoneIn(inside);
  }

  lemma NoneIn<T>(s: seq<T>)
    ensures s == [] || exists x :: x in s
  {
    if s != [] {
      assert s[0] in s;
    }
  }

  /** The views and the ways to match take turns, three of each, and the case goes on and off. */
  lemma SettingsTakeTurns(setup: Setup, capacity: nat, reorder: bool, st: State)
    ensures forall key :: key in {NextView, NextMatching, ToggleCaseSensitivity} ==>
              var once := Step(setup, capacity, reorder, st, key);
              var twice := Step(setup, capacity, reorder, once, key);
              var thrice := Step(setup, capacity, reorder, twice, key);
              && once.line == st.line && once.lists == st.lists && once.rows == st.rows && once.cursor == IN_PROMPT
              && (key == NextView ==> thrice.view == st.view && once.view != st.view && once.matching == st.matching)
              && (key == NextMatching ==>
                    && thrice.matching == st.matching && once.matching != st.matching && once.view == st.view
                    && (st.matching == Keywords ==> once.matching == Substring && twice.matching == Regexp))
              && (key == ToggleCaseSensitivity ==>
                    once.caseSensitive != st.caseSensitive && twice.caseSensitive == st.caseSensitive)
  {
    hide Found, Under;
  }

  /** A new size is taken over, and the selection fits it. */
  lemma ResizeFits(setup: Setup, capacity: nat, reorder: bool, st: State, rows: nat)
    ensures var next := Step(setup, capacity, reorder, st, Resize(rows));
            && next == Remade(setup, st.(rows := rows, cursor := IN_PROMPT)) && |next.selection| <= rows
  {
    hide Pick, Candidates, Deduplicates, Under;
  }

  /** A control code by its letter, as the manual names the keys. */
  function Control(letter: char): Byte
    requires 'a' <= letter <= 'z'
  {
    letter as int - 'a' as int + 1
  }

  lemma ControlKeys()
    ensures KeyOf(Control('e')) == NextMatching && KeyOf(Control('t')) == ToggleCaseSensitivity
    ensures KeyOf(Control('f')) == MakeFavorite && KeyOf(Control('l')) == ToggleLetters
    ensures KeyOf(Control('r')) == Key.Search && KeyOf(Control('n')) == KeyOf(Control('j')) == LineDown
    ensures KeyOf(Control('p')) == KeyOf(Control('k')) == LineUp && KeyOf(Control('h')) == Backspace
    ensures KeyOf(Control('u')) == KeyOf(Control('w')) == EraseLine
    ensures KeyOf(Control('x')) == Exit && KeyOf(Control('g')) == Cancel
    ensures KeyOf(Control('m')) == Enter && KeyOf(Control('i')) == EditCommand
  {
  }

  // ---- the pattern

  /** C-l maps every letter to lower case, and the next time to upper case; C-u erases the pattern; what is no byte and
      the control codes that are no keys leave it. */
  lemma LineKeys(setup: Setup, capacity: nat, line: Line, code: int)
    ensures LineAfterKey(setup, capacity, line, EraseLine).text == []
    ensures line.lowercase ==>
              var once := LineAfterKey(setup, capacity, line, ToggleLetters);
              var twice := LineAfterKey(setup, capacity, once, ToggleLetters);
              && |twice.text| == |once.text| == |line.text| && twice.lowercase
              && forall i :: 0 <= i < |line.text| ==>
                   once.text[i] == setup.lower(line.text[i]) && twice.text[i] == setup.upper(once.text[i])
    ensures code <= 26 || code > 255 ==> LineAfterKey(setup, capacity, line, Other(code)) == line
  {
  }

  /** The bytes that are typed, as the terminal sends them. */
  lemma TypeableBytes(b: Byte)
    ensures Typeable(b) <==> b > 26 && b != 27 && b != 31 && b != 127
  {
  }

  /** Backspace undoes a character that was typed and kept. */
  lemma BackspaceUndoes(setup: Setup, capacity: nat, reorder: bool, st: State, c: Text)
    requires WellFormed(st.line.text) && IsChar(c) && 0 !in c && forall b :: b in c ==> Typeable(b)
    requires Width(setup.wcwidth, st.line.text + c) <= setup.patternColumns && |st.line.text| + |c| < capacity
    ensures Run(setup, capacity, reorder, st, KeysOf(c) + [Backspace]).line == st.line
  {
    hide Run, Step, WellFormed, Width, IsChar, Typeable, KeysOf, TypedAll, Chopped;
    var typed := KeysOf(c);
    assert (typed + [Backspace])[..|typed|] == typed && (typed + [Backspace])[..|typed| + 1] == typed + [Backspace];
    RunLine(setup, capacity, reorder, st, typed + [Backspace]);
    KeysType(setup, capacity, st.line, c);
    PrefixNotWider(setup.wcwidth, st.line.text + c, |st.line.text|);
    assert (st.line.text + c)[..|st.line.text|] == st.line.text;
    TypedChar(setup.wcwidth, st.line.text, c, capacity, setup.patternColumns);
    ChopUndoesChar(st.line.text, c);
  }

  /** Whatever the keys, other than C-l, which maps bytes one by one, the pattern never gets wider than its row or
      longer than its buffer. */
  lemma {:induction false} PatternStaysInRow(setup: Setup, capacity: nat, line: Line, keys: seq<Key>)
    requires Width(setup.wcwidth, line.text) <= setup.patternColumns && |line.text| < capacity
    requires forall i :: 0 <= i < |keys| ==> keys[i] != ToggleLetters
    ensures var text := LineAfter(setup, capacity, line, keys).text;
            Width(setup.wcwidth, text) <= setup.patternColumns && |text| < capacity
    decreases |keys|
  {
    hide Typed, Chopped, ScanChar;
    if keys != [] {
      var n := |keys| - 1;
      PatternStaysInRow(setup, capacity, line, keys[..n]);
      var before := LineAfter(setup, capacity, line, keys[..n]).text;
      BackspaceStaysInRow(setup.wcwidth, before);
      if keys[n].Other? {
        TypedStaysInRow(setup.wcwidth, before, keys[n].code, capacity, setup.patternColumns);
      }
    }
  }

  // ---- the selection

  /** A run without C-u and C-l, and without a key that returns a line, keeps the selection the one of the pattern in
      the list of the view, whatever else the keys change. */
  lemma {:induction false} SelectionFollows(setup: Setup, capacity: nat, reorder: bool, st: State, keys: seq<Key>)
    requires st.selection == Found(setup, st)
    requires forall i :: 0 <= i < |keys| ==> keys[i] !in {EraseLine, ToggleLetters, Enter, FixCommand, EditCommand}
    ensures var next := Run(setup, capacity, reorder, st, keys); next.selection == Found(setup, next)
    decreases |keys|
  {
    hide Step, Found;
    if keys != [] {
      var n := |keys| - 1;
      SelectionFollows(setup, capacity, reorder, st, keys[..n]);
      StepFollows(setup, capacity, reorder, Run(setup, capacity, reorder, st, keys[..n]), keys[n]);
    }
  }

  lemma StepFollows(setup: Setup, capacity: nat, reorder: bool, st: State, key: Key)
    requires st.selection == Found(setup, st)
    requires key !in {EraseLine, ToggleLetters, Enter, FixCommand, EditCommand}
    ensures var next := Step(setup, capacity, reorder, st, key); next.selection == Found(setup, next)
  {
    hide Pick, Candidates, Deduplicates, Under, Typed, Chopped, CursorMove, Deleted, Promoted;
  }

  /** With rows for all of them, every line of the list that matches is found, and no other. */
  lemma FoundMeans(setup: Setup, st: State, line: Text)
    requires |ListOf(st.view, st.lists)| <= st.rows
    ensures var search := Selection.Search(st.matching, st.caseSensitive, setup.lower, setup.regexp);
            line in Found(setup, st) <==>
              line in ListOf(st.view, st.lists) && (st.line.text == [] || Meant(search, st.line.text, line))
    ensures setup.noDuplicates && st.matching != Regexp ==> Distinct(Found(setup, st))
  {
    hide Meant, Pick, Candidates, Deduplicates, ListOf;
    var search := Selection.Search(st.matching, st.caseSensitive, setup.lower, setup.regexp);
    CandidatesNotMore(search, st.line.text, ListOf(st.view, st.lists));
    DedupNotLonger(Candidates(search, Some(st.line.text), ListOf(st.view, st.lists)));
    SelectionMeans(search, st.line.text, ListOf(st.view, st.lists), st.rows, setup.noDuplicates, line);
    NoDuplicatesShown(search, Some(st.line.text), ListOf(st.view, st.lists), st.rows, setup.noDuplicates);
  }

  /** C-u erases the pattern but does not search again, as the manual says it does: the lines shown stay those of the
      pattern before. Where the whole list would be shown, they are the right ones if and only if it was shown
      already. */
  lemma EraseShowsOld(setup: Setup, capacity: nat, reorder: bool, st: State)
    requires var list := ListOf(st.view, st.lists); |list| <= st.rows && (setup.noDuplicates ==> Distinct(list))
    ensures var next := Step(setup, capacity, reorder, st, EraseLine);
            && next.line.text == [] && next.selection == st.selection
            && (next.selection == Found(setup, next) <==> st.selection == ListOf(st.view, st.lists))
  {
    hide Candidates, Dedup, Under;
    var search := Selection.Search(st.matching, st.caseSensitive, setup.lower, setup.regexp);
    EverythingFound(search, ListOf(st.view, st.lists));
    if setup.noDuplicates {
      DedupOfDistinct(ListOf(st.view, st.lists));
    }
  }

  /** A state where it was not: one command that the pattern does not match. */
  lemma EraseIsStale(setup: Setup, capacity: nat, reorder: bool) returns (st: State)
    ensures st.selection == Found(setup, st)
    ensures var next := Step(setup, capacity, reorder, st, EraseLine); next.selection != Found(setup, next)
  {
    hide Step;
    var ls: Text := ['l' as int, 's' as int];
    st := State(Ranking, Substring, true, 1, Line(['g' as int], true), Lists([ls], [ls], []), [], IN_PROMPT, None);
    var search := Selection.Search(Substring, true, setup.lower, setup.regexp);
    forall k: nat ensures !MatchesAt(search, ls, st.line.text, k) {
      assert k + 1 <= 2 ==> ls[k + 0] != st.line.text[0];
    }
    if Found(setup, st) != [] {
      FoundMatches(setup, st);
      assert false;
    }
    EraseShowsOld(setup, capacity, reorder, st);
  }

  /** C-l leaves the lines shown as well. They stay the right ones where case does not matter, as long as the two ways
      to map a letter do not change what it is compared as, nor where the blanks are. */
  lemma LettersShowSame(setup: Setup, capacity: nat, reorder: bool, st: State)
    requires st.selection == Found(setup, st) && !st.caseSensitive && st.matching != Regexp
    requires forall b :: setup.lower(setup.lower(b)) == setup.lower(b) == setup.lower(setup.upper(b))
    requires forall b :: (setup.lower(b) == SPACE <==> b == SPACE) && (setup.upper(b) == SPACE <==> b == SPACE)
    ensures var next := Step(setup, capacity, reorder, st, ToggleLetters); next.selection == Found(setup, next)
  {
    hide Pick, Deduplicates, Candidates, Under, CursorMove, Mapped;
    var next := Step(setup, capacity, reorder, st, ToggleLetters);
    var search := Selection.Search(st.matching, st.caseSensitive, setup.lower, setup.regexp);
    var f := if st.line.lowercase then setup.lower else setup.upper;
    assert next.line.text == Mapped(f, st.line.text);
    MappedFindsSame(search, f, st.line.text, ListOf(st.view, st.lists));
    assert Deduplicates(search, Some(next.line.text), setup.noDuplicates)
        == Deduplicates(search, Some(st.line.text), setup.noDuplicates) by {
      SameDeduplication(search, st.line.text, next.line.text, setup.noDuplicates);
    }
  }

  lemma SameDeduplication(search: Selection.Search, p: Text, q: Text, noDuplicates: bool)
    requires search.matching != Regexp
    ensures Deduplicates(search, Some(p), noDuplicates) == Deduplicates(search, Some(q), noDuplicates)
  {
  }

  /** A pattern whose letters are mapped so that they are compared as the same ones finds the same lines. */
  lemma MappedFindsSame(search: Selection.Search, f: Byte -> Byte, p: Text, list: seq<Text>)
    requires !search.caseSensitive && search.matching != Regexp
    requires forall b :: search.fold(f(b)) == search.fold(b) && (f(b) == SPACE <==> b == SPACE)
    ensures Candidates(search, Some(Mapped(f, p)), list) == Candidates(search, Some(p), list)
  {
    hide Filter, Tokens, Find, IsWord;
    var q := Mapped(f, p);
    forall line ensures Selected(search, p, line) == Selected(search, q, line)
      ensures HasInside(search, p, line) == HasInside(search, q, line)
    {
      MappedMatchesSame(search, f, p, line);
    }
    FilterSame(SelectedBy(search, p), SelectedBy(search, q), list);
    FilterSame(InsideBy(search, p), InsideBy(search, q), list);
  }

  lemma MappedMatchesSame(search: Selection.Search, f: Byte -> Byte, p: Text, line: Text)
    requires !search.caseSensitive && search.matching != Regexp
    requires forall b :: search.fold(f(b)) == search.fold(b) && (f(b) == SPACE <==> b == SPACE)
    ensures var q := Mapped(f, p);
            Selected(search, p, line) == Selected(search, q, line)
            && HasInside(search, p, line) == HasInside(search, q, line)
  {
    hide Tokens, FindFrom;
    var q := Mapped(f, p);
    assert Fold(search, q) == Fold(search, p);
    if search.matching == Keywords {
      KeywordsMean(search, p, line);
      KeywordsMean(search, q, line);
      forall i: nat, j: nat ensures IsWord(p, i, j) == IsWord(q, i, j) {
        MappedWord(f, p, i, j);
      }
      forall i: nat, j: nat, k: nat | i <= j <= |p|
        ensures MatchesAt(search, line, p[i..j], k) == MatchesAt(search, line, q[i..j], k)
      {
        assert forall m :: 0 <= m < j - i ==> q[i..j][m] == f(p[i..j][m]);
      }
    }
  }

  lemma MappedWord(f: Byte -> Byte, p: Text, i: nat, j: nat)
    requires forall b :: f(b) == SPACE <==> b == SPACE
    ensures IsWord(p, i, j) == IsWord(Mapped(f, p), i, j)
  {
    var q := Mapped(f, p);
    if i < j <= |p| {
      assert forall k :: 0 <= k < j - i ==> q[i..j][k] == f(p[i..j][k]);
      BlankIn(p[i..j]);
      BlankIn(q[i..j]);
    }
  }

  lemma BlankIn(s: Text)
    ensures SPACE in s <==> exists k :: 0 <= k < |s| && s[k] == SPACE
  {
  }

  lemma {:induction false} DedupNotLonger(s: seq<Text>)
    ensures |Dedup(s)| <= |s|
  {
    if s != [] {
      DedupNotLonger(s[..|s| - 1]);
    }
  }

  lemma CandidatesNotMore(search: Selection.Search, pattern: Text, list: seq<Text>)
    ensures |Candidates(search, Some(pattern), list)| <= |list|
  {
    if pattern == [] {
      EverythingFound(search, list);
    } else {
      DisjointFilters(SelectedBy(search, pattern), InsideBy(search, pattern), list);
    }
  }

  lemma {:induction false} DisjointFilters(f: Text -> bool, g: Text -> bool, s: seq<Text>)
    ensures (forall x :: f(x) ==> !g(x)) ==> |Filter(f, s)| + |Filter(g, s)| <= |s|
  {
    if s != [] {
      DisjointFilters(f, g, s[1..]);
    }
  }

  /** The keys that do nothing. */
  lemma IdleKeys(setup: Setup, capacity: nat, reorder: bool, st: State, code: int)
    requires code <= 26
    ensures Step(setup, capacity, reorder, st, HomeOrEnd) == st
    ensures Step(setup, capacity, reorder, st, Other(code)) == st
  {
    hide Found, Under;
  }

  // ---- the cursor

  /** From the row of a line, the keys that move the cursor put it on the lines next to it, going round at the ends, and
      on those ten away, stopping there. With the prompt at the bottom the next line is the one above. */
  lemma MoveKeys(setup: Setup, capacity: nat, reorder: bool, st: State, i: nat)
    requires i < |st.selection| <= st.rows && st.cursor == RowOf(i, setup.promptBottom, st.rows)
    ensures var n := |st.selection|;
            var up, down := Step(setup, capacity, reorder, st, LineUp), Step(setup, capacity, reorder, st, LineDown);
            var next, previous := if setup.promptBottom then up else down, if setup.promptBottom then down else up;
            && Under(setup, st) == Some(st.selection[i])
            && Under(setup, next) == Some(st.selection[if i + 1 == n then 0 else i + 1])
            && Under(setup, previous) == Some(st.selection[if i == 0 then n - 1 else i - 1])
            && Step(setup, capacity, reorder, st, Key.Search) == next
    ensures var n := |st.selection|;
            var up, down := Step(setup, capacity, reorder, st, PageUp), Step(setup, capacity, reorder, st, PageDown);
            var next, previous := if setup.promptBottom then up else down, if setup.promptBottom then down else up;
            && Under(setup, next) == Some(st.selection[Min(i + 10, n - 1)])
            && Under(setup, previous) == Some(st.selection[if i < 10 then 0 else i - 10])
  {
    hide Step, CursorMove, SelectionIndex;
    MoveStep(setup, capacity, reorder, st, LineUp);
    MoveStep(setup, capacity, reorder, st, LineDown);
    MoveStep(setup, capacity, reorder, st, Key.Search);
    MoveStep(setup, capacity, reorder, st, PageUp);
    MoveStep(setup, capacity, reorder, st, PageDown);
    RowMoves(i, setup.promptBottom, st.rows, |st.selection|);
  }

  /** Where moves from the row of line i lead. */
  lemma RowMoves(i: nat, promptBottom: bool, rows: nat, size: nat)
    requires i < size <= rows
    ensures var near, far := if promptBottom then -1 else 1, if promptBottom then -10 else 10;
            var cursor := RowOf(i, promptBottom, rows);
            && SelectionIndex(cursor, promptBottom, rows, size) == i
            && SelectionIndex(CursorMove(cursor, near, promptBottom, rows, size), promptBottom, rows, size)
            == (if i + 1 == size then 0 else i + 1)
            && SelectionIndex(CursorMove(cursor, -near, promptBottom, rows, size), promptBottom, rows, size)
            == (if i == 0 then size - 1 else i - 1)
            && SelectionIndex(CursorMove(cursor, far, promptBottom, rows, size), promptBottom, rows, size)
            == Min(i + 10, size - 1)
            && SelectionIndex(CursorMove(cursor, -far, promptBottom, rows, size), promptBottom, rows, size)
            == (if i < 10 then 0 else i - 10)
  {
  }

  /** C-r from the prompt walks through the selection, over and over. */
  lemma {:induction false} SearchWalks(setup: Setup, capacity: nat, reorder: bool, st: State, keys: seq<Key>)
    requires st.cursor == IN_PROMPT && 0 < |st.selection| <= st.rows
    requires keys != [] && forall i :: 0 <= i < |keys| ==> keys[i] == Key.Search
    ensures var next, i := Run(setup, capacity, reorder, st, keys), (|keys| - 1) % |st.selection|;
            && next == st.(cursor := RowOf(i, setup.promptBottom, st.rows))
            && Under(setup, next) == Some(st.selection[i])
    decreases |keys|
  {
    hide Step;
    var k := |keys| - 1;
    var before := Run(setup, capacity, reorder, st, keys[..k]);
    if k == 0 {
      SearchStep(setup, capacity, reorder, st, |st.selection|);
      SmallRemainder(0, |st.selection|);
    } else {
      SearchWalks(setup, capacity, reorder, st, keys[..k]);
      SearchStep(setup, capacity, reorder, before, (k - 1) % |st.selection|);
      NextRemainder(k - 1, |st.selection|);
    }
  }

  /** C-r from the row of line i, or from the prompt. */
  lemma SearchStep(setup: Setup, capacity: nat, reorder: bool, st: State, i: nat)
    requires 0 < |st.selection| <= st.rows
    requires if i < |st.selection| then st.cursor == RowOf(i, setup.promptBottom, st.rows) else st.cursor == IN_PROMPT
    ensures var next, j := Step(setup, capacity, reorder, st, Key.Search), if i + 1 < |st.selection| then i + 1 else 0;
            && next == st.(cursor := RowOf(j, setup.promptBottom, st.rows))
            && Under(setup, next) == Some(st.selection[j])
  {
    hide Step;
    MoveStep(setup, capacity, reorder, st, Key.Search);
  }

  /** Keys that move the cursor move nothing else. */
  lemma MoveStep(setup: Setup, capacity: nat, reorder: bool, st: State, key: Key)
    requires StepOf(key, setup.promptBottom).Some?
    ensures Step(setup, capacity, reorder, st, key)
         == st.(cursor := CursorMove(st.cursor, StepOf(key, setup.promptBottom).value, setup.promptBottom, st.rows,
                                     |st.selection|))
  {
    hide Found, Under, CursorMove;
  }

  // ---- deleting

  lemma {:induction false} FilterOthers(keep: Text -> bool, lines: seq<Text>, line: Text)
    ensures Filter(keep, Others(lines, line)) == Others(Filter(keep, lines), line)
  {
    hide Others;
    if lines == [] {
      OthersFewer([], line);
    } else {
      var head, rest := lines[0], lines[1..];
      assert lines == [head] + rest;
      FilterOthers(keep, rest, line);
      OthersHead(head, rest, line);
      FilterHead(keep, head, Others(rest, line));
      OthersHead(head, Filter(keep, rest), line);
    }
  }

  /** What is found without a line is what is found, without the line. */
  lemma CandidatesOthers(search: Selection.Search, pattern: Option<Text>, list: seq<Text>, line: Text)
    ensures Candidates(search, pattern, Others(list, line)) == Others(Candidates(search, pattern, list), line)
  {
    hide Filter, Others;
    var selected, inside := SelectedBy(search, pattern.GetOr([])), InsideBy(search, pattern.GetOr([]));
    FilterOthers(selected, list, line);
    FilterOthers(inside, list, line);
    OthersConcat(Filter(selected, list), Filter(inside, list), line);
    OthersConcat(Filter(selected, list), [], line);
    OthersFewer([], line);
  }

  /** As many lines as there is room for, once a line is gone: those picked before without it, and then more. */
  lemma PickOthers(noDuplicates: bool, max: nat, lines: seq<Text>, line: Text)
    ensures Others(Pick(noDuplicates, max, lines), line) <= Pick(noDuplicates, max, Others(lines, line))
    ensures line !in Pick(noDuplicates, max, Others(lines, line))
  {
    hide Others, Dedup;
    var all := if noDuplicates then Dedup(lines) else lines;
    DedupOthers(lines, line);
    OthersHas(all, line);
    if |all| > max {
      assert all == all[..max] + all[max..];
      OthersConcat(all[..max], all[max..], line);
      OthersFewer(all[..max], line);
    } else {
      OthersFewer(all, line);
    }
    var fewer := Others(all, line);
    assert |fewer| > max ==> forall x :: x in fewer[..max] ==> x in fewer;
    assert |all| <= max ==> Pick(noDuplicates, max, lines) == all;
  }

  /** DEL, confirmed, on the row of line i: the line is no longer shown, the others are, in their order, and more may
      follow. The cursor is on the line that took its row, the one below it in the selection if all lines shown were
      different; or on the last line, or in the prompt if none is left. */
  lemma DeleteMovesOn(setup: Setup, capacity: nat, reorder: bool, st: State, i: nat)
    requires st.selection == Found(setup, st)
    requires i < |st.selection| && st.cursor == RowOf(i, setup.promptBottom, st.rows)
    ensures var next, line := Step(setup, capacity, reorder, st, Delete(true)), st.selection[i];
            && Others(st.selection, line) <= next.selection && line !in next.selection
            && Under(setup, next) ==
                 (if next.selection == [] then None else Some(next.selection[Min(i, |next.selection| - 1)]))
            && (Distinct(st.selection) && i + 1 < |st.selection| ==> Under(setup, next) == Some(st.selection[i + 1]))
  {
    hide Step, Others, Pick, Candidates, Distinct;
    var line, next := st.selection[i], Step(setup, capacity, reorder, st, Delete(true));
    DeleteStep(setup, capacity, reorder, st, i);
    DeletedRow(setup.promptBottom, st.rows, |next.selection|, i);
    if Distinct(st.selection) && i + 1 < |st.selection| {
      OthersOfDistinct(st.selection, i);
      assert Others(st.selection, line)[i] == st.selection[i + 1];
    }
  }

  lemma OthersOfDistinct(lines: seq<Text>, i: nat)
    requires Distinct(lines) && i < |lines|
    ensures Others(lines, lines[i]) == lines[..i] + lines[i + 1..]
  {
    var line := lines[i];
    assert lines == lines[..i] + ([line] + lines[i + 1..]);
    OthersConcat(lines[..i], [line] + lines[i + 1..], line);
    OthersHead(line, lines[i + 1..], line);
    OthersFewer(lines[..i], line);
    OthersFewer(lines[i + 1..], line);
  }

  lemma DeletedRow(promptBottom: bool, rows: nat, size: nat, i: nat)
    requires i < rows && size <= rows
    ensures var cursor := CursorMove(RowOf(i, promptBottom, rows), 0, promptBottom, rows, size);
            SelectionIndex(cursor, promptBottom, rows, size) == Min(i, size - 1)
  {
  }

  lemma DeleteStep(setup: Setup, capacity: nat, reorder: bool, st: State, i: nat)
    requires st.selection == Found(setup, st)
    requires i < |st.selection| && st.cursor == RowOf(i, setup.promptBottom, st.rows)
    ensures var next, line := Step(setup, capacity, reorder, st, Delete(true)), st.selection[i];
            && |st.selection| <= st.rows == next.rows && |next.selection| <= st.rows
            && Others(st.selection, line) <= next.selection && line !in next.selection
            && next.cursor == CursorMove(st.cursor, 0, setup.promptBottom, st.rows, |next.selection|)
  {
    hide Others, Pick, Candidates, CursorMove, Deduplicates;
    var search := Selection.Search(st.matching, st.caseSensitive, setup.lower, setup.regexp);
    var list, line := ListOf(st.view, st.lists), st.selection[i];
    assert Under(setup, st) == Some(line);
    CandidatesOthers(search, Some(st.line.text), list, line);
    PickOthers(Deduplicates(search, Some(st.line.text), setup.noDuplicates), st.rows,
               Candidates(search, Some(st.line.text), list), line);
  }
}
