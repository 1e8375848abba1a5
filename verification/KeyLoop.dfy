/** The key loop of src/hstr.c without its drawing: what every key does to the views, the pattern, the
    selection and the cursor. */
module KeyLoop {
  import opened Bytes
  import opened Cursor
  import opened Deletion
  import opened Favorites
  import opened History
  import opened HistoryModel
  import opened Selection
  import opened Typing
  import opened Utf8
  import opened ZshLine

  datatype View = Ranking | Raw | FavoritesView

  datatype Key =
    | HomeOrEnd
    | Delete(confirmed: bool)
    | NextMatching
    | ToggleCaseSensitivity
    | NextView
    | MakeFavorite
    | Resize(rows: nat)
    | EraseLine
    | ToggleLetters
    | Backspace
    | LineUp
    | LineDown
    | PageUp
    | PageDown
    | Search                 // C-r, like one line up or down
    | Enter
    | FixCommand
    | EditCommand
    | Cancel
    | Exit
    | Other(code: int)

  const K_CTRL_Z: int := 26
  const PATTERN_BUFFER_LNG: nat := 512

  /** The key of a byte read from the terminal. */
  function KeyOf(b: Byte): Key {
    match b
    case 5 => NextMatching               // C-e
    case 6 => MakeFavorite               // C-f
    case 7 => Cancel                     // C-g
    case 8 => Backspace                  // C-h
    case 9 => EditCommand                // Tab
    case 10 => LineDown                  // C-j
    case 11 => LineUp                    // C-k
    case 12 => ToggleLetters             // C-l
    case 13 => Enter
    case 14 => LineDown                  // C-n
    case 16 => LineUp                    // C-p
    case 18 => Key.Search                // C-r
    case 20 => ToggleCaseSensitivity     // C-t
    case 21 => EraseLine                 // C-u
    case 23 => EraseLine                 // C-w
    case 24 => Exit                      // C-x
    case 27 => Cancel                    // Esc
    case 31 => NextView                  // C-/
    case 127 => Backspace
    case _ => Other(b)
  }

  /** The bytes that are typed: no control codes. */
  predicate Typeable(b: Byte) {
    b > K_CTRL_Z && KeyOf(b) == Other(b)
  }

  /** What does not change while the loop runs: the locale, the regular expressions, the configuration and
      the columns for the pattern. */
  datatype Setup = Setup(wcwidth: nat -> int, lower: Byte -> Byte, upper: Byte -> Byte,
                         regexp: (Text, Text) -> Option<(int, int)>, noDuplicates: bool, noConfirm: bool,
                         promptBottom: bool, patternColumns: int)
  {
    ghost predicate Valid() {
      forall b :: b != 0 ==> lower(b) != 0 && upper(b) != 0
    }
  }

  // ---- the pattern

  function Mapped(f: Byte -> Byte, s: Text): (mapped: Text)
    ensures |mapped| == |s|
  {
    seq(|s|, i requires 0 <= i < |s| => f(s[i]))
  }

  /** toggle_case: every byte of the string is mapped. */
  method MapLetters(a: array<Byte>, ghost s: Text, f: Byte -> Byte)
    requires Holds(a, s) && forall b :: b != 0 ==> f(b) != 0
    modifies a
    ensures Holds(a, Mapped(f, s))
  {
    assert forall k :: 0 <= k < |s| ==> a[k] == a[..|s|][k] == s[k];
    assert forall k :: 0 <= k < |s| ==> s[k] in s;
    var i: nat := 0;
    while a[i] != 0
      invariant i <= |s| && a[|s|] == 0
      invariant forall k :: 0 <= k < i ==> a[k] == f(s[k])
      invariant forall k :: i <= k < |s| ==> a[k] == s[k]
      decreases |s| - i
    {
      a[i] := f(a[i]);
      i := i + 1;
    }
    assert a[..|s|] == Mapped(f, s);
  }

  /** The pattern, and whether C-l maps it to lower case next. */
  datatype Line = Line(text: Text, lowercase: bool)

  /** What a key does to the pattern, in a buffer of the given capacity. */
  function LineAfterKey(setup: Setup, capacity: nat, line: Line, key: Key): Line {
    match key
    case EraseLine => line.(text := [])
    case ToggleLetters => Line(Mapped(if line.lowercase then setup.lower else setup.upper, line.text), !line.lowercase)
    case Backspace => line.(text := Chopped(line.text))
    case Other(code) =>
      if code > K_CTRL_Z then line.(text := Typed(setup.wcwidth, line.text, code, capacity, setup.patternColumns))
      else line
    case _ => line
  }

  function LineAfter(setup: Setup, capacity: nat, line: Line, keys: seq<Key>): Line
    decreases |keys|
  {
    if keys == [] then line
    else LineAfterKey(setup, capacity, LineAfter(setup, capacity, line, keys[..|keys| - 1]), keys[|keys| - 1])
  }

  /** The keys of some bytes. */
  function KeysOf(bytes: Text): (keys: seq<Key>)
    ensures |keys| == |bytes|
  {
    seq(|bytes|, i requires 0 <= i < |bytes| => KeyOf(bytes[i]))
  }

  lemma {:induction false} KeysType(setup: Setup, capacity: nat, line: Line, bytes: Text)
    requires forall b :: b in bytes ==> Typeable(b)
    ensures LineAfter(setup, capacity, line, KeysOf(bytes))
         == line.(text := TypedAll(setup.wcwidth, line.text, bytes, capacity, setup.patternColumns))
    decreases |bytes|
  {
    hide Typed, KeyOf;
    if bytes != [] {
      var n := |bytes| - 1;
      assert forall b :: b in bytes[..n] ==> b in bytes;
      KeysType(setup, capacity, line, bytes[..n]);
      assert KeysOf(bytes)[..n] == KeysOf(bytes[..n]) && bytes[n] in bytes;
    }
  }

  // ---- what keys do to the rest

  /** hstr_next_view. */
  function NextOf(view: View): View {
    match view case Ranking => Raw case Raw => FavoritesView case FavoritesView => Ranking
  }

  function NextMatchingOf(matching: Matching): Matching {
    match matching case Substring => Regexp case Regexp => Keywords case Keywords => Substring
  }

  predicate Ends(key: Key) {
    key in {Enter, FixCommand, EditCommand, Cancel, Exit}
  }

  /** Keys after which the selection is always made anew. */
  predicate Reselects(key: Key) {
    || key in {NextMatching, ToggleCaseSensitivity, NextView, Backspace} || key.Resize?
    || (key.Other? && key.code > K_CTRL_Z)
  }

  /** Keys that change the pattern but leave the selection of the pattern before. */
  predicate LeavesStale(key: Key) {
    key == EraseLine || key == ToggleLetters
  }

  /** The step of a key that moves the cursor: C-r is the line move away from the prompt. */
  function StepOf(key: Key, promptBottom: bool): Option<int> {
    match key
    case LineUp => Some(-1)
    case LineDown => Some(1)
    case PageUp => Some(-PG_JUMP_SIZE)
    case PageDown => Some(PG_JUMP_SIZE)
    case Search => Some(if promptBottom then -1 else 1)
    case _ => None
  }

  /** Where a key leaves the cursor; line is the line under the cursor before, the rows and the size those after. */
  function CursorAfterKey(key: Key, cursor: int, line: Option<Text>, promptBottom: bool, promptItems: int,
                          selectionSize: int): int
  {
    if key.Delete? then
      if line == None then cursor else CursorMove(cursor, 0, promptBottom, promptItems, selectionSize)
    else if StepOf(key, promptBottom).Some? then
      CursorMove(cursor, StepOf(key, promptBottom).value, promptBottom, promptItems, selectionSize)
    else if Reselects(key) || key == ToggleLetters || (key.MakeFavorite? && line.Some?) then IN_PROMPT
    else cursor
  }

  /** The selection is made anew: after every key that reselects, and after a deletion and a new favorite. */
  predicate Remakes(noConfirm: bool, key: Key, line: Option<Text>) {
    Reselects(key) || (line.Some? && (key.MakeFavorite? || (key.Delete? && (noConfirm || key.confirmed))))
  }

  // ---- what keys do to the lists

  /** The ranked and the raw view of the history, and the favorites. */
  datatype Lists = Lists(ranked: seq<Text>, raw: seq<Text>, favorites: seq<Text>)

  /** The list of a view. */
  function ListOf(view: View, lists: Lists): seq<Text> {
    match view case Ranking => lists.ranked case Raw => lists.raw case FavoritesView => lists.favorites
  }

  /** A line is deleted from the favorites, or from both histories; never from the others as well. */
  function Deleted(view: View, lists: Lists, line: Text): Lists {
    if view == FavoritesView then lists.(favorites := Others(lists.favorites, line))
    else Lists(Others(lists.ranked, line), Others(lists.raw, line), lists.favorites)
  }

  /** The favorites after a line was made one, or chosen again: with reordering on it is the first of them. */
  function Promoted(reorder: bool, favorites: seq<Text>, line: Text): seq<Text> {
    if reorder then [line] + Others(favorites, line) else if line in favorites then favorites else favorites + [line]
  }

  /** A favorite that is the result is promoted. */
  function Chosen(view: View, reorder: bool, lists: Lists, line: Text): Lists {
    if view == FavoritesView && reorder then lists.(favorites := [line] + Others(lists.favorites, line)) else lists
  }

  /** What a key does to the lists; line is the line under the cursor. */
  function ListsAfterKey(noConfirm: bool, reorder: bool, view: View, lists: Lists, key: Key,
                         line: Option<Text>): Lists {
    match line
    case None => lists
    case Some(text) =>
      match key
      case Delete(confirmed) => if noConfirm || confirmed then Deleted(view, lists, text) else lists
      case MakeFavorite => lists.(favorites := Promoted(reorder, lists.favorites, text))
      case Enter => Chosen(view, reorder, lists, text)
      case FixCommand => Chosen(view, reorder, lists, text)
      case EditCommand => Chosen(view, reorder, lists, text)
      case _ => lists
  }

  /** The result of a key that ends the loop: the line under the cursor, or else the first line for Enter, and the
      pattern for the keys that edit it. */
  function EndResult(key: Key, line: Option<Text>, first: Option<Text>, text: Text): Option<Text> {
    if key == Cancel || key == Exit then None
    else if line.Some? then line
    else if key == Enter then first
    else Some(text)
  }

  // ---- what keys do, all in all

  /** All that a run of keys depends on, and changes. */
  datatype State = State(view: View, matching: Matching, caseSensitive: bool, rows: nat, line: Line, lists: Lists,
                         selection: seq<Text>, cursor: int, result: Option<Text>)

  /** The line under the cursor. */
  function Under(setup: Setup, st: State): Option<Text> {
    var index := SelectionIndex(st.cursor, setup.promptBottom, st.rows, |st.selection|);
    if index >= 0 then Some(st.selection[index]) else None
  }

  function First(lines: seq<Text>, otherwise: Option<Text>): Option<Text> {
    if |lines| > 0 then Some(lines[0]) else otherwise
  }

  /** What the pattern selects from the list of the view. */
  function Found(setup: Setup, st: State): seq<Text> {
    var search := Selection.Search(st.matching, st.caseSensitive, setup.lower, setup.regexp);
    Pick(Deduplicates(search, Some(st.line.text), setup.noDuplicates), st.rows,
         Candidates(search, Some(st.line.text), ListOf(st.view, st.lists)))
  }

  /** The selection is made anew, and its first line is the result. */
  function Remade(setup: Setup, st: State): State {
    st.(selection := Found(setup, st), result := First(Found(setup, st), None))
  }

  /** The round without a key. */
  function AtStart(setup: Setup, st: State): State {
    var shown := Remade(setup, st);
    if st.line.text == [] then shown.(result := st.result) else shown
  }

  /** A key before the selection follows: settings, pattern, lists and result. */
  function Changed(setup: Setup, capacity: nat, reorder: bool, st: State, key: Key): State {
    var under := Under(setup, st);
    st.(view := if key == NextView then NextOf(st.view) else st.view,
        matching := if key == NextMatching then NextMatchingOf(st.matching) else st.matching,
        caseSensitive := st.caseSensitive != (key == ToggleCaseSensitivity),
        rows := if key.Resize? then key.rows else st.rows,
        line := LineAfterKey(setup, capacity, st.line, key),
        lists := ListsAfterKey(setup.noConfirm, reorder, st.view, st.lists, key, under),
        result := if Ends(key) then EndResult(key, under, First(st.selection, st.result), st.line.text) else st.result)
  }

  /** One key. */
  function Step(setup: Setup, capacity: nat, reorder: bool, st: State, key: Key): State {
    var under := Under(setup, st);
    var changed := Changed(setup, capacity, reorder, st, key);
    var shown := if Remakes(setup.noConfirm, key, under) then Remade(setup, changed) else changed;
    shown.(cursor := CursorAfterKey(key, st.cursor, under, setup.promptBottom, shown.rows, |shown.selection|))
  }

  /** A state with the parts of a step is the step. */
  lemma IsStep(setup: Setup, capacity: nat, reorder: bool, st: State, key: Key, next: State)
    requires var under, changed := Under(setup, st), Changed(setup, capacity, reorder, st, key);
             && next == changed.(selection := next.selection, result := next.result, cursor := next.cursor)
             && (if Remakes(setup.noConfirm, key, under) then next == Remade(setup, next)
                 else next.selection == st.selection && next.result == changed.result)
             && next.cursor == CursorAfterKey(key, st.cursor, under, setup.promptBottom, next.rows, |next.selection|)
    ensures next == Step(setup, capacity, reorder, st, key)
  {
    hide LineAfterKey, ListsAfterKey, Under, CursorAfterKey, Remakes, EndResult, First, Pick, Candidates, Deduplicates;
  }

  function Run(setup: Setup, capacity: nat, reorder: bool, st: State, keys: seq<Key>): State
    decreases |keys|
  {
    if keys == [] then st
    else
      var n := |keys| - 1;
      Step(setup, capacity, reorder, Run(setup, capacity, reorder, st, keys[..n]), keys[n])
  }

  lemma NoStep(setup: Setup, capacity: nat, reorder: bool, st: State, keys: seq<Key>)
    ensures Run(setup, capacity, reorder, st, keys[..0]) == st
  {
  }

  lemma OneMoreStep(setup: Setup, capacity: nat, reorder: bool, st: State, keys: seq<Key>, n: nat)
    requires n < |keys|
    ensures Run(setup, capacity, reorder, st, keys[..n + 1])
         == Step(setup, capacity, reorder, Run(setup, capacity, reorder, st, keys[..n]), keys[n])
  {
    assert keys[..n + 1][..n] == keys[..n];
  }

  /** What a step makes of the pattern, the view and the lists. */
  lemma StepParts(setup: Setup, capacity: nat, reorder: bool, st: State, key: Key)
    ensures var next := Step(setup, capacity, reorder, st, key);
            && next.line == LineAfterKey(setup, capacity, st.line, key)
            && next.view == (if key == NextView then NextOf(st.view) else st.view)
            && next.lists == ListsAfterKey(setup.noConfirm, reorder, st.view, st.lists, key, Under(setup, st))
  {
    hide LineAfterKey, ListsAfterKey, Under, Found, CursorAfterKey, Remakes, EndResult, First;
  }

  /** The pattern depends on the keys alone, whatever the histories, the view and the selection. */
  lemma {:induction false} RunLine(setup: Setup, capacity: nat, reorder: bool, st: State, keys: seq<Key>)
    ensures Run(setup, capacity, reorder, st, keys).line == LineAfter(setup, capacity, st.line, keys)
    decreases |keys|
  {
    hide Step, LineAfterKey;
    if keys != [] {
      var n := |keys| - 1;
      RunLine(setup, capacity, reorder, st, keys[..n]);
      StepParts(setup, capacity, reorder, Run(setup, capacity, reorder, st, keys[..n]), keys[n]);
    }
  }

  predicate SameSettings(a: State, b: State) {
    a.view == b.view && a.matching == b.matching && a.caseSensitive == b.caseSensitive && a.rows == b.rows
  }

  /** A text typed on the keyboard, whatever the histories and the view. The pattern keeps the characters that still
      fit and is well-formed, exactly if the buffer never runs full within a character; in any case the selection and
      the result are those of the pattern, the lists stay, and the cursor is in the prompt. */
  lemma KeysTypeText(setup: Setup, capacity: nat, reorder: bool, st: State, chars: seq<Text>)
    requires WellFormed(st.line.text) && Width(setup.wcwidth, st.line.text) <= setup.patternColumns
    requires AreChars(chars) && forall b :: b in Join(chars) ==> Typeable(b)
    ensures var next := Run(setup, capacity, reorder, st, KeysOf(Join(chars)));
            && (if RoomThroughout(setup.wcwidth, st.line.text, chars, capacity, setup.patternColumns)
                then next.line.text == AfterText(setup.wcwidth, st.line.text, chars, capacity, setup.patternColumns)
                     && WellFormed(next.line.text)
                else |next.line.text| + 1 == capacity && !WellFormed(next.line.text))
            && next.line.lowercase == st.line.lowercase && next.lists == st.lists && SameSettings(st, next)
            && (Join(chars) != [] ==> next == Remade(setup, next) && next.cursor == IN_PROMPT)
  {
    hide Run, Step, LineAfter, AfterText, RoomThroughout, Join, WellFormed, Width, Typeable, KeysOf, Remade, TypedAll;
    RunLine(setup, capacity, reorder, st, KeysOf(Join(chars)));
    KeysType(setup, capacity, st.line, Join(chars));
    TypedText(setup.wcwidth, st.line.text, chars, capacity, setup.patternColumns);
    TypingSelects(setup, capacity, reorder, st, Join(chars));
  }

  lemma {:induction false} TypingSelects(setup: Setup, capacity: nat, reorder: bool, st: State, bytes: Text)
    requires forall b :: b in bytes ==> Typeable(b)
    ensures var next := Run(setup, capacity, reorder, st, KeysOf(bytes));
            && next.lists == st.lists && SameSettings(st, next)
            && (bytes != [] ==> next == Remade(setup, next) && next.cursor == IN_PROMPT)
    decreases |bytes|
  {
    hide Step, Remade, Typeable;
    if bytes != [] {
      var n := |bytes| - 1;
      assert forall b :: b in bytes[..n] ==> b in bytes;
      TypingSelects(setup, capacity, reorder, st, bytes[..n]);
      assert KeysOf(bytes)[..n] == KeysOf(bytes[..n]) && bytes[n] in bytes;
      TypedByteSelects(setup, capacity, reorder, Run(setup, capacity, reorder, st, KeysOf(bytes[..n])), bytes[n]);
    }
  }

  lemma TypedByteSelects(setup: Setup, capacity: nat, reorder: bool, st: State, b: Byte)
    requires Typeable(b)
    ensures var next := Step(setup, capacity, reorder, st, KeyOf(b));
            next.lists == st.lists && SameSettings(st, next) && next == Remade(setup, next) && next.cursor == IN_PROMPT
  {
    hide Typed, Pick, Candidates, Deduplicates, CursorMove, Under;
  }

  /** DEL takes a line from both histories. */
  predicate Takes(setup: Setup, st: State, key: Key, line: Text) {
    && key.Delete? && (setup.noConfirm || key.confirmed) && st.view != FavoritesView && Under(setup, st) == Some(line)
  }

  /** Whatever the keys, both histories lose the same lines and keep the order of the others; the lines lost are
      exactly those under the cursor when DEL was read, and confirmed, in one of their views. */
  lemma {:induction false} HistoriesOnlyShrink(setup: Setup, capacity: nat, reorder: bool, st: State, keys: seq<Key>,
                                               n: nat) returns (gone: set<Text>)
    requires n <= |keys|
    ensures var after := Run(setup, capacity, reorder, st, keys[..n]).lists;
            after.raw == Except(st.lists.raw, gone) && after.ranked == Except(st.lists.ranked, gone)
    ensures forall x :: x in gone <==>
              exists i :: 0 <= i < n && Takes(setup, Run(setup, capacity, reorder, st, keys[..i]), keys[i], x)
  {
    hide Except, Run, Step, Takes;
    if n == 0 {
      gone := {};
      NoStep(setup, capacity, reorder, st, keys);
      ExceptNone(st.lists.raw);
      ExceptNone(st.lists.ranked);
    } else {
      gone := HistoriesOnlyShrink(setup, capacity, reorder, st, keys, n - 1);
      var before := Run(setup, capacity, reorder, st, keys[..n - 1]);
      OneMoreStep(setup, capacity, reorder, st, keys, n - 1);
      var line := Shrinks(setup, capacity, reorder, before, keys[n - 1]);
      if line.Some? {
        ExceptMore(st.lists.raw, gone, line.value);
        ExceptMore(st.lists.ranked, gone, line.value);
        gone := gone + {line.value};
      }
    }
  }

  /** One key takes one line from both histories, or none. */
  lemma Shrinks(setup: Setup, capacity: nat, reorder: bool, st: State, key: Key) returns (line: Option<Text>)
    ensures forall x :: Takes(setup, st, key, x) <==> line == Some(x)
    ensures var after := Step(setup, capacity, reorder, st, key).lists;
            match line
            case None => after.raw == st.lists.raw && after.ranked == st.lists.ranked
            case Some(text) => after.raw == Others(st.lists.raw, text) && after.ranked == Others(st.lists.ranked, text)
  {
    hide Others, Step, Under;
    StepParts(setup, capacity, reorder, st, key);
    line := Under(setup, st);
    if line.Some? && !Takes(setup, st, key, line.value) {
      line := None;
    }
  }

  /** Without DEL the histories stay, and without C-f and the keys that end the loop the favorites do. */
  lemma {:induction false} ListsStay(setup: Setup, capacity: nat, reorder: bool, st: State, keys: seq<Key>, n: nat)
    requires n <= |keys| && forall i :: 0 <= i < n ==> !keys[i].Delete?
    ensures var after := Run(setup, capacity, reorder, st, keys[..n]).lists;
            && after.raw == st.lists.raw && after.ranked == st.lists.ranked
            && ((forall i :: 0 <= i < n ==> !keys[i].MakeFavorite? && !Ends(keys[i])) ==> after == st.lists)
  {
    hide Run, Step, Under;
    if n == 0 {
      NoStep(setup, capacity, reorder, st, keys);
    } else {
      ListsStay(setup, capacity, reorder, st, keys, n - 1);
      OneMoreStep(setup, capacity, reorder, st, keys, n - 1);
      StepParts(setup, capacity, reorder, Run(setup, capacity, reorder, st, keys[..n - 1]), keys[n - 1]);
    }
  }

  /** Which keys leave what alone. */
  lemma KeyEffects(setup: Setup, capacity: nat, line: Line, reorder: bool, view: View, lists: Lists, key: Key,
                   under: Option<Text>)
    ensures if key.Delete? || key.MakeFavorite? || Ends(key)
            then LineAfterKey(setup, capacity, line, key) == line && !Reselects(key) && !LeavesStale(key)
                 && StepOf(key, setup.promptBottom) == None
            else ListsAfterKey(setup.noConfirm, reorder, view, lists, key, under) == lists
                 && Remakes(setup.noConfirm, key, under) == Reselects(key)
    ensures Ends(key) ==> !Remakes(setup.noConfirm, key, under)
    ensures key.MakeFavorite? ==> Remakes(setup.noConfirm, key, under) == under.Some?
    ensures !(key.Resize? && (key.Delete? || Ends(key)))
  {
  }

  lemma EndLists(noConfirm: bool, reorder: bool, view: View, lists: Lists, key: Key, under: Option<Text>)
    requires Ends(key)
    ensures ListsAfterKey(noConfirm, reorder, view, lists, key, under) ==
              if key != Cancel && key != Exit && under.Some? then Chosen(view, reorder, lists, under.value) else lists
  {
  }

  lemma KeyCursor(key: Key, cursor: int, under: Option<Text>, promptBottom: bool, promptItems: int, selectionSize: int)
    ensures !key.Delete? && !key.MakeFavorite? ==>
              CursorAfterKey(key, cursor, under, promptBottom, promptItems, selectionSize) ==
                CursorAfterKey(key, cursor, None, promptBottom, promptItems, selectionSize)
    ensures Ends(key) ==> CursorAfterKey(key, cursor, under, promptBottom, promptItems, selectionSize) == cursor
    ensures key.MakeFavorite? ==>
              CursorAfterKey(key, cursor, under, promptBottom, promptItems, selectionSize) ==
                if under.Some? then IN_PROMPT else cursor
  {
  }

  /** A command of the raw view is a string. */
  lemma {:induction false} RawLinesAreStrings(isZsh: bool, history: seq<Text>)
    requires AllReadable(isZsh, history)
    ensures forall line :: line in RawImage(isZsh, history) ==> 0 !in line
  {
    if history != [] {
      var n := |history| - 1;
      assert history[n] in history;
      RawLinesAreStrings(isZsh, history[..n]);
      if isZsh {
        UnmetafyNoNul(CommandOf(isZsh, history[n]));
      }
    }
  }

  /** The pattern buffer, filled from the command line. */
  method PatternBuffer(text: Text) returns (buffer: array<Byte>)
    requires |text| < PATTERN_BUFFER_LNG && 0 !in text
    ensures fresh(buffer) && buffer.Length == PATTERN_BUFFER_LNG && Holds(buffer, text) && StrLen(buffer[..]) == |text|
  {
    buffer := new Byte[PATTERN_BUFFER_LNG](i => if 0 <= i < |text| then text[i] else 0);
    assert buffer[..|text|] == text;
    HoldsStrLen(buffer, text);
  }

  class Hstr {
    const setup: Setup
    const views: Views
    const favorites: FavoriteItems
    const pattern: array<Byte>
    var view: View
    var matching: Matching
    var caseSensitive: bool
    var promptItems: nat
    var selection: array<Text>
    var places: array<(int, int)>
    var selectionSize: nat
    var cursor: int
    // None is the null pointer
    var result: Option<Text>
    var lowercase: bool
    var done: bool
    var executeResult: bool
    var editCommand: bool
    var fixCommand: bool

    /** The list of the current view. */
    function Source(): seq<Text>
      requires views.history.Valid()
      reads this`view, views.history, views.history.items, views.history.rawItems, favorites`items
    {
      match view
      case Ranking => views.history.Ranked()
      case Raw => views.history.Raw()
      case FavoritesView => favorites.items
    }

    function CurrentLists(): Lists
      requires views.history.Valid()
      reads views.history, views.history.items, views.history.rawItems, favorites`items
      ensures Source() == ListOf(view, CurrentLists())
    {
      Lists(views.history.Ranked(), views.history.Raw(), favorites.items)
    }

    /** The first line shown, or the last result if there is none. */
    function FirstOrResult(): Option<Text>
      requires selectionSize <= selection.Length
      reads this`selectionSize, this`selection, this`result, selection
    {
      if selectionSize > 0 then Some(selection[0]) else result
    }

    function PatternText(): Text
      reads pattern
    {
      pattern[..StrLen(pattern[..])]
    }

    function CurrentLine(): Line
      reads pattern, this`lowercase
    {
      Line(PatternText(), lowercase)
    }

    function Settings(): Selection.Search
      reads this`matching, this`caseSensitive
    {
      Selection.Search(matching, caseSensitive, setup.lower, setup.regexp)
    }

    /** The parts are in order: the history views agree, the favorites are distinct, the pattern ends. */
    ghost predicate Parts()
      reads views, views.system, views.history, views.history.items, views.history.rawItems
      reads favorites, favorites.names, favorites.names.lists, pattern
      ensures Parts() ==> views.history.Valid()
    {
      setup.Valid() && views.Valid() && favorites.Valid() && Holds(pattern, PatternText())
    }

    /** What is shown fits the rows and comes from the list of the current view. */
    ghost predicate Shown()
      requires views.history.Valid()
      reads this`view, this`promptItems, this`selection, this`selectionSize
      reads selection, views.history, views.history.items, views.history.rawItems, favorites`items
    {
      && selectionSize <= promptItems && selectionSize <= selection.Length
      && forall line :: line in selection[..selectionSize] ==> line in Source()
    }

    /** The cursor is in the prompt, or on a row that stands for an item of the selection. */
    ghost predicate CursorValid()
      reads this`cursor, this`promptItems, this`selectionSize
    {
      cursor == IN_PROMPT || OnRow(cursor, setup.promptBottom, promptItems, selectionSize)
    }

    /** The result, if there is one, is empty or comes from the list of the current view; only at the end it
        may be the pattern. */
    ghost predicate ResultValid()
      requires views.history.Valid()
      reads this`view, this`result, this`done, pattern, views.history, views.history.items, views.history.rawItems
      reads favorites`items
    {
      result == None || result == Some([]) || result.value in Source() || (done && result == Some(PatternText()))
    }

    ghost predicate Valid()
      reads this`view, this`promptItems, this`selection, this`selectionSize, this`cursor, this`result, this`done
      reads selection, views, views.system, views.history, views.history.items, views.history.rawItems
      reads favorites, favorites.names, favorites.names.lists, pattern
      ensures Valid() ==> views.history.Valid()
    {
      Parts() && Shown() && CursorValid() && ResultValid()
    }

    /** The key ended the loop, and the flags say what becomes of the result. */
    predicate EndedBy(key: Key)
      reads this`done, this`executeResult, this`editCommand, this`fixCommand
    {
      && done && executeResult == (key == Enter || key == FixCommand) && fixCommand == (key == FixCommand)
      && editCommand == (key == EditCommand)
    }

    /** No key ended the loop yet. */
    predicate Running()
      reads this`done, this`executeResult, this`editCommand, this`fixCommand
      ensures Running() ==> !done
    {
      !done && !executeResult && !editCommand && !fixCommand
    }

    /** The selection is what the pattern selects from the list of the current view. */
    ghost predicate Current()
      requires views.history.Valid()
      reads this`view, this`matching, this`caseSensitive, this`promptItems, this`selection, this`selectionSize
      reads selection, pattern, views.history, views.history.items, views.history.rawItems, favorites`items
    {
      && selectionSize <= selection.Length
      && selection[..selectionSize] ==
           Pick(Deduplicates(Settings(), Some(PatternText()), setup.noDuplicates), promptItems,
                Candidates(Settings(), Some(PatternText()), Source()))
    }

    /** The selection was just made, and its first line is the result. */
    ghost predicate Refreshed()
      requires views.history.Valid()
      reads this`view, this`matching, this`caseSensitive, this`promptItems, this`selection, this`selectionSize
      reads this`result
      reads selection, pattern, views.history, views.history.items, views.history.rawItems, favorites`items
    {
      Current() && result == if selectionSize > 0 then Some(selection[0]) else None
    }

    /** The favorites file is in step, and every command of the history could be written to it. */
    ghost predicate Synced()
      requires views.history.Valid()
      reads favorites, views.history, views.history.items, views.history.rawItems
    {
      && favorites.InSync()
      && (forall line :: line in views.history.Raw() ==> Storable(favorites.skipComments, line))
      && (forall line :: line in views.history.Ranked() ==> Storable(favorites.skipComments, line))
    }

    /** hstr_print_selection without the printing: selects for the pattern, and the first line is the
        result. */
    method Reselect()
      requires Parts()
      modifies this`selection, this`places, this`selectionSize, this`result
      ensures Parts() && Shown() && Refreshed()
      ensures result == None || result.value in Source()
    {
      hide Pick, Candidates, Deduplicates, Recorded, Views.Valid, FavoriteItems.Valid, HashMap.Represents;
      var source, text := Source(), PatternText();
      selection, places, selectionSize :=
        MakeSelection(Settings(), Some(text), source, promptItems, setup.noDuplicates);
      forall line | line in selection[..selectionSize] ensures line in source {
        SelectionIsFromSource(Settings(), Some(text), source, promptItems, setup.noDuplicates, line);
      }
      result := if selectionSize > 0 then Some(selection[0]) else None;
    }

    /** The state before the first round: the pattern of the command line is in the buffer, nothing is selected
        yet. */
    constructor (setup: Setup, views: Views, favorites: FavoriteItems, view: View, matching: Matching,
                 caseSensitive: bool, cmdline: Text, rows: nat)
      requires setup.Valid() && views.Valid() && favorites.Valid() && 0 !in cmdline
      ensures Valid() && Running() && fresh(pattern) && pattern.Length == PATTERN_BUFFER_LNG
      ensures this.setup == setup && this.views == views && this.favorites == favorites
      ensures this.view == view && this.matching == matching && this.caseSensitive == caseSensitive
      ensures promptItems == rows && cursor == IN_PROMPT && result == Some([]) && lowercase
      ensures PatternText() == if |cmdline| < PATTERN_BUFFER_LNG then cmdline else cmdline[..PATTERN_BUFFER_LNG - 1]
    {
      hide Views.Valid, FavoriteItems.Valid, HistoryItems.Valid, HashMap.Represents, StrLen;
      this.setup, this.views, this.favorites := setup, views, favorites;
      this.view, this.matching, this.caseSensitive, this.promptItems := view, matching, caseSensitive, rows;
      var buffer := PatternBuffer(if |cmdline| < PATTERN_BUFFER_LNG then cmdline
                                  else cmdline[..PATTERN_BUFFER_LNG - 1]);
      pattern := buffer;
      selection := new Text[0](_ => []);
      places := new (int, int)[0](_ => (0, 0));
      selectionSize, cursor, result := 0, IN_PROMPT, Some([]);
      lowercase, done, executeResult, editCommand, fixCommand := true, false, false, false, false;
      new;
      assert Parts();
      assert Shown();
    }

    /** The round that does not read a key. With no pattern everything is shown, but it is not the result. */
    method Begin()
      requires Valid() && !done && cursor == IN_PROMPT
      modifies this`selection, this`places, this`selectionSize, this`result
      ensures Valid() && !done && Current()
      ensures if PatternText() == [] then result == old(result) else Refreshed()
      ensures CurrentState() == AtStart(setup, old(CurrentState()))
      ensures old(Synced()) ==> Synced()
    {
      hide Views.Valid, FavoriteItems.Valid, HistoryItems.Valid, HashMap.Represents, Hstr.Current, StrLen, Hstr.Synced,
           Hstr.CurrentLists, Hstr.CurrentLine, Hstr.Source, Hstr.CurrentState, Pick, Candidates, Deduplicates;
      var before := result;
      Reselect();
      RefreshedState();
      if pattern[0] == 0 {
        result := before;
      }
      EmptyPattern();
    }

    /** The pattern is empty exactly if the buffer starts with its terminator. */
    lemma EmptyPattern()
      requires Holds(pattern, PatternText())
      ensures PatternText() == [] <==> pattern[0] == 0
    {
      assert PatternText() != [] ==> pattern[0] == PatternText()[0] && PatternText()[0] in PatternText();
    }

    /** A cursor that is not in the prompt stands for a line of the selection. */
    lemma CursorIsSafe()
      requires Valid()
      ensures cursor == IN_PROMPT
           || 0 <= SelectionIndex(cursor, setup.promptBottom, promptItems, selectionSize) < selectionSize <= promptItems
    {
      if cursor != IN_PROMPT {
        RowsAreIndices(setup.promptBottom, promptItems, selectionSize);
      }
    }

    /** getResultFromSelection. */
    function UnderCursor(): (line: Option<Text>)
      requires Parts() && Shown()
      reads this`view, this`promptItems, this`selection, this`selectionSize, this`cursor
      reads selection, views, views.system, views.history, views.history.items, views.history.rawItems
      reads favorites, favorites.names, favorites.names.lists, pattern
      ensures line.Some? ==> line.value in Source()
    {
      var index := SelectionIndex(cursor, setup.promptBottom, promptItems, selectionSize);
      if index >= 0 then
        assert selection[index] in selection[..selectionSize];
        Some(selection[index])
      else None
    }

    /** The line under the cursor, when the parts are valid. */
    ghost function LineUnderCursor(): (line: Option<Text>)
      requires Valid()
      reads this, selection, views, views.system, views.history, views.history.items, views.history.rawItems
      reads favorites, favorites.names, favorites.names.lists, pattern
      ensures line == UnderCursor()
    {
      UnderCursor()
    }

    /** All that the keys depend on. */
    ghost function CurrentState(): (st: State)
      requires Valid()
      reads this, selection, views, views.system, views.history, views.history.items, views.history.rawItems
      reads favorites, favorites.names, favorites.names.lists, pattern
      ensures st.view == view && st.matching == matching && st.caseSensitive == caseSensitive
      ensures st.lists == CurrentLists() && st.line == CurrentLine() && st.line.text == PatternText()
      ensures st.cursor == cursor && st.result == result && st.rows == promptItems
      ensures st.selection == selection[..selectionSize] && |st.selection| == selectionSize
    {
      State(view, matching, caseSensitive, promptItems, CurrentLine(), CurrentLists(), selection[..selectionSize],
            cursor, result)
    }

    /** remove_from_history_model: from the favorites, or from all histories. */
    method RemoveFromModel(cmd: Text)
      requires Parts()
      modifies views.system, views.history, views.history.items, views.history.rawItems, favorites`items, favorites`file
      ensures Parts() && CurrentLists() == Deleted(view, old(CurrentLists()), cmd)
      ensures view == FavoritesView ==>
                && views.history.Ranked() == old(views.history.Ranked())
                && views.history.Raw() == old(views.history.Raw())
                && views.system.entries == old(views.system.entries)
                && favorites.items == Others(old(favorites.items), cmd)
      ensures view != FavoritesView ==>
                && views.history.Ranked() == Others(old(views.history.Ranked()), cmd)
                && views.history.Raw() == Others(old(views.history.Raw()), cmd)
                && favorites.items == old(favorites.items) && favorites.file == old(favorites.file)
      ensures old(Synced()) ==> Synced()
    {
      hide Views.Valid, FavoriteItems.Valid, FavoriteItems.InSync, HistoryItems.Valid, HashMap.Represents, Others,
           Storable;
      if view == FavoritesView {
        OthersFewer(favorites.items, cmd);
        var removed := favorites.Remove(Some(cmd));
      } else {
        OthersHas(views.history.Raw(), cmd);
        OthersHas(views.history.Ranked(), cmd);
        var occurrences := views.Remove(cmd);
      }
    }

    /** DEL: the line under the cursor goes from the list, and from nowhere else; the cursor stays on a row that
        shows an item, or goes to the prompt. */
    method HandleDelete(confirmed: bool)
      requires Valid() && !done
      modifies this`selection, this`places, this`selectionSize, this`result, this`cursor
      modifies views.system, views.history, views.history.items, views.history.rawItems, favorites`items, favorites`file
      ensures Valid() && !done
      ensures CurrentLists() == ListsAfterKey(setup.noConfirm, favorites.reorderOnChoice, view, old(CurrentLists()),
                                              Delete(confirmed), old(UnderCursor()))
      ensures if Remakes(setup.noConfirm, Delete(confirmed), old(UnderCursor())) then Refreshed()
              else selectionSize == old(selectionSize) && selection == old(selection) && result == old(result)
      ensures old(Current()) ==> Current()
      ensures old(Synced()) ==> Synced()
      ensures cursor
           == CursorAfterKey(Delete(confirmed), old(cursor), old(UnderCursor()), setup.promptBottom, promptItems,
                             selectionSize)
    {
      hide Hstr.Parts, Hstr.Shown, Hstr.Source, Hstr.Current, Hstr.Synced, Hstr.CurrentLists, Views.Valid,
           FavoriteItems.Valid, HistoryItems.Valid, Deleted, CursorMove;
      var almostDead := UnderCursor();
      if almostDead.Some? {
        if setup.noConfirm || confirmed {
          DeleteLine(almostDead.value);
        }
        MoveLandsOnRow(cursor, 0, setup.promptBottom, promptItems, selectionSize);
        cursor := CursorMove(cursor, 0, setup.promptBottom, promptItems, selectionSize);
      }
    }

    method DeleteLine(line: Text)
      requires Parts() && !done
      modifies this`selection, this`places, this`selectionSize, this`result
      modifies views.system, views.history, views.history.items, views.history.rawItems, favorites`items, favorites`file
      ensures Parts() && Shown() && Refreshed() && (result == None || result.value in Source())
      ensures CurrentLists() == Deleted(view, old(CurrentLists()), line)
      ensures old(Synced()) ==> Synced()
    {
      hide Views.Valid, FavoriteItems.Valid, HistoryItems.Valid, HashMap.Represents, Deleted, Hstr.Current, Hstr.Synced;
      RemoveFromModel(line);
      Reselect();
    }

    /** C-f: the line under the cursor becomes a favorite. */
    method HandleFavorite()
      requires Valid() && !done
      modifies this`selection, this`places, this`selectionSize, this`result, this`cursor
      modifies favorites`items, favorites`file, favorites.names, favorites.names.lists
      ensures Valid() && !done
      ensures CurrentLists() == ListsAfterKey(setup.noConfirm, favorites.reorderOnChoice, view, old(CurrentLists()),
                                              Key.MakeFavorite, old(UnderCursor()))
      ensures if old(UnderCursor()).Some? then Refreshed() && cursor == IN_PROMPT
              else selectionSize == old(selectionSize) && selection == old(selection) && result == old(result)
                   && cursor == old(cursor)
      ensures old(Current()) ==> Current()
      ensures old(Synced()) ==> Synced()
    {
      hide Hstr.Parts, Hstr.Shown, Hstr.Current, Hstr.Synced, Views.Valid, FavoriteItems.Valid, HistoryItems.Valid,
           Promoted;
      var favorite := UnderCursor();
      if favorite.Some? {
        MakeFavorite(favorite.value);
        Reselect();
        cursor := IN_PROMPT;
      }
    }

    /** favorites_choose in the favorites view, favorites_add in the others. */
    method MakeFavorite(line: Text)
      requires Parts() && line in Source()
      modifies favorites`items, favorites`file, favorites.names, favorites.names.lists
      ensures Parts() && favorites.items == Promoted(favorites.reorderOnChoice, old(favorites.items), line)
      ensures old(Synced()) ==> Synced()
    {
      hide Views.Valid, FavoriteItems.Valid, FavoriteItems.InSync, HistoryItems.Valid, HashMap.HashSet.Valid,
           HashMap.Represents, Listed, Others, StrLen, Storable;
      assert 0 !in line by {
        LinesAreStrings();
      }
      if view == FavoritesView {
        favorites.Choose(Some(line));
      } else {
        favorites.Add(Some(line));
      }
    }

    /** The lines of every view are strings. */
    lemma LinesAreStrings()
      requires Parts()
      ensures forall line :: line in Source() ==> 0 !in line
    {
      RawLinesAreStrings(views.isZsh, views.system.entries);
      var raw := views.history.Raw();
      FilterHas((c: Text) => c in raw, views.ranking);
    }

    /** What choose_result may fall back on. */
    ghost predicate MayBeResult(fallback: Option<Text>)
      requires views.history.Valid()
      reads this`view, pattern, views.history, views.history.items, views.history.rawItems, favorites`items
    {
      fallback == None || fallback == Some([]) || fallback.value in Source() || fallback == Some(PatternText())
    }

    /** choose_result: the line under the cursor, promoted among the favorites, or the fallback. */
    method ChooseResult(fallback: Option<Text>)
      requires Valid() && MayBeResult(fallback)
      modifies this`result, this`done, favorites`items, favorites`file
      ensures Valid() && done && result == if old(UnderCursor()).Some? then old(UnderCursor()) else fallback
      ensures CurrentLists() == if old(UnderCursor()).Some?
                                then Chosen(view, favorites.reorderOnChoice, old(CurrentLists()),
                                            old(UnderCursor()).value)
                                else old(CurrentLists())
      ensures old(Synced()) ==> Synced()
    {
      hide Hstr.Parts, Hstr.CurrentLists, Hstr.Synced, Views.Valid, FavoriteItems.Valid, HistoryItems.Valid, Chosen;
      done := true;
      var chosen := UnderCursor();
      result := if chosen.Some? then chosen else fallback;
      if chosen.Some? {
        if view == FavoritesView {
          PromoteChosen(chosen.value);
        } else {
          NotPromoted(chosen.value);
        }
      }
    }

    method PromoteChosen(line: Text)
      requires Parts() && view == FavoritesView && line in Source()
      modifies favorites`items, favorites`file
      ensures Parts() && CurrentLists() == Chosen(view, favorites.reorderOnChoice, old(CurrentLists()), line)
      ensures forall x :: x in Source() <==> x in old(Source())
      ensures old(Synced()) ==> Synced()
    {
      hide Views.Valid, FavoriteItems.Valid, FavoriteItems.InSync, HistoryItems.Valid, HashMap.Represents, Others,
           Storable;
      favorites.Choose(Some(line));
    }

    lemma NotPromoted(line: Text)
      requires views.history.Valid() && view != FavoritesView
      ensures CurrentLists() == Chosen(view, favorites.reorderOnChoice, CurrentLists(), line)
    {
    }

    /** Any other key that is a byte is typed, if it still fits; the selection follows the pattern. */
    method HandleOther(code: int)
      requires Valid() && !done && code > K_CTRL_Z
      modifies this`selection, this`places, this`selectionSize, this`result, this`cursor, pattern
      ensures Valid() && !done && Refreshed() && cursor == IN_PROMPT
      ensures CurrentLine() == LineAfterKey(setup, pattern.Length, old(CurrentLine()), Other(code))
    {
      hide Hstr.Shown, Hstr.Source, Hstr.Current, Hstr.Refreshed, Views.Valid, FavoriteItems.Valid, HistoryItems.Valid,
           StrLen, Typed;
      cursor := IN_PROMPT;
      ghost var text := PatternText();
      var kept := StrCatCharFitting(setup.wcwidth, pattern, text, code, setup.patternColumns);
      Retyped(Typed(setup.wcwidth, text, code, pattern.Length, setup.patternColumns));
      Reselect();
    }

    /** The pattern is what the buffer holds. */
    lemma Retyped(text: Text)
      requires Holds(pattern, text)
      ensures PatternText() == text && Holds(pattern, PatternText())
    {
      HoldsStrLen(pattern, text);
    }

    /** C-u and C-l: the pattern changes, the selection stays. */
    method HandleLine(key: Key)
      requires Valid() && !done && LeavesStale(key)
      modifies this`cursor, this`lowercase, pattern
      ensures Valid() && !done && cursor == if key == ToggleLetters then IN_PROMPT else old(cursor)
      ensures CurrentLine() == LineAfterKey(setup, pattern.Length, old(CurrentLine()), key)
    {
      hide Hstr.Shown, Hstr.Source, OnRow, Views.Valid, FavoriteItems.Valid, HistoryItems.Valid, StrLen;
      ghost var text := PatternText();
      if key == EraseLine {
        pattern[0] := 0;
        assert pattern[..0] == [];
        Retyped([]);
      } else {
        MapLetters(pattern, text, if lowercase then setup.lower else setup.upper);
        Retyped(Mapped(if lowercase then setup.lower else setup.upper, text));
        lowercase := !lowercase;
        cursor := IN_PROMPT;
      }
    }

    method HandleBackspace()
      requires Valid() && !done
      modifies this`selection, this`places, this`selectionSize, this`result, this`cursor, pattern
      ensures Valid() && !done && Refreshed() && cursor == IN_PROMPT
      ensures CurrentLine() == LineAfterKey(setup, pattern.Length, old(CurrentLine()), Backspace)
    {
      hide Hstr.Shown, Hstr.Source, Hstr.Current, Hstr.Refreshed, Views.Valid, FavoriteItems.Valid, HistoryItems.Valid,
           StrLen, Chopped;
      ghost var text := PatternText();
      Chop(pattern, text);
      Retyped(Chopped(text));
      Reselect();
      cursor := IN_PROMPT;
    }

    /** Keys that change what is searched, and a new screen size. */
    method HandleView(key: Key)
      requires Valid() && !done
      requires key == NextMatching || key == ToggleCaseSensitivity || key == NextView || key.Resize?
      modifies this`view, this`matching, this`caseSensitive, this`promptItems
      modifies this`selection, this`places, this`selectionSize, this`result, this`cursor
      ensures Valid() && !done && Refreshed() && cursor == IN_PROMPT
      ensures promptItems == if key.Resize? then key.rows else old(promptItems)
      ensures view == if key == NextView then NextOf(old(view)) else old(view)
      ensures matching == if key == NextMatching then NextMatchingOf(old(matching)) else old(matching)
      ensures caseSensitive == (old(caseSensitive) != (key == ToggleCaseSensitivity))
    {
      hide Hstr.Parts, Hstr.Shown, Hstr.Source, Hstr.Current, Hstr.Refreshed, Hstr.PatternText, OnRow, NextOf,
           NextMatchingOf, HistoryItems.Valid;
      match key {
        case NextMatching =>
          matching := NextMatchingOf(matching);
        case ToggleCaseSensitivity =>
          caseSensitive := !caseSensitive;
        case NextView =>
          view := NextOf(view);
        case Resize(rows) =>
          promptItems := rows;
      }
      Reselect();
      cursor := IN_PROMPT;
    }

    lemma FirstIsShown()
      requires Valid() && !done
      ensures selectionSize <= selection.Length && MayBeResult(FirstOrResult()) && MayBeResult(Some(PatternText()))
    {
      assert selectionSize > 0 ==> selection[0] in selection[..selectionSize];
    }

    /** Keys that end the loop. */
    method HandleEnd(key: Key)
      requires Valid() && Running() && Ends(key)
      modifies this`result, this`done, this`executeResult, this`editCommand, this`fixCommand, favorites`items
      modifies favorites`file
      ensures Valid() && EndedBy(key)
      ensures result == EndResult(key, old(UnderCursor()), old(FirstOrResult()), PatternText())
      ensures executeResult == (key == Enter || key == FixCommand)
      ensures fixCommand == (key == FixCommand) && editCommand == (key == EditCommand)
      ensures key == Cancel || key == Exit ==> result == None
      ensures key != Cancel && key != Exit && cursor == IN_PROMPT ==>
                result == if key != Enter then Some(PatternText())
                          else if selectionSize > 0 then Some(selection[0]) else old(result)
      ensures CurrentLists() == ListsAfterKey(setup.noConfirm, favorites.reorderOnChoice, view, old(CurrentLists()),
                                              key, old(UnderCursor()))
      ensures old(Synced()) ==> Synced()
    {
      hide Hstr.Valid, Hstr.Parts, Hstr.Shown, Hstr.Source, Hstr.UnderCursor, Hstr.CurrentLists, Hstr.PatternText,
           Hstr.Synced, Hstr.MayBeResult, Hstr.FirstOrResult, HistoryItems.Valid, Chosen, ListsAfterKey,
           EndResult;
      EndLists(setup.noConfirm, favorites.reorderOnChoice, view, CurrentLists(), key, LineUnderCursor());
      EndInPrompt(key);
      if key == Cancel || key == Exit {
        GiveUp();
        return;
      }
      FirstIsShown();
      var fallback := if key == Enter then FirstOrResult() else Some(PatternText());
      executeResult, fixCommand, editCommand := key != EditCommand, key == FixCommand, key == EditCommand;
      ChooseResult(fallback);
    }

    /** The result of a key that ends the loop in the prompt. */
    lemma EndInPrompt(key: Key)
      requires Valid()
      ensures selectionSize <= selection.Length
      ensures EndResult(key, UnderCursor(), FirstOrResult(), PatternText()) ==
                if key == Cancel || key == Exit then None
                else if UnderCursor().Some? then UnderCursor()
                else if key == Enter then FirstOrResult() else Some(PatternText())
      ensures cursor == IN_PROMPT && (key == Enter || key == FixCommand || key == EditCommand) ==>
                EndResult(key, UnderCursor(), FirstOrResult(), PatternText()) ==
                  if key != Enter then Some(PatternText())
                  else if selectionSize > 0 then Some(selection[0]) else result
    {
    }

    method GiveUp()
      requires Valid()
      modifies this`result, this`done
      ensures Valid() && done && result == None
    {
      hide Hstr.Parts, Hstr.Shown, Hstr.Source, Views.Valid, FavoriteItems.Valid, HistoryItems.Valid;
      result, done := None, true;
    }

    /** Line and page moves. */
    method HandleMove(step: int)
      requires Valid() && !done
      modifies this`cursor
      ensures Valid() && !done
      ensures cursor == CursorMove(old(cursor), step, setup.promptBottom, promptItems, selectionSize)
    {
      hide Views.Valid, FavoriteItems.Valid, HistoryItems.Valid, HashMap.Represents;
      MoveLandsOnRow(cursor, step, setup.promptBottom, promptItems, selectionSize);
      cursor := CursorMove(cursor, step, setup.promptBottom, promptItems, selectionSize);
    }

    /** The keys that change neither the histories nor the favorites. */
    method HandleInput(key: Key)
      requires Valid() && !done && !key.Delete? && !key.MakeFavorite? && !Ends(key)
      modifies this`view, this`matching, this`caseSensitive, this`promptItems, this`lowercase
      modifies this`selection, this`places, this`selectionSize, this`result, this`cursor, pattern
      ensures Valid() && !done
      ensures CurrentLine() == LineAfterKey(setup, pattern.Length, old(CurrentLine()), key)
      ensures view == if key == NextView then NextOf(old(view)) else old(view)
      ensures promptItems == if key.Resize? then key.rows else old(promptItems)
      ensures matching == if key == NextMatching then NextMatchingOf(old(matching)) else old(matching)
      ensures caseSensitive == (old(caseSensitive) != (key == ToggleCaseSensitivity))
      ensures if Reselects(key) then Refreshed()
              else selectionSize == old(selectionSize) && selection == old(selection) && result == old(result)
      ensures old(Current()) && !LeavesStale(key) ==> Current()
      ensures cursor == CursorAfterKey(key, old(cursor), None, setup.promptBottom, promptItems, selectionSize)
    {
      hide Hstr.Valid, Hstr.Parts, Hstr.Current, CursorMove;
      match key {
        case HomeOrEnd =>
        case LineUp | LineDown | PageUp | PageDown | Search => HandleMove(StepOf(key, setup.promptBottom).value);
        case EraseLine => HandleLine(key);
        case ToggleLetters => HandleLine(key);
        case Backspace => HandleBackspace();
        case Other(code) =>
          if code > K_CTRL_Z {
            HandleOther(code);
          }
        case NextMatching => HandleView(key);
        case ToggleCaseSensitivity => HandleView(key);
        case NextView => HandleView(key);
        case Resize(_) => HandleView(key);
      }
    }

    /** The keys that change the lists or end the loop. */
    method HandleCommand(key: Key)
      requires Valid() && Running() && (key.Delete? || key.MakeFavorite? || Ends(key))
      modifies this`selection, this`places, this`selectionSize, this`result, this`cursor
      modifies this`done, this`executeResult, this`editCommand, this`fixCommand
      modifies views.system, views.history, views.history.items, views.history.rawItems
      modifies favorites`items, favorites`file, favorites.names, favorites.names.lists
      ensures Valid() && done == Ends(key) && if Ends(key) then EndedBy(key) else Running()
      ensures CurrentLine() == LineAfterKey(setup, pattern.Length, old(CurrentLine()), key)
      ensures key != NextView && !key.Resize? && key != NextMatching && key != ToggleCaseSensitivity
      ensures CurrentLists()
           == ListsAfterKey(setup.noConfirm, favorites.reorderOnChoice, old(view), old(CurrentLists()), key,
                            old(UnderCursor()))
      ensures Ends(key) ==> result == EndResult(key, old(UnderCursor()), old(FirstOrResult()), old(PatternText()))
      ensures if Remakes(setup.noConfirm, key, old(UnderCursor())) then Refreshed()
              else selectionSize == old(selectionSize) && selection == old(selection)
                   && (Ends(key) || result == old(result))
      ensures cursor
           == CursorAfterKey(key, old(cursor), old(UnderCursor()), setup.promptBottom, promptItems, selectionSize)
      ensures old(Current()) && !Ends(key) ==> Current()
      ensures old(Synced()) ==> Synced()
    {
      hide Hstr.Valid, Hstr.Parts, Hstr.Current, Hstr.Refreshed, Hstr.Synced, Hstr.UnderCursor, Hstr.Source,
           Hstr.CurrentLists, Hstr.CurrentLine, Hstr.FirstOrResult, LineAfterKey, ListsAfterKey, CursorAfterKey,
           CursorMove, EndResult, Remakes, Reselects, StepOf, LeavesStale, HistoryItems.Raw, HistoryItems.Ranked,
           HistoryItems.Valid;
      ghost var under, before := LineUnderCursor(), cursor;
      KeyEffects(setup, pattern.Length, CurrentLine(), favorites.reorderOnChoice, view, CurrentLists(), key, under);
      if key.Delete? {
        assert key == Delete(key.confirmed);
        HandleDelete(key.confirmed);
      } else if key.MakeFavorite? {
        HandleFavorite();
      } else {
        HandleEnd(key);
      }
      KeyCursor(key, before, under, setup.promptBottom, promptItems, selectionSize);
    }

    /** One round of the loop. */
    method Handle(key: Key)
      requires Valid() && Running()
      modifies this, pattern, views.system, views.history, views.history.items, views.history.rawItems
      modifies favorites`items, favorites`file, favorites.names, favorites.names.lists
      ensures Valid() && done == Ends(key) && if Ends(key) then EndedBy(key) else Running()
      ensures CurrentLine() == LineAfterKey(setup, pattern.Length, old(CurrentLine()), key)
      ensures view == if key == NextView then NextOf(old(view)) else old(view)
      ensures promptItems == if key.Resize? then key.rows else old(promptItems)
      ensures matching == if key == NextMatching then NextMatchingOf(old(matching)) else old(matching)
      ensures caseSensitive == (old(caseSensitive) != (key == ToggleCaseSensitivity))
      ensures CurrentLists()
           == ListsAfterKey(setup.noConfirm, favorites.reorderOnChoice, old(view), old(CurrentLists()), key,
                            old(UnderCursor()))
      ensures Ends(key) ==> result == EndResult(key, old(UnderCursor()), old(FirstOrResult()), old(PatternText()))
      ensures if Remakes(setup.noConfirm, key, old(UnderCursor())) then Refreshed()
              else selectionSize == old(selectionSize) && selection == old(selection)
                   && (Ends(key) || result == old(result))
      ensures cursor
           == CursorAfterKey(key, old(cursor), old(UnderCursor()), setup.promptBottom, promptItems, selectionSize)
      ensures old(Current()) && !Ends(key) && !LeavesStale(key) ==> Current()
      ensures old(Synced()) ==> Synced()
    {
      hide Hstr.Valid, Hstr.Parts, Hstr.Current, Hstr.Refreshed, Hstr.Synced, Hstr.UnderCursor, Hstr.Source,
           Hstr.CurrentLists, Hstr.CurrentLine, Hstr.FirstOrResult, LineAfterKey, ListsAfterKey, CursorAfterKey,
           CursorMove, EndResult, Remakes, Reselects, StepOf, LeavesStale, HistoryItems.Raw, HistoryItems.Ranked,
           HistoryItems.Valid;
      if key.Delete? || key.MakeFavorite? || Ends(key) {
        HandleCommand(key);
      } else {
        ghost var under, before := LineUnderCursor(), cursor;
        KeyEffects(setup, pattern.Length, CurrentLine(), favorites.reorderOnChoice, view, CurrentLists(), key, under);
        HandleInput(key);
        KeyCursor(key, before, under, setup.promptBottom, promptItems, selectionSize);
      }
    }

    /** One round of the loop, as a step. */
    method Round(key: Key)
      requires Valid() && Running()
      modifies this, pattern, views.system, views.history, views.history.items, views.history.rawItems
      modifies favorites`items, favorites`file, favorites.names, favorites.names.lists
      ensures Valid() && done == Ends(key) && if Ends(key) then EndedBy(key) else Running()
      ensures CurrentState() == Step(setup, pattern.Length, favorites.reorderOnChoice, old(CurrentState()), key)
      ensures old(Current()) && !Ends(key) && !LeavesStale(key) ==> Current()
      ensures old(Synced()) ==> Synced()
    {
      hide Hstr.Valid, Hstr.Current, Hstr.Refreshed, Hstr.Synced, Hstr.UnderCursor, Hstr.CurrentLists, Hstr.CurrentLine,
           Hstr.PatternText, Hstr.FirstOrResult, Hstr.Source, LineAfterKey, ListsAfterKey, CursorAfterKey, EndResult,
           Remakes, Ends, LeavesStale, HistoryItems.Raw, HistoryItems.Ranked, HistoryItems.Valid, Under, First, Remade,
           Hstr.CurrentState, NextOf, NextMatchingOf, Step;
      UnderState();
      ghost var st := CurrentState();
      Handle(key);
      ghost var next := CurrentState();
      if Refreshed() {
        RefreshedState();
      }
      IsStep(setup, pattern.Length, favorites.reorderOnChoice, st, key, next);
    }

    /** What the state says of the line under the cursor and of the first line. */
    lemma UnderState()
      requires Valid()
      ensures UnderCursor() == Under(setup, CurrentState())
      ensures FirstOrResult() == First(CurrentState().selection, CurrentState().result)
    {
    }

    /** A selection that was just made is the one of the state. */
    lemma RefreshedState()
      requires Valid() && Refreshed()
      ensures CurrentState() == Remade(setup, CurrentState())
    {
      hide Pick, Candidates, Deduplicates;
    }
  }

  /** loop_to_select on a sequence of keys, the keys after the one that ends it unread, is a run of the keys read from
      the round without a key on: views, settings, pattern, lists, selection, cursor and result are what the keys make
      of them. After every key, whatever the keys were: the history views agree, the favorites are distinct, every
      selected line belongs to the list of the current view, no more lines are selected than there are rows, and the
      cursor is in the prompt or on a row that stands for a selected line. Unless the pattern was erased or mapped as a
      whole the selection is always the one of the pattern. The favorites file stays in step if the commands of the
      history can be written to it. */
  method LoopToSelect(h: Hstr, keys: seq<Key>) returns (read: nat)
    requires h.Valid() && h.Running() && h.cursor == IN_PROMPT
    modifies h, h.pattern, h.views.system, h.views.history, h.views.history.items, h.views.history.rawItems
    modifies h.favorites`items, h.favorites`file, h.favorites.names, h.favorites.names.lists
    ensures h.Valid() && read <= |keys|
    ensures if h.done then read > 0 && Ends(keys[read - 1]) && h.EndedBy(keys[read - 1]) else read == |keys|
    ensures forall i :: 0 <= i < read - 1 ==> !Ends(keys[i])
    ensures h.CurrentState() == Run(h.setup, h.pattern.Length, h.favorites.reorderOnChoice,
                                    AtStart(h.setup, old(h.CurrentState())), keys[..read])
    ensures h.cursor == IN_PROMPT
         || 0 <= SelectionIndex(h.cursor, h.setup.promptBottom, h.promptItems, h.selectionSize)
              < h.selectionSize <= h.promptItems
    ensures !h.done && (forall i :: 0 <= i < read ==> !LeavesStale(keys[i])) ==> h.Current()
    ensures old(h.Synced()) ==> h.Synced()
  {
    hide Hstr.Valid, Hstr.Current, Hstr.Refreshed, Hstr.Synced, Hstr.CurrentState, HistoryItems.Valid, HistoryItems.Raw,
         HistoryItems.Ranked, SelectionIndex, Ends, LeavesStale, Hstr.Running, Hstr.EndedBy, Run, Step, AtStart;
    ghost var setup, capacity, reorder := h.setup, h.pattern.Length, h.favorites.reorderOnChoice;
    ghost var start := AtStart(setup, h.CurrentState());
    read := 0;
    NoStep(setup, capacity, reorder, start, keys);
    h.Begin();
    while read < |keys| && !h.done
      invariant h.Valid() && read <= |keys|
      invariant if h.done then read > 0 && Ends(keys[read - 1]) && h.EndedBy(keys[read - 1])
                else h.Running() && forall i :: 0 <= i < read ==> !Ends(keys[i])
      invariant forall i :: 0 <= i < read - 1 ==> !Ends(keys[i])
      invariant h.CurrentState() == Run(setup, capacity, reorder, start, keys[..read])
      invariant !h.done && (forall i :: 0 <= i < read ==> !LeavesStale(keys[i])) ==> h.Current()
      invariant old(h.Synced()) ==> h.Synced()
    {
      OneMoreStep(setup, capacity, reorder, start, keys, read);
      h.Round(keys[read]);
      read := read + 1;
    }
    h.CursorIsSafe();
  }

  /** So after any keys both histories are what they were without the lines that DEL took, and without DEL they are
      what they were. */
  method LoopKeepsHistories(h: Hstr, keys: seq<Key>) returns (read: nat, ghost gone: set<Text>)
    requires h.Valid() && h.Running() && h.cursor == IN_PROMPT
    modifies h, h.pattern, h.views.system, h.views.history, h.views.history.items, h.views.history.rawItems
    modifies h.favorites`items, h.favorites`file, h.favorites.names, h.favorites.names.lists
    ensures h.Valid() && read <= |keys|
    ensures if h.done then read > 0 && Ends(keys[read - 1]) else read == |keys|
    ensures h.CurrentLists().raw == Except(old(h.CurrentLists()).raw, gone)
    ensures h.CurrentLists().ranked == Except(old(h.CurrentLists()).ranked, gone)
    ensures forall x :: x in gone <==>
              exists i :: 0 <= i < read
                       && Takes(h.setup, Run(h.setup, h.pattern.Length, h.favorites.reorderOnChoice,
                                             AtStart(h.setup, old(h.CurrentState())), keys[..i]), keys[i], x)
    ensures (forall i :: 0 <= i < read ==> !keys[i].Delete?) ==>
              && h.CurrentLists().raw == old(h.CurrentLists()).raw
              && h.CurrentLists().ranked == old(h.CurrentLists()).ranked
    ensures (forall i :: 0 <= i < read ==> !keys[i].Delete? && !keys[i].MakeFavorite? && !Ends(keys[i])) ==>
              h.CurrentLists() == old(h.CurrentLists())
  {
    hide Hstr.Valid, Hstr.Current, Hstr.Synced, Hstr.CurrentState, Hstr.CurrentLists, HistoryItems.Valid,
         SelectionIndex, Except, Ends, Run, Found, Takes;
    ghost var start := AtStart(h.setup, h.CurrentState());
    read := LoopToSelect(h, keys);
    gone := HistoriesOnlyShrink(h.setup, h.pattern.Length, h.favorites.reorderOnChoice, start, keys, read);
    if forall i :: 0 <= i < read ==> !keys[i].Delete? {
      ListsStay(h.setup, h.pattern.Length, h.favorites.reorderOnChoice, start, keys, read);
    }
  }
}
