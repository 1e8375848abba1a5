/** The favorite commands of src/hstr_favorites.c: a list in memory, most recently chosen first, and
    the file it is saved to after every change. */
module Favorites {
  import opened Bytes
  import opened HashMap

  const NEWLINE: Byte := 10
  const HASH: Byte := 35

  // ---- the file

  /** The index of the next newline from i on, or the length: strchr. */
  function NewlineFrom(content: Text, i: nat): (k: nat)
    requires i <= |content|
    ensures i <= k <= |content| && NEWLINE !in content[i..k] && (k < |content| ==> content[k] == NEWLINE)
    decreases |content| - i
  {
    if i == |content| || content[i] == NEWLINE then i
    else
      var k := NewlineFrom(content, i + 1);
      assert content[i..k] == [content[i]] + content[i + 1..k];
      k
  }

  /** The lines that end with a newline; a rest without one is not read. */
  function LinesOf(content: Text): seq<Text>
    decreases |content|
  {
    var k := NewlineFrom(content, 0);
    if k == |content| then [] else [content[..k]] + LinesOf(content[k + 1..])
  }

  predicate IsComment(line: Text) {
    line != [] && line[0] == HASH
  }

  predicate Wanted(skipComments: bool, line: Text) {
    !skipComments || !IsComment(line)
  }

  /** What a load of the file gives; the content is read as a string. */
  function Parse(skipComments: bool, content: Text): seq<Text> {
    Dedup(Filter((line: Text) => Wanted(skipComments, line), LinesOf(content[..StrLen(content)])))
  }

  function Reload(skipComments: bool, file: Option<Text>): seq<Text> {
    match file
    case None => []
    case Some(content) => Parse(skipComments, content)
  }

  /** The file written for a list. */
  function Render(items: seq<Text>): Text {
    if items == [] then [] else Render(items[..|items| - 1]) + items[|items| - 1] + [NEWLINE]
  }

  // ---- writing and reading back

  /** A line that the file format can hold. */
  predicate Storable(skipComments: bool, line: Text) {
    NEWLINE !in line && Wanted(skipComments, line)
  }

  lemma {:induction false} NewlineFromIs(content: Text, i: nat, k: nat)
    requires i <= k < |content| && content[k] == NEWLINE && NEWLINE !in content[i..k]
    ensures NewlineFrom(content, i) == k
    decreases k - i
  {
    if i < k {
      assert content[i] in content[i..k] && content[i + 1..k] == content[i..k][1..];
      NewlineFromIs(content, i + 1, k);
    }
  }

  lemma LinesOfFirst(line: Text, rest: Text)
    requires NEWLINE !in line
    ensures LinesOf(line + [NEWLINE] + rest) == [line] + LinesOf(rest)
  {
    var content := line + [NEWLINE] + rest;
    assert content[0..|line|] == line && content[|line| + 1..] == rest && content[..|line|] == line;
    NewlineFromIs(content, 0, |line|);
  }

  lemma {:induction false} RenderConcat(a: seq<Text>, b: seq<Text>)
    ensures Render(a + b) == Render(a) + Render(b)
  {
    if b == [] {
      assert a + b == a;
    } else {
      RenderConcat(a, b[..|b| - 1]);
      assert (a + b)[..|a + b| - 1] == a + b[..|b| - 1];
    }
  }

  /** Lines without newlines are read back as they were written. */
  lemma {:induction false} LinesOfRender(items: seq<Text>)
    requires forall i :: 0 <= i < |items| ==> NEWLINE !in items[i]
    ensures LinesOf(Render(items)) == items
  {
    if items != [] {
      var one: seq<Text> := [items[0]];
      assert items == one + items[1..] && one[..0] == [];
      RenderConcat(one, items[1..]);
      assert Render(one) == [] + items[0] + [NEWLINE] == items[0] + [NEWLINE];
      LinesOfFirst(items[0], Render(items[1..]));
      LinesOfRender(items[1..]);
    }
  }

  lemma {:induction false} RenderNoNul(items: seq<Text>)
    requires forall i :: 0 <= i < |items| ==> 0 !in items[i]
    ensures 0 !in Render(items) && Render(items)[..StrLen(Render(items))] == Render(items)
  {
    if items != [] {
      RenderNoNul(items[..|items| - 1]);
    }
  }

  lemma {:induction false} LinesHaveNoNewline(content: Text)
    ensures forall line :: line in LinesOf(content) ==> NEWLINE !in line
    decreases |content|
  {
    var k := NewlineFrom(content, 0);
    if k < |content| {
      assert content[..k] == content[0..k];
      LinesHaveNoNewline(content[k + 1..]);
    }
  }

  /** A loaded list is distinct and could be written again. */
  lemma ParsedIsStorable(skipComments: bool, content: Text)
    ensures Distinct(Parse(skipComments, content))
    ensures forall line :: line in Parse(skipComments, content) ==> Storable(skipComments, line)
  {
    var wanted := (line: Text) => Wanted(skipComments, line);
    var lines := LinesOf(content[..StrLen(content)]);
    LinesHaveNoNewline(content[..StrLen(content)]);
    FilterHas(wanted, lines);
    DedupDistinct(Filter(wanted, lines));
  }

  /** A list is read back from its file exactly if it has no duplicates and each of its lines is
      storable: no newline in it and, if comments are skipped, no '#' at its start. */
  lemma ReadBackExactly(skipComments: bool, items: seq<Text>)
    requires forall i :: 0 <= i < |items| ==> 0 !in items[i]
    ensures Parse(skipComments, Render(items)) == items
       <==> Distinct(items) && forall i :: 0 <= i < |items| ==> Storable(skipComments, items[i])
  {
    ParsedIsStorable(skipComments, Render(items));
    if Distinct(items) && forall i :: 0 <= i < |items| ==> Storable(skipComments, items[i]) {
      RenderNoNul(items);
      LinesOfRender(items);
      FilterAll((line: Text) => Wanted(skipComments, line), items);
      DedupOfDistinct(items);
    } else if Parse(skipComments, Render(items)) == items {
      forall i | 0 <= i < |items| ensures Storable(skipComments, items[i]) {
        assert items[i] in items;
      }
    }
  }

  /** line is content[i..j], what is between two newlines, or before the first. */
  predicate LineAt(content: Text, i: nat, j: nat, line: Text) {
    && i <= j < |content| && content[i..j] == line && NEWLINE !in line && content[j] == NEWLINE
    && (i == 0 || content[i - 1] == NEWLINE)
  }

  lemma LinesAre(content: Text, line: Text)
    ensures line in LinesOf(content) <==> exists i: nat, j: nat :: LineAt(content, i, j, line)
  {
    if line in LinesOf(content) {
      var i, j := LineFound(content, line);
    }
    forall i: nat, j: nat | LineAt(content, i, j, line) ensures line in LinesOf(content) {
      LineIsRead(content, i, j, line);
    }
  }

  lemma {:induction false} LineFound(content: Text, line: Text) returns (i: nat, j: nat)
    requires line in LinesOf(content)
    ensures LineAt(content, i, j, line)
    decreases |content|
  {
    hide LineAt;
    var k := NewlineFrom(content, 0);
    if line == content[..k] {
      i, j := 0, k;
      FirstLine(content, k);
    } else {
      i, j := LineFound(content[k + 1..], line);
      LineOfRest(content, k, i, j, line);
      i, j := k + 1 + i, k + 1 + j;
    }
  }

  lemma {:induction false} LineIsRead(content: Text, i: nat, j: nat, line: Text)
    requires LineAt(content, i, j, line)
    ensures line in LinesOf(content)
    decreases |content|
  {
    var k := NewlineFrom(content, 0);
    assert content[0..k] == content[..k];
    assert content[..|content|] == content && content[j] in content;
    LineIsFirstOrLater(content, k, i, j, line);
    if i > 0 {
      LineOfRest(content, k, i - k - 1, j - k - 1, line);
      LineIsRead(content[k + 1..], i - k - 1, j - k - 1, line);
    }
  }

  lemma FirstLine(content: Text, k: nat)
    requires k == NewlineFrom(content, 0) < |content|
    ensures LineAt(content, 0, k, content[..k])
  {
    assert content[0..k] == content[..k];
  }

  lemma LineOfRest(content: Text, k: nat, i: nat, j: nat, line: Text)
    requires k < |content| && content[k] == NEWLINE
    ensures LineAt(content[k + 1..], i, j, line) <==> LineAt(content, k + 1 + i, k + 1 + j, line)
  {
    if i <= j < |content| - k - 1 {
      assert content[k + 1..][i..j] == content[k + 1 + i..k + 1 + j];
    }
  }

  /** The first line ends at the first newline, and the others start after it. */
  lemma LineIsFirstOrLater(content: Text, k: nat, i: nat, j: nat, line: Text)
    requires k < |content| && content[k] == NEWLINE && NEWLINE !in content[..k]
    ensures LineAt(content, i, j, line) ==> if i == 0 then j == k && line == content[..k] else k < i
  {
    assert i <= k < j < |content| ==> content[i..j][k - i] == NEWLINE;
    assert j < k ==> content[..k][j] == content[j];
    assert 0 < i <= k ==> content[..k][i - 1] == content[i - 1];
  }

  /** The favorites that a file gives: its lines, but none that starts with '#' if comments are skipped. */
  lemma ReloadIsLines(skipComments: bool, content: Text, line: Text)
    requires 0 !in content
    ensures line in Reload(skipComments, Some(content)) <==>
              && (exists i: nat, j: nat :: LineAt(content, i, j, line))
              && !(skipComments && ['#' as int] <= line)
  {
    NoNul(content);
    var wanted, lines := (x: Text) => Wanted(skipComments, x), LinesOf(content);
    LinesAre(content, line);
    FilterHas(wanted, lines);
    DedupDistinct(Filter(wanted, lines));
  }

  lemma {:induction false} NoNul(content: Text)
    requires 0 !in content
    ensures StrLen(content) == |content| && content[..StrLen(content)] == content
  {
    if content != [] {
      NoNul(content[1..]);
    }
  }

  // ---- the list in memory

  /** The position of a favorite, or -1. */
  function IndexOf(items: seq<Text>, favorite: Text): (index: int)
    ensures index == -1 ==> favorite !in items
    ensures index != -1 ==> 0 <= index < |items| && items[index] == favorite && favorite !in items[..index]
  {
    if items == [] then -1
    else if items[0] == favorite then 0
    else
      var index := IndexOf(items[1..], favorite);
      if index == -1 then -1
      else
        assert items[..index + 1] == [items[0]] + items[1..][..index];
        index + 1
  }

  /** The item at index moves to the head, the others keep their order. */
  function MovedToHead(items: seq<Text>, index: nat): seq<Text>
    requires index < |items|
  {
    [items[index]] + items[..index] + items[index + 1..]
  }

  /** Without an item that occurs once: what is before it and what is after it. */
  lemma OthersAround(items: seq<Text>, index: nat)
    requires index < |items| && Distinct(items)
    ensures Others(items, items[index]) == items[..index] + items[index + 1..]
  {
    var keep := (line: Text) => line != items[index];
    var rest := items[index + 1..];
    assert items == items[..index] + ([items[index]] + rest);
    FilterConcat(keep, items[..index], [items[index]] + rest);
    assert ([items[index]] + rest)[1..] == rest;
    FilterAll(keep, items[..index]);
    FilterAll(keep, rest);
  }

  /** Choosing moves to the front and is stable: nothing is lost or added, and the other favorites keep
      their order. */
  lemma ChosenIsStable(items: seq<Text>, index: nat)
    requires index < |items| && Distinct(items)
    ensures MovedToHead(items, index) == [items[index]] + Others(items, items[index])
    ensures multiset(MovedToHead(items, index)) == multiset(items)
    ensures forall x :: x in MovedToHead(items, index) <==> x in items
    ensures Distinct(MovedToHead(items, index))
    ensures Others(MovedToHead(items, index), items[index]) == Others(items, items[index])
  {
    OthersAround(items, index);
    var item, others := items[index], Others(items, items[index]);
    var moved := MovedToHead(items, index);
    assert moved == [item] + others;
    assert items == items[..index] + [item] + items[index + 1..];
    OthersDistinct(items, item);
    OthersHas(items, item);
    HeadDistinct(item, others);
    OthersAround(moved, 0);
    assert moved[..0] + moved[1..] == others;
  }

  lemma HeadDistinct(item: Text, others: seq<Text>)
    requires Distinct(others) && item !in others
    ensures Distinct([item] + others)
  {
    DistinctConcat([item], others);
  }

  /** Strings without duplicates whose names are known. */
  ghost predicate Listed(items: seq<Text>, names: set<Text>) {
    Distinct(items) && forall x :: x in items ==> 0 !in x && x in names
  }

  lemma ListedAdd(items: seq<Text>, names: set<Text>, favorite: Text)
    requires Listed(items, names) && favorite !in items && 0 !in favorite
    ensures Listed(items + [favorite], names + {favorite}) && Listed([favorite] + items, names + {favorite})
  {
    DistinctConcat(items, [favorite]);
    DistinctConcat([favorite], items);
  }

  class FavoriteItems {
    var items: seq<Text>
    var loaded: bool
    const reorderOnChoice: bool
    const skipComments: bool
    const names: HashSet<Text>
    // the favorites file, None if there is none
    var file: Option<Text>

    /** The items are strings without duplicates, and the set of names holds them all. */
    ghost predicate Valid()
      reads this, names, names.lists
    {
      names.Valid() && Listed(items, names.contents.Keys)
    }

    /** Reading the file afresh would give the items. */
    ghost predicate InSync()
      reads this
    {
      Reload(skipComments, file) == items
    }

    /** favorites_init, for a given file. */
    constructor (reorderOnChoice: bool, skipComments: bool, file: Option<Text>)
      ensures Valid() && fresh(names) && fresh(names.lists)
      ensures items == [] && !loaded && names.contents == map[]
      ensures this.reorderOnChoice == reorderOnChoice && this.skipComments == skipComments && this.file == file
    {
      items, loaded := [], false;
      this.reorderOnChoice, this.skipComments, this.file := reorderOnChoice, skipComments, file;
      names := new HashSet<Text>();
    }

    /** favorites_get on a fresh object. */
    method Get()
      requires Valid() && items == [] && !loaded && names.contents == map[]
      modifies this, names, names.lists
      ensures Valid() && InSync() && file == old(file)
    {
      if file == None {
        loaded := true;
        return;
      }
      var content := file.value[..StrLen(file.value)];
      ParseContent(content);
    }

    /** The parsing loop of favorites_get. */
    method ParseContent(content: Text)
      requires HasRead([]) && 0 !in content
      modifies this`items, names, names.lists
      ensures HasRead(LinesOf(content))
    {
      hide FavoriteItems.HasRead, LinesOf;
      ghost var read: seq<Text> := [];
      var pb: nat := 0;
      var pe := NewlineFrom(content, 0);
      assert content[0..] == content;
      while pe < |content|
        invariant pb <= pe <= |content| && pe == NewlineFrom(content, pb)
        invariant LinesOf(content) == read + LinesOf(content[pb..])
        invariant HasRead(read)
        decreases |content| - pb
      {
        LinesOfNext(content, pb, pe);
        ReadLine(read, content[pb..pe]);
        read := read + [content[pb..pe]];
        pb := pe + 1;
        pe := NewlineFrom(content, pb);
      }
      NoMoreLines(content, pb);
      assert read + [] == read;
    }

    /** The items so far are the wanted lines so far without duplicates, and their names are the set. */
    ghost predicate HasRead(read: seq<Text>)
      reads this, names, names.lists
    {
      && Valid() && names.contents.Keys == ToSet(items)
      && items == Dedup(Filter((line: Text) => Wanted(skipComments, line), read))
    }

    /** The loop body of favorites_get. */
    method ReadLine(ghost read: seq<Text>, line: Text)
      requires HasRead(read) && 0 !in line
      modifies this`items, names, names.lists
      ensures HasRead(read + [line])
    {
      ghost var wanted := (line: Text) => Wanted(skipComments, line);
      FilterSnoc(wanted, read, line);
      DedupSnoc(Filter(wanted, read), line);
      DedupDistinct(Filter(wanted, read));
      hide HashSet.Valid, Dedup, Filter;
      var known := names.Get(line);
      if known == None {
        if !skipComments || !IsComment(line) {
          items := items + [line];
          var added := names.PutNew(line, []);
        }
      }
    }

    /** favorites_save. */
    method Save()
      modifies this`file
      ensures file == if items != [] then Some(Render(items)) else if old(file) == None then None else Some([])
    {
      if items != [] {
        var content: Text := [];
        for i := 0 to |items|
          invariant content == Render(items[..i])
        {
          assert items[..i + 1][..i] == items[..i];
          content := content + items[i] + [NEWLINE];
        }
        assert items[..|items|] == items;
        file := Some(content);
      } else if file != None {
        file := Some([]);
      }
    }

    /** favorites_index_of. */
    method FindIndex(favorite: Text) returns (index: int)
      ensures index == IndexOf(items, favorite)
    {
      for i := 0 to |items|
        invariant favorite !in items[..i]
      {
        if items[i] == favorite {
          FirstIndex(items, i);
          return i;
        }
      }
      assert items[..|items|] == items;
      return -1;
    }

    /** favorites_move_to_head: the items before it are shifted by one. */
    method MoveToHead(index: nat)
      requires index < |items|
      modifies this`items
      ensures items == MovedToHead(old(items), index)
    {
      var item := items[index];
      items := items[..1] + items[..index] + items[index + 1..];
      items := items[0 := item];
    }

    /** favorites_choose: with reordering on, a favorite becomes the first and the order of the others
        stays; anything else changes nothing. */
    method Choose(choice: Option<Text>)
      requires Valid()
      modifies this`items, this`file
      ensures Valid()
      ensures items == if reorderOnChoice && choice.Some? && choice.value in old(items)
                       then [choice.value] + Others(old(items), choice.value) else old(items)
      ensures forall x :: x in items <==> x in old(items)
      ensures old(InSync()) ==> InSync()
    {
      hide HashSet.Valid, Filter, FavoriteItems.InSync;
      if !reorderOnChoice || choice == None {
        return;
      }
      var index := FindIndex(choice.value);
      if index > 0 {
        Promote(index);
      } else if index == 0 {
        OthersAround(items, 0);
        assert items == [items[0]] + (items[..0] + items[1..]);
      }
    }

    /** A favorite that is not the first becomes the first, and the file follows. */
    method Promote(index: nat)
      requires Valid() && index < |items|
      modifies this`items, this`file
      ensures Valid() && items == [old(items)[index]] + Others(old(items), old(items)[index])
      ensures forall x :: x in items <==> x in old(items)
      ensures old(InSync()) ==> InSync()
    {
      ghost var synced := InSync();
      SyncIsStorable();
      ChosenIsStable(items, index);
      assert Listed(MovedToHead(items, index), names.contents.Keys);
      MoveToHead(index);
      Save();
      SavedIsInSync(synced);
    }

    /** favorites_add: a new favorite comes first, or last if reordering is off; one that is there already
        is chosen. */
    method Add(newFavorite: Option<Text>)
      requires Valid() && (newFavorite.Some? ==> 0 !in newFavorite.value)
      modifies this`items, this`file, names, names.lists
      ensures Valid()
      ensures items == if newFavorite == None || (newFavorite.value in old(items) && !reorderOnChoice) then old(items)
                       else if !reorderOnChoice then old(items) + [newFavorite.value]
                       else [newFavorite.value] + Others(old(items), newFavorite.value)
      ensures newFavorite.Some? ==> newFavorite.value in items
      ensures old(InSync()) && (newFavorite.Some? ==> Storable(skipComments, newFavorite.value)) ==> InSync()
    {
      hide HashSet.Valid, Filter, FavoriteItems.InSync;
      if newFavorite == None {
        return;
      }
      var favorite := newFavorite.value;
      var index := FindIndex(favorite);
      if index >= 0 {
        Choose(newFavorite);
        return;
      }
      OthersFewer(items, favorite);
      AddNew(favorite);
    }

    /** A favorite that is not there yet. */
    method AddNew(favorite: Text)
      requires Valid() && favorite !in items && 0 !in favorite
      modifies this`items, this`file, names, names.lists
      ensures Valid() && items == if reorderOnChoice then [favorite] + old(items) else old(items) + [favorite]
      ensures old(InSync()) && Storable(skipComments, favorite) ==> InSync()
    {
      hide HashSet.Valid, Represents;
      ghost var keys := names.contents.Keys;
      Insert(favorite, keys);
      var added := names.PutNew(favorite, []);
      assert names.contents.Keys == keys + {favorite};
    }

    method Insert(favorite: Text, ghost keys: set<Text>)
      requires Listed(items, keys) && favorite !in items && 0 !in favorite
      modifies this`items, this`file
      ensures Listed(items, keys + {favorite})
      ensures items == if reorderOnChoice then [favorite] + old(items) else old(items) + [favorite]
      ensures old(InSync()) && Storable(skipComments, favorite) ==> InSync()
    {
      ghost var synced := InSync() && Storable(skipComments, favorite);
      SyncIsStorable();
      ListedAdd(items, keys, favorite);
      items := items + [favorite];
      if reorderOnChoice {
        MoveToHead(|items| - 1);
        assert items == [favorite] + old(items);
      }
      Save();
      SavedIsInSync(synced);
    }

    /** favorites_remove: the favorite goes, the others keep their order. */
    method Remove(almostDead: Option<Text>) returns (removed: bool)
      requires Valid()
      modifies this`items, this`file
      ensures Valid()
      ensures removed == (almostDead.Some? && almostDead.value in old(items))
      ensures items == if removed then Others(old(items), almostDead.value) else old(items)
      ensures old(InSync()) ==> InSync()
    {
      hide HashSet.Valid, Filter, FavoriteItems.InSync;
      if almostDead == None {
        return false;
      }
      var index := FindIndex(almostDead.value);
      if index < 0 {
        return false;
      }
      SyncIsStorable();
      OthersAround(items, index);
      OthersDistinct(items, almostDead.value);
      OthersHas(items, almostDead.value);
      items := items[..index] + items[index + 1..];
      Save();
      assert Listed(items, names.contents.Keys);
      SavedIsInSync(old(InSync()));
      return true;
    }

    /** A list in step with its file could be written again. */
    lemma SyncIsStorable()
      ensures InSync() ==> forall x :: x in items ==> Storable(skipComments, x)
      ensures InSync() && items != [] ==> file != None
    {
      if file.Some? {
        ParsedIsStorable(skipComments, file.value);
      }
    }

    /** Saving brings the file in step with a storable list. */
    lemma SavedIsInSync(storable: bool)
      requires storable ==> forall x :: x in items ==> Storable(skipComments, x)
      requires exists names :: Listed(items, names)
      requires file == Some(Render(items)) || (items == [] && file in {None, Some([])})
      ensures storable ==> InSync()
    {
      assert forall i :: 0 <= i < |items| ==> items[i] in items;
      ReadBackExactly(skipComments, items);
      assert items == [] ==> Render(items) == [];
    }
  }

  lemma FirstIndex(items: seq<Text>, i: nat)
    requires i < |items| && items[i] !in items[..i]
    ensures IndexOf(items, items[i]) == i
  {
  }

  // ---- runs

  datatype Operation = Add(favorite: Text) | Choose(choice: Text) | Remove(almostDead: Text)

  /** What an operation makes of the favorites. */
  function AfterOperation(reorder: bool, items: seq<Text>, operation: Operation): seq<Text> {
    match operation
    case Add(favorite) =>
      if reorder then [favorite] + Others(items, favorite) else if favorite in items then items else items + [favorite]
    case Choose(choice) => if reorder && choice in items then [choice] + Others(items, choice) else items
    case Remove(almostDead) => Others(items, almostDead)
  }

  function AfterOperations(reorder: bool, items: seq<Text>, operations: seq<Operation>): seq<Text>
    decreases |operations|
  {
    if operations == [] then items
    else
      var n := |operations| - 1;
      AfterOperation(reorder, AfterOperations(reorder, items, operations[..n]), operations[n])
  }

  method Apply(favorites: FavoriteItems, operation: Operation)
    requires favorites.Valid() && favorites.InSync()
    requires operation.Add? ==> 0 !in operation.favorite && Storable(favorites.skipComments, operation.favorite)
    modifies favorites`items, favorites`file, favorites.names, favorites.names.lists
    ensures favorites.Valid() && favorites.InSync()
    ensures favorites.items == AfterOperation(favorites.reorderOnChoice, old(favorites.items), operation)
  {
    hide FavoriteItems.Valid, FavoriteItems.InSync, Others, Storable;
    match operation {
      case Add(favorite) => favorites.Add(Some(favorite));
      case Choose(choice) => favorites.Choose(Some(choice));
      case Remove(almostDead) =>
        OthersFewer(favorites.items, almostDead);
        var removed := favorites.Remove(Some(almostDead));
    }
  }

  lemma OneMoreOperation(reorder: bool, items: seq<Text>, operations: seq<Operation>, i: nat)
    requires i < |operations|
    ensures AfterOperations(reorder, items, operations[..i + 1])
         == AfterOperation(reorder, AfterOperations(reorder, items, operations[..i]), operations[i])
  {
    assert operations[..i + 1][..i] == operations[..i];
  }

  /** Whatever is added, chosen and removed after a fresh load, as long as what is added can be stored: the
      favorites are what the operations make of the file, they stay distinct, and reading the file afresh would give
      them back in the same order. */
  method Run(operations: seq<Operation>, reorderOnChoice: bool, skipComments: bool, file: Option<Text>)
    returns (favorites: FavoriteItems)
    requires forall i :: 0 <= i < |operations| && operations[i].Add? ==>
               0 !in operations[i].favorite && Storable(skipComments, operations[i].favorite)
    ensures favorites.Valid() && favorites.InSync() && favorites.skipComments == skipComments
    ensures favorites.items == AfterOperations(reorderOnChoice, Reload(skipComments, file), operations)
  {
    hide HashSet.Valid, Represents, Storable, Reload, AfterOperation;
    favorites := new FavoriteItems(reorderOnChoice, skipComments, file);
    favorites.Get();
    ghost var loaded := Reload(skipComments, file);
    assert operations[..0] == [];
    for i := 0 to |operations|
      invariant fresh(favorites) && fresh(favorites.names) && fresh(favorites.names.lists)
      invariant favorites.Valid() && favorites.InSync()
      invariant favorites.skipComments == skipComments && favorites.reorderOnChoice == reorderOnChoice
      invariant favorites.items == AfterOperations(reorderOnChoice, loaded, operations[..i])
    {
      OneMoreOperation(reorderOnChoice, loaded, operations, i);
      Apply(favorites, operations[i]);
    }
    assert operations[..|operations|] == operations;
  }

  lemma LinesOfNext(content: Text, pb: nat, pe: nat)
    requires pb <= pe < |content| && pe == NewlineFrom(content, pb)
    ensures LinesOf(content[pb..]) == [content[pb..pe]] + LinesOf(content[pe + 1..])
  {
    assert content[pb..] == content[pb..pe] + [NEWLINE] + content[pe + 1..];
    LinesOfFirst(content[pb..pe], content[pe + 1..]);
  }

  lemma NoMoreLines(content: Text, pb: nat)
    requires pb <= |content| && NewlineFrom(content, pb) == |content|
    ensures LinesOf(content[pb..]) == []
  {
    var rest := content[pb..];
    assert content[pb..|content|] == rest;
    assert NEWLINE !in rest;
    assert NewlineFrom(rest, 0) == |rest|;
  }

  // ---- what operations do

  function FavoriteOf(operation: Operation): Text {
    match operation case Add(favorite) => favorite case Choose(choice) => choice case Remove(almostDead) => almostDead
  }

  /** An operation moves nothing but its own favorite, which is there after an addition, as before after a choice, and
      not there after a removal; with reordering it is the first, without it stays where it is, or is the last if it is
      new. */
  lemma OperationEffects(reorder: bool, items: seq<Text>, operation: Operation)
    ensures var f, after := FavoriteOf(operation), AfterOperation(reorder, items, operation);
            && Others(after, f) == Others(items, f)
            && (operation.Remove? ==> f !in after) && (operation.Add? ==> f in after)
            && (operation.Choose? ==> (f in after <==> f in items))
            && (reorder && f in after ==> after[0] == f)
            && (!reorder && f in items && f in after ==> after == items)
            && (f !in items && f in after ==> after == if reorder then [f] + items else items + [f])
  {
    var f := FavoriteOf(operation);
    OthersHas(items, f);
    OthersFewer(items, f);
    OthersHead(f, Others(items, f), f);
    OthersFewer(Others(items, f), f);
    OthersSnoc(items, f, f);
  }

  /** Operation i is the last one that adds or removes favorite f. */
  ghost predicate LastOn(operations: seq<Operation>, f: Text, i: nat) {
    && i < |operations| && !operations[i].Choose? && FavoriteOf(operations[i]) == f
    && forall k :: i < k < |operations| ==> operations[k].Choose? || FavoriteOf(operations[k]) != f
  }

  /** After any operations a command is a favorite exactly if it was added and not removed since, or was one before
      and neither was added nor removed. */
  lemma {:induction false} FavoriteIfAddedLast(reorder: bool, items: seq<Text>, operations: seq<Operation>, f: Text)
    ensures f in AfterOperations(reorder, items, operations) <==>
              || (exists i: nat :: LastOn(operations, f, i) && operations[i].Add?)
              || (f in items && forall i: nat :: !LastOn(operations, f, i))
    decreases |operations|
  {
    hide AfterOperation;
    if operations != [] {
      var n := |operations| - 1;
      var front, last := operations[..n], operations[n];
      var before := AfterOperations(reorder, items, front);
      FavoriteIfAddedLast(reorder, items, front, f);
      OperationEffects(reorder, before, last);
      if last.Choose? || FavoriteOf(last) != f {
        forall i: nat ensures LastOn(operations, f, i) <==> LastOn(front, f, i) {
          assert i < n ==> front[i] == operations[i];
          assert LastOn(front, f, i) ==> forall k :: i < k < n ==> front[k] == operations[k];
        }
        OthersHas(before, FavoriteOf(last));
        OthersHas(AfterOperation(reorder, before, last), FavoriteOf(last));
      } else {
        assert LastOn(operations, f, n);
        assert forall i: nat :: i < n ==> !LastOn(operations, f, i);
      }
    }
  }
}
