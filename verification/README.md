# HSTR: ranking, history views, text, favorites and selection

HSTR shows the command history of a shell, most relevant commands first, and lets the user narrow it down by
typing. This project models the parts of it that decide what is shown, and proves that they fit together.

* **Ranking engine** (`HashMap`, `Buckets`, `RadixSort`, `Ranking`, `HistoryRanking`). The chained hash table, the
  two-level bucket sorter with its linked chains and its min/max/size descriptors, and the loop that cuts a repeated
  command out, ranks it again and files it again. The simple definition is "the commands that were met, by the rank
  folded over their occurrences, the one filed last first"; the loop, the stale bounds and the early exits of a dump
  are proved to give exactly that sequence.
* **History views and deletion** (`ZshLine`, `History`, `Loading`, `Deletion`, `HistoryModel`). The raw view is the
  reversed, decoded image of the history without its timestamps. Deleting a command edits three lists with three
  algorithms, and they stay in agreement.
* **Text** (`Utf8`, `Elide`, `Typing`). UTF-8 as in sections 3 and 4 of RFC 3629, display width, eliding to a budget
  of columns and bytes, typing byte by byte, backspace.
* **Favorites** (`Favorites`). A move-to-front list and its file: reading the file always gives the list back.
* **Selection and keys** (`Selection`, `Cursor`, `KeyLoop`, `KeyLaws`). The two-pass filter, the cursor, and the key loop as a
  state machine over arbitrary keys: the loop over the heap is a run of a pure step function, and `KeyLaws` says what
  a user can rely on in such a run.

`Bytes` holds strings of bytes and facts about sequences that the others share. A string is a sequence of bytes, a
null pointer is `None`, and a C buffer is an array that `Holds` a string and its terminator.

`dafny verify dfyconfig.toml` checks the whole project.

## How the parts are proved

The classes have the fields of the structs they model and ghost fields for what these mean: a sorter has its
`chains`, item by item, and the `owner` of every heap object, a hash table has its `contents`. `Valid` ties both
together, every method states the whole new abstract value, and the properties of that value are lemmas about
sequences. The functions that describe the new values have laws in other terms: indices of bytes and lines, sums over
occurrences, code points. Long functions of the source are cut at their inner blocks into several methods; the order of the steps
is kept. `hide` keeps definitions out of proofs that do not need them.

Five properties that one might expect do not hold of the code, and are stated as they are:

* A line may be added to the sorter with exactly the key limit as its key. `radixsort_add` accepts it although there
  is no slot for it (src/radixsort.c:78, src/radixsort.c:28-30); `Ranking.SlotsUnlessAtLimit` says that ranking a
  history stays within the slots if and only if that guard never meets the limit. It can meet it: the logarithm of 1
  is 0, so a command as long as the limit that first occurs on the second line is ranked at the limit
  (`Ranking.RankCanMeetLimit`). A history whose bytes, and what the ranking function adds for each line, stay below
  the limit is safe (`Loading.ShortHistoryIsLoadable`, `Loading.CreateFromShortHistory`).
* In zsh a command can look like a timestamp. Deleting it does not remove just its matches and their timestamps, and
  the count is too low (`Deletion.SweepOfTimestampDiffers`). `Deletion.SweepIsPrunedExactly` says that this is the only
  way to fail: in Bash no command of the raw view looks like a timestamp. `Deletion.SweepCountsAll` and
  `Deletion.CountsAgree` say for every history when the counts are right. The raw view stays true even then
  (`Deletion.SweptImage`).
* A favorite that holds a newline, or starts with `#` while comments are skipped, is not read back from the file
  (`Favorites.ReadBackExactly`).
* A character that is typed when the buffer has room for only some of its bytes is kept in part
  (`Typing.TypedCharWellFormed`). `Typing.TypedText` says for whole texts that this is the only way to break the
  pattern, and `KeyLoop.KeysTypeText` says so of the keys.
* After every key the lines shown are those of the pattern (`KeyLaws.SelectionFollows`), but not after C-u: the manual
  says that it searches again (man/hstr.1:85-86), the code does not (src/hstr.c:1519-1525). `KeyLaws.EraseIsStale` has
  an input, and `KeyLaws.EraseShowsOld` says that, where the whole list has room, the lines shown are right if and only
  if the whole list was shown before. C-l does not search again either, and `KeyLaws.LettersShowSame` says when that
  does no harm. The manual also has C-e switch between two ways to match; the code has three take turns.

`assert(radixItem)` in the loop (src/hstr_history.c:244) holds exactly for commands whose rank has not passed the
limit (`HistoryRanking.TakeOut`). The model goes on as the code does with assertions compiled out. In Floor mode a
floored command keeps its real rank in its record, so it is not found again and its place is frozen.

## Model

| member | source | states |
|---|---|---|
| HashMap.Hash | src/hashset.c:21-32 | The loop over the string gives the bucket of the key: 5381 times 33 plus each signed char, modulo 2^32, its halves folded, modulo 10007. |
| HashMap.AllKeysComplete | src/hashset.c:105-125 | Walking all lists meets every key of the map exactly once and nothing else. |
| HashMap.RepresentsPut | src/hashset.c:61-82 | Putting a new node at the head of its list keeps every key in the list of its hash, once, and the lists represent the map with that key added. |
| HashMap.HashSet.constructor | src/hashset.c:34-41 | A new table is valid and represents the empty map. |
| HashMap.HashSet.Get | src/hashset.c:43-53 | The walk along one list finds a key exactly if the map has it, with the value of the map. |
| HashMap.HashSet.PutNew | src/hashset.c:61-82 | The first value put for a key stays; the size is the number of distinct keys; the result says whether the key is new. |
| HashMap.HashSet.KeyArray | src/hashset.c:105-125 | The array has exactly currentSize slots, all filled, with each key once; it is null exactly for an empty table. |
| Buckets.DownAllUpdateSize | src/radixsort.c:76-168 | Replacing one chain changes the number of items of the whole structure by the difference of the chains. |
| Buckets.DownAllSkipsEmpty | src/radixsort.c:170-202 | Leaving out slots that hold nothing does not change a dump. |
| Buckets.DownAllPiece | src/radixsort.c:170-202 | Every chain is one contiguous piece of a dump, in its own order. |
| Buckets.DownAllOrdered | src/radixsort.c:170-202 | A relation that holds along every chain and from every chain to every lower one holds along the whole dump. |
| RadixSort.SegmentJoin | src/radixsort.c:136-168 | Two stretches of linked items that meet form one stretch. |
| RadixSort.DescribesPush | src/radixsort.c:105-112 | One more item keeps a descriptor right: exact size, min and max around all non-empty chains. |
| RadixSort.DescribesCut | src/radixsort.c:115-134 | Taking an item out leaves the old min and max valid though not tight, and the size one too high. |
| RadixSort.OnlyChain | src/radixsort.c:124-132 | A slot with one item left has exactly one non-empty chain, so tightening to the max or the min loses nothing. |
| RadixSort.RadixSlot.constructor | src/radixsort.c:61-74 | A new slot has empty chains, min at the key limit, max 0, size 0, and that describes it. |
| RadixSort.RadixSlot.Push | src/radixsort.c:76-113 | The item becomes the head of the chain of its key, no other chain changes, and min, max and size follow. |
| RadixSort.RadixSlot.DecSize | src/radixsort.c:115-134 | One item less: the descriptor describes the slot again; it is reset at size 0, at size 1 both bounds become the max if its chain is not empty, else the min if its is not, and otherwise they stay. |
| RadixSort.RadixSlot.Search | src/radixsort.c:145-153 | The walk stops at the first item with the data, with the item before it, or finds none. |
| RadixSort.RadixSlot.Bypass | src/radixsort.c:154-160 | Redirecting the pointer takes just that item out of its chain; the other chains keep their heads. |
| RadixSort.RadixSlot.Unlink | src/radixsort.c:136-168 | The first item with the data goes from its chain and is returned unlinked, or nothing changes; the slot stays valid. |
| RadixSort.RadixSorter.constructor | src/radixsort.c:24-38 | A new sorter is valid and every chain is empty. |
| RadixSort.RadixSorter.GetSlot | src/radixsort.c:61-74 | Allocating a slot keeps the sorter valid and changes no chain. |
| RadixSort.RadixSorter.Add | src/radixsort.c:76-113 | A key above the limit is dropped (Skip) or floored to the limit less one (Floor); any other item becomes the head of the chain of its key and nothing else changes. |
| RadixSort.RadixSorter.Cut | src/radixsort.c:136-168 | Null, with nothing changed, or the first item of the key's chain with the data, which is gone from that chain only; the walk never starts on an empty chain. |
| RadixSort.RadixSorter.Dump | src/radixsort.c:170-202 | The array has exactly size items and holds the chains from the highest key to the lowest; stale bounds and the early exit lose nothing. Null exactly if empty. |
| RadixSort.RadixSorter.DumpChains | src/radixsort.c:181-198 | Reading a slot from its max down until its min or its size is reached gives all of its chains. |
| RadixSort.RadixSorter.DumpOrder | src/radixsort.c:170-202 | Along a dump keys never increase and no item comes twice. |
| RadixSort.RadixSorter.DumpHolds | src/radixsort.c:170-202 | The items of a key in a dump are exactly the chain of that key, as one piece, newest first. |
| Ranking.StandingOccurs | src/hstr_history.c:229-251 | A command has a standing exactly if it occurred, and was last filed at one of its occurrences. |
| Ranking.StandingStays | src/hstr_history.c:241-250 | A standing is never lost; once the rank passed the limit it never changes again. |
| Ranking.SlotUnlessAtLimit | src/radixsort.c:78-99 | The key that an item is filed under has a slot, or the item is dropped, if and only if its key is not the limit. |
| Ranking.SlotsUnlessAtLimit | src/radixsort.c:78-99 | Every line of a history that is added to the sorter finds a slot if and only if none is added with the limit as its key. |
| Ranking.RankCanMeetLimit | src/hstr_history.c:39-46 | A command as long as the limit that first occurs on the second line, where the logarithm is 0, is added with the limit as its key. |
| Ranking.LittleUseStaysBelow | src/hstr_history.c:229-250 | If no command is used so much that its occurrences can add up to the limit, no line is added with the limit as its key. |
| Ranking.RankIsScore | src/hstr_history.c:38-46 | If every occurrence adds some amount that depends on its position and the length, the rank is the sum over the occurrences, as long as that sum does not pass the limit. |
| Ranking.StampIsLast | src/hstr_history.c:228-251 | A command whose rank has not passed the limit is filed at its last occurrence. |
| Ranking.RankingByScore | src/hstr_history.c:203-283 | The ranked view goes by that sum, and by the last use for equal sums; what passed the limit is filed just below it, in Floor mode only. |
| Ranking.RankedByScore | src/radixsort.c:78-88 | In Floor mode every command that occurred is ranked, in Skip mode exactly those whose sum is within the limit. |
| Ranking.PrecedesIsTotal | src/hstr_history.c:229-283 | Of two ranked commands exactly one precedes the other. |
| Ranking.FloorRanksAll | src/radixsort.c:78-91 | In Floor mode the ranked commands are exactly the ones that occurred. |
| Ranking.SkipRanksUnlessOverflow | src/radixsort.c:78-91 | In Skip mode a command that occurred is ranked exactly if its rank never passed the limit. |
| Ranking.RankingUnique | src/hstr_history.c:229-283 | There is only one sequence that is the ranking of a history. |
| Ranking.RankingDistinct | src/hstr_history.c:229-283 | No command is ranked twice. |
| Ranking.OccurrenceRaises | src/hstr_history.c:241-250 | After one more occurrence, whatever precedes the command preceded it before. |
| Ranking.UseNeverLowers | src/hstr_history.c:229-251 | Using a ranked command once more never lowers its position, if it is still ranked afterwards. |
| Ranking.UseKeepsRanked | src/radixsort.c:78-91 | It is still ranked exactly if the mode is Floor or the new rank is within the limit. |
| Ranking.AgreesIdle | src/hstr_history.c:225-228 | A line that changes no standing leaves every bucket right. |
| Ranking.AgreesCut | src/hstr_history.c:242 | Cutting a command out leaves every bucket right but for that command. |
| Ranking.AgreesFile | src/hstr_history.c:246-249 | Filing the command under its new key makes every bucket right for the next line, the newest at the front. |
| Ranking.AgreesRanking | src/hstr_history.c:268-283 | Buckets that agree with the standings give the ranking when they are read from the top. |
| HistoryRanking.FiledWhereRanked | src/hstr_history.c:229-250 | A recorded command within the limit is in the chain of its rank; one above is beyond the highest key. |
| HistoryRanking.FiledOnce | src/hstr_history.c:229-250 | Every recorded command has exactly one item, in the chain of the key it is filed under, or none if its rank was dropped. |
| HistoryRanking.RankNew | src/hstr_history.c:229-239 | A first occurrence keeps map, sorter and standings in step, unless it is added with the limit as its key. |
| HistoryRanking.TakeOut | src/hstr_history.c:242-244 | The cut finds the item of a repeated command exactly if its rank has not passed the limit, and never walks an empty chain. |
| HistoryRanking.RankAgain | src/hstr_history.c:241-250 | A repeated occurrence keeps map, sorter and standings in step, unless it is added with the limit as its key. |
| HistoryRanking.RankLine | src/hstr_history.c:229-251 | Every line that is ranked keeps map, sorter and standings in step, unless it is added with the limit as its key. |
| HistoryRanking.SkipLine | src/hstr_history.c:209-228 | Every line that is not ranked keeps them in step. |
| HistoryRanking.DumpIsRanking | src/hstr_history.c:268-283 | After the last line the dump of the sorter is the ranking. |
| ZshLine.Xor32IsXor | src/hstr_utils.c:425 | The flipped byte is the exclusive or with 32. |
| ZshLine.UnmetafyMetafy | src/hstr_utils.c:418-430 | Decoding undoes metafying for every string without NUL, whatever other bytes are metafied beside Meta. |
| ZshLine.UnmetafyInPlace | src/hstr_utils.c:418-430 | Decoding in the buffer itself equals the recursive decoder, ends in a terminator and returns the length, which never grows. |
| ZshLine.IsHistTimestamp | src/hstr_history.c:87-103 | True exactly for '#' followed by at least ten digits and nothing else. |
| ZshLine.ParseHistoryLine | src/hstr_history.c:105-144 | The scan skips an extended history prefix exactly where there is one. |
| ZshLine.ExtendedIsParsed | src/hstr_history.c:120-143 | A line made of start time, elapsed time and command is parsed to that command. |
| ZshLine.ParsedIsExtended | src/hstr_history.c:120-143 | A line from which a prefix is skipped is made of a start time, an elapsed time and the rest. |
| ZshLine.DecodeLine | src/hstr_history.c:214-224 | Copying and decoding only lines with a Meta byte gives what decoding every line would. |
| ZshLine.HistoryLineEquals | src/hstr_history.c:148-161 | True exactly if the decoded command of the line is the command. |
| ZshLine.ExtendedLineMatches | src/hstr_history.c:146-161 | A line that zsh wrote for command c matches command d exactly if c is d. |
| ZshLine.TimestampStandsForItself | src/hstr_history.c:87-144 | A timestamp is its own decoded command. |
| ZshLine.PlainLineIsCommand | src/hstr_history.c:214-223 | Outside zsh every line is its own command; in zsh every line without an extended prefix and without Meta bytes is. |
| History.Compact | src/hstr_history.c:257-264 | Squeezing out the empty slots in place keeps the filled ones in order. |
| History.Prune | src/hstr_history.c:417-443 | The shared removal loop leaves the other lines, in order. |
| History.HistoryItems.RemoveFromRaw | src/hstr_history.c:417-429 | The raw view loses the command and nothing else; the count is the number of lines lost; the ranked view stays. |
| History.HistoryItems.RemoveFromRanked | src/hstr_history.c:431-443 | The ranked view loses the command and nothing else; the count is the number of lines lost; the raw view stays. |
| Deletion.RawImageConcat | src/hstr_history.c:198-225 | The raw view of a history that goes on is the view of what was added, followed by the view of what was there. |
| Loading.LoadLine | src/hstr_history.c:203-252 | One round of the loop fills the slot of its line from the end and keeps map, sorter and standings in step. |
| Loading.RankAll | src/hstr_history.c:174-252 | After the loop the slots hold the raw image with gaps, the timestamps are counted, and map, sorter and standings are in step. |
| Loading.CompactRaw | src/hstr_history.c:257-271 | The number of lines less the timestamps counts exactly the filled slots after compaction. |
| Loading.ItemsOf | src/hstr_history.c:273-283 | The ranked items are the commands of the dump, in order. |
| Loading.PrioritizedHistoryCreate | src/hstr_history.c:173-299 | The raw view is the reversed, decoded image of the history without timestamps, and the ranked view is its ranking; null exactly for an empty history. |
| Loading.ShortHistoryIsLoadable | src/hstr_history.c:187-252 | A history whose bytes, and a bound on what the ranking function adds for each line, stay below the key limit is never added at the limit. |
| Loading.ShortHistoryRanksAll | src/hstr_history.c:203-283 | The ranking of such a history holds every command of its raw image that is not blacklisted, and no other, in both modes. |
| Loading.ShortHistoryByScore | src/hstr_history.c:203-283 | The ranked view of such a history goes by score, and by the last use for equal scores, without exception. |
| Loading.OrdinaryHistoryIsLoadable | src/hstr_history.c:190-192 | The key limit is large enough for every history of at most size lines that each weigh less than 1000, and for every history that weighs less than 100000. |
| Loading.WrittenLineIsLoadable | src/hstr_history.c:203-226 | In Bash every line that is not empty can be loaded, in zsh every line that it writes for a command. |
| Loading.CreateFromShortHistory | src/hstr_history.c:173-299 | For such a history, whatever the blacklist and the mode, the raw view is its image, the ranked view is its ranking, and the commands ranked are exactly those of the raw view that are not blacklisted. |
| Loading.ViewsAgreeOnLoad | src/hstr_history.c:203-284 | The ranked view holds each command of the raw view that is not blacklisted once, all of them in Floor mode, in Skip mode those that are still filed. |
| Deletion.SystemHistory.RemoveFromSystemHistory | src/hstr_history.c:344-379 | The backward removal in place, which may drop two entries in a round, leaves and counts what the sweep of the original list does. |
| Deletion.SweepIsPruned | src/hstr_history.c:350-369 | For a command that does not look like a timestamp: exactly the matches and the timestamps directly before them go, and every match is counted. |
| Deletion.BashCommandIsNoTimestamp | src/hstr_history.c:209-225 | In Bash no command of the raw view looks like a timestamp, so none that does can be deleted. |
| Deletion.SweepIsPrunedExactly | src/hstr_history.c:350-369 | That holds for every history in which the command can be deleted if and only if the shell is not zsh or the command does not look like a timestamp. |
| Deletion.SweepOfTimestampDiffers | src/hstr_history.c:363-367 | For any zsh command that looks like a timestamp, a history in whose raw view it is and where both the entries left and the count differ. |
| Deletion.SweepCountsAll | src/hstr_history.c:360-378 | The returned count is the number of matches if and only if no match that is a timestamp directly precedes another match. |
| Deletion.SweepLeavesNone | src/hstr_history.c:350-369 | Whatever the command, no match is left and nothing new appears. |
| Deletion.SweepTakesRecords | src/hstr_history.c:350-378 | On a history of commands, each with or without a timestamp before it, a deletion takes exactly the records of the command, each with its own timestamp, and counts them. |
| Deletion.SweptImage | src/hstr.c:1264-1280 | Whatever the command, sweeping the history and filtering the raw view give a raw view that is the image of the history again. |
| Deletion.CountsAgree | src/hstr.c:1269-1277 | The system history never loses fewer entries than the raw view loses lines, and as many if and only if every match that is a timestamp is directly followed by a match that is none; so for every command that does not look like a timestamp. |
| HistoryModel.RankedFollowsRaw | src/hstr.c:1270-1271 | Deleting from the ranked view keeps it the loaded ranking restricted to the raw view. |
| HistoryModel.Views.constructor | src/hstr.c:1264-1280 | Views that agree when loaded start out valid. |
| HistoryModel.Views.Remove | src/hstr.c:1264-1280 | One deletion removes the command from all three histories and keeps them in agreement; the returned count is that of the sweep, and equals the raw count exactly as in Deletion.CountsAgree, in Bash always. |
| HistoryModel.RemoveAll | src/hstr.c:1421-1447 | Any run of deletions takes exactly the deleted commands from the raw and the ranked view, leaves the order of the others, sweeps the system history once for each, and keeps the three in agreement. |
| HistoryModel.LoadAndDelete | src/hstr_history.c:173-443 | Loading and then any run of deletions: the raw view is the image of the loaded lines without the deleted commands, the ranked view is their ranking without the deleted commands, the system history is what the sweeps leave of them, and the raw view is its image. |
| Utf8.ScanEncode | src/hstr_utils.c:69-84 | Every Unicode scalar value is read back from its encoding, whatever follows. |
| Utf8.EncodeScan | src/hstr_utils.c:69-84 | Only encodings of scalar values are read as characters. |
| Utf8.StrNWidth | src/hstr_utils.c:62-87 | The loop measures the width of the first n bytes: an incomplete end is not counted, an invalid byte is one column. |
| Utf8.WidthConcat | src/hstr_utils.c:62-87 | After a well-formed string, width and well-formedness add up. |
| Utf8.TextWidth | src/hstr_utils.c:58-96 | The text of some code points is as wide as their sum, where one that is not printable is one column. |
| Utf8.BrokenWidth | src/hstr_utils.c:60-84 | A byte that starts no character is one column, a character cut short at the end is none. |
| Utf8.PrefixNotWider | src/hstr_utils.c:62-90 | No part of a string from its start, whatever its bytes, is wider than the string. |
| Elide.NextCharOffset | src/hstr_utils.c:96-103 | In a well-formed string the step goes to the end of the character, and never more than four bytes. |
| Elide.LastCharStart | src/hstr_utils.c:130-133 | The step back ends at the first byte of the last character of a well-formed string. |
| Elide.PrefixFitting | src/hstr_utils.c:107-121 | The longest prefix of whole characters within the columns and bytes; the bytes fit for malformed input too. |
| Elide.SuffixFitting | src/hstr_utils.c:125-151 | The longest suffix of whole characters that fits, less the characters of no width at its front; the bytes fit for malformed input too. |
| Elide.StrElide | src/hstr_utils.c:157-192 | For any input the buffer holds the elided string within bufferSize. A well-formed string is cut at the places of CutAt, and it is its start, the dots and a part of its end that does not overlap the start exactly if it is wider than maxWidth and there is room for more than the dots; otherwise it is its start. |
| Elide.ElidedFits | src/hstr_utils.c:153-192 | A well-formed string elided is well-formed, within columns and bytes, and the dots replace a piece that is not empty. |
| Elide.FittingIsKept | src/hstr_utils.c:178-179 | A well-formed string that fits is not changed. |
| Elide.SuffixIsVisible | src/hstr_utils.c:136-144 | What follows the dots starts with a character of some width. |
| Elide.PlainElided | src/hstr_utils.c:172-190 | A line of one-column characters that is too wide is shown in exactly maxWidth columns: maxWidth / 2 - 1 from its start, the dots, and the others from its end. |
| Elide.PlainCut | src/hstr_utils.c:178-181 | Such a line that fits, or where there are no columns for dots, is cut to the columns. |
| Typing.Chop | src/hstr_utils.c:195-210 | The buffer holds the string without its last piece. |
| Typing.ChopUndoesChar | src/hstr_utils.c:194-210 | Backspace undoes one character typed after any text. |
| Typing.ChopPiece | src/hstr_utils.c:194-210 | What goes is a lead byte with all continuations after it, up to four bytes, or else a single byte. |
| Typing.StrCatChar | src/hstr_utils.c:216-234 | A byte is appended exactly if it is one and there is room for it and the terminator; otherwise the buffer is unchanged. |
| Typing.StrCatCharFitting | src/hstr_utils.c:240-250 | The byte is kept exactly if there is room and the string is then not too wide; otherwise the last character is taken back. |
| Typing.TypedChar | src/hstr_utils.c:236-250 | Typing all bytes of a character adds it or leaves exactly the old pattern. |
| Typing.TypedCharWellFormed | src/hstr_utils.c:216-250 | The pattern stays well-formed if and only if there is room for all bytes of the character or for none. |
| Typing.TypedText | src/hstr_utils.c:236-250 | Typing any text, of any length, keeps character by character those that still fit and leaves a well-formed pattern within the columns, if and only if the buffer never runs full within a character; otherwise it is full and not well-formed. |
| Typing.AfterTextFits | src/hstr_utils.c:236-250 | The text kept is well-formed, within the columns and the buffer, and starts with the old pattern. |
| Typing.FittingTextIsKept | src/hstr_utils.c:236-250 | Text that fits as a whole is typed as a whole, and the buffer does not run full. |
| Typing.TypedStaysInRow | src/hstr_utils.c:216-250 | Whatever byte is typed after whatever bytes, the pattern never gets wider than the row or longer than the buffer; what is not a byte is not typed. |
| Favorites.LinesOfRender | src/hstr_favorites.c:88-100 | Lines without newlines, written one after the other, are read as the same lines. |
| Favorites.LinesAre | src/hstr_favorites.c:83-101 | The lines read are exactly the pieces of the file between newlines, the first from the start; a rest without a newline is not read. |
| Favorites.ReloadIsLines | src/hstr_favorites.c:83-101 | The favorites loaded are exactly these lines, but none that starts with # if comments are skipped. |
| Favorites.ReadBackExactly | src/hstr_favorites.c:56-139 | A list is read back from its file if and only if it has no duplicates and each line has no newline and is not a skipped comment. |
| Favorites.ParsedIsStorable | src/hstr_favorites.c:88-100 | Whatever a file holds, the list read from it is distinct and would be read back. |
| Favorites.ChosenIsStable | src/hstr_favorites.c:153-158 | Moving to the head is a permutation that keeps the order of the others. |
| Favorites.FavoriteItems.Get | src/hstr_favorites.c:56-109 | A fresh load gives the wanted lines of the file without duplicates, in order. |
| Favorites.FavoriteItems.Save | src/hstr_favorites.c:111-139 | The file holds the items, one a line; an empty list empties a file that is there and creates none. |
| Favorites.FavoriteItems.FindIndex | src/hstr_favorites.c:141-150 | The first position of a favorite, or -1. |
| Favorites.FavoriteItems.MoveToHead | src/hstr_favorites.c:153-158 | The item is first, those before it are shifted by one, the rest stays. |
| Favorites.FavoriteItems.Add | src/hstr_favorites.c:160-186 | A new favorite is first, or last without reordering; one that is there is chosen; the file follows. |
| Favorites.FavoriteItems.Choose | src/hstr_favorites.c:188-198 | With reordering a favorite becomes the first and the others keep their order; anything else changes nothing; the file follows. |
| Favorites.FavoriteItems.Remove | src/hstr_favorites.c:201-213 | The favorite goes, the others keep their order, the result says whether it was there; the file follows. |
| Favorites.Run | src/hstr_favorites.c:56-213 | After any run of operations with storable commands the favorites are what the operations make, one by one, of the favorites in the file; they are distinct, and a fresh load gives them back. |
| Favorites.OperationEffects | src/hstr_favorites.c:153-213 | An operation moves nothing but its own favorite, which is there after an addition, as before after a choice, not there after a removal; with reordering it is the first, without it stays or is the last. |
| Favorites.FavoriteIfAddedLast | src/hstr_favorites.c:153-213 | After any operations a command is a favorite exactly if it was added and not removed since, or was one before and neither added nor removed. |
| Cursor.RowsAreIndices | src/hstr_selection.c:69-78 | Row to index is a bijection from the rows that hold items onto the indices below their number. |
| Cursor.MoveLandsOnRow | src/hstr_selection.c:80-104 | Every move from anywhere ends on a row that holds an item, or in the prompt if there is none. |
| Cursor.PageMoveIsNearest | src/hstr_selection.c:102-103 | A page move ends on the row nearest to where it aims. |
| Cursor.DownsAreCyclic | src/hstr_selection.c:96-101 | k line moves down from a row end at the row k further, modulo the number of rows. |
| Cursor.PromptIsBetween | src/hstr_selection.c:90-93 | The prompt lies between the last row and the first. |
| Cursor.UpUndoesDown | src/hstr_selection.c:96-101 | Line moves up and down undo each other. |
| Cursor.BottomMirrorsTop | src/hstr_selection.c:69-104 | With the prompt at the bottom rows are mirrored: the mirror row shows the same item and moves are opposite. |
| Selection.ContainsPiece | src/hstr.c:940-955 | A line that contains a string contains every piece of it, with or without case. |
| Selection.AllKeywordsIn | src/hstr.c:966-991 | The tokenizing loop accepts a line exactly if it contains every blank-separated token of the pattern. |
| Selection.SelectionAdd | src/hstr_selection.c:23-46 | A line is appended unless the selection is full or, without duplicates, has it. |
| Selection.FirstPass | src/hstr.c:931-999 | The first pass picks the matching lines in source order, capped and deduplicated, with the places of regular expression matches. |
| Selection.SecondPass | src/hstr.c:1001-1028 | The second pass goes on with the lines that have the pattern elsewhere. |
| Selection.MakeSelection | src/hstr.c:897-1032 | The selection is the first max of the deduplicated prefix matches followed by the other matches (substring), of the lines with all tokens (keywords), or of the matching lines, not deduplicated (regular expression). |
| Selection.SelectionIsFromSource | src/hstr.c:897-1032 | Every selected line is in the list of the view and matches. |
| Selection.SelectionIsComplete | src/hstr.c:897-1032 | With rows for all candidates that are kept every line of the list that matches is selected, and none twice if duplicates are not wanted. |
| Selection.PrefixMatchesComeFirst | src/hstr.c:897-1032 | Lines that start with the pattern come before the others. |
| Selection.SubstringReachable | src/hstr.c:940-1028 | The two passes together reach exactly the lines that contain the pattern. |
| Selection.TypingNarrows | src/hstr.c:939-1028 | One more character at the end of the pattern matches no new line, for substrings and keywords. |
| Selection.KeywordOrderIsIrrelevant | src/hstr.c:966-991 | Patterns with the same set of keywords select the same lines. |
| Selection.ContainsIs | src/hstr.c:938-951 | A line contains a word exactly if at some place each byte is the one of the word, or is folded to the same if case does not matter. |
| Selection.CaseNarrows | src/hstr.c:938-951 | A line that contains a word with its case contains it without. |
| Selection.TokensAreWords | src/hstr.c:966-991 | The tokens of a pattern are its pieces without blanks between blanks or ends. |
| Selection.SelectionMeans | src/hstr.c:897-1032 | With rows for all, a line of the list is selected exactly if, for keywords, it has every word of the pattern at some place, for substrings, the pattern at some place, for regular expressions, a match of the engine; with no pattern always. |
| Selection.NoDuplicatesShown | src/hstr_selection.c:32-42 | Without duplicates every line is selected once, except by a regular expression, where all are kept. |
| Selection.MoreRowsShowMore | src/hstr.c:931-1010 | More rows show more of the same lines, in the same order. |
| Selection.LinesThatStartComeFirst | src/hstr.c:937-1020 | For substrings a line that has the pattern at place 0 is never after one that does not. |
| KeyLoop.MapLetters | src/hstr_utils.c:354-365 | Every byte of the pattern is mapped, its length stays. |
| KeyLoop.KeysTypeText | src/hstr.c:1597-1617 | A text typed on the keyboard, whatever the histories and the view, leaves in the pattern the characters that still fit, if and only if the buffer never runs full within a character; the selection and the result are those of the pattern, the lists and the view stay, and the cursor is in the prompt. |
| KeyLoop.RunLine | src/hstr.c:1410-1617 | The pattern after any keys depends on the keys and the pattern before alone, not on histories, view, selection or cursor. |
| KeyLoop.Hstr.constructor | src/hstr.c:1377-1384 | The loop starts with the pattern of the command line, cut to the buffer, and the cursor in the prompt. |
| KeyLoop.Hstr.Begin | src/hstr.c:1386-1404 | The round without a key selects for the pattern; the first line becomes the result if the pattern is not empty; nothing else changes. |
| KeyLoop.Hstr.Reselect | src/hstr.c:1158-1221 | Afterwards the selection is the one of the pattern in the current view, and the result is its first line or null. |
| KeyLoop.Hstr.UnderCursor | src/hstr.c:1299-1304 | A line under the cursor is in the list of the current view. |
| KeyLoop.Hstr.RemoveFromModel | src/hstr.c:1264-1280 | The list of the current view loses the command; favorites and histories do not touch each other. |
| KeyLoop.Hstr.HandleDelete | src/hstr.c:1421-1447 | DEL, if confirmed, removes the line under the cursor from the favorites in their view and from both histories in the others, and from nowhere else; the selection is made anew, and the cursor stays on a row that shows an item or goes to the prompt. |
| KeyLoop.Hstr.HandleFavorite | src/hstr.c:1489-1510 | C-f makes the line under the cursor a favorite, or chooses it, and leaves the histories; without a line nothing changes. |
| KeyLoop.Hstr.ChooseResult | src/hstr.c:1306-1318 | The line under the cursor, promoted in the favorites view, or the fallback. |
| KeyLoop.Hstr.HandleOther | src/hstr.c:1597-1617 | A typed byte changes the pattern as in Typing, and the selection follows. |
| KeyLoop.Hstr.HandleLine | src/hstr.c:1520-1531 | C-u and C-l change the pattern and leave the selection of the pattern before. |
| KeyLoop.Hstr.HandleBackspace | src/hstr.c:1532-1550 | Backspace chops the pattern, and the selection follows. |
| KeyLoop.Hstr.HandleView | src/hstr.c:1448-1488 | Matching, case and view advance, a new size is taken over, the selection is made anew and the cursor goes to the prompt. |
| KeyLoop.Hstr.HandleMove | src/hstr.c:1551-1563 | Moves only move the cursor. |
| KeyLoop.Hstr.HandleEnd | src/hstr.c:1564-1596 | The result and the execute, edit and fix flags of every key that ends the loop, and the promotion of a favorite that is the result. |
| KeyLoop.Hstr.HandleInput | src/hstr.c:1415-1563 | Every other key: what it does to the pattern, the settings, the selection and the cursor. |
| KeyLoop.Hstr.Handle | src/hstr.c:1386-1619 | One key, whatever it is, keeps every part valid; pattern, settings, the three lists, cursor, result and flags afterwards are functions of the key, the line under the cursor and the state before, and the selection is made anew or stays. |
| KeyLoop.Hstr.Round | src/hstr.c:1386-1619 | One round of the loop takes the whole state (view, settings, rows, pattern, lists, selection, cursor, result) to the one that the step function gives for the key. |
| KeyLoop.HistoriesOnlyShrink | src/hstr.c:1421-1447 | Over any run both histories lose the same lines and keep the order of the others; the lines lost are exactly those under the cursor, as the run so far left it, at a confirmed DEL outside the favorites. |
| KeyLoop.ListsStay | src/hstr.c:1386-1619 | Over any run without DEL the histories stay, and without C-f and an end of the loop the favorites do. |
| KeyLoop.LoopToSelect | src/hstr.c:1386-1619 | The loop over any keys is the run of the keys read: views, settings, pattern, lists, selection, cursor and final result are given. It ends at the first key that ends it, with the flags of that key. All parts are valid, selected lines belong to the current view and fit the rows, the cursor is in the prompt or stands for a selected line, without C-u and C-l the selection is the one of the pattern, and the favorites file stays in step if the commands of the history can be written to it. |
| KeyLoop.LoopKeepsHistories | src/hstr.c:1386-1619 | After any keys both histories are the ones of the start without the same lines, exactly those under the cursor at a confirmed DEL outside the favorites among the keys read; without DEL they are the very same. |
| KeyLaws.EndReturns | src/hstr.c:1564-1596 | In the prompt Enter returns the first line shown, or the last result if there is none, and Tab and Left return the pattern; on a row all three return its line; C-g, Esc and C-x return nothing. |
| KeyLaws.EnterAtOnce | src/hstr.c:1386-1404 | Enter as the first key returns the first line the command line selects, or nothing; without a pattern and lines, the first result. |
| KeyLaws.TypeAndEnd | src/hstr.c:1564-1617 | Typing a text and then Enter returns a line of the list that matches the text, and nothing only if no line does; then Tab or Left returns the text. |
| KeyLaws.FavoritesOnlyShrink | src/hstr.c:1264-1280 | Over any run without C-f and an end the favorites lose exactly the lines under the cursor at a confirmed DEL in their own view, and stay as they are if there is none. |
| KeyLaws.FavoriteKey | src/hstr.c:1489-1510 | C-f on a row makes its line a favorite, first or last or where it was, moves no other and leaves the histories; in the prompt it changes nothing. |
| KeyLaws.EndPromotes | src/hstr.c:1306-1318 | An end leaves the histories, and promotes the line it returns only in the view of the favorites and with reordering on. |
| KeyLaws.DeleteStaysInView | src/hstr.c:1264-1280 | DEL in the view of the favorites leaves the histories, in the others the favorites; not confirmed it leaves all lists and the selection. |
| KeyLaws.DeleteMovesOn | src/hstr.c:1421-1447 | DEL on a row: the line is no longer shown, the others are, in order, and the cursor is on the line that took the row, the next one; else on the last, or in the prompt. |
| KeyLaws.NextViewShows | src/hstr.c:1282-1286 | C-/ goes from the ranked view to the raw one, to the favorites, and back; with no pattern it shows the whole list. |
| KeyLaws.SettingsTakeTurns | src/hstr.c:1448-1488 | Views and ways to match take turns, three of each, the case goes on and off; the lists and the pattern stay and the cursor is in the prompt. |
| KeyLaws.ResizeFits | src/hstr.c:1511-1518 | A new size is taken over, and the selection is made anew and fits it. |
| KeyLaws.ControlKeys | man/hstr.1:49-93 | Each control key by its letter does what the manual lists it for. |
| KeyLaws.LineKeys | src/hstr.c:1519-1531 | C-l maps every letter to lower case and the next time to upper case, C-u erases, and codes that are no bytes change nothing. |
| KeyLaws.TypeableBytes | src/hstr.c:1597-1604 | The bytes that are typed are those above C-z but for Esc, C-/ and backspace. |
| KeyLaws.BackspaceUndoes | src/hstr.c:1532-1550 | Typing a character that fits and then backspace gives the pattern back. |
| KeyLaws.PatternStaysInRow | src/hstr.c:1519-1617 | Over any keys but C-l the pattern never gets wider than its row or longer than its buffer, whatever the bytes. |
| KeyLaws.SelectionFollows | src/hstr.c:1386-1619 | Over any run without C-u, C-l and a key that returns a line the selection is the one of the pattern in the list of the view. |
| KeyLaws.FoundMeans | src/hstr.c:1158-1221 | With rows for the list exactly its matching lines are found, once each if duplicates are not wanted. |
| KeyLaws.EraseShowsOld | src/hstr.c:1519-1525 | After C-u the lines shown are those of the pattern before; where the list has room they are right if and only if the whole list was shown. |
| KeyLaws.EraseIsStale | src/hstr.c:1519-1525 | A state in which C-u leaves lines shown that are not those of the pattern. |
| KeyLaws.LettersShowSame | src/hstr.c:1526-1531 | After C-l the lines shown are still right where case does not matter and the maps keep blanks and what letters are compared as. |
| KeyLaws.MoveKeys | src/hstr_selection.c:48-104 | Line keys put the cursor on the line before or after, going round, page keys ten lines away, stopping at the ends; with the prompt at the bottom the next line is the one above; C-r goes to the next line. |
| KeyLaws.SearchWalks | src/hstr.c:1410-1413 | k presses of C-r from the prompt put the cursor on line k - 1 modulo the number of lines, in both layouts. |
| KeyLaws.IdleKeys | src/hstr.c:1415-1420 | Home, End and the control codes that are no keys change nothing. |

## Left out

- RadixSort.RadixSorter.Add: asks for a key that is not exactly the limit; such an item would be written past the last slot, which this model of memory cannot follow. The option to exit on big keys is left out.
- RadixSort.RadixSorter.Cut: asks for a chain that is not empty if its slot is allocated, as the walk starts without looking; HistoryRanking.TakeOut shows that the loop never cuts otherwise.
- HistoryRanking.RankLine: what follows when a line is added with the limit as its key is not modelled; Ranking.SlotsUnlessAtLimit says when that is.
- RadixSort.RadixSorter.Dump: the table of slots and the table of descriptors are sequences that are replaced, not arrays that are written.
- Ranking.UseNeverLowers: the ranking function is a parameter of which only `new rank >= old rank + length` from the second line on is assumed; its logarithm in floating point, and the wrap-around of an unsigned rank, are not modelled.
- Loading.PrioritizedHistoryCreate: asks for no empty line (the loop would leave its raw slot unset, src/hstr_history.c:204-206) and, for zsh, for commands without a broken Meta sequence or an encoded NUL. The key limit is computed without wrap-around.
- ZshLine.UnmetafyInPlace: a Meta byte at the end, and Meta followed by a blank, are excluded; zsh writes neither.
- Deletion.SystemHistory.RemoveFromSystemHistory: the list of readline is a list with removal at an index; zsh histories are taken to be well metafied; entries without a line, a null command, writing the history file and the dirty flag are left out.
- Elide.ElidedFits: width claims are for well-formed strings and a dot of one column, as a truncated sequence measures differently alone and in context (src/hstr_utils.c:72-79). The bytes fit for all input (Elide.StrElide).
- Utf8.StrNWidth: mbrtowc is modelled for a UTF-8 locale; wcwidth is a parameter.
- Favorites.FavoriteItems.Get: for a fresh object only; `loaded` is set only when there is no file (src/hstr_favorites.c:103-106), and the set of names is never shrunk, so a second load would drop lines. Failing reads and writes are left out, and the file is its content.
- Favorites.FavoriteItems.MoveToHead: the list is a sequence that is replaced, so memmove and realloc are not modelled as writes in place.
- Selection.MakeSelection: the regular expression engine is a parameter, and so is the case folding of strcasestr and tolower. The cache of compiled expressions is left out: it is keyed by the pattern only (src/hstr_regexp.c:37-44) and can be out of date after C-t.
- KeyLoop.Hstr.Begin: the selection printed before the loop without a pattern, and the second selection that backspace makes, are made once.
- KeyLoop.Hstr.HandleView: the number of rows changes at a resize only; how it follows from the screen is left out.
- KeyLoop.Hstr.HandleEnd: the hint for subshells and clearing the dirty flag are left out.
- KeyLoop.KeyOf: sorts the bytes into keys as on systems other than macOS, where C-w changes the view. Keys that are no bytes have codes of curses and come sorted into what they do, DEL with the answer to its question.
- The blacklist is a set of strings; reading its file is like reading favorites without an order.
- Malloc failures, freeing, debug statistics and the count of slots.
- Drawing, colours, the terminal, signals, options, the environment and the shell that runs HSTR.
