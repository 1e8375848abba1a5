/** Typing into the search pattern byte by byte, and backspace (src/hstr_utils.c). */
module Typing {
  import opened Bytes
  import opened Elide
  import opened Utf8
  import opened ZshLine

  // ---- strings in buffers

  lemma HoldsStrLen(a: array<Byte>, s: Text)
    requires Holds(a, s)
    ensures StrLen(a[..]) == |s|
  {
  }

  // ---- backspace

  /** Where hstr_chop ends a non-empty string: before its last character if that is a lead byte with
      continuations, else before its last byte. */
  function ChopPoint(s: Text): (last: nat)
    requires s != []
    ensures last < |s|
  {
    var last := Backtrack(s, |s|, |s| - 1);
    if last != |s| - 1 && !IsLead(s[last]) then |s| - 1 else last
  }

  function Chopped(s: Text): Text {
    if s == [] then [] else s[..ChopPoint(s)]
  }

  /** hstr_chop. */
  method Chop(a: array<Byte>, ghost s: Text)
    requires Holds(a, s)
    modifies a
    ensures Holds(a, Chopped(s))
  {
    HoldsStrLen(a, s);
    var length := StrLen(a[..]);
    if length == 0 {
      return;
    }
    var last := LastCharStart(a[..length], length);
    if last != length - 1 && !IsLead(a[last]) {
      last := length - 1;
    }
    a[last] := 0;
    assert a[..last] == s[..last];
  }

  lemma {:induction false} BacktrackTo(s: Text, c: nat, last: nat)
    requires c <= last < |s| && |s| - c <= UTF8_MAX_BYTES && !IsContinuation(s[c])
    requires forall i :: c < i < |s| ==> IsContinuation(s[i])
    ensures Backtrack(s, |s|, last) == c
  {
    if c < last {
      BacktrackTo(s, c, last - 1);
    }
  }

  /** Backspace undoes a character typed after any text. */
  lemma ChopUndoesChar(s: Text, c: Text)
    requires IsChar(c)
    ensures Chopped(s + c) == s
  {
    CharBytes(c);
    var t := s + c;
    assert t[|s|] == c[0];
    forall i | |s| < i < |t| ensures IsContinuation(t[i]) {
      assert t[i] == c[i - |s|];
    }
    BacktrackTo(t, |s|, |t| - 1);
    assert t[..|s|] == s;
  }

  /** What backspace removes from any string, well-formed or not: a lead byte with all the continuations
      after it, up to four bytes, or else one byte. */
  lemma ChopPiece(s: Text)
    requires s != []
    ensures var last := ChopPoint(s);
            && |s| - last <= UTF8_MAX_BYTES
            && (last < |s| - 1 ==> IsLead(s[last]) && forall i :: last < i < |s| ==> IsContinuation(s[i]))
            && (last == |s| - 1 ==> forall c :: 0 <= c < last && |s| - c <= UTF8_MAX_BYTES && IsLead(s[c]) ==>
                  exists i :: c < i < |s| && !IsContinuation(s[i]))
  {
    BacktrackSkips(s, |s| - 1);
    forall c |
      0 <= c < |s| - 1 && |s| - c <= UTF8_MAX_BYTES && IsLead(s[c]) && forall i :: c < i < |s| ==> IsContinuation(s[i])
      ensures ChopPoint(s) == c
    {
      BacktrackTo(s, c, |s| - 1);
    }
  }

  lemma {:induction false} BacktrackSkips(s: Text, last: nat)
    requires last < |s| && |s| - last <= UTF8_MAX_BYTES
    ensures var start := Backtrack(s, |s|, last);
            |s| - start <= UTF8_MAX_BYTES && forall i :: start < i <= last ==> IsContinuation(s[i])
  {
    if last > 0 && |s| - last < UTF8_MAX_BYTES && IsContinuation(s[last]) {
      BacktrackSkips(s, last - 1);
    }
  }

  // ---- appending

  /** hstr_strcat_char: c is appended if it is a byte and there is room for it and the terminator. */
  method StrCatChar(a: array<Byte>, c: int) returns (appended: bool)
    modifies a
    ensures var s := old(a[..StrLen(a[..])]);
            && appended == (0 < c < 256 && |s| + 1 < a.Length)
            && if appended then Holds(a, s + [c]) else a[..] == old(a[..])
  {
    if c <= 0 || c > 255 {
      return false;
    }
    var length := StrLen(a[..]);
    if length + 1 >= a.Length {
      return false;
    }
    ghost var s := a[..length];
    assert s == a[..][..length];
    a[length] := c;
    a[length + 1] := 0;
    assert a[..length + 1] == s + [c];
    return true;
  }

  /** The pattern after a byte was typed: with no room for it nothing happens, and if the pattern gets too
      wide the last character is taken back, which may be more than the byte. */
  function Typed(wcwidth: nat -> int, s: Text, c: int, capacity: nat, maxWidth: int): Text {
    if !(0 < c < 256 && |s| + 1 < capacity) then s
    else if Width(wcwidth, s + [c]) <= maxWidth then s + [c]
    else Chopped(s + [c])
  }

  /** hstr_strcat_char_fitting. */
  method StrCatCharFitting(wcwidth: nat -> int, a: array<Byte>, ghost s: Text, c: int, maxWidth: int)
    returns (kept: bool)
    requires Holds(a, s)
    modifies a
    ensures Holds(a, Typed(wcwidth, s, c, a.Length, maxWidth))
    ensures kept <==> 0 < c < 256 && |s| + 1 < a.Length && Width(wcwidth, s + [c]) <= maxWidth
  {
    HoldsStrLen(a, s);
    assert a[..StrLen(a[..])] == s;
    var appended := StrCatChar(a, c);
    if !appended {
      assert a[..|s|] == old(a[..])[..|s|];
      return false;
    }
    HoldsStrLen(a, s + [c]);
    var text := a[..StrLen(a[..])];
    assert text[..|text|] == text;
    var width := StrNWidth(wcwidth, text, |text|);
    if width > maxWidth {
      Chop(a, s + [c]);
      return false;
    }
    return true;
  }

  // ---- typing

  /** The pattern after some bytes were typed. */
  function TypedAll(wcwidth: nat -> int, s: Text, bytes: Text, capacity: nat, maxWidth: int): Text
    decreases |bytes|
  {
    if bytes == [] then s
    else
      var n := |bytes| - 1;
      Typed(wcwidth, TypedAll(wcwidth, s, bytes[..n], capacity, maxWidth), bytes[n], capacity, maxWidth)
  }

  /** The pattern after a character was typed: the character is there if it fits, or nothing changed. */
  function AfterChar(wcwidth: nat -> int, s: Text, c: Text, capacity: nat, maxWidth: int): Text {
    if |s| + |c| < capacity && Width(wcwidth, s + c) <= maxWidth then s + c else s
  }

  /** There is room for all bytes of the character, or for none. */
  predicate RoomFor(s: Text, c: Text, capacity: nat) {
    |s| + |c| < capacity || |s| + 1 >= capacity
  }

  /** The first bytes of a character are kept until it is complete. */
  lemma {:induction false} TypedPart(wcwidth: nat -> int, s: Text, c: Text, k: nat, capacity: nat, maxWidth: int)
    requires WellFormed(s) && Width(wcwidth, s) <= maxWidth
    requires IsChar(c) && 0 !in c && k < |c| && |s| + k < capacity
    ensures TypedAll(wcwidth, s, c[..k], capacity, maxWidth) == s + c[..k]
  {
    hide Width, WellFormed, IsChar, Chopped;
    if k == 0 {
      assert s + c[..0] == s;
    } else {
      TypedPart(wcwidth, s, c, k - 1, capacity, maxWidth);
      CutCharHasNoWidth(wcwidth, s, c, k);
      assert c[..k][..k - 1] == c[..k - 1] && c[k - 1] in c;
      assert s + c[..k - 1] + [c[k - 1]] == s + c[..k];
    }
  }

  /** Typing the bytes of one character, one after the other, adds the character or changes nothing. */
  lemma TypedChar(wcwidth: nat -> int, s: Text, c: Text, capacity: nat, maxWidth: int)
    requires WellFormed(s) && Width(wcwidth, s) <= maxWidth
    requires IsChar(c) && 0 !in c && RoomFor(s, c, capacity)
    ensures TypedAll(wcwidth, s, c, capacity, maxWidth) == AfterChar(wcwidth, s, c, capacity, maxWidth)
  {
    hide Width, WellFormed, ScanChar, Chopped;
    if |s| + 1 >= capacity {
      TypedFull(wcwidth, s, c, capacity, maxWidth);
    } else {
      var k := |c| - 1;
      TypedPart(wcwidth, s, c, k, capacity, maxWidth);
      assert c[k] in c && s + c[..k] + [c[k]] == s + c;
      ChopUndoesChar(s, c);
    }
  }

  /** While a character is incomplete it adds no width. */
  lemma CutCharHasNoWidth(wcwidth: nat -> int, s: Text, c: Text, k: nat)
    requires WellFormed(s) && IsChar(c) && 0 < k < |c|
    ensures Width(wcwidth, s + c[..k]) == Width(wcwidth, s)
  {
    ScanCut(c, k);
    WidthConcat(wcwidth, s, c[..k]);
  }

  /** Once the buffer is full nothing is typed. */
  lemma {:induction false} TypedFull(wcwidth: nat -> int, s: Text, bytes: Text, capacity: nat, maxWidth: int)
    requires |s| + 1 >= capacity
    ensures TypedAll(wcwidth, s, bytes, capacity, maxWidth) == s
    decreases |bytes|
  {
    if bytes != [] {
      TypedFull(wcwidth, s, bytes[..|bytes| - 1], capacity, maxWidth);
    }
  }

  /** Otherwise the buffer runs full within the character, and a part of it is kept. */
  lemma TypedCharCut(wcwidth: nat -> int, s: Text, c: Text, capacity: nat, maxWidth: int)
    requires WellFormed(s) && Width(wcwidth, s) <= maxWidth
    requires IsChar(c) && 0 !in c && !RoomFor(s, c, capacity)
    ensures var t := TypedAll(wcwidth, s, c, capacity, maxWidth); |t| + 1 == capacity && !WellFormed(t)
  {
    var k := capacity - 1 - |s|;
    assert c == c[..k] + c[k..];
    TypedConcat(wcwidth, s, c[..k], c[k..], capacity, maxWidth);
    TypedPart(wcwidth, s, c, k, capacity, maxWidth);
    TypedFull(wcwidth, s + c[..k], c[k..], capacity, maxWidth);
    ScanCut(c, k);
    WidthConcat(wcwidth, s, c[..k]);
  }

  /** Typing one character keeps the pattern well-formed exactly if there is room for all of its bytes or for
      none of them. */
  lemma TypedCharWellFormed(wcwidth: nat -> int, s: Text, c: Text, capacity: nat, maxWidth: int)
    requires WellFormed(s) && Width(wcwidth, s) <= maxWidth && IsChar(c) && 0 !in c
    ensures WellFormed(TypedAll(wcwidth, s, c, capacity, maxWidth)) <==> RoomFor(s, c, capacity)
  {
    hide WellFormed, TypedAll, IsChar, Width;
    if RoomFor(s, c, capacity) {
      TypedChar(wcwidth, s, c, capacity, maxWidth);
      AfterCharFits(wcwidth, s, c, capacity, maxWidth);
    } else {
      TypedCharCut(wcwidth, s, c, capacity, maxWidth);
    }
  }

  lemma AfterCharFits(wcwidth: nat -> int, s: Text, c: Text, capacity: nat, maxWidth: int)
    requires WellFormed(s) && Width(wcwidth, s) <= maxWidth && IsChar(c)
    ensures var t := AfterChar(wcwidth, s, c, capacity, maxWidth);
            WellFormed(t) && Width(wcwidth, t) <= maxWidth && s <= t && (|s| < capacity ==> |t| < capacity)
  {
    WidthChar(wcwidth, c);
    WidthConcat(wcwidth, s, c);
  }

  /** The pattern after some text was typed, character by character: each one that still fits is kept. */
  function AfterText(wcwidth: nat -> int, s: Text, chars: seq<Text>, capacity: nat, maxWidth: int): Text
    decreases |chars|
  {
    if chars == [] then s
    else
      var n := |chars| - 1;
      AfterChar(wcwidth, AfterText(wcwidth, s, chars[..n], capacity, maxWidth), chars[n], capacity, maxWidth)
  }

  /** At every character of the text there is room for all of its bytes, or for none. */
  predicate RoomThroughout(wcwidth: nat -> int, s: Text, chars: seq<Text>, capacity: nat, maxWidth: int)
    decreases |chars|
  {
    if chars == [] then true
    else
      var n := |chars| - 1;
      && RoomThroughout(wcwidth, s, chars[..n], capacity, maxWidth)
      && RoomFor(AfterText(wcwidth, s, chars[..n], capacity, maxWidth), chars[n], capacity)
  }

  function Join(chars: seq<Text>): Text {
    if chars == [] then [] else Join(chars[..|chars| - 1]) + chars[|chars| - 1]
  }

  ghost predicate AreChars(chars: seq<Text>) {
    forall i :: 0 <= i < |chars| ==> IsChar(chars[i]) && 0 !in chars[i]
  }

  /** The typed pattern is well-formed, within the width, and in the buffer. */
  lemma {:induction false} AfterTextFits(wcwidth: nat -> int, s: Text, chars: seq<Text>, capacity: nat, maxWidth: int)
    requires WellFormed(s) && Width(wcwidth, s) <= maxWidth && AreChars(chars)
    ensures var t := AfterText(wcwidth, s, chars, capacity, maxWidth);
            WellFormed(t) && Width(wcwidth, t) <= maxWidth && s <= t && (|s| < capacity ==> |t| < capacity)
    decreases |chars|
  {
    hide WellFormed, Width, IsChar, AfterChar;
    if chars != [] {
      var n := |chars| - 1;
      AfterTextFits(wcwidth, s, chars[..n], capacity, maxWidth);
      AfterCharFits(wcwidth, AfterText(wcwidth, s, chars[..n], capacity, maxWidth), chars[n], capacity, maxWidth);
    }
  }

  lemma {:induction false} TypedConcat(wcwidth: nat -> int, s: Text, a: Text, b: Text, capacity: nat, maxWidth: int)
    ensures TypedAll(wcwidth, s, a + b, capacity, maxWidth)
         == TypedAll(wcwidth, TypedAll(wcwidth, s, a, capacity, maxWidth), b, capacity, maxWidth)
    decreases |b|
  {
    if b == [] {
      assert a + b == a;
    } else {
      TypedConcat(wcwidth, s, a, b[..|b| - 1], capacity, maxWidth);
      assert (a + b)[..|a + b| - 1] == a + b[..|b| - 1];
    }
  }

  /** Typing any text, byte by byte, keeps each character that still fits and drops the others, and leaves a well-formed
      pattern, exactly if the buffer never runs full within a character; if it does, the pattern ends there, broken. */
  lemma {:induction false} TypedText(wcwidth: nat -> int, s: Text, chars: seq<Text>, capacity: nat, maxWidth: int)
    requires WellFormed(s) && Width(wcwidth, s) <= maxWidth && AreChars(chars)
    ensures var t := TypedAll(wcwidth, s, Join(chars), capacity, maxWidth);
            if RoomThroughout(wcwidth, s, chars, capacity, maxWidth)
            then t == AfterText(wcwidth, s, chars, capacity, maxWidth) && WellFormed(t) && Width(wcwidth, t) <= maxWidth
            else |t| + 1 == capacity && !WellFormed(t)
    decreases |chars|
  {
    hide WellFormed, Width, IsChar, AfterChar, RoomFor;
    if chars != [] {
      var n := |chars| - 1;
      var front := chars[..n];
      TypedText(wcwidth, s, front, capacity, maxWidth);
      TypedConcat(wcwidth, s, Join(front), chars[n], capacity, maxWidth);
      var t := TypedAll(wcwidth, s, Join(front), capacity, maxWidth);
      if !RoomThroughout(wcwidth, s, front, capacity, maxWidth) {
        TypedFull(wcwidth, t, chars[n], capacity, maxWidth);
      } else if RoomFor(t, chars[n], capacity) {
        TypedChar(wcwidth, t, chars[n], capacity, maxWidth);
        AfterCharFits(wcwidth, t, chars[n], capacity, maxWidth);
      } else {
        TypedCharCut(wcwidth, t, chars[n], capacity, maxWidth);
      }
    }
  }

  /** Text that fits as a whole is typed as a whole. */
  lemma {:induction false} FittingTextIsKept(wcwidth: nat -> int, s: Text, chars: seq<Text>, capacity: nat,
                                             maxWidth: int)
    requires WellFormed(s) && AreChars(chars)
    requires Width(wcwidth, s + Join(chars)) <= maxWidth && |s| + |Join(chars)| < capacity
    ensures AfterText(wcwidth, s, chars, capacity, maxWidth) == s + Join(chars)
    ensures RoomThroughout(wcwidth, s, chars, capacity, maxWidth) && WellFormed(Join(chars))
    decreases |chars|
  {
    hide WellFormed, Width, IsChar;
    if chars == [] {
      assert s + Join(chars) == s;
      JoinWellFormed(chars);
    } else {
      var n := |chars| - 1;
      assert s + Join(chars) == s + Join(chars[..n]) + chars[n];
      JoinWellFormed(chars[..n]);
      JoinWellFormed(chars);
      WidthConcat(wcwidth, s, Join(chars[..n]));
      WidthConcat(wcwidth, s + Join(chars[..n]), chars[n]);
      FittingTextIsKept(wcwidth, s, chars[..n], capacity, maxWidth);
    }
  }

  lemma {:induction false} JoinWellFormed(chars: seq<Text>)
    requires AreChars(chars)
    ensures WellFormed(Join(chars))
    decreases |chars|
  {
    if chars != [] {
      var n := |chars| - 1;
      JoinWellFormed(chars[..n]);
      WidthChar(_ => 0, chars[n]);
      WidthConcat(_ => 0, Join(chars[..n]), chars[n]);
    }
  }

  // ---- any bytes at all

  /** Whatever is typed, well-formed or not, the pattern never gets wider than the row or longer than the buffer, and
      what is not a byte is not typed. */
  lemma TypedStaysInRow(wcwidth: nat -> int, s: Text, c: int, capacity: nat, maxWidth: int)
    requires Width(wcwidth, s) <= maxWidth
    ensures var t := Typed(wcwidth, s, c, capacity, maxWidth);
            && Width(wcwidth, t) <= maxWidth && (|s| < capacity ==> |t| < capacity)
            && (c <= 0 || c > 255 ==> t == s)
            && (t <= s || (|t| == |s| + 1 && s <= t && t[|s|] == c))
  {
    if 0 < c < 256 {
      var last := ChopPoint(s + [c]);
      assert (s + [c])[..last] == s[..last];
      PrefixNotWider(wcwidth, s, last);
    }
  }

  lemma BackspaceStaysInRow(wcwidth: nat -> int, s: Text)
    ensures Width(wcwidth, Chopped(s)) <= Width(wcwidth, s) && |Chopped(s)| <= |s|
  {
    if s != [] {
      PrefixNotWider(wcwidth, s, ChopPoint(s));
    }
  }
}
