/** Eliding a line to the columns and bytes of a screen row (src/hstr_utils.c). */
module Elide {
  import opened Bytes
  import opened Utf8
  import opened ZshLine

  const UTF8_MAX_BYTES: nat := 4
  const INT_MAX: nat := 0x7FFF_FFFF
  const DOTS: Text := ['.' as int, '.' as int, '.' as int]

  // ---- stepping over characters

  /** next_char_offset. */
  method NextCharOffset(s: Text, start: nat) returns (next: nat)
    requires start < |s|
    ensures start < next <= |s| && next - start <= UTF8_MAX_BYTES
    ensures WellFormed(s[start..]) ==> next == start + ScanChar(s[start..]).length
  {
    next := start + 1;
    ghost var n := if WellFormed(s[start..]) then ScanChar(s[start..]).length else 0;
    if WellFormed(s[start..]) {
      CharFollowed(s, start);
    }
    while next < |s| && next - start < UTF8_MAX_BYTES && IsContinuation(s[next])
      invariant start < next <= |s| && next - start <= UTF8_MAX_BYTES
      invariant WellFormed(s[start..]) ==> next <= start + n
    {
      next := next + 1;
    }
  }

  /** Inside a character there are continuations, and right after it there is none. */
  lemma CharFollowed(s: Text, start: nat)
    requires start < |s| && WellFormed(s[start..])
    ensures var n := ScanChar(s[start..]).length;
            && start + n <= |s| && (forall i :: start < i < start + n ==> IsContinuation(s[i]))
            && (start + n < |s| ==> !IsContinuation(s[start + n]))
  {
    var t := s[start..];
    var n := ScanChar(t).length;
    FirstChar(t);
    CharBytes(t[..n]);
    forall i | start < i < start + n ensures IsContinuation(s[i]) {
      assert t[..n][i - start] == s[i];
    }
    if start + n < |s| {
      FirstChar(t[n..]);
      CharBytes(t[n..][..ScanChar(t[n..]).length]);
      assert t[n..][0] == s[start + n];
    }
  }

  /** From index last, before end, back over continuation bytes, at most four bytes in all. */
  function Backtrack(s: Text, end: nat, last: nat): (start: nat)
    requires last < end <= |s|
    ensures start <= last
    decreases last
  {
    if last > 0 && end - last < UTF8_MAX_BYTES && IsContinuation(s[last]) then Backtrack(s, end, last - 1) else last
  }

  /** The backward step of suffix_fitting and hstr_chop: to the first byte of the last character. */
  method LastCharStart(s: Text, end: nat) returns (start: nat)
    requires 0 < end <= |s|
    ensures start < end && end - start <= UTF8_MAX_BYTES
    ensures WellFormed(s[..end]) ==> Boundary(s, start) && IsChar(s[start..end])
    ensures start == Backtrack(s, end, end - 1)
  {
    hide WellFormed, IsChar, ScanChar;
    ghost var c := 0;
    if WellFormed(s[..end]) {
      c := LastChar(s[..end]);
      CharBytes(s[..end][c..]);
      assert s[..end][c..] == s[c..end] && s[..end][..c] == s[..c];
      assert forall i :: c < i < end ==> s[c..end][i - c] == s[i];
    }
    start := end - 1;
    while start > 0 && end - start < UTF8_MAX_BYTES && IsContinuation(s[start])
      invariant c <= start < end && end - start <= UTF8_MAX_BYTES
      invariant Backtrack(s, end, start) == Backtrack(s, end, end - 1)
    {
      start := start - 1;
    }
  }

  // ---- the longest prefix and suffix that fit

  ghost predicate Fits(wcwidth: nat -> int, s: Text, maxWidth: int, maxBytes: nat) {
    Width(wcwidth, s) <= maxWidth && |s| <= maxBytes
  }

  /** s[..end] is the longest prefix of whole characters that fits. */
  ghost predicate LongestPrefix(wcwidth: nat -> int, s: Text, maxWidth: int, maxBytes: nat, end: nat) {
    && Boundary(s, end) && Fits(wcwidth, s[..end], maxWidth, maxBytes)
    && forall e :: end < e <= |s| && Boundary(s, e) ==> !Fits(wcwidth, s[..e], maxWidth, maxBytes)
  }

  /** Longer prefixes are not narrower. */
  lemma PrefixGrows(wcwidth: nat -> int, s: Text, d: nat, e: nat)
    requires d <= e && Boundary(s, d) && Boundary(s, e)
    ensures Width(wcwidth, s[..d]) <= Width(wcwidth, s[..e])
  {
    assert s[..e][..d] == s[..d];
    SplitAt(wcwidth, s[..e], d);
  }

  /** prefix_fitting. */
  method PrefixFitting(wcwidth: nat -> int, s: Text, maxWidth: int, maxBytes: nat) returns (end: nat)
    requires maxWidth >= 0
    ensures end <= |s| && end <= maxBytes
    ensures WellFormed(s) ==> LongestPrefix(wcwidth, s, maxWidth, maxBytes, end)
  {
    hide ScanChar, IsChar, Width;
    end := 0;
    var width := 0;
    assert s[0..] == s && s[..0] == [] && Width(wcwidth, []) == 0 by {
      NoWidth(wcwidth, s);
    }
    while end < |s|
      invariant end <= |s| && end <= maxBytes && width <= maxWidth
      invariant WellFormed(s) ==> Boundary(s, end) && WellFormed(s[end..]) && width == Width(wcwidth, s[..end])
      decreases |s| - end
    {
      var next := NextCharOffset(s, end);
      assert s[end..][..next - end] == s[end..next];
      var charWidth := StrNWidth(wcwidth, s[end..], next - end);
      if WellFormed(s) {
        StepForward(wcwidth, s, end, next);
      }
      if width + charWidth > maxWidth || next > maxBytes {
        if WellFormed(s) {
          forall e | end < e <= |s| && Boundary(s, e) ensures !Fits(wcwidth, s[..e], maxWidth, maxBytes) {
            NoBoundaryBetween(wcwidth, s, end, next, e);
            PrefixGrows(wcwidth, s, next, e);
          }
        }
        return;
      }
      width := width + charWidth;
      end := next;
    }
  }

  lemma NoWidth(wcwidth: nat -> int, s: Text)
    ensures s[..0] == [] && Width(wcwidth, s[..0]) == 0 && Boundary(s, 0)
  {
  }

  /** Taking one more character. */
  lemma StepForward(wcwidth: nat -> int, s: Text, end: nat, next: nat)
    requires WellFormed(s) && Boundary(s, end) && end < |s| && WellFormed(s[end..])
    requires next == end + ScanChar(s[end..]).length
    ensures Boundary(s, next) && WellFormed(s[next..])
    ensures Width(wcwidth, s[..next]) == Width(wcwidth, s[..end]) + Width(wcwidth, s[end..next])
  {
    hide Width, ScanChar, IsChar;
    FirstChar(s[end..]);
    assert next <= |s|;
    assert s[end..][..next - end] == s[end..next] && s[end..][next - end..] == s[next..];
    assert s[..next] == s[..end] + s[end..next];
    WidthChar(wcwidth, s[end..next]);
    WidthConcat(wcwidth, s[..end], s[end..next]);
  }

  lemma NoBoundaryBetween(wcwidth: nat -> int, s: Text, end: nat, next: nat, e: nat)
    requires WellFormed(s) && Boundary(s, end) && end < |s| && WellFormed(s[end..])
    requires next == end + ScanChar(s[end..]).length && end < e && Boundary(s, e)
    ensures next <= e
  {
    assert Boundary(s[end..], e - end) by {
      assert s[..e][..end] == s[..end] && s[..e][end..] == s[end..][..e - end];
      SplitAt(wcwidth, s[..e], end);
    }
    hide WellFormed, ScanChar;
    BoundaryAfterChar(s[end..], e - end);
  }

  /** s[start..] is the longest suffix of whole characters that fits. */
  ghost predicate LongestSuffix(wcwidth: nat -> int, s: Text, maxWidth: int, maxBytes: nat, start: nat) {
    && Boundary(s, start) && Fits(wcwidth, s[start..], maxWidth, maxBytes)
    && forall e :: 0 <= e < start && Boundary(s, e) ==> !Fits(wcwidth, s[e..], maxWidth, maxBytes)
  }

  /** s[trimmed..] is s[start..] without the characters of no width at its front. */
  ghost predicate TrimmedFront(wcwidth: nat -> int, s: Text, start: nat, trimmed: nat) {
    && start <= trimmed <= |s| && Boundary(s, trimmed)
    && Width(wcwidth, s[start..trimmed]) == 0
    && (trimmed < |s| ==> ScanChar(s[trimmed..]).Complete? && Columns(wcwidth, ScanChar(s[trimmed..]).code) > 0)
  }

  /** suffix_fitting: the length of the longest fitting suffix, less the characters of no width at its
      front, which would combine with the dots. */
  method SuffixFitting(wcwidth: nat -> int, s: Text, maxWidth: int, maxBytes: nat) returns (length: nat)
    ensures length <= |s| && length <= maxBytes
    ensures WellFormed(s) && maxWidth >= 0 ==> exists start ::
              LongestSuffix(wcwidth, s, maxWidth, maxBytes, start) && TrimmedFront(wcwidth, s, start, |s| - length)
  {
    var start := LongestSuffixStart(wcwidth, s, maxWidth, maxBytes);
    var trimmed := TrimFront(wcwidth, s, start);
    length := |s| - trimmed;
  }

  /** The first loop of suffix_fitting. */
  method LongestSuffixStart(wcwidth: nat -> int, s: Text, maxWidth: int, maxBytes: nat) returns (start: nat)
    ensures start <= |s| && |s| - start <= maxBytes
    ensures WellFormed(s) && maxWidth >= 0 ==> LongestSuffix(wcwidth, s, maxWidth, maxBytes, start)
  {
    start := |s|;
    var width := 0;
    assert s[..|s|] == s && s[|s|..] == [];
    while start > 0
      invariant start <= |s| && |s| - start <= maxBytes && (maxWidth >= 0 ==> width <= maxWidth)
      invariant WellFormed(s) ==> Boundary(s, start) && width == Width(wcwidth, s[start..])
      decreases start
    {
      var charStart := LastCharStart(s, start);
      assert s[charStart..][..start - charStart] == s[charStart..start];
      var charWidth := StrNWidth(wcwidth, s[charStart..], start - charStart);
      if WellFormed(s) {
        StepBack(wcwidth, s, charStart, start);
      }
      if width + charWidth > maxWidth || |s| - charStart > maxBytes {
        if WellFormed(s) {
          forall e | 0 <= e < start && Boundary(s, e) ensures !Fits(wcwidth, s[e..], maxWidth, maxBytes) {
            NoBoundaryInside(wcwidth, s, charStart, start, e);
            SuffixGrows(wcwidth, s, e, charStart);
          }
        }
        return;
      }
      width := width + charWidth;
      start := charStart;
    }
  }

  /** Taking one more character at the front of a suffix. */
  lemma StepBack(wcwidth: nat -> int, s: Text, charStart: nat, start: nat)
    requires charStart < start <= |s| && Boundary(s, charStart) && IsChar(s[charStart..start])
    ensures Width(wcwidth, s[charStart..]) == Width(wcwidth, s[charStart..start]) + Width(wcwidth, s[start..])
  {
    WidthChar(wcwidth, s[charStart..start]);
    assert s[charStart..] == s[charStart..start] + s[start..];
    WidthConcat(wcwidth, s[charStart..start], s[start..]);
  }

  lemma NoBoundaryInside(wcwidth: nat -> int, s: Text, charStart: nat, start: nat, e: nat)
    requires charStart < start <= |s| && Boundary(s, charStart) && IsChar(s[charStart..start])
    requires WellFormed(s) && Boundary(s, e) && e < start
    ensures e <= charStart
  {
    hide ScanChar, WellFormed, Width;
    if charStart < e {
      SplitAt(wcwidth, s, charStart);
      assert s[charStart..][..start - charStart] == s[charStart..start];
      ScanPrefix(s[charStart..start], s[start..]);
      assert s[charStart..] == s[charStart..start] + s[start..];
      NoBoundaryBetween(wcwidth, s, charStart, start, e);
    }
  }

  /** Longer suffixes are not narrower. */
  lemma SuffixGrows(wcwidth: nat -> int, s: Text, d: nat, e: nat)
    requires d <= e && WellFormed(s) && Boundary(s, d) && Boundary(s, e)
    ensures Width(wcwidth, s[e..]) <= Width(wcwidth, s[d..])
  {
    PrefixGrows(wcwidth, s, d, e);
    SplitAt(wcwidth, s, d);
    SplitAt(wcwidth, s, e);
  }

  /** The second loop of suffix_fitting. */
  method TrimFront(wcwidth: nat -> int, s: Text, start: nat) returns (trimmed: nat)
    requires start <= |s|
    ensures start <= trimmed <= |s|
    ensures WellFormed(s) && Boundary(s, start) ==> TrimmedFront(wcwidth, s, start, trimmed)
  {
    ghost var wf := WellFormed(s) && Boundary(s, start);
    trimmed := start;
    while trimmed < |s|
      invariant start <= trimmed <= |s|
      invariant wf ==> Boundary(s, trimmed) && Width(wcwidth, s[start..trimmed]) == 0
      decreases |s| - trimmed
    {
      var next := NextCharOffset(s, trimmed);
      assert s[trimmed..][..next - trimmed] == s[trimmed..next];
      var charWidth := StrNWidth(wcwidth, s[trimmed..], next - trimmed);
      if wf {
        SplitAt(wcwidth, s, trimmed);
        FirstChar(s[trimmed..]);
        ScanPrefix(s[trimmed..next], s[next..]);
        assert s[trimmed..] == s[trimmed..next] + s[next..];
        WidthChar(wcwidth, s[trimmed..next]);
      }
      if charWidth != 0 {
        return;
      }
      if wf {
        StepForward(wcwidth, s, trimmed, next);
        ZeroWidthGrows(wcwidth, s, start, trimmed, next);
      }
      trimmed := next;
    }
  }

  lemma ZeroWidthGrows(wcwidth: nat -> int, s: Text, start: nat, trimmed: nat, next: nat)
    requires start <= trimmed <= next <= |s| && Boundary(s, start) && Boundary(s, trimmed)
    ensures Width(wcwidth, s[start..next]) == Width(wcwidth, s[start..trimmed]) + Width(wcwidth, s[trimmed..next])
  {
    assert s[..trimmed][..start] == s[..start] && s[..trimmed][start..] == s[start..trimmed];
    SplitAt(wcwidth, s[..trimmed], start);
    assert s[start..next] == s[start..trimmed] + s[trimmed..next];
    WidthConcat(wcwidth, s[start..trimmed], s[trimmed..next]);
  }

  // ---- hstr_strelide

  /** The width as the int the code works with. */
  function MaxColumns(maxWidth: nat): nat {
    if maxWidth > INT_MAX then INT_MAX else maxWidth
  }

  /** The middle is replaced only if the string is too wide, and there is room for more than the dots. */
  predicate NeedsDots(wcwidth: nat -> int, s: Text, maxWidth: nat, maxBytes: nat) {
    Width(wcwidth, s) > MaxColumns(maxWidth) && MaxColumns(maxWidth) > |DOTS| && maxBytes >= |DOTS|
  }

  /** What an elided string looks like: s up to p, or s up to p, the dots, and s from q on. */
  function Assemble(s: Text, dots: bool, p: nat, q: nat): Text
    requires p <= |s| && q <= |s|
  {
    if dots then s[..p] + DOTS + s[q..] else s[..p]
  }

  /** The places where a well-formed string is cut. */
  ghost predicate CutAt(wcwidth: nat -> int, s: Text, maxWidth: nat, maxBytes: nat, p: nat, q: nat) {
    && p <= |s| && q <= |s|
    && if !NeedsDots(wcwidth, s, maxWidth, maxBytes) then LongestPrefix(wcwidth, s, MaxColumns(maxWidth), maxBytes, p)
       else
         && LongestPrefix(wcwidth, s, MaxColumns(maxWidth) / 2 - 1, maxBytes - |DOTS|, p)
         && exists start :: TrimmedFront(wcwidth, s, start, q)
              && LongestSuffix(wcwidth, s, MaxColumns(maxWidth) - Width(wcwidth, s[..p]) - |DOTS|,
                               maxBytes - |DOTS| - p, start)
  }

  /** Where hstr_strelide cuts. The bytes always fit; the cut is exact for a well-formed string. */
  method CutPlaces(wcwidth: nat -> int, s: Text, maxWidth: nat, maxBytes: nat) returns (elide: bool, p: nat, q: nat)
    ensures elide == NeedsDots(wcwidth, s, maxWidth, maxBytes)
    ensures p <= |s| && q <= |s| && |Assemble(s, elide, p, q)| <= maxBytes
    ensures WellFormed(s) ==> CutAt(wcwidth, s, maxWidth, maxBytes, p, q)
  {
    hide ScanChar, Width, WellFormed;
    var maxColumns := MaxColumns(maxWidth);
    var width := StrNWidth(wcwidth, s, |s|);
    assert s[..|s|] == s;
    elide := width > maxColumns && maxColumns > |DOTS| && maxBytes >= |DOTS|;
    if elide {
      p := PrefixFitting(wcwidth, s, maxColumns / 2 - 1, maxBytes - |DOTS|);
      var prefixWidth := StrNWidth(wcwidth, s, p);
      // negative if a malformed prefix measures more as a whole than character by character
      var columns := maxColumns - prefixWidth - |DOTS|;
      var suffixLength := SuffixFitting(wcwidth, s, columns, maxBytes - |DOTS| - p);
      q := |s| - suffixLength;
    } else {
      p := PrefixFitting(wcwidth, s, maxColumns, maxBytes);
      q := |s|;
    }
  }

  /** A string written to the front of a buffer. */
  method CopyTo(buffer: array<Byte>, at: nat, bytes: Text)
    requires at + |bytes| <= buffer.Length
    modifies buffer
    ensures buffer[..at + |bytes|] == old(buffer[..at]) + bytes
    ensures forall i :: at + |bytes| <= i < buffer.Length ==> buffer[i] == old(buffer[i])
  {
    forall i | 0 <= i < |bytes| {
      buffer[at + i] := bytes[i];
    }
  }

  /** The elided string and its terminator. */
  method WriteElided(buffer: array<Byte>, s: Text, elide: bool, p: nat, q: nat)
    requires p <= |s| && q <= |s| && 0 !in s && |Assemble(s, elide, p, q)| < buffer.Length
    modifies buffer
    ensures Holds(buffer, Assemble(s, elide, p, q))
    ensures forall i :: |Assemble(s, elide, p, q)| < i < buffer.Length ==> buffer[i] == old(buffer[i])
  {
    assert 0 !in s[..p] && 0 !in DOTS && 0 !in s[q..];
    CopyTo(buffer, 0, s[..p]);
    var length := p;
    if elide {
      CopyTo(buffer, length, DOTS);
      length := length + |DOTS|;
      CopyTo(buffer, length, s[q..]);
      length := length + |s[q..]|;
    }
    assert buffer[..length] == Assemble(s, elide, p, q);
    buffer[length] := 0;
    assert buffer[..length] == Assemble(s, elide, p, q);
  }

  /** hstr_strelide. No input makes it write past bufferSize; s may be a null pointer. */
  method StrElide(wcwidth: nat -> int, buffer: array<Byte>, bufferSize: nat, s: Option<Text>, maxWidth: nat)
    returns (ghost p: nat, ghost q: nat)
    requires bufferSize <= buffer.Length && (s.Some? ==> 0 !in s.value)
    modifies buffer
    ensures bufferSize == 0 ==> buffer[..] == old(buffer[..])
    ensures bufferSize > 0 && s == None ==> Holds(buffer, [])
    ensures bufferSize > 0 && s.Some? ==>
              && p <= |s.value| && q <= |s.value|
              && var out := Assemble(s.value, NeedsDots(wcwidth, s.value, maxWidth, bufferSize - 1), p, q);
                 Holds(buffer, out) && |out| < bufferSize
    ensures bufferSize > 0 && s.Some? && WellFormed(s.value) ==> CutAt(wcwidth, s.value, maxWidth, bufferSize - 1, p, q)
    ensures bufferSize > 0 && s.Some? && WellFormed(s.value) && maxWidth <= INT_MAX ==>
              && p <= |s.value| && q <= |s.value|
              && if Width(wcwidth, s.value) > maxWidth && maxWidth > 3 && bufferSize > 3
                 then p < q && Holds(buffer, s.value[..p] + DOTS + s.value[q..])
                 else Holds(buffer, s.value[..p])
    ensures forall i :: bufferSize <= i < buffer.Length ==> buffer[i] == old(buffer[i])
  {
    p, q := 0, 0;
    if bufferSize == 0 {
      return;
    }
    buffer[0] := 0;
    if s == None {
      return;
    }
    var elide, prefixLength, suffixStart := CutPlaces(wcwidth, s.value, maxWidth, bufferSize - 1);
    p, q := prefixLength, suffixStart;
    WriteElided(buffer, s.value, elide, prefixLength, suffixStart);
    if WellFormed(s.value) && elide {
      PiecesApart(wcwidth, s.value, maxWidth, bufferSize - 1, p, q);
    }
  }

  // ---- what eliding promises

  /** A prefix of a well-formed string at a boundary is well-formed, and so is the rest. */
  lemma AssembledWidth(wcwidth: nat -> int, s: Text, p: nat, q: nat)
    requires WellFormed(s) && Boundary(s, p) && Boundary(s, q) && Columns(wcwidth, '.' as int) == 1
    ensures WellFormed(Assemble(s, true, p, q))
    ensures Width(wcwidth, Assemble(s, true, p, q)) == Width(wcwidth, s[..p]) + 3 + Width(wcwidth, s[q..])
  {
    SplitAt(wcwidth, s, q);
    var dot: Text := ['.' as int];
    var twoDots: Text := dot + dot;
    WidthChar(wcwidth, dot);
    WidthConcat(wcwidth, dot, dot);
    WidthConcat(wcwidth, twoDots, dot);
    assert DOTS == twoDots + dot;
    WidthConcat(wcwidth, DOTS, s[q..]);
    WidthConcat(wcwidth, s[..p], DOTS + s[q..]);
    assert s[..p] + DOTS + s[q..] == s[..p] + (DOTS + s[q..]);
  }

  /** If dots were put in, they replace a non-empty piece: prefix and suffix do not overlap. */
  lemma PiecesApart(wcwidth: nat -> int, s: Text, maxWidth: nat, maxBytes: nat, p: nat, q: nat)
    requires WellFormed(s) && CutAt(wcwidth, s, maxWidth, maxBytes, p, q) && NeedsDots(wcwidth, s, maxWidth, maxBytes)
    ensures p < q
  {
    var start :| TrimmedFront(wcwidth, s, start, q)
      && LongestSuffix(wcwidth, s, MaxColumns(maxWidth) - Width(wcwidth, s[..p]) - |DOTS|, maxBytes - |DOTS| - p,
                       start);
    SuffixGrows(wcwidth, s, start, q);
    SplitAt(wcwidth, s, q);
    if q <= p {
      PrefixGrows(wcwidth, s, q, p);
      assert false;
    }
  }

  /** An elided well-formed string is well-formed and never wider than asked; if dots were put in, they
      replace a non-empty piece, so prefix and suffix do not overlap. */
  lemma ElidedFits(wcwidth: nat -> int, s: Text, maxWidth: nat, maxBytes: nat, p: nat, q: nat)
    requires WellFormed(s) && CutAt(wcwidth, s, maxWidth, maxBytes, p, q) && Columns(wcwidth, '.' as int) == 1
    ensures var dots := NeedsDots(wcwidth, s, maxWidth, maxBytes);
            && WellFormed(Assemble(s, dots, p, q))
            && Fits(wcwidth, Assemble(s, dots, p, q), maxWidth, maxBytes)
            && (dots ==> p < q)
  {
    if NeedsDots(wcwidth, s, maxWidth, maxBytes) {
      var start :| TrimmedFront(wcwidth, s, start, q)
        && LongestSuffix(wcwidth, s, MaxColumns(maxWidth) - Width(wcwidth, s[..p]) - |DOTS|, maxBytes - |DOTS| - p,
                         start);
      SuffixGrows(wcwidth, s, start, q);
      AssembledWidth(wcwidth, s, p, q);
      PiecesApart(wcwidth, s, maxWidth, maxBytes, p, q);
    }
  }

  /** A well-formed string that fits is not changed. */
  lemma FittingIsKept(wcwidth: nat -> int, s: Text, maxWidth: nat, maxBytes: nat, p: nat, q: nat)
    requires WellFormed(s) && CutAt(wcwidth, s, maxWidth, maxBytes, p, q)
    requires Width(wcwidth, s) <= MaxColumns(maxWidth) && |s| <= maxBytes
    ensures Assemble(s, NeedsDots(wcwidth, s, maxWidth, maxBytes), p, q) == s
  {
    assert s[..|s|] == s;
    assert Boundary(s, |s|) && Fits(wcwidth, s[..|s|], MaxColumns(maxWidth), maxBytes);
  }

  // ---- a plain line

  /** Only printable ASCII, one column each. */
  ghost predicate Plain(wcwidth: nat -> int, s: Text) {
    forall i :: 0 <= i < |s| ==> s[i] < 0x80 && wcwidth(s[i]) == 1
  }

  lemma {:induction false} PlainWidth(wcwidth: nat -> int, s: Text)
    requires Plain(wcwidth, s)
    ensures WellFormed(s) && Width(wcwidth, s) == |s|
  {
    if s != [] {
      PlainWidth(wcwidth, s[1..]);
    }
  }

  lemma PlainPiece(wcwidth: nat -> int, s: Text, i: nat, j: nat)
    requires Plain(wcwidth, s) && i <= j <= |s|
    ensures WellFormed(s[i..j]) && Width(wcwidth, s[i..j]) == j - i
  {
    PlainWidth(wcwidth, s[i..j]);
  }

  lemma PlainPrefix(wcwidth: nat -> int, s: Text, maxWidth: nat, maxBytes: nat, p: nat)
    requires Plain(wcwidth, s) && LongestPrefix(wcwidth, s, maxWidth, maxBytes, p) && maxWidth <= maxBytes
    ensures p == if |s| <= maxWidth then |s| else maxWidth
  {
    hide Plain;
    var e := if |s| <= maxWidth then |s| else maxWidth;
    assert s[0..p] == s[..p] && s[0..e] == s[..e];
    PlainPiece(wcwidth, s, 0, p);
    PlainPiece(wcwidth, s, 0, e);
  }

  lemma PlainSuffix(wcwidth: nat -> int, s: Text, maxWidth: nat, maxBytes: nat, start: nat, q: nat)
    requires Plain(wcwidth, s) && maxWidth <= maxBytes && maxWidth <= |s|
    requires LongestSuffix(wcwidth, s, maxWidth, maxBytes, start) && TrimmedFront(wcwidth, s, start, q)
    ensures q == |s| - maxWidth
  {
    hide Plain;
    var e := |s| - maxWidth;
    assert s[start..|s|] == s[start..] && s[e..|s|] == s[e..] && s[0..e] == s[..e];
    PlainPiece(wcwidth, s, start, |s|);
    PlainPiece(wcwidth, s, e, |s|);
    PlainPiece(wcwidth, s, 0, e);
    PlainPiece(wcwidth, s, start, q);
  }

  /** A plain line that is too wide is shown as exactly maxWidth columns: a little less than half of them from its
      start, the dots, and all others from its end. */
  lemma PlainElided(wcwidth: nat -> int, s: Text, maxWidth: nat, maxBytes: nat, p: nat, q: nat)
    requires Plain(wcwidth, s) && 3 < maxWidth < |s| && maxWidth <= INT_MAX && maxWidth <= maxBytes
    requires CutAt(wcwidth, s, maxWidth, maxBytes, p, q)
    ensures p == maxWidth / 2 - 1 && |s| - q == maxWidth - p - 3
  {
    hide Plain;
    PlainPiece(wcwidth, s, 0, |s|);
    assert s[0..|s|] == s;
    PlainPrefix(wcwidth, s, maxWidth / 2 - 1, maxBytes - |DOTS|, p);
    assert s[0..p] == s[..p];
    PlainPiece(wcwidth, s, 0, p);
    var start :| TrimmedFront(wcwidth, s, start, q)
      && LongestSuffix(wcwidth, s, MaxColumns(maxWidth) - Width(wcwidth, s[..p]) - |DOTS|, maxBytes - |DOTS| - p,
                       start);
    PlainSuffix(wcwidth, s, maxWidth - p - |DOTS|, maxBytes - |DOTS| - p, start, q);
  }

  /** A plain line that fits, or where there is no room for dots, is cut to the columns. */
  lemma PlainCut(wcwidth: nat -> int, s: Text, maxWidth: nat, maxBytes: nat, p: nat, q: nat)
    requires Plain(wcwidth, s) && (maxWidth <= 3 || |s| <= maxWidth) && maxWidth <= INT_MAX && maxWidth <= maxBytes
    requires CutAt(wcwidth, s, maxWidth, maxBytes, p, q)
    ensures p == if |s| <= maxWidth then |s| else maxWidth
  {
    hide Plain;
    PlainPiece(wcwidth, s, 0, |s|);
    assert s[0..|s|] == s;
    PlainPrefix(wcwidth, s, maxWidth, maxBytes, p);
  }

  /** What follows the dots starts with a character that can be seen, so nothing combines with the dots. */
  lemma SuffixIsVisible(wcwidth: nat -> int, s: Text, maxWidth: nat, maxBytes: nat, p: nat, q: nat)
    requires WellFormed(s) && CutAt(wcwidth, s, maxWidth, maxBytes, p, q)
    requires Width(wcwidth, s) > maxWidth && 3 < maxWidth <= INT_MAX && maxBytes >= 3 && q < |s|
    ensures ScanChar(s[q..]).Complete? && wcwidth(ScanChar(s[q..]).code) != 0
  {
  }
}
