/** UTF-8 as mbrtowc reads it in a UTF-8 locale (sections 3 and 4 of RFC 3629), and the display width
    of src/hstr_utils.c. */
module Utf8 {
  import opened Bytes

  // ---- one character

  /** The outcomes of mbrtowc on a non-empty string: a sequence cut short, no sequence, a character. */
  datatype Scan = Incomplete | Invalid | Complete(length: nat, code: nat)

  /** The length a first byte announces; 0 if no character starts with it. */
  function LeadLength(b: Byte): (n: nat)
    ensures n <= 4
  {
    if b < 0x80 then 1
    else if 0xC2 <= b <= 0xDF then 2
    else if 0xE0 <= b <= 0xEF then 3
    else if 0xF0 <= b <= 0xF4 then 4
    else 0
  }

  predicate IsContinuation(b: Byte) {
    0x80 <= b <= 0xBF
  }

  predicate IsLead(b: Byte) {
    0xC0 <= b
  }

  /** b may be byte i of a character that starts with lead: no overlong forms, no surrogates, nothing
      above U+10FFFF. */
  predicate Follows(lead: Byte, i: nat, b: Byte) {
    && IsContinuation(b)
    && (i == 1 ==>
          && (lead == 0xE0 ==> 0xA0 <= b) && (lead == 0xED ==> b <= 0x9F)
          && (lead == 0xF0 ==> 0x90 <= b) && (lead == 0xF4 ==> b <= 0x8F))
  }

  function Code(s: Text, n: nat): nat
    requires 1 <= n <= 4 && n <= |s| && LeadLength(s[0]) == n
    requires forall i :: 1 <= i < n ==> Follows(s[0], i, s[i])
  {
    if n == 1 then s[0]
    else
      assert Follows(s[0], 1, s[1]);
      if n == 2 then Append(s[0] as int - 0xC0, s[1])
      else
        assert Follows(s[0], 2, s[2]);
        if n == 3 then Append(Append(s[0] as int - 0xE0, s[1]), s[2])
        else
          assert Follows(s[0], 3, s[3]);
          Append(Append(Append(s[0] as int - 0xF0, s[1]), s[2]), s[3])
  }

  /** Six more bits. */
  function Append(bits: nat, b: Byte): nat
    requires IsContinuation(b)
  {
    bits * 64 + (b - 0x80)
  }

  function Tail(bits: nat): (b: Byte)
    ensures IsContinuation(b)
  {
    0x80 + bits % 64
  }

  /** mbrtowc from the initial state. */
  function ScanChar(s: Text): (r: Scan)
    requires s != []
    ensures r.Complete? ==> 1 <= r.length <= |s| && r.length <= 4
  {
    var n := LeadLength(s[0]);
    if n == 0 || exists i :: 1 <= i < n && i < |s| && !Follows(s[0], i, s[i]) then Invalid
    else if |s| < n then Incomplete
    else Complete(n, Code(s, n))
  }

  /** The Unicode scalar values. */
  predicate Scalar(code: nat) {
    code < 0xD800 || 0xE000 <= code <= 0x10FFFF
  }

  function Encode(code: nat): (c: Text)
    requires Scalar(code)
    ensures 1 <= |c| <= 4
  {
    if code < 0x80 then [code]
    else if code < 0x800 then [0xC0 + code / 64, Tail(code)]
    else if code < 0x10000 then [0xE0 + code / 64 / 64, Tail(code / 64), Tail(code)]
    else [0xF0 + code / 64 / 64 / 64, Tail(code / 64 / 64), Tail(code / 64), Tail(code)]
  }

  /** Every scalar value is read back from its encoding, whatever follows it. */
  lemma ScanEncode(code: nat, rest: Text)
    requires Scalar(code)
    ensures ScanChar(Encode(code) + rest) == Complete(|Encode(code)|, code)
  {
    var c := Encode(code);
    var s := c + rest;
    assert forall i :: 0 <= i < |c| ==> s[i] == c[i];
    assert LeadLength(c[0]) == |c|;
    forall i | 1 <= i < |c| ensures Follows(s[0], i, s[i]) {
      assert Follows(c[0], i, c[i]);
    }
  }

  lemma EncodeTwo(a: Byte, b: Byte)
    requires LeadLength(a) == 2 && Follows(a, 1, b)
    ensures var code := Append(a as int - 0xC0, b); Scalar(code) && Encode(code) == [a, b]
  {
  }

  lemma EncodeThree(a: Byte, b: Byte, c: Byte)
    requires LeadLength(a) == 3 && Follows(a, 1, b) && Follows(a, 2, c)
    ensures var code := Append(Append(a as int - 0xE0, b), c); Scalar(code) && Encode(code) == [a, b, c]
  {
    hide Encode;
    var y := Append(a as int - 0xE0, b);
    ThreeBytes(a - 0xE0, y, Append(y, c), b, c);
  }

  lemma ThreeBytes(x: nat, y: nat, z: nat, b: Byte, c: Byte)
    requires 0x80 <= b <= 0xBF && 0x80 <= c <= 0xBF && x < 0x10 && 0x20 <= y
    requires y == x * 64 + (b - 0x80) && z == y * 64 + (c - 0x80) && Scalar(z)
    ensures 0x800 <= z < 0x10000 && Encode(z) == [0xE0 + x, b, c]
  {
    assert z / 64 == y && z % 64 == c - 0x80;
    assert y / 64 == x && y % 64 == b - 0x80;
  }

  lemma EncodeFour(a: Byte, b: Byte, c: Byte, d: Byte)
    requires LeadLength(a) == 4 && Follows(a, 1, b) && Follows(a, 2, c) && Follows(a, 3, d)
    ensures var code := Append(Append(Append(a as int - 0xF0, b), c), d); Scalar(code) && Encode(code) == [a, b, c, d]
  {
    hide Encode;
    var y := Append(a as int - 0xF0, b);
    FourBytes(a - 0xF0, y, Append(y, c), Append(Append(y, c), d), b, c, d);
  }

  lemma FourBytes(x: nat, y: nat, z: nat, w: nat, b: Byte, c: Byte, d: Byte)
    requires 0x80 <= b <= 0xBF && 0x80 <= c <= 0xBF && 0x80 <= d <= 0xBF && x <= 4 && 0x10 <= y < 0x110
    requires y == x * 64 + (b - 0x80) && z == y * 64 + (c - 0x80) && w == z * 64 + (d - 0x80)
    ensures 0x10000 <= w <= 0x10FFFF && Encode(w) == [0xF0 + x, b, c, d]
  {
    assert w / 64 == z && w % 64 == d - 0x80;
    assert z / 64 == y && z % 64 == c - 0x80;
    assert y / 64 == x && y % 64 == b - 0x80;
  }

  /** Only encodings of scalar values are read as characters. */
  lemma EncodeScan(s: Text)
    requires s != [] && ScanChar(s).Complete?
    ensures var r := ScanChar(s); Scalar(r.code) && Encode(r.code) == s[..r.length]
  {
    hide Follows, Append;
    var n := LeadLength(s[0]);
    assert forall i :: 1 <= i < n ==> Follows(s[0], i, s[i]);
    if n == 2 {
      EncodeTwo(s[0], s[1]);
    } else if n == 3 {
      EncodeThree(s[0], s[1], s[2]);
    } else if n == 4 {
      EncodeFour(s[0], s[1], s[2], s[3]);
    }
  }

  /** c is one character. */
  predicate IsChar(c: Text) {
    c != [] && ScanChar(c).Complete? && ScanChar(c).length == |c|
  }

  /** What follows a character does not matter. */
  lemma ScanPrefix(c: Text, rest: Text)
    requires IsChar(c)
    ensures ScanChar(c + rest) == ScanChar(c)
  {
    var s := c + rest;
    assert forall i :: 0 <= i < |c| ==> s[i] == c[i];
  }

  /** A character that is cut short is incomplete, not invalid. */
  lemma ScanCut(c: Text, k: nat)
    requires IsChar(c) && 0 < k < |c|
    ensures ScanChar(c[..k]) == Incomplete
  {
    assert forall i :: 0 <= i < k ==> c[..k][i] == c[i];
  }

  /** The bytes of a character: no continuation first, then only continuations. */
  lemma CharBytes(c: Text)
    requires IsChar(c)
    ensures |c| <= 4 && !IsContinuation(c[0]) && forall i :: 1 <= i < |c| ==> IsContinuation(c[i])
    ensures |c| > 1 ==> IsLead(c[0])
  {
    assert forall i :: 1 <= i < |c| ==> Follows(c[0], i, c[i]);
  }

  // ---- strings

  /** The string is a sequence of characters. */
  predicate WellFormed(s: Text) {
    s == [] || (ScanChar(s).Complete? && WellFormed(s[ScanChar(s).length..]))
  }

  /** The columns of a character; wcwidth gives -1 for one that is not printable. */
  function Columns(wcwidth: nat -> int, code: nat): nat {
    if wcwidth(code) < 0 then 1 else wcwidth(code)
  }

  /** The display width: an incomplete last sequence is not counted, an invalid byte is one column. */
  function Width(wcwidth: nat -> int, s: Text): nat {
    if s == [] then 0
    else match ScanChar(s)
      case Incomplete => 0
      case Invalid => 1 + Width(wcwidth, s[1..])
      case Complete(length, code) => Columns(wcwidth, code) + Width(wcwidth, s[length..])
  }

  /** hstr_strnwidth. */
  method StrNWidth(wcwidth: nat -> int, s: Text, n: nat) returns (width: nat)
    requires n <= |s|
    ensures width == Width(wcwidth, s[..n])
  {
    width := 0;
    var i: nat := 0;
    assert s[..n] == s[0..n];
    while i < n
      invariant i <= n && width + Width(wcwidth, s[i..n]) == Width(wcwidth, s[..n])
      decreases n - i
    {
      var rest := s[i..n];
      match ScanChar(rest) {
        case Incomplete =>
          return;
        case Invalid =>
          assert rest[1..] == s[i + 1..n];
          width, i := width + 1, i + 1;
        case Complete(length, code) =>
          assert rest[length..] == s[i + length..n];
          width, i := width + Columns(wcwidth, code), i + length;
      }
    }
  }

  /** A character that is read is a character on its own. */
  lemma CharTaken(s: Text)
    requires s != [] && ScanChar(s).Complete?
    ensures IsChar(s[..ScanChar(s).length])
  {
    hide Follows, Code;
    var n := ScanChar(s).length;
    var t := s[..n];
    assert |t| == n == LeadLength(t[0]) && t[0] == s[0];
    forall i | 1 <= i < n ensures Follows(t[0], i, t[i]) {
      assert t[i] == s[i] && Follows(s[0], i, s[i]);
    }
  }

  /** The first character of a well-formed string. */
  lemma FirstChar(s: Text)
    requires s != [] && WellFormed(s)
    ensures var n := ScanChar(s).length; 1 <= n <= |s| && IsChar(s[..n]) && WellFormed(s[n..]) && s == s[..n] + s[n..]
  {
    hide ScanChar, IsChar;
    CharTaken(s);
  }

  /** Width and well-formedness add up after a well-formed prefix. */
  lemma {:induction false} WidthConcat(wcwidth: nat -> int, a: Text, b: Text)
    requires WellFormed(a)
    ensures Width(wcwidth, a + b) == Width(wcwidth, a) + Width(wcwidth, b)
    ensures WellFormed(a + b) <==> WellFormed(b)
  {
    if a == [] {
      assert a + b == b;
    } else {
      var n := ScanChar(a).length;
      FirstChar(a);
      assert a + b == a[..n] + (a[n..] + b);
      ScanPrefix(a[..n], a[n..]);
      ScanPrefix(a[..n], a[n..] + b);
      assert (a + b)[n..] == a[n..] + b;
      WidthConcat(wcwidth, a[n..], b);
    }
  }

  /** A character on its own. */
  lemma WidthChar(wcwidth: nat -> int, c: Text)
    requires IsChar(c)
    ensures WellFormed(c) && Width(wcwidth, c) == Columns(wcwidth, ScanChar(c).code)
  {
    assert c[|c|..] == [];
  }

  /** e is a place between two characters of s, or one of its ends. */
  predicate Boundary(s: Text, e: nat) {
    e <= |s| && WellFormed(s[..e])
  }

  /** After a boundary the string goes on well-formed, and widths add up. */
  lemma SplitAt(wcwidth: nat -> int, s: Text, e: nat)
    requires Boundary(s, e)
    ensures WellFormed(s) <==> WellFormed(s[e..])
    ensures Width(wcwidth, s) == Width(wcwidth, s[..e]) + Width(wcwidth, s[e..])
  {
    assert s == s[..e] + s[e..];
    WidthConcat(wcwidth, s[..e], s[e..]);
  }

  /** The next boundary after the start of a well-formed string is the end of its first character. */
  lemma BoundaryAfterChar(s: Text, e: nat)
    requires WellFormed(s) && Boundary(s, e) && e > 0
    ensures ScanChar(s).length <= e
  {
    assert s[..e][0] == s[0];
  }

  /** The last character of a well-formed string, and where it starts. */
  lemma {:induction false} LastChar(s: Text) returns (c: nat)
    requires s != [] && WellFormed(s)
    ensures c < |s| && Boundary(s, c) && IsChar(s[c..])
    decreases |s|
  {
    hide IsChar, Width;
    var n := ScanChar(s).length;
    FirstChar(s);
    if n == |s| {
      c := 0;
      assert s[..n] == s && s[0..] == s;
    } else {
      var d := LastChar(s[n..]);
      c := n + d;
      assert s[c..] == s[n..][d..] && s[..c] == s[..n] + s[n..][..d];
      WidthConcat(_ => 0, s[..n], s[n..][..d]);
      WidthChar(_ => 0, s[..n]);
    }
  }

  // ---- the width of text

  /** The text of some code points. */
  function EncodeAll(codes: seq<nat>): Text
    requires forall i :: 0 <= i < |codes| ==> Scalar(codes[i])
  {
    if codes == [] then [] else Encode(codes[0]) + EncodeAll(codes[1..])
  }

  function Sum(widths: seq<nat>): nat {
    if widths == [] then 0 else widths[0] + Sum(widths[1..])
  }

  /** Text is as wide as its characters, where one that is not printable counts for one column. */
  lemma {:induction false} TextWidth(wcwidth: nat -> int, codes: seq<nat>)
    requires forall i :: 0 <= i < |codes| ==> Scalar(codes[i])
    ensures WellFormed(EncodeAll(codes))
    ensures Width(wcwidth, EncodeAll(codes))
         == Sum(seq(|codes|, i requires 0 <= i < |codes| => if wcwidth(codes[i]) < 0 then 1 else wcwidth(codes[i])))
  {
    var widths := seq(|codes|, i requires 0 <= i < |codes| => if wcwidth(codes[i]) < 0 then 1 else wcwidth(codes[i]));
    if codes != [] {
      var rest := codes[1..];
      TextWidth(wcwidth, rest);
      assert widths[1..]
          == seq(|rest|, i requires 0 <= i < |rest| => if wcwidth(rest[i]) < 0 then 1 else wcwidth(rest[i]));
      ScanEncode(codes[0], EncodeAll(rest));
      assert (Encode(codes[0]) + EncodeAll(rest))[|Encode(codes[0])|..] == EncodeAll(rest);
    }
  }

  /** A byte that no character starts with is one column, and a character cut short at the end is none. */
  lemma BrokenWidth(wcwidth: nat -> int, b: Byte, rest: Text, c: Text, k: nat)
    requires 0x80 <= b < 0xC2 || 0xF5 <= b
    requires IsChar(c) && 0 < k < |c|
    ensures Width(wcwidth, [b] + rest) == 1 + Width(wcwidth, rest)
    ensures Width(wcwidth, c[..k]) == 0
  {
    ScanCut(c, k);
    assert ([b] + rest)[1..] == rest;
  }

  /** The part of a string before a place is never wider than the string, whatever its bytes. */
  lemma {:induction false} PrefixNotWider(wcwidth: nat -> int, s: Text, e: nat)
    requires e <= |s|
    ensures Width(wcwidth, s[..e]) <= Width(wcwidth, s)
    decreases |s|
  {
    if e > 0 {
      PrefixScan(s, e);
      match ScanChar(s[..e]) {
        case Incomplete =>
        case Invalid =>
          assert s[..e][1..] == s[1..][..e - 1];
          PrefixNotWider(wcwidth, s[1..], e - 1);
        case Complete(n, code) =>
          assert s[..e][n..] == s[n..][..e - n];
          PrefixNotWider(wcwidth, s[n..], e - n);
      }
    }
  }

  /** The start of a string is read like the string, or is cut short. */
  lemma PrefixScan(s: Text, e: nat)
    requires 0 < e <= |s|
    ensures ScanChar(s[..e]) == Incomplete || ScanChar(s[..e]) == ScanChar(s)
  {
    hide Follows;
    var t := s[..e];
    assert forall i :: 0 <= i < e ==> t[i] == s[i];
  }
}
