/** Bytes, NUL-free strings of bytes, and the few facts about sequences that every part shares. */
module Bytes {
  type Byte = b: int | 0 <= b < 256

  /** A C string: its bytes before the terminating NUL. */
  type Text = seq<Byte>

  datatype Option<+T> = None | Some(value: T)
  {
    function GetOr(default: T): T {
      if Some? then value else default
    }
  }

  ghost predicate Distinct<T>(s: seq<T>) {
    forall i, j :: 0 <= i < j < |s| ==> s[i] != s[j]
  }

  ghost function ToSet<T>(s: seq<T>): set<T> {
    set x | x in s
  }

  lemma {:induction false} DistinctCard<T>(s: seq<T>)
    requires Distinct(s)
    ensures |ToSet(s)| == |s|
  {
    if s != [] {
      DistinctCard(s[1..]);
      assert ToSet(s) == {s[0]} + ToSet(s[1..]);
      assert s[0] !in s[1..];
    }
  }

  lemma DistinctConcat<T>(a: seq<T>, b: seq<T>)
    requires Distinct(a) && Distinct(b) && forall x :: x in a ==> x !in b
    ensures Distinct(a + b)
  {
    forall i, j | 0 <= i < j < |a + b| ensures (a + b)[i] != (a + b)[j] {
      if i < |a| <= j {
        assert a[i] in a && b[j - |a|] in b;
      }
    }
  }

  /** The elements that satisfy a predicate, in order. */
  function Filter<T>(keep: T -> bool, s: seq<T>): (r: seq<T>)
    ensures |r| <= |s|
  {
    if s == [] then []
    else if keep(s[0]) then [s[0]] + Filter(keep, s[1..])
    else Filter(keep, s[1..])
  }

  lemma {:induction false} FilterHas<T(!new)>(keep: T -> bool, s: seq<T>)
    ensures forall x :: x in Filter(keep, s) <==> x in s && keep(x)
  {
    if s != [] {
      FilterHas(keep, s[1..]);
      assert s == [s[0]] + s[1..];
    }
  }

  lemma {:induction false} FilterAll<T>(keep: T -> bool, s: seq<T>)
    requires forall x :: x in s ==> keep(x)
    ensures Filter(keep, s) == s
  {
    if s != [] {
      FilterAll(keep, s[1..]);
    }
  }

  lemma FilterHead<T>(keep: T -> bool, head: T, rest: seq<T>)
    ensures Filter(keep, [head] + rest) == if keep(head) then [head] + Filter(keep, rest) else Filter(keep, rest)
  {
    assert ([head] + rest)[1..] == rest;
  }

  lemma FilterNone<T>(keep: T -> bool, s: seq<T>)
    requires s == []
    ensures Filter(keep, s) == []
  {
  }

  lemma {:induction false} FilterConcat<T>(keep: T -> bool, a: seq<T>, b: seq<T>)
    ensures Filter(keep, a + b) == Filter(keep, a) + Filter(keep, b)
  {
    hide Filter;
    if a == [] {
      FilterNone(keep, a);
      assert a + b == b;
    } else {
      FilterConcat(keep, a[1..], b);
      FilterHead(keep, a[0], a[1..]);
      FilterHead(keep, a[0], a[1..] + b);
      assert a == [a[0]] + a[1..] && a + b == [a[0]] + (a[1..] + b);
      ConcatAssociates([a[0]], Filter(keep, a[1..]), Filter(keep, b));
    }
  }

  lemma ConcatAssociates<T>(a: seq<T>, b: seq<T>, c: seq<T>)
    ensures (a + b) + c == a + (b + c)
  {
  }

  lemma {:induction false} FilterSnoc<T>(keep: T -> bool, s: seq<T>, x: T)
    ensures Filter(keep, s + [x]) == if keep(x) then Filter(keep, s) + [x] else Filter(keep, s)
  {
    FilterConcat(keep, s, [x]);
    assert [x][1..] == [];
  }

  lemma {:induction false} FilterDistinct<T(!new)>(keep: T -> bool, s: seq<T>)
    requires Distinct(s)
    ensures Distinct(Filter(keep, s))
  {
    if s != [] {
      FilterDistinct(keep, s[1..]);
      FilterHas(keep, s[1..]);
      assert s[0] !in s[1..];
    }
  }

  /** The lines other than cmd, in order: what is left of a list when cmd is deleted. */
  function Others(lines: seq<Text>, cmd: Text): seq<Text> {
    Filter((line: Text) => line != cmd, lines)
  }

  lemma OthersHas(lines: seq<Text>, cmd: Text)
    ensures forall x :: x in Others(lines, cmd) <==> x in lines && x != cmd
  {
    FilterHas((line: Text) => line != cmd, lines);
  }

  lemma OthersSnoc(lines: seq<Text>, line: Text, cmd: Text)
    ensures Others(lines + [line], cmd) == if line != cmd then Others(lines, cmd) + [line] else Others(lines, cmd)
  {
    FilterSnoc((x: Text) => x != cmd, lines, line);
  }

  lemma OthersHead(head: Text, rest: seq<Text>, cmd: Text)
    ensures Others([head] + rest, cmd) == if head != cmd then [head] + Others(rest, cmd) else Others(rest, cmd)
  {
    FilterHead((line: Text) => line != cmd, head, rest);
  }

  lemma OthersDistinct(lines: seq<Text>, cmd: Text)
    requires Distinct(lines)
    ensures Distinct(Others(lines, cmd))
  {
    FilterDistinct((line: Text) => line != cmd, lines);
  }

  /** Deleting shortens a list exactly if the command is in it. */
  lemma {:induction false} OthersFewer(lines: seq<Text>, cmd: Text)
    ensures if cmd in lines then |Others(lines, cmd)| < |lines| else Others(lines, cmd) == lines
  {
    if lines != [] {
      OthersFewer(lines[1..], cmd);
      assert lines == [lines[0]] + lines[1..];
    }
  }

  lemma OthersConcat(a: seq<Text>, b: seq<Text>, cmd: Text)
    ensures Others(a + b, cmd) == Others(a, cmd) + Others(b, cmd)
  {
    FilterConcat((line: Text) => line != cmd, a, b);
  }

  predicate IsDigit(b: Byte) {
    '0' as int <= b <= '9' as int
  }

  predicate AllDigits(s: Text) {
    forall i :: 0 <= i < |s| ==> IsDigit(s[i])
  }

  /** strlen, or the size of the buffer if it holds no terminator. */
  function StrLen(bytes: Text): (n: nat)
    ensures n <= |bytes| && 0 !in bytes[..n] && (n < |bytes| ==> bytes[n] == 0)
  {
    if bytes == [] || bytes[0] == 0 then 0
    else
      var n := StrLen(bytes[1..]);
      assert bytes[..n + 1] == [bytes[0]] + bytes[1..][..n];
      n + 1
  }

  /** The first occurrences, in order. */
  function Dedup<T(==)>(s: seq<T>): (r: seq<T>) {
    if s == [] then []
    else
      var n := |s| - 1;
      if s[n] in Dedup(s[..n]) then Dedup(s[..n]) else Dedup(s[..n]) + [s[n]]
  }

  lemma {:induction false} DedupDistinct<T>(s: seq<T>)
    ensures Distinct(Dedup(s)) && forall x :: x in Dedup(s) <==> x in s
  {
    if s != [] {
      DedupDistinct(s[..|s| - 1]);
      assert s == s[..|s| - 1] + [s[|s| - 1]];
    }
  }

  lemma {:induction false} DedupOfDistinct<T>(s: seq<T>)
    requires Distinct(s)
    ensures Dedup(s) == s
  {
    if s != [] {
      DedupOfDistinct(s[..|s| - 1]);
    }
  }

  lemma DedupSnoc<T>(s: seq<T>, x: T)
    ensures Dedup(s + [x]) == if x in Dedup(s) then Dedup(s) else Dedup(s) + [x]
  {
    assert (s + [x])[..|s|] == s;
  }

  /** What b adds to the first occurrences of a comes after them and is new. */
  lemma {:induction false} DedupConcat<T>(a: seq<T>, b: seq<T>) returns (more: seq<T>)
    ensures Dedup(a + b) == Dedup(a) + more && forall x :: x in more ==> x in b && x !in a
  {
    if b == [] {
      assert a + b == a;
      more := [];
    } else {
      var n := |b| - 1;
      more := DedupConcat(a, b[..n]);
      assert a + b == (a + b[..n]) + [b[n]];
      DedupSnoc(a + b[..n], b[n]);
      DedupDistinct(a);
      assert forall x :: x in more ==> x in b[..n];
      if b[n] !in Dedup(a + b[..n]) {
        assert (Dedup(a) + more) + [b[n]] == Dedup(a) + (more + [b[n]]);
        more := more + [b[n]];
      }
    }
  }

  /** Deleting and dropping duplicates can change places. */
  lemma {:induction false} DedupOthers(s: seq<Text>, x: Text)
    ensures Dedup(Others(s, x)) == Others(Dedup(s), x)
    decreases |s|
  {
    hide Others;
    if s == [] {
      OthersFewer([], x);
    } else {
      var n := |s| - 1;
      assert s == s[..n] + [s[n]];
      DedupOthers(s[..n], x);
      OthersSnoc(s[..n], s[n], x);
      DedupSnoc(s[..n], s[n]);
      DedupSnoc(Others(s[..n], x), s[n]);
      OthersSnoc(Dedup(s[..n]), s[n], x);
      OthersHas(Dedup(s[..n]), x);
    }
  }
}
