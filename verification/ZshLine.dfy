/** History lines of src/hstr_history.c and src/hstr_utils.c: Bash timestamps, the zsh extended
    history prefix, and the metafied bytes of zsh. */
module ZshLine {
  import opened Bytes

  const ZSH_META: Byte := 0x83
  const ZSH_HISTORY_EXT_DIGITS: nat := 10

  // ---- metafied bytes

  /** b ^ 32, by the value of the bit. */
  function Xor32(b: Byte): (r: Byte)
    ensures r == 0 <==> b == 32
  {
    if b / 32 % 2 == 1 then b - 32 else b + 32
  }

  /** For every byte this is the exclusive or. */
  lemma Xor32IsXor(b: bv8)
    ensures Xor32(b as int) == (b ^ 32) as int
  {
  }

  /** Every Meta byte is followed by the code of a byte other than NUL. */
  predicate Metafied(s: Text) {
    if s == [] then true
    else if s[0] == ZSH_META then |s| >= 2 && s[1] != 32 && Metafied(s[2..])
    else Metafied(s[1..])
  }

  function Unmetafy(s: Text): (r: Text)
    ensures |r| <= |s|
  {
    if s == [] then []
    else if s[0] == ZSH_META && |s| >= 2 then [Xor32(s[1])] + Unmetafy(s[2..])
    else [s[0]] + Unmetafy(s[1..])
  }

  /** What zsh writes: the bytes that meta picks are preceded by Meta and flipped. */
  function Metafy(meta: Byte -> bool, s: Text): Text {
    if s == [] then []
    else (if meta(s[0]) then [ZSH_META, Xor32(s[0])] else [s[0]]) + Metafy(meta, s[1..])
  }

  /** Unmetafying undoes metafying, as long as Meta itself is metafied. */
  lemma {:induction false} UnmetafyMetafy(meta: Byte -> bool, s: Text)
    requires meta(ZSH_META) && 0 !in s
    ensures Metafied(Metafy(meta, s)) && Unmetafy(Metafy(meta, s)) == s
  {
    if s != [] {
      UnmetafyMetafy(meta, s[1..]);
      var m := Metafy(meta, s);
      if meta(s[0]) {
        assert m[2..] == Metafy(meta, s[1..]);
        assert Xor32(Xor32(s[0])) == s[0] && Xor32(s[0]) != 32;
      } else {
        assert m[1..] == Metafy(meta, s[1..]);
      }
    }
  }

  lemma {:induction false} UnmetafyWithoutMeta(s: Text)
    requires ZSH_META !in s
    ensures Unmetafy(s) == s && Metafied(s)
  {
    if s != [] {
      UnmetafyWithoutMeta(s[1..]);
    }
  }

  lemma {:induction false} UnmetafyAfterPlain(s: Text, p: nat)
    requires p <= |s| && ZSH_META !in s[..p]
    ensures Unmetafy(s) == s[..p] + Unmetafy(s[p..]) && (Metafied(s) <==> Metafied(s[p..]))
  {
    if p > 0 {
      assert s[0] in s[..p] && s[1..][..p - 1] == s[..p][1..] && s[1..][p - 1..] == s[p..];
      UnmetafyAfterPlain(s[1..], p - 1);
    }
  }

  /** Decoding a metafied string leaves no NUL. */
  lemma {:induction false} UnmetafyNoNul(s: Text)
    requires 0 !in s && Metafied(s)
    ensures 0 !in Unmetafy(s)
  {
    if s != [] {
      UnmetafyNoNul(if s[0] == ZSH_META then s[2..] else s[1..]);
    }
  }

  /** The buffer holds s and its terminator. */
  ghost predicate Holds(a: array<Byte>, s: Text)
    reads a
  {
    |s| < a.Length && a[..|s|] == s && a[|s|] == 0 && 0 !in s
  }

  /** zsh_unmetafy: decodes the string in its own buffer. */
  method UnmetafyInPlace(a: array<Byte>, ghost s: Text) returns (len: nat)
    requires Holds(a, s) && Metafied(s)
    modifies a
    ensures len == |Unmetafy(s)| && Holds(a, Unmetafy(s))
  {
    UnmetafyNoNul(s);
    var p: nat := 0;
    while a[p] != 0 && a[p] != ZSH_META
      invariant p <= |s| && ZSH_META !in s[..p]
      decreases |s| - p
    {
      assert s[p] == a[..|s|][p];
      p := p + 1;
    }
    UnmetafyAfterPlain(s, p);
    assert a[p..|s|] == s[p..] && a[..p] == s[..p];
    len := DecodeFrom(a, s, p);
  }

  /** Decoding got as far as p, and done is what it gave. */
  ghost predicate DecodedTo(s: Text, p: nat, done: Text) {
    p <= |s| && Metafied(s[p..]) && Unmetafy(s) == done + Unmetafy(s[p..])
  }

  lemma DecodeOne(s: Text, p: nat, done: Text)
    requires DecodedTo(s, p, done) && p < |s| && 0 !in s
    ensures s[p] != 0
    ensures s[p] == ZSH_META ==> p + 1 < |s| && DecodedTo(s, p + 2, done + [Xor32(s[p + 1])])
    ensures s[p] != ZSH_META ==> DecodedTo(s, p + 1, done + [s[p]])
  {
    assert s[p..][1..] == s[p + 1..] && s[p] in s;
    if s[p] == ZSH_META {
      assert s[p..][2..] == s[p + 2..];
    }
  }

  lemma DecodedAll(s: Text, done: Text)
    requires DecodedTo(s, |s|, done)
    ensures Unmetafy(s) == done
  {
  }

  /** The second loop of zsh_unmetafy: reads at p, writes at t. */
  method DecodeFrom(a: array<Byte>, ghost s: Text, start: nat) returns (t: nat)
    requires start <= |s| < a.Length && a[|s|] == 0 && 0 !in s && a[start..|s|] == s[start..]
    requires DecodedTo(s, start, a[..start])
    modifies a
    ensures t == |Unmetafy(s)| && a[..t] == Unmetafy(s) && a[t] == 0
  {
    hide DecodedTo, Unmetafy, Metafied;
    assert forall k :: start <= k < |s| ==> a[k] == a[start..|s|][k - start] == s[k];
    var p := start;
    t := start;
    ghost var done := a[..start];
    while true
      invariant t == |done| <= p <= |s| && a[|s|] == 0
      invariant forall k :: 0 <= k < t ==> a[k] == done[k]
      invariant forall k :: p <= k < |s| ==> a[k] == s[k]
      invariant DecodedTo(s, p, done)
      decreases |s| - p
    {
      if p < |s| {
        DecodeOne(s, p, done);
      }
      a[t] := a[p];
      p := p + 1;
      if a[t] == 0 {
        break;
      }
      t := t + 1;
      if a[t - 1] == ZSH_META {
        a[t - 1] := Xor32(a[p]);
        p := p + 1;
      }
      done := done + [a[t - 1]];
    }
    DecodedAll(s, done);
    assert a[..t] == done;
  }

  // ---- timestamps

  /** A line of Bash's HISTTIMEFORMAT: '#' and at least ten digits. */
  predicate IsTimestamp(line: Text) {
    |line| >= 11 && line[0] == '#' as int && AllDigits(line[1..])
  }

  /** is_hist_timestamp. */
  method IsHistTimestamp(line: Text) returns (r: bool)
    ensures r == IsTimestamp(line)
  {
    if line == [] || line[0] != '#' as int {
      return false;
    }
    var i := 1;
    while i < |line|
      invariant 1 <= i <= |line| && forall k :: 1 <= k < i ==> IsDigit(line[k])
    {
      if !IsDigit(line[i]) {
        assert line[1..][i - 1] == line[i];
        return false;
      }
      i := i + 1;
    }
    return i >= 11;
  }

  // ---- the extended history prefix

  /** The first index from i on that is not a digit. */
  function AfterDigits(line: Text, i: nat): (k: nat)
    requires i <= |line|
    ensures i <= k <= |line| && forall m :: i <= m < k ==> IsDigit(line[m])
    ensures k < |line| ==> !IsDigit(line[k])
    decreases |line| - i
  {
    if i < |line| && IsDigit(line[i]) then AfterDigits(line, i + 1) else i
  }

  /** The line is ": <ten digits>:<digits>;" and then a command. */
  predicate Prefixed(line: Text) {
    && |line| > 13 && line[0] == ':' as int && line[1] == ' ' as int
    && (forall i :: 2 <= i < 12 ==> IsDigit(line[i])) && line[12] == ':' as int
    && var k := AfterDigits(line, 13);
       13 < k < |line| && line[k] == ';' as int
  }

  /** The command of a line of a Bash or a zsh history. */
  function CommandOf(isZsh: bool, line: Text): (command: Text)
    ensures |command| <= |line|
  {
    if isZsh && Prefixed(line) then line[AfterDigits(line, 13) + 1..] else line
  }

  /** parse_history_line. */
  method ParseHistoryLine(line: Text, isZsh: bool) returns (command: Text)
    ensures command == CommandOf(isZsh, line)
  {
    if !isZsh || |line| < 2 || line[0] != ':' as int || line[1] != ' ' as int {
      return line;
    }
    var pt: nat, u: nat := 2, 0;
    while u < ZSH_HISTORY_EXT_DIGITS && pt < |line| && IsDigit(line[pt])
      invariant u <= ZSH_HISTORY_EXT_DIGITS && pt == 2 + u <= |line|
      invariant forall i :: 2 <= i < pt ==> IsDigit(line[i])
    {
      u, pt := u + 1, pt + 1;
    }
    if u == ZSH_HISTORY_EXT_DIGITS && pt < |line| && line[pt] == ':' as int {
      pt := pt + 1;
      while pt < |line| && IsDigit(line[pt])
        invariant 13 <= pt <= |line| && AfterDigits(line, 13) == AfterDigits(line, pt)
        invariant pt > 13 ==> !(pt < |line| && line[pt] == ';' as int)
      {
        pt := pt + 1;
        if pt < |line| && line[pt] == ';' as int {
          return line[pt + 1..];
        }
      }
    }
    return line;
  }

  /** line is the extended form of command: start time, elapsed time, command. */
  ghost predicate ExtendedForm(line: Text, start: Text, elapsed: Text, command: Text) {
    && |start| == ZSH_HISTORY_EXT_DIGITS && AllDigits(start) && elapsed != [] && AllDigits(elapsed)
    && line == [':' as int, ' ' as int] + start + [':' as int] + elapsed + [';' as int] + command
  }

  /** A prefix is found exactly where there is one, and then all of it is skipped. */
  lemma ExtendedIsParsed(line: Text, start: Text, elapsed: Text, command: Text)
    requires ExtendedForm(line, start, elapsed, command)
    ensures Prefixed(line) && CommandOf(true, line) == command
  {
    var k := 13 + |elapsed|;
    assert forall i :: 2 <= i < 12 ==> line[i] == start[i - 2];
    assert line[12] == ':' as int;
    assert forall i :: 13 <= i < k ==> line[i] == elapsed[i - 13];
    assert line[k] == ';' as int && line[k + 1..] == command;
    AfterDigitsIs(line, 13, k);
  }

  lemma {:induction false} AfterDigitsIs(line: Text, i: nat, k: nat)
    requires i <= k < |line| && !IsDigit(line[k]) && forall m :: i <= m < k ==> IsDigit(line[m])
    ensures AfterDigits(line, i) == k
    decreases k - i
  {
    if i < k {
      AfterDigitsIs(line, i + 1, k);
    }
  }

  lemma ParsedIsExtended(line: Text)
    requires Prefixed(line)
    ensures ExtendedForm(line, line[2..12], line[13..AfterDigits(line, 13)], CommandOf(true, line))
  {
    var k := AfterDigits(line, 13);
    assert line == line[..2] + line[2..12] + line[12..13] + line[13..k] + line[k..k + 1] + line[k + 1..];
    assert line[..2] == [':' as int, ' ' as int] && line[12..13] == [':' as int] && line[k..k + 1] == [';' as int];
  }

  // ---- the command a line stands for

  function Decode(isZsh: bool, line: Text): Text {
    if isZsh then Unmetafy(CommandOf(isZsh, line)) else line
  }

  /** What the code needs of a zsh history: no broken Meta sequence in any command. */
  ghost predicate Readable(isZsh: bool, line: Text) {
    0 !in line && (isZsh ==> Metafied(CommandOf(isZsh, line)))
  }

  /** The copy and decode step shared by loading and deleting: only a command with a Meta byte
      is copied, yet the result is always the decoded command. */
  method DecodeLine(line: Text, isZsh: bool) returns (command: Text)
    requires Readable(isZsh, line)
    ensures command == Decode(isZsh, line)
  {
    command := ParseHistoryLine(line, isZsh);
    if isZsh && ZSH_META in command {
      var buffer := new Byte[|command| + 1](i => if 0 <= i < |command| then command[i] else 0);
      assert buffer[..|command|] == command;
      var len := UnmetafyInPlace(buffer, command);
      command := buffer[..len];
    } else if isZsh {
      UnmetafyWithoutMeta(command);
    }
  }

  /** history_line_equals. */
  method HistoryLineEquals(line: Text, cmd: Text, isZsh: bool) returns (equals: bool)
    requires Readable(isZsh, line)
    ensures equals == (Decode(isZsh, line) == cmd)
  {
    var command := DecodeLine(line, isZsh);
    equals := command == cmd;
  }

  /** A line zsh wrote for command c matches exactly the command c. */
  lemma ExtendedLineMatches(meta: Byte -> bool, start: Text, elapsed: Text, c: Text, d: Text, line: Text)
    requires meta(ZSH_META) && 0 !in c
    requires ExtendedForm(line, start, elapsed, Metafy(meta, c))
    ensures Decode(true, line) == d <==> c == d
  {
    ExtendedIsParsed(line, start, elapsed, Metafy(meta, c));
    UnmetafyMetafy(meta, c);
  }

  lemma TimestampStandsForItself(isZsh: bool, line: Text)
    requires IsTimestamp(line)
    ensures Decode(isZsh, line) == line
  {
    forall i | 0 <= i < |line| ensures line[i] != ZSH_META {
      assert i > 0 ==> line[i] == line[1..][i - 1];
    }
    UnmetafyWithoutMeta(line);
  }

  /** Outside zsh every line is its own command, and in zsh a line without a prefix and without Meta bytes is. */
  lemma PlainLineIsCommand(isZsh: bool, line: Text)
    requires isZsh ==>
               ZSH_META !in line && forall start, elapsed, command :: !ExtendedForm(line, start, elapsed, command)
    ensures Decode(isZsh, line) == line
  {
    if isZsh {
      UnmetafyWithoutMeta(line);
      if Prefixed(line) {
        ParsedIsExtended(line);
        assert false;
      }
    }
  }

  /** A timestamp is a hash sign and at least ten digits, and nothing else. */
  lemma TimestampForm(line: Text)
    ensures IsTimestamp(line) <==>
              exists digits: Text :: line == ['#' as int] + digits && |digits| >= 10 && AllDigits(digits)
  {
    if line != [] {
      assert line == [line[0]] + line[1..];
    }
  }
}
