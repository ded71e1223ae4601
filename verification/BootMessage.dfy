/** The text that recovery keeps in the bootloader control block: its arguments, one per line,
    parsed at the start of every run and written back before anything else happens. */
module BootMessage {
  import opened Bytes

  type Text = seq<byte>

  const NL: byte := 10
  const CR: byte := 13
  const RECOVERY: Text := [114, 101, 99, 111, 118, 101, 114, 121]
  const MAX_ARGS := 100

  // ---------------------------------------------------------------- C strings

  /** The characters in front of the first NUL. */
  function CStr(s: seq<byte>): (t: Text)
    ensures 0 !in t && t <= s
    ensures |t| < |s| ==> s[|t|] == 0
  {
    if s == [] || s[0] == 0 then [] else [s[0]] + CStr(s[1..])
  }

  lemma {:induction false} CStrIs(s: seq<byte>, t: Text)
    requires t <= s && 0 !in t && (|t| < |s| ==> s[|t|] == 0)
    ensures CStr(s) == t
  {
    if t == [] {
    } else {
      assert s[0] == t[0] && t[1..] <= s[1..];
      CStrIs(s[1..], t[1..]);
    }
  }

  /** What is left of a string in a field of n bytes. */
  function Trunc(s: Text, n: nat): (t: Text)
    requires n > 0
    ensures t <= s && (|t| == n - 1 || (|t| < n - 1 && t == s))
  {
    if |s| < n then s else s[..n - 1]
  }

  lemma TruncTwice(a: Text, b: Text, n: nat)
    requires n > 0
    ensures Trunc(Trunc(a, n) + b, n) == Trunc(a + b, n)
  {
  }

  method StrLcpy(dst: array<byte>, src: Text)
    requires dst.Length > 0 && 0 !in src
    modifies dst
    ensures CStr(dst[..]) == Trunc(src, dst.Length)
  {
    var n := if |src| < dst.Length then |src| else dst.Length - 1;
    forall i | 0 <= i < n {
      dst[i] := src[i];
    }
    dst[n] := 0;
    assert dst[..n] == src[..n];
    assert src[..n] == Trunc(src, dst.Length);
    CStrIs(dst[..], src[..n]);
  }

  /** The destination holds a terminated string. */
  method StrLcat(dst: array<byte>, src: Text)
    requires dst.Length > 0 && 0 !in src && |CStr(dst[..])| < dst.Length
    modifies dst
    ensures CStr(dst[..]) == Trunc(old(CStr(dst[..])) + src, dst.Length)
  {
    ghost var was := CStr(dst[..]);
    var at := 0;
    while dst[at] != 0
      invariant 0 <= at <= |was| && forall i :: 0 <= i < at ==> dst[i] != 0
      decreases |was| - at
    {
      assert dst[|was|] == dst[..][|was|] == 0;
      at := at + 1;
    }
    CStrIs(dst[..], dst[..at]);
    assert dst[..at] == was;
    var room := dst.Length - at - 1;
    var n := if |src| < room then |src| else room;
    forall i | 0 <= i < n {
      dst[at + i] := src[i];
    }
    dst[at + n] := 0;
    assert dst[..at + n] == was + src[..n];
    assert was + src[..n] == Trunc(was + src, dst.Length);
    CStrIs(dst[..], was + src[..n]);
  }

  // ---------------------------------------------------------------- lines and tokens

  /** Length of the first line. */
  function LineEnd(s: Text): (k: nat)
    ensures k <= |s| && NL !in s[..k] && (k < |s| ==> s[k] == NL)
  {
    if s == [] || s[0] == NL then 0 else 1 + LineEnd(s[1..])
  }

  /** What strtok yields with a newline as only separator: the non-empty lines. */
  function Tokens(s: Text): seq<Text>
    decreases |s|
  {
    if s == [] then []
    else
      var k := LineEnd(s);
      if k == 0 then Tokens(Rest(s)) else [s[..k]] + Tokens(Rest(s))
  }

  /** What follows the first line. */
  function Rest(s: Text): (r: Text)
    ensures s != [] ==> |r| < |s|
  {
    if LineEnd(s) < |s| then s[LineEnd(s) + 1..] else []
  }

  function Lines(args: seq<Text>): Text {
    if args == [] then [] else args[0] + [NL] + Lines(args[1..])
  }

  ghost predicate GoodArg(a: Text) {
    a != [] && NL !in a && 0 !in a
  }

  ghost predicate GoodArgs(args: seq<Text>) {
    forall i :: 0 <= i < |args| ==> GoodArg(args[i])
  }

  /** No empty lines. */
  ghost predicate Clean(s: Text) {
    forall i :: 0 <= i < |s| && s[i] == NL ==> i > 0 && s[i - 1] != NL
  }

  lemma {:induction false} LineEndIs(a: Text, rest: Text)
    requires NL !in a && (rest == [] || rest[0] == NL)
    ensures LineEnd(a + rest) == |a|
  {
    if a == [] {
      assert a + rest == rest;
    } else {
      assert (a + rest)[0] == a[0] && (a + rest)[1..] == a[1..] + rest;
      LineEndIs(a[1..], rest);
    }
  }

  lemma FirstLine(a: Text, more: Text)
    requires GoodArg(a)
    ensures Tokens(a + [NL] + more) == [a] + Tokens(more)
  {
    var s := a + [NL] + more;
    Assoc(a, [NL], more);
    assert ([NL] + more)[0] == NL;
    LineEndIs(a, [NL] + more);
    assert s[..|a|] == a && Rest(s) == more;
  }

  /** Parsing what was written gives the arguments back. */
  lemma {:induction false} TokensOfLines(args: seq<Text>)
    requires GoodArgs(args)
    ensures Tokens(Lines(args)) == args
  {
    if args != [] {
      FirstLine(args[0], Lines(args[1..]));
      TokensOfLines(args[1..]);
      assert [args[0]] + args[1..] == args;
    }
  }

  lemma {:induction false} LinesAreClean(args: seq<Text>)
    requires GoodArgs(args)
    ensures Clean(Lines(args)) && 0 !in Lines(args)
    ensures args != [] ==> Lines(args)[|Lines(args)| - 1] == NL
  {
    if args != [] {
      LinesAreClean(args[1..]);
      var a, more, s := args[0], Lines(args[1..]), Lines(args);
      assert s == a + [NL] + more;
      assert more != [] ==> more[0] != NL;
      assert forall i :: 0 <= i < |a| ==> s[i] == a[i];
      assert forall i :: |a| < i < |s| ==> s[i] == more[i - |a| - 1];
    }
  }

  lemma RestIsClean(s: Text)
    requires Clean(s) && s != []
    ensures Clean(Rest(s)) && LineEnd(s) > 0
    ensures Rest(s) != [] ==> Rest(s)[|Rest(s)| - 1] == s[|s| - 1]
  {
    var k, rest := LineEnd(s), Rest(s);
    if k < |s| {
      forall i | 0 <= i < |rest| && rest[i] == NL ensures i > 0 && rest[i - 1] != NL {
        assert s[k + 1 + i] == NL;
      }
    }
  }

  /** Writing what was parsed from a text without empty lines gives the text back, with its last
      line completed. */
  lemma {:induction false} LinesOfTokens(s: Text)
    requires Clean(s)
    ensures Lines(Tokens(s)) == if s == [] || s[|s| - 1] == NL then s else s + [NL]
    decreases |s|
  {
    if s != [] {
      RestIsClean(s);
      LinesOfTokens(Rest(s));
      LinesOfFirst(s);
      LineAndRest(s);
      if LineEnd(s) < |s| {
        Assoc(s[..LineEnd(s)] + [NL], Rest(s), [NL]);
      } else {
        assert s + [NL] + [] == s + [NL];
      }
    }
  }

  lemma LinesOfFirst(s: Text)
    requires s != [] && LineEnd(s) > 0
    ensures Lines(Tokens(s)) == s[..LineEnd(s)] + [NL] + Lines(Tokens(Rest(s)))
  {
    LinesOfMore(s[..LineEnd(s)], Tokens(Rest(s)));
  }

  lemma LineAndRest(s: Text)
    ensures LineEnd(s) < |s| ==> s == s[..LineEnd(s)] + [NL] + Rest(s)
    ensures LineEnd(s) == |s| ==> Rest(s) == [] && s[..LineEnd(s)] == s
  {
    if LineEnd(s) < |s| {
      CutAt(s, LineEnd(s));
    }
  }

  lemma CutAt(s: Text, k: nat)
    requires k < |s|
    ensures s == s[..k] + [s[k]] + s[k + 1..]
  {
  }

  lemma LinesOfMore(a: Text, args: seq<Text>)
    ensures Lines([a] + args) == a + [NL] + Lines(args)
  {
    assert ([a] + args)[1..] == args;
  }

  lemma {:induction false} TokensAreGood(s: Text)
    requires 0 !in s
    ensures GoodArgs(Tokens(s))
    decreases |s|
  {
    if s != [] {
      TokensAreGood(Rest(s));
    }
  }

  lemma {:induction false} LineEndOfPrefix(s: Text, n: nat)
    requires n <= |s|
    ensures LineEnd(s[..n]) == if LineEnd(s) < n then LineEnd(s) else n
  {
    if n > 0 && s[0] != NL {
      assert s[..n][1..] == s[1..][..n - 1];
      LineEndOfPrefix(s[1..], n - 1);
    }
  }

  lemma RestOfPrefix(s: Text, n: nat)
    requires n <= |s|
    ensures LineEnd(s[..n]) == if LineEnd(s) < n then LineEnd(s) else n
    ensures Rest(s[..n]) == if LineEnd(s) < n then Rest(s)[..n - LineEnd(s) - 1] else []
  {
    LineEndOfPrefix(s, n);
    if LineEnd(s) < n {
      PrefixOfRest(s, LineEnd(s) + 1, n);
    }
  }

  lemma PrefixOfRest(s: Text, k: nat, n: nat)
    requires k <= n <= |s|
    ensures s[..n][k..] == s[k..][..n - k]
  {
  }

  lemma OneMoreToken(s: Text)
    requires s != []
    ensures |Tokens(s)| == (if LineEnd(s) == 0 then 0 else 1) + |Tokens(Rest(s))|
  {
  }

  /** A shorter text never has more tokens. */
  lemma {:induction false} FewerTokens(s: Text, n: nat)
    requires n <= |s|
    ensures |Tokens(s[..n])| <= |Tokens(s)|
    decreases |s|
  {
    if n > 0 {
      RestOfPrefix(s, n);
      OneMoreToken(s);
      OneMoreToken(s[..n]);
      if LineEnd(s) < n {
        FewerTokens(Rest(s), n - LineEnd(s) - 1);
      }
    }
  }

  // ---------------------------------------------------------------- writing and parsing

  function BlockText(args: seq<Text>): Text {
    RECOVERY + [NL] + Lines(args)
  }

  /** What a field of n bytes holds after these arguments have been written to it. */
  function Written(args: seq<Text>, n: nat): Text
    requires n > 0
  {
    Trunc(BlockText(args), n)
  }

  lemma BlockTextIsLines(args: seq<Text>)
    ensures BlockText(args) == Lines([RECOVERY] + args)
    ensures GoodArgs(args) ==> GoodArgs([RECOVERY] + args)
  {
    LinesOfMore(RECOVERY, args);
  }

  /** The block's text is a fixed point of parsing and writing, even when it was cut short: what
      is parsed from it, written again, gives the same text. */
  lemma WrittenIsFixedPoint(args: seq<Text>, n: nat)
    requires n > 0 && GoodArgs(args) && |args| < MAX_ARGS
    requires |Tokens(Written(args, n))| > 1
    ensures var t := Tokens(Written(args, n));
            && t[0] == RECOVERY && |t| <= MAX_ARGS && GoodArgs(t)
            && Written(t[1..], n) == Written(args, n)
  {
    var all := [RECOVERY] + args;
    var full, s := BlockText(args), Written(args, n);
    BlockTextIsLines(args);
    LinesAreClean(all);
    TokensOfLines(all);
    FewerTokens(full, |s|);
    assert s == full[..|s|];
    TokensAreGood(s);
    assert Clean(s);
    LinesOfTokens(s);
    var t := Tokens(s);
    FirstToken(args, |s|);
    assert t == [RECOVERY] + t[1..];
    BlockTextIsLines(t[1..]);
    assert s[|s| - 1] != NL ==> s + [NL] == Lines(t) && Trunc(s + [NL], n) == s;
  }

  /** When a second token survives, the first one is the program name in full. */
  lemma FirstToken(args: seq<Text>, k: nat)
    requires k <= |BlockText(args)| && |Tokens(BlockText(args)[..k])| > 1
    ensures Tokens(BlockText(args)[..k])[0] == RECOVERY
  {
    var full := BlockText(args);
    Assoc(RECOVERY, [NL], Lines(args));
    LineEndIs(RECOVERY, [NL] + Lines(args));
    RestOfPrefix(full, k);
    assert full[..|RECOVERY|] == RECOVERY;
    assert k > |RECOVERY| ==> full[..k][..|RECOVERY|] == RECOVERY;
    OneMoreToken(full[..k]);
  }

  /** Arguments that fit are parsed back unchanged. */
  lemma WrittenReadsBack(args: seq<Text>, n: nat)
    requires GoodArgs(args) && |BlockText(args)| < n
    ensures Tokens(Written(args, n)) == [RECOVERY] + args
  {
    BlockTextIsLines(args);
    TokensOfLines([RECOVERY] + args);
  }

  // ---------------------------------------------------------------- get_args

  lemma {:induction false} EmptyLines(s: Text, p: nat, q: nat)
    requires p <= q <= |s| && forall i :: p <= i < q ==> s[i] == NL
    ensures Tokens(s[p..]) == Tokens(s[q..])
    decreases q - p
  {
    if p < q {
      assert s[p..][1..] == s[p + 1..];
      EmptyLines(s, p + 1, q);
    }
  }

  lemma TokenAt(s: Text, start: nat, end: nat)
    requires start < end <= |s| && (end < |s| ==> s[end] == NL)
    requires forall i :: start <= i < end ==> s[i] != NL
    ensures Tokens(s[start..]) == [s[start..end]] + Tokens(s[(if end < |s| then end + 1 else end)..])
  {
    var t, a := s[start..], s[start..end];
    assert t == a + s[end..];
    LineEndIs(a, s[end..]);
    assert LineEnd(t) == |a| && t[..|a|] == a;
    assert Rest(t) == s[(if end < |s| then end + 1 else end)..];
    assert Tokens(t) == [a] + Tokens(Rest(t));
  }

  /** The next run without newlines: skip delimiters, then scan to the next one. */
  method NextRun(s: Text, pos: nat) returns (start: nat, end: nat)
    requires pos <= |s|
    ensures pos <= start <= end <= |s| && (start == end ==> end == |s|) && (end < |s| ==> s[end] == NL)
    ensures forall i :: pos <= i < start ==> s[i] == NL
    ensures forall i :: start <= i < end ==> s[i] != NL
  {
    start := pos;
    while start < |s| && s[start] == NL
      invariant pos <= start <= |s| && forall i :: pos <= i < start ==> s[i] == NL
    {
      start := start + 1;
    }
    end := start;
    while end < |s| && s[end] != NL
      invariant start <= end <= |s| && forall i :: start <= i < end ==> s[i] != NL
    {
      end := end + 1;
    }
  }

  /** strtok(.., "\n") from a position on: the next non-empty line and where to go on. */
  method Strtok(s: Text, pos: nat) returns (token: Option<Text>, next: nat)
    requires pos <= |s|
    ensures next <= |s|
    ensures Tokens(s[pos..]) == if token.Some? then [token.value] + Tokens(s[next..]) else []
  {
    var start, end := NextRun(s, pos);
    EmptyLines(s, pos, start);
    if start == end {
      return None, end;
    }
    TokenAt(s, start, end);
    return Some(s[start..end]), if end < |s| then end + 1 else end;
  }

  function Take(args: seq<Text>, n: nat): (r: seq<Text>)
    ensures r <= args && (|r| == n || (|r| < n && r == args))
  {
    if |args| <= n then args else args[..n]
  }

  /** The arguments in a block's text, the program name first; none when the text does not
      start with it. */
  function BlockArgs(text: Text): seq<Text> {
    var t := Tokens(text);
    if t != [] && t[0] == RECOVERY then Take(t, MAX_ARGS) else []
  }

  /** strtok stands at position next, with these tokens behind it. */
  ghost predicate ReadSoFar(text: Text, argv: seq<Text>, next: nat) {
    next <= |text| && Tokens(text) == argv + Tokens(text[next..])
  }

  method NextToken(text: Text, ghost argv: seq<Text>, pos: nat) returns (token: Option<Text>, next: nat)
    requires ReadSoFar(text, argv, pos)
    ensures token.Some? ==> ReadSoFar(text, argv + [token.value], next)
    ensures token.None? ==> Tokens(text) == argv
  {
    token, next := Strtok(text, pos);
    if token.Some? {
      Assoc(argv, [token.value], Tokens(text[next..]));
    } else {
      assert argv + [] == argv;
    }
  }

  method ParseBlock(text: Text) returns (argv: seq<Text>)
    ensures argv == BlockArgs(text)
  {
    assert text[0..] == text && [] + Tokens(text) == Tokens(text);
    var token, next := NextToken(text, [], 0);
    if token.None? || token.value != RECOVERY {
      return [];
    }
    argv := [RECOVERY];
    assert [] + argv == argv;
    while |argv| < MAX_ARGS
      invariant 1 <= |argv| <= MAX_ARGS && argv[0] == RECOVERY && ReadSoFar(text, argv, next)
      decreases MAX_ARGS - |argv|
    {
      token, next := NextToken(text, argv, next);
      if token.None? {
        return;
      }
      argv := argv + [token.value];
    }
    assert Tokens(text)[..MAX_ARGS] == argv;
  }

  predicate Ends(c: byte) {
    c == NL || c == CR
  }

  function Run(s: Text): (r: Text)
    ensures r <= s
  {
    if s == [] || Ends(s[0]) then [] else [s[0]] + Run(s[1..])
  }

  /** strtok(.., "\r\n") of one line from the command file: its first non-empty run. */
  function LineToken(line: Text): Option<Text> {
    if line == [] then None
    else if Ends(line[0]) then LineToken(line[1..])
    else Some(Run(line))
  }

  /** The arguments in a command file, given as what fgets delivers line by line. */
  function FileArgs(lines: seq<Text>, room: nat): seq<Text>
    decreases |lines|
  {
    if lines == [] || room == 0 then []
    else match LineToken(lines[0])
      case None => FileArgs(lines[1..], room)
      case Some(t) => [t] + FileArgs(lines[1..], room - 1)
  }

  method ParseFile(name: Text, lines: seq<Text>) returns (argv: seq<Text>)
    ensures argv == [name] + FileArgs(lines, MAX_ARGS - 1)
  {
    argv := [name];
    var i := 0;
    while |argv| < MAX_ARGS && i < |lines|
      invariant 1 <= |argv| <= MAX_ARGS && 0 <= i <= |lines|
      invariant [name] + FileArgs(lines, MAX_ARGS - 1) == argv + FileArgs(lines[i..], MAX_ARGS - |argv|)
      decreases |lines| - i
    {
      var token := LineToken(lines[i]);
      assert lines[i..][1..] == lines[i + 1..];
      if token.Some? {
        Assoc(argv, [token.value], FileArgs(lines[i + 1..], MAX_ARGS - |argv| - 1));
        argv := argv + [token.value];
      }
      i := i + 1;
    }
    assert argv + [] == argv;
  }

  /** The arguments a run works with: real ones, then those of the block, then the file's. */
  function Chosen(argv: seq<Text>, text: Text, file: Option<seq<Text>>): seq<Text>
    requires argv != []
  {
    var fromBlock := if |argv| <= 1 && BlockArgs(text) != [] then BlockArgs(text) else argv;
    if |fromBlock| <= 1 && file.Some? then [fromBlock[0]] + FileArgs(file.value, MAX_ARGS - 1) else fromBlock
  }

  method GetArgs(argv: seq<Text>, recovery: array<byte>, file: Option<seq<Text>>) returns (args: seq<Text>)
    requires argv != [] && recovery.Length > 0
    requires forall i :: 0 <= i < |argv| ==> 0 !in argv[i]
    requires file.Some? ==> forall i :: 0 <= i < |file.value| ==> 0 !in file.value[i]
    modifies recovery
    ensures args == Chosen(argv, if |argv| <= 1 then CStr(old(recovery[..])[..recovery.Length - 1]) else [], file)
    ensures CStr(recovery[..]) == Written(args[1..], recovery.Length)
  {
    args := argv;
    if |args| <= 1 {
      var parsed := FromBlock(recovery);
      if parsed != [] {
        args := parsed;
      }
    }
    if |args| <= 1 && file.Some? {
      FileArgsHaveNoNul(file.value, MAX_ARGS - 1);
      args := ParseFile(args[0], file.value);
    }
    WriteArgs(recovery, args);
  }

  /** The block's last byte is made a terminator before its text is parsed. */
  method FromBlock(recovery: array<byte>) returns (parsed: seq<Text>)
    requires recovery.Length > 0
    modifies recovery
    ensures parsed == BlockArgs(CStr(old(recovery[..])[..recovery.Length - 1])) && GoodArgs(parsed)
  {
    recovery[recovery.Length - 1] := 0;
    var found := CStr(recovery[..]);
    LastForced(recovery[..]);
    assert recovery[..][..recovery.Length - 1] == old(recovery[..])[..recovery.Length - 1];
    TokensAreGood(found);
    parsed := ParseBlock(found);
  }

  lemma LastForced(s: seq<byte>)
    requires s != [] && s[|s| - 1] == 0
    ensures CStr(s) == CStr(s[..|s| - 1])
  {
    var t := CStr(s[..|s| - 1]);
    CStrIs(s, t);
  }

  lemma {:induction false} FileArgsHaveNoNul(lines: seq<Text>, room: nat)
    requires forall i :: 0 <= i < |lines| ==> 0 !in lines[i]
    ensures forall i :: 0 <= i < |FileArgs(lines, room)| ==> 0 !in FileArgs(lines, room)[i]
    decreases |lines|
  {
    if lines != [] && room > 0 {
      FileArgsHaveNoNul(lines[1..], room);
      FileArgsHaveNoNul(lines[1..], room - 1);
      LineTokenGood(lines[0]);
    }
  }

  lemma {:induction false} LineTokenGood(line: Text)
    requires 0 !in line
    ensures LineToken(line).Some? ==> GoodArg(LineToken(line).value)
  {
    if line != [] {
      if Ends(line[0]) {
        LineTokenGood(line[1..]);
      } else {
        RunGood(line);
      }
    }
  }

  lemma {:induction false} RunGood(s: Text)
    requires 0 !in s
    ensures NL !in Run(s) && 0 !in Run(s)
  {
    if s != [] && !Ends(s[0]) {
      RunGood(s[1..]);
    }
  }

  /** The arguments go back into the block, one per line, as far as they fit. */
  method WriteArgs(recovery: array<byte>, argv: seq<Text>)
    requires argv != [] && recovery.Length > 0
    requires forall i :: 1 <= i < |argv| ==> 0 !in argv[i]
    modifies recovery
    ensures CStr(recovery[..]) == Written(argv[1..], recovery.Length)
  {
    StrLcpy(recovery, RECOVERY + [NL]);
    assert Lines(argv[1..1]) == [];
    var i := 1;
    while i < |argv|
      invariant 1 <= i <= |argv|
      invariant CStr(recovery[..]) == Written(argv[1..i], recovery.Length)
    {
      WriteArg(recovery, argv[i], argv[1..i]);
      assert argv[1..i + 1] == argv[1..i] + [argv[i]];
      i := i + 1;
    }
    assert argv[1..i] == argv[1..];
  }

  /** One more argument, on a line of its own. */
  method WriteArg(recovery: array<byte>, a: Text, ghost done: seq<Text>)
    requires recovery.Length > 0 && 0 !in a && CStr(recovery[..]) == Written(done, recovery.Length)
    modifies recovery
    ensures CStr(recovery[..]) == Written(done + [a], recovery.Length)
  {
    StrLcat(recovery, a);
    StrLcat(recovery, [NL]);
    OneMoreWritten(done, a, recovery.Length);
  }

  lemma OneMoreWritten(args: seq<Text>, a: Text, n: nat)
    requires n > 0
    ensures Trunc(Trunc(Written(args, n) + a, n) + [NL], n) == Written(args + [a], n)
  {
    LinesAppend(args, [a]);
    assert Lines([a]) == a + [NL] + Lines([a][1..]);
    assert Lines([a][1..]) == [];
    TruncTwice(BlockText(args), a, n);
    TruncTwice(BlockText(args) + a, [NL], n);
    Assoc(BlockText(args), a, [NL]);
    Assoc(RECOVERY + [NL], Lines(args), a + [NL]);
  }

  lemma {:induction false} LinesAppend(a: seq<Text>, b: seq<Text>)
    ensures Lines(a + b) == Lines(a) + Lines(b)
  {
    if a == [] {
      assert a + b == b;
    } else {
      assert (a + b)[1..] == a[1..] + b;
      LinesAppend(a[1..], b);
      Assoc(a[0] + [NL], Lines(a[1..]), Lines(b));
    }
  }
}
