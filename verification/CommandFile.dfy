/** What the recovery command file and the control block say: the arguments a run takes from plain
    lines of text. */
module CommandFile {
  import opened Bytes
  import opened BootMessage

  /** A line as fgets delivers it: only line ends, or line ends, a text, and whatever follows the
      line end behind the text. */
  datatype FileLine = Blank(ends: Text) | Line(ends: Text, text: Text, tail: Text)

  predicate IsEnd(c: byte) {
    c == 10 || c == 13
  }

  ghost predicate LineOk(l: FileLine) {
    && (forall i :: 0 <= i < |l.ends| ==> IsEnd(l.ends[i]))
    && (l.Line? ==>
          && l.text != [] && (forall i :: 0 <= i < |l.text| ==> !IsEnd(l.text[i]))
          && (l.tail == [] || IsEnd(l.tail[0])))
  }

  function Raw(l: FileLine): Text {
    if l.Blank? then l.ends else l.ends + l.text + l.tail
  }

  ghost predicate LinesOk(ls: seq<FileLine>) {
    forall i :: 0 <= i < |ls| ==> LineOk(ls[i])
  }

  function RawLines(ls: seq<FileLine>): seq<Text> {
    seq(|ls|, i requires 0 <= i < |ls| => Raw(ls[i]))
  }

  /** The texts of the lines that have one, in order. */
  function Texts(ls: seq<FileLine>): seq<Text> {
    if ls == [] then [] else (if ls[0].Line? then [ls[0].text] else []) + Texts(ls[1..])
  }

  /** Every line is of this form. */
  lemma {:induction false} EveryLine(line: Text) returns (l: FileLine)
    ensures LineOk(l) && Raw(l) == line
  {
    if line == [] {
      l := Blank([]);
    } else if IsEnd(line[0]) {
      l := EveryLine(line[1..]);
      var ends := [line[0]] + l.ends;
      assert Raw(l.(ends := ends)) == line by {
        if l.Line? {
          assert ends + l.text + l.tail == [line[0]] + (l.ends + l.text + l.tail);
        }
      }
      l := l.(ends := ends);
    } else {
      var n := TextEnd(line);
      l := Line([], line[..n], line[n..]);
      assert [] + line[..n] + line[n..] == line;
    }
  }

  lemma {:induction false} TextEnd(line: Text) returns (n: nat)
    ensures n <= |line| && (forall i :: 0 <= i < n ==> !IsEnd(line[i])) && (n < |line| ==> IsEnd(line[n]))
    ensures line != [] && !IsEnd(line[0]) ==> n > 0
  {
    if line == [] || IsEnd(line[0]) {
      n := 0;
    } else {
      n := TextEnd(line[1..]);
      n := n + 1;
    }
  }

  lemma {:induction false} RunIs(text: Text, tail: Text)
    requires (forall i :: 0 <= i < |text| ==> !IsEnd(text[i])) && (tail == [] || IsEnd(tail[0]))
    ensures Run(text + tail) == text
  {
    if text == [] {
      assert text + tail == tail;
    } else {
      assert (text + tail)[0] == text[0] && (text + tail)[1..] == text[1..] + tail;
      RunIs(text[1..], tail);
      assert [text[0]] + text[1..] == text;
    }
  }

  lemma {:induction false} EndsSkipped(ends: Text, rest: Text)
    requires forall i :: 0 <= i < |ends| ==> IsEnd(ends[i])
    ensures LineToken(ends + rest) == LineToken(rest)
  {
    if ends == [] {
      assert ends + rest == rest;
    } else {
      assert (ends + rest)[0] == ends[0] && (ends + rest)[1..] == ends[1..] + rest;
      EndsSkipped(ends[1..], rest);
    }
  }

  lemma LineYields(l: FileLine)
    requires LineOk(l)
    ensures LineToken(Raw(l)) == if l.Line? then Some(l.text) else None
  {
    if l.Line? {
      Assoc(l.ends, l.text, l.tail);
      EndsSkipped(l.ends, l.text + l.tail);
      RunIs(l.text, l.tail);
    } else {
      EndsSkipped(l.ends, []);
      assert l.ends + [] == l.ends;
    }
  }

  lemma {:induction false} FileYields(ls: seq<FileLine>, room: nat)
    requires LinesOk(ls)
    ensures FileArgs(RawLines(ls), room) == Take(Texts(ls), room)
    decreases |ls|
  {
    if ls != [] && room > 0 {
      LineYields(ls[0]);
      assert RawLines(ls)[0] == Raw(ls[0]) && RawLines(ls)[1..] == RawLines(ls[1..]);
      if ls[0].Line? {
        FileYields(ls[1..], room - 1);
        TakeOneMore(ls[0].text, Texts(ls[1..]), room);
      } else {
        FileYields(ls[1..], room);
        assert [] + Texts(ls[1..]) == Texts(ls[1..]);
      }
    }
  }

  lemma TakeOneMore(a: Text, more: seq<Text>, n: nat)
    requires n > 0
    ensures Take([a] + more, n) == [a] + Take(more, n - 1)
  {
  }

  /** Reading a command file: the program name and the texts of its lines, at most MAX_ARGS in all;
      lines of line ends only add nothing. */
  method ReadCommandFile(name: Text, ghost ls: seq<FileLine>, lines: seq<Text>) returns (argv: seq<Text>)
    requires LinesOk(ls) && lines == RawLines(ls)
    ensures argv == [name] + Take(Texts(ls), 99)
  {
    FileYields(ls, MAX_ARGS - 1);
    argv := ParseFile(name, lines);
  }

  // ---------------------------------------------------------------- where a run's arguments come from

  /** No text in the block, another one than recovery first, or recovery alone. */
  ghost predicate NothingInBlock(text: Text) {
    var t := Tokens(text);
    t == [] || t[0] != [114, 101, 99, 111, 118, 101, 114, 121] || |t| == 1
  }

  /** Real arguments are taken as they are. */
  lemma RealArgumentsWin(argv: seq<Text>, text: Text, file: Option<seq<Text>>)
    requires |argv| > 1
    ensures Chosen(argv, text, file) == argv
  {
  }

  /** Otherwise the block's arguments are, the first MAX_ARGS of them, whatever the file says. */
  lemma BlockComesSecond(name: Text, args: seq<Text>, file: Option<seq<Text>>)
    requires GoodArgs(args) && args != []
    ensures Chosen([name], BlockText(args), file) == Take([RECOVERY] + args, 100)
  {
    BlockTextIsLines(args);
    TokensOfLines([RECOVERY] + args);
  }

  /** With nothing there either, they are the texts of the command file. */
  lemma FileComesThird(name: Text, text: Text, ls: seq<FileLine>)
    requires NothingInBlock(text) && LinesOk(ls)
    ensures var args := Chosen([name], text, Some(RawLines(ls)));
            |args| > 0 && args[1..] == Take(Texts(ls), 99)
  {
    FileYields(ls, MAX_ARGS - 1);
    assert BlockArgs(text) == [] || |BlockArgs(text)| == 1;
  }

  /** And without a file there are none. */
  lemma NothingAnywhere(name: Text, text: Text)
    requires NothingInBlock(text)
    ensures |Chosen([name], text, None)| == 1
  {
  }

  /** A run without real arguments, on a block that holds none: it works with the texts of the
      command file, and writes them to the block as far as they fit. */
  method ArgumentsFromFile(name: Text, recovery: array<byte>, ghost ls: seq<FileLine>, lines: seq<Text>) returns (args: seq<Text>)
    requires recovery.Length > 0 && 0 !in name && LinesOk(ls) && lines == RawLines(ls)
    requires forall i :: 0 <= i < |lines| ==> 0 !in lines[i]
    requires NothingInBlock(CStr(recovery[..][..recovery.Length - 1]))
    modifies recovery
    ensures |args| > 0 && args[1..] == Take(Texts(ls), 99)
    ensures CStr(recovery[..]) == Trunc(BlockText(args[1..]), recovery.Length)
  {
    FileComesThird(name, CStr(recovery[..][..recovery.Length - 1]), ls);
    args := GetArgs([name], recovery, Some(lines));
  }
}
