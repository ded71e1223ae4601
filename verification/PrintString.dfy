/** Option bytes escaped for a shell script: what print_string writes, and how to read it. */
module PrintString {
  import opened Bytes

  const BACKSLASH: byte := 92

  predicate Printable(c: byte) {
    32 <= c <= 126
  }

  /** The double and single quote, $, backquote, backslash, | and &. */
  predicate Special(c: byte) {
    c == 34 || c == 39 || c == 36 || c == 96 || c == BACKSLASH || c == 124 || c == 38
  }

  function Octal(c: byte): (s: seq<byte>)
    ensures |s| == 4 && forall i :: 1 <= i < 4 ==> 48 <= s[i] <= 55
    ensures 64 * (s[1] as int - 48) + 8 * (s[2] as int - 48) + (s[3] as int - 48) == c
  {
    assert c / 8 == 8 * (c / 64) + c / 8 % 8 && c == 8 * (c / 8) + c % 8;
    [BACKSLASH, 48 + c / 64, 48 + (c / 8) % 8, 48 + c % 8]
  }

  function EscapeByte(c: byte): (s: seq<byte>)
    ensures 1 <= |s| <= 4
  {
    if !Printable(c) then Octal(c) else if Special(c) then [BACKSLASH, c] else [c]
  }

  function Escaped(d: seq<byte>): seq<byte> {
    if d == [] then [] else EscapeByte(d[0]) + Escaped(d[1..])
  }

  function TrimNuls(d: seq<byte>): (t: seq<byte>)
    ensures t <= d && (t != [] ==> t[|t| - 1] != 0)
    ensures forall i :: |t| <= i < |d| ==> d[i] == 0
  {
    if d != [] && d[|d| - 1] == 0 then TrimNuls(d[..|d| - 1]) else d
  }

  predicate IsDigit(c: byte) {
    48 <= c <= 57
  }

  function OctalValue(hi: int, mid: int, lo: int): byte {
    ((hi - 48) * 64 + (mid - 48) * 8 + (lo - 48)) % 256
  }

  /** A reader of the escaped form: a backslash introduces three octal digits or stands for the
      byte behind it. */
  function Unescaped(s: seq<byte>): seq<byte> {
    if s == [] then []
    else if s[0] != BACKSLASH || |s| == 1 then [s[0]] + Unescaped(s[1..])
    else if IsDigit(s[1]) && |s| >= 4 then
      [OctalValue(s[1], s[2], s[3])] + Unescaped(s[4..])
    else [s[1]] + Unescaped(s[2..])
  }

  lemma OctalValueOf(c: byte)
    ensures var o := Octal(c); IsDigit(o[1]) && OctalValue(o[1], o[2], o[3]) == c
  {
    var q := c / 8;
    assert q / 8 == c / 64;
    assert c == 8 * (8 * (q / 8) + q % 8) + c % 8;
  }

  lemma UnescapeFirst(c: byte, rest: seq<byte>)
    ensures Unescaped(EscapeByte(c) + rest) == [c] + Unescaped(rest)
  {
    var s := EscapeByte(c) + rest;
    if !Printable(c) {
      OctalValueOf(c);
      var o := Octal(c);
      assert s[0] == BACKSLASH && s[1] == o[1] && s[2] == o[2] && s[3] == o[3];
      assert s[4..] == rest;
    } else if Special(c) {
      assert s[2..] == rest;
    } else {
      assert s[1..] == rest;
    }
  }

  /** Un-escaping gives back every byte string. */
  lemma {:induction false} EscapeRoundTrip(d: seq<byte>)
    ensures Unescaped(Escaped(d)) == d
  {
    if d != [] {
      UnescapeFirst(d[0], Escaped(d[1..]));
      EscapeRoundTrip(d[1..]);
      assert [d[0]] + d[1..] == d;
    }
  }

  /** The escaped form is printable ASCII, so its terminator is its first NUL. */
  lemma {:induction false} EscapedIsPrintable(d: seq<byte>)
    ensures forall i :: 0 <= i < |Escaped(d)| ==> Printable(Escaped(d)[i])
  {
    if d != [] {
      EscapedIsPrintable(d[1..]);
      var c := d[0];
      assert forall i :: 0 <= i < |EscapeByte(c)| ==> Printable(EscapeByte(c)[i]);
    }
  }

  /** A shell meets no byte that means something to it: a quote, dollar, backquote, bar, ampersand or
      backslash comes only behind a backslash of its own, and a backslash only in front of one of
      them or of three octal digits. */
  predicate ShellSafe(s: seq<byte>) {
    s == [] ||
    (if s[0] != 92 then s[0] !in {34, 36, 38, 39, 96, 124} && ShellSafe(s[1..])
     else if |s| >= 2 && s[1] in {34, 36, 38, 39, 92, 96, 124} then ShellSafe(s[2..])
     else |s| >= 4 && (forall i :: 1 <= i < 4 ==> 48 <= s[i] <= 55) && ShellSafe(s[4..]))
  }

  lemma {:induction false} EscapedIsSafe(d: seq<byte>)
    ensures ShellSafe(Escaped(d))
  {
    if d != [] {
      EscapedIsSafe(d[1..]);
      SafeBehind(d[0], Escaped(d[1..]));
    }
  }

  lemma SafeBehind(c: byte, rest: seq<byte>)
    requires ShellSafe(rest)
    ensures ShellSafe(EscapeByte(c) + rest)
  {
    var s := EscapeByte(c) + rest;
    if !Printable(c) {
      var o := Octal(c);
      assert s[0] == 92 && s[1] == o[1] && s[2] == o[2] && s[3] == o[3] && s[4..] == rest;
    } else if Special(c) {
      assert s[0] == 92 && s[1] == c && s[2..] == rest;
    } else {
      assert s[0] == c && s[1..] == rest;
    }
  }

  /** Printable text without such bytes is left as it is. */
  lemma {:induction false} PlainIsKept(d: seq<byte>)
    requires forall i :: 0 <= i < |d| ==> 32 <= d[i] <= 126 && d[i] !in {34, 36, 38, 39, 92, 96, 124}
    ensures Escaped(d) == d
  {
    if d != [] {
      PlainIsKept(d[1..]);
      assert [d[0]] + d[1..] == d;
    }
  }

  lemma {:induction false} EscapedAppend(a: seq<byte>, b: seq<byte>)
    ensures Escaped(a + b) == Escaped(a) + Escaped(b)
  {
    if a == [] {
      assert a + b == b;
    } else {
      EscapedAppend(a[1..], b);
      assert (a + b)[0] == a[0] && (a + b)[1..] == a[1..] + b;
      Assoc(EscapeByte(a[0]), Escaped(a[1..]), Escaped(b));
    }
  }

  lemma EscapedSnoc(a: seq<byte>, c: byte)
    ensures Escaped(a + [c]) == Escaped(a) + EscapeByte(c)
  {
    EscapedAppend(a, [c]);
    assert Escaped([c]) == EscapeByte(c) + Escaped([c][1..]);
  }

  // ---------------------------------------------------------------- a buffer that is too small

  predicate Plain(c: byte) {
    Printable(c) && !Special(c)
  }

  /** How many bytes of d are written to a buffer of len bytes: room is checked only where an escape
      is needed. */
  function Stop(d: seq<byte>, len: int): (k: nat)
    ensures k <= |d|
    ensures len > |Escaped(d)| ==> k == |d|
  {
    if d == [] then 0
    else
      var n := |EscapeByte(d[0])|;
      if !Plain(d[0]) && n + 1 > len then 0 else 1 + Stop(d[1..], len - n)
  }

  /** How far the writing gets: the terminator follows only when nothing was refused. */
  function Extent(d: seq<byte>, len: int): nat {
    |Escaped(d[..Stop(d, len)])| + if Stop(d, len) == |d| then 1 else 0
  }

  lemma NothingRefused(d: seq<byte>, len: int)
    ensures len > |Escaped(d)| ==> d[..Stop(d, len)] == d && Extent(d, len) == |Escaped(d)| + 1
  {
  }

  /** Some plain byte, or the terminator, finds no room left and is stored all the same. */
  predicate Overruns(d: seq<byte>, len: int) {
    if d == [] then len < 1
    else if Plain(d[0]) then len < 1 || Overruns(d[1..], len - 1)
    else |EscapeByte(d[0])| + 1 <= len && Overruns(d[1..], len - |EscapeByte(d[0])|)
  }

  /** The buffer is left exactly when a plain byte or the terminator finds it full before any escape
      is refused; text that needs no escape is never cut. */
  lemma {:induction false} LeavesBuffer(d: seq<byte>, len: int)
    requires len >= 0
    ensures Extent(d, len) > len <==> Overruns(d, len)
    ensures |Escaped(d)| < len ==> !Overruns(d, len)
    ensures (forall i :: 0 <= i < |d| ==> Plain(d[i])) ==> (Overruns(d, len) <==> |d| >= len)
    decreases |d|
  {
    if d != [] && (Plain(d[0]) || |EscapeByte(d[0])| + 1 <= len) {
      ExtentStep(d, len);
      if len >= |EscapeByte(d[0])| {
        LeavesBuffer(d[1..], len - |EscapeByte(d[0])|);
      }
    }
  }

  lemma ExtentStep(d: seq<byte>, len: int)
    requires d != [] && (Plain(d[0]) || |EscapeByte(d[0])| + 1 <= len)
    ensures Extent(d, len) == |EscapeByte(d[0])| + Extent(d[1..], len - |EscapeByte(d[0])|)
  {
    var k := Stop(d[1..], len - |EscapeByte(d[0])|);
    assert d[..1 + k][0] == d[0] && d[..1 + k][1..] == d[1..][..k];
  }

  /** Is everything from position i on NUL? */
  method RestIsNul(data: seq<byte>, i: nat) returns (yes: bool)
    requires i <= |data|
    ensures yes <==> forall j :: i <= j < |data| ==> data[j] == 0
  {
    var p := i;
    while p < |data|
      invariant i <= p <= |data|
      invariant forall j :: i <= j < p ==> data[j] == 0
    {
      if data[p] != 0 {
        return false;
      }
      p := p + 1;
    }
    return true;
  }

  /** Writes one byte's escape; false is ENOBUFS. A plain byte is stored without looking at len, so
      out stands for the buffer and the memory behind it. */
  method PutByte(out: array?<byte>, len: nat, at: nat, c: byte, ghost text: seq<byte>) returns (ok: bool, end: nat)
    requires TextIs(out, 0, at, text)
    requires out != null ==> len <= out.Length && at + |EscapeByte(c)| < out.Length
    modifies out
    ensures ok <==> out == null || Plain(c) || at + |EscapeByte(c)| + 1 <= len
    ensures TextIs(out, 0, end, if ok then text + EscapeByte(c) else text)
    ensures out != null ==> forall j :: len <= j < out.Length && end <= j ==> out[j] == old(out[j])
  {
    if !Printable(c) {
      if out != null {
        if len - at < 5 {
          return false, at;
        }
        out[at], out[at + 1], out[at + 2], out[at + 3] := BACKSLASH, 48 + c / 64, 48 + (c / 8) % 8, 48 + c % 8;
        out[at + 4] := 0;
      }
      return true, at + 4;
    }
    end := at;
    if Special(c) {
      if out != null {
        if len - at < 3 {
          return false, at;
        }
        out[end] := BACKSLASH;
      }
      end := end + 1;
    }
    if out != null {
      out[end] := c;
    }
    return true, end + 1;
  }

  /** Escapes the data without its trailing NULs; what is written to a buffer that is too small is
      stated as well. */
  method PrintString(out: array?<byte>, len: nat, data: seq<byte>) returns (bytes: int)
    requires out != null ==> len <= out.Length && |Escaped(TrimNuls(data))| < out.Length
    modifies out
    ensures out == null ==> bytes == |Escaped(TrimNuls(data))| + 1
    ensures out != null ==> Filled(out, len, TrimNuls(data), bytes)
    ensures out != null ==>
              forall j :: len <= j < out.Length && Extent(TrimNuls(data), len) <= j ==> out[j] == old(out[j])
  {
    ghost var kept := TrimNuls(data);
    var i, at: nat := 0, 0;
    assert Standing(out, len, kept, 0, 0) by {
      assert kept[..0] == [] && kept[0..] == kept;
    }
    while i < |data|
      invariant Standing(out, len, kept, i, at)
      invariant out != null ==> forall j :: len <= j < out.Length && at <= j ==> out[j] == old(out[j])
      decreases |data| - i
    {
      var c := data[i];
      if c == 0 {
        var rest := RestIsNul(data, i + 1);
        if rest {
          assert kept == [] || kept[|kept| - 1] == data[|kept| - 1];
          break;
        }
      }
      assert i < |kept| && kept[i] == c;
      var ok;
      ok, at := PutNext(out, len, at, c, kept, i);
      if !ok {
        return -1;
      }
      i := i + 1;
    }
    assert i == |kept|;
    Finished(out, len, kept, at);
    if out != null {
      Terminate(out, len, at, kept);
    }
    return at + 1;
  }

  /** What filling leaves behind: everything up to the first escape that does not fit, wherever that
      lies, and a terminator when there is none. */
  ghost predicate Filled(out: array<byte>, len: nat, kept: seq<byte>, bytes: int)
    reads out
  {
    var k := Stop(kept, len);
    var text := Escaped(kept[..k]);
    && TextIs(out, 0, |text|, text)
    && (if k < |kept| then bytes == -1 else bytes == |text| + 1 <= out.Length && out[|text|] == 0)
  }

  method Terminate(out: array<byte>, len: nat, at: nat, ghost kept: seq<byte>)
    requires at < out.Length && Standing(out, len, kept, |kept|, at)
    modifies out
    ensures Filled(out, len, kept, at + 1)
    ensures forall j :: at < j < out.Length ==> out[j] == old(out[j])
  {
    Finished(out, len, kept, at);
    out[at] := 0;
  }

  /** The first i bytes of d are written, up to position at. */
  ghost predicate Standing(out: array?<byte>, len: nat, d: seq<byte>, i: nat, at: nat)
    reads out
  {
    i <= |d| && TextIs(out, 0, at, Escaped(d[..i])) && (out != null ==> WrittenUpTo(d, len, i, at))
  }

  lemma Finished(out: array?<byte>, len: nat, d: seq<byte>, at: nat)
    requires Standing(out, len, d, |d|, at)
    ensures TextIs(out, 0, at, Escaped(d))
    ensures out != null ==> Stop(d, len) == |d| && Extent(d, len) == at + 1
    ensures d[..|d|] == d
  {
    assert d[..|d|] == d;
  }

  /** The next byte is written, or its escape is the first one refused. */
  method PutNext(out: array?<byte>, len: nat, at: nat, c: byte, ghost d: seq<byte>, ghost i: nat) returns (ok: bool, end: nat)
    requires i < |d| && d[i] == c && Standing(out, len, d, i, at)
    requires out != null ==> len <= out.Length && |Escaped(d)| < out.Length
    modifies out
    ensures at <= end && (out == null ==> ok)
    ensures ok ==> Standing(out, len, d, i + 1, end)
    ensures !ok ==> Standing(out, len, d, i, end) && Stop(d, len) == i && Extent(d, len) == end
    ensures out != null ==> forall j :: len <= j < out.Length && end <= j ==> out[j] == old(out[j])
  {
    NextEscape(d, i);
    if out != null {
      WriteNext(d, len, i, at);
    }
    ok, end := PutByte(out, len, at, c, Escaped(d[..i]));
  }

  /** After i bytes of d the writing stands at position at. */
  ghost predicate WrittenUpTo(d: seq<byte>, len: int, i: nat, at: nat) {
    i <= |d| && at == |Escaped(d[..i])| && Stop(d, len) == i + Stop(d[i..], len - at)
  }

  lemma WriteNext(d: seq<byte>, len: int, i: nat, at: nat)
    requires WrittenUpTo(d, len, i, at) && i < |d|
    ensures Escaped(d[..i + 1]) == Escaped(d[..i]) + EscapeByte(d[i])
    ensures if Plain(d[i]) || at + |EscapeByte(d[i])| + 1 <= len then WrittenUpTo(d, len, i + 1, at + |EscapeByte(d[i])|)
            else Stop(d, len) == i && Extent(d, len) == at
  {
    NextEscape(d, i);
    assert Plain(d[i]) <==> |EscapeByte(d[i])| == 1;
  }

  lemma NextEscape(d: seq<byte>, i: nat)
    requires i < |d|
    ensures Escaped(d[..i + 1]) == Escaped(d[..i]) + EscapeByte(d[i])
    ensures |Escaped(d[..i]) + EscapeByte(d[i])| <= |Escaped(d)|
    ensures d[i..][0] == d[i] && d[i..][1..] == d[i + 1..]
  {
    assert d[..i + 1] == d[..i] + [d[i]];
    EscapedSnoc(d[..i], d[i]);
    EscapedPrefix(d, i + 1);
  }

  lemma EscapedPrefix(d: seq<byte>, n: nat)
    requires n <= |d|
    ensures |Escaped(d[..n])| <= |Escaped(d)|
  {
    var a, b := d[..n], d[n..];
    EscapedAppend(a, b);
    assert a + b == d;
  }
}
