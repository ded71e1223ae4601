/** Domain names in DHCP options: lists of names with compression pointers (RFC 3397,
    RFC 1035 section 4.1.4) decoded to text, and a host name encoded to its wire form. */
module DnsNames {
  import opened Bytes

  type Name = seq<seq<byte>>

  // ---------------------------------------------------------------- what the bytes mean

  function PointerTarget(hi: byte, lo: byte): nat {
    (hi % 64) * 256 + lo
  }

  /** RFC 1035: at offset q of d stands the name with these labels, reached with exactly this
      number of pointers. */
  ghost predicate NameAt(d: seq<byte>, q: nat, labels: Name, jumps: nat)
    decreases jumps, |labels|
  {
    q < |d| &&
    if d[q] == 0 then labels == [] && jumps == 0
    else if d[q] < 64 then
      q + 1 + d[q] < |d| && labels != [] && labels[0] == d[q + 1..q + 1 + d[q]] &&
      NameAt(d, q + 1 + d[q], labels[1..], jumps)
    else
      d[q] >= 192 && q + 1 < |d| && jumps > 0 && NameAt(d, PointerTarget(d[q], d[q + 1]), labels, jumps - 1)
  }

  /** What one pass over a name finds: a refusal, or labels and the offset where the list goes
      on; complete says whether its terminator was met inside the data. */
  datatype NameWalk = Bad | Walked(labels: Name, next: nat, complete: bool) {
    function Behind(part: seq<byte>): NameWalk {
      if Bad? then Bad else this.(labels := [part] + labels)
    }

    function Resuming(q: nat): NameWalk {
      if Bad? then Bad else this.(next := q)
    }
  }

  /** m holds the data in its first pl bytes; what follows them is arbitrary. */
  function Walk(m: seq<byte>, pl: nat, q: nat, hops: nat): (w: NameWalk)
    requires q <= pl + 62 && pl + 63 <= |m| && hops <= 255
    ensures w.Walked? ==> q < w.next <= pl + 63
    decreases 255 - hops, pl + 63 - q
  {
    var l := m[q];
    if l == 0 then Walked([], q + 1, q < pl)
    else if q + 1 >= pl then Walked([], q + 1, false)
    else if l < 64 then Walk(m, pl, q + 1 + l, hops).Behind(m[q + 1..q + 1 + l])
    else if l < 192 || hops == 255 || PointerTarget(l, m[q + 1]) >= pl then Bad
    else Walk(m, pl, PointerTarget(l, m[q + 1]), hops + 1).Resuming(q + 2)
  }

  /** The names of a list, from offset q on. */
  function Names(m: seq<byte>, pl: nat, q: nat): Option<seq<Name>>
    requires pl + 63 <= |m|
    decreases pl - q
  {
    if q >= pl then Some([])
    else match Walk(m, pl, q, 0)
      case Bad => None
      case Walked(ls, next, _) =>
        match Names(m, pl, next)
        case None => None
        case Some(more) => Some([ls] + more)
  }

  /** Every name of the list ends inside the data and has at least one label. */
  predicate AllComplete(m: seq<byte>, pl: nat, q: nat)
    requires pl + 63 <= |m|
    decreases pl - q
  {
    q >= pl ||
    (var w := Walk(m, pl, q, 0);
     w.Walked? && w.complete && w.labels != [] && AllComplete(m, pl, w.next))
  }

  /** A walk that completes has found exactly the name that RFC 1035 puts there, and every
      name reachable with no more than 255 pointers in all is found. */
  lemma {:induction false} WalkMeetsRfc1035(m: seq<byte>, pl: nat, q: nat, hops: nat, labels: Name)
    requires q <= pl + 62 && pl + 63 <= |m| && hops <= 255
    ensures (Walk(m, pl, q, hops).Walked? && Walk(m, pl, q, hops).complete && Walk(m, pl, q, hops).labels == labels)
            <==> exists jumps: nat :: jumps + hops <= 255 && NameAt(m[..pl], q, labels, jumps)
    decreases 255 - hops, pl + 63 - q
  {
    var w := Walk(m, pl, q, hops);
    if w.Walked? && w.complete && w.labels == labels {
      WalkIsNameAt(m, pl, q, hops);
      var used: nat := Jumps(m, pl, q, hops);
      assert used + hops <= 255 && NameAt(m[..pl], q, labels, used);
      assert exists jumps: nat :: jumps + hops <= 255 && NameAt(m[..pl], q, labels, jumps);
    }
    forall jumps: nat | jumps + hops <= 255 && NameAt(m[..pl], q, labels, jumps)
      ensures Walk(m, pl, q, hops).Walked? && Walk(m, pl, q, hops).complete && Walk(m, pl, q, hops).labels == labels
    {
      NameAtIsWalked(m, pl, q, hops, labels, jumps);
    }
  }

  /** How many pointers a walk follows. */
  ghost function Jumps(m: seq<byte>, pl: nat, q: nat, hops: nat): (jumps: nat)
    requires q <= pl + 62 && pl + 63 <= |m| && hops <= 255
    ensures jumps + hops <= 255
    decreases 255 - hops, pl + 63 - q
  {
    var l := m[q];
    if l == 0 || q + 1 >= pl then 0
    else if l < 64 then Jumps(m, pl, q + 1 + l, hops)
    else if l < 192 || hops == 255 || PointerTarget(l, m[q + 1]) >= pl then 0
    else 1 + Jumps(m, pl, PointerTarget(l, m[q + 1]), hops + 1)
  }

  /** A walk that completes never leaves the data. */
  lemma CompleteStaysInside(m: seq<byte>, pl: nat, q: nat, hops: nat)
    requires q <= pl + 62 && pl + 63 <= |m| && hops <= 255
    requires Walk(m, pl, q, hops).Walked? && Walk(m, pl, q, hops).complete
    ensures q < pl && (m[q] != 0 ==> q + 1 < pl && (m[q] < 64 || (m[q] >= 192 && hops < 255)))
  {
  }

  lemma LabelInFront(d: seq<byte>, q: nat, rest: Name, jumps: nat)
    requires q < |d| && 0 < d[q] < 64 && q + 1 + d[q] < |d| && NameAt(d, q + 1 + d[q], rest, jumps)
    ensures NameAt(d, q, [d[q + 1..q + 1 + d[q]]] + rest, jumps)
  {
    assert ([d[q + 1..q + 1 + d[q]]] + rest)[1..] == rest;
  }

  lemma PointerInFront(d: seq<byte>, q: nat, labels: Name, jumps: nat)
    requires q + 1 < |d| && d[q] >= 192 && NameAt(d, PointerTarget(d[q], d[q + 1]), labels, jumps)
    ensures NameAt(d, q, labels, jumps + 1)
  {
  }

  lemma {:induction false} WalkIsNameAt(m: seq<byte>, pl: nat, q: nat, hops: nat)
    requires q <= pl + 62 && pl + 63 <= |m| && hops <= 255
    requires Walk(m, pl, q, hops).Walked? && Walk(m, pl, q, hops).complete
    ensures NameAt(m[..pl], q, Walk(m, pl, q, hops).labels, Jumps(m, pl, q, hops))
    decreases 255 - hops, pl + 63 - q
  {
    var d, l := m[..pl], m[q];
    CompleteStaysInside(m, pl, q, hops);
    assert d[q] == l;
    if l != 0 {
      assert d[q + 1] == m[q + 1];
      if l < 64 {
        var next := q + 1 + l;
        WalkIsNameAt(m, pl, next, hops);
        assert d[q + 1..next] == m[q + 1..next];
        LabelInFront(d, q, Walk(m, pl, next, hops).labels, Jumps(m, pl, next, hops));
      } else {
        var target := PointerTarget(l, m[q + 1]);
        WalkIsNameAt(m, pl, target, hops + 1);
        PointerInFront(d, q, Walk(m, pl, target, hops + 1).labels, Jumps(m, pl, target, hops + 1));
      }
    }
  }

  lemma {:induction false} NameAtIsWalked(m: seq<byte>, pl: nat, q: nat, hops: nat, labels: Name, jumps: nat)
    requires q <= pl + 62 && pl + 63 <= |m| && jumps + hops <= 255
    requires NameAt(m[..pl], q, labels, jumps)
    ensures var w := Walk(m, pl, q, hops); w.Walked? && w.complete && w.labels == labels
    decreases jumps, |labels|
  {
    var d, l := m[..pl], m[q];
    if l == 0 {
    } else if l < 64 {
      NameAtIsWalked(m, pl, q + 1 + l, hops, labels[1..], jumps);
      assert d[q + 1..q + 1 + l] == m[q + 1..q + 1 + l];
      assert labels == [labels[0]] + labels[1..];
    } else {
      NameAtIsWalked(m, pl, PointerTarget(l, m[q + 1]), hops + 1, labels, jumps - 1);
    }
  }

  lemma SameLabel(m: seq<byte>, m': seq<byte>, pl: nat, from: nat, to: nat)
    requires from <= to <= pl <= |m| && pl <= |m'| && m[..pl] == m'[..pl]
    ensures m[from..to] == m'[from..to]
  {
    assert m[from..to] == m[..pl][from..to] && m'[from..to] == m'[..pl][from..to];
  }

  /** A pointer stands for the name at the offset in its fourteen low bits; the list goes on behind
      its two bytes. */
  lemma PointerIsFollowed(m: seq<byte>, pl: nat, q: nat, target: nat)
    requires pl + 63 <= |m| && q + 1 < pl && target < pl && target < 0x4000
    requires m[q] == 192 + target / 256 && m[q + 1] == target % 256
    ensures var w, there := Walk(m, pl, q, 0), Walk(m, pl, target, 1);
            if there.Bad? then w.Bad?
            else w == Walked(there.labels, q + 2, there.complete)
  {
    assert target / 256 < 64;
    assert PointerTarget(m[q], m[q + 1]) == target;
  }

  /** Complete names are read from the data alone. */
  lemma {:induction false} WalkIgnoresTail(m: seq<byte>, m': seq<byte>, pl: nat, q: nat, hops: nat)
    requires q <= pl + 62 && pl + 63 <= |m| && pl + 63 <= |m'| && hops <= 255 && m[..pl] == m'[..pl]
    requires Walk(m, pl, q, hops).Walked? && Walk(m, pl, q, hops).complete
    ensures Walk(m', pl, q, hops) == Walk(m, pl, q, hops)
    decreases 255 - hops, pl + 63 - q
  {
    CompleteStaysInside(m, pl, q, hops);
    assert m[q] == m[..pl][q] == m'[..pl][q] == m'[q];
    var l := m[q];
    if l != 0 {
      assert m[q + 1] == m[..pl][q + 1] == m'[..pl][q + 1] == m'[q + 1];
      if l < 64 {
        WalkIgnoresTail(m, m', pl, q + 1 + l, hops);
        CompleteStaysInside(m, pl, q + 1 + l, hops);
        SameLabel(m, m', pl, q + 1, q + 1 + l);
      } else {
        WalkIgnoresTail(m, m', pl, PointerTarget(l, m[q + 1]), hops + 1);
      }
    }
  }

  lemma {:induction false} NamesIgnoreTail(m: seq<byte>, m': seq<byte>, pl: nat, q: nat)
    requires pl + 63 <= |m| && pl + 63 <= |m'| && m[..pl] == m'[..pl]
    requires AllComplete(m, pl, q)
    ensures AllComplete(m', pl, q) && Names(m', pl, q) == Names(m, pl, q) && Names(m, pl, q).Some?
    decreases pl - q
  {
    if q < pl {
      WalkIgnoresTail(m, m', pl, q, 0);
      NamesIgnoreTail(m, m', pl, Walk(m, pl, q, 0).next);
    }
  }

  // ---------------------------------------------------------------- text

  function Dotted(labels: Name): seq<byte> {
    if labels == [] then [] else labels[0] + [DOT] + Dotted(labels[1..])
  }

  function SetLast(s: seq<byte>, b: byte): (r: seq<byte>)
    ensures |r| == |s|
  {
    if s == [] then [] else s[|s| - 1 := b]
  }

  /** The text of a list before its last separator becomes the terminator. */
  function Rendered(names: seq<Name>): seq<byte> {
    if names == [] then []
    else SetLast(Rendered(names[..|names| - 1]) + Dotted(names[|names| - 1]), SPACE)
  }

  function JoinWith(parts: seq<seq<byte>>, sep: byte): seq<byte> {
    if |parts| == 0 then [] else if |parts| == 1 then parts[0] else parts[0] + [sep] + JoinWith(parts[1..], sep)
  }

  function NameText(name: Name): seq<byte> {
    JoinWith(name, DOT)
  }

  function Texts(names: seq<Name>): seq<seq<byte>> {
    seq(|names|, i requires 0 <= i < |names| => NameText(names[i]))
  }

  /** The text the decoder promises: labels joined by dots, names joined by spaces. */
  function ListText(names: seq<Name>): seq<byte> {
    JoinWith(Texts(names), SPACE)
  }

  lemma {:induction false} JoinSnoc(parts: seq<seq<byte>>, x: seq<byte>, sep: byte)
    requires parts != []
    ensures JoinWith(parts + [x], sep) == JoinWith(parts, sep) + [sep] + x
  {
    if |parts| == 1 {
      assert (parts + [x])[1..] == [x];
    } else {
      JoinSnoc(parts[1..], x, sep);
      assert (parts + [x])[1..] == parts[1..] + [x];
    }
  }

  lemma {:induction false} DottedIsText(labels: Name)
    requires labels != []
    ensures Dotted(labels) == NameText(labels) + [DOT]
  {
    if |labels| == 1 {
      assert Dotted(labels[1..]) == [];
    } else {
      DottedIsText(labels[1..]);
    }
  }

  lemma {:induction false} RenderedIsListText(names: seq<Name>)
    requires names != [] && forall i :: 0 <= i < |names| ==> names[i] != []
    ensures Rendered(names) == ListText(names) + [SPACE]
  {
    var n := |names| - 1;
    var front, last := names[..n], names[n];
    DottedIsText(last);
    assert SetLast(Rendered(front) + Dotted(last), SPACE) == Rendered(front) + NameText(last) + [SPACE];
    if front == [] {
      assert Texts(names) == [NameText(last)];
    } else {
      RenderedIsListText(front);
      assert Texts(names) == Texts(front) + [NameText(last)];
      JoinSnoc(Texts(front), NameText(last), SPACE);
    }
  }

  // ---------------------------------------------------------------- the decoder

  /** The list starts with a name that has a label; otherwise the separator of an empty first name,
      or the terminator of an empty list, is stored in front of the buffer. */
  predicate LeadsWithLabel(m: seq<byte>, pl: nat)
    requires pl + 63 <= |m|
  {
    pl > 0 && (var w := Walk(m, pl, 0, 0); w.Bad? || w.labels != [])
  }

  /** What filling makes of the byte in front of the buffer. */
  function FrontByte(m: seq<byte>, pl: nat, before: byte): (after: byte)
    requires pl + 63 <= |m|
    ensures before != SPACE && before != 0 ==> (after != before <==> !LeadsWithLabel(m, pl))
  {
    var all := Names(m, pl, 0);
    if LeadsWithLabel(m, pl) then before
    else if all.Some? && Rendered(all.value) == [] then 0
    else SPACE
  }

  /** An empty name in front of an ordinary one: two bytes are measured, and filling them stores a
      separator in front of them. */
  lemma EmptyFirstName(tail: seq<byte>)
    requires |tail| >= 63
    ensures var m := [0, 1, 97, 0] + tail;
            && Names(m, 4, 0) == Some([[], [[97]]])
            && Rendered([[], [[97]]]) == [97, SPACE]
            && !LeadsWithLabel(m, 4)
            && FrontByte(m, 4, 1) == SPACE
  {
    var m := [0, 1, 97, 0] + tail;
    var empty: Name, a: Name := [], [[97]];
    assert Walk(m, 4, 0, 0) == Walked([], 1, true);
    assert Walk(m, 4, 3, 0) == Walked([], 4, true);
    assert m[2..3] == [97] && a == [[97]] + [];
    assert Walk(m, 4, 1, 0) == Walked(a, 4, true);
    assert Names(m, 4, 4) == Some([]) && [a] + [] == [a];
    assert Names(m, 4, 1) == Some([a]);
    assert [empty] + [a] == [empty, a];
    assert Names(m, 4, 0) == Some([empty, a]);
    assert [empty, a][..1] == [empty] && [empty][..0] == [];
    assert Rendered([empty]) == SetLast(Rendered([]) + Dotted(empty), SPACE) == [];
    assert Dotted(a) == [97, DOT] by {
      assert a[1..] == [];
    }
    assert Rendered([empty, a]) == SetLast([] + Dotted(a), SPACE);
  }

  function Prepend(done: seq<Name>, more: Option<seq<Name>>): Option<seq<Name>> {
    match more
    case None => None
    case Some(ns) => Some(done + ns)
  }

  /** The text written so far into the len bytes from position base on. */
  ghost predicate TextIn(out: array?<byte>, base: nat, len: nat, at: nat, text: seq<byte>)
    reads out
  {
    TextIs(out, base, at, text) && (out != null ==> at <= len && base + len <= out.Length)
  }

  /** Only the len bytes from position base on have been written. */
  twostate predicate OthersKept(out: array?<byte>, base: nat, len: nat)
    reads out
  {
    out != null ==> forall j :: 0 <= j < out.Length && (j < base || base + len <= j) ==> out[j] == old(out[j])
  }

  /** Adds one label and its dot; false when it does not fit any more. */
  method EmitLabel(out: array?<byte>, base: nat, len: nat, at: nat, part: seq<byte>, ghost text: seq<byte>)
    returns (ok: bool, end: nat)
    requires TextIn(out, base, len, at, text)
    modifies out
    ensures ok ==> TextIn(out, base, len, end, text + part + [DOT])
    ensures !ok ==> out != null && at + |part| + 1 > len
    ensures OthersKept(out, base, len)
  {
    if out != null {
      if |part| + 1 > len - at {
        return false, at;
      }
      forall i | 0 <= i < |part| {
        out[base + at + i] := part[i];
      }
      out[base + at + |part|] := DOT;
    }
    return true, at + |part| + 1;
  }

  /** A name in progress: the labels read, and where the list goes on once a pointer has been
      followed (-1 before). */
  datatype Progress = Progress(labels: Name, r: int) {
    predicate Ok() {
      r >= -1
    }

    function Finish(w: NameWalk): NameWalk
      requires Ok()
    {
      match w
      case Bad => Bad
      case Walked(ls, next, c) => Walked(labels + ls, if r == -1 then next else r, c)
    }
  }

  lemma LabelStep(m: seq<byte>, pl: nat, q: nat, hops: nat, s: Progress)
    requires q + 1 < pl && pl + 63 <= |m| && hops <= 255 && s.Ok() && 0 < m[q] < 64
    ensures var s' := s.(labels := s.labels + [m[q + 1..q + 1 + m[q]]]);
            s.Finish(Walk(m, pl, q, hops)) == s'.Finish(Walk(m, pl, q + 1 + m[q], hops))
  {
    var part, rest := m[q + 1..q + 1 + m[q]], Walk(m, pl, q + 1 + m[q], hops);
    if rest.Walked? {
      assert s.labels + ([part] + rest.labels) == s.labels + [part] + rest.labels;
    }
  }

  lemma JumpStep(m: seq<byte>, pl: nat, q: nat, hops: nat, s: Progress)
    requires q + 1 < pl && pl + 63 <= |m| && hops < 255 && s.Ok() && m[q] >= 192 && PointerTarget(m[q], m[q + 1]) < pl
    ensures var s' := s.(r := if s.r == -1 then q + 2 else s.r);
            s'.Ok() && s.Finish(Walk(m, pl, q, hops)) == s'.Finish(Walk(m, pl, PointerTarget(m[q], m[q + 1]), hops + 1))
  {
  }

  /** Labels never get lost: the text only grows. */
  lemma TextGrows(text: seq<byte>, labels: Name, part: seq<byte>, s: Progress, w: NameWalk)
    requires s.Ok() && s.labels == labels + [part]
    ensures text + Dotted(s.labels) == text + Dotted(labels) + part + [DOT]
    ensures s.Finish(w).Walked? ==>
              |text + Dotted(s.Finish(w).labels)| >= |text + Dotted(labels)| + |part| + 1
  {
    DottedAppend(labels, [part]);
    assert Dotted([part]) == part + [DOT] + Dotted([part][1..]);
    if w.Walked? {
      DottedAppend(s.labels, w.labels);
    }
  }

  lemma {:induction false} DottedAppend(a: Name, b: Name)
    ensures Dotted(a + b) == Dotted(a) + Dotted(b)
  {
    if a == [] {
      assert a + b == b;
    } else {
      DottedAppend(a[1..], b);
      assert (a + b)[1..] == a[1..] + b;
    }
  }

  /** How a step leaves the name: still in progress, ended, refused, or out of buffer space. */
  datatype Status = More | Ended | Refused | Full

  /** What holds between two steps over the name that starts at start. */
  ghost predicate InName(pl: nat, m: seq<byte>, w: NameWalk, q: int, hops: int, r: int, s: Progress) {
    && pl + 63 <= |m| && 0 <= q <= pl + 62 && 0 <= hops <= 255 && s.Ok() && r == s.r
    && w == s.Finish(Walk(m, pl, q, hops))
  }

  /** One turn of the inner loop: a length byte and what it introduces. */
  method StepName(out: array?<byte>, base: nat, len: nat, at: nat, pl: nat, m: seq<byte>, q: nat, hops: nat, r: int,
                  ghost text: seq<byte>, ghost w: NameWalk, ghost s: Progress)
    returns (status: Status, end: nat, q': nat, hops': nat, r': int, ghost s': Progress)
    requires InName(pl, m, w, q, hops, r, s) && TextIn(out, base, len, at, text + Dotted(s.labels))
    modifies out
    ensures status == More ==> InName(pl, m, w, q', hops', r', s') && TextIn(out, base, len, end, text + Dotted(s'.labels))
    ensures r' >= -1
    ensures status == More ==> hops' > hops || (hops' == hops && q' > q)
    ensures status == Ended ==> w.Walked? && TextIn(out, base, len, end, text + Dotted(w.labels)) &&
                                w.next == if r' == -1 then q' else r'
    ensures status == Refused ==> w.Bad?
    ensures status == Full ==> out != null && (w.Bad? || |text + Dotted(w.labels)| > len)
    ensures OthersKept(out, base, len)
  {
    end, q', hops', r', s' := at, q + 1, hops, r, s;
    var l := m[q];
    if l == 0 || q' >= pl {
      assert s.labels + [] == s.labels;
      return Ended, end, q', hops', r', s';
    }
    if 64 <= l < 192 {
      return Refused, end, q', hops', r', s';
    }
    if l >= 192 {
      var target := PointerTarget(l, m[q']);
      q' := q' + 1;
      if r == -1 {
        r' := q';
      }
      hops' := hops + 1;
      if hops' > 255 || target >= pl {
        return Refused, end, q', hops', r', s';
      }
      JumpStep(m, pl, q, hops, s);
      s' := s.(r := r');
      return More, end, target, hops', r', s';
    }
    var ok;
    ok, end, s' := StepLabel(out, base, len, at, pl, m, q, hops, text, w, s);
    return if ok then More else Full, end, q' + l, hops', r', s';
  }

  /** A plain label is copied, if it fits. */
  method StepLabel(out: array?<byte>, base: nat, len: nat, at: nat, pl: nat, m: seq<byte>, q: nat, hops: nat,
                   ghost text: seq<byte>, ghost w: NameWalk, ghost s: Progress)
    returns (ok: bool, end: nat, ghost s': Progress)
    requires InName(pl, m, w, q, hops, s.r, s) && TextIn(out, base, len, at, text + Dotted(s.labels))
    requires q + 1 < pl && 0 < m[q] < 64
    modifies out
    ensures ok ==> InName(pl, m, w, q + 1 + m[q], hops, s.r, s') && TextIn(out, base, len, end, text + Dotted(s'.labels))
    ensures !ok ==> out != null && (w.Bad? || |text + Dotted(w.labels)| > len)
    ensures OthersKept(out, base, len)
  {
    var part := m[q + 1..q + 1 + m[q]];
    LabelStep(m, pl, q, hops, s);
    s' := s.(labels := s.labels + [part]);
    TextGrows(text, s.labels, part, s', Walk(m, pl, q + 1 + m[q], hops));
    ok, end := EmitLabel(out, base, len, at, part, text + Dotted(s.labels));
  }

  /** Reads one name, adding its labels to the text. */
  method DecodeName(out: array?<byte>, base: nat, len: nat, at: nat, pl: nat, m: seq<byte>, start: nat, ghost text: seq<byte>)
    returns (status: Status, end: nat, next: nat)
    requires pl + 63 <= |m| && start < pl
    requires TextIn(out, base, len, at, text)
    modifies out
    ensures var w := Walk(m, pl, start, 0);
            match status
            case More => false
            case Ended => w.Walked? && w.next == next && TextIn(out, base, len, end, text + Dotted(w.labels))
            case Refused => w.Bad?
            case Full => out != null && (w.Bad? || |text + Dotted(w.labels)| > len)
    ensures OthersKept(out, base, len)
  {
    ghost var w := Walk(m, pl, start, 0);
    ghost var s := Progress([], -1);
    assert w.Walked? ==> [] + w.labels == w.labels;
    assert text + [] == text;
    var q: nat, hops: int, r: int := start, 0, -1;
    end, status := at, More;
    while status == More
      invariant status == More ==> InName(pl, m, w, q, hops, r, s) && TextIn(out, base, len, end, text + Dotted(s.labels))
      invariant r >= -1 && 0 <= hops
      invariant status == Ended ==> w.Walked? && TextIn(out, base, len, end, text + Dotted(w.labels)) &&
                                    w.next == if r == -1 then q else r
      invariant status == Refused ==> w.Bad?
      invariant status == Full ==> out != null && (w.Bad? || |text + Dotted(w.labels)| > len)
      invariant OthersKept(out, base, len)
      decreases status == More, 255 - hops, pl + 63 - q
    {
      status, end, q, hops, r, s := StepName(out, base, len, end, pl, m, q, hops, r, text, w, s);
    }
    next := if r != -1 then r else q;
  }

  lemma OneMoreName(done: seq<Name>, labels: Name, more: Option<seq<Name>>)
    ensures Rendered(done + [labels]) == SetLast(Rendered(done) + Dotted(labels), SPACE)
    ensures more.Some? ==> Prepend(done, Some([labels] + more.value)) == Prepend(done + [labels], more)
  {
    assert (done + [labels])[..|done|] == done;
    if more.Some? {
      assert done + ([labels] + more.value) == done + [labels] + more.value;
    }
  }

  /** Names that follow only lengthen the text. */
  lemma {:induction false} TextOfMore(done: seq<Name>, labels: Name, more: seq<Name>)
    ensures |Rendered(done + ([labels] + more))| >= |Rendered(done) + Dotted(labels)|
    decreases |more|
  {
    var all := done + ([labels] + more);
    var n := |all| - 1;
    if more == [] {
      assert all[..n] == done;
    } else {
      assert all[..n] == done + ([labels] + more[..|more| - 1]);
      TextOfMore(done, labels, more[..|more| - 1]);
    }
  }

  /** Decodes a whole list into the len bytes from position base on; out is null in the measuring
      pass. Nothing but those bytes is touched, and the byte in front of them if the first name has
      no label. */
  method DecodeRfc3397(out: array?<byte>, base: nat, len: nat, pl: nat, m: seq<byte>) returns (count: int)
    requires pl + 63 <= |m|
    requires out != null ==> 1 <= base && base + len <= out.Length
    modifies out
    ensures out == null ==> count == match Names(m, pl, 0) case None => 0 case Some(names) => |Rendered(names)|
    ensures out != null && Names(m, pl, 0).None? ==> count == 0 || count == -1
    ensures out != null && Names(m, pl, 0).Some? ==>
              var text := Rendered(Names(m, pl, 0).value);
              if |text| <= len then count == |text| && TextIs(out, base, |text|, SetLast(text, 0)) else count == -1
    ensures out != null ==> out[base - 1] == FrontByte(m, pl, old(out[base - 1])) && OthersKept(out, base - 1, len + 1)
  {
    ghost var done: seq<Name> := [];
    ListStarts(m, pl);
    var q, at: nat := 0, 0;
    while q < pl
      invariant ListAt(out, base, len, m, pl, done, q, at)
      invariant out != null ==> OthersKept(out, base - 1, len + 1)
      invariant out != null ==> Fronted(out[base - 1], [], done, old(out[base - 1]))
      decreases pl - q
    {
      var status;
      status, at, q, done := NextName(out, base, len, at, pl, m, q, done);
      if status != Ended {
        return if status == Refused then 0 else -1;
      }
    }
    ListEnds(m, pl, q, done, at);
    PutLast(out, base, len, at, 0, Rendered(done));
    return at;
  }

  /** The names in done have been read in front of offset q, and make count bytes of text. */
  ghost predicate Reading(m: seq<byte>, pl: nat, done: seq<Name>, q: nat, count: nat)
    requires pl + 63 <= |m|
  {
    && Names(m, pl, 0) == Prepend(done, Names(m, pl, q))
    && count == |Rendered(done)|
    && (q == 0 <==> done == [])
    && (done != [] ==> FirstName(m, pl, done[0]) && (done[0] != [] ==> count > 0) && (|done| == 1 && done[0] == [] ==> count == 0))
  }

  ghost predicate FirstName(m: seq<byte>, pl: nat, labels: Name)
    requires pl + 63 <= |m|
  {
    pl > 0 && Walk(m, pl, 0, 0).Walked? && Walk(m, pl, 0, 0).labels == labels
  }

  ghost predicate ListAt(out: array?<byte>, base: nat, len: nat, m: seq<byte>, pl: nat, done: seq<Name>, q: nat, count: nat)
    requires pl + 63 <= |m|
    reads out
  {
    Reading(m, pl, done, q, count) && TextIn(out, base, len, count, Rendered(done))
  }

  /** The byte in front of the buffer once the list read has grown: a separator is stored there as
      long as no label has been read. */
  ghost predicate Fronted(after: byte, done: seq<Name>, done': seq<Name>, before: byte) {
    if done != [] && done[0] == [] then (before == SPACE ==> after == SPACE)
    else after == if done' != [] && done'[0] == [] then SPACE else before
  }

  lemma ListStarts(m: seq<byte>, pl: nat)
    requires pl + 63 <= |m|
    ensures Reading(m, pl, [], 0, 0)
  {
    var all := Names(m, pl, 0);
    assert all.Some? ==> [] + all.value == all.value;
  }

  lemma ListEnds(m: seq<byte>, pl: nat, q: nat, done: seq<Name>, count: nat)
    requires pl + 63 <= |m| && q >= pl && Reading(m, pl, done, q, count)
    ensures Names(m, pl, 0) == Some(done)
    ensures LeadsWithLabel(m, pl) <==> done != [] && done[0] != []
  {
    assert done + [] == done;
  }

  /** What the next name does to the list. */
  lemma ReadNext(m: seq<byte>, pl: nat, done: seq<Name>, q: nat, count: nat)
    requires pl + 63 <= |m| && q < pl && Reading(m, pl, done, q, count)
    ensures var w := Walk(m, pl, q, 0);
            if w.Bad? then Names(m, pl, 0).None? && (done == [] ==> LeadsWithLabel(m, pl))
            else
              var text := Rendered(done) + Dotted(w.labels);
              && Rendered(done + [w.labels]) == SetLast(text, SPACE)
              && Reading(m, pl, done + [w.labels], w.next, |text|)
              && (done == [] && w.labels != [] ==> LeadsWithLabel(m, pl))
              && (Names(m, pl, 0).Some? ==> |Rendered(Names(m, pl, 0).value)| >= |text|)
  {
    var w := Walk(m, pl, q, 0);
    if w.Walked? {
      var more := Names(m, pl, w.next);
      OneMoreName(done, w.labels, more);
      if more.Some? {
        TextOfMore(done, w.labels, more.value);
      }
    }
  }

  /** Reads one name of the list and puts its separator. */
  method NextName(out: array?<byte>, base: nat, len: nat, at: nat, pl: nat, m: seq<byte>, q: nat, ghost done: seq<Name>)
    returns (status: Status, end: nat, next: nat, ghost done': seq<Name>)
    requires pl + 63 <= |m| && q < pl && ListAt(out, base, len, m, pl, done, q, at)
    requires out != null ==> 1 <= base
    modifies out
    ensures status != More
    ensures status == Ended ==> ListAt(out, base, len, m, pl, done', next, end) && next > q && done < done' && |done'| == |done| + 1
    ensures status != Ended ==> done' == done && (done == [] ==> LeadsWithLabel(m, pl))
    ensures status == Refused ==> Names(m, pl, 0).None?
    ensures status == Full ==> out != null && (Names(m, pl, 0).None? || |Rendered(Names(m, pl, 0).value)| > len)
    ensures out != null ==> OthersKept(out, base - 1, len + 1)
    ensures out != null ==> Fronted(out[base - 1], done, done', old(out[base - 1]))
  {
    ghost var w := Walk(m, pl, q, 0);
    ReadNext(m, pl, done, q, at);
    done' := done;
    status, end, next := DecodeName(out, base, len, at, pl, m, q, Rendered(done));
    if status != Ended {
      return;
    }
    PutLast(out, base, len, end, SPACE, Rendered(done) + Dotted(w.labels));
    done' := done + [w.labels];
  }

  /** The last byte of the text is replaced; without any, the byte in front of it is. */
  method PutLast(out: array?<byte>, base: nat, len: nat, end: nat, b: byte, ghost text: seq<byte>)
    requires TextIn(out, base, len, end, text) && (out != null ==> 1 <= base)
    modifies out
    ensures TextIn(out, base, len, end, SetLast(text, b))
    ensures out != null ==> OthersKept(out, base - 1, len + 1)
    ensures out != null ==> out[base - 1] == if end == 0 then b else old(out[base - 1])
  {
    if out != null {
      out[base + end - 1] := b;
    }
  }

  /** On data whose names are complete and not empty the decoder yields the promised text,
      which fixes its length: the measuring pass returns exactly what the filling pass needs. */
  lemma CompleteListDecodes(m: seq<byte>, pl: nat)
    requires pl + 63 <= |m| && pl > 0 && AllComplete(m, pl, 0)
    ensures Names(m, pl, 0).Some? && LeadsWithLabel(m, pl)
    ensures var names := Names(m, pl, 0).value;
            SetLast(Rendered(names), 0) == ListText(names) + [0] && |Rendered(names)| == |ListText(names)| + 1
  {
    NamesHaveLabels(m, pl, 0);
    RenderedIsListText(Names(m, pl, 0).value);
  }

  lemma {:induction false} NamesHaveLabels(m: seq<byte>, pl: nat, q: nat)
    requires pl + 63 <= |m| && AllComplete(m, pl, q)
    ensures Names(m, pl, q).Some?
    ensures var names := Names(m, pl, q).value;
            (q < pl ==> names != []) && forall i :: 0 <= i < |names| ==> names[i] != [] && LabelsFit(names[i])
    decreases pl - q
  {
    if q < pl {
      NamesHaveLabels(m, pl, Walk(m, pl, q, 0).next);
      WalkedLabelsFit(m, pl, q, 0);
    }
  }

  // ---------------------------------------------------------------- the wire form

  predicate LabelsFit(name: Name) {
    forall i :: 0 <= i < |name| ==> 1 <= |name[i]| <= 63
  }

  lemma {:induction false} WalkedLabelsFit(m: seq<byte>, pl: nat, q: nat, hops: nat)
    requires q <= pl + 62 && pl + 63 <= |m| && hops <= 255
    ensures Walk(m, pl, q, hops).Walked? ==> LabelsFit(Walk(m, pl, q, hops).labels)
    decreases 255 - hops, pl + 63 - q
  {
    var l := m[q];
    if l == 0 || q + 1 >= pl {
    } else if l < 64 {
      WalkedLabelsFit(m, pl, q + 1 + l, hops);
    } else if l >= 192 && hops < 255 && PointerTarget(l, m[q + 1]) < pl {
      WalkedLabelsFit(m, pl, PointerTarget(l, m[q + 1]), hops + 1);
    }
  }

  /** The uncompressed wire form of a name. */
  function Wire(name: Name): seq<byte>
    requires LabelsFit(name)
  {
    if name == [] then [0] else [|name[0]|] + name[0] + Wire(name[1..])
  }

  function WireList(names: seq<Name>): seq<byte>
    requires forall i :: 0 <= i < |names| ==> LabelsFit(names[i])
  {
    if names == [] then [] else Wire(names[0]) + WireList(names[1..])
  }

  lemma {:induction false} WalkWire(m: seq<byte>, pl: nat, q: nat, hops: nat, name: Name)
    requires LabelsFit(name) && StandsAt(m, q, Wire(name))
    requires q + |Wire(name)| <= pl && pl + 63 <= |m| && hops <= 255
    ensures Walk(m, pl, q, hops) == Walked(name, q + |Wire(name)|, true)
    decreases |name|
  {
    assert m[q + 0] == Wire(name)[0];
    if name != [] {
      var l := |name[0]|;
      var head := [l] + name[0];
      StandsSplit(m, q, head, Wire(name[1..]));
      forall i | 0 <= i < l ensures m[q + 1..q + 1 + l][i] == name[0][i] {
        assert m[q + (1 + i)] == head[1 + i];
      }
      assert m[q + 1..q + 1 + l] == name[0];
      WalkWire(m, pl, q + 1 + l, hops, name[1..]);
      assert [name[0]] + name[1..] == name;
    }
  }

  /** A list written without compression is read back as the same names. */
  lemma {:induction false} NamesOfWire(m: seq<byte>, pl: nat, q: nat, names: seq<Name>)
    requires forall i :: 0 <= i < |names| ==> LabelsFit(names[i])
    requires StandsAt(m, q, WireList(names)) && q + |WireList(names)| == pl && pl + 63 <= |m|
    ensures Names(m, pl, q) == Some(names)
    ensures (forall i :: 0 <= i < |names| ==> names[i] != []) ==> AllComplete(m, pl, q)
    decreases |names|
  {
    if names != [] {
      var first, more := Wire(names[0]), WireList(names[1..]);
      StandsSplit(m, q, first, more);
      WalkWire(m, pl, q, 0, names[0]);
      NamesOfWire(m, pl, q + |first|, names[1..]);
      assert [names[0]] + names[1..] == names;
    }
  }

  /** Expanding all pointers keeps the meaning: the names of a complete list, written again
      without compression, decode to the same names and so to the same text. */
  lemma ExpansionKeepsMeaning(m: seq<byte>, pl: nat, tail: seq<byte>)
    requires pl + 63 <= |m| && AllComplete(m, pl, 0) && |tail| >= 63
    ensures Names(m, pl, 0).Some?
    ensures var names := Names(m, pl, 0).value;
            && (forall i :: 0 <= i < |names| ==> LabelsFit(names[i]))
            && Names(WireList(names) + tail, |WireList(names)|, 0) == Some(names)
            && AllComplete(WireList(names) + tail, |WireList(names)|, 0)
  {
    NamesHaveLabels(m, pl, 0);
    var names := Names(m, pl, 0).value;
    NamesOfWire(WireList(names) + tail, |WireList(names)|, 0, names);
  }

  // ---------------------------------------------------------------- the encoder

  /** What encoding makes of src when cur has been read of the current label: a label's length
      is cut to a byte, and a label of length zero (mod 256) ends the result. */
  function Encoded(src: seq<byte>, cur: seq<byte>): seq<byte>
    decreases |src|
  {
    if src == [] || src == [DOT] then [|cur| % 256] + cur + [0]
    else if src[0] != DOT then Encoded(src[1..], cur + [src[0]])
    else if |cur| % 256 == 0 then [0] + cur
    else [|cur| % 256] + cur + Encoded(src[1..], [])
  }

  function EncodedHost(src: seq<byte>): seq<byte> {
    if src == [] then [] else Encoded(src, [])
  }

  /** head stands in front of position lp; the label behind it has grown to cur. */
  ghost predicate InLabel(dst: array<byte>, lp: nat, p: nat, head: seq<byte>, cur: seq<byte>)
    reads dst
  {
    lp < p <= dst.Length && dst[..lp] == head && dst[lp + 1..p] == cur
  }

  method PutChar(dst: array<byte>, lp: nat, p: nat, c: byte, ghost head: seq<byte>, ghost cur: seq<byte>)
    requires InLabel(dst, lp, p, head, cur) && p < dst.Length
    modifies dst
    ensures InLabel(dst, lp, p + 1, head, cur + [c])
    ensures forall j :: p < j < dst.Length ==> dst[j] == old(dst[j])
  {
    dst[p] := c;
  }

  /** Stores the length of the label that fills dst[lp + 1..p]. */
  method CloseLabel(dst: array<byte>, lp: nat, p: nat, ghost head: seq<byte>, ghost cur: seq<byte>)
    requires InLabel(dst, lp, p, head, cur)
    modifies dst
    ensures dst[..p] == head + ([|cur| % 256] + cur)
    ensures dst[lp] == |cur| % 256
    ensures forall i :: p <= i < dst.Length ==> dst[i] == old(dst[i])
  {
    dst[lp] := (p - lp - 1) % 256;
  }

  method PutTerminated(dst: array<byte>, lp: nat, p: nat, ghost head: seq<byte>, ghost cur: seq<byte>)
    requires InLabel(dst, lp, p, head, cur) && p < dst.Length
    modifies dst
    ensures dst[..p + 1] == head + ([|cur| % 256] + cur + [0])
    ensures forall i :: p + 1 <= i < dst.Length ==> dst[i] == old(dst[i])
  {
    CloseLabel(dst, lp, p, head, cur);
    dst[p] := 0;
    assert dst[..p + 1] == head + ([|cur| % 256] + cur) + [0];
  }

  lemma {:induction false} EncodedHoldsCur(src: seq<byte>, cur: seq<byte>)
    ensures |Encoded(src, cur)| > |cur|
    ensures src == [] || src == [DOT] ==> |Encoded(src, cur)| == |cur| + 2
    decreases |src|
  {
    if src != [] && src != [DOT] && src[0] != DOT {
      EncodedHoldsCur(src[1..], cur + [src[0]]);
    }
  }

  lemma EncodedPastDot(src: seq<byte>, i: nat, head: seq<byte>, cur: seq<byte>)
    requires i + 1 < |src| && src[i] == DOT && |cur| % 256 != 0
    ensures head + Encoded(src[i..], cur) == head + ([|cur| % 256] + cur) + Encoded(src[i + 1..], [])
    ensures |Encoded(src[i..], cur)| > |cur| + 1
  {
    EncodedHoldsCur(src[i + 1..], []);
    assert src[i..][1..] == src[i + 1..];
  }

  lemma EncodedPastChar(src: seq<byte>, i: nat, cur: seq<byte>)
    requires i < |src| && src[i] != DOT
    ensures Encoded(src[i..], cur) == Encoded(src[i + 1..], cur + [src[i]])
    ensures |Encoded(src[i..], cur)| > |cur| + 1
  {
    EncodedHoldsCur(src[i + 1..], cur + [src[i]]);
    assert src[i..][1..] == src[i + 1..];
  }

  /** src holds the characters of a C string, without its terminator. */
  method EncodeRfc1035(src: seq<byte>, dst: array<byte>, at: nat) returns (n: nat)
    requires 0 !in src && at + |EncodedHost(src)| <= dst.Length
    modifies dst
    ensures n == |EncodedHost(src)|
    ensures dst[..at + n] == old(dst[..at]) + EncodedHost(src)
    ensures forall i :: at + n <= i < dst.Length ==> dst[i] == old(dst[i])
  {
    if src == [] {
      return 0;
    }
    ghost var whole := dst[..at] + EncodedHost(src);
    ghost var head: seq<byte> := dst[..at];
    ghost var cur: seq<byte> := [];
    EncodedHoldsCur(src, cur);
    var lp, p, i := at, at + 1, 0;
    assert src[0..] == src;
    while i < |src|
      invariant 0 <= i <= |src| && at <= lp && 0 <= p && Encoding(dst, src, i, lp, p, head, cur, whole)
      invariant forall j :: p <= j < dst.Length ==> dst[j] == old(dst[j])
    {
      if src[i] == DOT {
        if i + 1 == |src| {
          break;
        }
        var empty;
        empty, head := EncodeDot(dst, src, i, lp, p, head, cur, whole);
        if empty {
          return p - at;
        }
        cur := [];
        lp := p;
        p := p + 1;
      } else {
        EncodeChar(dst, src, i, lp, p, head, cur, whole);
        cur := cur + [src[i]];
        p := p + 1;
      }
      i := i + 1;
    }
    EncodedHoldsCur(src[i..], cur);
    PutTerminated(dst, lp, p, head, cur);
    return p + 1 - at;
  }

  /** The encoder stands in front of character i; cur has been copied of the current label, and
      whole is what the field will hold. */
  ghost predicate Encoding(dst: array<byte>, src: seq<byte>, i: nat, lp: nat, p: nat, head: seq<byte>, cur: seq<byte>, whole: seq<byte>)
    reads dst
  {
    i <= |src| && InLabel(dst, lp, p, head, cur) && whole == head + Encoded(src[i..], cur) && |whole| <= dst.Length
  }

  /** Any other character is copied. */
  method EncodeChar(dst: array<byte>, src: seq<byte>, i: nat, lp: nat, p: nat, ghost head: seq<byte>, ghost cur: seq<byte>, ghost whole: seq<byte>)
    requires i < |src| && src[i] != DOT && Encoding(dst, src, i, lp, p, head, cur, whole)
    modifies dst
    ensures Encoding(dst, src, i + 1, lp, p + 1, head, cur + [src[i]], whole)
    ensures forall j :: p < j < dst.Length ==> dst[j] == old(dst[j])
  {
    EncodedPastChar(src, i, cur);
    PutChar(dst, lp, p, src[i], head, cur);
  }

  /** A dot closes the label; an empty label ends the encoding. */
  method EncodeDot(dst: array<byte>, src: seq<byte>, i: nat, lp: nat, p: nat, ghost head: seq<byte>, ghost cur: seq<byte>, ghost whole: seq<byte>)
    returns (empty: bool, ghost head': seq<byte>)
    requires i + 1 < |src| && src[i] == DOT && Encoding(dst, src, i, lp, p, head, cur, whole)
    modifies dst
    ensures empty ==> dst[..p] == whole
    ensures !empty ==> Encoding(dst, src, i + 1, p, p + 1, head', [], whole)
    ensures forall j :: p <= j < dst.Length ==> dst[j] == old(dst[j])
  {
    CloseLabel(dst, lp, p, head, cur);
    empty := dst[lp] == 0;
    head' := head + ([|cur| % 256] + cur);
    if !empty {
      EncodedPastDot(src, i, head, cur);
    }
  }

  /** A name whose dotted text is an ordinary host name: labels of 1 to 63 bytes without dots
      and without NUL. */
  ghost predicate HostName(name: Name) {
    name != [] && LabelsFit(name) &&
    forall i :: 0 <= i < |name| ==> DOT !in name[i] && 0 !in name[i]
  }

  lemma {:induction false} EncodedRun(cur: seq<byte>, part: seq<byte>, src: seq<byte>)
    requires DOT !in part
    ensures Encoded(part + src, cur) == Encoded(src, cur + part)
    decreases |part|
  {
    if part == [] {
      assert part + src == src && cur + part == cur;
    } else {
      assert (part + src)[0] == part[0] && (part + src)[1..] == part[1..] + src;
      assert part + src != [DOT];
      EncodedRun(cur + [part[0]], part[1..], src);
      assert cur + [part[0]] + part[1..] == cur + part;
    }
  }

  lemma EncodedAtDot(src: seq<byte>, cur: seq<byte>)
    requires |src| > 1 && src[0] == DOT && 0 < |cur| < 256
    ensures Encoded(src, cur) == [|cur|] + cur + Encoded(src[1..], [])
  {
    assert |cur| % 256 == |cur|;
  }

  /** Encoding the dotted text of a host name gives its wire form, with or without a final dot. */
  lemma {:induction false} EncodedIsWire(name: Name, dot: bool)
    requires HostName(name)
    ensures Encoded(NameText(name) + if dot then [DOT] else [], []) == Wire(name)
    decreases |name|
  {
    var end: seq<byte> := if dot then [DOT] else [];
    var first, more := name[0], name[1..];
    if more == [] {
      EncodedRun([], first, end);
      assert [] + first == first;
      assert Wire(name) == [|first|] + first + Wire([]);
    } else {
      var rest := NameText(more) + end;
      assert NameText(name) + end == first + ([DOT] + rest);
      EncodedRun([], first, [DOT] + rest);
      assert [] + first == first;
      assert rest != [] by {
        assert |NameText(more)| >= |more[0]| > 0;
      }
      assert ([DOT] + rest)[1..] == rest;
      EncodedAtDot([DOT] + rest, first);
      EncodedIsWire(more, dot);
    }
  }

  /** A single label of any length is encoded with the low byte of its length in front, and an empty
      one in front of more ends the encoding at once. */
  lemma OneLabelEncoded(part: seq<byte>, rest: seq<byte>)
    requires DOT !in part
    ensures part != [] ==> EncodedHost(part) == [|part| % 256] + part + [0]
    ensures rest != [] ==> EncodedHost([DOT] + rest) == [0]
    ensures rest != [] && 0 < |part| < 256 ==> EncodedHost(part + ([DOT] + ([DOT] + rest))) == [|part|] + part + [0]
  {
    EncodedRun([], part, []);
    assert part + [] == part && [] + part == part;
    EncodedRun([], part, [DOT] + ([DOT] + rest));
    if rest != [] {
      EmptyLabelEnds([DOT] + rest);
      if 0 < |part| < 256 {
        assert ([DOT] + ([DOT] + rest))[1..] == [DOT] + rest;
        EncodedAtDot([DOT] + ([DOT] + rest), part);
      }
    }
  }

  lemma EmptyLabelEnds(src: seq<byte>)
    requires |src| > 1 && src[0] == DOT
    ensures Encoded(src, []) == [0]
  {
    assert [0] + [] == [0];
  }

  lemma {:induction false} TextHasNoNul(name: Name)
    requires HostName(name)
    ensures NameText(name) != [] && 0 !in NameText(name)
    decreases |name|
  {
    if |name| > 1 {
      TextHasNoNul(name[1..]);
    }
  }

  /** Decoding the encoded host name gives the name back, NUL-terminated; one trailing dot makes
      no difference, and neither does what stands behind the encoded bytes. */
  lemma HostNameRoundTrip(name: Name, dot: bool, tail: seq<byte>)
    requires HostName(name) && |tail| >= 63
    ensures var src := NameText(name) + if dot then [DOT] else [];
            var m, pl := EncodedHost(src) + tail, |EncodedHost(src)|;
            && 0 !in src && src != []
            && AllComplete(m, pl, 0) && Names(m, pl, 0) == Some([name])
            && SetLast(Rendered([name]), 0) == NameText(name) + [0]
  {
    TextHasNoNul(name);
    EncodedIsWire(name, dot);
    var src := NameText(name) + if dot then [DOT] else [];
    assert EncodedHost(src) == Wire(name) == WireList([name]) by {
      assert WireList([name]) == Wire(name) + WireList([]);
    }
    NamesOfWire(EncodedHost(src) + tail, |EncodedHost(src)|, 0, [name]);
    RenderedIsListText([name]);
    assert Texts([name]) == [NameText(name)];
  }
}
