/** The option field of a DHCP message: what it means as a list of entries, and the scanner
    that looks one option up in it (joining an option that was split, as RFC 3396 asks). */
module DhcpOptions {
  import opened Bytes

  const PAD: byte := 0
  const END: byte := 255
  const OVERLOAD: byte := 52

  // ---------------------------------------------------------------- entries of a field

  datatype Entry = Entry(code: byte, value: seq<byte>)

  function Clip(o: seq<byte>, from: nat, n: nat): seq<byte>
    requires from <= |o|
  {
    if from + n <= |o| then o[from..from + n] else o[from..]
  }

  /** The entries found from position p up to END or the end of the field. A code in the very
      last byte has no room for a length and is not an entry; the last value is clipped. */
  function Entries(o: seq<byte>, p: nat): seq<Entry>
    decreases |o| - p
  {
    if p + 1 >= |o| || o[p] == END then []
    else if o[p] == PAD then Entries(o, p + 1)
    else [Entry(o[p], Clip(o, p + 2, o[p + 1]))] + Entries(o, p + 2 + o[p + 1])
  }

  /** The in-order concatenation of all values stored under one code. */
  function Collected(es: seq<Entry>, code: byte): seq<byte> {
    if es == [] then []
    else (if es[0].code == code then es[0].value else []) + Collected(es[1..], code)
  }

  function Occurrences(es: seq<Entry>, code: byte): nat {
    if es == [] then 0
    else (if es[0].code == code then 1 else 0) + Occurrences(es[1..], code)
  }

  ghost predicate Mentions(es: seq<Entry>, code: byte) {
    exists i :: 0 <= i < |es| && es[i].code == code
  }

  // ---------------------------------------------------------------- writing entries

  predicate Encodable(e: Entry) {
    e.code != PAD && e.code != END && |e.value| <= 255
  }

  ghost predicate AllEncodable(es: seq<Entry>) {
    forall i :: 0 <= i < |es| ==> Encodable(es[i])
  }

  function EncodeEntry(e: Entry): seq<byte>
    requires |e.value| <= 255
  {
    [e.code, |e.value|] + e.value
  }

  function Encode(es: seq<Entry>): seq<byte>
    requires forall i :: 0 <= i < |es| ==> |es[i].value| <= 255
  {
    if es == [] then [] else EncodeEntry(es[0]) + Encode(es[1..])
  }

  lemma {:induction false} EncodeAppend(a: seq<Entry>, b: seq<Entry>)
    requires forall i :: 0 <= i < |a| ==> |a[i].value| <= 255
    requires forall i :: 0 <= i < |b| ==> |b[i].value| <= 255
    ensures Encode(a + b) == Encode(a) + Encode(b)
  {
    if a == [] {
      assert a + b == b;
    } else {
      var both := a + b;
      assert both[0] == a[0] && both[1..] == a[1..] + b;
      EncodeAppend(a[1..], b);
      assert Encode(both) == EncodeEntry(a[0]) + Encode(both[1..]);
      Assoc(EncodeEntry(a[0]), Encode(a[1..]), Encode(b));
    }
  }

  lemma {:induction false} CollectedAppend(a: seq<Entry>, b: seq<Entry>, code: byte)
    ensures Collected(a + b, code) == Collected(a, code) + Collected(b, code)
  {
    if a == [] {
      assert a + b == b;
    } else {
      assert (a + b)[1..] == a[1..] + b;
      CollectedAppend(a[1..], b, code);
    }
  }

  lemma {:induction false} CollectedAbsent(es: seq<Entry>, code: byte)
    requires !Mentions(es, code)
    ensures Collected(es, code) == []
  {
    if es != [] {
      assert forall i :: 0 <= i < |es[1..]| ==> es[1..][i] == es[i + 1];
      CollectedAbsent(es[1..], code);
    }
  }

  lemma {:induction false} OccurrencesAppend(a: seq<Entry>, b: seq<Entry>, code: byte)
    ensures Occurrences(a + b, code) == Occurrences(a, code) + Occurrences(b, code)
  {
    if a == [] {
      assert a + b == b;
    } else {
      assert (a + b)[1..] == a[1..] + b;
      OccurrencesAppend(a[1..], b, code);
    }
  }

  lemma {:induction false} OccurrencesAbsent(es: seq<Entry>, code: byte)
    requires !Mentions(es, code)
    ensures Occurrences(es, code) == 0
  {
    if es != [] {
      assert forall i :: 0 <= i < |es[1..]| ==> es[1..][i] == es[i + 1];
      OccurrencesAbsent(es[1..], code);
    }
  }

  lemma ReadOne(o: seq<byte>, p: nat, e: Entry)
    requires Encodable(e) && StandsAt(o, p, EncodeEntry(e))
    ensures Entries(o, p) == [e] + Entries(o, p + 2 + |e.value|)
  {
    var s := EncodeEntry(e);
    assert o[p + 0] == s[0] && o[p + 1] == s[1];
    var v := o[p + 2..p + 2 + |e.value|];
    forall i | 0 <= i < |v| ensures v[i] == e.value[i] {
      assert o[p + (2 + i)] == s[2 + i];
    }
    assert v == e.value;
  }

  /** Encoded entries are read back wherever they stand. */
  lemma {:induction false} ReadBack(o: seq<byte>, p: nat, es: seq<Entry>, end: nat)
    requires AllEncodable(es) && StandsAt(o, p, Encode(es)) && end == p + |Encode(es)|
    ensures Entries(o, p) == es + Entries(o, end)
    decreases |es|
  {
    var tail := Entries(o, end);
    if es == [] {
      assert es + tail == tail;
    } else {
      var first := EncodeEntry(es[0]);
      StandsSplit(o, p, first, Encode(es[1..]));
      ReadOne(o, p, es[0]);
      ReadBack(o, p + |first|, es[1..], end);
      assert Entries(o, p) == [es[0]] + (es[1..] + tail);
      assert es == [es[0]] + es[1..];
      Assoc([es[0]], es[1..], tail);
    }
  }

  // ---------------------------------------------------------------- what the bytes of a field say

  /** An entry is a code, a length and so many bytes, of which the field may hold only a part; the
      next one begins behind the announced length. */
  lemma EntryAt(o: seq<byte>, p: nat, n: nat)
    requires p + 1 < |o| && o[p] != 0 && o[p] != 255 && p + 2 + n <= |o| && n <= o[p + 1]
    requires n < o[p + 1] ==> p + 2 + n == |o|
    ensures Entries(o, p) == [Entry(o[p], o[p + 2..p + 2 + n])] + Entries(o, p + 2 + o[p + 1])
  {
    assert Clip(o, p + 2, o[p + 1]) == o[p + 2..p + 2 + n];
  }

  /** PAD bytes are passed over one by one, END stops the reading, and so does a code without room
      for its length. */
  lemma NoEntryAt(o: seq<byte>, p: nat)
    ensures p < |o| && o[p] == 0 ==> Entries(o, p) == Entries(o, p + 1)
    ensures p < |o| && o[p] == 255 ==> Entries(o, p) == []
    ensures p + 1 >= |o| ==> Entries(o, p) == []
  {
    if p + 1 == |o| {
      assert Entries(o, p + 1) == [];
    }
  }

  /** A value that the end of the field cuts short is collected as far as it goes. */
  lemma LastValueClipped(es: seq<Entry>, code: byte, n: byte, v: seq<byte>)
    requires AllEncodable(es) && code != PAD && code != END && |v| < n
    ensures Entries(Encode(es) + ([code, n] + v), 0) == es + [Entry(code, v)]
  {
    var o, p := Encode(es) + ([code, n] + v), |Encode(es)|;
    Tail(Encode(es), code, n, v);
    LastEntry(o, p, code, n, v);
    ReadBack(o, 0, es, p);
  }

  lemma LastEntry(o: seq<byte>, p: nat, code: byte, n: byte, v: seq<byte>)
    requires |o| == p + 2 + |v| && o[p] == code && o[p + 1] == n && o[p + 2..p + 2 + |v|] == v
    requires code != PAD && code != END && |v| < n
    ensures Entries(o, p) == [Entry(code, v)]
  {
    EntryAt(o, p, |v|);
    NoEntryAt(o, p + 2 + n);
  }

  lemma Tail(front: seq<byte>, code: byte, n: byte, v: seq<byte>)
    ensures var o, p := front + ([code, n] + v), |front|;
            && StandsAt(o, 0, front)
            && |o| == p + 2 + |v| && o[p] == code && o[p + 1] == n && o[p + 2..p + 2 + |v|] == v
  {
  }

  lemma {:induction false} PadsAreNoEntries(o: seq<byte>, p: nat)
    requires forall i :: p <= i < |o| ==> o[i] == PAD
    ensures Entries(o, p) == []
    decreases |o| - p
  {
    if p + 1 < |o| {
      PadsAreNoEntries(o, p + 1);
    }
  }

  /** Whatever follows END, an encoded list is read back as exactly that list. */
  lemma EncodedThenEnd(es: seq<Entry>, rest: seq<byte>)
    requires AllEncodable(es)
    ensures Entries(Encode(es) + [END] + rest, 0) == es
  {
    var o := Encode(es) + [END] + rest;
    assert StandsAt(o, 0, Encode(es));
    ReadBack(o, 0, es, |Encode(es)|);
    assert o[|Encode(es)|] == END;
    assert es + [] == es;
  }

  // ---------------------------------------------------------------- splitting (RFC 3396)

  /** An option of any length, cut into entries of at most 255 bytes. */
  function Split(code: byte, v: seq<byte>): (es: seq<Entry>)
    ensures code != PAD && code != END ==> AllEncodable(es)
  {
    if |v| <= 255 then [Entry(code, v)]
    else [Entry(code, v[..255])] + Split(code, v[255..])
  }

  lemma {:induction false} CollectedSplit(code: byte, v: seq<byte>)
    ensures Collected(Split(code, v), code) == v
  {
    if |v| <= 255 {
      assert Split(code, v)[1..] == [];
    } else {
      CollectedSplit(code, v[255..]);
      assert Split(code, v)[1..] == Split(code, v[255..]);
    }
  }

  /** A value of any length, split and written among other options, is recovered whole. */
  lemma SplitOptionRecovered(code: byte, v: seq<byte>, before: seq<Entry>, after: seq<Entry>, rest: seq<byte>)
    requires code != PAD && code != END
    requires AllEncodable(before) && AllEncodable(after)
    requires !Mentions(before, code) && !Mentions(after, code)
    ensures Collected(Entries(Encode(before + Split(code, v) + after) + [END] + rest, 0), code) == v
  {
    var es := before + Split(code, v) + after;
    EncodedThenEnd(es, rest);
    CollectedAppend(before + Split(code, v), after, code);
    CollectedAppend(before, Split(code, v), code);
    CollectedAbsent(before, code);
    CollectedAbsent(after, code);
    CollectedSplit(code, v);
  }

  // ---------------------------------------------------------------- the option table

  datatype Flag = REQUEST | UINT8 | UINT16 | SINT16 | UINT32 | SINT32 | IPV4 | STRING
    | PAIR | ARRAY | RFC3361 | RFC3397 | RFC3442 | RFC5969

  datatype DhcpOpt = DhcpOpt(option: byte, flags: set<Flag>)

  /** The element size that the type flags select; later flags win. */
  function ElementSize(flags: set<Flag>): nat {
    if UINT8 in flags then 1
    else if UINT16 in flags then 2
    else if UINT32 in flags || IPV4 in flags then 4
    else 0
  }

  /** Every array type names its element, so that no length is divided by zero. */
  ghost predicate TableOk(table: seq<DhcpOpt>) {
    forall i :: 0 <= i < |table| && ARRAY in table[i].flags ==> ElementSize(table[i].flags) > 0
  }

  /** Is n bytes an acceptable length for an option of this type? */
  predicate FlagsAccept(flags: set<Flag>, n: nat) {
    flags == {} || STRING in flags || RFC3442 in flags || RFC5969 in flags ||
    IPV4 in flags || ARRAY in flags || n == ElementSize(flags)
  }

  /** Row k is the one that decides about this code. */
  ghost predicate FirstRow(table: seq<DhcpOpt>, option: byte, k: nat) {
    k < |table| && table[k].option == option && forall i :: 0 <= i < k ==> table[i].option != option
  }

  /** Zero bytes are never acceptable; otherwise the first table row with this code decides,
      and a code that has no row is let through. */
  predicate Accepts(table: seq<DhcpOpt>, option: byte, n: nat) {
    n != 0 &&
    (if table == [] then true
     else if table[0].option == option then FlagsAccept(table[0].flags, n)
     else Accepts(table[1..], option, n))
  }

  lemma {:induction false} AcceptsFirstRow(table: seq<DhcpOpt>, option: byte, n: nat, k: nat)
    requires n != 0 && k <= |table|
    requires forall i :: 0 <= i < k ==> table[i].option != option
    ensures k < |table| && table[k].option == option ==> (Accepts(table, option, n) <==> FlagsAccept(table[k].flags, n))
    ensures k == |table| ==> Accepts(table, option, n)
  {
    if k > 0 {
      AcceptsFirstRow(table[1..], option, n, k - 1);
    }
  }

  method ValidLength(table: seq<DhcpOpt>, option: byte, dl: nat) returns (r: int)
    requires TableOk(table)
    ensures (r != -1) <==> Accepts(table, option, dl)
    ensures r != -1 ==> forall k: nat :: FirstRow(table, option, k) ==>
              var f := table[k].flags;
              r == if f == {} || STRING in f || RFC3442 in f || RFC5969 in f || UINT8 in f then 0
                   else if UINT16 in f then dl % 2 else if UINT32 in f || IPV4 in f then dl % 4 else 0
    ensures r > 0 ==> exists k: nat :: FirstRow(table, option, k)
    ensures r >= -1
  {
    if dl == 0 {
      return -1;
    }
    var k := 0;
    while k < |table|
      invariant 0 <= k <= |table|
      invariant forall i :: 0 <= i < k ==> table[i].option != option
    {
      if table[k].option != option {
        k := k + 1;
        continue;
      }
      AcceptsFirstRow(table, option, dl, k);
      assert FirstRow(table, option, k);
      var flags := table[k].flags;
      if flags == {} || STRING in flags || RFC3442 in flags || RFC5969 in flags {
        return 0;
      }
      var sz := 0;
      if UINT32 in flags || IPV4 in flags { sz := 4; }
      if UINT16 in flags { sz := 2; }
      if UINT8 in flags { sz := 1; }
      if IPV4 in flags || ARRAY in flags {
        return dl % sz;
      }
      return if dl == sz then 0 else -1;
    }
    AcceptsFirstRow(table, option, dl, k);
    return 0;
  }

  // ---------------------------------------------------------------- the scanner

  /** What a lookup answers: everything stored under the code, when its length is acceptable. */
  function Answer(table: seq<DhcpOpt>, o: seq<byte>, opt: byte): Option<seq<byte>> {
    var v := Collected(Entries(o, 0), opt);
    if Accepts(table, opt, |v|) then Some(v) else None
  }

  /** Where the answer of a lookup lies: nowhere, inside the message itself, or at the start
      of the reader's aggregate buffer. */
  datatype Lookup = Invalid | InMessage(at: nat, len: nat) | InBuffer(len: nat)

  /** A scan in progress: the fragments met so far, the last one apart from those before it. */
  datatype Scan = Scan(agg: seq<byte>, last: seq<byte>, fragments: nat) {
    function Take(v: seq<byte>): Scan {
      Scan(agg + last, v, fragments + 1)
    }

    function Size(): nat {
      |agg| + |last|
    }
  }

  class OptionReader {
    var optBuffer: array?<byte>
    const messageSize: nat

    constructor (messageSize: nat)
      ensures this.messageSize == messageSize && optBuffer == null
    {
      this.messageSize := messageSize;
      optBuffer := null;
    }

    ghost predicate Valid()
      reads this
    {
      optBuffer != null ==> optBuffer.Length == messageSize
    }

    /** The bytes an answer denotes. */
    ghost predicate Denotes(r: Lookup, o: seq<byte>, v: seq<byte>)
      reads this, optBuffer
    {
      match r
      case Invalid => false
      case InMessage(at, len) => at + len <= |o| && o[at..at + len] == v
      case InBuffer(len) => optBuffer != null && len <= optBuffer.Length && optBuffer[..len] == v
    }

    /** Copies one fragment behind the bp bytes aggregated so far. */
    method AppendFragment(o: seq<byte>, op: nat, ol: nat, bp: nat) returns (end: nat)
      requires Valid() && op + ol <= |o| && bp + ol <= messageSize
      requires optBuffer == null ==> bp == 0
      modifies this, optBuffer
      ensures Valid() && optBuffer != null
      ensures if old(optBuffer) == null then fresh(optBuffer) else optBuffer == old(optBuffer)
      ensures end == bp + ol && end <= optBuffer.Length
      ensures optBuffer[..end] == (if old(optBuffer) == null then [] else old(optBuffer[..bp])) + o[op..op + ol]
    {
      if optBuffer == null {
        optBuffer := new byte[messageSize];
      }
      forall i | 0 <= i < ol {
        optBuffer[bp + i] := o[op + i];
      }
      end := bp + ol;
    }

    /** What the scanner has gathered when it stands at position p. */
    static ghost predicate Gathered(o: seq<byte>, opt: byte, p: nat, s: Scan) {
      var total, count := Collected(Entries(o, 0), opt), Occurrences(Entries(o, 0), opt);
      var ahead, left := Collected(Entries(o, p), opt), Occurrences(Entries(o, p), opt);
      && !Mentions(Entries(o, p), OVERLOAD)
      && s.Size() <= p && s.Size() <= |o|
      && total == s.agg + s.last + ahead
      && count == s.fragments + left
    }

    static lemma NextEntry(o: seq<byte>, opt: byte, p: nat)
      requires p + 1 < |o| && o[p] != END && o[p] != PAD
      ensures var next := p + 2 + o[p + 1];
              && (o[p] != opt ==> Collected(Entries(o, p), opt) == Collected(Entries(o, next), opt) &&
                                  Occurrences(Entries(o, p), opt) == Occurrences(Entries(o, next), opt))
              && (o[p] == opt ==> Collected(Entries(o, p), opt) == Clip(o, p + 2, o[p + 1]) + Collected(Entries(o, next), opt) &&
                                  Occurrences(Entries(o, p), opt) == 1 + Occurrences(Entries(o, next), opt))
              && (!Mentions(Entries(o, p), OVERLOAD) ==> o[p] != OVERLOAD && !Mentions(Entries(o, next), OVERLOAD))
    {
      var es, next := Entries(o, p), p + 2 + o[p + 1];
      assert es == [Entry(o[p], Clip(o, p + 2, o[p + 1]))] + Entries(o, next);
      assert es[1..] == Entries(o, next);
      assert forall i :: 0 <= i < |es[1..]| ==> es[1..][i] == es[i + 1];
    }

    /** Meeting the wanted code: the previous fragment joins the aggregate. */
    static lemma FragmentTaken(o: seq<byte>, opt: byte, p: nat, s: Scan)
      requires Gathered(o, opt, p, s)
      requires p + 1 < |o| && o[p] == opt && opt != END && opt != PAD
      ensures opt != OVERLOAD
      ensures Gathered(o, opt, p + 2 + o[p + 1], s.Take(Clip(o, p + 2, o[p + 1])))
    {
      NextEntry(o, opt, p);
      var v, next := Clip(o, p + 2, o[p + 1]), p + 2 + o[p + 1];
      assert s.agg + s.last + (v + Collected(Entries(o, next), opt)) == s.agg + s.last + v + Collected(Entries(o, next), opt);
    }

    static lemma EntrySkipped(o: seq<byte>, opt: byte, p: nat, s: Scan)
      requires Gathered(o, opt, p, s)
      requires p + 1 < |o| && o[p] != opt && o[p] != END
      ensures Gathered(o, opt, if o[p] == PAD then p + 1 else p + 2 + o[p + 1], s)
    {
      if o[p] != PAD {
        NextEntry(o, opt, p);
      }
    }

    /** How the scanner's variables hold a scan: op is -1 before the first fragment, bp is -1
        while a single fragment makes the aggregate unnecessary. */
    ghost predicate Holds(s: Scan, o: seq<byte>, op: int, ol: nat, bp: int)
      reads this, optBuffer
    {
      && Valid()
      && (s.fragments == 0 ==> s.last == [])
      && (s.fragments <= 1 ==> s.agg == [])
      && (op == -1 <==> s.fragments == 0)
      && (op != -1 ==> 0 <= op && op + ol <= |o| && s.last == o[op..op + ol])
      && (bp == -1 <==> s.fragments <= 1)
      && (bp != -1 ==> optBuffer != null && 0 <= bp <= optBuffer.Length && optBuffer[..bp] == s.agg)
    }

    /** Takes the value of the entry at p: the previous fragment, if any, moves behind the
        aggregate, and the new one becomes the last. */
    method TakeFragment(o: seq<byte>, opt: byte, p: nat, op: int, ol: nat, bp: int, bl: nat, ghost s: Scan)
      returns (op': int, ol': nat, bp': int, bl': nat, ghost s': Scan)
      requires Holds(s, o, op, ol, bp) && bl == s.Size() && |o| <= messageSize
      requires Gathered(o, opt, p, s)
      requires p + 1 < |o| && o[p] == opt && opt != END && opt != PAD
      modifies this, optBuffer
      ensures Holds(s', o, op', ol', bp') && bl' == s'.Size()
      ensures Gathered(o, opt, p + 2 + o[p + 1], s')
      ensures optBuffer == old(optBuffer) || (old(optBuffer) == null && fresh(optBuffer))
      ensures s'.fragments == s.fragments + 1
      ensures s.fragments == 0 ==> optBuffer == old(optBuffer) && (optBuffer != null ==> optBuffer[..] == old(optBuffer[..]))
    {
      FragmentTaken(o, opt, p, s);
      s' := s.Take(Clip(o, p + 2, o[p + 1]));
      bp' := bp;
      if op != -1 {
        bp' := AppendFragment(o, op, ol, if bp == -1 then 0 else bp);
      }
      ol' := if p + 1 + o[p + 1] < |o| then o[p + 1] else |o| - (p + 2);
      op' := p + 2;
      bl' := bl + ol';
    }

    /** One turn of the scanning loop, at an entry or PAD. */
    method ScanEntry(o: seq<byte>, opt: byte, p: nat, op: int, ol: nat, bp: int, bl: nat, ghost s: Scan)
      returns (p': nat, op': int, ol': nat, bp': int, bl': nat, ghost s': Scan)
      requires Holds(s, o, op, ol, bp) && bl == s.Size() && |o| <= messageSize
      requires Gathered(o, opt, p, s)
      requires p + 1 < |o| && o[p] != END && opt != END && opt != PAD
      modifies this, optBuffer
      ensures Holds(s', o, op', ol', bp') && bl' == s'.Size()
      ensures Gathered(o, opt, p', s') && p' > p
      ensures optBuffer == old(optBuffer) || (old(optBuffer) == null && optBuffer != null && fresh(optBuffer))
      ensures s'.fragments >= s.fragments
      ensures s'.fragments <= 1 ==> optBuffer == old(optBuffer) && (optBuffer != null ==> optBuffer[..] == old(optBuffer[..]))
    {
      op', ol', bp', bl', s' := op, ol, bp, bl, s;
      var code := o[p];
      p' := if code == PAD then p + 1 else p + 2 + o[p + 1];
      if code == opt {
        op', ol', bp', bl', s' := TakeFragment(o, opt, p, op, ol, bp, bl, s);
      } else {
        EntrySkipped(o, opt, p, s);
      }
    }

    /** The scanning loop: afterwards s holds everything stored under opt. */
    method ScanField(o: seq<byte>, opt: byte) returns (op: int, ol: nat, bp: int, bl: nat, ghost s: Scan)
      requires Valid() && |o| <= messageSize
      requires opt != PAD && opt != END
      requires !Mentions(Entries(o, 0), OVERLOAD)
      modifies this, optBuffer
      ensures Holds(s, o, op, ol, bp) && bl == s.Size() <= |o|
      ensures s.agg + s.last == Collected(Entries(o, 0), opt)
      ensures s.fragments == Occurrences(Entries(o, 0), opt)
      ensures optBuffer == old(optBuffer) || (old(optBuffer) == null && fresh(optBuffer))
      ensures s.fragments <= 1 && old(optBuffer) != null ==> optBuffer[..] == old(optBuffer[..])
    {
      s := Scan([], [], 0);
      op, ol, bp, bl := -1, 0, -1, 0;
      ScanStarts(o, opt);
      var p := 0;
      while p + 1 < |o| && o[p] != END
        invariant 0 <= p
        invariant Gathered(o, opt, p, s) && bl == s.Size()
        invariant Holds(s, o, op, ol, bp)
        invariant optBuffer == old(optBuffer) || (old(optBuffer) == null && optBuffer != null && fresh(optBuffer))
        invariant s.fragments <= 1 && old(optBuffer) != null ==> optBuffer[..] == old(optBuffer[..])
        decreases |o| - p
      {
        p, op, ol, bp, bl, s := ScanEntry(o, opt, p, op, ol, bp, bl, s);
      }
      ScanEnds(o, opt, p, s);
    }

    static lemma ScanStarts(o: seq<byte>, opt: byte)
      requires !Mentions(Entries(o, 0), OVERLOAD)
      ensures Gathered(o, opt, 0, Scan([], [], 0))
    {
    }

    static lemma ScanEnds(o: seq<byte>, opt: byte, p: nat, s: Scan)
      requires Gathered(o, opt, p, s) && (p + 1 >= |o| || o[p] == END)
      ensures s.agg + s.last == Collected(Entries(o, 0), opt) && s.fragments == Occurrences(Entries(o, 0), opt)
      ensures s.Size() <= |o|
    {
      assert s.agg + s.last + [] == s.agg + s.last;
    }

    method GetOption(o: seq<byte>, opt: byte, table: seq<DhcpOpt>) returns (r: Lookup)
      requires Valid() && |o| <= messageSize && TableOk(table)
      requires opt != PAD && opt != END
      requires !Mentions(Entries(o, 0), OVERLOAD)
      modifies this, optBuffer
      ensures Valid()
      ensures match Answer(table, o, opt)
              case None => r == Invalid
              case Some(v) => Denotes(r, o, v) && v == Collected(Entries(o, 0), opt) && |v| <= |o|
      ensures r.InBuffer? ==> Occurrences(Entries(o, 0), opt) > 1
      ensures r.InMessage? ==> Occurrences(Entries(o, 0), opt) == 1
      ensures Occurrences(Entries(o, 0), opt) <= 1 && old(optBuffer) != null ==>
              optBuffer == old(optBuffer) && optBuffer[..] == old(optBuffer[..])
    {
      var op, ol, bp, bl;
      ghost var s;
      op, ol, bp, bl, s := ScanField(o, opt);
      var verdict := ValidLength(table, opt, bl);
      if verdict == -1 {
        return Invalid;
      }
      if bp != -1 {
        bp := AppendFragment(o, op, ol, bp);
        return InBuffer(bl);
      }
      return InMessage(op, ol);
    }
  }
}
