/** The client's own option table, and what it means for the options it sends and reads. */
module DhcpTable {
  import opened Bytes
  import opened DhcpOptions
  import opened DhcpMessage
  import opened PrintOption
  import PrintString
  import DnsNames
  import ClasslessRoutes

  // The rows in the order of the source, a dozen at a time; the variable names are left out.

  function Rows1(): seq<DhcpOpt> {
    [DhcpOpt(1, {IPV4, REQUEST}), DhcpOpt(121, {RFC3442}), DhcpOpt(249, {RFC3442}),
     DhcpOpt(33, {IPV4, ARRAY, REQUEST}), DhcpOpt(3, {IPV4, ARRAY, REQUEST}), DhcpOpt(2, {UINT32}),
     DhcpOpt(4, {IPV4, ARRAY}), DhcpOpt(5, {IPV4, ARRAY}), DhcpOpt(6, {IPV4, ARRAY, REQUEST}),
     DhcpOpt(7, {IPV4, ARRAY}), DhcpOpt(8, {IPV4, ARRAY}), DhcpOpt(9, {IPV4, ARRAY})]
  }

  function Rows2(): seq<DhcpOpt> {
    [DhcpOpt(10, {IPV4, ARRAY}), DhcpOpt(11, {IPV4, ARRAY}), DhcpOpt(12, {STRING}),
     DhcpOpt(13, {UINT16}), DhcpOpt(14, {STRING}), DhcpOpt(15, {STRING, REQUEST}),
     DhcpOpt(16, {IPV4}), DhcpOpt(17, {STRING}), DhcpOpt(18, {STRING}),
     DhcpOpt(19, {UINT8}), DhcpOpt(20, {UINT8}), DhcpOpt(21, {IPV4, ARRAY})]
  }

  function Rows3(): seq<DhcpOpt> {
    [DhcpOpt(22, {SINT16}), DhcpOpt(23, {UINT16}), DhcpOpt(24, {UINT32}),
     DhcpOpt(25, {UINT16, ARRAY}), DhcpOpt(26, {UINT16}), DhcpOpt(27, {UINT8}),
     DhcpOpt(28, {IPV4, REQUEST}), DhcpOpt(29, {UINT8}), DhcpOpt(30, {UINT8}),
     DhcpOpt(31, {UINT8}), DhcpOpt(32, {IPV4}), DhcpOpt(34, {UINT8})]
  }

  function Rows4(): seq<DhcpOpt> {
    [DhcpOpt(35, {UINT32}), DhcpOpt(36, {UINT16}), DhcpOpt(37, {UINT8}),
     DhcpOpt(38, {UINT32}), DhcpOpt(39, {UINT8}), DhcpOpt(40, {STRING}),
     DhcpOpt(41, {IPV4, ARRAY}), DhcpOpt(42, {IPV4, ARRAY}), DhcpOpt(43, {STRING}),
     DhcpOpt(44, {IPV4, ARRAY}), DhcpOpt(45, {IPV4}), DhcpOpt(46, {UINT8})]
  }

  function Rows5(): seq<DhcpOpt> {
    [DhcpOpt(47, {STRING}), DhcpOpt(48, {IPV4, ARRAY}), DhcpOpt(49, {IPV4, ARRAY}),
     DhcpOpt(50, {IPV4}), DhcpOpt(51, {UINT32, REQUEST}), DhcpOpt(52, {UINT8}),
     DhcpOpt(53, {UINT8}), DhcpOpt(54, {IPV4}), DhcpOpt(55, {UINT8, ARRAY}),
     DhcpOpt(56, {STRING}), DhcpOpt(57, {UINT16}), DhcpOpt(58, {UINT32, REQUEST})]
  }

  function Rows6(): seq<DhcpOpt> {
    [DhcpOpt(59, {UINT32, REQUEST}), DhcpOpt(64, {STRING}), DhcpOpt(65, {IPV4, ARRAY}),
     DhcpOpt(66, {STRING}), DhcpOpt(67, {STRING}), DhcpOpt(68, {IPV4, ARRAY}),
     DhcpOpt(69, {IPV4, ARRAY}), DhcpOpt(70, {IPV4, ARRAY}), DhcpOpt(71, {IPV4, ARRAY}),
     DhcpOpt(72, {IPV4, ARRAY}), DhcpOpt(73, {IPV4, ARRAY}), DhcpOpt(74, {IPV4, ARRAY})]
  }

  function Rows7(): seq<DhcpOpt> {
    [DhcpOpt(75, {IPV4, ARRAY}), DhcpOpt(76, {IPV4, ARRAY}), DhcpOpt(77, {STRING}),
     DhcpOpt(81, {STRING, RFC3397}), DhcpOpt(85, {IPV4, ARRAY}), DhcpOpt(86, {STRING}),
     DhcpOpt(87, {STRING}), DhcpOpt(88, {STRING, RFC3397}), DhcpOpt(89, {IPV4, ARRAY}),
     DhcpOpt(91, {UINT32}), DhcpOpt(92, {IPV4, ARRAY}), DhcpOpt(98, {STRING})]
  }

  function Rows8(): seq<DhcpOpt> {
    [DhcpOpt(112, {IPV4, ARRAY}), DhcpOpt(113, {STRING}), DhcpOpt(114, {STRING}),
     DhcpOpt(118, {IPV4}), DhcpOpt(119, {STRING, RFC3397}), DhcpOpt(120, {STRING, RFC3361}),
     DhcpOpt(125, {STRING}), DhcpOpt(212, {RFC5969})]
  }

  function Chunks(): seq<seq<DhcpOpt>> {
    [Rows1(), Rows2(), Rows3(), Rows4(), Rows5(), Rows6(), Rows7(), Rows8()]
  }

  function Table(): seq<DhcpOpt> {
    Concat(Chunks())
  }

  // ---------------------------------------------------------------- what the rows are

  // The options that hold one number, by its size.

  predicate OneByte(c: byte) {
    c == 19 || c == 20 || c == 27 || 29 <= c <= 31 || c == 34 || c == 37 || c == 39 || c == 46 || c == 52 || c == 53
  }

  predicate TwoBytes(c: byte) {
    c == 13 || c == 23 || c == 26 || c == 36 || c == 57
  }

  predicate FourBytes(c: byte) {
    c == 2 || c == 24 || c == 35 || c == 38 || c == 51 || c == 58 || c == 59 || c == 91
  }

  /** Options whose value is one address or a list of them. */
  predicate Addresses(c: byte) {
    c == 1 || 3 <= c <= 11 || c == 16 || c == 21 || c == 28 || c == 32 || c == 33 || c == 41 || c == 42 ||
    c == 44 || c == 45 || 48 <= c <= 50 || c == 54 || c == 65 || 68 <= c <= 76 || c == 85 || c == 89 ||
    c == 92 || c == 112 || c == 118
  }

  /** Neither text nor addresses. */
  predicate Numeric(f: set<Flag>) {
    STRING !in f && RFC3361 !in f && RFC3397 !in f && RFC3442 !in f && RFC5969 !in f && IPV4 !in f
  }

  predicate Textual(f: set<Flag>) {
    (STRING in f || RFC3442 in f || RFC5969 in f) &&
    UINT8 !in f && UINT16 !in f && SINT16 !in f && UINT32 !in f && SINT32 !in f && IPV4 !in f && ARRAY !in f
  }

  predicate RowOk(row: DhcpOpt) {
    var c, f := row.option, row.flags;
    if OneByte(c) then Numeric(f) && UINT8 in f && ARRAY !in f
    else if TwoBytes(c) then Numeric(f) && UINT16 in f && UINT8 !in f && ARRAY !in f
    else if FourBytes(c) then Numeric(f) && UINT32 in f && UINT8 !in f && UINT16 !in f && SINT16 !in f && ARRAY !in f
    else if Addresses(c) then
      IPV4 in f && STRING !in f && RFC3361 !in f && RFC3397 !in f && RFC3442 !in f && RFC5969 !in f &&
      UINT8 !in f && UINT16 !in f && SINT16 !in f && UINT32 !in f && SINT32 !in f
    else if c == 55 then Numeric(f) && UINT8 in f && ARRAY in f
    else if c == 25 then Numeric(f) && UINT16 in f && UINT8 !in f && ARRAY in f
    else if c == 22 then f == {SINT16}
    else Textual(f)
  }

  ghost predicate RowsOk(table: seq<DhcpOpt>) {
    forall i :: 0 <= i < |table| ==> RowOk(table[i])
  }

  lemma {:induction false} ConcatRowsOk(chunks: seq<seq<DhcpOpt>>)
    requires forall i :: 0 <= i < |chunks| ==> RowsOk(chunks[i])
    ensures RowsOk(Concat(chunks))
  {
    if chunks != [] {
      ConcatRowsOk(chunks[1..]);
    }
  }

  lemma RowsOk1()
    ensures RowsOk(Rows1())
  {
  }

  lemma RowsOk2()
    ensures RowsOk(Rows2())
  {
  }

  lemma RowsOk3()
    ensures RowsOk(Rows3())
  {
  }

  lemma RowsOk4()
    ensures RowsOk(Rows4())
  {
  }

  lemma RowsOk5()
    ensures RowsOk(Rows5())
  {
  }

  lemma RowsOk6()
    ensures RowsOk(Rows6())
  {
  }

  lemma RowsOk7()
    ensures RowsOk(Rows7())
  {
  }

  lemma RowsOk8()
    ensures RowsOk(Rows8())
  {
  }

  lemma TableRowsOk()
    ensures RowsOk(Table())
  {
    RowsOk1();
    RowsOk2();
    RowsOk3();
    RowsOk4();
    RowsOk5();
    RowsOk6();
    RowsOk7();
    RowsOk8();
    var chunks := Chunks();
    assert |chunks| == 8;
    forall i | 0 <= i < |chunks| ensures RowsOk(chunks[i]) {
      assert chunks[i] in [Rows1(), Rows2(), Rows3(), Rows4(), Rows5(), Rows6(), Rows7(), Rows8()];
    }
    ConcatRowsOk(chunks);
  }

  /** No length is divided by zero. */
  lemma TableIsOk()
    ensures TableOk(Table())
  {
    TableRowsOk();
    forall i | 0 <= i < |Table()| && ARRAY in Table()[i].flags ensures ElementSize(Table()[i].flags) > 0 {
      assert RowOk(Table()[i]);
    }
  }

  ghost predicate HasRow(table: seq<DhcpOpt>, code: byte) {
    exists i :: 0 <= i < |table| && table[i].option == code
  }

  lemma {:induction false} ConcatHasRow(chunks: seq<seq<DhcpOpt>>, c: nat, code: byte)
    requires c < |chunks| && HasRow(chunks[c], code)
    ensures HasRow(Concat(chunks), code)
  {
    var rest := Concat(chunks[1..]);
    assert Concat(chunks) == chunks[0] + rest;
    if c == 0 {
      var i :| 0 <= i < |chunks[0]| && chunks[0][i].option == code;
      assert Concat(chunks)[i].option == code;
    } else {
      ConcatHasRow(chunks[1..], c - 1, code);
      var i :| 0 <= i < |rest| && rest[i].option == code;
      assert Concat(chunks)[|chunks[0]| + i].option == code;
    }
  }

  lemma NumbersInRows123(code: byte)
    ensures code == 2 ==> HasRow(Rows1(), code)
    ensures code in {13, 19, 20} ==> HasRow(Rows2(), code)
    ensures code in {22, 23, 24, 26, 27, 29, 30, 31, 34} ==> HasRow(Rows3(), code)
  {
    assert Rows1()[5].option == 2;
    assert Rows2()[3].option == 13 && Rows2()[9].option == 19 && Rows2()[10].option == 20;
    assert Rows3()[0].option == 22 && Rows3()[1].option == 23 && Rows3()[2].option == 24 && Rows3()[4].option == 26;
    assert Rows3()[5].option == 27 && Rows3()[7].option == 29 && Rows3()[8].option == 30;
    assert Rows3()[9].option == 31 && Rows3()[11].option == 34;
  }

  lemma NumbersInRows4567(code: byte)
    ensures code in {35, 36, 37, 38, 39, 46} ==> HasRow(Rows4(), code)
    ensures code in {51, 52, 53, 57, 58} ==> HasRow(Rows5(), code)
    ensures code == 59 ==> HasRow(Rows6(), code)
    ensures code == 91 ==> HasRow(Rows7(), code)
  {
    assert Rows4()[0].option == 35 && Rows4()[1].option == 36 && Rows4()[2].option == 37;
    assert Rows4()[3].option == 38 && Rows4()[4].option == 39 && Rows4()[11].option == 46;
    assert Rows5()[4].option == 51 && Rows5()[5].option == 52 && Rows5()[6].option == 53;
    assert Rows5()[10].option == 57 && Rows5()[11].option == 58;
    assert Rows6()[0].option == 59 && Rows7()[9].option == 91;
  }

  lemma NumbersHaveRows(code: byte)
    requires OneByte(code) || TwoBytes(code) || FourBytes(code) || code == 22
    ensures HasRow(Table(), code)
  {
    NumbersInRows123(code);
    NumbersInRows4567(code);
    var c := if code == 2 then 0 else if code < 22 then 1 else if code < 35 then 2 else if code < 51 then 3
             else if code < 59 then 4 else if code == 59 then 5 else 6;
    ChunksAre();
    assert HasRow(Chunks()[c], code);
    ConcatHasRow(Chunks(), c, code);
  }

  lemma ChunksAre()
    ensures var chunks := Chunks();
            && |chunks| == 8 && chunks[0] == Rows1() && chunks[1] == Rows2() && chunks[2] == Rows3() && chunks[3] == Rows4()
            && chunks[4] == Rows5() && chunks[5] == Rows6() && chunks[6] == Rows7() && chunks[7] == Rows8()
  {
  }

  // ---------------------------------------------------------------- the lengths a lookup lets through

  /** One number has its own size; nothing is expected of the others. */
  predicate NumberLength(code: byte, n: nat) {
    (OneByte(code) ==> n == 1) && (TwoBytes(code) ==> n == 2) && (FourBytes(code) ==> n == 4) && code != 22
  }

  lemma RowAccepts(row: DhcpOpt, n: nat)
    requires RowOk(row) && n != 0
    ensures FlagsAccept(row.flags, n) <==> NumberLength(row.option, n)
  {
  }

  lemma {:induction false} RowsAccept(table: seq<DhcpOpt>, code: byte, n: nat)
    requires RowsOk(table) && n != 0
    ensures NumberLength(code, n) ==> Accepts(table, code, n)
    ensures HasRow(table, code) && Accepts(table, code, n) ==> NumberLength(code, n)
  {
    if table != [] {
      RowAccepts(table[0], n);
      RowsAccept(table[1..], code, n);
      if HasRow(table, code) && table[0].option != code {
        var i :| 0 <= i < |table| && table[i].option == code;
        assert table[1..][i - 1].option == code;
      }
    }
  }

  /** For every code and every length: nothing empty is accepted, a single number only at its own
      size, option 22 never, and everything else (strings, names, routes, addresses, lists, and
      codes without a row) at any other length. */
  lemma AcceptedLengths(code: byte, n: nat)
    ensures Accepts(Table(), code, n) <==>
            && n != 0 && code != 22
            && (code in {19, 20, 27, 29, 30, 31, 34, 37, 39, 46, 52, 53} ==> n == 1)
            && (code in {13, 23, 26, 36, 57} ==> n == 2)
            && (code in {2, 24, 35, 38, 51, 58, 59, 91} ==> n == 4)
  {
    if n != 0 {
      TableRowsOk();
      RowsAccept(Table(), code, n);
      if OneByte(code) || TwoBytes(code) || FourBytes(code) || code == 22 {
        NumbersHaveRows(code);
      }
    }
  }

  /** Option 22, the one SINT16 row: no element size is set for that type, so a lookup refuses
      the option at every length. */
  lemma Sint16NeverAccepted(n: nat)
    ensures !Accepts(Table(), 22, n)
  {
    AcceptedLengths(22, n);
  }

  // ---------------------------------------------------------------- the options sent

  /** Looking an option up in a message answers with exactly the value written for it, and with
      nothing when none was written or the value is empty. */
  lemma WrittenIsFound(c: Config, t: byte, size: nat, o: seq<byte>, k: nat)
    requires ValuesFit(Slots(Table(), c, t)) && MessageIs(Table(), c, t, size, o) && k < |Slots(Table(), c, t)|
    ensures !Mentions(Entries(o, 0), OVERLOAD)
    ensures var slot := Slots(Table(), c, t)[k];
            Answer(Table(), o, slot.code) == if slot.value.Some? && slot.value.value != [] then slot.value else None
  {
    MessageReadsBack(Table(), c, t, size, o);
    OptionReadsBack(Table(), c, t, size, o, k);
    SlotLength(c, t, k);
    var slot := Slots(Table(), c, t)[k];
    AcceptedLengths(slot.code, if slot.value.Some? then |slot.value.value| else 0);
  }

  lemma SlotLength(c: Config, t: byte, k: nat)
    requires k < |Slots(Table(), c, t)|
    ensures var slot := Slots(Table(), c, t)[k];
            slot.value.Some? && slot.value.value != [] ==> NumberLength(slot.code, |slot.value.value|)
  {
    var slots := Slots(Table(), c, t);
    SlotCodesAre(Table(), c, t);
    GroupsArePlaced(Table(), c, t);
    assert slots[0] == IdentitySlots(c, t)[0];
    assert slots[5 + 0] == ClassSlots(c, t)[0] && slots[5 + 3] == ClassSlots(c, t)[3];
    assert k != 0 && k != 5 && k != 8 ==> PlainLength(CODES[k]);
  }

  predicate PlainLength(code: byte) {
    !OneByte(code) && !TwoBytes(code) && !FourBytes(code) && code != 22
  }

  // ---------------------------------------------------------------- routes received

  /** Routes sent as option 121, split if need be and among other options, are what a lookup
      answers with, byte for byte. */
  lemma RoutesAreFound(ds: seq<ClasslessRoutes.Descriptor>, before: seq<Entry>, after: seq<Entry>, rest: seq<byte>)
    requires ds != [] && forall i :: 0 <= i < |ds| ==> ds[i].cidr <= 32
    requires AllEncodable(before) && AllEncodable(after) && !Mentions(before, 121) && !Mentions(after, 121)
    ensures var v := ClasslessRoutes.EncodeAll(ds);
            Answer(Table(), Encode(before + Split(121, v) + after) + [END] + rest, 121) == Some(v)
  {
    var v := ClasslessRoutes.EncodeAll(ds);
    SplitOptionRecovered(121, v, before, after, rest);
    AcceptedLengths(121, |v|);
    assert |v| >= |ClasslessRoutes.EncodeDescriptor(ds[0])| > 0;
  }

  // ---------------------------------------------------------------- options shown to a script

  /** For every row of the table and every length that a lookup lets through: the filling pass is
      complete exactly when a UINT32 does not outgrow its width and a last element that is not whole,
      which only lists and addresses can have, finds room among the characters left over. */
  lemma RowFillIsComplete(code: byte, k: nat, m: seq<byte>, dl: nat)
    requires FirstRow(Table(), code, k) && Accepts(Table(), code, dl) && dl + 63 <= |m|
    requires RFC3361 !in Table()[k].flags && RFC5969 !in Table()[k].flags
    ensures var flags := Table()[k].flags;
            Roomy(Presentation(flags, m, dl)) <==> NumbersFit(flags, m, dl)
  {
    TableRowsOk();
    AcceptsFirstRow(Table(), code, dl, k);
    assert RowOk(Table()[k]);
    RowOkFill(Table()[k], m, dl);
  }

  /** A number printed alone keeps its width, and what is not a whole element finds room. */
  predicate NumbersFit(flags: set<Flag>, m: seq<byte>, dl: nat)
    requires dl + 4 <= |m|
  {
    match NumericKind(flags)
    case None => true
    case Some(k) =>
      if dl % Size(k) != 0 then Rest(LayoutOf(k), m, dl) < Spare(LayoutOf(k), m, dl, 0)
      else k == U32 ==> !Outgrows(k, m[..Size(k)])
  }

  lemma RowOkFill(row: DhcpOpt, m: seq<byte>, dl: nat)
    requires RowOk(row) && FlagsAccept(row.flags, dl) && dl > 0 && dl + 63 <= |m|
    ensures Roomy(Presentation(row.flags, m, dl)) <==> NumbersFit(row.flags, m, dl)
  {
    var flags := row.flags;
    MeasuredIsEnough(flags, m, dl);
    var kind := NumericKind(flags);
    if kind == Some(U32) {
      assert dl == 4;
      OneElementFits(U32, m);
    } else if kind.Some? {
      WholeElementsFit(kind.value, m, dl, 0);
    }
  }

  // ---------------------------------------------------------------- a store in front of the buffer

  /** A search list that starts with an empty name: its length is accepted, two bytes are measured,
      and filling them stores a separator in front of them. */
  lemma SearchListStoresInFront(tail: seq<byte>)
    requires |tail| >= 63
    ensures Accepts(Table(), 119, 4)
    ensures var m := [0, 1, 97, 0] + tail;
            && Presentation({STRING, RFC3397}, m, 4) == Text([97], 2, 2)
            && !DnsNames.LeadsWithLabel(m, 4)
  {
    AcceptedLengths(119, 4);
    DnsNames.EmptyFirstName(tail);
    OneLetterShown();
  }

  lemma OneLetterShown()
    ensures StringShown([97, SPACE][..1]) == Text([97], 2, 2)
  {
    var a: seq<byte> := [97];
    assert [97, SPACE][..1] == a && PrintString.TrimNuls(a) == a;
    assert PrintString.Escaped(a) == PrintString.EscapeByte(97) + PrintString.Escaped(a[1..]);
  }
}
