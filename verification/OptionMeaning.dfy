/** What the presentation of an option says to its reader: which numbers, addresses and routes. */
module OptionMeaning {
  import opened Bytes
  import opened Decimal
  import opened DhcpOptions
  import opened TextReading
  import opened PrintOption
  import ClasslessRoutes
  import DnsNames
  import DhcpTable

  // ---------------------------------------------------------------- single elements

  /** Two's complement of a number below 2 * half. */
  lemma SignedIs(v: nat, half: nat)
    requires v < 2 * half
    ensures 0 - half <= Signed(v, half) < half && (Signed(v, half) == v || Signed(v, half) == v - 2 * half)
  {
  }

  lemma BigEndianIs(b: seq<byte>)
    ensures |b| == 1 ==> BigEndian(b) == b[0]
    ensures |b| == 2 ==> BigEndian(b) == 256 * (b[0] as int) + b[1] as int
    ensures |b| == 4 ==>
              BigEndian(b) == 0x100_0000 * (b[0] as int) + 0x1_0000 * (b[1] as int) + 256 * (b[2] as int) + b[3] as int
  {
    if |b| == 1 {
      assert BigEndian(b[..0]) == 0;
    } else if |b| == 2 {
      BigEndianIs(b[..1]);
    } else if |b| == 4 {
      assert b[..3][..2] == b[..2];
      BigEndianIs(b[..2]);
      assert BigEndian(b[..3]) == 256 * BigEndian(b[..2]) + b[2];
    }
  }

  /** The number that two or four bytes in network order stand for, read with a sign. */
  ghost predicate Word16Is(n: int, b: seq<byte>)
    requires |b| == 2
  {
    -0x8000 <= n < 0x8000 &&
    var v := 256 * (b[0] as int) + b[1] as int; n == v || n == v - 0x1_0000
  }

  ghost predicate Word32Is(n: int, b: seq<byte>)
    requires |b| == 4
  {
    -0x8000_0000 <= n < 0x8000_0000 &&
    var v := 0x100_0000 * (b[0] as int) + 0x1_0000 * (b[1] as int) + 256 * (b[2] as int) + b[3] as int;
    n == v || n == v - 0x1_0000_0000
  }

  /** What the text of an element means. */
  ghost predicate Means(k: Kind, s: seq<byte>, b: seq<byte>)
    requires |b| == Size(k)
  {
    match k
    case U8 => Denotes(s, b[0])
    case U16 => Denotes(s, 256 * (b[0] as int) + b[1] as int)
    case S16 => exists n: int :: Word16Is(n, b) && Denotes(s, n)
    case U32 => exists n: int :: Word32Is(n, b) && Denotes(s, n)
    case S32 => exists n: int :: Word32Is(n, b) && Denotes(s, n)
    case V4 => DenotesOctets(s, b)
  }

  lemma ElementMeans(k: Kind, b: seq<byte>)
    requires |b| == Size(k)
    ensures Means(k, ElementText(k, b), b)
    ensures SPACE !in ElementText(k, b)
  {
    BigEndianIs(b);
    var v := BigEndian(b);
    match k
    case U8 => NumberDenotes(v);
    case U16 => NumberDenotes(v);
    case S16 =>
      SignedIs(v, 0x8000);
      NumberDenotes(Signed(v, 0x8000));
      assert Word16Is(Signed(v, 0x8000), b);
    case U32 => Word32Means(b, v);
    case S32 => Word32Means(b, v);
    case V4 =>
      QuadDenotes(b);
      QuadIsPlain(b);
  }

  lemma Word32Means(b: seq<byte>, v: nat)
    requires |b| == 4
    requires v == 0x100_0000 * (b[0] as int) + 0x1_0000 * (b[1] as int) + 256 * (b[2] as int) + b[3] as int
    ensures exists n: int :: Word32Is(n, b) && Denotes(DecSigned(Signed(v, 0x8000_0000)), n)
    ensures SPACE !in DecSigned(Signed(v, 0x8000_0000))
  {
    var n := Signed(v, 0x8000_0000);
    SignedIs(v, 0x8000_0000);
    NumberDenotes(n);
    assert Word32Is(n, b);
  }

  // ---------------------------------------------------------------- lists

  /** The words say, one by one and in order, what the elements from position p on mean. */
  ghost predicate Reads(k: Kind, words: seq<seq<byte>>, m: seq<byte>, dl: nat, p: nat)
    requires dl + 3 <= |m|
    decreases dl - p
  {
    if p >= dl then words == []
    else words != [] && Means(k, words[0], m[p..p + Size(k)]) && Reads(k, words[1..], m, dl, p + Size(k))
  }

  lemma ReadsOneMore(k: Kind, first: seq<byte>, rest: seq<seq<byte>>, m: seq<byte>, dl: nat, p: nat)
    requires dl + 3 <= |m| && p < dl
    requires Means(k, first, m[p..p + Size(k)]) && Reads(k, rest, m, dl, p + Size(k))
    ensures Reads(k, [first] + rest, m, dl, p)
  {
    assert ([first] + rest)[1..] == rest;
  }

  lemma {:induction false} ElementsRead(k: Kind, m: seq<byte>, dl: nat, p: nat)
    requires dl + 3 <= |m| && p < dl
    ensures var t := LayoutOf(k);
            Reads(k, Fields(t.show(m[p..p + t.size]) + Elements(t, m, dl, p + t.size), SPACE), m, dl, p)
    decreases dl - p
  {
    var t := LayoutOf(k);
    var next := p + t.size;
    var first := t.show(m[p..next]);
    ElementMeans(k, m[p..next]);
    if next < dl {
      ElementsRead(k, m, dl, next);
      FieldsOfTwo(t, m, dl, first, next);
      ReadsOneMore(k, first, Fields(t.show(m[next..next + t.size]) + Elements(t, m, dl, next + t.size), SPACE), m, dl, p);
    } else {
      OneField(first, SPACE);
      assert first + [] == first && [first] + [] == [first];
      ReadsOneMore(k, first, [], m, dl, p);
    }
  }

  lemma FieldsOfTwo(t: Layout, m: seq<byte>, dl: nat, first: seq<byte>, next: nat)
    requires t.Ok() && dl + 3 <= |m| && 0 < next < dl && SPACE !in first
    ensures Fields(first + Elements(t, m, dl, next), SPACE) ==
            [first] + Fields(t.show(m[next..next + t.size]) + Elements(t, m, dl, next + t.size), SPACE)
  {
    NextField(first, t.show(m[next..next + t.size]), Elements(t, m, dl, next + t.size));
  }

  lemma NextField(first: seq<byte>, second: seq<byte>, rest: seq<byte>)
    requires SPACE !in first
    ensures Fields(first + ([SPACE] + second + rest), SPACE) == [first] + Fields(second + rest, SPACE)
  {
    OneField(first, SPACE);
    FieldsJoin(first, second + rest, SPACE);
    Assoc([SPACE], second, rest);
    Assoc(first, [SPACE], second + rest);
  }

  /** The text of a list, cut at its spaces, says what its elements mean, in order. */
  lemma ListReads(k: Kind, m: seq<byte>, dl: nat)
    requires dl + 3 <= |m| && dl > 0
    ensures Reads(k, Fields(Elements(LayoutOf(k), m, dl, 0), SPACE), m, dl, 0)
  {
    var t := LayoutOf(k);
    ElementsRead(k, m, dl, 0);
    assert Elements(t, m, dl, 0) == t.show(m[0..t.size]) + Elements(t, m, dl, t.size);
  }

  // ---------------------------------------------------------------- options by type

  ghost predicate ShowsAs(s: Shown, k: Kind, width: nat, m: seq<byte>, dl: nat)
    requires dl + 3 <= |m|
  {
    s.Text? && s.size == (width + 1) * (dl / Size(k)) && Reads(k, Fields(s.text, SPACE), m, dl, 0)
  }

  /** What is shown for each type of number, and how much room is measured for one: the first type
      that the flags name decides. */
  lemma NumbersShown(flags: set<Flag>, m: seq<byte>, dl: nat)
    requires RFC3397 !in flags && RFC3442 !in flags && STRING !in flags && dl + 63 <= |m| && dl > 0
    ensures var s := Presentation(flags, m, dl);
            if UINT8 in flags then ShowsAs(s, U8, 3, m, dl)
            else if UINT16 in flags then ShowsAs(s, U16, 5, m, dl)
            else if SINT16 in flags then ShowsAs(s, S16, 6, m, dl)
            else if UINT32 in flags then ShowsAs(s, U32, 10, m, dl)
            else if SINT32 in flags then ShowsAs(s, S32, 11, m, dl)
            else if IPV4 in flags then ShowsAs(s, V4, 16, m, dl)
            else s == Refused
  {
    var kind := NumericKind(flags);
    if kind.Some? {
      ListReads(kind.value, m, dl);
    }
  }

  /** What the client shows of the options in its own table: numbers of one, two and four bytes, lists
      of them, and addresses. */
  lemma TableRowsShown(code: byte, k: nat, m: seq<byte>, dl: nat)
    requires FirstRow(DhcpTable.Table(), code, k) && dl + 63 <= |m| && dl > 0
    ensures var s := Presentation(DhcpTable.Table()[k].flags, m, dl);
            && (DhcpTable.OneByte(code) || code == 55 ==> ShowsAs(s, U8, 3, m, dl))
            && (DhcpTable.TwoBytes(code) || code == 25 ==> ShowsAs(s, U16, 5, m, dl))
            && (DhcpTable.FourBytes(code) ==> ShowsAs(s, U32, 10, m, dl))
            && (DhcpTable.Addresses(code) ==> ShowsAs(s, V4, 16, m, dl))
  {
    DhcpTable.TableRowsOk();
    var row := DhcpTable.Table()[k];
    assert DhcpTable.RowOk(row);
    if RFC3397 !in row.flags && RFC3442 !in row.flags && STRING !in row.flags {
      NumbersShown(row.flags, m, dl);
    }
  }

  /** Two bytes shown as UINT16 are one word, and it denotes their value in network order. */
  lemma TwoBytesShown(s: Shown, m: seq<byte>)
    requires |m| >= 5 && ShowsAs(s, U16, 5, m, 2)
    ensures s.size == 6 && |Fields(s.text, SPACE)| == 1
    ensures Denotes(Fields(s.text, SPACE)[0], 256 * (m[0] as int) + m[1] as int)
  {
    OneWord(Fields(s.text, SPACE), m);
  }

  lemma OneWord(words: seq<seq<byte>>, m: seq<byte>)
    requires |m| >= 5 && Reads(U16, words, m, 2, 0)
    ensures |words| == 1 && Denotes(words[0], 256 * (m[0] as int) + m[1] as int)
  {
    assert Reads(U16, words[1..], m, 2, 2);
    assert m[0..2][0] == m[0] && m[0..2][1] == m[1];
  }

  /** What is not shown at all: a string that begins with NUL, a name list that is refused, routes
      below five bytes or with a prefix length out of range, and an option without a type. */
  lemma NotShown(flags: set<Flag>, m: seq<byte>, dl: nat)
    requires dl + 63 <= |m|
    ensures RFC3397 in flags && DnsNames.Names(m, dl, 0).None? ==> Presentation(flags, m, dl) == Empty
    ensures RFC3397 !in flags && RFC3442 in flags && (dl < 5 || m[0] > 32) ==> Presentation(flags, m, dl) == Refused
    ensures RFC3397 !in flags && RFC3442 !in flags && STRING in flags && m[0] == 0 ==> Presentation(flags, m, dl) == Empty
    ensures flags <= {REQUEST, ARRAY, PAIR} ==> Presentation(flags, m, dl) == Refused
  {
  }

  // ---------------------------------------------------------------- routes

  /** A destination: an address, a slash and a prefix length. */
  ghost predicate DenotesDestination(s: seq<byte>, dest: seq<byte>, cidr: nat) {
    var fields := Fields(s, 47);
    |fields| == 2 && DenotesOctets(fields[0], dest) && Denotes(fields[1], cidr)
  }

  lemma DestinationDenotes(d: ClasslessRoutes.Descriptor)
    ensures DenotesDestination(ClasslessRoutes.DestinationText(d.dest, d.cidr), d.dest, d.cidr)
    ensures SPACE !in ClasslessRoutes.DestinationText(d.dest, d.cidr)
  {
    QuadDenotes(d.dest);
    QuadIsPlain(d.dest);
    NumberDenotes(d.cidr);
    OneField(DottedQuad(d.dest), 47);
    OneField(Dec(d.cidr), 47);
    FieldsJoin(DottedQuad(d.dest), Dec(d.cidr), 47);
  }

  lemma DescriptorFields(d: ClasslessRoutes.Descriptor)
    ensures ClasslessRoutes.DescriptorText(d) != []
    ensures var words := Fields(ClasslessRoutes.DescriptorText(d), SPACE);
            |words| == 2 && DenotesDestination(words[0], d.dest, d.cidr) && DenotesOctets(words[1], d.gate)
  {
    var destination, router := ClasslessRoutes.DestinationText(d.dest, d.cidr), DottedQuad(d.gate);
    DestinationDenotes(d);
    QuadDenotes(d.gate);
    QuadIsPlain(d.gate);
    OneField(destination, SPACE);
    OneField(router, SPACE);
    FieldsJoin(destination, router, SPACE);
    assert destination + ([SPACE] + router) == destination + [SPACE] + router;
  }

  /** The words name destination, prefix length and router of every route, in order. */
  ghost predicate NamesRoutes(words: seq<seq<byte>>, ds: seq<ClasslessRoutes.Descriptor>) {
    if ds == [] then words == []
    else
      var n := |words|;
      && n >= 2 && NamesRoutes(words[..n - 2], ds[..|ds| - 1])
      && DenotesDestination(words[n - 2], ds[|ds| - 1].dest, ds[|ds| - 1].cidr)
      && DenotesOctets(words[n - 1], ds[|ds| - 1].gate)
  }

  /** The text printed for routes, cut at its spaces, names exactly these routes. */
  lemma {:induction false} RoutesShown(ds: seq<ClasslessRoutes.Descriptor>)
    requires ds != []
    ensures ClasslessRoutes.RoutesText(ds) != []
    ensures NamesRoutes(Fields(ClasslessRoutes.RoutesText(ds), SPACE), ds)
  {
    var front, last := ds[..|ds| - 1], ds[|ds| - 1];
    DescriptorFields(last);
    var text := ClasslessRoutes.DescriptorText(last);
    var words := Fields(text, SPACE);
    if front == [] {
      assert ClasslessRoutes.RoutesText(front) == [] && ClasslessRoutes.RoutesText(ds) == text;
      assert words[..0] == [];
    } else {
      var before := ClasslessRoutes.RoutesText(front);
      RoutesShown(front);
      assert ClasslessRoutes.RoutesText(ds) == before + [SPACE] + text;
      FieldsJoin(before, text, SPACE);
      OneMoreRoute(Fields(before, SPACE), words, ds);
    }
  }

  lemma OneMoreRoute(before: seq<seq<byte>>, words: seq<seq<byte>>, ds: seq<ClasslessRoutes.Descriptor>)
    requires ds != [] && NamesRoutes(before, ds[..|ds| - 1]) && |words| == 2
    requires DenotesDestination(words[0], ds[|ds| - 1].dest, ds[|ds| - 1].cidr) && DenotesOctets(words[1], ds[|ds| - 1].gate)
    ensures NamesRoutes(before + words, ds)
  {
    assert (before + words)[..|before|] == before;
  }

  /** A route option shows the text of exactly the routes read from it, with one slot measured for
      each. By RoutesShown the text names them, and by ClasslessRoutes.WellFormedData they are the
      routes that were encoded. */
  lemma RouteOptionShown(flags: set<Flag>, m: seq<byte>, dl: nat, ds: seq<ClasslessRoutes.Descriptor>)
    requires RFC3442 in flags && RFC3397 !in flags && dl + 63 <= |m| && dl >= 5
    requires ClasslessRoutes.Descriptors(m, dl, 0) == Some(ds)
    ensures var s := Presentation(flags, m, dl);
            s.Text? && s.text == ClasslessRoutes.RoutesText(ds) && s.size == ClasslessRoutes.SLOT * |ds|
  {
  }
}
