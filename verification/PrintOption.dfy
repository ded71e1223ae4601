/** An option's value as text for a script's environment: one pass measures, one pass fills. */
module PrintOption {
  import opened Bytes
  import opened Decimal
  import opened DhcpOptions
  import DnsNames
  import ClasslessRoutes
  import PrintString

  // ---------------------------------------------------------------- numeric elements

  datatype Kind = U8 | U16 | S16 | U32 | S32 | V4

  /** The first matching flag decides how elements are printed. */
  function NumericKind(flags: set<Flag>): Option<Kind> {
    if UINT8 in flags then Some(U8)
    else if UINT16 in flags then Some(U16)
    else if SINT16 in flags then Some(S16)
    else if UINT32 in flags then Some(U32)
    else if SINT32 in flags then Some(S32)
    else if IPV4 in flags then Some(V4)
    else None
  }

  function Size(k: Kind): (n: nat)
    ensures 1 <= n <= 4
  {
    match k
    case U8 => 1
    case U16 => 2
    case S16 => 2
    case _ => 4
  }

  /** The width the measuring pass reserves for one element. */
  function Width(k: Kind): nat {
    match k
    case U8 => 3
    case U16 => 5
    case S16 => 6
    case U32 => 10
    case S32 => 11
    case V4 => 16
  }

  /** A big-endian number. */
  function BigEndian(b: seq<byte>): nat {
    if b == [] then 0 else 256 * BigEndian(b[..|b| - 1]) + b[|b| - 1]
  }

  /** Two's complement of a number below 2 * half. */
  function Signed(v: nat, half: nat): int {
    if v < half then v else v - 2 * half
  }

  /** One element's text. A UINT32 is printed with %d, so from 2^31 on as a negative number. */
  function ElementText(k: Kind, b: seq<byte>): seq<byte> {
    match k
    case U8 => Dec(BigEndian(b))
    case U16 => Dec(BigEndian(b))
    case S16 => DecSigned(Signed(BigEndian(b), 0x8000))
    case U32 => DecSigned(Signed(BigEndian(b), 0x8000_0000))
    case S32 => DecSigned(Signed(BigEndian(b), 0x8000_0000))
    case V4 => DottedQuad(b)
  }

  function Pow256(n: nat): nat {
    if n == 0 then 1 else 256 * Pow256(n - 1)
  }

  lemma {:induction false} BigEndianBound(b: seq<byte>)
    ensures BigEndian(b) < Pow256(|b|)
  {
    if b != [] {
      BigEndianBound(b[..|b| - 1]);
    }
  }

  lemma Powers()
    ensures Pow256(1) == 0x100 && Pow256(2) == 0x1_0000 && Pow256(4) == 0x1_0000_0000
    ensures Pow10(3) == 1000 && Pow10(5) == 100_000 && Pow10(9) == 1_000_000_000 && Pow10(10) == 10_000_000_000
  {
    assert Pow10(1) == 10 * Pow10(0);
    assert Pow10(2) == 10 * Pow10(1);
    assert Pow10(3) == 10 * Pow10(2);
    assert Pow10(4) == 10 * Pow10(3);
    assert Pow10(5) == 10 * Pow10(4);
    assert Pow10(6) == 10 * Pow10(5);
    assert Pow10(7) == 10 * Pow10(6);
    assert Pow10(8) == 10 * Pow10(7);
    assert Pow256(3) == 256 * Pow256(2);
    assert Pow10(9) == 10 * Pow10(8);
  }

  /** The one element that can outgrow its reserved width: a UINT32 whose signed reading is
      -1000000000 or less. */
  predicate Outgrows(k: Kind, b: seq<byte>) {
    k == U32 && 0x8000_0000 <= BigEndian(b) <= 0x1_0000_0000 - 1_000_000_000
  }

  lemma SignedWidth(s: int, limit: nat, k: nat)
    requires k > 0 && limit <= Pow10(k) && s < limit && -s < limit
    ensures 1 <= |DecSigned(s)| <= k + 1
    ensures s >= 0 ==> |DecSigned(s)| <= k
  {
    DecWidth(if s < 0 then -s else s, k);
  }

  lemma Uint32Width(v: nat)
    requires v < 0x1_0000_0000
    ensures var n := |DecSigned(Signed(v, 0x8000_0000))|;
            1 <= n <= 11 && (n <= 10 <==> !(0x8000_0000 <= v <= 0x1_0000_0000 - 1_000_000_000))
  {
    Powers();
    var s := Signed(v, 0x8000_0000);
    SignedWidth(s, 10_000_000_000, 10);
    if s < 0 {
      DecWidth(-s, 9);
    }
  }

  lemma ElementFits(k: Kind, b: seq<byte>)
    requires |b| == Size(k)
    ensures 1 <= |ElementText(k, b)| <= Width(k) + 1
    ensures |ElementText(k, b)| <= Width(k) <==> !Outgrows(k, b)
  {
    BigEndianBound(b);
    Powers();
    var v := BigEndian(b);
    match k
    case U8 => SignedWidth(v, 1000, 3);
    case U16 => SignedWidth(v, 100_000, 5);
    case S16 => SignedWidth(Signed(v, 0x8000), 100_000, 5);
    case U32 => Uint32Width(v);
    case S32 => SignedWidth(Signed(v, 0x8000_0000), 10_000_000_000, 10);
    case V4 => QuadWidth(b);
  }

  // ---------------------------------------------------------------- lists of elements

  /** How the elements of a value are laid out, measured and shown. */
  datatype Layout = Layout(size: nat, width: nat, show: seq<byte> -> seq<byte>) {
    predicate Ok() {
      1 <= size <= 4
    }
  }

  function LayoutOf(k: Kind): (t: Layout)
    ensures t.Ok() && t.size == Size(k) && t.width == Width(k)
    ensures forall b: seq<byte> :: t.show(b) == ElementText(k, b)
  {
    Layout(Size(k), Width(k), b => ElementText(k, b))
  }

  /** The elements of data[..dl], separated by spaces; m may be looked at past dl when the last
      element is not whole. */
  function Elements(t: Layout, m: seq<byte>, dl: nat, p: nat): seq<byte>
    requires t.Ok() && dl + 3 <= |m|
    decreases dl - p
  {
    if p >= dl then []
    else (if p == 0 then [] else [SPACE]) + t.show(m[p..p + t.size]) + Elements(t, m, dl, p + t.size)
  }

  /** What the measuring pass returns. */
  function Measured(t: Layout, dl: nat): nat
    requires t.Ok()
  {
    (t.width + 1) * (dl / t.size)
  }

  /** The characters that whole elements from position p on leave of their widths. */
  function Spare(t: Layout, m: seq<byte>, dl: nat, p: nat): int
    requires t.Ok() && dl + 3 <= |m|
    decreases dl - p
  {
    if p + t.size > dl then 0
    else t.width - |t.show(m[p..p + t.size])| + Spare(t, m, dl, p + t.size)
  }

  /** The characters of a last element that is not whole, which is not measured but printed. */
  function Rest(t: Layout, m: seq<byte>, dl: nat): nat
    requires t.Ok() && dl + 3 <= |m|
  {
    var p := dl - dl % t.size;
    if p == dl then 0 else |t.show(m[p..p + t.size])|
  }

  /** Whole elements do not need more than their widths together; a partial element finds its
      characters among those they leave. */
  predicate FillFits(t: Layout, m: seq<byte>, dl: nat)
    requires t.Ok() && dl + 3 <= |m|
  {
    if dl % t.size == 0 then Spare(t, m, dl, 0) >= 0 else Rest(t, m, dl) < Spare(t, m, dl, 0)
  }

  lemma OneMore(n: nat, size: nat)
    requires 1 <= size <= 4
    ensures n >= size ==> n / size == 1 + (n - size) / size && n % size == (n - size) % size
    ensures n < size ==> n / size == 0 && n % size == n
  {
  }

  /** The measured size of the elements from position p on. */
  lemma MeasuredStep(t: Layout, dl: nat, p: nat)
    requires t.Ok() && p < dl
    ensures p + t.size <= dl ==> Measured(t, dl - p) == t.width + 1 + Measured(t, dl - (p + t.size))
    ensures p + t.size <= dl ==> (dl - (p + t.size)) % t.size == (dl - p) % t.size
    ensures p + t.size > dl ==> Measured(t, dl - p) == 0 && (dl - p) % t.size == dl - p
  {
    OneMore(dl - p, t.size);
    if p + t.size <= dl {
      var w, n := t.width + 1, (dl - (p + t.size)) / t.size;
      assert w * (1 + n) == w + w * n;
    }
  }

  /** What is printed, what is measured, and what is left over always balance. */
  lemma {:induction false} TextLength(t: Layout, m: seq<byte>, dl: nat, p: nat)
    requires t.Ok() && dl + 3 <= |m| && p <= dl && (dl - p) % t.size == dl % t.size
    ensures |Elements(t, m, dl, p)| + Spare(t, m, dl, p) ==
            Measured(t, dl - p) + (if dl % t.size == 0 then 0 else 1 + Rest(t, m, dl)) - (if p == 0 && dl > 0 then 1 else 0)
    decreases dl - p
  {
    if p < dl {
      MeasuredStep(t, dl, p);
      if p + t.size <= dl {
        TextLength(t, m, dl, p + t.size);
      } else {
        assert dl - dl % t.size == p;
        assert Elements(t, m, dl, p + t.size) == [];
      }
    }
  }

  /** The measured size leaves room for the elements and their terminator exactly when they fit. */
  lemma ElementsFit(t: Layout, m: seq<byte>, dl: nat)
    requires t.Ok() && dl + 3 <= |m| && dl > 0
    ensures |Elements(t, m, dl, 0)| < Measured(t, dl) <==> FillFits(t, m, dl)
  {
    TextLength(t, m, dl, 0);
  }

  /** Whole elements of every type but UINT32 fit. */
  lemma {:induction false} WholeElementsFit(k: Kind, m: seq<byte>, dl: nat, p: nat)
    requires dl + 3 <= |m| && k != U32
    ensures Spare(LayoutOf(k), m, dl, p) >= 0
    decreases dl - p
  {
    var t := LayoutOf(k);
    if p + t.size <= dl {
      ElementFits(k, m[p..p + t.size]);
      WholeElementsFit(k, m, dl, p + t.size);
    }
  }

  /** For a single element the room is enough exactly when the element does not outgrow it. */
  lemma OneElementFits(k: Kind, m: seq<byte>)
    requires Size(k) + 3 <= |m|
    ensures FillFits(LayoutOf(k), m, Size(k)) <==> !Outgrows(k, m[..Size(k)])
  {
    var t, n := LayoutOf(k), Size(k);
    assert m[0..n] == m[..n];
    ElementFits(k, m[..n]);
    OneMore(n, n);
    assert Spare(t, m, n, n) == 0;
    assert Spare(t, m, n, 0) == t.width - |t.show(m[0..n])|;
  }

  /** Five bytes of an address list: both addresses together must be shorter than one width. */
  lemma FiveBytes(m: seq<byte>)
    requires |m| >= 8
    ensures FillFits(LayoutOf(V4), m, 5) <==> |DottedQuad(m[0..4])| + |DottedQuad(m[4..8])| < Width(V4)
    ensures |DottedQuad(m[0..4])| > 8 ==> !FillFits(LayoutOf(V4), m, 5)
  {
    var t := LayoutOf(V4);
    assert Spare(t, m, 5, 4) == 0;
    assert t.show(m[0..4]) == DottedQuad(m[0..4]) && t.show(m[4..8]) == DottedQuad(m[4..8]);
    QuadWidth(m[4..8]);
  }

  // ---------------------------------------------------------------- filling

  /** snprintf into the rem bytes from position at: as much as fits, then a NUL; the result is
      the untruncated length. */
  method Snprintf(out: array<byte>, at: nat, rem: nat, s: seq<byte>, ghost text: seq<byte>) returns (l: nat)
    requires at + rem <= out.Length && TextIs(out, 0, at, text)
    modifies out
    ensures l == |s|
    ensures l < rem ==> TextIs(out, 0, at + l, text + s) && out[at + l] == 0
  {
    l := |s|;
    if rem > 0 {
      var n := if l < rem then l else rem - 1;
      forall i | 0 <= i < n {
        out[at + i] := s[i];
      }
      out[at + n] := 0;
    }
  }

  method PutSpace(out: array<byte>, at: nat, ghost text: seq<byte>)
    requires at < out.Length && TextIs(out, 0, at, text)
    modifies out
    ensures TextIs(out, 0, at + 1, text + [SPACE])
  {
    out[at] := SPACE;
  }

  /** Where the element loop stands: left bytes are free behind the text, or, once it has started,
      the text has reached the end of the buffer. */
  ghost predicate Filling(out: array<byte>, len: nat, at: nat, left: nat, started: bool, text: seq<byte>)
    reads out
  {
    && at + left == len <= out.Length
    && (if started && left == 0 then |text| >= len else TextIs(out, 0, at, text))
    && (started && left > 0 ==> out[at] == 0)
  }

  /** One turn of the element loop: a separator unless the element is the first one, and the element
      as far as it fits. */
  method FillOne(out: array<byte>, len: nat, at: nat, left: nat, started: bool, element: seq<byte>, ghost text: seq<byte>)
    returns (end: nat, left': nat)
    requires Filling(out, len, at, left, started, text) && (started ==> left > 0)
    modifies out
    ensures Filling(out, len, end, left', true, Joined(text, started, element))
  {
    end, left' := at, left;
    if started {
      PutSpace(out, at, text);
      end, left' := end + 1, left' - 1;
    }
    var l := Snprintf(out, end, left', element, if started then text + [SPACE] else text);
    if left' <= l {
      end, left' := end + left', 0;
    } else {
      end, left' := end + l, left' - l;
    }
  }

  /** The element loop: the whole text when it fits in front of its terminator, and otherwise a
      result equal to len. */
  method FillElements(out: array<byte>, len: nat, t: Layout, m: seq<byte>, dl: nat) returns (bytes: nat)
    requires t.Ok() && dl + 3 <= |m| && len <= out.Length
    modifies out
    ensures var text := Elements(t, m, dl, 0);
            if |text| < len
            then TextIs(out, 0, bytes, text) && (dl > 0 ==> out[bytes] == 0)
            else bytes == len
  {
    ghost var text: seq<byte> := [];
    var p, left := 0, len;
    bytes := 0;
    while p < dl && (p == 0 || left > 0)
      invariant 0 <= p
      invariant Filling(out, len, bytes, left, p > 0, text)
      invariant text + Elements(t, m, dl, p) == Elements(t, m, dl, 0)
      decreases dl - p
    {
      ElementsStep(t, m, dl, p, text);
      var element := t.show(m[p..p + t.size]);
      bytes, left := FillOne(out, len, bytes, left, p > 0, element, text);
      text := Joined(text, p > 0, element);
      p := p + t.size;
    }
    assert p >= dl ==> text + [] == text;
  }

  /** The next element, behind a separator unless it is the first. */
  function Joined(text: seq<byte>, started: bool, element: seq<byte>): seq<byte> {
    (if started then text + [SPACE] else text) + element
  }

  lemma ElementsStep(t: Layout, m: seq<byte>, dl: nat, p: nat, text: seq<byte>)
    requires t.Ok() && dl + 3 <= |m| && p < dl
    ensures text + Elements(t, m, dl, p) ==
            Joined(text, p > 0, t.show(m[p..p + t.size])) + Elements(t, m, dl, p + t.size)
  {
    var element, rest := t.show(m[p..p + t.size]), Elements(t, m, dl, p + t.size);
    var sep: seq<byte> := if p == 0 then [] else [SPACE];
    Assoc(text, sep, element);
    Assoc(text, sep + element, rest);
    assert Joined(text, p > 0, element) == text + sep + element;
  }

  // ---------------------------------------------------------------- whole options

  /** What an option looks like: refused, empty, or a text with the size the measuring pass
      gives for it and the result of the filling pass. */
  datatype Shown = Refused | Empty | Text(text: seq<byte>, size: nat, filled: nat)

  function StringShown(d: seq<byte>): Shown {
    var text := PrintString.Escaped(PrintString.TrimNuls(d));
    Text(text, |text| + 1, |text| + 1)
  }

  /** The value in m[..dl] presented by its type; RFC 3361 and RFC 5969 are not modelled. */
  function Presentation(flags: set<Flag>, m: seq<byte>, dl: nat): Shown
    requires dl + 63 <= |m|
  {
    if RFC3397 in flags then
      match DnsNames.Names(m, dl, 0)
      case None => Empty
      case Some(names) =>
        var r := DnsNames.Rendered(names);
        if r == [] then Empty else StringShown(r[..|r| - 1])
    else if RFC3442 in flags then
      match ClasslessRoutes.Descriptors(m, dl, 0)
      case None => Refused
      case Some(ds) =>
        if dl < 5 then Refused
        else Text(ClasslessRoutes.RoutesText(ds), ClasslessRoutes.SLOT * |ds|, |ClasslessRoutes.RoutesText(ds)|)
    else if STRING in flags then
      if m[0] == 0 then Empty else StringShown(m[..dl])
    else
      match NumericKind(flags)
      case None => Refused
      case Some(k) =>
        var text := Elements(LayoutOf(k), m, dl, 0);
        Text(text, Measured(LayoutOf(k), dl), |text|)
  }

  /** Does the measured size leave room for the text and its terminator? */
  ghost predicate Roomy(s: Shown) {
    s.Text? ==> |s.text| < s.size
  }

  /** print_string with the room it asks for. */
  method FillString(out: array?<byte>, len: nat, d: seq<byte>) returns (r: int)
    requires out != null ==> len <= out.Length && len >= StringShown(d).size
    modifies out
    ensures var s := StringShown(d);
            r == s.size && (out != null ==> TextIs(out, 0, |s.text|, s.text) && out[|s.text|] == 0)
  {
    PrintString.NothingRefused(PrintString.TrimNuls(d), len);
    r := PrintString.PrintString(out, len, d);
    assert out != null ==> PrintString.Filled(out, len, PrintString.TrimNuls(d), r);
  }

  lemma WithoutLast(tmp: array<byte>, l: nat, r: seq<byte>)
    requires l > 0 && TextIs(tmp, 1, l, DnsNames.SetLast(r, 0))
    ensures tmp[1..l] == r[..|r| - 1]
  {
    assert forall i :: 0 <= i < l - 1 ==> tmp[1 + i] == DnsNames.SetLast(r, 0)[i] == r[i];
  }

  /** Names are decoded into a buffer of their own, which has the byte in front of it as first
      element: what becomes of that byte is stated by DnsNames.FrontByte. */
  method PrintNames(out: array?<byte>, len: nat, m: seq<byte>, dl: nat) returns (l: int)
    requires dl + 63 <= |m|
    requires out != null ==> len <= out.Length
    requires out != null && Presentation({RFC3397}, m, dl).Text? ==> len >= Presentation({RFC3397}, m, dl).size
    modifies out
    ensures var s := Presentation({RFC3397}, m, dl);
            match s
            case Refused => false
            case Empty => l == 0
            case Text(text, size, _) => l == size && (out != null ==> TextIs(out, 0, |text|, text) && out[|text|] == 0)
  {
    l := DnsNames.DecodeRfc3397(null, 0, 0, dl, m);
    if l < 1 {
      return l;
    }
    var tmp := new byte[1 + l];
    var again := DnsNames.DecodeRfc3397(tmp, 1, l, dl, m);
    ghost var r := DnsNames.Rendered(DnsNames.Names(m, dl, 0).value);
    WithoutLast(tmp, l, r);
    l := FillString(out, len, tmp[1..l]);
  }

  /** out is null in the measuring pass; the filling pass is given what that pass returned. */
  method PrintOption(out: array?<byte>, len: nat, flags: set<Flag>, dl: nat, m: seq<byte>) returns (r: int)
    requires dl + 63 <= |m| && RFC3361 !in flags && RFC5969 !in flags
    requires out != null ==> len <= out.Length && Presentation(flags, m, dl).Text? &&
                             len >= Presentation(flags, m, dl).size
    modifies out
    ensures out == null ==>
              r == match Presentation(flags, m, dl) case Refused => -1 case Empty => 0 case Text(_, size, _) => size
    ensures out != null && dl > 0 ==>
              var s := Presentation(flags, m, dl);
              if |s.text| < len then r == s.filled && TextIs(out, 0, |s.text|, s.text) && out[|s.text|] == 0
              else r == len
  {
    ghost var s := Presentation(flags, m, dl);
    if RFC3397 in flags {
      assert Presentation({RFC3397}, m, dl) == s;
      r := PrintNames(out, len, m, dl);
      return;
    }
    if RFC3442 in flags {
      if out == null {
        r := ClasslessRoutes.MeasureRfc3442(dl, m);
      } else {
        r := ClasslessRoutes.DecodeRfc3442(out, len, dl, m);
      }
      return;
    }
    if STRING in flags {
      if m[0] == 0 {
        return 0;
      }
      r := FillString(out, len, m[..dl]);
      return;
    }
    var kind := NumericKind(flags);
    if out == null {
      if kind == None {
        return -1;
      }
      return Measured(LayoutOf(kind.value), dl);
    }
    r := FillElements(out, len, LayoutOf(kind.value), m, dl);
  }

  /** Name lists and strings are measured exactly. A list of complete names is shown as its labels
      joined by dots and its names joined by spaces, with every byte escaped that needs it. */
  lemma MeasuredIsExact(flags: set<Flag>, m: seq<byte>, dl: nat)
    requires dl + 63 <= |m| && dl > 0
    requires if RFC3397 in flags then DnsNames.AllComplete(m, dl, 0) else RFC3442 !in flags && STRING in flags && m[0] != 0
    ensures RFC3397 in flags ==> DnsNames.Names(m, dl, 0).Some?
    ensures var s := Presentation(flags, m, dl);
            && s.Text? && s.size == s.filled == |s.text| + 1
            && PrintString.Unescaped(s.text) ==
               PrintString.TrimNuls(if RFC3397 in flags then DnsNames.ListText(DnsNames.Names(m, dl, 0).value) else m[..dl])
  {
    if RFC3397 in flags {
      DnsNames.CompleteListDecodes(m, dl);
      var names := DnsNames.Names(m, dl, 0).value;
      DnsNames.NamesHaveLabels(m, dl, 0);
      DnsNames.RenderedIsListText(names);
      assert DnsNames.Rendered(names)[..|DnsNames.ListText(names)|] == DnsNames.ListText(names);
      PrintString.EscapeRoundTrip(PrintString.TrimNuls(DnsNames.ListText(names)));
    } else {
      PrintString.EscapeRoundTrip(PrintString.TrimNuls(m[..dl]));
    }
  }

  /** Strings, names and routes always find room; numbers do exactly when FillFits says so. */
  predicate Complete(flags: set<Flag>, m: seq<byte>, dl: nat)
    requires dl + 3 <= |m|
  {
    RFC3397 in flags || RFC3442 in flags || STRING in flags ||
    match NumericKind(flags) case None => true case Some(k) => FillFits(LayoutOf(k), m, dl)
  }

  /** The measured size leaves room for the text and its terminator exactly then. */
  lemma MeasuredIsEnough(flags: set<Flag>, m: seq<byte>, dl: nat)
    requires dl + 63 <= |m| && dl > 0
    ensures Roomy(Presentation(flags, m, dl)) <==> Complete(flags, m, dl)
  {
    if RFC3397 in flags {
    } else if RFC3442 in flags {
      ClasslessRoutes.RoutesAreRoomy(m, dl);
    } else if STRING in flags {
    } else if NumericKind(flags).Some? {
      ElementsFit(LayoutOf(NumericKind(flags).value), m, dl);
    }
  }
}
