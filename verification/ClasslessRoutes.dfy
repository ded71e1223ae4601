/** Classless static routes (RFC 3442): one option decoded twice, into a list of routes and
    into text. */
module ClasslessRoutes {
  import opened Bytes
  import opened Decimal

  const SLASH: byte := 47

  /** One destination descriptor with its router. */
  datatype Descriptor = Descriptor(dest: Address, cidr: nat, gate: Address)

  /** A 32-bit word, most significant bit first. */
  type Word = w: seq<bool> | |w| == 32 witness Clear(32)

  function Clear(n: nat): (w: seq<bool>)
    ensures |w| == n
  {
    seq(n, _ => false)
  }

  /** An entry of the kernel's route list; net is the netmask in host bit order. */
  datatype Route = Route(dest: Address, net: Word, gate: Address)

  // ---------------------------------------------------------------- the option's grammar

  function Octets(cidr: nat): (n: nat)
    ensures cidr <= 8 * n < cidr + 8
  {
    (cidr + 7) / 8
  }

  /** Octets of the destination that are not sent are zero. */
  ghost predicate Canonical(d: Descriptor) {
    d.cidr <= 32 && forall i :: Octets(d.cidr) <= i < 4 ==> d.dest[i] == 0
  }

  function EncodeDescriptor(d: Descriptor): seq<byte>
    requires d.cidr <= 32
  {
    [d.cidr] + d.dest[..Octets(d.cidr)] + d.gate
  }

  function EncodeAll(ds: seq<Descriptor>): seq<byte>
    requires forall i :: 0 <= i < |ds| ==> ds[i].cidr <= 32
  {
    if ds == [] then [] else EncodeDescriptor(ds[0]) + EncodeAll(ds[1..])
  }

  function DescriptorAt(m: seq<byte>, p: nat): (d: Descriptor)
    requires p + 9 <= |m| && m[p] <= 32
    ensures Canonical(d) && d.cidr == m[p]
    ensures forall i :: 0 <= i < Octets(m[p]) ==> d.dest[i] == m[p + 1 + i]
    ensures forall i :: 0 <= i < 4 ==> d.gate[i] == m[p + 1 + Octets(m[p]) + i]
  {
    var n := Octets(m[p]);
    Descriptor(m[p + 1..p + 1 + n] + Zeros(4 - n), m[p], m[p + 1 + n..p + 5 + n])
  }

  /** The descriptors that start before dl; None when a prefix length is out of range. The bytes
      from dl on belong to somebody else; only an unfinished last descriptor looks at them. */
  function Descriptors(m: seq<byte>, dl: nat, p: nat): Option<seq<Descriptor>>
    requires dl + 8 <= |m|
    decreases dl - p
  {
    if p >= dl then Some([])
    else if m[p] > 32 then None
    else match Descriptors(m, dl, p + 5 + Octets(m[p]))
      case None => None
      case Some(more) => Some([DescriptorAt(m, p)] + more)
  }

  lemma DescriptorReadBack(m: seq<byte>, p: nat, d: Descriptor)
    requires Canonical(d) && p + 9 <= |m| && StandsAt(m, p, EncodeDescriptor(d))
    ensures m[p] == d.cidr && DescriptorAt(m, p) == d
  {
    var s, n := EncodeDescriptor(d), Octets(d.cidr);
    assert m[p + 0] == s[0];
    forall i | 0 <= i < n ensures m[p + 1 + i] == d.dest[i] {
      assert m[p + (1 + i)] == s[1 + i];
    }
    forall i | 0 <= i < 4 ensures m[p + 1 + n + i] == d.gate[i] {
      assert m[p + (1 + n + i)] == s[1 + n + i];
    }
    assert m[p + 1..p + 1 + n] + Zeros(4 - n) == d.dest;
    assert m[p + 1 + n..p + 5 + n] == d.gate;
  }

  /** Well-formed data is decoded to exactly the descriptors it encodes. */
  lemma {:induction false} DescriptorsReadBack(m: seq<byte>, dl: nat, p: nat, ds: seq<Descriptor>)
    requires forall i :: 0 <= i < |ds| ==> Canonical(ds[i]) && ds[i].cidr <= 32
    requires dl + 8 <= |m| && StandsAt(m, p, EncodeAll(ds)) && p + |EncodeAll(ds)| == dl
    ensures Descriptors(m, dl, p) == Some(ds)
    decreases |ds|
  {
    if ds != [] {
      var first, more := EncodeDescriptor(ds[0]), EncodeAll(ds[1..]);
      var next := p + 5 + Octets(ds[0].cidr);
      assert |first| == next - p;
      StandsSplit(m, p, first, more);
      DescriptorReadBack(m, p, ds[0]);
      DescriptorsReadBack(m, dl, next, ds[1..]);
      assert Descriptors(m, dl, p) == Some([ds[0]] + ds[1..]);
      assert [ds[0]] + ds[1..] == ds;
    }
  }

  lemma {:induction false} DescriptorsAreCanonical(m: seq<byte>, dl: nat, p: nat)
    requires dl + 8 <= |m|
    ensures var ds := Descriptors(m, dl, p);
            ds.Some? ==> (p < dl ==> ds.value != []) && forall i :: 0 <= i < |ds.value| ==> Canonical(ds.value[i])
    decreases dl - p
  {
    if p < dl && m[p] <= 32 {
      DescriptorsAreCanonical(m, dl, p + 5 + Octets(m[p]));
    }
  }

  // ---------------------------------------------------------------- the route list

  /** n ones, then zeros. */
  function LeadingOnes(n: nat): (w: Word)
    ensures forall i :: 0 <= i < 32 ==> (w[i] <==> i < n)
  {
    seq(32, i => i < n)
  }

  const ALL_ZEROS: Word := LeadingOnes(0)
  const ALL_ONES: Word := LeadingOnes(32)

  function ShiftLeft(w: Word, n: nat): Word
    requires n <= 32
  {
    w[n..] + ALL_ZEROS[..n]
  }

  /** The route a descriptor asks for: its mask has cidr leading ones and nothing else. */
  function RouteOf(d: Descriptor): Route {
    Route(d.dest, LeadingOnes(d.cidr), d.gate)
  }

  function RoutesOf(ds: seq<Descriptor>): seq<Route> {
    seq(|ds|, i requires 0 <= i < |ds| => RouteOf(ds[i]))
  }

  /** The descriptors in done have been read in front of position p. */
  ghost predicate Reading(m: seq<byte>, dl: nat, p: nat, done: seq<Descriptor>)
    requires dl + 8 <= |m|
  {
    var all, rest := Descriptors(m, dl, 0), Descriptors(m, dl, p);
    if rest.None? then all.None? else all == Some(done + rest.value)
  }

  lemma ReadingStarts(m: seq<byte>, dl: nat)
    requires dl + 8 <= |m|
    ensures Reading(m, dl, 0, [])
  {
    var all := Descriptors(m, dl, 0);
    assert all.Some? ==> [] + all.value == all.value;
  }

  lemma ReadingStep(m: seq<byte>, dl: nat, p: nat, done: seq<Descriptor>)
    requires dl + 8 <= |m| && p < dl && Reading(m, dl, p, done)
    ensures m[p] > 32 ==> Descriptors(m, dl, 0).None?
    ensures m[p] <= 32 ==> Reading(m, dl, p + 5 + Octets(m[p]), done + [DescriptorAt(m, p)])
  {
    if m[p] <= 32 {
      var rest := Descriptors(m, dl, p + 5 + Octets(m[p]));
      if rest.Some? {
        Assoc(done, [DescriptorAt(m, p)], rest.value);
      }
    }
  }

  lemma ReadingEnds(m: seq<byte>, dl: nat, p: nat, done: seq<Descriptor>)
    requires dl + 8 <= |m| && p >= dl && Reading(m, dl, p, done)
    ensures Descriptors(m, dl, 0) == Some(done)
  {
    assert done + [] == done;
  }

  /** One descriptor becomes one route. */
  method ReadRoute(m: seq<byte>, p: nat) returns (rt: Route, next: nat)
    requires p + 9 <= |m| && m[p] <= 32
    ensures rt == RouteOf(DescriptorAt(m, p)) && next == p + 5 + Octets(m[p])
  {
    var cidr, q := m[p], p + 1;
    rt := Route(Zeros(4), ALL_ZEROS, Zeros(4));
    var octets := (cidr + 7) / 8;
    if octets > 0 {
      rt := rt.(dest := m[q..q + octets] + rt.dest[octets..], net := ShiftLeft(ALL_ONES, 32 - cidr));
      q := q + octets;
    }
    rt := rt.(gate := m[q..q + 4]);
    next := q + 4;
    ghost var d := DescriptorAt(m, p);
    assert Zeros(4)[octets..] == Zeros(4 - octets);
    assert rt.dest == d.dest && rt.gate == d.gate;
    assert rt.net == LeadingOnes(cidr);
  }

  /** None stands for the null list. */
  method DecodeRfc3442Rt(dl: nat, m: seq<byte>) returns (routes: Option<seq<Route>>)
    requires dl + 8 <= |m|
    ensures routes == if dl < 5 || Descriptors(m, dl, 0).None? then None
                      else Some(RoutesOf(Descriptors(m, dl, 0).value))
    ensures routes.Some? ==>
              var ds := Descriptors(m, dl, 0).value;
              && |routes.value| == |ds|
              && forall i :: 0 <= i < |ds| ==>
                   var rt := routes.value[i];
                   rt.dest == ds[i].dest && rt.gate == ds[i].gate && forall b :: 0 <= b < 32 ==> (rt.net[b] <==> b < ds[i].cidr)
  {
    if dl < 5 {
      return None;
    }
    ghost var done: seq<Descriptor> := [];
    ReadingStarts(m, dl);
    var list: seq<Route> := [];
    var p := 0;
    while p < dl
      invariant 0 <= p
      invariant Reading(m, dl, p, done)
      invariant list == RoutesOf(done)
      decreases dl - p
    {
      ReadingStep(m, dl, p, done);
      if m[p] > 32 {
        return None;
      }
      ghost var d := DescriptorAt(m, p);
      var rt;
      rt, p := ReadRoute(m, p);
      assert RoutesOf(done + [d]) == RoutesOf(done) + [rt];
      list := list + [rt];
      done := done + [d];
    }
    ReadingEnds(m, dl, p, done);
    return Some(list);
  }

  // ---------------------------------------------------------------- the text

  /** What one descriptor prints at most, with a separator. */
  const SLOT := 4 * 4 * 2 + 4

  function DescriptorText(d: Descriptor): seq<byte> {
    DestinationText(d.dest, d.cidr) + RouterText(d.gate)
  }

  function DestinationText(dest: Address, cidr: nat): seq<byte> {
    DottedQuad(dest) + [SLASH] + Dec(cidr)
  }

  function RouterText(gate: Address): seq<byte> {
    [SPACE] + DottedQuad(gate)
  }

  /** The next descriptor's text, behind a separator unless it is the first. */
  function Appended(text: seq<byte>, d: Descriptor): seq<byte> {
    (if text == [] then [] else text + [SPACE]) + DescriptorText(d)
  }

  /** Descriptors in order, separated by single spaces. */
  function RoutesText(ds: seq<Descriptor>): seq<byte> {
    if ds == [] then [] else Appended(RoutesText(ds[..|ds| - 1]), ds[|ds| - 1])
  }

  lemma TextFitsSlot(d: Descriptor)
    requires Canonical(d)
    ensures 1 <= |DescriptorText(d)| <= SLOT - 2
    ensures Octets(d.cidr) == 0 ==> DestinationText(d.dest, d.cidr) == ZeroDestination()
  {
    QuadWidth(d.dest);
    QuadWidth(d.gate);
    assert Pow10(2) == 10 * Pow10(1) && Pow10(1) == 10 * Pow10(0);
    DecWidth(d.cidr, 2);
    if Octets(d.cidr) == 0 {
      var one: seq<byte>, two: seq<byte>, three: seq<byte> := [0], [0, 0], [0, 0, 0];
      assert d.dest == [0, 0, 0, 0] && d.dest[1..] == three && three[1..] == two && two[1..] == one;
      assert DottedQuad(one) == [48] && DottedQuad(two) == [48, 46, 48] && DottedQuad(three) == [48, 46, 48, 46, 48];
    }
  }

  /** The measured size always exceeds the text. */
  lemma {:induction false} RoutesTextFits(ds: seq<Descriptor>)
    requires forall i :: 0 <= i < |ds| ==> Canonical(ds[i])
    ensures |RoutesText(ds)| + |ds| <= SLOT * |ds|
  {
    if ds != [] {
      RoutesTextFits(ds[..|ds| - 1]);
      TextFitsSlot(ds[|ds| - 1]);
    }
  }

  lemma RoutesAreRoomy(m: seq<byte>, dl: nat)
    requires dl + 8 <= |m| && dl > 0
    ensures var ds := Descriptors(m, dl, 0); ds.Some? ==> |RoutesText(ds.value)| < SLOT * |ds.value|
  {
    DescriptorsAreCanonical(m, dl, 0);
    var ds := Descriptors(m, dl, 0);
    if ds.Some? {
      RoutesTextFits(ds.value);
    }
  }

  /** On well-formed data both decoders see exactly the descriptors that were encoded: the list
      has one route for each, and the text shows the same ones in the same order. */
  lemma WellFormedData(ds: seq<Descriptor>, tail: seq<byte>)
    requires ds != [] && forall i :: 0 <= i < |ds| ==> Canonical(ds[i]) && ds[i].cidr <= 32
    requires |tail| >= 8
    ensures var d := EncodeAll(ds);
            |d| >= 5 && Descriptors(d + tail, |d|, 0) == Some(ds)
    ensures |RoutesText(ds)| < SLOT * |ds|
  {
    var d := EncodeAll(ds);
    assert |d| == |EncodeDescriptor(ds[0])| + |EncodeAll(ds[1..])|;
    assert StandsAt(d + tail, 0, d);
    DescriptorsReadBack(d + tail, |d|, 0, ds);
    RoutesTextFits(ds);
  }

  /** The literal 0.0.0.0/0. */
  function ZeroDestination(): seq<byte> {
    [48, 46, 48, 46, 48, 46, 48, 47, 48]
  }

  /** The text printed so far, and the NUL behind it unless nothing has been printed. */
  ghost predicate Printed(out: array<byte>, at: nat, text: seq<byte>)
    reads out
  {
    TextIs(out, 0, at, text) && (at > 0 ==> at < out.Length && out[at] == 0)
  }

  /** snprintf of a string that fits: the text, then a NUL. */
  method Print(out: array<byte>, at: nat, s: seq<byte>, ghost before: seq<byte>) returns (end: nat)
    requires TextIs(out, 0, at, before) && at + |s| < out.Length && s != []
    modifies out
    ensures end == at + |s| && Printed(out, end, before + s)
    ensures forall i :: end < i < out.Length ==> out[i] == old(out[i])
  {
    forall i | 0 <= i < |s| {
      out[at + i] := s[i];
    }
    end := at + |s|;
    out[end] := 0;
  }

  /** The measuring pass. */
  method MeasureRfc3442(pl: nat, m: seq<byte>) returns (bytes: int)
    requires pl + 8 <= |m|
    ensures bytes == if pl < 5 || Descriptors(m, pl, 0).None? then -1 else SLOT * |Descriptors(m, pl, 0).value|
  {
    if pl < 5 {
      return -1;
    }
    ghost var all := Descriptors(m, pl, 0);
    ghost var n := 0;
    var p := 0;
    bytes := 0;
    while p < pl
      invariant 0 <= p && bytes == SLOT * n
      invariant Descriptors(m, pl, p).Some? <==> all.Some?
      invariant all.Some? ==> |all.value| == n + |Descriptors(m, pl, p).value|
      decreases pl - p
    {
      var cidr := m[p];
      if cidr > 32 {
        return -1;
      }
      p := p + 1 + 4 + (cidr + 7) / 8;
      bytes := bytes + SLOT;
      n := n + 1;
    }
  }

  lemma TextOfOneMore(done: seq<Descriptor>, d: Descriptor)
    ensures RoutesText(done + [d]) == Appended(RoutesText(done), d)
  {
    assert (done + [d])[..|done|] == done;
  }

  /** What is printed of the descriptor at p: without destination octets, a literal. */
  function DestinationAt(m: seq<byte>, p: nat): seq<byte>
    requires p + 9 <= |m| && m[p] <= 32
  {
    var n := Octets(m[p]);
    if n > 0 then DestinationText(m[p + 1..p + 1 + n] + Zeros(4 - n), m[p]) else ZeroDestination()
  }

  lemma DescriptorShown(m: seq<byte>, p: nat)
    requires p + 9 <= |m| && m[p] <= 32
    ensures var d, n := DescriptorAt(m, p), Octets(m[p]);
            && DestinationAt(m, p) == DestinationText(d.dest, d.cidr) != []
            && RouterText(m[p + 1 + n..p + 5 + n]) == RouterText(d.gate) != []
            && DescriptorText(d) == DestinationAt(m, p) + RouterText(m[p + 1 + n..p + 5 + n])
            && |DescriptorText(d)| <= SLOT - 2
  {
    TextFitsSlot(DescriptorAt(m, p));
  }

  /** Destination and router are printed one behind the other. */
  method PrintBoth(out: array<byte>, at: nat, destination: seq<byte>, router: seq<byte>, ghost before: seq<byte>)
    returns (end: nat)
    requires TextIs(out, 0, at, before) && at + |destination + router| < out.Length && destination != [] && router != []
    modifies out
    ensures end == at + |destination + router| && Printed(out, end, before + (destination + router))
    ensures forall i :: end < i < out.Length ==> out[i] == old(out[i])
  {
    var o := Print(out, at, destination, before);
    end := Print(out, o, router, before + destination);
    Assoc(before, destination, router);
  }

  /** One turn of the filling loop, for a prefix length that has been accepted. */
  method PrintDescriptor(out: array<byte>, at: nat, p: nat, m: seq<byte>, ghost text: seq<byte>)
    returns (next: nat, end: nat)
    requires p + 9 <= |m| && m[p] <= 32 && at + SLOT <= out.Length && Printed(out, at, text)
    modifies out
    ensures next == p + 5 + Octets(m[p])
    ensures at < end < at + SLOT && Printed(out, end, Appended(text, DescriptorAt(m, p)))
    ensures forall i :: at + SLOT <= i < out.Length ==> out[i] == old(out[i])
  {
    DescriptorShown(m, p);
    ghost var before := if text == [] then [] else text + [SPACE];
    var o, q := at, p + 1 + Octets(m[p]);
    if o != 0 {
      out[o] := SPACE;
      o := o + 1;
    }
    end := PrintBoth(out, o, DestinationAt(m, p), RouterText(m[q..q + 4]), before);
    next := q + 4;
  }

  /** The filling loop stands in front of position p. */
  ghost predicate RoutesPrinted(out: array<byte>, len: nat, m: seq<byte>, pl: nat, p: nat, o: nat, done: seq<Descriptor>)
    requires pl + 8 <= |m|
    reads out
  {
    && Reading(m, pl, p, done) && (p > 0 ==> done != [])
    && Printed(out, o, RoutesText(done))
    && o <= SLOT * |done| && o <= len && (done != [] ==> 0 < o < len)
  }

  /** The filling pass: whatever the space, the text is either complete or refused. */
  method DecodeRfc3442(out: array<byte>, len: nat, pl: nat, m: seq<byte>) returns (bytes: int)
    requires pl + 8 <= |m| && len <= out.Length
    modifies out
    ensures pl < 5 || Descriptors(m, pl, 0).None? ==> bytes == -1
    ensures pl >= 5 && Descriptors(m, pl, 0).Some? ==>
              var ds := Descriptors(m, pl, 0).value;
              && (bytes == -1 || (0 < bytes == |RoutesText(ds)| < len && Printed(out, bytes, RoutesText(ds))))
              && (len >= SLOT * |ds| ==> bytes != -1)
    ensures forall i :: len <= i < out.Length ==> out[i] == old(out[i])
  {
    if pl < 5 {
      return -1;
    }
    ghost var done: seq<Descriptor> := [];
    ReadingStarts(m, pl);
    var p, o := 0, 0;
    while p < pl
      invariant 0 <= p && 0 <= o
      invariant RoutesPrinted(out, len, m, pl, p, o, done)
      invariant forall i :: len <= i < out.Length ==> out[i] == old(out[i])
      decreases pl - p
    {
      ReadingStep(m, pl, p, done);
      if m[p] > 32 {
        return -1;
      }
      if SLOT > len - o {
        MoreToCome(m, pl, p, done);
        return -1;
      }
      p, o, done := PrintNext(out, len, m, pl, p, o, done);
    }
    ReadingEnds(m, pl, p, done);
    return o;
  }

  method PrintNext(out: array<byte>, len: nat, m: seq<byte>, pl: nat, p: nat, o: nat, ghost done: seq<Descriptor>)
    returns (next: nat, end: nat, ghost done': seq<Descriptor>)
    requires pl + 8 <= |m| && p < pl && len <= out.Length && RoutesPrinted(out, len, m, pl, p, o, done)
    requires m[p] <= 32 && SLOT <= len - o
    modifies out
    ensures RoutesPrinted(out, len, m, pl, next, end, done') && next > p
    ensures forall i :: len <= i < out.Length ==> out[i] == old(out[i])
  {
    ReadingStep(m, pl, p, done);
    ghost var d := DescriptorAt(m, p);
    next, end := PrintDescriptor(out, o, p, m, RoutesText(done));
    TextOfOneMore(done, d);
    done' := done + [d];
    MoreSlots(|done|, 1);
  }

  lemma MoreSlots(n: nat, more: nat)
    ensures SLOT * (n + more) == SLOT * n + SLOT * more
    ensures more > 0 ==> SLOT * more >= SLOT
  {
  }

  lemma MoreToCome(m: seq<byte>, pl: nat, p: nat, done: seq<Descriptor>)
    requires pl + 8 <= |m| && p < pl && Reading(m, pl, p, done)
    ensures var all := Descriptors(m, pl, 0); all.Some? ==> SLOT * |all.value| >= SLOT * |done| + SLOT
  {
    var all := Descriptors(m, pl, 0);
    if all.Some? {
      MoreSlots(|done|, |all.value| - |done|);
    }
  }
}
