/** The messages the client sends: which options are written, and how they are read back. */
module DhcpMessage {
  import opened Bytes
  import opened Decimal
  import opened DhcpOptions
  import DnsNames

  // Message types and option codes of RFC 2132, and option 81 of RFC 4702.
  const DISCOVER: byte := 1
  const REQUESTING: byte := 3
  const DECLINE: byte := 4
  const RELEASE: byte := 7
  const INFORM: byte := 8

  const HOSTNAME: byte := 12
  const VENDOR: byte := 43
  const IPADDRESS: byte := 50
  const LEASETIME: byte := 51
  const MESSAGETYPE: byte := 53
  const SERVERID: byte := 54
  const PARAMETERREQUESTLIST: byte := 55
  const MESSAGE: byte := 56
  const MAXMESSAGESIZE: byte := 57
  const RENEWALTIME: byte := 58
  const REBINDTIME: byte := 59
  const VENDORCLASSID: byte := 60
  const CLIENTID: byte := 61
  const USERCLASS: byte := 77
  const FQDN: byte := 81

  /** What a message is built from: the interface, its lease and its configuration. Blobs that
      the source stores behind their own length byte are given without it. */
  datatype Config = Config(
    clientid: Option<seq<byte>>,
    leaseIsDhcp: bool, leaseAddr: Address, leaseServer: Address, ifaceAddr: Address,
    requestAddress: bool, reqAddr: Address,
    mtu: nat, canSetMtu: bool, mtuMin: nat, mtuMax: nat,
    userclass: seq<byte>, vendorclassid: seq<byte>, vendor: seq<byte>,
    leasetime: nat,
    sendHostname: bool, hostname: seq<byte>, fqdn: Option<byte>,
    requestmask: set<byte>)

  const NO_ADDRESS: Address := [0, 0, 0, 0]

  // ---------------------------------------------------------------- the options of a message

  /** A place in the message for one option, taken or not. */
  datatype Slot = Slot(code: byte, value: Option<seq<byte>>)

  function When(c: bool, v: seq<byte>): Option<seq<byte>> {
    if c then Some(v) else None
  }

  predicate Asks(t: byte) {
    t == DISCOVER || t == INFORM || t == REQUESTING
  }

  /** The lease's address is named when it is refused or asked for again. */
  predicate NamesLease(c: Config, t: byte) {
    c.leaseAddr != NO_ADDRESS && c.leaseIsDhcp &&
    (t == DECLINE || (t == REQUESTING && c.leaseAddr != c.ifaceAddr))
  }

  predicate NamesServer(c: Config, t: byte) {
    c.leaseServer != NO_ADDRESS &&
    (NamesLease(c, t) || (c.leaseAddr != NO_ADDRESS && c.leaseIsDhcp && t == RELEASE))
  }

  function Word16(v: nat): seq<byte> {
    [(v / 256) % 256, v % 256]
  }

  function Word32(v: nat): seq<byte> {
    [(v / 0x100_0000) % 256, (v / 0x1_0000) % 256, (v / 256) % 256, v % 256]
  }

  /** The size asked for: a small MTU is raised when the interface lets itself be changed, a
      large one is cut. */
  function MaxSize(c: Config): nat {
    if c.mtu < c.mtuMin then (if c.canSetMtu then c.mtuMin else c.mtu)
    else if c.mtu > c.mtuMax then c.mtuMax
    else c.mtu
  }

  function ShortName(host: seq<byte>): seq<byte> {
    if host == [] || host[0] == DOT then [] else [host[0]] + ShortName(host[1..])
  }

  /** The flags byte of RFC 4702: S and N as configured, E always. */
  function FqdnFlags(f: byte): byte {
    f % 2 + 4 + 8 * ((f / 8) % 2)
  }

  function FqdnValue(f: byte, host: seq<byte>): seq<byte> {
    [FqdnFlags(f), 0, 0] + DnsNames.EncodedHost(host)
  }

  const DAD_TEXT: seq<byte> := [
    68, 117, 112, 108, 105, 99, 97, 116, 101, 32, 97, 100, 100, 114, 101, 115, 115, 32,
    100, 101, 116, 101, 99, 116, 101, 100]

  /** The codes asked for, in table order. */
  function Requested(table: seq<DhcpOpt>, c: Config, t: byte): (codes: seq<byte>)
    ensures |codes| <= |table|
  {
    if table == [] then []
    else
      var last := table[|table| - 1];
      Requested(table[..|table| - 1], c, t) + (if Wants(last, c, t) then [last.option] else [])
  }

  predicate Wants(row: DhcpOpt, c: Config, t: byte) {
    (REQUEST in row.flags || row.option in c.requestmask) &&
    !(t == INFORM && (row.option == RENEWALTIME || row.option == REBINDTIME))
  }

  /** Who is speaking, and about which lease. */
  function IdentitySlots(c: Config, t: byte): (g: seq<Slot>)
    ensures |g| == 5
  {
    [Slot(MESSAGETYPE, Some([t])),
     Slot(CLIENTID, c.clientid),
     Slot(IPADDRESS, if NamesLease(c, t) then Some(c.leaseAddr) else When(t == DISCOVER && c.requestAddress, c.reqAddr)),
     Slot(SERVERID, When(NamesServer(c, t), c.leaseServer)),
     Slot(MESSAGE, When(t == DECLINE, DAD_TEXT))]
  }

  function ClassSlots(c: Config, t: byte): (g: seq<Slot>)
    ensures |g| == 4
  {
    [Slot(MAXMESSAGESIZE, When(Asks(t), Word16(MaxSize(c)))),
     Slot(USERCLASS, When(Asks(t) && c.userclass != [], c.userclass)),
     Slot(VENDORCLASSID, When(Asks(t) && c.vendorclassid != [], c.vendorclassid)),
     Slot(LEASETIME, When(Asks(t) && t != INFORM && c.leasetime != 0, Word32(c.leasetime)))]
  }

  function NameSlots(c: Config, t: byte): (g: seq<Slot>)
    ensures |g| == 2
  {
    [Slot(HOSTNAME, When(Asks(t) && c.sendHostname && c.hostname != [], ShortName(c.hostname))),
     Slot(FQDN, if Asks(t) && c.fqdn.Some? && c.hostname != [] then Some(FqdnValue(c.fqdn.value, c.hostname)) else None)]
  }

  function RequestSlots(table: seq<DhcpOpt>, c: Config, t: byte): (g: seq<Slot>)
    ensures |g| == 2
  {
    [Slot(VENDOR, When(Asks(t) && c.vendor != [], c.vendor)),
     Slot(PARAMETERREQUESTLIST, When(Asks(t), Requested(table, c, t)))]
  }

  /** Everything a message of type t may carry, in the order of the message. */
  function Slots(table: seq<DhcpOpt>, c: Config, t: byte): seq<Slot> {
    IdentitySlots(c, t) + ClassSlots(c, t) + NameSlots(c, t) + RequestSlots(table, c, t)
  }

  /** Every value fits its length byte. */
  ghost predicate ValuesFit(slots: seq<Slot>) {
    forall i :: 0 <= i < |slots| && slots[i].value.Some? ==> |slots[i].value.value| <= 255
  }

  function EntryOf(slot: Slot): seq<Entry> {
    if slot.value.Some? then [Entry(slot.code, slot.value.value)] else []
  }

  /** The entries of the first k slots, as far as they are taken. */
  function TakenTo(slots: seq<Slot>, k: nat): (es: seq<Entry>)
    requires k <= |slots|
    ensures ValuesFit(slots) ==> forall i :: 0 <= i < |es| ==> |es[i].value| <= 255
  {
    if k == 0 then [] else TakenTo(slots, k - 1) + EntryOf(slots[k - 1])
  }

  function Written(table: seq<DhcpOpt>, c: Config, t: byte): seq<Entry> {
    var slots := Slots(table, c, t);
    TakenTo(slots, |slots|)
  }

  ghost predicate DistinctSlots(slots: seq<Slot>) {
    forall i, j :: 0 <= i < j < |slots| ==> slots[i].code != slots[j].code
  }

  /** No slot has a code that means something else to a reader. */
  ghost predicate PlainCodes(slots: seq<Slot>) {
    forall i :: 0 <= i < |slots| ==> slots[i].code != PAD && slots[i].code != END && slots[i].code != OVERLOAD
  }

  const CODES: seq<byte> := [
    MESSAGETYPE, CLIENTID, IPADDRESS, SERVERID, MESSAGE, MAXMESSAGESIZE, USERCLASS, VENDORCLASSID,
    LEASETIME, HOSTNAME, FQDN, VENDOR, PARAMETERREQUESTLIST]

  lemma SlotCodesAre(table: seq<DhcpOpt>, c: Config, t: byte)
    ensures var slots := Slots(table, c, t);
            |slots| == |CODES| && forall i :: 0 <= i < |CODES| ==> slots[i].code == CODES[i]
  {
  }

  lemma SlotCodes(table: seq<DhcpOpt>, c: Config, t: byte)
    ensures DistinctSlots(Slots(table, c, t)) && PlainCodes(Slots(table, c, t))
  {
    SlotCodesAre(table, c, t);
    assert forall i, j :: 0 <= i < j < |CODES| ==> CODES[i] != CODES[j];
  }

  lemma {:induction false} TakenEncodable(slots: seq<Slot>, k: nat)
    requires ValuesFit(slots) && PlainCodes(slots) && k <= |slots|
    ensures AllEncodable(TakenTo(slots, k))
  {
    if k > 0 {
      TakenEncodable(slots, k - 1);
    }
  }

  lemma {:induction false} TakenMentions(slots: seq<Slot>, k: nat, code: byte)
    requires k <= |slots| && forall i :: 0 <= i < k ==> slots[i].code != code
    ensures !Mentions(TakenTo(slots, k), code)
  {
    if k > 0 {
      TakenMentions(slots, k - 1, code);
    }
  }

  /** A slot's value is collected under its own code, behind what is there already, and under no
      other. */
  lemma SlotCollects(es: seq<Entry>, slot: Slot, code: byte)
    ensures var all, found := es + EntryOf(slot), slot.code == code && slot.value.Some?;
            && Occurrences(all, code) == Occurrences(es, code) + (if found then 1 else 0)
            && (!found ==> Collected(all, code) == Collected(es, code))
            && (found && Collected(es, code) == [] ==> Collected(all, code) == slot.value.value)
  {
    var end := EntryOf(slot);
    CollectedAppend(es, end, code);
    OccurrencesAppend(es, end, code);
    if slot.value.Some? {
      assert end[1..] == [];
      assert Collected(end, code) == (if slot.code == code then slot.value.value else []) + [];
    }
  }

  /** What is collected for a code from the first n slots, when only slot k has that code. */
  lemma {:induction false} TakenCollects(slots: seq<Slot>, n: nat, k: nat)
    requires DistinctSlots(slots) && n <= |slots| && k < |slots|
    ensures var found := k < n && slots[k].value.Some?;
            && Collected(TakenTo(slots, n), slots[k].code) == (if found then slots[k].value.value else [])
            && Occurrences(TakenTo(slots, n), slots[k].code) == (if found then 1 else 0)
  {
    if n > 0 {
      TakenCollects(slots, n - 1, k);
      SlotCollects(TakenTo(slots, n - 1), slots[n - 1], slots[k].code);
      assert slots[n - 1].code == slots[k].code <==> k == n - 1;
    }
  }

  // ---------------------------------------------------------------- building it in place

  function OptionBytes(slot: Slot): seq<byte>
    requires slot.value.Some? ==> |slot.value.value| <= 255
  {
    if slot.value.Some? then [slot.code, |slot.value.value|] + slot.value.value else []
  }

  /** The bytes of the first k slots. */
  function Image(slots: seq<Slot>, k: nat): seq<byte>
    requires ValuesFit(slots) && k <= |slots|
  {
    if k == 0 then [] else Image(slots, k - 1) + OptionBytes(slots[k - 1])
  }

  lemma {:induction false} ImageIsEncoding(slots: seq<Slot>, k: nat)
    requires ValuesFit(slots) && k <= |slots|
    ensures Encode(TakenTo(slots, k)) == Image(slots, k)
  {
    if k > 0 {
      var es := EntryOf(slots[k - 1]);
      ImageIsEncoding(slots, k - 1);
      EncodeAppend(TakenTo(slots, k - 1), es);
      if es != [] {
        assert es[1..] == [] && Encode(es) == EncodeEntry(es[0]) + Encode(es[1..]);
      }
      assert Encode(es) == OptionBytes(slots[k - 1]);
    }
  }

  /** The field holds these bytes, and zeros behind them. */
  ghost predicate FieldIs(o: array<byte>, p: nat, s: seq<byte>)
    reads o
  {
    TextIs(o, 0, p, s) && forall i :: p <= i < o.Length ==> o[i] == 0
  }

  /** The field holds the first k slots up to position p and zeros behind them. */
  ghost predicate Holding(o: array<byte>, p: nat, slots: seq<Slot>, k: nat)
    requires ValuesFit(slots)
    reads o
  {
    k <= |slots| && FieldIs(o, p, Image(slots, k))
  }

  /** The slots fit their length bytes and, with END behind them, a field of n bytes. */
  ghost predicate Fits(slots: seq<Slot>, n: nat) {
    ValuesFit(slots) && |Image(slots, |slots|)| < n
  }

  /** The group stands in the slots from place k on. */
  ghost predicate Placed(slots: seq<Slot>, k: nat, group: seq<Slot>) {
    k + |group| <= |slots| && forall i :: 0 <= i < |group| ==> slots[k + i] == group[i]
  }

  lemma GroupsArePlaced(table: seq<DhcpOpt>, c: Config, t: byte)
    ensures var slots := Slots(table, c, t);
            && |slots| == 13
            && Placed(slots, 0, IdentitySlots(c, t)) && Placed(slots, 5, ClassSlots(c, t))
            && Placed(slots, 9, NameSlots(c, t)) && Placed(slots, 11, RequestSlots(table, c, t))
  {
    Chained(IdentitySlots(c, t), ClassSlots(c, t), NameSlots(c, t), RequestSlots(table, c, t));
  }

  lemma Chained(a: seq<Slot>, b: seq<Slot>, c: seq<Slot>, d: seq<Slot>)
    ensures var all := a + b + c + d;
            && Placed(all, 0, a) && Placed(all, |a|, b)
            && Placed(all, |a| + |b|, c) && Placed(all, |a| + |b| + |c|, d)
  {
  }

  /** The first k slots take no more room than all of them. */
  lemma {:induction false} ImageGrows(slots: seq<Slot>, k: nat, n: nat)
    requires ValuesFit(slots) && k <= n <= |slots|
    ensures |Image(slots, k)| <= |Image(slots, n)|
    decreases n
  {
    if k < n {
      ImageGrows(slots, k, n - 1);
      assert Image(slots, n) == Image(slots, n - 1) + OptionBytes(slots[n - 1]);
    }
  }

  /** The room for slot k and for END behind it. */
  lemma RoomForSlot(slots: seq<Slot>, k: nat, n: nat)
    requires Fits(slots, n) && k < |slots| && slots[k].value.Some?
    ensures var v := slots[k].value.value;
            && |v| <= 255 && Image(slots, k + 1) == Image(slots, k) + ([slots[k].code, |v|] + v)
            && |Image(slots, k)| + 2 + |v| < n
  {
    ImageGrows(slots, k + 1, |slots|);
  }

  /** One option at position p: code, length, value. */
  method PutOption(o: array<byte>, p: nat, code: byte, v: seq<byte>, ghost slots: seq<Slot>, ghost k: nat)
    returns (q: nat)
    requires Fits(slots, o.Length) && k < |slots| && slots[k] == Slot(code, Some(v)) && Holding(o, p, slots, k)
    modifies o
    ensures Holding(o, q, slots, k + 1)
  {
    RoomForSlot(slots, k, o.Length);
    q := PutBytes(o, p, code, v, Image(slots, k));
  }

  method PutBytes(o: array<byte>, p: nat, code: byte, v: seq<byte>, ghost before: seq<byte>) returns (q: nat)
    requires FieldIs(o, p, before) && p + 2 + |v| <= o.Length && |v| <= 255
    modifies o
    ensures FieldIs(o, q, before + ([code, |v|] + v))
  {
    o[p] := code;
    o[p + 1] := |v|;
    forall i | 0 <= i < |v| {
      o[p + 2 + i] := v[i];
    }
    q := p + 2 + |v|;
  }

  /** A slot that is not taken leaves no bytes. */
  lemma Skipped(slots: seq<Slot>, k: nat)
    requires ValuesFit(slots) && k < |slots| && slots[k].value.None?
    ensures Image(slots, k + 1) == Image(slots, k)
  {
  }

  lemma {:induction false} AllSkipped(slots: seq<Slot>, k: nat, n: nat)
    requires ValuesFit(slots) && k <= n <= |slots| && forall i :: k <= i < n ==> slots[i].value.None?
    ensures Image(slots, n) == Image(slots, k)
    decreases n
  {
    if k < n {
      AllSkipped(slots, k, n - 1);
      Skipped(slots, n - 1);
    }
  }

  /** The short host name, cut at the first dot. */
  method CutAtDot(host: seq<byte>) returns (short: seq<byte>)
    ensures short == ShortName(host)
  {
    var len := 0;
    while len < |host| && host[len] != DOT
      invariant 0 <= len <= |host|
      invariant ShortName(host) == host[..len] + ShortName(host[len..])
    {
      assert host[len..][1..] == host[len + 1..];
      Assoc(host[..len], [host[len]], ShortName(host[len + 1..]));
      assert host[..len + 1] == host[..len] + [host[len]];
      len := len + 1;
    }
    assert ShortName(host[len..]) == [];
    short := host[..len];
  }

  /** Option 81: the length byte is written for the fixed part and raised by what the encoder
      adds. */
  method PutFqdn(o: array<byte>, p: nat, f: byte, host: seq<byte>, ghost before: seq<byte>) returns (q: nat)
    requires FieldIs(o, p, before)
    requires 0 !in host && p + 2 + |FqdnValue(f, host)| <= o.Length && |FqdnValue(f, host)| <= 255
    modifies o
    ensures FieldIs(o, q, before + ([FQDN, |FqdnValue(f, host)|] + FqdnValue(f, host)))
  {
    ghost var name := DnsNames.EncodedHost(host);
    q := PutBytes(o, p, FQDN, [FqdnFlags(f), 0, 0], before);
    ghost var head := before + ([FQDN, 3] + [FqdnFlags(f), 0, 0]);
    ghost var was := o[..q];
    var ul := DnsNames.EncodeRfc1035(host, o, q);
    q := q + ul;
    assert FieldIs(o, q, head + name) by {
      assert o[..q] == was + name;
      assert was == head;
      assert forall i :: 0 <= i < q ==> o[i] == o[..q][i];
    }
    RaiseLength(o, p, ul, q, before, FqdnFlags(f), name);
  }

  method RaiseLength(o: array<byte>, p: nat, ul: nat, q: nat, ghost before: seq<byte>, ghost flags: byte, ghost name: seq<byte>)
    requires p == |before| && ul == |name| && 3 + ul <= 255
    requires FieldIs(o, q, before + ([FQDN, 3] + [flags, 0, 0]) + name)
    modifies o
    ensures FieldIs(o, q, before + ([FQDN, 3 + ul] + ([flags, 0, 0] + name)))
  {
    ghost var was := before + ([FQDN, 3] + [flags, 0, 0]) + name;
    assert o[p + 1] == was[p + 1] == 3;
    o[p + 1] := o[p + 1] + ul;
    assert before + ([FQDN, 3 + ul] + ([flags, 0, 0] + name)) == was[p + 1 := 3 + ul];
  }

  method Append(o: array<byte>, p: nat, b: byte, ghost before: seq<byte>)
    requires FieldIs(o, p, before) && p < o.Length
    modifies o
    ensures FieldIs(o, p + 1, before + [b])
  {
    o[p] := b;
  }

  method SetCount(o: array<byte>, count: nat, q: nat, ghost before: seq<byte>, ghost v: seq<byte>)
    requires count == |before| && |v| <= 255 && FieldIs(o, q, before + [0] + v)
    modifies o
    ensures FieldIs(o, q, before + [|v|] + v)
  {
    o[count] := q - count - 1;
    assert before + [|v|] + v == (before + [0] + v)[count := |v|];
  }

  /** Option 55: the codes are appended one by one, then the count is stored in front of them. */
  method PutParameterList(o: array<byte>, p: nat, table: seq<DhcpOpt>, c: Config, t: byte, ghost before: seq<byte>)
    returns (q: nat)
    requires FieldIs(o, p, before)
    requires p + 2 + |Requested(table, c, t)| <= o.Length && |Requested(table, c, t)| <= 255
    modifies o
    ensures var v := Requested(table, c, t); FieldIs(o, q, before + ([PARAMETERREQUESTLIST, |v|] + v))
  {
    ghost var all := Requested(table, c, t);
    ghost var codes: seq<byte> := [];
    ghost var head := before + [PARAMETERREQUESTLIST];
    Append(o, p, PARAMETERREQUESTLIST, before);
    var count := p + 1;
    q := count + 1;
    var i := 0;
    assert head + [0] + codes == head + [0];
    while i < |table|
      invariant 0 <= i <= |table|
      invariant codes == Requested(table[..i], c, t) && |codes| <= |all|
      invariant FieldIs(o, q, head + [0] + codes)
    {
      RequestedStep(table, i, c, t);
      RequestedGrows(table, i + 1, c, t);
      var row := table[i];
      i := i + 1;
      if !(REQUEST in row.flags || row.option in c.requestmask) {
        continue;
      }
      if t == INFORM && (row.option == RENEWALTIME || row.option == REBINDTIME) {
        continue;
      }
      Append(o, q, row.option, head + [0] + codes);
      q := q + 1;
      Assoc(head + [0], codes, [row.option]);
      codes := codes + [row.option];
    }
    assert table[..i] == table;
    SetCount(o, count, q, head, all);
    assert head + [|all|] + all == before + ([PARAMETERREQUESTLIST, |all|] + all);
  }

  lemma RequestedStep(table: seq<DhcpOpt>, i: nat, c: Config, t: byte)
    requires i < |table|
    ensures Requested(table[..i + 1], c, t) ==
            Requested(table[..i], c, t) + if Wants(table[i], c, t) then [table[i].option] else []
  {
    assert table[..i + 1][..i] == table[..i];
  }

  lemma {:induction false} RequestedGrows(table: seq<DhcpOpt>, i: nat, c: Config, t: byte)
    requires i <= |table|
    ensures |Requested(table[..i], c, t)| <= |Requested(table, c, t)|
    decreases |table| - i
  {
    if i == |table| {
      assert table[..i] == table;
    } else {
      RequestedGrows(table, i + 1, c, t);
      RequestedStep(table, i, c, t);
    }
  }

  /** Who is speaking, and about which lease. */
  method PutIdentity(o: array<byte>, c: Config, t: byte, ghost slots: seq<Slot>) returns (p: nat)
    requires Fits(slots, o.Length) && Placed(slots, 0, IdentitySlots(c, t)) && Holding(o, 0, slots, 0)
    modifies o
    ensures Holding(o, p, slots, 5)
  {
    ghost var g := IdentitySlots(c, t);
    assert slots[0] == g[0] && slots[1] == g[1] && slots[4] == g[4];
    p := PutOption(o, 0, MESSAGETYPE, [t], slots, 0);
    if c.clientid.Some? {
      p := PutOption(o, p, CLIENTID, c.clientid.value, slots, 1);
    } else {
      Skipped(slots, 1);
    }
    p := PutLease(o, p, c, t, slots);
    if t == DECLINE {
      p := PutOption(o, p, MESSAGE, DAD_TEXT, slots, 4);
    } else {
      Skipped(slots, 4);
    }
  }

  /** The address and the server; a DISCOVER names the address wished for in the same place. */
  method PutLease(o: array<byte>, p: nat, c: Config, t: byte, ghost slots: seq<Slot>) returns (q: nat)
    requires Fits(slots, o.Length) && Placed(slots, 0, IdentitySlots(c, t)) && Holding(o, p, slots, 2)
    modifies o
    ensures Holding(o, q, slots, 4)
  {
    ghost var g := IdentitySlots(c, t);
    assert slots[2] == g[2] && slots[3] == g[3];
    q := p;
    if c.leaseAddr != NO_ADDRESS && c.leaseIsDhcp && (t == DECLINE || (t == REQUESTING && c.leaseAddr != c.ifaceAddr)) {
      q := PutOption(o, q, IPADDRESS, c.leaseAddr, slots, 2);
    } else if t == DISCOVER && c.requestAddress {
      q := PutOption(o, q, IPADDRESS, c.reqAddr, slots, 2);
    } else {
      Skipped(slots, 2);
    }
    if c.leaseAddr != NO_ADDRESS && c.leaseIsDhcp && c.leaseServer != NO_ADDRESS &&
       (t == DECLINE || (t == REQUESTING && c.leaseAddr != c.ifaceAddr) || t == RELEASE) {
      q := PutOption(o, q, SERVERID, c.leaseServer, slots, 3);
    } else {
      Skipped(slots, 3);
    }
  }

  method ClampSize(c: Config) returns (sz: nat)
    ensures sz == MaxSize(c)
    ensures c.mtuMin <= c.mtuMax && c.canSetMtu ==> c.mtuMin <= sz <= c.mtuMax
  {
    sz := c.mtu;
    if sz < c.mtuMin {
      if c.canSetMtu {
        sz := c.mtuMin;
      }
    } else if sz > c.mtuMax {
      sz := c.mtuMax;
    }
  }

  method PutClasses(o: array<byte>, p: nat, c: Config, t: byte, ghost slots: seq<Slot>) returns (q: nat)
    requires Fits(slots, o.Length) && Placed(slots, 5, ClassSlots(c, t)) && Asks(t) && Holding(o, p, slots, 5)
    modifies o
    ensures Holding(o, q, slots, 9)
  {
    ghost var g := ClassSlots(c, t);
    assert slots[5 + 0] == g[0] && slots[5 + 1] == g[1] && slots[5 + 2] == g[2] && slots[5 + 3] == g[3];
    var sz := ClampSize(c);
    q := PutOption(o, p, MAXMESSAGESIZE, Word16(sz), slots, 5);
    if c.userclass != [] {
      q := PutOption(o, q, USERCLASS, c.userclass, slots, 6);
    } else {
      Skipped(slots, 6);
    }
    if c.vendorclassid != [] {
      q := PutOption(o, q, VENDORCLASSID, c.vendorclassid, slots, 7);
    } else {
      Skipped(slots, 7);
    }
    if t != INFORM && c.leasetime != 0 {
      q := PutOption(o, q, LEASETIME, Word32(c.leasetime), slots, 8);
    } else {
      Skipped(slots, 8);
    }
  }

  method PutNames(o: array<byte>, p: nat, c: Config, t: byte, ghost slots: seq<Slot>) returns (q: nat)
    requires Fits(slots, o.Length) && Placed(slots, 9, NameSlots(c, t)) && Asks(t) && Holding(o, p, slots, 9)
    requires 0 !in c.hostname
    modifies o
    ensures Holding(o, q, slots, 11)
  {
    ghost var g := NameSlots(c, t);
    assert slots[9 + 0] == g[0] && slots[9 + 1] == g[1];
    q := p;
    if c.sendHostname && c.hostname != [] {
      var short := CutAtDot(c.hostname);
      q := PutOption(o, q, HOSTNAME, short, slots, 9);
    } else {
      Skipped(slots, 9);
    }
    if c.fqdn.Some? && c.hostname != [] {
      RoomForSlot(slots, 10, o.Length);
      q := PutFqdn(o, q, c.fqdn.value, c.hostname, Image(slots, 10));
    } else {
      Skipped(slots, 10);
    }
  }

  method PutRequests(o: array<byte>, p: nat, table: seq<DhcpOpt>, c: Config, t: byte, ghost slots: seq<Slot>) returns (q: nat)
    requires Fits(slots, o.Length) && Placed(slots, 11, RequestSlots(table, c, t)) && Asks(t) && Holding(o, p, slots, 11)
    modifies o
    ensures Holding(o, q, slots, 13)
  {
    ghost var g := RequestSlots(table, c, t);
    assert slots[11 + 0] == g[0] && slots[11 + 1] == g[1];
    q := p;
    if c.vendor != [] {
      q := PutOption(o, q, VENDOR, c.vendor, slots, 11);
    } else {
      Skipped(slots, 11);
    }
    RoomForSlot(slots, 12, o.Length);
    q := PutParameterList(o, q, table, c, t, Image(slots, 12));
  }

  /** Builds the option field of a message of type t; the result also counts the padding that
      brings the field to minLen bytes. */
  method MakeMessage(table: seq<DhcpOpt>, c: Config, t: byte, size: nat, minLen: nat)
    returns (o: array<byte>, len: nat)
    requires Fits(Slots(table, c, t), size) && minLen <= size && 0 !in c.hostname
    ensures fresh(o) && o.Length == size
    ensures MessageIs(table, c, t, size, o[..])
    ensures var n := |Encode(Written(table, c, t))| + 1; len == if n < minLen then minLen else n
  {
    ghost var slots := Slots(table, c, t);
    GroupsArePlaced(table, c, t);
    ImageIsEncoding(slots, 13);
    o := new byte[size](_ => 0);
    var p := PutIdentity(o, c, t, slots);
    if Asks(t) {
      p := PutClasses(o, p, c, t, slots);
      p := PutNames(o, p, c, t, slots);
      p := PutRequests(o, p, table, c, t, slots);
    } else {
      NothingAsked(table, c, t);
    }
    len := Finish(o, p, minLen, Image(slots, 13));
  }

  /** The field of a message: its options, END, and zeros. */
  ghost predicate MessageIs(table: seq<DhcpOpt>, c: Config, t: byte, size: nat, o: seq<byte>)
    requires ValuesFit(Slots(table, c, t))
  {
    var s := Encode(Written(table, c, t)) + [END];
    |s| <= size && o == s + Zeros(size - |s|)
  }

  lemma NothingAsked(table: seq<DhcpOpt>, c: Config, t: byte)
    requires !Asks(t) && ValuesFit(Slots(table, c, t))
    ensures Image(Slots(table, c, t), 13) == Image(Slots(table, c, t), 5)
  {
    var slots := Slots(table, c, t);
    GroupsArePlaced(table, c, t);
    forall i | 5 <= i < 13 ensures slots[i].value.None? {
      if i < 9 {
        assert slots[5 + (i - 5)] == ClassSlots(c, t)[i - 5];
      } else if i < 11 {
        assert slots[9 + (i - 9)] == NameSlots(c, t)[i - 9];
      } else {
        assert slots[11 + (i - 11)] == RequestSlots(table, c, t)[i - 11];
      }
    }
    AllSkipped(slots, 5, 13);
  }

  /** END, then padding up to the minimum length. */
  method Finish(o: array<byte>, at: nat, minLen: nat, ghost before: seq<byte>) returns (p: nat)
    requires FieldIs(o, at, before) && at < o.Length && minLen <= o.Length
    modifies o
    ensures o[..] == before + [END] + Zeros(o.Length - |before| - 1)
    ensures p == if at + 1 < minLen then minLen else at + 1
  {
    o[at] := END;
    p := at + 1;
    while p < minLen
      invariant at < p <= o.Length && (p <= minLen || p == at + 1)
      invariant FieldIs(o, at + 1, before + [END])
    {
      o[p] := PAD;
      p := p + 1;
    }
    var zeros := Zeros(o.Length - |before| - 1);
    forall i | 0 <= i < o.Length ensures o[..][i] == (before + [END] + zeros)[i] {
      if i <= at {
        assert o[i] == (before + [END])[i];
      }
    }
  }

  // ---------------------------------------------------------------- reading it back

  /** Every message is a well-formed option stream: reading its bytes gives exactly the options
      written, each of which occurs once, and no overload option. */
  lemma MessageReadsBack(table: seq<DhcpOpt>, c: Config, t: byte, size: nat, o: seq<byte>)
    requires ValuesFit(Slots(table, c, t)) && MessageIs(table, c, t, size, o)
    ensures Entries(o, 0) == Written(table, c, t)
    ensures !Mentions(Entries(o, 0), OVERLOAD)
    ensures forall i, j :: 0 <= i < j < |Entries(o, 0)| ==> Entries(o, 0)[i].code != Entries(o, 0)[j].code
  {
    var slots := Slots(table, c, t);
    SlotCodes(table, c, t);
    TakenEncodable(slots, |slots|);
    EncodedThenEnd(Written(table, c, t), Zeros(size - |Encode(Written(table, c, t)) + [END]|));
    TakenMentions(slots, |slots|, OVERLOAD);
    TakenDistinct(slots, |slots|);
  }

  lemma {:induction false} TakenDistinct(slots: seq<Slot>, k: nat)
    requires DistinctSlots(slots) && k <= |slots|
    ensures forall i, j :: 0 <= i < j < |TakenTo(slots, k)| ==> TakenTo(slots, k)[i].code != TakenTo(slots, k)[j].code
  {
    if k > 0 {
      TakenDistinct(slots, k - 1);
      TakenMentions(slots, k - 1, slots[k - 1].code);
    }
  }

  /** Looking a slot's option up in the message: what is collected is exactly what was put in,
      whole and from a single entry, and nothing for an option that was not written. */
  lemma OptionReadsBack(table: seq<DhcpOpt>, c: Config, t: byte, size: nat, o: seq<byte>, k: nat)
    requires ValuesFit(Slots(table, c, t)) && MessageIs(table, c, t, size, o) && k < |Slots(table, c, t)|
    ensures var slot := Slots(table, c, t)[k];
            && Collected(Entries(o, 0), slot.code) == (if slot.value.Some? then slot.value.value else [])
            && Occurrences(Entries(o, 0), slot.code) == (if slot.value.Some? then 1 else 0)
  {
    var slots := Slots(table, c, t);
    MessageReadsBack(table, c, t, size, o);
    SlotCodes(table, c, t);
    TakenCollects(slots, |slots|, k);
  }
}
