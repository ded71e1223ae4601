/** What a server reads in the client's messages, option by option and in plain numbers. */
module MessageMeaning {
  import opened Bytes
  import opened DhcpOptions
  import opened DhcpMessage
  import DnsNames

  /** What is collected under a code. */
  function Read(o: seq<byte>, code: byte): seq<byte> {
    Collected(Entries(o, 0), code)
  }

  /** Discover, request and inform ask for something. */
  predicate Asking(t: byte) {
    t == 1 || t == 3 || t == 8
  }

  ghost predicate Sent(table: seq<DhcpOpt>, c: Config, t: byte, size: nat, o: seq<byte>) {
    ValuesFit(Slots(table, c, t)) && MessageIs(table, c, t, size, o)
  }

  /** Place k of the slots is place i of a group, and its value is what is read. */
  lemma ReadPlace(table: seq<DhcpOpt>, c: Config, t: byte, size: nat, o: seq<byte>, at: nat, group: seq<Slot>, i: nat)
    requires Sent(table, c, t, size, o) && Placed(Slots(table, c, t), at, group) && i < |group|
    ensures Read(o, group[i].code) == if group[i].value.Some? then group[i].value.value else []
  {
    assert Slots(table, c, t)[at + i] == group[i];
    OptionReadsBack(table, c, t, size, o, at + i);
  }

  /** Every message names its type, and its client if it has an identifier. */
  lemma IdentityRead(table: seq<DhcpOpt>, c: Config, t: byte, size: nat, o: seq<byte>)
    requires Sent(table, c, t, size, o)
    ensures Read(o, 53) == [t]
    ensures Read(o, 61) == if c.clientid.Some? then c.clientid.value else []
  {
    GroupsArePlaced(table, c, t);
    var g := IdentitySlots(c, t);
    ReadPlace(table, c, t, size, o, 0, g, 0);
    ReadPlace(table, c, t, size, o, 0, g, 1);
  }

  /** A decline, and no other message, says why. */
  lemma DeclineRead(table: seq<DhcpOpt>, c: Config, t: byte, size: nat, o: seq<byte>)
    requires Sent(table, c, t, size, o)
    ensures Read(o, 56) == if t == 4 then DAD_TEXT else []
  {
    GroupsArePlaced(table, c, t);
    ReadPlace(table, c, t, size, o, 0, IdentitySlots(c, t), 4);
  }

  /** The address of a lease is named when it is declined, and when it is requested without being
      configured; a discover may name the address wished for. The server is named with it, and when
      the lease is released. */
  lemma LeaseRead(table: seq<DhcpOpt>, c: Config, t: byte, size: nat, o: seq<byte>)
    requires Sent(table, c, t, size, o)
    ensures var leased := c.leaseAddr != [0, 0, 0, 0] && c.leaseIsDhcp;
            var named := t == 4 || (t == 3 && c.leaseAddr != c.ifaceAddr);
            && Read(o, 50) == (if leased && named then c.leaseAddr
                               else if t == 1 && c.requestAddress then c.reqAddr else [])
            && Read(o, 54) == (if leased && (named || t == 7) && c.leaseServer != [0, 0, 0, 0] then c.leaseServer else [])
  {
    GroupsArePlaced(table, c, t);
    var g := IdentitySlots(c, t);
    ReadPlace(table, c, t, size, o, 0, g, 2);
    ReadPlace(table, c, t, size, o, 0, g, 3);
  }

  /** The maximum size is two bytes in network order: the MTU, raised to the minimum if the interface
      lets itself be changed, and cut to the maximum. */
  lemma MaximumSizeRead(table: seq<DhcpOpt>, c: Config, t: byte, size: nat, o: seq<byte>)
    requires Sent(table, c, t, size, o)
    ensures var v := Read(o, 57);
            var mtu := if c.mtu < c.mtuMin && c.canSetMtu then c.mtuMin
                       else if c.mtu > c.mtuMax && c.mtu >= c.mtuMin then c.mtuMax else c.mtu;
            if Asking(t) then |v| == 2 && 256 * (v[0] as int) + v[1] as int == mtu % 0x1_0000 else v == []
  {
    GroupsArePlaced(table, c, t);
    ReadPlace(table, c, t, size, o, 5, ClassSlots(c, t), 0);
    Word16Value(MaxSize(c));
  }

  lemma Word16Value(n: nat)
    ensures var w := Word16(n); |w| == 2 && 256 * (w[0] as int) + w[1] as int == n % 0x1_0000
  {
    assert n == 0x1_0000 * (n / 0x1_0000) + n % 0x1_0000;
    assert n / 256 == 256 * (n / 256 / 256) + n / 256 % 256;
  }

  /** The lease time wished for is four bytes in network order. */
  lemma LeaseTimeRead(table: seq<DhcpOpt>, c: Config, t: byte, size: nat, o: seq<byte>)
    requires Sent(table, c, t, size, o)
    ensures var v := Read(o, 51);
            if (t == 1 || t == 3) && c.leasetime != 0
            then |v| == 4 && 0x100_0000 * (v[0] as int) + 0x1_0000 * (v[1] as int) + 256 * (v[2] as int) + v[3] as int == c.leasetime % 0x1_0000_0000
            else v == []
  {
    GroupsArePlaced(table, c, t);
    ReadPlace(table, c, t, size, o, 5, ClassSlots(c, t), 3);
    Word32Value(c.leasetime);
  }

  lemma Word32Value(n: nat)
    ensures var w := Word32(n);
            |w| == 4 && 0x100_0000 * (w[0] as int) + 0x1_0000 * (w[1] as int) + 256 * (w[2] as int) + w[3] as int == n % 0x1_0000_0000
  {
    var a, b, c := n / 256, n / 0x1_0000, n / 0x100_0000;
    assert b == a / 256 && c == b / 256;
    var low := 0x100_0000 * (c % 256) + 0x1_0000 * (b % 256) + 256 * (a % 256) + n % 256;
    assert n == 0x1_0000_0000 * (c / 256) + low;
    LowWord(c / 256, low);
  }

  lemma LowWord(high: nat, low: nat)
    requires low < 0x1_0000_0000
    ensures (0x1_0000_0000 * high + low) % 0x1_0000_0000 == low
  {
  }

  /** Classes and vendor data are sent as configured by messages that ask, and only by them. */
  lemma ConfiguredRead(table: seq<DhcpOpt>, c: Config, t: byte, size: nat, o: seq<byte>)
    requires Sent(table, c, t, size, o)
    ensures Read(o, 77) == if Asking(t) then c.userclass else []
    ensures Read(o, 60) == if Asking(t) then c.vendorclassid else []
    ensures Read(o, 43) == if Asking(t) then c.vendor else []
  {
    GroupsArePlaced(table, c, t);
    ReadPlace(table, c, t, size, o, 5, ClassSlots(c, t), 1);
    ReadPlace(table, c, t, size, o, 5, ClassSlots(c, t), 2);
    ReadPlace(table, c, t, size, o, 11, RequestSlots(table, c, t), 0);
  }

  /** The host name goes up to its first dot. */
  lemma HostNameRead(table: seq<DhcpOpt>, c: Config, t: byte, size: nat, o: seq<byte>)
    requires Sent(table, c, t, size, o)
    ensures var v := Read(o, 12);
            if Asking(t) && c.sendHostname
            then v <= c.hostname && 46 !in v && (v == c.hostname || c.hostname[|v|] == 46)
            else v == []
  {
    GroupsArePlaced(table, c, t);
    ReadPlace(table, c, t, size, o, 9, NameSlots(c, t), 0);
    ShortNameIs(c.hostname);
  }

  lemma {:induction false} ShortNameIs(host: seq<byte>)
    ensures var v := ShortName(host); v <= host && 46 !in v && (v == host || host[|v|] == 46)
  {
    if host != [] && host[0] != 46 {
      ShortNameIs(host[1..]);
    }
  }

  /** Option 81 carries the flags asked for, two zeros, and the whole host name, which a reader of
      domain names reads back. */
  lemma FqdnRead(table: seq<DhcpOpt>, c: Config, t: byte, size: nat, o: seq<byte>)
    requires Sent(table, c, t, size, o)
    ensures var v := Read(o, 81);
            if Asking(t) && c.fqdn.Some? && c.hostname != []
            then |v| >= 3 && FlagsOf(v[0], c.fqdn.value) && v[1] == 0 && v[2] == 0
            else v == []
  {
    GroupsArePlaced(table, c, t);
    ReadPlace(table, c, t, size, o, 9, NameSlots(c, t), 1);
  }

  /** Bits 0 and 3 are as configured, bit 2 is set, and no other. */
  predicate FlagsOf(v: byte, f: byte) {
    v < 16 && v % 2 == f % 2 && v / 2 % 2 == 0 && v / 4 % 2 == 1 && v / 8 == f / 8 % 2
  }

  lemma FqdnNameRead(table: seq<DhcpOpt>, c: Config, t: byte, size: nat, o: seq<byte>, name: DnsNames.Name, dot: bool, tail: seq<byte>)
    requires Sent(table, c, t, size, o) && Asking(t) && c.fqdn.Some? && |tail| >= 63
    requires DnsNames.HostName(name) && c.hostname == DnsNames.NameText(name) + if dot then [46] else []
    ensures var v := Read(o, 81);
            |v| >= 3 && DnsNames.Names(v[3..] + tail, |v| - 3, 0) == Some([name])
  {
    GroupsArePlaced(table, c, t);
    ReadPlace(table, c, t, size, o, 9, NameSlots(c, t), 1);
    DnsNames.HostNameRoundTrip(name, dot, tail);
    assert FqdnValue(c.fqdn.value, c.hostname)[3..] == DnsNames.EncodedHost(c.hostname);
  }

  // ---------------------------------------------------------------- the options asked for

  /** Is this row asked for? */
  predicate Asked(row: DhcpOpt, c: Config, t: byte) {
    (REQUEST in row.flags || row.option in c.requestmask) && !(t == 8 && (row.option == 58 || row.option == 59))
  }

  /** The places of the rows asked for. */
  function Places(table: seq<DhcpOpt>, c: Config, t: byte): seq<nat> {
    if table == [] then []
    else Places(table[..|table| - 1], c, t) + if Asked(table[|table| - 1], c, t) then [|table| - 1] else []
  }

  lemma {:induction false} PlacesAre(table: seq<DhcpOpt>, c: Config, t: byte)
    ensures var places := Places(table, c, t);
            && |Requested(table, c, t)| == |places|
            && (forall a :: 0 <= a < |places| ==> places[a] < |table| && Asked(table[places[a]], c, t) &&
                                                  Requested(table, c, t)[a] == table[places[a]].option)
            && (forall a, b :: 0 <= a < b < |places| ==> places[a] < places[b])
            && (forall i :: 0 <= i < |table| && Asked(table[i], c, t) ==> i in places)
  {
    if table != [] {
      var n := |table| - 1;
      PlacesAre(table[..n], c, t);
      var front, all := Places(table[..n], c, t), Places(table, c, t);
      forall i | 0 <= i < |table| && Asked(table[i], c, t) ensures i in all {
        if i < n {
          assert table[..n][i] == table[i];
        } else {
          assert all[|all| - 1] == n;
        }
      }
    }
  }

  /** Option 55 lists the codes of exactly the rows asked for, each once, in the order of the table;
      an inform does not ask for times. */
  lemma RequestsRead(table: seq<DhcpOpt>, c: Config, t: byte, size: nat, o: seq<byte>)
    requires Sent(table, c, t, size, o)
    ensures var v, places := Read(o, 55), Places(table, c, t);
            if !Asking(t) then v == []
            else
              && |v| == |places|
              && (forall a :: 0 <= a < |v| ==> places[a] < |table| && Asked(table[places[a]], c, t) && v[a] == table[places[a]].option)
              && (forall a, b :: 0 <= a < b < |v| ==> places[a] < places[b])
              && (forall i :: 0 <= i < |table| && Asked(table[i], c, t) ==> i in places)
  {
    GroupsArePlaced(table, c, t);
    ReadPlace(table, c, t, size, o, 11, RequestSlots(table, c, t), 1);
    PlacesAre(table, c, t);
  }
}
