/** Lease files: a message is stored only up to its END option and is read back into a zeroed
    message of full size. */
module DhcpLease {
  import opened Bytes
  import opened DhcpOptions

  datatype Message = Message(header: seq<byte>, options: seq<byte>) {
    function Image(): seq<byte> {
      header + options
    }
  }

  /** Where the walk over options meets END, counted from position p; |o| when it never does. */
  function EndPosition(o: seq<byte>, p: nat): (k: nat)
    ensures k <= |o|
    ensures p <= |o| ==> p <= k
    ensures k < |o| ==> o[k] == END
    decreases |o| - p
  {
    if p >= |o| then |o|
    else if o[p] == END then p
    else if o[p] == PAD then EndPosition(o, p + 1)
    else if p + 1 >= |o| then |o|
    else EndPosition(o, p + 2 + o[p + 1])
  }

  /** The options as they come back from the file. */
  function Restored(o: seq<byte>): (r: seq<byte>)
    ensures |r| == |o|
  {
    o[..EndPosition(o, 0)] + Zeros(|o| - EndPosition(o, 0))
  }

  class LeaseFile {
    var data: Option<seq<byte>>

    constructor ()
      ensures data == None
    {
      data := None;
    }

    /** past is the byte that follows the message in memory: the scan loads it as a length when
        the last byte of the field is an option code. */
    method Write(dhcp: Message, isBootp: bool, past: byte) returns (bytes: nat)
      modifies this
      ensures isBootp ==> data == None && bytes == 0
      ensures !isBootp ==> data == Some(dhcp.header + dhcp.options[..EndPosition(dhcp.options, 0)])
      ensures !isBootp ==> bytes == |dhcp.header| + EndPosition(dhcp.options, 0)
    {
      if isBootp {
        data := None;
        return 0;
      }
      var o := dhcp.options;
      bytes := |dhcp.Image()|;
      var p := 0;
      while p < |o|
        invariant 0 <= p
        invariant EndPosition(o, p) == EndPosition(o, 0)
        invariant bytes == |dhcp.Image()|
        decreases |o| - p
      {
        var code := o[p];
        if code == END {
          bytes := |dhcp.header| + p;
          break;
        }
        p := p + 1;
        if code != PAD {
          var l := if p < |o| then o[p] else past;
          p := p + 1;
          p := p + l;
        }
      }
      data := Some(dhcp.Image()[..bytes]);
      assert dhcp.Image()[..bytes] == dhcp.header + o[..EndPosition(o, 0)];
    }

    /** The file is read over a message of zeros; a longer file is cut to the message size. */
    method Read(headerLen: nat, optionsLen: nat) returns (dhcp: Option<Message>)
      ensures data == None ==> dhcp == None
      ensures data.Some? ==>
        var n := headerLen + optionsLen;
        dhcp.Some? && |dhcp.value.header| == headerLen && |dhcp.value.options| == optionsLen &&
        dhcp.value.Image() == if |data.value| >= n then data.value[..n] else data.value + Zeros(n - |data.value|)
    {
      if data == None {
        return None;
      }
      var n := headerLen + optionsLen;
      var image := Zeros(n);
      var bytes := if |data.value| < n then |data.value| else n;
      image := data.value[..bytes] + image[bytes..];
      dhcp := Some(Message(image[..headerLen], image[headerLen..]));
      assert dhcp.value.Image() == image;
    }

    /** Storing a lease and loading it again: the header is untouched and every option that can
        be looked up is looked up with the same result, although END and all that stood behind
        it is gone. */
    method StoreAndLoad(dhcp: Message, past: byte) returns (back: Message)
      modifies this
      ensures back == Message(dhcp.header, Restored(dhcp.options))
      ensures Entries(back.options, 0) == Entries(dhcp.options, 0)
    {
      var written := Write(dhcp, false, past);
      var got := Read(|dhcp.header|, |dhcp.options|);
      back := got.value;
      assert back.Image() == dhcp.header + Restored(dhcp.options);
      assert back.header == back.Image()[..|dhcp.header|];
      assert back.options == back.Image()[|dhcp.header|..];
      RestoredKeepsEntries(dhcp.options);
    }
  }

  lemma {:induction false} EntriesUpToEnd(o: seq<byte>, r: seq<byte>, p: nat)
    requires |r| == |o|
    requires forall i :: 0 <= i < EndPosition(o, p) ==> r[i] == o[i]
    requires forall i :: EndPosition(o, p) <= i < |o| ==> r[i] == PAD
    ensures Entries(r, p) == Entries(o, p)
    decreases |o| - p
  {
    if p + 1 >= |o| {
    } else if o[p] == END {
      PadsAreNoEntries(r, p);
    } else if o[p] == PAD {
      EntriesUpToEnd(o, r, p + 1);
    } else {
      var next := p + 2 + o[p + 1];
      SameFirst(o, r, p);
      EntriesUpToEnd(o, r, next);
      assert Entries(o, p) == [Entry(o[p], Clip(o, p + 2, o[p + 1]))] + Entries(o, next);
      assert Entries(r, p) == [Entry(r[p], Clip(r, p + 2, r[p + 1]))] + Entries(r, next);
    }
  }

  lemma SameFirst(o: seq<byte>, r: seq<byte>, p: nat)
    requires |r| == |o| && p + 1 < |o| && o[p] != END && o[p] != PAD
    requires forall i :: 0 <= i < EndPosition(o, p) ==> r[i] == o[i]
    ensures EndPosition(o, p) == EndPosition(o, p + 2 + o[p + 1])
    ensures r[p] == o[p] && r[p + 1] == o[p + 1] && Clip(r, p + 2, o[p + 1]) == Clip(o, p + 2, o[p + 1])
  {
    var end := EndPosition(o, p);
    assert end == EndPosition(o, p + 2 + o[p + 1]) && p + 1 < end;
    assert Clip(r, p + 2, o[p + 1]) == Clip(o, p + 2, o[p + 1]);
  }

  /** What the file gives back holds the same entries, for every content of the field. */
  lemma RestoredKeepsEntries(o: seq<byte>)
    ensures Entries(Restored(o), 0) == Entries(o, 0)
  {
    EntriesUpToEnd(o, Restored(o), 0);
  }

  /** A stored lease answers every lookup like the message it came from. */
  lemma LookupSurvivesStorage(table: seq<DhcpOpt>, o: seq<byte>, opt: byte)
    ensures Answer(table, Restored(o), opt) == Answer(table, o, opt)
    ensures Mentions(Entries(Restored(o), 0), OVERLOAD) <==> Mentions(Entries(o, 0), OVERLOAD)
  {
    RestoredKeepsEntries(o);
  }

  lemma {:induction false} NoEndLeft(o: seq<byte>, r: seq<byte>, p: nat)
    requires |r| == |o|
    requires forall i :: 0 <= i < EndPosition(o, p) ==> r[i] == o[i]
    requires forall i :: EndPosition(o, p) <= i < |o| ==> r[i] == PAD
    ensures EndPosition(r, p) == |r|
    decreases |o| - p
  {
    if p < |o| {
      if o[p] == END || p >= EndPosition(o, p) {
        OnlyPads(r, p);
      } else if o[p] == PAD {
        NoEndLeft(o, r, p + 1);
      } else if p + 1 < |o| {
        NoEndLeft(o, r, p + 2 + o[p + 1]);
      }
    }
  }

  lemma {:induction false} OnlyPads(r: seq<byte>, p: nat)
    requires forall i :: p <= i < |r| ==> r[i] == PAD
    ensures EndPosition(r, p) == |r|
    decreases |r| - p
  {
    if p < |r| {
      OnlyPads(r, p + 1);
    }
  }

  /** Storing what was loaded changes nothing more: after one round the lease is stable. */
  lemma RestoredIsStable(o: seq<byte>)
    ensures Restored(Restored(o)) == Restored(o)
  {
    NoEndLeft(o, Restored(o), 0);
  }

  // ---------------------------------------------------------------- where the message is cut

  /** A walk over entries that starts at p and is not stopped by END comes to stand at k. */
  predicate Reaches(o: seq<byte>, p: nat, k: nat)
    decreases |o| - p
  {
    p == k ||
    (p + 1 < |o| && o[p] != 255 && Reaches(o, if o[p] == 0 then p + 1 else p + 2 + o[p + 1], k)) ||
    (p + 1 == |o| && o[p] == 0 && k == p + 1)
  }

  /** The cut is made at the one END that the walk meets, and nowhere when it meets none; an END
      code inside a value or behind the cut does not count. */
  lemma {:induction false} CutIsAtEnd(o: seq<byte>, p: nat)
    ensures EndPosition(o, p) < |o| ==> Reaches(o, p, EndPosition(o, p)) && o[EndPosition(o, p)] == 255
    ensures forall k :: 0 <= k < |o| && Reaches(o, p, k) && o[k] == 255 ==> EndPosition(o, p) == k
    decreases |o| - p
  {
    if p < |o| && o[p] != 255 {
      if o[p] == 0 {
        CutIsAtEnd(o, p + 1);
      } else if p + 1 < |o| {
        CutIsAtEnd(o, p + 2 + o[p + 1]);
      }
    }
  }

  lemma {:induction false} CutBehind(o: seq<byte>, p: nat, es: seq<Entry>)
    requires AllEncodable(es) && StandsAt(o, p, Encode(es))
    ensures EndPosition(o, p) == EndPosition(o, p + |Encode(es)|)
    decreases |es|
  {
    if es != [] {
      var first := EncodeEntry(es[0]);
      StandsSplit(o, p, first, Encode(es[1..]));
      assert o[p + 0] == first[0] && o[p + 1] == first[1];
      CutBehind(o, p + |first|, es[1..]);
    }
  }

  /** Entries with END behind them come back as their own bytes and zeros. */
  lemma EncodedIsRestored(o: seq<byte>, es: seq<Entry>, k: nat)
    requires AllEncodable(es) && StandsAt(o, 0, Encode(es)) && k == |Encode(es)|
    requires k < |o| && o[k] == 255
    ensures Restored(o) == o[..k] + Zeros(|o| - k)
  {
    CutBehind(o, 0, es);
  }
}
