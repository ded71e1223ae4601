/** Reading a disk through two buffers: one grown from the start of the medium, one holding the
    last region read elsewhere. */
module VoldCache {
  import opened Bytes

  /** One answer of read(2): interrupted, failed, or at most this many bytes. */
  datatype Reply = Interrupted | Failed | Upto(n: nat)

  /** The n bytes of dst from position at on are those of the medium from offset off on. */
  ghost predicate Copied(dst: array<byte>, at: nat, n: nat, medium: seq<byte>, off: nat)
    reads dst
  {
    && at + n <= dst.Length && (n > 0 ==> off + n <= |medium|)
    && forall j :: at <= j < at + n ==> dst[j] == medium[off + (j - at)]
  }

  /** The bytes a request asks for. */
  function Region(medium: seq<byte>, off: nat, len: nat): seq<byte> {
    if len > 0 && off + len <= |medium| then medium[off..off + len] else []
  }

  /** A device whose content does not change. Its answers follow a script; after that, reads are
      cut short only by the end of the medium. */
  class Device {
    const medium: seq<byte>
    var pos: nat
    var script: seq<Reply>

    constructor (medium: seq<byte>, script: seq<Reply>)
      ensures this.medium == medium && this.script == script && pos == 0
    {
      this.medium := medium;
      this.script := script;
      pos := 0;
    }

    /** No reply in the script is a failure or an empty read. */
    ghost predicate Willing()
      reads this
    {
      forall i :: 0 <= i < |script| ==> script[i] != Failed && script[i] != Upto(0)
    }

    method Seek(off: nat)
      modifies this`pos
      ensures pos == off
    {
      pos := off;
    }

    /** One read(2) into dst[at..at + count]; -1 is failure, and interrupted tells of EINTR. */
    method Read(dst: array<byte>, at: nat, count: nat) returns (n: int, interrupted: bool)
      requires at + count <= dst.Length
      modifies this`pos, this`script, dst
      ensures -1 <= n <= count && (interrupted ==> n == -1)
      ensures |script| <= |old(script)| && (interrupted ==> |script| < |old(script)|)
      ensures old(Willing()) ==> Willing() && (n == -1 ==> interrupted)
      ensures old(Willing()) && n == 0 && count > 0 ==> old(pos) >= |medium|
      ensures pos == old(pos) + if n > 0 then n else 0
      ensures n > 0 ==> Copied(dst, at, n, medium, old(pos))
      ensures forall i :: 0 <= i < dst.Length && !(at <= i < at + count) ==> dst[i] == old(dst[i])
    {
      var limit := count;
      interrupted := false;
      if script != [] {
        var reply := script[0];
        script := script[1..];
        match reply
        case Interrupted => return -1, true;
        case Failed => return -1, false;
        case Upto(k) => if k < limit { limit := k; }
      }
      var left := if pos < |medium| then |medium| - pos else 0;
      n := if left < limit then left else limit;
      forall j | at <= j < at + n {
        dst[j] := medium[pos + (j - at)];
      }
      pos := pos + n;
    }
  }

  /** read(2), taken up again when a signal interrupts it. */
  method SafeRead(fd: Device, dst: array<byte>, at: nat, count: nat) returns (n: int)
    requires at + count <= dst.Length
    modifies fd`pos, fd`script, dst
    ensures -1 <= n <= count && |fd.script| <= |old(fd.script)|
    ensures old(fd.Willing()) ==> fd.Willing() && n >= 0
    ensures old(fd.Willing()) && n == 0 && count > 0 ==> old(fd.pos) >= |fd.medium|
    ensures fd.pos == old(fd.pos) + if n > 0 then n else 0
    ensures n > 0 ==> Copied(dst, at, n, fd.medium, old(fd.pos))
    ensures forall i :: 0 <= i < dst.Length && !(at <= i < at + count) ==> dst[i] == old(dst[i])
  {
    var interrupted := true;
    n := -1;
    while n < 0 && interrupted
      invariant -1 <= n <= count && |fd.script| <= |old(fd.script)|
      invariant old(fd.Willing()) ==> fd.Willing() && (n == -1 ==> interrupted)
      invariant old(fd.Willing()) && n == 0 && count > 0 ==> old(fd.pos) >= |fd.medium|
      invariant fd.pos == old(fd.pos) + if n > 0 then n else 0
      invariant n > 0 ==> Copied(dst, at, n, fd.medium, old(fd.pos))
      invariant forall i :: 0 <= i < dst.Length && !(at <= i < at + count) ==> dst[i] == old(dst[i])
      decreases n < 0 && interrupted, |fd.script|
    {
      n, interrupted := fd.Read(dst, at, count);
    }
  }

  /** Reads until len bytes are there, the medium ends, or a read fails. */
  method FullRead(fd: Device, dst: array<byte>, len: nat) returns (total: int)
    requires len <= dst.Length
    modifies fd`pos, fd`script, dst
    ensures -1 <= total <= len
    ensures total > 0 ==> Copied(dst, 0, total, fd.medium, old(fd.pos))
    ensures old(fd.Willing()) ==> fd.Willing() && (old(fd.pos) + len <= |fd.medium| ==> total == len)
  {
    ghost var start := fd.pos;
    total := 0;
    var left := len;
    while left > 0
      invariant 0 <= total && 0 <= left && total + left == len
      invariant fd.pos == start + total
      invariant Copied(dst, 0, total, fd.medium, start)
      invariant old(fd.Willing()) ==> fd.Willing()
      decreases left
    {
      var cc := SafeRead(fd, dst, total, left);
      if cc < 0 {
        if total > 0 {
          return total;
        }
        return cc;
      }
      if cc == 0 {
        break;
      }
      total := total + cc;
      left := left - cc;
    }
  }

  // ---------------------------------------------------------------- the two buffers

  /** Which buffer an answer lies in, and where. */
  datatype Answer = Null | InSuperblock(at: nat) | InSeek(at: nat)

  class VolumeId {
    const fd: Device
    const sbSize: nat       // SB_BUFFER_SIZE
    const seekSize: nat     // SEEK_BUFFER_SIZE
    var sbbuf: array?<byte>
    var sbbufLen: nat
    var seekbuf: array?<byte>
    var seekbufOff: nat
    var seekbufLen: nat
    var error: bool

    constructor (fd: Device, sbSize: nat, seekSize: nat)
      ensures this.fd == fd && this.sbSize == sbSize && this.seekSize == seekSize
      ensures Valid() && Empty() && !error
    {
      this.fd := fd;
      this.sbSize := sbSize;
      this.seekSize := seekSize;
      sbbuf, sbbufLen := null, 0;
      seekbuf, seekbufOff, seekbufLen := null, 0, 0;
      error := false;
    }

    ghost predicate Empty()
      reads this
    {
      sbbuf == null && sbbufLen == 0 && seekbuf == null && seekbufOff == 0 && seekbufLen == 0
    }

    /** Both buffers agree with the medium wherever they claim to hold it. */
    ghost predicate Valid()
      reads this, sbbuf, seekbuf
    {
      && (sbbuf == null ==> sbbufLen == 0)
      && (sbbuf != null ==> sbbuf.Length == sbSize && Copied(sbbuf, 0, sbbufLen, fd.medium, 0))
      && (seekbuf == null ==> seekbufLen == 0 && seekbufOff == 0)
      && (seekbuf != null ==> sbbuf != seekbuf && seekbuf.Length == seekbufLen)
      && (seekbuf != null ==> Copied(seekbuf, 0, seekbufLen, fd.medium, seekbufOff))
    }

    /** An answer points at the len bytes of the medium from off on. */
    ghost predicate Shows(a: Answer, off: nat, len: nat)
      reads this, sbbuf, seekbuf
    {
      match a
      case Null => false
      case InSuperblock(at) => sbbuf != null && Copied(sbbuf, at, len, fd.medium, off)
      case InSeek(at) => seekbuf != null && Copied(seekbuf, at, len, fd.medium, off)
    }

    method FreeBuffer()
      modifies this`sbbuf, this`sbbufLen, this`seekbuf, this`seekbufOff, this`seekbufLen
      ensures Empty()
    {
      sbbuf := null;
      sbbufLen := 0;
      seekbuf := null;
      seekbufLen := 0;
      seekbufOff := 0;
    }

    /** The first n bytes of the medium are brought into the superblock buffer. */
    method FillSuperblock(n: nat) returns (ok: bool)
      requires Valid() && sbbuf != null && n <= sbSize
      modifies this, fd`pos, fd`script, sbbuf
      ensures Valid()
      ensures ok ==> sbbuf == old(sbbuf) && sbbufLen == n && seekbuf == old(seekbuf)
      ensures !ok ==> Empty() && error
      ensures old(fd.Willing()) ==> fd.Willing() && (n <= |fd.medium| ==> ok)
    {
      sbbufLen := n;
      fd.Seek(0);
      var got := FullRead(fd, sbbuf, n);
      ok := got == n;
      if !ok {
        error := true;
        FreeBuffer();
      }
    }

    /** The seek buffer is replaced by the len bytes from off on. */
    method FillSeek(off: nat, len: nat) returns (ok: bool)
      requires Valid()
      modifies this, fd`pos, fd`script
      ensures Valid()
      ensures ok ==> seekbuf != null && seekbufOff == off && seekbufLen == len && sbbuf == old(sbbuf) && fresh(seekbuf)
      ensures !ok ==> Empty()
      ensures old(fd.Willing()) ==> fd.Willing() && (off + len <= |fd.medium| ==> ok)
    {
      seekbufOff := off;
      seekbufLen := len;
      seekbuf := new byte[len];
      fd.Seek(off);
      var got := FullRead(fd, seekbuf, len);
      ok := got == len;
      if !ok {
        if off < 64 * 1024 {
          error := true;
        }
        FreeBuffer();
      }
    }

    /** An answer from the superblock buffer. */
    method FromSuperblock(off: nat, len: nat) returns (a: Answer)
      requires Valid() && off + len <= sbSize
      modifies this, fd`pos, fd`script, sbbuf
      ensures Valid() && Reused(old(sbbuf), old(seekbuf))
      ensures a != Null ==> Shows(a, off, len)
      ensures a == Null ==> Empty()
      ensures old(fd.Willing()) ==> fd.Willing() && (off + len <= |fd.medium| ==> a != Null)
    {
      if sbbuf == null {
        sbbuf := new byte[sbSize];
      }
      if off + len > sbbufLen {
        var ok := FillSuperblock(off + len);
        if !ok {
          return Null;
        }
      }
      return InSuperblock(off);
    }

    /** An answer from the seek buffer. */
    method FromSeek(off: nat, len: nat) returns (a: Answer)
      requires Valid() && off + len > sbSize
      modifies this, fd`pos, fd`script
      ensures Valid() && Reused(old(sbbuf), old(seekbuf))
      ensures a != Null ==> Shows(a, off, len)
      ensures a == Null ==> Empty()
      ensures old(fd.Willing()) ==> fd.Willing() && (off + len <= |fd.medium| ==> a != Null)
    {
      if off >= seekbufOff && off + len <= seekbufOff + seekbufLen {
        return InSeek(off - seekbufOff);
      }
      var ok := FillSeek(off, len);
      if !ok {
        return Null;
      }
      return InSeek(0);
    }

    /** No buffer appears from elsewhere. */
    twostate predicate Reused(sb: array?<byte>, seek: array?<byte>)
      reads this
    {
      (sbbuf == sb || sbbuf == null || fresh(sbbuf)) && (seekbuf == seek || seekbuf == null || fresh(seekbuf))
    }

    /** volume_id_get_buffer: every answer shows the medium's bytes, whichever buffer it comes
        from; a failed read empties both buffers; a request that lies on the medium and fits a
        buffer fails only when the device does. */
    method GetBuffer(off: nat, len: nat) returns (a: Answer)
      requires Valid()
      modifies this, fd`pos, fd`script, sbbuf, seekbuf
      ensures Valid() && Reused(old(sbbuf), old(seekbuf))
      ensures a != Null ==> Shows(a, off, len)
      ensures off + len > sbSize && len > seekSize ==> a == Null && unchanged(this)
      ensures a == Null && (off + len <= sbSize || len <= seekSize) ==> Empty()
      ensures old(fd.Willing()) ==>
                fd.Willing() && (off + len <= |fd.medium| && (off + len <= sbSize || len <= seekSize) ==> a != Null)
    {
      if off + len <= sbSize {
        a := FromSuperblock(off, len);
      } else if len > seekSize {
        a := Null;
      } else {
        a := FromSeek(off, len);
      }
    }

    /** The bytes an answer shows. */
    method Fetch(a: Answer, off: nat, len: nat) returns (r: seq<byte>)
      requires Shows(a, off, len)
      ensures r == Region(fd.medium, off, len)
    {
      match a
      case InSuperblock(at) => r := sbbuf[at..at + len];
      case InSeek(at) => r := seekbuf[at..at + len];
    }
  }

  /** A request that has been answered got the medium's own bytes; on a willing device a request on
      the medium that fits a buffer has been answered. */
  ghost predicate Served(id: VolumeId, request: (nat, nat), got: Option<seq<byte>>, willing: bool) {
    var (off, len) := request;
    && (got.Some? ==> |got.value| == len && (len > 0 ==> off + len <= |id.fd.medium| && got.value == id.fd.medium[off..off + len]))
    && (willing && off + len <= |id.fd.medium| && (off + len <= id.sbSize || len <= id.seekSize) ==> got.Some?)
  }

  /** Over any sequence of requests on one volume: whatever was asked for before, every answer is
      the medium's own bytes. */
  method Serve(id: VolumeId, requests: seq<(nat, nat)>) returns (got: seq<Option<seq<byte>>>)
    requires id.Valid()
    modifies id, id.fd, id.sbbuf, id.seekbuf
    ensures id.Valid() && |got| == |requests|
    ensures forall i :: 0 <= i < |got| ==> Served(id, requests[i], got[i], old(id.fd.Willing()))
  {
    got := [];
    while |got| < |requests|
      invariant id.Valid() && |got| <= |requests|
      invariant id.sbbuf == old(id.sbbuf) || id.sbbuf == null || fresh(id.sbbuf)
      invariant id.seekbuf == old(id.seekbuf) || id.seekbuf == null || fresh(id.seekbuf)
      invariant old(id.fd.Willing()) ==> id.fd.Willing()
      invariant forall i :: 0 <= i < |got| ==> Served(id, requests[i], got[i], old(id.fd.Willing()))
    {
      var (off, len) := requests[|got|];
      var answer := GetOne(id, off, len);
      got := got + [answer];
    }
  }

  method GetOne(id: VolumeId, off: nat, len: nat) returns (got: Option<seq<byte>>)
    requires id.Valid()
    modifies id, id.fd, id.sbbuf, id.seekbuf
    ensures id.Valid() && id.Reused(old(id.sbbuf), old(id.seekbuf))
    ensures old(id.fd.Willing()) ==> id.fd.Willing()
    ensures Served(id, (off, len), got, old(id.fd.Willing()))
  {
    var a := id.GetBuffer(off, len);
    if a == Null {
      return None;
    }
    var bytes := id.Fetch(a, off, len);
    return Some(bytes);
  }
}
