/** middleware/image/image.c: the image ring, the format conversion and the streaming image_save. */
module Images {
  import opened Types
  import opened RingBuffers
  import opened FrameBuffers
  import opened ColorConversion

  // ---------- the image ring ----------

  /** Storing one converted frame: dropped when the ring is full. */
  function Store(b: Ring<seq<byte>>, frame: seq<byte>): Ring<seq<byte>>
    requires b.size > 0 && b.writePtr < |b.data|
  {
    if IsFull(b) then b else IncWrite(Put(b, frame))
  }

  lemma StoreAppends(b: Ring<seq<byte>>, frameSize: nat, frame: seq<byte>)
    requires FramesOk(b, frameSize) && |frame| == frameSize
    ensures FramesOk(Store(b, frame), frameSize)
    ensures Contents(Store(b, frame)) == if |Contents(b)| == b.size - 1 then Contents(b) else Contents(b) + [frame]
  {
    EmptyAndFull(b);
    if !IsFull(b) {
      PutKeepsContents(b, frame);
      IncWriteAppends(Put(b, frame));
    }
  }

  class ImageBuffer {
    const ring: RingBuffer<seq<byte>>
    const frameSize: nat

    ghost predicate Valid()
      reads this, ring, ring.data
    {
      ring.Valid() && FramesOk(ring.View(), frameSize)
    }

    constructor (size: nat, frameSize: nat)
      requires IsPow2(size)
      ensures Valid() && fresh(ring) && fresh(ring.data) && this.frameSize == frameSize
      ensures ring.size == size && Contents(ring.View()) == []
      ensures forall i, k :: 0 <= i < ring.data.Length && 0 <= k < frameSize ==> ring.data[i][k] == 0
    {
      ring := new RingBuffer<seq<byte>>(size, seq(frameSize, _ => 0));
      this.frameSize := frameSize;
      new;
      EmptyAndFull(ring.View());
    }

    /** imagebuffer_startread: the oldest slot, left in the ring. */
    method StartRead() returns (ret: SysResult, slot: nat)
      requires Valid()
      ensures ret == if Contents(ring.View()) == [] then SysIgnore else SysSuccess
      ensures ret.SysSuccess? ==> slot == ring.readPtr < ring.data.Length && ring.data[slot] == Contents(ring.View())[0]
    {
      EmptyAndFull(ring.View());
      if ring.readPtr != ring.writePtr {
        return SysSuccess, ring.readPtr;
      }
      return SysIgnore, 0;
    }

    /** imagebuffer_endread: the oldest slot is released. */
    method EndRead() returns (ret: SysResult)
      requires Valid()
      modifies ring`readPtr
      ensures Valid()
      ensures ring.View() == if ret.SysSuccess? then IncRead(old(ring.View())) else old(ring.View())
      ensures ret == if old(Contents(ring.View())) == [] then SysIgnore else SysSuccess
      ensures ret.SysSuccess? ==> Contents(ring.View()) == old(Contents(ring.View()))[1..]
    {
      EmptyAndFull(ring.View());
      if ring.readPtr != ring.writePtr {
        IncReadDrops(ring.View());
        ring.IncReadPtr();
        return SysSuccess;
      }
      return SysIgnore;
    }

    /** imagebuffer_write. */
    method Write(frame: seq<byte>) returns (ret: SysResult)
      requires Valid() && |frame| == frameSize
      modifies ring`writePtr, ring.data
      ensures Valid()
      ensures ring.View() == Store(old(ring.View()), frame)
      ensures ret == if |old(Contents(ring.View()))| == ring.size - 1 then SysFailure else SysSuccess
    {
      StoreAppends(ring.View(), frameSize, frame);
      EmptyAndFull(ring.View());
      var len, empty, full := ring.Status();
      if !full {
        ring.Write(frame);
        return SysSuccess;
      }
      return SysFailure;
    }
  }

  // ---------- conversion ----------

  datatype PixelFormat = Yuyv | Mjpeg | Rgb888 | OtherFormat

  /** How many bytes a conversion to RGB888 writes. */
  function BytesWritten(srcFmt: PixelFormat, n: nat): nat {
    match srcFmt
    case Yuyv => 3 * (n / 2)
    case Mjpeg => n
    case Rgb888 => n
    case OtherFormat => 0
  }

  /** image_convert with rgb888_convert: MJPEG frames, which are what the configured build carries, are
      copied whole, stale tail included. */
  method ImageConvert(srcFmt: PixelFormat, destFmt: PixelFormat, src: seq<byte>, dest: array<byte>) returns (ret: SysResult)
    requires srcFmt.Yuyv? ==> |src| % 4 == 0
    requires BytesWritten(srcFmt, |src|) <= dest.Length
    modifies dest
    ensures ret.SysIgnore? <==> srcFmt == destFmt
    ensures ret.SysSuccess? <==> destFmt.Rgb888? && srcFmt != destFmt && !srcFmt.OtherFormat?
    ensures ret.SysSuccess? && !srcFmt.Yuyv? ==> |src| <= dest.Length && dest[..|src|] == src
    ensures ret.SysSuccess? && srcFmt.Yuyv? ==> 3 * (|src| / 2) <= dest.Length
    ensures ret.SysSuccess? && srcFmt.Yuyv? ==> forall k :: 0 <= k < 3 * (|src| / 2) ==> dest[k] == ByteOf(src, k)
    ensures !ret.SysSuccess? ==> dest[..] == old(dest[..])
    ensures srcFmt.Yuyv? ==> forall k :: 3 * (|src| / 2) <= k < dest.Length ==> dest[k] == old(dest[k])
    ensures !srcFmt.Yuyv? ==> forall k :: |src| <= k < dest.Length ==> dest[k] == old(dest[k])
  {
    if srcFmt == destFmt {
      return SysIgnore;
    }
    if !destFmt.Rgb888? {
      return SysFailure;
    }
    if srcFmt.Yuyv? {
      ConvertYuyv(src, dest);
    } else if srcFmt.Mjpeg? || srcFmt.Rgb888? {
      Memcpy(dest, src);
    } else {
      return SysFailure;
    }
    return SysSuccess;
  }

  method Memcpy(dest: array<byte>, src: seq<byte>)
    requires |src| <= dest.Length
    modifies dest
    ensures dest[..] == Overlay(old(dest[..]), src)
  {
    forall k | 0 <= k < |src| {
      dest[k] := src[k];
    }
  }

  // ---------- sending ----------

  const DATAGRAM: nat := 1024

  /** A sendto either fails or takes at least one and at most all of the bytes it is given. */
  ghost predicate MakesProgress(sendto: (nat, nat) -> int) {
    forall k: nat, n: nat :: sendto(k, n) < 0 || (if n == 0 then sendto(k, n) == 0 else 1 <= sendto(k, n) <= n)
  }

  /** A network that takes whatever it is given: every datagram but the last has 1024 bytes. */
  lemma {:induction false} FullDatagrams(size: nat, datagrams: seq<seq<byte>>, sendto: (nat, nat) -> int, k: nat)
    requires forall j :: 0 <= j < |datagrams| ==>
               size >= |Flatten(datagrams[..j])| && |datagrams[j]| == sendto(j, Min(1024, size - |Flatten(datagrams[..j])|))
    requires forall j: nat, n: nat :: sendto(j, n) == n
    requires k <= |datagrams|
    ensures |Flatten(datagrams[..k])| == Min(1024 * k, size)
    ensures k < |datagrams| ==> |datagrams[k]| == Min(1024, size - Min(1024 * k, size))
  {
    if k > 0 {
      FullDatagrams(size, datagrams, sendto, k - 1);
      assert datagrams[..k] == datagrams[..k - 1] + [datagrams[k - 1]];
      FlattenSnoc(datagrams[..k - 1], datagrams[k - 1]);
    }
  }

  /** And there are as many as it takes. */
  lemma HowManyDatagrams(size: nat, datagrams: seq<seq<byte>>, sendto: (nat, nat) -> int)
    requires size > 0 && |Flatten(datagrams)| == size && forall k :: 0 <= k < |datagrams| ==> datagrams[k] != []
    requires forall j :: 0 <= j < |datagrams| ==>
               size >= |Flatten(datagrams[..j])| && |datagrams[j]| == sendto(j, Min(1024, size - |Flatten(datagrams[..j])|))
    requires forall j: nat, n: nat :: sendto(j, n) == n
    ensures |datagrams| == (size + 1023) / 1024
    ensures forall k :: 0 <= k < |datagrams| - 1 ==> |datagrams[k]| == 1024
  {
    hide Flatten;
    var n := |datagrams|;
    assert datagrams[..n] == datagrams;
    FullDatagrams(size, datagrams, sendto, n);
    if n > 0 {
      assert datagrams[n - 1] != [];
      FullDatagrams(size, datagrams, sendto, n - 1);
      assert 1024 * (n - 1) < size <= 1024 * n;
      forall k | 0 <= k < n - 1 ensures |datagrams[k]| == 1024 {
        FullDatagrams(size, datagrams, sendto, k);
        assert 1024 * (k + 1) <= 1024 * (n - 1);
      }
    }
  }

  lemma Progress(sendto: (nat, nat) -> int, k: nat, n: nat)
    requires MakesProgress(sendto)
    ensures sendto(k, n) < 0 || (if n == 0 then sendto(k, n) == 0 else 1 <= sendto(k, n) <= n)
  {
  }

  /** image_save of the streaming build; sendto(k, n) is what the k-th call answers to n bytes. The
      datagrams are consecutive pieces of the buffer, each as long as the answer to a request for 1024
      bytes or for what is left; it fails exactly when the socket or a sendto does, and otherwise every
      byte went out once and in order. */
  method ImageSave(buf: seq<byte>, size: nat, socketOk: bool, sendto: (nat, nat) -> int)
    returns (ret: SysResult, datagrams: seq<seq<byte>>)
    requires size <= |buf| && MakesProgress(sendto)
    ensures ret.SysSuccess? || ret.SysFailure?
    ensures Flatten(datagrams) <= buf[..size]
    ensures forall k :: 0 <= k < |datagrams| ==>
              && |Flatten(datagrams[..k])| <= size
              && |datagrams[k]| == sendto(k, Min(1024, size - |Flatten(datagrams[..k])|)) <= 1024
    ensures size > 0 ==> forall k :: 0 <= k < |datagrams| ==> datagrams[k] != []
    ensures ret.SysSuccess? ==> Flatten(datagrams) == buf[..size]
    ensures ret.SysFailure? <==>
              !socketOk || ((datagrams == [] || |Flatten(datagrams)| < size) &&
                            sendto(|datagrams|, Min(1024, size - |Flatten(datagrams)|)) < 0)
    ensures !socketOk ==> datagrams == []
    ensures socketOk && size > 0 && (forall j: nat, n: nat :: sendto(j, n) == n) ==>
              && ret.SysSuccess? && |datagrams| == (size + 1023) / 1024
              && forall k :: 0 <= k < |datagrams| - 1 ==> |datagrams[k]| == 1024
  {
    hide Flatten, MakesProgress;
    FlattenCons([], []);
    datagrams := [];
    if !socketOk {
      return SysFailure, [];
    }
    var wBytes := 0;
    var sizeBuf := size;
    var more := true;
    while more
      invariant 0 <= wBytes <= size && Flatten(datagrams) == buf[..wBytes]
      invariant more ==> sizeBuf == size - wBytes && (datagrams == [] || wBytes < size)
      invariant !more ==> wBytes == size && datagrams != []
      invariant forall k :: 0 <= k < |datagrams| ==>
                  && |Flatten(datagrams[..k])| <= size
                  && |datagrams[k]| == sendto(k, Min(1024, size - |Flatten(datagrams[..k])|)) <= 1024
      invariant size > 0 ==> forall k :: 0 <= k < |datagrams| ==> datagrams[k] != []
      decreases more, size - wBytes
    {
      sizeBuf := if sizeBuf > DATAGRAM then DATAGRAM else sizeBuf;
      assert sizeBuf == Min(1024, size - |Flatten(datagrams)|);
      var sizeSent := sendto(|datagrams|, sizeBuf);
      Progress(sendto, |datagrams|, sizeBuf);
      if sizeSent < 0 {
        return SysFailure, datagrams;
      }
      var datagram := buf[wBytes..wBytes + sizeSent];
      FlattenSnoc(datagrams, datagram);
      ghost var before := datagrams;
      datagrams := datagrams + [datagram];
      assert forall k :: 0 <= k < |before| ==> datagrams[..k] == before[..k];
      assert datagrams[..|before|] == before;
      wBytes := wBytes + sizeSent;
      sizeBuf := size - wBytes;
      more := wBytes < size;
    }
    if size > 0 && forall j: nat, n: nat :: sendto(j, n) == n {
      HowManyDatagrams(size, datagrams, sendto);
    }
    return SysSuccess, datagrams;
  }
}
