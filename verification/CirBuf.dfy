/** The circular byte buffer of kernel/cirbuf.c, as a bounded first-in first-out queue. */
module CirBuf {

  type byte = x: int | 0 <= x < 256

  class CirBuf {
    const buf: array<byte>
    var readptr: nat
    var writeptr: nat

    ghost predicate Valid()
      reads this
    {
      buf.Length > 0 && readptr < buf.Length && writeptr < buf.Length
    }

    /** The bytes between the read and the write pointer, around the end if need be. */
    ghost function Contents(): (s: seq<byte>)
      requires Valid()
      reads this, buf
      ensures |s| < buf.Length
    {
      Between(buf[..], readptr, writeptr)
    }

    static function Between(b: seq<byte>, r: nat, w: nat): (s: seq<byte>)
      requires r < |b| && w < |b|
      ensures |s| == if r <= w then w - r else |b| - r + w
    {
      if r <= w then b[r..w] else b[r..] + b[..w]
    }

    /** cirbuf_create for a positive size, with memory available. */
    constructor (size: nat)
      requires size > 0
      ensures Valid() && fresh(buf) && buf.Length == size && Contents() == []
    {
      buf := new byte[size];
      readptr, writeptr := 0, 0;
    }

    /** cirbuf_bytesfree; one slot is never used. */
    function BytesFree(): (bytes: int)
      requires Valid()
      reads this, buf
      ensures bytes == buf.Length - 1 - |Contents()|
    {
      var bytes := readptr - writeptr - 1;
      if writeptr >= readptr then bytes + buf.Length else bytes
    }

    /** cirbuf_bytesinuse */
    function BytesInUse(): (bytes: int)
      requires Valid()
      reads this, buf
      ensures bytes == |Contents()|
    {
      var bytes := writeptr - readptr;
      if writeptr < readptr then bytes + buf.Length else bytes
    }

    /** cirbuf_writebyte */
    method WriteByte(b: byte) returns (ret: int)
      requires Valid()
      modifies this, buf
      ensures Valid() && readptr == old(readptr)
      ensures if |old(Contents())| < buf.Length - 1
        then ret == 0 && Contents() == old(Contents()) + [b]
        else ret == -1 && Contents() == old(Contents())
    {
      if BytesFree() == 0 { return -1; }
      buf[writeptr] := b;
      writeptr := writeptr + 1;
      if writeptr > buf.Length - 1 {
        writeptr := 0;
      }
      ret := 0;
    }

    /** cirbuf_readbyte; the byte is 0 when there is none. */
    method ReadByte() returns (ret: int, b: byte)
      requires Valid()
      modifies this
      ensures Valid() && writeptr == old(writeptr)
      ensures if old(Contents()) == []
        then ret == -1 && Contents() == []
        else ret == 0 && [b] + Contents() == old(Contents())
    {
      if BytesInUse() == 0 { return -1, 0; }
      b := Take();
      ret := 0;
    }

    /** *(cb->readptr++), wrapped if needed. */
    method Take() returns (b: byte)
      requires Valid() && Contents() != []
      modifies `readptr
      ensures Valid() && [b] + Contents() == old(Contents())
    {
      b := buf[readptr];
      readptr := readptr + 1;
      if readptr > buf.Length - 1 {
        readptr := 0;
      }
    }

    /** cirbuf_readbytes: fills the front of dst; -1 when the buffer is empty. */
    method ReadBytes(dst: array<byte>, len: nat) returns (ret: int)
      requires Valid() && len <= dst.Length && dst != buf
      modifies this, dst
      ensures Valid()
      ensures var c := old(Contents());
        if c == [] then ret == -1 && Contents() == c && dst[..] == old(dst[..])
        else
          && ret == (if len < |c| then len else |c|)
          && dst[..ret] == c[..ret] && dst[ret..] == old(dst[ret..]) && Contents() == c[ret..]
    {
      hide Contents, BytesInUse;
      var buflen := BytesInUse();
      if buflen == 0 { return -1; }
      var n := if len > buflen then buflen else len;
      ghost var c := Contents();
      var i := 0;
      while i < n
        invariant 0 <= i <= n && Valid()
        invariant c[i..] == Contents()
        invariant dst[..i] == c[..i] && dst[i..] == old(dst[..])[i..]
      {
        var b := Take();
        dst[i] := b;
        i := i + 1;
      }
      ret := n;
    }

    /** memcpy to the write pointer. */
    method Copy(bytes: seq<byte>)
      requires Valid() && writeptr + |bytes| <= buf.Length
      modifies buf
      ensures buf[..] == Put(old(buf[..]), writeptr, bytes)
    {
      forall k | 0 <= k < |bytes| {
        buf[writeptr + k] := bytes[k];
      }
    }

    static function Put(b: seq<byte>, w: nat, bytes: seq<byte>): (s: seq<byte>)
      requires w + |bytes| <= |b|
      ensures |s| == |b|
    {
      b[..w] + bytes + b[w + |bytes|..]
    }

    static lemma PutBetween(b: seq<byte>, r: nat, w: nat, bytes: seq<byte>)
      requires r <= w && w + |bytes| <= |b|
      ensures Put(b, w, bytes)[r..w + |bytes|] == b[r..w] + bytes
    {
    }

    static lemma PutAround(b: seq<byte>, r: nat, w: nat, bytes: seq<byte>)
      requires w + |bytes| <= r <= |b|
      ensures Put(b, w, bytes)[r..] == b[r..] && Put(b, w, bytes)[..w + |bytes|] == b[..w] + bytes
    {
    }

    /** What is put at the write pointer comes behind all that is there. */
    static lemma PutAppends(b: seq<byte>, r: nat, w: nat, bytes: seq<byte>)
      requires r < |b| && w < |b| && w + |bytes| <= |b| && |Between(b, r, w)| + |bytes| < |b|
      ensures Between(Put(b, w, bytes), r, if w + |bytes| == |b| then 0 else w + |bytes|) == Between(b, r, w) + bytes
    {
      hide Put;
      var s := Put(b, w, bytes);
      if r <= w {
        PutBetween(b, r, w, bytes);
        assert w + |bytes| == |b| ==> r > 0 && s[r..] + s[..0] == s[r..w + |bytes|];
      } else {
        PutAround(b, r, w, bytes);
        assert b[r..] + (b[..w] + bytes) == b[r..] + b[..w] + bytes;
      }
    }

    /** The second memcpy of cirbuf_writebytes, which stays before the end of the buffer. */
    method CopyAppends(bytes: seq<byte>)
      requires Valid() && writeptr + |bytes| < buf.Length && |Contents()| + |bytes| < buf.Length
      modifies this, buf
      ensures Valid() && readptr == old(readptr) && Contents() == old(Contents()) + bytes
    {
      hide Put, Between;
      PutAppends(buf[..], readptr, writeptr, bytes);
      Copy(bytes);
      writeptr := writeptr + |bytes|;
    }

    /** The first memcpy of cirbuf_writebytes, which runs up to the end of the buffer. */
    method CopyToEnd(bytes: seq<byte>)
      requires Valid() && writeptr + |bytes| == buf.Length && |Contents()| + |bytes| < buf.Length
      modifies this, buf
      ensures Valid() && readptr == old(readptr) && writeptr == 0 && Contents() == old(Contents()) + bytes
    {
      hide Put, Between;
      PutAppends(buf[..], readptr, writeptr, bytes);
      Copy(bytes);
      writeptr := 0;
    }

    lemma RoomAtEnd(n: nat)
      requires Valid() && n <= BytesFree() && writeptr + n > buf.Length - 1
      ensures buf.Length - writeptr <= n && writeptr >= readptr
    {
    }

    /** cirbuf_writebytes: takes what fits, in at most two pieces. */
    method WriteBytes(bytes: seq<byte>) returns (ret: nat)
      requires Valid()
      modifies this, buf
      ensures Valid() && readptr == old(readptr)
      ensures var free := buf.Length - 1 - |old(Contents())|;
        ret == if free < |bytes| then free else |bytes|
      ensures Contents() == old(Contents()) + bytes[..ret]
    {
      hide Contents, BytesFree;
      var freesize := BytesFree();
      if freesize == 0 { return 0; }
      var rest := if freesize < |bytes| then bytes[..freesize] else bytes;
      ret := |rest|;
      ghost var whole := rest;
      if writeptr + |rest| > buf.Length - 1 {
        RoomAtEnd(|rest|);
        var first := buf.Length - writeptr;
        CopyToEnd(rest[..first]);
        rest := rest[first..];
        assert whole == whole[..first] + rest;
      }
      if |rest| > 0 {
        CopyAppends(rest);
      }
    }
  }
}
