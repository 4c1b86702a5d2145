/** A growable byte buffer with a read offset, as Go's bytes.Buffer, with the
    in-place edits genFrame and compressData make through the slice
    buf.Bytes() returns (internal.MaskXOR and copy). */
module Buffers {
  import opened Wire

  class Buffer {
    var data: Bytes   // the written bytes, read or not
    var off: nat      // how many of them have been read

    ghost predicate Valid()
      reads this
    {
      off <= |data|
    }

    /** buf.Bytes(): the unread part. */
    function Bytes(): Bytes
      reads this
      requires Valid()
    {
      data[off..]
    }

    /** buf.Len(). */
    function Len(): (n: nat)
      reads this
      requires Valid()
      ensures n == |Bytes()|
    {
      |data| - off
    }

    /** myBufferPool.Get hands out an empty buffer. */
    constructor ()
      ensures Valid() && Bytes() == []
    {
      data, off := [], 0;
    }

    /** A buffer holding the bytes p (used for a received close payload). */
    constructor Of(p: Bytes)
      ensures Valid() && Bytes() == p
    {
      data, off := p, 0;
    }

    /** buf.Write(p): appends p. */
    method Write(p: Bytes)
      requires Valid()
      modifies this
      ensures Valid() && Bytes() == old(Bytes()) + p
    {
      data := data + p;
    }

    /** buf.Next(n): consumes and returns up to n unread bytes. */
    method Next(n: nat) returns (r: Bytes)
      requires Valid()
      modifies this
      ensures Valid()
      ensures |r| == (if n <= old(Len()) then n else old(Len()))
      ensures r + Bytes() == old(Bytes())
    {
      var m := if n <= |data| - off then n else |data| - off;
      r := data[off..off + m];
      off := off + m;
    }

    /** buf.Read(p) with len(p) == k: like Next, except that reading an empty
        buffer resets it and reports io.EOF when k > 0. */
    method Read(k: nat) returns (r: Bytes, eof: bool)
      requires Valid()
      modifies this
      ensures Valid()
      ensures eof <==> (old(Len()) == 0 && k > 0)
      ensures |r| == (if k <= old(Len()) then k else old(Len()))
      ensures r + Bytes() == old(Bytes())
    {
      if off == |data| {
        Reset();
        r, eof := [], k > 0;
        return;
      }
      r := Next(k);
      eof := false;
    }

    /** buf.Reset(): drops every byte. */
    method Reset()
      modifies this
      ensures Valid() && Bytes() == []
    {
      data, off := [], 0;
    }

    /** internal.MaskXOR(buf.Bytes()[from:], key): masks the unread bytes from
        index from on, in place, byte i of them with key[i % 4]. */
    method MaskFrom(from: nat, key: MaskKey)
      requires Valid() && from <= Len()
      modifies this
      ensures Valid()
      ensures Bytes() == old(Bytes())[..from] + Mask(old(Bytes())[from..], key)
    {
      ghost var before := Bytes();
      var start := off + from;
      var i := start;
      while i < |data|
        invariant off == old(off) && |data| == old(|data|) && start <= i <= |data|
        invariant data[..start] == old(data)[..start]
        invariant forall j :: start <= j < i ==> data[j] == Xor(old(data)[j], key[(j - start) % 4])
        invariant data[i..] == old(data)[i..]
      {
        data := data[i := Xor(data[i], key[(i - start) % 4])];
        i := i + 1;
      }
      assert Bytes() == before[..from] + Mask(before[from..], key);
    }

    /** copy(buf.Bytes()[at:], src): overwrites unread bytes from index at on
        with as much of src as fits. */
    method CopyAt(at: nat, src: Bytes) returns (copied: nat)
      requires Valid() && at <= Len()
      modifies this
      ensures Valid()
      ensures copied == (if |src| <= old(Len()) - at then |src| else old(Len()) - at)
      ensures Bytes() == old(Bytes())[..at] + src[..copied] + old(Bytes())[at + copied..]
    {
      copied := if |src| <= |data| - off - at then |src| else |data| - off - at;
      var start := off + at;
      var i := 0;
      while i < copied
        invariant off == old(off) && |data| == old(|data|) && 0 <= i <= copied
        invariant forall j :: 0 <= j < start ==> data[j] == old(data)[j]
        invariant forall j :: 0 <= j < i ==> data[start + j] == src[j]
        invariant forall j :: start + i <= j < |data| ==> data[j] == old(data)[j]
      {
        data := data[start + i := src[i]];
        i := i + 1;
      }
      ghost var spliced := old(data[off..])[..at] + src[..copied] + old(data[off..])[at + copied..];
      assert |data[off..]| == |spliced|;
      forall j | 0 <= j < |spliced|
        ensures data[off..][j] == spliced[j]
      {
        if j < at {
          assert data[off + j] == old(data)[off + j];
        } else if j < at + copied {
          assert data[start + (j - at)] == src[j - at];
        } else {
          assert data[off + j] == old(data)[off + j];
        }
      }
      assert data[off..] == spliced;
    }
  }
}
