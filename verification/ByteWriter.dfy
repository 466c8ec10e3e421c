/** The append-only byte buffer that code is generated into, with in-place patching. */
module ByteWriter {
  import opened Words

  /** The bytes with `patch` written over those at offset. */
  function Patched(bytes: seq<Byte>, offset: nat, patch: seq<Byte>): (r: seq<Byte>)
    requires offset + |patch| <= |bytes|
    ensures |r| == |bytes|
  {
    bytes[..offset] + patch + bytes[offset + |patch|..]
  }

  lemma PatchedHead(bytes: seq<Byte>, tail: seq<Byte>, offset: nat, patch: seq<Byte>)
    requires offset + |patch| <= |bytes|
    ensures Patched(bytes + tail, offset, patch) == Patched(bytes, offset, patch) + tail
  {
  }

  lemma PatchedTail(bytes: seq<Byte>, tail: seq<Byte>, offset: nat, patch: seq<Byte>)
    requires offset + |patch| <= |tail|
    ensures Patched(bytes + tail, |bytes| + offset, patch) == bytes + Patched(tail, offset, patch)
  {
    assert (bytes + tail)[..|bytes| + offset] == bytes + tail[..offset];
    assert (bytes + tail)[|bytes| + offset + |patch|..] == tail[offset + |patch|..];
  }

  class Writer {
    var data: array<Byte>
    var currentIndex: nat

    /** Nothing allocated before the first write; after it always one byte to spare. */
    ghost predicate Valid()
      reads this
    {
      if currentIndex == 0 then data.Length == 0 else currentIndex < data.Length
    }

    ghost function Contents(): (s: seq<Byte>)
      reads this, data
      requires Valid()
    {
      data[..currentIndex]
    }

    constructor ()
      ensures Valid() && Contents() == [] && fresh(data)
    {
      data := new Byte[0];
      currentIndex := 0;
    }

    /** Makes room for size more bytes and one beyond. */
    method Expand(size: nat)
      requires Valid()
      modifies this`data
      ensures currentIndex + size < data.Length && data[..currentIndex] == old(Contents())
      ensures data.Length == if currentIndex + size < old(data.Length) then old(data.Length) else currentIndex + size + 2
      ensures data == old(data) || fresh(data)
    {
      if currentIndex + size >= data.Length {
        var bigger, before := new Byte[currentIndex + size + 2], data;
        for k := 0 to currentIndex
          invariant forall j :: 0 <= j < k ==> bigger[j] == before[j]
        {
          bigger[k] := before[k];
        }
        data := bigger;
      }
    }

    /** Stores bytes at an offset; the caller has made sure they fit. */
    method Put(offset: nat, bytes: seq<Byte>)
      requires offset + |bytes| <= data.Length
      modifies data
      ensures data[..] == old(data[..])[..offset] + bytes + old(data[..])[offset + |bytes|..]
    {
      ghost var before := data[..];
      for k := 0 to |bytes|
        invariant forall j :: 0 <= j < data.Length ==>
                    data[j] == if offset <= j < offset + k then bytes[j - offset] else before[j]
      {
        data[offset + k] := bytes[k];
      }
    }

    method Append(bytes: seq<Byte>) returns (start: nat)
      requires Valid() && |bytes| > 0
      modifies this, data
      ensures Valid() && Contents() == old(Contents()) + bytes
      ensures start == old(currentIndex) && currentIndex < data.Length
      ensures data == old(data) || fresh(data)
    {
      start := currentIndex;
      Expand(|bytes|);
      Put(currentIndex, bytes);
      currentIndex := currentIndex + |bytes|;
    }

    method Uint8(value: Byte) returns (start: nat)
      requires Valid()
      modifies this, data
      ensures Valid() && Contents() == old(Contents()) + [value]
      ensures start == old(currentIndex) && currentIndex < data.Length
      ensures data == old(data) || fresh(data)
    {
      start := Append([value]);
    }

    method Int32(value: int) returns (start: nat)
      requires Valid()
      modifies this, data
      ensures Valid() && Contents() == old(Contents()) + ToLE(4, value)
      ensures start == old(currentIndex) && currentIndex < data.Length
      ensures data == old(data) || fresh(data)
    {
      start := Append(ToLE(4, value));
    }

    method Int64(value: int) returns (start: nat)
      requires Valid()
      modifies this, data
      ensures Valid() && Contents() == old(Contents()) + ToLE(8, value)
      ensures start == old(currentIndex) && currentIndex < data.Length
      ensures data == old(data) || fresh(data)
    {
      start := Append(ToLE(8, value));
    }

    method Int32At(value: int, offset: nat)
      requires Valid() && offset + 4 <= currentIndex
      modifies data
      ensures Valid() && Contents() == Patched(old(Contents()), offset, ToLE(4, value))
    {
      Put(offset, ToLE(4, value));
    }
  }
}
