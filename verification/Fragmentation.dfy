/** One fixed-capacity block of the byte stream (`kg::bytes::basic_fragmentation_t`). */
module Fragmentations {
  import opened Bytes
  import opened Sequences

  /** What a fragment amounts to: its capacity, the bytes already consumed, and the bytes to be read. */
  datatype View = View(capacity: nat, offset: nat, content: seq<Byte>) {
    function Free(): int {
      capacity - offset - |content|
    }
  }

  /** A fragment with `bytes` added at its end. */
  function Filled(v: View, bytes: seq<Byte>): View {
    v.(content := v.content + bytes)
  }

  /** A fragment after `n` bytes were read from its front. */
  function Drained(v: View, n: nat): View
    requires n <= |v.content|
  {
    View(v.capacity, v.offset + n, v.content[n..])
  }

  class Fragmentation {
    /** The block itself; a zero-length array stands for the null block. */
    const data: array<Byte>
    var offset: nat
    var size: nat
    ghost var view: View

    ghost predicate Valid()
      reads this, data
    {
      offset + size <= data.Length && view == View(data.Length, offset, data[offset..offset + size])
    }

    constructor (capacity: nat)
      ensures Valid() && fresh(data)
      ensures view == View(capacity, 0, [])
    {
      data := new Byte[capacity];
      offset, size := 0, 0;
      view := View(capacity, 0, []);
    }

    function Capacity(): (r: nat)
      reads this, data
      ensures Valid() ==> r == view.capacity
    {
      data.Length
    }

    function GetFree(): (r: nat)
      requires Valid()
      reads this, data
      ensures r == view.Free()
    {
      data.Length - offset - size
    }

    /** Forgets everything the block holds; the capacity stays. */
    method Reinit()
      modifies this
      ensures Valid() && view == View(data.Length, 0, [])
    {
      offset, size := 0, 0;
      view := View(data.Length, 0, []);
    }

    /** Appends as much of `bytes` as there is room for. */
    method Write(bytes: seq<Byte>) returns (need: nat)
      requires Valid()
      modifies this, data
      ensures Valid()
      ensures need == Min(|bytes|, old(view).Free()) && view == Filled(old(view), bytes[..need])
    {
      var free := GetFree();
      need := |bytes|;
      if need > free {
        need := free;
      }
      forall i | 0 <= i < need {
        data[offset + size + i] := bytes[i];
      }
      assert data[offset..offset + size] == view.content;
      assert data[offset + size..offset + size + need] == bytes[..need];
      assert data[offset..offset + size + need] == view.content + bytes[..need];
      size := size + need;
      view := Filled(view, bytes[..need]);
    }

    /** Moves up to `n` bytes out of the front of the block. */
    method Read(bytes: array<Byte>, at: nat, n: nat) returns (need: nat)
      requires Valid() && bytes != data && at + n <= bytes.Length
      modifies this, bytes
      ensures Valid()
      ensures need == Min(n, |old(view).content|) && view == Drained(old(view), need)
      ensures bytes[..] == Splice(old(bytes[..]), at, Take(old(view).content, n))
    {
      hide Take, Splice;
      need := n;
      if need > size {
        need := size;
      }
      TakeFront(data[..], offset, offset + size, n);
      MemCopy(data, offset, bytes, at, need);
      size := size - need;
      offset := offset + need;
      view := Drained(view, need);
    }

    /** Copies up to `n` bytes from the front of the block. */
    method CopyTo(bytes: array<Byte>, at: nat, n: nat) returns (need: nat)
      requires Valid() && bytes != data && at + n <= bytes.Length
      modifies bytes
      ensures need == Min(n, |view.content|)
      ensures bytes[..] == Splice(old(bytes[..]), at, Take(view.content, n))
    {
      hide Take, Splice;
      need := n;
      if n > size {
        need := size;
      }
      TakeFront(data[..], offset, offset + size, n);
      MemCopy(data, offset, bytes, at, need);
    }

    /** Copies up to `n` bytes, leaving out the first `skip`. */
    method CopyToSkipping(skip: nat, bytes: array<Byte>, at: nat, n: nat) returns (need: nat)
      requires Valid() && bytes != data && at + n <= bytes.Length
      modifies bytes
      ensures need == |Take(Drop(view.content, skip), n)|
      ensures bytes[..] == Splice(old(bytes[..]), at, Take(Drop(view.content, skip), n))
    {
      hide Take, Drop, Splice;
      if skip >= size {
        TakeNothing(view.content, skip, n, bytes[..], at);
        return 0;
      }
      need := n;
      if need > size - skip {
        need := size - skip;
      }
      TakeWithin(data[..], offset, offset + size, skip, n);
      MemCopy(data, offset + skip, bytes, at, need);
    }
  }
}
