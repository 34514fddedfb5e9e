/** The segmented byte queue with one recycled fragment (`kg::bytes::buffer_t`). */
module Buffers {
  import opened Bytes
  import opened Fragmentations
  import opened Segments
  import opened Sequences
  import opened Skipping

  /**
   * `fs'` is `fs` without some of its front; a fragment kept for reuse stays kept, and otherwise
   * the first one dropped is kept.
   */
  ghost predicate Popped(fs: seq<Fragmentation>, kept: Fragmentation?, fs': seq<Fragmentation>, kept': Fragmentation?) {
    && |fs'| <= |fs| && fs' == fs[|fs| - |fs'|..]
    && kept' == if kept != null || |fs'| == |fs| then kept else fs[0]
  }

  /** No two fragments are the same or share a block. */
  ghost predicate Distinct(fs: seq<Fragmentation>) {
    forall i, j :: 0 <= i < j < |fs| ==> fs[i] != fs[j] && fs[i].data != fs[j].data
  }

  lemma DistinctTail(fs: seq<Fragmentation>)
    requires Distinct(fs) && fs != []
    ensures Distinct(fs[1..])
    ensures forall i :: 0 <= i < |fs| - 1 ==> fs[1..][i] != fs[0] && fs[1..][i].data != fs[0].data
  {
  }

  lemma PoppedNone(fs: seq<Fragmentation>, kept: Fragmentation?)
    ensures Popped(fs, kept, fs, kept)
  {
  }

  lemma PoppedNext(fs: seq<Fragmentation>, kept: Fragmentation?, fs': seq<Fragmentation>, kept': Fragmentation?)
    requires Popped(fs, kept, fs', kept') && fs' != []
    ensures Popped(fs, kept, fs'[1..], if kept' == null then fs'[0] else kept')
  {
    assert fs'[0] == fs[|fs| - |fs'|];
  }

  class Buffer {
    /** Reference size for a new fragment. */
    const capacity: nat
    var fragmentations: seq<Fragmentation>
    /** One drained fragment kept for reuse. */
    var cache: Fragmentation?
    /** What the fragments hold, one view a fragment. */
    ghost var views: seq<View>
    ghost var Repr: set<object>

    /** The fragments in use and the cached one are separate blocks owned by this buffer. */
    ghost predicate Owned()
      reads this, Repr
    {
      && this in Repr
      && |views| == |fragmentations|
      && (forall i :: 0 <= i < |fragmentations| ==>
            && fragmentations[i] in Repr && fragmentations[i].data in Repr
            && fragmentations[i].Valid() && fragmentations[i].view == views[i])
      && Distinct(fragmentations)
      && (cache != null ==> cache in Repr && cache.data in Repr && cache.Valid() && Unused(cache))
    }

    /** No fragment in the list is `f` or shares its block. */
    ghost predicate Unused(f: Fragmentation)
      reads this
    {
      forall i :: 0 <= i < |fragmentations| ==> fragmentations[i] != f && fragmentations[i].data != f.data
    }

    /** `f` belongs to the buffer but is neither in the list nor kept for reuse. */
    ghost predicate Spare(f: Fragmentation)
      reads this
    {
      f in Repr && f.data in Repr && Unused(f) && (cache != null ==> cache != f && cache.data != f.data)
    }

    /** The unread bytes, in order. */
    ghost function Contents(): seq<Byte>
      reads this
    {
      Joined(views)
    }

    ghost predicate Valid()
      reads this, Repr
      ensures Valid() ==> this in Repr
    {
      Owned() && Shaped(capacity, views)
    }

    /**
     * No fragment in the list is empty, so the queue is empty exactly when the list is; and the
     * number of fragments is bounded by the bytes they hold.
     */
    lemma FragmentBound()
      requires Valid()
      ensures fragmentations == [] <==> Contents() == []
      ensures |fragmentations| >= 2 ==> (|fragmentations| - 2) * capacity + 2 <= |Contents()|
    {
      ShapeBound(capacity, views);
    }

    constructor (capacity: nat := 1024)
      ensures Valid() && fresh(Repr)
      ensures this.capacity == capacity && cache == null && Contents() == []
    {
      this.capacity := capacity;
      fragmentations, cache := [], null;
      views, Repr := [], {this};
    }

    /** Empties the queue; with `clearCache` off, the last fragment may be kept for reuse. */
    method Reset(clearCache: bool := true)
      requires Valid()
      modifies this
      ensures Valid() && Repr == old(Repr)
      ensures Contents() == []
      ensures cache == if clearCache then null
                       else if old(cache) == null && old(fragmentations) != []
                         then old(fragmentations)[|old(fragmentations)| - 1]
                       else old(cache)
    {
      if clearCache {
        cache := null;
      } else if cache == null && fragmentations != [] {
        cache := fragmentations[|fragmentations| - 1];
      }
      fragmentations, views := [], [];
    }

    method ResetCache()
      requires Valid()
      modifies this`cache
      ensures Valid() && cache == null
    {
      cache := null;
    }

    /** The number of unread bytes. */
    method Size() returns (sum: nat)
      requires Valid()
      ensures sum == |Contents()|
    {
      sum := 0;
      for k := 0 to |fragmentations|
        invariant sum == |Joined(views[..k])|
      {
        JoinedSplit(views, k);
        sum := sum + fragmentations[k].size;
      }
      assert views[..|views|] == views;
    }

    /** Appends all of `bytes`. */
    method Write(bytes: seq<Byte>) returns (n: nat)
      requires Valid()
      modifies Repr
      ensures Valid() && fresh(Repr - old(Repr))
      ensures n == |bytes|
      ensures Contents() == old(Contents()) + bytes
      ensures var wanted := Wanted(capacity, old(views), |bytes|);
        if wanted <= 0 then cache == old(cache) && fragmentations == old(fragmentations)
        else
          && fragmentations != [] && fragmentations[..|fragmentations| - 1] == old(fragmentations)
          && var f := fragmentations[|fragmentations| - 1];
            if old(cache) != null && old(cache).data.Length >= wanted
            then cache == null && f == old(cache)
            else cache == old(cache) && fresh(f) && f.data.Length == wanted
    {
      hide Joined, Chained, Fragmentation.Valid, View.Free, Filled, Distinct;
      n := |bytes|;
      if n == 0 {
        return;
      }
      if fragmentations == [] {
        var f := CreateFragmentation(n);
        AppendFirst(capacity, views, bytes, f.data.Length);
        PushBack(f);
        WriteTo(0, bytes);
        return;
      }
      var last := |fragmentations| - 1;
      var free := fragmentations[last].GetFree();
      if free >= n {
        AppendOnce(capacity, views, bytes);
        WriteTo(last, bytes);
        return;
      }
      var need := n - free;
      var size := capacity;
      if size < need {
        size := need;
      }
      var f := CreateFragmentation(size);
      WriteTwice(bytes, free, f);
    }

    /** Fills the back fragment, which has `free` bytes of room, and writes what is left into `f`. */
    method WriteTwice(bytes: seq<Byte>, free: nat, f: Fragmentation)
      requires Valid() && views != [] && free == views[|views| - 1].Free() < |bytes|
      requires Spare(f) && f.Valid() && f.view == View(f.data.Length, 0, [])
      requires f.data.Length >= capacity && f.data.Length >= |bytes| - free
      modifies Repr
      ensures Valid() && Repr == old(Repr) && cache == old(cache)
      ensures fragmentations == old(fragmentations) + [f]
      ensures Contents() == old(Contents()) + bytes
    {
      assert |fragmentations| == |views|;
      hide Owned, Joined, Shaped, Filled, View.Free;
      var last := |fragmentations| - 1;
      AppendTwice(capacity, views, bytes, View(f.data.Length, 0, []));
      PushBack(f);
      WriteBoth(last, bytes[..free], bytes[free..]);
    }

    /** Writes into fragments `i` and `i + 1`. */
    method WriteBoth(i: nat, head: seq<Byte>, tail: seq<Byte>)
      requires Owned() && i + 1 < |views| && |head| <= views[i].Free() && |tail| <= views[i + 1].Free()
      modifies Repr
      ensures Owned() && Repr == old(Repr) && cache == old(cache) && fragmentations == old(fragmentations)
      ensures var vs := old(views)[i := Filled(old(views)[i], head)];
        views == vs[i + 1 := Filled(vs[i + 1], tail)]
    {
      hide Owned, Filled, View.Free;
      WriteTo(i, head);
      WriteTo(i + 1, tail);
    }

    /** A fragment of at least `size` bytes: the cached one, emptied, if it is large enough. */
    method CreateFragmentation(size: nat) returns (f: Fragmentation)
      requires Owned()
      modifies Repr
      ensures Owned() && fresh(Repr - old(Repr)) && fragmentations == old(fragmentations) && views == old(views)
      ensures Spare(f) && f.Valid() && f.view == View(f.data.Length, 0, []) && f.data.Length >= size
      ensures if old(cache) != null && old(cache).data.Length >= size
              then f == old(cache) && cache == null
              else fresh(f) && f.data.Length == size && cache == old(cache)
    {
      if cache == null {
        f := new Fragmentation(size);
        Repr := Repr + {f, f.data};
        return;
      }
      if cache.Capacity() < size {
        f := new Fragmentation(size);
        Repr := Repr + {f, f.data};
        return;
      }
      f := cache;
      f.Reinit();
      cache := null;
    }

    /** `_fragmentations.push_back(f)` for a fragment that is not in use. */
    method PushBack(f: Fragmentation)
      requires Owned() && Spare(f) && f.Valid()
      modifies this`fragmentations, this`views
      ensures Owned()
      ensures fragmentations == old(fragmentations) + [f] && views == old(views) + [f.view]
    {
      fragmentations, views := fragmentations + [f], views + [f.view];
    }

    /** Writes into fragment `i`, which has room for all of `bytes`. */
    method WriteTo(i: nat, bytes: seq<Byte>)
      requires Owned() && i < |views| && |bytes| <= views[i].Free()
      modifies Repr
      ensures Owned() && Repr == old(Repr) && cache == old(cache) && fragmentations == old(fragmentations)
      ensures views == old(views)[i := Filled(old(views)[i], bytes)]
    {
      hide Fragmentation.Valid, Filled;
      var _ := fragmentations[i].Write(bytes);
      assert bytes[..|bytes|] == bytes;
      views := views[i := Filled(views[i], bytes)];
    }

    /** Copies up to `n` bytes from the front; the queue keeps them. */
    method CopyTo(bytes: array<Byte>, at: nat, n: nat) returns (sum: nat)
      requires Valid() && bytes !in Repr && at + n <= bytes.Length
      modifies bytes
      ensures sum == |Take(Contents(), n)|
      ensures bytes[..] == Splice(old(bytes[..]), at, Take(Contents(), n))
    {
      hide Shaped, Joined, Take, Splice;
      ghost var was := bytes[..];
      sum := 0;
      var rest := n;
      CopyStart(views, n, was, at);
      for k := 0 to |fragmentations|
        invariant sum == |Take(Joined(views[..k]), n)| && rest == n - sum
        invariant bytes[..] == Splice(was, at, Take(Joined(views[..k]), n))
      {
        var count := fragmentations[k].CopyTo(bytes, at + sum, rest);
        CopyStep(views, k, n, was, at);
        rest := rest - count;
        sum := sum + count;
        if rest < 1 {
          break;
        }
      }
    }

    /** Copies up to `n` bytes behind the first `skip`, as `Skipping` describes; the queue keeps them. */
    method CopyToSkipping(skip: nat, bytes: array<Byte>, at: nat, n: nat) returns (sum: nat)
      requires Valid() && bytes !in Repr && at + n <= bytes.Length
      modifies bytes
      ensures sum == |Take(Skipped(views, skip), n)|
      ensures bytes[..] == Splice(old(bytes[..]), at, Take(Skipped(views, skip), n))
    {
      hide Shaped, Joined, Take, Splice, Drop, Pending, Skipped;
      ghost var was := bytes[..];
      ghost var done: seq<Byte> := [];
      sum := 0;
      var rest, left, needSkip := n, skip, 0;
      SkipStart(views, skip, n, was, at);
      for k := 0 to |fragmentations|
        invariant sum == |done| && rest == n - sum
        invariant done + Take(Pending(views[k..], left, needSkip), rest) == Take(Skipped(views, skip), n)
        invariant bytes[..] == Splice(was, at, done)
      {
        SkipCopyStep(views, k, left, needSkip, done, rest);
        if left > 0 {
          needSkip := left;
          var size := fragmentations[k].size;
          if needSkip > size {
            needSkip := size;
          }
          left := left - needSkip;
        }
        var count;
        if needSkip > 0 {
          count := fragmentations[k].CopyToSkipping(needSkip, bytes, at + sum, rest);
        } else {
          count := fragmentations[k].CopyTo(bytes, at + sum, rest);
        }
        ghost var piece := Take(Drop(views[k].content, needSkip), rest);
        SpliceTwice(was, at, done, piece);
        done := done + piece;
        rest := rest - count;
        sum := sum + count;
        if rest < 1 {
          SkipEnd(views[k + 1..], left, needSkip, rest, done);
          return;
        }
      }
      SkipEnd(views[|fragmentations|..], left, needSkip, rest, done);
    }

    /** Moves up to `n` bytes out of the front of the queue. */
    method Read(bytes: array<Byte>, at: nat, n: nat) returns (sum: nat)
      requires Valid() && bytes !in Repr && at + n <= bytes.Length
      modifies Repr, bytes
      ensures Valid() && Repr == old(Repr)
      ensures sum == |Take(old(Contents()), n)|
      ensures bytes[..] == Splice(old(bytes[..]), at, Take(old(Contents()), n))
      ensures Contents() == Drop(old(Contents()), n)
      ensures Popped(old(fragmentations), old(cache), fragmentations, cache)
    {
      hide Owned, Chained, Joined, Popped, Take, Drop, Splice;
      ghost var fs, kept := fragmentations, cache;
      ghost var was, content := bytes[..], Contents();
      ghost var done: seq<Byte> := [];
      PoppedNone(fs, kept);
      CopyStart(views, n, was, at);
      sum := 0;
      var rest := n;
      while rest > 0
        invariant Owned() && Chained(capacity, views) && Repr == old(Repr)
        invariant Popped(fs, kept, fragmentations, cache)
        invariant sum + rest == n && sum == |done|
        invariant done + Contents() == content
        invariant bytes[..] == Splice(was, at, done)
      {
        var f := GetReadFragmentation(fs, kept);
        if f == null {
          break;
        }
        ghost var piece := Take(views[0].content, rest);
        DrainFront(capacity, views, rest);
        var count := ReadFront(bytes, at + sum, rest);
        SpliceTwice(was, at, done, piece);
        assert (done + piece) + Contents() == done + (piece + Contents());
        done := done + piece;
        rest := rest - count;
        sum := sum + count;
      }
      TakeDrop(content, done, Contents(), n);
      RemoveNoReadFragmentation(fs, kept);
    }

    /** `front()->read(bytes, n)`. */
    method ReadFront(bytes: array<Byte>, at: nat, n: nat) returns (count: nat)
      requires Owned() && views != [] && bytes !in Repr && at + n <= bytes.Length
      modifies Repr, bytes
      ensures Owned() && Repr == old(Repr) && cache == old(cache) && fragmentations == old(fragmentations)
      ensures count == Min(n, |old(views)[0].content|)
      ensures bytes[..] == Splice(old(bytes[..]), at, Take(old(views)[0].content, n))
      ensures views == old(views)[0 := Drained(old(views)[0], count)]
    {
      hide Take, Splice, Drained, Fragmentation.Valid;
      count := fragmentations[0].Read(bytes, at, n);
      views := views[0 := Drained(views[0], count)];
    }

    /** Drops drained fragments from the front and returns the first with bytes to read. */
    method GetReadFragmentation(ghost fs: seq<Fragmentation>, ghost kept: Fragmentation?) returns (f: Fragmentation?)
      requires Owned() && Chained(capacity, views) && Popped(fs, kept, fragmentations, cache)
      modifies this`fragmentations, this`views, this`cache
      ensures Valid() && Popped(fs, kept, fragmentations, cache)
      ensures Contents() == old(Contents())
      ensures if f == null then Contents() == [] else views != [] && views[0].content != [] && f == fragmentations[0]
    {
      hide Popped;
      while fragmentations != []
        invariant Owned() && Chained(capacity, views) && Popped(fs, kept, fragmentations, cache)
        invariant Contents() == old(Contents())
        decreases |fragmentations|
      {
        f := fragmentations[0];
        if f.size < 1 {
          DropFront(fs, kept);
          continue;
        }
        return f;
      }
      return null;
    }

    /** Keeps `f` for reuse unless a fragment at least as full is kept already. */
    method CacheFragmentation(f: Fragmentation)
      modifies this`cache
      ensures cache == if old(cache) == null || old(cache).size < f.size then f else old(cache)
    {
      if cache == null || cache.size < f.size {
        cache := f;
      }
    }

    /** Takes the drained front fragment off the list, keeping it for reuse if nothing is kept. */
    method DropFront(ghost fs: seq<Fragmentation>, ghost kept: Fragmentation?)
      requires Owned() && fragmentations != [] && views[0].content == []
      requires Popped(fs, kept, fragmentations, cache)
      modifies this`fragmentations, this`views, this`cache
      ensures Owned()
      ensures fragmentations == old(fragmentations)[1..] && views == old(views)[1..]
      ensures Popped(fs, kept, fragmentations, cache)
    {
      assert fragmentations[0].size == 0;
      hide Popped, Distinct, Fragmentation.Valid;
      DistinctTail(fragmentations);
      PoppedNext(fs, kept, fragmentations, cache);
      CacheFragmentation(fragmentations[0]);
      fragmentations, views := fragmentations[1..], views[1..];
    }

    /** Drops drained fragments from the front. */
    method RemoveNoReadFragmentation(ghost fs: seq<Fragmentation>, ghost kept: Fragmentation?)
      requires Owned() && Chained(capacity, views) && Popped(fs, kept, fragmentations, cache)
      modifies this`fragmentations, this`views, this`cache
      ensures Valid() && Popped(fs, kept, fragmentations, cache)
      ensures Contents() == old(Contents())
    {
      hide Popped;
      while fragmentations != []
        invariant Owned() && Chained(capacity, views) && Popped(fs, kept, fragmentations, cache)
        invariant Contents() == old(Contents())
        decreases |fragmentations|
      {
        var f := fragmentations[0];
        if f.size > 0 {
          break;
        }
        DropFront(fs, kept);
      }
    }
  }

  /** Copies the first `n` bytes into a block of their own. */
  method Peek(buffer: Buffer, n: nat) returns (block: seq<Byte>)
    requires buffer.Valid() && n <= |buffer.Contents()|
    ensures block == buffer.Contents()[..n]
  {
    hide Buffer.Valid, Buffer.Contents, Splice, Take, Drop;
    var bytes := new Byte[n];
    TakeExact(buffer.Contents(), n, bytes[..]);
    var _ := buffer.CopyTo(bytes, 0, n);
    block := bytes[..];
  }

  /** Moves the first `n` bytes into a block of their own. */
  method TakeOut(buffer: Buffer, n: nat) returns (block: seq<Byte>)
    requires buffer.Valid() && n <= |buffer.Contents()|
    modifies buffer.Repr
    ensures buffer.Valid() && buffer.Repr == old(buffer.Repr)
    ensures block == old(buffer.Contents())[..n]
    ensures buffer.Contents() == old(buffer.Contents())[n..]
  {
    hide Buffer.Valid, Buffer.Contents, Splice, Take, Drop;
    var bytes := new Byte[n];
    TakeExact(buffer.Contents(), n, bytes[..]);
    var _ := buffer.Read(bytes, 0, n);
    block := bytes[..];
  }
}
