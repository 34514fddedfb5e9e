/** Lists of fragments as values: what they hold, and the shape the buffer keeps them in. */
module Segments {
  import opened Bytes
  import opened Fragmentations
  import opened Sequences

  /** All unread bytes, front to back. */
  function Joined(vs: seq<View>): seq<Byte> {
    if vs == [] then [] else vs[0].content + Joined(vs[1..])
  }

  lemma {:induction false} JoinedAppend(a: seq<View>, b: seq<View>)
    ensures Joined(a + b) == Joined(a) + Joined(b)
  {
    if a == [] {
      assert a + b == b;
    } else {
      assert (a + b)[1..] == a[1..] + b;
      JoinedAppend(a[1..], b);
      assert a[0].content + (Joined(a[1..]) + Joined(b)) == (a[0].content + Joined(a[1..])) + Joined(b);
    }
  }

  /** Splits the bytes of a list at fragment `i`. */
  lemma {:induction false} JoinedSplit(vs: seq<View>, i: nat)
    requires i < |vs|
    ensures Joined(vs) == Joined(vs[..i]) + vs[i].content + Joined(vs[i + 1..])
    ensures Joined(vs[..i + 1]) == Joined(vs[..i]) + vs[i].content
    ensures Joined(vs) == Joined(vs[..i + 1]) + Joined(vs[i + 1..])
  {
    assert Joined(vs[..i + 1]) == Joined(vs[..i]) + vs[i].content by {
      assert vs[..i + 1] == vs[..i] + [vs[i]];
      JoinedAppend(vs[..i], [vs[i]]);
      assert Joined([vs[i]]) == vs[i].content + Joined([]) == vs[i].content;
    }
    assert vs == vs[..i + 1] + vs[i + 1..];
    JoinedAppend(vs[..i + 1], vs[i + 1..]);
  }

  /** The shape in which a read may leave the list half way: only the front may be drained. */
  ghost predicate Chained(capacity: nat, vs: seq<View>) {
    && (forall i :: 0 <= i < |vs| ==> vs[i].Free() >= 0)
    && (forall i :: 0 <= i < |vs| - 1 ==> vs[i].Free() == 0)
    && (forall i :: 0 < i < |vs| ==> vs[i].offset == 0 && vs[i].content != [] && vs[i].capacity >= capacity)
  }

  /** The shape every public operation leaves: chained, and no fragment is drained. */
  ghost predicate Shaped(capacity: nat, vs: seq<View>) {
    Chained(capacity, vs) && (vs != [] ==> vs[0].content != [])
  }

  /** A run of full fragments holds at least its number times the reference capacity. */
  lemma {:induction false} FullFragmentsHold(capacity: nat, vs: seq<View>)
    requires forall i :: 0 <= i < |vs| ==> |vs[i].content| >= capacity
    ensures |Joined(vs)| >= |vs| * capacity
  {
    if vs != [] {
      FullFragmentsHold(capacity, vs[1..]);
      assert |vs| * capacity == capacity + (|vs| - 1) * capacity;
    }
  }

  /**
   * The list is empty exactly when no byte is left, and the number of fragments is bounded by the
   * bytes they hold.
   */
  lemma {:induction false} ShapeBound(capacity: nat, vs: seq<View>)
    requires Shaped(capacity, vs)
    ensures vs == [] <==> Joined(vs) == []
    ensures |vs| >= 2 ==> (|vs| - 2) * capacity + 2 <= |Joined(vs)|
  {
    if |vs| >= 2 {
      var middle, last := vs[1..|vs| - 1], |vs| - 1;
      JoinedSplit(vs, last);
      assert vs[..last][1..] == middle;
      FullFragmentsHold(capacity, middle);
      assert vs[last].content != [];
    }
  }

  /** The size of the fragment a write of `n` bytes has to add; 0 if it needs none. */
  function Wanted(capacity: nat, vs: seq<View>, n: nat): int {
    if n == 0 then 0
    else if vs == [] then n
    else
      var free := vs[|vs| - 1].Free();
      if free >= n then 0
      else if capacity < n - free then n - free
      else capacity
  }

  /** The room behind the bytes of the back fragment. */
  function Room(vs: seq<View>): int {
    if vs == [] then 0 else vs[|vs| - 1].Free()
  }

  /** Behind the room left a fragment of `size` takes all `n` bytes; only the first may be below the capacity. */
  predicate Suffices(capacity: nat, vs: seq<View>, n: nat, size: int) {
    Room(vs) + size >= n && (vs != [] ==> size >= capacity)
  }

  /**
   * A write adds a fragment exactly when its bytes do not fit into the back one, and wants the least size
   * that suffices.
   */
  lemma WantedLeast(capacity: nat, vs: seq<View>, n: nat)
    requires Room(vs) >= 0
    ensures Wanted(capacity, vs, n) <= 0 <==> n <= Room(vs)
    ensures n > Room(vs) ==>
      && Suffices(capacity, vs, n, Wanted(capacity, vs, n))
      && forall size :: Suffices(capacity, vs, n, size) ==> size >= Wanted(capacity, vs, n)
  {
  }

  /** The list is empty: a new fragment takes everything. */
  lemma {:induction false} AppendFirst(capacity: nat, vs: seq<View>, bytes: seq<Byte>, size: nat)
    requires vs == [] && bytes != [] && size >= |bytes|
    ensures var vs' := (vs + [View(size, 0, [])])[0 := Filled(View(size, 0, []), bytes)];
      && (vs + [View(size, 0, [])])[0].Free() >= |bytes|
      && Shaped(capacity, vs') && Joined(vs') == Joined(vs) + bytes
  {
    var vs' := (vs + [View(size, 0, [])])[0 := Filled(View(size, 0, []), bytes)];
    assert [] + bytes == bytes && vs' == [View(size, 0, bytes)];
    assert Joined(vs') == bytes + Joined([]) == bytes;
  }

  /** The back fragment has room for everything. */
  lemma {:induction false} AppendOnce(capacity: nat, vs: seq<View>, bytes: seq<Byte>)
    requires Shaped(capacity, vs) && vs != [] && vs[|vs| - 1].Free() >= |bytes|
    ensures var vs' := vs[|vs| - 1 := Filled(vs[|vs| - 1], bytes)];
      Shaped(capacity, vs') && Joined(vs') == Joined(vs) + bytes
  {
    var last := |vs| - 1;
    var vs' := vs[last := Filled(vs[last], bytes)];
    JoinedSplit(vs, last);
    JoinedSplit(vs', last);
    assert vs'[..last] == vs[..last];
  }

  /** The back fragment is filled up and the rest opens a new one, `v`. */
  lemma {:induction false} AppendTwice(capacity: nat, vs: seq<View>, bytes: seq<Byte>, v: View)
    requires Shaped(capacity, vs) && vs != [] && vs[|vs| - 1].Free() < |bytes|
    requires v == View(v.capacity, 0, []) && v.capacity >= capacity && v.capacity >= |bytes| - vs[|vs| - 1].Free()
    ensures var last, free := |vs| - 1, vs[|vs| - 1].Free();
      var vs0 := vs + [v];
      var vs1 := vs0[last := Filled(vs0[last], bytes[..free])];
      var vs2 := vs1[last + 1 := Filled(vs1[last + 1], bytes[free..])];
      && vs0[last].Free() == free && vs0[last + 1].Free() >= |bytes| - free
      && Shaped(capacity, vs2) && Joined(vs2) == Joined(vs) + bytes
  {
    hide Joined;
    var last, free := |vs| - 1, vs[|vs| - 1].Free();
    var f0, f := Filled(vs[last], bytes[..free]), Filled(v, bytes[free..]);
    AppendOnce(capacity, vs, bytes[..free]);
    assert [] + bytes[free..] == bytes[free..];
    AppendLast(capacity, vs[last := f0], f);
    UpdateTwice(vs, v, f0, f);
    assert (Joined(vs) + bytes[..free]) + bytes[free..] == Joined(vs) + bytes;
  }

  /** A new back fragment behind a full one. */
  lemma {:induction false} AppendLast(capacity: nat, vs: seq<View>, v: View)
    requires Shaped(capacity, vs) && vs != [] && vs[|vs| - 1].Free() == 0
    requires v.offset == 0 && v.content != [] && v.capacity >= capacity && v.Free() >= 0
    ensures Shaped(capacity, vs + [v]) && Joined(vs + [v]) == Joined(vs) + v.content
  {
    JoinedAppend(vs, [v]);
    assert Joined([v]) == v.content + Joined([]) == v.content;
  }

  lemma UpdateTwice<T>(s: seq<T>, v: T, x: T, y: T)
    requires s != []
    ensures (s + [v])[|s| - 1 := x][|s| := y] == s[|s| - 1 := x] + [y]
  {
  }

  lemma DrainFront(capacity: nat, vs: seq<View>, n: nat)
    requires Chained(capacity, vs) && vs != []
    ensures var vs' := vs[0 := Drained(vs[0], Min(n, |vs[0].content|))];
      Chained(capacity, vs') && Joined(vs) == Take(vs[0].content, n) + Joined(vs')
  {
    var k := Min(n, |vs[0].content|);
    assert vs[0].content == vs[0].content[..k] + vs[0].content[k..];
  }

  /** Before the first fragment nothing is copied; past the last, everything. */
  lemma CopyStart(vs: seq<View>, n: nat, was: seq<Byte>, at: nat)
    requires at + n <= |was|
    ensures Take(Joined(vs[..0]), n) == [] && Splice(was, at, []) == was
    ensures vs[..|vs|] == vs
  {
  }

  /** Copying fragment `k` behind the fragments before it. */
  lemma CopyStep(vs: seq<View>, k: nat, n: nat, was: seq<Byte>, at: nat)
    requires k < |vs| && at + n <= |was|
    ensures var before := Take(Joined(vs[..k]), n);
      var piece := Take(vs[k].content, n - |before|);
      && Take(Joined(vs[..k + 1]), n) == before + piece
      && Splice(Splice(was, at, before), at + |before|, piece) == Splice(was, at, before + piece)
      && (|before| + |piece| == n ==> Take(Joined(vs), n) == before + piece)
  {
    var before := Take(Joined(vs[..k]), n);
    var piece := Take(vs[k].content, n - |before|);
    JoinedSplit(vs, k);
    TakeAppend(Joined(vs[..k]), vs[k].content, n);
    TakeAppend(Joined(vs[..k + 1]), Joined(vs[k + 1..]), n);
    SpliceTwice(was, at, before, piece);
  }
}
