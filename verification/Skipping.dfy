/**
 * The copy that leaves out a prefix. The count skipped in the fragment where the prefix ends is
 * skipped again in every later fragment; this module says what the copy yields, and for which
 * fragment sizes that is the documented result.
 */
module Skipping {
  import opened Bytes
  import opened Fragmentations
  import opened Segments
  import opened Sequences

  /** Every fragment without its first `k` bytes. */
  function DropEach(vs: seq<View>, k: nat): seq<Byte> {
    if vs == [] then [] else Drop(vs[0].content, k) + DropEach(vs[1..], k)
  }

  /** What a copy with an unlimited destination yields. */
  function Skipped(vs: seq<View>, skip: nat): seq<Byte> {
    if vs == [] then []
    else if skip <= |vs[0].content| then DropEach(vs, skip)
    else Skipped(vs[1..], skip - |vs[0].content|)
  }

  /** What the documentation promises: the contents without the first `skip` bytes. */
  function Promised(vs: seq<View>, skip: nat, n: nat): seq<Byte> {
    Take(Drop(Joined(vs), skip), n)
  }

  lemma {:induction false} DropNothing(vs: seq<View>)
    ensures DropEach(vs, 0) == Joined(vs)
  {
    if vs != [] {
      DropNothing(vs[1..]);
    }
  }

  /** If the skip ends `k` bytes into fragment `j`, every fragment from `j` on loses `k` bytes. */
  lemma {:induction false} SkippedFormula(vs: seq<View>, j: nat, k: nat)
    requires j < |vs| && 1 <= k <= |vs[j].content|
    ensures Skipped(vs, |Joined(vs[..j])| + k) == DropEach(vs[j..], k)
  {
    if j == 0 {
      assert Joined(vs[..0]) == [] && vs[0..] == vs;
    } else {
      assert vs[..j][1..] == vs[1..][..j - 1] && vs[1..][j - 1..] == vs[j..];
      SkippedFormula(vs[1..], j - 1, k);
    }
  }

  lemma {:induction false} SkippedAll(vs: seq<View>, skip: nat)
    requires skip > |Joined(vs)|
    ensures Skipped(vs, skip) == []
  {
    if vs != [] {
      SkippedAll(vs[1..], skip - |vs[0].content|);
    }
  }

  // The copy loop.

  /** What is still to come, with `skip` bytes left to skip and `again` skipped in the last fragment. */
  function Pending(vs: seq<View>, skip: nat, again: nat): seq<Byte> {
    if skip > 0 then Skipped(vs, skip) else DropEach(vs, again)
  }

  lemma {:induction false} PendingStep(vs: seq<View>, k: nat, skip: nat, again: nat)
    requires k < |vs|
    ensures var again' := if skip > 0 then Min(skip, |vs[k].content|) else again;
      var skip' := if skip > 0 then skip - again' else 0;
      Pending(vs[k..], skip, again) == Drop(vs[k].content, again') + Pending(vs[k + 1..], skip', again')
  {
    assert vs[k..][1..] == vs[k + 1..];
  }

  lemma {:induction false} SkipCopyStep(vs: seq<View>, k: nat, skip: nat, again: nat, done: seq<Byte>, rest: nat)
    requires k < |vs|
    ensures var again' := if skip > 0 then Min(skip, |vs[k].content|) else again;
      var skip' := if skip > 0 then skip - again' else 0;
      var piece := Take(Drop(vs[k].content, again'), rest);
      && done + Take(Pending(vs[k..], skip, again), rest)
         == (done + piece) + Take(Pending(vs[k + 1..], skip', again'), rest - |piece|)
      && (again' == 0 ==> piece == Take(vs[k].content, rest))
  {
    hide Pending, Take, Drop;
    var again' := if skip > 0 then Min(skip, |vs[k].content|) else again;
    var skip' := if skip > 0 then skip - again' else 0;
    var piece := Take(Drop(vs[k].content, again'), rest);
    var later := Take(Pending(vs[k + 1..], skip', again'), rest - |piece|);
    PendingStep(vs, k, skip, again);
    DropZero(vs[k].content);
    TakeAppend(Drop(vs[k].content, again'), Pending(vs[k + 1..], skip', again'), rest);
    assert done + (piece + later) == (done + piece) + later;
  }

  lemma DropZero(s: seq<Byte>)
    ensures Drop(s, 0) == s
  {
  }

  lemma SkipStart(vs: seq<View>, skip: nat, n: nat, was: seq<Byte>, at: nat)
    requires at + n <= |was|
    ensures [] + Take(Pending(vs[0..], skip, 0), n) == Take(Skipped(vs, skip), n)
    ensures Splice(was, at, []) == was
  {
    assert vs[0..] == vs;
  }

  lemma SkipEnd(vs: seq<View>, skip: nat, again: nat, rest: nat, done: seq<Byte>)
    requires vs == [] || rest == 0
    ensures done + Take(Pending(vs, skip, again), rest) == done
  {
  }

  // When the promise is kept.

  /** The same list with other bytes in it. */
  ghost predicate SameSizes(vs: seq<View>, ws: seq<View>) {
    |vs| == |ws| && forall i :: 0 <= i < |vs| ==>
      |ws[i].content| == |vs[i].content| && ws[i].offset == vs[i].offset && ws[i].capacity == vs[i].capacity
  }

  /**
   * The fragment where the skip ends is the last, or holds all that is asked for. Only the sizes
   * of the fragments matter.
   */
  predicate Faithful(vs: seq<View>, skip: nat, n: nat) {
    if vs == [] || skip == 0 then true
    else if skip > |vs[0].content| then Faithful(vs[1..], skip - |vs[0].content|, n)
    else |vs| == 1 || n <= |vs[0].content| - skip
  }

  lemma TakeZero(a: seq<Byte>, b: seq<Byte>)
    ensures Take(a, 0) == Take(b, 0)
  {
  }

  lemma {:induction false} FaithfulCopies(vs: seq<View>, skip: nat, n: nat)
    requires Faithful(vs, skip, n)
    ensures Take(Skipped(vs, skip), n) == Promised(vs, skip, n)
  {
    if vs == [] {
    } else if skip == 0 {
      DropNothing(vs);
    } else if skip > |vs[0].content| {
      FaithfulCopies(vs[1..], skip - |vs[0].content|, n);
      assert Drop(Joined(vs), skip) == Drop(Joined(vs[1..]), skip - |vs[0].content|);
    } else {
      var tail := Drop(vs[0].content, skip);
      assert Drop(Joined(vs), skip) == tail + Joined(vs[1..]);
      assert |vs| == 1 ==> vs[1..] == [] && Joined(vs[1..]) == DropEach(vs[1..], skip) == [];
      assert Skipped(vs, skip) == tail + DropEach(vs[1..], skip);
      hide Joined, DropEach, Skipped, Take;
      TakeAppend(tail, Joined(vs[1..]), n);
      TakeAppend(tail, DropEach(vs[1..], skip), n);
      TakeZero(Joined(vs[1..]), DropEach(vs[1..], skip));
    }
  }

  /** The fragment with its bytes set to zero. */
  function Blank(v: View): View {
    v.(content := seq(|v.content|, _ => 0))
  }

  /** The fragment with its bytes set to zero but for the first. */
  function Marked(v: View): View
    requires v.content != []
  {
    v.(content := [1] + seq(|v.content| - 1, _ => 0))
  }

  lemma {:induction false} DropEachBlank(vs: seq<View>, k: nat)
    requires forall i :: 0 <= i < |vs| ==> forall b <- Drop(vs[i].content, k) :: b == 0
    ensures forall b <- DropEach(vs, k) :: b == 0
  {
    if vs != [] {
      DropEachBlank(vs[1..], k);
    }
  }

  /** All bytes zero but the first of the second fragment, which the copy passes over. */
  lemma MarkedWitness(vs: seq<View>, skip: nat, n: nat) returns (ws: seq<View>)
    requires |vs| >= 2 && vs[1].content != [] && 1 <= skip <= |vs[0].content| < n + skip
    ensures SameSizes(vs, ws)
    ensures Take(DropEach(ws, skip), n) != Promised(ws, skip, n)
  {
    var size := |vs[0].content|;
    ws := seq(|vs|, i requires 0 <= i < |vs| && vs[1].content != [] =>
      if i == 1 then Marked(vs[1]) else Blank(vs[i]));
    DropEachBlank(ws, skip);
    assert Joined(ws) == ws[0].content + (ws[1].content + Joined(ws[1..][1..]));
    assert Joined(ws)[size] == ws[1].content[0] == 1;
    assert Promised(ws, skip, n)[size - skip] == Joined(ws)[size];
    hide Joined, DropEach, Promised;
    var copied := Take(DropEach(ws, skip), n);
    if |copied| > size - skip {
      assert copied[size - skip] in DropEach(ws, skip);
    }
  }

  /** Where the copy is not faithful there are bytes it gets wrong. */
  lemma {:induction false} UnfaithfulWitness(vs: seq<View>, skip: nat, n: nat) returns (ws: seq<View>)
    requires forall v <- vs :: v.content != []
    requires !Faithful(vs, skip, n)
    ensures SameSizes(vs, ws) && Take(Skipped(ws, skip), n) != Promised(ws, skip, n)
  {
    var size := |vs[0].content|;
    if skip > size {
      var tail := UnfaithfulWitness(vs[1..], skip - size, n);
      ws := [vs[0]] + tail;
      assert ws[1..] == tail;
      assert Drop(Joined(ws), skip) == Drop(Joined(tail), skip - size);
    } else {
      ws := MarkedWitness(vs, skip, n);
      assert |ws[0].content| == size;
      assert Skipped(ws, skip) == DropEach(ws, skip);
    }
  }

  /**
   * The copy keeps its promise for all bytes the fragments could hold exactly when `Faithful`
   * holds of their sizes.
   */
  lemma SkipPromise(vs: seq<View>, skip: nat, n: nat)
    requires forall v <- vs :: v.content != []
    ensures (forall ws :: SameSizes(vs, ws) ==> Take(Skipped(ws, skip), n) == Promised(ws, skip, n))
            <==> Faithful(vs, skip, n)
  {
    if Faithful(vs, skip, n) {
      forall ws | SameSizes(vs, ws)
        ensures Take(Skipped(ws, skip), n) == Promised(ws, skip, n)
      {
        FaithfulBySizes(vs, ws, skip, n);
        FaithfulCopies(ws, skip, n);
      }
    } else {
      var ws := UnfaithfulWitness(vs, skip, n);
    }
  }

  lemma {:induction false} FaithfulBySizes(vs: seq<View>, ws: seq<View>, skip: nat, n: nat)
    requires SameSizes(vs, ws)
    ensures Faithful(vs, skip, n) == Faithful(ws, skip, n)
  {
    if vs != [] && skip > |vs[0].content| {
      FaithfulBySizes(vs[1..], ws[1..], skip - |vs[0].content|, n);
    }
  }

  /** Two full fragments of two bytes: skipping one byte also loses the third. */
  lemma SkipLosesByte()
    ensures var vs := [View(2, 0, [1, 2]), View(2, 0, [3, 4])];
      && Shaped(2, vs)
      && Promised(vs, 1, 3) == [2, 3, 4]
      && Take(Skipped(vs, 1), 3) == [2, 4]
  {
    var vs := [View(2, 0, [1, 2]), View(2, 0, [3, 4])];
    assert vs[1..] == [View(2, 0, [3, 4])] && vs[1..][1..] == [];
    assert Joined(vs) == [1, 2] + ([3, 4] + Joined([])) == [1, 2, 3, 4];
    assert Drop(vs[0].content, 1) == [2] && Drop(vs[1].content, 1) == [4];
    assert Skipped(vs, 1) == DropEach(vs, 1) == [2] + ([4] + DropEach([], 1)) == [2, 4];
  }
}
