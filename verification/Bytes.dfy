/** Bytes, runs of bytes, and the memory copy the containers are built on. */
module Bytes {
  import opened Sequences

  /** One octet (`kg::byte_t`). */
  newtype Byte = x: int | 0 <= x < 256

  function Min(a: nat, b: nat): nat {
    if a < b then a else b
  }

  /** The concatenation of a list of byte strings. */
  function Flatten(ss: seq<seq<Byte>>): seq<Byte> {
    if ss == [] then [] else ss[0] + Flatten(ss[1..])
  }

  lemma Assoc(a: seq<Byte>, b: seq<Byte>, c: seq<Byte>)
    ensures (a + b) + c == a + (b + c)
  {
  }

  lemma CutAt(s: seq<Byte>, n: nat)
    requires n <= |s|
    ensures s[..n] + s[n..] == s
  {
  }

  lemma FlattenNone()
    ensures Flatten([]) == []
  {
  }

  lemma {:induction false} FlattenCons(x: seq<Byte>, ss: seq<seq<Byte>>)
    ensures Flatten([x] + ss) == x + Flatten(ss)
  {
    assert ([x] + ss)[1..] == ss;
  }

  lemma {:induction false} FlattenAppend(a: seq<seq<Byte>>, b: seq<seq<Byte>>)
    ensures Flatten(a + b) == Flatten(a) + Flatten(b)
  {
    if a == [] {
      assert a + b == b;
    } else {
      assert (a + b)[1..] == a[1..] + b;
      FlattenAppend(a[1..], b);
      assert a[0] + (Flatten(a[1..]) + Flatten(b)) == (a[0] + Flatten(a[1..])) + Flatten(b);
    }
  }

  lemma FlattenSnoc(a: seq<seq<Byte>>, x: seq<Byte>)
    ensures Flatten(a + [x]) == Flatten(a) + x
  {
    FlattenAppend(a, [x]);
    assert Flatten([x]) == x + Flatten([]) == x;
  }

  /** The first `n` bytes, or all of them. */
  function Take(s: seq<Byte>, n: nat): (r: seq<Byte>)
    ensures |r| == Min(n, |s|)
  {
    s[..Min(n, |s|)]
  }

  /** All but the first `n` bytes, or nothing. */
  function Drop(s: seq<Byte>, n: nat): seq<Byte> {
    s[Min(n, |s|)..]
  }

  lemma TakeAppend(a: seq<Byte>, b: seq<Byte>, n: nat)
    ensures Take(a + b, n) == Take(a, n) + Take(b, n - |Take(a, n)|)
  {
  }

  /** Taking no more than there is, into a block of just that size. */
  lemma TakeExact(s: seq<Byte>, n: nat, block: seq<Byte>)
    requires n == |block| <= |s|
    ensures Splice(block, 0, Take(s, n)) == s[..n] && Drop(s, n) == s[n..]
  {
  }

  /** A string cut after `n` bytes, or at its end. */
  lemma TakeDrop(s: seq<Byte>, front: seq<Byte>, back: seq<Byte>, n: nat)
    requires front + back == s && |front| <= n && (|front| == n || back == [])
    ensures front == Take(s, n) && back == Drop(s, n)
  {
  }

  /** Two adjacent writes are one. */
  lemma SpliceTwice(s: seq<Byte>, at: nat, a: seq<Byte>, b: seq<Byte>)
    requires at + |a| + |b| <= |s|
    ensures Splice(Splice(s, at, a), at + |a|, b) == Splice(s, at, a + b)
  {
  }

  /** A stretch of a stretch. */
  lemma TakeWithin(s: seq<Byte>, p: nat, q: nat, skip: nat, n: nat)
    requires p + skip <= q <= |s|
    ensures Take(Drop(s[p..q], skip), n) == s[p + skip..p + skip + Min(n, q - p - skip)]
  {
    var k := Min(n, q - p - skip);
    var t := s[p..q][skip..skip + k];
    assert forall i :: 0 <= i < k ==> t[i] == s[p + skip + i];
    assert Take(Drop(s[p..q], skip), n) == t;
  }

  lemma TakeFront(s: seq<Byte>, p: nat, q: nat, n: nat)
    requires p <= q <= |s|
    ensures Take(s[p..q], n) == s[p..p + Min(n, q - p)]
  {
    TakeWithin(s, p, q, 0, n);
    assert Drop(s[p..q], 0) == s[p..q];
  }

  lemma TakeNothing(s: seq<Byte>, skip: nat, n: nat, was: seq<Byte>, at: nat)
    requires skip >= |s| && at <= |was|
    ensures Take(Drop(s, skip), n) == [] && Splice(was, at, []) == was
  {
  }

  /** `memcpy` between two blocks that do not overlap. */
  method MemCopy(src: array<Byte>, from: nat, dst: array<Byte>, at: nat, n: nat)
    requires src != dst
    requires from + n <= src.Length && at + n <= dst.Length
    modifies dst
    ensures dst[..] == Splice(old(dst[..]), at, src[from..from + n])
  {
    forall i | 0 <= i < n {
      dst[at + i] := src[from + i];
    }
  }
}
