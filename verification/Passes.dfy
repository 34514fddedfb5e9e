/**
 * A pass over arrays, front to back: each element written is made of an element read and of three key
 * elements, read anew each time. What it reads may lie in the array it writes.
 */
module Passes {
  import opened Sequences

  const KEY_LEN: nat := 3

  /** Makes an element of the one read and the key. */
  type Maker<!T> = (T, T, T, T) -> T

  /** Where a pass reads and writes, and whether it reads from the array it writes. */
  datatype Course = Course(from: nat, fromSame: bool, key: nat, keySame: bool, at: nat)

  /** The arrays have room for `n` elements: the one read, the one with the key, the one written. */
  ghost predicate Fits<T>(c: seq<T>, k: seq<T>, was: seq<T>, w: Course, n: nat) {
    && w.from + n <= |c| && w.key + KEY_LEN <= |k| && w.at + n <= |was|
    && (w.fromSame ==> c == was) && (w.keySame ==> k == was)
  }

  /** What is made of element `i`. */
  function Made<T>(c: seq<T>, k: seq<T>, w: Course, i: nat, f: Maker<T>): T
    requires w.from + i < |c| && w.key + KEY_LEN <= |k|
  {
    f(c[w.from + i], k[w.key], k[w.key + 1], k[w.key + 2])
  }

  /** The array written, once it holds `n` elements. */
  function Passed<T>(c: seq<T>, k: seq<T>, was: seq<T>, w: Course, n: nat, f: Maker<T>): (r: seq<T>)
    requires Fits(c, k, was, w, n)
    ensures |r| == |was|
  {
    if n == 0 then was
    else
      var r := Passed(c, k, was, w, n - 1, f);
      r[w.at + n - 1 := MadeNow(c, k, r, w, n - 1, f)]
  }

  /** The same, the array written being `r` by now. */
  function MadeNow<T>(c: seq<T>, k: seq<T>, r: seq<T>, w: Course, i: nat, f: Maker<T>): T
    requires w.from + i < |c| && w.key + KEY_LEN <= |k|
    requires (w.fromSame ==> |c| == |r|) && (w.keySame ==> |k| == |r|)
  {
    Made(if w.fromSame then r else c, if w.keySame then r else k, w, i, f)
  }

  lemma PassedNone<T>(c: seq<T>, k: seq<T>, was: seq<T>, w: Course, f: Maker<T>)
    requires Fits(c, k, was, w, 0)
    ensures Passed(c, k, was, w, 0, f) == was
  {
  }

  lemma PassedNext<T>(c: seq<T>, k: seq<T>, was: seq<T>, w: Course, i: nat, f: Maker<T>)
    requires Fits(c, k, was, w, i + 1)
    ensures Fits(c, k, was, w, i)
    ensures var r := Passed(c, k, was, w, i, f);
      Passed(c, k, was, w, i + 1, f) == r[w.at + i := MadeNow(c, k, r, w, i, f)]
  {
  }

  /** Cells not written yet keep their value. */
  lemma {:induction false} PassedKeeps<T>(c: seq<T>, k: seq<T>, was: seq<T>, w: Course, n: nat, f: Maker<T>, p: nat)
    requires Fits(c, k, was, w, n) && p < |was| && !Wrote(w, n, p)
    ensures Passed(c, k, was, w, n, f)[p] == was[p]
  {
    if n > 0 {
      PassedKeeps(c, k, was, w, n - 1, f, p);
    }
  }

  /** What is written stays. */
  lemma {:induction false} PassedCell<T>(c: seq<T>, k: seq<T>, was: seq<T>, w: Course, n: nat, f: Maker<T>, i: nat)
    requires Fits(c, k, was, w, n) && i < n
    ensures Passed(c, k, was, w, n, f)[w.at + i] == MadeNow(c, k, Passed(c, k, was, w, i, f), w, i, f)
  {
    if i < n - 1 {
      PassedCell(c, k, was, w, n - 1, f, i);
    }
  }

  /** Cell `p` is among the first `i` written. */
  predicate Wrote(w: Course, i: nat, p: nat) {
    w.at <= p < w.at + i
  }

  /** Element `i` is made of a cell written before. */
  predicate Late(w: Course, i: nat) {
    || (w.fromSame && Wrote(w, i, w.from + i))
    || (w.keySame && (Wrote(w, i, w.key) || Wrote(w, i, w.key + 1) || Wrote(w, i, w.key + 2)))
  }

  /** An element that is not late is made of the arrays as they were. */
  lemma MadeInTime<T>(c: seq<T>, k: seq<T>, was: seq<T>, w: Course, n: nat, f: Maker<T>, i: nat)
    requires Fits(c, k, was, w, n) && i < n && !Late(w, i)
    ensures Passed(c, k, was, w, n, f)[w.at + i] == Made(c, k, w, i, f)
  {
    PassedCell(c, k, was, w, n, f, i);
    if w.fromSame {
      PassedKeeps(c, k, was, w, i, f, w.from + i);
    }
    if w.keySame {
      PassedKeeps(c, k, was, w, i, f, w.key);
      PassedKeeps(c, k, was, w, i, f, w.key + 1);
      PassedKeeps(c, k, was, w, i, f, w.key + 2);
    }
  }

  /** A pass with no late element delivers what is made of the arrays as they were, and changes nothing else. */
  lemma PassedClean<T>(c: seq<T>, k: seq<T>, was: seq<T>, w: Course, n: nat, f: Maker<T>, d: seq<T>)
    requires Fits(c, k, was, w, n) && forall i :: 0 <= i < n ==> !Late(w, i)
    requires |d| == n && forall i :: 0 <= i < n ==> d[i] == Made(c, k, w, i, f)
    ensures Passed(c, k, was, w, n, f) == Splice(was, w.at, d)
  {
    var r := Passed(c, k, was, w, n, f);
    hide Passed, Made;
    forall p | 0 <= p < |was|
      ensures r[p] == Splice(was, w.at, d)[p]
    {
      if Wrote(w, n, p) {
        MadeInTime(c, k, was, w, n, f, p - w.at);
      } else {
        PassedKeeps(c, k, was, w, n, f, p);
      }
    }
  }

  // What a late element is made of, in an array read and written.

  /** A window that differs in one element differs. */
  lemma Differs<T>(r: seq<T>, at: nat, n: nat, d: seq<T>, i: nat)
    requires at + n <= |r| && |d| == n && i < n && r[at + i] != d[i]
    ensures r[at..at + n] != d
  {
    assert r[at..at + n][i] == r[at + i];
  }

  /** The array's first element written lies where element `i` is read: that one is made of what was made first. */
  lemma LateElement<T>(c: seq<T>, w: Course, n: nat, f: Maker<T>, i: nat, d: seq<T>)
    requires Fits(c, c, c, w, n) && w.fromSame && w.keySame && 0 < i < n && w.from + i == w.at
    requires w.key + KEY_LEN <= w.at
    requires |d| == n && d[i] != f(Made(c, c, w, 0, f), c[w.key], c[w.key + 1], c[w.key + 2])
    ensures Passed(c, c, c, w, n, f)[w.at..w.at + n] != d
  {
    PassedCell(c, c, c, w, n, f, i);
    MadeInTime(c, c, c, w, i, f, 0);
    PassedKeeps(c, c, c, w, i, f, w.key);
    PassedKeeps(c, c, c, w, i, f, w.key + 1);
    PassedKeeps(c, c, c, w, i, f, w.key + 2);
    Differs(Passed(c, c, c, w, n, f), w.at, n, d, i);
  }

  /** The key element `p` once element `i` is written, if the key was whole before. */
  function Overrun<T>(c: seq<T>, w: Course, f: Maker<T>, i: nat, p: nat): T
    requires w.from + i < |c| && w.key + KEY_LEN <= |c| && p < |c|
  {
    if p == w.at + i then Made(c, c, w, i, f) else c[p]
  }

  lemma OverrunKey<T>(c: seq<T>, w: Course, n: nat, f: Maker<T>, i: nat, p: nat)
    requires Fits(c, c, c, w, n) && w.fromSame && w.keySame && i + 1 < n && !Late(w, i)
    requires w.key <= p < w.key + KEY_LEN
    ensures Passed(c, c, c, w, i + 1, f)[p] == Overrun(c, w, f, i, p)
  {
    hide Passed, Made;
    if p == w.at + i {
      MadeInTime(c, c, c, w, i + 1, f, i);
    } else {
      PassedKeeps(c, c, c, w, i + 1, f, p);
    }
  }

  lemma MadeOf<T>(s: seq<T>, w: Course, i: nat, f: Maker<T>)
    requires w.from + i < |s| && w.key + KEY_LEN <= |s|
    ensures Made(s, s, w, i, f) == f(s[w.from + i], s[w.key], s[w.key + 1], s[w.key + 2])
  {
  }

  /** The element written after one that overran part of the key. */
  lemma LateKey<T>(c: seq<T>, w: Course, n: nat, f: Maker<T>, i: nat, d: seq<T>)
    requires Fits(c, c, c, w, n) && w.fromSame && w.keySame && i + 1 < n
    requires !Late(w, i) && !Wrote(w, i + 1, w.from + i + 1)
    requires |d| == n && d[i + 1] !=
      f(c[w.from + i + 1], Overrun(c, w, f, i, w.key), Overrun(c, w, f, i, w.key + 1), Overrun(c, w, f, i, w.key + 2))
    ensures Passed(c, c, c, w, n, f)[w.at..w.at + n] != d
  {
    hide Passed, Made;
    PassedCell(c, c, c, w, n, f, i + 1);
    PassedKeeps(c, c, c, w, i + 1, f, w.from + i + 1);
    OverrunKey(c, w, n, f, i, w.key);
    OverrunKey(c, w, n, f, i, w.key + 1);
    OverrunKey(c, w, n, f, i, w.key + 2);
    MadeOf(Passed(c, c, c, w, i + 1, f), w, i + 1, f);
    Differs(Passed(c, c, c, w, n, f), w.at, n, d, i + 1);
  }
}
