/** `std::copy`: element by element, front to back, with what that does to overlapping windows. */
module Copying {
  import opened Sequences

  /** `n` elements copied one by one within one array, from position `from` to position `at`. */
  function Shifted<T>(s: seq<T>, from: nat, at: nat, n: nat): (r: seq<T>)
    requires from + n <= |s| && at + n <= |s|
    ensures |r| == |s|
  {
    if n == 0 then s
    else
      var r := Shifted(s, from, at, n - 1);
      r[at + n - 1 := r[from + n - 1]]
  }

  /** The destination starts strictly inside the source window. */
  predicate Overruns(from: nat, at: nat, n: nat) {
    from < at < from + n
  }

  /** The cell of the original array that ends up in cell `i` of the destination. */
  function Origin(from: nat, at: nat, i: nat): int
    requires i >= at
  {
    if from < at then from + (i - at) % (at - from) else from + (i - at)
  }

  lemma OriginStep(from: nat, at: nat, i: nat)
    requires i >= at
    ensures from >= at || i - at < at - from ==> Origin(from, at, i) == from + (i - at)
    ensures from < at && i - at >= at - from ==> Origin(from, at, i) == Origin(from, at, i - (at - from))
  {
    if from < at && i - at >= at - from {
      ModStep(i - at, at - from);
    }
  }

  lemma ModStep(x: nat, m: nat)
    requires 0 < m <= x
    ensures (x - m) % m == x % m
  {
    assert x - m == (x / m - 1) * m + x % m;
    ModUnique(x - m, m, x / m - 1, x % m);
  }

  lemma ModUnique(x: int, m: nat, q: int, r: nat)
    requires m > 0 && x == q * m + r && r < m
    ensures x % m == r
  {
    assert (q - x / m) * m == x % m - r;
    MultipleOf(q - x / m, m);
  }

  lemma MultipleOf(k: int, m: int)
    requires m > 0
    ensures k >= 1 ==> k * m >= m
    ensures k <= -1 ==> k * m <= -m
  {
  }

  /**
   * Where the copy runs into its own output, the stretch between the two starts repeats; elsewhere
   * it is the source. Cells outside the destination keep their value.
   */
  lemma {:induction false} ShiftedCell<T>(s: seq<T>, from: nat, at: nat, n: nat, i: nat)
    requires from + n <= |s| && at + n <= |s| && i < |s|
    ensures at <= i < at + n ==> 0 <= Origin(from, at, i) < from + n
    ensures Shifted(s, from, at, n)[i] == if at <= i < at + n then s[Origin(from, at, i)] else s[i]
  {
    if n > 0 {
      var last := at + n - 1;
      OriginStep(from, at, last);
      hide Origin;
      ShiftedCell(s, from, at, n - 1, i);
      ShiftedCell(s, from, at, n - 1, from + n - 1);
    }
  }

  /** A copy that does not overrun delivers the source and touches nothing else. */
  lemma {:induction false} ShiftedClean<T>(s: seq<T>, from: nat, at: nat, n: nat)
    requires from + n <= |s| && at + n <= |s|
    ensures var r := Shifted(s, from, at, n);
      && r[..at] == s[..at] && r[at + n..] == s[at + n..]
      && (!Overruns(from, at, n) ==> r == Splice(s, at, s[from..from + n]))
  {
    var r := Shifted(s, from, at, n);
    forall i | 0 <= i < |s|
      ensures !(at <= i < at + n) ==> r[i] == s[i]
      ensures at <= i < at + n && !Overruns(from, at, n) ==> r[i] == s[from + (i - at)]
    {
      ShiftedCell(s, from, at, n, i);
      if at <= i {
        OriginStep(from, at, i);
      }
    }
    if !Overruns(from, at, n) {
      assert r == Splice(s, at, s[from..from + n]);
    }
  }

  /** The cells of an array after `Copy` wrote the elements `d` into it from position `at` on. */
  function Written<T>(cells: seq<T>, same: bool, from: nat, at: nat, d: seq<T>): (r: seq<T>)
    requires at + |d| <= |cells| && (same ==> from + |d| <= |cells|)
    ensures |r| == |cells|
  {
    if same then Shifted(cells, from, at, |d|) else Splice(cells, at, d)
  }

  /** What a window shows after elements were written right behind its first `size`. */
  lemma {:induction false} WrittenBehind<T>(cells: seq<T>, same: bool, from: nat, pos: nat, size: nat, d: seq<T>)
    requires pos + size + |d| <= |cells| && (same ==> from + |d| <= |cells| && d == cells[from..from + |d|])
    ensures var at := pos + size;
      var r := Written(cells, same, from, at, d);
      && r[..at] == cells[..at] && r[at + |d|..] == cells[at + |d|..]
      && (!(same && Overruns(from, at, |d|)) ==> r[pos..at + |d|] == cells[pos..at] + d)
  {
    if same {
      ShiftedClean(cells, from, pos + size, |d|);
    }
  }

  /** What an array shows after elements were written from position `at` on. */
  lemma {:induction false} WrittenFront<T>(cells: seq<T>, same: bool, from: nat, at: nat, d: seq<T>)
    requires at + |d| <= |cells| && (same ==> from + |d| <= |cells| && d == cells[from..from + |d|])
    ensures var r := Written(cells, same, from, at, d);
      && r[..at] == cells[..at] && r[at + |d|..] == cells[at + |d|..]
      && (!(same && Overruns(from, at, |d|)) ==> r[at..at + |d|] == d)
  {
    if same {
      ShiftedClean(cells, from, at, |d|);
    }
  }

  lemma WrittenNext<T>(cells: seq<T>, same: bool, from: nat, at: nat, d: seq<T>, i: nat)
    requires at + |d| <= |cells| && (same ==> from + |d| <= |cells|) && i < |d|
    ensures Written(cells, same, from, at, d[..i + 1])
         == var r := Written(cells, same, from, at, d[..i]); r[at + i := if same then r[from + i] else d[i]]
  {
    assert d[..i + 1] == d[..i] + [d[i]];
  }

  lemma WrittenNothing<T>(cells: seq<T>, same: bool, from: nat, at: nat)
    requires at <= |cells| && (same ==> from <= |cells|)
    ensures Written(cells, same, from, at, []) == cells
  {
  }

  /** An array on which a copy that overruns fails: all `x` but for a `y` where it starts to overrun. */
  lemma {:induction false} OverrunWitness<T>(size: nat, from: nat, at: nat, n: nat, x: T, y: T) returns (s: seq<T>)
    requires from + n <= size && at + n <= size && x != y && Overruns(from, at, n)
    ensures |s| == size && Shifted(s, from, at, n)[at..at + n] != s[from..from + n]
  {
    s := seq(size, i => if i == at then y else x);
    var k := at - from;
    OriginStep(from, at, at + k);
    OriginStep(from, at, at);
    ShiftedCell(s, from, at, n, at + k);
    hide Shifted;
    assert Shifted(s, from, at, n)[at..at + n][k] == x;
    assert s[from..from + n][k] == y;
  }

  /**
   * The copy delivers the source whatever the array holds exactly when it does not overrun; `x` and
   * `y` are any two different elements.
   */
  lemma {:induction false} CopyFaithful<T(!new)>(size: nat, from: nat, at: nat, n: nat, x: T, y: T)
    requires from + n <= size && at + n <= size && x != y
    ensures (forall s: seq<T> :: |s| == size ==> Shifted(s, from, at, n)[at..at + n] == s[from..from + n])
            <==> !Overruns(from, at, n)
  {
    if Overruns(from, at, n) {
      var s := OverrunWitness(size, from, at, n, x, y);
    } else {
      forall s: seq<T> | |s| == size
        ensures Shifted(s, from, at, n)[at..at + n] == s[from..from + n]
      {
        ShiftedClean(s, from, at, n);
      }
    }
  }

  /** The copy loop; `moved` counts the assignments it makes. */
  method Copy<T>(src: array<T>, from: nat, n: nat, dst: array<T>, at: nat) returns (ghost moved: nat)
    requires from + n <= src.Length && at + n <= dst.Length
    modifies dst
    ensures moved == n
    ensures dst[..] == Written(old(dst[..]), src == dst, from, at, old(src[from..from + n]))
  {
    ghost var was, source := dst[..], src[from..from + n];
    assert source[..0] == [] && source[..n] == source;
    WrittenNothing(was, src == dst, from, at);
    hide Written;
    moved := 0;
    for i := 0 to n
      invariant moved == i
      invariant src != dst ==> src[from..from + n] == source
      invariant dst[..] == Written(was, src == dst, from, at, source[..i])
    {
      WrittenNext(was, src == dst, from, at, source, i);
      assert src[from + i] == if src == dst then dst[..][from + i] else source[i];
      dst[at + i] := src[from + i];
      moved := moved + 1;
    }
  }
}
