/** Go-style slices: windows on shared arrays (`kg::slice_impl`). */
module Slices {
  import opened Copying
  import opened Options
  import opened Sequences

  /** A window of `size` elements from cell `pos` on, that may grow to `capacity` in place. */
  datatype Slice<T> = Slice(arr: array?<T>, pos: nat, size: nat, capacity: nat) {

    /** The window reaches to the end of its array; without an array there is no window. */
    ghost predicate Valid() {
      && size <= capacity
      && (if arr == null then pos == capacity == 0 else pos + capacity == arr.Length)
    }

    ghost function View(): seq<T>
      requires Valid()
      reads arr
    {
      if arr == null then [] else arr[pos..pos + size]
    }

    /** The element at index `i`; `None` stands for the range error. */
    function At(i: nat): (r: Option<T>)
      requires Valid()
      reads arr
      ensures r == if i < size then Some(View()[i]) else None
    {
      if i >= size then None else Some(arr[i + pos])
    }

    /** The sub-slice from `begin` on; `None` stands for the range error. */
    function RangeFrom(begin: nat): (r: Option<Slice<T>>)
      requires Valid()
      ensures r.Some? <==> begin <= size
      ensures r.Some? ==> r.value.Valid()
    {
      if begin > size then None
      else Some(Slice(arr, pos + begin, size - begin, capacity - begin))
    }

    /** The sub-slice between two positions, which may reach beyond the size up to the capacity. */
    function Range(begin: nat, end: nat): (r: Option<Slice<T>>)
      requires Valid()
      ensures r.Some? <==> begin <= capacity
      ensures r.Some? ==> r.value.Valid()
    {
      if begin > capacity then None
      else
        var end' := if end > capacity then capacity else end;
        Some(Slice(arr, pos + begin, if begin < end' then end' - begin else 0, capacity - begin))
    }
  }

  /** The comparison `equal`: the capacities are not compared. */
  predicate Equal<T>(l: Slice<T>, r: Slice<T>) {
    l.arr == r.arr && l.size == r.size && l.pos == r.pos
  }

  /** Slices found equal are the same slice: their capacities agree although nobody compares them. */
  lemma EqualIsSame<T>(l: Slice<T>, r: Slice<T>)
    requires l.Valid() && r.Valid()
    ensures Equal(l, r) <==> l == r
  {
  }

  /** A sub-slice of a sub-slice is a sub-slice; the inner end does not matter. */
  lemma RangeComposes<T>(s: Slice<T>, a: nat, b: nat, c: nat, d: nat)
    requires s.Valid() && a <= s.capacity
    ensures s.Range(a, b).value.Range(c, d) == s.Range(a + c, a + d)
  {
  }

  lemma RangeFromComposes<T>(s: Slice<T>, a: nat, b: nat)
    requires s.Valid() && a <= s.size
    ensures s.RangeFrom(a).value.RangeFrom(b) == s.RangeFrom(a + b)
  {
  }

  lemma SubSeq<T>(s: seq<T>, p: nat, q: nat, a: nat, b: nat)
    requires a <= b && p + b <= q <= |s|
    ensures s[p..q][a..b] == s[p + a..p + b]
  {
    var t := s[p..q];
    assert forall k :: 0 <= k < b - a ==> t[a..b][k] == t[a + k] == s[p + a + k];
  }

  /** Within the size a sub-slice shows the part of the view it names. */
  lemma RangeShows<T>(s: Slice<T>, a: nat, b: nat)
    requires s.Valid() && a <= b <= s.size
    ensures s.Range(a, b).value.View() == s.View()[a..b]
    ensures s.RangeFrom(a).value == s.Range(a, s.size).value
  {
    if s.arr != null {
      SubSeq(s.arr[..], s.pos, s.pos + s.size, a, b);
      assert s.Range(a, b).value.View() == s.arr[..][s.pos + a..s.pos + b];
    }
  }

  /**
   * What a sub-slice shows, also beyond the size: the cells between the two positions, an end beyond the
   * capacity standing for the capacity. It may grow to where the slice itself may grow.
   */
  lemma RangeCells<T>(s: Slice<T>, a: nat, b: nat)
    requires s.Valid() && a <= s.capacity
    ensures var r, end := s.Range(a, b).value, if b < s.capacity then b else s.capacity;
      && r.arr == s.arr && r.pos == s.pos + a && r.pos + r.capacity == s.pos + s.capacity
      && r.size == (if a < end then end - a else 0)
      && (a < end ==> r.View() == s.arr[s.pos + a..s.pos + end])
      && (end <= a ==> r.View() == [])
  {
  }

  // Growth.

  function Doubled(capacity: nat): nat {
    if capacity != 0 then capacity * 2 else 1
  }

  /** The capacity after an append that needs room for `need` elements. */
  function Grown(capacity: nat, need: nat): nat {
    if capacity >= need then capacity
    else if Doubled(capacity) < need then need
    else Doubled(capacity)
  }

  /**
   * What does not fit doubles the capacity if that is enough, and else makes room for just what is
   * needed. The special case for capacity 0 makes no difference.
   */
  lemma GrownRule(capacity: nat, need: nat)
    ensures need <= capacity ==> Grown(capacity, need) == capacity
    ensures capacity < need <= 2 * capacity ==> Grown(capacity, need) == 2 * capacity
    ensures need > capacity && need > 2 * capacity ==> Grown(capacity, need) == need
  {
  }

  /** `r` is `s` grown by `n` elements, at the cost of moving `moved` elements to a larger array. */
  predicate GrownBy<T>(s: Slice<T>, r: Slice<T>, n: nat, moved: nat) {
    && r.size == s.size + n && r.capacity == Grown(s.capacity, r.size)
    && moved == if s.capacity >= r.size then 0 else s.size
  }

  method Make<T(0)>(size: nat := 0, capacity: nat := 0) returns (s: Slice<T>)
    ensures s.Valid() && s.pos == 0 && s.size == size && s.capacity == if capacity < size then size else capacity
    ensures (s.arr == null <==> s.capacity == 0) && (s.arr != null ==> fresh(s.arr))
  {
    var room := if capacity < size then size else capacity;
    if room != 0 {
      var arr := new T[room];
      s := Slice(arr, 0, size, room);
    } else {
      s := Slice(null, 0, size, room);
    }
  }

  /**
   * In a window that does not start its array, writing cell `size` makes the longer window show the
   * element appended only if it was there already and the write does not disturb the window.
   */
  predicate LandsRight<T(==)>(cells: seq<T>, pos: nat, size: nat, val: T)
    requires pos + size < |cells|
  {
    pos == 0 || (cells[pos + size] == val && (size < pos || cells[size] == val))
  }

  /** The longer window shows the old window and `val` once cell `size` holds `val`. */
  predicate ShowsAppended<T(==)>(cells: seq<T>, pos: nat, size: nat, val: T)
    requires pos + size < |cells|
  {
    cells[size := val][pos..pos + size + 1] == cells[pos..pos + size] + [val]
  }

  lemma AppendOneShows<T>(cells: seq<T>, pos: nat, size: nat, val: T)
    requires pos + size < |cells|
    ensures ShowsAppended(cells, pos, size, val) <==> LandsRight(cells, pos, size, val)
  {
    var after, want := cells[size := val][pos..pos + size + 1], cells[pos..pos + size] + [val];
    if after == want {
      assert after[size] == val;
      if pos != 0 && size >= pos {
        assert after[size - pos] == val;
        assert want[size - pos] == cells[size];
      }
    }
  }

  /**
   * Appending one element in place keeps its promise, whatever the array holds and whatever is
   * appended, exactly for windows that start their array; `x` and `y` are any two different elements.
   */
  lemma AppendOnePromise<T(!new)>(length: nat, pos: nat, size: nat, x: T, y: T)
    requires pos + size < length && x != y
    ensures (forall cells: seq<T>, val: T :: |cells| == length ==> ShowsAppended(cells, pos, size, val))
            <==> pos == 0
  {
    if pos == 0 {
      forall cells: seq<T>, val: T | |cells| == length
        ensures ShowsAppended(cells, pos, size, val)
      {
        AppendOneShows(cells, pos, size, val);
      }
    } else {
      var cells := seq(length, _ => x);
      AppendOneShows(cells, pos, size, y);
      assert !ShowsAppended(cells, pos, size, y);
    }
  }

  /**
   * Appends one element. With room left, the cell written is the one numbered `size` in the array,
   * whatever the position of the window. `moved` counts the elements moved to a larger array.
   */
  method AppendOne<T(0)>(s: Slice<T>, val: T) returns (r: Slice<T>, ghost moved: nat)
    requires s.Valid()
    modifies if s.capacity > s.size then {s.arr} else {}
    ensures r.Valid() && GrownBy(s, r, 1, moved)
    ensures s.capacity > s.size ==>
      && r.arr == s.arr && r.pos == s.pos && s.arr[..] == old(s.arr[..])[s.size := val]
      && (r.View() == old(s.View()) + [val] <==> LandsRight(old(s.arr[..]), s.pos, s.size, val))
    ensures s.capacity == s.size ==> fresh(r.arr) && r.pos == 0 && r.View() == old(s.View()) + [val]
  {
    hide Written, Shifted, Splice;
    moved := 0;
    if s.capacity > s.size {
      AppendOneShows(s.arr[..], s.pos, s.size, val);
      s.arr[s.size] := val;
      r := Slice(s.arr, s.pos, s.size + 1, s.capacity);
    } else {
      var capacity := if s.capacity != 0 then s.capacity * 2 else 1;
      var dist := new T[capacity];
      ghost var view := s.View();
      if s.arr != null {
        WrittenFront(dist[..], false, s.pos, 0, view);
        moved := Copy(s.arr, s.pos, s.size, dist, 0);
      }
      assert dist[..][0..s.size] == view;
      dist[s.size] := val;
      r := Slice(dist, 0, s.size + 1, capacity);
      assert dist[0..s.size + 1] == dist[..][0..s.size] + [val];
    }
  }

  /** The slice in the middle of `[1, 2, 3]`: appending 9 overwrites its own element and shows the 3. */
  method AppendOneOverwrites() returns (s: Slice<int>, r: Slice<int>)
    ensures s.Valid() && r.Valid() && r.arr == s.arr
    ensures s.View() == [9] && r.View() == [9, 3]
  {
    var whole := Make(3, 3);
    whole.arr[0], whole.arr[1], whole.arr[2] := 1, 2, 3;
    s := whole.Range(1, 2).value;
    assert s.View() == [2];
    ghost var moved;
    r, moved := AppendOne(s, 9);
  }

  /**
   * Appends `n` elements of `src`, from cell `from` on. In place the copy must not run into cells it
   * has already written.
   */
  method AppendArray<T(0)>(s: Slice<T>, src: array?<T>, from: nat, n: nat)
    returns (r: Slice<T>, ghost moved: nat)
    requires s.Valid() && (n > 0 ==> src != null && from + n <= src.Length)
    modifies if s.capacity >= s.size + n && n > 0 then {s.arr} else {}
    ensures r.Valid() && GrownBy(s, r, n, moved)
    ensures s.capacity >= s.size + n ==> r.arr == s.arr && r.pos == s.pos
    ensures s.capacity < s.size + n ==>
      fresh(r.arr) && r.pos == 0 && r.View() == old(s.View()) + old(src[from..from + n])
    ensures s.capacity >= s.size + n && n == 0 ==> r.View() == old(s.View())
    ensures s.capacity >= s.size + n && n > 0 ==>
      && s.arr[..] == Written(old(s.arr[..]), src == s.arr, from, s.pos + s.size, old(src[from..from + n]))
      && s.arr[..s.pos + s.size] == old(s.arr[..s.pos + s.size])
      && s.arr[s.pos + r.size..] == old(s.arr[s.pos + r.size..])
      && (!(src == s.arr && Overruns(from, s.pos + s.size, n)) ==>
            r.View() == old(s.View()) + old(src[from..from + n]))
  {
    hide Written, Shifted, Splice;
    var newSize := s.size + n;
    if s.capacity >= newSize {
      if n > 0 {
        WrittenBehind(s.arr[..], src == s.arr, from, s.pos, s.size, src[from..from + n]);
        ghost var before := s.View();
        assert before == s.arr[..][s.pos..s.pos + s.size];
        var _ := Copy(src, from, n, s.arr, s.pos + s.size);
        assert s.arr[s.pos..s.pos + newSize] == s.arr[..][s.pos..s.pos + newSize];
      }
      r, moved := Slice(s.arr, s.pos, newSize, s.capacity), 0;
    } else {
      r, moved := Reallocate(s, src, from, n);
    }
  }

  /** The part of an append that moves the elements to a larger array. */
  method Reallocate<T(0)>(s: Slice<T>, src: array<T>, from: nat, n: nat) returns (r: Slice<T>, ghost moved: nat)
    requires s.Valid() && s.capacity < s.size + n && from + n <= src.Length
    ensures r.Valid() && GrownBy(s, r, n, moved)
    ensures fresh(r.arr) && r.pos == 0 && r.View() == s.View() + src[from..from + n]
  {
    var capacity := if s.capacity != 0 then s.capacity * 2 else 1;
    if capacity < s.size + n {
      capacity := s.size + n;
    }
    hide Written, Shifted, Splice;
    var dist := new T[capacity];
    ghost var view, d := s.View(), src[from..from + n];
    if s.arr != null {
      WrittenFront(dist[..], false, s.pos, 0, view);
      moved := Copy(s.arr, s.pos, s.size, dist, 0);
    } else {
      moved := 0;
    }
    assert dist[..][0..s.size] == view;
    WrittenBehind(dist[..], false, from, 0, s.size, d);
    var _ := Copy(src, from, n, dist, s.size);
    r := Slice(dist, 0, s.size + n, capacity);
  }

  /** Appending `t` to `s` in place reads cells already written. */
  predicate Clobbers<T>(s: Slice<T>, t: Slice<T>) {
    s.capacity >= s.size + t.size && s.arr == t.arr && Overruns(t.pos, s.pos + s.size, t.size)
  }

  /** Appends the elements of another slice, which may share the array. */
  method AppendSlice<T(0)>(s: Slice<T>, t: Slice<T>) returns (r: Slice<T>, ghost moved: nat)
    requires s.Valid() && t.Valid()
    modifies if s.capacity >= s.size + t.size && t.size > 0 then {s.arr} else {}
    ensures r.Valid() && GrownBy(s, r, t.size, moved)
    ensures s.capacity >= s.size + t.size ==> r.arr == s.arr && r.pos == s.pos
    ensures s.capacity < s.size + t.size ==> fresh(r.arr) && r.pos == 0
    ensures !Clobbers(s, t) ==> r.View() == old(s.View()) + old(t.View())
    ensures Clobbers(s, t) ==> s.arr[..] == Shifted(old(s.arr[..]), t.pos, s.pos + s.size, t.size)
    ensures t.size > 0 && s.capacity >= s.size + t.size ==>
      && s.arr[..s.pos + s.size] == old(s.arr[..s.pos + s.size])
      && s.arr[s.pos + r.size..] == old(s.arr[s.pos + r.size..])
  {
    hide Splice, Shifted;
    if t.size > 0 {
      r, moved := AppendArray(s, t.arr, t.pos, t.size);
    } else {
      r, moved := AppendArray(s, null, 0, 0);
      assert old(t.View()) == [] && old(s.View()) + [] == old(s.View());
    }
  }

  /** Overwrites the front of the window with up to `n` elements of `src`. */
  method CopyFromArray<T>(s: Slice<T>, src: array<T>, from: nat, n: nat) returns (min: nat)
    requires s.Valid() && from + n <= src.Length
    modifies if s.size > 0 && n > 0 then {s.arr} else {}
    ensures min == if s.size < n then s.size else n
    ensures min > 0 ==>
      && s.arr[..] == Written(old(s.arr[..]), src == s.arr, from, s.pos, old(src[from..from + min]))
      && s.arr[..s.pos] == old(s.arr[..s.pos]) && s.arr[s.pos + min..] == old(s.arr[s.pos + min..])
      && (!(src == s.arr && Overruns(from, s.pos, min)) ==> s.View()[..min] == old(src[from..from + min]))
  {
    hide Written, Shifted, Splice, Overruns;
    min := if s.size < n then s.size else n;
    if min > 0 {
      ghost var cells, d := s.arr[..], src[from..from + min];
      WrittenFront(cells, src == s.arr, from, s.pos, d);
      var _ := Copy(src, from, min, s.arr, s.pos);
      SubSeq(s.arr[..], s.pos, s.pos + s.size, 0, min);
    }
  }

  /** Overwrites the front of the window with the elements of `t`, which may share the array. */
  method CopyFrom<T>(s: Slice<T>, t: Slice<T>) returns (min: nat)
    requires s.Valid() && t.Valid()
    modifies if s.size > 0 && t.size > 0 then {s.arr} else {}
    ensures min == if s.size < t.size then s.size else t.size
    ensures min > 0 ==>
      && s.arr[..s.pos] == old(s.arr[..s.pos]) && s.arr[s.pos + min..] == old(s.arr[s.pos + min..])
      && (s.arr == t.arr ==> s.arr[..] == Shifted(old(s.arr[..]), t.pos, s.pos, min))
      && (!(s.arr == t.arr && Overruns(t.pos, s.pos, min)) ==> s.View()[..min] == old(t.View())[..min])
  {
    hide Splice, Shifted;
    if s.size > 0 && t.size > 0 {
      min := CopyFromArray(s, t.arr, t.pos, t.size);
      assert old(t.View())[..min] == old(t.arr[t.pos..t.pos + min]);
    } else {
      min := 0;
    }
  }
}
