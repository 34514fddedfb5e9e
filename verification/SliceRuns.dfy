/** Slices built by a chain of appends, each on the result of the one before. */
module SliceRuns {
  import opened Copying
  import opened Slices

  /** Something to append. */
  datatype Item<T> =
    | One(val: T)
    | Cells(src: array?<T>, from: nat, n: nat)   // elements of an array
    | Whole(t: Slice<T>)                         // another slice
    | Part(a: nat, b: nat)                       // a sub-slice of the slice being built
  {
    /** What is asked of an item that is appended to a slice of `size` elements. */
    ghost predicate Fits(size: nat) {
      match this
      case One(_) => true
      case Cells(src, from, n) => n > 0 ==> src != null && from + n <= src.Length
      case Whole(t) => t.Valid()
      case Part(a, b) => a <= b <= size
    }

    /** How many elements it adds. */
    function Count(): nat {
      match this
      case One(_) => 1
      case Cells(_, _, n) => n
      case Whole(t) => t.size
      case Part(a, b) => if a <= b then b - a else 0
    }

    ghost function Footprint(): set<object> {
      match this
      case Cells(src, _, _) => if src == null then {} else {src}
      case Whole(t) => if t.arr == null then {} else {t.arr}
      case _ => {}
    }

    /** The elements it adds to a slice that shows `view`. */
    ghost function Elements(view: seq<T>): (r: seq<T>)
      requires Fits(|view|)
      reads Footprint()
      ensures |r| == Count()
    {
      match this
      case One(val) => [val]
      case Cells(src, from, n) => if n == 0 then [] else src[from..from + n]
      case Whole(t) => t.View()
      case Part(a, b) => view[a..b]
    }
  }

  function Lengths<T>(items: seq<Item<T>>): (r: seq<nat>)
    ensures |r| == |items|
  {
    if items == [] then [] else Lengths(items[..|items| - 1]) + [items[|items| - 1].Count()]
  }

  /** Every item fits the slice built from those before it. */
  ghost predicate AllFit<T>(items: seq<Item<T>>) {
    items != [] ==>
      var last := |items| - 1;
      AllFit(items[..last]) && items[last].Fits(Appends(Lengths(items[..last])).size)
  }

  ghost function Footprints<T>(items: seq<Item<T>>): set<object> {
    set item, o | item in items && o in item.Footprint() :: o
  }

  /** Everything appended, in order. */
  ghost function Shown<T>(items: seq<Item<T>>): (r: seq<T>)
    requires AllFit(items)
    reads Footprints(items)
    ensures |r| == Appends(Lengths(items)).size
  {
    if items == [] then []
    else
      var last := |items| - 1;
      assert items[last] in items;
      assert forall item <- items[..last] :: item in items;
      var view := Shown(items[..last]);
      view + items[last].Elements(view)
  }

  // The cost of a chain.

  /** Size and capacity of the last slice, and the elements moved to larger arrays so far. */
  datatype Chain = Chain(size: nat, capacity: nat, moved: nat) {

    function Append(n: nat): Chain {
      Chain(size + n, Grown(capacity, size + n), if capacity >= size + n then moved else moved + size)
    }
  }

  /** A chain from the empty slice that appends `lengths[0]`, `lengths[1]`, ... elements. */
  function Appends(lengths: seq<nat>): Chain {
    if lengths == [] then Chain(0, 0, 0)
    else Appends(lengths[..|lengths| - 1]).Append(lengths[|lengths| - 1])
  }

  /** All reallocations of a chain together move no more elements than the final array has cells. */
  lemma {:induction false} AmortizedGrowth(lengths: seq<nat>)
    ensures var c := Appends(lengths);
      && c.moved <= c.capacity && c.size <= c.capacity
      && (c.size > 0 ==> c.capacity < 2 * c.size)
      && (c.size == 0 ==> c.capacity == 0)
  {
    if lengths != [] {
      AmortizedGrowth(lengths[..|lengths| - 1]);
    }
  }

  function Pow2(k: nat): (r: nat)
    ensures r >= 1
  {
    if k == 0 then 1 else 2 * Pow2(k - 1)
  }

  /** Appended to the empty slice, `n` elements get just the room they need, and none is moved. */
  lemma OneAppend(n: nat)
    ensures Appends([n]) == Chain(n, n, 0)
  {
    assert [n][..0] == [];
    assert Appends([n]) == Appends([]).Append(n);
  }

  /**
   * Appended one by one, `n` elements end up in an array of the least power of two that holds them, and
   * one element less than that has been moved to larger arrays.
   */
  lemma {:induction false} OneByOne(n: nat) returns (k: nat)
    requires n > 0
    ensures var c := Appends(seq(n, _ => 1));
      && c == Chain(n, Pow2(k), Pow2(k) - 1)
      && n <= Pow2(k) < 2 * n
  {
    assert seq(n, _ => 1)[..n - 1] == seq(n - 1, _ => 1);
    var before := Appends(seq(n - 1, _ => 1));
    assert Appends(seq(n, _ => 1)) == before.Append(1);
    hide Appends;
    if n == 1 {
      k := 0;
    } else {
      k := OneByOne(n - 1);
      if Pow2(k) < n {
        k := k + 1;
      }
    }
  }

  lemma {:induction false} CountNext<T>(items: seq<Item<T>>)
    ensures Appends(Lengths(items))
         == if items == [] then Chain(0, 0, 0)
            else Appends(Lengths(items[..|items| - 1])).Append(items[|items| - 1].Count())
  {
    if items != [] {
      assert Lengths(items)[..|items| - 1] == Lengths(items[..|items| - 1]);
    }
  }

  /** Appends one item, of whatever kind. */
  method AppendItem<T(0)>(s: Slice<T>, item: Item<T>) returns (r: Slice<T>, ghost moved: nat)
    requires s.Valid() && s.pos == 0 && item.Fits(s.size)
    requires s.arr != null ==> s.arr !in item.Footprint()
    modifies if s.arr == null then {} else {s.arr}
    ensures r.Valid() && r.pos == 0 && GrownBy(s, r, item.Count(), moved)
    ensures r.arr == s.arr || fresh(r.arr)
    ensures r.View() == old(s.View()) + old(item.Elements(s.View()))
  {
    hide Written, Shifted, ShowsAppended, Appends, Lengths;
    match item
    case One(val) =>
      r, moved := AppendOne(s, val);
    case Cells(src, from, n) =>
      r, moved := AppendArray(s, src, from, n);
    case Whole(t) =>
      r, moved := AppendSlice(s, t);
    case Part(a, b) =>
      RangeShows(s, a, b);
      r, moved := AppendSlice(s, s.Range(a, b).value);
  }

  /**
   * A chain of appends from the empty slice, single ones and parts of itself included: the last
   * slice shows everything appended, and the elements moved to larger arrays on the way are at most
   * its capacity, which is below twice its size.
   */
  method AppendAll<T(0)>(items: seq<Item<T>>) returns (r: Slice<T>, ghost moved: nat)
    requires AllFit(items)
    ensures r.Valid() && r.pos == 0 && (r.arr != null ==> fresh(r.arr))
    ensures r.View() == old(Shown(items))
    ensures Chain(r.size, r.capacity, moved) == Appends(Lengths(items))
    ensures moved <= r.capacity && (if r.size > 0 then r.capacity < 2 * r.size else r.capacity == 0)
  {
    CountNext(items);
    AmortizedGrowth(Lengths(items));
    hide Appends, Lengths;
    if items == [] {
      r := Make();
      moved := 0;
    } else {
      var last := |items| - 1;
      ghost var view := Shown(items[..last]);
      ghost var added := items[last].Elements(view);
      assert AllFit(items[..last]) && items[last].Fits(|view|) && Shown(items) == view + added;
      hide Shown, AllFit, Slice.View, Item.Elements;
      r, moved := AppendAll(items[..last]);
      assert items[last].Elements(r.View()) == added;
      ghost var more;
      r, more := AppendItem(r, items[last]);
      moved := moved + more;
    }
  }
}
