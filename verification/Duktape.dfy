/** The part of the script engine the module registry is written against: a value stack and tables. */
module Duktape {

  datatype Value =
    | Undefined
    | Text(s: string)
    | Pointer(p: nat)      // 0 is the null pointer
    | Object(id: nat)      // a table or an enumerator in the heap
    | Foreign(tag: nat)    // any other script value, by identity

  /** The value stack. */
  datatype Stack = Bottom | Push(below: Stack, top: Value) {

    /** The stack holds at least `k` values. */
    predicate Has(k: nat)
      requires k <= 4
    {
      && (k >= 1 ==> Push?) && (k >= 2 ==> below.Push?)
      && (k >= 3 ==> below.below.Push?) && (k >= 4 ==> below.below.below.Push?)
    }

    /** The value at index `-k`, the top being -1. */
    function At(k: nat): Value
      requires 1 <= k <= 3 && Has(k)
    {
      if k == 1 then top else if k == 2 then below.top else below.below.top
    }
  }

  /** What an object identity stands for: own properties in enumeration order, or an enumeration. */
  datatype Cell =
    | Table(keys: seq<string>, vals: map<string, Value>)
    | Enumerator(target: nat, left: seq<string>)
  {
    function Put(key: string, val: Value): Cell
      requires Table?
    {
      Table(if key in vals then keys else keys + [key], vals[key := val])
    }

    function Get(key: string): Value
      requires Table?
    {
      if key in vals then vals[key] else Undefined
    }
  }

  const EMPTY := Table([], map[])
  /** The identity of the global object. */
  const GLOBAL: nat := 0

  predicate IsTable(heap: seq<Cell>, v: Value) {
    v.Object? && v.id < |heap| && heap[v.id].Table?
  }

  predicate IsEnum(heap: seq<Cell>, v: Value) {
    v.Object? && v.id < |heap| && heap[v.id].Enumerator? && heap[v.id].target < |heap| && heap[heap[v.id].target].Table?
  }

  class Context {
    var stack: Stack
    var heap: seq<Cell>
    /** The finalisers of objects, by identity. */
    var finalizers: map<nat, Value>

    method PushGlobalObject()
      modifies this`stack
      ensures stack == Push(old(stack), Object(GLOBAL))
    {
      stack := Push(stack, Object(GLOBAL));
    }

    method PushString(s: string)
      modifies this`stack
      ensures stack == Push(old(stack), Text(s))
    {
      stack := Push(stack, Text(s));
    }

    method PushPointer(p: nat)
      modifies this`stack
      ensures stack == Push(old(stack), Pointer(p))
    {
      stack := Push(stack, Pointer(p));
    }

    method PushValue(v: Value)
      modifies this`stack
      ensures stack == Push(old(stack), v)
    {
      stack := Push(stack, v);
    }

    /** Pushes a native function, known by its tag. */
    method PushFunction(tag: nat)
      modifies this`stack
      ensures stack == Push(old(stack), Foreign(tag))
    {
      stack := Push(stack, Foreign(tag));
    }

    method PushObject()
      modifies this`stack, this`heap
      ensures stack == Push(old(stack), Object(|old(heap)|)) && heap == old(heap) + [EMPTY]
    {
      stack, heap := Push(stack, Object(|heap|)), heap + [EMPTY];
    }

    method Pop(n: nat := 1)
      requires 1 <= n <= 4 && stack.Has(n)
      modifies this`stack
      ensures stack == match n
                       case 1 => old(stack).below
                       case 2 => old(stack).below.below
                       case 3 => old(stack).below.below.below
                       case _ => old(stack).below.below.below.below
    {
      stack := match n
      case 1 => stack.below
      case 2 => stack.below.below
      case 3 => stack.below.below.below
      case _ => stack.below.below.below.below;
    }

    method DupTop()
      requires stack.Push?
      modifies this`stack
      ensures stack == Push(old(stack), old(stack).top)
    {
      stack := Push(stack, stack.top);
    }

    function GetPointer(k: nat): nat
      requires 1 <= k <= 3 && stack.Has(k)
      reads this
    {
      if stack.At(k).Pointer? then stack.At(k).p else 0
    }

    /** `... -> ... val`, undefined if the object at index `-k` has no such property. */
    method GetPropString(k: nat, key: string) returns (found: bool)
      requires 1 <= k <= 3 && stack.Has(k) && IsTable(heap, stack.At(k))
      modifies this`stack
      ensures var obj := heap[old(stack).At(k).id];
        found == (key in obj.vals) && stack == Push(old(stack), obj.Get(key))
    {
      var obj := heap[stack.At(k).id];
      found := key in obj.vals;
      stack := Push(stack, obj.Get(key));
    }

    method GetGlobalString(key: string) returns (found: bool)
      requires GLOBAL < |heap| && heap[GLOBAL].Table?
      modifies this`stack
      ensures found == (key in heap[GLOBAL].vals) && stack == Push(old(stack), heap[GLOBAL].Get(key))
    {
      found := key in heap[GLOBAL].vals;
      stack := Push(stack, heap[GLOBAL].Get(key));
    }

    /** `... obj key val -> ... obj`. */
    method PutProp()
      requires stack.Has(3) && stack.At(2).Text? && IsTable(heap, stack.At(3))
      modifies this`stack, this`heap
      ensures stack == old(stack).below.below
      ensures heap == var id := old(stack).At(3).id;
                      old(heap)[id := old(heap)[id].Put(old(stack).At(2).s, old(stack).At(1))]
    {
      var id := stack.At(3).id;
      heap := heap[id := heap[id].Put(stack.At(2).s, stack.At(1))];
      stack := stack.below.below;
    }

    /** `... obj ... val -> ... obj ...` for the object at index `-k`. */
    method PutPropString(k: nat, key: string)
      requires 2 <= k <= 3 && stack.Has(k) && IsTable(heap, stack.At(k))
      modifies this`stack, this`heap
      ensures stack == old(stack).below
      ensures heap == var id := old(stack).At(k).id; old(heap)[id := old(heap)[id].Put(key, old(stack).At(1))]
    {
      var id := stack.At(k).id;
      heap := heap[id := heap[id].Put(key, stack.At(1))];
      stack := stack.below;
    }

    /** `... obj func -> ... obj`. */
    method SetFinalizer()
      requires stack.Has(2) && IsTable(heap, stack.At(2))
      modifies this`stack, this`finalizers
      ensures stack == old(stack).below
      ensures finalizers == old(finalizers)[old(stack).At(2).id := old(stack).top]
    {
      finalizers := finalizers[stack.At(2).id := stack.top];
      stack := stack.below;
    }

    method DelPropString(k: nat, key: string)
      requires 1 <= k <= 3 && stack.Has(k) && IsTable(heap, stack.At(k))
      modifies this`heap
      ensures |heap| == |old(heap)| && IsTable(heap, stack.At(k))
      ensures forall i :: 0 <= i < |heap| && i != stack.At(k).id ==> heap[i] == old(heap)[i]
      ensures heap[stack.At(k).id].vals == old(heap)[stack.At(k).id].vals - {key}
    {
      var id := stack.At(k).id;
      heap := heap[id := Table(Without(heap[id].keys, key), heap[id].vals - {key})];
    }

    /** `... -> ... enum`: an enumeration of the own properties of the object at index `-k`. */
    method Enum(k: nat)
      requires 1 <= k <= 3 && stack.Has(k) && IsTable(heap, stack.At(k))
      modifies this`stack, this`heap
      ensures stack == Push(old(stack), Object(|old(heap)|))
      ensures heap == old(heap) + [Enumerator(old(stack).At(k).id, old(heap)[old(stack).At(k).id].keys)]
    {
      var id := stack.At(k).id;
      stack, heap := Push(stack, Object(|heap|)), heap + [Enumerator(id, heap[id].keys)];
    }

    /** `... enum -> ... enum key val` while there are properties left, and then no change. */
    method Next() returns (more: bool)
      requires stack.Has(1) && IsEnum(heap, stack.top)
      modifies this`stack, this`heap
      ensures var id := old(stack).top.id;
        var left, target := old(heap)[id].left, old(heap)[id].target;
        && more == (left != [])
        && if more
           then && heap == old(heap)[id := Enumerator(target, left[1..])]
                && stack == Push(Push(old(stack), Text(left[0])), heap[target].Get(left[0]))
           else heap == old(heap) && stack == old(stack)
    {
      var id := stack.top.id;
      var left, target := heap[id].left, heap[id].target;
      more := left != [];
      if more {
        heap := heap[id := Enumerator(target, left[1..])];
        stack := Push(Push(stack, Text(left[0])), heap[target].Get(left[0]));
      }
    }
  }

  function Without(keys: seq<string>, key: string): seq<string> {
    if keys == [] then []
    else if keys[0] == key then Without(keys[1..], key)
    else [keys[0]] + Without(keys[1..], key)
  }
}
