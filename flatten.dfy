/** Deep list flattening (Dois.js): four implementations of one function that
    lists the non-array leaves of a nested array from left to right. */
module Flatten {
  import opened JsValue

  /** What one element contributes: an array its flattened contents, any
      other value itself */
  function Piece(x: Value): (r: seq<Value>)
    ensures forall i :: 0 <= i < |r| ==> !r[i].Arr?
    decreases x, 1
  {
    if x.Arr? then Flat(x.elems) else [x]
  }

  /** The non-array leaves of `a`, left to right, at any depth; no element of
      the result is an array */
  function Flat(a: seq<Value>): (r: seq<Value>)
    ensures forall i :: 0 <= i < |r| ==> !r[i].Arr?
    decreases a, 0
  {
    if a == [] then [] else Piece(a[0]) + Flat(a[1..])
  }

  /** Flattening distributes over concatenation */
  lemma {:induction false} FlatAppend(a: seq<Value>, b: seq<Value>)
    ensures Flat(a + b) == Flat(a) + Flat(b)
  {
    if a != [] {
      assert (a + b)[0] == a[0] && (a + b)[1..] == a[1..] + b;
      FlatAppend(a[1..], b);
    } else {
      assert a + b == b;
    }
  }

  /** Flattening a prefix one element longer appends that element's piece */
  lemma FlatSnoc(a: seq<Value>, i: nat)
    requires i < |a|
    ensures Flat(a[..i + 1]) == Flat(a[..i]) + Piece(a[i])
  {
    assert a[..i + 1] == a[..i] + [a[i]];
    FlatAppend(a[..i], [a[i]]);
  }

  /** The number of non-array leaves of `a`, at any depth */
  function LeafCount(a: seq<Value>): nat
    decreases a
  {
    if a == [] then 0
    else (if a[0].Arr? then LeafCount(a[0].elems) else 1) + LeafCount(a[1..])
  }

  lemma {:induction false} FlatLength(a: seq<Value>)
    ensures |Flat(a)| == LeafCount(a)
  {
    if a != [] {
      if a[0].Arr? {
        FlatLength(a[0].elems);
      }
      FlatLength(a[1..]);
    }
  }

  /** `a` holds arrays only, down to empty ones: `[[], [[]], [[[]], []]]` */
  predicate OnlyEmptyNests(a: seq<Value>)
    decreases a
  {
    forall i :: 0 <= i < |a| ==> a[i].Arr? && OnlyEmptyNests(a[i].elems)
  }

  /** Flattening gives `[]` exactly when there are no leaves */
  lemma {:induction false} FlatEmptyIff(a: seq<Value>)
    ensures Flat(a) == [] <==> OnlyEmptyNests(a)
  {
    if a != [] {
      FlatEmptyIff(a[1..]);
      if a[0].Arr? {
        FlatEmptyIff(a[0].elems);
      }
      if OnlyEmptyNests(a[1..]) && a[0].Arr? && OnlyEmptyNests(a[0].elems) {
        forall i | 0 <= i < |a| ensures a[i].Arr? && OnlyEmptyNests(a[i].elems) {
          if i > 0 { assert a[i] == a[1..][i - 1]; }
        }
      }
      if OnlyEmptyNests(a) {
        assert OnlyEmptyNests(a[1..]) by {
          forall i | 0 <= i < |a[1..]| ensures a[1..][i].Arr? && OnlyEmptyNests(a[1..][i].elems) {
            assert a[1..][i] == a[i + 1];
          }
        }
      }
    }
  }

  /** A list without nested arrays is its own flattening */
  lemma {:induction false} FlatOfFlat(a: seq<Value>)
    requires forall i :: 0 <= i < |a| ==> !a[i].Arr?
    ensures Flat(a) == a
  {
    if a != [] {
      FlatOfFlat(a[1..]);
    }
  }

  /** Flattening twice is flattening once */
  lemma FlatIdempotent(a: seq<Value>)
    ensures Flat(Flat(a)) == Flat(a)
  {
    FlatOfFlat(Flat(a));
  }

  /** `flatten`: a `for` loop pushing leaves, and the recursively flattened
      contents of nested arrays, onto `result` */
  method FlattenRecursive(arr: seq<Value>) returns (result: seq<Value>)
    ensures result == Flat(arr)
    decreases arr
  {
    result := [];
    for i := 0 to |arr|
      invariant result == Flat(arr[..i])
    {
      FlatSnoc(arr, i);
      if arr[i].Arr? {
        var sub := FlattenRecursive(arr[i].elems);
        result := result + sub;
      } else {
        result := result + [arr[i]];
      }
    }
    assert arr[..|arr|] == arr;
  }

  /** `flattenExplicado`: the same loop with a nesting level for its trace
      output, which is not modelled */
  method FlattenExplained(arr: seq<Value>, level: nat) returns (result: seq<Value>)
    ensures result == Flat(arr)
    decreases arr
  {
    result := [];
    for i := 0 to |arr|
      invariant result == Flat(arr[..i])
    {
      FlatSnoc(arr, i);
      if arr[i].Arr? {
        var sub := FlattenExplained(arr[i].elems, level + 1);
        result := result + sub;
      } else {
        result := result + [arr[i]];
      }
    }
    assert arr[..|arr|] == arr;
  }

  /** `flattenReduce`: `array.reduce((acc, item) => acc.concat(...), [])`;
      it gives the same array as `flatten` on every input */
  function FlattenReduce(arr: seq<Value>): (r: seq<Value>)
    ensures r == Flat(arr)
    decreases arr, 1
  {
    ReduceConcat(arr, [])
  }

  /** The reduce step applied to every item in turn, from the left: the
      accumulator followed by the flattening of the items */
  function ReduceConcat(items: seq<Value>, acc: seq<Value>): (r: seq<Value>)
    ensures r == acc + Flat(items)
    decreases items, 0
  {
    if items == [] then acc
    else
      var item := items[0];
      var piece := if item.Arr? then FlattenReduce(item.elems) else [item];
      assert piece == Piece(item);
      assert acc + piece + Flat(items[1..]) == acc + Flat(items);
      ReduceConcat(items[1..], acc + piece)
  }

  /** The number of nodes of `a`, arrays included: what the stack of
      `flattenIterative` consumes */
  function Weight(a: seq<Value>): nat
    decreases a
  {
    if a == [] then 0
    else (if a[0].Arr? then 1 + Weight(a[0].elems) else 1) + Weight(a[1..])
  }

  lemma {:induction false} WeightAppend(a: seq<Value>, b: seq<Value>)
    ensures Weight(a + b) == Weight(a) + Weight(b)
  {
    if a != [] {
      assert (a + b)[0] == a[0] && (a + b)[1..] == a[1..] + b;
      WeightAppend(a[1..], b);
    } else {
      assert a + b == b;
    }
  }

  /** `flattenIterative`: pop the last item of a stack; push an array's items
      back, or put a leaf at the front of `result` */
  method FlattenIterative(arr: seq<Value>) returns (result: seq<Value>)
    ensures result == Flat(arr)
  {
    var stack := arr;
    result := [];
    while |stack| > 0
      invariant Flat(stack) + result == Flat(arr)
      decreases Weight(stack)
    {
      var last := |stack| - 1;
      var item := stack[last];
      var rest := stack[..last];
      assert stack == rest + [item];
      FlatAppend(rest, [item]);
      WeightAppend(rest, [item]);
      stack := rest;
      if item.Arr? {
        FlatAppend(stack, item.elems);
        WeightAppend(stack, item.elems);
        stack := stack + item.elems;
      } else {
        result := [item] + result;
      }
    }
  }

  /** Dois.js:67-70, Teste 1: `[1, [2, [3, [4]]]]` flattens to `[1, 2, 3, 4]` */
  lemma NestedExample()
    ensures Flat([Num(1), Arr([Num(2), Arr([Num(3), Arr([Num(4)])])])])
         == [Num(1), Num(2), Num(3), Num(4)]
  {
  }

  /** Dois.js:92: `[[], [[]], [[[]], []]]` flattens to `[]` */
  lemma EmptyNestsExample()
    ensures Flat([Arr([]), Arr([Arr([])]), Arr([Arr([Arr([])]), Arr([])])]) == []
  {
  }

  /** The first three items of `complexArray` (Dois.js:99) */
  lemma ComplexArrayHead()
    ensures Flat([Num(1), Arr([Num(2), Arr([Num(3), Arr([Num(4), Arr([Num(5)])])])]), Num(6)])
         == [Num(1), Num(2), Num(3), Num(4), Num(5), Num(6)]
  {
    var deep := [Num(3), Arr([Num(4), Arr([Num(5)])])];
    assert Flat([Num(4), Arr([Num(5)])]) == [Num(4), Num(5)];
    assert Flat(deep) == [Num(3), Num(4), Num(5)];
    assert Flat([Arr(deep)]) == Flat(deep);
    assert Flat([Num(2), Arr(deep)]) == [Num(2), Num(3), Num(4), Num(5)];
  }

  /** The last three items of `complexArray` (Dois.js:99) */
  lemma ComplexArrayTail()
    ensures Flat([Arr([Num(7), Num(8)]), Arr([Arr([Num(9)])]), Num(10)]) == [Num(7), Num(8), Num(9), Num(10)]
  {
    assert Flat([Arr([Num(9)])]) == [Num(9)];
  }

  /** Dois.js:99-104: `complexArray` flattens to the numbers 1 to 10, and
      `flattenReduce` gives the same array */
  lemma ComplexArrayExample()
    ensures var complexArray := [Num(1), Arr([Num(2), Arr([Num(3), Arr([Num(4), Arr([Num(5)])])])]),
                                 Num(6), Arr([Num(7), Num(8)]), Arr([Arr([Num(9)])]), Num(10)];
            Flat(complexArray) == [Num(1), Num(2), Num(3), Num(4), Num(5), Num(6), Num(7), Num(8), Num(9), Num(10)]
            && FlattenReduce(complexArray) == Flat(complexArray)
  {
    var head := [Num(1), Arr([Num(2), Arr([Num(3), Arr([Num(4), Arr([Num(5)])])])]), Num(6)];
    var tail := [Arr([Num(7), Num(8)]), Arr([Arr([Num(9)])]), Num(10)];
    ComplexArrayHead();
    ComplexArrayTail();
    FlatAppend(head, tail);
    assert head + tail == [Num(1), Arr([Num(2), Arr([Num(3), Arr([Num(4), Arr([Num(5)])])])]),
                           Num(6), Arr([Num(7), Num(8)]), Arr([Arr([Num(9)])]), Num(10)];
  }
}
