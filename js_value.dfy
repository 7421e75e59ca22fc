/** The JavaScript values the four transformations handle, as a finite tree.
    Heap identity is abstracted away: every container is its own subtree, so
    shared sub-objects and cycles cannot be expressed (see DeepCloneHeap for
    identity). Numbers are modelled as integers. */
module JsValue {

  datatype Option<T> = None | Some(value: T)

  datatype Value =
    | Null
    | Undefined
    | Bool(b: bool)
    | Num(n: int)
    | Str(s: string)
    /** a Date, by its time value in milliseconds */
    | Date(time: int)
    | RegExp(source: string, flags: string)
    | Arr(elems: seq<Value>)
    /** a Map, by its entries in insertion order */
    | MapV(entries: seq<(Value, Value)>)
    /** a Set, by its members in insertion order */
    | SetV(members: seq<Value>)
    /** an object: its own enumerable properties in enumeration order, and the
        enumerable keys it inherits through its prototype chain (not shadowed
        by an own key) */
    | Obj(fields: seq<(string, Value)>, inherited: seq<string>)

  /** `typeof v === 'object'` (which is also true of null) */
  predicate IsTypeofObject(v: Value) {
    v.Null? || v.Date? || v.RegExp? || v.Arr? || v.MapV? || v.SetV? || v.Obj?
  }

  /** The primitives: what `v === null || typeof v !== 'object'` accepts */
  predicate IsPrimitive(v: Value) {
    v.Null? || v.Undefined? || v.Bool? || v.Num? || v.Str?
  }

  function Keys<V>(fields: seq<(string, V)>): (ks: seq<string>)
    ensures |ks| == |fields|
    ensures forall i :: 0 <= i < |fields| ==> ks[i] == fields[i].0
  {
    seq(|fields|, i requires 0 <= i < |fields| => fields[i].0)
  }

  /** No key occurs twice in a field list (property names of a JS object are unique) */
  predicate UniqueKeys<V>(fields: seq<(string, V)>) {
    forall i, j :: 0 <= i < j < |fields| ==> fields[i].0 != fields[j].0
  }

  /** The keys `for...in` visits, in order: own keys first, then inherited ones */
  function ForInKeys(fields: seq<(string, Value)>, inherited: seq<string>): seq<string> {
    Keys(fields) + inherited
  }

  /** What the JS engine guarantees of every object: own keys are unique and
      an inherited key is only enumerated when no own key shadows it. */
  predicate WellFormed(v: Value) {
    match v
    case Arr(elems) => forall i :: 0 <= i < |elems| ==> WellFormed(elems[i])
    case MapV(entries) =>
      forall i :: 0 <= i < |entries| ==> WellFormed(entries[i].0) && WellFormed(entries[i].1)
    case SetV(members) => forall i :: 0 <= i < |members| ==> WellFormed(members[i])
    case Obj(fields, inherited) =>
      UniqueKeys(fields)
      && (forall i, j :: 0 <= i < |fields| && 0 <= j < |inherited| ==> fields[i].0 != inherited[j])
      && (forall i :: 0 <= i < |fields| ==> WellFormed(fields[i].1))
    case _ => true
  }
}
