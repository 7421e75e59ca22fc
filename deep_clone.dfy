/** `deepClone` (terceiro.js): a copy of a value built from freshly cloned
    children, on finite tree-shaped values. */
module DeepClone {
  import opened JsValue
  import opened OrderedDict

  /** Every object in `v` is plain data: none inherits enumerable keys */
  predicate Plain(v: Value) {
    match v
    case Arr(elems) => forall i :: 0 <= i < |elems| ==> Plain(elems[i])
    case MapV(entries) => forall i :: 0 <= i < |entries| ==> Plain(entries[i].0) && Plain(entries[i].1)
    case SetV(members) => forall i :: 0 <= i < |members| ==> Plain(members[i])
    case Obj(fields, inherited) => inherited == [] && forall i :: 0 <= i < |fields| ==> Plain(fields[i].1)
    case _ => true
  }

  /** The value a deep copy has: every container rebuilt from its cloned
      children in the original order; an object keeps its own keys only. */
  function Clone(v: Value): Value {
    match v
    case Arr(elems) => Arr(seq(|elems|, i requires 0 <= i < |elems| => Clone(elems[i])))
    case MapV(entries) =>
      MapV(seq(|entries|, i requires 0 <= i < |entries| => (Clone(entries[i].0), Clone(entries[i].1))))
    case SetV(members) => SetV(seq(|members|, i requires 0 <= i < |members| => Clone(members[i])))
    case Obj(fields, _) =>
      Obj(seq(|fields|, i requires 0 <= i < |fields| => (fields[i].0, Clone(fields[i].1))), [])
    case _ => v
  }

  /** The own fields of an object clone */
  function CloneFields(fields: seq<(string, Value)>): (r: seq<(string, Value)>)
    ensures |r| == |fields|
    ensures forall i :: 0 <= i < |fields| ==> r[i].0 == fields[i].0
  {
    seq(|fields|, i requires 0 <= i < |fields| => (fields[i].0, Clone(fields[i].1)))
  }

  /** Reading the key at position `i` of an object with unique keys gives the
      value stored there */
  lemma GetAt(d: Dict<Value>, i: nat)
    requires UniqueKeys(d) && i < |d|
    ensures Get(d, d[i].0) == Some(d[i].1)
  {
    assert d[i].0 in Keys(d);
  }

  /** deepClone(obj), step by step as the source does it: primitives returned
      as they are, Date and RegExp rebuilt from their time value, source and
      flags, and each container allocated empty and filled in order. */
  method DeepClone(obj: Value) returns (r: Value)
    requires WellFormed(obj)
    ensures r == Clone(obj)
    ensures IsPrimitive(obj) ==> r == obj
    ensures obj.Date? ==> r.Date? && r.time == obj.time
    ensures obj.RegExp? ==> r.RegExp? && r.source == obj.source && r.flags == obj.flags
    ensures obj.Arr? ==>
      r.Arr? && |r.elems| == |obj.elems|
      && forall i :: 0 <= i < |obj.elems| ==> r.elems[i] == Clone(obj.elems[i])
    ensures obj.MapV? ==>
      r.MapV? && |r.entries| == |obj.entries|
      && forall i :: 0 <= i < |obj.entries| ==>
           r.entries[i] == (Clone(obj.entries[i].0), Clone(obj.entries[i].1))
    ensures obj.SetV? ==>
      r.SetV? && |r.members| == |obj.members|
      && forall i :: 0 <= i < |obj.members| ==> r.members[i] == Clone(obj.members[i])
    ensures obj.Obj? ==>
      r.Obj? && r.inherited == [] && Keys(r.fields) == Keys(obj.fields)
      && forall i :: 0 <= i < |obj.fields| ==> r.fields[i].1 == Clone(obj.fields[i].1)
    decreases obj, 1
  {
    if IsPrimitive(obj) {
      r := obj;
    } else if obj.Date? {
      r := Date(obj.time);
    } else if obj.RegExp? {
      r := RegExp(obj.source, obj.flags);
    } else if obj.Arr? {
      r := CopyArray(obj);
    } else if obj.MapV? {
      r := CopyMap(obj);
    } else if obj.SetV? {
      r := CopySet(obj);
    } else {
      r := CopyObject(obj);
    }
  }

  /** The array case: `arrCopy[i] = deepClone(obj[i])` for each index in turn */
  method CopyArray(obj: Value) returns (r: Value)
    requires obj.Arr? && WellFormed(obj)
    ensures r == Clone(obj)
    decreases obj, 0
  {
    var arrCopy: seq<Value> := [];
    for i := 0 to |obj.elems|
      invariant |arrCopy| == i
      invariant forall j :: 0 <= j < i ==> arrCopy[j] == Clone(obj.elems[j])
    {
      var c := DeepClone(obj.elems[i]);
      arrCopy := arrCopy + [c];
    }
    r := Arr(arrCopy);
  }

  /** The Map case: `mapCopy.set(deepClone(key), deepClone(value))` for each
      entry in insertion order */
  method CopyMap(obj: Value) returns (r: Value)
    requires obj.MapV? && WellFormed(obj)
    ensures r == Clone(obj)
    decreases obj, 0
  {
    var mapCopy: seq<(Value, Value)> := [];
    for i := 0 to |obj.entries|
      invariant |mapCopy| == i
      invariant forall j :: 0 <= j < i ==>
        mapCopy[j] == (Clone(obj.entries[j].0), Clone(obj.entries[j].1))
    {
      var k := DeepClone(obj.entries[i].0);
      var v := DeepClone(obj.entries[i].1);
      mapCopy := mapCopy + [(k, v)];
    }
    r := MapV(mapCopy);
  }

  /** The Set case: `setCopy.add(deepClone(value))` for each member in order */
  method CopySet(obj: Value) returns (r: Value)
    requires obj.SetV? && WellFormed(obj)
    ensures r == Clone(obj)
    decreases obj, 0
  {
    var setCopy: seq<Value> := [];
    for i := 0 to |obj.members|
      invariant |setCopy| == i
      invariant forall j :: 0 <= j < i ==> setCopy[j] == Clone(obj.members[j])
    {
      var c := DeepClone(obj.members[i]);
      setCopy := setCopy + [c];
    }
    r := SetV(setCopy);
  }

  lemma CloneFieldsSnoc(fields: seq<(string, Value)>, i: nat)
    requires i < |fields|
    ensures CloneFields(fields[..i + 1]) == CloneFields(fields[..i]) + [(fields[i].0, Clone(fields[i].1))]
  {
  }

  /** The object case: `for...in` over own and inherited keys, keeping those
      `hasOwnProperty` accepts, `objCopy[key] = deepClone(obj[key])` */
  method CopyObject(obj: Value) returns (r: Value)
    requires obj.Obj? && WellFormed(obj)
    ensures r == Clone(obj)
    decreases obj, 0
  {
    var fields := obj.fields;
    var keys := ForInKeys(fields, obj.inherited);
    var objCopy: Dict<Value> := [];
    for i := 0 to |keys|
      invariant objCopy == CloneFields(fields[..if i < |fields| then i else |fields|])
    {
      var key := keys[i];
      var own := key in Keys(fields);
      if i < |fields| {
        assert key == fields[i].0 && own;
      } else {
        assert key == obj.inherited[i - |fields|];
        assert !own;
      }
      if own {
        GetAt(fields, i);
        var value := Get(fields, key).value;
        assert value == fields[i].1;
        var c := DeepClone(value);
        assert key !in Keys(objCopy);
        objCopy := Put(objCopy, key, c);
        CloneFieldsSnoc(fields, i);
      }
    }
    assert fields[..|fields|] == fields;
    r := Obj(objCopy, []);
  }

  /** For finite plain data the clone is structurally equal to the original */
  lemma {:induction false} CloneOfPlainIsEqual(v: Value)
    requires WellFormed(v) && Plain(v)
    ensures Clone(v) == v
  {
    match v
    case Arr(elems) =>
      forall i | 0 <= i < |elems| ensures Clone(elems[i]) == elems[i] {
        CloneOfPlainIsEqual(elems[i]);
      }
    case MapV(entries) =>
      forall i | 0 <= i < |entries|
        ensures Clone(entries[i].0) == entries[i].0 && Clone(entries[i].1) == entries[i].1
      {
        CloneOfPlainIsEqual(entries[i].0);
        CloneOfPlainIsEqual(entries[i].1);
      }
    case SetV(members) =>
      forall i | 0 <= i < |members| ensures Clone(members[i]) == members[i] {
        CloneOfPlainIsEqual(members[i]);
      }
    case Obj(fields, _) =>
      forall i | 0 <= i < |fields| ensures Clone(fields[i].1) == fields[i].1 {
        CloneOfPlainIsEqual(fields[i].1);
      }
    case _ =>
  }

  /** A clone is well formed plain data: inherited keys are dropped at every depth */
  lemma {:induction false} CloneIsPlain(v: Value)
    requires WellFormed(v)
    ensures WellFormed(Clone(v)) && Plain(Clone(v))
  {
    match v
    case Arr(elems) =>
      forall i | 0 <= i < |elems| ensures WellFormed(Clone(elems[i])) && Plain(Clone(elems[i])) {
        CloneIsPlain(elems[i]);
      }
    case MapV(entries) =>
      forall i | 0 <= i < |entries|
        ensures WellFormed(Clone(entries[i].0)) && Plain(Clone(entries[i].0))
        ensures WellFormed(Clone(entries[i].1)) && Plain(Clone(entries[i].1))
      {
        CloneIsPlain(entries[i].0);
        CloneIsPlain(entries[i].1);
      }
    case SetV(members) =>
      forall i | 0 <= i < |members| ensures WellFormed(Clone(members[i])) && Plain(Clone(members[i])) {
        CloneIsPlain(members[i]);
      }
    case Obj(fields, _) =>
      forall i | 0 <= i < |fields| ensures WellFormed(Clone(fields[i].1)) && Plain(Clone(fields[i].1)) {
        CloneIsPlain(fields[i].1);
      }
    case _ =>
  }

  /** Cloning a clone changes nothing */
  lemma CloneIdempotent(v: Value)
    requires WellFormed(v)
    ensures Clone(Clone(v)) == Clone(v)
  {
    CloneIsPlain(v);
    CloneOfPlainIsEqual(Clone(v));
  }

  /** The sample object of terceiro.js:56-61 is copied unchanged */
  lemma SampleCopy()
    ensures Clone(Obj([("nome", Str("Ana")), ("endereco", Obj([("cidade", Str("Luanda"))], []))], []))
         == Obj([("nome", Str("Ana")), ("endereco", Obj([("cidade", Str("Luanda"))], []))], [])
  {
    var inner := Obj([("cidade", Str("Luanda"))], []);
    assert Clone(inner) == inner;
  }
}
