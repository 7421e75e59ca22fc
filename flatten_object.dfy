/** `flattenObject` (Quarto.js): the leaves of a nested object under dotted
    keys (`{user: {name: "Ana"}}` becomes `{"user.name": "Ana"}`). */
module FlattenObject {
  import opened JsValue
  import opened OrderedDict

  /** `prefix ? prefix + "." + key : key` (the empty string is falsy) */
  function NewKey(prefix: string, key: string): (r: string)
    ensures prefix == "" ==> r == key
    ensures prefix != "" ==> r == prefix + "." + key
  {
    if prefix != "" then prefix + "." + key else key
  }

  /** `typeof x === 'object' && x !== null && !Array.isArray(x)`: the values
      the walk descends into instead of storing them */
  predicate IsNested(x: Value) {
    IsTypeofObject(x) && !x.Null? && !x.Arr?
  }

  /** The decimal spelling of an array or string index, as `for...in` yields
      it: digits only, with no leading zero */
  function IndexKey(i: nat): (r: string)
    ensures |r| > 0 && forall j :: 0 <= j < |r| ==> '0' <= r[j] <= '9'
  {
    if i < 10 then [Digit(i)] else IndexKey(i / 10) + [Digit(i % 10)]
  }

  function Digit(d: nat): (c: char)
    requires d < 10
    ensures '0' <= c <= '9' && c as int == '0' as int + d
  {
    ['0', '1', '2', '3', '4', '5', '6', '7', '8', '9'][d]
  }

  /** The number a string of decimal digits spells */
  function DecimalValue(s: string): nat
    requires forall j :: 0 <= j < |s| ==> '0' <= s[j] <= '9'
  {
    if s == [] then 0 else DecimalValue(s[..|s| - 1]) * 10 + (s[|s| - 1] as int - '0' as int)
  }

  /** Only index 0 is spelled with a leading zero */
  lemma {:induction false} IndexKeyNoLeadingZero(i: nat)
    ensures IndexKey(i)[0] == '0' <==> i == 0
  {
    if i >= 10 {
      IndexKeyNoLeadingZero(i / 10);
      assert IndexKey(i)[0] == IndexKey(i / 10)[0];
    }
  }

  /** Reading the key back gives the index, so distinct indices give
      distinct keys */
  lemma {:induction false} IndexKeyRoundTrip(i: nat)
    ensures DecimalValue(IndexKey(i)) == i
  {
    if i >= 10 {
      var s := IndexKey(i);
      assert s[..|s| - 1] == IndexKey(i / 10);
      IndexKeyRoundTrip(i / 10);
    }
  }

  /** How many keys `for (const key in obj)` visits: an object's own and
      inherited enumerable keys, an array's or a string's indices; a Date,
      RegExp, Map or Set has none, nor does a primitive */
  function ForInCount(v: Value): nat {
    match v
    case Obj(fields, inherited) => |fields| + |inherited|
    case Arr(elems) => |elems|
    case Str(s) => |s|
    case _ => 0
  }

  /** One turn of the loop at the `i`-th key `for...in` visits: skip it if
      `hasOwnProperty` rejects it; otherwise merge the flattening of a nested
      value under the new key, or store the value itself there */
  function Step(v: Value, i: nat, prefix: string, acc: Dict<Value>): Dict<Value>
    requires i < ForInCount(v)
    decreases v, 0
  {
    match v
    case Obj(fields, _) =>
      if i < |fields| then Store(acc, NewKey(prefix, fields[i].0), fields[i].1) else acc
    case Arr(elems) => Store(acc, NewKey(prefix, IndexKey(i)), elems[i])
    case Str(s) => Put(acc, NewKey(prefix, IndexKey(i)), Str([s[i]]))
  }

  /** The `i`-th key `for...in` visits, whether `hasOwnProperty` accepts it,
      and `obj[key]` when it does */
  function Entry(v: Value, i: nat): (string, bool, Value)
    requires i < ForInCount(v)
  {
    match v
    case Obj(fields, inherited) =>
      var key := ForInKeys(fields, inherited)[i];
      if i < |fields| then (key, true, fields[i].1) else (key, false, Undefined)
    case Arr(elems) => (IndexKey(i), true, elems[i])
    case Str(s) => (IndexKey(i), true, Str([s[i]]))
  }

  /** On an object, the own-key test at position `i` is `hasOwnProperty(key)`,
      which accepts exactly the keys of the own fields, and the value taken is
      `obj[key]`, looked up by key */
  lemma EntryOwn(v: Value, i: nat)
    requires i < ForInCount(v) && v.Obj? && WellFormed(v)
    ensures Entry(v, i).1 <==> Entry(v, i).0 in Keys(v.fields)
    ensures Entry(v, i).1 ==> Get(v.fields, Entry(v, i).0) == Some(Entry(v, i).2)
  {
    var fields, inherited := v.fields, v.inherited;
    var key := Entry(v, i).0;
    if i < |fields| {
      assert key == Keys(fields)[i];
      var j := IndexOf(fields, key).value;
      assert fields[j].0 == fields[i].0;
      assert j == i;
    } else {
      assert key == inherited[i - |fields|];
    }
  }

  /** `for...in` never visits an own key twice: on a well-formed object an
      own key is neither repeated nor enumerated again as an inherited key,
      and an array's or a string's indices are spelled differently */
  lemma VisitedKeysDistinct(v: Value)
    ensures (v.Obj? ==> WellFormed(v)) ==>
      forall i, j :: 0 <= i < j < ForInCount(v) && Entry(v, i).1 ==> Entry(v, i).0 != Entry(v, j).0
  {
    if v.Obj? && WellFormed(v) {
      var keys := ForInKeys(v.fields, v.inherited);
      var n := |v.fields|;
      forall i, j | 0 <= i < j < ForInCount(v) && Entry(v, i).1 ensures Entry(v, i).0 != Entry(v, j).0 {
        if j < n {
          assert keys[i] == v.fields[i].0 && keys[j] == v.fields[j].0;
        } else {
          assert keys[i] == v.fields[i].0 && keys[j] == v.inherited[j - n];
        }
      }
    } else if v.Arr? || v.Str? {
      forall i, j | 0 <= i < j < ForInCount(v) && Entry(v, i).1 ensures Entry(v, i).0 != Entry(v, j).0 {
        IndexKeyRoundTrip(i);
        IndexKeyRoundTrip(j);
      }
    }
  }

  lemma StepByEntry(v: Value, i: nat, prefix: string, acc: Dict<Value>)
    requires i < ForInCount(v)
    ensures Step(v, i, prefix, acc)
         == if Entry(v, i).1 then Store(acc, NewKey(prefix, Entry(v, i).0), Entry(v, i).2) else acc
  {
  }

  function Store(acc: Dict<Value>, newKey: string, x: Value): Dict<Value>
    decreases x, 3
  {
    if IsNested(x) then Assign(acc, Flattened(x, newKey)) else Put(acc, newKey, x)
  }

  /** The loop from the `i`-th key on, starting from `acc` */
  function Walk(v: Value, i: nat, prefix: string, acc: Dict<Value>): Dict<Value>
    requires i <= ForInCount(v)
    decreases v, 1, ForInCount(v) - i
  {
    if i == ForInCount(v) then acc else Walk(v, i + 1, prefix, Step(v, i, prefix, acc))
  }

  /** flattenObject(obj, prefix) */
  function Flattened(v: Value, prefix: string): Dict<Value>
    decreases v, 2
  {
    Walk(v, 0, prefix, [])
  }

  /** `flattenObject`, imperatively: `flattened` filled in place by the
      `for...in` loop, with `Object.assign` merging each recursive result */
  method FlattenObject(obj: Value, prefix: string) returns (flattened: Dict<Value>)
    ensures flattened == Flattened(obj, prefix)
    decreases obj, 1
  {
    flattened := [];
    var n := ForInCount(obj);
    for i := 0 to n
      invariant Walk(obj, i, prefix, flattened) == Flattened(obj, prefix)
    {
      var next := VisitKey(obj, i, prefix, flattened);
      assert Walk(obj, i, prefix, flattened) == Walk(obj, i + 1, prefix, next);
      flattened := next;
    }
  }

  /** One turn of the `for...in` loop: the key, the `hasOwnProperty` test,
      and the recursive merge or the plain assignment */
  method VisitKey(obj: Value, i: nat, prefix: string, flattened: Dict<Value>) returns (next: Dict<Value>)
    requires i < ForInCount(obj)
    ensures next == Step(obj, i, prefix, flattened)
    decreases obj, 0
  {
    var key, own, value := Entry(obj, i).0, Entry(obj, i).1, Entry(obj, i).2;
    StepByEntry(obj, i, prefix, flattened);
    next := flattened;
    if own {
      var newKey := NewKey(prefix, key);
      if IsNested(value) {
        var sub := FlattenObject(value, newKey);
        next := Assign(flattened, sub);
      } else {
        next := Put(flattened, newKey, value);
      }
    }
  }

  /** `k` is a dotted path below `p`: it starts with `p + "."` */
  predicate Under(k: string, p: string) {
    |p| + 1 <= |k| && k[..|p| + 1] == p + "."
  }

  /** The shape of every result: keys unique, no value one the walk would
      descend into, and under a non-empty prefix every key dotted below it */
  predicate FlatShape(d: Dict<Value>, prefix: string) {
    UniqueKeys(d)
    && (forall j :: 0 <= j < |d| ==> !IsNested(d[j].1))
    && (prefix != "" ==> forall j :: 0 <= j < |d| ==> Under(d[j].0, prefix))
  }

  lemma UnderNewKey(k: string, prefix: string, key: string)
    requires prefix != "" && Under(k, NewKey(prefix, key))
    ensures Under(k, prefix)
  {
    var nk := NewKey(prefix, key);
    assert k[..|prefix| + 1] == k[..|nk| + 1][..|prefix| + 1];
  }

  lemma {:induction false} FlattenedShape(v: Value, prefix: string)
    ensures FlatShape(Flattened(v, prefix), prefix)
    decreases v, 2
  {
    WalkShape(v, 0, prefix, []);
  }

  lemma {:induction false} WalkShape(v: Value, i: nat, prefix: string, acc: Dict<Value>)
    requires i <= ForInCount(v) && FlatShape(acc, prefix)
    ensures FlatShape(Walk(v, i, prefix, acc), prefix)
    decreases v, 1, ForInCount(v) - i
  {
    if i < ForInCount(v) {
      StepShape(v, i, prefix, acc);
      WalkShape(v, i + 1, prefix, Step(v, i, prefix, acc));
    }
  }

  lemma {:induction false} StepShape(v: Value, i: nat, prefix: string, acc: Dict<Value>)
    requires i < ForInCount(v) && FlatShape(acc, prefix)
    ensures FlatShape(Step(v, i, prefix, acc), prefix)
    decreases v, 0
  {
    match v {
      case Obj(fields, _) =>
        if i < |fields| {
          StoreShape(acc, prefix, fields[i].0, fields[i].1);
        }
      case Arr(elems) => StoreShape(acc, prefix, IndexKey(i), elems[i]);
      case Str(s) => PutShape(acc, prefix, IndexKey(i), Str([s[i]]));
    }
  }

  lemma {:induction false} StoreShape(acc: Dict<Value>, prefix: string, key: string, x: Value)
    requires FlatShape(acc, prefix)
    ensures FlatShape(Store(acc, NewKey(prefix, key), x), prefix)
    decreases x, 3
  {
    var nk := NewKey(prefix, key);
    if IsNested(x) {
      var sub := Flattened(x, nk);
      FlattenedShape(x, nk);
      AssignFrom(acc, sub);
      if prefix != "" {
        forall j | 0 <= j < |sub| ensures Under(sub[j].0, prefix) {
          UnderNewKey(sub[j].0, prefix, key);
        }
      }
    } else {
      PutShape(acc, prefix, key, x);
    }
  }

  lemma PutShape(acc: Dict<Value>, prefix: string, key: string, x: Value)
    requires FlatShape(acc, prefix) && !IsNested(x)
    ensures FlatShape(Put(acc, NewKey(prefix, key), x), prefix)
  {
    var nk := NewKey(prefix, key);
    PutFrom(acc, nk, x);
    if prefix != "" {
      assert nk[..|prefix| + 1] == prefix + ".";
    }
  }

  /** The (dotted path, leaf) pairs of `v`, in traversal order: the reference
      the dictionary is checked against */
  function Leaves(v: Value, prefix: string): seq<(string, Value)>
    decreases v, 2
  {
    LeavesFrom(v, 0, prefix)
  }

  function LeavesFrom(v: Value, i: nat, prefix: string): seq<(string, Value)>
    requires i <= ForInCount(v)
    decreases v, 1, ForInCount(v) - i
  {
    if i == ForInCount(v) then []
    else
      var here := match v
        case Obj(fields, _) =>
          if i < |fields| then LeavesOf(NewKey(prefix, fields[i].0), fields[i].1) else []
        case Arr(elems) => LeavesOf(NewKey(prefix, IndexKey(i)), elems[i])
        case Str(s) => [(NewKey(prefix, IndexKey(i)), Str([s[i]]))];
      here + LeavesFrom(v, i + 1, prefix)
  }

  function LeavesOf(path: string, x: Value): seq<(string, Value)>
    decreases x, 3
  {
    if IsNested(x) then Leaves(x, path) else [(path, x)]
  }

  /** Reading any key of the flattened object gives the leaf written last
      under that path, and the keys present are exactly the leaf paths:
      later writes win over earlier ones */
  lemma {:induction false} FlattenedIsLatestLeaf(v: Value, prefix: string, k: string)
    ensures Get(Flattened(v, prefix), k) == Latest(Leaves(v, prefix), k)
    decreases v, 2
  {
    WalkIsLatestLeaf(v, 0, prefix, [], k);
  }

  lemma {:induction false} WalkIsLatestLeaf(v: Value, i: nat, prefix: string, acc: Dict<Value>, k: string)
    requires i <= ForInCount(v)
    ensures Get(Walk(v, i, prefix, acc), k)
         == if k in Keys(LeavesFrom(v, i, prefix)) then Latest(LeavesFrom(v, i, prefix), k) else Get(acc, k)
    decreases v, 1, ForInCount(v) - i
  {
    if i < ForInCount(v) {
      var here: seq<(string, Value)>;
      match v {
        case Obj(fields, _) =>
          if i < |fields| {
            StoreIsLatestLeaf(acc, NewKey(prefix, fields[i].0), fields[i].1, k);
            here := LeavesOf(NewKey(prefix, fields[i].0), fields[i].1);
          } else {
            here := [];
          }
        case Arr(elems) =>
          StoreIsLatestLeaf(acc, NewKey(prefix, IndexKey(i)), elems[i], k);
          here := LeavesOf(NewKey(prefix, IndexKey(i)), elems[i]);
        case Str(s) =>
          here := [(NewKey(prefix, IndexKey(i)), Str([s[i]]))];
      }
      var rest := LeavesFrom(v, i + 1, prefix);
      assert LeavesFrom(v, i, prefix) == here + rest;
      WalkIsLatestLeaf(v, i + 1, prefix, Step(v, i, prefix, acc), k);
      LatestAppend(here, rest, k);
      KeysAppend(here, rest);
    }
  }

  lemma {:induction false} StoreIsLatestLeaf(acc: Dict<Value>, path: string, x: Value, k: string)
    ensures Get(Store(acc, path, x), k)
         == if k in Keys(LeavesOf(path, x)) then Latest(LeavesOf(path, x), k) else Get(acc, k)
    decreases x, 3
  {
    if IsNested(x) {
      var sub := Flattened(x, path);
      FlattenedIsLatestLeaf(x, path, k);
      FlattenedShape(x, path);
      LatestUnique(sub, k);
      assert LeavesOf(path, x) == Leaves(x, path);
      assert k in Keys(sub) <==> k in Keys(Leaves(x, path));
    } else {
      assert LeavesOf(path, x) == [(path, x)];
      assert Keys([(path, x)]) == [path];
    }
  }

  /** Inherited keys contribute nothing: only own keys are flattened */
  lemma InheritedIgnored(fields: seq<(string, Value)>, inherited: seq<string>, prefix: string)
    ensures Flattened(Obj(fields, inherited), prefix) == Flattened(Obj(fields, []), prefix)
  {
    OwnPartAgrees(fields, inherited, 0, prefix, []);
  }

  lemma {:induction false} OwnPartAgrees(fields: seq<(string, Value)>, inherited: seq<string>, i: nat,
                                         prefix: string, acc: Dict<Value>)
    requires i <= |fields|
    ensures Walk(Obj(fields, inherited), i, prefix, acc) == Walk(Obj(fields, []), i, prefix, acc)
    decreases |fields| - i
  {
    if i < |fields| {
      OwnPartAgrees(fields, inherited, i + 1, prefix, Step(Obj(fields, []), i, prefix, acc));
    } else {
      InheritedPartSkipped(fields, inherited, i, prefix, acc);
    }
  }

  lemma {:induction false} InheritedPartSkipped(fields: seq<(string, Value)>, inherited: seq<string>, i: nat,
                                                prefix: string, acc: Dict<Value>)
    requires |fields| <= i <= |fields| + |inherited|
    ensures Walk(Obj(fields, inherited), i, prefix, acc) == acc
    decreases |fields| + |inherited| - i
  {
    if i < |fields| + |inherited| {
      InheritedPartSkipped(fields, inherited, i + 1, prefix, acc);
    }
  }

  /** An object of two leaves under distinct paths flattens to those two entries */
  lemma TwoLeaves(k1: string, x1: Value, k2: string, x2: Value, prefix: string)
    requires !IsNested(x1) && !IsNested(x2) && NewKey(prefix, k1) != NewKey(prefix, k2)
    ensures Flattened(Obj([(k1, x1), (k2, x2)], []), prefix)
         == [(NewKey(prefix, k1), x1), (NewKey(prefix, k2), x2)]
  {
    var v := Obj([(k1, x1), (k2, x2)], []);
    var d1 := [(NewKey(prefix, k1), x1)];
    var d2 := d1 + [(NewKey(prefix, k2), x2)];
    LeafTurn(v, 0, prefix, []);
    assert [] + d1 == d1;
    assert Keys(d1) == [NewKey(prefix, k1)];
    LeafTurn(v, 1, prefix, d1);
    assert ForInCount(v) == 2;
    assert Walk(v, 2, prefix, d2) == d2;
  }

  /** A turn at an own key whose value is not nested and whose new key is
      not yet present appends one entry */
  lemma LeafTurn(v: Value, i: nat, prefix: string, acc: Dict<Value>)
    requires v.Obj? && i < |v.fields| && !IsNested(v.fields[i].1)
    requires NewKey(prefix, v.fields[i].0) !in Keys(acc)
    ensures Walk(v, i, prefix, acc) == Walk(v, i + 1, prefix, acc + [(NewKey(prefix, v.fields[i].0), v.fields[i].1)])
  {
    var k := NewKey(prefix, v.fields[i].0);
    assert Store(acc, k, v.fields[i].1) == Put(acc, k, v.fields[i].1);
    assert Step(v, i, prefix, acc) == acc + [(k, v.fields[i].1)];
  }

  /** An object whose one key holds a nested object merges that object's
      flattening under the key */
  lemma OneNested(key: string, inner: Value)
    requires IsNested(inner)
    ensures Flattened(Obj([(key, inner)], []), "") == Flattened(inner, key)
  {
    SingleKey(key, inner, "");
    FlattenedShape(inner, key);
    AssignIntoEmpty(Flattened(inner, key));
  }

  lemma SingleKey(key: string, x: Value, prefix: string)
    ensures Flattened(Obj([(key, x)], []), prefix) == Store([], NewKey(prefix, key), x)
  {
    var v := Obj([(key, x)], []);
    assert ForInCount(v) == 1;
    assert Entry(v, 0) == (key, true, x);
    StepByEntry(v, 0, prefix, []);
    var d := Step(v, 0, prefix, []);
    assert Walk(v, 1, prefix, d) == d;
    assert Walk(v, 0, prefix, []) == Walk(v, 1, prefix, d);
  }

  /** Quarto.js:24-31: `{user: {name: "Ana", age: 20}}` becomes
      `{"user.name": "Ana", "user.age": 20}` */
  lemma UserExample()
    ensures Flattened(Obj([("user", Obj([("name", Str("Ana")), ("age", Num(20))], []))], []), "")
         == [("user.name", Str("Ana")), ("user.age", Num(20))]
  {
    assert NewKey("user", "name") == "user.name";
    assert NewKey("user", "age") == "user.age";
    TwoLeaves("name", Str("Ana"), "age", Num(20), "user");
    OneNested("user", Obj([("name", Str("Ana")), ("age", Num(20))], []));
  }

  /** Quarto.js:65-72, `exemplo4`: an array is a leaf, stored as it is */
  lemma ArrayLeafExample()
    ensures Flattened(Obj([("user", Obj([("name", Str("João")), ("hobbies", Arr([Str("programar"), Str("ler"), Str("jogar")]))], []))], []), "")
         == [("user.name", Str("João")), ("user.hobbies", Arr([Str("programar"), Str("ler"), Str("jogar")]))]
  {
    assert NewKey("user", "name") == "user.name";
    assert NewKey("user", "hobbies") == "user.hobbies";
    TwoLeaves("name", Str("João"), "hobbies", Arr([Str("programar"), Str("ler"), Str("jogar")]), "user");
    OneNested("user", Obj([("name", Str("João")), ("hobbies", Arr([Str("programar"), Str("ler"), Str("jogar")]))], []));
  }

  /** A Date is `typeof 'object'`, not null and not an array, so the walk
      descends into it; it has no own enumerable keys, so it leaves no entry */
  lemma DateLeavesNoEntry(key: string, t: int)
    ensures Flattened(Obj([(key, Date(t))], []), "") == []
  {
    var top := Obj([(key, Date(t))], []);
    assert Flattened(Date(t), key) == [];
    assert Step(top, 0, "", []) == Assign([], []);
    assert Walk(top, 1, "", []) == [];
  }
}
