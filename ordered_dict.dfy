/** A plain JavaScript object used as a dictionary: its own properties as an
    ordered list of (key, value) pairs. Assigning to a present key replaces its
    value where it stands; assigning to a new key adds it last. JavaScript
    enumerates integer-like keys before the others; this list does not. */
module OrderedDict {
  import opened JsValue

  type Dict<V> = seq<(string, V)>

  /** The position of key `k`, if present */
  function IndexOf<V>(d: Dict<V>, k: string): (r: Option<nat>)
    ensures r.None? <==> k !in Keys(d)
    ensures r.Some? ==> r.value < |d| && d[r.value].0 == k
    ensures r.Some? ==> forall i :: 0 <= i < r.value ==> d[i].0 != k
  {
    if d == [] then None
    else if d[0].0 == k then Some(0)
    else
      KeysTail(d);
      match IndexOf(d[1..], k)
      case None => None
      case Some(i) => Some(i + 1)
  }

  lemma KeysTail<V>(d: Dict<V>)
    requires d != []
    ensures forall k :: k in Keys(d) <==> k == d[0].0 || k in Keys(d[1..])
  {
    assert Keys(d) == [d[0].0] + Keys(d[1..]);
  }

  /** `d[k]`, with None for a missing key */
  function Get<V>(d: Dict<V>, k: string): (r: Option<V>)
    ensures r.None? <==> k !in Keys(d)
    ensures r.Some? ==> (k, r.value) in d
  {
    match IndexOf(d, k)
    case None => None
    case Some(i) => Some(d[i].1)
  }

  /** `d[k] = v` */
  function Put<V>(d: Dict<V>, k: string, v: V): (r: Dict<V>)
    ensures UniqueKeys(d) ==> UniqueKeys(r)
    ensures k in Keys(d) ==> Keys(r) == Keys(d)
    ensures k !in Keys(d) ==> r == d + [(k, v)]
    ensures Get(r, k) == Some(v)
    ensures forall k' :: k' != k ==> Get(r, k') == Get(d, k')
  {
    match IndexOf(d, k)
    case None =>
      AppendGet(d, k, v);
      d + [(k, v)]
    case Some(i) =>
      UpdateGet(d, i, k, v);
      d[i := (k, v)]
  }

  /** The position of a key depends on the keys alone */
  lemma {:induction false} IndexOfByKeys<V>(d1: Dict<V>, d2: Dict<V>, k: string)
    requires Keys(d1) == Keys(d2)
    ensures IndexOf(d1, k) == IndexOf(d2, k)
  {
    if d1 != [] {
      assert Keys(d1[1..]) == Keys(d1)[1..] && Keys(d2[1..]) == Keys(d2)[1..];
      IndexOfByKeys(d1[1..], d2[1..], k);
    }
  }

  /** Appending pairs does not move a key already present */
  lemma {:induction false} IndexOfAppend<V>(d: Dict<V>, x: (string, V), k: string)
    requires k in Keys(d)
    ensures IndexOf(d + [x], k) == IndexOf(d, k)
  {
    if d[0].0 != k {
      assert (d + [x])[1..] == d[1..] + [x];
      IndexOfAppend(d[1..], x, k);
    }
  }

  lemma {:induction false} AppendGet<V>(d: Dict<V>, k: string, v: V)
    requires k !in Keys(d)
    ensures Keys(d + [(k, v)]) == Keys(d) + [k]
    ensures UniqueKeys(d) ==> UniqueKeys(d + [(k, v)])
    ensures Get(d + [(k, v)], k) == Some(v)
    ensures forall k' :: k' != k ==> Get(d + [(k, v)], k') == Get(d, k')
  {
    var r := d + [(k, v)];
    assert Keys(r) == Keys(d) + [k] by {
      KeysAppend(d, [(k, v)]);
    }
    assert IndexOf(r, k) == Some(|d|) by {
      assert r[|d|].0 == k;
      assert forall i :: 0 <= i < |d| ==> r[i].0 == Keys(d)[i];
    }
    forall k' | k' != k ensures Get(r, k') == Get(d, k') {
      if k' in Keys(d) {
        IndexOfAppend(d, (k, v), k');
        assert r[IndexOf(d, k').value] == d[IndexOf(d, k').value];
      } else {
        assert k' !in Keys(r);
      }
    }
  }

  lemma {:induction false} UpdateGet<V>(d: Dict<V>, i: nat, k: string, v: V)
    requires IndexOf(d, k) == Some(i)
    ensures Keys(d[i := (k, v)]) == Keys(d)
    ensures UniqueKeys(d) ==> UniqueKeys(d[i := (k, v)])
    ensures Get(d[i := (k, v)], k) == Some(v)
    ensures forall k' :: k' != k ==> Get(d[i := (k, v)], k') == Get(d, k')
  {
    var r := d[i := (k, v)];
    ReplaceKeys(d, i, (k, v));
    IndexOfByKeys(r, d, k);
    forall k' | k' != k ensures Get(r, k') == Get(d, k') {
      IndexOfByKeys(r, d, k');
    }
  }

  /** Replacing a pair by one with the same key keeps the keys */
  lemma ReplaceKeys<V>(d: Dict<V>, i: nat, x: (string, V))
    requires i < |d| && d[i].0 == x.0
    ensures Keys(d[i := x]) == Keys(d)
    ensures UniqueKeys(d) ==> UniqueKeys(d[i := x])
  {
    assert forall m :: 0 <= m < |d| ==> d[i := x][m].0 == d[m].0;
  }

  /** The value of the last pair of `e` with key `k` */
  function Latest<V>(e: Dict<V>, k: string): (r: Option<V>)
    ensures r.None? <==> k !in Keys(e)
    ensures r.Some? ==> (k, r.value) in e
  {
    if e == [] then None
    else if e[|e| - 1].0 == k then Some(e[|e| - 1].1)
    else
      assert Keys(e) == Keys(e[..|e| - 1]) + [e[|e| - 1].0];
      Latest(e[..|e| - 1], k)
  }

  /** `Object.assign(d, e)`: every pair of `e`, in order, written into `d`;
      a key of `e` ends up with its last value in `e`, every other key keeps
      its value in `d` */
  function Assign<V>(d: Dict<V>, e: Dict<V>): (r: Dict<V>)
    ensures UniqueKeys(d) ==> UniqueKeys(r)
    ensures forall k :: Get(r, k) == (if k in Keys(e) then Latest(e, k) else Get(d, k))
  {
    if e == [] then d
    else
      var init, x := e[..|e| - 1], e[|e| - 1];
      assert e == init + [x];
      var r0 := Assign(d, init);
      AssignStepGet(d, init, x, r0);
      Put(r0, x.0, x.1)
  }

  /** One more pair written: its key now has the last value */
  lemma AssignStepGet<V>(d: Dict<V>, init: Dict<V>, x: (string, V), r0: Dict<V>)
    requires forall k :: Get(r0, k) == (if k in Keys(init) then Latest(init, k) else Get(d, k))
    ensures forall k ::
              Get(Put(r0, x.0, x.1), k) == (if k in Keys(init + [x]) then Latest(init + [x], k) else Get(d, k))
  {
    var e := init + [x];
    assert Keys(e) == Keys(init) + [x.0];
    assert e[..|e| - 1] == init;
    forall k ensures Get(Put(r0, x.0, x.1), k) == (if k in Keys(e) then Latest(e, k) else Get(d, k)) {
      if k != x.0 {
        assert Latest(e, k) == Latest(init, k);
        assert k in Keys(e) <==> k in Keys(init);
      }
    }
  }

  /** Every pair after `d[k] = v` is a pair of `d` or the new one */
  lemma PutFrom<V>(d: Dict<V>, k: string, v: V)
    ensures forall j :: 0 <= j < |Put(d, k, v)| ==> Put(d, k, v)[j] in d || Put(d, k, v)[j] == (k, v)
  {
    var r := Put(d, k, v);
    forall j | 0 <= j < |r| ensures r[j] in d || r[j] == (k, v) {
      if j < |d| && r[j] != (k, v) {
        assert r[j] == d[j];
      }
    }
  }

  /** Every pair after `Object.assign(d, e)` is a pair of `d` or of `e` */
  lemma {:induction false} AssignFrom<V>(d: Dict<V>, e: Dict<V>)
    ensures forall j :: 0 <= j < |Assign(d, e)| ==> Assign(d, e)[j] in d || Assign(d, e)[j] in e
  {
    if e != [] {
      var init, x := e[..|e| - 1], e[|e| - 1];
      assert e == init + [x];
      AssignFrom(d, init);
      AssignStepFrom(d, init, x, Assign(d, init));
    }
  }

  /** One more pair written: every pair still comes from one of the two */
  lemma AssignStepFrom<V>(d: Dict<V>, init: Dict<V>, x: (string, V), r0: Dict<V>)
    requires forall j :: 0 <= j < |r0| ==> r0[j] in d || r0[j] in init
    ensures forall j :: 0 <= j < |Put(r0, x.0, x.1)| ==> Put(r0, x.0, x.1)[j] in d || Put(r0, x.0, x.1)[j] in init + [x]
  {
    var r := Put(r0, x.0, x.1);
    PutFrom(r0, x.0, x.1);
    forall j | 0 <= j < |r| ensures r[j] in d || r[j] in init + [x] {
      if r[j] != x {
        assert r[j] in r0;
        var m :| 0 <= m < |r0| && r0[m] == r[j];
        if r0[m] !in d {
          var n :| 0 <= n < |init| && init[n] == r0[m];
          assert (init + [x])[n] == r[j];
        }
      } else {
        assert (init + [x])[|init|] == x;
      }
    }
  }

  /** The latest value is that of a pair no later pair shares a key with */
  lemma {:induction false} LatestIs<V>(e: Dict<V>, k: string, i: nat)
    requires i < |e| && e[i].0 == k
    requires forall j :: i < j < |e| ==> e[j].0 != k
    ensures Latest(e, k) == Some(e[i].1)
  {
    if i != |e| - 1 {
      var init := e[..|e| - 1];
      assert init[i] == e[i];
      LatestIs(init, k, i);
    }
  }

  /** In a dictionary without repeated keys the latest value is the only one */
  lemma LatestUnique<V>(e: Dict<V>, k: string)
    requires UniqueKeys(e)
    ensures Latest(e, k) == Get(e, k)
  {
    match IndexOf(e, k)
    case None =>
    case Some(i) => LatestIs(e, k, i);
  }

  lemma KeysAppend<V>(a: Dict<V>, b: Dict<V>)
    ensures Keys(a + b) == Keys(a) + Keys(b)
  {
  }

  /** The latest value in a concatenation comes from the later part when the
      key occurs there */
  lemma {:induction false} LatestAppend<V>(a: Dict<V>, b: Dict<V>, k: string)
    ensures Latest(a + b, k) == if k in Keys(b) then Latest(b, k) else Latest(a, k)
    decreases |b|
  {
    if b == [] {
      assert a + b == a;
    } else if b[|b| - 1].0 == k {
      LatestAppendLast(a, b, k);
    } else {
      LatestAppendEarlier(a, b, k);
      LatestAppend(a, b[..|b| - 1], k);
    }
  }

  lemma LatestAppendLast<V>(a: Dict<V>, b: Dict<V>, k: string)
    requires b != [] && b[|b| - 1].0 == k
    ensures k in Keys(b) && Latest(a + b, k) == Latest(b, k)
  {
    assert Keys(b)[|b| - 1] == k;
    assert (a + b)[|a + b| - 1] == b[|b| - 1];
  }

  lemma LatestAppendEarlier<V>(a: Dict<V>, b: Dict<V>, k: string)
    requires b != [] && b[|b| - 1].0 != k
    ensures Latest(a + b, k) == Latest(a + b[..|b| - 1], k)
    ensures Latest(b, k) == Latest(b[..|b| - 1], k)
    ensures k in Keys(b) <==> k in Keys(b[..|b| - 1])
  {
    var initB := b[..|b| - 1];
    assert b == initB + [b[|b| - 1]];
    assert (a + b)[..|a + b| - 1] == a + initB;
    assert (a + b)[|a + b| - 1] == b[|b| - 1];
    KeysAppend(initB, [b[|b| - 1]]);
  }

  /** Assigning a dictionary without repeated keys into an empty one copies it */
  lemma {:induction false} AssignIntoEmpty<V>(e: Dict<V>)
    requires UniqueKeys(e)
    ensures Assign([], e) == e
  {
    if e != [] {
      var init, x := e[..|e| - 1], e[|e| - 1];
      assert e == init + [x];
      assert UniqueKeys(init) by {
        forall i, j | 0 <= i < j < |init| ensures init[i].0 != init[j].0 {
          assert init[i] == e[i] && init[j] == e[j];
        }
      }
      AssignIntoEmpty(init);
      assert x.0 !in Keys(init) by {
        forall i | 0 <= i < |init| ensures Keys(init)[i] != x.0 {
          assert init[i] == e[i];
        }
      }
      assert Assign([], e) == Put(Assign([], init), x.0, x.1);
    }
  }
}
