/** `deepClone` (terceiro.js) on an explicit heap, where containers have
    identity: the copy is built entirely from newly allocated nodes, so the
    original and the copy share no node and a write to either leaves the
    other as it was. (The heap holds no functions, which `deepClone` would
    return by reference.) As in the source, nothing records which nodes were
    already copied: a node reached twice is copied twice, and the heap must
    be acyclic (here: every reference points to an older node, which any
    acyclic heap can be numbered to satisfy). */
module DeepCloneHeap {
  import JsValue
  import ValueClone = DeepClone

  /** A JS value as a variable holds it: a primitive or a reference */
  datatype Val = Null | Undefined | Bool(b: bool) | Num(n: int) | Str(s: string) | Ref(addr: nat)

  /** A heap object */
  datatype Node =
    | DateNode(time: int)
    | RegExpNode(source: string, flags: string)
    | ArrayNode(elems: seq<Val>)
    | MapNode(entries: seq<(Val, Val)>)
    | SetNode(members: seq<Val>)
    | ObjectNode(fields: seq<(string, Val)>, inherited: seq<string>)

  type Store = map<nat, Node>

  /** A reference, if `v` is one, points into [lo, hi) */
  predicate RefIn(v: Val, lo: nat, hi: nat) {
    v.Ref? ==> lo <= v.addr < hi
  }

  /** Every reference held by node `n` points into [lo, hi) */
  predicate NodeIn(n: Node, lo: nat, hi: nat) {
    match n
    case ArrayNode(elems) => forall i :: 0 <= i < |elems| ==> RefIn(elems[i], lo, hi)
    case MapNode(entries) =>
      forall i :: 0 <= i < |entries| ==> RefIn(entries[i].0, lo, hi) && RefIn(entries[i].1, lo, hi)
    case SetNode(members) => forall i :: 0 <= i < |members| ==> RefIn(members[i], lo, hi)
    case ObjectNode(fields, _) => forall i :: 0 <= i < |fields| ==> RefIn(fields[i].1, lo, hi)
    case _ => true
  }

  /** Addresses [lo, hi) are allocated and form a closed, acyclic region:
      each node refers only to older nodes of the region */
  predicate Region(h: Store, lo: nat, hi: nat) {
    forall a :: lo <= a < hi ==> a in h && NodeIn(h[a], lo, a)
  }

  function Rank(v: Val): nat {
    if v.Ref? then v.addr + 1 else 0
  }

  /** The tree a variable holding `v` denotes, read through the region */
  function Decode(h: Store, lo: nat, hi: nat, v: Val): JsValue.Value
    requires Region(h, lo, hi) && RefIn(v, lo, hi)
    decreases Rank(v), 1
  {
    match v
    case Null => JsValue.Null
    case Undefined => JsValue.Undefined
    case Bool(b) => JsValue.Bool(b)
    case Num(n) => JsValue.Num(n)
    case Str(s) => JsValue.Str(s)
    case Ref(a) => DecodeNode(h, lo, hi, a)
  }

  function DecodeNode(h: Store, lo: nat, hi: nat, a: nat): JsValue.Value
    requires Region(h, lo, hi) && lo <= a < hi
    decreases a + 1, 0
  {
    match h[a]
    case DateNode(t) => JsValue.Date(t)
    case RegExpNode(src, fl) => JsValue.RegExp(src, fl)
    case ArrayNode(elems) =>
      JsValue.Arr(seq(|elems|, i requires 0 <= i < |elems| => Decode(h, lo, hi, elems[i])))
    case MapNode(entries) =>
      JsValue.MapV(seq(|entries|, i requires 0 <= i < |entries| =>
        (Decode(h, lo, hi, entries[i].0), Decode(h, lo, hi, entries[i].1))))
    case SetNode(members) =>
      JsValue.SetV(seq(|members|, i requires 0 <= i < |members| => Decode(h, lo, hi, members[i])))
    case ObjectNode(fields, inherited) =>
      JsValue.Obj(seq(|fields|, i requires 0 <= i < |fields| => (fields[i].0, Decode(h, lo, hi, fields[i].1))),
                  inherited)
  }

  /** What a region denotes depends on its nodes alone: a store that agrees
      on [lo, hi) is the same region and denotes the same trees. So a write
      outside a region, to any node, changes nothing the region denotes. */
  lemma {:induction false} DecodeAgree(h1: Store, h2: Store, lo: nat, hi: nat, v: Val)
    requires Region(h1, lo, hi) && RefIn(v, lo, hi)
    requires forall a :: lo <= a < hi ==> a in h2 && h2[a] == h1[a]
    ensures Region(h2, lo, hi)
    ensures Decode(h2, lo, hi, v) == Decode(h1, lo, hi, v)
    decreases Rank(v), 1
  {
    if v.Ref? {
      DecodeNodeAgree(h1, h2, lo, hi, v.addr);
    }
  }

  lemma {:induction false} DecodeNodeAgree(h1: Store, h2: Store, lo: nat, hi: nat, a: nat)
    requires Region(h1, lo, hi) && lo <= a < hi
    requires forall b :: lo <= b < hi ==> b in h2 && h2[b] == h1[b]
    ensures Region(h2, lo, hi)
    ensures DecodeNode(h2, lo, hi, a) == DecodeNode(h1, lo, hi, a)
    decreases a + 1, 0
  {
    assert Region(h2, lo, hi);
    match h1[a] {
      case ArrayNode(elems) =>
        forall i | 0 <= i < |elems| ensures Decode(h2, lo, hi, elems[i]) == Decode(h1, lo, hi, elems[i]) {
          DecodeAgree(h1, h2, lo, hi, elems[i]);
        }
      case MapNode(entries) =>
        forall i | 0 <= i < |entries|
          ensures Decode(h2, lo, hi, entries[i].0) == Decode(h1, lo, hi, entries[i].0)
          ensures Decode(h2, lo, hi, entries[i].1) == Decode(h1, lo, hi, entries[i].1)
        {
          DecodeAgree(h1, h2, lo, hi, entries[i].0);
          DecodeAgree(h1, h2, lo, hi, entries[i].1);
        }
      case SetNode(members) =>
        forall i | 0 <= i < |members| ensures Decode(h2, lo, hi, members[i]) == Decode(h1, lo, hi, members[i]) {
          DecodeAgree(h1, h2, lo, hi, members[i]);
        }
      case ObjectNode(fields, _) =>
        forall i | 0 <= i < |fields| ensures Decode(h2, lo, hi, fields[i].1) == Decode(h1, lo, hi, fields[i].1) {
          DecodeAgree(h1, h2, lo, hi, fields[i].1);
        }
      case _ =>
    }
  }

  /** Reading through a wider region gives the same tree */
  lemma {:induction false} DecodeWiden(h: Store, lo: nat, hi: nat, lo2: nat, hi2: nat, v: Val)
    requires Region(h, lo, hi) && Region(h, lo2, hi2) && lo2 <= lo && hi <= hi2 && RefIn(v, lo, hi)
    ensures Decode(h, lo2, hi2, v) == Decode(h, lo, hi, v)
    decreases Rank(v), 1
  {
    if v.Ref? {
      DecodeNodeWiden(h, lo, hi, lo2, hi2, v.addr);
    }
  }

  lemma {:induction false} DecodeNodeWiden(h: Store, lo: nat, hi: nat, lo2: nat, hi2: nat, a: nat)
    requires Region(h, lo, hi) && Region(h, lo2, hi2) && lo2 <= lo && hi <= hi2 && lo <= a < hi
    ensures DecodeNode(h, lo2, hi2, a) == DecodeNode(h, lo, hi, a)
    decreases a + 1, 0
  {
    match h[a] {
      case ArrayNode(elems) =>
        forall i | 0 <= i < |elems| ensures Decode(h, lo2, hi2, elems[i]) == Decode(h, lo, hi, elems[i]) {
          DecodeWiden(h, lo, hi, lo2, hi2, elems[i]);
        }
      case MapNode(entries) =>
        forall i | 0 <= i < |entries|
          ensures Decode(h, lo2, hi2, entries[i].0) == Decode(h, lo, hi, entries[i].0)
          ensures Decode(h, lo2, hi2, entries[i].1) == Decode(h, lo, hi, entries[i].1)
        {
          DecodeWiden(h, lo, hi, lo2, hi2, entries[i].0);
          DecodeWiden(h, lo, hi, lo2, hi2, entries[i].1);
        }
      case SetNode(members) =>
        forall i | 0 <= i < |members| ensures Decode(h, lo2, hi2, members[i]) == Decode(h, lo, hi, members[i]) {
          DecodeWiden(h, lo, hi, lo2, hi2, members[i]);
        }
      case ObjectNode(fields, _) =>
        forall i | 0 <= i < |fields| ensures Decode(h, lo2, hi2, fields[i].1) == Decode(h, lo, hi, fields[i].1) {
          DecodeWiden(h, lo, hi, lo2, hi2, fields[i].1);
        }
      case _ =>
    }
  }

  /** The original lives in [0, n0) and its copy in [n0, n1), the region
      allocated by `Heap.DeepClone`: a write to any node of the copy leaves
      what the original denotes unchanged, and a write to any node of the
      original leaves what the copy denotes unchanged (terceiro.js:63-74) */
  lemma Independent(h: Store, n0: nat, n1: nat, v: Val, r: Val, a: nat, n: Node)
    requires Region(h, 0, n0) && RefIn(v, 0, n0)
    requires Region(h, n0, n1) && RefIn(r, n0, n1)
    ensures n0 <= a ==> Region(h[a := n], 0, n0) && Decode(h[a := n], 0, n0, v) == Decode(h, 0, n0, v)
    ensures a < n0 ==> Region(h[a := n], n0, n1) && Decode(h[a := n], n0, n1, r) == Decode(h, n0, n1, r)
  {
    if n0 <= a {
      DecodeAgree(h, h[a := n], 0, n0, v);
    } else {
      DecodeAgree(h, h[a := n], n0, n1, r);
    }
  }

  /** A node may refer to older nodes of a wider region too */
  lemma NodeInWiden(n: Node, lo: nat, hi: nat, lo2: nat, hi2: nat)
    requires NodeIn(n, lo, hi) && lo2 <= lo && hi <= hi2
    ensures NodeIn(n, lo2, hi2)
  {
  }

  /** Two adjacent regions, the younger referring only into both, form one */
  lemma RegionJoin(h1: Store, h: Store, n0: nat, n1: nat, n2: nat)
    requires n0 <= n1 <= n2
    requires Region(h1, n0, n1) && (forall b :: n0 <= b < n1 ==> b in h && h[b] == h1[b])
    requires Region(h, n1, n2)
    ensures Region(h, n0, n2)
  {
    forall a | n0 <= a < n2 ensures a in h && NodeIn(h[a], n0, a) {
      if a < n1 {
        NodeInWiden(h1[a], n0, a, n0, a);
      } else {
        NodeInWiden(h[a], n1, a, n0, a);
      }
    }
  }

  /** A copy made earlier still denotes the same tree after more nodes
      have been allocated */
  lemma KeepCopy(h1: Store, n1: nat, h2: Store, n2: nat, n0: nat, c: Val)
    requires n0 <= n1 <= n2 && Region(h1, n0, n1) && RefIn(c, n0, n1)
    requires forall b :: n0 <= b < n1 ==> b in h2 && h2[b] == h1[b]
    requires Region(h2, n0, n2)
    ensures Decode(h2, n0, n2, c) == Decode(h1, n0, n1, c)
  {
    DecodeAgree(h1, h2, n0, n1, c);
    DecodeWiden(h2, n0, n1, n0, n2, c);
  }

  /** The original still denotes the same tree after the heap has grown */
  lemma KeepOriginal(h0: Store, n0: nat, h1: Store, n1: nat, v: Val)
    requires n0 <= n1 && Region(h0, 0, n0) && RefIn(v, 0, n0)
    requires forall b :: 0 <= b < n0 ==> b in h1 && h1[b] == h0[b]
    requires Region(h1, 0, n1)
    ensures Decode(h1, 0, n1, v) == Decode(h0, 0, n0, v)
  {
    KeepCopy(h0, n0, h1, n1, 0, v);
  }

  /** Allocating one node whose references point into the region extends it */
  lemma RegionExtend(h: Store, lo: nat, hi: nat, n: Node)
    requires Region(h, lo, hi) && NodeIn(n, lo, hi)
    ensures Region(h[hi := n], lo, hi + 1)
  {
  }

  /** The values of a Map's entries in the order `forEach` clones them:
      each key, then its value */
  function Interleave(entries: seq<(Val, Val)>): (r: seq<Val>)
    ensures |r| == 2 * |entries|
    ensures forall j :: 0 <= j < |entries| ==> r[2 * j] == entries[j].0 && r[2 * j + 1] == entries[j].1
  {
    if entries == [] then []
    else
      var rest := Interleave(entries[1..]);
      assert forall j :: 1 <= j < |entries| ==> entries[j] == entries[1..][j - 1];
      [entries[0].0, entries[0].1] + rest
  }

  /** Every key and value of the entries refers below hi, so does every
      element of their interleaving */
  lemma InterleaveIn(entries: seq<(Val, Val)>, lo: nat, hi: nat)
    requires forall j :: 0 <= j < |entries| ==> RefIn(entries[j].0, lo, hi) && RefIn(entries[j].1, lo, hi)
    ensures forall j :: 0 <= j < |Interleave(entries)| ==> RefIn(Interleave(entries)[j], lo, hi)
  {
    var r := Interleave(entries);
    forall j | 0 <= j < |r| ensures RefIn(r[j], lo, hi) {
      var q := j / 2;
      if j == 2 * q {
        assert r[2 * q] == entries[q].0;
      } else {
        assert j == 2 * q + 1;
        assert r[2 * q + 1] == entries[q].1;
      }
    }
  }

  /** The values of an object's own fields, in order */
  function Values(fields: seq<(string, Val)>): (r: seq<Val>)
    ensures |r| == |fields| && forall j :: 0 <= j < |fields| ==> r[j] == fields[j].1
  {
    seq(|fields|, j requires 0 <= j < |fields| => fields[j].1)
  }

  /** The first |copies| of `origs` (values of region [0, n0) of `h0`) have
      been copied into region [n0, hi) of `h`: each copy denotes the clone of
      what its original denotes */
  predicate Copied(h0: Store, n0: nat, h: Store, hi: nat, origs: seq<Val>, copies: seq<Val>) {
    Region(h0, 0, n0) && Region(h, n0, hi) && |copies| <= |origs|
    && (forall j :: 0 <= j < |origs| ==> RefIn(origs[j], 0, n0))
    && (forall j :: 0 <= j < |copies| ==> RefIn(copies[j], n0, hi))
    && (forall j :: 0 <= j < |copies| ==>
          Decode(h, n0, hi, copies[j]) == ValueClone.Clone(Decode(h0, 0, n0, origs[j])))
  }

  /** One more copy made into the region that grew from [n0, n1) to
      [n0, n2): the copies made before still denote the same trees */
  lemma CopiedGrow(h0: Store, n0: nat, h1: Store, n1: nat, h2: Store, n2: nat,
                   origs: seq<Val>, copies: seq<Val>, c: Val)
    requires Copied(h0, n0, h1, n1, origs, copies) && |copies| < |origs| && n0 <= n1 <= n2
    requires Region(h1, 0, n1) && forall b :: 0 <= b < n0 ==> b in h1 && h1[b] == h0[b]
    requires forall b :: 0 <= b < n1 ==> b in h2 && h2[b] == h1[b]
    requires Region(h2, n1, n2) && RefIn(c, n1, n2)
    requires Decode(h2, n1, n2, c) == ValueClone.Clone(Decode(h1, 0, n1, origs[|copies|]))
    ensures Copied(h0, n0, h2, n2, origs, copies + [c])
  {
    CopiedKept(h0, n0, h1, n1, h2, n2, origs, copies);
    DecodeWiden(h2, n1, n2, n0, n2, c);
    KeepOriginal(h0, n0, h1, n1, origs[|copies|]);
    CopiedSnoc(h0, n0, h2, n2, origs, copies, c);
  }

  /** The copies made so far survive the region growing from [n0, n1) to [n0, n2) */
  lemma CopiedKept(h0: Store, n0: nat, h1: Store, n1: nat, h2: Store, n2: nat, origs: seq<Val>, copies: seq<Val>)
    requires Copied(h0, n0, h1, n1, origs, copies) && n0 <= n1 <= n2
    requires forall b :: n0 <= b < n1 ==> b in h2 && h2[b] == h1[b]
    requires Region(h2, n1, n2)
    ensures Copied(h0, n0, h2, n2, origs, copies)
  {
    RegionJoin(h1, h2, n0, n1, n2);
    forall j | 0 <= j < |copies|
      ensures Decode(h2, n0, n2, copies[j]) == ValueClone.Clone(Decode(h0, 0, n0, origs[j]))
    {
      KeepCopy(h1, n1, h2, n2, n0, copies[j]);
    }
  }

  /** A copy of the next original extends the copies made so far */
  lemma CopiedSnoc(h0: Store, n0: nat, h: Store, hi: nat, origs: seq<Val>, copies: seq<Val>, c: Val)
    requires Copied(h0, n0, h, hi, origs, copies) && |copies| < |origs| && RefIn(c, n0, hi)
    requires Decode(h, n0, hi, c) == ValueClone.Clone(Decode(h0, 0, n0, origs[|copies|]))
    ensures Copied(h0, n0, h, hi, origs, copies + [c])
  {
    var cs := copies + [c];
    assert forall j :: 0 <= j < |copies| ==> cs[j] == copies[j];
  }

  /** Allocating a node that refers into the region keeps every copy */
  lemma CopiedAlloc(h0: Store, n0: nat, h: Store, hi: nat, origs: seq<Val>, copies: seq<Val>, n: Node)
    requires Copied(h0, n0, h, hi, origs, copies) && n0 <= hi && NodeIn(n, n0, hi)
    ensures Copied(h0, n0, h[hi := n], hi + 1, origs, copies)
  {
    RegionExtend(h, n0, hi, n);
    forall j | 0 <= j < |copies|
      ensures Decode(h[hi := n], n0, hi + 1, copies[j]) == Decode(h, n0, hi, copies[j])
    {
      KeepCopy(h, hi, h[hi := n], hi + 1, n0, copies[j]);
    }
  }

  /** A new array or Set node made of the copies denotes the clone */
  lemma SequenceDenotes(h0: Store, n0: nat, h: Store, hi: nat, a: nat, p: nat, elems: seq<Val>, copies: seq<Val>)
    requires Copied(h0, n0, h, hi, elems, copies) && |copies| == |elems|
    requires a < n0 && n0 <= p < hi
    requires (h0[a] == ArrayNode(elems) && h[p] == ArrayNode(copies)) || (h0[a] == SetNode(elems) && h[p] == SetNode(copies))
    ensures DecodeNode(h, n0, hi, p) == ValueClone.Clone(DecodeNode(h0, 0, n0, a))
  {
  }

  /** A new Map node made of the copies, key then value, denotes the clone */
  lemma MapDenotes(h0: Store, n0: nat, h: Store, hi: nat, a: nat, p: nat,
                   entries: seq<(Val, Val)>, mapCopy: seq<(Val, Val)>, copies: seq<Val>)
    requires Copied(h0, n0, h, hi, Interleave(entries), copies) && |mapCopy| == |entries| && |copies| == 2 * |entries|
    requires a < n0 && h0[a] == MapNode(entries) && n0 <= p < hi && h[p] == MapNode(mapCopy)
    requires forall j :: 0 <= j < |mapCopy| ==> mapCopy[j] == (copies[2 * j], copies[2 * j + 1])
    ensures DecodeNode(h, n0, hi, p) == ValueClone.Clone(DecodeNode(h0, 0, n0, a))
  {
    var origs := Interleave(entries);
    var copy := DecodeNode(h, n0, hi, p).entries;
    var want := ValueClone.Clone(DecodeNode(h0, 0, n0, a)).entries;
    forall j | 0 <= j < |entries| ensures copy[j] == want[j] {
      assert copy[j] == (Decode(h, n0, hi, copies[2 * j]), Decode(h, n0, hi, copies[2 * j + 1]));
      assert origs[2 * j] == entries[j].0 && origs[2 * j + 1] == entries[j].1;
    }
  }

  /** A new plain object made of the own keys and the copies denotes the clone */
  lemma ObjectDenotes(h0: Store, n0: nat, h: Store, hi: nat, a: nat, p: nat,
                      fields: seq<(string, Val)>, inherited: seq<string>, objCopy: seq<(string, Val)>, copies: seq<Val>)
    requires Copied(h0, n0, h, hi, Values(fields), copies) && |objCopy| == |fields| == |copies|
    requires a < n0 && h0[a] == ObjectNode(fields, inherited) && n0 <= p < hi && h[p] == ObjectNode(objCopy, [])
    requires forall j :: 0 <= j < |objCopy| ==> objCopy[j] == (fields[j].0, copies[j])
    ensures DecodeNode(h, n0, hi, p) == ValueClone.Clone(DecodeNode(h0, 0, n0, a))
  {
    var copy := DecodeNode(h, n0, hi, p).fields;
    var want := ValueClone.Clone(DecodeNode(h0, 0, n0, a)).fields;
    forall j | 0 <= j < |fields| ensures copy[j] == want[j] {
      assert copy[j] == (fields[j].0, Decode(h, n0, hi, copies[j]));
    }
  }

  /** `copy` is the container node the source builds for `orig` once the
      values `origs` held by `orig` have been copied to `copies`: same kind,
      same order, same keys, and no inherited keys on a plain object */
  predicate Mirrors(orig: Node, copy: Node, origs: seq<Val>, copies: seq<Val>) {
    |copies| == |origs| &&
    match orig
    case ArrayNode(elems) => origs == elems && copy == ArrayNode(copies)
    case SetNode(members) => origs == members && copy == SetNode(copies)
    case MapNode(entries) =>
      origs == Interleave(entries) && copy.MapNode? && |copy.entries| == |entries| &&
      forall j :: 0 <= j < |entries| ==> copy.entries[j] == (copies[2 * j], copies[2 * j + 1])
    case ObjectNode(fields, _) =>
      origs == Values(fields) && copy.ObjectNode? && copy.inherited == [] && |copy.fields| == |fields| &&
      forall j :: 0 <= j < |fields| ==> copy.fields[j] == (fields[j].0, copies[j])
    case _ => false
  }

  /** A mirror made of references into [lo, hi) refers only into [lo, hi) */
  lemma MirrorsIn(orig: Node, copy: Node, origs: seq<Val>, copies: seq<Val>, lo: nat, hi: nat)
    requires Mirrors(orig, copy, origs, copies)
    requires forall j :: 0 <= j < |copies| ==> RefIn(copies[j], lo, hi)
    ensures NodeIn(copy, lo, hi)
  {
    if orig.MapNode? {
      forall j | 0 <= j < |copy.entries|
        ensures RefIn(copy.entries[j].0, lo, hi) && RefIn(copy.entries[j].1, lo, hi)
      {
        assert copy.entries[j] == (copies[2 * j], copies[2 * j + 1]);
      }
    }
  }

  /** A new mirror node made of the copies denotes the clone of the original */
  lemma NodeDenotes(h0: Store, n0: nat, h: Store, hi: nat, a: nat, p: nat, origs: seq<Val>, copies: seq<Val>)
    requires Copied(h0, n0, h, hi, origs, copies)
    requires a < n0 && n0 <= p < hi && Mirrors(h0[a], h[p], origs, copies)
    ensures DecodeNode(h, n0, hi, p) == ValueClone.Clone(DecodeNode(h0, 0, n0, a))
  {
    match h0[a]
    case ArrayNode(elems) =>
      SequenceDenotes(h0, n0, h, hi, a, p, elems, copies);
    case SetNode(members) =>
      SequenceDenotes(h0, n0, h, hi, a, p, members, copies);
    case MapNode(entries) =>
      MapDenotes(h0, n0, h, hi, a, p, entries, h[p].entries, copies);
    case ObjectNode(fields, inherited) =>
      ObjectDenotes(h0, n0, h, hi, a, p, fields, inherited, h[p].fields, copies);
  }

  /** The heap of a running program: `next` is the next address to allocate */
  class Heap {
    var nodes: Store
    var next: nat

    ghost predicate Valid()
      reads this
    {
      (forall a :: a in nodes ==> a < next) && Region(nodes, 0, next)
    }

    /** Since `h0` with `n0` nodes: nodes below `n0` unchanged, and the
        nodes allocated since form a region of their own */
    ghost predicate GrownFrom(h0: Store, n0: nat)
      reads this
    {
      Valid() && n0 <= next &&
      (forall b :: 0 <= b < n0 ==> b in h0 && b in nodes && nodes[b] == h0[b]) &&
      Region(nodes, n0, next)
    }

    constructor Empty()
      ensures Valid() && nodes == map[] && next == 0
    {
      nodes := map[];
      next := 0;
    }

    /** `new`: the node gets an address no existing reference holds */
    method Alloc(n: Node) returns (a: nat)
      requires Valid() && NodeIn(n, 0, next)
      modifies this
      ensures Valid()
      ensures a == old(next) && a !in old(nodes)
      ensures nodes == old(nodes)[a := n] && next == old(next) + 1
    {
      a := next;
      nodes := nodes[a := n];
      next := next + 1;
    }

    /** deepClone (terceiro.js:1-53): primitives come back as they are; every
        node reachable from `v` is copied into a newly allocated node, and the
        copy denotes the clone of the tree `v` denotes */
    method DeepClone(v: Val) returns (r: Val)
      requires Valid() && RefIn(v, 0, next)
      modifies this
      ensures GrownFrom(old(nodes), old(next))
      ensures RefIn(r, old(next), next)
      ensures !v.Ref? ==> r == v
      ensures Decode(nodes, old(next), next, r) == ValueClone.Clone(Decode(old(nodes), 0, old(next), v))
      decreases Rank(v), 1
    {
      if !v.Ref? {
        r := v;
        return;
      }
      var a := v.addr;
      match nodes[a]
      case DateNode(t) =>
        var p := Alloc(DateNode(t));
        r := Ref(p);
      case RegExpNode(src, fl) =>
        var p := Alloc(RegExpNode(src, fl));
        r := Ref(p);
      case ArrayNode(elems) =>
        r := CopyArray(a, elems);
      case MapNode(entries) =>
        r := CopyMap(a, entries);
      case SetNode(members) =>
        r := CopySet(a, members);
      case ObjectNode(fields, inherited) =>
        r := CopyObject(a, fields, inherited);
    }

    /** Copying into the region allocated since `h0` is under way */
    ghost predicate CopiesOK(h0: Store, n0: nat, origs: seq<Val>, copies: seq<Val>)
      reads this
    {
      GrownFrom(h0, n0) && Copied(h0, n0, nodes, next, origs, copies)
    }

    /** The next original copied; the copies made before are kept */
    method CopyNext(ghost h0: Store, ghost n0: nat, ghost origs: seq<Val>, ghost copies: seq<Val>, x: Val)
      returns (c: Val)
      requires CopiesOK(h0, n0, origs, copies) && |copies| < |origs| && x == origs[|copies|]
      modifies this
      ensures CopiesOK(h0, n0, origs, copies + [c])
      decreases Rank(x), 2
    {
      ghost var h1, n1 := nodes, next;
      c := DeepClone(x);
      CopiedGrow(h0, n0, h1, n1, nodes, next, origs, copies, c);
    }

    /** One Map entry copied, its key before its value */
    method CopyEntry(ghost h0: Store, ghost n0: nat, ghost origs: seq<Val>, ghost copies: seq<Val>, e: (Val, Val))
      returns (key: Val, value: Val)
      requires CopiesOK(h0, n0, origs, copies) && |copies| + 2 <= |origs|
      requires e == (origs[|copies|], origs[|copies| + 1])
      modifies this
      ensures CopiesOK(h0, n0, origs, copies + [key, value])
      decreases if Rank(e.0) < Rank(e.1) then Rank(e.1) else Rank(e.0), 3
    {
      key := CopyNext(h0, n0, origs, copies, e.0);
      value := CopyNext(h0, n0, origs, copies + [key], e.1);
      assert copies + [key] + [value] == copies + [key, value];
    }

    /** Allocating the container built for node `a` of `h0`: it denotes the
        clone of what `a` denotes */
    method Finish(ghost h0: Store, ghost n0: nat, ghost a: nat, ghost origs: seq<Val>, ghost copies: seq<Val>, n: Node)
      returns (r: Val)
      requires CopiesOK(h0, n0, origs, copies) && a < n0 && Mirrors(h0[a], n, origs, copies)
      modifies this
      ensures GrownFrom(h0, n0) && r.Ref? && RefIn(r, n0, next)
      ensures Decode(nodes, n0, next, r) == ValueClone.Clone(DecodeNode(h0, 0, n0, a))
    {
      ghost var h2 := nodes;
      MirrorsIn(h0[a], n, origs, copies, n0, next);
      NodeInWiden(n, n0, next, 0, next);
      var p := Alloc(n);
      CopiedAlloc(h0, n0, h2, p, origs, copies, n);
      NodeDenotes(h0, n0, nodes, next, a, p, origs, copies);
      r := Ref(p);
    }

    /** The copying loop shared by the container branches: each original,
        in order, through `deepClone` */
    method CopyAll(ghost a: nat, ghost h0: Store, ghost n0: nat, origs: seq<Val>) returns (copies: seq<Val>)
      requires CopiesOK(h0, n0, origs, []) && a <= n0
      requires forall j :: 0 <= j < |origs| ==> RefIn(origs[j], 0, a)
      modifies this
      ensures CopiesOK(h0, n0, origs, copies) && |copies| == |origs|
      decreases a, 3
    {
      copies := [];
      var i := 0;
      while i < |origs|
        invariant i == |copies| <= |origs|
        invariant CopiesOK(h0, n0, origs, copies)
      {
        var c := CopyNext(h0, n0, origs, copies, origs[i]);
        copies := copies + [c];
        i := i + 1;
      }
    }

    /** Array branch (terceiro.js:18-24): element by element, in index order */
    method CopyArray(a: nat, elems: seq<Val>) returns (r: Val)
      requires Valid() && a < next && a in nodes && nodes[a] == ArrayNode(elems)
      modifies this
      ensures GrownFrom(old(nodes), old(next)) && r.Ref? && RefIn(r, old(next), next)
      ensures Decode(nodes, old(next), next, r) == ValueClone.Clone(DecodeNode(old(nodes), 0, old(next), a))
      decreases a + 1, 0
    {
      ghost var h0, n0 := nodes, next;
      assert NodeIn(nodes[a], 0, a);
      var arrCopy := CopyAll(a, h0, n0, elems);
      r := Finish(h0, n0, a, elems, arrCopy, ArrayNode(arrCopy));
    }

    /** Set branch (terceiro.js:36-42): members in insertion order */
    method CopySet(a: nat, members: seq<Val>) returns (r: Val)
      requires Valid() && a < next && a in nodes && nodes[a] == SetNode(members)
      modifies this
      ensures GrownFrom(old(nodes), old(next)) && r.Ref? && RefIn(r, old(next), next)
      ensures Decode(nodes, old(next), next, r) == ValueClone.Clone(DecodeNode(old(nodes), 0, old(next), a))
      decreases a + 1, 0
    {
      ghost var h0, n0 := nodes, next;
      assert NodeIn(nodes[a], 0, a);
      var setCopy := CopyAll(a, h0, n0, members);
      r := Finish(h0, n0, a, members, setCopy, SetNode(setCopy));
    }

    /** The Map's `forEach` loop (terceiro.js:29-31): per entry, the key is
        copied before the value */
    method CopyEntries(ghost a: nat, ghost h0: Store, ghost n0: nat, entries: seq<(Val, Val)>)
      returns (mapCopy: seq<(Val, Val)>, ghost copies: seq<Val>)
      requires CopiesOK(h0, n0, Interleave(entries), []) && a <= n0
      requires forall j :: 0 <= j < |entries| ==> RefIn(entries[j].0, 0, a) && RefIn(entries[j].1, 0, a)
      modifies this
      ensures CopiesOK(h0, n0, Interleave(entries), copies)
      ensures |mapCopy| == |entries| && |copies| == 2 * |entries|
      ensures forall j :: 0 <= j < |mapCopy| ==> mapCopy[j] == (copies[2 * j], copies[2 * j + 1])
      decreases a, 4
    {
      ghost var origs := Interleave(entries);
      mapCopy, copies := [], [];
      var i := 0;
      while i < |entries|
        invariant i == |mapCopy| <= |entries| && |copies| == 2 * i
        invariant CopiesOK(h0, n0, origs, copies)
        invariant forall j :: 0 <= j < i ==> mapCopy[j] == (copies[2 * j], copies[2 * j + 1])
      {
        var key, value := CopyEntry(h0, n0, origs, copies, entries[i]);
        copies := copies + [key, value];
        mapCopy := mapCopy + [(key, value)];
        i := i + 1;
      }
    }

    /** Map branch (terceiro.js:27-33): a new Map of the copied entries */
    method CopyMap(a: nat, entries: seq<(Val, Val)>) returns (r: Val)
      requires Valid() && a < next && a in nodes && nodes[a] == MapNode(entries)
      modifies this
      ensures GrownFrom(old(nodes), old(next)) && r.Ref? && RefIn(r, old(next), next)
      ensures Decode(nodes, old(next), next, r) == ValueClone.Clone(DecodeNode(old(nodes), 0, old(next), a))
      decreases a + 1, 0
    {
      ghost var h0, n0 := nodes, next;
      assert NodeIn(nodes[a], 0, a);
      InterleaveIn(entries, 0, n0);
      var mapCopy, copies := CopyEntries(a, h0, n0, entries);
      r := Finish(h0, n0, a, Interleave(entries), copies, MapNode(mapCopy));
    }

    /** The `for...in` loop with its `hasOwnProperty` filter
        (terceiro.js:46-50): each own field, in order, keeps its key and gets
        a copy of its value */
    method CopyFields(ghost a: nat, ghost h0: Store, ghost n0: nat, fields: seq<(string, Val)>)
      returns (objCopy: seq<(string, Val)>, ghost copies: seq<Val>)
      requires CopiesOK(h0, n0, Values(fields), []) && a <= n0
      requires forall j :: 0 <= j < |fields| ==> RefIn(fields[j].1, 0, a)
      modifies this
      ensures CopiesOK(h0, n0, Values(fields), copies) && |objCopy| == |fields| == |copies|
      ensures forall j :: 0 <= j < |objCopy| ==> objCopy[j] == (fields[j].0, copies[j])
      decreases a, 3
    {
      ghost var origs := Values(fields);
      objCopy, copies := [], [];
      var i := 0;
      while i < |fields|
        invariant i == |objCopy| == |copies| <= |fields|
        invariant CopiesOK(h0, n0, origs, copies)
        invariant forall j :: 0 <= j < i ==> objCopy[j] == (fields[j].0, copies[j])
      {
        var c := CopyNext(h0, n0, origs, copies, fields[i].1);
        copies := copies + [c];
        objCopy := objCopy + [(fields[i].0, c)];
        i := i + 1;
      }
    }

    /** Object branch (terceiro.js:45-52): a fresh plain object, with no
        inherited keys, holding the copied own fields */
    method CopyObject(a: nat, fields: seq<(string, Val)>, inherited: seq<string>) returns (r: Val)
      requires Valid() && a < next && a in nodes && nodes[a] == ObjectNode(fields, inherited)
      modifies this
      ensures GrownFrom(old(nodes), old(next)) && r.Ref? && RefIn(r, old(next), next)
      ensures Decode(nodes, old(next), next, r) == ValueClone.Clone(DecodeNode(old(nodes), 0, old(next), a))
      decreases a + 1, 0
    {
      ghost var h0, n0 := nodes, next;
      assert NodeIn(nodes[a], 0, a);
      var objCopy, copies := CopyFields(a, h0, n0, fields);
      r := Finish(h0, n0, a, Values(fields), copies, ObjectNode(objCopy, []));
    }
  }
}
