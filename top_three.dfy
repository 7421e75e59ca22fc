/** `top3MaisRepetidos` (primeiro.js): count how often each number occurs,
    rank the numbers by count, highest first, and keep the first three. */
module TopThree {
  import opened JsValue

  /** `{ numero, contagem }` */
  datatype Entry = Entry(numero: int, contagem: nat)

  /** How often `n` occurs in `a` */
  function Occ(a: seq<int>, n: int): nat {
    multiset(a)[n]
  }

  predicate Distinct<T(==)>(s: seq<T>) {
    forall i, j :: 0 <= i < j < |s| ==> s[i] != s[j]
  }

  /** The distinct numbers of `a` in order of first occurrence: the order in
      which the counting loop creates keys of `frequencia` */
  function FirstOccurrences(a: seq<int>): (r: seq<int>)
    ensures Distinct(r)
    ensures forall n :: n in r <==> n in a
  {
    if a == [] then []
    else
      var p := FirstOccurrences(a[..|a| - 1]);
      var x := a[|a| - 1];
      assert a == a[..|a| - 1] + [x];
      if x in p then p else p + [x]
  }

  /** The counting loop (`frequencia[num] = (frequencia[num] || 0) + 1` for
      each element): `frequencia` as a map, with the order its keys were
      created in */
  method CountFrequencies(a: seq<int>) returns (frequencia: map<int, nat>, created: seq<int>)
    ensures forall n :: n in frequencia <==> n in a
    ensures forall n :: n in frequencia ==> frequencia[n] == Occ(a, n)
    ensures created == FirstOccurrences(a)
  {
    frequencia := map[];
    created := [];
    for i := 0 to |a|
      invariant forall n :: n in frequencia <==> n in a[..i]
      invariant forall n :: n in frequencia ==> frequencia[n] == Occ(a[..i], n)
      invariant created == FirstOccurrences(a[..i])
    {
      var num := a[i];
      assert a[..i + 1] == a[..i] + [num];
      assert a[..i + 1][..i] == a[..i];
      var previous := if num in frequencia then frequencia[num] else 0;
      if num !in frequencia {
        created := created + [num];
      }
      frequencia := frequencia[num := previous + 1];
    }
    assert a[..|a|] == a;
  }

  /** The sum of the occurrence counts in `a` of the numbers in `s` */
  function SumOcc(s: seq<int>, a: seq<int>): nat {
    if s == [] then 0 else Occ(a, s[0]) + SumOcc(s[1..], a)
  }

  lemma {:induction false} SumOccSnoc(s: seq<int>, a: seq<int>, x: int)
    requires Distinct(s)
    ensures SumOcc(s, a + [x]) == SumOcc(s, a) + (if x in s then 1 else 0)
  {
    if s != [] {
      SumOccSnoc(s[1..], a, x);
    }
  }

  lemma {:induction false} SumOccAppend(s: seq<int>, x: int, a: seq<int>)
    ensures SumOcc(s + [x], a) == SumOcc(s, a) + Occ(a, x)
  {
    if s != [] {
      assert (s + [x])[1..] == s[1..] + [x];
      SumOccAppend(s[1..], x, a);
    } else {
      assert [x][1..] == [];
    }
  }

  lemma {:induction false} SumOccAbsent(s: seq<int>, a: seq<int>, x: int)
    requires x !in s
    ensures SumOcc(s, a + [x]) == SumOcc(s, a)
  {
    if s != [] {
      SumOccAbsent(s[1..], a, x);
    }
  }

  /** The counts over all distinct numbers add up to the length of the input */
  lemma {:induction false} CountsSumToLength(a: seq<int>)
    ensures SumOcc(FirstOccurrences(a), a) == |a|
  {
    if a != [] {
      var init := a[..|a| - 1];
      var x := a[|a| - 1];
      assert a == init + [x];
      var p := FirstOccurrences(init);
      CountsSumToLength(init);
      if x in p {
        SumOccSnoc(p, init, x);
      } else {
        SumOccAbsent(p, init, x);
        SumOccAppend(p, x, a);
        assert Occ(a, x) == 1;
      }
    }
  }

  /** A repeated element occurs at least twice in the multiset */
  lemma RepeatCountsTwice<T>(s: seq<T>, i: nat, j: nat)
    requires i < j < |s| && s[i] == s[j]
    ensures multiset(s)[s[i]] >= 2
  {
    assert s == s[..j] + s[j..];
    assert s[i] in s[..j] && s[j] in s[j..];
  }

  lemma {:induction false} DistinctCountsOnce<T>(s: seq<T>, x: T)
    requires Distinct(s)
    ensures multiset(s)[x] <= 1
  {
    if s != [] {
      assert s == [s[0]] + s[1..];
      DistinctCountsOnce(s[1..], x);
    }
  }

  /** A rearrangement of a list without repeats has no repeats */
  lemma DistinctPermutation<T>(s: seq<T>, t: seq<T>)
    requires Distinct(s) && multiset(s) == multiset(t)
    ensures Distinct(t)
  {
    forall i, j | 0 <= i < j < |t| ensures t[i] != t[j] {
      if t[i] == t[j] {
        RepeatCountsTwice(t, i, j);
        DistinctCountsOnce(s, t[i]);
      }
    }
  }

  /** The integer keys JS enumerates first, in ascending order: the array
      indices 0 .. 2^32 - 2 */
  predicate IsArrayIndex(n: int) {
    0 <= n < 0xFFFF_FFFF
  }

  function IndexKeys(s: seq<int>): (r: seq<int>)
    ensures forall i :: 0 <= i < |r| ==> IsArrayIndex(r[i])
  {
    if s == [] then []
    else (if IsArrayIndex(s[0]) then [s[0]] else []) + IndexKeys(s[1..])
  }

  function OtherKeys(s: seq<int>): (r: seq<int>)
    ensures forall i :: 0 <= i < |r| ==> !IsArrayIndex(r[i])
  {
    if s == [] then []
    else (if IsArrayIndex(s[0]) then [] else [s[0]]) + OtherKeys(s[1..])
  }

  lemma {:induction false} SplitKeys(s: seq<int>)
    ensures multiset(IndexKeys(s)) + multiset(OtherKeys(s)) == multiset(s)
  {
    if s != [] {
      SplitKeys(s[1..]);
      assert s == [s[0]] + s[1..];
    }
  }

  predicate Ascending(s: seq<int>) {
    forall i, j :: 0 <= i < j < |s| ==> s[i] <= s[j]
  }

  function InsertAscending(x: int, s: seq<int>): (r: seq<int>)
    requires Ascending(s)
    ensures multiset(r) == multiset(s) + multiset{x}
    ensures Ascending(r)
  {
    if s == [] || x <= s[0] then
      ConsAscending(x, s);
      [x] + s
    else
      var rest := InsertAscending(x, s[1..]);
      assert s == [s[0]] + s[1..];
      LowerBoundKept(s[0], x, s[1..], rest);
      ConsAscending(s[0], rest);
      [s[0]] + rest
  }

  lemma ConsAscending(x: int, s: seq<int>)
    requires Ascending(s) && (s != [] ==> x <= s[0])
    ensures Ascending([x] + s)
  {
    var r := [x] + s;
    forall i, j | 0 <= i < j < |r| ensures r[i] <= r[j] {
      if i == 0 {
        assert r[j] == s[j - 1];
      } else {
        assert r[i] == s[i - 1] && r[j] == s[j - 1];
      }
    }
  }

  lemma LowerBoundKept(lo: int, x: int, s: seq<int>, r: seq<int>)
    requires lo <= x && (forall i :: 0 <= i < |s| ==> lo <= s[i])
    requires multiset(r) == multiset(s) + multiset{x}
    ensures forall i :: 0 <= i < |r| ==> lo <= r[i]
  {
    forall i | 0 <= i < |r| ensures lo <= r[i] {
      assert r[i] in multiset(r);
      if r[i] != x {
        assert r[i] in multiset(s);
      }
    }
  }

  function SortAscending(s: seq<int>): (r: seq<int>)
    ensures multiset(r) == multiset(s)
    ensures Ascending(r)
  {
    if s == [] then []
    else
      assert s == [s[0]] + s[1..];
      InsertAscending(s[0], SortAscending(s[1..]))
  }

  /** The order `Object.entries` lists the keys of `frequencia` in, given the
      order they were created in: array indices ascending, then the other
      keys in creation order */
  function KeyOrder(created: seq<int>): (r: seq<int>)
    ensures multiset(r) == multiset(created)
  {
    SplitKeys(created);
    SortAscending(IndexKeys(created)) + OtherKeys(created)
  }

  /** Every array index precedes every other key, and the indices ascend */
  lemma KeyOrderShape(created: seq<int>)
    ensures var r := KeyOrder(created);
      var k := |IndexKeys(created)|;
      k <= |r|
      && (forall i :: 0 <= i < |r| ==> (IsArrayIndex(r[i]) <==> i < k))
      && (forall i, j :: 0 <= i < j < k ==> r[i] <= r[j])
      && r[k..] == OtherKeys(created)
  {
    var sorted := SortAscending(IndexKeys(created));
    assert |sorted| == |multiset(sorted)| == |IndexKeys(created)|;
    forall i | 0 <= i < |sorted| ensures IsArrayIndex(sorted[i]) {
      assert sorted[i] in multiset(IndexKeys(created));
    }
  }

  /** `Object.entries(frequencia).map(...)`: one entry per distinct number of
      `a`, with its count, in key order */
  function Entries(a: seq<int>): (r: seq<Entry>)
    ensures |r| == |FirstOccurrences(a)|
    ensures Numbers(r) == KeyOrder(FirstOccurrences(a))
    ensures forall i :: 0 <= i < |r| ==> r[i].contagem == Occ(a, r[i].numero)
  {
    var keys := KeyOrder(FirstOccurrences(a));
    assert |keys| == |multiset(keys)| == |FirstOccurrences(a)|;
    seq(|keys|, i requires 0 <= i < |keys| => Entry(keys[i], Occ(a, keys[i])))
  }

  function Numbers(s: seq<Entry>): (r: seq<int>)
    ensures |r| == |s| && forall i :: 0 <= i < |s| ==> r[i] == s[i].numero
  {
    seq(|s|, i requires 0 <= i < |s| => s[i].numero)
  }

  /** Each entry carries the true count of its number; numbers are distinct;
      and every number of `a` has an entry */
  predicate FaithfulEntries(s: seq<Entry>, a: seq<int>) {
    (forall i :: 0 <= i < |s| ==> s[i].numero in a && s[i].contagem == Occ(a, s[i].numero))
    && Distinct(Numbers(s))
    && (forall n :: n in a ==> n in Numbers(s))
  }

  lemma EntriesFaithful(a: seq<int>)
    ensures FaithfulEntries(Entries(a), a)
  {
    var fo := FirstOccurrences(a);
    var keys := KeyOrder(fo);
    var e := Entries(a);
    assert Numbers(e) == keys;
    DistinctPermutation(fo, keys);
    KeysAreNumbers(a, fo, keys);
  }

  lemma KeysAreNumbers(a: seq<int>, fo: seq<int>, keys: seq<int>)
    requires forall n :: n in fo <==> n in a
    requires multiset(keys) == multiset(fo)
    ensures forall n :: n in keys <==> n in a
  {
    forall n ensures n in keys <==> n in a {
      assert n in keys <==> n in multiset(keys);
      assert n in fo <==> n in multiset(fo);
    }
  }

  predicate NonIncreasing(s: seq<Entry>) {
    forall i, j :: 0 <= i < j < |s| ==> s[i].contagem >= s[j].contagem
  }

  /** Insert `x` before the first entry whose count is not greater, so that
      among equal counts the earlier entry stays first */
  function InsertByCount(x: Entry, s: seq<Entry>): (r: seq<Entry>)
    requires NonIncreasing(s)
    ensures multiset(r) == multiset(s) + multiset{x}
    ensures NonIncreasing(r)
  {
    if s == [] || s[0].contagem <= x.contagem then
      ConsNonIncreasing(x, s);
      [x] + s
    else
      var rest := InsertByCount(x, s[1..]);
      assert s == [s[0]] + s[1..];
      UpperBoundKept(s[0].contagem, x, s[1..], rest);
      ConsNonIncreasing(s[0], rest);
      [s[0]] + rest
  }

  lemma ConsNonIncreasing(x: Entry, s: seq<Entry>)
    requires NonIncreasing(s) && (s != [] ==> s[0].contagem <= x.contagem)
    ensures NonIncreasing([x] + s)
  {
    var r := [x] + s;
    forall i, j | 0 <= i < j < |r| ensures r[i].contagem >= r[j].contagem {
      if i == 0 {
        assert r[j] == s[j - 1];
      } else {
        assert r[i] == s[i - 1] && r[j] == s[j - 1];
      }
    }
  }

  lemma UpperBoundKept(hi: nat, x: Entry, s: seq<Entry>, r: seq<Entry>)
    requires x.contagem <= hi && (forall i :: 0 <= i < |s| ==> s[i].contagem <= hi)
    requires multiset(r) == multiset(s) + multiset{x}
    ensures forall i :: 0 <= i < |r| ==> r[i].contagem <= hi
  {
    forall i | 0 <= i < |r| ensures r[i].contagem <= hi {
      assert r[i] in multiset(r);
      if r[i] != x {
        assert r[i] in multiset(s);
      }
    }
  }

  /** `.sort((a, b) => b.contagem - a.contagem)`: a stable sort, highest
      count first */
  function SortByCount(s: seq<Entry>): (r: seq<Entry>)
    ensures multiset(r) == multiset(s)
    ensures NonIncreasing(r)
  {
    if s == [] then []
    else
      assert s == [s[0]] + s[1..];
      InsertByCount(s[0], SortByCount(s[1..]))
  }

  /** A rearrangement of faithful entries is faithful */
  lemma FaithfulPermutation(s: seq<Entry>, t: seq<Entry>, a: seq<int>)
    requires FaithfulEntries(s, a) && multiset(s) == multiset(t)
    ensures FaithfulEntries(t, a)
  {
    forall i | 0 <= i < |t| ensures t[i].numero in a && t[i].contagem == Occ(a, t[i].numero) {
      assert t[i] in multiset(s);
    }
    DistinctEntries(s);
    DistinctPermutation(s, t);
    assert Distinct(Numbers(t)) by {
      forall i, j | 0 <= i < j < |t| ensures t[i].numero != t[j].numero {
        assert t[i] != t[j];
      }
    }
    forall n | n in a ensures n in Numbers(t) {
      var k :| 0 <= k < |s| && Numbers(s)[k] == n;
      assert s[k] in multiset(t);
      var m :| 0 <= m < |t| && t[m] == s[k];
      assert Numbers(t)[m] == n;
    }
  }

  /** Entries with distinct numbers are distinct entries */
  lemma DistinctEntries(s: seq<Entry>)
    requires Distinct(Numbers(s))
    ensures Distinct(s)
  {
    forall i, j | 0 <= i < j < |s| ensures s[i] != s[j] {
      assert Numbers(s)[i] != Numbers(s)[j];
    }
  }

  function Min(x: int, y: int): int {
    if x < y then x else y
  }

  /** The entries of `a`, ranked */
  function Ranked(a: seq<int>): seq<Entry> {
    SortByCount(Entries(a))
  }

  /** top3MaisRepetidos(array): `[]` for a missing or empty array, otherwise
      the first three ranked entries */
  function TopThreeOf(input: Option<seq<int>>): seq<Entry> {
    if input.None? || |input.value| == 0 then []
    else
      var ranked := Ranked(input.value);
      ranked[..Min(3, |ranked|)]
  }

  /** `Object.entries(frequencia).map(...)` over the keys in `keys` */
  function ListEntries(frequencia: map<int, nat>, keys: seq<int>): (r: seq<Entry>)
    requires forall i :: 0 <= i < |keys| ==> keys[i] in frequencia
    ensures |r| == |keys| && Numbers(r) == keys
    ensures forall i :: 0 <= i < |r| ==> r[i].numero in frequencia && r[i].contagem == frequencia[r[i].numero]
  {
    seq(|keys|, i requires 0 <= i < |keys| => Entry(keys[i], frequencia[keys[i]]))
  }

  /** Listing the counted map in key order gives the entries of `a` */
  lemma ListEntriesOfCount(a: seq<int>, frequencia: map<int, nat>, created: seq<int>)
    requires forall n :: n in frequencia <==> n in a
    requires forall n :: n in frequencia ==> frequencia[n] == Occ(a, n)
    requires created == FirstOccurrences(a)
    ensures forall i :: 0 <= i < |KeyOrder(created)| ==> KeyOrder(created)[i] in frequencia
    ensures ListEntries(frequencia, KeyOrder(created)) == Entries(a)
  {
    var keys := KeyOrder(created);
    KeysAreNumbers(a, created, keys);
    forall i | 0 <= i < |keys| ensures keys[i] in frequencia {
      assert keys[i] in keys;
    }
    var entries := ListEntries(frequencia, keys);
    var want := Entries(a);
    assert |keys| == |created| by {
      assert |keys| == |multiset(keys)|;
    }
    forall i | 0 <= i < |entries| ensures entries[i] == want[i] {
      assert want[i] == Entry(keys[i], Occ(a, keys[i]));
      assert frequencia[keys[i]] == Occ(a, keys[i]);
    }
  }

  /** The source's pipeline: count in a loop, list the entries, sort, slice */
  method TopThreeMostRepeated(input: Option<seq<int>>) returns (top3: seq<Entry>)
    ensures top3 == TopThreeOf(input)
    ensures input.None? || input.value == [] ==> top3 == []
  {
    if input.None? || |input.value| == 0 {
      return [];
    }
    var a := input.value;
    var frequencia, created := CountFrequencies(a);
    ListEntriesOfCount(a, frequencia, created);
    var entries := ListEntries(frequencia, KeyOrder(created));
    var ordenado := SortByCount(entries);
    top3 := ordenado[..Min(3, |ordenado|)];
  }

  lemma RankedFaithful(a: seq<int>)
    ensures FaithfulEntries(Ranked(a), a)
    ensures NonIncreasing(Ranked(a))
    ensures |Ranked(a)| == |FirstOccurrences(a)|
  {
    EntriesFaithful(a);
    FaithfulPermutation(Entries(a), Ranked(a), a);
    assert |Ranked(a)| == |multiset(Ranked(a))| == |Entries(a)|;
  }

  /** At most three entries, and fewer only when there are fewer distinct
      numbers */
  lemma TopThreeSize(input: Option<seq<int>>)
    ensures |TopThreeOf(input)| <= 3
    ensures input.Some? ==> |TopThreeOf(input)| == Min(3, |FirstOccurrences(input.value)|)
  {
    if input.Some? && |input.value| > 0 {
      RankedFaithful(input.value);
    }
  }

  lemma PrefixFaithful(s: seq<Entry>, m: nat, a: seq<int>)
    requires m <= |s| && FaithfulEntries(s, a)
    ensures forall i :: 0 <= i < m ==> s[..m][i].numero in a && s[..m][i].contagem == Occ(a, s[..m][i].numero)
    ensures Distinct(Numbers(s[..m]))
  {
    assert Numbers(s[..m]) == Numbers(s)[..m];
  }

  /** Counts never increase along the result */
  lemma TopThreeOrdered(input: Option<seq<int>>)
    ensures NonIncreasing(TopThreeOf(input))
  {
    if input.Some? && |input.value| > 0 {
      RankedFaithful(input.value);
    }
  }

  /** Each reported number occurs in the input, its reported count is its
      number of occurrences, and no number is reported twice */
  lemma TopThreeCounts(input: Option<seq<int>>)
    requires input.Some?
    ensures forall i :: 0 <= i < |TopThreeOf(input)| ==>
      var e := TopThreeOf(input)[i];
      e.numero in input.value && e.contagem == Occ(input.value, e.numero)
    ensures Distinct(Numbers(TopThreeOf(input)))
  {
    if |input.value| > 0 {
      var ranked := Ranked(input.value);
      RankedFaithful(input.value);
      PrefixFaithful(ranked, Min(3, |ranked|), input.value);
    }
  }

  /** No number left out occurs more often than the last one reported */
  lemma TopThreeDominates(input: Option<seq<int>>, n: int)
    requires input.Some? && n in input.value && n !in Numbers(TopThreeOf(input))
    ensures |TopThreeOf(input)| == 3
    ensures Occ(input.value, n) <= TopThreeOf(input)[2].contagem
  {
    var a := input.value;
    RankedFaithful(a);
    var ranked := Ranked(a);
    assert TopThreeOf(input) == ranked[..Min(3, |ranked|)];
    PrefixDominates(ranked, a, n);
  }

  /** A number of `a` missing from the first three entries of a faithful
      ranked list counts no more than the third entry */
  lemma PrefixDominates(s: seq<Entry>, a: seq<int>, n: int)
    requires FaithfulEntries(s, a) && NonIncreasing(s)
    requires n in a && n !in Numbers(s[..Min(3, |s|)])
    ensures Min(3, |s|) == 3 && Occ(a, n) <= s[2].contagem
  {
    var m := Min(3, |s|);
    assert n in Numbers(s);
    var k :| 0 <= k < |s| && Numbers(s)[k] == n;
    assert forall i :: 0 <= i < m ==> s[i].numero != n by {
      forall i | 0 <= i < m ensures s[i].numero != n {
        assert Numbers(s[..m])[i] in Numbers(s[..m]);
      }
    }
    assert m <= k;
  }
}
