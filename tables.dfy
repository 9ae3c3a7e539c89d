/**
 * Count tables. A Python dict used as a counter is an insertion-ordered list
 * of (key, count) entries: iteration, `list(d.keys())` and `d.items()` follow
 * the order in which keys were first inserted, and `d[k] = d.get(k, 0) + n`
 * either bumps an existing entry in place or appends a new one.
 */
module Tables {
  import opened Seqs

  datatype Entry<K> = Entry(key: K, count: nat)

  function Keys<K>(t: seq<Entry<K>>): seq<K> {
    seq(|t|, i requires 0 <= i < |t| => t[i].key)
  }

  function Counts<K>(t: seq<Entry<K>>): seq<nat> {
    seq(|t|, i requires 0 <= i < |t| => t[i].count)
  }

  predicate DistinctKeys<K(==)>(t: seq<Entry<K>>) {
    forall i, j :: 0 <= i < j < |t| ==> t[i].key != t[j].key
  }

  /** A table of distinct keys has one entry per key. */
  lemma {:induction false} DistinctCard<K>(t: seq<Entry<K>>)
    requires DistinctKeys(t)
    ensures |set k | k in Keys(t)| == |t|
  {
    if |t| > 0 {
      var p, e := t[..|t| - 1], t[|t| - 1];
      assert DistinctKeys(p);
      DistinctCard(p);
      assert Keys(t) == Keys(p) + [e.key];
      assert e.key !in Keys(p) by {
        forall j | 0 <= j < |p| ensures Keys(p)[j] != e.key {
          assert t[j].key != t[|p|].key;
        }
      }
      assert (set k | k in Keys(t)) == (set k | k in Keys(p)) + {e.key};
    }
  }

  /** `d.get(k, 0)`. */
  function Get<K(==)>(t: seq<Entry<K>>, k: K): nat {
    if |t| == 0 then 0 else if t[0].key == k then t[0].count else Get(t[1..], k)
  }

  /** `sum(d.values())`. */
  function Total<K>(t: seq<Entry<K>>): nat {
    if |t| == 0 then 0 else t[0].count + Total(t[1..])
  }

  function Sum(s: seq<nat>): nat {
    if |s| == 0 then 0 else s[0] + Sum(s[1..])
  }

  lemma {:induction false} TotalAppend<K>(a: seq<Entry<K>>, b: seq<Entry<K>>)
    ensures Total(a + b) == Total(a) + Total(b)
  {
    if |a| == 0 {
      assert a + b == b;
    } else {
      assert (a + b)[1..] == a[1..] + b;
      TotalAppend(a[1..], b);
    }
  }

  /** `sum(list(d.values()))` is the dict's total. */
  lemma {:induction false} SumCounts<K>(t: seq<Entry<K>>)
    ensures Sum(Counts(t)) == Total(t)
  {
    if |t| > 0 {
      SumCounts(t[1..]);
      assert Counts(t) == [t[0].count] + Counts(t[1..]);
    }
  }

  lemma KeysCons<K>(e: Entry<K>, t: seq<Entry<K>>)
    ensures Keys([e] + t) == [e.key] + Keys(t)
  {
  }

  /** Appending an entry appends its key and its count. */
  lemma ListsSnoc<K>(t: seq<Entry<K>>, e: Entry<K>)
    ensures Keys(t + [e]) == Keys(t) + [e.key]
    ensures Counts(t + [e]) == Counts(t) + [e.count]
  {
  }

  lemma DistinctCons<K>(e: Entry<K>, t: seq<Entry<K>>)
    ensures DistinctKeys([e] + t) <==> e.key !in Keys(t) && DistinctKeys(t)
  {
    if DistinctKeys([e] + t) {
      DistinctTail(e, t);
    }
    if e.key !in Keys(t) && DistinctKeys(t) {
      DistinctExtend(e, t);
    }
  }

  lemma DistinctTail<K>(e: Entry<K>, t: seq<Entry<K>>)
    requires DistinctKeys([e] + t)
    ensures e.key !in Keys(t) && DistinctKeys(t)
  {
    var r := [e] + t;
    forall i, j | 0 <= i < j < |t| ensures t[i].key != t[j].key {
      assert r[i + 1] == t[i] && r[j + 1] == t[j];
    }
    forall j | 0 <= j < |t| ensures Keys(t)[j] != e.key {
      assert r[0] == e && r[j + 1] == t[j];
      assert Keys(t)[j] == t[j].key;
    }
  }

  lemma DistinctExtend<K>(e: Entry<K>, t: seq<Entry<K>>)
    requires e.key !in Keys(t) && DistinctKeys(t)
    ensures DistinctKeys([e] + t)
  {
    var r := [e] + t;
    forall i, j | 0 <= i < j < |r| ensures r[i].key != r[j].key {
      if i == 0 {
        assert r[j] == t[j - 1];
        assert Keys(t)[j - 1] == t[j - 1].key;
      } else {
        assert r[i] == t[i - 1] && r[j] == t[j - 1];
      }
    }
  }

  /** With distinct keys, `Get` reads back the count stored in any entry. */
  lemma {:induction false} GetEntry<K>(t: seq<Entry<K>>, i: int)
    requires DistinctKeys(t) && 0 <= i < |t|
    ensures Get(t, t[i].key) == t[i].count
  {
    if i > 0 {
      assert t[1..][i - 1] == t[i];
      GetEntry(t[1..], i - 1);
    }
  }

  /** A key that is not in the table reads as 0, the `get` default. */
  lemma {:induction false} GetAbsent<K>(t: seq<Entry<K>>, k: K)
    requires k !in Keys(t)
    ensures Get(t, k) == 0
  {
    if |t| > 0 {
      KeysCons(t[0], t[1..]);
      assert t == [t[0]] + t[1..];
      GetAbsent(t[1..], k);
    }
  }

  /** An entry appended at the end does not change what other keys read. */
  lemma {:induction false} GetSnoc<K>(t: seq<Entry<K>>, e: Entry<K>, k: K)
    requires k != e.key
    ensures Get(t + [e], k) == Get(t, k)
  {
    if |t| == 0 {
      assert ([] + [e])[1..] == [];
    } else {
      assert (t + [e])[1..] == t[1..] + [e];
      GetSnoc(t[1..], e, k);
    }
  }

  lemma TotalRemove<K>(b: seq<Entry<K>>, j: int)
    requires 0 <= j < |b|
    ensures Total(b) == b[j].count + Total(b[..j] + b[j + 1..])
  {
    Around(b, j);
    TotalAppend(b[..j] + [b[j]], b[j + 1..]);
    TotalAppend(b[..j], [b[j]]);
    TotalAppend(b[..j], b[j + 1..]);
  }

  /** Reordering the entries of a table does not change its total. */
  lemma {:induction false} TotalPermutation<K>(a: seq<Entry<K>>, b: seq<Entry<K>>)
    requires multiset(a) == multiset(b)
    ensures Total(a) == Total(b)
    decreases |a|
  {
    if |a| == 0 {
      assert |b| == |multiset(b)| == 0;
    } else {
      assert a[0] in multiset(b);
      var j :| 0 <= j < |b| && b[j] == a[0];
      PermutationStep(a, b, j);
      TotalPermutation(a[1..], b[..j] + b[j + 1..]);
      TotalRemove(b, j);
    }
  }

  /** Taking the same element out of two permutations of each other leaves permutations. */
  lemma PermutationStep<T>(a: seq<T>, b: seq<T>, j: int)
    requires |a| > 0 && multiset(a) == multiset(b) && 0 <= j < |b| && b[j] == a[0]
    ensures multiset(a[1..]) == multiset(b[..j] + b[j + 1..])
  {
    var x, z := b[..j], b[j + 1..];
    Around(b, j);
    assert multiset(b) == multiset(x) + multiset{b[j]} + multiset(z);
    assert multiset(x + z) == multiset(x) + multiset(z);
    assert a == [a[0]] + a[1..];
    assert multiset(a) == multiset{a[0]} + multiset(a[1..]);
    assert multiset(a[1..]) == multiset(a) - multiset{a[0]};
    assert multiset(x + z) == multiset(b) - multiset{b[j]};
  }

  /** Adding a positive amount keeps every entry positive. */
  lemma {:induction false} AddPositive<K(!new)>(t: seq<Entry<K>>, k: K, n: nat)
    requires n > 0 && forall i :: 0 <= i < |t| ==> t[i].count > 0
    ensures forall i :: 0 <= i < |Add(t, k, n)| ==> Add(t, k, n)[i].count > 0
  {
    if |t| > 0 && t[0].key != k {
      AddPositive(t[1..], k, n);
    }
  }

  /** `d[k] = d.get(k, 0) + n`. */
  function Add<K(==,!new)>(t: seq<Entry<K>>, k: K, n: nat): (r: seq<Entry<K>>)
    ensures AddSpec(t, k, n, r)
    ensures Get(r, k) == Get(t, k) + n
    ensures forall k' :: k' != k ==> Get(r, k') == Get(t, k')
    ensures Total(r) == Total(t) + n
    ensures Keys(r) == if k in Keys(t) then Keys(t) else Keys(t) + [k]
    ensures DistinctKeys(t) ==> DistinctKeys(r)
  {
    if |t| == 0 then [Entry(k, n)]
    else if t[0].key == k then
      AddFront(t, k, n);
      [Entry(k, t[0].count + n)] + t[1..]
    else
      var r' := Add(t[1..], k, n);
      AddLater(t, k, n, r');
      [t[0]] + r'
  }

  /** What `Add(t, k, n)` promises of its result `r`. */
  ghost predicate AddSpec<K(!new)>(t: seq<Entry<K>>, k: K, n: nat, r: seq<Entry<K>>) {
    && Get(r, k) == Get(t, k) + n
    && (forall k' :: k' != k ==> Get(r, k') == Get(t, k'))
    && Total(r) == Total(t) + n
    && Keys(r) == (if k in Keys(t) then Keys(t) else Keys(t) + [k])
    && (DistinctKeys(t) ==> DistinctKeys(r))
  }

  lemma AddFront<K(!new)>(t: seq<Entry<K>>, k: K, n: nat)
    requires |t| > 0 && t[0].key == k
    ensures AddSpec(t, k, n, [Entry(k, t[0].count + n)] + t[1..])
  {
    var r := [Entry(k, t[0].count + n)] + t[1..];
    assert t == [t[0]] + t[1..];
    assert r[1..] == t[1..];
    KeysCons(t[0], t[1..]);
    KeysCons(r[0], t[1..]);
    DistinctCons(t[0], t[1..]);
    DistinctCons(r[0], t[1..]);
  }

  lemma AddLater<K(!new)>(t: seq<Entry<K>>, k: K, n: nat, r': seq<Entry<K>>)
    requires |t| > 0 && t[0].key != k && AddSpec(t[1..], k, n, r')
    ensures AddSpec(t, k, n, [t[0]] + r')
  {
    var r := [t[0]] + r';
    assert t == [t[0]] + t[1..];
    assert r[1..] == r';
    assert Total(r) == t[0].count + Total(r');
    assert Get(r, k) == Get(r', k);
    forall k' | k' != k
      ensures Get(r, k') == Get(t, k')
    {
      assert Get(r, k') == if t[0].key == k' then t[0].count else Get(r', k');
    }
    KeysCons(t[0], t[1..]);
    KeysCons(t[0], r');
    DistinctCons(t[0], t[1..]);
    DistinctCons(t[0], r');
  }

  /** `d[k] = n` for a new key appends an entry at the end. */
  lemma {:induction false} AddAbsent<K(!new)>(t: seq<Entry<K>>, k: K, n: nat)
    requires k !in Keys(t)
    ensures Add(t, k, n) == t + [Entry(k, n)]
  {
    if |t| > 0 {
      KeysCons(t[0], t[1..]);
      assert t == [t[0]] + t[1..];
      AddAbsent(t[1..], k, n);
    }
  }

  /** The position of the first `k` in `ks`, or `|ks|` when there is none. */
  function FirstIndex<K(==)>(ks: seq<K>, k: K): (i: nat)
    ensures i <= |ks|
    ensures i < |ks| <==> k in ks
    ensures i < |ks| ==> ks[i] == k && k !in ks[..i]
  {
    if |ks| == 0 then 0
    else if ks[0] == k then 0
    else
      var i := FirstIndex(ks[1..], k);
      assert ks[..i + 1] == [ks[0]] + ks[1..][..i];
      i + 1
  }

  lemma FirstIndexSnoc<K>(p: seq<K>, x: K, k: K)
    ensures k in p ==> FirstIndex(p + [x], k) == FirstIndex(p, k)
    ensures k !in p && k == x ==> FirstIndex(p + [x], k) == |p|
  {
    var q := p + [x];
    var i := FirstIndex(q, k);
    assert q[..|p|] == p;
    if k in p {
      var j := FirstIndex(p, k);
      assert q[..j] == p[..j];
    }
  }

  /**
   * Counting keys one by one, in order, into an initially empty dict: the
   * specification of every counting loop of the reports.
   */
  function Tally<K(==,!new)>(ks: seq<K>): (t: seq<Entry<K>>)
    ensures DistinctKeys(t)
    ensures Total(t) == |ks|
    ensures forall k :: Get(t, k) == multiset(ks)[k]
    ensures forall k :: k in Keys(t) <==> k in ks
  {
    if |ks| == 0 then []
    else
      var p, x := ks[..|ks| - 1], ks[|ks| - 1];
      assert ks == p + [x];
      Add(Tally(p), x, 1)
  }

  /** Counting one more key is one more `d[k] = d.get(k, 0) + 1`. */
  lemma TallySnoc<K(!new)>(ks: seq<K>, k: K)
    ensures Tally(ks + [k]) == Add(Tally(ks), k, 1)
  {
    assert (ks + [k])[..|ks|] == ks;
  }

  /**
   * One step of a counting loop over `ks`: a new key gets an entry of 1 at the
   * end (`d[k] = 1`), a known key is bumped in place (`d[k] += 1`).
   */
  lemma TallyStep<K(!new)>(ks: seq<K>, i: int)
    requires 0 <= i < |ks|
    ensures ks[i] !in Keys(Tally(ks[..i])) ==> Tally(ks[..i + 1]) == Tally(ks[..i]) + [Entry(ks[i], 1)]
    ensures ks[i] in Keys(Tally(ks[..i])) ==> Tally(ks[..i + 1]) == Add(Tally(ks[..i]), ks[i], 1)
  {
    assert ks[..i + 1] == ks[..i] + [ks[i]];
    TallySnoc(ks[..i], ks[i]);
    if ks[i] !in Keys(Tally(ks[..i])) {
      AddAbsent(Tally(ks[..i]), ks[i], 1);
    }
  }

  /** The keys of a tally are listed in the order in which they are first seen. */
  lemma {:induction false} TallyFirstSeen<K(!new)>(ks: seq<K>)
    ensures forall i, j :: 0 <= i < j < |Tally(ks)| ==>
      FirstIndex(ks, Tally(ks)[i].key) < FirstIndex(ks, Tally(ks)[j].key)
  {
    if |ks| > 0 {
      var p, x := ks[..|ks| - 1], ks[|ks| - 1];
      assert ks == p + [x];
      TallyFirstSeen(p);
      var tp, t := Tally(p), Tally(ks);
      assert Keys(t) == if x in Keys(tp) then Keys(tp) else Keys(tp) + [x];
      forall i, j | 0 <= i < j < |t|
        ensures FirstIndex(ks, t[i].key) < FirstIndex(ks, t[j].key)
      {
        assert t[i].key == Keys(t)[i] && t[j].key == Keys(t)[j];
        if j < |tp| {
          assert Keys(tp)[i] == tp[i].key && Keys(tp)[j] == tp[j].key;
          assert tp[i].key in p && tp[j].key in p;
          FirstIndexSnoc(p, x, tp[i].key);
          FirstIndexSnoc(p, x, tp[j].key);
        } else {
          assert x !in Keys(tp) && t[j].key == x;
          assert Keys(tp)[i] == tp[i].key && tp[i].key in p;
          FirstIndexSnoc(p, x, tp[i].key);
          FirstIndexSnoc(p, x, x);
        }
      }
    }
  }

  /** Every entry of a tally counts at least one occurrence. */
  lemma TallyPositive<K(!new)>(ks: seq<K>)
    ensures forall i :: 0 <= i < |Tally(ks)| ==> Tally(ks)[i].count >= 1
  {
    var t := Tally(ks);
    forall i | 0 <= i < |t|
      ensures t[i].count >= 1
    {
      GetEntry(t, i);
      var k := t[i].key;
      assert Keys(t)[i] == k;
      assert k in ks;
      assert multiset(ks)[k] >= 1;
    }
  }

  // ---- stable descending sort: sorted(d.items(), key=count, reverse=True) ----

  predicate NonIncreasing<K>(s: seq<Entry<K>>) {
    forall i, j :: 0 <= i < j < |s| ==> s[i].count >= s[j].count
  }

  /** The entries of `s` with count `c`, in their order in `s`. */
  function WithCount<K>(s: seq<Entry<K>>, c: nat): seq<Entry<K>> {
    if |s| == 0 then []
    else (if s[0].count == c then [s[0]] else []) + WithCount(s[1..], c)
  }

  lemma {:induction false} WithCountAppend<K>(a: seq<Entry<K>>, b: seq<Entry<K>>, c: nat)
    ensures WithCount(a + b, c) == WithCount(a, c) + WithCount(b, c)
  {
    if |a| == 0 {
      assert a + b == b;
    } else {
      assert (a + b)[0] == a[0] && (a + b)[1..] == a[1..] + b;
      WithCountAppend(a[1..], b, c);
      var head := if a[0].count == c then [a[0]] else [];
      ConcatAssoc(head, WithCount(a[1..], c), WithCount(b, c));
    }
  }

  lemma {:induction false} WithCountBelow<K>(s: seq<Entry<K>>, c: nat)
    requires forall i :: 0 <= i < |s| ==> s[i].count < c
    ensures WithCount(s, c) == []
  {
    if |s| > 0 {
      WithCountBelow(s[1..], c);
    }
  }

  lemma WithCountSnoc<K>(p: seq<Entry<K>>, x: Entry<K>)
    ensures forall c: nat :: WithCount(p + [x], c) == WithCount(p, c) + (if x.count == c then [x] else [])
  {
    forall c: nat ensures WithCount(p + [x], c) == WithCount(p, c) + (if x.count == c then [x] else []) {
      WithCountAppend(p, [x], c);
    }
  }

  /** A prefix keeps a prefix of each tie group. */
  lemma {:induction false} WithCountPrefix<K>(s: seq<Entry<K>>, m: nat, c: nat)
    requires m <= |s|
    ensures WithCount(s[..m], c) <= WithCount(s, c)
  {
    assert s == s[..m] + s[m..];
    WithCountAppend(s[..m], s[m..], c);
  }

  /** Inserts `e` after every entry whose count is at least `e.count`. */
  function InsertDesc<K>(s: seq<Entry<K>>, e: Entry<K>): (r: seq<Entry<K>>)
    requires NonIncreasing(s)
    ensures NonIncreasing(r)
    ensures multiset(r) == multiset(s) + multiset{e}
  {
    if |s| == 0 then [e]
    else if s[0].count >= e.count then
      var r' := InsertDesc(s[1..], e);
      InsertLater(s, e, r');
      [s[0]] + r'
    else
      InsertHere(s, e);
      [e] + s
  }

  lemma InsertLater<K>(s: seq<Entry<K>>, e: Entry<K>, r': seq<Entry<K>>)
    requires NonIncreasing(s) && |s| > 0 && s[0].count >= e.count
    requires NonIncreasing(r') && multiset(r') == multiset(s[1..]) + multiset{e}
    ensures NonIncreasing([s[0]] + r')
    ensures multiset([s[0]] + r') == multiset(s) + multiset{e}
  {
    assert s == [s[0]] + s[1..];
    var r := [s[0]] + r';
    forall j | 0 < j < |r| ensures r[0].count >= r[j].count {
      assert r[j] == r'[j - 1] && r'[j - 1] in multiset(r');
      assert r'[j - 1] == e || r'[j - 1] in s[1..];
    }
    forall i, j | 0 < i < j < |r| ensures r[i].count >= r[j].count {
      assert r[i] == r'[i - 1] && r[j] == r'[j - 1];
    }
  }

  lemma InsertHere<K>(s: seq<Entry<K>>, e: Entry<K>)
    requires NonIncreasing(s) && |s| > 0 && s[0].count < e.count
    ensures NonIncreasing([e] + s)
  {
    var r := [e] + s;
    forall i, j | 0 <= i < j < |r| ensures r[i].count >= r[j].count {
      assert r[j] == s[j - 1];
      if i > 0 {
        assert r[i] == s[i - 1];
      }
    }
  }

  /** Inserting `e` adds it to the end of its own tie group and leaves the other groups alone. */
  lemma {:induction false} InsertDescTies<K>(s: seq<Entry<K>>, e: Entry<K>, c: nat)
    requires NonIncreasing(s)
    ensures WithCount(InsertDesc(s, e), c) == WithCount(s, c) + (if e.count == c then [e] else [])
  {
    if |s| == 0 {
      WithCountCons(e, [], c);
      assert [e] + [] == [e];
    } else if s[0].count >= e.count {
      assert NonIncreasing(s[1..]);
      InsertDescTies(s[1..], e, c);
      TiesLater(s, e, c, InsertDesc(s[1..], e));
    } else {
      TiesHere(s, e, c);
    }
  }

  lemma TiesLater<K>(s: seq<Entry<K>>, e: Entry<K>, c: nat, r': seq<Entry<K>>)
    requires NonIncreasing(s) && |s| > 0 && s[0].count >= e.count
    requires r' == InsertDesc(s[1..], e)
    requires WithCount(r', c) == WithCount(s[1..], c) + (if e.count == c then [e] else [])
    ensures WithCount(InsertDesc(s, e), c) == WithCount(s, c) + (if e.count == c then [e] else [])
  {
    var t, tie := s[1..], if e.count == c then [e] else [];
    var head: seq<Entry<K>> := if s[0].count == c then [s[0]] else [];
    assert InsertDesc(s, e) == [s[0]] + r';
    WithCountCons(s[0], r', c);
    assert WithCount(s, c) == head + WithCount(t, c);
    ConcatAssoc(head, WithCount(t, c), tie);
  }


  lemma TiesHere<K>(s: seq<Entry<K>>, e: Entry<K>, c: nat)
    requires NonIncreasing(s) && |s| > 0 && s[0].count < e.count
    ensures WithCount(InsertDesc(s, e), c) == WithCount(s, c) + (if e.count == c then [e] else [])
  {
    assert InsertDesc(s, e) == [e] + s;
    WithCountCons(e, s, c);
    if e.count == c {
      WithCountBelow(s, c);
      assert [e] + [] == [] + [e];
    } else {
      assert [] + WithCount(s, c) == WithCount(s, c) + [];
    }
  }

  lemma WithCountCons<K>(x: Entry<K>, s: seq<Entry<K>>, c: nat)
    ensures WithCount([x] + s, c) == (if x.count == c then [x] else []) + WithCount(s, c)
  {
    assert ([x] + s)[1..] == s;
  }

  /** Python's `sorted(items, key=count, reverse=True)`: descending and stable. */
  function SortDesc<K>(t: seq<Entry<K>>): (r: seq<Entry<K>>)
    ensures NonIncreasing(r)
    ensures multiset(r) == multiset(t)
    ensures forall c: nat :: WithCount(r, c) == WithCount(t, c)
  {
    if |t| == 0 then []
    else
      var p, x := t[..|t| - 1], t[|t| - 1];
      assert t == p + [x];
      WithCountSnoc(p, x);
      assert forall c: nat :: WithCount(InsertDesc(SortDesc(p), x), c) == WithCount(SortDesc(p), c) + (if x.count == c then [x] else []) by {
        forall c: nat ensures WithCount(InsertDesc(SortDesc(p), x), c) == WithCount(SortDesc(p), c) + (if x.count == c then [x] else []) {
          InsertDescTies(SortDesc(p), x, c);
        }
      }
      InsertDesc(SortDesc(p), x)
  }

  /** An entry with count `c` sits in its tie group after the ties that precede it. */
  lemma WithCountAt<K>(s: seq<Entry<K>>, i: int)
    requires 0 <= i < |s|
    ensures |WithCount(s[..i], s[i].count)| < |WithCount(s, s[i].count)|
    ensures WithCount(s, s[i].count)[|WithCount(s[..i], s[i].count)|] == s[i]
  {
    var c := s[i].count;
    assert s == s[..i] + ([s[i]] + s[i + 1..]);
    WithCountAppend(s[..i], [s[i]] + s[i + 1..], c);
    assert WithCount([s[i]] + s[i + 1..], c) == [s[i]] + WithCount(s[i + 1..], c);
  }

  /** Each member of a tie group comes from an entry preceded by exactly the ties before it. */
  lemma {:induction false} WithCountOrigin<K>(s: seq<Entry<K>>, c: nat, a: int)
    requires 0 <= a < |WithCount(s, c)|
    ensures exists k :: 0 <= k < |s| && s[k] == WithCount(s, c)[a] && |WithCount(s[..k], c)| == a
  {
    var p, x := s[..|s| - 1], s[|s| - 1];
    assert s == p + [x];
    WithCountAppend(p, [x], c);
    assert WithCount([x], c) == (if x.count == c then [x] else []) + WithCount([], c);
    if a < |WithCount(p, c)| {
      WithCountOrigin(p, c, a);
      var k :| 0 <= k < |p| && p[k] == WithCount(p, c)[a] && |WithCount(p[..k], c)| == a;
      assert s[..k] == p[..k];
    } else {
      assert s[..|p|] == p;
    }
  }

  /** Ties that are further apart in a tie group come from entries further apart. */
  lemma TieOrigins<K>(s: seq<Entry<K>>, c: nat, a: int, b: int)
    requires 0 <= a < b < |WithCount(s, c)|
    ensures exists ka, kb :: 0 <= ka < kb < |s| && s[ka] == WithCount(s, c)[a] && s[kb] == WithCount(s, c)[b]
  {
    WithCountOrigin(s, c, a);
    WithCountOrigin(s, c, b);
    var ka :| 0 <= ka < |s| && s[ka] == WithCount(s, c)[a] && |WithCount(s[..ka], c)| == a;
    var kb :| 0 <= kb < |s| && s[kb] == WithCount(s, c)[b] && |WithCount(s[..kb], c)| == b;
    if kb <= ka {
      assert s[..ka][..kb] == s[..kb];
      WithCountPrefix(s[..ka], kb, c);
    }
  }

  /** A later tie sits later in its tie group. */
  lemma TiesBefore<K>(r: seq<Entry<K>>, i: int, j: int)
    requires 0 <= i < j < |r| && r[i].count == r[j].count
    ensures |WithCount(r[..i], r[i].count)| < |WithCount(r[..j], r[i].count)|
  {
    var c := r[i].count;
    assert r[..j] == r[..i] + ([r[i]] + r[i + 1..j]);
    WithCountAppend(r[..i], [r[i]] + r[i + 1..j], c);
    assert WithCount([r[i]] + r[i + 1..j], c) == [r[i]] + WithCount(r[i + 1..j], c);
  }

  /** Two lists with the same tie groups order each pair of ties the same way. */
  lemma TiesKeepOrder<K>(r: seq<Entry<K>>, t: seq<Entry<K>>, i: int, j: int)
    requires 0 <= i < j < |r| && r[i].count == r[j].count
    requires WithCount(r, r[i].count) == WithCount(t, r[i].count)
    ensures exists a, b :: 0 <= a < b < |t| && t[a] == r[i] && t[b] == r[j]
  {
    var c := r[i].count;
    WithCountAt(r, i);
    WithCountAt(r, j);
    TiesBefore(r, i, j);
    TieOrigins(t, c, |WithCount(r[..i], c)|, |WithCount(r[..j], c)|);
  }

  /**
   * The sort is stable: two entries with equal counts appear in the sorted
   * list in the order they had in the table.
   */
  lemma SortDescStable<K>(t: seq<Entry<K>>, i: int, j: int)
    requires 0 <= i < j < |SortDesc(t)| && SortDesc(t)[i].count == SortDesc(t)[j].count
    ensures exists a, b :: 0 <= a < b < |t| && t[a] == SortDesc(t)[i] && t[b] == SortDesc(t)[j]
  {
    var r := SortDesc(t);
    TiesKeepOrder(r, t, i, j);
  }

  // ---- listing a dict's values in a chosen key order ----

  /** `[d[k] for k in ks]`. */
  function Lookups<K(==)>(t: seq<Entry<K>>, ks: seq<K>): (r: seq<nat>)
    ensures |r| == |ks|
    ensures forall i :: 0 <= i < |ks| ==> r[i] == Get(t, ks[i])
  {
    if |ks| == 0 then [] else [Get(t, ks[0])] + Lookups(t, ks[1..])
  }

  lemma {:induction false} LookupsAppend<K>(t: seq<Entry<K>>, a: seq<K>, b: seq<K>)
    ensures Sum(Lookups(t, a + b)) == Sum(Lookups(t, a)) + Sum(Lookups(t, b))
  {
    if |a| == 0 {
      assert a + b == b;
    } else {
      assert (a + b)[1..] == a[1..] + b;
      LookupsAppend(t, a[1..], b);
    }
  }

  lemma {:induction false} LookupsAgree<K>(t: seq<Entry<K>>, u: seq<Entry<K>>, ks: seq<K>)
    requires forall k :: k in ks ==> Get(t, k) == Get(u, k)
    ensures Lookups(t, ks) == Lookups(u, ks)
  {
    if |ks| > 0 {
      LookupsAgree(t, u, ks[1..]);
    }
  }

  lemma LookupsRemove<K>(t: seq<Entry<K>>, ks: seq<K>, p: int)
    requires 0 <= p < |ks|
    ensures Sum(Lookups(t, ks)) == Get(t, ks[p]) + Sum(Lookups(t, ks[..p] + ks[p + 1..]))
  {
    Around(ks, p);
    LookupsAppend(t, ks[..p] + [ks[p]], ks[p + 1..]);
    LookupsAppend(t, ks[..p], [ks[p]]);
    LookupsAppend(t, ks[..p], ks[p + 1..]);
  }

  lemma MultisetRemove<K>(ks: seq<K>, p: int)
    requires 0 <= p < |ks|
    ensures multiset(ks[..p] + ks[p + 1..]) == multiset(ks) - multiset{ks[p]}
  {
    Around(ks, p);
  }


  /** The values of a dict read in any order of its keys add up to its total. */
  lemma {:induction false} SumLookups<K>(t: seq<Entry<K>>, ks: seq<K>)
    requires DistinctKeys(t)
    requires multiset(ks) == multiset(Keys(t))
    ensures Sum(Lookups(t, ks)) == Total(t)
  {
    if |t| == 0 {
      assert |ks| == |multiset(ks)| == 0;
    } else {
      var e, t' := t[0], t[1..];
      assert t == [e] + t';
      KeysCons(e, t');
      DistinctTail(e, t');
      assert e.key in multiset(ks);
      var p :| 0 <= p < |ks| && ks[p] == e.key;
      var ks' := ks[..p] + ks[p + 1..];
      MultisetRemove(ks, p);
      assert multiset(ks') == multiset(Keys(t'));
      assert e.key !in multiset(ks');
      LookupsRemove(t, ks, p);
      forall k | k in ks' ensures Get(t, k) == Get(t', k) {
        assert k != e.key;
      }
      LookupsAgree(t, t', ks');
      SumLookups(t', ks');
    }
  }
}
