/**
 * The top-20 report: count the lines per first space-delimited field (the
 * client address in the Apache formats, though nothing checks it), sort the
 * counts in descending order and keep the first twenty for the bar chart.
 */
module DistinctIps {
  import opened Text
  import opened Tables

  /** `linea.split(' ')[0]`: the key a line is counted under. */
  function FirstField(line: string): string {
    Split(line, ' ')[0]
  }

  /**
   * The key is the text before the first space: the whole line when it has no
   * space, the empty string when it starts with one.
   */
  lemma FirstFieldMeaning(line: string)
    ensures FirstField(line) <= line && ' ' !in FirstField(line)
    ensures |FirstField(line)| < |line| ==> line[|FirstField(line)|] == ' '
    ensures ' ' !in line ==> FirstField(line) == line
    ensures line != [] && line[0] == ' ' ==> FirstField(line) == ""
  {
    SplitFirst(line, ' ');
  }

  function FirstFields(lines: seq<string>): seq<string> {
    seq(|lines|, i requires 0 <= i < |lines| => FirstField(lines[i]))
  }

  /** The loop that fills `diccionario`. */
  method CountFirstFields(lines: seq<string>) returns (t: seq<Entry<string>>)
    ensures t == Tally(FirstFields(lines))
  {
    ghost var ks := FirstFields(lines);
    t := [];
    for i := 0 to |lines|
      invariant t == Tally(ks[..i])
    {
      TallyStep(ks, i);
      var ip := Split(lines[i], ' ')[0];
      assert ip == ks[i];
      if ip !in Keys(t) {
        t := t + [Entry(ip, 1)];
      } else {
        t := Add(t, ip, 1);
      }
    }
    assert ks[..|lines|] == ks;
  }

  /** Every line is counted once, under its own key. */
  lemma FieldTable(lines: seq<string>)
    ensures Sum(Counts(Tally(FirstFields(lines)))) == |lines|
    ensures forall i :: 0 <= i < |lines| ==> FirstField(lines[i]) in Keys(Tally(FirstFields(lines)))
  {
    var ks := FirstFields(lines);
    SumCounts(Tally(ks));
    assert forall i :: 0 <= i < |lines| ==> ks[i] == FirstField(lines[i]) && ks[i] in ks;
  }

  /** How many bars the chart shows at most. */
  const TopCount := 20

  /** `sorted(diccionario.items(), key=lambda x: x[1], reverse=True)[:20]`. */
  function Top(t: seq<Entry<string>>): seq<Entry<string>> {
    var r := SortDesc(t);
    if |r| <= TopCount then r else r[..TopCount]
  }

  /** `distinctIPs` up to the chart: the keys and counts of the top entries. */
  method DistinctIPs(lines: seq<string>) returns (ips: seq<string>, counts: seq<nat>)
    ensures ips == Keys(Top(Tally(FirstFields(lines))))
    ensures counts == Counts(Top(Tally(FirstFields(lines))))
  {
    var t := CountFirstFields(lines);
    var sorted := SortDesc(t);
    if |sorted| > TopCount {
      sorted := sorted[..TopCount];
    }
    ips := Keys(sorted);
    counts := Counts(sorted);
  }

  /** The table has one entry per distinct key. */
  lemma TableSize(ks: seq<string>)
    ensures |Tally(ks)| == |set k | k in ks|
  {
    var t := Tally(ks);
    DistinctCard(t);
    SameKeySet(t, ks);
  }

  lemma SameKeySet(t: seq<Entry<string>>, ks: seq<string>)
    requires forall k :: k in Keys(t) <==> k in ks
    ensures (set k | k in Keys(t)) == (set k | k in ks)
  {
  }

  /** The chart has twenty bars, or one per distinct key when there are fewer. */
  lemma TopSize(ks: seq<string>)
    ensures |Top(Tally(ks))| == if |set k | k in ks| <= TopCount then |set k | k in ks| else TopCount
  {
    var t := Tally(ks);
    TableSize(ks);
    var r := SortDesc(t);
    assert |r| == |multiset(r)| == |multiset(t)| == |t|;
  }

  /** Each bar is an entry of the table: its key's count, keys not repeated, highest first. */
  lemma TopEntries(ks: seq<string>)
    ensures NonIncreasing(Top(Tally(ks)))
    ensures DistinctKeys(Top(Tally(ks)))
    ensures forall i :: 0 <= i < |Top(Tally(ks))| ==>
      Top(Tally(ks))[i].count == multiset(ks)[Top(Tally(ks))[i].key] > 0
  {
    var t := Tally(ks);
    TopOrder(t);
    TopDistinct(t);
    TopFromTable(t);
    TallyPositive(ks);
    var top := Top(t);
    forall i | 0 <= i < |top|
      ensures top[i].count == multiset(ks)[top[i].key] > 0
    {
      var j :| 0 <= j < |t| && t[j] == top[i];
      GetEntry(t, j);
    }
  }

  /** The chart is the sorted table cut after its first twenty entries. */
  lemma TopPrefix(t: seq<Entry<string>>)
    ensures |Top(t)| <= |SortDesc(t)| && Top(t) == SortDesc(t)[..|Top(t)|]
  {
  }

  lemma TopOrder(t: seq<Entry<string>>)
    ensures NonIncreasing(Top(t))
  {
    TopPrefix(t);
    var r, top := SortDesc(t), Top(t);
    forall i, j | 0 <= i < j < |top|
      ensures top[i].count >= top[j].count
    {
      assert top[i] == r[i] && top[j] == r[j];
    }
  }

  /** Every bar is an entry of the table. */
  lemma TopFromTable(t: seq<Entry<string>>)
    ensures forall i :: 0 <= i < |Top(t)| ==> exists j :: 0 <= j < |t| && t[j] == Top(t)[i]
  {
    TopPrefix(t);
    var r, top := SortDesc(t), Top(t);
    forall i | 0 <= i < |top|
      ensures exists j :: 0 <= j < |t| && t[j] == top[i]
    {
      assert top[i] == r[i] && r[i] in multiset(r);
      assert top[i] in multiset(t);
    }
  }

  /** The bars of a table of distinct keys have distinct keys. */
  lemma TopDistinct(t: seq<Entry<string>>)
    requires DistinctKeys(t)
    ensures DistinctKeys(Top(t))
  {
    TopPrefix(t);
    var r, top := SortDesc(t), Top(t);
    forall i, j | 0 <= i < j < |top|
      ensures top[i].key != top[j].key
    {
      assert top[i] == r[i] && top[j] == r[j];
      SortedDistinct(t, i, j);
    }
  }

  /** Sorting a table of distinct keys keeps the keys distinct. */
  lemma SortedDistinct(t: seq<Entry<string>>, i: int, j: int)
    requires DistinctKeys(t)
    requires 0 <= i < j < |SortDesc(t)|
    ensures SortDesc(t)[i].key != SortDesc(t)[j].key
  {
    var r := SortDesc(t);
    if r[i].key == r[j].key {
      assert r[i] in multiset(t) && r[j] in multiset(t);
      var a :| 0 <= a < |t| && t[a] == r[i];
      var b :| 0 <= b < |t| && t[b] == r[j];
      assert a == b;
      MultisetTwice(r, i, j);
      DistinctOnce(t, a);
    }
  }

  /** In a table of distinct keys each entry occurs once. */
  lemma DistinctOnce(t: seq<Entry<string>>, a: int)
    requires DistinctKeys(t) && 0 <= a < |t|
    ensures multiset(t)[t[a]] == 1
  {
    assert t == t[..a] + [t[a]] + t[a + 1..];
    assert t[a] !in t[..a] by {
      forall k | 0 <= k < a ensures t[..a][k] != t[a] {
        assert t[k].key != t[a].key;
      }
    }
    assert t[a] !in t[a + 1..] by {
      forall k | a < k < |t| ensures t[k] != t[a] {
        assert t[k].key != t[a].key;
      }
    }
  }

  /** An entry listed twice in a list is counted twice by its multiset. */
  lemma MultisetTwice(r: seq<Entry<string>>, i: int, j: int)
    requires 0 <= i < j < |r| && r[i] == r[j]
    ensures multiset(r)[r[i]] >= 2
  {
    assert r == r[..i] + [r[i]] + r[i + 1..j] + [r[j]] + r[j + 1..];
  }

  /** In a list sorted highest first, an entry whose key is not among the first `n` counts no more than any of them. */
  lemma SortedOmitted(r: seq<Entry<string>>, n: nat, e: Entry<string>)
    requires NonIncreasing(r) && n <= |r| && e in r
    requires forall i :: 0 <= i < n ==> r[i].key != e.key
    ensures forall i :: 0 <= i < n ==> e.count <= r[i].count
  {
    var m :| 0 <= m < |r| && r[m] == e;
  }

  lemma TableOmitted(t: seq<Entry<string>>, e: Entry<string>)
    requires e in t && e.key !in Keys(Top(t))
    ensures forall i :: 0 <= i < |Top(t)| ==> e.count <= Top(t)[i].count
  {
    var r := SortDesc(t);
    assert Top(t) == r[..|Top(t)|];
    assert e in multiset(r);
    assert forall i :: 0 <= i < |Top(t)| ==> Keys(Top(t))[i] == r[i].key;
    SortedOmitted(r, |Top(t)|, e);
  }

  /**
   * A key left out of the chart was seen no more often than any key in it
   * (for the table of the log, `Get` is the number of lines with that key).
   */
  lemma TopOmitted(t: seq<Entry<string>>, k: string)
    requires DistinctKeys(t) && k in Keys(t) && k !in Keys(Top(t))
    ensures forall i :: 0 <= i < |Top(t)| ==> Get(t, k) <= Top(t)[i].count
  {
    var j :| 0 <= j < |t| && Keys(t)[j] == k;
    GetEntry(t, j);
    TableOmitted(t, t[j]);
  }

  /** Keys with equal counts are listed in the order the log first shows them. */
  lemma TopTies(ks: seq<string>, i: int, j: int)
    requires 0 <= i < j < |Top(Tally(ks))| && Top(Tally(ks))[i].count == Top(Tally(ks))[j].count
    ensures FirstIndex(ks, Top(Tally(ks))[i].key) < FirstIndex(ks, Top(Tally(ks))[j].key)
  {
    var t := Tally(ks);
    var r := SortDesc(t);
    assert Top(t)[i] == r[i] && Top(t)[j] == r[j];
    SortDescStable(t, i, j);
    var a, b :| 0 <= a < b < |t| && t[a] == r[i] && t[b] == r[j];
    TallyFirstSeen(ks);
  }
}
