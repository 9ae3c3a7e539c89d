/**
 * The hourly report: cut the timestamp out of each line between the first
 * `[` and the first `]`, take its second `:`-separated field as the hour,
 * count the lines per hour and list the hours in ascending order.
 */
module Hourly {
  import opened Wrappers
  import opened Text
  import opened Tables

  // ---- the hour of a line ----

  /** `linea[linea.find('[') + 1:linea.find(']')]`. */
  function TimestampText(line: string): string {
    PySlice(line, Find(line, '[') + 1, Find(line, ']'))
  }

  /** With a `[` before the first `]`, the text is what lies between the two. */
  lemma TimestampBetween(line: string)
    requires 0 <= Find(line, '[') < Find(line, ']')
    ensures TimestampText(line) == line[Find(line, '[') + 1..Find(line, ']')]
    ensures ']' !in TimestampText(line)
  {
    var a, b := Find(line, '['), Find(line, ']');
    assert line[a + 1..b] == line[..b][a + 1..];
  }

  /** Without a `[` the slice starts at the beginning of the line. */
  lemma TimestampNoOpen(line: string)
    requires '[' !in line
    ensures TimestampText(line) == PySlice(line, 0, Find(line, ']'))
  {
  }

  /** Without a `]` the end index is -1, which cuts off the last character. */
  lemma TimestampNoClose(line: string)
    requires ']' !in line && line != []
    ensures TimestampText(line) == PySlice(line, Find(line, '[') + 1, |line| - 1)
  {
    var a := Find(line, '[') + 1;
    assert Find(line, ']') == -1;
    assert TimestampText(line) == PySlice(line, a, -1);
    SliceEndMinusOne(line, a);
  }

  /** A line with neither bracket yields all of it but its last character (its newline, when it has one). */
  lemma TimestampNoBrackets(line: string)
    requires '[' !in line && ']' !in line && line != []
    ensures TimestampText(line) == line[..|line| - 1]
  {
  }

  /** A `]` before the first `[`, or right after it, gives the empty string. */
  lemma TimestampBackwards(line: string)
    requires 0 <= Find(line, ']') <= Find(line, '[') + 1
    ensures TimestampText(line) == ""
  {
  }

  /** The timestamp of a line shaped like `pre[stamp]post`, where `pre` has no bracket. */
  lemma BracketText(pre: string, stamp: string, post: string)
    requires '[' !in pre && ']' !in pre && ']' !in stamp
    ensures TimestampText(pre + "[" + stamp + "]" + post) == stamp
  {
    var line := pre + "[" + stamp + "]" + post;
    BracketFinds(pre, stamp, post);
    TimestampBetween(line);
    assert line[|pre| + 1..|pre| + 1 + |stamp|] == stamp;
  }

  lemma BracketFinds(pre: string, stamp: string, post: string)
    requires '[' !in pre && ']' !in pre && ']' !in stamp
    ensures Find(pre + "[" + stamp + "]" + post, '[') == |pre|
    ensures Find(pre + "[" + stamp + "]" + post, ']') == |pre| + 1 + |stamp|
  {
    var line := pre + "[" + stamp + "]" + post;
    assert line == pre + ['['] + (stamp + "]" + post);
    FindAfter(pre, '[', stamp + "]" + post);
    var head := pre + "[" + stamp;
    assert ']' !in head by {
      assert forall j | 0 <= j < |head| :: head[j] == (if j < |pre| then pre[j] else if j == |pre| then '[' else stamp[j - |pre| - 1]);
    }
    assert line == head + [']'] + post;
    FindAfter(head, ']', post);
  }

  /** `str.find` stops at the first occurrence. */
  lemma FindAfter(pre: string, c: char, post: string)
    requires c !in pre
    ensures Find(pre + [c] + post, c) == |pre|
  {
    var s := pre + [c] + post;
    assert s[|pre|] == c;
    assert s[..|pre|] == pre;
  }

  /**
   * `tiempo.split(':')[1]`, or `None` where Python raises `IndexError`
   * because the timestamp text has no `:`.
   */
  function HourOf(line: string): Option<string> {
    var parts := Split(TimestampText(line), ':');
    if |parts| >= 2 then Some(parts[1]) else None
  }

  /** The second `:`-field is what follows the first `:` up to the next one. */
  lemma SplitSecond(text: string)
    requires ':' in text
    ensures |Split(text, ':')| >= 2
    ensures Split(text, ':')[1] == BeforeFirst(text[Find(text, ':') + 1..], ':')
  {
    var rest := text[Find(text, ':') + 1..];
    var parts := Split(rest, ':');
    assert Split(text, ':') == [text[..Find(text, ':')]] + parts;
    assert Split(text, ':')[1] == parts[0];
    SplitFirst(rest, ':');
  }

  /**
   * A line has an hour exactly when its timestamp text contains a `:`; the
   * hour is the text after the first `:` up to the next `:` or the end.
   */
  lemma HourOfMeaning(line: string)
    ensures HourOf(line).None? <==> ':' !in TimestampText(line)
    ensures HourOf(line).Some? ==>
      var text := TimestampText(line);
      HourOf(line).value == BeforeFirst(text[Find(text, ':') + 1..], ':')
  {
    var text := TimestampText(line);
    SplitHasSecond(text, ':');
    if ':' in text {
      SplitSecond(text);
    }
  }

  /** The hour of a line `pre[day:hour:rest]post` is `hour`. */
  lemma HourOfShape(pre: string, day: string, hour: string, rest: string, post: string)
    requires '[' !in pre && ']' !in pre
    requires ']' !in day && ']' !in hour && ']' !in rest
    requires ':' !in day && ':' !in hour
    ensures HourOf(pre + "[" + (day + ":" + (hour + ":" + rest)) + "]" + post) == Some(hour)
  {
    var stamp := day + ":" + (hour + ":" + rest);
    assert ']' !in stamp;
    BracketText(pre, stamp, post);
    SplitCons(day, ':', hour + ":" + rest);
    SplitCons(hour, ':', rest);
  }

  /** The example of the Apache documentation: `[10/Oct/2000:13:55:36 -0700]` is hour `13`. */
  lemma ApacheTimestampHour()
    ensures HourOf("[10/Oct/2000:13:55:36 -0700]") == Some("13")
  {
    StampLetters();
    HourOfShape("", "10/Oct/2000", "13", "55:36 -0700", "");
    ApacheLineShape();
  }

  lemma ApacheLineShape()
    ensures "" + "[" + ("10/Oct/2000" + ":" + ("13" + ":" + "55:36 -0700")) + "]" + "" == "[10/Oct/2000:13:55:36 -0700]"
  {
  }

  lemma StampLetters()
    ensures ']' !in "10/Oct/2000" && ']' !in "13" && ']' !in "55:36 -0700"
    ensures ':' !in "10/Oct/2000" && ':' !in "13"
  {
  }

  // ---- `sorted` on the hours ----

  /** Python's `<` on strings: lexicographic order of the code points. */
  predicate StrLess(a: string, b: string)
    decreases |a|
  {
    if |a| == 0 then |b| > 0
    else if |b| == 0 then false
    else a[0] < b[0] || (a[0] == b[0] && StrLess(a[1..], b[1..]))
  }

  lemma {:induction false} StrLessIrreflexive(a: string)
    ensures !StrLess(a, a)
  {
    if |a| > 0 {
      StrLessIrreflexive(a[1..]);
    }
  }

  lemma {:induction false} StrLessTransitive(a: string, b: string, c: string)
    requires StrLess(a, b) && StrLess(b, c)
    ensures StrLess(a, c)
    decreases |a|
  {
    if |a| > 0 && a[0] == b[0] && b[0] == c[0] {
      StrLessTransitive(a[1..], b[1..], c[1..]);
    }
  }

  lemma {:induction false} StrLessTotal(a: string, b: string)
    requires a != b
    ensures StrLess(a, b) || StrLess(b, a)
    decreases |a|
  {
    if |a| > 0 && |b| > 0 && a[0] == b[0] {
      assert a == [a[0]] + a[1..] && b == [b[0]] + b[1..];
      StrLessTotal(a[1..], b[1..]);
    }
  }

  /** Strictly ascending: sorted and without repeats. */
  predicate Ascending(s: seq<string>) {
    forall i, j :: 0 <= i < j < |s| ==> StrLess(s[i], s[j])
  }

  predicate NoRepeats(s: seq<string>) {
    forall i, j :: 0 <= i < j < |s| ==> s[i] != s[j]
  }

  /** Puts `x` before the first element greater than it. */
  function InsertAsc(s: seq<string>, x: string): (r: seq<string>)
    requires Ascending(s) && x !in s
    ensures Ascending(r)
    ensures multiset(r) == multiset(s) + multiset{x}
  {
    if |s| == 0 then [x]
    else if StrLess(x, s[0]) then
      var r := [x] + s;
      forall i, j | 0 <= i < j < |r| ensures StrLess(r[i], r[j]) {
        if i == 0 && j > 1 {
          StrLessTransitive(x, s[0], s[j - 1]);
        }
      }
      r
    else
      StrLessTotal(x, s[0]);
      assert s == [s[0]] + s[1..];
      var r' := InsertAsc(s[1..], x);
      var r := [s[0]] + r';
      forall i, j | 0 <= i < j < |r| ensures StrLess(r[i], r[j]) {
        if i == 0 {
          assert r[j] in multiset(r');
          assert r[j] == x || r[j] in s[1..];
        }
      }
      r
  }

  /** `sorted(keys)` for distinct keys. */
  function SortAsc(ks: seq<string>): (r: seq<string>)
    requires NoRepeats(ks)
    ensures Ascending(r)
    ensures multiset(r) == multiset(ks)
  {
    if |ks| == 0 then []
    else
      var p, x := ks[..|ks| - 1], ks[|ks| - 1];
      assert ks == p + [x];
      assert x !in multiset(SortAsc(p));
      InsertAsc(SortAsc(p), x)
  }

  /**
   * Two ascending lists with the same elements are equal, so `SortAsc` is the
   * list Python's `sorted` returns whatever algorithm it runs.
   */
  lemma {:induction false} AscendingUnique(a: seq<string>, b: seq<string>)
    requires Ascending(a) && Ascending(b) && multiset(a) == multiset(b)
    ensures a == b
  {
    if |a| > 0 {
      assert |b| == |multiset(b)| == |a|;
      AscendingHeads(a, b);
      MultisetTail(a, b);
      AscendingUnique(a[1..], b[1..]);
      assert a == [a[0]] + a[1..] && b == [b[0]] + b[1..];
    }
  }

  /** The least element of two ascending lists with the same elements is the same. */
  lemma AscendingHeads(a: seq<string>, b: seq<string>)
    requires Ascending(a) && Ascending(b) && multiset(a) == multiset(b) && |a| > 0 && |b| > 0
    ensures a[0] == b[0]
  {
    assert a[0] in multiset(b) && b[0] in multiset(a);
    if a[0] != b[0] {
      var i :| 0 <= i < |b| && b[i] == a[0];
      var j :| 0 <= j < |a| && a[j] == b[0];
      StrLessIrreflexive(a[0]);
      StrLessTransitive(a[0], a[j], b[i]);
    }
  }

  lemma MultisetTail(a: seq<string>, b: seq<string>)
    requires multiset(a) == multiset(b) && |a| > 0 && |b| > 0 && a[0] == b[0]
    ensures multiset(a[1..]) == multiset(b[1..])
  {
    assert a == [a[0]] + a[1..] && b == [b[0]] + b[1..];
    assert multiset(a) == multiset{a[0]} + multiset(a[1..]);
    assert multiset(b) == multiset{b[0]} + multiset(b[1..]);
    assert multiset(a[1..]) == multiset(a) - multiset{a[0]};
    assert multiset(b[1..]) == multiset(b) - multiset{b[0]};
  }

  // ---- the report ----

  /** Every line has an hour: the loop runs to the end. */
  predicate AllHaveHours(lines: seq<string>) {
    forall i :: 0 <= i < |lines| ==> HourOf(lines[i]).Some?
  }

  /** The hour of each line, in file order. */
  function HoursOf(lines: seq<string>): seq<string>
    requires AllHaveHours(lines)
  {
    seq(|lines|, i requires 0 <= i < |lines| => HourOf(lines[i]).value)
  }

  /** The index of the first line without an hour, or the number of lines. */
  function FirstAbort(lines: seq<string>): (k: nat)
    ensures k <= |lines|
    ensures AllHaveHours(lines[..k])
    ensures k < |lines| ==> HourOf(lines[k]).None?
  {
    if |lines| == 0 then 0
    else if HourOf(lines[0]).None? then 0
    else
      var k := FirstAbort(lines[1..]);
      HoursCons(lines, k);
      k + 1
  }

  lemma HoursCons(lines: seq<string>, k: nat)
    requires k < |lines| && HourOf(lines[0]).Some? && AllHaveHours(lines[1..][..k])
    ensures AllHaveHours(lines[..k + 1])
  {
    assert lines[..k + 1] == [lines[0]] + lines[1..][..k];
  }

  /**
   * `registrosPorHora` up to the chart: the `IndexError` of the first line
   * without a `:` in its timestamp text, or the sorted hours and their counts.
   */
  datatype HourlyOutcome = Aborted(line: nat) | Hours(hours: seq<string>, counts: seq<nat>)

  lemma KeysNoRepeats(t: seq<Entry<string>>)
    requires DistinctKeys(t)
    ensures NoRepeats(Keys(t))
  {
  }

  function HourlyReportOf(lines: seq<string>): HourlyOutcome {
    var k := FirstAbort(lines);
    if k < |lines| then Aborted(k)
    else
      assert lines[..k] == lines;
      var t := Tally(HoursOf(lines));
      KeysNoRepeats(t);
      var hs := SortAsc(Keys(t));
      Hours(hs, Lookups(t, hs))
  }

  lemma HoursSnoc(lines: seq<string>, i: int)
    requires 0 <= i < |lines| && AllHaveHours(lines[..i + 1])
    ensures AllHaveHours(lines[..i])
    ensures HoursOf(lines[..i + 1]) == HoursOf(lines[..i]) + [HourOf(lines[i]).value]
  {
    assert forall j :: 0 <= j < i ==> lines[..i][j] == lines[..i + 1][j];
  }

  /** The first line without an hour is the one the loop stops at. */
  lemma {:induction false} FirstAbortIs(lines: seq<string>, i: int)
    requires 0 <= i <= |lines| && AllHaveHours(lines[..i])
    requires i == |lines| || HourOf(lines[i]).None?
    ensures FirstAbort(lines) == i
  {
    if |lines| > 0 && i > 0 {
      assert lines[..i][0] == lines[0];
      assert lines[1..][..i - 1] == lines[..i][1..];
      FirstAbortIs(lines[1..], i - 1);
    }
  }

  /** One more line with an hour adds 1 to the entry of that hour. */
  lemma HourStep(lines: seq<string>, i: int)
    requires 0 <= i < |lines| && AllHaveHours(lines[..i]) && HourOf(lines[i]).Some?
    ensures AllHaveHours(lines[..i + 1])
    ensures Tally(HoursOf(lines[..i + 1])) == Add(Tally(HoursOf(lines[..i])), HourOf(lines[i]).value, 1)
  {
    assert lines[..i + 1] == lines[..i] + [lines[i]];
    HoursSnoc(lines, i);
    TallySnoc(HoursOf(lines[..i]), HourOf(lines[i]).value);
  }

  /** When every line has an hour, the report lists the sorted hours of the table. */
  lemma HourlyEnd(lines: seq<string>, t: seq<Entry<string>>)
    requires AllHaveHours(lines[..|lines|]) && t == Tally(HoursOf(lines[..|lines|]))
    ensures NoRepeats(Keys(t))
    ensures HourlyReportOf(lines) == Hours(SortAsc(Keys(t)), Lookups(t, SortAsc(Keys(t))))
  {
    assert lines[..|lines|] == lines;
    FirstAbortIs(lines, |lines|);
    KeysNoRepeats(t);
  }

  /** `registrosPorHora`: the counting loop, `sorted` and the list of counts. */
  method HourlyReport(lines: seq<string>) returns (r: HourlyOutcome)
    ensures r == HourlyReportOf(lines)
  {
    var t: seq<Entry<string>> := [];
    for i := 0 to |lines|
      invariant AllHaveHours(lines[..i])
      invariant t == Tally(HoursOf(lines[..i]))
    {
      var line := lines[i];
      var start := Find(line, '[');
      var end := Find(line, ']');
      var text := PySlice(line, start + 1, end);
      var parts := Split(text, ':');
      assert parts == Split(TimestampText(lines[i]), ':');
      if |parts| < 2 {
        FirstAbortIs(lines, i);
        return Aborted(i);
      }
      var hour := parts[1];
      HourStep(lines, i);
      if hour !in Keys(t) {
        AddAbsent(t, hour, 1);
        t := t + [Entry(hour, 1)];
      } else {
        t := Add(t, hour, 1);
      }
    }
    HourlyEnd(lines, t);
    var hours := SortAsc(Keys(t));
    var counts := Lookups(t, hours);
    r := Hours(hours, counts);
  }

  /**
   * The report aborts exactly when some line has no `:` in its timestamp
   * text, and then at the first such line: no line is skipped.
   */
  lemma HourlyAborts(lines: seq<string>)
    ensures HourlyReportOf(lines).Hours? <==> AllHaveHours(lines)
    ensures HourlyReportOf(lines).Aborted? ==>
      var k := HourlyReportOf(lines).line;
      && k < |lines|
      && ':' !in TimestampText(lines[k])
      && forall j :: 0 <= j < k ==> ':' in TimestampText(lines[j])
  {
    var k := FirstAbort(lines);
    assert lines[..|lines|] == lines;
    forall j | 0 <= j < k ensures ':' in TimestampText(lines[j]) {
      assert lines[..k][j] == lines[j];
      HourOfMeaning(lines[j]);
    }
    if k < |lines| {
      HourOfMeaning(lines[k]);
    }
  }

  /**
   * When no line aborts the report: the hours are strictly ascending (so
   * without repeats), they are exactly the hours of the lines, each count is
   * the number of lines with that hour, and the counts add up to the lines.
   */
  lemma HourlyCounts(lines: seq<string>)
    requires AllHaveHours(lines)
    ensures HourlyReportOf(lines).Hours?
    ensures Ascending(HourlyReportOf(lines).hours)
    ensures |HourlyReportOf(lines).counts| == |HourlyReportOf(lines).hours|
    ensures forall h :: h in HourlyReportOf(lines).hours <==> exists i :: 0 <= i < |lines| && HourOf(lines[i]) == Some(h)
    ensures forall i :: 0 <= i < |HourlyReportOf(lines).hours| ==>
      HourlyReportOf(lines).counts[i] == multiset(HoursOf(lines))[HourlyReportOf(lines).hours[i]]
    ensures Sum(HourlyReportOf(lines).counts) == |lines|
  {
    HourlyShape(lines);
    var t := Tally(HoursOf(lines));
    HoursSeen(lines);
    SumLookups(t, SortAsc(Keys(t)));
  }

  /** When no line aborts, the report is the sorted hours of the table and their counts. */
  lemma HourlyShape(lines: seq<string>)
    requires AllHaveHours(lines)
    ensures NoRepeats(Keys(Tally(HoursOf(lines))))
    ensures var t := Tally(HoursOf(lines));
      HourlyReportOf(lines) == Hours(SortAsc(Keys(t)), Lookups(t, SortAsc(Keys(t))))
  {
    assert lines[..|lines|] == lines;
    FirstAbortIs(lines, |lines|);
    KeysNoRepeats(Tally(HoursOf(lines)));
  }

  /** The sorted hours of the table are the hours of the lines. */
  lemma HoursSeen(lines: seq<string>)
    requires AllHaveHours(lines)
    ensures NoRepeats(Keys(Tally(HoursOf(lines))))
    ensures forall h :: h in SortAsc(Keys(Tally(HoursOf(lines)))) <==> exists i :: 0 <= i < |lines| && HourOf(lines[i]) == Some(h)
  {
    var t := Tally(HoursOf(lines));
    KeysNoRepeats(t);
    SortAscMembers(Keys(t));
    HoursOfMembers(lines);
  }

  lemma SortAscMembers(ks: seq<string>)
    requires NoRepeats(ks)
    ensures forall k :: k in SortAsc(ks) <==> k in ks
  {
    var r := SortAsc(ks);
    assert forall k :: k in r <==> k in multiset(r);
    assert forall k :: k in ks <==> k in multiset(ks);
  }

  /** The hours of the lines are the hours some line has. */
  lemma HoursOfMembers(lines: seq<string>)
    requires AllHaveHours(lines)
    ensures forall h :: h in HoursOf(lines) <==> exists i :: 0 <= i < |lines| && HourOf(lines[i]) == Some(h)
  {
    PartsMembers(lines, HourOf, HoursOf(lines));
  }

  /** When `f` gives `ys[i]` for each `xs[i]`, the members of `ys` are the values `f` gives. */
  lemma PartsMembers(xs: seq<string>, f: string -> Option<string>, ys: seq<string>)
    requires |ys| == |xs| && forall i :: 0 <= i < |xs| ==> f(xs[i]) == Some(ys[i])
    ensures forall h :: h in ys <==> exists i :: 0 <= i < |xs| && f(xs[i]) == Some(h)
  {
    forall h | h in ys
      ensures exists i :: 0 <= i < |xs| && f(xs[i]) == Some(h)
    {
      var i :| 0 <= i < |ys| && ys[i] == h;
    }
  }
}
