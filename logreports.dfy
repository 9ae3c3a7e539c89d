/**
 * The four pie-chart reports of the log: response status codes, operating
 * systems, browsers, and robots against humans. Each reads the log line by
 * line, keeps what `parse_log_line` accepts, counts one label per record and
 * hands the labels and sizes to the plotting library. The model ends at that
 * chart data.
 */
module LogReports {
  import opened Wrappers
  import opened Seqs
  import opened Text
  import opened Tables
  import opened LogLine
  import opened UserAgents

  /**
   * What a report hands to `plt.pie`, or `NoData` when it prints its
   * "nothing found" message and returns. An empty `colors` means the
   * plotting library's default colours.
   */
  datatype Chart = NoData | Pie(labels: seq<string>, sizes: seq<nat>, colors: seq<string>)

  /** `parse_log_line` applied to every line of the log. */
  function Parses(lines: seq<string>): seq<Option<LogRecord>> {
    seq(|lines|, i requires 0 <= i < |lines| => ParseLogLine(lines[i]))
  }

  /** The records of the accepted lines, in file order. */
  function Accepted(ps: seq<Option<LogRecord>>): seq<LogRecord> {
    if |ps| == 0 then []
    else
      var rs := Accepted(ps[..|ps| - 1]);
      match ps[|ps| - 1]
      case Some(r) => rs + [r]
      case None => rs
  }

  /** The records of the lines `parse_log_line` accepts, in file order. */
  function Records(lines: seq<string>): seq<LogRecord> {
    Accepted(Parses(lines))
  }

  /** One more parse adds its record, if it has one. */
  lemma AcceptedStep(ps: seq<Option<LogRecord>>, i: int)
    requires 0 <= i < |ps|
    ensures ps[i].Some? ==> Accepted(ps[..i + 1]) == Accepted(ps[..i]) + [ps[i].value]
    ensures ps[i].None? ==> Accepted(ps[..i + 1]) == Accepted(ps[..i])
  {
    assert ps[..i + 1][..i] == ps[..i];
  }

  /** Reading a log in two parts gives the records of each part, one after the other. */
  lemma {:induction false} AcceptedAppend(a: seq<Option<LogRecord>>, b: seq<Option<LogRecord>>)
    ensures Accepted(a + b) == Accepted(a) + Accepted(b)
    decreases |b|
  {
    if |b| == 0 {
      assert a + b == a;
    } else {
      var b' := b[..|b| - 1];
      assert (a + b)[..|a + b| - 1] == a + b';
      assert (a + b)[|a + b| - 1] == b[|b| - 1];
      AcceptedAppend(a, b');
    }
  }

  /** There are no more records than parses, and each record is one of them. */
  lemma {:induction false} AcceptedFrom(ps: seq<Option<LogRecord>>)
    ensures |Accepted(ps)| <= |ps|
    ensures forall r :: r in Accepted(ps) ==> Some(r) in ps
  {
    if |ps| > 0 {
      var p := ps[..|ps| - 1];
      AcceptedFrom(p);
      assert forall o :: o in p ==> o in ps;
    }
  }

  /** Every record is the parse of some line of the log, and there are no more records than lines. */
  lemma RecordsFromLines(lines: seq<string>)
    ensures |Records(lines)| <= |lines|
    ensures forall r :: r in Records(lines) ==> exists l :: l in lines && ParseLogLine(l) == Some(r)
  {
    var ps := Parses(lines);
    AcceptedFrom(ps);
    forall r | r in Records(lines)
      ensures exists l :: l in lines && ParseLogLine(l) == Some(r)
    {
      var i :| 0 <= i < |ps| && ps[i] == Some(r);
      assert lines[i] in lines;
    }
  }

  /**
   * Apache writes `-` for the size of a response without a body; such a
   * line fails `\d+` and adds nothing to any report.
   */
  lemma DashSizeLineIgnored(before: seq<string>, f: LogFields, rest: string, after: seq<string>)
    requires WellFormed(f.(size := "0")) && f.size == "-"
    ensures Records(before + [Render(f, rest)] + after) == Records(before + after)
  {
    assert !AllDigits(f.size) by {
      assert !IsDigit(f.size[0]);
    }
    ParseRejectsNonNumericSize(f, rest);
    ParsesAppend(before + [Render(f, rest)], after);
    ParsesAppend(before, [Render(f, rest)]);
    ParsesAppend(before, after);
    assert Parses([Render(f, rest)]) == [None];
    AcceptedAppend(Parses(before) + [None], Parses(after));
    AcceptedAppend(Parses(before), [None]);
    AcceptedAppend(Parses(before), Parses(after));
    assert Accepted([None]) == [];
  }

  /** Parsing a log read in two parts parses each part. */
  lemma ParsesAppend(a: seq<string>, b: seq<string>)
    ensures Parses(a + b) == Parses(a) + Parses(b)
  {
    var f: string -> Option<LogRecord> := ParseLogLine;
    MapAppend(f, a, b);
    ParsesMap(a, f);
    ParsesMap(b, f);
    ParsesMap(a + b, f);
  }

  /** `Parses` applies the parser, given as a value, to every line. */
  lemma ParsesMap(lines: seq<string>, f: string -> Option<LogRecord>)
    requires forall l :: f(l) == ParseLogLine(l)
    ensures Parses(lines) == Map(f, lines)
  {
  }

  function Statuses(rs: seq<LogRecord>): seq<string> {
    seq(|rs|, i requires 0 <= i < |rs| => rs[i].status)
  }

  function Agents(rs: seq<LogRecord>): seq<string> {
    seq(|rs|, i requires 0 <= i < |rs| => rs[i].userAgent)
  }

  /** The label of each agent under a first-match rule table. */
  function Labels(rules: seq<Rule>, uas: seq<string>): seq<string> {
    seq(|uas|, i requires 0 <= i < |uas| => LabelOf(rules, uas[i]))
  }

  /** `if not counts: return`, else `list(counts.keys())` and `list(counts.values())`. */
  function ChartOf(t: seq<Entry<string>>): Chart {
    if |t| == 0 then NoData else Pie(Keys(t), Counts(t), [])
  }

  /** `c` is the pie of counting `ks`: one distinct label per value seen, sized by its number of occurrences. */
  ghost predicate CountsChart(c: Chart, ks: seq<string>) {
    && (c.NoData? <==> ks == [])
    && (c.Pie? ==>
      && |c.labels| == |c.sizes|
      && c.colors == []
      && (forall i, j :: 0 <= i < j < |c.labels| ==> c.labels[i] != c.labels[j])
      && (forall k :: k in c.labels <==> k in ks)
      && (forall i :: 0 <= i < |c.labels| ==> c.sizes[i] == multiset(ks)[c.labels[i]] && c.sizes[i] > 0)
      && Sum(c.sizes) == |ks|)
  }

  lemma ChartOfTally(ks: seq<string>)
    ensures CountsChart(ChartOf(Tally(ks)), ks)
  {
    var t := Tally(ks);
    if |t| > 0 {
      TallySizes(ks);
      TallyLabelsDistinct(ks);
      SumCounts(t);
    } else {
      assert forall k :: k !in ks;
    }
  }

  /** Each count of the table is the number of occurrences of its key, and positive. */
  lemma TallySizes(ks: seq<string>)
    ensures forall i :: 0 <= i < |Tally(ks)| ==>
      Counts(Tally(ks))[i] == multiset(ks)[Keys(Tally(ks))[i]] && Counts(Tally(ks))[i] > 0
  {
    var t := Tally(ks);
    TallyPositive(ks);
    forall i | 0 <= i < |t|
      ensures Counts(t)[i] == multiset(ks)[Keys(t)[i]]
    {
      GetEntry(t, i);
    }
  }

  lemma TallyLabelsDistinct(ks: seq<string>)
    ensures forall i, j :: 0 <= i < j < |Keys(Tally(ks))| ==> Keys(Tally(ks))[i] != Keys(Tally(ks))[j]
  {
  }

  lemma StatusStep(ps: seq<Option<LogRecord>>, i: int)
    requires 0 <= i < |ps|
    ensures ps[i].Some? ==>
      Tally(Statuses(Accepted(ps[..i + 1]))) == Add(Tally(Statuses(Accepted(ps[..i]))), ps[i].value.status, 1)
    ensures ps[i].None? ==> Accepted(ps[..i + 1]) == Accepted(ps[..i])
  {
    AcceptedStep(ps, i);
    var rs := Accepted(ps[..i]);
    if ps[i].Some? {
      var r := ps[i].value;
      assert Statuses(rs + [r]) == Statuses(rs) + [r.status];
      TallySnoc(Statuses(rs), r.status);
    }
  }

  /** `response_status_pie_chart`: count the status of every accepted line. */
  method ResponseStatusChart(lines: seq<string>) returns (c: Chart)
    ensures c == ChartOf(Tally(Statuses(Records(lines))))
  {
    var counts: seq<Entry<string>> := [];
    ghost var ps := Parses(lines);
    var i := 0;
    while i < |lines|
      invariant 0 <= i <= |lines|
      invariant counts == Tally(Statuses(Accepted(ps[..i])))
    {
      StatusStep(ps, i);
      var parsed := ParseLogLine(lines[i]);
      assert parsed == ps[i];
      if parsed.Some? {
        counts := Add(counts, parsed.value.status, 1);
      }
      i := i + 1;
    }
    assert ps[..|lines|] == ps;
    if |counts| == 0 {
      c := NoData;
    } else {
      c := Pie(Keys(counts), Counts(counts), []);
    }
  }

  /** The status chart: every label is a three-digit code, and the sizes add up to the accepted lines. */
  lemma StatusChartFacts(lines: seq<string>)
    ensures CountsChart(ChartOf(Tally(Statuses(Records(lines)))), Statuses(Records(lines)))
    ensures ChartOf(Tally(Statuses(Records(lines)))).NoData? <==> Records(lines) == []
    ensures var c := ChartOf(Tally(Statuses(Records(lines))));
      c.Pie? ==> Sum(c.sizes) == |Records(lines)| && forall l :: l in c.labels ==> |l| == 3 && AllDigits(l)
  {
    var rs := Records(lines);
    ChartOfTally(Statuses(rs));
    forall l | l in Statuses(rs)
      ensures |l| == 3 && AllDigits(l)
    {
      var i :| 0 <= i < |rs| && Statuses(rs)[i] == l;
      RecordStatus(lines, rs[i]);
    }
  }

  /** Each record's status is three digits, as the pattern's `\d{3}` demands. */
  lemma RecordStatus(lines: seq<string>, r: LogRecord)
    requires r in Records(lines)
    ensures |r.status| == 3 && AllDigits(r.status)
  {
    RecordsFromLines(lines);
  }

  /**
   * `operating_systems_pie_chart` and `browsers_pie_chart`: classify the
   * agent of every accepted line with the first rule of the table that
   * matches, and count the labels.
   */
  method RuleChart(rules: seq<Rule>, lines: seq<string>) returns (c: Chart)
    ensures c == ChartOf(Tally(Labels(rules, Agents(Records(lines)))))
  {
    var counts: seq<Entry<string>> := [];
    ghost var ps := Parses(lines);
    var i := 0;
    while i < |lines|
      invariant 0 <= i <= |lines|
      invariant counts == Tally(Labels(rules, Agents(Accepted(ps[..i]))))
    {
      LabelStep(rules, ps, i);
      var parsed := ParseLogLine(lines[i]);
      assert parsed == ps[i];
      if parsed.Some? {
        counts := CountAgent(rules, parsed.value.userAgent, counts);
      }
      i := i + 1;
    }
    assert ps[..|lines|] == ps;
    if |counts| == 0 {
      c := NoData;
    } else {
      c := Pie(Keys(counts), Counts(counts), []);
    }
  }

  lemma LabelStep(rules: seq<Rule>, ps: seq<Option<LogRecord>>, i: int)
    requires 0 <= i < |ps|
    ensures ps[i].Some? ==>
      Tally(Labels(rules, Agents(Accepted(ps[..i + 1]))))
      == Add(Tally(Labels(rules, Agents(Accepted(ps[..i])))), LabelOf(rules, ps[i].value.userAgent), 1)
    ensures ps[i].None? ==> Accepted(ps[..i + 1]) == Accepted(ps[..i])
  {
    AcceptedStep(ps, i);
    var rs := Accepted(ps[..i]);
    if ps[i].Some? {
      var r := ps[i].value;
      assert Labels(rules, Agents(rs + [r])) == Labels(rules, Agents(rs)) + [LabelOf(rules, r.userAgent)];
      TallySnoc(Labels(rules, Agents(rs)), LabelOf(rules, r.userAgent));
    }
  }

  method OperatingSystemsChart(lines: seq<string>) returns (c: Chart)
    ensures c == ChartOf(Tally(Labels(OsRules, Agents(Records(lines)))))
  {
    c := RuleChart(OsRules, lines);
  }

  method BrowsersChart(lines: seq<string>) returns (c: Chart)
    ensures c == ChartOf(Tally(Labels(BrowserRules, Agents(Records(lines)))))
  {
    c := RuleChart(BrowserRules, lines);
  }

  /** A rule-table chart counts one label per accepted record, and every label is the name of a rule. */
  lemma RuleChartFacts(rules: seq<Rule>, lines: seq<string>)
    requires |rules| > 0 && rules[|rules| - 1].name == "Other"
    ensures CountsChart(ChartOf(Tally(Labels(rules, Agents(Records(lines))))), Labels(rules, Agents(Records(lines))))
    ensures var c := ChartOf(Tally(Labels(rules, Agents(Records(lines)))));
      c.Pie? ==> Sum(c.sizes) == |Records(lines)| && forall l :: l in c.labels ==> exists r :: r in rules && r.name == l
  {
    ChartOfTally(Labels(rules, Agents(Records(lines))));
    LabelsNamed(rules, Agents(Records(lines)));
  }

  /** Every label is the name of one of the rules. */
  lemma LabelsNamed(rules: seq<Rule>, uas: seq<string>)
    requires |rules| > 0 && rules[|rules| - 1].name == "Other"
    ensures forall l :: l in Labels(rules, uas) ==> exists r :: r in rules && r.name == l
  {
    var ls := Labels(rules, uas);
    forall l | l in ls
      ensures exists r :: r in rules && r.name == l
    {
      var i :| 0 <= i < |ls| && ls[i] == l;
      var k := FirstMatch(rules, uas[i]);
      if k < |rules| {
        assert rules[k] in rules;
      } else {
        assert rules[|rules| - 1] in rules;
      }
    }
  }

  // ---- robots ----

  /** How many of `uas` the test `f` flags. */
  function CountIf(uas: seq<string>, f: string -> bool): (n: nat)
    ensures n <= |uas|
  {
    if |uas| == 0 then 0
    else CountIf(uas[..|uas| - 1], f) + (if f(uas[|uas| - 1]) then 1 else 0)
  }

  /** The agents no robot pattern flags. */
  predicate IsHuman(ua: string) {
    !IsRobot(ua)
  }


  /** A test and its negation share out the whole list. */
  lemma {:induction false} CountIfSplit(uas: seq<string>, f: string -> bool, g: string -> bool)
    requires forall ua :: g(ua) == !f(ua)
    ensures CountIf(uas, f) + CountIf(uas, g) == |uas|
  {
    if |uas| > 0 {
      CountIfSplit(uas[..|uas| - 1], f, g);
    }
  }

  /** Some agent is flagged exactly when the count is positive. */
  lemma {:induction false} CountIfPositive(uas: seq<string>, f: string -> bool)
    ensures CountIf(uas, f) > 0 <==> exists ua :: ua in uas && f(ua)
  {
    if |uas| > 0 {
      CountIfPositive(uas[..|uas| - 1], f);
      InSnoc(uas);
    }
  }

  /** The robot/human chart for the two counts, as `robots_pie_chart` builds its three aligned lists. */
  function RobotPie(robots: nat, humans: nat): Chart {
    if robots == 0 && humans == 0 then NoData
    else
      Pie((if robots > 0 then ["Robot"] else []) + (if humans > 0 then ["Human"] else []),
          (if robots > 0 then [robots] else []) + (if humans > 0 then [humans] else []),
          (if robots > 0 then ["#ff9999"] else []) + (if humans > 0 then ["#66b3ff"] else []))
  }

  /** An accepted line adds its agent to the agents read so far. */
  lemma AgentStep(ps: seq<Option<LogRecord>>, i: int)
    requires 0 <= i < |ps| && ps[i].Some?
    ensures Agents(Accepted(ps[..i + 1])) == Agents(Accepted(ps[..i])) + [ps[i].value.userAgent]
  {
    AcceptedStep(ps, i);
    var uas := Agents(Accepted(ps[..i]) + [ps[i].value]);
    assert uas[..|uas| - 1] == Agents(Accepted(ps[..i]));
    assert uas == uas[..|uas| - 1] + [uas[|uas| - 1]];
  }

  /** One more line adds one to the count of a test exactly when it is accepted and its agent passes the test. */
  lemma CountStep(ps: seq<Option<LogRecord>>, i: int, f: string -> bool)
    requires 0 <= i < |ps|
    ensures ps[i].Some? && f(ps[i].value.userAgent) ==>
      CountIf(Agents(Accepted(ps[..i + 1])), f) == CountIf(Agents(Accepted(ps[..i])), f) + 1
    ensures !(ps[i].Some? && f(ps[i].value.userAgent)) ==>
      CountIf(Agents(Accepted(ps[..i + 1])), f) == CountIf(Agents(Accepted(ps[..i])), f)
  {
    AcceptedStep(ps, i);
    if ps[i].Some? {
      var before := Agents(Accepted(ps[..i]));
      AgentStep(ps, i);
      assert (before + [ps[i].value.userAgent])[..|before|] == before;
    }
  }

  /** The counting loop of `robots_pie_chart`: one robot or human per accepted line. */
  method CountRobots(lines: seq<string>) returns (robotCount: nat, humanCount: nat)
    ensures robotCount == CountIf(Agents(Records(lines)), IsRobot)
    ensures humanCount == CountIf(Agents(Records(lines)), IsHuman)
  {
    robotCount := 0;
    humanCount := 0;
    ghost var ps := Parses(lines);
    var i := 0;
    while i < |lines|
      invariant 0 <= i <= |lines|
      invariant robotCount == CountIf(Agents(Accepted(ps[..i])), IsRobot)
      invariant humanCount == CountIf(Agents(Accepted(ps[..i])), IsHuman)
    {
      ghost var before, after := Agents(Accepted(ps[..i])), Agents(Accepted(ps[..i + 1]));
      CountStep(ps, i, IsRobot);
      CountStep(ps, i, IsHuman);
      var parsed := ParseLogLine(lines[i]);
      assert parsed == ps[i];
      if parsed.Some? {
        if IsRobot(parsed.value.userAgent) {
          assert CountIf(after, IsRobot) == CountIf(before, IsRobot) + 1;
          assert CountIf(after, IsHuman) == CountIf(before, IsHuman);
          robotCount := robotCount + 1;
        } else {
          assert CountIf(after, IsRobot) == CountIf(before, IsRobot);
          assert CountIf(after, IsHuman) == CountIf(before, IsHuman) + 1;
          humanCount := humanCount + 1;
        }
      } else {
        assert CountIf(after, IsRobot) == CountIf(before, IsRobot);
        assert CountIf(after, IsHuman) == CountIf(before, IsHuman);
      }
      i := i + 1;
    }
    assert ps[..|lines|] == ps;
  }

  /** `robots_pie_chart`: the two counts, then the three aligned lists for the chart. */
  method RobotsChart(lines: seq<string>) returns (c: Chart)
    ensures c == RobotPie(CountIf(Agents(Records(lines)), IsRobot), CountIf(Agents(Records(lines)), IsHuman))
  {
    var robotCount, humanCount := CountRobots(lines);
    c := RobotPieLists(robotCount, humanCount);
  }

  /** The chart part of `robots_pie_chart`: print and return on two zero counts, else append one label per non-zero count. */
  method RobotPieLists(robotCount: nat, humanCount: nat) returns (c: Chart)
    ensures c == RobotPie(robotCount, humanCount)
  {
    if robotCount == 0 && humanCount == 0 {
      c := NoData;
    } else {
      var labels: seq<string> := [];
      var sizes: seq<nat> := [];
      var colors: seq<string> := [];
      if robotCount > 0 {
        labels := labels + ["Robot"];
        sizes := sizes + [robotCount];
        colors := colors + ["#ff9999"];
      }
      if humanCount > 0 {
        labels := labels + ["Human"];
        sizes := sizes + [humanCount];
        colors := colors + ["#66b3ff"];
      }
      c := Pie(labels, sizes, colors);
    }
  }

  /**
   * The robot chart for two counts: labels, sizes and colours stay aligned,
   * `Robot` (red) comes before `Human` (blue), a label is present exactly
   * when its count is not zero, and the sizes add up to both counts.
   */
  lemma RobotPieFacts(robots: nat, humans: nat)
    ensures RobotPie(robots, humans).NoData? <==> robots + humans == 0
    ensures var c := RobotPie(robots, humans);
      c.Pie? ==>
        && |c.labels| == |c.sizes| == |c.colors|
        && Sum(c.sizes) == robots + humans
        && ("Robot" in c.labels <==> robots > 0)
        && ("Human" in c.labels <==> humans > 0)
        && (forall i :: 0 <= i < |c.labels| ==>
              && c.sizes[i] > 0
              && (c.labels[i] == "Robot" ==> c.sizes[i] == robots && c.colors[i] == "#ff9999")
              && (c.labels[i] == "Human" ==> c.sizes[i] == humans && c.colors[i] == "#66b3ff"))
        && (robots > 0 ==> c.labels[0] == "Robot")
  {
    var c := RobotPie(robots, humans);
    if c.Pie? {
      assert Sum(c.sizes) == robots + humans by {
        if robots > 0 && humans > 0 {
          assert c.sizes == [robots, humans];
          assert c.sizes[1..] == [humans];
          assert c.sizes[1..][1..] == [];
          assert Sum(c.sizes[1..]) == humans;
        } else if robots > 0 {
          assert c.sizes == [robots];
          assert c.sizes[1..] == [];
        } else {
          assert c.sizes == [humans];
          assert c.sizes[1..] == [];
        }
      }
    }
  }

  /** Over a log: no chart exactly when no line was accepted; a label appears exactly when some agent is of its kind. */
  lemma RobotChartFacts(lines: seq<string>)
    ensures var uas := Agents(Records(lines));
      var c := RobotPie(CountIf(uas, IsRobot), CountIf(uas, IsHuman));
      && (c.NoData? <==> Records(lines) == [])
      && (c.Pie? ==>
        && Sum(c.sizes) == |Records(lines)|
        && ("Robot" in c.labels <==> exists ua :: ua in uas && IsRobot(ua))
        && ("Human" in c.labels <==> exists ua :: ua in uas && !IsRobot(ua)))
  {
    var uas := Agents(Records(lines));
    CountIfPositive(uas, IsRobot);
    CountIfPositive(uas, IsHuman);
    CountIfSplit(uas, IsRobot, IsHuman);
    RobotPieFacts(CountIf(uas, IsRobot), CountIf(uas, IsHuman));
  }

  // ---- output location ----

  /** `nombre_archivo.split("-")[0]`: the virtual host a log file's charts are filed under. */
  function VirtualHost(stem: string): string {
    Split(stem, '-')[0]
  }

  /** The virtual host is the stem up to its first `-`, or the whole stem when it has none. */
  lemma VirtualHostMeaning(stem: string)
    ensures VirtualHost(stem) <= stem && '-' !in VirtualHost(stem)
    ensures |VirtualHost(stem)| < |stem| ==> stem[|VirtualHost(stem)|] == '-'
    ensures '-' !in stem ==> VirtualHost(stem) == stem
  {
    SplitFirst(stem, '-');
  }
}
