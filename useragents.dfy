/**
 * The user-agent classifiers of the OS and browser reports (ordered tables of
 * regular expressions, first `search` hit wins) and of the robot report (a
 * case-insensitive token list, any hit wins). Each regex is written as a small
 * pattern term whose meaning is an explicit string predicate.
 */
module UserAgents {
  import opened Seqs
  import opened Text
  import opened Tables

  /** The regex shapes the tables use. */
  datatype Pattern =
    | Literal(text: string)                       // `Windows NT`
    | Alt(left: Pattern, right: Pattern)          // `iPhone|iPad`
    | AnyText                                     // `.*`
    | NotFollowedBy(text: string, farther: seq<string>, adjacent: seq<string>)
      // `text(?!(?:.*w1|...|a1|...))`: `text` not followed, on the same line,
      // by any `farther` word, nor directly by any `adjacent` word

  /** The negative lookahead holds at the start of `rest`. `.` does not match a newline. */
  predicate LookaheadClear(rest: string, farther: seq<string>, adjacent: seq<string>) {
    && (forall w | w in farther :: !Contains(TakeLine(rest), w))
    && (forall w | w in adjacent :: !(w <= rest))
  }

  /** `re.compile(p).search(s)` finds a match. */
  predicate Search(p: Pattern, s: string) {
    match p
    case Literal(w) => Contains(s, w)
    case Alt(a, b) => Search(a, s) || Search(b, s)
    case AnyText => true
    case NotFollowedBy(w, farther, adjacent) =>
      exists i | 0 <= i <= |s| :: Occurs(s, w, i) && LookaheadClear(s[i + |w|..], farther, adjacent)
  }

  datatype Rule = Rule(name: string, pattern: Pattern)

  const ChromePattern := NotFollowedBy("Chrome/", ["Edg"], ["OPR"])
  const SafariPattern := NotFollowedBy("Safari/", ["Chrome"], [])

  /** `os_patterns`, in dict order. */
  const OsRules: seq<Rule> := [
    Rule("Windows", Literal("Windows NT")),
    Rule("macOS", Literal("Mac OS X")),
    Rule("Linux", Literal("Linux")),
    Rule("Android", Literal("Android")),
    Rule("iOS", Alt(Literal("iPhone"), Literal("iPad"))),
    Rule("Other", AnyText)
  ]

  /** `browser_patterns`, in dict order. */
  const BrowserRules: seq<Rule> := [
    Rule("Chrome", ChromePattern),
    Rule("Firefox", Literal("Firefox/")),
    Rule("Safari", SafariPattern),
    Rule("Edge", Alt(Literal("Edg/"), Literal("Edge/"))),
    Rule("Internet Explorer", Alt(Literal("MSIE "), Literal("Trident/"))),
    Rule("Opera", Alt(Literal("OPR/"), Literal("Opera/"))),
    Rule("Other", AnyText)
  ]

  /** The index of the first rule whose pattern is found in `ua`, or `|rules|`. */
  function FirstMatch(rules: seq<Rule>, ua: string): (i: nat)
    ensures i <= |rules|
    ensures forall j :: 0 <= j < i ==> !Search(rules[j].pattern, ua)
    ensures i < |rules| ==> Search(rules[i].pattern, ua)
  {
    if |rules| == 0 then 0
    else if Search(rules[0].pattern, ua) then 0
    else 1 + FirstMatch(rules[1..], ua)
  }

  /** The label the report's inner loop counts: the first hit, or "Other" when nothing matched. */
  function LabelOf(rules: seq<Rule>, ua: string): string {
    var i := FirstMatch(rules, ua);
    if i < |rules| then rules[i].name else "Other"
  }

  /**
   * One pass of the report's inner `for ... in patterns.items()` loop: count
   * the first rule that matches and `break`, or count "Other" if none did.
   */
  method CountAgent(rules: seq<Rule>, ua: string, counts: seq<Entry<string>>) returns (r: seq<Entry<string>>)
    ensures r == Add(counts, LabelOf(rules, ua), 1)
  {
    var detected := false;
    r := counts;
    var i := 0;
    while i < |rules|
      invariant 0 <= i <= |rules|
      invariant !detected && r == counts
      invariant forall j :: 0 <= j < i ==> !Search(rules[j].pattern, ua)
    {
      if Search(rules[i].pattern, ua) {
        r := Add(counts, rules[i].name, 1);
        detected := true;
        assert FirstMatch(rules, ua) == i;
        break;
      }
      i := i + 1;
    }
    if !detected {
      r := Add(counts, "Other", 1);
    }
  }

  /** Rules that all fail can be skipped: the search goes on in the rest of the table. */
  lemma {:induction false} FirstMatchDrop(rules: seq<Rule>, ua: string, k: nat)
    requires k <= |rules|
    requires forall j :: 0 <= j < k ==> !Search(rules[j].pattern, ua)
    ensures FirstMatch(rules, ua) == k + FirstMatch(rules[k..], ua)
  {
    if k == 0 {
      assert rules[0..] == rules;
    } else {
      var t := rules[1..];
      assert forall j :: 0 <= j < k - 1 ==> t[j] == rules[j + 1];
      FirstMatchDrop(t, ua, k - 1);
      assert t[k - 1..] == rules[k..];
    }
  }

  /** The first rule that matches, when every earlier one fails. */
  lemma FirstMatchAt(rules: seq<Rule>, ua: string, i: nat)
    requires i < |rules| && Search(rules[i].pattern, ua)
    requires forall j :: 0 <= j < i ==> !Search(rules[j].pattern, ua)
    ensures FirstMatch(rules, ua) == i
  {
    var k := FirstMatch(rules, ua);
  }

  // ---- operating systems ----

  /** The OS label the code yields, written as a plain decision list. */
  function OsName(ua: string): string {
    if Contains(ua, "Windows NT") then "Windows"
    else if Contains(ua, "Mac OS X") then "macOS"
    else if Contains(ua, "Linux") then "Linux"
    else if Contains(ua, "Android") then "Android"
    else if Contains(ua, "iPhone") || Contains(ua, "iPad") then "iOS"
    else "Other"
  }

  /** The OS table agrees with the decision list; its fallback rule always matches. */
  lemma OsLabels(ua: string)
    ensures FirstMatch(OsRules, ua) < |OsRules|
    ensures LabelOf(OsRules, ua) == OsName(ua)
  {
    var rs := OsRules;
    if Contains(ua, "Windows NT") {
      FirstMatchAt(rs, ua, 0);
    } else if Contains(ua, "Mac OS X") {
      FirstMatchAt(rs, ua, 1);
    } else if Contains(ua, "Linux") {
      FirstMatchAt(rs, ua, 2);
    } else if Contains(ua, "Android") {
      FirstMatchAt(rs, ua, 3);
    } else if Contains(ua, "iPhone") || Contains(ua, "iPad") {
      FirstMatchAt(rs, ua, 4);
    } else {
      FirstMatchAt(rs, ua, 5);
    }
  }

  /** `Linux` is tested before `Android`, so an agent naming both counts as Linux. */
  lemma LinuxShadowsAndroid(ua: string)
    requires Contains(ua, "Linux") && !Contains(ua, "Windows NT") && !Contains(ua, "Mac OS X")
    ensures LabelOf(OsRules, ua) == "Linux"
  {
    OsLabels(ua);
  }

  /** Only an agent without `Linux` is counted as Android. */
  lemma AndroidLabel(ua: string)
    ensures LabelOf(OsRules, ua) == "Android" <==>
      Contains(ua, "Android") && !Contains(ua, "Linux") && !Contains(ua, "Windows NT") && !Contains(ua, "Mac OS X")
  {
    OsLabels(ua);
  }

  // ---- browsers ----

  /** The Chrome rule as written: some `Chrome/` is not followed on its line by `Edg`, nor directly by `OPR`. */
  predicate ChromeHit(ua: string) {
    exists i | 0 <= i <= |ua| ::
      Occurs(ua, "Chrome/", i) && !Contains(TakeLine(ua[i + 7..]), "Edg") && !("OPR" <= ua[i + 7..])
  }

  /** The Safari rule as written: some `Safari/` is not followed on its line by `Chrome`. */
  predicate SafariHit(ua: string) {
    exists i | 0 <= i <= |ua| :: Occurs(ua, "Safari/", i) && !Contains(TakeLine(ua[i + 7..]), "Chrome")
  }

  lemma ChromePatternMeaning(ua: string)
    ensures Search(ChromePattern, ua) <==> ChromeHit(ua)
  {
    forall i | 0 <= i <= |ua| && Occurs(ua, "Chrome/", i)
      ensures LookaheadClear(ua[i + 7..], ["Edg"], ["OPR"])
        <==> !Contains(TakeLine(ua[i + 7..]), "Edg") && !("OPR" <= ua[i + 7..])
    {
      ChromeLookahead(ua[i + 7..]);
    }
  }

  lemma ChromeLookahead(rest: string)
    ensures LookaheadClear(rest, ["Edg"], ["OPR"]) <==> !Contains(TakeLine(rest), "Edg") && !("OPR" <= rest)
  {
    assert "Edg" in ["Edg"] && "OPR" in ["OPR"];
  }

  lemma SafariPatternMeaning(ua: string)
    ensures Search(SafariPattern, ua) <==> SafariHit(ua)
  {
    forall i | 0 <= i <= |ua| && Occurs(ua, "Safari/", i)
      ensures LookaheadClear(ua[i + 7..], ["Chrome"], []) <==> !Contains(TakeLine(ua[i + 7..]), "Chrome")
    {
      SafariLookahead(ua[i + 7..]);
    }
  }

  lemma SafariLookahead(rest: string)
    ensures LookaheadClear(rest, ["Chrome"], []) <==> !Contains(TakeLine(rest), "Chrome")
  {
    assert "Chrome" in ["Chrome"];
  }

  /** The browser label the code yields, written as a plain decision list. */
  function BrowserName(ua: string): string {
    if ChromeHit(ua) then "Chrome"
    else if Contains(ua, "Firefox/") then "Firefox"
    else if SafariHit(ua) then "Safari"
    else if Contains(ua, "Edg/") || Contains(ua, "Edge/") then "Edge"
    else if Contains(ua, "MSIE ") || Contains(ua, "Trident/") then "Internet Explorer"
    else if Contains(ua, "OPR/") || Contains(ua, "Opera/") then "Opera"
    else "Other"
  }

  /** The last four browser rules, which are plain literals. */
  lemma BrowserTailLabels(ua: string)
    ensures FirstMatch(BrowserRules[3..], ua) < 4
    ensures BrowserRules[3..][FirstMatch(BrowserRules[3..], ua)].name ==
      if Contains(ua, "Edg/") || Contains(ua, "Edge/") then "Edge"
      else if Contains(ua, "MSIE ") || Contains(ua, "Trident/") then "Internet Explorer"
      else if Contains(ua, "OPR/") || Contains(ua, "Opera/") then "Opera"
      else "Other"
  {
    var rs := BrowserRules[3..];
    if Contains(ua, "Edg/") || Contains(ua, "Edge/") {
      FirstMatchAt(rs, ua, 0);
    } else if Contains(ua, "MSIE ") || Contains(ua, "Trident/") {
      FirstMatchAt(rs, ua, 1);
    } else if Contains(ua, "OPR/") || Contains(ua, "Opera/") {
      FirstMatchAt(rs, ua, 2);
    } else {
      FirstMatchAt(rs, ua, 3);
    }
  }

  /** The browser table agrees with the decision list; its fallback rule always matches. */
  lemma BrowserLabels(ua: string)
    ensures FirstMatch(BrowserRules, ua) < |BrowserRules|
    ensures LabelOf(BrowserRules, ua) == BrowserName(ua)
  {
    var rs := BrowserRules;
    ChromePatternMeaning(ua);
    SafariPatternMeaning(ua);
    if ChromeHit(ua) {
      FirstMatchAt(rs, ua, 0);
    } else if Contains(ua, "Firefox/") {
      FirstMatchAt(rs, ua, 1);
    } else if SafariHit(ua) {
      FirstMatchAt(rs, ua, 2);
    } else {
      BrowserHeadMisses(ua);
      FirstMatchDrop(rs, ua, 3);
      BrowserTailLabels(ua);
    }
  }

  /** An agent that none of the Chrome, Firefox and Safari tests accepts fails the first three rules. */
  lemma BrowserHeadMisses(ua: string)
    requires !ChromeHit(ua) && !Contains(ua, "Firefox/") && !SafariHit(ua)
    ensures forall j :: 0 <= j < 3 ==> !Search(BrowserRules[j].pattern, ua)
  {
    ChromePatternMeaning(ua);
    SafariPatternMeaning(ua);
  }

  const AgentHead := "Mozilla/5.0 (Windows NT 10.0) "
  const EdgeBeforeSafari := "91.0 "
  const EdgeAfterSafari := "537.36 Edg/91.0"
  const EdgeAfterChrome := EdgeBeforeSafari + "Safari/" + EdgeAfterSafari
  const OperaAfterChrome := "91.0 Safari/537.36 OPR/77.0"

  /** A desktop Edge user agent: it carries `Chrome/`, `Safari/` and `Edg/`. */
  const EdgeAgent := AgentHead + "Chrome/" + EdgeAfterChrome

  /** An Opera user agent: `OPR/` comes after `Safari/`, not right behind `Chrome/`. */
  const OperaAgent := AgentHead + "Chrome/" + OperaAfterChrome

  lemma ChromeHitAt(ua: string, i: int)
    requires Occurs(ua, "Chrome/", i) && !Contains(TakeLine(ua[i + 7..]), "Edg") && !("OPR" <= ua[i + 7..])
    ensures ChromeHit(ua)
  {
  }

  lemma SafariHitAt(ua: string, i: int)
    requires Occurs(ua, "Safari/", i) && !Contains(TakeLine(ua[i + 7..]), "Chrome")
    ensures SafariHit(ua)
  {
  }

  lemma ChromeWins(ua: string)
    requires ChromeHit(ua)
    ensures LabelOf(BrowserRules, ua) == "Chrome"
  {
    BrowserLabels(ua);
  }

  lemma SafariWins(ua: string)
    requires !ChromeHit(ua) && !Contains(ua, "Firefox/") && SafariHit(ua)
    ensures LabelOf(BrowserRules, ua) == "Safari"
  {
    BrowserLabels(ua);
  }

  lemma AgentHeadLetters()
    ensures 'C' !in AgentHead && 'F' !in AgentHead
  {
  }

  lemma EdgeAfterChromeLetters()
    ensures 'C' !in EdgeAfterChrome && 'F' !in EdgeAfterChrome
  {
  }

  lemma EdgeAgentLetters()
    ensures 'C' !in AgentHead && 'C' !in "Chrome/"[1..] && 'C' !in EdgeAfterChrome
    ensures 'F' !in AgentHead && 'F' !in EdgeAfterChrome
  {
    AgentHeadLetters();
    EdgeAfterChromeLetters();
  }

  lemma EdgeAfterChromeHasEdg()
    ensures Contains(TakeLine(EdgeAfterChrome), "Edg")
  {
    assert Occurs(EdgeAfterChrome, "Edg", 19);
    PresentOnLine(EdgeAfterChrome, "Edg", 19);
  }

  /** The only `Chrome/` of the Edge agent is followed on its line by `Edg`. */
  lemma EdgeAgentNotChrome()
    ensures !ChromeHit(EdgeAgent)
  {
    var tail := EdgeAfterChrome;
    EdgeAgentLetters();
    EdgeAfterChromeHasEdg();
    OccursAt(AgentHead, "Chrome/", tail);
    forall i | 0 <= i <= |EdgeAgent| && Occurs(EdgeAgent, "Chrome/", i)
      ensures Contains(TakeLine(EdgeAgent[i + 7..]), "Edg")
    {
      OnlyOccurrence(AgentHead, "Chrome/", tail, i);
    }
  }

  /** The `Safari/` of the Edge agent is not followed by `Chrome`. */
  lemma EdgeAgentSafari()
    ensures SafariHit(EdgeAgent)
  {
    var before := AgentHead + "Chrome/" + EdgeBeforeSafari;
    Regroup(AgentHead + "Chrome/", EdgeBeforeSafari, "Safari/", EdgeAfterSafari);
    OccursAt(before, "Safari/", EdgeAfterSafari);
    EdgeAfterSafariLetters();
    AbsentFromLine(EdgeAfterSafari, "Chrome", 0);
    SafariHitAt(EdgeAgent, |before|);
  }

  lemma EdgeAfterSafariLetters()
    ensures '\n' !in EdgeAfterSafari && 'C' !in EdgeAfterSafari
  {
  }

  /**
   * The Chrome rule rejects an Edge agent, and the Safari rule, which comes
   * before the Edge rule, accepts it: Edge traffic is counted as Safari.
   */
  lemma EdgeAgentCountsAsSafari()
    ensures LabelOf(BrowserRules, EdgeAgent) == "Safari"
  {
    EdgeAgentNotChrome();
    EdgeAgentLetters();
    assert 'F' !in EdgeAgent;
    AbsentChar(EdgeAgent, "Firefox/", 0);
    EdgeAgentSafari();
    SafariWins(EdgeAgent);
  }

  /** The `Chrome/` of the Opera agent is followed by neither `Edg` nor `OPR`. */
  lemma OperaAfterChromeClear()
    ensures !Contains(TakeLine(OperaAfterChrome), "Edg") && !("OPR" <= OperaAfterChrome)
  {
    OperaAfterChromeLetters();
    AbsentFromLine(OperaAfterChrome, "Edg", 0);
    assert OperaAfterChrome[0] == '9';
  }

  lemma OperaAfterChromeLetters()
    ensures '\n' !in OperaAfterChrome && 'E' !in OperaAfterChrome
  {
  }

  lemma OperaAgentChromeHit()
    ensures ChromeHit(OperaAgent)
  {
    OccursAt(AgentHead, "Chrome/", OperaAfterChrome);
    OperaAfterChromeClear();
    ChromeHitAt(OperaAgent, |AgentHead|);
  }

  /** The Chrome rule accepts an Opera agent, so it is counted as Chrome. */
  lemma OperaAgentCountsAsChrome()
    ensures LabelOf(BrowserRules, OperaAgent) == "Chrome"
  {
    OperaAgentChromeHit();
    ChromeWins(OperaAgent);
  }

  // ---- robots ----

  /** `robot_patterns`, each compiled with `re.I`. */
  const RobotPatterns: seq<string> := ["bot", "spider", "crawl", "facebookexternalhit", "Googlebot", "Bingbot"]

  /** `any(pattern.search(user_agent) for pattern in robot_patterns)`, with case folded to ASCII lower case. */
  predicate IsRobot(ua: string) {
    exists p | p in RobotPatterns :: Contains(Lower(ua), Lower(p))
  }

  /** The patterns, case-folded. */
  lemma LowerPatterns()
    ensures Lower("bot") == "bot" && Lower("spider") == "spider" && Lower("crawl") == "crawl"
    ensures Lower("facebookexternalhit") == "facebookexternalhit"
    ensures Lower("Googlebot") == "googlebot" && Lower("Bingbot") == "bingbot"
  {
    LowerFixed("bot");
    LowerFixed("spider");
    LowerFixed("crawl");
    LowerFixed("facebookexternalhit");
  }

  /** `Googlebot` and `Bingbot` add nothing: both contain `bot`. */
  lemma RobotTokens(ua: string)
    ensures IsRobot(ua) <==>
      Contains(Lower(ua), "bot") || Contains(Lower(ua), "spider")
      || Contains(Lower(ua), "crawl") || Contains(Lower(ua), "facebookexternalhit")
  {
    var s := Lower(ua);
    LowerPatterns();
    assert Occurs("googlebot", "bot", 6);
    assert Occurs("bingbot", "bot", 4);
    if Contains(s, "googlebot") {
      ContainsTransitive(s, "googlebot", "bot");
    }
    if Contains(s, "bingbot") {
      ContainsTransitive(s, "bingbot", "bot");
    }
  }

  const GooglebotAgent := "Mozilla/5.0 (compatible; Google" + "bot" + "/2.1; +http://www.google.com/bot.html)"

  lemma GooglebotIsRobot(ua: string)
    requires ua == GooglebotAgent
    ensures IsRobot(ua)
  {
    OccursAt("Mozilla/5.0 (compatible; Google", "bot", "/2.1; +http://www.google.com/bot.html)");
    LowerKeeps(ua, "bot", 31);
    RobotTokens(ua);
  }

  const HumanAgent := "Mozilla/5.0 (Windows NT 10.0)"

  /** No character of the human agent folds to the first letter of a robot token (or to the `p` of `spider`). */
  lemma HumanAgentLetters()
    ensures forall c | c in "bpcf" :: c !in Lower(HumanAgent)
  {
    assert forall i | 0 <= i < |HumanAgent| :: LowerChar(HumanAgent[i]) !in "bpcf";
    LowerLacks(HumanAgent, "bpcf");
  }

  lemma WindowsBrowserIsHuman()
    ensures !IsRobot(HumanAgent)
  {
    var s := Lower(HumanAgent);
    HumanAgentLetters();
    assert 'b' in "bpcf" && 'p' in "bpcf" && 'c' in "bpcf" && 'f' in "bpcf";
    AbsentChar(s, "bot", 0);
    AbsentChar(s, "spider", 1);
    AbsentChar(s, "crawl", 0);
    AbsentChar(s, "facebookexternalhit", 0);
    RobotTokens(HumanAgent);
  }
}
