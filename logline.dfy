/**
 * `parse_log_line`: the Combined Log Format pattern
 *
 *   (?P<ip>\S+) \S+ \S+ \[[^\]]+\] "\S+ \S+ \S+" (?P<status>\d{3}) \d+ "[^"]*" "(?P<user_agent>[^"]*)"
 *
 * applied with `re.match`, so it is anchored at the start of the line but not
 * at its end. Each piece of the pattern is one scanning step below. Every
 * quantifier in the pattern has at most one length that lets the next
 * literal match (a `\S+` must stop at the space that follows it, `[^"]*` at
 * the next quote, and so on), so no backtracking choice is ever left open and
 * the steps compute exactly the regex's match and groups.
 */
module LogLine {
  import opened Wrappers
  import opened Text

  /** What one step leaves: the text it captured and the rest of the line. */
  datatype Cut = Cut(field: string, rest: string)

  /** All fields of a matched line, captured or not. */
  datatype LogFields = LogFields(
    ip: string, ident: string, user: string, time: string,
    verb: string, path: string, protocol: string,
    status: string, size: string, referrer: string, agent: string)

  /** What `parse_log_line` returns: the dict with keys ip, status and user_agent. */
  datatype LogRecord = LogRecord(ip: string, status: string, userAgent: string)

  datatype Scanned = Scanned(fields: LogFields, rest: string)

  /** A literal: the line must continue with `p`. */
  function Skip(s: string, p: string): (r: Option<string>)
    ensures r.Some? <==> p <= s
    ensures r.Some? ==> s == p + r.value
  {
    if p <= s then
      assert s == s[..|p|] + s[|p|..];
      Some(s[|p|..])
    else None
  }

  /** `\S+ `: a non-empty run of non-space characters and the space after it. */
  function Token(s: string): (r: Option<Cut>)
    ensures r.Some? ==> r.value.field != [] && NoSpace(r.value.field)
    ensures r.Some? ==> s == r.value.field + " " + r.value.rest
  {
    var n := SpanNonSpace(s);
    if 0 < n < |s| && s[n] == ' ' then
      assert s == s[..n] + " " + s[n + 1..];
      Some(Cut(s[..n], s[n + 1..]))
    else None
  }

  lemma TokenComplete(w: string, rest: string)
    requires w != [] && NoSpace(w)
    ensures Token(w + " " + rest) == Some(Cut(w, rest))
  {
    var s := w + " " + rest;
    assert s == w + (" " + rest);
    SpanNonSpaceOf(w, " " + rest);
    assert s[..|w|] == w && s[|w| + 1..] == rest;
  }

  /** `\S+" `: the last token of the request line, closed by a quote and a space. */
  function QuotedToken(s: string): (r: Option<Cut>)
    ensures r.Some? ==> r.value.field != [] && NoSpace(r.value.field)
    ensures r.Some? ==> s == r.value.field + "\" " + r.value.rest
  {
    var n := SpanNonSpace(s);
    if 2 <= n < |s| && s[n - 1] == '"' && s[n] == ' ' then
      assert s[..n - 1] == s[..n][..n - 1];
      assert s == s[..n - 1] + "\" " + s[n + 1..];
      Some(Cut(s[..n - 1], s[n + 1..]))
    else None
  }

  lemma QuotedTokenComplete(w: string, rest: string)
    requires w != [] && NoSpace(w)
    ensures QuotedToken(w + "\" " + rest) == Some(Cut(w, rest))
  {
    var s := w + "\" " + rest;
    assert s == (w + "\"") + (" " + rest);
    assert NoSpace(w + "\"");
    SpanNonSpaceOf(w + "\"", " " + rest);
    assert s[..|w|] == w && s[|w| + 2..] == rest;
  }

  /** `\d{3} `: exactly three digits and a space. */
  function StatusCode(s: string): (r: Option<Cut>)
    ensures r.Some? ==> |r.value.field| == 3 && AllDigits(r.value.field)
    ensures r.Some? ==> s == r.value.field + " " + r.value.rest
  {
    if |s| >= 4 && AllDigits(s[..3]) && s[3] == ' ' then
      assert s == s[..3] + " " + s[4..];
      Some(Cut(s[..3], s[4..]))
    else None
  }

  lemma StatusCodeComplete(d: string, rest: string)
    requires |d| == 3 && AllDigits(d)
    ensures StatusCode(d + " " + rest) == Some(Cut(d, rest))
  {
    var s := d + " " + rest;
    assert s[..3] == d && s[4..] == rest;
  }

  /** `\d+ `: a non-empty run of digits and the space after it. */
  function Number(s: string): (r: Option<Cut>)
    ensures r.Some? ==> r.value.field != [] && AllDigits(r.value.field)
    ensures r.Some? ==> s == r.value.field + " " + r.value.rest
  {
    var n := SpanDigits(s);
    if 0 < n < |s| && s[n] == ' ' then
      assert s == s[..n] + " " + s[n + 1..];
      Some(Cut(s[..n], s[n + 1..]))
    else None
  }

  lemma NumberComplete(d: string, rest: string)
    requires d != [] && AllDigits(d)
    ensures Number(d + " " + rest) == Some(Cut(d, rest))
  {
    var s := d + " " + rest;
    assert s == d + (" " + rest);
    SpanDigitsOf(d, " " + rest);
    assert s[..|d|] == d && s[|d| + 1..] == rest;
  }

  /** A size field that is not a number makes `\d+ ` fail (for instance `-`). */
  lemma NumberRejects(w: string, rest: string)
    requires w != [] && NoSpace(w) && !AllDigits(w)
    ensures Number(w + " " + rest) == None
  {
    var s := w + " " + rest;
    var k :| 0 <= k < |w| && !IsDigit(w[k]);
    assert s[k] == w[k];
    SpanDigitsStops(s, k);
    var n := SpanDigits(s);
    assert s[n] == w[n];
  }

  lemma {:induction false} SpanDigitsStops(s: string, k: int)
    requires 0 <= k < |s| && !IsDigit(s[k])
    ensures SpanDigits(s) <= k
  {
    if k > 0 && IsDigit(s[0]) {
      SpanDigitsStops(s[1..], k - 1);
    }
  }

  /** `[^c]*c`: everything up to the next `c`, and that `c`. */
  function UpTo(s: string, c: char): (r: Option<Cut>)
    ensures r.Some? ==> c !in r.value.field
    ensures r.Some? ==> s == r.value.field + [c] + r.value.rest
    ensures r.None? <==> c !in s
  {
    var i := Find(s, c);
    if i < 0 then None
    else
      assert s == s[..i] + [c] + s[i + 1..];
      Some(Cut(s[..i], s[i + 1..]))
  }

  lemma UpToComplete(w: string, c: char, rest: string)
    requires c !in w
    ensures UpTo(w + [c] + rest, c) == Some(Cut(w, rest))
  {
    var s := w + [c] + rest;
    var i := Find(s, c);
    assert s[..|w|] == w && s[|w| + 1..] == rest;
    assert s[|w|] == c;
  }

  /** `\S+ \S+ \S+ \[[^\]]+\]`: client address, identity, user and the bracketed time. */
  datatype Head = Head(ip: string, ident: string, user: string, time: string, rest: string)

  function RenderHead(ip: string, ident: string, user: string, time: string, rest: string): string {
    ip + " " + (ident + " " + (user + " " + ("[" + (time + "]" + rest))))
  }

  predicate HeadFields(ip: string, ident: string, user: string, time: string) {
    && ip != [] && NoSpace(ip)
    && ident != [] && NoSpace(ident)
    && user != [] && NoSpace(user)
    && time != [] && ']' !in time
  }

  function ScanHead(s: string): (r: Option<Head>)
    ensures r.Some? ==> HeadFields(r.value.ip, r.value.ident, r.value.user, r.value.time)
    ensures r.Some? ==> s == RenderHead(r.value.ip, r.value.ident, r.value.user, r.value.time, r.value.rest)
  {
    var ip :- Token(s);
    var ident :- Token(ip.rest);
    var user :- Token(ident.rest);
    var r1 :- Skip(user.rest, "[");
    var time :- UpTo(r1, ']');
    if time.field == [] then None
    else Some(Head(ip.field, ident.field, user.field, time.field, time.rest))
  }

  lemma ScanHeadComplete(ip: string, ident: string, user: string, time: string, rest: string)
    requires HeadFields(ip, ident, user, time)
    ensures ScanHead(RenderHead(ip, ident, user, time, rest)) == Some(Head(ip, ident, user, time, rest))
  {
    var s3 := "[" + (time + "]" + rest);
    var s2 := user + " " + s3;
    var s1 := ident + " " + s2;
    TokenComplete(ip, s1);
    TokenComplete(ident, s2);
    TokenComplete(user, s3);
    UpToComplete(time, ']', rest);
  }

  /** ` "\S+ \S+ \S+" `: the quoted request line. */
  datatype Request = Request(verb: string, path: string, protocol: string, rest: string)

  function RenderRequest(verb: string, path: string, protocol: string, rest: string): string {
    " \"" + (verb + " " + (path + " " + (protocol + "\" " + rest)))
  }

  predicate RequestFields(verb: string, path: string, protocol: string) {
    && verb != [] && NoSpace(verb)
    && path != [] && NoSpace(path)
    && protocol != [] && NoSpace(protocol)
  }

  function ScanRequest(s: string): (r: Option<Request>)
    ensures r.Some? ==> RequestFields(r.value.verb, r.value.path, r.value.protocol)
    ensures r.Some? ==> s == RenderRequest(r.value.verb, r.value.path, r.value.protocol, r.value.rest)
  {
    var r2 :- Skip(s, " \"");
    var verb :- Token(r2);
    var path :- Token(verb.rest);
    var protocol :- QuotedToken(path.rest);
    Some(Request(verb.field, path.field, protocol.field, protocol.rest))
  }

  lemma ScanRequestComplete(verb: string, path: string, protocol: string, rest: string)
    requires RequestFields(verb, path, protocol)
    ensures ScanRequest(RenderRequest(verb, path, protocol, rest)) == Some(Request(verb, path, protocol, rest))
  {
    var s8 := protocol + "\" " + rest;
    var s7 := path + " " + s8;
    TokenComplete(verb, s7);
    TokenComplete(path, s8);
    QuotedTokenComplete(protocol, rest);
  }

  /** `\d{3} \d+ "[^"]*" "[^"]*"`: status, size, referrer and user agent. */
  datatype Tail = Tail(status: string, size: string, referrer: string, agent: string, rest: string)

  function RenderTail(status: string, size: string, referrer: string, agent: string, rest: string): string {
    status + " " + (size + " " + ("\"" + (referrer + "\"" + (" \"" + (agent + "\"" + rest)))))
  }

  predicate TailFields(status: string, size: string, referrer: string, agent: string) {
    && |status| == 3 && AllDigits(status)
    && size != [] && AllDigits(size)
    && '"' !in referrer
    && '"' !in agent
  }

  function ScanTail(s: string): (r: Option<Tail>)
    ensures r.Some? ==> TailFields(r.value.status, r.value.size, r.value.referrer, r.value.agent)
    ensures r.Some? ==> s == RenderTail(r.value.status, r.value.size, r.value.referrer, r.value.agent, r.value.rest)
  {
    var status :- StatusCode(s);
    var size :- Number(status.rest);
    var r3 :- Skip(size.rest, "\"");
    var referrer :- UpTo(r3, '"');
    var r4 :- Skip(referrer.rest, " \"");
    var agent :- UpTo(r4, '"');
    Some(Tail(status.field, size.field, referrer.field, agent.field, agent.rest))
  }

  lemma ScanTailComplete(status: string, size: string, referrer: string, agent: string, rest: string)
    requires TailFields(status, size, referrer, agent)
    ensures ScanTail(RenderTail(status, size, referrer, agent, rest)) == Some(Tail(status, size, referrer, agent, rest))
  {
    var s14 := agent + "\"" + rest;
    var s13 := " \"" + s14;
    var s12 := referrer + "\"" + s13;
    var s11 := "\"" + s12;
    var s10 := size + " " + s11;
    StatusCodeComplete(status, s10);
    NumberComplete(size, s11);
    assert Skip(s11, "\"") == Some(s12);
    UpToComplete(referrer, '"', s13);
    assert Skip(s13, " \"") == Some(s14);
    UpToComplete(agent, '"', rest);
  }

  /** `\d{3} ` that meets a size field which is not a number fails. */
  lemma ScanTailRejects(status: string, size: string, rest: string)
    requires |status| == 3 && AllDigits(status)
    requires size != [] && NoSpace(size) && !AllDigits(size)
    ensures ScanTail(status + " " + (size + " " + rest)) == None
  {
    StatusCodeComplete(status, size + " " + rest);
    NumberRejects(size, rest);
  }

  /** The regex applied with `re.match`: the fields of the matched prefix and what follows it. */
  function Scan(line: string): (r: Option<Scanned>)
  {
    var head :- ScanHead(line);
    var request :- ScanRequest(head.rest);
    var tail :- ScanTail(request.rest);
    Some(Scanned(
      LogFields(head.ip, head.ident, head.user, head.time, request.verb, request.path,
                request.protocol, tail.status, tail.size, tail.referrer, tail.agent),
      tail.rest))
  }

  /** The constraints the pattern puts on each field. */
  predicate WellFormed(f: LogFields) {
    && HeadFields(f.ip, f.ident, f.user, f.time)
    && RequestFields(f.verb, f.path, f.protocol)
    && TailFields(f.status, f.size, f.referrer, f.agent)
  }

  /** The line the fields stand for: the pattern's literals put back between them, then `rest`. */
  function Render(f: LogFields, rest: string): string {
    RenderHead(f.ip, f.ident, f.user, f.time,
      RenderRequest(f.verb, f.path, f.protocol,
        RenderTail(f.status, f.size, f.referrer, f.agent, rest)))
  }

  /** Soundness: a match yields well-formed fields that spell out a prefix of the line. */
  lemma ScanSound(line: string)
    requires Scan(line).Some?
    ensures WellFormed(Scan(line).value.fields)
    ensures line == Render(Scan(line).value.fields, Scan(line).value.rest)
  {
  }

  /** Completeness: a line that starts with well-formed fields is matched, with exactly those fields. */
  lemma ScanComplete(f: LogFields, rest: string)
    requires WellFormed(f)
    ensures Scan(Render(f, rest)) == Some(Scanned(f, rest))
  {
    var t := RenderTail(f.status, f.size, f.referrer, f.agent, rest);
    var q := RenderRequest(f.verb, f.path, f.protocol, t);
    ScanHeadComplete(f.ip, f.ident, f.user, f.time, q);
    ScanRequestComplete(f.verb, f.path, f.protocol, t);
    ScanTailComplete(f.status, f.size, f.referrer, f.agent, rest);
  }

  /** `parse_log_line`: the ip, status and user_agent groups of a match, or None. */
  function ParseLogLine(line: string): (r: Option<LogRecord>)
    ensures r.Some? ==> r.value.ip != [] && NoSpace(r.value.ip)
    ensures r.Some? ==> |r.value.status| == 3 && AllDigits(r.value.status)
    ensures r.Some? ==> '"' !in r.value.userAgent
  {
    match Scan(line)
    case None => None
    case Some(sc) => Some(LogRecord(sc.fields.ip, sc.fields.status, sc.fields.agent))
  }

  /** A line is accepted exactly when it starts with a well-formed combined-format record. */
  lemma ParseLogLineAccepts(line: string)
    ensures ParseLogLine(line).Some? <==> exists f, rest :: WellFormed(f) && line == Render(f, rest)
  {
    if ParseLogLine(line).Some? {
      ScanSound(line);
      var sc := Scan(line).value;
      assert WellFormed(sc.fields) && line == Render(sc.fields, sc.rest);
    }
    if exists f, rest :: WellFormed(f) && line == Render(f, rest) {
      var f, rest :| WellFormed(f) && line == Render(f, rest);
      ScanComplete(f, rest);
    }
  }

  /** Rendering then parsing returns the captured groups. */
  lemma ParseRender(f: LogFields, rest: string)
    requires WellFormed(f)
    ensures ParseLogLine(Render(f, rest)) == Some(LogRecord(f.ip, f.status, f.agent))
  {
    ScanComplete(f, rest);
  }

  /**
   * A line whose size field is not a number (the `-` Apache writes for an
   * empty body, say) is not accepted, whatever the other fields hold.
   */
  lemma ParseRejectsNonNumericSize(f: LogFields, rest: string)
    requires WellFormed(f.(size := "0"))
    requires f.size != [] && NoSpace(f.size) && !AllDigits(f.size)
    ensures ParseLogLine(Render(f, rest)) == None
  {
    var tail := "\"" + (f.referrer + "\"" + (" \"" + (f.agent + "\"" + rest)));
    var t := RenderTail(f.status, f.size, f.referrer, f.agent, rest);
    assert t == f.status + " " + (f.size + " " + tail);
    var q := RenderRequest(f.verb, f.path, f.protocol, t);
    ScanHeadComplete(f.ip, f.ident, f.user, f.time, q);
    ScanRequestComplete(f.verb, f.path, f.protocol, t);
    ScanTailRejects(f.status, f.size, tail);
  }
}
