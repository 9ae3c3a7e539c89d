/**
 * The country report: count the lines per leading IPv4 address, fold the
 * per-address counts into per-country counts through the GeoIP lookup, sort
 * the countries by count, and merge the slices under 2% into `Other`.
 */
module Countries {
  import opened Wrappers
  import opened Text
  import opened Tables

  // ---- the leading address of a line ----

  /** `re.compile(r'^(\S+)').match(line).group(1)`: the leading run of non-space characters, if any. */
  function LeadingToken(line: string): (r: Option<string>)
    ensures r.Some? ==> r.value != [] && NoSpace(r.value) && r.value <= line
    ensures r.Some? ==> |r.value| == |line| || IsSpace(line[|r.value|])
    ensures r.None? <==> line == [] || IsSpace(line[0])
  {
    var n := SpanNonSpace(line);
    if n == 0 then None else Some(line[..n])
  }

  /** One part of a dotted quad as `ipaddress` accepts it: 1 to 3 ASCII digits, no leading zero, at most 255. */
  predicate ValidOctet(p: string) {
    1 <= |p| <= 3 && AllDigits(p) && (|p| == 1 || p[0] != '0') && DecimalValue(p) <= 255
  }

  /** `ipaddress.IPv4Address(s)` does not raise `AddressValueError`. */
  predicate IsIPv4(s: string) {
    var parts := Split(s, '.');
    |parts| == 4 && forall p | p in parts :: ValidOctet(p)
  }

  function Dotted(a: string, b: string, c: string, d: string): string {
    a + "." + (b + "." + (c + "." + d))
  }

  lemma DigitsHaveNoDot(a: string)
    requires AllDigits(a)
    ensures '.' !in a
  {
    forall i | 0 <= i < |a|
      ensures a[i] != '.'
    {
      assert IsDigit(a[i]);
    }
  }

  /** An address is valid exactly when it is four valid parts joined by dots. */
  lemma IPv4Shape(s: string)
    ensures IsIPv4(s) <==>
      exists a, b, c, d :: ValidOctet(a) && ValidOctet(b) && ValidOctet(c) && ValidOctet(d) && s == Dotted(a, b, c, d)
  {
    if IsIPv4(s) {
      var p := Split(s, '.');
      SplitJoin(s, '.');
      assert Join(p, '.') == p[0] + ['.'] + Join(p[1..], '.');
      assert Join(p[1..], '.') == p[1] + ['.'] + Join(p[2..], '.');
      assert Join(p[2..], '.') == p[2] + ['.'] + Join(p[3..], '.');
      assert Join(p[3..], '.') == p[3];
      assert p[0] in p && p[1] in p && p[2] in p && p[3] in p;
      assert s == Dotted(p[0], p[1], p[2], p[3]);
    }
    if exists a, b, c, d :: ValidOctet(a) && ValidOctet(b) && ValidOctet(c) && ValidOctet(d) && s == Dotted(a, b, c, d) {
      var a, b, c, d :| ValidOctet(a) && ValidOctet(b) && ValidOctet(c) && ValidOctet(d) && s == Dotted(a, b, c, d);
      DottedSplit(a, b, c, d);
    }
  }

  lemma SplitTwo(c: string, d: string)
    requires '.' !in c && '.' !in d
    ensures Split(c + "." + d, '.') == [c, d]
  {
    SplitNone(d, '.');
    SplitCons(c, '.', d);
  }

  lemma SplitThree(b: string, c: string, d: string)
    requires '.' !in b && '.' !in c && '.' !in d
    ensures Split(b + "." + (c + "." + d), '.') == [b, c, d]
  {
    SplitTwo(c, d);
    SplitCons(b, '.', c + "." + d);
  }

  lemma SplitFour(a: string, rest: string, b: string, c: string, d: string)
    requires '.' !in a && Split(rest, '.') == [b, c, d]
    ensures Split(a + "." + rest, '.') == [a, b, c, d]
  {
    SplitCons(a, '.', rest);
  }

  lemma DottedParts(a: string, b: string, c: string, d: string)
    requires '.' !in a && '.' !in b && '.' !in c && '.' !in d
    ensures Split(Dotted(a, b, c, d), '.') == [a, b, c, d]
  {
    SplitThree(b, c, d);
    SplitFour(a, b + "." + (c + "." + d), b, c, d);
  }

  lemma DottedSplit(a: string, b: string, c: string, d: string)
    requires ValidOctet(a) && ValidOctet(b) && ValidOctet(c) && ValidOctet(d)
    ensures Split(Dotted(a, b, c, d), '.') == [a, b, c, d]
    ensures IsIPv4(Dotted(a, b, c, d))
  {
    DigitsHaveNoDot(a);
    DigitsHaveNoDot(b);
    DigitsHaveNoDot(c);
    DigitsHaveNoDot(d);
    DottedParts(a, b, c, d);
  }

  lemma GoodOctetExamples()
    ensures ValidOctet("192") && ValidOctet("168") && ValidOctet("0") && ValidOctet("1")
  {
    assert "192"[..2] == "19" && "19"[..1] == "1";
    assert "168"[..2] == "16" && "16"[..1] == "1";
  }

  lemma BadOctetExamples()
    ensures !ValidOctet("01") && !ValidOctet("256") && !ValidOctet("1000") && !ValidOctet("")
  {
    assert "256"[..2] == "25" && "25"[..1] == "2";
    assert DecimalValue("256") == 256;
  }

  /** `192.168.0.1`, written as its four parts, is an address. */
  lemma ValidAddressExample()
    ensures IsIPv4(Dotted("192", "168", "0", "1"))
  {
    GoodOctetExamples();
    DottedSplit("192", "168", "0", "1");
  }

  /** A dotted quad with a bad first part is not an address. */
  lemma BadFirstPart(a: string, b: string, c: string, d: string)
    requires '.' !in a && '.' !in b && '.' !in c && '.' !in d
    requires !ValidOctet(a)
    ensures !IsIPv4(Dotted(a, b, c, d))
  {
    DottedParts(a, b, c, d);
    assert a == Split(Dotted(a, b, c, d), '.')[0];
  }

  /** A leading zero makes the address invalid. */
  lemma LeadingZeroExample()
    ensures !IsIPv4("01.2.3.4")
  {
    BadOctetExamples();
    BadFirstPart("01", "2", "3", "4");
    assert Dotted("01", "2", "3", "4") == "01.2.3.4";
  }

  /** A part over 255 makes the address invalid. */
  lemma LargePartExample()
    ensures !IsIPv4("256.1.1.1")
  {
    BadOctetExamples();
    BadFirstPart("256", "1", "1", "1");
    assert Dotted("256", "1", "1", "1") == "256.1.1.1";
  }

  /** Three dot-free parts are not an address, whatever they hold. */
  lemma ThreePartsInvalid(b: string, c: string, d: string)
    requires '.' !in b && '.' !in c && '.' !in d
    ensures !IsIPv4(b + "." + (c + "." + d))
  {
    SplitThree(b, c, d);
  }

  // ---- counting the lines per address ----

  /** The key a line adds to `diccionario_ips`: its leading token, when that is a valid address. */
  function AddressOf(line: string): Option<string> {
    match LeadingToken(line)
    case None => None
    case Some(ip) => if IsIPv4(ip) then Some(ip) else None
  }

  lemma AddressNotEmpty(ip: string)
    requires IsIPv4(ip)
    ensures ip != []
  {
    if ip == [] {
      SplitNone(ip, '.');
    }
  }

  /**
   * A line counts for `ip` exactly when `ip` is a valid address that the line
   * starts with and that is followed by white space or the end of the line.
   */
  lemma AddressOfMeaning(line: string, ip: string)
    ensures AddressOf(line) == Some(ip) <==>
      IsIPv4(ip) && NoSpace(ip) && ip <= line && (|ip| == |line| || IsSpace(line[|ip|]))
  {
    if IsIPv4(ip) && NoSpace(ip) && ip <= line && (|ip| == |line| || IsSpace(line[|ip|])) {
      AddressNotEmpty(ip);
      var tail := line[|ip|..];
      assert line == ip + tail;
      SpanNonSpaceOf(ip, tail);
    }
  }

  /** A line that starts with white space adds nothing. */
  lemma IndentedLineSkipped(line: string)
    requires line != [] && IsSpace(line[0])
    ensures AddressOf(line) == None
  {
  }

  /** The addresses the lines contribute, one per counted line, in file order. */
  function ValidIps(lines: seq<string>): seq<string> {
    if |lines| == 0 then []
    else
      var ips := ValidIps(lines[..|lines| - 1]);
      match AddressOf(lines[|lines| - 1])
      case None => ips
      case Some(ip) => ips + [ip]
  }

  lemma ValidIpsSnoc(lines: seq<string>, line: string)
    ensures AddressOf(line).None? ==> ValidIps(lines + [line]) == ValidIps(lines)
    ensures AddressOf(line).Some? ==> ValidIps(lines + [line]) == ValidIps(lines) + [AddressOf(line).value]
  {
    assert (lines + [line])[..|lines|] == lines;
  }

  /** Each further line adds 1 to the entry of its address when it has one, and changes nothing otherwise. */
  lemma IpTableStep(lines: seq<string>, line: string)
    ensures AddressOf(line).None? ==> Tally(ValidIps(lines + [line])) == Tally(ValidIps(lines))
    ensures AddressOf(line).Some? ==>
      Tally(ValidIps(lines + [line])) == Add(Tally(ValidIps(lines)), AddressOf(line).value, 1)
  {
    ValidIpsSnoc(lines, line);
    if AddressOf(line).Some? {
      TallySnoc(ValidIps(lines), AddressOf(line).value);
    }
  }

  /** The addresses counted are exactly those of the lines with a valid leading address. */
  lemma {:induction false} ValidIpsOf(lines: seq<string>)
    ensures |ValidIps(lines)| <= |lines|
    ensures forall ip :: ip in ValidIps(lines) <==> exists i :: 0 <= i < |lines| && AddressOf(lines[i]) == Some(ip)
  {
    if |lines| > 0 {
      var p, line := lines[..|lines| - 1], lines[|lines| - 1];
      assert lines == p + [line];
      ValidIpsOf(p);
      ValidIpsSnoc(p, line);
      forall ip
        ensures ip in ValidIps(lines) <==> exists i :: 0 <= i < |lines| && AddressOf(lines[i]) == Some(ip)
      {
        if ip in ValidIps(lines) && ip !in ValidIps(p) {
          assert AddressOf(lines[|p|]) == Some(ip);
        }
        if exists i :: 0 <= i < |lines| && AddressOf(lines[i]) == Some(ip) {
          var i :| 0 <= i < |lines| && AddressOf(lines[i]) == Some(ip);
          if i < |p| {
            assert p[i] == lines[i];
          }
        }
      }
    }
  }

  /** `diccionario_ips` after the reading loop. */
  method CountValidIps(lines: seq<string>) returns (ips: seq<Entry<string>>)
    ensures ips == Tally(ValidIps(lines))
  {
    ips := [];
    for i := 0 to |lines|
      invariant ips == Tally(ValidIps(lines[..i]))
    {
      assert lines[..i + 1] == lines[..i] + [lines[i]];
      IpTableStep(lines[..i], lines[i]);
      var token := LeadingToken(lines[i]);
      if token.Some? {
        var ip := token.value;
        if IsIPv4(ip) {
          ips := Add(ips, ip, 1);
        }
      }
    }
    assert lines[..|lines|] == lines;
  }

  // ---- from addresses to countries ----

  /**
   * What the GeoIP database answers for an address: a country name, or one of
   * the exceptions `get_country` catches (`AddressNotFoundError`,
   * `AddressValueError`, any other exception with its message).
   */
  datatype Lookup = Found(name: string) | AddressNotFound | AddressInvalid | LookupFailed(message: string)

  /** `get_country(ip, reader)`: the database answer turned into a string. */
  function GetCountry(ip: string, reader: string -> Lookup): string {
    match reader(ip)
    case Found(name) => name
    case AddressNotFound => "Unknown"
    case AddressInvalid => "Invalid IP"
    case LookupFailed(message) => "Error: " + message
  }

  /** The test at the head of the folding loop: the string names a country. */
  predicate Resolved(country: string) {
    country != "Unknown" && country != "Invalid IP" && !("Error" <= country)
  }

  /**
   * An address resolves exactly when the database finds a name that is none
   * of the failure strings; every failure of the lookup leaves it unresolved.
   */
  lemma GetCountryResolved(ip: string, reader: string -> Lookup)
    ensures Resolved(GetCountry(ip, reader)) <==> reader(ip).Found? && Resolved(reader(ip).name)
  {
    if reader(ip).LookupFailed? {
      assert ("Error: " + reader(ip).message)[..5] == "Error";
    }
  }

  /** `diccionario_paises` after folding the entries of `ips` in order. */
  function CountryTable(ips: seq<Entry<string>>, reader: string -> Lookup): seq<Entry<string>> {
    if |ips| == 0 then []
    else
      var t := CountryTable(ips[..|ips| - 1], reader);
      var e := ips[|ips| - 1];
      var country := GetCountry(e.key, reader);
      if Resolved(country) then Add(t, country, e.count) else t
  }

  /** `unknown_ips` after folding the entries of `ips` in order. */
  function Unresolved(ips: seq<Entry<string>>, reader: string -> Lookup): seq<string> {
    if |ips| == 0 then []
    else
      var u := Unresolved(ips[..|ips| - 1], reader);
      var e := ips[|ips| - 1];
      if Resolved(GetCountry(e.key, reader)) then u else u + [e.key]
  }

  /** The number of accesses, among the entries of `ips`, that resolve to `country`. */
  function ShareOf(ips: seq<Entry<string>>, reader: string -> Lookup, country: string): nat {
    if |ips| == 0 then 0
    else
      (if GetCountry(ips[0].key, reader) == country then ips[0].count else 0)
      + ShareOf(ips[1..], reader, country)
  }

  lemma {:induction false} ShareOfSnoc(ips: seq<Entry<string>>, e: Entry<string>, reader: string -> Lookup, country: string)
    ensures ShareOf(ips + [e], reader, country)
      == ShareOf(ips, reader, country) + (if GetCountry(e.key, reader) == country then e.count else 0)
  {
    if |ips| == 0 {
      assert ([] + [e])[1..] == [];
    } else {
      assert (ips + [e])[1..] == ips[1..] + [e];
      ShareOfSnoc(ips[1..], e, reader, country);
    }
  }

  /**
   * The country table has only resolved names as keys, and each country's
   * count is the sum of the counts of the addresses that resolve to it.
   */
  lemma {:induction false} CountryCounts(ips: seq<Entry<string>>, reader: string -> Lookup)
    ensures DistinctKeys(CountryTable(ips, reader))
    ensures forall c :: c in Keys(CountryTable(ips, reader)) ==> Resolved(c)
    ensures forall c :: Resolved(c) ==> Get(CountryTable(ips, reader), c) == ShareOf(ips, reader, c)
  {
    if |ips| > 0 {
      var p, e := ips[..|ips| - 1], ips[|ips| - 1];
      assert ips == p + [e];
      CountryCounts(p, reader);
      forall c | Resolved(c)
        ensures Get(CountryTable(ips, reader), c) == ShareOf(ips, reader, c)
      {
        ShareOfSnoc(p, e, reader, c);
      }
    }
  }

  /**
   * `unknown_ips` holds exactly the unresolved addresses of the table, each
   * once, in the order of the table.
   */
  lemma {:induction false} UnresolvedOf(ips: seq<Entry<string>>, reader: string -> Lookup)
    requires DistinctKeys(ips)
    ensures forall ip :: ip in Unresolved(ips, reader) <==> ip in Keys(ips) && !Resolved(GetCountry(ip, reader))
    ensures forall i, j :: 0 <= i < j < |Unresolved(ips, reader)| ==>
      FirstIndex(Keys(ips), Unresolved(ips, reader)[i]) < FirstIndex(Keys(ips), Unresolved(ips, reader)[j])
  {
    if |ips| > 0 {
      var p, e := ips[..|ips| - 1], ips[|ips| - 1];
      assert ips == p + [e];
      assert DistinctKeys(p);
      ListsSnoc(p, e);
      assert e.key !in Keys(p) by {
        forall j | 0 <= j < |p| ensures Keys(p)[j] != e.key {
          assert ips[j].key != ips[|p|].key;
        }
      }
      UnresolvedOf(p, reader);
      var u := Unresolved(ips, reader);
      var up := Unresolved(p, reader);
      forall i, j | 0 <= i < j < |u|
        ensures FirstIndex(Keys(ips), u[i]) < FirstIndex(Keys(ips), u[j])
      {
        assert up[..] <= u;
        assert u[i] in up && u[i] in Keys(p);
        FirstIndexSnoc(Keys(p), e.key, u[i]);
        FirstIndexSnoc(Keys(p), e.key, u[j]);
        if j >= |up| {
          assert u[j] == e.key;
        } else {
          assert u[j] in up && u[j] in Keys(p);
        }
      }
    }
  }

  /** Ordered by position in a list of distinct keys, the unresolved addresses have no repeats. */
  lemma UnresolvedDistinct(ips: seq<Entry<string>>, reader: string -> Lookup)
    requires DistinctKeys(ips)
    ensures forall i, j :: 0 <= i < j < |Unresolved(ips, reader)| ==>
      Unresolved(ips, reader)[i] != Unresolved(ips, reader)[j]
  {
    UnresolvedOf(ips, reader);
  }

  /**
   * No access is lost or counted twice: the countries' counts and the counts
   * of the unresolved addresses add up to the whole address table.
   */
  lemma {:induction false} FoldConserves(ips: seq<Entry<string>>, reader: string -> Lookup)
    requires DistinctKeys(ips)
    ensures Total(CountryTable(ips, reader)) + Sum(Lookups(ips, Unresolved(ips, reader))) == Total(ips)
  {
    if |ips| > 0 {
      var p, e := ips[..|ips| - 1], ips[|ips| - 1];
      assert ips == p + [e];
      assert DistinctKeys(p);
      FoldConserves(p, reader);
      UnresolvedOf(p, reader);
      ListsSnoc(p, e);
      assert e.key !in Keys(p) by {
        forall j | 0 <= j < |p| ensures Keys(p)[j] != e.key {
          assert ips[j].key != ips[|p|].key;
        }
      }
      var up := Unresolved(p, reader);
      forall k | k in up ensures Get(ips, k) == Get(p, k) {
        GetSnoc(p, e, k);
      }
      LookupsAgree(ips, p, up);
      TotalAppend(p, [e]);
      if !Resolved(GetCountry(e.key, reader)) {
        LookupsAppend(ips, up, [e.key]);
        GetEntry(ips, |p|);
        assert Lookups(ips, [e.key]) == [Get(ips, e.key)];
      }
    }
  }

  /** The loop over `diccionario_ips.items()` that fills `diccionario_paises` and `unknown_ips`. */
  method FoldCountries(ips: seq<Entry<string>>, reader: string -> Lookup)
    returns (countries: seq<Entry<string>>, unknown: seq<string>)
    ensures countries == CountryTable(ips, reader)
    ensures unknown == Unresolved(ips, reader)
  {
    countries, unknown := [], [];
    for i := 0 to |ips|
      invariant countries == CountryTable(ips[..i], reader)
      invariant unknown == Unresolved(ips[..i], reader)
    {
      assert ips[..i + 1][..i] == ips[..i];
      var ip, count := ips[i].key, ips[i].count;
      var country := GetCountry(ip, reader);
      if country != "Unknown" && country != "Invalid IP" && !("Error" <= country) {
        countries := Add(countries, country, count);
      } else {
        unknown := unknown + [ip];
      }
    }
    assert ips[..|ips|] == ips;
  }

  // ---- merging the small slices ----

  /** `zip(labels, sizes)`: the pairs up to the shorter of the two lists. */
  function Zip(labels: seq<string>, sizes: seq<nat>): (z: seq<Entry<string>>)
    ensures |z| == if |labels| <= |sizes| then |labels| else |sizes|
    ensures forall i :: 0 <= i < |z| ==> z[i] == Entry(labels[i], sizes[i])
  {
    var n := if |labels| <= |sizes| then |labels| else |sizes|;
    seq(n, i requires 0 <= i < n => Entry(labels[i], sizes[i]))
  }

  /** The lists of a table zip back to the table. */
  lemma ZipKeysCounts(t: seq<Entry<string>>)
    ensures Zip(Keys(t), Counts(t)) == t
  {
  }

  /** `size / total < 0.02`, in exact integer arithmetic. */
  predicate Small(size: nat, total: nat) {
    size * 50 < total
  }

  /** The slices kept as they are, in their order. */
  function Kept(s: seq<Entry<string>>, total: nat): seq<Entry<string>> {
    if |s| == 0 then []
    else Kept(s[..|s| - 1], total) + (if Small(s[|s| - 1].count, total) then [] else [s[|s| - 1]])
  }

  /** `other_size`: the sum of the small slices. */
  function SmallTotal(s: seq<Entry<string>>, total: nat): nat {
    if |s| == 0 then 0
    else SmallTotal(s[..|s| - 1], total) + (if Small(s[|s| - 1].count, total) then s[|s| - 1].count else 0)
  }

  /** The slices a chart of `s` shows once the small ones are merged into a trailing `Other`. */
  function Merged(s: seq<Entry<string>>, total: nat): seq<Entry<string>> {
    var other := SmallTotal(s, total);
    Kept(s, total) + (if other > 0 then [Entry("Other", other)] else [])
  }

  /** What `combine_small_slices(labels, sizes)` returns, as one list of pairs. */
  function Combine(labels: seq<string>, sizes: seq<nat>): seq<Entry<string>> {
    Merged(Zip(labels, sizes), Sum(sizes))
  }

  /** `combine_small_slices`; Python divides by `sum(sizes)`, so a zero total with any pair raises. */
  method CombineSmallSlices(labels: seq<string>, sizes: seq<nat>) returns (newLabels: seq<string>, newSizes: seq<nat>)
    requires |labels| == 0 || |sizes| == 0 || Sum(sizes) > 0
    ensures newLabels == Keys(Combine(labels, sizes))
    ensures newSizes == Counts(Combine(labels, sizes))
  {
    var total := Sum(sizes);
    var pairs := Zip(labels, sizes);
    newLabels, newSizes := [], [];
    var otherSize := 0;
    for i := 0 to |pairs|
      invariant newLabels == Keys(Kept(pairs[..i], total))
      invariant newSizes == Counts(Kept(pairs[..i], total))
      invariant otherSize == SmallTotal(pairs[..i], total)
    {
      KeptStep(pairs, i, total);
      ListsSnoc(Kept(pairs[..i], total), pairs[i]);
      var name, size := pairs[i].key, pairs[i].count;
      if size * 50 < total {
        otherSize := otherSize + size;
      } else {
        newLabels := newLabels + [name];
        newSizes := newSizes + [size];
      }
    }
    assert pairs[..|pairs|] == pairs;
    ListsSnoc(Kept(pairs, total), Entry("Other", otherSize));
    if otherSize > 0 {
      newLabels := newLabels + ["Other"];
      newSizes := newSizes + [otherSize];
    }
  }

  /** One more pair either joins the kept slices or adds its size to `Other`. */
  lemma KeptStep(s: seq<Entry<string>>, i: int, total: nat)
    requires 0 <= i < |s|
    ensures Small(s[i].count, total) ==>
      Kept(s[..i + 1], total) == Kept(s[..i], total) && SmallTotal(s[..i + 1], total) == SmallTotal(s[..i], total) + s[i].count
    ensures !Small(s[i].count, total) ==>
      Kept(s[..i + 1], total) == Kept(s[..i], total) + [s[i]] && SmallTotal(s[..i + 1], total) == SmallTotal(s[..i], total)
  {
    assert s[..i + 1][..i] == s[..i];
  }

  lemma {:induction false} KeptAppend(a: seq<Entry<string>>, b: seq<Entry<string>>, total: nat)
    ensures Kept(a + b, total) == Kept(a, total) + Kept(b, total)
    ensures SmallTotal(a + b, total) == SmallTotal(a, total) + SmallTotal(b, total)
    decreases |b|
  {
    if |b| == 0 {
      assert a + b == a;
    } else {
      var b' := b[..|b| - 1];
      assert (a + b)[..|a + b| - 1] == a + b';
      assert (a + b)[|a + b| - 1] == b[|b| - 1];
      KeptAppend(a, b', total);
    }
  }

  /** A slice is kept exactly when it is not small; the kept slices keep their order (`KeptAppend`). */
  lemma {:induction false} KeptMeaning(s: seq<Entry<string>>, total: nat)
    ensures |Kept(s, total)| <= |s|
    ensures forall e :: e in Kept(s, total) <==> e in s && !Small(e.count, total)
  {
    if |s| > 0 {
      var p := s[..|s| - 1];
      assert s == p + [s[|s| - 1]];
      KeptMeaning(p, total);
    }
  }

  /** `other_size` is positive exactly when some small slice has a positive size. */
  lemma {:induction false} SmallTotalPositive(s: seq<Entry<string>>, total: nat)
    ensures SmallTotal(s, total) > 0 <==> exists i :: 0 <= i < |s| && Small(s[i].count, total) && s[i].count > 0
  {
    if |s| > 0 {
      var p := s[..|s| - 1];
      SmallTotalPositive(p, total);
      assert forall i :: 0 <= i < |p| ==> p[i] == s[i];
    }
  }

  /** Merging moves sizes between slices but keeps their sum. */
  lemma {:induction false} MergedTotal(s: seq<Entry<string>>, total: nat)
    ensures Total(Merged(s, total)) == Total(s)
  {
    KeptSplitsTotal(s, total);
    var other := SmallTotal(s, total);
    TotalAppend(Kept(s, total), if other > 0 then [Entry("Other", other)] else []);
  }

  lemma {:induction false} KeptSplitsTotal(s: seq<Entry<string>>, total: nat)
    ensures Total(Kept(s, total)) + SmallTotal(s, total) == Total(s)
  {
    if |s| > 0 {
      var p, e := s[..|s| - 1], s[|s| - 1];
      assert s == p + [e];
      KeptSplitsTotal(p, total);
      TotalAppend(p, [e]);
      TotalAppend(Kept(p, total), if Small(e.count, total) then [] else [e]);
    }
  }

  lemma {:induction false} ZipTotal(labels: seq<string>, sizes: seq<nat>)
    requires |labels| == |sizes|
    ensures Total(Zip(labels, sizes)) == Sum(sizes)
  {
    if |sizes| > 0 {
      ZipTotal(labels[1..], sizes[1..]);
      assert Zip(labels, sizes)[1..] == Zip(labels[1..], sizes[1..]);
    }
  }

  /**
   * The properties of `combine_small_slices` for aligned lists: the sizes keep
   * their sum, each kept slice is one of the input slices that is not small,
   * every slice that is not small is kept, and a trailing `Other` slice is
   * added exactly when the small slices have a positive sum.
   */
  lemma CombineFacts(labels: seq<string>, sizes: seq<nat>)
    requires |labels| == |sizes|
    ensures Sum(Counts(Combine(labels, sizes))) == Sum(sizes)
    ensures forall i :: 0 <= i < |Kept(Zip(labels, sizes), Sum(sizes))| ==>
      Combine(labels, sizes)[i] in Zip(labels, sizes) && !Small(Combine(labels, sizes)[i].count, Sum(sizes))
    ensures forall e :: e in Zip(labels, sizes) && !Small(e.count, Sum(sizes)) ==> e in Combine(labels, sizes)
    ensures |Combine(labels, sizes)| == |Kept(Zip(labels, sizes), Sum(sizes))| + 1 <==>
      exists i :: 0 <= i < |sizes| && Small(sizes[i], Sum(sizes)) && sizes[i] > 0
    ensures |Combine(labels, sizes)| == |Kept(Zip(labels, sizes), Sum(sizes))| + 1 ==>
      Combine(labels, sizes)[|Combine(labels, sizes)| - 1].key == "Other"
    ensures |Kept(Zip(labels, sizes), Sum(sizes))| <= |Combine(labels, sizes)| <= |Kept(Zip(labels, sizes), Sum(sizes))| + 1
    ensures Combine(labels, sizes)[..|Kept(Zip(labels, sizes), Sum(sizes))|] == Kept(Zip(labels, sizes), Sum(sizes))
  {
    var z, total := Zip(labels, sizes), Sum(sizes);
    var c := Combine(labels, sizes);
    ZipTotal(labels, sizes);
    MergedTotal(z, total);
    SumCounts(c);
    KeptMeaning(z, total);
    SmallTotalPositive(z, total);
    var k := Kept(z, total);
    assert c[..|k|] == k;
    forall i | 0 <= i < |k| ensures c[i] in z && !Small(c[i].count, total) {
      assert c[i] == k[i] && k[i] in k;
    }
    if exists i :: 0 <= i < |sizes| && Small(sizes[i], total) && sizes[i] > 0 {
      var i :| 0 <= i < |sizes| && Small(sizes[i], total) && sizes[i] > 0;
      assert z[i].count == sizes[i];
    }
  }

  lemma KeptOne(e: Entry<string>, total: nat)
    ensures Kept([e], total) == if Small(e.count, total) then [] else [e]
    ensures SmallTotal([e], total) == if Small(e.count, total) then e.count else 0
  {
    assert [e][..0] == [];
  }

  /** The kept slices are all large, so merging them again changes nothing. */
  lemma {:induction false} KeptStable(s: seq<Entry<string>>, total: nat)
    ensures Kept(Kept(s, total), total) == Kept(s, total)
    ensures SmallTotal(Kept(s, total), total) == 0
  {
    if |s| > 0 {
      var p, e := s[..|s| - 1], s[|s| - 1];
      KeptStable(p, total);
      if !Small(e.count, total) {
        assert Kept(s, total) == Kept(p, total) + [e];
        KeptAppend(Kept(p, total), [e], total);
        KeptOne(e, total);
      } else {
        assert Kept(s, total) == Kept(p, total) + [];
        assert Kept(p, total) + [] == Kept(p, total);
      }
    }
  }

  /** Merging a second time with the same total gives the same slices. */
  lemma MergedIdempotent(s: seq<Entry<string>>, total: nat)
    ensures Merged(Merged(s, total), total) == Merged(s, total)
  {
    var k, other := Kept(s, total), SmallTotal(s, total);
    KeptStable(s, total);
    if other > 0 {
      var e := Entry("Other", other);
      KeptAppend(k, [e], total);
      KeptOne(e, total);
      if Small(other, total) {
        assert Kept(k + [e], total) == k + [] == k;
        assert SmallTotal(k + [e], total) == other;
      } else {
        assert Kept(k + [e], total) == k + [e];
        assert SmallTotal(k + [e], total) == 0;
      }
    } else {
      assert k + [] == k;
    }
  }

  /**
   * Merging is idempotent: a second `combine_small_slices` with the same
   * threshold returns what the first one did, whatever the labels are.
   */
  lemma CombineIdempotent(labels: seq<string>, sizes: seq<nat>)
    requires |labels| == |sizes|
    ensures Combine(Keys(Combine(labels, sizes)), Counts(Combine(labels, sizes))) == Combine(labels, sizes)
  {
    var z, total := Zip(labels, sizes), Sum(sizes);
    var c := Combine(labels, sizes);
    ZipKeysCounts(c);
    ZipTotal(labels, sizes);
    MergedTotal(z, total);
    SumCounts(c);
    MergedIdempotent(z, total);
  }

  // ---- the report ----

  /**
   * What `countries_pie_chart` ends with: no valid address in the log, no
   * address resolved to a country, or the slices of the chart together with
   * the addresses written to `unknown_ips.log`.
   */
  datatype CountryReport =
    | NoValidAddresses
    | NoCountries
    | CountryChart(labels: seq<string>, sizes: seq<nat>, unknownIps: seq<string>)

  function CountryReportOf(lines: seq<string>, reader: string -> Lookup): CountryReport {
    var ips := Tally(ValidIps(lines));
    if |ips| == 0 then NoValidAddresses
    else
      var countries := CountryTable(ips, reader);
      if |countries| == 0 then NoCountries
      else
        var ranked := SortDesc(countries);
        var merged := Combine(Keys(ranked), Counts(ranked));
        CountryChart(Keys(merged), Counts(merged), Unresolved(ips, reader))
  }

  /** Folding a table of positive counts gives positive country counts. */
  lemma {:induction false} CountryTablePositive(ips: seq<Entry<string>>, reader: string -> Lookup)
    requires forall i :: 0 <= i < |ips| ==> ips[i].count > 0
    ensures forall i :: 0 <= i < |CountryTable(ips, reader)| ==> CountryTable(ips, reader)[i].count > 0
  {
    if |ips| > 0 {
      var p, e := ips[..|ips| - 1], ips[|ips| - 1];
      CountryTablePositive(p, reader);
      if Resolved(GetCountry(e.key, reader)) {
        AddPositive(CountryTable(p, reader), GetCountry(e.key, reader), e.count);
      }
    }
  }

  /** The ranked country table is not empty, so its sizes have a positive sum. */
  lemma RankedTotalPositive(ips: seq<string>, reader: string -> Lookup)
    requires |CountryTable(Tally(ips), reader)| > 0
    ensures Sum(Counts(SortDesc(CountryTable(Tally(ips), reader)))) > 0
  {
    var countries := CountryTable(Tally(ips), reader);
    var ranked := SortDesc(countries);
    TallyPositive(ips);
    CountryTablePositive(Tally(ips), reader);
    assert ranked[0] in multiset(countries);
    SumCounts(ranked);
  }

  /** `countries_pie_chart` on the lines of the log, with the database as `reader`. */
  method CountriesPieChart(lines: seq<string>, reader: string -> Lookup) returns (r: CountryReport)
    ensures r == CountryReportOf(lines, reader)
  {
    var ips := CountValidIps(lines);
    if |ips| == 0 {
      return NoValidAddresses;
    }
    var countries, unknown := FoldCountries(ips, reader);
    if |countries| == 0 {
      return NoCountries;
    }
    var ranked := SortDesc(countries);
    RankedTotalPositive(ValidIps(lines), reader);
    var labels, sizes := CombineSmallSlices(Keys(ranked), Counts(ranked));
    r := CountryChart(labels, sizes, unknown);
  }

  /** No address of the table resolves to a country. */
  predicate NoneResolved(ips: seq<Entry<string>>, reader: string -> Lookup) {
    forall i :: 0 <= i < |ips| ==> !Resolved(GetCountry(ips[i].key, reader))
  }

  lemma NoneResolvedSnoc(ips: seq<Entry<string>>, reader: string -> Lookup)
    requires |ips| > 0
    ensures NoneResolved(ips, reader) <==>
      NoneResolved(ips[..|ips| - 1], reader) && !Resolved(GetCountry(ips[|ips| - 1].key, reader))
  {
    var p := ips[..|ips| - 1];
    assert forall i :: 0 <= i < |p| ==> p[i] == ips[i];
  }

  /** The country table stays empty exactly when no address resolves. */
  lemma {:induction false} CountryTableEmpty(ips: seq<Entry<string>>, reader: string -> Lookup)
    ensures |CountryTable(ips, reader)| == 0 <==> NoneResolved(ips, reader)
  {
    if |ips| > 0 {
      var p, e := ips[..|ips| - 1], ips[|ips| - 1];
      CountryTableEmpty(p, reader);
      NoneResolvedSnoc(ips, reader);
      var country := GetCountry(e.key, reader);
      if Resolved(country) {
        AddNonEmpty(CountryTable(p, reader), country, e.count);
      }
    }
  }

  lemma AddNonEmpty(t: seq<Entry<string>>, k: string, n: nat)
    ensures |Add(t, k, n)| > 0
  {
    assert k in Keys(Add(t, k, n));
  }

  /** Over a table whose keys are the addresses of `ks`, resolving none of its keys is resolving none of `ks`. */
  lemma NoneResolvedKeys(ips: seq<Entry<string>>, ks: seq<string>, reader: string -> Lookup)
    requires forall k :: k in Keys(ips) <==> k in ks
    ensures NoneResolved(ips, reader) <==> forall ip :: ip in ks ==> !Resolved(GetCountry(ip, reader))
  {
    forall ip | ip in ks
      ensures exists i :: 0 <= i < |ips| && ips[i].key == ip
    {
      assert ip in Keys(ips);
    }
    forall i | 0 <= i < |ips|
      ensures ips[i].key in ks
    {
      assert Keys(ips)[i] == ips[i].key;
    }
  }

  /** When the address table and the country table are empty. */
  lemma TablesEmpty(ks: seq<string>, reader: string -> Lookup)
    ensures |Tally(ks)| == 0 <==> ks == []
    ensures |CountryTable(Tally(ks), reader)| == 0 <==> forall ip :: ip in ks ==> !Resolved(GetCountry(ip, reader))
  {
    var ips := Tally(ks);
    if ks != [] {
      assert ks[0] in Keys(ips);
    }
    CountryTableEmpty(ips, reader);
    NoneResolvedKeys(ips, ks, reader);
  }

  /** The chart's sizes and the unresolved addresses' accesses together count every address seen. */
  lemma ChartSums(ks: seq<string>, reader: string -> Lookup)
    ensures Sum(Counts(Combine(Keys(SortDesc(CountryTable(Tally(ks), reader))), Counts(SortDesc(CountryTable(Tally(ks), reader))))))
      + Sum(Lookups(Tally(ks), Unresolved(Tally(ks), reader))) == |ks|
  {
    var ips := Tally(ks);
    var countries := CountryTable(ips, reader);
    var ranked := SortDesc(countries);
    CombineFacts(Keys(ranked), Counts(ranked));
    SumCounts(ranked);
    TotalPermutation(ranked, countries);
    FoldConserves(ips, reader);
  }

  /**
   * The outcome of the report: nothing when no line has a valid address
   * (`ValidIpsOf` says which lines those are) or no
   * address resolves; otherwise aligned labels and sizes whose sum, together
   * with the accesses of the unresolved addresses, is the number of lines
   * counted, and the unresolved addresses are exactly those written out.
   */
  lemma CountryReportFacts(lines: seq<string>, reader: string -> Lookup)
    ensures CountryReportOf(lines, reader).NoValidAddresses? <==> ValidIps(lines) == []
    ensures CountryReportOf(lines, reader).NoCountries? <==>
      ValidIps(lines) != [] && forall ip :: ip in ValidIps(lines) ==> !Resolved(GetCountry(ip, reader))
    ensures CountryReportOf(lines, reader).CountryChart? ==>
      var r := CountryReportOf(lines, reader);
      && |r.labels| == |r.sizes|
      && Sum(r.sizes) + Sum(Lookups(Tally(ValidIps(lines)), r.unknownIps)) == |ValidIps(lines)|
      && forall ip :: ip in r.unknownIps <==> ip in ValidIps(lines) && !Resolved(GetCountry(ip, reader))
  {
    var ks := ValidIps(lines);
    TablesEmpty(ks, reader);
    UnresolvedOf(Tally(ks), reader);
    ChartSums(ks, reader);
  }
}
