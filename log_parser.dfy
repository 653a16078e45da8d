/**
 * `LogParser`: validates one log line at a time through the structural gate
 * (the anchored pattern) and the semantic gate (octet range), builds the
 * record of an accepted line and keeps running accepted/rejected counters.
 */
module LogParsing {
  import opened Wrappers
  import opened PyText
  import opened LogFormat

  /** The dictionary `parse_line` returns for an accepted line. */
  datatype ParsedRecord = ParsedRecord(
    timestamp: Option<DateTime>,
    ipAddress: string,
    requestType: string,
    errorCode: int,
    isError: bool,
    rawLine: string)

  /** The dictionary `get_stats` returns. */
  datatype ParsingStats = ParsingStats(parsedCount: nat, failedCount: nat, successRate: real)

  /** HTTP 4xx and 5xx status codes. */
  predicate IsErrorCode(code: int) {
    400 <= code < 600
  }

  /**
   * The record a line yields under the two gates: the groups of the anchored
   * pattern, provided the address passes the octet rule. A timestamp that is
   * not a real date does not reject the line; it is only left absent.
   */
  function ParseSpec(line: string): (r: Option<ParsedRecord>)
    ensures r.Some? ==> r.value.rawLine == line && ValidIp(r.value.ipAddress) && r.value.requestType in RequestTypes
    ensures r.Some? ==> (r.value.isError <==> 400 <= r.value.errorCode < 600)
  {
    match MatchLine(line)
    case None => None
    case Some(g) =>
      if !ValidIp(g.ip) then None
      else
        var code := DigitsValue(g.code);
        Some(ParsedRecord(ParseTimestamp(g.timestamp), g.ip, g.requestType, code, IsErrorCode(code), line))
  }

  /**
   * A line is accepted exactly when it has the anchored shape and its address
   * passes the octet rule.
   */
  lemma {:induction false} ParseSpecAccepts(line: string)
    ensures ParseSpec(line).Some? <==> exists g :: Matches(line, g) && ValidIp(g.ip)
  {
    match MatchLine(line)
    case None =>
      forall g | Matches(line, g) ensures false {
        MatchLineCorrect(line, g);
      }
    case Some(g) =>
      forall g' | Matches(line, g') ensures g' == g {
        MatchLineCorrect(line, g');
      }
  }

  /**
   * The record of an accepted line: the matched address, the method token, the
   * decimal value of the status digits with `is_error` exactly for 400..599,
   * the parsed timestamp or none, and the input line unchanged.
   */
  lemma {:induction false} ParsedFields(line: string, g: Groups)
    requires Matches(line, g) && ValidIp(g.ip)
    ensures ParseSpec(line).Some?
    ensures var r := ParseSpec(line).value;
      && r.ipAddress == g.ip
      && r.requestType == g.requestType && r.requestType in RequestTypes
      && r.errorCode == DigitsValue(g.code) && r.errorCode >= 0
      && (r.isError <==> 400 <= r.errorCode < 600)
      && r.timestamp == ParseTimestamp(g.timestamp)
      && r.rawLine == line
  {
    MatchLineCorrect(line, g);
  }

  /** A timestamp that is no real date leaves the record without one, and nothing else changes. */
  lemma {:induction false} BadTimestampStillAccepted(line: string, g: Groups)
    requires Matches(line, g) && ValidIp(g.ip)
    requires ParseTimestamp(g.timestamp).None?
    ensures ParseSpec(line).Some? && ParseSpec(line).value.timestamp.None?
  {
    MatchLineCorrect(line, g);
  }

  /** A line whose groups fit the pattern but whose address has an octet above 255 is rejected. */
  lemma {:induction false} OctetOutOfRangeRejected(line: string, g: Groups, i: nat)
    requires Matches(line, g)
    requires i < 4 && DigitsValue(Split(g.ip, '.')[i]) > 255
    ensures ParseSpec(line).None?
  {
    MatchLineCorrect(line, g);
    ValidShapedIp(g.ip);
  }

  /**
   * A line built from a well-formed timestamp, a dotted quad of 1-3 digit
   * groups, a method and a status is accepted exactly when every group is at
   * most 255, and its record carries the status value.
   */
  lemma {:induction false} QuadLine(line: string, ts: string, a: string, b: string, c: string, d: string, m: string, code: string)
    requires TimestampShape(ts) && m in RequestTypes && IsDecimal(code)
    requires IsDecimal(a) && IsDecimal(b) && IsDecimal(c) && IsDecimal(d)
    requires |a| <= 3 && |b| <= 3 && |c| <= 3 && |d| <= 3
    requires line == ts + "," + (a + "." + b + "." + c + "." + d) + "," + m + "," + code
    ensures MatchLine(line).Some?
    ensures ParseSpec(line) ==
      if DigitsValue(a) <= 255 && DigitsValue(b) <= 255 && DigitsValue(c) <= 255 && DigitsValue(d) <= 255
      then Some(ParsedRecord(ParseTimestamp(ts), a + "." + b + "." + c + "." + d, m,
                             DigitsValue(code), IsErrorCode(DigitsValue(code)), line))
      else None
  {
    var ip := a + "." + b + "." + c + "." + d;
    QuadIp(a, b, c, d);
    var g := Groups(ts, ip, m, code);
    assert Matches(line, g);
    MatchLineCorrect(line, g);
  }

  // Worked examples of the format.

  /** The address of the examples, as the four groups the pattern sees. */
  lemma SampleAddress()
    ensures "192.168.1.1" == "192" + "." + "168" + "." + "1" + "." + "1"
    ensures IsDecimal("192") && IsDecimal("168") && IsDecimal("1")
    ensures DigitsValue("192") == 192 && DigitsValue("168") == 168 && DigitsValue("1") == 1
  {
  }

  /** A well-formed line with status 200 is accepted and is not an error. */
  lemma ScenarioAccepted(ts: string, line: string)
    requires TimestampShape(ts)
    requires line == ts + ",192.168.1.1,GET,200"
    ensures var r := ParseSpec(line);
      r.Some? && r.value.ipAddress == "192.168.1.1" && r.value.errorCode == 200 && !r.value.isError
  {
    SampleAddress();
    assert line == ts + "," + "192.168.1.1" + "," + "GET" + "," + "200";
    assert DigitsValue("200") == 200;
    QuadLine(line, ts, "192", "168", "1", "1", "GET", "200");
    assert ParseSpec(line) == Some(ParsedRecord(ParseTimestamp(ts), "192.168.1.1", "GET", 200, false, line));
  }

  /** The same line with status 404 is accepted and is an error. */
  lemma ScenarioError(ts: string, line: string)
    requires TimestampShape(ts)
    requires line == ts + ",192.168.1.1,GET,404"
    ensures var r := ParseSpec(line);
      r.Some? && r.value.errorCode == 404 && r.value.isError
  {
    SampleAddress();
    assert line == ts + "," + "192.168.1.1" + "," + "GET" + "," + "404";
    assert DigitsValue("404") == 404;
    QuadLine(line, ts, "192", "168", "1", "1", "GET", "404");
    assert ParseSpec(line) == Some(ParsedRecord(ParseTimestamp(ts), "192.168.1.1", "GET", 404, true, line));
  }

  /** A line of another shape is rejected. */
  lemma ScenarioMalformed(line: string)
    requires line == "MALFORMED_LINE_7"
    ensures ParseSpec(line).None?
  {
  }

  /**
   * `999` fits the pattern's three-digit group but not the octet range, so a
   * line with address `999.1.1.1` passes the structural gate and is rejected.
   */
  lemma ScenarioOctetOutOfRange(ts: string, line: string)
    requires TimestampShape(ts)
    requires line == ts + ",999.1.1.1,GET,200"
    ensures MatchLine(line).Some?
    ensures ParseSpec(line).None?
  {
    assert line == ts + "," + ("999" + "." + "1" + "." + "1" + "." + "1") + "," + "GET" + "," + "200";
    assert DigitsValue("999") > 255;
    QuadLine(line, ts, "999", "1", "1", "1", "GET", "200");
  }

  class LogParser {
    var parsedCount: nat
    var failedCount: nat

    constructor()
      ensures parsedCount == 0 && failedCount == 0
    {
      parsedCount := 0;
      failedCount := 0;
    }

    /**
     * `parse_line`: returns the record of an accepted line, or `None`; every
     * call counts the line as accepted or as rejected, never both. The `UNKNOWN`
     * method substitution and the status-code fallback of `parse_line` are
     * kept and proved unreachable.
     */
    method ParseLine(logLine: string) returns (r: Option<ParsedRecord>)
      modifies this
      ensures r == ParseSpec(logLine)
      ensures r.Some? ==> parsedCount == old(parsedCount) + 1 && failedCount == old(failedCount)
      ensures r.None? ==> failedCount == old(failedCount) + 1 && parsedCount == old(parsedCount)
    {
      var m := MatchLine(logLine);
      if m.None? {
        failedCount := failedCount + 1;
        return None;
      }
      var g := m.value;
      var ipOk := IsValidIp(g.ip);
      if !ipOk {
        failedCount := failedCount + 1;
        return None;
      }
      var requestType := g.requestType;
      if requestType !in RequestTypes {
        assert false;
        requestType := "UNKNOWN";
      }
      var errorCode: int;
      var isError: bool;
      PyIntDecimal(g.code);
      match PyInt(g.code) {
        case Some(n) =>
          errorCode := n;
          isError := 400 <= errorCode < 600;
        case None =>
          assert false;
          errorCode := 0;
          isError := false;
      }
      var timestamp := ParseTimestamp(g.timestamp);
      parsedCount := parsedCount + 1;
      r := Some(ParsedRecord(timestamp, g.ip, requestType, errorCode, isError, logLine));
    }

    /**
     * `_is_valid_ip`: exactly four `.`-separated parts, each of which `int()`
     * reads as a number in 0..255; the first failing part ends the check.
     */
    method IsValidIp(ip: string) returns (ok: bool)
      ensures ok == ValidIp(ip)
    {
      var parts := Split(ip, '.');
      if |parts| != 4 {
        return false;
      }
      for i := 0 to |parts|
        invariant forall j :: 0 <= j < i ==> OctetOk(parts[j])
      {
        var num := PyInt(parts[i]);
        if num.None? {
          return false;
        }
        if !(0 <= num.value <= 255) {
          return false;
        }
      }
      return true;
    }

    /**
     * `get_stats`: the two counters and the share of accepted lines in
     * percent, which is 0 before any line was seen.
     */
    function GetStats(): (s: ParsingStats)
      reads this
      ensures s.parsedCount == parsedCount && s.failedCount == failedCount
      ensures 0.0 <= s.successRate <= 100.0
      ensures parsedCount + failedCount == 0 ==> s.successRate == 0.0
      ensures parsedCount + failedCount > 0 ==>
        s.successRate * (parsedCount + failedCount) as real == parsedCount as real * 100.0
      ensures s.successRate == 100.0 <==> parsedCount > 0 && failedCount == 0
    {
      var total := parsedCount + failedCount;
      var rate := if total > 0 then parsedCount as real / total as real * 100.0 else 0.0;
      ParsingStats(parsedCount, failedCount, rate)
    }
  }
}
