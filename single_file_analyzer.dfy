/**
 * The stand-alone analyzer's own line handling: `validate_ip` and
 * `parse_log_line`. It shares the line format of `LogFormat` (its
 * `LOG_PATTERN` is the same anchored pattern) but, unlike `LogParser`,
 * strips the line before matching it, keeps the timestamp as text and
 * keeps no counters.
 */
module SingleFileAnalyzer {
  import opened Wrappers
  import opened PyText
  import opened LogFormat
  import opened LogParsing

  /** The dictionary `parse_log_line` returns. */
  datatype LogEntry = LogEntry(timestamp: string, ipAddress: string, requestType: string, errorCode: int, isError: bool)

  /**
   * `validate_ip`: split on `.`, demand four parts, then walk the parts in
   * order and give up at the first one `int()` cannot read or that falls
   * outside 0..255.
   */
  method ValidateIp(ip: string) returns (ok: bool)
    ensures ok <==> |Split(ip, '.')| == 4 && forall i :: 0 <= i < 4 ==> OctetOk(Split(ip, '.')[i])
  {
    var parts := Split(ip, '.');
    if |parts| != 4 {
      return false;
    }
    var k := 0;
    while k < |parts|
      invariant 0 <= k <= |parts|
      invariant forall j :: 0 <= j < k ==> OctetOk(parts[j])
    {
      match PyInt(parts[k]) {
        case None =>
          return false;
        case Some(num) =>
          if !(0 <= num <= 255) {
            return false;
          }
      }
      k := k + 1;
    }
    return true;
  }

  /**
   * `parse_log_line`: strip the line, match the pattern, apply the octet rule
   * and read the status digits. The `ValueError` branch of the status
   * conversion is kept; `StatusAlwaysReads` shows no line reaches it.
   */
  function ParseLogLine(line: string): (r: Option<LogEntry>)
    ensures r.Some? ==> TimestampShape(r.value.timestamp) && ValidIp(r.value.ipAddress) && r.value.requestType in RequestTypes
  {
    match MatchLine(Strip(line))
    case None => None
    case Some(g) =>
      if !ValidIp(g.ip) then None
      else
        match PyInt(g.code)
        case None => None
        case Some(code) => Some(LogEntry(g.timestamp, g.ip, g.requestType, code, 400 <= code < 600))
  }

  /** The status group always reads as a number, so the `ValueError` branch is dead. */
  lemma StatusAlwaysReads(line: string)
    requires MatchLine(Strip(line)).Some?
    ensures PyInt(MatchLine(Strip(line)).value.code) == Some(DigitsValue(MatchLine(Strip(line)).value.code))
  {
    PyIntDecimal(MatchLine(Strip(line)).value.code);
  }

  /**
   * The entry of a line whose stripped text has the anchored shape with a
   * valid address: the groups as text, the status value, and `is_error`
   * exactly for 400..599; every other line yields nothing.
   */
  lemma {:induction false} ParseLogLineSpec(line: string)
    ensures ParseLogLine(line).Some? <==> Accepts(Strip(line))
    ensures forall g :: Matches(Strip(line), g) && ValidIp(g.ip) ==>
      ParseLogLine(line) == Some(LogEntry(g.timestamp, g.ip, g.requestType, DigitsValue(g.code), IsErrorCode(DigitsValue(g.code))))
  {
    var s := Strip(line);
    forall g | Matches(s, g) && ValidIp(g.ip)
      ensures ParseLogLine(line) == Some(LogEntry(g.timestamp, g.ip, g.requestType, DigitsValue(g.code), IsErrorCode(DigitsValue(g.code))))
    {
      MatchLineComplete(s, g);
      PyIntDecimal(g.code);
    }
    if MatchLine(s).Some? {
      StatusAlwaysReads(line);
    }
  }

  /**
   * Every entry has a timestamp of the pattern's shape, a valid address, a
   * listed method and a non-negative status, flagged as an error exactly for
   * 400..599.
   */
  lemma EntryFacts(line: string)
    requires ParseLogLine(line).Some?
    ensures var e := ParseLogLine(line).value;
      && TimestampShape(e.timestamp)
      && ValidIp(e.ipAddress)
      && e.requestType in RequestTypes
      && e.errorCode >= 0
      && (e.isError <==> IsErrorCode(e.errorCode))
  {
    StatusAlwaysReads(line);
  }

  /** Whitespace around a line changes nothing: `parse_log_line` strips it first. */
  lemma PaddingIgnored(p: string, line: string, q: string)
    requires AllSpace(p) && AllSpace(q)
    ensures ParseLogLine(p + line + q) == ParseLogLine(line)
  {
    StripPadding(p, line, q);
  }

  /**
   * On the stripped line the stand-alone parser agrees with `LogParser`:
   * both accept or both reject, with the same address, method and status,
   * and the timestamp text parses to the record's timestamp.
   */
  lemma {:induction false} AgreesWithLogParser(line: string)
    ensures var s := Strip(line);
      ParseLogLine(line).Some? <==> ParseSpec(s).Some?
    ensures var s := Strip(line);
      ParseLogLine(line).Some? ==>
        var e, r := ParseLogLine(line).value, ParseSpec(s).value;
        && e.ipAddress == r.ipAddress && e.requestType == r.requestType
        && e.errorCode == r.errorCode && e.isError == r.isError
        && ParseTimestamp(e.timestamp) == r.timestamp && r.rawLine == s
  {
    if MatchLine(Strip(line)).Some? {
      StatusAlwaysReads(line);
    }
  }

  /** A line of the anchored shape starts and ends with a digit, so `strip()` leaves it alone. */
  lemma MatchedLineTrimmed(line: string, g: Groups)
    requires Matches(line, g)
    ensures Strip(line) == line
  {
    var rest := [','] + g.ip + [','] + g.requestType + [','] + g.code;
    assert line == g.timestamp + rest;
    assert line[0] == g.timestamp[0];
    assert IsDigit(g.timestamp[0]);
    EndsInDigit(line, g);
    StripTrimmed(line);
  }

  /** A line of the anchored shape ends in a status digit. */
  lemma EndsInDigit(line: string, g: Groups)
    requires Matches(line, g)
    ensures IsDigit(line[|line| - 1])
  {
    assert line[|line| - 1] == g.code[|g.code| - 1];
  }

  /** A line ending in a blank never matches the anchored pattern. */
  lemma BlankEndNoMatch(line: string)
    requires |line| > 0 && line[|line| - 1] == ' '
    ensures MatchLine(line).None?
  {
    if MatchLine(line).Some? {
      EndsInDigit(line, MatchLine(line).value);
    }
  }

  /** Every line `LogParser` accepts, the stand-alone parser accepts too. */
  lemma LogParserLinesAccepted(line: string)
    requires ParseSpec(line).Some?
    ensures ParseLogLine(line).Some?
  {
    MatchedLineTrimmed(line, MatchLine(line).value);
    AgreesWithLogParser(line);
  }

  /**
   * The converse fails: a trailing blank is stripped away here but makes
   * `LogParser`'s anchored match fail, so the same line is accepted by one
   * parser and rejected by the other.
   */
  lemma TrailingBlankOnlyHere(line: string)
    requires ParseSpec(line).Some?
    ensures ParseLogLine(line + " ").Some?
    ensures ParseSpec(line + " ").None?
  {
    LogParserLinesAccepted(line);
    assert line + " " == [] + line + " ";
    PaddingIgnored([], line, " ");
    BlankEndNoMatch(line + " ");
  }
}
