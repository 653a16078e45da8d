/**
 * The line format both parsers share: the anchored four-group pattern
 * `TIMESTAMP,IP,METHOD,CODE`, the dotted-quad rule every octet must pass,
 * and the `%Y-%m-%d %H:%M:%S` timestamp.
 */
module LogFormat {
  import opened Wrappers
  import opened PyText

  /** The request methods the pattern's third group admits. */
  const RequestTypes: set<string> := {"GET", "POST", "PUT", "DELETE", "HEAD", "OPTIONS", "PATCH"}

  /** The four groups a matching line captures, in order. */
  datatype Groups = Groups(timestamp: string, ip: string, requestType: string, code: string)

  // ---------------------------------------------------------------------------
  // The structural gate
  // ---------------------------------------------------------------------------

  /** `\d{4}-\d{2}-\d{2} \d{2}:\d{2}:\d{2}` */
  predicate TimestampShape(ts: string) {
    && |ts| == 19
    && AllDigits(ts[0..4]) && ts[4] == '-'
    && AllDigits(ts[5..7]) && ts[7] == '-'
    && AllDigits(ts[8..10]) && ts[10] == ' '
    && AllDigits(ts[11..13]) && ts[13] == ':'
    && AllDigits(ts[14..16]) && ts[16] == ':'
    && AllDigits(ts[17..19])
  }

  /** `\d{1,3}\.\d{1,3}\.\d{1,3}\.\d{1,3}` */
  predicate IpShape(ip: string) {
    var parts := Split(ip, '.');
    |parts| == 4 && forall i :: 0 <= i < 4 ==> |parts[i]| <= 3 && IsDecimal(parts[i])
  }

  /**
   * The anchored pattern, stated as the line being exactly the four groups
   * joined by commas, each group of its own shape.
   */
  predicate Matches(line: string, g: Groups) {
    && line == g.timestamp + [','] + g.ip + [','] + g.requestType + [','] + g.code
    && TimestampShape(g.timestamp)
    && IpShape(g.ip)
    && g.requestType in RequestTypes
    && IsDecimal(g.code)
  }

  /**
   * `pattern.match(line)` with its four groups. The timestamp has a fixed
   * width and no group can hold a comma, so the groups are the comma-separated
   * fields after the timestamp.
   */
  function MatchLine(line: string): (m: Option<Groups>)
    ensures m.Some? ==> Matches(line, m.value)
  {
    if |line| < 20 || line[19] != ',' then None
    else
      var fields := Split(line[20..], ',');
      if |fields| == 3 && TimestampShape(line[..19]) && IpShape(fields[0])
         && fields[1] in RequestTypes && IsDecimal(fields[2])
      then
        Rejoin(line);
        Some(Groups(line[..19], fields[0], fields[1], fields[2]))
      else None
  }

  /** A line cut at its 20th character and at the commas after it is those pieces joined again. */
  lemma Rejoin(line: string)
    requires |line| >= 20 && line[19] == ',' && |Split(line[20..], ',')| == 3
    ensures var f := Split(line[20..], ',');
      line == line[..19] + [','] + f[0] + [','] + f[1] + [','] + f[2]
  {
    var f := Split(line[20..], ',');
    JoinSplit(line[20..], ',');
    JoinThree(f, ',');
    assert line == line[..19] + [','] + line[20..];
  }

  lemma JoinThree(fields: seq<string>, sep: char)
    requires |fields| == 3
    ensures Join(fields, sep) == fields[0] + [sep] + fields[1] + [sep] + fields[2]
  {
    assert fields[1..][1..] == fields[2..];
    assert Join(fields[2..], sep) == fields[2];
    assert Join(fields[1..], sep) == fields[1] + [sep] + fields[2];
  }

  /** Joining digit strings with a separator leaves only digits and separators. */
  lemma {:induction false} JoinOfDigits(parts: seq<string>, sep: char)
    requires |parts| >= 1
    requires forall i :: 0 <= i < |parts| ==> AllDigits(parts[i])
    ensures forall k :: 0 <= k < |Join(parts, sep)| ==> IsDigit(Join(parts, sep)[k]) || Join(parts, sep)[k] == sep
    decreases |parts|
  {
    if |parts| > 1 {
      JoinOfDigits(parts[1..], sep);
      var tail := Join(parts[1..], sep);
      var j := Join(parts, sep);
      assert j == parts[0] + [sep] + tail;
      forall k | 0 <= k < |j| ensures IsDigit(j[k]) || j[k] == sep {
        if k > |parts[0]| { assert j[k] == tail[k - |parts[0]| - 1]; }
      }
    }
  }

  lemma NoCommaInIp(ip: string)
    requires IpShape(ip)
    ensures ',' !in ip
  {
    var parts := Split(ip, '.');
    JoinSplit(ip, '.');
    JoinOfDigits(parts, '.');
    forall k | 0 <= k < |ip| ensures ip[k] != ',' {
    }
  }

  lemma NoCommaInDecimal(s: string)
    requires IsDecimal(s)
    ensures ',' !in s
  {
    forall k | 0 <= k < |s| ensures s[k] != ',' {
      assert IsDigit(s[k]);
    }
  }

  /** Three comma-free fields joined by commas split back into those fields. */
  lemma {:induction false} SplitThree(x: string, y: string, z: string)
    requires ',' !in x && ',' !in y && ',' !in z
    ensures Split(x + [','] + y + [','] + z, ',') == [x, y, z]
  {
    SplitNoSep(z, ',');
    SplitPrefix(y, z, ',');
    assert x + [','] + y + [','] + z == x + [','] + (y + [','] + z);
    SplitPrefix(x, y + [','] + z, ',');
  }

  /** Every line of the anchored shape is matched, with its own groups. */
  lemma {:induction false} MatchLineComplete(line: string, g: Groups)
    requires Matches(line, g)
    ensures MatchLine(line) == Some(g)
  {
    var rest := g.ip + [','] + g.requestType + [','] + g.code;
    assert line == g.timestamp + [','] + rest;
    assert line[..19] == g.timestamp && line[19] == ',' && line[20..] == rest;
    NoCommaInIp(g.ip);
    NoCommaInDecimal(g.code);
    assert ',' !in g.requestType;
    SplitThree(g.ip, g.requestType, g.code);
  }

  /** The matcher finds exactly the groups of the anchored pattern, and no others. */
  lemma MatchLineCorrect(line: string, g: Groups)
    ensures MatchLine(line) == Some(g) <==> Matches(line, g)
  {
    if Matches(line, g) {
      MatchLineComplete(line, g);
    }
  }

  lemma NoDotInDigits(s: string)
    requires AllDigits(s)
    ensures '.' !in s
  {
    forall k | 0 <= k < |s| ensures s[k] != '.' {
      assert IsDigit(s[k]);
    }
  }

  /** A dotted quad of digit groups splits back into its four groups. */
  lemma {:induction false} DottedQuadSplit(a: string, b: string, c: string, d: string)
    requires IsDecimal(a) && IsDecimal(b) && IsDecimal(c) && IsDecimal(d)
    ensures Split(a + "." + b + "." + c + "." + d, '.') == [a, b, c, d]
  {
    NoDotInDigits(a);
    NoDotInDigits(b);
    NoDotInDigits(c);
    NoDotInDigits(d);
    SplitNoSep(d, '.');
    SplitPrefix(c, d, '.');
    SplitPrefix(b, c + "." + d, '.');
    assert b + "." + (c + "." + d) == b + "." + c + "." + d;
    SplitPrefix(a, b + "." + c + "." + d, '.');
    assert a + "." + (b + "." + c + "." + d) == a + "." + b + "." + c + "." + d;
  }

  // ---------------------------------------------------------------------------
  // The semantic gate on the IP address
  // ---------------------------------------------------------------------------

  /** One octet as the validators accept it: `int(part)` succeeds and lies in 0..255. */
  predicate OctetOk(part: string) {
    PyInt(part).Some? && 0 <= PyInt(part).value <= 255
  }

  /** Exactly four parts, every one an octet. */
  predicate ValidOctets(parts: seq<string>) {
    |parts| == 4 && forall i :: 0 <= i < 4 ==> OctetOk(parts[i])
  }

  /** The dotted-quad rule: exactly four `.`-separated parts, every one an octet. */
  predicate ValidIp(ip: string) {
    ValidOctets(Split(ip, '.'))
  }

  /** A line passes both gates. */
  predicate Accepts(line: string) {
    MatchLine(line).Some? && ValidIp(MatchLine(line).value.ip)
  }

  /**
   * On an address the pattern already admitted, the octet rule is exactly
   * "each 1-3 digit group reads as at most 255": the pattern's digit-count
   * bound alone lets 256..999 through.
   */
  lemma {:induction false} ValidShapedIp(ip: string)
    requires IpShape(ip)
    ensures var parts := Split(ip, '.');
      ValidIp(ip) <==> forall i :: 0 <= i < 4 ==> DigitsValue(parts[i]) <= 255
  {
    var parts := Split(ip, '.');
    forall i | 0 <= i < 4 ensures |parts[i]| >= 1 && AllDigits(parts[i]) {
      assert IsDecimal(parts[i]);
    }
    OctetsDecimal(parts);
    if ValidIp(ip) {
      assert ValidOctets(parts);
    } else {
      var i :| 0 <= i < 4 && !OctetOk(parts[i]);
      OctetOkDecimal(parts[i]);
    }
  }

  /** Four groups of digits are all octets exactly when each reads as at most 255. */
  lemma OctetsDecimal(parts: seq<string>)
    requires |parts| == 4 && forall i :: 0 <= i < 4 ==> |parts[i]| >= 1 && AllDigits(parts[i])
    ensures ValidOctets(parts) <==> (forall i :: 0 <= i < 4 ==> DigitsValue(parts[i]) <= 255)
  {
    forall i | 0 <= i < 4 ensures OctetOk(parts[i]) <==> DigitsValue(parts[i]) <= 255 {
      OctetOkDecimal(parts[i]);
    }
  }

  /** A group of digits is an octet exactly when its decimal value is at most 255. */
  lemma OctetOkDecimal(p: string)
    requires IsDecimal(p)
    ensures OctetOk(p) <==> DigitsValue(p) <= 255
  {
    PyIntDecimal(p);
  }

  /** A dotted quad of 1-3 digit groups has the pattern's shape, and is valid when every group is at most 255. */
  lemma {:induction false} QuadIp(a: string, b: string, c: string, d: string)
    requires IsDecimal(a) && IsDecimal(b) && IsDecimal(c) && IsDecimal(d)
    requires |a| <= 3 && |b| <= 3 && |c| <= 3 && |d| <= 3
    ensures IpShape(a + "." + b + "." + c + "." + d)
    ensures ValidIp(a + "." + b + "." + c + "." + d) <==>
      DigitsValue(a) <= 255 && DigitsValue(b) <= 255 && DigitsValue(c) <= 255 && DigitsValue(d) <= 255
  {
    var ip := a + "." + b + "." + c + "." + d;
    DottedQuadSplit(a, b, c, d);
    var parts := [a, b, c, d];
    assert Split(ip, '.') == parts;
    forall i | 0 <= i < 4 ensures |parts[i]| <= 3 && IsDecimal(parts[i]) && |parts[i]| >= 1 && AllDigits(parts[i]) {
    }
    assert IpShape(ip);
    OctetsDecimal(parts);
    assert ValidIp(ip) <==> ValidOctets(parts);
    assert (forall i :: 0 <= i < 4 ==> DigitsValue(parts[i]) <= 255) <==>
      DigitsValue(a) <= 255 && DigitsValue(b) <= 255 && DigitsValue(c) <= 255 && DigitsValue(d) <= 255 by {
      assert parts[0] == a && parts[1] == b && parts[2] == c && parts[3] == d;
    }
  }

  /** An empty part (as in `1..2.3` or `1.2.3.`) fails the octet rule. */
  lemma EmptyOctetRejected(ip: string, i: nat)
    requires i < |Split(ip, '.')| && Split(ip, '.')[i] == ""
    ensures !ValidIp(ip)
  {
    assert !UnderscoredDigits("");
    assert IntStrip("") == "";
    assert !OctetOk("");
  }

  // ---------------------------------------------------------------------------
  // The timestamp: datetime.strptime(ts, "%Y-%m-%d %H:%M:%S")
  // ---------------------------------------------------------------------------

  datatype DateTime = DateTime(year: nat, month: nat, day: nat, hour: nat, minute: nat, second: nat)

  predicate IsLeapYear(y: nat) {
    y % 4 == 0 && (y % 100 != 0 || y % 400 == 0)
  }

  function DaysInMonth(y: nat, m: nat): nat {
    if m == 2 then (if IsLeapYear(y) then 29 else 28)
    else if m == 4 || m == 6 || m == 9 || m == 11 then 30
    else 31
  }

  /** The field ranges a `datetime` accepts (year 1..9999, a real calendar day, 24-hour clock). */
  predicate ValidDateTime(d: DateTime) {
    && 1 <= d.year <= 9999
    && 1 <= d.month <= 12
    && 1 <= d.day <= DaysInMonth(d.year, d.month)
    && d.hour <= 23 && d.minute <= 59 && d.second <= 59
  }

  /** `d.strftime("%Y-%m-%d %H:%M:%S")` */
  function FormatTimestamp(d: DateTime): (ts: string)
    requires ValidDateTime(d)
    ensures TimestampShape(ts)
  {
    TimestampSlices(Pad(d.year, 4), Pad(d.month, 2), Pad(d.day, 2), Pad(d.hour, 2), Pad(d.minute, 2), Pad(d.second, 2));
    Stamp(Pad(d.year, 4), Pad(d.month, 2), Pad(d.day, 2), Pad(d.hour, 2), Pad(d.minute, 2), Pad(d.second, 2))
  }

  /**
   * `strptime` on a string of the timestamp group's shape: the fields are read
   * as decimal numbers and the result exists only for a real calendar date
   * and time; otherwise the call raises, modelled as `None`.
   */
  function ParseTimestamp(ts: string): (r: Option<DateTime>)
    ensures r.Some? ==> TimestampShape(ts) && ValidDateTime(r.value)
  {
    if !TimestampShape(ts) then None
    else
      var d := DateTime(DigitsValue(ts[0..4]), DigitsValue(ts[5..7]), DigitsValue(ts[8..10]),
                        DigitsValue(ts[11..13]), DigitsValue(ts[14..16]), DigitsValue(ts[17..19]));
      if ValidDateTime(d) then Some(d) else None
  }

  /** Formatting a parsed timestamp gives back the text it was parsed from. */
  lemma FormatParsedTimestamp(ts: string)
    requires ParseTimestamp(ts).Some?
    ensures ValidDateTime(ParseTimestamp(ts).value)
    ensures FormatTimestamp(ParseTimestamp(ts).value) == ts
  {
    PadDigitsValue(ts[0..4]);
    PadDigitsValue(ts[5..7]);
    PadDigitsValue(ts[8..10]);
    PadDigitsValue(ts[11..13]);
    PadDigitsValue(ts[14..16]);
    PadDigitsValue(ts[17..19]);
    StampOfFields(ts);
  }

  /** Text of the timestamp group's shape is its own six fields laid out again. */
  lemma StampOfFields(ts: string)
    requires TimestampShape(ts)
    ensures ts == Stamp(ts[0..4], ts[5..7], ts[8..10], ts[11..13], ts[14..16], ts[17..19])
  {
    var t := Stamp(ts[0..4], ts[5..7], ts[8..10], ts[11..13], ts[14..16], ts[17..19]);
    TimestampSlices(ts[0..4], ts[5..7], ts[8..10], ts[11..13], ts[14..16], ts[17..19]);
    forall k | 0 <= k < 19 ensures t[k] == ts[k] {
      if k < 4 { assert t[k] == t[0..4][k]; }
      else if 5 <= k < 7 { assert t[k] == t[5..7][k - 5]; }
      else if 8 <= k < 10 { assert t[k] == t[8..10][k - 8]; }
      else if 11 <= k < 13 { assert t[k] == t[11..13][k - 11]; }
      else if 14 <= k < 16 { assert t[k] == t[14..16][k - 14]; }
      else if 17 <= k { assert t[k] == t[17..19][k - 17]; }
    }
  }

  /** The six fields laid out as `Y-M-D h:m:s`. */
  function Stamp(y: string, mo: string, dd: string, h: string, mi: string, s: string): string {
    y + ("-" + (mo + ("-" + (dd + (" " + (h + (":" + (mi + (":" + s)))))))))
  }

  /** A one-character separator, a two-character field and the rest: where each piece sits. */
  lemma SepField(sep: string, f: string, rest: string)
    requires |sep| == 1 && |f| == 2
    ensures (sep + (f + rest))[1..3] == f && (sep + (f + rest))[3..] == rest
  {
    assert sep + (f + rest) == sep + f + rest;
  }

  /** Where each field sits in `Y-M-D h:m:s` text. */
  lemma TimestampSlices(y: string, mo: string, dd: string, h: string, mi: string, s: string)
    requires |y| == 4 && |mo| == 2 && |dd| == 2 && |h| == 2 && |mi| == 2 && |s| == 2
    ensures var ts := Stamp(y, mo, dd, h, mi, s);
      && |ts| == 19
      && ts[0..4] == y && ts[5..7] == mo && ts[8..10] == dd
      && ts[11..13] == h && ts[14..16] == mi && ts[17..19] == s
      && ts[4] == '-' && ts[7] == '-' && ts[10] == ' ' && ts[13] == ':' && ts[16] == ':'
  {
    var r5 := ":" + s;
    var r4 := ":" + (mi + r5);
    var r3 := " " + (h + r4);
    var r2 := "-" + (dd + r3);
    var r1 := "-" + (mo + r2);
    var ts := y + r1;
    assert ts[0..4] == y && ts[4..] == r1;
    SepField("-", mo, r2);
    SepField("-", dd, r3);
    SepField(" ", h, r4);
    SepField(":", mi, r5);
    assert r5[1..3] == s;
    assert ts[5..7] == r1[1..3];
    assert ts[8..10] == r2[1..3];
    assert ts[11..13] == r3[1..3];
    assert ts[14..16] == r4[1..3];
    assert ts[17..19] == r5[1..3];
  }

  /** Every valid date and time survives formatting and parsing again. */
  lemma ParseFormattedTimestamp(d: DateTime)
    requires ValidDateTime(d)
    ensures ParseTimestamp(FormatTimestamp(d)) == Some(d)
  {
    TimestampSlices(Pad(d.year, 4), Pad(d.month, 2), Pad(d.day, 2), Pad(d.hour, 2), Pad(d.minute, 2), Pad(d.second, 2));
    DigitsValuePad(d.year, 4);
    DigitsValuePad(d.month, 2);
    DigitsValuePad(d.day, 2);
    DigitsValuePad(d.hour, 2);
    DigitsValuePad(d.minute, 2);
    DigitsValuePad(d.second, 2);
  }
}
