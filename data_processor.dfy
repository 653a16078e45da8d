/**
 * `DataProcessor`: holds the accepted records as a table (`df`) and the last
 * analysis result (`stats`). The analysis is a pure summary of the records:
 * totals, the error/success split, the error percentage, frequency tables
 * of status codes, request methods and addresses, and distinct-address
 * counts.
 */
module DataProcessing {
  import opened Wrappers
  import opened LogParsing
  import opened FrequencyTables

  /** How many addresses the "top error IPs" table keeps (`TOP_IP_COUNT`). */
  const TopIpCount: nat := 5

  /** The dictionary `analyze` returns for a non-empty table. */
  datatype AnalysisStats = AnalysisStats(
    totalRequests: nat,
    errorRequests: nat,
    successRequests: int,
    errorPercentage: real,
    errorCodeDistribution: Table<int>,
    topErrorIps: Table<string>,
    requestTypeDistribution: Table<string>,
    errorByRequest: Table<string>,
    uniqueIps: nat,
    uniqueErrorIps: nat)

  /** `df[df['is_error']]`: the error records, in table order. */
  function ErrorRecords(df: seq<ParsedRecord>): seq<ParsedRecord> {
    if df == [] then []
    else (if df[0].isError then [df[0]] else []) + ErrorRecords(df[1..])
  }

  /** The `ip_address` column. */
  function Ips(rs: seq<ParsedRecord>): (col: seq<string>)
    ensures |col| == |rs| && forall i :: 0 <= i < |rs| ==> col[i] == rs[i].ipAddress
  {
    seq(|rs|, i requires 0 <= i < |rs| => rs[i].ipAddress)
  }

  /** The `error_code` column. */
  function Codes(rs: seq<ParsedRecord>): (col: seq<int>)
    ensures |col| == |rs| && forall i :: 0 <= i < |rs| ==> col[i] == rs[i].errorCode
  {
    seq(|rs|, i requires 0 <= i < |rs| => rs[i].errorCode)
  }

  /** The `request_type` column. */
  function Methods(rs: seq<ParsedRecord>): (col: seq<string>)
    ensures |col| == |rs| && forall i :: 0 <= i < |rs| ==> col[i] == rs[i].requestType
  {
    seq(|rs|, i requires 0 <= i < |rs| => rs[i].requestType)
  }

  /** `nunique()` of a column. */
  function Unique<K(==)>(col: seq<K>): nat {
    |set x | x in col|
  }

  /** `part` as a share of `whole` in percent, 0 when `whole` is 0. */
  function Percentage(part: nat, whole: nat): real {
    if whole > 0 then part as real / whole as real * 100.0 else 0.0
  }

  /** A share of a whole lies between 0 and 100 percent and scales back to the part. */
  lemma PercentageFacts(part: nat, whole: nat)
    requires part <= whole
    ensures 0.0 <= Percentage(part, whole) <= 100.0
    ensures whole == 0 ==> Percentage(part, whole) == 0.0
    ensures whole > 0 ==> Percentage(part, whole) * whole as real == part as real * 100.0
  {
    if whole > 0 {
      var q := part as real / whole as real;
      assert q * whole as real == part as real;
      assert q <= 1.0;
    }
  }

  /** The statistics `analyze` compiles from a table of records. */
  function Summarize(df: seq<ParsedRecord>): (s: AnalysisStats)
    ensures s.totalRequests == |df| && s.errorRequests <= s.totalRequests
    ensures s.successRequests + s.errorRequests == s.totalRequests
  {
    ErrorRecordsFacts(df);
    var errors := ErrorRecords(df);
    var total := |df|;
    var errorCount := |errors|;
    AnalysisStats(
      total,
      errorCount,
      total - errorCount,
      Percentage(errorCount, total),
      ValueCounts(Codes(errors)),
      TopK(Ips(errors), TopIpCount),
      ValueCounts(Methods(df)),
      ValueCounts(Methods(errors)),
      Unique(Ips(df)),
      if errors != [] then Unique(Ips(errors)) else 0)
  }

  /** The error records are exactly the records flagged `is_error`, in their table order. */
  lemma {:induction false} ErrorRecordsFacts(df: seq<ParsedRecord>)
    ensures |ErrorRecords(df)| <= |df|
    ensures forall r :: r in ErrorRecords(df) <==> r in df && r.isError
    ensures (forall r :: r in df ==> !r.isError) <==> ErrorRecords(df) == []
  {
    if df != [] {
      ErrorRecordsFacts(df[1..]);
      assert df == [df[0]] + df[1..];
    }
  }

  /**
   * The request counts: every record is an error or a success, and the error
   * percentage is the share of errors in percent (see `PercentageFacts`).
   */
  lemma SummaryCounts(df: seq<ParsedRecord>)
    ensures var s := Summarize(df);
      && s.totalRequests == |df|
      && s.errorRequests == |ErrorRecords(df)| <= s.totalRequests
      && s.successRequests == s.totalRequests - s.errorRequests >= 0
      && s.errorPercentage == Percentage(s.errorRequests, s.totalRequests)
      && 0.0 <= s.errorPercentage <= 100.0
  {
    ErrorRecordsFacts(df);
    PercentageFacts(|ErrorRecords(df)|, |df|);
  }

  /**
   * `error_code_distribution` counts the status codes of the error records
   * only: one entry per code, each with its exact number of error records,
   * most frequent first, adding up to `error_requests`.
   */
  lemma ErrorCodeDistribution(df: seq<ParsedRecord>)
    ensures var s := Summarize(df);
      var codes := Codes(ErrorRecords(df));
      && DistinctKeys(s.errorCodeDistribution) && SortedByCount(s.errorCodeDistribution)
      && Sum(s.errorCodeDistribution) == s.errorRequests
      && (forall i :: 0 <= i < |s.errorCodeDistribution| ==>
            s.errorCodeDistribution[i].0 in codes
            && s.errorCodeDistribution[i].1 == Count(codes, s.errorCodeDistribution[i].0))
      && (forall c :: c in codes ==> HasKey(s.errorCodeDistribution, c))
  {
    ValueCountsFacts(Codes(ErrorRecords(df)));
  }

  /**
   * When every record's flag agrees with its status (as it does for records
   * the parser builds), every code in `error_code_distribution` is a 4xx or
   * 5xx status.
   */
  lemma ErrorCodesAreErrors(df: seq<ParsedRecord>)
    requires forall r :: r in df ==> r.isError == IsErrorCode(r.errorCode)
    ensures forall i :: 0 <= i < |Summarize(df).errorCodeDistribution| ==>
      400 <= Summarize(df).errorCodeDistribution[i].0 < 600
  {
    var errors := ErrorRecords(df);
    var codes := Codes(errors);
    ErrorRecordsFacts(df);
    ValueCountsFacts(codes);
    forall c | c in codes ensures 400 <= c < 600 {
      var j :| 0 <= j < |codes| && codes[j] == c;
      assert errors[j] in errors;
    }
  }

  /**
   * `request_type_distribution` counts every record and adds up to
   * `total_requests`; `error_by_request` counts the error records and adds up
   * to `error_requests`; both have one entry per method with its exact count.
   */
  lemma RequestDistributions(df: seq<ParsedRecord>)
    ensures var s := Summarize(df);
      && Sum(s.requestTypeDistribution) == s.totalRequests
      && Sum(s.errorByRequest) == s.errorRequests
      && DistinctKeys(s.requestTypeDistribution) && DistinctKeys(s.errorByRequest)
      && (forall i :: 0 <= i < |s.requestTypeDistribution| ==>
            s.requestTypeDistribution[i].1 == Count(Methods(df), s.requestTypeDistribution[i].0))
      && (forall i :: 0 <= i < |s.errorByRequest| ==>
            s.errorByRequest[i].1 == Count(Methods(ErrorRecords(df)), s.errorByRequest[i].0))
  {
    ValueCountsFacts(Methods(df));
    ValueCountsFacts(Methods(ErrorRecords(df)));
  }

  /**
   * `top_error_ips`: `min(5, unique_error_ips)` addresses of error records,
   * each with its exact number of error records, most errors first, and no
   * address left out has more errors than one listed.
   */
  lemma TopErrorIps(df: seq<ParsedRecord>)
    ensures var s := Summarize(df);
      var ips := Ips(ErrorRecords(df));
      && |s.topErrorIps| == (if s.uniqueErrorIps < TopIpCount then s.uniqueErrorIps else TopIpCount)
      && DistinctKeys(s.topErrorIps) && SortedByCount(s.topErrorIps)
      && (forall i :: 0 <= i < |s.topErrorIps| ==>
            s.topErrorIps[i].0 in ips && s.topErrorIps[i].1 == Count(ips, s.topErrorIps[i].0))
      && (forall ip, i :: ip in ips && !HasKey(s.topErrorIps, ip) && 0 <= i < |s.topErrorIps| ==>
            s.topErrorIps[i].1 >= Count(ips, ip))
  {
    var ips := Ips(ErrorRecords(df));
    TopKFacts(ips, TopIpCount);
    if ErrorRecords(df) == [] {
      assert (set x | x in ips) == {};
    }
  }

  /**
   * `unique_ips` and `unique_error_ips` count distinct addresses overall and
   * among error records; the second is 0 exactly when there are no errors
   * and never exceeds the first.
   */
  lemma UniqueIps(df: seq<ParsedRecord>)
    ensures var s := Summarize(df);
      && s.uniqueIps == |set r | r in df :: r.ipAddress|
      && s.uniqueErrorIps == |set r | r in ErrorRecords(df) :: r.ipAddress|
      && (s.uniqueErrorIps == 0 <==> s.errorRequests == 0)
      && s.uniqueErrorIps <= s.uniqueIps
      && s.uniqueIps <= s.totalRequests
  {
    var errors := ErrorRecords(df);
    ErrorRecordsFacts(df);
    var all := set r | r in df :: r.ipAddress;
    var errs := set r | r in errors :: r.ipAddress;
    ColumnSet(df);
    ColumnSet(errors);
    assert errs <= all;
    SubsetCard(errs, all);
    if errors != [] {
      assert errors[0].ipAddress in errs;
    }
    UniqueBound(Ips(df));
  }

  /** The distinct values of the `ip_address` column are the addresses of the records. */
  lemma ColumnSet(rs: seq<ParsedRecord>)
    ensures (set x | x in Ips(rs)) == (set r | r in rs :: r.ipAddress)
  {
    var col := Ips(rs);
    forall x | x in col ensures x in (set r | r in rs :: r.ipAddress) {
      var j :| 0 <= j < |col| && col[j] == x;
      assert rs[j] in rs;
    }
    forall r | r in rs ensures r.ipAddress in col {
      var j :| 0 <= j < |rs| && rs[j] == r;
      assert col[j] == r.ipAddress;
    }
  }

  /** A subset is no larger than its superset. */
  lemma {:induction false} SubsetCard<T>(a: set<T>, b: set<T>)
    requires a <= b
    ensures |a| <= |b|
    decreases |b|
  {
    if a != {} {
      var x :| x in a;
      SubsetCard(a - {x}, b - {x});
    }
  }

  class DataProcessor {
    var df: seq<ParsedRecord>
    var stats: Option<AnalysisStats>

    /** An empty table and no analysis yet. */
    constructor()
      ensures df == [] && stats == None
    {
      df := [];
      stats := None;
    }

    /** `create_dataframe`: an empty list leaves the table as it was; otherwise the table becomes the list. */
    method CreateDataframe(parsedLogs: seq<ParsedRecord>)
      modifies this
      ensures df == (if parsedLogs == [] then old(df) else parsedLogs)
      ensures stats == old(stats)
    {
      if parsedLogs == [] {
        return;
      }
      df := parsedLogs;
    }

    /**
     * `analyze`: an empty table yields the empty result and leaves the stored
     * statistics untouched; otherwise the summary of the table is stored and
     * returned.
     */
    method Analyze() returns (r: Option<AnalysisStats>)
      modifies this
      ensures df == old(df)
      ensures df == [] ==> r == None && stats == old(stats)
      ensures df != [] ==> r == Some(Summarize(df)) && stats == r
    {
      if df == [] {
        return None;
      }
      var errors := ErrorRecords(df);
      var totalRequests := |df|;
      var errorCount := |errors|;
      var errorPercentage := if totalRequests > 0 then errorCount as real / totalRequests as real * 100.0 else 0.0;
      assert errorPercentage == Percentage(errorCount, totalRequests);
      var uniqueErrorIps := if errors != [] then Unique(Ips(errors)) else 0;
      stats := Some(AnalysisStats(
        totalRequests,
        errorCount,
        totalRequests - errorCount,
        errorPercentage,
        ValueCounts(Codes(errors)),
        TopK(Ips(errors), TopIpCount),
        ValueCounts(Methods(df)),
        ValueCounts(Methods(errors)),
        Unique(Ips(df)),
        uniqueErrorIps));
      r := stats;
    }

    /** `get_stats`: the stored statistics (`None` for the empty dictionary). */
    function GetStats(): (s: Option<AnalysisStats>)
      reads this
      ensures s == stats
    {
      stats
    }
  }
}
