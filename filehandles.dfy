/**
 * The filehandles collector: walks the process table, computes for every
 * process the share of its open-files limit it uses, and reports every
 * process at or above a threshold, plus a counter of how many there are.
 */
module Filehandles {
  import opened Wrappers
  import opened Text
  import opened Numbers
  import opened Metrics

  const Subsystem := "filehandles"
  /** The default of the `collector.filehandles.threshold` flag, in percent. */
  const DefaultThreshold := "90"
  /** Labels of both metrics, in the order their values are passed. */
  const LimitLabelNames := ["pid", "process_name", "max_open_files", "open_files", "percent"]

  /** The `limits` line that holds the open-files limit, and the field holding its soft value. */
  const MaxOpenFilesKey := "Max open files"
  const LimitField := 3
  /** The `status` line that holds the process name, and the field holding it. */
  const NameKey := "Name:"
  const NameField := 1

  /**
   * One entry of the `/proc` listing with what the collector reads for it:
   * the lines of its `limits` and `status` files (none when a file cannot be
   * opened) and the number of entries of its `fd` directory (0 when that
   * cannot be read).
   */
  datatype Entry = Entry(name: string, limits: seq<string>, status: seq<string>, fdCount: nat)

  /** `pidOpenFiles`: a process at or above the threshold. */
  datatype Record = Record(pid: string, name: string, maxOpenFiles: real, openFiles: nat, percent: Float)

  /** What `getLimitReachedCount` ends with: the process exits when `/proc` cannot be listed. */
  datatype ScanResult = ListingFailed | Found(count: real, records: seq<Record>)

  /** What `Update` ends with. */
  datatype UpdateResult = ProcessExited | Emitted(samples: seq<Sample>)

  /** A directory name is a process id when it parses as a base-10 int64. */
  predicate IsPid(name: string) {
    ParseInt64(name).Some?
  }

  /** A `Max open files` line has a limit field; a shorter one makes the source index out of range. */
  predicate LimitLineParseable(line: string) {
    Contains(line, MaxOpenFilesKey) ==> |Fields(line)| > LimitField
  }

  predicate LimitsParseable(limits: seq<string>) {
    forall i :: 0 <= i < |limits| ==> LimitLineParseable(limits[i])
  }

  /** A `Name:` line has a name field; a shorter one makes the source index out of range. */
  predicate NameLineParseable(line: string) {
    Contains(line, NameKey) ==> |Fields(line)| > NameField
  }

  predicate StatusParseable(status: seq<string>) {
    forall i :: 0 <= i < |status| ==> NameLineParseable(status[i])
  }

  /** The limit a line sets: its limit field parsed, when it is a `Max open files` line and the field parses. */
  function LimitOn(line: string, parseFloat: string -> Option<real>): Option<real>
    requires LimitLineParseable(line)
  {
    if Contains(line, MaxOpenFilesKey) then parseFloat(Fields(line)[LimitField]) else None
  }

  /** The limit each line sets, line by line. */
  function LimitValues(limits: seq<string>, parseFloat: string -> Option<real>): seq<Option<real>>
    requires LimitsParseable(limits)
  {
    seq(|limits|, i requires 0 <= i < |limits| => LimitOn(limits[i], parseFloat))
  }

  /** The value a scan that overwrites its variable with every value set ends with, starting from 0. */
  function LastSet(values: seq<Option<real>>): real {
    if values == [] then 0.0
    else
      match values[|values| - 1]
      case Some(v) => v
      case None => LastSet(values[..|values| - 1])
  }

  /** The open-files limit of a process: the one the last line that sets a limit sets, or 0. */
  function MaxOpenFiles(limits: seq<string>, parseFloat: string -> Option<real>): real
    requires LimitsParseable(limits)
  {
    LastSet(LimitValues(limits, parseFloat))
  }

  /** Every prefix of parseable limits is parseable. */
  lemma LimitsParseablePrefix(limits: seq<string>, n: nat)
    requires LimitsParseable(limits) && n <= |limits|
    ensures LimitsParseable(limits[..n])
  {
    forall i | 0 <= i < n ensures LimitLineParseable(limits[..n][i]) {
      assert limits[..n][i] == limits[i];
    }
  }

  /** With no value set, the scan ends with 0. */
  lemma {:induction false} LastSetUnset(values: seq<Option<real>>)
    requires forall i :: 0 <= i < |values| ==> values[i].None?
    ensures LastSet(values) == 0.0
  {
    if values != [] {
      var n := |values| - 1;
      assert forall i :: 0 <= i < n ==> values[..n][i] == values[i];
      LastSetUnset(values[..n]);
    }
  }

  /** The scan ends with the last value set. */
  lemma {:induction false} LastSetAt(values: seq<Option<real>>, i: nat)
    requires i < |values| && values[i].Some?
    requires forall j :: i < j < |values| ==> values[j].None?
    ensures LastSet(values) == values[i].value
  {
    var n := |values| - 1;
    if i < n {
      assert forall j :: 0 <= j < n ==> values[..n][j] == values[j];
      LastSetAt(values[..n], i);
    }
  }

  /** One more line sets the limit when it sets one, and otherwise leaves the limit found so far. */
  lemma MaxOpenFilesStep(limits: seq<string>, i: nat, parseFloat: string -> Option<real>)
    requires LimitsParseable(limits) && i < |limits|
    ensures LimitsParseable(limits[..i]) && LimitsParseable(limits[..i + 1])
    ensures MaxOpenFiles(limits[..i + 1], parseFloat) ==
      LimitOn(limits[i], parseFloat).GetOr(MaxOpenFiles(limits[..i], parseFloat))
  {
    LimitsParseablePrefix(limits, i);
    LimitsParseablePrefix(limits, i + 1);
    var before := LimitValues(limits[..i], parseFloat);
    var after := LimitValues(limits[..i + 1], parseFloat);
    assert after[i] == LimitOn(limits[i], parseFloat);
    assert after[..i] == before;
  }

  /** With no line that sets a limit, the limit is 0. */
  lemma MaxOpenFilesUnset(limits: seq<string>, parseFloat: string -> Option<real>)
    requires LimitsParseable(limits)
    requires forall i :: 0 <= i < |limits| ==> LimitOn(limits[i], parseFloat).None?
    ensures MaxOpenFiles(limits, parseFloat) == 0.0
  {
    LastSetUnset(LimitValues(limits, parseFloat));
  }

  /** The limit is the one set by the last line that sets one. */
  lemma MaxOpenFilesLastSet(limits: seq<string>, i: nat, parseFloat: string -> Option<real>)
    requires LimitsParseable(limits)
    requires i < |limits| && LimitOn(limits[i], parseFloat).Some?
    requires forall j :: i < j < |limits| ==> LimitOn(limits[j], parseFloat).None?
    ensures MaxOpenFiles(limits, parseFloat) == LimitOn(limits[i], parseFloat).value
  {
    LastSetAt(LimitValues(limits, parseFloat), i);
  }

  /** The process name: the name field of the last `Name:` line, or "" when there is none. */
  function ProcessName(status: seq<string>): string
    requires StatusParseable(status)
  {
    match LastMatching(status, NameKey)
    case None => ""
    case Some(line) => Fields(line)[NameField]
  }

  /** The name is "" when no line is a `Name:` line. */
  lemma ProcessNameUnset(status: seq<string>)
    requires StatusParseable(status)
    requires forall i :: 0 <= i < |status| ==> !Contains(status[i], NameKey)
    ensures ProcessName(status) == ""
  {
    LastMatchingNone(status, NameKey);
  }

  /** The name is the name field of the last `Name:` line. */
  lemma ProcessNameLastSet(status: seq<string>, i: nat)
    requires StatusParseable(status)
    requires i < |status| && Contains(status[i], NameKey)
    requires forall j :: i < j < |status| ==> !Contains(status[j], NameKey)
    ensures ProcessName(status) == Fields(status[i])[NameField]
  {
    LastMatchingAt(status, NameKey, i);
  }

  /**
   * `float64(open) * 100 / float64(limit)` under IEEE 754: a limit of 0 gives
   * +Inf when files are open and NaN when none are; the source has no guard
   * for it.
   */
  function Percentage(openFiles: nat, maxOpenFiles: real): Float {
    if maxOpenFiles == 0.0 then (if openFiles > 0 then PosInf else NaN)
    else Finite(openFiles as real * 100.0 / maxOpenFiles)
  }

  /** A finite percentage is the open-files count as a share of the limit; the others come from a zero limit. */
  lemma PercentageSpec(openFiles: nat, maxOpenFiles: real)
    ensures Percentage(openFiles, maxOpenFiles).Finite? <==> maxOpenFiles != 0.0
    ensures Percentage(openFiles, maxOpenFiles).Finite? ==>
      Percentage(openFiles, maxOpenFiles).v * maxOpenFiles == openFiles as real * 100.0
    ensures Percentage(openFiles, maxOpenFiles).PosInf? <==> maxOpenFiles == 0.0 && openFiles > 0
    ensures Percentage(openFiles, maxOpenFiles).NaN? <==> maxOpenFiles == 0.0 && openFiles == 0
  {
  }

  /** The source may read an entry's limits whenever its name is a process id. */
  predicate EntryLimitsParseable(e: Entry) {
    IsPid(e.name) ==> LimitsParseable(e.limits)
  }

  /** An entry is reported: its name is a pid, the threshold parses and the percentage reaches it. */
  predicate Qualifies(e: Entry, threshold: string, parseFloat: string -> Option<real>)
    requires EntryLimitsParseable(e)
  {
    && IsPid(e.name)
    && parseFloat(threshold).Some?
    && AtLeast(Percentage(e.fdCount, MaxOpenFiles(e.limits, parseFloat)), parseFloat(threshold).value)
  }

  /** What the source demands of the listing: every file it indexes into has the fields it indexes. */
  predicate ListingParseable(entries: seq<Entry>, threshold: string, parseFloat: string -> Option<real>) {
    forall i :: 0 <= i < |entries| ==> EntryParseable(entries[i], threshold, parseFloat)
  }

  predicate EntryParseable(e: Entry, threshold: string, parseFloat: string -> Option<real>) {
    && EntryLimitsParseable(e)
    && (Qualifies(e, threshold, parseFloat) ==> StatusParseable(e.status))
  }

  /** The record of a reported entry. */
  function RecordOf(e: Entry, parseFloat: string -> Option<real>): Record
    requires LimitsParseable(e.limits) && StatusParseable(e.status)
  {
    var mof := MaxOpenFiles(e.limits, parseFloat);
    Record(e.name, ProcessName(e.status), mof, e.fdCount, Percentage(e.fdCount, mof))
  }

  /** The records of the reported entries, in listing order. */
  function Scan(entries: seq<Entry>, threshold: string, parseFloat: string -> Option<real>): seq<Record>
    requires ListingParseable(entries, threshold, parseFloat)
  {
    if entries == [] then []
    else
      var n := |entries| - 1;
      var e := entries[n];
      Scan(entries[..n], threshold, parseFloat) +
        if Qualifies(e, threshold, parseFloat) then [RecordOf(e, parseFloat)] else []
  }

  /** Every prefix of a parseable listing is parseable. */
  lemma ListingParseablePrefix(entries: seq<Entry>, n: nat, threshold: string, parseFloat: string -> Option<real>)
    requires ListingParseable(entries, threshold, parseFloat) && n <= |entries|
    ensures ListingParseable(entries[..n], threshold, parseFloat)
  {
    forall i | 0 <= i < n ensures entries[..n][i] == entries[i] { }
  }

  /** Scanning one more entry adds its record exactly when it qualifies. */
  lemma ScanStep(entries: seq<Entry>, i: nat, threshold: string, parseFloat: string -> Option<real>)
    requires ListingParseable(entries, threshold, parseFloat) && i < |entries|
    ensures ListingParseable(entries[..i], threshold, parseFloat)
    ensures ListingParseable(entries[..i + 1], threshold, parseFloat)
    ensures Scan(entries[..i + 1], threshold, parseFloat) == Scan(entries[..i], threshold, parseFloat) +
      if Qualifies(entries[i], threshold, parseFloat) then [RecordOf(entries[i], parseFloat)] else []
  {
    ListingParseablePrefix(entries, i, threshold, parseFloat);
    ListingParseablePrefix(entries, i + 1, threshold, parseFloat);
    assert entries[..i + 1][..i] == entries[..i];
    assert entries[..i + 1][i] == entries[i];
  }

  lemma ListingParseableAppend(a: seq<Entry>, b: seq<Entry>, threshold: string, parseFloat: string -> Option<real>)
    requires ListingParseable(a, threshold, parseFloat) && ListingParseable(b, threshold, parseFloat)
    ensures ListingParseable(a + b, threshold, parseFloat)
  {
    forall i | 0 <= i < |a + b| ensures (a + b)[i] == if i < |a| then a[i] else b[i - |a|] { }
  }

  /** Scanning a listing in two parts gives the records of the first part, then those of the second. */
  lemma {:induction false} ScanAppend(a: seq<Entry>, b: seq<Entry>, threshold: string, parseFloat: string -> Option<real>)
    requires ListingParseable(a, threshold, parseFloat) && ListingParseable(b, threshold, parseFloat)
    ensures ListingParseable(a + b, threshold, parseFloat)
    ensures Scan(a + b, threshold, parseFloat) == Scan(a, threshold, parseFloat) + Scan(b, threshold, parseFloat)
  {
    ListingParseableAppend(a, b, threshold, parseFloat);
    if b == [] {
      assert a + b == a;
    } else {
      var n := |b| - 1;
      ListingParseablePrefix(b, n, threshold, parseFloat);
      ScanAppend(a, b[..n], threshold, parseFloat);
      assert (a + b)[..|a + b| - 1] == a + b[..n];
      assert (a + b)[|a + b| - 1] == b[n];
    }
  }

  /** An entry whose name is not a process id (`self`, `sys`, ...) changes nothing wherever it stands. */
  lemma NonPidIgnored(a: seq<Entry>, e: Entry, b: seq<Entry>, threshold: string, parseFloat: string -> Option<real>)
    requires ListingParseable(a, threshold, parseFloat) && ListingParseable(b, threshold, parseFloat)
    requires !IsPid(e.name)
    ensures ListingParseable(a + [e] + b, threshold, parseFloat)
    ensures Scan(a + [e] + b, threshold, parseFloat) == Scan(a + b, threshold, parseFloat)
  {
    NonPidSnoc(a, e, threshold, parseFloat);
    ScanAppend(a + [e], b, threshold, parseFloat);
    ScanAppend(a, b, threshold, parseFloat);
  }

  lemma NonPidSnoc(a: seq<Entry>, e: Entry, threshold: string, parseFloat: string -> Option<real>)
    requires ListingParseable(a, threshold, parseFloat)
    requires !IsPid(e.name)
    ensures ListingParseable(a + [e], threshold, parseFloat)
    ensures Scan(a + [e], threshold, parseFloat) == Scan(a, threshold, parseFloat)
  {
    assert EntryParseable(e, threshold, parseFloat);
    forall i | 0 <= i < |a| + 1 ensures (a + [e])[i] == if i < |a| then a[i] else e { }
    assert (a + [e])[..|a|] == a;
  }

  /** A threshold that does not parse reports nothing. */
  lemma {:induction false} UnparsedThresholdReportsNothing(entries: seq<Entry>, threshold: string, parseFloat: string -> Option<real>)
    requires ListingParseable(entries, threshold, parseFloat)
    requires parseFloat(threshold).None?
    ensures Scan(entries, threshold, parseFloat) == []
  {
    if entries != [] {
      var n := |entries| - 1;
      ListingParseablePrefix(entries, n, threshold, parseFloat);
      UnparsedThresholdReportsNothing(entries[..n], threshold, parseFloat);
    }
  }

  /** The positions of the qualifying entries, in listing order. */
  function QualifyingIndices(entries: seq<Entry>, threshold: string, parseFloat: string -> Option<real>): (r: seq<nat>)
    requires ListingParseable(entries, threshold, parseFloat)
    ensures forall k :: 0 <= k < |r| ==> r[k] < |entries|
  {
    if entries == [] then []
    else
      var n := |entries| - 1;
      ListingParseablePrefix(entries, n, threshold, parseFloat);
      QualifyingIndices(entries[..n], threshold, parseFloat) +
        if Qualifies(entries[n], threshold, parseFloat) then [n] else []
  }

  /** There are as many records as qualifying positions. */
  lemma {:induction false} ScanCount(entries: seq<Entry>, threshold: string, parseFloat: string -> Option<real>)
    requires ListingParseable(entries, threshold, parseFloat)
    ensures |Scan(entries, threshold, parseFloat)| == |QualifyingIndices(entries, threshold, parseFloat)|
  {
    if entries != [] {
      var n := |entries| - 1;
      ListingParseablePrefix(entries, n, threshold, parseFloat);
      ScanCount(entries[..n], threshold, parseFloat);
    }
  }

  /** The k-th record belongs to the entry at the k-th qualifying position, and that entry qualifies. */
  lemma {:induction false} ScanAt(entries: seq<Entry>, threshold: string, parseFloat: string -> Option<real>)
    requires ListingParseable(entries, threshold, parseFloat)
    ensures |Scan(entries, threshold, parseFloat)| == |QualifyingIndices(entries, threshold, parseFloat)|
    ensures forall k :: 0 <= k < |QualifyingIndices(entries, threshold, parseFloat)| ==>
      var e := entries[QualifyingIndices(entries, threshold, parseFloat)[k]];
      Qualifies(e, threshold, parseFloat) && Scan(entries, threshold, parseFloat)[k] == RecordOf(e, parseFloat)
  {
    ScanCount(entries, threshold, parseFloat);
    if entries != [] {
      var n := |entries| - 1;
      var init := entries[..n];
      ListingParseablePrefix(entries, n, threshold, parseFloat);
      ScanAt(init, threshold, parseFloat);
      ScanCount(init, threshold, parseFloat);
      var idx0 := QualifyingIndices(init, threshold, parseFloat);
      forall k | 0 <= k < |idx0| ensures entries[idx0[k]] == init[idx0[k]] { }
    }
  }

  /** The qualifying positions increase, so no entry is reported twice and the listing order is kept. */
  lemma {:induction false} QualifyingIndicesIncrease(entries: seq<Entry>, threshold: string, parseFloat: string -> Option<real>)
    requires ListingParseable(entries, threshold, parseFloat)
    ensures Increasing(QualifyingIndices(entries, threshold, parseFloat))
  {
    if entries != [] {
      var n := |entries| - 1;
      ListingParseablePrefix(entries, n, threshold, parseFloat);
      QualifyingIndicesIncrease(entries[..n], threshold, parseFloat);
      var idx0 := QualifyingIndices(entries[..n], threshold, parseFloat);
      var idx := QualifyingIndices(entries, threshold, parseFloat);
      assert idx == idx0 + if Qualifies(entries[n], threshold, parseFloat) then [n] else [];
      assert forall k :: 0 <= k < |idx0| ==> idx0[k] < n;
      forall k, l | 0 <= k < l < |idx| ensures idx[k] < idx[l] {
        assert idx[k] == idx0[k];
        if l < |idx0| {
          assert idx[l] == idx0[l];
        } else {
          assert idx[l] == n;
          assert idx0[k] < n;
        }
      }
    }
  }

  /** An entry's position is among the qualifying positions exactly when it qualifies. */
  lemma {:induction false} QualifyingIndicesComplete(entries: seq<Entry>, threshold: string, parseFloat: string -> Option<real>)
    requires ListingParseable(entries, threshold, parseFloat)
    ensures forall i :: 0 <= i < |entries| ==>
      (i in QualifyingIndices(entries, threshold, parseFloat) <==> Qualifies(entries[i], threshold, parseFloat))
  {
    if entries != [] {
      var n := |entries| - 1;
      var init := entries[..n];
      ListingParseablePrefix(entries, n, threshold, parseFloat);
      QualifyingIndicesComplete(init, threshold, parseFloat);
      var idx0 := QualifyingIndices(init, threshold, parseFloat);
      var idx := QualifyingIndices(entries, threshold, parseFloat);
      assert idx == idx0 + if Qualifies(entries[n], threshold, parseFloat) then [n] else [];
      assert n !in idx0;
      forall i | 0 <= i < |entries|
        ensures i in idx <==> Qualifies(entries[i], threshold, parseFloat)
      {
        if i < n {
          assert entries[i] == init[i];
          assert i in idx <==> i in idx0;
        }
      }
    }
  }

  /**
   * The example of three processes with limit 100 and 95, 50 and 10 open
   * files against a threshold of 90: only the first is reported, with 95.
   */
  lemma ThreeProcessExample(entries: seq<Entry>, threshold: string, parseFloat: string -> Option<real>)
    requires |entries| == 3
    requires forall i :: 0 <= i < 3 ==>
      (IsPid(entries[i].name) && LimitsParseable(entries[i].limits) && StatusParseable(entries[i].status) &&
       MaxOpenFiles(entries[i].limits, parseFloat) == 100.0)
    requires entries[0].fdCount == 95 && entries[1].fdCount == 50 && entries[2].fdCount == 10
    requires parseFloat(threshold) == Some(90.0)
    ensures ListingParseable(entries, threshold, parseFloat)
    ensures |Scan(entries, threshold, parseFloat)| == 1
    ensures Scan(entries, threshold, parseFloat)[0].pid == entries[0].name
    ensures Scan(entries, threshold, parseFloat)[0].openFiles == 95
    ensures Scan(entries, threshold, parseFloat)[0].percent == Finite(95.0)
  {
    assert !Qualifies(entries[1], threshold, parseFloat);
    assert !Qualifies(entries[2], threshold, parseFloat);
    ScanStep(entries, 0, threshold, parseFloat);
    ScanStep(entries, 1, threshold, parseFloat);
    ScanStep(entries, 2, threshold, parseFloat);
    assert entries[..3] == entries;
  }

  /** `getMaxOpenFiles`: scan `limits`, keeping the value of every limit field that parses. Its error is always nil. */
  method GetMaxOpenFiles(limits: seq<string>, parseFloat: string -> Option<real>) returns (mof: real)
    requires LimitsParseable(limits)
    ensures mof == MaxOpenFiles(limits, parseFloat)
  {
    var limit := 0.0;
    for i := 0 to |limits|
      invariant LimitsParseable(limits[..i])
      invariant limit == MaxOpenFiles(limits[..i], parseFloat)
    {
      var line := limits[i];
      MaxOpenFilesStep(limits, i, parseFloat);
      if Contains(line, MaxOpenFilesKey) {
        var l := parseFloat(Fields(line)[LimitField]);
        if l.Some? {
          limit := l.value;
        }
      }
    }
    assert limits[..|limits|] == limits;
    return limit;
  }

  /** `getProcessName`: scan `status`, keeping the name field of every `Name:` line. Its error is always nil. */
  method GetProcessName(status: seq<string>) returns (processName: string)
    requires StatusParseable(status)
    ensures processName == ProcessName(status)
  {
    var pname := "";
    for i := 0 to |status|
      invariant pname == ProcessName(status[..i])
    {
      var line := status[i];
      LastMatchingSnoc(status[..i], line, NameKey);
      assert status[..i + 1] == status[..i] + [line];
      if Contains(line, NameKey) {
        pname := Fields(line)[NameField];
      }
    }
    assert status[..|status|] == status;
    return pname;
  }

  /**
   * `getLimitReachedCount`: list `/proc` (`None` when that fails, which ends
   * the process), and record every process whose percentage reaches the
   * threshold, counting them as it goes.
   */
  method GetLimitReachedCount(listing: Option<seq<Entry>>, threshold: string, parseFloat: string -> Option<real>)
    returns (result: ScanResult)
    requires listing.Some? ==> ListingParseable(listing.value, threshold, parseFloat)
    ensures result.ListingFailed? <==> listing.None?
    ensures result.Found? ==> result.records == Scan(listing.value, threshold, parseFloat)
    ensures result.Found? ==> result.count == |result.records| as real
  {
    if listing.None? {
      return ListingFailed;
    }
    var files := listing.value;
    var errorCount := 0.0;
    var errorPids: seq<Record> := [];
    for i := 0 to |files|
      invariant ListingParseable(files[..i], threshold, parseFloat)
      invariant errorPids == Scan(files[..i], threshold, parseFloat)
      invariant errorCount == |errorPids| as real
    {
      var f := files[i];
      ScanStep(files, i, threshold, parseFloat);
      if ParseInt64(f.name).Some? {
        var mof := GetMaxOpenFiles(f.limits, parseFloat);
        var cof := f.fdCount;
        var percentage := Percentage(cof, mof);
        var t := parseFloat(threshold);
        if t.Some? {
          if AtLeast(percentage, t.value) {
            errorCount := errorCount + 1.0;
            var pname := GetProcessName(f.status);
            errorPids := errorPids + [Record(f.name, pname, mof, cof, percentage)];
          }
        }
      }
    }
    assert files[..|files|] == files;
    return Found(errorCount, errorPids);
  }

  /** The label values of a reported process, in `LimitLabelNames` order. */
  function RecordValues(r: Record): seq<LabelValue> {
    [Str(r.pid), Str(r.name), Formatted(Finite(r.maxOpenFiles), 0), Formatted(Finite(r.openFiles as real), 0),
     Formatted(r.percent, 2)]
  }

  /** The label values before any process is seen: all empty. */
  const NoValues: seq<LabelValue> := [Str(""), Str(""), Str(""), Str(""), Str("")]

  function LimitReachedSample(r: Record): Sample {
    Sample(FQName(Subsystem, "limit_reached"), Gauge, r.openFiles as real, Labels(LimitLabelNames, RecordValues(r)))
  }

  function LimitReachedCountSample(count: real, values: seq<LabelValue>): Sample
    requires |values| == |LimitLabelNames|
  {
    Sample(FQName(Subsystem, "limit_reached_count"), Counter, count, Labels(LimitLabelNames, values))
  }

  /** One gauge per record, in record order. */
  function Gauges(records: seq<Record>): seq<Sample> {
    if records == [] then []
    else Gauges(records[..|records| - 1]) + [LimitReachedSample(records[|records| - 1])]
  }

  /** What `Update` sends for the records: their gauges, then the counter labelled like the last record. */
  function Emission(records: seq<Record>): seq<Sample> {
    Gauges(records) + [LimitReachedCountSample(|records| as real,
      if records == [] then NoValues else RecordValues(records[|records| - 1]))]
  }

  lemma {:induction false} GaugesSpec(records: seq<Record>)
    ensures |Gauges(records)| == |records|
    ensures forall k :: 0 <= k < |records| ==> Gauges(records)[k] == LimitReachedSample(records[k])
  {
    if records != [] {
      var n := |records| - 1;
      var init := records[..n];
      GaugesSpec(init);
      var all := Gauges(records);
      assert all == Gauges(init) + [LimitReachedSample(records[n])];
      forall k | 0 <= k < |records| ensures all[k] == LimitReachedSample(records[k]) {
        if k < n {
          assert all[k] == Gauges(init)[k];
          assert init[k] == records[k];
        }
      }
    }
  }

  /** One more record adds its gauge. */
  lemma GaugesStep(records: seq<Record>, i: nat)
    requires i < |records|
    ensures Gauges(records[..i + 1]) == Gauges(records[..i]) + [LimitReachedSample(records[i])]
  {
    assert records[..i + 1][..i] == records[..i];
    assert records[..i + 1][i] == records[i];
  }

  /**
   * The emission is one gauge per record carrying its open-files count and
   * labels, in record order, then exactly one counter whose value is the
   * number of gauges and whose labels are the last record's, or all empty.
   */
  lemma EmissionSpec(records: seq<Record>)
    ensures |Emission(records)| == |records| + 1
    ensures forall k :: 0 <= k < |records| ==>
      Emission(records)[k].kind == Gauge && Emission(records)[k].value == records[k].openFiles as real &&
      Emission(records)[k].labels == Labels(LimitLabelNames, RecordValues(records[k]))
    ensures Emission(records)[|records|].kind == Counter
    ensures Emission(records)[|records|].value == |records| as real
    ensures Emission(records)[|records|].labels ==
      Labels(LimitLabelNames, if records == [] then NoValues else RecordValues(records[|records| - 1]))
  {
    GaugesSpec(records);
  }

  /**
   * The sending half of `filehandlesCollector.Update`: one gauge per reported
   * process with its open-files count, in record order, then one counter with
   * their number, labelled like the last of them (or with empty labels when
   * there is none).
   */
  method Emit(count: real, pids: seq<Record>) returns (samples: seq<Sample>)
    requires count == |pids| as real
    ensures samples == Emission(pids)
  {
    var lastPid, lastName, lastMaxOpenFiles, lastOpenFiles, lastPercent := Str(""), Str(""), Str(""), Str(""), Str("");
    samples := [];
    for i := 0 to |pids|
      invariant samples == Gauges(pids[..i])
      invariant [lastPid, lastName, lastMaxOpenFiles, lastOpenFiles, lastPercent] ==
        if i == 0 then NoValues else RecordValues(pids[i - 1])
    {
      var p := pids[i];
      lastPid := Str(p.pid);
      lastName := Str(p.name);
      lastMaxOpenFiles := Formatted(Finite(p.maxOpenFiles), 0);
      lastOpenFiles := Formatted(Finite(p.openFiles as real), 0);
      lastPercent := Formatted(p.percent, 2);
      var values := [lastPid, lastName, lastMaxOpenFiles, lastOpenFiles, lastPercent];
      assert values == RecordValues(p);
      var gauge := Sample(FQName(Subsystem, "limit_reached"), Gauge, p.openFiles as real, Labels(LimitLabelNames, values));
      assert gauge == LimitReachedSample(p);
      GaugesStep(pids, i);
      samples := samples + [gauge];
    }
    assert pids[..|pids|] == pids;

    var counter := Sample(FQName(Subsystem, "limit_reached_count"), Counter, count,
      Labels(LimitLabelNames, [lastPid, lastName, lastMaxOpenFiles, lastOpenFiles, lastPercent]));
    assert counter == LimitReachedCountSample(|pids| as real,
      if pids == [] then NoValues else RecordValues(pids[|pids| - 1]));
    samples := samples + [counter];
  }

  /**
   * `filehandlesCollector.Update`: scan the process table, then send what the
   * scan found; a failed listing ends the process before anything is sent.
   */
  method Update(listing: Option<seq<Entry>>, threshold: string, parseFloat: string -> Option<real>)
    returns (result: UpdateResult)
    requires listing.Some? ==> ListingParseable(listing.value, threshold, parseFloat)
    ensures result.ProcessExited? <==> listing.None?
    ensures result.Emitted? ==> result.samples == Emission(Scan(listing.value, threshold, parseFloat))
  {
    var scan := GetLimitReachedCount(listing, threshold, parseFloat);
    if scan.ListingFailed? {
      return ProcessExited;
    }
    var samples := Emit(scan.count, scan.records);
    return Emitted(samples);
  }
}
