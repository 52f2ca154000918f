/**
 * The chef-client collector: the status of the last chef-client run, read
 * from the last line of its log that mentions "chef", and the age of the log
 * in seconds.
 */
module ChefClient {
  import opened Wrappers
  import opened Text
  import opened Host
  import opened Metrics

  const Subsystem := "chef-client"
  /** The default of the `collector.chef-client.logfile` flag. */
  const DefaultLogFile := "/var/log/chefrun"
  /** A line about a chef-client run contains this. */
  const RunMarker := "chef"
  /** A successful run's line contains this. */
  const SuccessMarker := "status=success"

  /** The line the scan keeps: the last one that contains `RunMarker`, or "" when none does. */
  function LastRunLine(lines: seq<string>): (r: string)
    ensures r == "" || Contains(r, RunMarker)
  {
    LastMatching(lines, RunMarker).GetOr("")
  }

  /** 1 when the kept line reports success, 0 otherwise. */
  function Status(lines: seq<string>): real {
    if Contains(LastRunLine(lines), SuccessMarker) then 1.0 else 0.0
  }

  /**
   * The last line that mentions a chef-client run decides the status: 1 when
   * it also reports success, 0 otherwise.
   */
  lemma StatusOfLastRunLine(lines: seq<string>, i: nat)
    requires i < |lines| && Contains(lines[i], RunMarker)
    requires forall j :: i < j < |lines| ==> !Contains(lines[j], RunMarker)
    ensures Status(lines) == if Contains(lines[i], SuccessMarker) then 1.0 else 0.0
  {
    LastMatchingAt(lines, RunMarker, i);
  }

  /** A log without any chef-client line reads as a failed run, not as an error. */
  lemma NoRunLineIsFailure(lines: seq<string>)
    requires forall i :: 0 <= i < |lines| ==> !Contains(lines[i], RunMarker)
    ensures LastRunLine(lines) == "" && Status(lines) == 0.0
  {
    LastMatchingNone(lines, RunMarker);
    assert !Contains("", SuccessMarker);
  }

  /** The status is 0 or 1, and 1 only when the kept line reports success. */
  lemma StatusIsBinary(lines: seq<string>)
    ensures Status(lines) == 0.0 || Status(lines) == 1.0
    ensures Status(lines) == 1.0 ==> Contains(LastRunLine(lines), RunMarker) && Contains(LastRunLine(lines), SuccessMarker)
  {
    assert !Contains("", SuccessMarker);
  }

  /** A later chef-client line without the success marker overrides an earlier successful one. */
  lemma LaterFailureOverrides(lines: seq<string>, line: string)
    requires Contains(line, RunMarker) && !Contains(line, SuccessMarker)
    ensures Status(lines + [line]) == 0.0
  {
    LastMatchingSnoc(lines, line, RunMarker);
  }

  /**
   * `getClientStatus`: scan the log keeping the last chef-client line, then
   * stat it for its modification time. A failed stat yields `(0, 0, error)`;
   * a failed open alone only leaves nothing to scan.
   */
  method GetClientStatus(fs: FileSystem, logfile: string, now: int)
    returns (lastRunStatus: real, secondsSinceLastRun: real, err: Option<Error>)
    ensures err.Some? <==> !Exists(fs, logfile)
    ensures err.Some? ==> err == Some(StatFailed(logfile)) && lastRunStatus == 0.0 && secondsSinceLastRun == 0.0
    ensures err.None? ==> lastRunStatus == Status(ScannedLines(fs, logfile))
    ensures err.None? ==> secondsSinceLastRun == (now - fs[logfile].modTime) as real
  {
    var lines := ScannedLines(fs, logfile);
    var lastline := "";
    var i := 0;
    while i < |lines|
      invariant 0 <= i <= |lines|
      invariant lastline == LastRunLine(lines[..i])
    {
      LastMatchingSnoc(lines[..i], lines[i], RunMarker);
      assert lines[..i + 1] == lines[..i] + [lines[i]];
      if Contains(lines[i], RunMarker) {
        lastline := lines[i];
      }
      i := i + 1;
    }
    assert lines[..i] == lines;

    if !Exists(fs, logfile) {
      return 0.0, 0.0, Some(StatFailed(logfile));
    }
    var lastRun := now as real - fs[logfile].modTime as real;

    var lastStatus: real;
    if Contains(lastline, SuccessMarker) {
      lastStatus := 1.0;
    } else {
      lastStatus := 0.0;
    }
    return lastStatus, lastRun, None;
  }

  function StatusSample(status: real): Sample {
    Sample(FQName(Subsystem, "last_run_status"), Gauge, status, [])
  }

  function FreshnessSample(seconds: real): Sample {
    Sample(FQName(Subsystem, "last_run"), Gauge, seconds, [])
  }

  /**
   * `chefclientCollector.Update`: nothing is sent when the status cannot be
   * read; otherwise the status gauge and then the freshness gauge.
   */
  method Update(fs: FileSystem, logfile: string, now: int) returns (samples: seq<Sample>, err: Option<Error>)
    ensures err.Some? <==> !Exists(fs, logfile)
    ensures err.Some? ==> samples == []
    ensures err.None? ==> samples == [
      StatusSample(Status(ScannedLines(fs, logfile))),
      FreshnessSample((now - fs[logfile].modTime) as real)]
    ensures err.None? ==> samples[0].value == 0.0 || samples[0].value == 1.0
  {
    samples := [];
    var status, timediff, e := GetClientStatus(fs, logfile, now);
    if e.Some? {
      return samples, e;
    }
    samples := samples + [StatusSample(status)];
    samples := samples + [FreshnessSample(timediff)];
    return samples, None;
  }
}
