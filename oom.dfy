/**
 * The oom collector: finds the kernel's out-of-memory kill messages in the
 * system log, counts them, and decodes each into the time, the killed pid
 * and the killed program.
 */
module Oom {
  import opened Wrappers
  import opened Text
  import opened Host
  import opened Metrics

  const Subsystem := "oom"
  /** A line reporting an out-of-memory kill contains this. */
  const KillPattern := "Killed process"
  /** Labels of the per-kill gauge. */
  const PidLabelNames := ["time", "program"]

  /** The system logs to look in, in order of preference. */
  const KernLog := "/var/log/kern.log"
  const Messages := "/var/log/messages"
  const SyslogCandidates := [KernLog, Messages]

  /**
   * The expected log line layout: the timestamp is the first `TimestampWidth`
   * characters, the pid is field `PidField` and the program, in parentheses,
   * is field `ProgramField` (fields counted from 0).
   */
  const TimestampWidth := 15
  const PidField := 8
  const ProgramField := 9

  /** `oomDetails`: one decoded kill. */
  datatype Detail = Detail(pid: real, timestamp: string, program: string)

  /** A line the decoding can index into; the source indexes out of range on any other matching line. */
  predicate Decodable(line: string) {
    |line| >= TimestampWidth && |Fields(line)| > ProgramField
  }

  /** Every line that contains `pat` is decodable. */
  predicate MatchesDecodable(lines: seq<string>, pat: string) {
    forall i :: 0 <= i < |lines| ==> (Contains(lines[i], pat) ==> Decodable(lines[i]))
  }

  /** The program field without its parentheses. */
  function StripParens(field: string): (r: string)
    ensures '(' !in r && ')' !in r
    ensures |r| <= |field|
  {
    Remove(Remove(field, '('), ')')
  }

  /**
   * The decoded kill: the first characters as the timestamp, the pid field
   * parsed as a float or 0 when it does not parse, and the program field with
   * every parenthesis removed.
   */
  function Decode(line: string, parseFloat: string -> Option<real>): (d: Detail)
    requires Decodable(line)
    ensures |d.timestamp| == TimestampWidth && d.timestamp <= line
    ensures '(' !in d.program && ')' !in d.program
  {
    var fields := Fields(line);
    Detail(parseFloat(fields[PidField]).GetOr(0.0), line[..TimestampWidth], StripParens(fields[ProgramField]))
  }

  lemma {:induction false} RemoveAppend(a: string, b: string, c: char)
    ensures Remove(a + b, c) == Remove(a, c) + Remove(b, c)
  {
    if a != [] {
      assert (a + b)[1..] == a[1..] + b;
      RemoveAppend(a[1..], b, c);
    } else {
      assert a + b == b;
    }
  }

  /** A program name written in parentheses comes out without them. */
  lemma StripParensOfParenthesized(p: string)
    requires '(' !in p && ')' !in p
    ensures StripParens("(" + p + ")") == p
  {
    RemoveAppend("(" + p, ")", '(');
    RemoveAppend("(", p, '(');
    RemoveAppend(p, ")", ')');
  }

  /**
   * A kill message in the usual layout decodes to its parts: for a line made
   * of fields separated by runs of white space whose program field is a name
   * in parentheses, the detail holds the pid field parsed (0 when it does not
   * parse), that name and the line's first characters.
   */
  lemma DecodeKillLine(fs: seq<string>, gaps: seq<string>, name: string, parseFloat: string -> Option<real>)
    requires GapsFit(fs, gaps)
    requires |fs| > ProgramField && |Join(fs, gaps)| >= TimestampWidth
    requires fs[ProgramField] == "(" + name + ")" && '(' !in name && ')' !in name
    ensures Decodable(Join(fs, gaps))
    ensures Decode(Join(fs, gaps), parseFloat).program == name
    ensures Decode(Join(fs, gaps), parseFloat).pid == parseFloat(fs[PidField]).GetOr(0.0)
    ensures Decode(Join(fs, gaps), parseFloat).timestamp == Join(fs, gaps)[..TimestampWidth]
  {
    FieldsOfJoin(fs, gaps);
    StripParensOfParenthesized(name);
  }

  /** The lines that contain `pat`, in file order. */
  function Matches(lines: seq<string>, pat: string): (r: seq<string>)
    ensures |r| <= |lines|
    ensures forall k :: 0 <= k < |r| ==> Contains(r[k], pat)
  {
    if lines == [] then []
    else
      var n := |lines| - 1;
      Matches(lines[..n], pat) + if Contains(lines[n], pat) then [lines[n]] else []
  }

  /** The positions of the lines that contain `pat`, in file order. */
  function MatchIndices(lines: seq<string>, pat: string): (r: seq<nat>)
    ensures forall k :: 0 <= k < |r| ==> r[k] < |lines|
  {
    if lines == [] then []
    else
      var n := |lines| - 1;
      MatchIndices(lines[..n], pat) + if Contains(lines[n], pat) then [n] else []
  }

  /** The k-th match is the line at the k-th matching position. */
  lemma {:induction false} MatchesAt(lines: seq<string>, pat: string)
    ensures |Matches(lines, pat)| == |MatchIndices(lines, pat)|
    ensures forall k :: 0 <= k < |MatchIndices(lines, pat)| ==>
      Matches(lines, pat)[k] == lines[MatchIndices(lines, pat)[k]]
  {
    if lines != [] {
      var n := |lines| - 1;
      var init := lines[..n];
      MatchesAt(init, pat);
      var idx0, idx := MatchIndices(init, pat), MatchIndices(lines, pat);
      var ms0, ms := Matches(init, pat), Matches(lines, pat);
      assert idx == idx0 + if Contains(lines[n], pat) then [n] else [];
      assert ms == ms0 + if Contains(lines[n], pat) then [lines[n]] else [];
      forall k | 0 <= k < |idx| ensures ms[k] == lines[idx[k]] {
        if k < |idx0| {
          assert ms[k] == ms0[k] && idx[k] == idx0[k];
          assert init[idx0[k]] == lines[idx0[k]];
        }
      }
    }
  }

  /** The matching positions increase, so no line is counted twice and file order is kept. */
  lemma {:induction false} MatchIndicesIncrease(lines: seq<string>, pat: string)
    ensures Increasing(MatchIndices(lines, pat))
  {
    if lines != [] {
      var n := |lines| - 1;
      MatchIndicesIncrease(lines[..n], pat);
      var idx0, idx := MatchIndices(lines[..n], pat), MatchIndices(lines, pat);
      assert idx == idx0 + if Contains(lines[n], pat) then [n] else [];
      forall k, l | 0 <= k < l < |idx| ensures idx[k] < idx[l] {
        assert idx[k] == idx0[k];
        if l < |idx0| {
          assert idx[l] == idx0[l];
        } else {
          assert idx[l] == n;
        }
      }
    }
  }

  /** A line's position is among the matching positions exactly when it contains the pattern. */
  lemma {:induction false} MatchIndicesComplete(lines: seq<string>, pat: string)
    ensures forall i :: 0 <= i < |lines| ==> (i in MatchIndices(lines, pat) <==> Contains(lines[i], pat))
  {
    if lines != [] {
      var n := |lines| - 1;
      var init := lines[..n];
      MatchIndicesComplete(init, pat);
      var idx0, idx := MatchIndices(init, pat), MatchIndices(lines, pat);
      assert idx == idx0 + if Contains(lines[n], pat) then [n] else [];
      assert n !in idx0;
      forall i | 0 <= i < |lines| ensures i in idx <==> Contains(lines[i], pat) {
        if i < n {
          assert init[i] == lines[i];
          assert i in idx <==> i in idx0;
        }
      }
    }
  }

  /** Matching a file in two parts gives the matches of the first part, then those of the second. */
  lemma {:induction false} MatchesAppend(a: seq<string>, b: seq<string>, pat: string)
    ensures Matches(a + b, pat) == Matches(a, pat) + Matches(b, pat)
  {
    if b == [] {
      assert a + b == a;
    } else {
      var n := |b| - 1;
      MatchesAppend(a, b[..n], pat);
      assert (a + b)[..|a + b| - 1] == a + b[..n];
      assert (a + b)[|a + b| - 1] == b[n];
    }
  }

  /** A single line matches when it contains the pattern. */
  lemma MatchesSingleton(line: string, pat: string)
    ensures Matches([line], pat) == if Contains(line, pat) then [line] else []
  {
    assert [line][..0] == [];
  }

  /** A line without the pattern changes nothing wherever it stands. */
  lemma NonMatchingIgnored(a: seq<string>, line: string, b: seq<string>, pat: string)
    requires !Contains(line, pat)
    ensures Matches(a + [line] + b, pat) == Matches(a + b, pat)
  {
    MatchesAppend(a, [line], pat);
    MatchesAppend(a + [line], b, pat);
    MatchesAppend(a, b, pat);
    assert Matches([line], pat) == [];
  }

  /** The number of matches does not depend on the order of the lines. */
  lemma {:induction false} MatchCountPermutation(a: seq<string>, b: seq<string>, pat: string)
    requires multiset(a) == multiset(b)
    ensures |Matches(a, pat)| == |Matches(b, pat)|
    decreases |a|
  {
    if a == [] {
      assert |b| == |multiset(b)| == 0;
    } else {
      var n := |a| - 1;
      var x := a[n];
      assert x in multiset(a);
      var j :| 0 <= j < |b| && b[j] == x;
      var rest := Without(b, j);
      WithoutLast(a, b, j);
      MatchCountPermutation(a[..n], rest, pat);
      MatchesWithout(b, j, pat);
      MatchesSingleton(x, pat);
    }
  }

  /** `s` with the element at `j` taken out. */
  function Without(s: seq<string>, j: nat): (r: seq<string>)
    requires j < |s|
    ensures |r| == |s| - 1
  {
    s[..j] + s[j + 1..]
  }

  /** Taking out the element at `j` takes one copy of it out of the multiset. */
  lemma MultisetWithout(s: seq<string>, j: nat)
    requires j < |s|
    ensures multiset(Without(s, j)) == multiset(s) - multiset{s[j]}
  {
    assert s == s[..j] + [s[j]] + s[j + 1..];
  }

  /** Taking the last element of `a` out of `a`, and the same value out of `b`, keeps the same multiset. */
  lemma WithoutLast(a: seq<string>, b: seq<string>, j: nat)
    requires multiset(a) == multiset(b) && a != []
    requires j < |b| && b[j] == a[|a| - 1]
    ensures multiset(a[..|a| - 1]) == multiset(Without(b, j))
  {
    MultisetWithout(a, |a| - 1);
    assert Without(a, |a| - 1) == a[..|a| - 1];
    MultisetWithout(b, j);
  }

  /** The element at `j` adds its own match, if any, to the matches of the others. */
  lemma MatchesWithout(s: seq<string>, j: nat, pat: string)
    requires j < |s|
    ensures |Matches(s, pat)| == |Matches(Without(s, j), pat)| + |Matches([s[j]], pat)|
  {
    MatchesAppend(s[..j] + [s[j]], s[j + 1..], pat);
    MatchesAppend(s[..j], [s[j]], pat);
    MatchesAppend(s[..j], s[j + 1..], pat);
    assert s == s[..j] + [s[j]] + s[j + 1..];
  }

  /** Every prefix of a log whose matching lines are decodable is one too. */
  lemma MatchesDecodablePrefix(lines: seq<string>, n: nat, pat: string)
    requires MatchesDecodable(lines, pat) && n <= |lines|
    ensures MatchesDecodable(lines[..n], pat)
  {
    forall i | 0 <= i < n ensures lines[..n][i] == lines[i] { }
  }

  /** The decoded kills of a log: one per line that contains `pat`, in file order. */
  function Details(lines: seq<string>, pat: string, parseFloat: string -> Option<real>): seq<Detail>
    requires MatchesDecodable(lines, pat)
  {
    if lines == [] then []
    else
      var n := |lines| - 1;
      MatchesDecodablePrefix(lines, n, pat);
      Details(lines[..n], pat, parseFloat) + if Contains(lines[n], pat) then [Decode(lines[n], parseFloat)] else []
  }

  /** There are as many details as matching lines. */
  lemma {:induction false} DetailsCount(lines: seq<string>, pat: string, parseFloat: string -> Option<real>)
    requires MatchesDecodable(lines, pat)
    ensures |Details(lines, pat, parseFloat)| == |MatchIndices(lines, pat)|
  {
    if lines != [] {
      var n := |lines| - 1;
      MatchesDecodablePrefix(lines, n, pat);
      DetailsCount(lines[..n], pat, parseFloat);
    }
  }

  /** The k-th detail decodes the line at the k-th matching position. */
  lemma DetailsSpec(lines: seq<string>, pat: string, parseFloat: string -> Option<real>)
    requires MatchesDecodable(lines, pat)
    ensures |Details(lines, pat, parseFloat)| == |MatchIndices(lines, pat)|
    ensures forall k :: 0 <= k < |MatchIndices(lines, pat)| ==>
      Decodable(lines[MatchIndices(lines, pat)[k]]) &&
      Details(lines, pat, parseFloat)[k] == Decode(lines[MatchIndices(lines, pat)[k]], parseFloat)
  {
    DetailsOfMatches(lines, pat, parseFloat);
    MatchesAt(lines, pat);
  }

  /** The decoded kills of decodable lines, one each and in order. */
  function DecodeAll(ms: seq<string>, parseFloat: string -> Option<real>): (r: seq<Detail>)
    requires forall k :: 0 <= k < |ms| ==> Decodable(ms[k])
    ensures |r| == |ms|
    ensures forall k :: 0 <= k < |ms| ==> r[k] == Decode(ms[k], parseFloat)
  {
    seq(|ms|, k requires 0 <= k < |ms| => Decode(ms[k], parseFloat))
  }

  lemma DecodeAllAppend(ms: seq<string>, extra: seq<string>, parseFloat: string -> Option<real>)
    requires forall k :: 0 <= k < |ms| ==> Decodable(ms[k])
    requires forall k :: 0 <= k < |extra| ==> Decodable(extra[k])
    ensures forall k :: 0 <= k < |ms + extra| ==> Decodable((ms + extra)[k])
    ensures DecodeAll(ms + extra, parseFloat) == DecodeAll(ms, parseFloat) + DecodeAll(extra, parseFloat)
  {
    forall k | 0 <= k < |ms + extra| ensures Decodable((ms + extra)[k]) {
      if k >= |ms| {
        assert (ms + extra)[k] == extra[k - |ms|];
      }
    }
  }

  /** The details of a log are the matching lines, decoded. */
  lemma {:induction false} DetailsOfMatches(lines: seq<string>, pat: string, parseFloat: string -> Option<real>)
    requires MatchesDecodable(lines, pat)
    ensures forall k :: 0 <= k < |Matches(lines, pat)| ==> Decodable(Matches(lines, pat)[k])
    ensures Details(lines, pat, parseFloat) == DecodeAll(Matches(lines, pat), parseFloat)
  {
    if lines != [] {
      var n := |lines| - 1;
      MatchesDecodablePrefix(lines, n, pat);
      DetailsOfMatches(lines[..n], pat, parseFloat);
      var last := if Contains(lines[n], pat) then [lines[n]] else [];
      assert Matches(lines, pat) == Matches(lines[..n], pat) + last;
      DecodeAllAppend(Matches(lines[..n], pat), last, parseFloat);
      assert DecodeAll(last, parseFloat) == if Contains(lines[n], pat) then [Decode(lines[n], parseFloat)] else [];
    }
  }

  /** `a + b` is `a + [line] + b` without `line`, so its matching lines are decodable too. */
  lemma MatchesDecodableWithout(a: seq<string>, line: string, b: seq<string>, pat: string)
    requires MatchesDecodable(a + [line] + b, pat)
    ensures MatchesDecodable(a + b, pat)
  {
    var s := a + [line] + b;
    forall i | 0 <= i < |a + b| ensures (a + b)[i] == s[if i < |a| then i else i + 1] { }
  }

  /** A line without the pattern adds no kill, wherever it stands. */
  lemma DetailsNonMatchingIgnored(a: seq<string>, line: string, b: seq<string>, pat: string,
                                  parseFloat: string -> Option<real>)
    requires !Contains(line, pat) && MatchesDecodable(a + [line] + b, pat)
    ensures MatchesDecodable(a + b, pat)
    ensures Details(a + [line] + b, pat, parseFloat) == Details(a + b, pat, parseFloat)
  {
    MatchesDecodableWithout(a, line, b, pat);
    DetailsOfMatches(a + [line] + b, pat, parseFloat);
    DetailsOfMatches(a + b, pat, parseFloat);
    NonMatchingIgnored(a, line, b, pat);
  }

  /** The number of kills reported does not depend on the order of the lines. */
  lemma DetailsCountPermutation(a: seq<string>, b: seq<string>, pat: string, parseFloat: string -> Option<real>)
    requires multiset(a) == multiset(b) && MatchesDecodable(a, pat)
    ensures MatchesDecodable(b, pat)
    ensures |Details(a, pat, parseFloat)| == |Details(b, pat, parseFloat)|
  {
    forall i | 0 <= i < |b| && Contains(b[i], pat) ensures Decodable(b[i]) {
      assert b[i] in multiset(a);
      var j :| 0 <= j < |a| && a[j] == b[i];
    }
    DetailsOfMatches(a, pat, parseFloat);
    DetailsOfMatches(b, pat, parseFloat);
    MatchCountPermutation(a, b, pat);
  }

  /** Reading one more line adds its decoded kill exactly when it contains `pat`. */
  lemma DetailsStep(lines: seq<string>, i: nat, pat: string, parseFloat: string -> Option<real>)
    requires MatchesDecodable(lines, pat) && i < |lines|
    ensures MatchesDecodable(lines[..i], pat) && MatchesDecodable(lines[..i + 1], pat)
    ensures Contains(lines[i], pat) ==> Decodable(lines[i])
    ensures Details(lines[..i + 1], pat, parseFloat) == Details(lines[..i], pat, parseFloat) +
      if Contains(lines[i], pat) then [Decode(lines[i], parseFloat)] else []
  {
    MatchesDecodablePrefix(lines, i, pat);
    MatchesDecodablePrefix(lines, i + 1, pat);
    assert lines[..i + 1][..i] == lines[..i];
    assert lines[..i + 1][i] == lines[i];
  }

  /**
   * `grepFile`: a file that cannot be opened gives 0, no details and the
   * error; otherwise every line that contains `pat` is counted and decoded.
   */
  method GrepFile(fs: FileSystem, file: string, pat: string, parseFloat: string -> Option<real>)
    returns (count: real, details: seq<Detail>, err: Option<Error>)
    requires Open(fs, file).Some? ==> MatchesDecodable(Open(fs, file).value, pat)
    ensures err.Some? <==> Open(fs, file).None?
    ensures err.Some? ==> err == Some(OpenFailed(file)) && count == 0.0 && details == []
    ensures err.None? ==> details == Details(Open(fs, file).value, pat, parseFloat)
    ensures count == |details| as real
  {
    var patCount := 0.0;
    var f := Open(fs, file);
    if f.None? {
      return patCount, [], Some(OpenFailed(file));
    }
    var lines := f.value;
    details := [];
    for i := 0 to |lines|
      invariant MatchesDecodable(lines[..i], pat)
      invariant details == Details(lines[..i], pat, parseFloat)
      invariant patCount == |details| as real
    {
      var logLine := lines[i];
      DetailsStep(lines, i, pat, parseFloat);
      if Contains(logLine, pat) {
        patCount := patCount + 1.0;
        var logFields := Fields(logLine);
        var timestamp := logLine[..TimestampWidth];
        var pid := parseFloat(logFields[PidField]).GetOr(0.0);
        var program := Remove(Remove(logFields[ProgramField], '('), ')');
        assert Detail(pid, timestamp, program) == Decode(logLine, parseFloat);
        details := details + [Detail(pid, timestamp, program)];
      }
    }
    assert lines[..|lines|] == lines;
    return patCount, details, None;
  }

  /** The first of `paths` that exists, or "" when none does. */
  function FirstExisting(fs: FileSystem, paths: seq<string>): string {
    if paths == [] then ""
    else if Exists(fs, paths[0]) then paths[0]
    else FirstExisting(fs, paths[1..])
  }

  /**
   * `FirstExisting` is "" exactly when no path exists, and otherwise a path
   * that exists with no existing path before it.
   */
  lemma {:induction false} FirstExistingSpec(fs: FileSystem, paths: seq<string>)
    ensures FirstExisting(fs, paths) == "" <==> forall i :: 0 <= i < |paths| ==> !Exists(fs, paths[i])
    ensures FirstExisting(fs, paths) != "" ==>
      exists i :: 0 <= i < |paths| && paths[i] == FirstExisting(fs, paths) && Exists(fs, paths[i]) &&
        forall j :: 0 <= j < i ==> !Exists(fs, paths[j])
  {
    if paths != [] && !Exists(fs, paths[0]) {
      FirstExistingSpec(fs, paths[1..]);
      if FirstExisting(fs, paths) != "" {
        var i :| 0 <= i < |paths[1..]| && paths[1..][i] == FirstExisting(fs, paths[1..]) &&
          Exists(fs, paths[1..][i]) && forall j :: 0 <= j < i ==> !Exists(fs, paths[1..][j]);
        assert paths[i + 1] == paths[1..][i];
        assert forall j :: 1 <= j < i + 1 ==> paths[j] == paths[1..][j - 1];
      }
    } else if paths != [] {
      assert paths[0] != "";
    }
  }

  /** `getSyslogFile`: the first candidate log that exists, or "" when none does. */
  method GetSyslogFile(fs: FileSystem) returns (logfile: string)
    ensures logfile == FirstExisting(fs, SyslogCandidates)
    ensures logfile == if Exists(fs, KernLog) then KernLog else if Exists(fs, Messages) then Messages else ""
  {
    var syslogfile := SyslogCandidates;
    for i := 0 to |syslogfile|
      invariant FirstExisting(fs, syslogfile) == FirstExisting(fs, syslogfile[i..])
    {
      var file := syslogfile[i];
      if Exists(fs, file) {
        return file;
      }
      assert syslogfile[i..][1..] == syslogfile[i + 1..];
    }
    return "";
  }

  function CountSample(count: real): Sample {
    Sample(FQName(Subsystem, "count"), Gauge, count, [])
  }

  function PidSample(d: Detail): Sample {
    Sample(FQName(Subsystem, "pid"), Gauge, d.pid, Labels(PidLabelNames, [Str(d.timestamp), Str(d.program)]))
  }

  /**
   * `oomCollector.Update`: grep the chosen system log for kill messages. When
   * it cannot be opened nothing is sent; otherwise the count comes first,
   * then one pid gauge per kill in file order.
   */
  method Update(fs: FileSystem, parseFloat: string -> Option<real>) returns (samples: seq<Sample>, err: Option<Error>)
    requires var log := FirstExisting(fs, SyslogCandidates);
      Open(fs, log).Some? ==> MatchesDecodable(Open(fs, log).value, KillPattern)
    ensures var log := FirstExisting(fs, SyslogCandidates);
      && (err.Some? <==> Open(fs, log).None?)
      && (err.Some? ==> samples == [])
      && (err.None? ==>
            var details := Details(Open(fs, log).value, KillPattern, parseFloat);
            && |samples| == |details| + 1
            && samples[0] == CountSample(|details| as real)
            && forall k :: 0 <= k < |details| ==> samples[k + 1] == PidSample(details[k]))
  {
    var log := GetSyslogFile(fs);
    var oomCount, details, e := GrepFile(fs, log, KillPattern, parseFloat);
    if e.Some? {
      return [], e;
    }
    samples := [CountSample(oomCount)];
    for i := 0 to |details|
      invariant |samples| == i + 1
      invariant samples[0] == CountSample(oomCount)
      invariant forall k :: 0 <= k < i ==> samples[k + 1] == PidSample(details[k])
    {
      samples := samples + [PidSample(details[i])];
    }
    return samples, None;
  }
}
