/**
 * Text helpers shared by the collectors: Go's `strings.Fields`,
 * `bytes.Contains`/`strings.Contains`, `strings.Replace(s, c, "", -1)` for a
 * one-character `c`, and the "last line that contains a pattern" scan that
 * every collector performs with a `bufio.Scanner`.
 */
module Text {
  import opened Wrappers

  /** White space as Go's `unicode.IsSpace` defines it. */
  predicate IsSpace(c: char) {
    || c == ' ' || c == '\t' || c == '\n' || c == '\U{000B}' || c == '\U{000C}' || c == '\r'
    || c == '\U{0085}' || c == '\U{00A0}' || c == '\U{1680}'
    || ('\U{2000}' <= c <= '\U{200A}')
    || c == '\U{2028}' || c == '\U{2029}' || c == '\U{202F}' || c == '\U{205F}' || c == '\U{3000}'
  }

  /** A run of white space, possibly empty. */
  predicate IsBlank(s: string) {
    forall i :: 0 <= i < |s| ==> IsSpace(s[i])
  }

  /** A field of `strings.Fields`: a non-empty run of non-space characters. */
  predicate IsField(w: string) {
    w != [] && forall i :: 0 <= i < |w| ==> !IsSpace(w[i])
  }

  /** `s` without its leading white space. */
  function TrimLeft(s: string): (r: string)
    ensures |r| <= |s| && r == s[|s| - |r|..]
    ensures r == [] || !IsSpace(r[0])
  {
    if s != [] && IsSpace(s[0]) then TrimLeft(s[1..]) else s
  }

  /** The longest prefix of `s` that holds no white space. */
  function Word(s: string): (r: string)
    ensures |r| <= |s| && r == s[..|r|]
    ensures forall i :: 0 <= i < |r| ==> !IsSpace(r[i])
    ensures |r| < |s| ==> IsSpace(s[|r|])
  {
    if s == [] || IsSpace(s[0]) then [] else [s[0]] + Word(s[1..])
  }

  /** Go's `strings.Fields`: `s` split around each run of white space. */
  function Fields(s: string): (r: seq<string>)
    ensures forall i :: 0 <= i < |r| ==> IsField(r[i])
    decreases |s|
  {
    var t := TrimLeft(s);
    if t == [] then []
    else
      var w := Word(t);
      [w] + Fields(t[|w|..])
  }

  /**
   * Fields laid out with gaps of white space: one gap more than there are
   * fields, every gap blank, and the gaps between two fields not empty (the
   * first and the last may be).
   */
  predicate GapsFit(fs: seq<string>, gaps: seq<string>) {
    && |gaps| == |fs| + 1
    && (forall i :: 0 <= i < |fs| ==> IsField(fs[i]))
    && (forall i :: 0 <= i < |gaps| ==> IsBlank(gaps[i]))
    && (forall i :: 0 < i < |fs| ==> gaps[i] != [])
  }

  /** The line `gaps[0] + fs[0] + gaps[1] + ... + fs[n-1] + gaps[n]`. */
  function Join(fs: seq<string>, gaps: seq<string>): string
    requires |gaps| == |fs| + 1
  {
    if fs == [] then gaps[0] else gaps[0] + (fs[0] + Join(fs[1..], gaps[1..]))
  }

  lemma {:induction false} WordOfField(w: string, rest: string)
    requires IsField(w)
    requires rest == [] || IsSpace(rest[0])
    ensures Word(w + rest) == w
  {
    if |w| > 1 {
      assert (w + rest)[1..] == w[1..] + rest;
      WordOfField(w[1..], rest);
    } else {
      assert (w + rest)[1..] == rest;
    }
  }

  /** A field followed by white space or the end of the line is the first field. */
  lemma FieldsOfFieldThen(w: string, rest: string)
    requires IsField(w)
    requires rest == [] || IsSpace(rest[0])
    ensures Fields(w + rest) == [w] + Fields(rest)
  {
    var s := w + rest;
    assert TrimLeft(s) == s;
    WordOfField(w, rest);
    assert s[|w|..] == rest;
  }

  /** What `TrimLeft` skips is white space. */
  lemma {:induction false} TrimLeftSkipsBlank(s: string)
    ensures IsBlank(s[..|s| - |TrimLeft(s)|])
  {
    if s != [] && IsSpace(s[0]) {
      TrimLeftSkipsBlank(s[1..]);
      var k := |s| - |TrimLeft(s)|;
      assert forall i :: 1 <= i < k ==> s[..k][i] == s[1..][..k - 1][i - 1];
    }
  }

  /** Leading white space does not change what `TrimLeft` leaves. */
  lemma {:induction false} TrimLeftBlank(ws: string, u: string)
    requires IsBlank(ws)
    ensures TrimLeft(ws + u) == TrimLeft(u)
  {
    if ws != [] {
      assert (ws + u)[1..] == ws[1..] + u;
      TrimLeftBlank(ws[1..], u);
    } else {
      assert ws + u == u;
    }
  }

  /** Leading white space does not change the fields. */
  lemma FieldsBlankThen(ws: string, u: string)
    requires IsBlank(ws)
    ensures Fields(ws + u) == Fields(u)
  {
    TrimLeftBlank(ws, u);
  }

  lemma GapsFitTail(fs: seq<string>, gaps: seq<string>)
    requires GapsFit(fs, gaps) && fs != []
    ensures GapsFit(fs[1..], gaps[1..])
  {
    var fs', gaps' := fs[1..], gaps[1..];
    assert forall i :: 0 <= i < |fs'| ==> fs'[i] == fs[i + 1];
    assert forall i :: 0 <= i < |gaps'| ==> gaps'[i] == gaps[i + 1];
  }

  /** A joined line starts with its first gap when that gap is not empty. */
  lemma JoinStartsWithGap(fs: seq<string>, gaps: seq<string>)
    requires |gaps| == |fs| + 1 && gaps[0] != []
    ensures Join(fs, gaps) != [] && Join(fs, gaps)[0] == gaps[0][0]
  {
  }

  /** What follows the first field of a fitting layout is empty or starts with white space. */
  lemma AfterFirstField(fs: seq<string>, gaps: seq<string>)
    requires GapsFit(fs, gaps) && fs != []
    ensures var rest := Join(fs[1..], gaps[1..]);
      rest == [] || IsSpace(rest[0])
  {
    var gaps' := gaps[1..];
    assert gaps'[0] == gaps[1] && IsBlank(gaps[1]);
    if |fs| > 1 {
      assert gaps[1] != [];
      JoinStartsWithGap(fs[1..], gaps');
    } else {
      assert fs[1..] == [];
    }
  }

  /**
   * A line laid out as fields separated by runs of white space, with or
   * without white space before the first and after the last, splits into
   * exactly those fields.
   */
  lemma {:induction false} FieldsOfJoin(fs: seq<string>, gaps: seq<string>)
    requires GapsFit(fs, gaps)
    ensures Fields(Join(fs, gaps)) == fs
  {
    if fs == [] {
      FieldsBlankThen(gaps[0], "");
      assert gaps[0] + "" == gaps[0];
    } else {
      GapsFitTail(fs, gaps);
      AfterFirstField(fs, gaps);
      var rest := Join(fs[1..], gaps[1..]);
      assert IsField(fs[0]) && IsBlank(gaps[0]);
      assert Join(fs, gaps) == gaps[0] + (fs[0] + rest);
      FieldsBlankThen(gaps[0], fs[0] + rest);
      FieldsOfFieldThen(fs[0], rest);
      FieldsOfJoin(fs[1..], gaps[1..]);
      HeadTail(fs);
    }
  }

  lemma HeadTail<T>(s: seq<T>)
    requires s != []
    ensures [s[0]] + s[1..] == s
  {
  }

  lemma GapsFitCons(w: string, ws: string, fs: seq<string>, gaps: seq<string>)
    requires IsField(w) && IsBlank(ws) && GapsFit(fs, gaps)
    requires fs != [] ==> gaps[0] != []
    ensures GapsFit([w] + fs, [ws] + gaps)
  {
    var fs', gaps' := [w] + fs, [ws] + gaps;
    assert forall i :: 0 < i < |fs'| ==> fs'[i] == fs[i - 1];
    assert forall i :: 0 < i < |gaps'| ==> gaps'[i] == gaps[i - 1];
  }

  lemma JoinCons(w: string, ws: string, fs: seq<string>, gaps: seq<string>)
    requires |gaps| == |fs| + 1
    ensures Join([w] + fs, [ws] + gaps) == ws + (w + Join(fs, gaps))
  {
    assert ([w] + fs)[1..] == fs;
    assert ([ws] + gaps)[1..] == gaps;
  }

  /** The first field is the word after the leading white space. */
  lemma FirstField(s: string)
    requires TrimLeft(s) != []
    ensures IsField(Word(TrimLeft(s)))
    ensures var t := TrimLeft(s);
      t[|Word(t)|..] == [] || IsSpace(t[|Word(t)|..][0])
  {
  }

  lemma SplitAt<T>(s: seq<T>, k: nat)
    requires k <= |s|
    ensures s == s[..k] + s[k..]
  {
  }

  /** A line that holds a field is its leading white space, its first field, and the rest. */
  lemma SplitFirstField(s: string)
    requires TrimLeft(s) != []
    ensures var t := TrimLeft(s);
      s == s[..|s| - |t|] + (Word(t) + t[|Word(t)|..])
  {
    var t := TrimLeft(s);
    SplitAt(t, |Word(t)|);
    SplitAt(s, |s| - |t|);
  }

  /** A line that holds a field: its fields are the first one followed by those of the rest. */
  lemma FieldsUnfold(s: string)
    requires TrimLeft(s) != []
    ensures var t := TrimLeft(s);
      Fields(s) == [Word(t)] + Fields(t[|Word(t)|..])
  {
  }

  /** A joined line whose first gap is empty starts with its first field. */
  lemma JoinStartsWithField(fs: seq<string>, gaps: seq<string>)
    requires GapsFit(fs, gaps) && fs != [] && gaps[0] == []
    ensures Join(fs, gaps) != [] && !IsSpace(Join(fs, gaps)[0])
  {
    assert IsField(fs[0]);
    assert Join(fs, gaps) == fs[0] + Join(fs[1..], gaps[1..]);
  }

  /** `s` is the fields `fs` joined by the white space `gaps`. */
  predicate SplitsInto(s: string, fs: seq<string>, gaps: seq<string>) {
    GapsFit(fs, gaps) && Join(fs, gaps) == s
  }

  lemma SplitsWitness(s: string, fs: seq<string>, gaps: seq<string>)
    requires SplitsInto(s, fs, gaps)
    ensures exists g :: SplitsInto(s, fs, g)
  {
  }

  /** A line of white space only is no fields and one gap. */
  lemma SplitsBlank(s: string)
    requires TrimLeft(s) == []
    ensures SplitsInto(s, Fields(s), [s])
  {
    TrimLeftSkipsBlank(s);
    assert s[..|s|] == s;
  }

  /** A split of what follows the first field extends to a split of the whole line. */
  lemma SplitsStep(s: string, gu: seq<string>)
    requires TrimLeft(s) != []
    requires var t := TrimLeft(s); var u := t[|Word(t)|..];
      SplitsInto(u, Fields(u), gu)
    ensures var t := TrimLeft(s);
      SplitsInto(s, Fields(s), [s[..|s| - |t|]] + gu)
  {
    var t := TrimLeft(s);
    var ws, w := s[..|s| - |t|], Word(t);
    var u := t[|w|..];
    TrimLeftSkipsBlank(s);
    FirstField(s);
    FieldsUnfold(s);
    SplitFirstField(s);
    if Fields(u) != [] && gu[0] == [] {
      JoinStartsWithField(Fields(u), gu);
      assert false;
    }
    GapsFitCons(w, ws, Fields(u), gu);
    JoinCons(w, ws, Fields(u), gu);
  }

  /**
   * Every line is its fields joined by gaps of white space: the fields are
   * the maximal runs of non-space characters, in order.
   */
  lemma {:induction false} FieldsGaps(s: string)
    ensures exists gaps :: SplitsInto(s, Fields(s), gaps)
    decreases |s|
  {
    var t := TrimLeft(s);
    if t == [] {
      SplitsBlank(s);
      SplitsWitness(s, Fields(s), [s]);
    } else {
      var u := t[|Word(t)|..];
      FieldsGaps(u);
      var gu :| SplitsInto(u, Fields(u), gu);
      SplitsStep(s, gu);
      SplitsWitness(s, Fields(s), [s[..|s| - |t|]] + gu);
    }
  }

  /** Strictly increasing positions: no position twice, and in order. */
  predicate Increasing(s: seq<nat>) {
    forall k, l :: 0 <= k < l < |s| ==> s[k] < s[l]
  }

  predicate OccursAt(s: string, pat: string, i: nat) {
    i + |pat| <= |s| && s[i..i + |pat|] == pat
  }

  /** `bytes.Contains(s, pat)`: `pat` occurs somewhere in `s`. */
  predicate Contains(s: string, pat: string) {
    pat <= s || (s != [] && Contains(s[1..], pat))
  }

  /** `Contains` agrees with the occurrence-at-an-index reading, both ways. */
  lemma {:induction false} ContainsIffOccurs(s: string, pat: string)
    ensures Contains(s, pat) <==> exists i: nat :: OccursAt(s, pat, i)
  {
    if Contains(s, pat) {
      ContainsOccurs(s, pat);
    }
    forall i: nat | OccursAt(s, pat, i) ensures Contains(s, pat) {
      OccursContains(s, pat, i);
    }
  }

  lemma {:induction false} ContainsOccurs(s: string, pat: string)
    requires Contains(s, pat)
    ensures exists i: nat :: OccursAt(s, pat, i)
  {
    if pat <= s {
      assert OccursAt(s, pat, 0);
    } else {
      ContainsOccurs(s[1..], pat);
      var i: nat :| OccursAt(s[1..], pat, i);
      assert s[i + 1..i + 1 + |pat|] == s[1..][i..i + |pat|];
      assert OccursAt(s, pat, i + 1);
    }
  }

  lemma {:induction false} OccursContains(s: string, pat: string, i: nat)
    requires OccursAt(s, pat, i)
    ensures Contains(s, pat)
  {
    if i == 0 {
      assert pat <= s;
    } else {
      assert s[1..][i - 1..i - 1 + |pat|] == s[i..i + |pat|];
      OccursContains(s[1..], pat, i - 1);
    }
  }

  /** `s` with every occurrence of `c` removed: `strings.Replace(s, c, "", -1)`. */
  function Remove(s: string, c: char): (r: string)
    ensures forall i :: 0 <= i < |r| ==> r[i] != c && r[i] in s
    ensures |r| <= |s|
    ensures c !in s ==> r == s
  {
    if s == [] then []
    else if s[0] == c then Remove(s[1..], c)
    else [s[0]] + Remove(s[1..], c)
  }

  /** The last of `lines` that contains `pat`, if any: the line a forward scan that overwrites its variable keeps. */
  function LastMatching(lines: seq<string>, pat: string): (r: Option<string>)
    ensures r.Some? ==> r.value in lines && Contains(r.value, pat)
  {
    if lines == [] then None
    else if Contains(lines[|lines| - 1], pat) then Some(lines[|lines| - 1])
    else LastMatching(lines[..|lines| - 1], pat)
  }

  /** `LastMatching` yields nothing exactly when no line matches. */
  lemma {:induction false} LastMatchingNone(lines: seq<string>, pat: string)
    ensures LastMatching(lines, pat).None? <==> forall i :: 0 <= i < |lines| ==> !Contains(lines[i], pat)
  {
    if lines != [] {
      var n := |lines| - 1;
      if !Contains(lines[n], pat) {
        LastMatchingNone(lines[..n], pat);
        assert forall i :: 0 <= i < n ==> lines[..n][i] == lines[i];
      }
    }
  }

  /** A matching line with no match after it is the one `LastMatching` yields. */
  lemma {:induction false} LastMatchingAt(lines: seq<string>, pat: string, i: nat)
    requires i < |lines| && Contains(lines[i], pat)
    requires forall j :: i < j < |lines| ==> !Contains(lines[j], pat)
    ensures LastMatching(lines, pat) == Some(lines[i])
  {
    var n := |lines| - 1;
    if i < n {
      assert !Contains(lines[n], pat);
      forall j | i < j < n ensures !Contains(lines[..n][j], pat) {
        assert lines[..n][j] == lines[j];
      }
      assert lines[..n][i] == lines[i];
      LastMatchingAt(lines[..n], pat, i);
    }
  }

  /** One more line moves the last match to it when it matches and leaves the last match alone otherwise. */
  lemma LastMatchingSnoc(lines: seq<string>, line: string, pat: string)
    ensures LastMatching(lines + [line], pat) ==
      if Contains(line, pat) then Some(line) else LastMatching(lines, pat)
  {
    assert (lines + [line])[..|lines|] == lines;
  }
}
