/** The pattern `[가-힣]+` found by `re.findall`: the maximal runs of
    characters from the Hangul Syllables block, U+AC00 to U+D7A3. */
module Hangul {

  predicate IsHangul(c: char)
  {
    '\U{AC00}' <= c <= '\U{D7A3}'
  }

  predicate AllHangul(s: string)
  {
    forall i :: 0 <= i < |s| ==> IsHangul(s[i])
  }

  predicate NoHangul(s: string)
  {
    forall i :: 0 <= i < |s| ==> !IsHangul(s[i])
  }

  /** The length of the Hangul run at the start of `s`. */
  function HangulPrefixLength(s: string): (k: nat)
    ensures k <= |s|
  {
    if s != [] && IsHangul(s[0]) then 1 + HangulPrefixLength(s[1..]) else 0
  }

  /** The runs, left to right, as the regex scanner finds them: skip a
      character that does not match, otherwise take the longest match. */
  function HangulRuns(s: string): (r: seq<string>)
    ensures forall i :: 0 <= i < |r| ==> r[i] != [] && AllHangul(r[i])
    decreases |s|
  {
    if s == [] then []
    else
      var k := HangulPrefixLength(s);
      if k == 0 then HangulRuns(s[1..])
      else
        HangulPrefixLengthSpec(s);
        [s[..k]] + HangulRuns(s[k..])
  }

  // ---------------------------------------------------------------------
  // What "maximal runs" means, independently of the scanner
  // ---------------------------------------------------------------------

  /** gaps[0] + runs[0] + gaps[1] + runs[1] + ... + runs[n-1] + gaps[n]. */
  function Interleave(gaps: seq<string>, runs: seq<string>): string
    requires |gaps| == |runs| + 1
    decreases |runs|
  {
    if runs == [] then gaps[0] else gaps[0] + runs[0] + Interleave(gaps[1..], runs[1..])
  }

  /** `s` cut into non-empty Hangul runs and Hangul-free gaps, with a
      non-empty gap between any two runs: the runs are then exactly the
      maximal Hangul substrings of `s`. */
  ghost predicate IsRunSplit(s: string, runs: seq<string>, gaps: seq<string>)
  {
    && |gaps| == |runs| + 1
    && s == Interleave(gaps, runs)
    && (forall i :: 0 <= i < |runs| ==> runs[i] != [] && AllHangul(runs[i]))
    && (forall i :: 0 <= i < |gaps| ==> NoHangul(gaps[i]))
    && (forall i :: 0 < i < |runs| ==> gaps[i] != [])
  }

  /** The gaps the scanner steps over, alongside `HangulRuns`. */
  ghost function RunGaps(s: string): (g: seq<string>)
    ensures |g| == |HangulRuns(s)| + 1
    decreases |s|
  {
    if s == [] then [[]]
    else
      var k := HangulPrefixLength(s);
      if k == 0 then
        var g := RunGaps(s[1..]);
        [[s[0]] + g[0]] + g[1..]
      else [[]] + RunGaps(s[k..])
  }

  lemma {:induction false} HangulPrefixLengthSpec(s: string)
    ensures var k := HangulPrefixLength(s);
      AllHangul(s[..k]) && (k == |s| || !IsHangul(s[k]))
  {
    if s != [] && IsHangul(s[0]) {
      HangulPrefixLengthSpec(s[1..]);
      var k := HangulPrefixLength(s);
      assert s[..k] == [s[0]] + s[1..][..k - 1];
    }
  }

  /** A Hangul run followed by a character that is not Hangul (or by
      nothing) is exactly the prefix the scanner takes. */
  lemma {:induction false} HangulPrefixLengthOf(a: string, b: string)
    requires AllHangul(a)
    requires b == [] || !IsHangul(b[0])
    ensures HangulPrefixLength(a + b) == |a|
  {
    if a != [] {
      assert (a + b)[1..] == a[1..] + b;
      HangulPrefixLengthOf(a[1..], b);
    }
  }

  /** The scanner's runs are maximal runs: with the gaps it steps over,
      they cut `s` as `IsRunSplit` demands. */
  lemma {:induction false} HangulRunsSplit(s: string)
    ensures IsRunSplit(s, HangulRuns(s), RunGaps(s))
    decreases |s|
  {
    if s != [] {
      var k := HangulPrefixLength(s);
      if k == 0 {
        HangulRunsSplit(s[1..]);
        SplitAfterSkip(s);
      } else {
        HangulRunsSplit(s[k..]);
        SplitAfterRun(s);
      }
    }
  }

  /** Text put in front of the first gap comes first in the interleaving. */
  lemma InterleaveFirstGap(x: string, g: seq<string>, runs: seq<string>)
    requires |g| == |runs| + 1
    ensures Interleave([x + g[0]] + g[1..], runs) == x + Interleave(g, runs)
  {
    var gaps := [x + g[0]] + g[1..];
    assert gaps[0] == x + g[0] && gaps[1..] == g[1..];
  }

  /** A step of `HangulRunsSplit`: a skipped character joins the first gap. */
  lemma SplitAfterSkip(s: string)
    requires s != [] && HangulPrefixLength(s) == 0
    requires IsRunSplit(s[1..], HangulRuns(s[1..]), RunGaps(s[1..]))
    ensures IsRunSplit(s, HangulRuns(s), RunGaps(s))
  {
    var runs := HangulRuns(s[1..]);
    var g := RunGaps(s[1..]);
    var gaps := [[s[0]] + g[0]] + g[1..];
    RunSplitSkip(s[0], s[1..], runs, g);
    assert [s[0]] + s[1..] == s;
    assert IsRunSplit(s, runs, gaps);
    assert HangulRuns(s) == runs;
    assert RunGaps(s) == gaps;
  }

  /** A character that is not Hangul, put in front of a cut, joins its
      first gap. */
  lemma RunSplitSkip(c: char, rest: string, runs: seq<string>, g: seq<string>)
    requires !IsHangul(c)
    requires IsRunSplit(rest, runs, g)
    ensures IsRunSplit([c] + rest, runs, [[c] + g[0]] + g[1..])
  {
    var gaps := [[c] + g[0]] + g[1..];
    InterleaveFirstGap([c], g, runs);
    NoHangulCons(c, g[0]);
    forall i | 0 < i < |gaps| ensures gaps[i] == g[i] {
    }
  }

  /** A character that is not Hangul in front of a Hangul-free gap. */
  lemma NoHangulCons(c: char, gap: string)
    requires !IsHangul(c) && NoHangul(gap)
    ensures NoHangul([c] + gap)
  {
    forall i | 0 <= i < |[c] + gap| ensures !IsHangul(([c] + gap)[i]) {
      if i > 0 { assert ([c] + gap)[i] == gap[i - 1]; }
    }
  }

  /** A run put in front of a cut, after an empty gap, gives a cut of the
      longer text, provided a non-empty gap separates it from the next run. */
  lemma RunSplitCons(r: string, rest: string, runs: seq<string>, g: seq<string>)
    requires r != [] && AllHangul(r)
    requires IsRunSplit(rest, runs, g)
    requires runs != [] ==> g[0] != []
    ensures IsRunSplit(r + rest, [r] + runs, [[]] + g)
  {
    var allRuns := [r] + runs;
    var gaps := [[]] + g;
    assert allRuns[1..] == runs && gaps[1..] == g;
    forall i | 0 < i < |allRuns| ensures allRuns[i] == runs[i - 1] {
    }
    forall i | 0 < i < |gaps| ensures gaps[i] == g[i - 1] {
    }
  }

  /** A step of `HangulRunsSplit`: a run taken by the scanner is followed by
      a non-empty gap whenever another run comes after it. */
  lemma SplitAfterRun(s: string)
    requires s != [] && HangulPrefixLength(s) > 0
    requires var k := HangulPrefixLength(s);
      IsRunSplit(s[k..], HangulRuns(s[k..]), RunGaps(s[k..]))
    ensures IsRunSplit(s, HangulRuns(s), RunGaps(s))
  {
    var k := HangulPrefixLength(s);
    HangulPrefixLengthSpec(s);
    var run, rest := s[..k], s[k..];
    var runs, g := HangulRuns(rest), RunGaps(rest);
    assert s == run + rest;
    assert HangulRuns(s) == [run] + runs;
    assert RunGaps(s) == [[]] + g;
    // the character after the run is not Hangul, so a following gap is not empty
    RunSplitCons(run, rest, runs, g);
  }

  /** Any cut of `s` into maximal runs is the scanner's: the runs are
      determined by `s`. */
  lemma {:induction false} HangulRunsUnique(s: string, runs: seq<string>, gaps: seq<string>)
    requires IsRunSplit(s, runs, gaps)
    ensures HangulRuns(s) == runs
    decreases |s|
  {
    if s == [] {
      // an empty text has no room for a non-empty run
    } else if gaps[0] != [] {
      // the first character belongs to the first gap: the scanner skips it
      assert s[0] == gaps[0][0];
      assert HangulPrefixLength(s) == 0;
      var gaps' := [gaps[0][1..]] + gaps[1..];
      assert gaps'[1..] == gaps[1..];
      if runs == [] {
        assert s[1..] == gaps'[0];
      } else {
        assert s == gaps[0] + runs[0] + Interleave(gaps[1..], runs[1..]);
        assert s[1..] == gaps'[0] + runs[0] + Interleave(gaps'[1..], runs[1..]);
      }
      forall i | 0 <= i < |gaps'| ensures NoHangul(gaps'[i]) {
        if i > 0 { assert gaps'[i] == gaps[i]; }
      }
      forall i | 0 < i < |runs| ensures gaps'[i] != [] {
        assert gaps'[i] == gaps[i];
      }
      HangulRunsUnique(s[1..], runs, gaps');
    } else {
      // the first gap is empty, so `s` starts with the first run
      assert runs != [];
      var rest := Interleave(gaps[1..], runs[1..]);
      assert s == runs[0] + rest;
      if |runs| > 1 {
        assert rest == gaps[1] + runs[1] + Interleave(gaps[2..], runs[2..]);
        assert gaps[1] != [];
      }
      assert rest == [] || !IsHangul(rest[0]);
      HangulPrefixLengthOf(runs[0], rest);
      var k := |runs[0]|;
      assert s[..k] == runs[0] && s[k..] == rest;
      forall i | 0 <= i < |runs| - 1 ensures runs[1..][i] != [] && AllHangul(runs[1..][i]) {
        assert runs[1..][i] == runs[i + 1];
      }
      forall i | 0 <= i < |gaps| - 1 ensures NoHangul(gaps[1..][i]) {
        assert gaps[1..][i] == gaps[i + 1];
      }
      forall i | 0 < i < |runs| - 1 ensures gaps[1..][i] != [] {
        assert gaps[1..][i] == gaps[i + 1];
      }
      HangulRunsUnique(rest, runs[1..], gaps[1..]);
    }
  }

  /** Text without Hangul syllables has no runs. */
  lemma NoHangulNoRuns(s: string)
    requires NoHangul(s)
    ensures HangulRuns(s) == []
  {
    HangulRunsUnique(s, [], [s]);
  }
}
