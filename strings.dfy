/** The Python string primitives the app relies on: `str.join`,
    `str.split`, `str.strip`, `str.lower`, `str.upper` and `str.isalpha`,
    on strings as sequences of code points. */
module Strings {

  // ---------------------------------------------------------------------
  // str.join
  // ---------------------------------------------------------------------

  /** `sep.join(parts)`. */
  function Join(parts: seq<string>, sep: string): string
  {
    if parts == [] then ""
    else if |parts| == 1 then parts[0]
    else parts[0] + sep + Join(parts[1..], sep)
  }

  /** Where part `i` starts in `Join(parts, sep)`: every earlier part
      followed by one separator. */
  function Offset(parts: seq<string>, sep: string, i: nat): nat
    requires i <= |parts|
  {
    if i == 0 then 0 else |parts[0]| + |sep| + Offset(parts[1..], sep, i - 1)
  }

  /** Consecutive parts start one part and one separator apart. */
  lemma {:induction false} OffsetNext(parts: seq<string>, sep: string, i: nat)
    requires i < |parts|
    ensures Offset(parts, sep, i + 1) == Offset(parts, sep, i) + |parts[i]| + |sep|
  {
    if i > 0 {
      OffsetNext(parts[1..], sep, i - 1);
    }
  }

  /** The joined string is the parts laid end to end: part `i` sits at its
      offset, and nothing follows the last part. */
  lemma {:induction false} JoinAt(parts: seq<string>, sep: string, i: nat)
    requires i < |parts|
    ensures Offset(parts, sep, i) + |parts[i]| <= |Join(parts, sep)|
    ensures Join(parts, sep)[Offset(parts, sep, i)..Offset(parts, sep, i) + |parts[i]|] == parts[i]
    ensures i + 1 == |parts| ==> |Join(parts, sep)| == Offset(parts, sep, i) + |parts[i]|
  {
    if |parts| > 1 {
      var tail := Join(parts[1..], sep);
      var head := parts[0] + sep;
      assert Join(parts, sep) == head + tail;
      if i == 0 {
        SliceOfPrefix(head, tail, 0, |parts[0]|);
        assert head[..|parts[0]|] == parts[0];
      } else {
        JoinAt(parts[1..], sep, i - 1);
        var o := Offset(parts[1..], sep, i - 1);
        assert Offset(parts, sep, i) == |head| + o;
        SliceOfSuffix(head, tail, o, o + |parts[i]|);
      }
    }
  }

  /** Exactly one separator lies between part `i` and part `i + 1`. */
  lemma {:induction false} JoinSepAt(parts: seq<string>, sep: string, i: nat)
    requires i + 1 < |parts|
    ensures Offset(parts, sep, i + 1) == Offset(parts, sep, i) + |parts[i]| + |sep|
    ensures Offset(parts, sep, i + 1) <= |Join(parts, sep)|
    ensures Join(parts, sep)[Offset(parts, sep, i) + |parts[i]|..Offset(parts, sep, i + 1)] == sep
  {
    OffsetNext(parts, sep, i);
    var tail := Join(parts[1..], sep);
    var head := parts[0] + sep;
    assert Join(parts, sep) == head + tail;
    if i == 0 {
      SliceOfPrefix(head, tail, |parts[0]|, |head|);
      assert head[|parts[0]|..] == sep;
    } else {
      JoinSepAt(parts[1..], sep, i - 1);
      var o := Offset(parts[1..], sep, i - 1);
      var n := |parts[i]|;
      assert Offset(parts, sep, i) == |head| + o;
      SliceOfSuffix(head, tail, o + n, o + n + |sep|);
    }
  }

  /** `JoinAt` seen from after a prefix `p`. */
  lemma JoinAtAfter(p: string, parts: seq<string>, sep: string, i: nat)
    requires i < |parts|
    ensures var q := p + Join(parts, sep);
            var at := |p| + Offset(parts, sep, i);
            && at + |parts[i]| <= |q|
            && q[at..at + |parts[i]|] == parts[i]
            && (i + 1 == |parts| ==> at + |parts[i]| == |q|)
  {
    var o := Offset(parts, sep, i);
    JoinAt(parts, sep, i);
    SliceOfSuffix(p, Join(parts, sep), o, o + |parts[i]|);
  }

  /** `JoinSepAt` seen from after a prefix `p`. */
  lemma JoinSepAfter(p: string, parts: seq<string>, sep: string, i: nat)
    requires i + 1 < |parts|
    ensures var q := p + Join(parts, sep);
            var end := |p| + Offset(parts, sep, i) + |parts[i]|;
            end + |sep| <= |q| && q[end..end + |sep|] == sep
  {
    var o := Offset(parts, sep, i);
    JoinSepAt(parts, sep, i);
    SliceOfSuffix(p, Join(parts, sep), o + |parts[i]|, o + |parts[i]| + |sep|);
  }

  /** Slices of a concatenation that fall inside one of its halves. */
  lemma SliceOfPrefix(a: string, b: string, x: nat, y: nat)
    requires x <= y <= |a|
    ensures (a + b)[x..y] == a[x..y]
  {
  }

  lemma SliceOfSuffix(a: string, b: string, x: nat, y: nat)
    requires x <= y <= |b|
    ensures (a + b)[|a| + x..|a| + y] == b[x..y]
  {
  }

  // ---------------------------------------------------------------------
  // str.split with a one-character separator
  // ---------------------------------------------------------------------

  /** `s.split(c)`: the pieces between occurrences of `c`. */
  function Split(s: string, c: char): (r: seq<string>)
    ensures |r| >= 1
    ensures (|r| == 1) == (c !in s)
    ensures forall i :: 0 <= i < |r| ==> c !in r[i]
    ensures r[0] <= s && (|r[0]| == |s| || s[|r[0]|] == c)
  {
    if s == [] then [[]]
    else
      var rest := Split(s[1..], c);
      if s[0] == c then [[]] + rest
      else [[s[0]] + rest[0]] + rest[1..]
  }

  /** Joining the pieces with the separator gives back the string. */
  lemma {:induction false} JoinSplit(s: string, c: char)
    ensures Join(Split(s, c), [c]) == s
  {
    if s != [] {
      var rest := Split(s[1..], c);
      JoinSplit(s[1..], c);
      if s[0] == c {
        assert Split(s, c) == [[]] + rest;
        assert ([[]] + rest)[1..] == rest;
      } else {
        var r := [[s[0]] + rest[0]] + rest[1..];
        assert Split(s, c) == r;
        if |rest| > 1 {
          assert r[1..] == rest[1..];
          assert Join(rest, [c]) == rest[0] + [c] + Join(rest[1..], [c]);
        }
      }
    }
  }

  // ---------------------------------------------------------------------
  // str.strip
  // ---------------------------------------------------------------------

  /** The code points for which Python's `str.isspace` holds; `str.strip()`
      with no argument removes exactly these. */
  predicate IsSpace(c: char)
  {
    || c == ' '
    || '\t' <= c <= '\r'
    || '\U{1C}' <= c <= '\U{1F}'
    || c == '\U{85}' || c == '\U{A0}' || c == '\U{1680}'
    || '\U{2000}' <= c <= '\U{200A}'
    || c == '\U{2028}' || c == '\U{2029}' || c == '\U{202F}'
    || c == '\U{205F}' || c == '\U{3000}'
  }

  /** The first index at or after `i` that does not hold white space. */
  function SkipSpaceForward(s: string, i: nat): (k: nat)
    requires i <= |s|
    ensures i <= k <= |s|
    decreases |s| - i
  {
    if i < |s| && IsSpace(s[i]) then SkipSpaceForward(s, i + 1) else i
  }

  /** The end of `s[..j]` once its trailing white space is dropped. */
  function SkipSpaceBackward(s: string, j: nat): (k: nat)
    requires j <= |s|
    ensures k <= j
  {
    if j > 0 && IsSpace(s[j - 1]) then SkipSpaceBackward(s, j - 1) else j
  }

  /** `s.lstrip()`. */
  function StripLeft(s: string): string
  {
    s[SkipSpaceForward(s, 0)..]
  }

  /** `s.rstrip()`. */
  function StripRight(s: string): string
  {
    s[..SkipSpaceBackward(s, |s|)]
  }

  /** `s.strip()`. */
  function Strip(s: string): string
  {
    StripRight(StripLeft(s))
  }

  lemma {:induction false} SkipSpaceForwardSpec(s: string, i: nat)
    requires i <= |s|
    ensures forall k :: i <= k < SkipSpaceForward(s, i) ==> IsSpace(s[k])
    ensures SkipSpaceForward(s, i) == |s| || !IsSpace(s[SkipSpaceForward(s, i)])
    decreases |s| - i
  {
    if i < |s| && IsSpace(s[i]) {
      SkipSpaceForwardSpec(s, i + 1);
    }
  }

  lemma {:induction false} SkipSpaceBackwardSpec(s: string, j: nat)
    requires j <= |s|
    ensures forall k :: SkipSpaceBackward(s, j) <= k < j ==> IsSpace(s[k])
    ensures SkipSpaceBackward(s, j) == 0 || !IsSpace(s[SkipSpaceBackward(s, j) - 1])
  {
    if j > 0 && IsSpace(s[j - 1]) {
      SkipSpaceBackwardSpec(s, j - 1);
    }
  }

  /** `lstrip` leaves the suffix that starts at the first character that is
      not white space. */
  lemma StripLeftSpec(s: string)
    ensures var r := StripLeft(s);
      && |r| <= |s| && r == s[|s| - |r|..]
      && (forall k :: 0 <= k < |s| - |r| ==> IsSpace(s[k]))
      && (r == [] || !IsSpace(r[0]))
  {
    SkipSpaceForwardSpec(s, 0);
  }

  /** `rstrip` leaves the prefix that ends at the last character that is
      not white space. */
  lemma StripRightSpec(s: string)
    ensures var r := StripRight(s);
      && |r| <= |s| && r == s[..|r|]
      && (forall k :: |r| <= k < |s| ==> IsSpace(s[k]))
      && (r == [] || !IsSpace(r[|r| - 1]))
  {
    SkipSpaceBackwardSpec(s, |s|);
  }

  /** What `Strip` leaves: a slice of `s` whose ends are not white space,
      cut out of `s` by removing white space only. */
  lemma StripSlice(s: string)
    ensures var r := Strip(s);
      var i := |s| - |StripLeft(s)|;
      && 0 <= i && i + |r| <= |s| && s[i..i + |r|] == r
      && (forall k :: 0 <= k < i ==> IsSpace(s[k]))
      && (forall k :: i + |r| <= k < |s| ==> IsSpace(s[k]))
      && (r == [] || (!IsSpace(r[0]) && !IsSpace(r[|r| - 1])))
  {
    var l := StripLeft(s);
    var r := Strip(s);
    var i := |s| - |l|;
    StripLeftSpec(s);
    StripRightSpec(l);
    assert s[i..i + |r|] == l[..|r|];
    forall k | i + |r| <= k < |s| ensures IsSpace(s[k]) {
      assert s[k] == l[k - i];
    }
  }

  /** Stripping twice strips nothing more. */
  lemma StripIdempotent(s: string)
    ensures Strip(Strip(s)) == Strip(s)
  {
    var r := Strip(s);
    StripSlice(s);
    if r != [] {
      assert StripLeft(r) == r;
    }
  }

  // ---------------------------------------------------------------------
  // str.lower, str.upper
  // ---------------------------------------------------------------------

  /** Lower-casing of the Basic Latin and Latin-1 capitals; every other
      code point is left as it is. */
  function LowerChar(c: char): char
  {
    if 'A' <= c <= 'Z' || '\U{C0}' <= c <= '\U{D6}' || '\U{D8}' <= c <= '\U{DE}'
    then (c as int + 32) as char
    else c
  }

  /** `s.lower()`, code point by code point. */
  function Lower(s: string): string
  {
    seq(|s|, i requires 0 <= i < |s| => LowerChar(s[i]))
  }

  /** Upper-casing of the Basic Latin small letters. */
  function UpperChar(c: char): char
  {
    if 'a' <= c <= 'z' then (c as int - 32) as char else c
  }

  /** `s.upper()`, code point by code point. */
  function Upper(s: string): string
  {
    seq(|s|, i requires 0 <= i < |s| => UpperChar(s[i]))
  }

  /** A string with nothing left to lower-case. */
  predicate IsLowerCase(s: string)
  {
    forall i :: 0 <= i < |s| ==> LowerChar(s[i]) == s[i]
  }

  lemma LowerIsLowerCase(s: string)
    ensures IsLowerCase(Lower(s)) && Lower(Lower(s)) == Lower(s)
  {
  }

  /** Lower-casing neither makes nor unmakes white space or letters. */
  lemma LowerCharClass(c: char)
    ensures IsSpace(LowerChar(c)) == IsSpace(c)
    ensures IsLetter(c) ==> IsLetter(LowerChar(c))
    ensures LowerChar(LowerChar(c)) == LowerChar(c)
  {
  }

  /** Lower-casing and stripping can be done in either order. */
  lemma {:induction false} LowerSkipSpaceForward(s: string, i: nat)
    requires i <= |s|
    ensures SkipSpaceForward(Lower(s), i) == SkipSpaceForward(s, i)
    decreases |s| - i
  {
    if i < |s| {
      LowerCharClass(s[i]);
      LowerSkipSpaceForward(s, i + 1);
    }
  }

  lemma {:induction false} LowerSkipSpaceBackward(s: string, j: nat)
    requires j <= |s|
    ensures SkipSpaceBackward(Lower(s), j) == SkipSpaceBackward(s, j)
  {
    if j > 0 {
      LowerCharClass(s[j - 1]);
      LowerSkipSpaceBackward(s, j - 1);
    }
  }

  lemma LowerStripLeft(s: string)
    ensures StripLeft(Lower(s)) == Lower(StripLeft(s))
  {
    LowerSkipSpaceForward(s, 0);
  }

  lemma LowerStripRight(s: string)
    ensures StripRight(Lower(s)) == Lower(StripRight(s))
  {
    LowerSkipSpaceBackward(s, |s|);
  }

  lemma LowerStrip(s: string)
    ensures Strip(Lower(s)) == Lower(Strip(s))
  {
    LowerStripLeft(s);
    LowerStripRight(StripLeft(s));
  }

  /** `w.lower().strip()`, the normal form of a token. */
  function Normalize(w: string): string
  {
    Strip(Lower(w))
  }

  /** A token that is not blank stays non-blank once normalised, and a
      normalised token is its own normal form. */
  lemma NormalizeFixed(w: string)
    ensures Strip(w) != [] ==> Normalize(w) != []
    ensures Normalize(Normalize(w)) == Normalize(w)
  {
    LowerStrip(w);
    var n := Normalize(w);
    LowerStrip(Lower(w));
    LowerIsLowerCase(w);
    StripIdempotent(Lower(w));
    calc {
      Normalize(n);
      Strip(Lower(Strip(Lower(w))));
      { LowerStrip(Strip(Lower(w))); LowerStrip(Lower(w)); }
      Strip(Strip(Lower(Lower(w))));
      Strip(Strip(Lower(w)));
      n;
    }
  }

  /** A space and a letter normalise to the letter alone. */
  lemma NormalizeExample()
    ensures Strip(" a") == "a" && Normalize(" a") == "a"
  {
    assert Lower(" a") == " a";
    assert SkipSpaceForward(" a", 0) == 1;
    assert StripLeft(" a") == "a";
    assert SkipSpaceBackward("a", 1) == 1;
  }

  // ---------------------------------------------------------------------
  // str.isalpha
  // ---------------------------------------------------------------------

  /** Letters: the Basic Latin and Latin-1 letters, Hiragana, Katakana,
      the CJK Unified Ideographs of Unicode 1.1 and the Hangul syllables. */
  predicate IsLetter(c: char)
  {
    || 'A' <= c <= 'Z' || 'a' <= c <= 'z'
    || c == '\U{AA}' || c == '\U{B5}' || c == '\U{BA}'
    || '\U{C0}' <= c <= '\U{D6}' || '\U{D8}' <= c <= '\U{F6}' || '\U{F8}' <= c <= '\U{FF}'
    || '\U{3041}' <= c <= '\U{3096}' || '\U{30A1}' <= c <= '\U{30FA}'
    || '\U{4E00}' <= c <= '\U{9FA5}'
    || '\U{AC00}' <= c <= '\U{D7A3}'
  }

  /** `s.isalpha()`: non-empty and made of letters only. */
  predicate IsAlpha(s: string)
  {
    |s| > 0 && forall i :: 0 <= i < |s| ==> IsLetter(s[i])
  }

  /** An alphabetic word has no surrounding white space and stays
      alphabetic when lower-cased, so normalising it only lower-cases it. */
  lemma AlphaNormalize(w: string)
    requires IsAlpha(w)
    ensures Normalize(w) == Lower(w)
    ensures IsAlpha(Lower(w)) && IsLowerCase(Lower(w))
  {
    var l := Lower(w);
    forall i | 0 <= i < |w| ensures IsLetter(l[i]) && !IsSpace(l[i]) && LowerChar(l[i]) == l[i] {
      LowerCharClass(w[i]);
    }
    assert !IsSpace(l[0]) && !IsSpace(l[|l| - 1]);
    assert StripLeft(l) == l;
    assert StripRight(l) == l;
  }
}
