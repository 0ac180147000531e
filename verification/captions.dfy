/** The text-cleanup tail of `get_transcript`: a WebVTT caption payload is
    flattened to one line of plain text in four stages. */
module Captions {
  import opened Text

  const Arrow := " --> "
  const Header := "WEBVTT"

  /** The fixed `hh:mm:ss.` opening of a cue timing: two digits, a colon, two
      digits, a colon, two digits and a dot. */
  predicate ClockPrefix(w: string)
  {
    |w| >= 9
    && IsDigit(w[0]) && IsDigit(w[1]) && w[2] == ':'
    && IsDigit(w[3]) && IsDigit(w[4]) && w[5] == ':'
    && IsDigit(w[6]) && IsDigit(w[7]) && w[8] == '.'
  }

  /** After the clock prefix, `w` holds `k` fraction digits, the arrow and a
      tail without line breaks. */
  ghost predicate CueShape(w: string, k: int)
  {
    1 <= k && 9 + k + |Arrow| <= |w|
    && (forall j :: 9 <= j < 9 + k ==> IsDigit(w[j]))
    && w[9 + k..9 + k + |Arrow|] == Arrow
    && (forall j :: 9 + k + |Arrow| <= j < |w| ==> w[j] != '\n')
  }

  /** `w` is a string the pattern `\d{2}:\d{2}:\d{2}\.\d+ --> .*` matches in
      full (`.` never matches a line break). */
  ghost predicate IsCue(w: string)
  {
    ClockPrefix(w) && exists k :: CueShape(w, k)
  }

  /** Length of the match of the cue pattern at the start of `s`, or 0 when
      there is none. As in the regular expression, the fraction digits are
      taken greedily and `.*` runs to the end of the line, so the match is
      the longest prefix that is a cue. */
  function CueLength(s: string): (n: nat)
    ensures n <= |s|
    ensures n == 0 ==> forall m :: 0 <= m <= |s| ==> !IsCue(s[..m])
    ensures n > 0 ==> IsCue(s[..n])
    ensures n > 0 ==> forall m :: n < m <= |s| ==> !IsCue(s[..m])
  {
    if !ClockPrefix(s) then
      assert forall m :: 0 <= m <= |s| ==> !IsCue(s[..m]) by {
        forall m | 9 <= m <= |s|
          ensures s[..m][..9] == s[..9]
        {
        }
      }
      0
    else
      var k := Span(s[9..], IsDigit);
      var a := 9 + k;
      var found := k >= 1 && a + |Arrow| <= |s| && s[a..a + |Arrow|] == Arrow;
      var n := if found then a + |Arrow| + Span(s[a + |Arrow|..], c => c != '\n') else 0;
      forall m | 0 <= m <= |s|
        ensures IsCue(s[..m]) ==> found && m <= n
      {
        CuePrefixIsScanned(s, m);
      }
      if found then
        CueFound(s, k, n);
        n
      else
        0
  }

  /** Any cue that is a prefix of `s` has exactly as many fraction digits as
      `s` has after its clock prefix, is followed by the arrow there, and
      ends no later than the line does. */
  lemma CuePrefixIsScanned(s: string, m: nat)
    requires ClockPrefix(s) && m <= |s|
    ensures var k := Span(s[9..], IsDigit);
      var a := 9 + k + |Arrow|;
      IsCue(s[..m]) ==>
        && k >= 1 && a <= |s| && s[9 + k..a] == Arrow
        && m <= a + Span(s[a..], c => c != '\n')
  {
    var k := Span(s[9..], IsDigit);
    if IsCue(s[..m]) {
      var w := s[..m];
      var k' :| CueShape(w, k');
      FractionDigitsDetermined(s, w, k, k');
      var a := 9 + k + |Arrow|;
      assert s[9 + k..a] == w[9 + k..a];
      forall j | 0 <= j < m - a
        ensures s[a..][j] != '\n'
      {
        assert w[a + j] == s[a + j];
      }
    }
  }

  /** In a cue written as a prefix `w` of `s`, the number of fraction digits
      is exactly the digit run after the clock prefix of `s`. */
  lemma FractionDigitsDetermined(s: string, w: string, k: nat, k': int)
    requires ClockPrefix(s) && w <= s
    requires k == Span(s[9..], IsDigit)
    requires CueShape(w, k')
    ensures k' == k
  {
    assert s[9..][k'] == w[9 + k'] == ' ';
    assert forall j :: 0 <= j < k' ==> IsDigit(s[9..][j]) by {
      forall j | 0 <= j < k' ensures IsDigit(s[9..][j]) {
        assert s[9..][j] == w[9 + j];
      }
    }
  }

  /** The scanner's positive answer is a cue. */
  lemma CueFound(s: string, k: nat, n: nat)
    requires ClockPrefix(s)
    requires k == Span(s[9..], IsDigit) && k >= 1
    requires 9 + k + |Arrow| <= |s| && s[9 + k..9 + k + |Arrow|] == Arrow
    requires n == 9 + k + |Arrow| + Span(s[9 + k + |Arrow|..], c => c != '\n')
    ensures n <= |s|
    ensures IsCue(s[..n])
  {
    var a := 9 + k + |Arrow|;
    var w := s[..n];
    forall j | 9 <= j < 9 + k
      ensures IsDigit(w[j])
    {
      assert s[9..][j - 9] == s[j];
    }
    forall j | a <= j < n
      ensures w[j] != '\n'
    {
      assert s[a..][j - a] == s[j];
    }
    assert w[9 + k..a] == Arrow;
    assert CueShape(w, k);
  }

  /** A cue contains no line break. */
  lemma CueHasNoNewline(w: string)
    requires IsCue(w)
    ensures multiset(w)['\n'] == 0
  {
    var k :| CueShape(w, k);
    forall j | 0 <= j < |w|
      ensures w[j] != '\n'
    {
      if 9 + k <= j < 9 + k + |Arrow| {
        assert w[9 + k..9 + k + |Arrow|][j - 9 - k] == w[j];
      }
    }
  }

  /** The slice `s[i..j]` is a cue. */
  ghost predicate CueAt(s: string, i: int, j: int)
  {
    0 <= i <= j <= |s| && IsCue(s[i..j])
  }

  /** Some part of `s` matches the cue pattern. */
  ghost predicate HasCue(s: string)
  {
    exists i, j :: CueAt(s, i, j)
  }

  /** When no prefix of `s` is a cue, `s` holds a cue exactly when `s`
      without its first character does. */
  lemma HasCueStep(s: string)
    requires s != []
    requires forall m :: 0 <= m <= |s| ==> !IsCue(s[..m])
    ensures HasCue(s) <==> HasCue(s[1..])
  {
    if HasCue(s) {
      var i, j :| CueAt(s, i, j);
      assert s[0..j] == s[..j];
      assert s[1..][i - 1..j - 1] == s[i..j];
      assert CueAt(s[1..], i - 1, j - 1);
    }
    if HasCue(s[1..]) {
      var i, j :| CueAt(s[1..], i, j);
      assert s[1..][i..j] == s[i + 1..j + 1];
      assert CueAt(s, i + 1, j + 1);
    }
  }

  /** Stage one, `re.sub` of the cue pattern with the empty string: scanning
      left to right, each leftmost cue match is deleted and scanning resumes
      after it; the line break ending a cue line is kept. Only characters
      are deleted, every line break survives, and the text is left as it is
      exactly when no part of it is a cue. */
  function StripCues(s: string): (r: string)
    ensures |r| <= |s|
    ensures multiset(r) <= multiset(s)
    ensures multiset(r)['\n'] == multiset(s)['\n']
    ensures r == s <==> !HasCue(s)
    decreases |s|
  {
    if s == [] then
      assert forall i, j :: !CueAt(s, i, j);
      []
    else
      var n := CueLength(s);
      if n > 0 then
        assert s == s[..n] + s[n..];
        assert CueAt(s, 0, n);
        CueHasNoNewline(s[..n]);
        StripCues(s[n..])
      else
        assert s == [s[0]] + s[1..];
        HasCueStep(s);
        [s[0]] + StripCues(s[1..])
  }

  /** Stage two, Python's `str.replace(pat, "")`: every leftmost,
      non-overlapping occurrence of `pat` is deleted in one pass. Only
      characters are deleted, those not in `pat` are all kept, and the result
      equals the input exactly when `pat` does not occur in it. */
  function RemoveAll(s: string, pat: string): (r: string)
    requires pat != []
    ensures multiset(r) <= multiset(s)
    ensures forall c :: c !in pat ==> multiset(r)[c] == multiset(s)[c]
    ensures |r| <= |s|
    ensures r == s <==> !Occurs(s, pat)
    decreases |s|
  {
    if |s| < |pat| then
      assert !Occurs(s, pat);
      s
    else if s[..|pat|] == pat then
      assert s == pat + s[|pat|..];
      assert OccursAt(s, pat, 0);
      RemoveAll(s[|pat|..], pat)
    else
      var rest := RemoveAll(s[1..], pat);
      assert s == [s[0]] + s[1..];
      OccursStep(s, pat);
      [s[0]] + rest
  }

  /** Stage three, `re.sub(r"\n+", " ", ...)`: each maximal run of line
      breaks becomes one space. No line break survives, no other character
      than a space is created or lost, and text without line breaks is left
      as it is. */
  function CollapseNewlines(s: string): (r: string)
    ensures '\n' !in r
    ensures |r| <= |s|
    ensures forall c :: c != '\n' && c != ' ' ==> multiset(r)[c] == multiset(s)[c]
    ensures '\n' !in s ==> r == s
    decreases |s|
  {
    if s == [] then []
    else if s[0] == '\n' then
      var n := Span(s, c => c == '\n');
      assert s == s[..n] + s[n..];
      assert forall c :: c != '\n' ==> multiset(s[..n])[c] == 0 by {
        forall c | c != '\n' ensures multiset(s[..n])[c] == 0 {
          assert c !in s[..n];
        }
      }
      [' '] + CollapseNewlines(s[n..])
    else
      assert s == [s[0]] + s[1..];
      [s[0]] + CollapseNewlines(s[1..])
  }

  /** `r` is the slice `s[i..j]` and everything outside it is whitespace. */
  ghost predicate TrimmedAt(s: string, r: string, i: int, j: int)
  {
    0 <= i <= j <= |s| && r == s[i..j]
    && (forall k :: 0 <= k < i ==> IsSpace(s[k]))
    && (forall k :: j <= k < |s| ==> IsSpace(s[k]))
  }

  /** Stage four, Python's `str.strip()` over ASCII whitespace: the result is
      a slice of the input with only whitespace cut away on either side, and
      neither of its ends is whitespace. */
  function Strip(s: string): (r: string)
    ensures exists i, j :: TrimmedAt(s, r, i, j)
    ensures r == [] || (!IsSpace(r[0]) && !IsSpace(r[|r| - 1]))
  {
    var i := Span(s, IsSpace);
    var t := s[i..];
    var j := i + |t| - BackSpan(t, IsSpace);
    assert forall k :: j <= k < |s| ==> IsSpace(s[k]) by {
      forall k | j <= k < |s| ensures IsSpace(s[k]) {
        assert t[k - i] == s[k];
      }
    }
    assert s[i..j] == t[..|t| - BackSpan(t, IsSpace)];
    assert TrimmedAt(s, s[i..j], i, j);
    s[i..j]
  }

  /** The whole cleanup: cue timings removed, the header marker removed,
      line breaks flattened to spaces, and surrounding whitespace stripped.
      The result is a single line with no whitespace at either end, and no
      stage ever lengthens the text. */
  function Clean(vtt: string): (r: string)
    ensures '\n' !in r
    ensures r == [] || (!IsSpace(r[0]) && !IsSpace(r[|r| - 1]))
    ensures |r| <= |vtt|
  {
    var a := StripCues(vtt);
    var b := RemoveAll(a, Header);
    var c := CollapseNewlines(b);
    var r := Strip(c);
    assert '\n' !in r by {
      var i, j :| TrimmedAt(c, r, i, j);
      forall k | 0 <= k < |r|
        ensures r[k] != '\n'
      {
        assert r[k] == c[i + k];
      }
    }
    r
  }

  /** A run of `k` line breaks. */
  function LineBreaks(k: nat): (r: string)
    ensures |r| == k && forall j :: 0 <= j < k ==> r[j] == '\n'
  {
    seq(k, _ => '\n')
  }

  /** A line without breaks passes through stage three unchanged, whatever
      follows it. */
  lemma {:induction false} CollapseKeepsLine(a: string, t: string)
    requires '\n' !in a
    ensures CollapseNewlines(a + t) == a + CollapseNewlines(t)
    decreases |a|
  {
    if a != [] {
      var s := a + t;
      assert s[0] == a[0] && s[0] != '\n';
      assert s[1..] == a[1..] + t;
      assert CollapseNewlines(s) == [a[0]] + CollapseNewlines(a[1..] + t);
      CollapseKeepsLine(a[1..], t);
      assert a == [a[0]] + a[1..];
      assert [a[0]] + (a[1..] + CollapseNewlines(t)) == a + CollapseNewlines(t);
    } else {
      assert a + t == t;
    }
  }

  /** Stage three turns a whole run of line breaks after a line into exactly
      one space, and goes on with the text after the run. */
  lemma CollapseRun(a: string, k: nat, b: string)
    requires '\n' !in a && k >= 1
    requires b == [] || b[0] != '\n'
    ensures CollapseNewlines(a + (LineBreaks(k) + b)) == a + ([' '] + CollapseNewlines(b))
  {
    var t := LineBreaks(k) + b;
    CollapseKeepsLine(a, t);
    assert forall j :: 0 <= j < k ==> t[j] == '\n';
    assert k < |t| ==> t[k] == b[0];
    assert Span(t, c => c == '\n') == k;
    assert t[k..] == b;
  }

  /** Stripping leaves text that has no whitespace at either end as it is. */
  lemma StripKeepsTrimmed(s: string)
    requires s == [] || (!IsSpace(s[0]) && !IsSpace(s[|s| - 1]))
    ensures Strip(s) == s
  {
    var i, j :| TrimmedAt(s, Strip(s), i, j);
    assert i == 0 && j == |s|;
  }

  /** Cleanup keeps caption text: a payload that is already one line, holds
      no cue and no header marker, and has no whitespace at either end comes
      out unchanged. */
  lemma CleanKeepsCleanText(s: string)
    requires !HasCue(s) && !Occurs(s, Header) && '\n' !in s
    requires s == [] || (!IsSpace(s[0]) && !IsSpace(s[|s| - 1]))
    ensures Clean(s) == s
  {
    StripKeepsTrimmed(s);
  }

  /** Cleanup joins two caption lines separated by any run of line breaks
      with exactly one space, keeping the text of both lines. */
  lemma CleanJoinsLines(a: string, k: nat, b: string)
    requires k >= 1 && '\n' !in a && '\n' !in b && a != [] && b != []
    requires !IsSpace(a[0]) && !IsSpace(b[|b| - 1])
    requires !HasCue(a + LineBreaks(k) + b) && !Occurs(a + LineBreaks(k) + b, Header)
    ensures Clean(a + LineBreaks(k) + b) == a + " " + b
  {
    var s := a + LineBreaks(k) + b;
    assert s == a + (LineBreaks(k) + b);
    CollapseRun(a, k, b);
    var r := a + " " + b;
    assert r == a + ([' '] + CollapseNewlines(b));
    assert r[0] == a[0] && r[|r| - 1] == b[|b| - 1];
    StripKeepsTrimmed(r);
  }
}
