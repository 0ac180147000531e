/** String primitives the bot's decision procedure is built from: substring
    membership (Python's `in` on two strings), ASCII lower-casing, the
    whitespace class of `str.strip`, prefix slicing and leading runs. */
module Text {

  /** An optional value. */
  datatype Option<T> = None | Some(value: T)

  /** `p` occurs in `s` starting at index `i`. */
  ghost predicate OccursAt(s: string, p: string, i: int)
  {
    0 <= i && i + |p| <= |s| && s[i..i + |p|] == p
  }

  /** Reference meaning of substring membership: some position holds `p`. */
  ghost predicate Occurs(s: string, p: string)
  {
    exists i :: OccursAt(s, p, i)
  }

  /** Python's `p in s` for two strings, as a left-to-right scan.
      The empty pattern occurs in every string. */
  function Contains(s: string, p: string): (r: bool)
    ensures r <==> Occurs(s, p)
    decreases |s|
  {
    if |s| < |p| then
      assert forall i :: !OccursAt(s, p, i);
      false
    else if s[..|p|] == p then
      assert OccursAt(s, p, 0);
      true
    else
      OccursStep(s, p);
      Contains(s[1..], p)
  }

  /** When `p` does not start `s`, it occurs in `s` exactly when it occurs
      in `s` without its first character. */
  lemma OccursStep(s: string, p: string)
    requires |p| <= |s| && s[..|p|] != p
    ensures Occurs(s, p) <==> Occurs(s[1..], p)
  {
    if Occurs(s[1..], p) {
      var i :| OccursAt(s[1..], p, i);
      assert s[1..][i..i + |p|] == s[1 + i..1 + i + |p|];
      assert OccursAt(s, p, 1 + i);
    }
    if Occurs(s, p) {
      var i :| OccursAt(s, p, i);
      assert i != 0;
      assert s[1..][i - 1..i - 1 + |p|] == s[i..i + |p|];
      assert OccursAt(s[1..], p, i - 1);
    }
  }

  /** ASCII lower-casing of one character; every other character is kept. */
  function LowerChar(c: char): char
  {
    if 'A' <= c <= 'Z' then (c as int + 32) as char else c
  }

  /** ASCII version of Python's `str.lower`. */
  function Lower(s: string): (r: string)
    ensures |r| == |s|
    ensures forall i :: 0 <= i < |s| ==> r[i] == LowerChar(s[i])
  {
    seq(|s|, i requires 0 <= i < |s| => LowerChar(s[i]))
  }

  /** The characters Python's `str.isspace` accepts, restricted to ASCII:
      space, tab, line feed, carriage return, vertical tab, form feed and the
      four information separators 0x1C to 0x1F. */
  predicate IsSpace(c: char)
  {
    c == ' ' || c == '\t' || c == '\n' || c == '\r' || c == '\U{0B}' || c == '\U{0C}'
    || ('\U{1C}' <= c <= '\U{1F}')
  }

  /** ASCII decimal digit, the class `\d` is restricted to. */
  predicate IsDigit(c: char)
  {
    '0' <= c <= '9'
  }

  /** Length of the longest prefix of `s` whose characters all satisfy `keep`. */
  function Span(s: string, keep: char -> bool): (n: nat)
    ensures n <= |s|
    ensures forall j :: 0 <= j < n ==> keep(s[j])
    ensures n == |s| || !keep(s[n])
  {
    if s == [] || !keep(s[0]) then 0 else 1 + Span(s[1..], keep)
  }

  /** Length of the longest suffix of `s` whose characters all satisfy `keep`. */
  function BackSpan(s: string, keep: char -> bool): (n: nat)
    ensures n <= |s|
    ensures forall j :: |s| - n <= j < |s| ==> keep(s[j])
    ensures n == |s| || !keep(s[|s| - n - 1])
  {
    if s == [] || !keep(s[|s| - 1]) then 0 else 1 + BackSpan(s[..|s| - 1], keep)
  }

  /** Python's slice `s[:n]` for a non-negative bound. */
  function Take(s: string, n: nat): (r: string)
    ensures |r| == if |s| <= n then |s| else n
    ensures r == s[..|r|]
    ensures |s| <= n ==> r == s
  {
    if |s| <= n then s else s[..n]
  }
}
