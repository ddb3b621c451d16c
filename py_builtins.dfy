/** The pieces of Python's built-in `str`, `int` and `None` that the sensor
    sources rely on, over Dafny strings (`seq<char>`). */
module PyBuiltins {

  /** A value that may be Python's `None`. */
  datatype Option<T> = None | Some(value: T)

  /** The characters `str.isspace()` accepts: the ASCII whitespace and
      separators, NEL, NO-BREAK SPACE and the Unicode space separators and
      line and paragraph separators. */
  const Whitespace: set<char> := {
    ' ', '\t', '\n', '\U{b}', '\U{c}', '\r', '\U{1c}', '\U{1d}', '\U{1e}', '\U{1f}',
    '\U{85}', '\U{a0}', '\U{1680}',
    '\U{2000}', '\U{2001}', '\U{2002}', '\U{2003}', '\U{2004}', '\U{2005}',
    '\U{2006}', '\U{2007}', '\U{2008}', '\U{2009}', '\U{200a}',
    '\U{2028}', '\U{2029}', '\U{202f}', '\U{205f}', '\U{3000}'
  }

  /** `c.isspace()`: the characters that `str.strip()` with no argument removes. */
  predicate IsSpace(c: char) {
    c in Whitespace
  }

  /** `s.lstrip()`: the string without its leading whitespace. */
  function StripLeft(s: string): string {
    if s != [] && IsSpace(s[0]) then StripLeft(s[1..]) else s
  }

  /** `s.rstrip()`: the string without its trailing whitespace. */
  function StripRight(s: string): string {
    if s != [] && IsSpace(s[|s| - 1]) then StripRight(s[..|s| - 1]) else s
  }

  /** `s.strip()` */
  function Strip(s: string): string {
    StripRight(StripLeft(s))
  }

  /** `lstrip` drops the leading whitespace and nothing else. */
  lemma StripLeftSpec(s: string)
    ensures |StripLeft(s)| <= |s| && StripLeft(s) == s[|s| - |StripLeft(s)|..]
    ensures StripLeft(s) == [] || !IsSpace(StripLeft(s)[0])
    ensures forall i :: 0 <= i < |s| - |StripLeft(s)| ==> IsSpace(s[i])
  {
    var n := StripLeftCount(s);
    assert StripLeft(s) == s[n..] && StripLeft(s)[..] == s[n..];
  }

  /** How many characters `lstrip` drops, with what they are. */
  lemma {:induction false} StripLeftCount(s: string) returns (n: nat)
    ensures n <= |s| && StripLeft(s) == s[n..]
    ensures n < |s| ==> !IsSpace(s[n])
    ensures forall i :: 0 <= i < n ==> IsSpace(s[i])
  {
    if s != [] && IsSpace(s[0]) {
      var m := StripLeftCount(s[1..]);
      n := m + 1;
      assert s[1..][m..] == s[n..];
      forall i | 0 < i < n
        ensures IsSpace(s[i])
      {
        assert s[i] == s[1..][i - 1];
      }
      if n < |s| {
        assert s[n] == s[1..][m];
      }
    } else {
      n := 0;
    }
  }

  /** `rstrip` drops the trailing whitespace and nothing else. */
  lemma StripRightSpec(s: string)
    ensures |StripRight(s)| <= |s| && StripRight(s) == s[..|StripRight(s)|]
    ensures StripRight(s) == [] || !IsSpace(StripRight(s)[|StripRight(s)| - 1])
    ensures forall i :: |StripRight(s)| <= i < |s| ==> IsSpace(s[i])
  {
    var n := StripRightCount(s);
  }

  /** Where `rstrip` cuts, with what it cuts off. */
  lemma {:induction false} StripRightCount(s: string) returns (n: nat)
    ensures n <= |s| && StripRight(s) == s[..n]
    ensures n > 0 ==> !IsSpace(s[n - 1])
    ensures forall i :: n <= i < |s| ==> IsSpace(s[i])
  {
    if s != [] && IsSpace(s[|s| - 1]) {
      var t := s[..|s| - 1];
      n := StripRightCount(t);
      assert t[..n] == s[..n];
      forall i | n <= i < |s| - 1
        ensures IsSpace(s[i])
      {
        assert s[i] == t[i];
      }
      if n > 0 {
        assert s[n - 1] == t[n - 1];
      }
    } else {
      n := |s|;
    }
  }

  /** `strip` gives the part of `s` between its leading and its trailing
      whitespace: what is cut off is whitespace, and what is left neither
      starts nor ends with whitespace. */
  lemma StripSpec(s: string)
    ensures Strip(s) == [] || (!IsSpace(Strip(s)[0]) && !IsSpace(Strip(s)[|Strip(s)| - 1]))
    ensures exists lo :: TrimmedAt(s, Strip(s), lo)
  {
    var l := StripLeft(s);
    StripLeftSpec(s);
    StripRightSpec(l);
    var r := Strip(s);
    assert r == [] || r[0] == l[0];
    assert TrimmedAt(s, r, |s| - |l|);
  }

  /** `r` is `s` with whitespace cut off at both ends, the cut at the front
      being `lo` characters long. */
  predicate TrimmedAt(s: string, r: string, lo: int) {
    OccursAt(s, r, lo)
    && (forall i :: 0 <= i < lo ==> IsSpace(s[i]))
    && (forall i :: lo + |r| <= i < |s| ==> IsSpace(s[i]))
  }

  /** Stripping a string that neither starts nor ends with whitespace
      leaves it as it is. */
  lemma StripUntrimmed(s: string)
    requires s == [] || (!IsSpace(s[0]) && !IsSpace(s[|s| - 1]))
    ensures Strip(s) == s
  {
  }

  /** `str.strip()` is idempotent. */
  lemma StripIdempotent(s: string)
    ensures Strip(Strip(s)) == Strip(s)
  {
    StripSpec(s);
    StripUntrimmed(Strip(s));
  }

  /** `c.lower()` for the ASCII letters. */
  function LowerChar(c: char): char {
    if 'A' <= c <= 'Z' then (c as int + 32) as char else c
  }

  /** `s.lower()`, folding the ASCII letters. */
  function Lower(s: string): string {
    if s == [] then [] else [LowerChar(s[0])] + Lower(s[1..])
  }

  /** `lower` maps each character on its own. */
  lemma {:induction false} LowerSpec(s: string)
    ensures |Lower(s)| == |s|
    ensures forall i :: 0 <= i < |s| ==> Lower(s)[i] == LowerChar(s[i])
  {
    if s != [] {
      LowerSpec(s[1..]);
      assert forall i :: 0 < i < |s| ==> s[1..][i - 1] == s[i];
    }
  }

  /** `t in s` for strings: `t` occurs in `s` as a contiguous substring. */
  predicate Contains(s: string, t: string) {
    exists i | 0 <= i <= |s| - |t| :: OccursAt(s, t, i)
  }

  /** `t` occurs in `s` starting at index `i`. */
  predicate OccursAt(s: string, t: string, i: int) {
    0 <= i <= |s| - |t| && s[i..i + |t|] == t
  }

  /** Occurrence is transitive: a string that contains `t` contains every
      substring of `t`. */
  lemma ContainsTransitive(s: string, t: string, u: string)
    requires Contains(s, t) && Contains(t, u)
    ensures Contains(s, u)
  {
    var i :| 0 <= i <= |s| - |t| && OccursAt(s, t, i);
    var j :| 0 <= j <= |t| - |u| && OccursAt(t, u, j);
    forall k | 0 <= k < |u|
      ensures s[i + j + k] == u[k]
    {
      assert u[k] == t[j + k] == s[i + j + k];
    }
    assert s[i + j..i + j + |u|] == u;
    assert OccursAt(s, u, i + j);
  }

  /** `s.split(sep)[0]`: the part of `s` before the first occurrence of `sep`,
      or all of `s` when `sep` does not occur. */
  function Before(s: string, sep: string): string
    requires sep != []
  {
    if |s| < |sep| then s
    else if s[..|sep|] == sep then []
    else [s[0]] + Before(s[1..], sep)
  }

  /** `Before` gives a prefix of `s` in which `sep` does not start anywhere,
      and that is either all of `s` or followed by `sep`. */
  lemma {:induction false} BeforeSpec(s: string, sep: string)
    requires sep != []
    ensures Before(s, sep) <= s
    ensures forall j :: 0 <= j < |Before(s, sep)| ==> !OccursAt(s, sep, j)
    ensures Before(s, sep) == s || OccursAt(s, sep, |Before(s, sep)|)
  {
    if |s| < |sep| {
    } else if s[..|sep|] == sep {
      assert OccursAt(s, sep, 0);
    } else {
      var t := Before(s[1..], sep);
      BeforeSpec(s[1..], sep);
      assert Before(s, sep) == [s[0]] + t;
      forall j | 0 <= j < |t| + 1
        ensures !OccursAt(s, sep, j)
      {
        if j == 0 {
          assert s[0..|sep|] == s[..|sep|];
        } else {
          OccursTail(s, sep, j);
        }
      }
      if t != s[1..] {
        OccursTail(s, sep, |t| + 1);
      }
    }
  }

  /** An occurrence after the first character is an occurrence in the tail. */
  lemma OccursTail(s: string, t: string, j: int)
    requires 0 < j && s != []
    ensures OccursAt(s, t, j) == OccursAt(s[1..], t, j - 1)
  {
    if j <= |s| - |t| {
      assert s[j..j + |t|] == s[1..][j - 1..j - 1 + |t|];
    }
  }

  /** `Before` cuts exactly when the separator occurs. */
  lemma BeforeCuts(s: string, sep: string)
    requires sep != []
    ensures Before(s, sep) != s <==> Contains(s, sep)
  {
    BeforeSpec(s, sep);
    if Contains(s, sep) {
      var i :| 0 <= i <= |s| - |sep| && OccursAt(s, sep, i);
    }
  }

  predicate IsDigit(c: char) {
    '0' <= c <= '9'
  }

  /** `s.isdecimal()`, for the ASCII digits: non-empty and digits only. */
  predicate IsDecimal(s: string) {
    |s| > 0 && forall i :: 0 <= i < |s| ==> IsDigit(s[i])
  }

  /** `int(s)` on a string of decimal digits. */
  function ParseDecimal(s: string): (n: nat)
    requires forall i :: 0 <= i < |s| ==> IsDigit(s[i])
  {
    if s == [] then 0
    else
      assert IsDigit(s[|s| - 1]);
      ParseDecimal(s[..|s| - 1]) * 10 + (s[|s| - 1] as int - '0' as int)
  }

  /** `str(n)` for a natural number: its decimal digits, most significant first. */
  function NatText(n: nat): (r: string)
    ensures IsDecimal(r)
    ensures ParseDecimal(r) == n
    ensures r[0] == '0' ==> n == 0
  {
    var d := ['0' + (n % 10) as char];
    if n < 10 then d
    else
      var r := NatText(n / 10) + d;
      assert r[..|r| - 1] == NatText(n / 10);
      r
  }

  /** `str(n)` for any int: a minus sign before the digits of a negative number. */
  function IntText(n: int): (r: string)
    ensures |r| > 0
    ensures n >= 0 <==> r[0] != '-'
    ensures n >= 0 ==> IsDecimal(r) && ParseDecimal(r) == n
    ensures n < 0 ==> IsDecimal(r[1..]) && ParseDecimal(r[1..]) == -n
  {
    if n >= 0 then NatText(n) else "-" + NatText(-n)
  }
}
